/** The browser side of the chatbot (script.js): the filter form and the criteria
    it sends, the active-filter strip, the chat transcript and the `isLoading`
    gate that keeps one query at a time. Requests are abstract: a handler that
    awaits a response is split at its `await` into a `Begin` method, which runs
    up to the request, and a `Complete` method, which runs when the outcome
    (a response or an error) arrives. */
module Chat {
  import opened Text
  import opened Html
  import opened ResultsTable

  // ---------------------------------------------------------------------------
  // The filter form.

  /** The four filter names, in the order `applyFilters` lists them. */
  const FilterKeys: seq<string> := ["location", "company", "role", "skills"]

  /** The values of the four form fields (`locationFilter`, `companyFilter`,
      `roleFilter`, `skillsFilter`). */
  datatype FilterFields = FilterFields(location: string, company: string, role: string, skills: string)

  const EmptyFields: FilterFields := FilterFields("", "", "", "")

  /** The field a filter name reads; a name that is not a filter has no field. */
  function FieldValue(f: FilterFields, key: string): string {
    if key == "location" then f.location
    else if key == "company" then f.company
    else if key == "role" then f.role
    else if key == "skills" then f.skills
    else ""
  }

  /** Setting the field of a filter name to the empty string. */
  function ClearField(f: FilterFields, key: string): (r: FilterFields)
    ensures FieldValue(r, key) == ""
    ensures forall k :: k != key ==> FieldValue(r, k) == FieldValue(f, k)
  {
    if key == "location" then f.(location := "")
    else if key == "company" then f.(company := "")
    else if key == "role" then f.(role := "")
    else if key == "skills" then f.(skills := "")
    else f
  }

  predicate AllEmpty(f: FilterFields) {
    f.location == "" && f.company == "" && f.role == "" && f.skills == ""
  }

  /** Filter criteria as `applyFilters` stores them: only the four names, none empty. */
  predicate WellFormed(m: map<string, string>) {
    forall k :: k in m ==> k in FilterKeys && m[k] != ""
  }

  /** The criteria the form describes: every filled-in field under its name. */
  function CollectFilters(f: FilterFields): map<string, string> {
    map k | k in FilterKeys && FieldValue(f, k) != "" :: FieldValue(f, k)
  }

  /** The criteria of a form are well formed and hold every filled-in field. */
  lemma CollectFiltersMeaning(f: FilterFields)
    ensures WellFormed(CollectFilters(f))
    ensures forall k :: k in FilterKeys && FieldValue(f, k) != "" ==> k in CollectFilters(f) && CollectFilters(f)[k] == FieldValue(f, k)
    ensures forall k :: k in CollectFilters(f) ==> k in FilterKeys && FieldValue(f, k) != "" && CollectFilters(f)[k] == FieldValue(f, k)
  {
  }

  /** A form describes no criteria exactly when every field is empty. */
  lemma CollectFiltersEmpty(f: FilterFields)
    ensures CollectFilters(f) == map[] <==> AllEmpty(f)
  {
    var r := CollectFilters(f);
    assert f.location != "" ==> "location" in r;
    assert f.company != "" ==> "company" in r;
    assert f.role != "" ==> "role" in r;
    assert f.skills != "" ==> "skills" in r;
  }

  /** The first statements of `applyFilters`: an object of all four fields from
      which the `forEach` loop deletes every key whose value is empty. */
  method RemoveEmptyFilters(f: FilterFields) returns (filters: map<string, string>)
    ensures filters == CollectFilters(f)
    ensures WellFormed(filters)
    ensures |filters| == 0 <==> AllEmpty(f)
  {
    filters := map["location" := f.location, "company" := f.company, "role" := f.role, "skills" := f.skills];
    var keys := FilterKeys;
    for i := 0 to |keys|
      invariant forall k :: k in filters ==> k in FilterKeys && filters[k] == FieldValue(f, k)
      invariant forall k :: k in filters && k in keys[..i] ==> filters[k] != ""
      invariant forall j :: 0 <= j < |keys| ==> (keys[j] in filters <==> i <= j || FieldValue(f, keys[j]) != "")
    {
      if filters[keys[i]] == "" {
        filters := filters - {keys[i]};
      }
    }
    assert forall k :: k in filters <==> k in CollectFilters(f);
    CollectFiltersEmpty(f);
  }

  /** Clearing one field withdraws exactly that criterion from what the form describes. */
  lemma CollectClear(f: FilterFields, key: string)
    ensures CollectFilters(ClearField(f, key)) == CollectFilters(f) - {key}
  {
    var a, b := CollectFilters(ClearField(f, key)), CollectFilters(f) - {key};
    assert forall k :: k in a <==> k in b;
  }

  /** `formatFilterLabel(key)`: the four filter names get their capitalised labels;
      any other name is shown as it is. */
  function FormatFilterLabel(key: string): (r: string)
    ensures key == "location" ==> r == "Location"
    ensures key == "company" ==> r == "Company"
    ensures key == "role" ==> r == "Role"
    ensures key == "skills" ==> r == "Skills"
    ensures r == key <==> key !in FilterKeys
  {
    if key == "location" then "Location"
    else if key == "company" then "Company"
    else if key == "role" then "Role"
    else if key == "skills" then "Skills"
    else key
  }

  /** The tags of the active-filter strip for the names in `keys`, in that order:
      a label and the value as it is (the value is not escaped). */
  function Tags(m: map<string, string>, keys: seq<string>): seq<(string, string)> {
    if keys == [] then []
    else (if keys[0] in m then [(FormatFilterLabel(keys[0]), m[keys[0]])] else []) + Tags(m, keys[1..])
  }

  /** Every tag shows an active filter of `keys`, and every active filter of `keys`
      has its tag. */
  lemma {:induction false} TagsMeaning(m: map<string, string>, keys: seq<string>)
    ensures |Tags(m, keys)| <= |keys|
    ensures forall e :: e in Tags(m, keys) ==> exists k :: k in keys && k in m && e == (FormatFilterLabel(k), m[k])
    ensures forall k :: k in keys && k in m ==> (FormatFilterLabel(k), m[k]) in Tags(m, keys)
  {
    if keys != [] {
      TagsMeaning(m, keys[1..]);
      var head := if keys[0] in m then [(FormatFilterLabel(keys[0]), m[keys[0]])] else [];
      assert Tags(m, keys) == head + Tags(m, keys[1..]);
      assert forall k :: k in keys ==> k == keys[0] || k in keys[1..];
    }
  }

  /** With distinct names, there are as many tags as names of `keys` that are active. */
  lemma {:induction false} TagsCount(m: map<string, string>, keys: seq<string>)
    requires forall i, j :: 0 <= i < j < |keys| ==> keys[i] != keys[j]
    ensures |Tags(m, keys)| == |m.Keys * (set k | k in keys)|
  {
    if keys != [] {
      var rest := keys[1..];
      assert forall i, j :: 0 <= i < j < |rest| ==> rest[i] != rest[j] by {
        forall i, j | 0 <= i < j < |rest| ensures rest[i] != rest[j] {
          assert rest[i] == keys[i + 1] && rest[j] == keys[j + 1];
        }
      }
      TagsCount(m, rest);
      ElementsCons(keys);
      assert keys[0] !in (set k | k in rest);
      CountCons(m.Keys, keys[0], set k | k in rest);
    }
  }

  /** The strip holds exactly one tag per active filter. */
  lemma TagStripCount(m: map<string, string>)
    requires WellFormed(m)
    ensures |TagStrip(m)| == |m|
  {
    TagsCount(m, FilterKeys);
    assert m.Keys * (set k | k in FilterKeys) == m.Keys;
  }

  /** Without active filters there are no tags. */
  lemma {:induction false} TagsNone(keys: seq<string>)
    ensures Tags(map[], keys) == []
  {
    if keys != [] {
      TagsNone(keys[1..]);
    }
  }

  /** `updateActiveFiltersDisplay`: one tag per active filter. The keys of the
      criteria object are always filter names in form order, so they are listed
      in that order. */
  function TagStrip(m: map<string, string>): seq<(string, string)> {
    Tags(m, FilterKeys)
  }

  /** The strip (and its "Active Filters:" heading) is empty exactly when there are
      no active filters. */
  lemma TagStripEmpty(m: map<string, string>)
    requires WellFormed(m)
    ensures TagStrip(m) == [] <==> m == map[]
  {
    TagsMeaning(m, FilterKeys);
    if m == map[] {
      TagsNone(FilterKeys);
    } else {
      var k :| k in m;
      assert (FormatFilterLabel(k), m[k]) in TagStrip(m);
    }
  }

  // ---------------------------------------------------------------------------
  // The transcript.

  datatype Role = User | Assistant | System

  /** What the message area holds: each message as `addMessage(role, content)`
      received it (its markup is `MessageHtml(role, content)`), and the loading
      placeholder (`#loadingMessage`). */
  datatype Entry = Message(role: Role, content: string) | Loading

  /** The messages of a transcript, without placeholders. */
  function Messages(t: seq<Entry>): seq<Entry> {
    if t == [] then [] else (if t[0].Loading? then [] else [t[0]]) + Messages(t[1..])
  }

  /** `removeLoadingMessage()`: removes the first placeholder (the one
      `getElementById` finds), if there is one. */
  function RemoveLoadingEntry(t: seq<Entry>): (r: seq<Entry>)
    ensures Loading !in t ==> r == t
    ensures Loading in t ==> |r| == |t| - 1 && multiset(r)[Loading] == multiset(t)[Loading] - 1
  {
    if t == [] then []
    else if t[0] == Loading then
      assert t == [t[0]] + t[1..];
      t[1..]
    else
      var rest := RemoveLoadingEntry(t[1..]);
      assert t == [t[0]] + t[1..];
      [t[0]] + rest
  }

  /** The placeholder removed is the first one: with the first placeholder at `i`,
      everything before it stays in front and everything after it follows. */
  lemma {:induction false} RemoveLoadingFirst(t: seq<Entry>, i: nat)
    requires i < |t| && t[i] == Loading
    requires forall j :: 0 <= j < i ==> t[j] != Loading
    ensures RemoveLoadingEntry(t) == t[..i] + t[i + 1..]
  {
    if i == 0 {
      assert t[..0] + t[1..] == t[1..];
    } else {
      assert t[0] != Loading;
      RemoveLoadingFirst(t[1..], i - 1);
      assert RemoveLoadingEntry(t) == [t[0]] + RemoveLoadingEntry(t[1..]);
      DropOneCons(t, i);
    }
  }

  /** Removing the placeholder takes away one placeholder and nothing else. */
  lemma {:induction false} RemoveLoadingMultiset(t: seq<Entry>)
    requires Loading in t
    ensures multiset(RemoveLoadingEntry(t)) == multiset(t) - multiset{Loading}
  {
    assert t == [t[0]] + t[1..];
    if t[0] != Loading {
      RemoveLoadingMultiset(t[1..]);
    }
  }

  /** Removing the placeholder keeps the messages, in their order. */
  lemma {:induction false} RemoveLoadingKeepsMessages(t: seq<Entry>)
    ensures Messages(RemoveLoadingEntry(t)) == Messages(t)
  {
    if t != [] && t[0] != Loading {
      RemoveLoadingKeepsMessages(t[1..]);
      var r := RemoveLoadingEntry(t);
      assert r == [t[0]] + RemoveLoadingEntry(t[1..]);
      ConsParts(t[0], RemoveLoadingEntry(t[1..]));
      assert Messages(r) == [t[0]] + Messages(r[1..]);
    }
  }

  /** The content of an assistant message: a reply holding a table is inserted as
      it is, anything else through `formatMessage`. */
  function AssistantHtml(content: string): string {
    if Contains(content, "<table>") then content else FormatMessage(content)
  }

  /** The content `addMessage(role, content)` puts into the message area. */
  function MessageHtml(role: Role, content: string): string {
    match role
    case Assistant => AssistantHtml(content)
    case _ => EscapeHtml(content)
  }

  /** User and system messages are escaped, and an assistant message without a
      table only carries the tags `formatMessage` inserts. */
  lemma MessageHtmlSafe(role: Role, content: string)
    requires role != Assistant || !Contains(content, "<table>")
    ensures OnlyTags(MessageHtml(role, content), FormatTags)
  {
    if role == Assistant {
      FormatMessageOnlyTags(content);
    }
  }

  /** An assistant reply that holds a table reaches the page unescaped, with any
      other markup in it. */
  lemma AssistantTableRaw()
    ensures var reply := "<table></table><img src=x>";
            StartsAt(MessageHtml(Assistant, reply), 15, "<img")
  {
    var reply := "<table></table><img src=x>";
    assert reply[..7] == "<table>";
    assert Contains(reply, "<table>");
  }

  /** The filter results are shown through `formatMessage` when they hold no table
      (no count, or no records) and as they are otherwise. */
  lemma FilterResultsDisplay(results: seq<Record>, count: int)
    ensures AssistantHtml(FilterResultsText(results, count))
         == if count != 0 && results != [] then FilterResultsText(results, count)
            else FormatMessage(FilterResultsText(results, count))
  {
    TableExactlyWithResults(results, count);
  }

  // ---------------------------------------------------------------------------
  // The page.

  datatype Request = QueryRequest(query: string) | FilterRequest(filters: map<string, string>)

  /** How a `POST /api/filter` ends: a parsed response, or an error (network
      failure, a status that is not ok, or a body that is not JSON). */
  datatype FilterOutcome = FilterOk(results: seq<Record>, count: int) | FilterFailed

  /** How a `POST /api/query` ends. */
  datatype QueryOutcome = QueryOk(response: string) | QueryFailed

  const NoFilterAlert: string := "Please select at least one filter"
  const FilterErrorText: string := "Sorry, I encountered an error processing your filters. Please try again."
  const OfflineText: string :=
    "Unable to connect to the backend server. Please make sure your Python server is running on http://localhost:5000"
    + "\n\nTo start the server:\n1. Run: python app.py\n2. Ensure Flask and Flask-CORS are installed"
  const QueryErrorText: string := "Sorry, I encountered an error processing your request. Please try again."

  /** The page: the globals of script.js and the parts of the document they drive. */
  class ChatApp {
    /** The global `isLoading`. */
    var isLoading: bool
    /** The global `isConnected`; nothing ever sets it to true. */
    var isConnected: bool
    /** The global `activeFilters`. */
    var activeFilters: map<string, string>
    /** The four fields of the filter form. */
    var inputs: FilterFields
    /** The text of `userInput`. */
    var draft: string
    /** `userInput.disabled` and `sendBtn.disabled`, which always change together. */
    var controlsDisabled: bool
    /** The message area, in document order. */
    var transcript: seq<Entry>
    /** Requests sent whose outcome has not arrived yet. */
    var pending: nat
    /** Every request sent, in order. */
    var requests: seq<Request>
    /** Every `alert` shown, in order. */
    var alerts: seq<string>

    /** What every handler keeps: the criteria are well formed (so the tag strip
        `TagStrip(activeFilters)` shows each of them), the page never counts as
        connected, the controls are disabled exactly while loading, the flag is only
        set while a request is out, and each request out has its placeholder. */
    ghost predicate Valid()
      reads this
    {
      && WellFormed(activeFilters)
      && !isConnected
      && controlsDisabled == isLoading
      && (isLoading ==> pending > 0)
      && multiset(transcript)[Loading] == pending
    }

    /** The page after `DOMContentLoaded`, before any response has arrived. */
    constructor()
      ensures Valid()
      ensures !isLoading && !isConnected && !controlsDisabled && pending == 0
      ensures activeFilters == map[] && inputs == EmptyFields && draft == ""
      ensures transcript == [] && requests == [] && alerts == []
    {
      isLoading := false;
      isConnected := false;
      activeFilters := map[];
      inputs := EmptyFields;
      draft := "";
      controlsDisabled := false;
      transcript := [];
      pending := 0;
      requests := [];
      alerts := [];
    }

    /** `applyFilters()` up to its `await`. With every field empty it only alerts;
        otherwise it stores the criteria, sets `isLoading` (without looking at it
        first), disables the controls, shows the placeholder and sends the criteria. */
    method BeginApplyFilters()
      requires Valid()
      modifies this
      ensures Valid()
      ensures isConnected == old(isConnected) && inputs == old(inputs) && draft == old(draft)
      ensures AllEmpty(old(inputs)) ==>
                && alerts == old(alerts) + [NoFilterAlert]
                && isLoading == old(isLoading) && activeFilters == old(activeFilters) && controlsDisabled == old(controlsDisabled) && transcript == old(transcript)
                && pending == old(pending) && requests == old(requests)
      ensures !AllEmpty(old(inputs)) ==>
                && activeFilters == CollectFilters(old(inputs))
                && isLoading && controlsDisabled
                && transcript == old(transcript) + [Loading]
                && pending == old(pending) + 1
                && requests == old(requests) + [FilterRequest(activeFilters)]
                && alerts == old(alerts)
    {
      var filters := RemoveEmptyFilters(inputs);
      if |filters| == 0 {
        alerts := alerts + [NoFilterAlert];
        return;
      }
      activeFilters := filters;
      isLoading := true;
      controlsDisabled := true;
      transcript := transcript + [Loading];
      pending := pending + 1;
      requests := requests + [FilterRequest(filters)];
    }

    /** The rest of `applyFilters()`: the placeholder goes, the results (or the error
        message) are shown, and the `finally` block clears `isLoading` and enables
        the controls. */
    method CompleteFilterRequest(outcome: FilterOutcome)
      requires Valid() && pending > 0
      modifies this
      ensures Valid()
      ensures var text := match outcome
                          case FilterOk(results, count) => FilterResultsText(results, count)
                          case FilterFailed => FilterErrorText;
              transcript == RemoveLoadingEntry(old(transcript)) + [Message(Assistant, text)]
      ensures pending == old(pending) - 1 && !isLoading && !controlsDisabled
      ensures isConnected == old(isConnected) && activeFilters == old(activeFilters) && inputs == old(inputs) && draft == old(draft)
      ensures requests == old(requests) && alerts == old(alerts)
    {
      var text;
      match outcome {
        case FilterOk(results, count) =>
          text := DisplayFilterResults(results, count);
        case FilterFailed =>
          text := FilterErrorText;
      }
      transcript := RemoveLoadingEntry(transcript) + [Message(Assistant, text)];
      pending := pending - 1;
      isLoading := false;
      controlsDisabled := false;
    }

    /** `applyFilters()` when its response arrives before anything else happens: the
        criteria are those of the form, and on every path that sent a request the
        flag is clear again at the end. */
    method ApplyFilters(outcome: FilterOutcome)
      requires Valid()
      modifies this
      ensures Valid()
      ensures isConnected == old(isConnected) && inputs == old(inputs) && draft == old(draft)
      ensures AllEmpty(old(inputs)) ==>
                && alerts == old(alerts) + [NoFilterAlert]
                && isLoading == old(isLoading) && activeFilters == old(activeFilters) && controlsDisabled == old(controlsDisabled)
                && transcript == old(transcript) && pending == old(pending) && requests == old(requests)
      ensures !AllEmpty(old(inputs)) ==>
                && activeFilters == CollectFilters(old(inputs))
                && !isLoading && !controlsDisabled
                && pending == old(pending)
                && requests == old(requests) + [FilterRequest(activeFilters)]
                && alerts == old(alerts)
      ensures !AllEmpty(old(inputs)) ==>
                var text := match outcome
                            case FilterOk(results, count) => FilterResultsText(results, count)
                            case FilterFailed => FilterErrorText;
                transcript == RemoveLoadingEntry(old(transcript) + [Loading]) + [Message(Assistant, text)]
    {
      var sent := pending;
      BeginApplyFilters();
      if pending > sent {
        CompleteFilterRequest(outcome);
      }
    }

    /** `clearFilters()`: empties the form and the criteria; no request is sent. */
    method ClearFilters()
      requires Valid()
      modifies this
      ensures Valid()
      ensures inputs == EmptyFields && activeFilters == map[]
      ensures isLoading == old(isLoading) && isConnected == old(isConnected) && draft == old(draft) && controlsDisabled == old(controlsDisabled)
      ensures transcript == old(transcript) && pending == old(pending) && requests == old(requests) && alerts == old(alerts)
      ensures CollectFilters(inputs) == activeFilters
    {
      inputs := EmptyFields;
      activeFilters := map[];
      CollectFiltersEmpty(inputs);
    }

    /** `removeFilter(key)`: drops `key` from the criteria, clears its field and, when
        criteria remain, runs `applyFilters()` again up to its `await`; that run
        collects the form afresh. When the form was in step with the criteria, the
        criteria end up exactly without `key`. */
    method RemoveFilter(key: string)
      requires Valid()
      modifies this
      ensures Valid()
      ensures inputs == ClearField(old(inputs), key)
      ensures isConnected == old(isConnected) && draft == old(draft)
      ensures old(activeFilters) - {key} == map[] ==>
                && activeFilters == map[]
                && isLoading == old(isLoading) && controlsDisabled == old(controlsDisabled) && transcript == old(transcript)
                && pending == old(pending) && requests == old(requests) && alerts == old(alerts)
      ensures old(activeFilters) - {key} != map[] && AllEmpty(inputs) ==>
                && activeFilters == old(activeFilters) - {key}
                && alerts == old(alerts) + [NoFilterAlert]
                && isLoading == old(isLoading) && controlsDisabled == old(controlsDisabled) && transcript == old(transcript)
                && pending == old(pending) && requests == old(requests)
      ensures old(activeFilters) - {key} != map[] && !AllEmpty(inputs) ==>
                && activeFilters == CollectFilters(inputs)
                && isLoading && controlsDisabled
                && transcript == old(transcript) + [Loading]
                && pending == old(pending) + 1
                && requests == old(requests) + [FilterRequest(activeFilters)]
                && alerts == old(alerts)
      ensures old(CollectFilters(inputs) == activeFilters) ==> activeFilters == old(activeFilters) - {key}
    {
      activeFilters := activeFilters - {key};
      inputs := ClearField(inputs, key);
      CollectClear(old(inputs), key);
      if |activeFilters| > 0 {
        BeginApplyFilters();
      }
    }

    /** `handleSend()` up to its `await`: nothing happens when the trimmed input is
        empty or a query is loading; otherwise the user's message is shown, the input
        emptied, the flag set, the controls disabled, the placeholder shown and the
        query sent. */
    method BeginSend()
      requires Valid()
      modifies this
      ensures Valid()
      ensures isConnected == old(isConnected) && activeFilters == old(activeFilters) && inputs == old(inputs) && alerts == old(alerts)
      ensures JsTrim(old(draft)) == [] || old(isLoading) ==>
                isLoading == old(isLoading) && draft == old(draft) && controlsDisabled == old(controlsDisabled) && transcript == old(transcript) && pending == old(pending) && requests == old(requests)
      ensures JsTrim(old(draft)) != [] && !old(isLoading) ==>
                && transcript == old(transcript) + [Message(User, JsTrim(old(draft))), Loading]
                && draft == "" && isLoading && controlsDisabled
                && pending == old(pending) + 1
                && requests == old(requests) + [QueryRequest(JsTrim(old(draft)))]
    {
      var message := JsTrim(draft);
      if message == [] || isLoading {
        return;
      }
      transcript := transcript + [Message(User, message)];
      draft := "";
      isLoading := true;
      controlsDisabled := true;
      transcript := transcript + [Loading];
      pending := pending + 1;
      requests := requests + [QueryRequest(message)];
    }

    /** The rest of `handleSend()`: the placeholder goes, the reply (or an error
        message chosen by `isConnected`) is shown, and the `finally` block clears the
        flag and enables the controls. As `isConnected` is never true, a failure
        always shows the offline message. */
    method CompleteQuery(outcome: QueryOutcome)
      requires Valid() && pending > 0
      modifies this
      ensures Valid()
      ensures var text := match outcome
                          case QueryOk(response) => response
                          case QueryFailed => if old(isConnected) then QueryErrorText else OfflineText;
              transcript == RemoveLoadingEntry(old(transcript)) + [Message(Assistant, text)]
      ensures pending == old(pending) - 1 && !isLoading && !controlsDisabled
      ensures isConnected == old(isConnected) && activeFilters == old(activeFilters) && inputs == old(inputs) && draft == old(draft)
      ensures requests == old(requests) && alerts == old(alerts)
      ensures outcome.QueryFailed? ==> transcript[|transcript| - 1] == Message(Assistant, OfflineText)
    {
      var text;
      match outcome {
        case QueryOk(response) =>
          text := response;
        case QueryFailed =>
          if !isConnected {
            text := OfflineText;
          } else {
            text := QueryErrorText;
          }
      }
      transcript := RemoveLoadingEntry(transcript) + [Message(Assistant, text)];
      pending := pending - 1;
      isLoading := false;
      controlsDisabled := false;
    }

    /** `handleSend()` when its reply arrives before anything else happens. */
    method HandleSend(outcome: QueryOutcome)
      requires Valid()
      modifies this
      ensures Valid()
      ensures isConnected == old(isConnected) && activeFilters == old(activeFilters) && inputs == old(inputs) && alerts == old(alerts)
      ensures JsTrim(old(draft)) == [] || old(isLoading) ==>
                && isLoading == old(isLoading) && draft == old(draft) && controlsDisabled == old(controlsDisabled)
                && transcript == old(transcript) && pending == old(pending) && requests == old(requests)
      ensures JsTrim(old(draft)) != [] && !old(isLoading) ==>
                && !isLoading && !controlsDisabled && draft == ""
                && pending == old(pending)
                && requests == old(requests) + [QueryRequest(JsTrim(old(draft)))]
      ensures JsTrim(old(draft)) != [] && !old(isLoading) ==>
                var text := match outcome
                            case QueryOk(response) => response
                            case QueryFailed => OfflineText;
                transcript == RemoveLoadingEntry(old(transcript) + [Message(User, JsTrim(old(draft))), Loading]) + [Message(Assistant, text)]
    {
      var sent := pending;
      BeginSend();
      if pending > sent {
        CompleteQuery(outcome);
      }
    }
  }

  // ---------------------------------------------------------------------------
  // Proof helpers: facts about sequences and sets that the proofs above name
  // explicitly, so the solver need not search for them. They model nothing.

  /** The elements of a non-empty sequence: its head and those of its tail. */
  lemma ElementsCons<T>(s: seq<T>)
    requires s != []
    ensures (set k | k in s) == {s[0]} + (set k | k in s[1..])
  {
  }

  /** Adding a fresh element to a set adds one to its meet with `m` exactly when
      the element is in `m`. */
  lemma CountCons<T>(m: set<T>, x: T, later: set<T>)
    requires x !in later
    ensures |m * ({x} + later)| == (if x in m then 1 else 0) + |m * later|
  {
    if x in m {
      assert m * ({x} + later) == {x} + m * later;
    } else {
      assert m * ({x} + later) == m * later;
    }
  }

  /** Cutting out position `i > 0` keeps the head in front of the cut-out tail. */
  lemma DropOneCons<T>(t: seq<T>, i: nat)
    requires 0 < i < |t|
    ensures t[..i] + t[i + 1..] == [t[0]] + (t[1..][..i - 1] + t[1..][i..])
  {
    assert t[..i] == [t[0]] + t[1..][..i - 1];
    assert t[i + 1..] == t[1..][i..];
  }

  /** The head and the tail of `[x] + s`. */
  lemma ConsParts<T>(x: T, s: seq<T>)
    ensures ([x] + s)[0] == x && ([x] + s)[1..] == s
  {
  }
}
