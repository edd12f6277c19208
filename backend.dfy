/** The Flask backend's row filtering (chatbot.py, `filter_data`) and the input
    checks of `query`. The CSV is a table of named columns whose cells are text or
    null; a filter request names up to four criteria, each applied to the first
    candidate column the table has. */
module Backend {
  import opened Wrappers
  import opened Text

  /** A record of the table: column name to cell, `None` for a null cell. */
  type Row = map<string, Option<string>>

  /** The loaded CSV: its column names, in order, and its rows. */
  datatype Table = Table(columns: seq<string>, rows: seq<Row>)

  /** The cell of `row` in `column`; a column the row lacks reads as null. */
  function Cell(row: Row, column: string): Option<string> {
    if column in row then row[column] else None
  }

  // ---------------------------------------------------------------------------
  // Column detection.

  /** `{col.lower(): col for col in dataframe.columns}`: each lower-cased name maps
      to a column; when two columns lower-case alike, the later one wins. */
  function ColumnsLower(columns: seq<string>): map<string, string>
    decreases |columns|
  {
    if columns == [] then map[]
    else
      var last := columns[|columns| - 1];
      ColumnsLower(columns[..|columns| - 1])[Lower(last) := last]
  }

  /** Every column is found under its lower-cased name. */
  lemma {:induction false} ColumnsLowerFindsAll(columns: seq<string>)
    ensures forall i :: 0 <= i < |columns| ==> Lower(columns[i]) in ColumnsLower(columns)
    decreases |columns|
  {
    if columns != [] {
      var prefix := columns[..|columns| - 1];
      ColumnsLowerFindsAll(prefix);
      assert forall i :: 0 <= i < |prefix| ==> columns[i] == prefix[i];
    }
  }

  /** Every name found belongs to a column that lower-cases to it. */
  lemma {:induction false} ColumnsLowerSound(columns: seq<string>)
    ensures forall name :: name in ColumnsLower(columns) ==>
              ColumnsLower(columns)[name] in columns && Lower(ColumnsLower(columns)[name]) == name
    decreases |columns|
  {
    if columns != [] {
      var prefix := columns[..|columns| - 1];
      ColumnsLowerSound(prefix);
      assert forall c :: c in prefix ==> c in columns;
    }
  }

  /** A column that no later column shadows is the one found under its name. */
  lemma {:induction false} ColumnsLowerLastWins(columns: seq<string>, i: nat)
    requires i < |columns|
    requires forall j :: i < j < |columns| ==> Lower(columns[j]) != Lower(columns[i])
    ensures Lower(columns[i]) in ColumnsLower(columns) && ColumnsLower(columns)[Lower(columns[i])] == columns[i]
    decreases |columns|
  {
    var prefix := columns[..|columns| - 1];
    if i < |prefix| {
      assert forall j :: i < j < |prefix| ==> prefix[j] == columns[j];
      ColumnsLowerLastWins(prefix, i);
    }
  }

  /** The placeholder `'YOUR_COLUMN_NAME'` of the candidate lists is not lower case,
      so it never names a column. */
  lemma PlaceholderNeverMatches(columns: seq<string>)
    ensures "YOUR_COLUMN_NAME" !in ColumnsLower(columns)
  {
    ColumnsLowerSound(columns);
  }

  /** The column of the first candidate name the table has, if any. */
  function FirstCandidate(candidates: seq<string>, lower: map<string, string>): Option<string> {
    if candidates == [] then None
    else if candidates[0] in lower then Some(lower[candidates[0]])
    else FirstCandidate(candidates[1..], lower)
  }

  /** The column chosen is that of a candidate the table has with no earlier
      candidate present; there is none exactly when the table has no candidate. */
  lemma {:induction false} FirstCandidateMeaning(candidates: seq<string>, lower: map<string, string>)
    ensures FirstCandidate(candidates, lower).None? <==> forall i :: 0 <= i < |candidates| ==> candidates[i] !in lower
    ensures FirstCandidate(candidates, lower).Some? ==>
              exists i :: 0 <= i < |candidates| && candidates[i] in lower
                          && FirstCandidate(candidates, lower) == Some(lower[candidates[i]])
                          && forall j :: 0 <= j < i ==> candidates[j] !in lower
  {
    if candidates != [] && candidates[0] !in lower {
      FirstCandidateMeaning(candidates[1..], lower);
      assert forall i :: 1 <= i < |candidates| ==> candidates[i] == candidates[1..][i - 1];
      if FirstCandidate(candidates, lower).Some? {
        var i :| 0 <= i < |candidates[1..]| && candidates[1..][i] in lower
                 && FirstCandidate(candidates[1..], lower) == Some(lower[candidates[1..][i]])
                 && forall j :: 0 <= j < i ==> candidates[1..][j] !in lower;
        assert candidates[i + 1] == candidates[1..][i];
      }
    } else if candidates != [] {
      assert candidates[0] in lower;
    }
  }

  /** The `for col in ...: if col in columns_lower: ...; break` scan. */
  method FindColumn(candidates: seq<string>, lower: map<string, string>) returns (column: Option<string>)
    ensures column == FirstCandidate(candidates, lower)
  {
    column := None;
    for i := 0 to |candidates|
      invariant FirstCandidate(candidates[i..], lower) == FirstCandidate(candidates, lower)
    {
      assert candidates[i..][1..] == candidates[i + 1..];
      if candidates[i] in lower {
        column := Some(lower[candidates[i]]);
        break;
      }
    }
  }

  // ---------------------------------------------------------------------------
  // Criteria.

  /** A narrowing step: the cell in `column` contains `needle` ignoring case
      (`str.contains(..., case=False, na=False)`), or contains any of the skill
      tokens once lower-cased. Null cells never match. */
  datatype Criterion = TextMatch(column: string, needle: string) | AnySkill(column: string, tokens: seq<string>)

  predicate Holds(c: Criterion, row: Row) {
    match c
    case TextMatch(column, needle) =>
      Cell(row, column).Some? && Contains(Lower(Cell(row, column).value), Lower(needle))
    case AnySkill(column, tokens) =>
      Cell(row, column).Some? && exists t :: t in tokens && Contains(Lower(Cell(row, column).value), t)
  }

  /** `filtered_df[mask]`: the rows that meet `c`, in their order. */
  function Keep(rows: seq<Row>, c: Criterion): seq<Row> {
    if rows == [] then []
    else (if Holds(c, rows[0]) then [rows[0]] else []) + Keep(rows[1..], c)
  }

  /** `[s.strip().lower() for s in skills.split(',')]`. */
  function SkillTokens(skills: string): (tokens: seq<string>)
    ensures |tokens| == |Split(skills, ',')|
  {
    var parts := Split(skills, ',');
    seq(|parts|, i requires 0 <= i < |parts| => Lower(PyStrip(parts[i])))
  }

  /** One skill token is comma-free, lower-cased and has no surrounding whitespace. */
  lemma TokenShape(piece: string)
    requires ',' !in piece
    ensures var token := Lower(PyStrip(piece));
            && ',' !in token
            && (forall k :: 0 <= k < |token| ==> !IsAsciiUpper(token[k]))
            && (token != [] ==> !IsPySpace(token[0]) && !IsPySpace(token[|token| - 1]))
  {
    var stripped := PyStrip(piece);
    TrimMeaning(piece, IsPySpace);
    ContainsBlock(piece, stripped, ',');
  }

  /** One skill token is a block of the lower-cased piece. */
  lemma TokenOrigin(piece: string)
    ensures Contains(Lower(piece), Lower(PyStrip(piece)))
  {
    var stripped := PyStrip(piece);
    TrimBlock(piece, IsPySpace);
    var a := LeadingSpaces(piece, IsPySpace);
    var b := a + |stripped|;
    assert piece[a..b] == stripped;
    LowerBlock(piece, a, b);
  }

  /** One skill token is empty exactly when its piece is blank. */
  lemma TokenBlank(piece: string)
    ensures Lower(PyStrip(piece)) == [] <==> forall k :: 0 <= k < |piece| ==> IsPySpace(piece[k])
  {
    TrimMeaning(piece, IsPySpace);
  }

  /** Each skill token is the stripped, lower-cased comma-separated piece it comes
      from, with the properties of `TokenShape`, `TokenOrigin` and `TokenBlank`. */
  lemma SkillTokensMeaning(skills: string)
    ensures forall i :: 0 <= i < |SkillTokens(skills)| ==>
              var token := SkillTokens(skills)[i];
              var piece := Split(skills, ',')[i];
              && ',' !in token
              && (forall k :: 0 <= k < |token| ==> !IsAsciiUpper(token[k]))
              && (token != [] ==> !IsPySpace(token[0]) && !IsPySpace(token[|token| - 1]))
              && Contains(Lower(piece), token)
              && (token == [] <==> forall k :: 0 <= k < |piece| ==> IsPySpace(piece[k]))
  {
    var parts := Split(skills, ',');
    forall i | 0 <= i < |parts|
      ensures var token := Lower(PyStrip(parts[i]));
              && ',' !in token
              && (forall k :: 0 <= k < |token| ==> !IsAsciiUpper(token[k]))
              && (token != [] ==> !IsPySpace(token[0]) && !IsPySpace(token[|token| - 1]))
              && Contains(Lower(parts[i]), token)
              && (token == [] <==> forall k :: 0 <= k < |parts[i]| ==> IsPySpace(parts[i][k]))
    {
      TokenShape(parts[i]);
      TokenOrigin(parts[i]);
      TokenBlank(parts[i]);
    }
  }

  const LocationColumns: seq<string> := ["location", "city", "place", "area"]
  const CompanyColumns: seq<string> := ["company", "company_name", "organization", "employer"]
  const RoleColumns: seq<string> := ["role", "position", "job_title", "title", "designation"]
  const SkillsColumns: seq<string> := ["skills", "required_skills", "technologies", "tech_stack"]

  /** The candidate columns `filter_data` tries for a filter name; other names have none. */
  function CandidateColumns(key: string): seq<string> {
    if key == "location" then LocationColumns
    else if key == "company" then CompanyColumns
    else if key == "role" then RoleColumns
    else if key == "skills" then SkillsColumns
    else []
  }

  /** The step of the location, company or role filter: none when the name is
      missing, its value empty or no candidate column exists. */
  function TextStep(key: string, candidates: seq<string>, filters: map<string, string>, lower: map<string, string>): Option<Criterion> {
    if key in filters && filters[key] != "" then
      match FirstCandidate(candidates, lower)
      case None => None
      case Some(column) => Some(TextMatch(column, filters[key]))
    else None
  }

  /** The step of the skills filter, on the same terms. */
  function SkillsStep(filters: map<string, string>, lower: map<string, string>): Option<Criterion> {
    if "skills" in filters && filters["skills"] != "" then
      match FirstCandidate(SkillsColumns, lower)
      case None => None
      case Some(column) => Some(AnySkill(column, SkillTokens(filters["skills"])))
    else None
  }

  /** The step a filter name contributes; a name that is not a filter has none. */
  function CriterionFor(key: string, filters: map<string, string>, lower: map<string, string>): Option<Criterion> {
    if key == "skills" then SkillsStep(filters, lower) else TextStep(key, CandidateColumns(key), filters, lower)
  }

  function Narrow(rows: seq<Row>, step: Option<Criterion>): seq<Row> {
    match step
    case None => rows
    case Some(c) => Keep(rows, c)
  }

  /** The rows that survive location, company, role and skills, narrowed in that order. */
  function Matching(t: Table, filters: map<string, string>): seq<Row> {
    var lower := ColumnsLower(t.columns);
    var afterLocation := Narrow(t.rows, TextStep("location", LocationColumns, filters, lower));
    var afterCompany := Narrow(afterLocation, TextStep("company", CompanyColumns, filters, lower));
    var afterRole := Narrow(afterCompany, TextStep("role", RoleColumns, filters, lower));
    Narrow(afterRole, SkillsStep(filters, lower))
  }

  function StepList(step: Option<Criterion>): seq<Criterion> {
    match step
    case None => []
    case Some(c) => [c]
  }

  /** The steps a request takes, in order. */
  function ActiveCriteria(t: Table, filters: map<string, string>): seq<Criterion> {
    var lower := ColumnsLower(t.columns);
    StepList(TextStep("location", LocationColumns, filters, lower)) + StepList(TextStep("company", CompanyColumns, filters, lower))
    + StepList(TextStep("role", RoleColumns, filters, lower)) + StepList(SkillsStep(filters, lower))
  }

  /** The steps of a request are those of the four filter names, in the order the
      code applies them. */
  lemma ActiveCriteriaSteps(t: Table, filters: map<string, string>)
    ensures var lower := ColumnsLower(t.columns);
            ActiveCriteria(t, filters)
            == StepList(CriterionFor("location", filters, lower)) + StepList(CriterionFor("company", filters, lower))
               + StepList(CriterionFor("role", filters, lower)) + StepList(CriterionFor("skills", filters, lower))
  {
  }

  /** A filter name takes a step exactly when its value is present and non-empty
      and the table has one of its candidate columns. The step then tests the
      first candidate present: for the value as a text, or for skills, for any of
      its tokens. */
  lemma CriterionForMeaning(key: string, filters: map<string, string>, lower: map<string, string>)
    ensures CriterionFor(key, filters, lower).Some? <==>
              && key in filters && filters[key] != ""
              && exists i :: 0 <= i < |CandidateColumns(key)| && CandidateColumns(key)[i] in lower
    ensures CriterionFor(key, filters, lower).Some? ==>
              var c := CriterionFor(key, filters, lower).value;
              && Some(c.column) == FirstCandidate(CandidateColumns(key), lower)
              && c == (if key == "skills" then AnySkill(c.column, SkillTokens(filters[key])) else TextMatch(c.column, filters[key]))
  {
    FirstCandidateMeaning(CandidateColumns(key), lower);
  }

  // ---------------------------------------------------------------------------
  // The endpoint.

  /** At most this many records are returned. */
  const ResultLimit: nat := 50

  /** The 400 answer (`No filters provided`), or the records shown and the number
      of matches before truncation. */
  datatype FilterResponse = NoFilters | Filtered(results: seq<Row>, count: nat)

  /** `filter_data` on a request whose `filters` member is `request` (`None` when it
      is missing or null). */
  function FilterSpec(t: Table, request: Option<map<string, string>>): FilterResponse {
    if request.None? || request.value == map[] then NoFilters
    else
      var m := Matching(t, request.value);
      Filtered(if |m| > ResultLimit then m[..ResultLimit] else m, |m|)
  }

  /** `filter_data`: the criteria are applied one after another to a copy of the
      table, the matches counted, and the list cut to the first 50. */
  method FilterData(t: Table, request: Option<map<string, string>>) returns (response: FilterResponse)
    ensures response == FilterSpec(t, request)
  {
    if request.None? || request.value == map[] {
      return NoFilters;
    }
    var filters := request.value;
    var filtered := t.rows;
    var lower := ColumnsLower(t.columns);
    if "location" in filters && filters["location"] != "" {
      var column := FindColumn(LocationColumns, lower);
      if column.Some? {
        filtered := Keep(filtered, TextMatch(column.value, filters["location"]));
      }
    }
    ghost var afterLocation := filtered;
    assert afterLocation == Narrow(t.rows, TextStep("location", LocationColumns, filters, lower));
    if "company" in filters && filters["company"] != "" {
      var column := FindColumn(CompanyColumns, lower);
      if column.Some? {
        filtered := Keep(filtered, TextMatch(column.value, filters["company"]));
      }
    }
    ghost var afterCompany := filtered;
    assert afterCompany == Narrow(afterLocation, TextStep("company", CompanyColumns, filters, lower));
    if "role" in filters && filters["role"] != "" {
      var column := FindColumn(RoleColumns, lower);
      if column.Some? {
        filtered := Keep(filtered, TextMatch(column.value, filters["role"]));
      }
    }
    ghost var afterRole := filtered;
    assert afterRole == Narrow(afterCompany, TextStep("role", RoleColumns, filters, lower));
    if "skills" in filters && filters["skills"] != "" {
      var tokens := SkillTokens(filters["skills"]);
      var column := FindColumn(SkillsColumns, lower);
      if column.Some? {
        filtered := Keep(filtered, AnySkill(column.value, tokens));
      }
    }
    assert filtered == Narrow(afterRole, SkillsStep(filters, lower));
    assert filtered == Matching(t, filters);
    var results := filtered;
    var count := |results|;
    if count > ResultLimit {
      results := results[..ResultLimit];
    }
    return Filtered(results, count);
  }

  // ---------------------------------------------------------------------------
  // What the endpoint promises.

  /** `a` is `b` with some elements left out, the rest in their order. */
  predicate IsSubseq<T(==)>(a: seq<T>, b: seq<T>)
    decreases |b|
  {
    if a == [] then true
    else if b == [] then false
    else (a[0] == b[0] && IsSubseq(a[1..], b[1..])) || IsSubseq(a, b[1..])
  }

  lemma {:induction false} SubseqLength<T>(a: seq<T>, b: seq<T>)
    requires IsSubseq(a, b)
    ensures |a| <= |b|
    decreases |b|
  {
    if a != [] {
      if a[0] == b[0] && IsSubseq(a[1..], b[1..]) {
        SubseqLength(a[1..], b[1..]);
      } else {
        SubseqLength(a, b[1..]);
      }
    }
  }

  lemma {:induction false} SubseqPrefix<T>(a: seq<T>, b: seq<T>, n: nat)
    requires IsSubseq(a, b) && n <= |a|
    ensures IsSubseq(a[..n], b)
    decreases |b|
  {
    if n > 0 {
      if a[0] == b[0] && IsSubseq(a[1..], b[1..]) {
        SubseqPrefix(a[1..], b[1..], n - 1);
        assert a[..n][1..] == a[1..][..n - 1];
      } else {
        SubseqPrefix(a, b[1..], n);
      }
    }
  }

  predicate AllHold(cs: seq<Criterion>, row: Row) {
    forall c :: c in cs ==> Holds(c, row)
  }

  /** The rows that meet every criterion of `cs`, in their order: the narrowing
      steps taken all at once. */
  function Select(rows: seq<Row>, cs: seq<Criterion>): seq<Row> {
    if rows == [] then []
    else (if AllHold(cs, rows[0]) then [rows[0]] else []) + Select(rows[1..], cs)
  }

  lemma {:induction false} SelectMembership(rows: seq<Row>, cs: seq<Criterion>)
    ensures forall r :: r in Select(rows, cs) <==> r in rows && AllHold(cs, r)
  {
    if rows != [] {
      SelectMembership(rows[1..], cs);
      assert rows == [rows[0]] + rows[1..];
    }
  }

  lemma {:induction false} SelectSubseq(rows: seq<Row>, cs: seq<Criterion>)
    ensures IsSubseq(Select(rows, cs), rows)
  {
    if rows != [] {
      SelectSubseq(rows[1..], cs);
      var rest := Select(rows[1..], cs);
      if AllHold(cs, rows[0]) {
        var s := [rows[0]] + rest;
        assert s[0] == rows[0] && s[1..] == rest;
      } else {
        assert Select(rows, cs) == rest;
      }
    }
  }

  lemma {:induction false} SelectNone(rows: seq<Row>)
    ensures Select(rows, []) == rows
  {
    if rows != [] {
      SelectNone(rows[1..]);
      assert rows == [rows[0]] + rows[1..];
    }
  }

  /** Narrowing by one more criterion is selecting by the longer list. */
  lemma {:induction false} KeepSelect(rows: seq<Row>, cs: seq<Criterion>, c: Criterion)
    ensures Keep(Select(rows, cs), c) == Select(rows, cs + [c])
  {
    if rows != [] {
      KeepSelect(rows[1..], cs, c);
      var rest := Select(rows[1..], cs);
      assert AllHold(cs + [c], rows[0]) <==> AllHold(cs, rows[0]) && Holds(c, rows[0]);
      if AllHold(cs, rows[0]) {
        var s := [rows[0]] + rest;
        assert s[0] == rows[0] && s[1..] == rest;
      } else {
        assert Select(rows, cs) == rest;
      }
    }
  }

  lemma NarrowSelect(rows: seq<Row>, cs: seq<Criterion>, step: Option<Criterion>)
    ensures Narrow(Select(rows, cs), step) == Select(rows, cs + StepList(step))
  {
    match step
    case None => assert cs + [] == cs;
    case Some(c) => KeepSelect(rows, cs, c);
  }

  /** The four steps in turn select the rows that meet every active criterion. */
  lemma MatchingSelect(t: Table, filters: map<string, string>)
    ensures Matching(t, filters) == Select(t.rows, ActiveCriteria(t, filters))
  {
    var lower := ColumnsLower(t.columns);
    var l1 := StepList(TextStep("location", LocationColumns, filters, lower));
    var l2 := StepList(TextStep("company", CompanyColumns, filters, lower));
    var l3 := StepList(TextStep("role", RoleColumns, filters, lower));
    SelectNone(t.rows);
    NarrowSelect(t.rows, [], TextStep("location", LocationColumns, filters, lower));
    assert [] + l1 == l1;
    NarrowSelect(t.rows, l1, TextStep("company", CompanyColumns, filters, lower));
    NarrowSelect(t.rows, l1 + l2, TextStep("role", RoleColumns, filters, lower));
    NarrowSelect(t.rows, l1 + l2 + l3, SkillsStep(filters, lower));
  }

  /** A row is among the matches exactly when it is a row of the table and meets
      every active criterion. */
  lemma MatchingMembership(t: Table, filters: map<string, string>, row: Row)
    ensures row in Matching(t, filters) <==>
              row in t.rows && forall c :: c in ActiveCriteria(t, filters) ==> Holds(c, row)
  {
    MatchingSelect(t, filters);
    SelectMembership(t.rows, ActiveCriteria(t, filters));
  }

  /** A request without criteria is refused; any other is answered with the first
      50 matches, in table order, and the number of all matches. */
  lemma FilterResponseShape(t: Table, request: Option<map<string, string>>)
    ensures FilterSpec(t, request).NoFilters? <==> request.None? || request.value == map[]
    ensures FilterSpec(t, request).Filtered? ==>
              var r := FilterSpec(t, request);
              var m := Matching(t, request.value);
              && r.count == |m| <= |t.rows|
              && |r.results| == (if r.count > ResultLimit then ResultLimit else r.count)
              && r.results == m[..|r.results|]
              && IsSubseq(r.results, t.rows)
  {
    if request.Some? && request.value != map[] {
      var m := Matching(t, request.value);
      MatchingSelect(t, request.value);
      SelectSubseq(t.rows, ActiveCriteria(t, request.value));
      SubseqLength(m, t.rows);
      var n := if |m| > ResultLimit then ResultLimit else |m|;
      SubseqPrefix(m, t.rows, n);
      assert m[..|m|] == m;
    }
  }

  /** Meeting more criteria can only leave fewer rows, in the same order. */
  lemma {:induction false} SelectNarrower(rows: seq<Row>, cs: seq<Criterion>, ds: seq<Criterion>)
    requires forall c :: c in cs ==> c in ds
    ensures IsSubseq(Select(rows, ds), Select(rows, cs))
  {
    if rows != [] {
      SelectNarrower(rows[1..], cs, ds);
      var a, b := Select(rows[1..], ds), Select(rows[1..], cs);
      if AllHold(ds, rows[0]) {
        var s, u := [rows[0]] + a, [rows[0]] + b;
        assert s[0] == u[0] && s[1..] == a && u[1..] == b;
      } else if AllHold(cs, rows[0]) {
        var u := [rows[0]] + b;
        assert Select(rows, ds) == a && Select(rows, cs) == u;
        assert u != [] && u[1..] == b;
      } else {
        assert Select(rows, ds) == a && Select(rows, cs) == b;
      }
    }
  }

  /** The same criteria, in any order or repeated, select the same rows. */
  lemma {:induction false} SelectSameCriteria(rows: seq<Row>, cs: seq<Criterion>, ds: seq<Criterion>)
    requires forall c :: c in cs <==> c in ds
    ensures Select(rows, cs) == Select(rows, ds)
  {
    if rows != [] {
      SelectSameCriteria(rows[1..], cs, ds);
      assert AllHold(cs, rows[0]) == AllHold(ds, rows[0]);
    }
  }

  /** Adding a criterion for a name that had none never enlarges the matches. */
  lemma MoreCriteriaNarrow(t: Table, filters: map<string, string>, key: string, value: string)
    requires key !in filters || filters[key] == ""
    ensures IsSubseq(Matching(t, filters[key := value]), Matching(t, filters))
  {
    var wider := filters[key := value];
    var lower := ColumnsLower(t.columns);
    assert TextStep("location", LocationColumns, filters, lower) == None
        || TextStep("location", LocationColumns, filters, lower) == TextStep("location", LocationColumns, wider, lower);
    assert TextStep("company", CompanyColumns, filters, lower) == None
        || TextStep("company", CompanyColumns, filters, lower) == TextStep("company", CompanyColumns, wider, lower);
    assert TextStep("role", RoleColumns, filters, lower) == None
        || TextStep("role", RoleColumns, filters, lower) == TextStep("role", RoleColumns, wider, lower);
    assert SkillsStep(filters, lower) == None || SkillsStep(filters, lower) == SkillsStep(wider, lower);
    MatchingSelect(t, filters);
    MatchingSelect(t, wider);
    SelectNarrower(t.rows, ActiveCriteria(t, filters), ActiveCriteria(t, wider));
  }

  /** A name that contributes no step (its value is empty, it is not a filter name,
      or the table has none of its candidate columns) can be dropped from the
      request without changing the matches. */
  lemma InactiveKeyIgnored(t: Table, filters: map<string, string>, key: string)
    requires key in filters ==> filters[key] == "" || FirstCandidate(CandidateColumns(key), ColumnsLower(t.columns)).None?
    ensures Matching(t, filters - {key}) == Matching(t, filters)
  {
    var fewer := filters - {key};
    var lower := ColumnsLower(t.columns);
    assert TextStep("location", LocationColumns, fewer, lower) == TextStep("location", LocationColumns, filters, lower);
    assert TextStep("company", CompanyColumns, fewer, lower) == TextStep("company", CompanyColumns, filters, lower);
    assert TextStep("role", RoleColumns, fewer, lower) == TextStep("role", RoleColumns, filters, lower);
    assert SkillsStep(fewer, lower) == SkillsStep(filters, lower);
  }

  /** Narrowing twice gives the same rows in either order. */
  lemma NarrowCommute(rows: seq<Row>, a: Option<Criterion>, b: Option<Criterion>)
    ensures Narrow(Narrow(rows, a), b) == Narrow(Narrow(rows, b), a)
  {
    SelectNone(rows);
    NarrowSelect(rows, [], a);
    NarrowSelect(rows, [] + StepList(a), b);
    NarrowSelect(rows, [], b);
    NarrowSelect(rows, [] + StepList(b), a);
    SelectSameCriteria(rows, [] + StepList(a) + StepList(b), [] + StepList(b) + StepList(a));
  }

  /** The steps applied one after another, in the order given. */
  function KeepAll(rows: seq<Row>, cs: seq<Criterion>): seq<Row>
    decreases |cs|
  {
    if cs == [] then rows else KeepAll(Keep(rows, cs[0]), cs[1..])
  }

  lemma {:induction false} KeepAllSelect(rows: seq<Row>, done: seq<Criterion>, cs: seq<Criterion>)
    ensures KeepAll(Select(rows, done), cs) == Select(rows, done + cs)
    decreases |cs|
  {
    if cs == [] {
      assert done + cs == done;
    } else {
      KeepSelect(rows, done, cs[0]);
      KeepAllSelect(rows, done + [cs[0]], cs[1..]);
      assert done + [cs[0]] + cs[1..] == done + cs;
    }
  }

  /** The four steps may be taken in any order: the matches are the same. */
  lemma MatchingAnyOrder(t: Table, filters: map<string, string>, order: seq<Criterion>)
    requires multiset(order) == multiset(ActiveCriteria(t, filters))
    ensures KeepAll(t.rows, order) == Matching(t, filters)
  {
    SelectNone(t.rows);
    KeepAllSelect(t.rows, [], order);
    assert [] + order == order;
    assert forall c :: c in order <==> c in multiset(order);
    SelectSameCriteria(t.rows, order, ActiveCriteria(t, filters));
    MatchingSelect(t, filters);
  }

  /** A skill list with a blank entry (a trailing comma, two commas in a row, or an
      entry of spaces) matches every row whose cell is not null. */
  lemma BlankSkillMatchesAll(skills: string, column: string, row: Row)
    requires exists i :: 0 <= i < |Split(skills, ',')| && PyStrip(Split(skills, ',')[i]) == []
    requires Cell(row, column).Some?
    ensures Holds(AnySkill(column, SkillTokens(skills)), row)
  {
    var parts := Split(skills, ',');
    var i :| 0 <= i < |parts| && PyStrip(parts[i]) == [];
    var tokens := SkillTokens(skills);
    var text := Lower(Cell(row, column).value);
    assert tokens[i] == [];
    assert tokens[i] in tokens && Contains(text, tokens[i]);
  }

  /** In particular a skill list ending in a comma matches every such row. */
  lemma TrailingCommaMatchesAll(skills: string, column: string, row: Row)
    requires skills != [] && skills[|skills| - 1] == ','
    requires Cell(row, column).Some?
    ensures Holds(AnySkill(column, SkillTokens(skills)), row)
  {
    var parts := Split(skills, ',');
    assert parts[|parts| - 1] == [];
    assert PyStrip(parts[|parts| - 1]) == [];
    BlankSkillMatchesAll(skills, column, row);
  }

  /** The answer of `query` when the agent replies `run(q)` to the query `q`. */
  datatype QueryResponse = NoQuery | Answered(response: string)

  /** `query`: a missing or empty query is refused before the agent is asked. */
  function Query(query: Option<string>, run: string -> string): (r: QueryResponse)
    ensures r.NoQuery? <==> query.None? || query.value == ""
    ensures r.Answered? ==> r.response == run(query.value)
  {
    if query.None? || query.value == "" then NoQuery else Answered(run(query.value))
  }
}
