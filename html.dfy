/** The text rendering of the chat page: `escapeHtml` and the markdown-lite
    `formatMessage` (script.js:427-444). */
module Html {
  import opened Wrappers
  import opened Text

  const NoBreakSpace: char := '\U{A0}'
  const BulletSign: char := '\U{2022}'

  /** The characters the entity names below are spelled with. */
  const EntityChars: string := "&;ampltgnbs"

  /** How one character of a text node is serialised: section 13.3 of the HTML
      Living Standard, "escaping a string" outside attribute mode. */
  function EscapeChar(c: char): (r: string)
    ensures r != []
    ensures forall k :: 0 <= k < |r| ==> r[k] == c || r[k] in EntityChars
  {
    if c == '&' then "&amp;"
    else if c == NoBreakSpace then "&nbsp;"
    else if c == '<' then "&lt;"
    else if c == '>' then "&gt;"
    else [c]
  }

  /** `escapeHtml(text)`: the `innerHTML` of a `div` whose text content is `text`.
      No `<`, `>` or no-break space survives, and every character of the result is
      either one of the text's own or part of an entity name. */
  function EscapeHtml(s: string): (r: string)
    ensures |r| >= |s|
    ensures forall k :: 0 <= k < |r| ==> r[k] != '<' && r[k] != '>' && r[k] != NoBreakSpace
    ensures forall k :: 0 <= k < |r| ==> r[k] in s || r[k] in EntityChars
  {
    if s == [] then [] else EscapeChar(s[0]) + EscapeHtml(s[1..])
  }

  /** Decoding of the four entities `EscapeHtml` produces; any other character stands for itself. */
  function Unescape(s: string): string
  {
    if s == [] then []
    else if "&amp;" <= s then "&" + Unescape(s[5..])
    else if "&lt;" <= s then "<" + Unescape(s[4..])
    else if "&gt;" <= s then ">" + Unescape(s[4..])
    else if "&nbsp;" <= s then [NoBreakSpace] + Unescape(s[6..])
    else [s[0]] + Unescape(s[1..])
  }

  lemma UnescapeChar(c: char, rest: string)
    ensures Unescape(EscapeChar(c) + rest) == [c] + Unescape(rest)
  {
    var e := EscapeChar(c) + rest;
    if c == '&' {
      assert "&amp;" <= e && e[5..] == rest;
    } else if c == NoBreakSpace {
      assert e[1] == 'n' && "&nbsp;" <= e && e[6..] == rest;
      assert !("&amp;" <= e) && !("&lt;" <= e) && !("&gt;" <= e);
    } else if c == '<' {
      assert "&lt;" <= e && e[4..] == rest;
    } else if c == '>' {
      assert e[1] == 'g' && "&gt;" <= e && e[4..] == rest;
      assert !("&amp;" <= e) && !("&lt;" <= e);
    } else {
      assert e[0] == c && e[1..] == rest;
    }
  }

  /** Escaping loses nothing: decoding the escaped text gives the text back, so
      two different texts never render alike. */
  lemma {:induction false} UnescapeEscape(s: string)
    ensures Unescape(EscapeHtml(s)) == s
  {
    if s != [] {
      UnescapeChar(s[0], EscapeHtml(s[1..]));
      UnescapeEscape(s[1..]);
      assert s == [s[0]] + s[1..];
    }
  }

  lemma EscapeHtmlInjective(s: string, t: string)
    requires EscapeHtml(s) == EscapeHtml(t)
    ensures s == t
  {
    UnescapeEscape(s);
    UnescapeEscape(t);
  }

  // ---------------------------------------------------------------------------
  // Markup safety: where a `<` may stand.

  /** `t` stands in `s` at position `k`. */
  predicate StartsAt(s: string, k: int, t: string) {
    0 <= k && k + |t| <= |s| && s[k..k + |t|] == t
  }

  lemma StartsAtLeft(a: string, b: string, k: int, t: string)
    requires StartsAt(a, k, t)
    ensures StartsAt(a + b, k, t)
  {
    assert (a + b)[k..k + |t|] == a[k..k + |t|];
  }

  lemma StartsAtRight(a: string, b: string, k: int, t: string)
    requires StartsAt(b, k, t)
    ensures StartsAt(a + b, |a| + k, t)
  {
    assert (a + b)[|a| + k..|a| + k + |t|] == b[k..k + |t|];
  }

  /** One of `tags` stands in `s` at position `k`. */
  predicate TagAt(s: string, k: int, tags: seq<string>) {
    exists j :: 0 <= j < |tags| && StartsAt(s, k, tags[j])
  }

  /** Every `<` of `s` opens one of `tags`: no other markup can appear. */
  predicate OnlyTags(s: string, tags: seq<string>) {
    forall k :: 0 <= k < |s| && s[k] == '<' ==> TagAt(s, k, tags)
  }

  predicate NoLess(s: string) {
    forall k :: 0 <= k < |s| ==> s[k] != '<'
  }

  lemma {:induction false} OnlyTagsConcat(a: string, b: string, tags: seq<string>)
    requires OnlyTags(a, tags) && OnlyTags(b, tags)
    ensures OnlyTags(a + b, tags)
  {
    var s := a + b;
    forall k | 0 <= k < |s| && s[k] == '<'
      ensures TagAt(s, k, tags)
    {
      if k < |a| {
        assert a[k] == '<';
        var j :| 0 <= j < |tags| && StartsAt(a, k, tags[j]);
        assert s[k..k + |tags[j]|] == a[k..k + |tags[j]|];
        assert StartsAt(s, k, tags[j]);
      } else {
        var k' := k - |a|;
        assert b[k'] == '<';
        var j :| 0 <= j < |tags| && StartsAt(b, k', tags[j]);
        assert s[k..k + |tags[j]|] == b[k'..k' + |tags[j]|];
        assert StartsAt(s, k, tags[j]);
      }
    }
  }

  /** A text that is itself `tags[j]`, followed by no other `<`, keeps to `tags`. */
  lemma TagAlone(tags: seq<string>, j: nat)
    requires j < |tags| && tags[j] != [] && tags[j][0] == '<'
    requires forall k :: 0 < k < |tags[j]| ==> tags[j][k] != '<'
    ensures OnlyTags(tags[j], tags)
  {
    var t := tags[j];
    assert t[0..|t|] == t;
    assert StartsAt(t, 0, tags[j]);
  }

  // ---------------------------------------------------------------------------
  // formatMessage

  /** The three tags `formatMessage` inserts. */
  const FormatTags: seq<string> := ["<strong>", "</strong>", "<br>"]

  /** The replacement text of a bullet line start. */
  const BulletBreak: string := "<br>" + [BulletSign] + " "

  lemma FormatTagsAlone()
    ensures forall j :: 0 <= j < |FormatTags| ==> OnlyTags(FormatTags[j], FormatTags)
    ensures OnlyTags(BulletBreak, FormatTags)
  {
    TagAlone(FormatTags, 0);
    TagAlone(FormatTags, 1);
    TagAlone(FormatTags, 2);
    OnlyTagsConcat(FormatTags[2], [BulletSign, ' '], FormatTags);
  }

  /** `**` stands in `s` at position `m`. */
  predicate StarsAt(s: string, m: int) {
    0 <= m && m + 2 <= |s| && s[m] == '*' && s[m + 1] == '*'
  }

  /** A line terminator stands in `s` somewhere from position `j` up to (not including) `m`. */
  predicate LineBreakIn(s: string, j: int, m: int) {
    exists t :: 0 <= j <= t < m <= |s| && IsLineTerminator(s[t])
  }

  /** Where the lazy group of the bold pattern, tried from position `j`, ends:
      the first `**` at or after `j` that no line terminator precedes, or none
      when a line terminator (or the end of the text) comes first. */
  function CloseBold(s: string, j: nat): (r: Option<nat>)
    requires j <= |s|
    ensures r.Some? ==> j <= r.value && StarsAt(s, r.value)
    ensures r.Some? ==> forall m :: j <= m < r.value ==> !IsLineTerminator(s[m]) && !StarsAt(s, m)
    ensures r.None? ==> forall m :: j <= m && StarsAt(s, m) ==> LineBreakIn(s, j, m)
    decreases |s| - j
  {
    if j + 2 > |s| then None
    else if StarsAt(s, j) then Some(j)
    else if IsLineTerminator(s[j]) then None
    else CloseBold(s, j + 1)
  }

  /** The bold rewrite of script.js:438 (pattern: two stars, a lazy group of
      non-terminator characters, two stars; global). Scanning left to right, a
      `**` whose closing `**` comes later on the same line is replaced, with the
      text between them, by a `strong` element; the scan resumes after the
      closing `**`. */
  function Bold(s: string): string
    decreases |s|
  {
    if StarsAt(s, 0) && CloseBold(s, 2).Some? then
      var j := CloseBold(s, 2).value;
      "<strong>" + s[2..j] + "</strong>" + Bold(s[j + 2..])
    else if s == [] then []
    else [s[0]] + Bold(s[1..])
  }

  predicate IsBulletMark(c: char) {
    c == BulletSign || c == '-'
  }

  /** The multiline `^`: the start of the text or just after a line terminator. */
  predicate AtLineStart(s: string, i: nat)
    requires i <= |s|
  {
    i == 0 || IsLineTerminator(s[i - 1])
  }

  /** The bullet pattern of script.js:441 (line start, `•` or `-`, one white
      space character) matches at position `i`. */
  predicate BulletAt(s: string, i: nat)
    requires i <= |s|
  {
    i + 1 < |s| && AtLineStart(s, i) && IsBulletMark(s[i]) && IsJsSpace(s[i + 1])
  }

  /** The global bullet rewrite of script.js:441 on the part of `s` from `i` on; line
      starts are judged on the original text `s`. */
  function BulletsFrom(s: string, i: nat): string
    requires i <= |s|
    decreases |s| - i
  {
    if i == |s| then []
    else if BulletAt(s, i) then BulletBreak + BulletsFrom(s, i + 2)
    else [s[i]] + BulletsFrom(s, i + 1)
  }

  function Bullets(s: string): string {
    BulletsFrom(s, 0)
  }

  /** `formatMessage(text)`: escape first, then bold, then bullets. */
  function FormatMessage(text: string): string {
    Bullets(Bold(EscapeHtml(text)))
  }

  /** Text without bullet marks passes through the bullet rewrite unchanged. */
  lemma {:induction false} BulletsPassThrough(s: string, i: nat, e: nat)
    requires i <= e <= |s|
    requires forall m :: i <= m < e ==> !IsBulletMark(s[m])
    ensures BulletsFrom(s, i) == s[i..e] + BulletsFrom(s, e)
    decreases e - i
  {
    if i < e {
      assert !BulletAt(s, i);
      assert BulletsFrom(s, i) == [s[i]] + BulletsFrom(s, i + 1);
      BulletsPassThrough(s, i + 1, e);
      assert s[i..e] == [s[i]] + s[i + 1..e];
      ConcatAssoc([s[i]], s[i + 1..e], BulletsFrom(s, e));
    }
  }

  /** With no `<` in its input, the bold rewrite's output has a `<` only where it
      inserted a `strong` tag. */
  lemma {:induction false} BoldOnlyTags(s: string)
    requires NoLess(s)
    ensures OnlyTags(Bold(s), FormatTags)
    decreases |s|
  {
    FormatTagsAlone();
    if StarsAt(s, 0) && CloseBold(s, 2).Some? {
      var j := CloseBold(s, 2).value;
      var inner := s[2..j];
      assert NoLess(inner);
      BoldOnlyTags(s[j + 2..]);
      OnlyTagsConcat(FormatTags[0], inner, FormatTags);
      OnlyTagsConcat(FormatTags[0] + inner, FormatTags[1], FormatTags);
      OnlyTagsConcat(FormatTags[0] + inner + FormatTags[1], Bold(s[j + 2..]), FormatTags);
    } else if s != [] {
      BoldOnlyTags(s[1..]);
      assert NoLess([s[0]]);
      OnlyTagsConcat([s[0]], Bold(s[1..]), FormatTags);
    }
  }

  /** A tag already in the text passes through the bullet rewrite intact. */
  lemma BulletsKeepTag(s: string, i: nat, j: nat)
    requires j < |FormatTags| && StartsAt(s, i, FormatTags[j])
    ensures BulletsFrom(s, i) == FormatTags[j] + BulletsFrom(s, i + |FormatTags[j]|)
  {
    var t := FormatTags[j];
    var e := i + |t|;
    assert s[i..e] == t;
    FormatTagsNoMark(j);
    forall m | i <= m < e
      ensures !IsBulletMark(s[m])
    {
      assert s[m] == s[i..e][m - i];
    }
    BulletsPassThrough(s, i, e);
  }

  /** The inserted tags hold no bullet mark. */
  lemma FormatTagsNoMark(j: nat)
    requires j < |FormatTags|
    ensures forall m :: 0 <= m < |FormatTags[j]| ==> !IsBulletMark(FormatTags[j][m])
  {
    if j == 0 {
      assert FormatTags[0] == "<strong>";
    } else if j == 1 {
      assert FormatTags[1] == "</strong>";
    } else {
      assert FormatTags[2] == "<br>";
    }
  }

  /** The bullet rewrite keeps every `<` at a tag: tags already present pass through
      intact (they contain no bullet mark), and it inserts only `<br>`. */
  lemma {:induction false} BulletsOnlyTags(s: string, i: nat)
    requires i <= |s| && OnlyTags(s, FormatTags)
    ensures OnlyTags(BulletsFrom(s, i), FormatTags)
    decreases |s| - i
  {
    FormatTagsAlone();
    if i < |s| {
      if BulletAt(s, i) {
        BulletsOnlyTags(s, i + 2);
        OnlyTagsConcat(BulletBreak, BulletsFrom(s, i + 2), FormatTags);
      } else if s[i] != '<' {
        assert BulletsFrom(s, i) == [s[i]] + BulletsFrom(s, i + 1);
        BulletsOnlyTags(s, i + 1);
        assert NoLess([s[i]]);
        OnlyTagsConcat([s[i]], BulletsFrom(s, i + 1), FormatTags);
      } else {
        assert TagAt(s, i, FormatTags);
        var j :| 0 <= j < |FormatTags| && StartsAt(s, i, FormatTags[j]);
        BulletsKeepTag(s, i, j);
        BulletsOnlyTags(s, i + |FormatTags[j]|);
        OnlyTagsConcat(FormatTags[j], BulletsFrom(s, i + |FormatTags[j]|), FormatTags);
      }
    }
  }

  /** The output of `formatMessage` cannot carry markup from its input: escaping
      comes before both rewrites, so every `<` in it opens `<strong>`, `</strong>`
      or `<br>`. */
  lemma FormatMessageOnlyTags(text: string)
    ensures OnlyTags(FormatMessage(text), FormatTags)
  {
    var e := EscapeHtml(text);
    BoldOnlyTags(e);
    BulletsOnlyTags(Bold(e), 0);
  }

  lemma {:induction false} BoldWithoutStars(s: string)
    requires '*' !in s
    ensures Bold(s) == s
    decreases |s|
  {
    if s != [] {
      assert s[0] != '*';
      BoldWithoutStars(s[1..]);
      assert s == [s[0]] + s[1..];
    }
  }

  /** `formatMessage` alters nothing but markup characters: a text with no `*`,
      `-` or `•` comes out exactly as `escapeHtml` renders it. */
  lemma FormatMessagePlain(text: string)
    requires '*' !in text && '-' !in text && BulletSign !in text
    ensures FormatMessage(text) == EscapeHtml(text)
  {
    var e := EscapeHtml(text);
    assert '*' !in e;
    BoldWithoutStars(e);
    assert forall m :: 0 <= m < |e| ==> !IsBulletMark(e[m]);
    BulletsPassThrough(e, 0, |e|);
    assert e[0..|e|] == e;
  }
}
