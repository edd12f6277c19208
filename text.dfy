/** Character classes and string operations shared by the browser code and the
    backend: lower-casing, substring search, trimming, splitting, decimal
    rendering of numbers and the code-point order Python sorts strings by. */
module Text {

  /** Upper-case ASCII letters, the only characters the model lower-cases. */
  predicate IsAsciiUpper(c: char) {
    'A' <= c <= 'Z'
  }

  /** Lower-cases one character (ASCII only; Unicode case mapping is not modelled). */
  function LowerChar(c: char): (r: char)
    ensures !IsAsciiUpper(r)
    ensures !IsAsciiUpper(c) ==> r == c
    ensures IsAsciiUpper(c) ==> r as int == c as int + 32
  {
    if IsAsciiUpper(c) then (c as int + 32) as char else c
  }

  /** Python's `str.lower()` and the case folding of pandas' `case=False`, on ASCII. */
  function Lower(s: string): (r: string)
    ensures |r| == |s|
    ensures forall i :: 0 <= i < |s| ==> r[i] == LowerChar(s[i])
  {
    if s == [] then [] else [LowerChar(s[0])] + Lower(s[1..])
  }

  lemma {:induction false} LowerIdempotent(s: string)
    ensures Lower(Lower(s)) == Lower(s)
  {
    var l := Lower(s);
    assert forall i :: 0 <= i < |l| ==> Lower(l)[i] == LowerChar(l[i]) == l[i];
  }

  /** `needle` occurs in `hay` as a contiguous block: Python's `in` on strings and
      JavaScript's `String.prototype.includes`. The empty string occurs everywhere. */
  predicate Contains(hay: string, needle: string)
    decreases |hay|
  {
    needle <= hay || (hay != [] && Contains(hay[1..], needle))
  }

  lemma {:induction false} ContainsAt(hay: string, needle: string, k: nat)
    requires k + |needle| <= |hay| && hay[k..k + |needle|] == needle
    ensures Contains(hay, needle)
  {
    if k > 0 {
      assert hay[1..][k - 1..k - 1 + |needle|] == hay[k..k + |needle|];
      ContainsAt(hay[1..], needle, k - 1);
    } else {
      assert needle <= hay;
    }
  }

  lemma {:induction false} ContainsExtendRight(a: string, b: string, needle: string)
    requires Contains(a, needle)
    ensures Contains(a + b, needle)
  {
    if needle <= a {
      assert (a + b)[..|needle|] == a[..|needle|];
    } else {
      ContainsExtendRight(a[1..], b, needle);
      assert (a + b)[1..] == a[1..] + b;
    }
  }

  lemma {:induction false} ContainsExtendLeft(a: string, b: string, needle: string)
    requires Contains(b, needle)
    ensures Contains(a + b, needle)
  {
    if a != [] {
      ContainsExtendLeft(a[1..], b, needle);
      assert (a + b)[1..] == a[1..] + b;
      assert a + b != [];
    } else {
      assert a + b == b;
    }
  }

  /** A needle that starts with `c` cannot occur in a text that has no `c` at all. */
  lemma {:induction false} NotContainsWithout(hay: string, needle: string, c: char)
    requires needle != [] && needle[0] == c
    requires forall i :: 0 <= i < |hay| ==> hay[i] != c
    ensures !Contains(hay, needle)
  {
    if hay != [] {
      NotContainsWithout(hay[1..], needle, c);
    }
  }

  /** A block of a text without `c` has no `c` either. */
  lemma {:induction false} ContainsBlock(hay: string, needle: string, c: char)
    requires Contains(hay, needle) && c !in hay
    ensures c !in needle
    decreases |hay|
  {
    if !(needle <= hay) {
      ContainsBlock(hay[1..], needle, c);
    } else {
      assert forall k :: 0 <= k < |needle| ==> needle[k] == hay[k];
    }
  }

  /** Line terminators of ECMAScript (section 12.3 of ECMA-262): what a regular
      expression `.` does not match and after which `^` matches in multiline mode. */
  predicate IsLineTerminator(c: char) {
    c == '\n' || c == '\r' || c == '\U{2028}' || c == '\U{2029}'
  }

  /** ECMAScript white space and line terminators: the class `\s` of a regular
      expression and what `String.prototype.trim` removes. */
  predicate IsJsSpace(c: char) {
    || IsLineTerminator(c)
    || c == '\t' || c == '\U{B}' || c == '\U{C}' || c == ' '
    || c == '\U{A0}' || c == '\U{1680}' || ('\U{2000}' <= c <= '\U{200A}')
    || c == '\U{202F}' || c == '\U{205F}' || c == '\U{3000}' || c == '\U{FEFF}'
  }

  /** The characters for which Python's `str.isspace()` holds: what `str.strip()` removes. */
  predicate IsPySpace(c: char) {
    || ('\t' <= c <= '\r') || ('\U{1C}' <= c <= '\U{1F}') || c == ' '
    || c == '\U{85}' || c == '\U{A0}' || c == '\U{1680}' || ('\U{2000}' <= c <= '\U{200A}')
    || c == '\U{2028}' || c == '\U{2029}' || c == '\U{202F}' || c == '\U{205F}' || c == '\U{3000}'
  }

  /** How many characters at the front of `s` satisfy `space`. */
  function LeadingSpaces(s: string, space: char -> bool): (n: nat)
    ensures n <= |s|
  {
    if s != [] && space(s[0]) then 1 + LeadingSpaces(s[1..], space) else 0
  }

  lemma {:induction false} LeadingSpacesMeaning(s: string, space: char -> bool)
    ensures forall k :: 0 <= k < LeadingSpaces(s, space) ==> space(s[k])
    ensures LeadingSpaces(s, space) < |s| ==> !space(s[LeadingSpaces(s, space)])
  {
    if s != [] && space(s[0]) {
      LeadingSpacesMeaning(s[1..], space);
    }
  }

  /** How many characters at the back of `s` satisfy `space`. */
  function TrailingSpaces(s: string, space: char -> bool): (n: nat)
    ensures n <= |s|
  {
    if s != [] && space(s[|s| - 1]) then 1 + TrailingSpaces(s[..|s| - 1], space) else 0
  }

  lemma {:induction false} TrailingSpacesMeaning(s: string, space: char -> bool)
    ensures forall k :: |s| - TrailingSpaces(s, space) <= k < |s| ==> space(s[k])
    ensures TrailingSpaces(s, space) < |s| ==> !space(s[|s| - 1 - TrailingSpaces(s, space)])
  {
    if s != [] && space(s[|s| - 1]) {
      TrailingSpacesMeaning(s[..|s| - 1], space);
    }
  }

  /** `s` without its leading and trailing `space` characters. */
  function Trim(s: string, space: char -> bool): string {
    var t := s[LeadingSpaces(s, space)..];
    t[..|t| - TrailingSpaces(t, space)]
  }

  /** Trimming removes only `space` characters: the result is the block of the
      text after the leading spaces, and all that follows it is `space` too. */
  lemma TrimBlock(s: string, space: char -> bool)
    ensures var a := LeadingSpaces(s, space);
            && a + |Trim(s, space)| <= |s| && s[a..a + |Trim(s, space)|] == Trim(s, space)
            && (forall k :: 0 <= k < a ==> space(s[k]))
            && (forall k :: a + |Trim(s, space)| <= k < |s| ==> space(s[k]))
  {
    var a := LeadingSpaces(s, space);
    var t := s[a..];
    var r := Trim(s, space);
    LeadingSpacesMeaning(s, space);
    TrailingSpacesMeaning(t, space);
    assert s[a..a + |r|] == r;
    assert forall k :: a + |r| <= k < |s| ==> s[k] == t[k - a];
  }

  /** Trimming keeps a block of the text, removes only `space` characters (see
      `TrimBlock`), is empty exactly when the text is all `space`, and otherwise
      neither starts nor ends with a `space` character. */
  lemma TrimMeaning(s: string, space: char -> bool)
    ensures Contains(s, Trim(s, space))
    ensures Trim(s, space) == [] <==> forall k :: 0 <= k < |s| ==> space(s[k])
    ensures Trim(s, space) != [] ==> !space(Trim(s, space)[0]) && !space(Trim(s, space)[|Trim(s, space)| - 1])
  {
    var a := LeadingSpaces(s, space);
    var r := Trim(s, space);
    TrimBlock(s, space);
    LeadingSpacesMeaning(s, space);
    TrailingSpacesMeaning(s[a..], space);
    ContainsAt(s, r, a);
  }

  /** Lower-casing a block is the block of the lower-cased text. */
  lemma LowerSlice(s: string, a: nat, b: nat)
    requires a <= b <= |s|
    ensures Lower(s[a..b]) == Lower(s)[a..b]
  {
  }

  /** The lower-cased text contains each of its lower-cased blocks. */
  lemma LowerBlock(s: string, a: nat, b: nat)
    requires a <= b <= |s|
    ensures Contains(Lower(s), Lower(s[a..b]))
  {
    LowerSlice(s, a, b);
    ContainsAt(Lower(s), Lower(s[a..b]), a);
  }

  /** JavaScript's `String.prototype.trim`. */
  function JsTrim(s: string): string {
    Trim(s, IsJsSpace)
  }

  /** Python's `str.strip()` without arguments. */
  function PyStrip(s: string): string {
    Trim(s, IsPySpace)
  }

  /** Python's `str.split(sep)` for a one-character separator: the pieces between
      separators, at least one, an empty piece wherever two separators meet or one
      stands at either end. */
  function Split(s: string, sep: char): (parts: seq<string>)
    ensures |parts| >= 1
    ensures forall i :: 0 <= i < |parts| ==> sep !in parts[i]
    ensures sep in s ==> |parts| >= 2
    ensures s != [] && s[|s| - 1] == sep ==> parts[|parts| - 1] == []
  {
    if s == [] then [[]]
    else
      var rest := Split(s[1..], sep);
      if s[0] == sep then [[]] + rest
      else [[s[0]] + rest[0]] + rest[1..]
  }

  /** Python's `sep.join(parts)`. */
  function Join(parts: seq<string>, sep: char): string {
    if parts == [] then []
    else if |parts| == 1 then parts[0]
    else parts[0] + [sep] + Join(parts[1..], sep)
  }

  /** Splitting loses nothing: joining the pieces with the separator gives the text back. */
  lemma {:induction false} JoinSplit(s: string, sep: char)
    ensures Join(Split(s, sep), sep) == s
  {
    if s != [] {
      var rest := Split(s[1..], sep);
      JoinSplit(s[1..], sep);
      if s[0] == sep {
        assert Split(s, sep) == [[]] + rest;
        assert ([[]] + rest)[1..] == rest;
      } else {
        var parts := [[s[0]] + rest[0]] + rest[1..];
        assert Split(s, sep) == parts;
        if |rest| == 1 {
          assert Join(rest, sep) == rest[0];
        } else {
          assert parts[1..] == rest[1..];
          assert Join(rest, sep) == rest[0] + [sep] + Join(rest[1..], sep);
        }
      }
    }
  }

  function DigitChar(d: nat): (c: char)
    requires d < 10
    ensures '0' <= c <= '9' && c as int - '0' as int == d
  {
    ('0' as int + d) as char
  }

  /** The decimal digits of `n`, as JavaScript renders an integer number. */
  function NatToString(n: nat): (r: string)
    ensures r != []
    ensures forall i :: 0 <= i < |r| ==> '0' <= r[i] <= '9'
    ensures |r| > 1 ==> r[0] != '0'
  {
    if n < 10 then [DigitChar(n)] else NatToString(n / 10) + [DigitChar(n % 10)]
  }

  /** The value of a string of decimal digits. */
  function DigitsValue(s: string): nat
    requires forall i :: 0 <= i < |s| ==> '0' <= s[i] <= '9'
  {
    if s == [] then 0 else DigitsValue(s[..|s| - 1]) * 10 + (s[|s| - 1] as int - '0' as int)
  }

  /** Rendering a number in decimal loses nothing: its digits give the number back. */
  lemma {:induction false} NatToStringRoundTrip(n: nat)
    ensures DigitsValue(NatToString(n)) == n
  {
    if n >= 10 {
      var r := NatToString(n);
      assert r[..|r| - 1] == NatToString(n / 10);
      NatToStringRoundTrip(n / 10);
    }
  }

  /** `String(n)` for an integer number. */
  function IntToString(i: int): (r: string)
    ensures r != []
    ensures (r[0] == '-') == (i < 0)
  {
    if i < 0 then "-" + NatToString(-i) else NatToString(i)
  }

  /** Python's `<` on strings: lexicographic by code point, a proper prefix first. */
  predicate LexLess(a: string, b: string)
    decreases |a|
  {
    if a == [] then b != []
    else if b == [] then false
    else if a[0] != b[0] then a[0] < b[0]
    else LexLess(a[1..], b[1..])
  }

  lemma {:induction false} LexLessIrreflexive(a: string)
    ensures !LexLess(a, a)
  {
    if a != [] {
      LexLessIrreflexive(a[1..]);
    }
  }

  lemma {:induction false} LexLessTransitive(a: string, b: string, c: string)
    requires LexLess(a, b) && LexLess(b, c)
    ensures LexLess(a, c)
  {
    if a != [] && b != [] && c != [] && a[0] == b[0] && b[0] == c[0] {
      LexLessTransitive(a[1..], b[1..], c[1..]);
    }
  }

  lemma {:induction false} LexLessTotal(a: string, b: string)
    ensures a == b || LexLess(a, b) || LexLess(b, a)
  {
    if a != [] && b != [] && a[0] == b[0] {
      LexLessTotal(a[1..], b[1..]);
      if a[1..] == b[1..] {
        assert a == [a[0]] + a[1..] && b == [b[0]] + b[1..];
      }
    }
  }

  lemma {:induction false} LexLessAsymmetric(a: string, b: string)
    requires LexLess(a, b)
    ensures !LexLess(b, a)
  {
    if a != [] && b != [] && a[0] == b[0] {
      LexLessAsymmetric(a[1..], b[1..]);
    }
  }

  // ---------------------------------------------------------------------------
  // Proof helpers: a fact about sequences that proofs here and in other modules
  // name explicitly, so the solver need not search for it. It models nothing.

  /** Regrouping a concatenation, stated once so that proofs can name the one
      regrouping they need instead of leaving the solver to find it. */
  lemma ConcatAssoc<T>(a: seq<T>, b: seq<T>, c: seq<T>)
    ensures (a + b) + c == a + (b + c)
  {
  }
}
