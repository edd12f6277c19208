/** `displayFilterResults` (script.js:239-271): the assistant message that shows
    the rows the filter endpoint returned. */
module ResultsTable {
  import opened Wrappers
  import opened Text
  import opened Html

  /** A value of a result record as `response.json()` delivers it (numbers are
      integers here). */
  datatype JsonValue = JNull | JBool(b: bool) | JNum(n: int) | JStr(s: string)

  predicate DistinctKeys(r: seq<(string, JsonValue)>) {
    forall i, j :: 0 <= i < j < |r| ==> r[i].0 != r[j].0
  }

  /** A JavaScript object parsed from JSON: its properties in key order, no key twice. */
  type Record = r: seq<(string, JsonValue)> | DistinctKeys(r)

  /** `Object.keys(row)`. */
  function Keys(r: Record): (ks: seq<string>)
    ensures |ks| == |r|
  {
    seq(|r|, i requires 0 <= i < |r| => r[i].0)
  }

  /** `row[key]`: the value stored under `key`, or `undefined` (None). */
  function Get(r: seq<(string, JsonValue)>, key: string): Option<JsonValue> {
    if r == [] then None
    else if r[0].0 == key then Some(r[0].1)
    else Get(r[1..], key)
  }

  /** `row[key]` is the value the record stores under `key`, and `undefined`
      exactly when the record has no such key. */
  lemma {:induction false} GetMeaning(r: Record, key: string)
    ensures Get(r, key).Some? <==> exists i :: 0 <= i < |r| && r[i].0 == key
    ensures forall i :: 0 <= i < |r| && r[i].0 == key ==> Get(r, key) == Some(r[i].1)
  {
    if r != [] && r[0].0 != key {
      var t: Record := r[1..];
      GetMeaning(t, key);
      assert forall i :: 1 <= i < |r| ==> r[i] == t[i - 1];
    }
  }

  /** JavaScript truthiness of a JSON value. */
  predicate Truthy(v: JsonValue) {
    match v
    case JNull => false
    case JBool(b) => b
    case JNum(n) => n != 0
    case JStr(s) => s != ""
  }

  /** `String(row[key] || '')`: a missing or falsy value shows as the empty string. */
  function CellText(v: Option<JsonValue>): (r: string)
    ensures r == "" <==> v.None? || !Truthy(v.value)
  {
    match v
    case None => ""
    case Some(x) =>
      match x
      case JNull => ""
      case JBool(b) => if b then "true" else ""
      case JNum(n) => if n == 0 then "" else IntToString(n)
      case JStr(s) => s
  }

  const NoResultsMessage: string := "No results found " + "matching your filters. " + "Try adjusting your criteria."

  /** The first line of a non-empty answer; "result" is plural unless the count is 1. */
  function Headline(count: int): string {
    "Found " + IntToString(count) + " matching result" + (if count != 1 then "s" else "") + ":\n\n"
  }

  const TableOpen: string := "<div class=\"results-table\"><table>"
  const HeadOpen: string := "<thead><tr>"
  const HeadClose: string := "</tr></thead><tbody>"
  const TableClose: string := "</tbody></table></div>"

  /** The header cells: the keys as they are, not escaped. */
  function HeaderCells(keys: seq<string>): string {
    if keys == [] then "" else HeaderCells(keys[..|keys| - 1]) + "<th>" + keys[|keys| - 1] + "</th>"
  }

  function DataCell(row: Record, key: string): string {
    "<td>" + EscapeHtml(CellText(Get(row, key))) + "</td>"
  }

  function DataCells(row: Record, keys: seq<string>): string {
    if keys == [] then "" else DataCells(row, keys[..|keys| - 1]) + DataCell(row, keys[|keys| - 1])
  }

  function RowHtml(row: Record, keys: seq<string>): string {
    "<tr>" + DataCells(row, keys) + "</tr>"
  }

  /** One table row per result, in order, with the columns of `keys`. */
  function RowsHtml(rows: seq<Record>, keys: seq<string>): string {
    if rows == [] then "" else RowsHtml(rows[..|rows| - 1], keys) + RowHtml(rows[|rows| - 1], keys)
  }

  /** The table: the first record's keys are the columns of every row. */
  function TableHtml(results: seq<Record>): string
    requires results != []
  {
    var keys := Keys(results[0]);
    TableOpen + HeadOpen + HeaderCells(keys) + HeadClose + RowsHtml(results, keys) + TableClose
  }

  /** The message `displayFilterResults` hands to `addMessage`. */
  function FilterResultsText(results: seq<Record>, count: int): string {
    if count == 0 then NoResultsMessage
    else Headline(count) + (if results != [] then TableHtml(results) else "")
  }

  /** The body of `results.forEach(row => ...)`: appends one table row, a cell per key. */
  method AppendRow(message: string, row: Record, keys: seq<string>) returns (m: string)
    ensures m == message + RowHtml(row, keys)
  {
    m := message + "<tr>";
    ghost var cells := "";
    assert keys[..0] == [];
    for i := 0 to |keys|
      invariant m == message + "<tr>" + cells
      invariant cells == DataCells(row, keys[..i])
    {
      assert keys[..i + 1][..i] == keys[..i];
      var cell := DataCell(row, keys[i]);
      ConcatAssoc(message + "<tr>", cells, cell);
      m := m + cell;
      cells := cells + cell;
    }
    assert keys[..|keys|] == keys;
    m := m + "</tr>";
    ConcatAssoc(message, "<tr>", cells);
    ConcatAssoc(message + "<tr>", cells, "</tr>");
    ConcatAssoc(message, "<tr>" + cells, "</tr>");
  }

  /** `displayFilterResults(results, count)`: the message is built by appending to a
      string in nested loops, exactly as the table functions above describe it. */
  method DisplayFilterResults(results: seq<Record>, count: int) returns (message: string)
    ensures message == FilterResultsText(results, count)
  {
    message := Headline(count);
    if count == 0 {
      message := NoResultsMessage;
      return;
    }
    if |results| > 0 {
      var keys := Keys(results[0]);
      message := message + TableOpen;
      message := message + HeadOpen;
      ghost var start := message;
      ghost var head := "";
      assert keys[..0] == [];
      for i := 0 to |keys|
        invariant message == start + head
        invariant head == HeaderCells(keys[..i])
      {
        assert keys[..i + 1][..i] == keys[..i];
        var th := "<th>" + keys[i] + "</th>";
        ConcatAssoc(start, head, th);
        message := message + th;
        head := head + th;
      }
      assert keys[..|keys|] == keys;
      message := message + HeadClose;
      ghost var before := message;
      ghost var rows := "";
      assert results[..0] == [];
      for j := 0 to |results|
        invariant message == before + rows
        invariant rows == RowsHtml(results[..j], keys)
      {
        assert results[..j + 1][..j] == results[..j];
        ghost var row := RowHtml(results[j], keys);
        message := AppendRow(message, results[j], keys);
        ConcatAssoc(before, rows, row);
        rows := rows + row;
      }
      assert results[..|results|] == results;
      message := message + TableClose;
      TableAssembly(Headline(count), TableOpen, HeadOpen, head, HeadClose, rows, TableClose);
    }
  }

  lemma TableRegroup(a: string, b: string, c: string, d: string, e: string, f: string)
    ensures a + b + c + d + e + f == a + (b + c + d + e + f)
  {
    ConcatAssoc(a, b, c);
    ConcatAssoc(a, b + c, d);
    ConcatAssoc(a, b + c + d, e);
    ConcatAssoc(a, b + c + d + e, f);
  }

  /** Regrouping of the seven pieces the message is appended from. */
  lemma TableAssembly(a: string, b: string, c: string, d: string, e: string, f: string, g: string)
    ensures a + b + c + d + e + f + g == a + (b + c + d + e + f + g)
  {
    ConcatAssoc(a, b, c);
    ConcatAssoc(a, b + c, d);
    ConcatAssoc(a, b + c + d, e);
    ConcatAssoc(a, b + c + d + e, f);
    ConcatAssoc(a, b + c + d + e + f, g);
  }

  // ---------------------------------------------------------------------------
  // What the message means.

  lemma NatToStringNoLess(n: nat)
    ensures NoLess(NatToString(n))
  {
  }

  lemma NoLessConcat(a: string, b: string)
    requires NoLess(a) && NoLess(b)
    ensures NoLess(a + b)
  {
  }

  lemma NoResultsNoLess()
    ensures NoLess(NoResultsMessage)
  {
    var a, b, c := "No results found ", "matching your filters. ", "Try adjusting your criteria.";
    assert NoLess(a) && NoLess(b) && NoLess(c);
    NoLessConcat(a, b);
    NoLessConcat(a + b, c);
  }

  lemma HeadlineNoLess(count: int)
    ensures NoLess(Headline(count))
  {
    var c := IntToString(count);
    assert NoLess(c) by {
      if count < 0 {
        NatToStringNoLess(-count);
        assert c == "-" + NatToString(-count);
      } else {
        NatToStringNoLess(count);
      }
    }
  }

  /** The fixed "no results" message is shown exactly when the count is zero. */
  lemma NoResultsIffZero(results: seq<Record>, count: int)
    ensures FilterResultsText(results, count) == NoResultsMessage <==> count == 0
  {
    if count != 0 {
      var h := Headline(count);
      var rest := if results != [] then TableHtml(results) else "";
      assert FilterResultsText(results, count) == h + rest;
      assert h[0] == 'F';
      assert (h + rest)[0] == 'F';
      assert NoResultsMessage[0] == 'N';
    }
  }

  lemma TableWithResults(results: seq<Record>, count: int)
    requires count != 0 && results != []
    ensures Contains(FilterResultsText(results, count), "<table>")
  {
    var keys := Keys(results[0]);
    var h, cells, rows := Headline(count), HeaderCells(keys), RowsHtml(results, keys);
    var rest := HeadOpen + cells + HeadClose + rows + TableClose;
    assert TableOpen[27..34] == "<table>";
    ContainsAt(TableOpen, "<table>", 27);
    ContainsExtendLeft(h, TableOpen, "<table>");
    ContainsExtendRight(h + TableOpen, rest, "<table>");
    var table := TableHtml(results);
    assert table == TableOpen + HeadOpen + cells + HeadClose + rows + TableClose;
    TableRegroup(TableOpen, HeadOpen, cells, HeadClose, rows, TableClose);
    assert table == TableOpen + rest;
    ConcatAssoc(h, TableOpen, rest);
    assert FilterResultsText(results, count) == h + table;
  }

  /** Without a count or without records the message holds no table, so `addMessage`
      passes it through `formatMessage`; with both it holds `<table>` and is shown as
      it is. */
  lemma TableExactlyWithResults(results: seq<Record>, count: int)
    ensures Contains(FilterResultsText(results, count), "<table>") <==> count != 0 && results != []
  {
    if count == 0 {
      NoResultsNoLess();
      NotContainsWithout(NoResultsMessage, "<table>", '<');
    } else if results == [] {
      HeadlineNoLess(count);
      NotContainsWithout(Headline(count), "<table>", '<');
      assert FilterResultsText(results, count) == Headline(count) + "" == Headline(count);
    } else {
      TableWithResults(results, count);
    }
  }

  /** The tags the table body is made of. */
  const BodyTags: seq<string> := ["<tr>", "</tr>", "<td>", "</td>"]

  lemma BodyTagsAlone()
    ensures forall j :: 0 <= j < |BodyTags| ==> OnlyTags(BodyTags[j], BodyTags)
  {
    TagAlone(BodyTags, 0);
    TagAlone(BodyTags, 1);
    TagAlone(BodyTags, 2);
    TagAlone(BodyTags, 3);
  }

  lemma {:induction false} DataCellsOnlyTags(row: Record, keys: seq<string>)
    ensures OnlyTags(DataCells(row, keys), BodyTags)
  {
    BodyTagsAlone();
    if keys != [] {
      var key := keys[|keys| - 1];
      var e := EscapeHtml(CellText(Get(row, key)));
      DataCellsOnlyTags(row, keys[..|keys| - 1]);
      OnlyTagsConcat(BodyTags[2], e, BodyTags);
      OnlyTagsConcat(BodyTags[2] + e, BodyTags[3], BodyTags);
      OnlyTagsConcat(DataCells(row, keys[..|keys| - 1]), DataCell(row, key), BodyTags);
    }
  }

  /** Cell values cannot inject markup: in the rows of the table every `<` opens a
      `tr` or `td` tag of the table itself, whatever the records hold. */
  lemma {:induction false} RowsOnlyTags(rows: seq<Record>, keys: seq<string>)
    ensures OnlyTags(RowsHtml(rows, keys), BodyTags)
  {
    BodyTagsAlone();
    if rows != [] {
      var row := rows[|rows| - 1];
      RowsOnlyTags(rows[..|rows| - 1], keys);
      DataCellsOnlyTags(row, keys);
      OnlyTagsConcat(BodyTags[0], DataCells(row, keys), BodyTags);
      OnlyTagsConcat(BodyTags[0] + DataCells(row, keys), BodyTags[1], BodyTags);
      OnlyTagsConcat(RowsHtml(rows[..|rows| - 1], keys), RowHtml(row, keys), BodyTags);
    }
  }

  /** The header cells follow the table's opening tags directly. */
  lemma HeaderCellsAt(results: seq<Record>, count: int)
    requires count != 0 && results != []
    ensures StartsAt(FilterResultsText(results, count), |Headline(count) + TableOpen + HeadOpen|,
                     HeaderCells(Keys(results[0])))
  {
    var headline := Headline(count);
    var table := TableHtml(results);
    TableHeaderAt(results);
    StartsAtRight(headline, table, |TableOpen + HeadOpen|, HeaderCells(Keys(results[0])));
    assert |headline + TableOpen + HeadOpen| == |headline| + |TableOpen + HeadOpen|;
    assert FilterResultsText(results, count) == headline + table;
  }

  /** Within the table, the header cells follow the opening tags. */
  lemma TableHeaderAt(results: seq<Record>)
    requires results != []
    ensures StartsAt(TableHtml(results), |TableOpen + HeadOpen|, HeaderCells(Keys(results[0])))
  {
    var keys := Keys(results[0]);
    var cells := HeaderCells(keys);
    var rest := HeadClose + RowsHtml(results, keys) + TableClose;
    assert StartsAt(cells, 0, cells);
    StartsAtLeft(cells, rest, 0, cells);
    StartsAtRight(TableOpen + HeadOpen, cells + rest, 0, cells);
    Nest(TableOpen, HeadOpen, cells, HeadClose, RowsHtml(results, keys), TableClose);
    ConcatAssoc(TableOpen, HeadOpen, cells + rest);
  }

  lemma Nest(a: string, b: string, c: string, d: string, e: string, f: string)
    ensures a + b + c + d + e + f == a + (b + (c + (d + e + f)))
  {
    TableRegroup(a, b, c, d, e, f);
    TableRegroup(b, c, d, e, f, []);
    assert b + c + d + e + f + [] == b + c + d + e + f;
    assert c + d + e + f == c + (d + e + f);
  }

  /** Column names, on the other hand, reach the header as they are: a column
      named `<b>` puts a `<b>` element into the message. */
  lemma HeaderNotEscaped()
    ensures HeaderCells(["<b>"]) == "<th><b></th>"
  {
    var keys := ["<b>"];
    assert keys[..0] == [];
  }

  // ---------------------------------------------------------------------------
  // One row per record.

  /** The number of places where a `<tr>` tag starts. */
  function TrCount(s: string): nat {
    if |s| < 4 then 0 else (if s[..4] == "<tr>" then 1 else 0) + TrCount(s[1..])
  }

  /** No `<` among the last three characters: no tag can start there and end further on. */
  predicate QuietEnd(s: string) {
    forall k :: 0 <= k < |s| && |s| - 3 <= k ==> s[k] != '<'
  }

  lemma QuietEndConcat(a: string, b: string)
    requires QuietEnd(a) && QuietEnd(b)
    ensures QuietEnd(a + b)
  {
  }

  lemma {:induction false} TrCountConcat(a: string, b: string)
    requires QuietEnd(a)
    ensures TrCount(a + b) == TrCount(a) + TrCount(b)
    decreases |a|
  {
    if a == [] {
      assert a + b == b;
    } else {
      TrCountConcat(a[1..], b);
      assert (a + b)[1..] == a[1..] + b;
      if |a| >= 4 {
        assert (a + b)[..4] == a[..4];
      } else {
        assert (a + b)[0] == a[0] != '<';
      }
    }
  }

  lemma {:induction false} NoLessTrCount(s: string)
    requires NoLess(s)
    ensures TrCount(s) == 0 && QuietEnd(s)
  {
    if |s| >= 4 {
      NoLessTrCount(s[1..]);
      assert s[..4][0] == s[0];
    }
  }

  lemma DataCellTrCount(row: Record, key: string)
    ensures TrCount(DataCell(row, key)) == 0 && QuietEnd(DataCell(row, key))
  {
    var e := EscapeHtml(CellText(Get(row, key)));
    NoLessTrCount(e);
    assert "<td>"[..4] == "<td>" && "<td>"[2] != "<tr>"[2];
    assert "</td>"[..4][1] != 't' && "</td>"[1..][..4][0] != '<';
    assert TrCount("<td>") == 0 && TrCount("</td>") == 0;
    TrCountConcat("<td>", e);
    QuietEndConcat("<td>", e);
    TrCountConcat("<td>" + e, "</td>");
    QuietEndConcat("<td>" + e, "</td>");
  }

  lemma {:induction false} DataCellsTrCount(row: Record, keys: seq<string>)
    ensures TrCount(DataCells(row, keys)) == 0 && QuietEnd(DataCells(row, keys))
  {
    if keys != [] {
      var prefix := DataCells(row, keys[..|keys| - 1]);
      var cell := DataCell(row, keys[|keys| - 1]);
      DataCellsTrCount(row, keys[..|keys| - 1]);
      DataCellTrCount(row, keys[|keys| - 1]);
      TrCountConcat(prefix, cell);
      QuietEndConcat(prefix, cell);
    }
  }

  /** The row tags: `<tr>` opens one row, `</tr>` none. */
  lemma RowTagsTrCount()
    ensures TrCount("<tr>") == 1 && TrCount("</tr>") == 0
  {
    assert "<tr>"[..4] == "<tr>" && |"<tr>"[1..]| == 3;
    assert "</tr>"[..4][1] == '/' && "</tr>"[1..] == "/tr>";
    assert "/tr>"[..4][0] == '/' && |"/tr>"[1..]| == 3;
  }

  /** The table body holds exactly one `<tr>` per record. */
  lemma {:induction false} RowsTrCount(rows: seq<Record>, keys: seq<string>)
    ensures TrCount(RowsHtml(rows, keys)) == |rows| && QuietEnd(RowsHtml(rows, keys))
  {
    if rows != [] {
      var prefix := RowsHtml(rows[..|rows| - 1], keys);
      var cells := DataCells(rows[|rows| - 1], keys);
      RowsTrCount(rows[..|rows| - 1], keys);
      DataCellsTrCount(rows[|rows| - 1], keys);
      RowTagsTrCount();
      TrCountConcat("<tr>", cells);
      QuietEndConcat("<tr>", cells);
      TrCountConcat("<tr>" + cells, "</tr>");
      QuietEndConcat("<tr>" + cells, "</tr>");
      TrCountConcat(prefix, RowHtml(rows[|rows| - 1], keys));
      QuietEndConcat(prefix, RowHtml(rows[|rows| - 1], keys));
    }
  }

  /** The headline says "result" for a count of one and "results" otherwise. */
  lemma HeadlinePlural(count: int)
    ensures count == 1 ==> Headline(count) == "Found 1 matching result:\n\n"
    ensures count != 1 ==> Headline(count) == "Found " + IntToString(count) + " matching results:\n\n"
  {
    if count == 1 {
      assert IntToString(1) == "1";
    }
  }
}
