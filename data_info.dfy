/** The filter options of `get_data_info` (chatbot.py): for each category, the
    sorted distinct non-null values of the first candidate column the table has.
    Its candidate lists are longer than those `filter_data` searches. */
module DataInfo {
  import opened Wrappers
  import opened Text
  import opened Backend

  const InfoLocationColumns: seq<string> := ["location", "city", "place", "area", "loc", "YOUR_COLUMN_NAME"]
  const InfoCompanyColumns: seq<string> := ["company", "company_name", "organization", "employer", "org", "YOUR_COLUMN_NAME"]
  const InfoRoleColumns: seq<string> :=
    ["role", "position", "job_title", "title", "designation", "job", "job_role", "YOUR_COLUMN_NAME"]

  /** `dataframe[col].dropna()`: the non-null cells of a column, in row order. */
  function ColumnValues(rows: seq<Row>, column: string): seq<string> {
    if rows == [] then []
    else (match Cell(rows[0], column) case None => [] case Some(v) => [v]) + ColumnValues(rows[1..], column)
  }

  /** A value is listed exactly when some row holds it in that column. */
  lemma {:induction false} ColumnValuesMeaning(rows: seq<Row>, column: string)
    ensures forall v :: v in ColumnValues(rows, column) <==> exists r :: r in rows && Cell(r, column) == Some(v)
  {
    if rows != [] {
      ColumnValuesMeaning(rows[1..], column);
      assert forall r :: r in rows <==> r == rows[0] || r in rows[1..];
    }
  }

  /** In increasing `<` order with no value twice. */
  predicate StrictlySorted(s: seq<string>) {
    forall i, j :: 0 <= i < j < |s| ==> LexLess(s[i], s[j])
  }

  /** A strictly sorted list has no duplicates. */
  lemma StrictlySortedDistinct(s: seq<string>)
    requires StrictlySorted(s)
    ensures forall i, j :: 0 <= i < j < |s| ==> s[i] != s[j]
  {
    forall i, j | 0 <= i < j < |s|
      ensures s[i] != s[j]
    {
      LexLessIrreflexive(s[i]);
    }
  }

  lemma SortedCons(h: string, rest: seq<string>)
    requires StrictlySorted(rest)
    requires forall y :: y in rest ==> LexLess(h, y)
    ensures StrictlySorted([h] + rest)
  {
    var s := [h] + rest;
    forall i, j | 0 <= i < j < |s|
      ensures LexLess(s[i], s[j])
    {
      if i == 0 {
        assert s[j] == rest[j - 1];
      } else {
        assert s[i] == rest[i - 1] && s[j] == rest[j - 1];
      }
    }
  }

  /** `x` put into its place in a strictly sorted list, unless it is there already. */
  function InsertSorted(s: seq<string>, x: string): seq<string> {
    if s == [] then [x]
    else if s[0] == x then s
    else if LexLess(x, s[0]) then [x] + s
    else [s[0]] + InsertSorted(s[1..], x)
  }

  lemma {:induction false} InsertSortedMeaning(s: seq<string>, x: string)
    requires StrictlySorted(s)
    ensures StrictlySorted(InsertSorted(s, x))
    ensures forall y :: y in InsertSorted(s, x) <==> y in s || y == x
  {
    if s != [] && s[0] != x {
      assert forall y :: y in s <==> y == s[0] || y in s[1..];
      assert forall y :: y in s[1..] ==> LexLess(s[0], y) by {
        forall y | y in s[1..]
          ensures LexLess(s[0], y)
        {
          var k :| 0 <= k < |s[1..]| && s[1..][k] == y;
          assert s[k + 1] == y;
        }
      }
      if LexLess(x, s[0]) {
        forall y | y in s
          ensures LexLess(x, y)
        {
          if y != s[0] {
            LexLessTransitive(x, s[0], y);
          }
        }
        SortedCons(x, s);
      } else {
        LexLessTotal(x, s[0]);
        assert StrictlySorted(s[1..]) by {
          forall i, j | 0 <= i < j < |s[1..]|
            ensures LexLess(s[1..][i], s[1..][j])
          {
            assert s[1..][i] == s[i + 1] && s[1..][j] == s[j + 1];
          }
        }
        InsertSortedMeaning(s[1..], x);
        SortedCons(s[0], InsertSorted(s[1..], x));
      }
    }
  }

  /** `sorted(values.unique().tolist())`. */
  function SortedDistinct(values: seq<string>): seq<string> {
    if values == [] then []
    else InsertSorted(SortedDistinct(values[..|values| - 1]), values[|values| - 1])
  }

  /** The options are strictly sorted (so without duplicates) and are exactly the
      values given. */
  lemma {:induction false} SortedDistinctMeaning(values: seq<string>)
    ensures StrictlySorted(SortedDistinct(values))
    ensures forall v :: v in SortedDistinct(values) <==> v in values
  {
    if values != [] {
      var prefix := values[..|values| - 1];
      SortedDistinctMeaning(prefix);
      InsertSortedMeaning(SortedDistinct(prefix), values[|values| - 1]);
      assert values == prefix + [values[|values| - 1]];
    }
  }

  /** Two strictly sorted lists of the same values are the same list: the options
      do not depend on how the values were sorted. */
  lemma {:induction false} StrictlySortedUnique(a: seq<string>, b: seq<string>)
    requires StrictlySorted(a) && StrictlySorted(b)
    requires forall v :: v in a <==> v in b
    ensures a == b
  {
    assert a != [] ==> a[0] in a;
    assert b != [] ==> b[0] in b;
    if a != [] && b != [] {
      if a[0] != b[0] {
        assert b[0] in a && a[0] in b;
        var i :| 0 <= i < |a| && a[i] == b[0];
        var j :| 0 <= j < |b| && b[j] == a[0];
        LexLessAsymmetric(a[0], b[0]);
        assert false;
      }
      assert StrictlySorted(a[1..]) by {
        forall i, j | 0 <= i < j < |a[1..]|
          ensures LexLess(a[1..][i], a[1..][j])
        {
          assert a[1..][i] == a[i + 1] && a[1..][j] == a[j + 1];
        }
      }
      assert StrictlySorted(b[1..]) by {
        forall i, j | 0 <= i < j < |b[1..]|
          ensures LexLess(b[1..][i], b[1..][j])
        {
          assert b[1..][i] == b[i + 1] && b[1..][j] == b[j + 1];
        }
      }
      forall v
        ensures v in a[1..] <==> v in b[1..]
      {
        if v in a[1..] {
          var k :| 0 <= k < |a[1..]| && a[1..][k] == v;
          assert a[k + 1] == v;
          LexLessIrreflexive(a[0]);
          assert v != a[0];
          assert v in b;
          var m :| 0 <= m < |b| && b[m] == v;
          assert m != 0;
          assert b[1..][m - 1] == v;
        }
        if v in b[1..] {
          var k :| 0 <= k < |b[1..]| && b[1..][k] == v;
          assert b[k + 1] == v;
          LexLessIrreflexive(b[0]);
          assert v != b[0];
          assert v in a;
          var m :| 0 <= m < |a| && a[m] == v;
          assert m != 0;
          assert a[1..][m - 1] == v;
        }
      }
      StrictlySortedUnique(a[1..], b[1..]);
      assert a == [a[0]] + a[1..] && b == [b[0]] + b[1..];
    }
  }

  /** The options of one category: none when the table has no candidate column. */
  function CategoryOptions(rows: seq<Row>, candidates: seq<string>, lower: map<string, string>): Option<seq<string>> {
    match FirstCandidate(candidates, lower)
    case None => None
    case Some(column) => Some(SortedDistinct(ColumnValues(rows, column)))
  }

  /** The options of a category are strictly sorted, and are the non-null values of
      the first candidate column the table has; a category without such a column
      has none. */
  lemma CategoryOptionsMeaning(rows: seq<Row>, candidates: seq<string>, lower: map<string, string>)
    ensures CategoryOptions(rows, candidates, lower).None? <==> forall i :: 0 <= i < |candidates| ==> candidates[i] !in lower
    ensures CategoryOptions(rows, candidates, lower).Some? ==>
              var column := FirstCandidate(candidates, lower).value;
              && StrictlySorted(CategoryOptions(rows, candidates, lower).value)
              && forall v :: v in CategoryOptions(rows, candidates, lower).value <==> exists r :: r in rows && Cell(r, column) == Some(v)
  {
    FirstCandidateMeaning(candidates, lower);
    if FirstCandidate(candidates, lower).Some? {
      var column := FirstCandidate(candidates, lower).value;
      SortedDistinctMeaning(ColumnValues(rows, column));
      ColumnValuesMeaning(rows, column);
    }
  }

  function AddOption(options: map<string, seq<string>>, category: string, values: Option<seq<string>>): map<string, seq<string>> {
    match values
    case None => options
    case Some(v) => options[category := v]
  }

  /** `filter_options`: `locations`, `companies` and `roles`, each present when the
      table has a candidate column for it. */
  function FilterOptions(t: Table): map<string, seq<string>> {
    var lower := ColumnsLower(t.columns);
    var withLocations := AddOption(map[], "locations", CategoryOptions(t.rows, InfoLocationColumns, lower));
    var withCompanies := AddOption(withLocations, "companies", CategoryOptions(t.rows, InfoCompanyColumns, lower));
    AddOption(withCompanies, "roles", CategoryOptions(t.rows, InfoRoleColumns, lower))
  }

  /** One scan of `get_data_info`: the options of the first candidate column found
      are stored under `category`, and the scan stops there. */
  method ScanCategory(options: map<string, seq<string>>, category: string, candidates: seq<string>, rows: seq<Row>, lower: map<string, string>)
    returns (result: map<string, seq<string>>)
    ensures result == AddOption(options, category, CategoryOptions(rows, candidates, lower))
  {
    result := options;
    for i := 0 to |candidates|
      invariant FirstCandidate(candidates[i..], lower) == FirstCandidate(candidates, lower)
      invariant result == options
    {
      assert candidates[i..][1..] == candidates[i + 1..];
      if candidates[i] in lower {
        result := result[category := SortedDistinct(ColumnValues(rows, lower[candidates[i]]))];
        break;
      }
    }
  }

  /** The filter options part of `get_data_info`: a scan per category. */
  method GetFilterOptions(t: Table) returns (options: map<string, seq<string>>)
    ensures options == FilterOptions(t)
  {
    var lower := ColumnsLower(t.columns);
    options := map[];
    options := ScanCategory(options, "locations", InfoLocationColumns, t.rows, lower);
    options := ScanCategory(options, "companies", InfoCompanyColumns, t.rows, lower);
    options := ScanCategory(options, "roles", InfoRoleColumns, t.rows, lower);
  }

  lemma AddOptionMeaning(options: map<string, seq<string>>, category: string, values: Option<seq<string>>)
    ensures forall k :: k in AddOption(options, category, values) <==> k in options || (k == category && values.Some?)
    ensures forall k :: k in AddOption(options, category, values) && k != category ==> AddOption(options, category, values)[k] == options[k]
    ensures values.Some? ==> AddOption(options, category, values)[category] == values.value
  {
  }

  /** Only the three categories appear, each exactly when the table has one of its
      candidate columns, with the options of that column. */
  lemma FilterOptionsShape(t: Table)
    ensures forall k :: k in FilterOptions(t) ==> k == "locations" || k == "companies" || k == "roles"
    ensures var lower := ColumnsLower(t.columns);
            && ("locations" in FilterOptions(t) <==> CategoryOptions(t.rows, InfoLocationColumns, lower).Some?)
            && ("companies" in FilterOptions(t) <==> CategoryOptions(t.rows, InfoCompanyColumns, lower).Some?)
            && ("roles" in FilterOptions(t) <==> CategoryOptions(t.rows, InfoRoleColumns, lower).Some?)
            && ("locations" in FilterOptions(t) ==> FilterOptions(t)["locations"] == CategoryOptions(t.rows, InfoLocationColumns, lower).value)
            && ("companies" in FilterOptions(t) ==> FilterOptions(t)["companies"] == CategoryOptions(t.rows, InfoCompanyColumns, lower).value)
            && ("roles" in FilterOptions(t) ==> FilterOptions(t)["roles"] == CategoryOptions(t.rows, InfoRoleColumns, lower).value)
  {
    var lower := ColumnsLower(t.columns);
    var withLocations := AddOption(map[], "locations", CategoryOptions(t.rows, InfoLocationColumns, lower));
    var withCompanies := AddOption(withLocations, "companies", CategoryOptions(t.rows, InfoCompanyColumns, lower));
    AddOptionMeaning(map[], "locations", CategoryOptions(t.rows, InfoLocationColumns, lower));
    AddOptionMeaning(withLocations, "companies", CategoryOptions(t.rows, InfoCompanyColumns, lower));
    AddOptionMeaning(withCompanies, "roles", CategoryOptions(t.rows, InfoRoleColumns, lower));
  }

  /** The trailing placeholder of each candidate list never changes the column chosen. */
  lemma {:induction false} PlaceholderIrrelevant(candidates: seq<string>, columns: seq<string>)
    ensures FirstCandidate(candidates + ["YOUR_COLUMN_NAME"], ColumnsLower(columns)) == FirstCandidate(candidates, ColumnsLower(columns))
  {
    if candidates == [] {
      PlaceholderNeverMatches(columns);
      assert ([] + ["YOUR_COLUMN_NAME"])[1..] == [];
    } else {
      PlaceholderIrrelevant(candidates[1..], columns);
      assert (candidates + ["YOUR_COLUMN_NAME"])[1..] == candidates[1..] + ["YOUR_COLUMN_NAME"];
    }
  }

  /** A table whose only location column is `loc` is offered location options,
      yet a location filter never narrows its rows: `filter_data` does not search `loc`. */
  lemma LocOfferedButIgnored(t: Table, filters: map<string, string>)
    requires "loc" in ColumnsLower(t.columns)
    requires forall c :: c in LocationColumns ==> c !in ColumnsLower(t.columns)
    ensures "locations" in FilterOptions(t)
    ensures Matching(t, filters - {"location"}) == Matching(t, filters)
  {
    var lower := ColumnsLower(t.columns);
    FirstCandidateMeaning(LocationColumns, lower);
    assert InfoLocationColumns[4] == "loc";
    FirstCandidateMeaning(InfoLocationColumns, lower);
    FilterOptionsShape(t);
    InactiveKeyIgnored(t, filters, "location");
  }
}
