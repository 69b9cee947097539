/**
 * The numeric filter panel of the data table
 * (Projet/Cyril/JS/numeric_filter_overlay.js): for the year and note
 * columns an operator and one or two typed numbers choose which listed
 * values are selected; for budget, revenue and popularity they filter the
 * table rows directly.
 */
module NumericOverlay {
  import opened Cells
  import opened Tally
  import opened CrossFilter
  import opened FilterSession
  import opened Hierarchy
  import opened DataTable

  /** The numbers a row carries without a value list of their own. */
  datatype Metric = Popularity | Budget | Revenue

  /** The `filterKey` of a column header. */
  datatype FilterKey = ColumnKey(col: Column) | MetricKey(metric: Metric)

  datatype Operator = Gte | Lte | Between | Exact

  /** The columns that get the operator panel instead of a value list. */
  predicate IsNumericFilter(k: FilterKey) {
    k.MetricKey? || k == ColumnKey(YearCol) || k == ColumnKey(NoteCol)
  }

  predicate HasExactOption(k: FilterKey) {
    k == ColumnKey(YearCol) || k == ColumnKey(NoteCol)
  }

  /** The operator buttons of a numeric column, in order: "exact" comes
      last and only for year and note. */
  function OperatorsFor(k: FilterKey): (ops: seq<Operator>)
    requires IsNumericFilter(k)
    ensures |ops| >= 3 && ops[..3] == [Gte, Lte, Between]
    ensures Exact in ops <==> k.ColumnKey?
    ensures NoDuplicates(ops)
  {
    if HasExactOption(k) then [Gte, Lte, Between, Exact] else [Gte, Lte, Between]
  }

  // ---------------------------------------------------------------------------
  // The tests

  /** What an applied operator lets through. */
  datatype Criterion = Near(target: real) | Within(v1: real, v2: real) | AtLeast(bound: real) | AtMost(bound: real)

  function Min(a: real, b: real): real {
    if a <= b then a else b
  }

  function Max(a: real, b: real): real {
    if a <= b then b else a
  }

  /** `Math.abs(x - val) < 0.01`, `min <= x <= max`, `x >= val`, `x <= val`. */
  predicate Accepts(c: Criterion, x: real) {
    match c
    case Near(target) => -0.01 < x - target < 0.01
    case Within(v1, v2) => Min(v1, v2) <= x && x <= Max(v1, v2)
    case AtLeast(bound) => x >= bound
    case AtMost(bound) => x <= bound
  }

  /** The one-input operators. */
  function OneSided(op: Operator, v: real): Criterion
    requires op == Gte || op == Lte
  {
    if op == Gte then AtLeast(v) else AtMost(v)
  }

  /** The listed values whose `parseFloat` the criterion accepts; a value
      that reads as `NaN` fails every comparison. */
  function Matching(values: seq<string>, parseFloat: string -> Option<real>, c: Criterion): set<string> {
    set v | v in values && parseFloat(v).Some? && Accepts(c, parseFloat(v).value)
  }

  /** Swapping the two "between" inputs selects the same values. */
  lemma WithinSymmetric(values: seq<string>, parseFloat: string -> Option<real>, v1: real, v2: real)
    ensures Matching(values, parseFloat, Within(v1, v2)) == Matching(values, parseFloat, Within(v2, v1))
  {
  }

  /** "Between" selects what both "at least the smaller" and "at most the
      larger" select. */
  lemma WithinIsBothSides(values: seq<string>, parseFloat: string -> Option<real>, v1: real, v2: real)
    ensures Matching(values, parseFloat, Within(v1, v2))
      == Matching(values, parseFloat, AtLeast(Min(v1, v2))) * Matching(values, parseFloat, AtMost(Max(v1, v2)))
  {
  }

  /** Among values that read as whole numbers (years), "exact" selects
      those equal to the target's one candidate at most: two selected
      values read as the same number. */
  lemma NearSelectsOneYear(values: seq<string>, parseFloat: string -> Option<real>, t: real, a: string, b: string)
    requires a in Matching(values, parseFloat, Near(t)) && b in Matching(values, parseFloat, Near(t))
    requires parseFloat(a).Some? && parseFloat(a).value == parseFloat(a).value.Floor as real
    requires parseFloat(b).Some? && parseFloat(b).value == parseFloat(b).value.Floor as real
    ensures parseFloat(a) == parseFloat(b)
  {
    var pa, pb := parseFloat(a).value, parseFloat(b).value;
    assert -0.01 < pa - t < 0.01 && -0.01 < pb - t < 0.01;
    var x, y := pa.Floor, pb.Floor;
    assert (x - y) as real < 1.0 && (y - x) as real < 1.0;
  }

  /** The `forEach` that refills a cleared selection: every listed value
      the criterion accepts is added. */
  method Refill(values: seq<string>, parseFloat: string -> Option<real>, c: Criterion) returns (s: set<string>)
    ensures s == Matching(values, parseFloat, c)
  {
    s := {};
    var i := 0;
    while i < |values|
      invariant 0 <= i <= |values|
      invariant s == Matching(values[..i], parseFloat, c)
    {
      var v := values[i];
      var numVal := parseFloat(v);
      if numVal.Some? && Accepts(c, numVal.value) {
        s := s + {v};
      }
      assert values[..i + 1] == values[..i] + [v];
      i := i + 1;
    }
    assert values[..i] == values;
  }

  // ---------------------------------------------------------------------------
  // Row filters

  /** `film.budget`, `film.revenue` or `film.popularity`; `None` stands for
      a value that is not a number. */
  function MetricOf(f: Film, m: Metric): Option<real> {
    match m
    case Popularity => f.popularity
    case Budget => f.budget
    case Revenue => f.revenue
  }

  predicate RowAccepted(f: Film, m: Metric, c: Criterion) {
    MetricOf(f, m).Some? && Accepts(c, MetricOf(f, m).value)
  }

  /** The `baseTableData.filter` of a metric column: the rows, in order,
      with a value the criterion accepts. */
  function MetricRows(base: seq<Film>, m: Metric, c: Criterion): (r: seq<Film>)
    ensures IsSubsequence(r, base)
    ensures forall f :: f in r <==> f in base && MetricOf(f, m).Some? && Accepts(c, MetricOf(f, m).value)
    ensures forall f :: multiset(r)[f] == if RowAccepted(f, m, c) then multiset(base)[f] else 0
  {
    KeepIsSubsequence(base, (f: Film) => RowAccepted(f, m, c));
    forall f ensures multiset(Keep(base, (f: Film) => RowAccepted(f, m, c)))[f] == if RowAccepted(f, m, c) then multiset(base)[f] else 0 {
      KeepCount(base, (f: Film) => RowAccepted(f, m, c), f);
    }
    Keep(base, (f: Film) => RowAccepted(f, m, c))
  }

  /** Row "between" with its inputs swapped keeps the same rows, and it is
      "at least the smaller" followed by "at most the larger". */
  lemma WithinRowsTwoSteps(base: seq<Film>, m: Metric, v1: real, v2: real)
    ensures MetricRows(base, m, Within(v1, v2)) == MetricRows(base, m, Within(v2, v1))
    ensures MetricRows(base, m, Within(v1, v2))
      == MetricRows(MetricRows(base, m, AtLeast(Min(v1, v2))), m, AtMost(Max(v1, v2)))
  {
    KeepSame(base, (f: Film) => RowAccepted(f, m, Within(v1, v2)), (f: Film) => RowAccepted(f, m, Within(v2, v1)));
    KeepKeep(base, (f: Film) => RowAccepted(f, m, AtLeast(Min(v1, v2))),
      (f: Film) => RowAccepted(f, m, AtMost(Max(v1, v2))), (f: Film) => RowAccepted(f, m, Within(v1, v2)));
  }

  /** "At least" and "at most" the same value split the rows with a value
      into two parts that share only the rows equal to it. */
  lemma GteLteCover(base: seq<Film>, m: Metric, v: real, f: Film)
    requires f in base && MetricOf(f, m).Some?
    ensures f in MetricRows(base, m, AtLeast(v)) || f in MetricRows(base, m, AtMost(v))
    ensures f in MetricRows(base, m, AtLeast(v)) && f in MetricRows(base, m, AtMost(v)) <==> MetricOf(f, m).value == v
  {
  }

  // ---------------------------------------------------------------------------
  // The apply buttons

  /** `selectedYears` and `selectedNotes`, the selections the panel writes
      besides the table filter sets. */
  class Facets {
    var selectedYears: set<string>
    var selectedNotes: set<string>

    constructor()
      ensures selectedYears == {} && selectedNotes == {}
    {
      selectedYears := {};
      selectedNotes := {};
    }

    function SelectedFor(col: Column): set<string>
      reads this
    {
      if col == YearCol then selectedYears else selectedNotes
    }

    method SetSelected(col: Column, v: set<string>)
      modifies this
      ensures SelectedFor(col) == v
      ensures col == YearCol ==> selectedNotes == old(selectedNotes)
      ensures col != YearCol ==> selectedYears == old(selectedYears)
    {
      if col == YearCol {
        selectedYears := v;
      } else {
        selectedNotes := v;
      }
    }
  }

  /** Clears the year or note selection and its table filter set and
      refills both with the listed values the criterion accepts. The rows
      shown are not recomputed. */
  method ReplaceSelection(col: Column, values: seq<string>, parseFloat: string -> Option<real>, c: Criterion,
                          t: Table, facets: Facets)
    requires col == YearCol || col == NoteCol
    modifies t, facets
    ensures var m := Matching(values, parseFloat, c);
      facets.SelectedFor(col) == m && t.tableFilters == WithFilterSet(old(t.tableFilters), col, m)
    ensures col == YearCol ==> facets.selectedNotes == old(facets.selectedNotes)
    ensures col == NoteCol ==> facets.selectedYears == old(facets.selectedYears)
    ensures t.baseTableData == old(t.baseTableData) && t.currentTableData == old(t.currentTableData)
    ensures t.currentPage == old(t.currentPage)
  {
    var selected := Refill(values, parseFloat, c);
    facets.SetSelected(col, selected);
    t.tableFilters := WithFilterSet(t.tableFilters, col, selected);
  }

  /** The "=" button of the year or note panel, `input` being
      `parseFloat` of the typed text (`None` for `NaN`). */
  method ApplyExact(col: Column, input: Option<real>, values: seq<string>, parseFloat: string -> Option<real>,
                    t: Table, d: Dashboard, facets: Facets, lo: Bound, hi: Bound)
    requires col == YearCol || col == NoteCol
    modifies t, d, facets
    ensures input.None? ==>
      (d.Hist() == old(d.Hist()) && t.tableFilters == old(t.tableFilters)
       && facets.selectedYears == old(facets.selectedYears) && facets.selectedNotes == old(facets.selectedNotes)
       && t.currentTableData == old(t.currentTableData) && d.filteredData == old(d.filteredData))
    ensures t.baseTableData == old(t.baseTableData)
    ensures input.Some? ==> var m := Matching(values, parseFloat, Near(input.value));
      d.Hist() == Pushed(old(d.Hist()))
      && facets.SelectedFor(col) == m && t.tableFilters == WithFilterSet(old(t.tableFilters), col, m)
      && d.filteredData == FilteredData(d.movies, d.Current(), lo, hi)
      && t.currentTableData == old(t.currentTableData) && t.currentPage == old(t.currentPage)
  {
    if input.Some? {
      d.PushFiltersHistory();
      ReplaceSelection(col, values, parseFloat, Near(input.value), t, facets);
      d.UpdateFilteredData(lo, hi);
    }
  }

  /** The "between" button: a selection for year and note, a row filter
      for the metrics. */
  method ApplyBetween(k: FilterKey, input1: Option<real>, input2: Option<real>, values: seq<string>,
                      parseFloat: string -> Option<real>, t: Table, d: Dashboard, facets: Facets, lo: Bound, hi: Bound)
    requires IsNumericFilter(k)
    modifies t, d, facets
    ensures input1.None? || input2.None? ==>
      (d.Hist() == old(d.Hist()) && t.tableFilters == old(t.tableFilters)
       && facets.selectedYears == old(facets.selectedYears) && facets.selectedNotes == old(facets.selectedNotes)
       && t.currentTableData == old(t.currentTableData) && d.filteredData == old(d.filteredData))
    ensures t.baseTableData == old(t.baseTableData)
    ensures input1.Some? && input2.Some? ==> var c := Within(input1.value, input2.value);
      d.Hist() == Pushed(old(d.Hist())) && d.filteredData == FilteredData(d.movies, d.Current(), lo, hi)
      && (k.ColumnKey? ==>
            var m := Matching(values, parseFloat, c);
            facets.SelectedFor(k.col) == m && t.tableFilters == WithFilterSet(old(t.tableFilters), k.col, m)
            && t.currentTableData == old(t.currentTableData) && t.currentPage == old(t.currentPage))
      && (k.MetricKey? ==>
            (t.currentTableData == MetricRows(t.baseTableData, k.metric, c)
             && t.currentPage == old(t.currentPage) && t.tableFilters == old(t.tableFilters)
             && facets.selectedYears == old(facets.selectedYears)
             && facets.selectedNotes == old(facets.selectedNotes)))
  {
    if input1.Some? && input2.Some? {
      d.PushFiltersHistory();
      var c := Within(input1.value, input2.value);
      match k {
        case ColumnKey(col) =>
          ReplaceSelection(col, values, parseFloat, c, t, facets);
        case MetricKey(m) =>
          t.ShowRowsAsWritten(MetricRows(t.baseTableData, m, c));
      }
      d.UpdateFilteredData(lo, hi);
    }
  }

  /** The "≥" and "≤" buttons. */
  method ApplyOneSided(k: FilterKey, op: Operator, input: Option<real>, values: seq<string>,
                       parseFloat: string -> Option<real>, t: Table, d: Dashboard, facets: Facets, lo: Bound, hi: Bound)
    requires IsNumericFilter(k) && (op == Gte || op == Lte)
    modifies t, d, facets
    ensures input.None? ==>
      (d.Hist() == old(d.Hist()) && t.tableFilters == old(t.tableFilters)
       && facets.selectedYears == old(facets.selectedYears) && facets.selectedNotes == old(facets.selectedNotes)
       && t.currentTableData == old(t.currentTableData) && d.filteredData == old(d.filteredData))
    ensures t.baseTableData == old(t.baseTableData)
    ensures input.Some? ==> var c := OneSided(op, input.value);
      d.Hist() == Pushed(old(d.Hist())) && d.filteredData == FilteredData(d.movies, d.Current(), lo, hi)
      && (k.ColumnKey? ==>
            var m := Matching(values, parseFloat, c);
            facets.SelectedFor(k.col) == m && t.tableFilters == WithFilterSet(old(t.tableFilters), k.col, m)
            && t.currentTableData == old(t.currentTableData) && t.currentPage == old(t.currentPage))
      && (k.MetricKey? ==>
            (t.currentTableData == MetricRows(t.baseTableData, k.metric, c)
             && t.currentPage == old(t.currentPage) && t.tableFilters == old(t.tableFilters)
             && facets.selectedYears == old(facets.selectedYears)
             && facets.selectedNotes == old(facets.selectedNotes)))
  {
    if input.Some? {
      d.PushFiltersHistory();
      var c := OneSided(op, input.value);
      match k {
        case ColumnKey(col) =>
          ReplaceSelection(col, values, parseFloat, c, t, facets);
        case MetricKey(m) =>
          t.ShowRowsAsWritten(MetricRows(t.baseTableData, m, c));
      }
      d.UpdateFilteredData(lo, hi);
    }
  }

  // ---------------------------------------------------------------------------
  // The page left behind by a row filter, as written

  function Row(title: string, budget: Option<real>): Film {
    Film(title, 1.0, None, None, None, None, budget, [], [])
  }

  lemma StalePage(base: seq<Film>, rows: seq<Film>)
    requires |base| == 11 && |rows| == 1
    ensures PageInRange(2, |base|) && !PageInRange(2, |rows|) && PageSlice(rows, 2) == []
  {
    assert TotalPages(11) == 2;
    assert TotalPages(1) == 1;
  }

  /** `n` rows without a budget, titled "a", "aa", "aaa" and so on. */
  function Unbudgeted(n: nat): (r: seq<Film>)
    ensures |r| == n
    ensures forall i :: 0 <= i < n ==> r[i] == Row(Repeat('a', i + 1), None)
  {
    seq(n, i requires 0 <= i < n => Row(Repeat('a', i + 1), None))
  }

  lemma UnbudgetedTitlesDistinct(n: nat, title: string)
    requires 'a' !in title
    ensures NoDuplicates(Names(Unbudgeted(n) + [Row(title, Some(2.0))]))
  {
    var base := Unbudgeted(n) + [Row(title, Some(2.0))];
    var names := Names(base);
    forall i, j | 0 <= i < j < |names| ensures names[i] != names[j] {
      assert names[i] == Repeat('a', i + 1);
      if j < n {
        assert |names[i]| != |names[j]|;
      } else {
        assert names[j] == title;
        assert |names[i]| == i + 1 && names[i][0] in names[i];
        assert names[i][0] == 'a';
      }
    }
  }

  /** `n` rows without a budget and one last row with a budget, under
      distinct titles: they are their own de-duplication, and "budget ≥ 1"
      keeps only the last row. */
  lemma BudgetedLast(n: nat, title: string)
    requires 'a' !in title
    ensures var base := Unbudgeted(n) + [Row(title, Some(2.0))];
      NoDuplicates(Names(base)) && Dedup(base) == base
      && MetricRows(base, Budget, AtLeast(1.0)) == [Row(title, Some(2.0))]
  {
    var rich := Row(title, Some(2.0));
    UnbudgetedTitlesDistinct(n, title);
    DedupOfDistinct(Unbudgeted(n) + [rich]);
    OnlyLastKept(Unbudgeted(n), rich, (f: Film) => RowAccepted(f, Budget, AtLeast(1.0)));
  }

  /** Eleven rows with distinct titles, the last one with a budget, read
      on page 2; "budget ≥ 1" keeps that single row, and the page kept by
      `Table.ShowRowsAsWritten` no longer exists: the table shows an empty
      page although a row passes. The rows are their own de-duplication,
      so they can be the table's base rows. */
  lemma StalePageAsWritten()
    ensures var rich := Row("b", Some(2.0));
      var base := Unbudgeted(10) + [rich];
      var rows := MetricRows(base, Budget, AtLeast(1.0));
      NoDuplicates(Names(base)) && Dedup(base) == base
      && PageInRange(2, |base|) && rows == [rich] && !PageInRange(2, |rows|) && PageSlice(rows, 2) == []
  {
    var rich := Row("b", Some(2.0));
    var base := Unbudgeted(10) + [rich];
    BudgetedLast(10, "b");
    StalePage(base, MetricRows(base, Budget, AtLeast(1.0)));
  }
}
