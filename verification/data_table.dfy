/**
 * The data table under the chart (Projet/Cyril/JS/script.js): the rows are
 * the drawn films with one row per title (the largest value kept), narrowed
 * by five per-column value filters and shown ten to a page.
 */
module DataTable {
  import opened Cells
  import opened Tally
  import opened Numerals
  import opened Hierarchy

  const ItemsPerPage := 10

  // ---------------------------------------------------------------------------
  // One row per title

  /** The state of the `reduce` that de-duplicates by title: the titles in
      the order the `Map` first met them, and the film kept for each. */
  datatype Seen = Seen(order: seq<string>, best: map<string, Film>)

  /** The `reduce` callback: a film replaces the one kept for its title when
      there is none yet or when its value is strictly larger. */
  function Absorb(a: Seen, f: Film): Seen {
    if f.name !in a.best then Seen(a.order + [f.name], a.best[f.name := f])
    else if f.value > a.best[f.name].value then Seen(a.order, a.best[f.name := f])
    else a
  }

  /** The `reduce` over `films`. */
  function DedupAcc(films: seq<Film>): (a: Seen)
    ensures forall n :: n in a.order ==> n in a.best
  {
    if |films| == 0 then Seen([], map[])
    else Absorb(DedupAcc(films[..|films| - 1]), films[|films| - 1])
  }

  /** What the fold keeps after `films`: each title once, with one of its
      films, which is at least as large as every film of that title. */
  ghost predicate KeepsLargest(films: seq<Film>, a: Seen) {
    && NoDuplicates(a.order)
    && (forall n :: n in a.order <==> n in a.best)
    && (forall n :: n in a.best ==> a.best[n].name == n && a.best[n] in films)
    && (forall f :: f in films ==> f.name in a.best && f.value <= a.best[f.name].value)
  }

  lemma {:induction false} DedupAccInvariant(films: seq<Film>)
    ensures KeepsLargest(films, DedupAcc(films))
  {
    if |films| > 0 {
      var init := films[..|films| - 1];
      DedupAccInvariant(init);
      assert films == init + [films[|films| - 1]];
      AbsorbKeeps(init, films[|films| - 1], DedupAcc(init));
    }
  }

  /** The titles the fold has recorded are the titles of the input. */
  lemma SeenTitles(films: seq<Film>, n: string)
    ensures n in DedupAcc(films).best <==> n in Names(films)
  {
    DedupAccInvariant(films);
    var a := DedupAcc(films);
    if n in a.best {
      var k := a.best[n];
      var i :| 0 <= i < |films| && films[i] == k;
      assert Names(films)[i] == n;
    }
    if n in Names(films) {
      var i :| 0 <= i < |films| && Names(films)[i] == n;
      assert films[i] in films;
    }
  }

  /** The fold meets the titles in the order they first appear. */
  lemma {:induction false} DedupAccOrder(films: seq<Film>)
    ensures DedupAcc(films).order == Distinct(Names(films))
  {
    if |films| > 0 {
      var init := films[..|films| - 1];
      var f := films[|films| - 1];
      DedupAccOrder(init);
      SeenTitles(init, f.name);
      var ns := Names(films);
      assert ns[..|ns| - 1] == Names(init) && ns[|ns| - 1] == f.name;
    }
  }

  /** Of the films of a title with the largest value, the fold keeps the
      first: the kept film comes no later than any film of its title that
      reaches its value. */
  ghost predicate KeepsFirst(films: seq<Film>, a: Seen) {
    forall i :: (0 <= i < |films| && films[i].name in a.best
      && films[i].value >= a.best[films[i].name].value) ==> a.best[films[i].name] in films[..i + 1]
  }

  lemma {:induction false} DedupAccFirst(films: seq<Film>)
    ensures KeepsFirst(films, DedupAcc(films))
  {
    if |films| > 0 {
      var init := films[..|films| - 1];
      var f := films[|films| - 1];
      var a := DedupAcc(init);
      var b := DedupAcc(films);
      DedupAccFirst(init);
      assert films == init + [f];
      assert b == Absorb(a, f);
      forall i | 0 <= i < |films| && films[i].name in b.best && films[i].value >= b.best[films[i].name].value
        ensures b.best[films[i].name] in films[..i + 1]
      {
        DedupAccInvariant(init);
        AbsorbFirstAt(init, f, a, i);
      }
    }
  }

  lemma AbsorbFirstAt(init: seq<Film>, f: Film, a: Seen, i: nat)
    requires KeepsFirst(init, a)
    requires forall n :: n in a.best ==> a.best[n] in init
    requires i < |init| ==> init[i].name in a.best && init[i].value <= a.best[init[i].name].value
    requires i <= |init|
    requires (init + [f])[i].name in Absorb(a, f).best
    requires (init + [f])[i].value >= Absorb(a, f).best[(init + [f])[i].name].value
    ensures Absorb(a, f).best[(init + [f])[i].name] in (init + [f])[..i + 1]
  {
    var b := Absorb(a, f);
    var fs := init + [f];
    var n := fs[i].name;
    assert fs[..i + 1][i] == fs[i];
    if i < |init| {
      assert fs[i] == init[i] && fs[..i + 1] == init[..i + 1];
      assert n in a.best && init[i].value <= a.best[n].value;
      assert !(n == f.name && f.value > a.best[n].value);
      assert b.best[n] == a.best[n];
    } else if n in a.best && b.best[n] == a.best[n] {
      assert a.best[n] in init && fs[..i + 1] == fs;
    }
  }

  /** One step of the fold keeps `KeepsLargest`. */
  lemma AbsorbKeeps(init: seq<Film>, f: Film, a: Seen)
    requires KeepsLargest(init, a)
    ensures KeepsLargest(init + [f], Absorb(a, f))
  {
    var b := Absorb(a, f);
    var fs := init + [f];
    if f.name !in a.best {
      assert f.name !in a.order;
      AppendFresh(a.order, f.name);
    }
    forall n | n in b.best
      ensures b.best[n].name == n && b.best[n] in fs
    {
      if b.best[n] != f {
        assert b.best[n] == a.best[n];
      }
    }
    forall g | g in fs
      ensures g.name in b.best && g.value <= b.best[g.name].value
    {
      if g !in init {
        assert g == f;
      }
    }
  }

  function Names(films: seq<Film>): (r: seq<string>)
    ensures |r| == |films| && forall i :: 0 <= i < |films| ==> r[i] == films[i].name
  {
    seq(|films|, i requires 0 <= i < |films| => films[i].name)
  }

  /** `Array.from(map.values())` after the `reduce`: one film per title, in
      the order titles first appear; each is a film of the input with the
      largest value among those of its title. */
  function Dedup(films: seq<Film>): (r: seq<Film>)
    ensures NoDuplicates(Names(r))
    ensures forall f :: f in r ==> f in films
    ensures forall f :: f in films ==> f.name in Names(r)
    ensures forall f, g :: f in films && g in r && g.name == f.name ==> f.value <= g.value
  {
    DedupRowsFacts(films);
    Rows(DedupAcc(films))
  }

  lemma DedupRowsFacts(films: seq<Film>)
    ensures var r := Rows(DedupAcc(films));
      && NoDuplicates(Names(r))
      && (forall f :: f in r ==> f in films)
      && (forall f :: f in films ==> f.name in Names(r))
      && (forall f, g :: f in films && g in r && g.name == f.name ==> f.value <= g.value)
  {
    DedupAccInvariant(films);
    var a := DedupAcc(films);
    var r := Rows(a);
    assert Names(r) == a.order;
    forall f, g | f in films && g in r && g.name == f.name
      ensures f.value <= g.value
    {
      var i :| 0 <= i < |r| && r[i] == g;
      assert g == a.best[a.order[i]];
    }
  }

  /** The kept film of each title, in the order of the titles. */
  function Rows(a: Seen): (r: seq<Film>)
    requires forall n :: n in a.order ==> n in a.best
    ensures |r| == |a.order| && forall i :: 0 <= i < |r| ==> r[i] == a.best[a.order[i]]
  {
    seq(|a.order|, i requires 0 <= i < |a.order| => a.best[a.order[i]])
  }

  /** The rows come in the order their titles first appear in the input. */
  lemma DedupInOrder(films: seq<Film>)
    ensures Names(Dedup(films)) == Distinct(Names(films))
  {
    DedupAccOrder(films);
    DedupAccInvariant(films);
    var a := DedupAcc(films);
    var r := Dedup(films);
    assert |r| == |a.order|;
    forall i | 0 <= i < |r| ensures r[i].name == a.order[i] {
      assert r[i] == a.best[a.order[i]];
    }
  }

  lemma KeptTitle(films: seq<Film>, n: string)
    requires n in DedupAcc(films).best
    ensures DedupAcc(films).best[n].name == n
  {
    DedupAccInvariant(films);
  }

  /** Each row of `Dedup` is the film the fold kept for its title. */
  lemma DedupRow(films: seq<Film>, g: Film)
    requires g in Dedup(films)
    ensures g.name in DedupAcc(films).best && DedupAcc(films).best[g.name] == g
  {
    var a := DedupAcc(films);
    var r := Dedup(films);
    assert |r| == |a.order|;
    var k :| 0 <= k < |r| && r[k] == g;
    var n := a.order[k];
    KeptTitle(films, n);
    assert g == a.best[n] && g.name == n;
  }

  /** A tie keeps the first film: a film of the input whose value reaches
      the kept row of its title does not come before that row. */
  lemma DedupTieKeepsFirst(films: seq<Film>)
    ensures forall g, i :: (g in Dedup(films) && 0 <= i < |films| && films[i].name == g.name
      && films[i].value >= g.value) ==> g in films[..i + 1]
  {
    DedupAccFirst(films);
    forall g, i | g in Dedup(films) && 0 <= i < |films| && films[i].name == g.name && films[i].value >= g.value
      ensures g in films[..i + 1]
    {
      DedupRow(films, g);
    }
  }

  /** The fold over rows of distinct titles records every title in order,
      each with its own row. */
  lemma {:induction false} DedupAccOfDistinct(films: seq<Film>)
    requires NoDuplicates(Names(films))
    ensures DedupAcc(films).order == Names(films)
    ensures forall i :: 0 <= i < |films| ==>
      films[i].name in DedupAcc(films).best && DedupAcc(films).best[films[i].name] == films[i]
  {
    if |films| > 0 {
      var init := films[..|films| - 1];
      var f := films[|films| - 1];
      assert Names(init) == Names(films)[..|films| - 1];
      DedupAccOfDistinct(init);
      var a := DedupAcc(init);
      assert f.name !in a.best by {
        forall i | 0 <= i < |init| ensures Names(init)[i] != f.name {
          assert Names(films)[i] != Names(films)[|films| - 1];
        }
        DedupAccInvariant(init);
      }
      assert DedupAcc(films) == Seen(a.order + [f.name], a.best[f.name := f]);
      assert Names(films) == Names(init) + [f.name];
      forall i | 0 <= i < |films|
        ensures films[i].name in DedupAcc(films).best && DedupAcc(films).best[films[i].name] == films[i]
      {
        if i < |init| {
          assert films[i] == init[i];
          assert films[i].name != f.name by {
            assert Names(films)[i] != Names(films)[|films| - 1];
          }
        }
      }
    }
  }

  /** De-duplicating rows whose titles are already distinct changes nothing:
      the second pass of `createDataTable` over the rows of
      `createDataTableForRoot` is the identity. */
  lemma DedupOfDistinct(films: seq<Film>)
    requires NoDuplicates(Names(films))
    ensures Dedup(films) == films
  {
    DedupAccOfDistinct(films);
    var r := Dedup(films);
    assert |r| == |films|;
    forall i | 0 <= i < |films| ensures r[i] == films[i] {
      assert DedupAcc(films).order[i] == films[i].name;
    }
  }

  /** The concrete case: of two rows with one title, the larger is kept
      whichever comes first. */
  lemma DedupKeepsLarger(a: Film, b: Film)
    requires a.name == b.name && a.value < b.value
    ensures Dedup([a, b]) == [b] && Dedup([b, a]) == [b]
  {
    DedupAccPair(a, b);
    DedupAccPair(b, a);
    DedupSingle([a, b], b);
    DedupSingle([b, a], b);
  }

  /** The fold over two rows with one title keeps the title once, with the
      larger row. */
  lemma DedupAccPair(x: Film, y: Film)
    requires x.name == y.name && x.value != y.value
    ensures var b := if x.value < y.value then y else x;
      DedupAcc([x, y]) == Seen([b.name], map[b.name := b])
  {
    var first := Seen([x.name], map[x.name := x]);
    assert DedupAcc([x]) == first by {
      assert [x][..0] == [];
    }
    assert DedupAcc([x, y]) == Absorb(first, y) by {
      assert [x, y][..1] == [x];
    }
    assert map[x.name := x][x.name := y] == map[y.name := y];
  }

  lemma DedupSingle(films: seq<Film>, b: Film)
    requires DedupAcc(films) == Seen([b.name], map[b.name := b])
    ensures Dedup(films) == [b]
  {
    var r := Dedup(films);
    assert |r| == 1 && r[0] == b;
  }

  // ---------------------------------------------------------------------------
  // Column filters

  datatype Column = TitleCol | YearCol | NoteCol | GenresCol | ProductionsCol

  /** The five value sets of `tableFilters`. */
  datatype TableFilters = TableFilters(
    title: set<string>,
    year: set<string>,
    note: set<string>,
    genres: set<string>,
    productions: set<string>)

  const NoTableFilters := TableFilters({}, {}, {}, {}, {})

  function FilterSet(t: TableFilters, col: Column): set<string> {
    match col
    case TitleCol => t.title
    case YearCol => t.year
    case NoteCol => t.note
    case GenresCol => t.genres
    case ProductionsCol => t.productions
  }

  function WithFilterSet(t: TableFilters, col: Column, v: set<string>): (r: TableFilters)
    ensures FilterSet(r, col) == v
    ensures forall c :: c != col ==> FilterSet(r, c) == FilterSet(t, c)
  {
    match col
    case TitleCol => t.(title := v)
    case YearCol => t.(year := v)
    case NoteCol => t.(note := v)
    case GenresCol => t.(genres := v)
    case ProductionsCol => t.(productions := v)
  }

  /** `String(film.year || '')`: empty for a missing year or year 0. */
  function YearText(f: Film): string {
    if f.year.None? || f.year.value == 0 then "" else IntToString(f.year.value)
  }

  /** `film.vote_average ? film.vote_average.toFixed(1) : ''`. */
  function NoteText(f: Film): string {
    if f.voteAverage.None? || f.voteAverage.value == 0.0 then "" else ToFixed1(f.voteAverage.value)
  }

  /** The test of one column: an empty set lets every row through. */
  predicate ColumnPasses(f: Film, t: TableFilters, col: Column) {
    var sel := FilterSet(t, col);
    |sel| == 0 ||
    match col
    case TitleCol => f.name in sel
    case YearCol => YearText(f) in sel
    case NoteCol => NoteText(f) in sel
    case GenresCol => exists g :: g in f.genres && g in sel
    case ProductionsCol => exists p :: p in f.companies && p in sel
  }

  predicate RowPasses(f: Film, t: TableFilters) {
    ColumnPasses(f, t, TitleCol) && ColumnPasses(f, t, YearCol) && ColumnPasses(f, t, NoteCol)
    && ColumnPasses(f, t, GenresCol) && ColumnPasses(f, t, ProductionsCol)
  }

  /** The `filter` of `applyTableFilters`: the base rows passing every
      column, in their order. */
  function FilterRows(base: seq<Film>, t: TableFilters): (r: seq<Film>)
    ensures IsSubsequence(r, base)
    ensures forall f :: f in r <==> f in base && RowPasses(f, t)
    ensures forall f :: multiset(r)[f] == if RowPasses(f, t) then multiset(base)[f] else 0
  {
    KeepIsSubsequence(base, (f: Film) => RowPasses(f, t));
    forall f ensures multiset(Keep(base, (f: Film) => RowPasses(f, t)))[f] == if RowPasses(f, t) then multiset(base)[f] else 0 {
      KeepCount(base, (f: Film) => RowPasses(f, t), f);
    }
    Keep(base, (f: Film) => RowPasses(f, t))
  }

  /** With every set empty the table shows all its rows. */
  lemma NoFiltersKeepAll(base: seq<Film>)
    ensures FilterRows(base, NoTableFilters) == base
  {
    KeepAll(base, (f: Film) => RowPasses(f, NoTableFilters));
  }

  /** The values `getUniqueValuesForColumn` offers for a column (before its
      display sort): every title; every non-empty year and note key; every
      genre and company. */
  function UniqueValues(base: seq<Film>, col: Column): set<string> {
    if |base| == 0 then {}
    else
      var f := base[|base| - 1];
      UniqueValues(base[..|base| - 1], col) +
      match col
      case TitleCol => {f.name}
      case YearCol => if YearText(f) != "" then {YearText(f)} else {}
      case NoteCol => if NoteText(f) != "" then {NoteText(f)} else {}
      case GenresCol => set g | g in f.genres
      case ProductionsCol => set p | p in f.companies
  }

  /** The row key a value of column `col` is matched against. */
  predicate RowHasValue(f: Film, col: Column, v: string) {
    match col
    case TitleCol => f.name == v
    case YearCol => YearText(f) == v
    case NoteCol => NoteText(f) == v
    case GenresCol => v in f.genres
    case ProductionsCol => v in f.companies
  }

  lemma {:induction false} UniqueValuesMembership(base: seq<Film>, col: Column, v: string)
    ensures v in UniqueValues(base, col)
      <==> (exists f :: f in base && RowHasValue(f, col, v)) && (v == "" ==> col != YearCol && col != NoteCol)
  {
    if |base| > 0 {
      var init := base[..|base| - 1];
      var last := base[|base| - 1];
      UniqueValuesMembership(init, col, v);
      assert base == init + [last];
      assert (exists g :: g in base && RowHasValue(g, col, v))
        <==> (exists g :: g in init && RowHasValue(g, col, v)) || RowHasValue(last, col, v);
      match col
      case TitleCol =>
      case YearCol =>
      case NoteCol =>
      case GenresCol =>
        assert v in (set g | g in last.genres) <==> v in last.genres;
      case ProductionsCol =>
        assert v in (set p | p in last.companies) <==> v in last.companies;
    }
  }

  /** Choosing one offered value of a column never empties the table, and a
      non-empty value that leaves some row was offered: the offered values
      are exactly the non-empty values some row carries. */
  lemma OfferedValuesMatchRows(base: seq<Film>, col: Column, v: string)
    requires v != ""
    ensures v in UniqueValues(base, col)
      <==> |FilterRows(base, WithFilterSet(NoTableFilters, col, {v}))| > 0
  {
    var t := WithFilterSet(NoTableFilters, col, {v});
    UniqueValuesMembership(base, col, v);
    assert forall f :: RowPasses(f, t) <==> RowHasValue(f, col, v) by {
      forall f ensures RowPasses(f, t) <==> RowHasValue(f, col, v) {
        assert forall c :: c != col ==> FilterSet(t, c) == {};
      }
    }
    var r := FilterRows(base, t);
    if v in UniqueValues(base, col) {
      var f :| f in base && RowHasValue(f, col, v);
      assert f in r;
    }
    if |r| > 0 {
      assert r[0] in r;
    }
  }

  /** Choosing the year key of a film with a year selects exactly the films
      of that year. */
  lemma YearFilterSelectsYear(base: seq<Film>, y: int, f: Film)
    requires y != 0
    ensures var t := WithFilterSet(NoTableFilters, YearCol, {IntToString(y)});
      f in FilterRows(base, t) <==> f in base && f.year == Some(y)
  {
    var t := WithFilterSet(NoTableFilters, YearCol, {IntToString(y)});
    assert FilterSet(t, TitleCol) == {} && FilterSet(t, NoteCol) == {};
    assert FilterSet(t, GenresCol) == {} && FilterSet(t, ProductionsCol) == {};
    if YearText(f) == IntToString(y) {
      assert YearText(f) != "" by {
        assert |NatToString(if y < 0 then -y else y)| >= 1;
      }
      IntToStringInjective(f.year.value, y);
    }
  }

  // ---------------------------------------------------------------------------
  // Pages

  /** `Math.ceil(n / 10)`. */
  function TotalPages(n: nat): (p: nat)
    ensures (p - 1) * ItemsPerPage < n <= p * ItemsPerPage || (n == 0 && p == 0)
  {
    (n + ItemsPerPage - 1) / ItemsPerPage
  }

  /** `rows.slice((page - 1) * 10, (page - 1) * 10 + 10)`. */
  function PageSlice<T>(rows: seq<T>, page: int): (r: seq<T>)
    requires page >= 1
    ensures |r| <= ItemsPerPage
  {
    var start := (page - 1) * ItemsPerPage;
    if start >= |rows| then []
    else rows[start..if start + ItemsPerPage <= |rows| then start + ItemsPerPage else |rows|]
  }

  /** Every row is shown on exactly one page, which exists; every existing
      page shows at least one row; later pages show nothing. */
  lemma PagesCoverRows<T>(rows: seq<T>, i: nat, page: int)
    requires page >= 1
    ensures i < |rows| ==>
      (1 <= i / ItemsPerPage + 1 <= TotalPages(|rows|)
       && PageSlice(rows, i / ItemsPerPage + 1)[i % ItemsPerPage] == rows[i])
    ensures page <= TotalPages(|rows|) ==> |PageSlice(rows, page)| > 0
    ensures page > TotalPages(|rows|) ==> PageSlice(rows, page) == []
  {
    var n, tp := |rows|, TotalPages(|rows|);
    if i < n {
      var q, m := i / ItemsPerPage, i % ItemsPerPage;
      assert i == q * ItemsPerPage + m && 0 <= m < ItemsPerPage;
      assert q < tp by {
        assert q * ItemsPerPage <= i < n <= tp * ItemsPerPage;
      }
      var start := q * ItemsPerPage;
      assert (q + 1 - 1) * ItemsPerPage == start;
      assert start + m == i;
    }
    if 1 <= page <= tp {
      assert (page - 1) * ItemsPerPage <= (tp - 1) * ItemsPerPage < n;
    }
    if page > tp {
      assert (page - 1) * ItemsPerPage >= tp * ItemsPerPage >= n;
    }
  }

  /** The page number is a valid page, or 1 when the table is empty. */
  predicate PageInRange(page: int, n: nat) {
    1 <= page <= (if TotalPages(n) == 0 then 1 else TotalPages(n))
  }

  /** The "previous" button. */
  function PageBefore(page: int, n: nat): (r: int)
    ensures PageInRange(page, n) ==> PageInRange(r, n)
    ensures page > 1 ==> r == page - 1
    ensures page <= 1 ==> r == page
  {
    if page > 1 then page - 1 else page
  }

  /** The "next" button. */
  function PageAfter(page: int, n: nat): (r: int)
    ensures PageInRange(page, n) ==> PageInRange(r, n)
    ensures page < TotalPages(n) ==> r == page + 1
    ensures page >= TotalPages(n) ==> r == page
  {
    if page < TotalPages(n) then page + 1 else page
  }

  // ---------------------------------------------------------------------------
  // The table state

  function Flatten(groups: seq<Group>): seq<Film> {
    if |groups| == 0 then [] else Flatten(groups[..|groups| - 1]) + groups[|groups| - 1].children
  }

  /** The table globals: the de-duplicated rows, the column filters, the
      rows shown, and the current page. */
  class Table {
    var baseTableData: seq<Film>
    var tableFilters: TableFilters
    var currentTableData: seq<Film>
    var currentPage: int

    constructor()
      ensures baseTableData == [] && tableFilters == NoTableFilters
      ensures currentTableData == [] && currentPage == 1
    {
      baseTableData := [];
      tableFilters := NoTableFilters;
      currentTableData := [];
      currentPage := 1;
    }

    /** `createDataTable(films)`: one row per title, filters reset, every
        row shown from page 1. */
    method CreateDataTable(films: seq<Film>)
      modifies this
      ensures baseTableData == Dedup(films) && tableFilters == NoTableFilters
      ensures currentTableData == baseTableData && currentPage == 1
      ensures PageInRange(currentPage, |currentTableData|)
    {
      baseTableData := Dedup(films);
      tableFilters := NoTableFilters;
      ApplyTableFilters();
      NoFiltersKeepAll(baseTableData);
    }

    /** `createDataTableForRoot(root)`: the films of all drawn groups (whose
        values are finite here, so the `isFinite` filter keeps them all), one
        per title, largest value first. */
    method CreateDataTableForRoot(groups: seq<Group>)
      modifies this
      ensures baseTableData == SortDesc(Dedup(Flatten(groups)), FilmValue)
      ensures tableFilters == NoTableFilters
      ensures currentTableData == baseTableData && currentPage == 1
    {
      var films := Flatten(groups);
      var unique := SortDesc(Dedup(films), FilmValue);
      CreateDataTable(unique);
      UniqueNamesAfterSort(Dedup(films));
      DedupOfDistinct(unique);
    }

    /** `applyTableFilters()`: the rows passing every column, from page 1. */
    method ApplyTableFilters()
      modifies this
      ensures currentTableData == FilterRows(baseTableData, tableFilters) && currentPage == 1
      ensures baseTableData == old(baseTableData) && tableFilters == old(tableFilters)
      ensures PageInRange(currentPage, |currentTableData|)
    {
      currentTableData := FilterRows(baseTableData, tableFilters);
      currentPage := 1;
    }

    /** A click on value `v` in the filter panel of column `col`. */
    method ToggleFilterValue(col: Column, v: string)
      modifies this
      ensures var old_set := FilterSet(old(tableFilters), col);
        tableFilters == WithFilterSet(old(tableFilters), col, if v in old_set then old_set - {v} else old_set + {v})
      ensures currentTableData == FilterRows(baseTableData, tableFilters) && currentPage == 1
      ensures baseTableData == old(baseTableData)
    {
      var sel := FilterSet(tableFilters, col);
      if v in sel {
        tableFilters := WithFilterSet(tableFilters, col, sel - {v});
      } else {
        tableFilters := WithFilterSet(tableFilters, col, sel + {v});
      }
      currentTableData := FilterRows(baseTableData, tableFilters);
      currentPage := 1;
    }

    /** How the numeric filter panel installs the rows it computed, as
        written: `currentTableData` is replaced and `currentPage` is kept. */
    method ShowRowsAsWritten(rows: seq<Film>)
      modifies this
      ensures currentTableData == rows && currentPage == old(currentPage)
      ensures baseTableData == old(baseTableData) && tableFilters == old(tableFilters)
    {
      currentTableData := rows;
    }

    /** The same, going back to page 1 as `applyTableFilters` does, so the
        page shown always exists. */
    method ShowRows(rows: seq<Film>)
      modifies this
      ensures currentTableData == rows && currentPage == 1
      ensures baseTableData == old(baseTableData) && tableFilters == old(tableFilters)
      ensures PageInRange(currentPage, |currentTableData|)
    {
      currentTableData := rows;
      currentPage := 1;
    }

    method PrevPage()
      modifies this
      ensures currentPage == PageBefore(old(currentPage), |currentTableData|)
      ensures baseTableData == old(baseTableData) && tableFilters == old(tableFilters)
      ensures currentTableData == old(currentTableData)
    {
      if currentPage > 1 {
        currentPage := currentPage - 1;
      }
    }

    method NextPage()
      modifies this
      ensures currentPage == PageAfter(old(currentPage), |currentTableData|)
      ensures baseTableData == old(baseTableData) && tableFilters == old(tableFilters)
      ensures currentTableData == old(currentTableData)
    {
      var totalPages := TotalPages(|currentTableData|);
      if currentPage < totalPages {
        currentPage := currentPage + 1;
      }
    }
  }

  /** Sorting keeps the titles distinct. */
  lemma UniqueNamesAfterSort(films: seq<Film>)
    requires NoDuplicates(Names(films))
    ensures NoDuplicates(Names(SortDesc(films, FilmValue)))
  {
    var s := SortDesc(films, FilmValue);
    forall i, j | 0 <= i < j < |s| ensures s[i].name != s[j].name {
      PermutationKeepsNames(films, s, i, j);
    }
  }

  lemma PermutationKeepsNames(films: seq<Film>, s: seq<Film>, i: int, j: int)
    requires NoDuplicates(Names(films)) && multiset(s) == multiset(films)
    requires 0 <= i < j < |s|
    ensures s[i].name != s[j].name
  {
    DistinctNamesOnce(films, s[j]);
    assert s == s[..j] + [s[j]] + s[j + 1..];
    assert multiset(s[..j])[s[j]] == 0;
    assert s[i] in s[..j];
    assert s[i] in multiset(films) && s[j] in multiset(films);
    var a :| 0 <= a < |films| && films[a] == s[i];
    var b :| 0 <= b < |films| && films[b] == s[j];
    assert a != b;
    assert Names(films)[a] != Names(films)[b];
  }

  /** Films with distinct titles are distinct: none occurs twice. */
  lemma {:induction false} DistinctNamesOnce(films: seq<Film>, x: Film)
    requires NoDuplicates(Names(films))
    ensures multiset(films)[x] <= 1
  {
    if |films| > 0 {
      var init := films[..|films| - 1];
      var f := films[|films| - 1];
      assert films == init + [f];
      assert NoDuplicates(Names(init)) by {
        forall i, j | 0 <= i < j < |init|
          ensures Names(init)[i] != Names(init)[j]
        {
          assert Names(films)[i] != Names(films)[j];
        }
      }
      DistinctNamesOnce(init, x);
      forall k | 0 <= k < |init|
        ensures init[k] != f
      {
        assert Names(films)[k] != Names(films)[|films| - 1];
      }
      assert f !in multiset(init);
    }
  }
}
