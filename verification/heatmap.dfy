/**
 * The genre-by-period heatmap page: the CSV rows are converted in place
 * (numbers, JSON lists, decade), exploded into one (genre, period) pair per
 * listed genre, counted per cell and per period, filtered by the form, and a
 * click on a cell lists the ten best-scored movies of that cell.
 *
 * Numbers are JavaScript numbers (`+text`, given as the `toNumber`
 * parameter); `JSON.parse` is the `parse` parameter; the Bayesian score is the
 * `score` parameter, which sees the movies it ranks.
 */
module Heatmap {
  import opened Cells
  import opened Text
  import opened Tally

  /** A CSV line as `d3.csv` delivers it: every field is text. */
  datatype CsvLine = CsvLine(
    title: string, genres: string, companies: string,
    voteAverage: string, voteCount: string, popularity: string,
    budget: string, revenue: string, runtime: string, year: string)

  /** A prepared movie. */
  datatype HeatMovie = HeatMovie(
    title: string, genres: seq<string>, companies: seq<string>,
    voteAverage: JsNumber, voteCount: JsNumber, popularity: JsNumber,
    budget: JsNumber, revenue: JsNumber, runtime: JsNumber,
    year: JsNumber, decade: JsNumber)

  /** An entry of the data array, before and after preparation. */
  datatype Row = Raw(line: CsvLine) | Ready(movie: HeatMovie)

  // ---------------------------------------------------------------------
  // Preparation
  // ---------------------------------------------------------------------

  /** `Math.floor(year / 10) * 10`: the first year of the decade holding a
      finite year; NaN and the infinities are carried through. */
  function DecadeOf(year: JsNumber): (d: JsNumber)
    ensures !year.Finite? ==> d == year
    ensures year.Finite? ==> d.Finite? && d.value == d.value.Floor as real && d.value.Floor % 10 == 0
    ensures year.Finite? ==> d.value <= year.value < d.value + 10.0
  {
    match year
    case Finite(y) =>
      var k := (y / 10.0).Floor;
      assert k as real <= y / 10.0 < k as real + 1.0;
      assert (k * 10) as real == 10.0 * k as real;
      Finite((k * 10) as real)
    case _ => year
  }

  /** One pass of the preparation loop over a line: `None` where
      `JSON.parse` throws or gives something other than an array. */
  function Prepare(line: CsvLine, toNumber: string -> JsNumber, parse: string -> JsonOutcome): (r: Option<HeatMovie>)
    ensures r.Some? <==> parse(line.genres).ParsedArray? && parse(line.companies).ParsedArray?
    ensures r.Some? ==> r.value.genres == parse(line.genres).items && r.value.companies == parse(line.companies).items
    ensures r.Some? ==> r.value.year == toNumber(line.year) && r.value.decade == DecadeOf(r.value.year)
  {
    match (parse(line.genres), parse(line.companies))
    case (ParsedArray(genres), ParsedArray(companies)) =>
      var year := toNumber(line.year);
      Some(HeatMovie(line.title, genres, companies,
        toNumber(line.voteAverage), toNumber(line.voteCount), toNumber(line.popularity),
        toNumber(line.budget), toNumber(line.revenue), toNumber(line.runtime),
        year, DecadeOf(year)))
    case _ => None
  }

  /** `after` is `before` with its first `k` rows prepared and the rest
      untouched. */
  ghost predicate ConvertedUpTo(before: seq<Row>, after: seq<Row>, k: nat,
                                toNumber: string -> JsNumber, parse: string -> JsonOutcome)
    requires forall i :: 0 <= i < |before| ==> before[i].Raw?
  {
    && k <= |before| == |after|
    && (forall i :: 0 <= i < k ==> Prepare(before[i].line, toNumber, parse).Some?)
    && (forall i :: 0 <= i < k ==> after[i] == Ready(Prepare(before[i].line, toNumber, parse).value))
    && (forall i :: k <= i < |after| ==> after[i] == before[i])
  }

  /** `prepareData`: converts every row in place, in order. It stops at the
      first row whose lists do not parse, the rows before it converted and the
      rest untouched, and reports whether it went through. */
  method PrepareData(data: array<Row>, toNumber: string -> JsNumber, parse: string -> JsonOutcome) returns (ok: bool)
    requires forall i :: 0 <= i < data.Length ==> data[i].Raw?
    modifies data
    ensures ok <==> forall i :: 0 <= i < data.Length ==> Prepare(old(data[i]).line, toNumber, parse).Some?
    ensures ok ==> ConvertedUpTo(old(data[..]), data[..], data.Length, toNumber, parse)
    ensures !ok ==> exists k :: (0 <= k < data.Length && Prepare(old(data[k]).line, toNumber, parse).None?
      && ConvertedUpTo(old(data[..]), data[..], k, toNumber, parse))
  {
    ghost var before := data[..];
    var n := 0;
    while n < data.Length
      invariant 0 <= n <= data.Length
      invariant ConvertedUpTo(before, data[..], n, toNumber, parse)
    {
      var prepared := Prepare(data[n].line, toNumber, parse);
      if prepared.None? {
        assert data[n] == before[n];
        assert Prepare(before[n].line, toNumber, parse).None?;
        ok := false;
        return;
      }
      data[n] := Ready(prepared.value);
      n := n + 1;
    }
    return true;
  }

  // ---------------------------------------------------------------------
  // Aggregation
  // ---------------------------------------------------------------------

  /** The field a period is read from: `decade` or `year`. */
  datatype Level = DecadeLevel | YearLevel

  function PeriodOf(m: HeatMovie, level: Level): JsNumber {
    match level
    case DecadeLevel => m.decade
    case YearLevel => m.year
  }

  /** Each genre of `genres` paired with the period `p`. */
  function Tag(genres: seq<string>, p: JsNumber): (r: seq<(string, JsNumber)>)
    ensures |r| == |genres|
    ensures forall g, q :: (g, q) in r <==> g in genres && q == p
  {
    if |genres| == 0 then []
    else
      var init := genres[..|genres| - 1];
      assert genres == init + [genres[|genres| - 1]];
      Tag(init, p) + [(genres[|genres| - 1], p)]
  }

  /** The number of (movie, genre) entries of `data`. */
  function GenreEntries(data: seq<HeatMovie>): nat {
    if |data| == 0 then 0 else GenreEntries(data[..|data| - 1]) + |data[|data| - 1].genres|
  }

  /** `data.flatMap(d => d.genres.map(g => ...))`, keyed by genre and period:
      one pair per listed genre of every movie. */
  function Pairs(data: seq<HeatMovie>, level: Level): (r: seq<(string, JsNumber)>)
    ensures |r| == GenreEntries(data)
  {
    if |data| == 0 then []
    else
      var m := data[|data| - 1];
      Pairs(data[..|data| - 1], level) + Tag(m.genres, PeriodOf(m, level))
  }

  /** Every genre of every movie, in order. */
  function AllGenres(data: seq<HeatMovie>): seq<string> {
    if |data| == 0 then [] else AllGenres(data[..|data| - 1]) + data[|data| - 1].genres
  }

  /** The period of every movie, in order. */
  function Periods(data: seq<HeatMovie>, level: Level): (r: seq<JsNumber>)
    ensures |r| == |data|
  {
    if |data| == 0 then [] else Periods(data[..|data| - 1], level) + [PeriodOf(data[|data| - 1], level)]
  }

  /** `aggregateData`: one cell per (genre, period) that some movie has, with
      the number of such (movie, genre) entries. The source's nesting of the
      rollup orders cells by genre first; here they are in order of first
      appearance. */
  function AggregateData(data: seq<HeatMovie>, level: Level): (cells: seq<((string, JsNumber), nat)>)
  {
    Rollup(Pairs(data, level))
  }

  /** `computeTotals`: each period with its number of movies. */
  function ComputeTotals(data: seq<HeatMovie>, level: Level): (totals: seq<(JsNumber, nat)>)
  {
    Rollup(Periods(data, level))
  }

  /** `genreCounts`: each genre with its number of movies. */
  function GenreTotals(data: seq<HeatMovie>): (totals: seq<(string, nat)>)
  {
    Rollup(AllGenres(data))
  }

  lemma {:induction false} PairsMembership(data: seq<HeatMovie>, level: Level, g: string, p: JsNumber)
    ensures (g, p) in Pairs(data, level) <==> exists m :: m in data && g in m.genres && PeriodOf(m, level) == p
  {
    if |data| > 0 {
      var init := data[..|data| - 1];
      var m := data[|data| - 1];
      PairsMembership(init, level, g, p);
      assert data == init + [m];
    }
  }

  /** The heatmap has a cell for a genre and a period exactly when some movie
      lists the genre in the period, and each cell counts those movies'
      entries. */
  lemma AggregateCells(data: seq<HeatMovie>, level: Level, g: string, p: JsNumber)
    ensures (exists i :: 0 <= i < |AggregateData(data, level)| && AggregateData(data, level)[i].0 == (g, p))
      <==> exists m :: m in data && g in m.genres && PeriodOf(m, level) == p
  {
    PairsMembership(data, level, g, p);
    var r := AggregateData(data, level);
    assert (g, p) in Pairs(data, level) <==> exists i :: 0 <= i < |r| && r[i].0 == (g, p);
  }

  /** The cell counts add up to the number of (movie, genre) entries. */
  lemma AggregateCountsAddUp(data: seq<HeatMovie>, level: Level)
    ensures GroupSizes(AggregateData(data, level)) == GenreEntries(data)
  {
    RollupCoversAll(Pairs(data, level));
  }

  /** The period totals add up to the number of movies. */
  lemma TotalsAddUp(data: seq<HeatMovie>, level: Level)
    ensures GroupSizes(ComputeTotals(data, level)) == |data|
  {
    RollupCoversAll(Periods(data, level));
  }

  lemma {:induction false} CountTag(genres: seq<string>, p: JsNumber, g: string, q: JsNumber)
    ensures Count(Tag(genres, p), (g, q)) == if p == q then Count(genres, g) else 0
  {
    if |genres| > 0 {
      CountTag(genres[..|genres| - 1], p, g, q);
    }
  }

  /** Filtering the movies can only lower the count of a pair. */
  lemma {:induction false} CountPairsOfKept(data: seq<HeatMovie>, keep: HeatMovie -> bool, level: Level, k: (string, JsNumber))
    ensures Count(Pairs(Keep(data, keep), level), k) <= Count(Pairs(data, level), k)
  {
    if |data| > 0 {
      var init := data[..|data| - 1];
      var m := data[|data| - 1];
      var tag := Tag(m.genres, PeriodOf(m, level));
      CountPairsOfKept(init, keep, level, k);
      CountAppend(Pairs(init, level), tag, k);
      if keep(m) {
        var kept := Keep(init, keep) + [m];
        assert kept[..|kept| - 1] == Keep(init, keep);
        CountAppend(Pairs(Keep(init, keep), level), tag, k);
      }
    }
  }

  /** A pair is counted at most once per movie of its period, when no movie
      lists a genre twice. */
  lemma {:induction false} PairsWithinPeriods(data: seq<HeatMovie>, level: Level, g: string, p: JsNumber)
    requires forall m :: m in data ==> NoDuplicates(m.genres)
    ensures Count(Pairs(data, level), (g, p)) <= Count(Periods(data, level), p)
  {
    if |data| > 0 {
      var init := data[..|data| - 1];
      var m := data[|data| - 1];
      assert data == init + [m];
      PairsWithinPeriods(init, level, g, p);
      CountAppend(Pairs(init, level), Tag(m.genres, PeriodOf(m, level)), (g, p));
      CountTag(m.genres, PeriodOf(m, level), g, p);
      CountInDistinct(m.genres, g);
    }
  }

  /** A pair is counted at most as often as its genre is listed. */
  lemma {:induction false} PairsWithinGenres(data: seq<HeatMovie>, level: Level, g: string, p: JsNumber)
    ensures Count(Pairs(data, level), (g, p)) <= Count(AllGenres(data), g)
  {
    if |data| > 0 {
      var init := data[..|data| - 1];
      var m := data[|data| - 1];
      PairsWithinGenres(init, level, g, p);
      CountAppend(Pairs(init, level), Tag(m.genres, PeriodOf(m, level)), (g, p));
      CountAppend(AllGenres(init), m.genres, g);
      CountTag(m.genres, PeriodOf(m, level), g, p);
    }
  }

  /** The entry of `totals` for `key`, which the lookup `totals.get(key)`
      finds. */
  predicate HasTotalAtLeast<K(==)>(totals: seq<(K, nat)>, key: K, count: nat) {
    exists j :: 0 <= j < |totals| && totals[j].0 == key && count <= totals[j].1
  }

  lemma TotalAtLeastCount<K(!new)>(s: seq<K>, key: K, count: nat)
    requires 0 < count <= Count(s, key)
    ensures HasTotalAtLeast(Rollup(s), key, count)
  {
    CountPositive(s, key);
    var j :| 0 <= j < |Rollup(s)| && Rollup(s)[j].0 == key;
  }

  // ---------------------------------------------------------------------
  // The filter form
  // ---------------------------------------------------------------------

  /** The form's raw values: the decade choice ("all" or a decade), the
      company text and the three minimums. */
  datatype HeatForm = HeatForm(decade: string, company: string, runtime: string, popularity: string, vote: string)

  /** `"all"` shows decades; a chosen decade shows its years. */
  function LevelFor(form: HeatForm): Level {
    if form.decade == "all" then DecadeLevel else YearLevel
  }

  /** `a >= b` on JavaScript numbers: false when either is NaN. */
  predicate AtLeast(a: JsNumber, b: JsNumber) {
    match (a, b)
    case (NaN, _) => false
    case (_, NaN) => false
    case (PlusInfinity, _) => true
    case (_, MinusInfinity) => true
    case (MinusInfinity, _) => false
    case (_, PlusInfinity) => false
    case (Finite(x), Finite(y)) => x >= y
  }

  /** `a == b` (and `a === b`) on JavaScript numbers: NaN equals nothing. */
  predicate NumberEquals(a: JsNumber, b: JsNumber) {
    a == b && !a.NaN?
  }

  /** The filter of `getFilteredData`. */
  predicate HeatPasses(m: HeatMovie, form: HeatForm, toNumber: string -> JsNumber) {
    var company := Lower(form.company);
    (form.decade == "all" || NumberEquals(DecadeOf(m.year), toNumber(form.decade))) &&
    (company == "" || exists c :: c in m.companies && Contains(Lower(c), company)) &&
    AtLeast(m.runtime, toNumber(form.runtime)) &&
    AtLeast(m.popularity, toNumber(form.popularity)) &&
    AtLeast(m.voteAverage, toNumber(form.vote))
  }

  function FilterHeat(data: seq<HeatMovie>, form: HeatForm, toNumber: string -> JsNumber): (r: seq<HeatMovie>)
    ensures IsSubsequence(r, data)
    ensures forall m :: m in r <==> m in data && HeatPasses(m, form, toNumber)
    ensures forall m :: multiset(r)[m] == if HeatPasses(m, form, toNumber) then multiset(data)[m] else 0
  {
    KeepIsSubsequence(data, m => HeatPasses(m, form, toNumber));
    forall m ensures multiset(Keep(data, m => HeatPasses(m, form, toNumber)))[m] == if HeatPasses(m, form, toNumber) then multiset(data)[m] else 0 {
      KeepCount(data, m => HeatPasses(m, form, toNumber), m);
    }
    Keep(data, m => HeatPasses(m, form, toNumber))
  }

  /** `getFilteredData`: the cells of the movies that pass, and the level. */
  function GetFilteredData(data: seq<HeatMovie>, form: HeatForm, toNumber: string -> JsNumber): (r: (seq<((string, JsNumber), nat)>, Level))
    ensures r.1 == DecadeLevel <==> form.decade == "all"
  {
    (AggregateData(FilterHeat(data, form, toNumber), LevelFor(form)), LevelFor(form))
  }

  /** Once a finite decade is chosen, every cell is a year of that decade. */
  lemma ChosenDecadeShowsItsYears(data: seq<HeatMovie>, form: HeatForm, toNumber: string -> JsNumber, i: nat)
    requires form.decade != "all" && toNumber(form.decade).Finite?
    requires forall m :: m in data ==> m.decade == DecadeOf(m.year)
    requires i < |GetFilteredData(data, form, toNumber).0|
    ensures var p := GetFilteredData(data, form, toNumber).0[i].0.1;
      var d := toNumber(form.decade).value;
      p.Finite? && d <= p.value < d + 10.0
  {
    var kept := FilterHeat(data, form, toNumber);
    var cells := GetFilteredData(data, form, toNumber).0;
    var (g, p) := cells[i].0;
    assert (g, p) in Pairs(kept, YearLevel) by {
      assert exists i :: 0 <= i < |cells| && cells[i].0 == (g, p);
    }
    PairsMembership(kept, YearLevel, g, p);
    var m :| m in kept && g in m.genres && m.year == p;
    assert NumberEquals(DecadeOf(m.year), toNumber(form.decade));
  }

  /** A period ratio (a cell's count over its period's total among all
      movies) is defined and at most one, when no movie lists a genre
      twice. */
  lemma PeriodRatioAtMostOne(data: seq<HeatMovie>, form: HeatForm, toNumber: string -> JsNumber, i: nat)
    requires forall m :: m in data ==> NoDuplicates(m.genres)
    requires i < |GetFilteredData(data, form, toNumber).0|
    ensures var cell := GetFilteredData(data, form, toNumber).0[i];
      HasTotalAtLeast(ComputeTotals(data, LevelFor(form)), cell.0.1, cell.1)
  {
    var level := LevelFor(form);
    var cell := GetFilteredData(data, form, toNumber).0[i];
    CountPairsOfKept(data, m => HeatPasses(m, form, toNumber), level, cell.0);
    PairsWithinPeriods(data, level, cell.0.0, cell.0.1);
    TotalAtLeastCount(Periods(data, level), cell.0.1, cell.1);
  }

  /** A genre ratio (a cell's count over its genre's total among all movies)
      is defined and at most one. */
  lemma GenreRatioAtMostOne(data: seq<HeatMovie>, form: HeatForm, toNumber: string -> JsNumber, i: nat)
    requires i < |GetFilteredData(data, form, toNumber).0|
    ensures var cell := GetFilteredData(data, form, toNumber).0[i];
      HasTotalAtLeast(GenreTotals(data), cell.0.0, cell.1)
  {
    var level := LevelFor(form);
    var cell := GetFilteredData(data, form, toNumber).0[i];
    CountPairsOfKept(data, m => HeatPasses(m, form, toNumber), level, cell.0);
    PairsWithinGenres(data, level, cell.0.0, cell.0.1);
    TotalAtLeastCount(AllGenres(data), cell.0.0, cell.1);
  }

  // ---------------------------------------------------------------------
  // The genre axis
  // ---------------------------------------------------------------------

  const NotInformed: string := "Non renseigné"

  /** The comparator of the genre axis: "Non renseigné" after every other
      genre, the rest by `localeCompare`. */
  function GenreCompare(a: string, b: string, localeCompare: (string, string) -> int): int {
    if a == NotInformed && b != NotInformed then 1
    else if b == NotInformed && a != NotInformed then -1
    else localeCompare(a, b)
  }

  /** Any order of the distinct genres that agrees with the comparator ends
      with "Non renseigné". */
  lemma NotInformedLast(ys: seq<string>, localeCompare: (string, string) -> int)
    requires NoDuplicates(ys) && NotInformed in ys
    requires forall i, j :: 0 <= i < j < |ys| ==> GenreCompare(ys[i], ys[j], localeCompare) <= 0
    ensures ys[|ys| - 1] == NotInformed
  {
    var k :| 0 <= k < |ys| && ys[k] == NotInformed;
  }

  // ---------------------------------------------------------------------
  // Top movies
  // ---------------------------------------------------------------------

  /** `.sort((a, b) => b.score - a.score).slice(0, 10)`: the ten best by
      `key`, best first. */
  function TopTen<T>(s: seq<T>, key: T -> real): (r: seq<T>)
    ensures |r| == if |s| < 10 then |s| else 10
    ensures multiset(r) <= multiset(s) && SortedDesc(r, key)
    ensures |s| <= 10 ==> multiset(r) == multiset(s)
    ensures forall x :: x in s && x !in r ==> |r| == 10
    ensures forall x, y :: x in s && x !in r && y in r ==> key(y) >= key(x)
  {
    TopK(s, 10, key)
  }

  /** `getGlobalTop10`: the ten best-scored movies of all. */
  function GlobalTopTen(data: seq<HeatMovie>, score: (seq<HeatMovie>, HeatMovie) -> real): (r: seq<HeatMovie>)
    ensures |r| == if |data| < 10 then |data| else 10
    ensures multiset(r) <= multiset(data)
    ensures forall x, y :: x in data && x !in r && y in r ==> score(data, y) >= score(data, x)
  {
    var key := m => score(data, m);
    var r := TopTen(data, key);
    assert forall x, y :: x in data && x !in r && y in r ==> score(data, y) >= score(data, x) by {
      forall x, y | x in data && x !in r && y in r
        ensures score(data, y) >= score(data, x)
      {
        assert key(y) >= key(x);
      }
    }
    r
  }

  /** Whether a movie belongs to the clicked cell. JavaScript's `===`
      compares the periods, so no movie belongs to a NaN period. */
  predicate InCellAsWritten(m: HeatMovie, genre: string, period: JsNumber, level: Level) {
    genre in m.genres && NumberEquals(PeriodOf(m, level), period)
  }

  /** The `filter` of `getMoviesForCell` as written. */
  function CellMoviesAsWritten(data: seq<HeatMovie>, genre: string, period: JsNumber, level: Level): seq<HeatMovie> {
    Keep(data, InCellAsWrittenTest(genre, period, level))
  }

  function InCellAsWrittenTest(genre: string, period: JsNumber, level: Level): HeatMovie -> bool {
    m => InCellAsWritten(m, genre, period, level)
  }

  /** `getMoviesForCell` as written: the ten best-scored movies of the
      cell, each scored against the cell's own movies. */
  function GetMoviesForCellAsWritten(data: seq<HeatMovie>, genre: string, period: JsNumber, level: Level,
                                     score: (seq<HeatMovie>, HeatMovie) -> real): (r: seq<HeatMovie>)
    ensures var cell := CellMoviesAsWritten(data, genre, period, level);
      |r| == if |cell| < 10 then |cell| else 10
    ensures multiset(r) <= multiset(data)
    ensures forall m :: m in r ==> InCellAsWritten(m, genre, period, level)
    ensures forall x, y :: x in data && InCellAsWritten(x, genre, period, level) && x !in r && y in r ==>
      var cell := CellMoviesAsWritten(data, genre, period, level); score(cell, y) >= score(cell, x)
  {
    var cell := CellMoviesAsWritten(data, genre, period, level);
    var key := m => score(cell, m);
    var r := TopKept(data, InCellAsWrittenTest(genre, period, level), 10, key);
    assert forall x, y :: x in data && InCellAsWritten(x, genre, period, level) && x !in r && y in r ==> score(cell, y) >= score(cell, x) by {
      forall x, y | x in data && InCellAsWritten(x, genre, period, level) && x !in r && y in r
        ensures score(cell, y) >= score(cell, x)
      {
        assert key(y) >= key(x);
      }
    }
    r
  }

  /** A movie whose year text is not a number ("n/a", say) has a NaN
      year and decade. */
  function Undated(genre: string): HeatMovie {
    HeatMovie("", [genre], [], NaN, NaN, NaN, NaN, NaN, NaN, NaN, NaN)
  }

  /** The rollup groups NaN periods together (a `Map` key compares with
      SameValueZero), so a movie without a year makes a cell of count one
      whose click lists no movie. */
  lemma UndatedCellListsNothingAsWritten(genre: string, level: Level, score: (seq<HeatMovie>, HeatMovie) -> real)
    ensures AggregateData([Undated(genre)], level) == [((genre, NaN), 1)]
    ensures GetMoviesForCellAsWritten([Undated(genre)], genre, NaN, level, score) == []
  {
    UndatedAggregate(genre, level);
    KeepNone([Undated(genre)], InCellAsWrittenTest(genre, NaN, level));
    assert CellMoviesAsWritten([Undated(genre)], genre, NaN, level) == [];
  }

  lemma UndatedAggregate(genre: string, level: Level)
    ensures AggregateData([Undated(genre)], level) == [((genre, NaN), 1)]
  {
    var data := [Undated(genre)];
    assert Pairs(data, level) == [(genre, NaN)] by {
      assert data[..0] == [];
    }
    RollupSingle((genre, NaN));
  }

  lemma RollupSingle<T(!new)>(x: T)
    ensures Rollup([x]) == [(x, 1)]
  {
    assert [x][..0] == [];
    assert Distinct([x]) == [x];
    assert Count([x], x) == 1;
  }

  /** Whether a movie belongs to a cell, periods compared as the rollup
      grouped them. */
  predicate InCell(m: HeatMovie, genre: string, period: JsNumber, level: Level) {
    genre in m.genres && PeriodOf(m, level) == period
  }

  /** The cell's movies, periods compared as the rollup grouped them. */
  function CellMovies(data: seq<HeatMovie>, genre: string, period: JsNumber, level: Level): seq<HeatMovie> {
    Keep(data, InCellTest(genre, period, level))
  }

  function InCellTest(genre: string, period: JsNumber, level: Level): HeatMovie -> bool {
    m => InCell(m, genre, period, level)
  }

  /** `getMoviesForCell`, with the cell's movies found as the rollup grouped
      them: the ten best-scored movies listing the genre in the period. */
  function GetMoviesForCell(data: seq<HeatMovie>, genre: string, period: JsNumber, level: Level,
                            score: (seq<HeatMovie>, HeatMovie) -> real): (r: seq<HeatMovie>)
    ensures var cell := CellMovies(data, genre, period, level);
      |r| == if |cell| < 10 then |cell| else 10
    ensures multiset(r) <= multiset(data)
    ensures forall m :: m in r ==> InCell(m, genre, period, level)
    ensures forall m :: m in data && InCell(m, genre, period, level) && m !in r ==> |r| == 10
    ensures forall x, y :: x in data && InCell(x, genre, period, level) && x !in r && y in r ==>
      var cell := CellMovies(data, genre, period, level); score(cell, y) >= score(cell, x)
  {
    var cell := CellMovies(data, genre, period, level);
    var key := m => score(cell, m);
    var r := TopKept(data, InCellTest(genre, period, level), 10, key);
    assert forall x, y :: x in data && InCell(x, genre, period, level) && x !in r && y in r ==> score(cell, y) >= score(cell, x) by {
      forall x, y | x in data && InCell(x, genre, period, level) && x !in r && y in r
        ensures score(cell, y) >= score(cell, x)
      {
        assert key(y) >= key(x);
      }
    }
    r
  }

  /** Every cell drawn for a filtered view lists at least one movie when
      clicked, its movies being looked up among all of them. */
  lemma ClickedCellListsMovies(data: seq<HeatMovie>, form: HeatForm, toNumber: string -> JsNumber, i: nat,
                               score: (seq<HeatMovie>, HeatMovie) -> real)
    requires i < |GetFilteredData(data, form, toNumber).0|
    ensures var cell := GetFilteredData(data, form, toNumber).0[i];
      GetMoviesForCell(data, cell.0.0, cell.0.1, LevelFor(form), score) != []
  {
    var level := LevelFor(form);
    var kept := FilterHeat(data, form, toNumber);
    var cells := GetFilteredData(data, form, toNumber).0;
    var (g, p) := cells[i].0;
    assert (g, p) in Pairs(kept, level) by {
      assert exists i :: 0 <= i < |cells| && cells[i].0 == (g, p);
    }
    PairsMembership(kept, level, g, p);
    var m :| m in kept && g in m.genres && PeriodOf(m, level) == p;
    assert InCell(m, g, p, level);
  }
}
