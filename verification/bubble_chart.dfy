/**
 * The budget/revenue bubble chart (Projet/bubbleChart/js/main.js): CSV rows
 * become movies with parsed lists and numbers, the filter form narrows
 * them, the chart draws those with a positive budget and revenue, and a
 * side panel pages through the others, 36 at a time.
 */
module BubbleChart {
  import opened Cells
  import opened Text
  import opened Tally

  // ---------------------------------------------------------------------------
  // numOrNull

  /** `numOrNull(v)`, `toNumber` standing for the unary `+`: the number
      when it is finite, `None` (null) otherwise. */
  function NumOrNull(v: string, toNumber: string -> JsNumber): (r: Option<real>)
    ensures r.None? <==> !toNumber(v).Finite?
    ensures r.Some? ==> toNumber(v) == Finite(r.value)
  {
    match toNumber(v)
    case Finite(x) => Some(x)
    case _ => None
  }

  // ---------------------------------------------------------------------------
  // parseJsonList

  /** The value a list column holds: missing (`undefined`/`null`), already
      an array, a string, or some other value. */
  datatype ListCell = Absent | ArrayCell(items: seq<string>) | TextCell(text: string) | OtherCell

  /** `.replace(/^\[|\]$/g, "")`: one `[` off the front, one `]` off the end. */
  function StripOuterBrackets(s: string): (r: string)
    ensures forall c :: c in r ==> c in s
    ensures |s| >= 2 && s[0] == '[' && s[|s| - 1] == ']' ==> r == s[1..|s| - 1]
  {
    var t := if |s| > 0 && s[0] == '[' then s[1..] else s;
    assert forall c :: c in t ==> c in s;
    if |t| > 0 && t[|t| - 1] == ']' then t[..|t| - 1] else t
  }

  function TrimEach(pieces: seq<string>): (r: seq<string>)
    ensures |r| == |pieces| && forall i :: 0 <= i < |r| ==> r[i] == Trim(pieces[i])
  {
    seq(|pieces|, i requires 0 <= i < |pieces| => Trim(pieces[i]))
  }

  predicate NonEmpty(s: string) {
    |s| > 0
  }

  /** What the hand-made fallback can produce: a non-empty, trimmed text
      without commas and without quotes of either kind. */
  predicate ListItem(x: string) {
    x != "" && IsTrimmed(x) && forall c :: c in x ==> c != ',' && !IsQuote(c)
  }

  /** The text stage 3 splits: brackets stripped, `""` collapsed, quotes
      deleted. */
  function Cleaned(raw: string): string {
    DeleteQuotes(CollapseDoubledQuotes(StripOuterBrackets(raw)))
  }

  /** Split on commas, trim, drop the empty pieces. */
  function Pieces(cleaned: string): seq<string> {
    Keep(TrimEach(Split(cleaned, ',')), NonEmpty)
  }

  /** Stage 3 of `parseJsonList`: the pieces of the cleaned text. */
  function ListFallback(raw: string): (r: seq<string>)
    ensures forall x :: x in r ==> ListItem(x)
  {
    FallbackItems(raw);
    Pieces(Cleaned(raw))
  }

  lemma FallbackItems(raw: string)
    ensures forall x :: x in Pieces(Cleaned(raw)) ==> ListItem(x)
  {
    var cleaned := Cleaned(raw);
    DeleteQuotesSpec(CollapseDoubledQuotes(StripOuterBrackets(raw)));
    SplitKeepsChars(cleaned, ',');
    var parts := Split(cleaned, ',');
    var pieces := TrimEach(parts);
    forall x | x in Pieces(cleaned) ensures ListItem(x) {
      assert x in pieces && NonEmpty(x);
      var i :| 0 <= i < |pieces| && pieces[i] == x;
      var p := parts[i];
      assert p in parts && x == Trim(p);
      forall c | c in x ensures c != ',' && !IsQuote(c) {
        assert c in p;
        assert c in cleaned;
      }
    }
  }

  /** The `""` collapse of stage 3 is redundant: every quote it leaves is
      deleted by the next step anyway. */
  lemma FallbackCollapseRedundant(raw: string)
    ensures ListFallback(raw) == Pieces(DeleteQuotes(StripOuterBrackets(raw)))
  {
    CollapseThenDelete(StripOuterBrackets(raw));
  }

  /** `parseJsonList(value)`, for every behaviour of `JSON.parse`: falsy and
      non-string values give `[]`, arrays are returned as they are, and a
      string is trimmed and tried as JSON, then as JSON with `""` collapsed,
      and then read by hand. */
  function ParseJsonList(cell: ListCell, parse: string -> JsonOutcome): (r: seq<string>)
    ensures cell.Absent? || cell.OtherCell? ==> r == []
    ensures cell.ArrayCell? ==> r == cell.items
    ensures cell.TextCell? && (forall i :: 0 <= i < |cell.text| ==> IsSpace(cell.text[i])) ==> r == []
    ensures cell.TextCell? && Trim(cell.text) != "" && parse(Trim(cell.text)).ParsedArray? ==>
      r == parse(Trim(cell.text)).items
    ensures cell.TextCell? && Trim(cell.text) != "" && !parse(Trim(cell.text)).ParsedArray?
              && parse(CollapseDoubledQuotes(Trim(cell.text))).ParsedArray?
            ==> r == parse(CollapseDoubledQuotes(Trim(cell.text))).items
    ensures cell.TextCell? && Trim(cell.text) != "" && !parse(Trim(cell.text)).ParsedArray?
              && !parse(CollapseDoubledQuotes(Trim(cell.text))).ParsedArray?
            ==> r == ListFallback(Trim(cell.text))
  {
    match cell
    case Absent => []
    case OtherCell => []
    case ArrayCell(items) => items
    case TextCell(text) =>
      if text == "" then []
      else
        var raw := Trim(text);
        TrimAllSpace(text);
        if raw == "" then []
        else match parse(raw)
          case ParsedArray(items) => items
          case _ =>
            match parse(CollapseDoubledQuotes(raw))
            case ParsedArray(items) => items
            case _ => ListFallback(raw)
  }

  /** Items written as `[a,b,c]` are read back by the fallback, in order. */
  lemma PlainListRoundTrip(items: seq<string>)
    requires |items| >= 1 && forall x :: x in items ==> ListItem(x)
    ensures ListFallback("[" + Join(items, ',') + "]") == items
  {
    var body := Join(items, ',');
    StripBracketed(body);
    NoQuotesInJoin(items);
    CleanedWithoutQuotes(body);
    assert Cleaned("[" + body + "]") == body;
    PiecesOfClean(items);
  }

  lemma StripBracketed(body: string)
    ensures StripOuterBrackets("[" + body + "]") == body
  {
    var s := "[" + body + "]";
    assert s[1..|s| - 1] == body;
  }

  /** Text without quotes goes through the quote steps unchanged. */
  lemma CleanedWithoutQuotes(body: string)
    requires forall c :: c in body ==> !IsQuote(c)
    ensures DeleteQuotes(CollapseDoubledQuotes(body)) == body
  {
    assert '"' !in body;
    CollapseWithoutQuotes(body);
    DeleteQuotesSpec(body);
  }

  /** A comma join of list items holds no quote. */
  lemma NoQuotesInJoin(items: seq<string>)
    requires |items| >= 1 && forall x :: x in items ==> ListItem(x)
    ensures forall c :: c in Join(items, ',') ==> !IsQuote(c)
  {
    JoinKeepsChars(items, ',');
    forall c | c in Join(items, ',') ensures !IsQuote(c) {
      if c != ',' {
        var p :| p in items && c in p;
        assert ListItem(p);
      }
    }
  }

  /** Splitting joined list items gives them back. */
  lemma PiecesOfClean(items: seq<string>)
    requires |items| >= 1 && forall x :: x in items ==> ListItem(x)
    ensures Pieces(Join(items, ',')) == items
  {
    assert forall x :: x in items ==> ',' !in x;
    SplitJoin(items, ',');
    TrimEachOfTrimmed(items);
    KeepAll(items, NonEmpty);
  }

  /** Python's way of writing a list: `['a', 'b', 'c']`. */
  function PyPiece(items: seq<string>, i: int): string
    requires 0 <= i < |items|
  {
    (if i == 0 then "" else " ") + "'" + items[i] + "'"
  }

  function PyPieces(items: seq<string>): (r: seq<string>)
    ensures |r| == |items|
  {
    seq(|items|, i requires 0 <= i < |items| => PyPiece(items, i))
  }

  /** A list written the way Python prints it, which `JSON.parse` rejects
      (single quotes), is read back by the fallback, in order. */
  lemma PythonListRoundTrip(items: seq<string>)
    requires |items| >= 1 && forall x :: x in items ==> ListItem(x)
    ensures ListFallback("[" + Join(PyPieces(items), ',') + "]") == items
  {
    var ps := PyPieces(items);
    var body := Join(ps, ',');
    var s := "[" + body + "]";
    assert StripOuterBrackets(s) == body by {
      assert s[1..|s| - 1] == body;
    }
    var spaced := Spaced(items);
    PyBodyCleaned(items);
    assert Cleaned(s) == Join(spaced, ',');
    SpacedPieces(items);
  }

  /** The items, each but the first after one space. */
  function Spaced(items: seq<string>): (r: seq<string>)
    ensures |r| == |items|
  {
    seq(|items|, i requires 0 <= i < |items| => if i == 0 then items[i] else " " + items[i])
  }

  lemma PyBodyCleaned(items: seq<string>)
    requires |items| >= 1 && forall x :: x in items ==> ListItem(x)
    ensures DeleteQuotes(CollapseDoubledQuotes(Join(PyPieces(items), ','))) == Join(Spaced(items), ',')
  {
    var ps := PyPieces(items);
    var body := Join(ps, ',');
    var spaced := Spaced(items);
    forall i | 0 <= i < |items| ensures DeleteQuotes(ps[i]) == spaced[i] {
      PyPieceDeleted(items, i);
    }
    forall p | p in ps ensures '"' !in p {
      var i :| 0 <= i < |ps| && ps[i] == p;
      assert items[i] in items;
    }
    JoinKeepsChars(ps, ',');
    CollapseWithoutQuotes(body);
    DeleteQuotesJoin(ps, spaced, ',');
  }

  lemma SpacedPieces(items: seq<string>)
    requires |items| >= 1 && forall x :: x in items ==> ListItem(x)
    ensures Pieces(Join(Spaced(items), ',')) == items
  {
    var spaced := Spaced(items);
    forall p | p in spaced ensures ',' !in p {
      var i :| 0 <= i < |spaced| && spaced[i] == p;
      assert items[i] in items;
    }
    SplitJoin(spaced, ',');
    forall i | 0 <= i < |items| ensures Trim(spaced[i]) == items[i] {
      assert items[i] in items;
      if i == 0 {
        TrimOfTrimmed(items[i]);
      } else {
        TrimLeadingSpace(items[i]);
      }
    }
    assert TrimEach(spaced) == items;
    KeepAll(items, NonEmpty);
  }

  lemma PyPieceDeleted(items: seq<string>, i: int)
    requires 0 <= i < |items| && forall x :: x in items ==> ListItem(x)
    ensures DeleteQuotes(PyPiece(items, i)) == if i == 0 then items[i] else " " + items[i]
  {
    var x := items[i];
    assert DeleteQuotes(x) == x by {
      assert x in items;
      DeleteQuotesSpec(x);
    }
    var lead := if i == 0 then "" else " ";
    assert DeleteQuotes("'") == "";
    assert DeleteQuotes(lead) == lead;
    assert PyPiece(items, i) == lead + "'" + x + "'";
    DeleteQuotesAppend(lead + "'" + x, "'");
    DeleteQuotesAppend(lead + "'", x);
    DeleteQuotesAppend(lead, "'");
  }

  /** Deleting quotes from joined pieces deletes them piece by piece. */
  lemma {:induction false} DeleteQuotesJoin(ps: seq<string>, qs: seq<string>, sep: char)
    requires |ps| >= 1 && |qs| == |ps| && !IsQuote(sep)
    requires forall i :: 0 <= i < |ps| ==> DeleteQuotes(ps[i]) == qs[i]
    ensures DeleteQuotes(Join(ps, sep)) == Join(qs, sep)
  {
    if |ps| > 1 {
      DeleteQuotesJoin(ps[1..], qs[1..], sep);
      DeleteQuotesAppend(ps[0] + [sep], Join(ps[1..], sep));
      DeleteQuotesAppend(ps[0], [sep]);
      assert DeleteQuotes([sep]) == [sep];
    }
  }

  /** The characters of a join are those of its pieces and separators. */
  lemma {:induction false} JoinKeepsChars(ps: seq<string>, sep: char)
    requires |ps| >= 1
    ensures forall c :: c in Join(ps, sep) ==> c == sep || exists p :: p in ps && c in p
  {
    if |ps| > 1 {
      JoinKeepsChars(ps[1..], sep);
      forall c | c in Join(ps, sep) ensures c == sep || exists p :: p in ps && c in p {
        if c !in ps[0] && c != sep {
          assert c in Join(ps[1..], sep);
          if c != sep {
            var p :| p in ps[1..] && c in p;
            assert p in ps;
          }
        }
      }
    } else {
      assert ps[0] in ps;
    }
  }

  lemma TrimEachOfTrimmed(items: seq<string>)
    requires forall x :: x in items ==> IsTrimmed(x)
    ensures TrimEach(items) == items
  {
    forall i | 0 <= i < |items| ensures Trim(items[i]) == items[i] {
      assert items[i] in items;
      TrimOfTrimmed(items[i]);
    }
  }

  // ---------------------------------------------------------------------------
  // Movies

  /** A CSV row: text fields, and the two list columns. */
  datatype CsvRow = CsvRow(
    title: string,
    overview: string,
    genres: ListCell,
    voteAverage: string,
    voteCount: string,
    popularity: string,
    budget: string,
    revenue: string,
    runtime: string,
    year: string,
    companies: ListCell)

  datatype ChartMovie = ChartMovie(
    id: int,
    title: string,
    overview: string,
    genres: seq<string>,
    voteAverage: Option<real>,
    voteCount: Option<real>,
    popularity: Option<real>,
    budget: Option<real>,
    revenue: Option<real>,
    runtime: Option<real>,
    year: Option<real>,
    companies: seq<string>,
    profit: Option<real>)

  /** `parseRow(d, index)`: the profit is known exactly when budget and
      revenue are, and then it is what the revenue exceeds the budget by. */
  function ParseRow(d: CsvRow, index: int, toNumber: string -> JsNumber, parse: string -> JsonOutcome): (m: ChartMovie)
    ensures m.id == index && m.title == d.title
    ensures m.budget == NumOrNull(d.budget, toNumber) && m.revenue == NumOrNull(d.revenue, toNumber)
    ensures m.year == NumOrNull(d.year, toNumber)
    ensures m.genres == ParseJsonList(d.genres, parse) && m.companies == ParseJsonList(d.companies, parse)
    ensures m.profit.Some? <==> toNumber(d.budget).Finite? && toNumber(d.revenue).Finite?
    ensures m.profit.Some? ==> m.budget.value + m.profit.value == m.revenue.value
  {
    var budget := NumOrNull(d.budget, toNumber);
    var revenue := NumOrNull(d.revenue, toNumber);
    ChartMovie(
      index, d.title, d.overview,
      ParseJsonList(d.genres, parse),
      NumOrNull(d.voteAverage, toNumber), NumOrNull(d.voteCount, toNumber), NumOrNull(d.popularity, toNumber),
      budget, revenue, NumOrNull(d.runtime, toNumber), NumOrNull(d.year, toNumber),
      ParseJsonList(d.companies, parse),
      if budget.Some? && revenue.Some? then Some(revenue.value - budget.value) else None)
  }

  /** `getPrimaryGenre(movie)`: the colour key, the first genre or
      "non renseigné". */
  function PrimaryGenre(m: ChartMovie): (g: string)
    ensures |m.genres| > 0 ==> g == m.genres[0] && g in m.genres
    ensures |m.genres| == 0 ==> g == "non renseigné"
  {
    if |m.genres| > 0 then m.genres[0] else "non renseigné"
  }

  // ---------------------------------------------------------------------------
  // filterMovies

  /** The filter form: the year inputs as `+value` (absent when empty), the
      title and company queries as typed, the top-N choice and the genres
      ticked in the legend. */
  datatype Filters = Filters(
    yearMin: Option<JsNumber>,
    yearMax: Option<JsNumber>,
    title: string,
    company: string,
    topN: Option<int>,
    sizeBy: string,
    selectedGenres: seq<string>)

  /** `input.value.trim().toLowerCase()`, as `getFilterValues` reads the
      title and company queries. */
  function Query(typed: string): string {
    Lower(Trim(typed))
  }

  /** `year < bound` with JavaScript's comparison: false against NaN. */
  predicate Below(year: real, bound: JsNumber) {
    match bound
    case Finite(v) => year < v
    case NaN => false
    case PlusInfinity => true
    case MinusInfinity => false
  }

  predicate Above(year: real, bound: JsNumber) {
    match bound
    case Finite(v) => year > v
    case NaN => false
    case PlusInfinity => false
    case MinusInfinity => true
  }

  predicate YearPasses(m: ChartMovie, f: Filters) {
    (f.yearMin.Some? ==> m.year.Some? && !Below(m.year.value, f.yearMin.value))
    && (f.yearMax.Some? ==> m.year.Some? && !Above(m.year.value, f.yearMax.value))
  }

  predicate TitlePasses(m: ChartMovie, f: Filters) {
    f.title == "" || (m.title != "" && Contains(Lower(m.title), f.title))
  }

  predicate CompanyPasses(m: ChartMovie, f: Filters) {
    f.company == "" || exists c :: c in m.companies && Contains(Lower(c), f.company)
  }

  predicate GenrePasses(m: ChartMovie, f: Filters) {
    |f.selectedGenres| == 0 || MatchesIgnoringCase(f.selectedGenres, m.genres)
  }

  /** Some ticked genre equals some genre of the movie, ignoring case. */
  predicate MatchesIgnoringCase(selected: seq<string>, genres: seq<string>) {
    exists g, h :: g in selected && h in genres && Lower(g) == Lower(h)
  }

  predicate MoviePasses(m: ChartMovie, f: Filters) {
    YearPasses(m, f) && TitlePasses(m, f) && CompanyPasses(m, f) && GenrePasses(m, f)
  }

  /** `filterMovies(movies, filters)`: the movies passing every test, in
      their order. */
  function FilterMovies(movies: seq<ChartMovie>, f: Filters): (r: seq<ChartMovie>)
    ensures IsSubsequence(r, movies)
    ensures forall m :: m in r <==> m in movies && MoviePasses(m, f)
    ensures forall m :: multiset(r)[m] == if MoviePasses(m, f) then multiset(movies)[m] else 0
  {
    KeepIsSubsequence(movies, (m: ChartMovie) => MoviePasses(m, f));
    forall m ensures multiset(Keep(movies, (m: ChartMovie) => MoviePasses(m, f)))[m] == if MoviePasses(m, f) then multiset(movies)[m] else 0 {
      KeepCount(movies, (m: ChartMovie) => MoviePasses(m, f), m);
    }
    Keep(movies, (m: ChartMovie) => MoviePasses(m, f))
  }

  /** With finite bounds the year window is inclusive at both ends and
      turns away movies without a year. */
  lemma YearWindowInclusive(m: ChartMovie, f: Filters, lo: real, hi: real)
    requires f.yearMin == Some(Finite(lo)) && f.yearMax == Some(Finite(hi))
    ensures YearPasses(m, f) <==> m.year.Some? && lo <= m.year.value <= hi
  {
  }

  /** An empty form keeps every movie. */
  lemma EmptyFormKeepsAll(movies: seq<ChartMovie>, f: Filters)
    requires f.yearMin.None? && f.yearMax.None? && f.title == "" && f.company == "" && f.selectedGenres == []
    ensures FilterMovies(movies, f) == movies
  {
    KeepAll(movies, (m: ChartMovie) => MoviePasses(m, f));
  }

  /** The title test ignores the case of the title, and, for a query read
      from the form, the case of what was typed. */
  lemma TitleIgnoresCase(m: ChartMovie, f: Filters, typed: string)
    requires f.title == Query(typed)
    ensures TitlePasses(m, f) <==> TitlePasses(m.(title := Lower(m.title)), f)
    ensures TitlePasses(m, f) <==> TitlePasses(m, f.(title := Query(Lower(typed))))
  {
    LowerIdempotent(m.title);
    QueryOfLower(typed);
  }

  /** Reading a lower-cased query gives the same query. */
  lemma QueryOfLower(typed: string)
    ensures Query(Lower(typed)) == Query(typed)
  {
    LowerTrim(typed);
    LowerIdempotent(Trim(typed));
  }

  /** Lower-casing keeps white space, so it commutes with trimming. */
  lemma LowerTrim(s: string)
    ensures Trim(Lower(s)) == Lower(Trim(s))
  {
    LowerStart(s);
    LowerEnd(TrimStart(s));
  }

  lemma {:induction false} LowerStart(s: string)
    ensures TrimStart(Lower(s)) == Lower(TrimStart(s))
  {
    if |s| > 0 {
      var ls := Lower(s);
      assert ls[0] == LowerChar(s[0]);
      LowerKeepsSpace(s[0]);
      if IsSpace(s[0]) {
        assert ls[1..] == Lower(s[1..]);
        LowerStart(s[1..]);
      }
    }
  }

  lemma LowerKeepsSpace(c: char)
    ensures IsSpace(LowerChar(c)) == IsSpace(c)
  {
  }

  lemma {:induction false} LowerEnd(s: string)
    ensures TrimEnd(Lower(s)) == Lower(TrimEnd(s))
  {
    if |s| > 0 {
      var ls := Lower(s);
      var n := |s| - 1;
      assert ls[n] == LowerChar(s[n]);
      LowerKeepsSpace(s[n]);
      if IsSpace(s[n]) {
        assert ls[..n] == Lower(s[..n]);
        LowerEnd(s[..n]);
        assert TrimEnd(ls) == TrimEnd(ls[..n]);
        assert TrimEnd(s) == TrimEnd(s[..n]);
      } else {
        assert TrimEnd(ls) == ls;
        assert TrimEnd(s) == s;
      }
    }
  }

  /** The genre test ignores the case of the ticked genres. */
  lemma GenresIgnoreCase(movies: seq<ChartMovie>, f: Filters)
    ensures FilterMovies(movies, f) == FilterMovies(movies, f.(selectedGenres := LowerEach(f.selectedGenres)))
  {
    var g := f.(selectedGenres := LowerEach(f.selectedGenres));
    forall m ensures MoviePasses(m, f) == MoviePasses(m, g) {
      GenreIgnoresCase(m, f);
    }
    KeepSame(movies, (m: ChartMovie) => MoviePasses(m, f), (m: ChartMovie) => MoviePasses(m, g));
  }

  lemma GenreIgnoresCase(m: ChartMovie, f: Filters)
    ensures GenrePasses(m, f) == GenrePasses(m, f.(selectedGenres := LowerEach(f.selectedGenres)))
  {
    MatchIgnoresCase(f.selectedGenres, m.genres);
  }

  lemma MatchIgnoresCase(sel: seq<string>, genres: seq<string>)
    ensures MatchesIgnoringCase(sel, genres) == MatchesIgnoringCase(LowerEach(sel), genres)
  {
    var low := LowerEach(sel);
    if MatchesIgnoringCase(sel, genres) {
      var x, h :| x in sel && h in genres && Lower(x) == Lower(h);
      var i :| 0 <= i < |sel| && sel[i] == x;
      MatchLowered(sel, genres, i, h);
    }
    if MatchesIgnoringCase(low, genres) {
      var x, h :| x in low && h in genres && Lower(x) == Lower(h);
      var i :| 0 <= i < |low| && low[i] == x;
      MatchUnlowered(sel, genres, i, h);
    }
  }

  lemma MatchLowered(sel: seq<string>, genres: seq<string>, i: int, h: string)
    requires 0 <= i < |sel| && h in genres && Lower(sel[i]) == Lower(h)
    ensures MatchesIgnoringCase(LowerEach(sel), genres)
  {
    var low := LowerEach(sel);
    LowerIdempotent(sel[i]);
    assert low[i] in low && Lower(low[i]) == Lower(h);
  }

  lemma MatchUnlowered(sel: seq<string>, genres: seq<string>, i: int, h: string)
    requires 0 <= i < |sel| && h in genres && Lower(LowerEach(sel)[i]) == Lower(h)
    ensures MatchesIgnoringCase(sel, genres)
  {
    LowerIdempotent(sel[i]);
    assert sel[i] in sel && Lower(sel[i]) == Lower(h);
  }

  function LowerEach(s: seq<string>): (r: seq<string>)
    ensures |r| == |s| && forall i :: 0 <= i < |s| ==> r[i] == Lower(s[i])
  {
    seq(|s|, i requires 0 <= i < |s| => Lower(s[i]))
  }

  /** `movies.slice(0, topN)` when `topN` is set and not zero; a negative
      count drops that many movies from the end. */
  function TopN(movies: seq<ChartMovie>, topN: Option<int>): (r: seq<ChartMovie>)
    ensures |r| <= |movies| && r == movies[..|r|]
    ensures topN.None? || topN == Some(0) ==> r == movies
    ensures topN.Some? && topN.value > 0 ==>
      |r| == (if topN.value < |movies| then topN.value else |movies|)
    ensures topN.Some? && topN.value < 0 ==>
      |r| == (if |movies| + topN.value > 0 then |movies| + topN.value else 0)
  {
    if topN.None? || topN.value == 0 then movies
    else if topN.value > 0 then movies[..if topN.value < |movies| then topN.value else |movies|]
    else movies[..if |movies| + topN.value > 0 then |movies| + topN.value else 0]
  }

  // ---------------------------------------------------------------------------
  // The chart and the missing-data panel

  /** The chart's test: budget and revenue both known and positive. */
  predicate Drawable(m: ChartMovie) {
    m.budget.Some? && m.budget.value > 0.0 && m.revenue.Some? && m.revenue.value > 0.0
  }

  predicate NotDrawable(m: ChartMovie) {
    !Drawable(m)
  }

  /** The chart and the panel split the filtered movies between them: each
      movie is on exactly one side and nothing is lost or repeated. */
  lemma ChartAndPanelSplit(filtered: seq<ChartMovie>)
    ensures |Keep(filtered, Drawable)| + |Keep(filtered, NotDrawable)| == |filtered|
    ensures multiset(Keep(filtered, Drawable)) + multiset(Keep(filtered, NotDrawable)) == multiset(filtered)
    ensures forall m :: m in filtered ==> (m in Keep(filtered, Drawable) <==> m !in Keep(filtered, NotDrawable))
  {
    KeepPartition(filtered, Drawable, NotDrawable);
  }

  const PageSize := 36

  /** `(b[metricKey] || 0)`: the vote average when sizing by it, the
      popularity otherwise; missing or zero reads as zero. */
  function MetricOrZero(m: ChartMovie, sizeBy: string): real {
    var v := if sizeBy == "vote_average" then m.voteAverage else m.popularity;
    if v.Some? then v.value else 0.0
  }

  /** `Math.ceil(n / 36)`. */
  function MissingPages(n: nat): (p: nat)
    ensures p * PageSize >= n && (p == 0 || (p - 1) * PageSize < n)
  {
    (n + PageSize - 1) / PageSize
  }

  /** The two clamping statements, for a list that is not empty. */
  function Clamp(page: int, totalPages: int): (r: int)
    requires totalPages >= 1
    ensures 0 <= r < totalPages
    ensures 0 <= page < totalPages ==> r == page
  {
    var p := if page < 0 then 0 else page;
    if p >= totalPages then totalPages - 1 else p
  }

  /** `sorted.slice(page * 36, page * 36 + 36)`. */
  function PageOf(sorted: seq<ChartMovie>, page: int): (r: seq<ChartMovie>)
    requires page >= 0
    ensures |r| <= PageSize
    ensures page < MissingPages(|sorted|) ==> |r| > 0
    ensures forall m :: m in r ==> m in sorted
  {
    var start := page * PageSize;
    if start >= |sorted| then [] else sorted[start..if start + PageSize < |sorted| then start + PageSize else |sorted|]
  }

  /** Every listed movie is on the page its position gives. */
  lemma EveryMovieHasAPage(sorted: seq<ChartMovie>, i: int)
    requires 0 <= i < |sorted|
    ensures i / PageSize < MissingPages(|sorted|)
    ensures PageOf(sorted, i / PageSize)[i % PageSize] == sorted[i]
  {
  }

  datatype Direction = Prev | Next

  /** A click on "<" or ">": one page back or forward, never past the ends. */
  function Step(page: int, totalPages: int, dir: Direction): (r: int)
    ensures 0 <= page < totalPages ==> 0 <= r < totalPages
    ensures dir == Prev && page > 0 ==> r == page - 1
    ensures dir == Next && page < totalPages - 1 ==> r == page + 1
    ensures (dir == Prev && page <= 0) || (dir == Next && page >= totalPages - 1) ==> r == page
  {
    if dir == Prev && page > 0 then page - 1
    else if dir == Next && page < totalPages - 1 then page + 1
    else page
  }

  /** The movies the panel lists, in its order. */
  function MissingSorted(raw: seq<ChartMovie>, f: Filters): seq<ChartMovie> {
    SortDesc(Keep(FilterMovies(raw, f), NotDrawable), (m: ChartMovie) => MetricOrZero(m, f.sizeBy))
  }

  /** What the "<" and ">" buttons of the panel's footer captured when a
      render built them: the filters of that render, its page count, and
      the page it showed, which decides the disabled button ("<" on the
      first page, ">" on the last). */
  datatype Footer = Footer(filters: Filters, totalPages: int, page: int)

  /** `state.missingPage` and the panel it drives. The footer is a separate
      element: only a render that finds missing movies rebuilds it, so
      after one that finds none the previous buttons stay. */
  class MissingPanel {
    var missingPage: int
    var footer: Option<Footer>

    constructor()
      ensures missingPage == 0 && footer == None
    {
      missingPage := 0;
      footer := None;
    }

    /** `renderMissingMoviesPanel(filters)`: filters the movies again
        (without the top-N cut), keeps those the chart cannot draw, sorts
        them by the metric, clamps the page, rebuilds the footer with
        `f`, and returns the movies shown. With no missing movie only the
        message is shown; the page and the footer are left as they were. */
    method Render(raw: seq<ChartMovie>, f: Filters) returns (shown: seq<ChartMovie>)
      modifies this
      ensures var sorted := MissingSorted(raw, f);
        && (|sorted| == 0 ==> shown == [] && missingPage == old(missingPage) && footer == old(footer))
        && (|sorted| > 0 ==>
              missingPage == Clamp(old(missingPage), MissingPages(|sorted|))
              && shown == PageOf(sorted, missingPage)
              && footer == Some(Footer(f, MissingPages(|sorted|), missingPage)))
    {
      var filtered := FilterMovies(raw, f);
      var missing := Keep(filtered, NotDrawable);
      if |missing| == 0 {
        return [];
      }
      var sorted := SortDesc(missing, (m: ChartMovie) => MetricOrZero(m, f.sizeBy));
      var totalPages := MissingPages(|sorted|);
      if missingPage < 0 {
        missingPage := 0;
      }
      if missingPage >= totalPages {
        missingPage := totalPages - 1;
      }
      shown := PageOf(sorted, missingPage);
      footer := Some(Footer(f, totalPages, missingPage));
    }

    /** A click on an enabled footer button: the page steps within the page
        count the button captured, and the panel is drawn again with the
        filters it captured, which are those of the last render that found
        missing movies, not necessarily the filters applied last. A
        disabled button fires no click. */
    method Navigate(dir: Direction, raw: seq<ChartMovie>) returns (shown: seq<ChartMovie>)
      requires footer.Some?
      requires dir == Prev ==> footer.value.page != 0
      requires dir == Next ==> footer.value.page != footer.value.totalPages - 1
      modifies this
      ensures var ft := old(footer).value;
        var sorted := MissingSorted(raw, ft.filters);
        var page := Step(old(missingPage), ft.totalPages, dir);
        && (|sorted| == 0 ==> shown == [] && missingPage == page && footer == old(footer))
        && (|sorted| > 0 ==>
              missingPage == Clamp(page, MissingPages(|sorted|))
              && shown == PageOf(sorted, missingPage)
              && footer == Some(Footer(ft.filters, MissingPages(|sorted|), missingPage)))
    {
      var ft := footer.value;
      missingPage := Step(missingPage, ft.totalPages, dir);
      shown := Render(raw, ft.filters);
    }

    /** The render as evidently intended: a render that finds no missing
        movie also removes the footer, so a button exists only for the
        list on screen and always uses the filters of that list. */
    method RenderClearingFooter(raw: seq<ChartMovie>, f: Filters) returns (shown: seq<ChartMovie>)
      modifies this
      ensures var sorted := MissingSorted(raw, f);
        && (footer.Some? <==> |sorted| > 0)
        && (footer.Some? ==> footer.value == Footer(f, MissingPages(|sorted|), missingPage))
        && (|sorted| > 0 ==>
              missingPage == Clamp(old(missingPage), MissingPages(|sorted|))
              && shown == PageOf(sorted, missingPage))
        && (|sorted| == 0 ==> shown == [])
    {
      shown := Render(raw, f);
      if |MissingSorted(raw, f)| == 0 {
        footer := None;
      }
    }
  }

  /** `applyFiltersAndRender()`: the chart gets the drawable movies among
      the first N filtered ones, and the panel starts again from page 0. */
  method ApplyFiltersAndRender(raw: seq<ChartMovie>, f: Filters, panel: MissingPanel)
    returns (chart: seq<ChartMovie>, shown: seq<ChartMovie>)
    modifies panel
    ensures chart == Keep(TopN(FilterMovies(raw, f), f.topN), Drawable)
    ensures panel.missingPage == 0
    ensures |MissingSorted(raw, f)| == 0 ==> shown == [] && panel.footer == old(panel.footer)
    ensures |MissingSorted(raw, f)| > 0 ==>
      shown == PageOf(MissingSorted(raw, f), 0) && panel.footer == Some(Footer(f, MissingPages(|MissingSorted(raw, f)|), 0))
  {
    var movies := FilterMovies(raw, f);
    movies := TopN(movies, f.topN);
    panel.missingPage := 0;
    chart := Keep(movies, Drawable);
    shown := panel.Render(raw, f);
  }

  /** As written, a footer outlives the list it was built for: filters
      `f1` leave more than one page of missing movies, so the footer is
      built on page 0 with ">" enabled; then filters `f2` leave none and
      the panel shows only its message; a click on ">" still draws the
      second page of `f1`'s list over that message. */
  method StaleFooterAsWritten(raw: seq<ChartMovie>, f1: Filters, f2: Filters, panel: MissingPanel)
    returns (message: seq<ChartMovie>, shown: seq<ChartMovie>)
    requires |MissingSorted(raw, f1)| > PageSize
    requires |MissingSorted(raw, f2)| == 0
    modifies panel
    ensures message == []
    ensures shown == PageOf(MissingSorted(raw, f1), 1) && |shown| > 0
  {
    var chart, first := ApplyFiltersAndRender(raw, f1, panel);
    chart, message := ApplyFiltersAndRender(raw, f2, panel);
    assert panel.footer == Some(Footer(f1, MissingPages(|MissingSorted(raw, f1)|), 0));
    assert MissingPages(|MissingSorted(raw, f1)|) >= 2;
    shown := panel.Navigate(Next, raw);
  }

  /** A movie is never both drawn and listed as missing, and with no top-N
      cut every filtered movie is one or the other. */
  lemma DrawnOrListed(raw: seq<ChartMovie>, f: Filters, m: ChartMovie)
    ensures !(m in Keep(TopN(FilterMovies(raw, f), f.topN), Drawable) && m in MissingSorted(raw, f))
    ensures (f.topN.None? || f.topN == Some(0)) && m in FilterMovies(raw, f) ==>
      m in Keep(TopN(FilterMovies(raw, f), f.topN), Drawable) || m in MissingSorted(raw, f)
  {
    var missing := Keep(FilterMovies(raw, f), NotDrawable);
    var sorted := MissingSorted(raw, f);
    assert m in sorted <==> m in multiset(sorted);
    assert m in missing <==> m in multiset(missing);
  }
}
