/**
 * The filtering engine of the circle-packing dashboard
 * (Projet/Cyril/JS/script.js): the list-cell parser, the year range given by
 * two sliders that may cross, the genre and production-company selections
 * with their strict (every selected value) and default (some selected value)
 * modes, the filtered movie list, and the values each list still offers
 * given the other list's selection.
 */
module CrossFilter {
  import opened Cells
  import opened Text
  import opened Tally

  /** One row of the movie table, with its list cells already parsed by
      `ParseArrayField` and its numeric cells converted (`None` where the
      conversion gives NaN or an infinity). */
  datatype Movie = Movie(
    title: string,
    genres: seq<string>,
    companies: seq<string>,
    year: Option<int>,
    voteAverage: Option<real>,
    popularity: Option<real>,
    budget: Option<real>,
    revenue: Option<real>)

  // ---------------------------------------------------------------------------
  // parseArrayField

  /** Drops leading white space followed by `[` (the `^\s*\[` branch of the
      cleaning expression); leaves the string alone when there is no such
      prefix. */
  function StripOpenBracket(s: string): (r: string)
    ensures forall c :: c in r ==> c in s
  {
    var t := TrimStart(s);
    if |t| > 0 && t[0] == '[' then t[1..] else s
  }

  /** Drops `]` followed by trailing white space (the `\]\s*$` branch). */
  function StripCloseBracket(s: string): (r: string)
    ensures forall c :: c in r ==> c in s
  {
    var t := TrimEnd(s);
    assert forall c :: c in t ==> c in s;
    if |t| > 0 && t[|t| - 1] == ']' then t[..|t| - 1] else s
  }

  /** `x.replace(/^"|"$/g, '')`: one double quote off each end. */
  function StripEndQuotes(s: string): (r: string)
    ensures forall c :: c in r ==> c in s
    ensures |r| <= |s|
  {
    var t := if |s| > 0 && s[0] == '"' then s[1..] else s;
    if |t| > 0 && t[|t| - 1] == '"' then t[..|t| - 1] else t
  }

  /** The `map(trim, strip quotes)` then `filter(Boolean)` stage. */
  function CleanPieces(pieces: seq<string>): (r: seq<string>)
    ensures |r| <= |pieces|
    ensures forall x :: x in r ==> x != ""
  {
    if |pieces| == 0 then []
    else
      var x := StripEndQuotes(Trim(pieces[0]));
      (if x == "" then [] else [x]) + CleanPieces(pieces[1..])
  }

  /** Cleaning adds no character: pieces without commas give items without
      commas. */
  lemma {:induction false} CleanPiecesNoComma(pieces: seq<string>)
    requires forall p :: p in pieces ==> ',' !in p
    ensures forall x :: x in CleanPieces(pieces) ==> ',' !in x
  {
    if |pieces| > 0 {
      assert pieces[0] in pieces;
      CleanPieceNoComma(pieces[0]);
      assert forall q :: q in pieces[1..] ==> q in pieces;
      CleanPiecesNoComma(pieces[1..]);
    }
  }

  lemma CleanPieceNoComma(p: string)
    requires ',' !in p
    ensures ',' !in StripEndQuotes(Trim(p))
  {
  }

  /** The fallback used when `JSON.parse` throws: strip the brackets, split
      on commas, clean every piece and drop the empty ones. */
  function SplitFallback(s: string): (r: seq<string>)
    ensures forall x :: x in r ==> x != "" && ',' !in x
  {
    CleanPiecesNoComma(Split(StripCloseBracket(StripOpenBracket(s)), ','));
    CleanPieces(Split(StripCloseBracket(StripOpenBracket(s)), ','))
  }

  /** `Boolean(x)` for a string. */
  predicate NonEmpty(x: string) {
    x != ""
  }

  /** `filter(Boolean)` on strings keeps every occurrence of a non-empty
      item and drops every empty one. */
  lemma NonEmptyCount(items: seq<string>)
    ensures forall x :: multiset(Keep(items, NonEmpty))[x] == if x != "" then multiset(items)[x] else 0
  {
    forall x ensures multiset(Keep(items, NonEmpty))[x] == if x != "" then multiset(items)[x] else 0 {
      KeepCount(items, NonEmpty, x);
    }
  }

  /** `parseArrayField(s)`, for every behaviour of `JSON.parse`. */
  function ParseArrayField(s: string, parse: string -> JsonOutcome): (r: seq<string>)
    ensures forall x :: x in r ==> x != ""
    ensures s == "" ==> r == []
    ensures s != "" && parse(s).ParsedOther? ==> r == []
    ensures s != "" && parse(s).ParsedArray? ==>
      IsSubsequence(r, parse(s).items) && forall x :: x in r <==> x in parse(s).items && x != ""
    ensures s != "" && parse(s).ParsedArray? ==>
      forall x :: multiset(r)[x] == if x != "" then multiset(parse(s).items)[x] else 0
    ensures s != "" && parse(s).Throws? ==> r == SplitFallback(s)
  {
    if s == "" then []
    else match parse(s)
      case ParsedArray(items) =>
        KeepIsSubsequence(items, NonEmpty);
        NonEmptyCount(items);
        Keep(items, NonEmpty)
      case ParsedOther => []
      case Throws => SplitFallback(s)
  }

  /** A list item the fallback reads back exactly: not empty, no comma, no
      white space or double quote at either end. */
  predicate CleanItem(x: string) {
    x != "" && ',' !in x && IsTrimmed(x) && x[0] != '"' && x[|x| - 1] != '"'
  }

  /** Writing clean items as `[a,b,c]` and reading them back with the
      fallback gives the items back, in order. */
  lemma FallbackRoundTrip(items: seq<string>)
    requires |items| >= 1
    requires forall x :: x in items ==> CleanItem(x)
    ensures SplitFallback("[" + Join(items, ',') + "]") == items
  {
    StripBrackets(Join(items, ','));
    assert forall x :: x in items ==> ',' !in x;
    SplitJoin(items, ',');
    CleanPiecesOfClean(items);
  }

  lemma StripBrackets(body: string)
    ensures StripCloseBracket(StripOpenBracket("[" + body + "]")) == body
  {
    var s := "[" + body + "]";
    var closed := body + "]";
    assert s[0] == '[' && s[1..] == closed;
    assert TrimStart(s) == s;
    assert closed[|closed| - 1] == ']' && closed[..|closed| - 1] == body;
    assert TrimEnd(closed) == closed;
  }

  lemma {:induction false} CleanPiecesOfClean(items: seq<string>)
    requires forall x :: x in items ==> CleanItem(x)
    ensures CleanPieces(items) == items
  {
    if |items| > 0 {
      var x := items[0];
      var rest := items[1..];
      assert CleanItem(x) by {
        assert x in items;
      }
      CleanPieceOfClean(x);
      assert forall y :: y in rest ==> CleanItem(y) by {
        forall y | y in rest
          ensures CleanItem(y)
        {
          assert y in items;
        }
      }
      CleanPiecesOfClean(rest);
      assert StripEndQuotes(Trim(items[0])) == x;
      assert CleanPieces(items) == [x] + CleanPieces(rest);
      assert items == [x] + rest;
    }
  }

  /** One clean item survives the trim and quote stripping unchanged. */
  lemma CleanPieceOfClean(x: string)
    requires CleanItem(x)
    ensures StripEndQuotes(Trim(x)) == x
  {
    TrimOfTrimmed(x);
  }

  /** A cell that JSON cannot read and that holds a bare word, such as
      `Drama`, is read as the one-item list `[Drama]`. */
  lemma FallbackBareWord(w: string)
    requires CleanItem(w) && w[0] != '[' && w[|w| - 1] != ']'
    ensures SplitFallback(w) == [w]
  {
    assert StripOpenBracket(w) == w;
    assert StripCloseBracket(w) == w;
    SplitPiece(w, ',');
    TrimOfTrimmed(w);
  }

  // ---------------------------------------------------------------------------
  // The year sliders

  /** A slider value; a missing slider reads as -Infinity or +Infinity. */
  datatype Bound = NegInf | At(n: int) | PosInf

  predicate BoundLe(x: Bound, y: Bound) {
    x.NegInf? || y.PosInf? || (x.At? && y.At? && x.n <= y.n)
  }

  function BoundMin(x: Bound, y: Bound): Bound {
    if BoundLe(x, y) then x else y
  }

  function BoundMax(x: Bound, y: Bound): Bound {
    if BoundLe(x, y) then y else x
  }

  /** The year test of both `updateFilteredData` and `getAvailableItems`:
      a movie without a finite year always passes; otherwise its year lies
      between the smaller and the larger slider value. */
  predicate InYearRange(year: Option<int>, a: Bound, b: Bound) {
    year.None? || (BoundLe(BoundMin(a, b), At(year.value)) && BoundLe(At(year.value), BoundMax(a, b)))
  }

  /** The sliders may cross: the range is the same whichever one is the
      larger, and a year passes iff it lies between the two values. */
  lemma YearRangeCrossing(y: int, a: int, b: int)
    ensures InYearRange(Some(y), At(a), At(b)) == InYearRange(Some(y), At(b), At(a))
    ensures InYearRange(Some(y), At(a), At(b)) <==> (a <= y <= b || b <= y <= a)
  {
  }

  /** The same for sliders that may be missing. */
  lemma YearRangeCrossingBounds(y: int, a: Bound, b: Bound)
    ensures InYearRange(Some(y), a, b) == InYearRange(Some(y), b, a)
  {
  }

  // ---------------------------------------------------------------------------
  // Selections

  /** The filter state the history stacks save and restore. */
  datatype Selection = Selection(
    genres: set<string>,
    companies: set<string>,
    strictGenre: bool,
    strictProd: bool)

  const NoSelection := Selection({}, {}, false, false)

  /** `Array.from(selected).every(x => items.includes(x))`. */
  predicate EveryIn(selected: set<string>, items: seq<string>) {
    forall x :: x in selected ==> x in items
  }

  /** `items.some(x => selected.has(x))`. */
  predicate SomeIn(items: seq<string>, selected: set<string>) {
    exists x :: x in items && x in selected
  }

  /** The test `updateFilteredData` applies to one list: nothing selected
      passes everything; strict mode needs a non-empty list holding every
      selected value; default mode needs some selected value in the list. */
  predicate SelectionPasses(items: seq<string>, selected: set<string>, strict: bool) {
    if |selected| == 0 then true
    else if strict then |items| > 0 && EveryIn(selected, items)
    else SomeIn(items, selected)
  }

  /** The same test as `getAvailableItems` writes it, without the
      non-empty-list guard of strict mode. */
  predicate OppositePasses(items: seq<string>, selected: set<string>, strict: bool) {
    if |selected| > 0 then
      if strict then EveryIn(selected, items)
      else SomeIn(items, selected)
    else true
  }

  /** The guard is redundant: a list holding every value of a non-empty
      selection is not empty, so both spellings of the test agree. */
  lemma OppositeIsSelection(items: seq<string>, selected: set<string>, strict: bool)
    ensures OppositePasses(items, selected, strict) == SelectionPasses(items, selected, strict)
  {
    if |selected| > 0 && strict && forall x :: x in selected ==> x in items {
      var x :| x in selected;
      assert x in items;
    }
  }

  /** Strict mode is the narrower one: whatever passes it passes default mode. */
  lemma StrictImpliesLoose(items: seq<string>, selected: set<string>)
    requires SelectionPasses(items, selected, true)
    ensures SelectionPasses(items, selected, false)
  {
    if |selected| > 0 {
      var x :| x in selected;
      assert x in items;
    }
  }

  /** Strict mode over {Action, Drama} rejects a movie of genre Action only,
      which default mode accepts. */
  lemma StrictNeedsEveryGenre()
    ensures !SelectionPasses(["Action"], {"Action", "Drama"}, true)
    ensures SelectionPasses(["Action"], {"Action", "Drama"}, false)
    ensures SelectionPasses(["Drama", "Action"], {"Action", "Drama"}, true)
  {
    assert "Drama" != "Action";
    assert "Action" in ["Action"];
  }

  predicate YearPasses(m: Movie, a: Bound, b: Bound) {
    InYearRange(m.year, a, b)
  }

  predicate ListsPass(m: Movie, s: Selection) {
    SelectionPasses(m.genres, s.genres, s.strictGenre)
    && SelectionPasses(m.companies, s.companies, s.strictProd)
  }

  predicate MoviePasses(m: Movie, s: Selection, a: Bound, b: Bound) {
    YearPasses(m, a, b) && ListsPass(m, s)
  }

  /** `updateFilteredData`: the year filter, then the selection filter. The
      result keeps the movies that pass both, in their table order. */
  function FilteredData(movies: seq<Movie>, s: Selection, a: Bound, b: Bound): (r: seq<Movie>)
    ensures IsSubsequence(r, movies)
    ensures forall m :: m in r <==> m in movies && MoviePasses(m, s, a, b)
    ensures forall m :: multiset(r)[m] == if MoviePasses(m, s, a, b) then multiset(movies)[m] else 0
  {
    var byYear := Keep(movies, (m: Movie) => YearPasses(m, a, b));
    var r := Keep(byYear, (m: Movie) => ListsPass(m, s));
    KeepKeep(movies, (m: Movie) => YearPasses(m, a, b), (m: Movie) => ListsPass(m, s),
             (m: Movie) => MoviePasses(m, s, a, b));
    KeepIsSubsequence(movies, (m: Movie) => MoviePasses(m, s, a, b));
    forall m ensures multiset(r)[m] == if MoviePasses(m, s, a, b) then multiset(movies)[m] else 0 {
      KeepCount(movies, (m: Movie) => MoviePasses(m, s, a, b), m);
    }
    r
  }

  /** Crossing the sliders does not change the filtered list. */
  lemma FilteredDataSymmetric(movies: seq<Movie>, s: Selection, a: Bound, b: Bound)
    ensures FilteredData(movies, s, a, b) == FilteredData(movies, s, b, a)
  {
    var p := (m: Movie) => MoviePasses(m, s, a, b);
    var q := (m: Movie) => MoviePasses(m, s, b, a);
    var p1 := (m: Movie) => YearPasses(m, a, b);
    var q1 := (m: Movie) => YearPasses(m, b, a);
    var l := (m: Movie) => ListsPass(m, s);
    KeepKeep(movies, p1, l, p);
    KeepKeep(movies, q1, l, q);
    forall m | m in movies
      ensures p(m) == q(m)
    {
      if m.year.Some? {
        YearRangeCrossingBounds(m.year.value, a, b);
      }
    }
    KeepSame(movies, p, q);
  }

  /** With nothing selected and the sliders absent, every movie is shown. */
  lemma NoFilterKeepsAll(movies: seq<Movie>)
    ensures FilteredData(movies, NoSelection, NegInf, PosInf) == movies
  {
    var p := (m: Movie) => MoviePasses(m, NoSelection, NegInf, PosInf);
    KeepKeep(movies, (m: Movie) => YearPasses(m, NegInf, PosInf), (m: Movie) => ListsPass(m, NoSelection), p);
    KeepAll(movies, p);
  }

  // ---------------------------------------------------------------------------
  // Cross-filter availability

  datatype Kind = GenreKind | ProdKind

  /** The list of `m` that a list of kind `k` shows. */
  function ValuesOf(m: Movie, k: Kind): seq<string> {
    match k
    case GenreKind => m.genres
    case ProdKind => m.companies
  }

  /** `m` is in the year range and passes the selection of the other list. */
  predicate Contributes(m: Movie, k: Kind, s: Selection, a: Bound, b: Bound) {
    InYearRange(m.year, a, b)
    && match k
       case GenreKind => OppositePasses(m.companies, s.companies, s.strictProd)
       case ProdKind => OppositePasses(m.genres, s.genres, s.strictGenre)
  }

  /** The set `getAvailableItems(k)` builds by one pass over the movies. */
  function AvailableIn(movies: seq<Movie>, k: Kind, s: Selection, a: Bound, b: Bound): set<string>
  {
    if |movies| == 0 then {}
    else
      var m := movies[|movies| - 1];
      AvailableIn(movies[..|movies| - 1], k, s, a, b)
        + (if Contributes(m, k, s, a, b) then set x | x in ValuesOf(m, k) else {})
  }

  /** A value is available iff some movie in range that passes the other
      list's selection carries it. */
  lemma {:induction false} AvailableMembership(movies: seq<Movie>, k: Kind, s: Selection, a: Bound, b: Bound, x: string)
    ensures x in AvailableIn(movies, k, s, a, b)
      <==> exists m :: m in movies && Contributes(m, k, s, a, b) && x in ValuesOf(m, k)
  {
    if x in AvailableIn(movies, k, s, a, b) {
      AvailableSound(movies, k, s, a, b, x);
    }
    if exists m :: m in movies && Contributes(m, k, s, a, b) && x in ValuesOf(m, k) {
      var m :| m in movies && Contributes(m, k, s, a, b) && x in ValuesOf(m, k);
      AvailableComplete(movies, k, s, a, b, m, x);
    }
  }

  lemma {:induction false} AvailableSound(movies: seq<Movie>, k: Kind, s: Selection, a: Bound, b: Bound, x: string)
    requires x in AvailableIn(movies, k, s, a, b)
    ensures exists m :: m in movies && Contributes(m, k, s, a, b) && x in ValuesOf(m, k)
  {
    var init := movies[..|movies| - 1];
    var last := movies[|movies| - 1];
    assert movies == init + [last];
    if x in AvailableIn(init, k, s, a, b) {
      AvailableSound(init, k, s, a, b, x);
      var m :| m in init && Contributes(m, k, s, a, b) && x in ValuesOf(m, k);
      assert m in movies;
    } else {
      assert last in movies;
    }
  }

  lemma {:induction false} AvailableComplete(movies: seq<Movie>, k: Kind, s: Selection, a: Bound, b: Bound, m: Movie, x: string)
    requires m in movies && Contributes(m, k, s, a, b) && x in ValuesOf(m, k)
    ensures x in AvailableIn(movies, k, s, a, b)
  {
    var init := movies[..|movies| - 1];
    var last := movies[|movies| - 1];
    assert movies == init + [last];
    if m != last {
      assert m in init;
      AvailableComplete(init, k, s, a, b, m, x);
    }
  }

  /** A list's own selection never narrows what it offers: only the other
      list's selection and the year range matter. */
  lemma {:induction false} AvailableIgnoresOwnSelection(movies: seq<Movie>, k: Kind, s: Selection, t: Selection, a: Bound, b: Bound)
    requires k == GenreKind ==> s.companies == t.companies && s.strictProd == t.strictProd
    requires k == ProdKind ==> s.genres == t.genres && s.strictGenre == t.strictGenre
    ensures AvailableIn(movies, k, s, a, b) == AvailableIn(movies, k, t, a, b)
  {
    if |movies| > 0 {
      AvailableIgnoresOwnSelection(movies[..|movies| - 1], k, s, t, a, b);
    }
  }

  /** Every value carried by a displayed movie stays available in its list,
      so the lists never grey out a value of a movie on screen. */
  lemma FilteredValuesAvailable(movies: seq<Movie>, k: Kind, s: Selection, a: Bound, b: Bound, m: Movie, x: string)
    requires m in FilteredData(movies, s, a, b)
    requires x in ValuesOf(m, k)
    ensures x in AvailableIn(movies, k, s, a, b)
  {
    OppositeIsSelection(m.genres, s.genres, s.strictGenre);
    OppositeIsSelection(m.companies, s.companies, s.strictProd);
    assert Contributes(m, k, s, a, b);
    AvailableMembership(movies, k, s, a, b, x);
  }

  /** With nothing selected in the other list, a list offers exactly the
      values of the movies in the year range. */
  lemma AvailableWithoutOpposite(movies: seq<Movie>, k: Kind, s: Selection, a: Bound, b: Bound, x: string)
    requires k == GenreKind ==> s.companies == {}
    requires k == ProdKind ==> s.genres == {}
    ensures x in AvailableIn(movies, k, s, a, b)
      <==> exists m :: m in movies && InYearRange(m.year, a, b) && x in ValuesOf(m, k)
  {
    AvailableMembership(movies, k, s, a, b, x);
  }
}
