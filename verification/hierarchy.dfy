/**
 * The grouping behind the circle-packing chart (`buildHierarchy` of
 * Projet/Cyril/JS/script.js): every movie with a positive size value joins
 * the group of each of its genres (or production companies); each group
 * keeps its 250 largest films; in strict mode only the selected groups
 * remain; the 18 groups with the largest positive totals are drawn.
 */
module Hierarchy {
  import opened Cells
  import opened Tally
  import opened CrossFilter

  const TopGroups := 18
  const MaxFilmsPerGroup := 250

  /** Which number sizes the circles: budget, revenue, vote average, or
      popularity (the default). */
  datatype SizeMode = BudgetSize | RevenueSize | VoteSize | PopularitySize

  /** A leaf of the chart and a row of the data table. */
  datatype Film = Film(
    name: string,
    value: real,
    popularity: Option<real>,
    year: Option<int>,
    voteAverage: Option<real>,
    revenue: Option<real>,
    budget: Option<real>,
    genres: seq<string>,
    companies: seq<string>)

  datatype Group = Group(name: string, total: real, children: seq<Film>)

  function FilmValue(f: Film): real {
    f.value
  }

  function GroupTotal(g: Group): real {
    g.total
  }

  /** `+d.budget`, `+d.revenue`, `+d.vote_average` or `+d.popularity`;
      `None` when the number is not finite. */
  function SizeValue(m: Movie, size: SizeMode): Option<real> {
    match size
    case BudgetSize => m.budget
    case RevenueSize => m.revenue
    case VoteSize => m.voteAverage
    case PopularitySize => m.popularity
  }

  /** The movie takes part in the chart: its size value is finite and positive. */
  predicate Eligible(m: Movie, size: SizeMode) {
    SizeValue(m, size).Some? && SizeValue(m, size).value > 0.0
  }

  function FilmOf(m: Movie, v: real): Film {
    Film(m.title, v, m.popularity, m.year, m.voteAverage, m.revenue, m.budget, m.genres, m.companies)
  }

  function Repeat<T>(x: T, n: nat): (r: seq<T>)
    ensures |r| == n && forall y :: y in r ==> y == x
  {
    if n == 0 then [] else Repeat(x, n - 1) + [x]
  }

  /** The films movie `m` pushes into group `g`: one per occurrence of `g`
      in its list, when `m` is eligible and `g` is not empty. */
  function MovieContribution(m: Movie, mode: Kind, size: SizeMode, g: string): seq<Film> {
    if !Eligible(m, size) || g == "" then []
    else Repeat(FilmOf(m, SizeValue(m, size).value), Count(ValuesOf(m, mode), g))
  }

  /** Everything group `g` receives from `data`, in the order it is pushed. */
  function Contribution(data: seq<Movie>, mode: Kind, size: SizeMode, g: string): seq<Film> {
    if |data| == 0 then []
    else Contribution(data[..|data| - 1], mode, size, g) + MovieContribution(data[|data| - 1], mode, size, g)
  }

  /** Group names in the order the `Map` first meets them, after visiting
      the names `gs` of one movie. */
  function NewNames(order: seq<string>, gs: seq<string>): seq<string> {
    if |gs| == 0 then order
    else
      var o := NewNames(order, gs[..|gs| - 1]);
      var g := gs[|gs| - 1];
      if g == "" || g in o then o else o + [g]
  }

  /** The key order of the group map after the whole pass. */
  function GroupOrder(data: seq<Movie>, mode: Kind, size: SizeMode): seq<string> {
    if |data| == 0 then []
    else
      var o := GroupOrder(data[..|data| - 1], mode, size);
      var m := data[|data| - 1];
      if Eligible(m, size) then NewNames(o, ValuesOf(m, mode)) else o
  }

  lemma {:induction false} NewNamesMembership(order: seq<string>, gs: seq<string>, x: string)
    ensures x in NewNames(order, gs) <==> x in order || (x != "" && x in gs)
  {
    if |gs| > 0 {
      NewNamesMembership(order, gs[..|gs| - 1], x);
      assert gs == gs[..|gs| - 1] + [gs[|gs| - 1]];
    }
  }

  /** A group exists iff some eligible movie names it. */
  lemma {:induction false} GroupOrderMembership(data: seq<Movie>, mode: Kind, size: SizeMode, g: string)
    ensures g in GroupOrder(data, mode, size)
      <==> g != "" && exists m :: m in data && Eligible(m, size) && g in ValuesOf(m, mode)
  {
    if |data| > 0 {
      var init := data[..|data| - 1];
      var m := data[|data| - 1];
      GroupOrderMembership(init, mode, size, g);
      NewNamesMembership(GroupOrder(init, mode, size), ValuesOf(m, mode), g);
      assert data == init + [m];
      if g != "" && exists m' :: m' in data && Eligible(m', size) && g in ValuesOf(m', mode) {
        var m' :| m' in data && Eligible(m', size) && g in ValuesOf(m', mode);
        if m' != m {
          assert m' in init;
        }
      }
    }
  }

  /** Every film of a group comes from an eligible movie that names the
      group, and carries that movie's size value. */
  lemma {:induction false} ContributionSources(data: seq<Movie>, mode: Kind, size: SizeMode, g: string, c: Film)
    requires c in Contribution(data, mode, size, g)
    ensures exists m :: (m in data && Eligible(m, size) && g in ValuesOf(m, mode)
      && c == FilmOf(m, SizeValue(m, size).value))
  {
    var init := data[..|data| - 1];
    var m := data[|data| - 1];
    assert data == init + [m];
    if c in Contribution(init, mode, size, g) {
      ContributionSources(init, mode, size, g, c);
      var m' :| m' in init && Eligible(m', size) && g in ValuesOf(m', mode)
        && c == FilmOf(m', SizeValue(m', size).value);
      assert m' in data;
    } else {
      assert c in MovieContribution(m, mode, size, g);
      CountPositive(ValuesOf(m, mode), g);
    }
  }

  predicate PositiveFilm(f: Film) {
    f.value > 0.0
  }

  predicate PositiveGroup(grp: Group) {
    grp.total > 0.0
  }

  function Min(a: int, b: int): int {
    if a < b then a else b
  }

  /** `films.filter(positive).sort(by value, descending).slice(0, 250)`: the
      250 largest positive films, largest first; a positive film is left out
      only when 250 films at least as large are kept. */
  function TopFilms(films: seq<Film>): (r: seq<Film>)
    ensures |r| == Min(MaxFilmsPerGroup, |Keep(films, PositiveFilm)|)
    ensures SortedDesc(r, FilmValue)
    ensures multiset(r) <= multiset(films)
    ensures forall c :: c in r ==> PositiveFilm(c)
    ensures forall x, y :: x in films && PositiveFilm(x) && x !in r && y in r ==> y.value >= x.value
    ensures forall x :: x in films && PositiveFilm(x) && x !in r ==> |r| == MaxFilmsPerGroup
  {
    TopKept(films, PositiveFilm, MaxFilmsPerGroup, FilmValue)
  }

  /** The group of name `g`: its films ranked and cut, and their total. */
  function GroupOf(data: seq<Movie>, mode: Kind, size: SizeMode, g: string): Group {
    var children := TopFilms(Contribution(data, mode, size, g));
    Group(g, SumOf(children, FilmValue), children)
  }

  /** One group per name of `order`, in that order. */
  function GroupsOf(order: seq<string>, data: seq<Movie>, mode: Kind, size: SizeMode): (r: seq<Group>)
    ensures |r| == |order|
    ensures forall i :: 0 <= i < |r| ==> r[i].name == order[i] && r[i] == GroupOf(data, mode, size, order[i])
  {
    seq(|order|, i requires 0 <= i < |order| => GroupOf(data, mode, size, order[i]))
  }

  /** Strict mode is on for the chart's list and something is selected in it. */
  predicate StrictActive(mode: Kind, sel: Selection) {
    (mode == GenreKind && sel.strictGenre && |sel.genres| > 0)
    || (mode == ProdKind && sel.strictProd && |sel.companies| > 0)
  }

  /** The group named `name` survives the strict-mode filter. */
  predicate Shown(mode: Kind, sel: Selection, name: string) {
    && (mode == GenreKind && sel.strictGenre && |sel.genres| > 0 ==> name in sel.genres)
    && (mode == ProdKind && sel.strictProd && |sel.companies| > 0 ==> name in sel.companies)
  }

  /** Strict mode with a non-empty selection keeps exactly the selected
      groups, every occurrence, in order; otherwise every group. */
  function KeepSelected(groups: seq<Group>, mode: Kind, sel: Selection): (r: seq<Group>)
    ensures forall grp :: multiset(r)[grp] == if Shown(mode, sel, grp.name) then multiset(groups)[grp] else 0
    ensures IsSubsequence(r, groups)
    ensures !StrictActive(mode, sel) ==> r == groups
  {
    if mode == GenreKind && sel.strictGenre && |sel.genres| > 0 then
      var p := (grp: Group) => grp.name in sel.genres;
      KeepIsSubsequence(groups, p);
      forall grp ensures multiset(Keep(groups, p))[grp] == if Shown(mode, sel, grp.name) then multiset(groups)[grp] else 0 {
        KeepCount(groups, p, grp);
      }
      Keep(groups, p)
    else if mode == ProdKind && sel.strictProd && |sel.companies| > 0 then
      var p := (grp: Group) => grp.name in sel.companies;
      KeepIsSubsequence(groups, p);
      forall grp ensures multiset(Keep(groups, p))[grp] == if Shown(mode, sel, grp.name) then multiset(groups)[grp] else 0 {
        KeepCount(groups, p, grp);
      }
      Keep(groups, p)
    else
      SubsequenceOfSelf(groups);
      groups
  }

  /** `groups.filter(total > 0).sort(by total, descending).slice(0, 18)`:
      the 18 groups with the largest positive totals, largest first; a
      positive group is left out only when 18 groups at least as large are
      kept. */
  function Rank(groups: seq<Group>): (r: seq<Group>)
    ensures |r| == Min(TopGroups, |Keep(groups, PositiveGroup)|)
    ensures SortedDesc(r, GroupTotal)
    ensures multiset(r) <= multiset(groups)
    ensures forall grp :: grp in r ==> PositiveGroup(grp)
    ensures forall x, y :: x in groups && PositiveGroup(x) && x !in r && y in r ==> y.total >= x.total
    ensures forall x :: x in groups && PositiveGroup(x) && x !in r ==> |r| == TopGroups
  {
    TopKept(groups, PositiveGroup, TopGroups, GroupTotal)
  }

  /** The groups that compete for a place in the chart. */
  function Candidates(data: seq<Movie>, mode: Kind, size: SizeMode, sel: Selection): seq<Group> {
    KeepSelected(GroupsOf(GroupOrder(data, mode, size), data, mode, size), mode, sel)
  }

  /** A group named by an eligible movie and shown in the current mode is a
      candidate. */
  lemma CandidateOf(data: seq<Movie>, mode: Kind, size: SizeMode, sel: Selection, g: string)
    requires g in GroupOrder(data, mode, size) && Shown(mode, sel, g)
    ensures GroupOf(data, mode, size, g) in Candidates(data, mode, size, sel)
  {
    var order := GroupOrder(data, mode, size);
    var all := GroupsOf(order, data, mode, size);
    var i :| 0 <= i < |order| && order[i] == g;
    assert all[i] == GroupOf(data, mode, size, g);
    assert GroupOf(data, mode, size, g) in multiset(all);
  }

  lemma GroupsOfMember(order: seq<string>, data: seq<Movie>, mode: Kind, size: SizeMode, grp: Group)
    requires grp in GroupsOf(order, data, mode, size)
    ensures grp.name in order && grp == GroupOf(data, mode, size, grp.name)
  {
    var all := GroupsOf(order, data, mode, size);
    var i :| 0 <= i < |all| && all[i] == grp;
  }

  lemma SelectedMember(groups: seq<Group>, mode: Kind, sel: Selection, grp: Group)
    requires grp in KeepSelected(groups, mode, sel)
    ensures grp in groups && Shown(mode, sel, grp.name)
  {
    assert multiset(KeepSelected(groups, mode, sel))[grp] > 0;
  }

  /** A candidate is the group of its own name, which an eligible movie
      names and which the strict mode shows. */
  lemma CandidateIs(data: seq<Movie>, mode: Kind, size: SizeMode, sel: Selection, grp: Group)
    requires grp in Candidates(data, mode, size, sel)
    ensures grp == GroupOf(data, mode, size, grp.name)
    ensures grp.name in GroupOrder(data, mode, size) && Shown(mode, sel, grp.name)
  {
    var order := GroupOrder(data, mode, size);
    SelectedMember(GroupsOf(order, data, mode, size), mode, sel, grp);
    GroupsOfMember(order, data, mode, size, grp);
  }

  /** What `buildHierarchy` returns as the children of its root: the groups
      named by eligible movies and shown in strict mode, each with its 250
      largest positive films and their total, cut to the 18 largest positive
      totals, largest first. */
  function HierarchyOf(data: seq<Movie>, mode: Kind, size: SizeMode, sel: Selection): (r: seq<Group>)
    ensures |r| == Min(TopGroups, |Keep(Candidates(data, mode, size, sel), PositiveGroup)|)
    ensures SortedDesc(r, GroupTotal)
    ensures forall grp :: grp in r ==>
      PositiveGroup(grp) && grp == GroupOf(data, mode, size, grp.name)
      && grp.name in GroupOrder(data, mode, size) && Shown(mode, sel, grp.name)
    ensures forall g :: (g in GroupOrder(data, mode, size) && Shown(mode, sel, g)
        && PositiveGroup(GroupOf(data, mode, size, g)) && GroupOf(data, mode, size, g) !in r) ==>
      |r| == TopGroups && forall y :: y in r ==> y.total >= GroupOf(data, mode, size, g).total
  {
    var c := Candidates(data, mode, size, sel);
    var r := Rank(c);
    forall grp | grp in r
      ensures grp == GroupOf(data, mode, size, grp.name)
      ensures grp.name in GroupOrder(data, mode, size) && Shown(mode, sel, grp.name)
    {
      SubMultisetMember(r, c, grp);
      CandidateIs(data, mode, size, sel, grp);
    }
    forall g | g in GroupOrder(data, mode, size) && Shown(mode, sel, g)
      ensures GroupOf(data, mode, size, g) in c
    {
      CandidateOf(data, mode, size, sel, g);
    }
    r
  }

  /** `buildHierarchy(mode, data, sizeMode)` with the strict flags and the
      selections it reads passed in: the map-filling pass, then the ranking. */
  method BuildHierarchy(mode: Kind, data: seq<Movie>, size: SizeMode, sel: Selection) returns (groups: seq<Group>)
    ensures groups == HierarchyOf(data, mode, size, sel)
  {
    var order, films := BuildGroupMap(mode, data, size);
    groups := MakeGroups(order, films);
    assert groups == GroupsOf(order, data, mode, size);
    groups := KeepSelected(groups, mode, sel);
    groups := Rank(groups);
  }

  /** `Array.from(groupMap, ...)` with each group's films ranked and cut. */
  function MakeGroups(order: seq<string>, films: map<string, seq<Film>>): seq<Group>
    requires forall g :: g in order ==> g in films
  {
    seq(|order|, i requires 0 <= i < |order| =>
      var children := TopFilms(films[order[i]]);
      Group(order[i], SumOf(children, FilmValue), children))
  }

  /** One step of `Contribution`: the films of the first `i + 1` movies. */
  lemma ContributionStep(data: seq<Movie>, i: nat, mode: Kind, size: SizeMode, g: string)
    requires i < |data|
    ensures Contribution(data[..i + 1], mode, size, g)
      == Contribution(data[..i], mode, size, g) + MovieContribution(data[i], mode, size, g)
  {
    assert data[..i + 1][..i] == data[..i];
  }

  lemma GroupOrderStep(data: seq<Movie>, i: nat, mode: Kind, size: SizeMode)
    requires i < |data|
    ensures GroupOrder(data[..i + 1], mode, size)
      == if Eligible(data[i], size) then NewNames(GroupOrder(data[..i], mode, size), ValuesOf(data[i], mode))
         else GroupOrder(data[..i], mode, size)
  {
    assert data[..i + 1][..i] == data[..i];
  }

  /** The loop of `buildHierarchy` that fills `groupMap`: for each eligible
      movie and each non-empty name of its list, the movie's film is pushed
      onto that name's list, created on first use. */
  method BuildGroupMap(mode: Kind, data: seq<Movie>, size: SizeMode)
    returns (order: seq<string>, films: map<string, seq<Film>>)
    ensures order == GroupOrder(data, mode, size) && NoDuplicates(order)
    ensures forall g :: g in order <==> g in films
    ensures forall g :: g in films ==> films[g] == Contribution(data, mode, size, g)
  {
    order := [];
    films := map[];
    var i := 0;
    while i < |data|
      invariant 0 <= i <= |data|
      invariant order == GroupOrder(data[..i], mode, size) && NoDuplicates(order)
      invariant "" !in films
      invariant forall g :: g in order <==> g in films
      invariant forall g :: g in films ==> films[g] == Contribution(data[..i], mode, size, g)
      invariant forall g :: g !in films ==> Contribution(data[..i], mode, size, g) == []
    {
      var d := data[i];
      GroupOrderStep(data, i, mode, size);
      var sizeValue := SizeValue(d, size);
      if sizeValue.Some? && sizeValue.value > 0.0 {
        var groups := ValuesOf(d, mode);
        if |groups| > 0 {
          ghost var films0 := films;
          order, films := PushFilm(order, films, FilmOf(d, sizeValue.value), groups);
          PushStep(data, i, mode, size, films0, films);
        } else {
          NothingToPush(data, i, mode, size);
        }
      } else {
        NothingToPush(data, i, mode, size);
      }
      i := i + 1;
    }
    assert data[..i] == data;
  }

  /** Pushing the film of an eligible movie onto the lists of its names
      extends every group's list by that movie's contribution. */
  lemma PushStep(data: seq<Movie>, i: nat, mode: Kind, size: SizeMode,
                 films0: map<string, seq<Film>>, films: map<string, seq<Film>>)
    requires i < |data| && Eligible(data[i], size)
    requires forall g :: g in films0 ==> films0[g] == Contribution(data[..i], mode, size, g)
    requires forall g :: g !in films0 ==> Contribution(data[..i], mode, size, g) == []
    requires "" !in films
    requires forall g :: g in films ==>
      films[g] == Expected(films0, FilmOf(data[i], SizeValue(data[i], size).value), ValuesOf(data[i], mode), g)
    requires forall g :: g !in films ==> g !in films0 && (g == "" || Count(ValuesOf(data[i], mode), g) == 0)
    ensures forall g :: g in films ==> films[g] == Contribution(data[..i + 1], mode, size, g)
    ensures forall g :: g !in films ==> Contribution(data[..i + 1], mode, size, g) == []
  {
    forall g
      ensures g in films ==> films[g] == Contribution(data[..i + 1], mode, size, g)
      ensures g !in films ==> Contribution(data[..i + 1], mode, size, g) == []
    {
      ContributionStep(data, i, mode, size, g);
    }
  }

  /** A movie that is not eligible, or names no group, adds nothing. */
  lemma NothingToPush(data: seq<Movie>, i: nat, mode: Kind, size: SizeMode)
    requires i < |data|
    requires !Eligible(data[i], size) || |ValuesOf(data[i], mode)| == 0
    ensures GroupOrder(data[..i + 1], mode, size) == GroupOrder(data[..i], mode, size)
    ensures forall g :: Contribution(data[..i + 1], mode, size, g) == Contribution(data[..i], mode, size, g)
  {
    GroupOrderStep(data, i, mode, size);
    forall g
      ensures Contribution(data[..i + 1], mode, size, g) == Contribution(data[..i], mode, size, g)
    {
      ContributionStep(data, i, mode, size, g);
    }
  }

  /** What the list of `g` holds after `film` was pushed for every name of
      `gs`, starting from `films0`. */
  function Expected(films0: map<string, seq<Film>>, film: Film, gs: seq<string>, g: string): seq<Film> {
    (if g in films0 then films0[g] else []) + Repeat(film, Count(gs, g))
  }

  lemma ExpectedStep(films0: map<string, seq<Film>>, film: Film, gs: seq<string>, x: string, g: string)
    ensures Expected(films0, film, gs + [x], g)
      == Expected(films0, film, gs, g) + (if g == x then [film] else [])
  {
    assert (gs + [x])[..|gs|] == gs;
  }

  /** The state of the inner loop after pushing `film` for every name of
      `gs`. */
  ghost predicate FilmPushed(order0: seq<string>, films0: map<string, seq<Film>>, film: Film, gs: seq<string>,
                         order: seq<string>, films: map<string, seq<Film>>)
  {
    && order == NewNames(order0, gs) && NoDuplicates(order) && "" !in films
    && (forall g :: g in order <==> g in films)
    && (forall g :: g in films ==> films[g] == Expected(films0, film, gs, g))
    && (forall g :: g !in films ==> g !in films0 && (g == "" || Count(gs, g) == 0))
  }

  /** One step of the inner loop keeps `FilmPushed`. */
  lemma PushOneKeeps(order0: seq<string>, films0: map<string, seq<Film>>, film: Film, gs: seq<string>, g: string,
                     o: seq<string>, f: map<string, seq<Film>>, order: seq<string>, films: map<string, seq<Film>>)
    requires FilmPushed(order0, films0, film, gs, o, f)
    requires g == "" ==> order == o && films == f
    requires g != "" ==> order == (if g in f then o else o + [g])
    requires g != "" ==> films == f[g := (if g in f then f[g] else []) + [film]]
    ensures FilmPushed(order0, films0, film, gs + [g], order, films)
  {
    var gs1 := gs + [g];
    assert gs1[..|gs|] == gs;
    assert order == NewNames(order0, gs1) && NoDuplicates(order) by {
      assert g in o <==> g in f;
      if g != "" && g !in o {
        AppendFresh(o, g);
      }
    }
    assert forall h :: h in order <==> h in films;
    forall h | h in films
      ensures films[h] == Expected(films0, film, gs1, h)
    {
      ExpectedStep(films0, film, gs, g, h);
    }
    forall h | h !in films
      ensures h !in films0 && (h == "" || Count(gs1, h) == 0)
    {
      assert Count(gs1, h) == Count(gs, h) + (if h == g then 1 else 0);
    }
  }

  lemma AppendFresh<T>(s: seq<T>, x: T)
    requires NoDuplicates(s) && x !in s
    ensures NoDuplicates(s + [x])
  {
  }

  /** The inner loop: push `film` onto the list of every non-empty name in
      `groups`, creating the lists that do not exist yet. */
  method PushFilm(order0: seq<string>, films0: map<string, seq<Film>>, film: Film, groups: seq<string>)
    returns (order: seq<string>, films: map<string, seq<Film>>)
    requires NoDuplicates(order0) && "" !in films0
    requires forall g :: g in order0 <==> g in films0
    ensures order == NewNames(order0, groups) && NoDuplicates(order) && "" !in films
    ensures forall g :: g in order <==> g in films
    ensures forall g :: g in films ==> films[g] == Expected(films0, film, groups, g)
    ensures forall g :: g !in films ==> g !in films0 && (g == "" || Count(groups, g) == 0)
  {
    order := order0;
    films := films0;
    var j := 0;
    assert FilmPushed(order0, films0, film, groups[..0], order, films) by {
      assert groups[..0] == [];
      forall g | g in films
        ensures films[g] == Expected(films0, film, [], g)
      {
        assert Repeat(film, 0) == [];
      }
    }
    while j < |groups|
      invariant 0 <= j <= |groups|
      invariant FilmPushed(order0, films0, film, groups[..j], order, films)
    {
      var g := groups[j];
      ghost var o, f := order, films;
      if g != "" {
        if g !in films {
          films := films[g := []];
          order := order + [g];
        }
        films := films[g := films[g] + [film]];
      }
      PushOneKeeps(order0, films0, film, groups[..j], g, o, f, order, films);
      assert groups[..j + 1] == groups[..j] + [g];
      j := j + 1;
    }
    assert groups[..j] == groups;
  }
}
