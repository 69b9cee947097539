/**
 * The filter session of the circle-packing dashboard
 * (Projet/Cyril/JS/script.js): the selection history with its undo and redo
 * stacks, the Clear button, the strict checkboxes, the clickable tags of the
 * data table, and the two selectable lists (left press, drag over, release,
 * right click) with the order in which they show their items.
 *
 * The rules are first stated on values (`History`, `Gesture`) and proved
 * there; the `Dashboard` class then holds the same state in fields, as the
 * page's globals do, and each of its methods is tied to the rule it follows.
 */
module FilterSession {
  import opened Cells
  import opened Tally
  import opened CrossFilter

  function Other(k: Kind): Kind {
    match k
    case GenreKind => ProdKind
    case ProdKind => GenreKind
  }

  /** The selected set of the list of kind `k`. */
  function SelectedOf(s: Selection, k: Kind): set<string> {
    match k
    case GenreKind => s.genres
    case ProdKind => s.companies
  }

  /** `s` with the selected set of list `k` replaced by `v`; nothing else
      changes. */
  function WithSelected(s: Selection, k: Kind, v: set<string>): (r: Selection)
    ensures SelectedOf(r, k) == v
    ensures SelectedOf(r, Other(k)) == SelectedOf(s, Other(k))
    ensures r.strictGenre == s.strictGenre && r.strictProd == s.strictProd
  {
    match k
    case GenreKind => s.(genres := v)
    case ProdKind => s.(companies := v)
  }

  // ---------------------------------------------------------------------------
  // The history stacks

  /** The current selection, the undo stack (`filterHistory`, top last) and
      the redo stack (`redoHistory`, top last). */
  datatype History = History(current: Selection, past: seq<Selection>, future: seq<Selection>)

  /** `pushFiltersHistory`: snapshot the current selection, forget the redo
      stack. */
  function Pushed(h: History): History {
    History(h.current, h.past + [h.current], [])
  }

  /** The undo button. */
  function Undone(h: History): History {
    if |h.past| == 0 then h
    else History(h.past[|h.past| - 1], h.past[..|h.past| - 1], h.future + [h.current])
  }

  /** The redo button. */
  function Redone(h: History): History {
    if |h.future| == 0 then h
    else History(h.future[|h.future| - 1], h.past + [h.current], h.future[..|h.future| - 1])
  }

  /** Undo then redo restores the state before the undo; redo then undo
      restores the state before the redo; with an empty stack either button
      does nothing. */
  lemma UndoRedoInverse(h: History)
    ensures |h.past| > 0 ==> Redone(Undone(h)) == h
    ensures |h.future| > 0 ==> Undone(Redone(h)) == h
    ensures |h.past| == 0 ==> Undone(h) == h
    ensures |h.future| == 0 ==> Redone(h) == h
  {
    if |h.past| > 0 {
      assert h.past[..|h.past| - 1] + [h.past[|h.past| - 1]] == h.past;
      assert (h.future + [h.current])[..|h.future|] == h.future;
    }
    if |h.future| > 0 {
      assert h.future[..|h.future| - 1] + [h.future[|h.future| - 1]] == h.future;
      assert (h.past + [h.current])[..|h.past|] == h.past;
    }
  }

  /** Undo restores exactly the last snapshot and moves the state it leaves
      onto the redo stack; no snapshot is ever lost by undo or redo. */
  lemma UndoRestoresSnapshot(h: History)
    requires |h.past| > 0
    ensures Undone(h).current == h.past[|h.past| - 1]
    ensures Undone(h).future[|Undone(h).future| - 1] == h.current
    ensures |Undone(h).past| + |Undone(h).future| == |h.past| + |h.future|
    ensures |Redone(h).past| + |Redone(h).future| == |h.past| + |h.future|
  {
  }

  /** The Clear button: one snapshot, then both sets emptied and both strict
      flags reset. */
  function Cleared(h: History): History {
    Pushed(h).(current := NoSelection)
  }

  /** A strict checkbox: one snapshot, then the flag of list `k` set to `v`. */
  function WithStrict(h: History, k: Kind, v: bool): History {
    var p := Pushed(h);
    match k
    case GenreKind => p.(current := p.current.(strictGenre := v))
    case ProdKind => p.(current := p.current.(strictProd := v))
  }

  /** A clickable genre or company tag of the table: one snapshot, then the
      value toggled in the selection of list `k`. */
  function TagToggled(h: History, k: Kind, x: string): History {
    var p := Pushed(h);
    var sel := SelectedOf(h.current, k);
    p.(current := WithSelected(h.current, k, if x in sel then sel - {x} else sel + {x}))
  }

  /** Clear, then undo, gives back the selection and the undo stack from
      before the clear, and redo can clear again. */
  lemma UndoClear(h: History)
    ensures Undone(Cleared(h)) == History(h.current, h.past, [NoSelection])
    ensures Redone(Undone(Cleared(h))) == Cleared(h)
  {
    assert (h.past + [h.current])[..|h.past|] == h.past;
    UndoRedoInverse(Cleared(h));
  }

  /** Every new action (clear, checkbox, tag) takes one snapshot of the state
      it changes and empties the redo stack, so redo does nothing after it. */
  lemma NewActionForgetsRedo(h: History, k: Kind, v: bool, x: string)
    ensures Cleared(h).past == h.past + [h.current] && Redone(Cleared(h)) == Cleared(h)
    ensures WithStrict(h, k, v).past == h.past + [h.current] && Redone(WithStrict(h, k, v)) == WithStrict(h, k, v)
    ensures TagToggled(h, k, x).past == h.past + [h.current] && Redone(TagToggled(h, k, x)) == TagToggled(h, k, x)
    ensures Undone(TagToggled(h, k, x)).current == h.current
    ensures Undone(WithStrict(h, k, v)).current == h.current
  {
  }

  /** Clicking the same tag twice gives back the selection. */
  lemma TagToggleTwice(h: History, k: Kind, x: string)
    ensures TagToggled(TagToggled(h, k, x), k, x).current == h.current
  {
    var sel := SelectedOf(h.current, k);
    var once := TagToggled(h, k, x).current;
    var twice := TagToggled(TagToggled(h, k, x), k, x).current;
    assert SelectedOf(twice, k) == sel;
    assert SelectedOf(twice, Other(k)) == SelectedOf(h.current, Other(k));
    match k
    case GenreKind =>
    case ProdKind =>
  }

  // ---------------------------------------------------------------------------
  // The selectable lists

  /** Items of `allItems` that are selected. */
  function SelectedItems(allItems: seq<string>, selected: set<string>): seq<string> {
    Keep(allItems, (x: string) => x in selected)
  }

  function UnselectedItems(allItems: seq<string>, selected: set<string>): seq<string> {
    Keep(allItems, (x: string) => x !in selected)
  }

  /** Items that are not selected but still available. */
  function OfferedItems(allItems: seq<string>, selected: set<string>, available: set<string>): seq<string> {
    Keep(allItems, (x: string) => x !in selected && x in available)
  }

  /** Items that are neither selected nor available (shown greyed out). */
  function ExcludedItems(allItems: seq<string>, selected: set<string>, available: set<string>): seq<string> {
    Keep(allItems, (x: string) => x !in selected && x !in available)
  }

  /** The order in which `renderMultiList` shows a list: selected items, then
      available ones, then the rest. (Each block is also sorted by French
      collation in the page; see README.) */
  function Rendered(allItems: seq<string>, selected: set<string>, available: set<string>): seq<string> {
    SelectedItems(allItems, selected) + OfferedItems(allItems, selected, available)
      + ExcludedItems(allItems, selected, available)
  }

  /** The shown list is a rearrangement of `allItems`: every item appears as
      often as it does there, in exactly the block its state puts it in. */
  lemma RenderedIsPartition(allItems: seq<string>, selected: set<string>, available: set<string>)
    ensures multiset(Rendered(allItems, selected, available)) == multiset(allItems)
    ensures forall x :: x in SelectedItems(allItems, selected) <==> x in allItems && x in selected
    ensures forall x :: x in OfferedItems(allItems, selected, available) <==> x in allItems && x !in selected && x in available
    ensures forall x :: x in ExcludedItems(allItems, selected, available) <==> x in allItems && x !in selected && x !in available
  {
    var isSel := (x: string) => x in selected;
    var notSel := (x: string) => x !in selected;
    var avail := (x: string) => x in available;
    var notAvail := (x: string) => x !in available;
    KeepPartition(allItems, isSel, notSel);
    var rest := UnselectedItems(allItems, selected);
    KeepPartition(rest, avail, notAvail);
    KeepKeep(allItems, notSel, avail, (x: string) => x !in selected && x in available);
    KeepKeep(allItems, notSel, notAvail, (x: string) => x !in selected && x !in available);
  }

  datatype DragMode = AddMode | RemoveMode

  /** The drag state of one list: idle, or pressed on `start` with a mode
      (none when the pressed item was greyed out). */
  datatype Drag =
    | Idle
    | Pressed(kind: Kind, start: string, mode: Option<DragMode>, moved: bool, changed: bool)

  datatype Gesture = Gesture(h: History, drag: Drag)

  /** Left press on item `x` of list `k`, as the corrected page behaves: an
      available unselected item is added, a selected item is removed (each
      after one snapshot), a greyed-out item is left alone; the list then
      remembers the press so that a drag can continue it. */
  function PressItem(h: History, k: Kind, x: string, available: set<string>): (g: Gesture)
    ensures g.drag.Pressed? && g.drag.kind == k && g.drag.start == x && !g.drag.moved
  {
    var sel := SelectedOf(h.current, k);
    if x !in sel && x in available then
      var p := Pushed(h);
      Gesture(p.(current := WithSelected(h.current, k, sel + {x})), Pressed(k, x, Some(AddMode), false, true))
    else if x in sel then
      var p := Pushed(h);
      Gesture(p.(current := WithSelected(h.current, k, sel - {x})), Pressed(k, x, Some(RemoveMode), false, true))
    else
      Gesture(h, Pressed(k, x, None, false, false))
  }

  /** A press toggles the item (unless it is greyed out) and takes exactly
      one snapshot, of the state before the press. */
  lemma PressTogglesOnce(h: History, k: Kind, x: string, available: set<string>)
    ensures var g := PressItem(h, k, x, available);
      var sel := SelectedOf(h.current, k);
      (x in sel || x in available ==>
        g.h.past == h.past + [h.current] && g.h.future == []
        && SelectedOf(g.h.current, k) == (if x in sel then sel - {x} else sel + {x})
        && SelectedOf(g.h.current, Other(k)) == SelectedOf(h.current, Other(k)))
      && (x !in sel && x !in available ==> g.h == h)
  {
  }

  /** The mouse enters item `x` of list `k` during a drag: in add mode an
      available unselected item is added, in remove mode a selected item is
      removed; no snapshot is taken. */
  function EnterItem(g: Gesture, k: Kind, x: string, available: set<string>): Gesture {
    match g.drag
    case Idle => g
    case Pressed(kind, start, mode, moved, changed) =>
      if kind != k || mode.None? then g
      else
        var moved' := moved || start != x;
        var sel := SelectedOf(g.h.current, k);
        if mode.value == AddMode then
          if x !in available || x in sel then Gesture(g.h, Pressed(kind, start, mode, moved', changed))
          else Gesture(g.h.(current := WithSelected(g.h.current, k, sel + {x})), Pressed(kind, start, mode, moved', true))
        else
          if x !in sel then Gesture(g.h, Pressed(kind, start, mode, moved', changed))
          else Gesture(g.h.(current := WithSelected(g.h.current, k, sel - {x})), Pressed(kind, start, mode, moved', true))
  }

  /** Entering an item never takes a snapshot; in add mode it only ever adds
      the entered item, and only when that item is available and not yet
      selected; in remove mode it only ever removes a selected entered item. */
  lemma EnterRules(g: Gesture, k: Kind, x: string, available: set<string>)
    ensures EnterItem(g, k, x, available).h.past == g.h.past
    ensures EnterItem(g, k, x, available).h.future == g.h.future
    ensures var before := SelectedOf(g.h.current, k);
      var after := SelectedOf(EnterItem(g, k, x, available).h.current, k);
      (after == before || after == before + {x} || after == before - {x})
      && (after != before && after == before + {x} ==> x in available && x !in before && g.drag.mode == Some(AddMode))
      && (after != before && after == before - {x} ==> x in before && g.drag.mode == Some(RemoveMode))
    ensures SelectedOf(EnterItem(g, k, x, available).h.current, Other(k)) == SelectedOf(g.h.current, Other(k))
  {
  }

  /** The mouse passes over `xs`, in order. */
  function EnterAll(g: Gesture, k: Kind, xs: seq<string>, available: set<string>): Gesture
    decreases |xs|
  {
    if |xs| == 0 then g else EnterAll(EnterItem(g, k, xs[0], available), k, xs[1..], available)
  }

  lemma {:induction false} EnterAllKeepsStacks(g: Gesture, k: Kind, xs: seq<string>, available: set<string>)
    ensures EnterAll(g, k, xs, available).h.past == g.h.past
    ensures EnterAll(g, k, xs, available).h.future == g.h.future
    decreases |xs|
  {
    if |xs| > 0 {
      EnterRules(g, k, xs[0], available);
      EnterAllKeepsStacks(EnterItem(g, k, xs[0], available), k, xs[1..], available);
    }
  }

  /** A whole press-and-drag gesture is one undo step: whatever the items
      the mouse passes over, undo gives back the selection from before the
      press. */
  lemma GestureIsOneUndoStep(h: History, k: Kind, x: string, xs: seq<string>, available: set<string>)
    requires x in SelectedOf(h.current, k) || x in available
    ensures Undone(EnterAll(PressItem(h, k, x, available), k, xs, available).h).current == h.current
  {
    var g := PressItem(h, k, x, available);
    PressTogglesOnce(h, k, x, available);
    EnterAllKeepsStacks(g, k, xs, available);
  }

  /** Pressing an available unselected item and dragging onto another one
      selects both. */
  lemma DragSelectsTwo(h: History, k: Kind, x: string, y: string, available: set<string>)
    requires x in available && y in available
    requires x !in SelectedOf(h.current, k) && y !in SelectedOf(h.current, k)
    ensures SelectedOf(EnterItem(PressItem(h, k, x, available), k, y, available).h.current, k)
      == SelectedOf(h.current, k) + {x, y}
  {
  }

  /** Right click on item `x` of list `k`: a selected item is removed after
      one snapshot; any other item is left alone. */
  function RightClickItem(h: History, k: Kind, x: string): History {
    var sel := SelectedOf(h.current, k);
    if x in sel then Pushed(h).(current := WithSelected(h.current, k, sel - {x})) else h
  }

  /** Right click only ever removes, and only the clicked item. */
  lemma RightClickOnlyRemoves(h: History, k: Kind, x: string)
    ensures SelectedOf(RightClickItem(h, k, x).current, k) == SelectedOf(h.current, k) - {x}
    ensures SelectedOf(RightClickItem(h, k, x).current, Other(k)) == SelectedOf(h.current, Other(k))
    ensures x !in SelectedOf(h.current, k) ==> RightClickItem(h, k, x) == h
    ensures x in SelectedOf(h.current, k) ==> RightClickItem(h, k, x).past == h.past + [h.current]
  {
  }

  // ---------------------------------------------------------------------------
  // The press as the page runs it

  /** Left press as written: the handler re-renders both lists right after
      changing the selection, and each render starts its drag state afresh,
      so a press that changes anything leaves the new items with no drag
      mode. The old render's `mouseup`/`mouseleave` handler still holds the
      press and its change, so the release still refreshes the movies. */
  function PressItemAsWritten(h: History, k: Kind, x: string, available: set<string>): (g: Gesture)
    ensures g.h == PressItem(h, k, x, available).h
    ensures g.drag == PressItem(h, k, x, available).drag.(mode := None)
  {
    var g := PressItem(h, k, x, available);
    if g.drag.changed then Gesture(g.h, g.drag.(mode := None)) else g
  }

  /** As written, dragging after a press never changes the selection: the
      drag-select gesture has no effect beyond the pressed item. */
  lemma {:induction false} DragIsInertAsWritten(h: History, k: Kind, x: string, xs: seq<string>, available: set<string>)
    ensures EnterAll(PressItemAsWritten(h, k, x, available), k, xs, available).h
      == PressItemAsWritten(h, k, x, available).h
  {
    InertStaysInert(PressItemAsWritten(h, k, x, available), k, xs, available);
  }

  predicate Inert(g: Gesture) {
    g.drag.Idle? || g.drag.mode.None?
  }

  lemma {:induction false} InertStaysInert(g: Gesture, k: Kind, xs: seq<string>, available: set<string>)
    requires Inert(g)
    ensures EnterAll(g, k, xs, available).h == g.h
    decreases |xs|
  {
    if |xs| > 0 {
      var g' := EnterItem(g, k, xs[0], available);
      assert g' == g;
      InertStaysInert(g', k, xs[1..], available);
    }
  }

  /** The concrete case: pressing "Action" and dragging onto "Drama", both
      available, selects only "Action" as written, both once corrected. */
  lemma DragExample(h: History)
    requires h.current == NoSelection
    ensures SelectedOf(EnterItem(PressItemAsWritten(h, GenreKind, "Action", {"Action", "Drama"}), GenreKind, "Drama", {"Action", "Drama"}).h.current, GenreKind) == {"Action"}
    ensures SelectedOf(EnterItem(PressItem(h, GenreKind, "Action", {"Action", "Drama"}), GenreKind, "Drama", {"Action", "Drama"}).h.current, GenreKind) == {"Action", "Drama"}
  {
    DragIsInertAsWritten(h, GenreKind, "Action", ["Drama"], {"Action", "Drama"});
    assert ["Drama"][1..] == [];
    DragSelectsTwo(h, GenreKind, "Action", "Drama", {"Action", "Drama"});
  }

  // ---------------------------------------------------------------------------
  // The page state

  /** One step of the pass of `getAvailableItems`. */
  lemma AvailableStep(movies: seq<Movie>, i: nat, k: Kind, s: Selection, lo: Bound, hi: Bound)
    requires i < |movies|
    ensures AvailableIn(movies[..i + 1], k, s, lo, hi)
      == AvailableIn(movies[..i], k, s, lo, hi)
         + (if Contributes(movies[i], k, s, lo, hi) then set x | x in ValuesOf(movies[i], k) else {})
  {
    assert movies[..i + 1][..i] == movies[..i];
  }

  /** The page's globals: the movie table, the two selected sets, the strict
      flags, the two history stacks, the filtered movies and the drag state
      of the lists. The year sliders are read by the caller and passed in. */
  class Dashboard {
    const movies: seq<Movie>
    var selectedGenres: set<string>
    var selectedCompanies: set<string>
    var strictGenre: bool
    var strictProd: bool
    var filterHistory: seq<Selection>
    var redoHistory: seq<Selection>
    var filteredData: seq<Movie>
    var drag: Drag
    /** The available set each list was last rendered with (`availableItems`
        of `renderMultiList`); its items' handlers keep testing this set
        until the list is rendered again. */
    var renderedGenres: set<string>
    var renderedCompanies: set<string>

    function Current(): Selection
      reads this
    {
      Selection(selectedGenres, selectedCompanies, strictGenre, strictProd)
    }

    function Hist(): History
      reads this
    {
      History(Current(), filterHistory, redoHistory)
    }

    /** The available set of list `k` as last rendered. */
    function Rendered(k: Kind): set<string>
      reads this
    {
      match k
      case GenreKind => renderedGenres
      case ProdKind => renderedCompanies
    }

    /** Both lists show what `getAvailableItems` gives for the current
        selection and the slider values `lo` and `hi`. */
    predicate RenderedWith(lo: Bound, hi: Bound)
      reads this
    {
      renderedGenres == AvailableIn(movies, GenreKind, Current(), lo, hi)
      && renderedCompanies == AvailableIn(movies, ProdKind, Current(), lo, hi)
    }

    constructor(movies: seq<Movie>)
      ensures this.movies == movies
      ensures Hist() == History(NoSelection, [], []) && drag == Idle
      ensures filteredData == FilteredData(movies, NoSelection, NegInf, PosInf)
      ensures RenderedWith(NegInf, PosInf)
    {
      this.movies := movies;
      selectedGenres := {};
      selectedCompanies := {};
      strictGenre := false;
      strictProd := false;
      filterHistory := [];
      redoHistory := [];
      drag := Idle;
      renderedGenres := AvailableIn(movies, GenreKind, NoSelection, NegInf, PosInf);
      renderedCompanies := AvailableIn(movies, ProdKind, NoSelection, NegInf, PosInf);
      NoFilterKeepsAll(movies);
      filteredData := movies;
    }

    /** Sets every field of the selection from a saved snapshot. */
    method Restore(s: Selection)
      modifies this
      ensures Current() == s
      ensures filterHistory == old(filterHistory) && redoHistory == old(redoHistory)
      ensures filteredData == old(filteredData) && drag == old(drag)
      ensures renderedGenres == old(renderedGenres) && renderedCompanies == old(renderedCompanies)
    {
      selectedGenres := s.genres;
      selectedCompanies := s.companies;
      strictGenre := s.strictGenre;
      strictProd := s.strictProd;
    }

    method PushFiltersHistory()
      modifies this
      ensures Hist() == Pushed(old(Hist()))
      ensures filteredData == old(filteredData) && drag == old(drag)
      ensures renderedGenres == old(renderedGenres) && renderedCompanies == old(renderedCompanies)
    {
      filterHistory := filterHistory + [Current()];
      redoHistory := [];
    }

    /** `updateFilteredData`, with the two slider values passed in. */
    method UpdateFilteredData(lo: Bound, hi: Bound)
      modifies this
      ensures filteredData == FilteredData(movies, Current(), lo, hi)
      ensures Hist() == old(Hist()) && drag == old(drag)
      ensures renderedGenres == old(renderedGenres) && renderedCompanies == old(renderedCompanies)
    {
      filteredData := FilteredData(movies, Current(), lo, hi);
    }

    /** `applySelectionsToUI`: both lists are rendered again, each with the
        available set of the current selection and slider values. The
        sliders' `input` events call it alone. */
    method ApplySelectionsToUI(lo: Bound, hi: Bound)
      modifies this
      ensures RenderedWith(lo, hi)
      ensures Hist() == old(Hist()) && filteredData == old(filteredData) && drag == old(drag)
    {
      var genres := GetAvailableItems(GenreKind, lo, hi);
      var companies := GetAvailableItems(ProdKind, lo, hi);
      renderedGenres := genres;
      renderedCompanies := companies;
    }

    /** `getAvailableItems(k)`: one pass over the movies, skipping those out
        of the year range or rejected by the other list's selection, and
        adding the values of list `k` of the others. */
    method GetAvailableItems(k: Kind, lo: Bound, hi: Bound) returns (available: set<string>)
      ensures available == AvailableIn(movies, k, Current(), lo, hi)
    {
      var yearMin := BoundMin(lo, hi);
      var yearMax := BoundMax(lo, hi);
      available := {};
      var i := 0;
      while i < |movies|
        invariant 0 <= i <= |movies|
        invariant available == AvailableIn(movies[..i], k, Current(), lo, hi)
      {
        var m := movies[i];
        AvailableStep(movies, i, k, Current(), lo, hi);
        var skip := SkipsMovie(m, k, lo, hi, yearMin, yearMax);
        if !skip {
          available := available + set x | x in ValuesOf(m, k);
        }
        i := i + 1;
      }
      assert movies[..i] == movies;
    }

    /** The `continue` tests of the loop of `getAvailableItems`: a movie
        with a finite year out of range is skipped, and so is one rejected
        by the other list's selection. */
    method SkipsMovie(m: Movie, k: Kind, lo: Bound, hi: Bound, yearMin: Bound, yearMax: Bound) returns (skip: bool)
      requires yearMin == BoundMin(lo, hi) && yearMax == BoundMax(lo, hi)
      ensures skip <==> !Contributes(m, k, Current(), lo, hi)
    {
      skip := false;
      if m.year.Some? && (!BoundLe(yearMin, At(m.year.value)) || !BoundLe(At(m.year.value), yearMax)) {
        skip := true;
      } else if k == GenreKind {
        if |selectedCompanies| > 0 {
          if strictProd {
            skip := !EveryIn(selectedCompanies, m.companies);
          } else {
            skip := !SomeIn(m.companies, selectedCompanies);
          }
        }
      } else {
        if |selectedGenres| > 0 {
          if strictGenre {
            skip := !EveryIn(selectedGenres, m.genres);
          } else {
            skip := !SomeIn(m.genres, selectedGenres);
          }
        }
      }
    }

    method Undo(lo: Bound, hi: Bound)
      modifies this
      ensures Hist() == Undone(old(Hist()))
      ensures filteredData == (if |old(filterHistory)| == 0 then old(filteredData) else FilteredData(movies, Current(), lo, hi))
      ensures drag == old(drag)
      ensures if |old(filterHistory)| == 0 then renderedGenres == old(renderedGenres) && renderedCompanies == old(renderedCompanies)
        else RenderedWith(lo, hi)
    {
      if |filterHistory| == 0 {
        return;
      }
      redoHistory := redoHistory + [Current()];
      var prev := filterHistory[|filterHistory| - 1];
      filterHistory := filterHistory[..|filterHistory| - 1];
      Restore(prev);
      ApplySelectionsToUI(lo, hi);
      UpdateFilteredData(lo, hi);
    }

    method Redo(lo: Bound, hi: Bound)
      modifies this
      ensures Hist() == Redone(old(Hist()))
      ensures filteredData == (if |old(redoHistory)| == 0 then old(filteredData) else FilteredData(movies, Current(), lo, hi))
      ensures drag == old(drag)
      ensures if |old(redoHistory)| == 0 then renderedGenres == old(renderedGenres) && renderedCompanies == old(renderedCompanies)
        else RenderedWith(lo, hi)
    {
      if |redoHistory| == 0 {
        return;
      }
      filterHistory := filterHistory + [Current()];
      var next := redoHistory[|redoHistory| - 1];
      redoHistory := redoHistory[..|redoHistory| - 1];
      Restore(next);
      ApplySelectionsToUI(lo, hi);
      UpdateFilteredData(lo, hi);
    }

    method Clear(lo: Bound, hi: Bound)
      modifies this
      ensures Hist() == Cleared(old(Hist()))
      ensures filteredData == FilteredData(movies, NoSelection, lo, hi)
      ensures drag == old(drag)
      ensures RenderedWith(lo, hi)
    {
      PushFiltersHistory();
      Restore(NoSelection);
      ApplySelectionsToUI(lo, hi);
      UpdateFilteredData(lo, hi);
    }

    method SetStrict(k: Kind, v: bool, lo: Bound, hi: Bound)
      modifies this
      ensures Hist() == WithStrict(old(Hist()), k, v)
      ensures filteredData == FilteredData(movies, Current(), lo, hi)
      ensures drag == old(drag)
      ensures renderedGenres == old(renderedGenres) && renderedCompanies == old(renderedCompanies)
    {
      PushFiltersHistory();
      if k == GenreKind {
        strictGenre := v;
      } else {
        strictProd := v;
      }
      UpdateFilteredData(lo, hi);
    }

    /** Replaces the selected set of list `k`. */
    method SetSelected(k: Kind, v: set<string>)
      modifies this
      ensures Current() == WithSelected(old(Current()), k, v)
      ensures filterHistory == old(filterHistory) && redoHistory == old(redoHistory)
      ensures filteredData == old(filteredData) && drag == old(drag)
      ensures renderedGenres == old(renderedGenres) && renderedCompanies == old(renderedCompanies)
    {
      if k == GenreKind {
        selectedGenres := v;
      } else {
        selectedCompanies := v;
      }
    }

    /** A gesture's change to list `k`: its selected set becomes `v` and
        both lists are rendered again. */
    method Reselect(k: Kind, v: set<string>, lo: Bound, hi: Bound)
      modifies this
      ensures Hist() == old(Hist()).(current := WithSelected(old(Current()), k, v))
      ensures RenderedWith(lo, hi)
      ensures filteredData == old(filteredData) && drag == old(drag)
    {
      SetSelected(k, v);
      ApplySelectionsToUI(lo, hi);
    }

    /** A click on a genre or company tag in the data table. */
    method ToggleTag(k: Kind, x: string, lo: Bound, hi: Bound)
      modifies this
      ensures Hist() == TagToggled(old(Hist()), k, x)
      ensures filteredData == FilteredData(movies, Current(), lo, hi)
      ensures drag == old(drag)
      ensures RenderedWith(lo, hi)
    {
      PushFiltersHistory();
      var sel := SelectedOf(Current(), k);
      if x in sel {
        SetSelected(k, sel - {x});
      } else {
        SetSelected(k, sel + {x});
      }
      ApplySelectionsToUI(lo, hi);
      UpdateFilteredData(lo, hi);
    }

    /** Left press on item `x` of list `k`, as the page runs it: the
        selection changes as `PressItem` says, and the re-render leaves no
        drag mode (`PressItemAsWritten`). Whether `x` is greyed out is
        decided by the available set the list was last rendered with, not
        by the current selection: a strict checkbox does not render the
        lists again (`StrictToggleThenPress`). A change renders both lists
        with the slider values `lo` and `hi`. */
    method Press(k: Kind, x: string, lo: Bound, hi: Bound)
      modifies this
      ensures Gesture(Hist(), drag) == PressItemAsWritten(old(Hist()), k, x, old(Rendered(k)))
      ensures filteredData == old(filteredData)
      ensures if Hist() == old(Hist()) then renderedGenres == old(renderedGenres) && renderedCompanies == old(renderedCompanies)
        else RenderedWith(lo, hi)
    {
      var sel := SelectedOf(Current(), k);
      if x !in sel && x in Rendered(k) {
        PushFiltersHistory();
        SetSelected(k, sel + {x});
        ApplySelectionsToUI(lo, hi);
        drag := Pressed(k, x, None, false, true);
      } else if x in sel {
        PushFiltersHistory();
        SetSelected(k, sel - {x});
        ApplySelectionsToUI(lo, hi);
        drag := Pressed(k, x, None, false, true);
      } else {
        drag := Pressed(k, x, None, false, false);
      }
    }

    /** The mouse enters item `x` of list `k`; the add mode tests the
        available set the list was last rendered with, and a change renders
        both lists again. */
    method Enter(k: Kind, x: string, lo: Bound, hi: Bound)
      modifies this
      ensures Gesture(Hist(), drag) == EnterItem(old(Gesture(Hist(), drag)), k, x, old(Rendered(k)))
      ensures filteredData == old(filteredData)
      ensures if Hist() == old(Hist()) then renderedGenres == old(renderedGenres) && renderedCompanies == old(renderedCompanies)
        else RenderedWith(lo, hi)
    {
      var available := Rendered(k);
      if drag.Idle? || drag.kind != k || drag.mode.None? {
        return;
      }
      var moved := drag.moved || drag.start != x;
      var sel := SelectedOf(Current(), k);
      if drag.mode.value == AddMode {
        if x !in available || x in sel {
          drag := drag.(moved := moved);
          return;
        }
        Reselect(k, sel + {x}, lo, hi);
      } else {
        if x !in sel {
          drag := drag.(moved := moved);
          return;
        }
        Reselect(k, sel - {x}, lo, hi);
      }
      drag := drag.(moved := moved, changed := true);
    }

    /** The mouse button goes up, over item `over` of list `k` or elsewhere
        (the document's handler, also run when the mouse leaves the list):
        a simple click on the pressed item, or any change made during the
        gesture, refreshes the filtered movies; the list becomes idle. */
    method Release(k: Kind, over: Option<string>, lo: Bound, hi: Bound)
      modifies this
      ensures Hist() == old(Hist()) && drag == Idle
      ensures renderedGenres == old(renderedGenres) && renderedCompanies == old(renderedCompanies)
      ensures var d := old(drag);
        var refresh := d.Pressed? && d.kind == k
          && (d.changed || (over == Some(d.start) && !d.moved));
        filteredData == (if refresh then FilteredData(movies, Current(), lo, hi) else old(filteredData))
    {
      if drag.Pressed? && drag.kind == k && (drag.changed || (over == Some(drag.start) && !drag.moved)) {
        UpdateFilteredData(lo, hi);
      }
      drag := Idle;
    }

    /** Right click on item `x` of list `k`. */
    method RightClick(k: Kind, x: string, lo: Bound, hi: Bound)
      modifies this
      ensures Hist() == RightClickItem(old(Hist()), k, x)
      ensures filteredData == (if x in SelectedOf(old(Current()), k) then FilteredData(movies, Current(), lo, hi) else old(filteredData))
      ensures drag == old(drag)
      ensures if x in SelectedOf(old(Current()), k) then RenderedWith(lo, hi)
        else renderedGenres == old(renderedGenres) && renderedCompanies == old(renderedCompanies)
    {
      var sel := SelectedOf(Current(), k);
      if x in sel {
        PushFiltersHistory();
        SetSelected(k, sel - {x});
        ApplySelectionsToUI(lo, hi);
        UpdateFilteredData(lo, hi);
      }
    }
  }


  /** Movie `m1` has genre "G" and company "A"; movie `m2` has genre "H"
      and company "B"; neither has a year. */
  predicate ExampleMovies(m1: Movie, m2: Movie) {
    m1.genres == ["G"] && m1.companies == ["A"] && m1.year.None?
    && m2.genres == ["H"] && m2.companies == ["B"] && m2.year.None?
  }

  /** While companies "A" and "B" are selected without strict mode, genre
      "G" is offered. */
  lemma RenderedExample(m1: Movie, m2: Movie, s: Selection)
    requires ExampleMovies(m1, m2)
    requires s.companies == {"A", "B"} && !s.strictProd
    ensures "G" in AvailableIn([m1, m2], GenreKind, s, NegInf, PosInf)
  {
    assert Contributes(m1, GenreKind, s, NegInf, PosInf) by {
      assert "A" in m1.companies && "A" in s.companies;
    }
    AvailableComplete([m1, m2], GenreKind, s, NegInf, PosInf, m1, "G");
  }

  /** With strictProd ticked, neither movie has both selected companies,
      so no genre is offered. */
  lemma StrictExample(m1: Movie, m2: Movie, s: Selection)
    requires ExampleMovies(m1, m2)
    requires s.companies == {"A", "B"} && s.strictProd
    ensures AvailableIn([m1, m2], GenreKind, s, NegInf, PosInf) == {}
  {
    assert |s.companies| > 0 by {
      assert "A" in s.companies;
    }
    assert !EveryIn(s.companies, m1.companies) by {
      assert "B" in s.companies && "B" !in m1.companies;
    }
    assert !EveryIn(s.companies, m2.companies) by {
      assert "A" in s.companies && "A" !in m2.companies;
    }
    assert [m1, m2][..1] == [m1];
    assert [m1][..0] == [];
    assert AvailableIn([m1], GenreKind, s, NegInf, PosInf) == {};
  }

  /** A strict checkbox refilters the movies but does not render the lists
      again, so a press still sees the availability of the last render.
      With "A" and "B" selected and the lists rendered, "G" is offered.
      Once strictProd is ticked no movie has both companies, so the current
      state offers no genre; the press on "G" still selects it, with one
      more snapshot. */
  method StrictToggleThenPress(d: Dashboard, m1: Movie, m2: Movie) returns (availableNow: set<string>)
    requires ExampleMovies(m1, m2) && d.movies == [m1, m2]
    requires d.Current() == Selection({}, {"A", "B"}, false, false)
    requires d.RenderedWith(NegInf, PosInf)
    modifies d
    ensures d.selectedGenres == {"G"} && d.selectedCompanies == {"A", "B"} && d.strictProd
    ensures |d.filterHistory| == old(|d.filterHistory|) + 2
    ensures availableNow == {}
  {
    RenderedExample(m1, m2, d.Current());
    d.SetStrict(ProdKind, true, NegInf, PosInf);
    assert "G" in d.Rendered(GenreKind);
    PressTogglesOnce(d.Hist(), GenreKind, "G", d.Rendered(GenreKind));
    d.Press(GenreKind, "G", NegInf, PosInf);
    availableNow := d.GetAvailableItems(GenreKind, NegInf, PosInf);
    StrictExample(m1, m2, d.Current());
  }
}
