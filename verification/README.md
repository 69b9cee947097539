# DataViz_Movies — a verified model of the filtering logic

DataViz_Movies is a set of movie-dashboard pages built on d3. This project
models in Dafny the logic behind four of them and proves what that logic
guarantees:

- **The circle-packing dashboard** (`Projet/Cyril/JS/script.js`). Its state is
  a genre selection, a company selection, two "strict" flags and a year range
  read from two sliders that may cross. It filters the movie table with these
  (`updateFilteredData`). Each list offers only the values still reachable
  under the other list's selection (`getAvailableItems`). A two-stack history
  supports undo, redo and clear. The lists are rendered as selected, then
  available, then greyed out, and are driven by press, drag and right-click
  gestures. The dashboard groups films into circles (`buildHierarchy`) and
  lists them in a paged data table with per-column filters, de-duplicated by
  title.
- **The numeric filter panel of that table**
  (`Projet/Cyril/JS/numeric_filter_overlay.js`). It has ≥, ≤, "between" and
  "exact" buttons. For the year and note columns they rebuild a selection of
  column values. For budget, revenue and popularity they filter the table rows
  directly.
- **The bubble chart** (`Projet/bubbleChart/js/main.js`). It covers CSV row
  parsing (`numOrNull`, the three-stage `parseJsonList`, profit), the filter
  form (`filterMovies`, top N), the split between the chart and the
  "missing budget/revenue" panel, and the panel's page clamping.
- **The genre × period heatmap** (`Projet/Melanie/index.js`). It covers the
  in-place row preparation with the decade, counts per cell and per period,
  the filter form, the genre-axis order, and the ten best movies of a clicked
  cell.

How the model stands in for the browser:

- The DOM reads become parameters: slider bounds, form values and typed
  numbers.
- `JSON.parse`, `+text` and `parseFloat` are parameters (oracles):
  - `parse: string -> JsonOutcome` (throws, an array of strings, or another
    value);
  - `toNumber: string -> JsNumber` (a finite number, NaN or ±Infinity);
  - `parseFloat: string -> Option<real>` (`None` for NaN).
- Global variables that handlers update in place become fields of classes:
  - `FilterSession.Dashboard` for the selections, flags and history stacks;
  - `DataTable.Table` for `baseTableData`, `tableFilters`, `currentTableData`
    and `currentPage`;
  - `NumericOverlay.Facets` for `selectedYears` and `selectedNotes`;
  - `BubbleChart.MissingPanel` for `state.missingPage` and the filters its footer buttons captured.
- Loops in the source are methods with loop invariants, each proved equal to
  a specification function:
  - `getAvailableItems`;
  - the `groupMap` loop of `buildHierarchy`;
  - the `forEach` refill of the overlay;
  - `prepareData`.
- Everything else is functions over sequences and sets.

Modules:

- `cells.dfy` (module Cells): `Option`, the `JSON.parse` outcome, JavaScript numbers.
- `text.dfy` (module Text): `trim`, `split`/`join`, `toLowerCase`, `includes`, quote deletion.
- `tally.dfy` (module Tally): `filter`, counting, first-appearance de-duplication, `d3.rollup` counting, stable descending sort.
- `numerals.dfy` (module Numerals): `String(n)` and `toFixed(1)` with their readings back.
- `cross_filter.dfy` (module CrossFilter): `parseArrayField`, the year range, the selection tests, `updateFilteredData`, availability.
- `filter_session.dfy` (module FilterSession): the history stacks, the list gestures, the `Dashboard` class.
- `hierarchy.dfy` (module Hierarchy): `buildHierarchy`.
- `data_table.dfy` (module DataTable): de-duplication, column filters, pages, the `Table` class.
- `numeric_overlay.dfy` (module NumericOverlay): the operator buttons and their apply handlers.
- `bubble_chart.dfy` (module BubbleChart): the bubble-chart page.
- `heatmap.dfy` (module Heatmap): the heatmap page.

## Model

| member | source | states |
|---|---|---|
| Text.Trim | Projet/bubbleChart/js/main.js:35 | the result has no white space at either end, occurs in the input as a contiguous piece, and uses only characters of the input |
| Text.TrimIsPiece | Projet/bubbleChart/js/main.js:35 | the result of `trim` is a contiguous piece of the input and everything of the input before and after it is white space, so together with the trimmed ends it is determined |
| Text.TrimOfTrimmed | Projet/bubbleChart/js/main.js:58-60 | trimming a string with no surrounding white space leaves it unchanged |
| Text.TrimAllSpace | Projet/bubbleChart/js/main.js:35-36 | a string made only of white space trims to the empty string |
| Text.Split | Projet/bubbleChart/js/main.js:58-59 | `split(sep)` returns at least one piece and no piece contains the separator |
| Text.JoinSplit | Projet/bubbleChart/js/main.js:58-59 | joining the pieces of a split with the same separator gives back the string |
| Text.SplitJoin | Projet/bubbleChart/js/main.js:58-59 | splitting a join of separator-free pieces gives back the pieces |
| Text.Lower | Projet/bubbleChart/js/main.js:166 | `toLowerCase` on the Basic Latin and Latin-1 capitals (A–Z, À–Þ without ×), each character mapped on its own, so the length is kept for these; other characters are left as they are |
| Text.LowerIdempotent | Projet/bubbleChart/js/main.js:151-153 | lower-casing twice is lower-casing once |
| Text.Contains | Projet/bubbleChart/js/main.js:166 | `includes` holds exactly when the query occurs at some position |
| Text.CollapseThenDelete | Projet/bubbleChart/js/main.js:54-55 | turning `""` into `"` before deleting every quote changes nothing |
| Text.DeleteQuotesSpec | Projet/bubbleChart/js/main.js:55 | after deleting quotes no quote is left and every character comes from the input; a quote-free string is unchanged |
| Tally.Keep | Projet/Cyril/JS/script.js:1562-1594 | `filter` keeps exactly the elements that pass, and never lengthens |
| Tally.KeepIsSubsequence | Projet/Cyril/JS/script.js:1562-1594 | `filter` keeps the elements in their order |
| Tally.KeepPartition | Projet/bubbleChart/js/main.js:560-563 | filtering by a test and by its negation splits a list into two parts that together are the list |
| Tally.Distinct | Projet/Melanie/index.js:117-128 | the keys of a `d3.rollup`, in first-appearance order, have the same members as the input and no repeats |
| Tally.DistinctInOrder | Projet/Melanie/index.js:117-128 | the distinct values come in the order of their first appearance in the input |
| Tally.CountsCoverAll | Projet/Melanie/index.js:135-144 | counting each distinct value once accounts for every element exactly once |
| Tally.Rollup | Projet/Melanie/index.js:137-142 | a counting `d3.rollup` has one group per distinct value, with a positive size equal to its number of occurrences |
| Tally.RollupCoversAll | Projet/Melanie/index.js:135-144 | the group sizes of a rollup add up to the input size |
| Tally.TopKept | Projet/Cyril/JS/script.js:176-181 | filter, sort largest first and cut to k: as many elements as pass, capped at k, sorted, drawn from the input; a passing element is left out only when k elements at least as large are kept |
| Tally.SortDesc | Projet/Cyril/JS/script.js:609 | the sort by value, largest first, is a permutation of its input and is ordered |
| Numerals.NatToString | Projet/Cyril/JS/script.js:647 | `String(n)` is a non-empty string of decimal digits without a leading zero |
| Numerals.NatToStringRoundTrip | Projet/Cyril/JS/script.js:647 | reading the decimal digits of `String(n)` back gives `n` |
| Numerals.IntToStringInjective | Projet/Cyril/JS/script.js:647 | different years are written differently |
| Numerals.Tenths | Projet/Cyril/JS/script.js:651 | the tenths of `toFixed(1)`: `10x` rounded half up to a whole number |
| Numerals.ToFixed1RoundTrip | Projet/Cyril/JS/script.js:651 | `x.toFixed(1)` reads back as a number within 0.05 of `x` |
| CrossFilter.ParseArrayField | Projet/Cyril/JS/script.js:120-135 | `""` gives `[]`; a non-array JSON value gives `[]`; a JSON array gives its non-empty items in order, each as many times as it occurs, and drops every empty one; only when `JSON.parse` throws does the bracket and comma fallback run; no item is ever empty |
| CrossFilter.NonEmptyCount | Projet/Cyril/JS/script.js:125 | `filter(Boolean)` on strings keeps each non-empty item exactly as many times as it occurs and drops every empty one |
| CrossFilter.SplitFallback | Projet/Cyril/JS/script.js:127-132 | every item of the fallback is non-empty and free of commas |
| CrossFilter.CleanPiecesNoComma | Projet/Cyril/JS/script.js:127-132 | trimming and stripping quotes adds no character, so pieces split on commas stay free of commas |
| CrossFilter.FallbackRoundTrip | Projet/Cyril/JS/script.js:127-132 | writing clean items as `[a,b,c]` and reading them back with the fallback gives the items |
| CrossFilter.FallbackBareWord | Projet/Cyril/JS/script.js:127-132 | a bare word that JSON cannot read becomes a one-item list |
| CrossFilter.YearRangeCrossing | Projet/Cyril/JS/script.js:1555-1566 | a finite year passes iff it lies between the two slider values, whichever is larger; swapping them changes nothing |
| CrossFilter.OppositeIsSelection | Projet/Cyril/JS/script.js:1521-1544 | the availability test, written without the empty-list guard, accepts the same movies as the filter test |
| CrossFilter.StrictImpliesLoose | Projet/Cyril/JS/script.js:1570-1590 | a movie that passes strict mode passes default mode |
| CrossFilter.StrictNeedsEveryGenre | Projet/Cyril/JS/script.js:1570-1579 | strict mode over {Action, Drama} rejects an Action-only movie that default mode keeps, and keeps a movie with both |
| CrossFilter.FilteredData | Projet/Cyril/JS/script.js:1552-1595 | `updateFilteredData` keeps, in order, exactly the movies in the year range that pass both list tests, each one as many times as it occurs in the input |
| CrossFilter.FilteredDataSymmetric | Projet/Cyril/JS/script.js:1558-1560 | crossing the sliders does not change the filtered list |
| CrossFilter.NoFilterKeepsAll | Projet/Cyril/JS/script.js:1552-1595 | with nothing selected and no sliders, every movie is kept |
| CrossFilter.AvailableMembership | Projet/Cyril/JS/script.js:1501-1548 | a value is available iff some movie in the year range that passes the other list's selection carries it |
| CrossFilter.AvailableIgnoresOwnSelection | Projet/Cyril/JS/script.js:1516-1544 | a list's own selection and strict flag never change what it offers |
| CrossFilter.FilteredValuesAvailable | Projet/Cyril/JS/script.js:1501-1548 | every value of a displayed movie stays available in its list |
| CrossFilter.AvailableWithoutOpposite | Projet/Cyril/JS/script.js:1516-1544 | with nothing selected in the other list, a list offers every value of the movies in the year range |
| FilterSession.WithSelected | Projet/Cyril/JS/script.js:1439-1449 | replacing one list's selected set leaves the other list and both strict flags as they were |
| FilterSession.UndoRedoInverse | Projet/Cyril/JS/script.js:280-323 | undo then redo restores the state before the undo, and redo then undo restores the state before the redo; each is a no-op on an empty stack |
| FilterSession.UndoRestoresSnapshot | Projet/Cyril/JS/script.js:281-301 | undo restores exactly the last snapshot and saves the state it leaves on the redo stack; undo and redo keep the number of saved states |
| FilterSession.UndoClear | Projet/Cyril/JS/script.js:324-337 | clear then undo gives back the selection and the undo stack from before the clear |
| FilterSession.NewActionForgetsRedo | Projet/Cyril/JS/script.js:1342-1351 | clear, a strict checkbox and a tag click each push exactly one snapshot of the current state and empty the redo stack, so undo takes them back |
| FilterSession.TagToggleTwice | Projet/Cyril/JS/script.js:1066-1077 | clicking the same table tag twice gives back the selection |
| FilterSession.RenderedIsPartition | Projet/Cyril/JS/script.js:1383-1388 | the shown list holds every item exactly once: the selected ones, then the available unselected ones, then the rest |
| FilterSession.PressItem | Projet/Cyril/JS/script.js:1430-1453 | a press starts a drag on the pressed item of that list |
| FilterSession.PressTogglesOnce | Projet/Cyril/JS/script.js:1430-1453 | a press on a selectable item toggles it, takes exactly one snapshot, and leaves the other list alone; a press on a greyed-out item changes nothing |
| FilterSession.EnterRules | Projet/Cyril/JS/script.js:1464-1484 | entering an item never takes a snapshot; it adds only available unselected items in add mode and removes only selected items in remove mode |
| FilterSession.EnterAllKeepsStacks | Projet/Cyril/JS/script.js:1464-1484 | a drag over any items leaves both history stacks as they were |
| FilterSession.GestureIsOneUndoStep | Projet/Cyril/JS/script.js:1430-1484 | one undo takes back a whole press-and-drag gesture |
| FilterSession.DragSelectsTwo | Projet/Cyril/JS/script.js:1430-1484 | pressing an available item and dragging onto another selects both |
| FilterSession.RightClickOnlyRemoves | Projet/Cyril/JS/script.js:1486-1496 | right click removes only the clicked item, only if it is selected, with one snapshot; otherwise nothing changes |
| FilterSession.PressItemAsWritten | Projet/Cyril/JS/script.js:1430-1453 | the press as written changes the selection and the undo stack exactly as the press rule does, and leaves the gesture with no drag mode |
| FilterSession.DragIsInertAsWritten | Projet/Cyril/JS/script.js:1430-1484 | with the press handler as written, no drag after a press changes the selection or the stacks |
| FilterSession.InertStaysInert | Projet/Cyril/JS/script.js:1464-1467 | once the drag flags read as not dragging, entering items changes nothing |
| FilterSession.DragExample | Projet/Cyril/JS/script.js:1430-1484 | pressing "Action" and dragging onto "Drama" selects only "Action" as written, and both once corrected |
| FilterSession.Dashboard.constructor | Projet/Cyril/JS/script.js:49-63 | the page starts with nothing selected, empty stacks, every movie shown, and both lists rendered with the values every movie offers |
| FilterSession.Dashboard.PushFiltersHistory | Projet/Cyril/JS/script.js:1342-1351 | the snapshot of the selection goes on top of the undo stack and the redo stack is emptied |
| FilterSession.Dashboard.UpdateFilteredData | Projet/Cyril/JS/script.js:1552-1595 | the shown movies become the filter of the table by the current state |
| FilterSession.Dashboard.GetAvailableItems | Projet/Cyril/JS/script.js:1501-1548 | the loop builds exactly the available set of the specification |
| FilterSession.Dashboard.SkipsMovie | Projet/Cyril/JS/script.js:1512-1544 | a movie is skipped exactly when it fails the year window or the opposite list's selection, strict or not |
| FilterSession.Dashboard.SetSelected | Projet/Cyril/JS/script.js:1439-1449 | one list's selected set is replaced; the other list, the strict flags, the stacks and the shown movies are kept |
| FilterSession.Dashboard.Undo | Projet/Cyril/JS/script.js:281-301 | the history moves one step back, both lists are rendered again and the shown movies are refiltered; on an empty stack nothing changes |
| FilterSession.Dashboard.Redo | Projet/Cyril/JS/script.js:303-323 | the history moves one step forward, both lists are rendered again and the shown movies are refiltered; on an empty stack nothing changes |
| FilterSession.Dashboard.Clear | Projet/Cyril/JS/script.js:325-338 | one snapshot, then both lists emptied, both strict flags off, both lists rendered again, and every movie in range shown |
| FilterSession.Dashboard.SetStrict | Projet/Cyril/JS/script.js:340-356 | one snapshot, then the flag set and the shown movies refiltered; the lists are not rendered again and keep the availability of their last render |
| FilterSession.Dashboard.ToggleTag | Projet/Cyril/JS/script.js:1066-1077 | one snapshot, then the tag toggled in its list, both lists rendered again, and the shown movies refiltered |
| FilterSession.Dashboard.Press | Projet/Cyril/JS/script.js:1430-1453 | the page state after a press is the press rule as written, applied to the available set the list was last rendered with (not the current state): the selection and the undo stack change as the press rule says, the re-render leaves no drag mode, the pending change is kept for the release, and a change renders both lists again |
| FilterSession.Dashboard.Enter | Projet/Cyril/JS/script.js:1464-1484 | the page state after entering an item is the drag rule, applied to the available set of the last render; a change renders both lists again |
| FilterSession.Dashboard.Release | Projet/Cyril/JS/script.js:1396-1406 | releasing ends the drag and refilters when the gesture changed something or was a simple click; the lists are not rendered again |
| FilterSession.Dashboard.RightClick | Projet/Cyril/JS/script.js:1486-1496 | right click applies the removal rule, and renders the lists again and refilters only when something was removed |
| FilterSession.Dashboard.Reselect | Projet/Cyril/JS/script.js:1472-1482 | a drag step's change: one list's selected set is replaced and both lists are rendered again; the stacks, the shown movies and the drag are kept |
| FilterSession.Dashboard.ApplySelectionsToUI | Projet/Cyril/JS/script.js:1353-1359 | both lists are rendered with the available sets of the current selection and slider values; the history, the shown movies and the drag are kept |
| FilterSession.RenderedExample | Projet/Cyril/JS/script.js:1520-1528 | with companies "A" and "B" selected and strict mode off, a movie of company "A" offers its genre "G" |
| FilterSession.StrictExample | Projet/Cyril/JS/script.js:1520-1528 | once strictProd is on, no movie of the example has both companies, so no genre is offered |
| FilterSession.StrictToggleThenPress | Projet/Cyril/JS/script.js:1415-1443 | from lists rendered with "A" and "B" selected, ticking strictProd then pressing genre "G" selects "G" with two more snapshots, although the current state offers no genre |
| Hierarchy.GroupOrderMembership | Projet/Cyril/JS/script.js:140-173 | a group exists iff some movie with a finite positive size value names it |
| Hierarchy.ContributionSources | Projet/Cyril/JS/script.js:156-171 | every film of a group comes from an eligible movie that names the group, with its size value |
| Hierarchy.TopFilms | Projet/Cyril/JS/script.js:176-181 | a group keeps as many films as it has positive ones, capped at 250, largest first, all positive and drawn from its own films; a positive film is left out only when 250 films at least as large are kept |
| Hierarchy.GroupsOf | Projet/Cyril/JS/script.js:175-182 | one group per name, in the order of the names: the group at position i is named `order[i]`, its films are the top films of its contribution and its total is their summed value |
| Hierarchy.KeepSelected | Projet/Cyril/JS/script.js:184-190 | in strict mode with a non-empty selection every selected group remains, as often as it occurred and in order, and no other; otherwise the list is unchanged |
| Hierarchy.Rank | Projet/Cyril/JS/script.js:192-199 | as many groups as have a positive total, capped at 18, largest total first, drawn from the input; a positive group is left out only when 18 groups at least as large are kept |
| Hierarchy.CandidateOf | Projet/Cyril/JS/script.js:140-190 | the group of every name an eligible movie gives, when strict mode shows it, competes for a place |
| Hierarchy.CandidateIs | Projet/Cyril/JS/script.js:140-190 | every competing group is the group of its own name, named by an eligible movie and shown in strict mode |
| Hierarchy.HierarchyOf | Projet/Cyril/JS/script.js:138-203 | the root's children: as many groups as shown candidates with a positive total, capped at 18, ordered by total; each is the group of its own name, named by an eligible movie and shown in strict mode; a shown group with a positive total is missing only when 18 groups at least as large are kept |
| Hierarchy.BuildGroupMap | Projet/Cyril/JS/script.js:140-173 | the loop fills the map with one list per group name in first-seen order, each list the films pushed for that name |
| Hierarchy.PushFilm | Projet/Cyril/JS/script.js:156-171 | the inner loop appends the film to the list of every non-empty name of the movie and creates missing lists |
| Hierarchy.BuildHierarchy | Projet/Cyril/JS/script.js:138-203 | the method's result is the specified hierarchy |
| DataTable.Dedup | Projet/Cyril/JS/script.js:618-627 | de-duplication by title leaves one film per title, drawn from the input, whose value is at least that of every film of that title |
| DataTable.DedupInOrder | Projet/Cyril/JS/script.js:618-630 | the rows come in the order their titles first appear in the input (the insertion order of the `Map`) |
| DataTable.DedupTieKeepsFirst | Projet/Cyril/JS/script.js:620-626 | on a tie the first film stays: the kept row of a title comes no later than any film of that title whose value reaches it, because the replacement test is a strict `>` |
| DataTable.DedupAccInvariant | Projet/Cyril/JS/script.js:620-626 | the `reduce` keeps one entry per title seen, each an input film of that title with the largest value so far |
| DataTable.AbsorbKeeps | Projet/Cyril/JS/script.js:621-625 | one call of the `reduce` callback keeps one entry per title, each the largest film of its title seen so far |
| DataTable.DedupOfDistinct | Projet/Cyril/JS/script.js:618-627 | films with distinct titles pass through unchanged and in order |
| DataTable.DedupKeepsLarger | Projet/Cyril/JS/script.js:622-624 | of two films with the same title the one with the larger value is kept, in either order |
| DataTable.WithFilterSet | Projet/Cyril/JS/script.js:967-971 | changing one column's filter set leaves the others as they were |
| DataTable.FilterRows | Projet/Cyril/JS/script.js:640-667 | `applyTableFilters` keeps, in order, exactly the rows that pass every non-empty column filter, each one as many times as it occurs in the input |
| DataTable.NoFiltersKeepAll | Projet/Cyril/JS/script.js:640-667 | with every column filter empty, every row is kept |
| DataTable.UniqueValuesMembership | Projet/Cyril/JS/script.js:731-748 | a value is offered for a column iff some row carries it, and the empty text is never offered for year or note |
| DataTable.OfferedValuesMatchRows | Projet/Cyril/JS/script.js:731-748 | a non-empty value is offered iff choosing it alone leaves some row |
| DataTable.YearFilterSelectsYear | Projet/Cyril/JS/script.js:646-649 | choosing the year `String(y)` keeps exactly the rows of year `y` |
| DataTable.TotalPages | Projet/Cyril/JS/script.js:765 | `Math.ceil(n / 10)`: the fewest pages of ten that hold `n` rows |
| DataTable.PageSlice | Projet/Cyril/JS/script.js:766-768 | a page holds at most ten rows |
| DataTable.PagesCoverRows | Projet/Cyril/JS/script.js:765-768 | every row appears on its page, in range; pages in range are non-empty and pages past the end are empty |
| DataTable.PageBefore | Projet/Cyril/JS/script.js:1139-1144 | "previous" stays in range, goes back one page above page 1 and stays put on page 1 or below |
| DataTable.PageAfter | Projet/Cyril/JS/script.js:1164-1169 | "next" stays in range, goes forward one page before the last page and stays put on the last page or beyond |
| DataTable.UniqueNamesAfterSort | Projet/Cyril/JS/script.js:601-609 | sorting de-duplicated films keeps their titles distinct |
| DataTable.Table.constructor | Projet/Cyril/JS/script.js:614-638 | an empty table on page 1 |
| DataTable.Table.CreateDataTable | Projet/Cyril/JS/script.js:614-638 | the base rows become the de-duplicated films, the column filters are reset, all rows are shown from page 1 |
| DataTable.Table.CreateDataTableForRoot | Projet/Cyril/JS/script.js:594-612 | the base rows are the films of the displayed groups, de-duplicated and sorted by value, largest first |
| DataTable.Table.ApplyTableFilters | Projet/Cyril/JS/script.js:640-679 | the shown rows become the filtered base rows, page 1, which is in range |
| DataTable.Table.ToggleFilterValue | Projet/Cyril/JS/script.js:965-987 | the value is toggled in its column's set, the rows refiltered, page 1 |
| DataTable.Table.ShowRowsAsWritten | Projet/Cyril/JS/numeric_filter_overlay.js:215-223 | the overlay's row filter as written: the rows are replaced and the page is left as it was |
| DataTable.Table.ShowRows | Projet/Cyril/JS/numeric_filter_overlay.js:215-223 | the rows are replaced and the page goes back to 1, which is in range |
| DataTable.Table.PrevPage | Projet/Cyril/JS/script.js:1139-1144 | the page becomes the previous page and nothing else changes |
| DataTable.Table.NextPage | Projet/Cyril/JS/script.js:1164-1169 | the page becomes the next page and nothing else changes |
| NumericOverlay.OperatorsFor | Projet/Cyril/JS/numeric_filter_overlay.js:21-43 | the buttons are ≥, ≤ and "between", plus "exact" iff the column is year or note, without repeats |
| NumericOverlay.WithinSymmetric | Projet/Cyril/JS/numeric_filter_overlay.js:203-212 | swapping the two "between" inputs selects the same values |
| NumericOverlay.WithinIsBothSides | Projet/Cyril/JS/numeric_filter_overlay.js:203-212 | "between" selects exactly the values that are both ≥ the smaller and ≤ the larger input |
| NumericOverlay.NearSelectsOneYear | Projet/Cyril/JS/numeric_filter_overlay.js:131-137 | "exact" with a tolerance of 0.01 can select two whole-number values only if they are equal |
| NumericOverlay.Refill | Projet/Cyril/JS/numeric_filter_overlay.js:131-137 | the `forEach` refill builds exactly the set of values whose number meets the criterion |
| NumericOverlay.MetricRows | Projet/Cyril/JS/numeric_filter_overlay.js:215-223 | the row form keeps, in order, exactly the rows whose field is present and meets the criterion, each one as many times as it occurs in the input |
| NumericOverlay.WithinRowsTwoSteps | Projet/Cyril/JS/numeric_filter_overlay.js:215-223 | "between" on rows ignores the order of its inputs and equals ≥ the smaller followed by ≤ the larger |
| NumericOverlay.GteLteCover | Projet/Cyril/JS/numeric_filter_overlay.js:282-292 | every row with the field is kept by ≥ v or by ≤ v, and by both iff its field equals v |
| NumericOverlay.Facets.constructor | Projet/Cyril/JS/numeric_filter_overlay.js:125 | both the year and the note selections start empty |
| NumericOverlay.Facets.SetSelected | Projet/Cyril/JS/numeric_filter_overlay.js:125-129 | the year or note selection is replaced and the other is kept |
| NumericOverlay.ReplaceSelection | Projet/Cyril/JS/numeric_filter_overlay.js:125-138 | the selection and the table filter set of the column both become the matching values; the shown rows and the page stay as they are |
| NumericOverlay.ApplyExact | Projet/Cyril/JS/numeric_filter_overlay.js:120-143 | a non-numeric input changes nothing; otherwise one snapshot, the selection replaced by the values within 0.01, and the dashboard refiltered; the base rows, the rows shown and the page never change |
| NumericOverlay.ApplyBetween | Projet/Cyril/JS/numeric_filter_overlay.js:188-229 | a non-numeric input changes nothing; otherwise one snapshot, then the year/note selection replaced by the values in the range, or the metric rows filtered with the page left as it was (as written, so it can fall out of range); the base rows never change |
| NumericOverlay.ApplyOneSided | Projet/Cyril/JS/numeric_filter_overlay.js:252-298 | a non-numeric input changes nothing; otherwise one snapshot, then the year/note selection replaced by the values ≥ (≤) the input, or the metric rows filtered with the page left as it was (as written, so it can fall out of range); the base rows never change |
| NumericOverlay.BudgetedLast | Projet/Cyril/JS/numeric_filter_overlay.js:282-292 | rows without a budget under distinct titles, then one with a budget: they are their own de-duplication, and "budget ≥ 1" keeps only the last |
| NumericOverlay.StalePageAsWritten | Projet/Cyril/JS/numeric_filter_overlay.js:282-292 | on page 2 of 11 rows with distinct titles (so they are their own de-duplication), "budget ≥ 1" leaves one row, page 2 is out of range, and the page shown as written is empty |
| BubbleChart.NumOrNull | Projet/bubbleChart/js/main.js:22-25 | null exactly when the conversion is not finite, the number otherwise |
| BubbleChart.StripOuterBrackets | Projet/bubbleChart/js/main.js:53 | a bracketed string loses exactly its outer brackets |
| BubbleChart.ListFallback | Projet/bubbleChart/js/main.js:52-62 | every item of the hand-made fallback is non-empty, trimmed, and free of commas and quotes |
| BubbleChart.FallbackCollapseRedundant | Projet/bubbleChart/js/main.js:52-56 | the fallback's `""` collapse has no effect, since every quote is deleted next |
| BubbleChart.ParseJsonList | Projet/bubbleChart/js/main.js:30-63 | absent and non-string cells give `[]`; arrays pass unchanged; blank text gives `[]`; a first parse giving an array wins; otherwise a second parse, with `""` collapsed, giving an array wins; when both parses fail, the hand-made fallback runs on the trimmed text |
| BubbleChart.PlainListRoundTrip | Projet/bubbleChart/js/main.js:52-62 | clean items written as `[a,b]` come back unchanged through the fallback |
| BubbleChart.PythonListRoundTrip | Projet/bubbleChart/js/main.js:52-62 | clean items written Python-style, `['a', 'b']`, come back unchanged through the fallback |
| BubbleChart.ParseRow | Projet/bubbleChart/js/main.js:77-98 | the row keeps its index and title, its numbers through `numOrNull` and its lists through `parseJsonList`; the profit exists iff budget and revenue are both finite, and then budget + profit = revenue |
| BubbleChart.PrimaryGenre | Projet/bubbleChart/js/main.js:66-71 | the first genre, or "non renseigné" for an empty list |
| BubbleChart.FilterMovies | Projet/bubbleChart/js/main.js:150-195 | keeps, in order, exactly the movies that pass the year, title, company and genre tests, each one as many times as it occurs in the input |
| BubbleChart.YearWindowInclusive | Projet/bubbleChart/js/main.js:158-163 | with both bounds set, a movie passes iff it has a year within them, bounds included |
| BubbleChart.EmptyFormKeepsAll | Projet/bubbleChart/js/main.js:150-195 | an empty form keeps every movie |
| BubbleChart.TitleIgnoresCase | Projet/bubbleChart/js/main.js:165-168 | the title test does not depend on the case of the title or of the typed text |
| BubbleChart.QueryOfLower | Projet/bubbleChart/js/main.js:117-120 | lower-casing the typed text first does not change the query |
| BubbleChart.LowerTrim | Projet/bubbleChart/js/main.js:117 | trimming and lower-casing commute |
| BubbleChart.GenresIgnoreCase | Projet/bubbleChart/js/main.js:151-153 | the genre test does not depend on the case of the checked genres |
| BubbleChart.TopN | Projet/bubbleChart/js/main.js:671-673 | `slice(0, topN)`: a prefix, the whole list for no or zero limit, the first N for positive N, and all but the last -N for negative N |
| BubbleChart.ChartAndPanelSplit | Projet/bubbleChart/js/main.js:558-563 | every filtered movie goes to exactly one of the chart and the missing panel |
| BubbleChart.MissingPages | Projet/bubbleChart/js/main.js:582 | `Math.ceil(n / 36)`: the fewest pages of 36 that hold `n` movies |
| BubbleChart.Clamp | Projet/bubbleChart/js/main.js:584-585 | the page ends in range and a page in range is left alone |
| BubbleChart.PageOf | Projet/bubbleChart/js/main.js:587-589 | a page holds at most 36 movies of the list, and pages in range are non-empty |
| BubbleChart.EveryMovieHasAPage | Projet/bubbleChart/js/main.js:581-589 | every missing movie appears on its page, which is in range |
| BubbleChart.Step | Projet/bubbleChart/js/main.js:646-652 | prev/next stay in range, move by one when not at the edge and stay put at it |
| BubbleChart.MissingPanel.constructor | Projet/bubbleChart/js/main.js:15 | the missing panel starts on its first page, with no footer buttons |
| BubbleChart.MissingPanel.Render | Projet/bubbleChart/js/main.js:552-655 | with missing movies: the page is clamped into range, the shown movies are that page of the sorted missing movies, and the footer buttons capture these filters, the page count and the page shown; with none: nothing is shown, and the page and the previous footer stay |
| BubbleChart.MissingPanel.Navigate | Projet/bubbleChart/js/main.js:643-654 | a click on an enabled footer button (not "<" on the footer's first page, not ">" on its last) steps the page within the page count the button captured and redraws the panel with the filters it captured, those of the last render that found missing movies |
| BubbleChart.MissingPanel.RenderClearingFooter | Projet/bubbleChart/js/main.js:565-569 | the corrected render: footer buttons exist iff the list drawn is not empty, and they always hold the filters of that list |
| BubbleChart.ApplyFiltersAndRender | Projet/bubbleChart/js/main.js:665-681 | the chart gets the drawable movies of the top-N filtered list; the panel's page is always reset to 0; with missing movies it shows their first page and the footer captures these filters on page 0, and with none it shows nothing and keeps the previous footer |
| BubbleChart.StaleFooterAsWritten | Projet/bubbleChart/js/main.js:565-569 | after filters leaving two or more pages of missing movies (footer built on page 0, ">" enabled), then filters leaving none, a click on ">" draws the second page of the earlier list over the "no film" message |
| BubbleChart.DrawnOrListed | Projet/bubbleChart/js/main.js:669-673 | no movie is both drawn and listed as missing; without a top-N cut every filtered movie is one or the other |
| Heatmap.DecadeOf | Projet/Melanie/index.js:107 | a finite year's decade is a whole multiple of ten with decade ≤ year < decade + 10; NaN and the infinities pass through |
| Heatmap.Prepare | Projet/Melanie/index.js:94-107 | a line prepares iff both list cells parse to arrays; the lists are the parsed arrays and the decade is that of the converted year |
| Heatmap.PrepareData | Projet/Melanie/index.js:93-110 | the loop converts every row in place and succeeds iff every row prepares; otherwise it stops at the first failing row, with the rows before it converted and the rest untouched |
| Heatmap.Tag | Projet/Melanie/index.js:115 | one (genre, period) pair per listed genre |
| Heatmap.Pairs | Projet/Melanie/index.js:115 | the exploded list has one pair per (movie, genre) entry |
| Heatmap.Periods | Projet/Melanie/index.js:135-142 | one period per movie, the key `computeTotals` groups by |
| Heatmap.AggregateCells | Projet/Melanie/index.js:113-132 | there is a cell for a genre and a period iff some movie lists the genre in that period |
| Heatmap.AggregateCountsAddUp | Projet/Melanie/index.js:113-132 | the cell counts add up to the number of (movie, genre) entries |
| Heatmap.TotalsAddUp | Projet/Melanie/index.js:135-144 | the period totals add up to the number of movies |
| Heatmap.CountPairsOfKept | Projet/Melanie/index.js:149-167 | filtering the movies never raises the count of a cell |
| Heatmap.PairsWithinPeriods | Projet/Melanie/index.js:241-244 | when no movie lists a genre twice, a cell counts at most the movies of its period |
| Heatmap.PairsWithinGenres | Projet/Melanie/index.js:231-245 | a cell counts at most the entries of its genre |
| Heatmap.PeriodRatioAtMostOne | Projet/Melanie/index.js:241-244 | every cell of a filtered view finds its period in the totals of all movies, with a total at least its count, so its period ratio is at most one when no movie lists a genre twice |
| Heatmap.GenreRatioAtMostOne | Projet/Melanie/index.js:231-245 | every cell of a filtered view finds its genre in the genre totals of all movies, with a total at least its count |
| Heatmap.FilterHeat | Projet/Melanie/index.js:159-165 | keeps, in order, exactly the movies that pass the decade, company and three minimum tests, each one as many times as it occurs in the input |
| Heatmap.GetFilteredData | Projet/Melanie/index.js:149-168 | the level is decades iff the choice is "all" |
| Heatmap.ChosenDecadeShowsItsYears | Projet/Melanie/index.js:157-160 | once a decade is chosen, every cell is a finite year within that decade |
| Heatmap.NotInformedLast | Projet/Melanie/index.js:259-265 | any order of the distinct genres that agrees with the comparator ends with "Non renseigné" |
| Heatmap.TopTen | Projet/Melanie/index.js:448-449 | at most ten, best first, drawn from the input, all of it when it has ten or fewer, and none left out scores above one kept |
| Heatmap.GlobalTopTen | Projet/Melanie/index.js:421-432 | ten movies, or all of them when there are fewer, drawn from the data; none left out scores above one kept |
| Heatmap.GetMoviesForCellAsWritten | Projet/Melanie/index.js:434-450 | ten movies of the cell (genre listed, period `===` the clicked one), or all of them when there are fewer, drawn from the data; none of the cell left out scores above one kept, scores taken against the cell |
| Heatmap.UndatedCellListsNothingAsWritten | Projet/Melanie/index.js:434-438 | one movie without a year makes a cell of count one whose click, as written, lists nothing |
| Heatmap.GetMoviesForCell | Projet/Melanie/index.js:434-450 | ten movies of the clicked cell, or all of them when there are fewer, drawn from the data; a cell movie is left out only when ten are shown, none scoring above one kept |
| Heatmap.ClickedCellListsMovies | Projet/Melanie/index.js:557-563 | every drawn cell lists at least one movie when clicked |

## Left out

- Rendering is not modelled: d3 and DOM markup, tooltips, legends, the search boxes (`filterListItems`), zoom and pan. It is presentation or floating-point view math.
- CSV loading, `init`/`loadData` and `Projet/script.js` are not modelled. They are I/O with no logic.
- `JSON.parse`, `+text` and `parseFloat` are parameters, not definitions. Only string items of a parsed array are modelled.
- `localeCompare` orders are not modelled:
  - the list sorts of `renderMultiList`;
  - the header-click sort `sortTableData` (`Projet/Cyril/JS/script.js:681-729`), which compares most columns numerically and runs only when a column header is clicked;
  - the sort of `getUniqueValuesForColumn` (its values are a set here);
  - the alphabetical part of the genre axis (a parameter).
- Averages and scores are not modelled: `d3.mean` cell averages, `getBayesianScore` and the size-legend quantiles. The top-ten lists take the score as a parameter that sees the movies it ranks. A NaN score is outside `real`.
- Heatmap.AggregateData: cells come in first-appearance order of (genre, period), not in d3's nesting order (genre first, then period). Their set and their counts are exact.
- Text.Lower: lower-cases only A–Z and À–Þ (except ×). JavaScript's `toLowerCase` applies the whole Unicode case mapping: other Latin blocks, Greek, Cyrillic, Armenian and so on are lowered there and kept here, and a few characters change the length ("İ", U+0130, becomes two code points). The genre, title and company tests built on it (`BubbleChart.MatchesIgnoringCase`, `BubbleChart.TitlePasses`, `BubbleChart.CompanyPasses` and `Heatmap.HeatPasses`) inherit that restriction.
- Heatmap.PrepareData: a row whose `JSON.parse` throws has its numbers already converted in the source; the model leaves that row untouched. The page stops there in both. A list cell that parses to something other than an array (a number, a string, `null`, an object) also stops the model at that row. The source stores such a value and goes on; it fails later, in one of two places. A `genres` cell that is not an array fails in `genres.map` (`Projet/Melanie/index.js:113`) as soon as the page loads: `initializeVisualization` aggregates all of `originalData` (`Projet/Melanie/index.js:35`), and every render maps the genres of all of `originalData` again (`Projet/Melanie/index.js:231-232`), whatever the filter. A `production_companies` cell that is not an array fails in `production_companies.some` (`Projet/Melanie/index.js:159-165`) only when a company is typed and the movie passes the decade test; the load reads it with `flatMap`, which accepts it (`Projet/Melanie/index.js:28`). The model does not capture these later failures.
- Numerals.Tenths: rounds the exact real half up. JavaScript's `toFixed(1)` rounds the binary double, so the text "8.45" prints as "8.4" there (its double lies just below 8.45) and as "8.5" here if `+text` returns 8.45. The reals stand for the doubles' exact values; the conversion from decimal text to the nearest double is not modelled.
- Heatmap.AtLeast and the other heatmap comparisons read a missing form value as `toNumber("")`, which is 0 in JavaScript. The oracle is not constrained to that.
- The overlay's year and note forms (`Projet/Cyril/JS/numeric_filter_overlay.js:203-212`, `263-279`) rebuild the selection and the table filter set but do not refilter the table rows. The model keeps that: `currentTableData` is unchanged until the next `applyTableFilters`.
- `selectedYears` and `selectedNotes` are used by the overlay without being declared in the files modelled here; `NumericOverlay.Facets` holds them.
- The overlay's history snapshot holds only the genre and company selections, as `pushFiltersHistory` writes it. The overlay's own changes cannot be undone, neither in the source nor in the model.
- The overlay inputs are `parseFloat` of the typed text as `Option<real>`. Infinite inputs are not modelled.
- `activeTableFilters` (the overlay's open-panel marker) is not modelled. It is UI state.
- Films in the bubble chart, the circle groups and the data table carry finite real values. `Number.isFinite` is decided when a row is parsed (`BubbleChart.NumOrNull`, `Hierarchy.Eligible`).
- FilterSession.Dashboard: `updateVisualization` (Projet/Cyril/JS/script.js:418-429) is not composed into the dashboard methods. After undo, redo, clear, the strict checkboxes, tag clicks and the list gestures (script.js:299, 321, 335, 344, 352, 1076, 1399, 1459, 1493) the source also rebuilds the circle hierarchy and the data table (`createDataTableForRoot`, then `createDataTable`: base rows replaced, column filters cleared, page 1). Each of those steps is modelled on its own (`Hierarchy.BuildHierarchy`, `DataTable.Table.CreateDataTableForRoot`), but `Undo`, `Redo`, `Clear`, `SetStrict`, `ToggleTag`, `Press`, `Enter`, `Release` and `RightClick` state only the selection, history, rendered lists and shown movies.
- BubbleChart.MissingPanel.Navigate: `raw` is a parameter, not a field. So the model does not tie the page count a footer button captured to the list its filters give now; in the source `state.rawMovies` never changes after loading, so the two agree.

## Findings

| source | as written | input that shows it | evidently intended | confidence | as-written member | corrected member |
|---|---|---|---|---|---|---|
| Projet/Cyril/JS/script.js:1430-1484 | the press handler calls `applySelectionsToUI`, which rebuilds both lists with fresh drag variables, so `mouseenter` on the new items always sees "not dragging" | press "Action" (available, unselected), drag onto "Drama" (available): only "Action" is selected | a drag adds every available item it passes over (or removes, in remove mode) | medium, not executed | FilterSession.DragIsInertAsWritten | FilterSession.DragSelectsTwo |
| Projet/Cyril/JS/numeric_filter_overlay.js:282-292 | the budget/revenue/popularity forms replace `currentTableData` but keep `currentPage` | 11 rows with distinct titles, on page 2, apply "budget ≥ 1" keeping one row: page 2 of 1, and the table is empty | go back to page 1, as `applyTableFilters` does | high, not executed | NumericOverlay.StalePageAsWritten | DataTable.Table.ShowRows |
| Projet/Melanie/index.js:434-438 | `getMoviesForCell` matches the period with `===`, but `d3.rollup` groups NaN years together, so the cell of movies without a year cannot list them | one movie with genres ["Drame"] and the year text "n/a" (`+"n/a"` is NaN; an empty year would give 0): cell ("Drame", NaN) of count 1, click lists nothing | the click lists the movies the cell counts | low, not executed | Heatmap.UndatedCellListsNothingAsWritten | Heatmap.ClickedCellListsMovies |
| Projet/bubbleChart/js/main.js:565-569 | with no missing movie the panel shows its message and returns before rebuilding the footer, so the previous "<" and ">" buttons stay, holding the earlier filters and page count; when that footer was built on a page other than the last, its ">" is still enabled | filters leaving 37 missing movies, then filters leaving none (the message is shown), then ">": page 2 of the earlier list replaces the message | the footer goes with the list, so the buttons always page through the list on screen | high, not executed | BubbleChart.StaleFooterAsWritten | BubbleChart.MissingPanel.RenderClearingFooter |
