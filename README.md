# Todo list state, modelled in Dafny

This project models the state logic of a browser todo app (`scr/js/app.js`).
The app keeps one global `state` object. Its `todos` field is an ordered list of
`{id, text, completed, createdAt}` records, and `currentFilter` is the name of the
active view. The handlers change that state:

- start-up seeding of an empty list;
- adding a todo from the input field (trimmed, rejected when blank, put in front);
- toggling, deleting and clearing completed todos (rebuilt with `map`/`filter`);
- setting the filter;
- moving a todo by drag and drop (two `splice` calls).

The page then derives what it draws: the visible todos, the "N item(s) left"
summary and the empty-state text.

Modules, one per file:

- `JsText` (`js_text.dfy`): `String.prototype.trim` over ECMAScript's whitespace
  and line-terminator code points.
- `Sequences` (`sequences.dfy`): `Array.prototype.filter`, and the splice shapes
  used by the drop handler. This includes JavaScript's clamping of a negative
  `splice` start. Also order-preserving subsequences and moves.
- `Todos` (`todos.dfy`): the `Todo` record, the seed list, add, toggle, delete and
  clear-completed as functions on the list. Also the data invariant `WellFormed`
  (distinct ids; every text non-empty with no surrounding whitespace) and lemmas
  that each operation keeps it.
- `View` (`view.dfy`): the filter value, the projection, the active count and its
  wording, the empty-state text, and the choice `renderTodos` makes between the
  empty state and the list.
- `DragDrop` (`drag_drop.dfy`): the reorder as the drop handler writes it, and a
  bounds-checked `Reorder` that the state class uses.
- `Store` (`store.dfy`): class `TodoState` with fields `todos`, `currentFilter` and
  `saved`. `saved` is what local storage holds under the `todos` key. One method
  per handler.
- `Wrappers` (`wrappers.dfy`): `Option` and `Result`.

Inputs from outside are parameters. The typed text, the new id (`Date.now()`),
the timestamp (`new Date().toISOString()`), the parsed storage value, the filter
name a button carries, and the two drag positions are all passed in.

Behaviour of the code worth knowing:

- `toggleTodo` flips every todo carrying the id, not only the first one;
- every filter string other than `"active"` and `"completed"` shows the whole
  list and the "No todos yet" text, including `"all"`;
- a stored value that does not parse as JSON is not caught;
- `addTodo` returns nothing.

## Model

| member | source | states |
|---|---|---|
| `JsText.IsWhitespace` | scr/js/app.js:75 | no contract of its own: the code points trim strips (ECMAScript WhiteSpace and LineTerminator); `TrimSplits`, `TrimUnique` and `TrimEmptyIffWhitespace` state trim's behaviour over this set |
| `JsText.Trim` | scr/js/app.js:75 | the result is no longer than the input, and it is empty or starts and ends with a non-whitespace character |
| `JsText.TrimSplits` | scr/js/app.js:75 | the input is whitespace, then trim's result, then whitespace |
| `JsText.TrimUnique` | scr/js/app.js:75 | those two properties determine trim's result for any whitespace around a trimmed core |
| `JsText.TrimEmptyIffWhitespace` | scr/js/app.js:75-77 | trim gives the empty string exactly when the input is all whitespace, which is when addTodo returns early |
| `JsText.TrimIdempotent` | scr/js/app.js:75 | trimming twice is trimming once |
| `Sequences.Filter` | scr/js/app.js:101 | filter keeps only elements that pass the test and never lengthens the list |
| `Sequences.FilterIsSubsequence` | scr/js/app.js:101 | filter's result is an order-preserving subsequence of its input |
| `Sequences.FilterCounts` | scr/js/app.js:107 | filter keeps every occurrence of a passing element and none of a failing one |
| `Sequences.FilterIdempotent` | scr/js/app.js:107 | filtering twice with one test is filtering once |
| `Sequences.FilterKeepsAll` | scr/js/app.js:101 | a list whose elements all pass comes back unchanged |
| `Sequences.FilterComplement` | scr/js/app.js:204-206 | filters with complementary tests have lengths summing to the list length |
| `Sequences.FilterDropsOne` | scr/js/app.js:101 | a test rejecting exactly one position removes just that position |
| `Sequences.RemoveAt` | scr/js/app.js:322 | splice(i, 1) shortens by one and shifts later elements left |
| `Sequences.InsertAt` | scr/js/app.js:323 | splice(i, 0, x) puts x at i, and removing it again gives the input |
| `Sequences.Move` | scr/js/app.js:321-323 | the moved element lands at the drop position, and without it both lists are equal |
| `Sequences.MoveAt` | scr/js/app.js:321-323 | position by position, the move shifts the passed-over elements one step towards the source and leaves the rest in place |
| `Sequences.MoveIsPermutation` | scr/js/app.js:321-323 | the move neither adds nor loses elements (equal multisets) |
| `Sequences.MoveInverse` | scr/js/app.js:321-323 | moving back from the drop position to the source undoes the move |
| `Sequences.MoveInPlace` | scr/js/app.js:321-323 | moving an element to its own position changes nothing |
| `Sequences.SpliceStart` | scr/js/app.js:322-323 | splice's start position: an in-range start is used as is, a negative start at or above -len counts back from the end, a start past the end gives the length, and a start below -len gives 0 |
| `Sequences.SpliceCount` | scr/js/app.js:322-323 | the removed count is the delete count clamped between 0 and the number of elements after the start |
| `Sequences.Splice` | scr/js/app.js:322-323 | the result is what lies before the start, then the items, then what lies after the removed elements, and its length is the input length plus the item count minus the removed count; a non-positive delete count only inserts |
| `Sequences.SpliceInRange` | scr/js/app.js:322-323 | for an in-range index the two splice calls are RemoveAt and InsertAt |
| `Sequences.SpliceMinusOne` | scr/js/app.js:322 | splice(-1, 1) removes the last element |
| `Todos.Seed` | scr/js/app.js:24-44 | the seed has three todos, ids 1, 2 and 3; only the first, "Complete online JavaScript course", is completed |
| `Todos.SeedWellFormed` | scr/js/app.js:24-44 | the seed list has distinct ids and trimmed, non-empty texts |
| `Todos.Add` | scr/js/app.js:75-86 | blank input leaves the list as it was; otherwise a new active todo with the trimmed text is in front of the old list, unchanged and in order |
| `Todos.AddKeepsWellFormed` | scr/js/app.js:75-86 | adding with an id not in use keeps ids distinct and texts trimmed and non-empty |
| `Todos.Toggle` | scr/js/app.js:92-95 | the length is kept; completed is negated exactly on items with the id; ids, texts and timestamps are kept |
| `Todos.ToggleTwice` | scr/js/app.js:92-95 | toggling the same id twice gives back the original list |
| `Todos.ToggleUnknown` | scr/js/app.js:92-95 | toggling an id no item has leaves the list equal |
| `Todos.ToggleOne` | scr/js/app.js:92-95 | with distinct ids, toggling changes exactly the one item carrying the id |
| `Todos.ToggleKeepsWellFormed` | scr/js/app.js:92-95 | toggling keeps the data invariant |
| `Todos.Delete` | scr/js/app.js:100-101 | the result is the order-preserving subsequence of items whose id differs, each occurrence kept |
| `Todos.DeleteTwice` | scr/js/app.js:100-101 | deleting the same id again is a no-op |
| `Todos.DeleteUnknown` | scr/js/app.js:100-101 | deleting an id no item has leaves the list equal |
| `Todos.DeleteOne` | scr/js/app.js:100-101 | with distinct ids, delete removes exactly the position carrying the id |
| `Todos.ClearCompleted` | scr/js/app.js:106-107 | the result is the order-preserving subsequence of active items: no completed item, every active one kept |
| `Todos.ClearCompletedTwice` | scr/js/app.js:106-107 | clearing twice equals clearing once |
| `Todos.ClearCompletedWhenAllActive` | scr/js/app.js:106-107 | a list without completed items is left unchanged |
| `Todos.SubsequenceKeepsWellFormed` | scr/js/app.js:101-107 | any order-preserving subsequence of a well-formed list is well-formed |
| `Todos.DeleteKeepsWellFormed` | scr/js/app.js:101 | delete keeps the data invariant |
| `Todos.ClearCompletedKeepsWellFormed` | scr/js/app.js:107 | clear-completed keeps the data invariant |
| `View.ParseFilter` | scr/js/app.js:113 | the stored filter keeps the given string exactly (its name is the string); it is Other exactly for strings that are not a button name |
| `View.ParseFilterName` | scr/js/app.js:113 | parsing a canonical filter's name gives the filter back |
| `View.Visible` | scr/js/app.js:201-210 | the projection is an order-preserving subsequence holding exactly the todos the filter shows: the open ones for "active", the done ones for "completed", all for anything else |
| `View.ActiveCount` | scr/js/app.js:193 | the count equals the length of the "active" projection, and adding the completed ones gives the list length |
| `View.ItemsLeftLabel` | scr/js/app.js:197 | the wording is "item left" exactly when the count is 1 and "items left" exactly otherwise |
| `View.EmptyState` | scr/js/app.js:167-182 | no contract of its own: renderEmptyState's switch from filter to (message, hint); `EmptyStateDefault`, `EmptyStateTruthful` and `EmptyStatesDistinct` state its behaviour |
| `View.EmptyStateDefault` | scr/js/app.js:170-182 | every filter string other than "active" or "completed", "all" included, gives ("No todos yet", "Add a todo to get started!") |
| `View.Render` | scr/js/app.js:133-140 | the empty state is drawn exactly when the projection is empty, otherwise the projected todos; the summary counts active todos of the whole list |
| `View.VisibleEmptyIff` | scr/js/app.js:201-210 | the projection is empty exactly when the filter shows no todo of the list |
| `View.EmptyStateTruthful` | scr/js/app.js:137-182 | the empty-state text shows exactly when its condition holds: under "active" every todo is done, under "completed" none is, otherwise the list is empty |
| `View.EmptyStatesDistinct` | scr/js/app.js:170-182 | the three (message, hint) pairs are distinct |
| `View.ViewsPartition` | scr/js/app.js:201-209 | the "active" and "completed" projections together account for every todo; the default projection has the whole length |
| `View.SeedUnderCompleted` | scr/js/app.js:24-44 | on the seed list under "completed", one todo is visible and the summary reads 2 items left |
| `DragDrop.Reorder` | scr/js/app.js:314-323 | out-of-range positions are an error; otherwise the dragged todo is at the drop position, the others keep their relative order, the result is a permutation, and the data invariant is kept |
| `DragDrop.MoveKeepsWellFormed` | scr/js/app.js:321-323 | a move keeps ids distinct and texts trimmed |
| `DragDrop.ReorderInPlace` | scr/js/app.js:321-323 | dropping on the dragged todo's own position leaves the list as it was |
| `DragDrop.ReorderUndo` | scr/js/app.js:321-323 | dragging the todo back to where it came from restores the list |
| `DragDrop.ReorderTowardsFront` | scr/js/app.js:321-323 | moving index 2 to 0 in [A, B, C, D] gives [C, A, B, D] |
| `DragDrop.ReorderTowardsBack` | scr/js/app.js:321-323 | moving index 0 to 3 in [A, B, C, D] gives [B, C, D, A] |
| `DragDrop.DropAsWritten` | scr/js/app.js:317-323 | no contract of its own: the drop handler's two splices as written, with undefined for an index outside the list; `DropAsWrittenAgrees`, `DropAsWrittenLosesLast` and `DropAsWrittenOnSeed` state its behaviour |
| `DragDrop.DropAsWrittenAgrees` | scr/js/app.js:321-323 | for in-range positions the code as written computes exactly Reorder's list |
| `DragDrop.DropAsWrittenLosesLast` | scr/js/app.js:317-323 | with draggedIndex -1 the code as written drops the last todo and inserts undefined at the drop position |
| `DragDrop.DropAsWrittenOnSeed` | scr/js/app.js:317-323 | on the seed list, draggedIndex -1 and dropIndex 0 lose "10 minutes meditation" and put undefined in front; Reorder refuses those positions |
| `Store.TodoState.constructor` | scr/js/app.js:18-46 | the filter starts as "all"; a missing or empty stored list is replaced by the seed and saved; a non-empty one is kept |
| `Store.TodoState.AddTodo` | scr/js/app.js:73-90 | the list becomes Add of the old one; blank input saves nothing, any other input is saved; the invariant is kept for an unused id |
| `Store.TodoState.ToggleTodo` | scr/js/app.js:92-98 | the list becomes Toggle of the old one and is saved even for an unknown id; the invariant is kept |
| `Store.TodoState.DeleteTodo` | scr/js/app.js:100-104 | the list becomes Delete of the old one and is saved; the invariant is kept |
| `Store.TodoState.ClearCompletedTodos` | scr/js/app.js:106-110 | the list becomes ClearCompleted of the old one and is saved; the invariant is kept |
| `Store.TodoState.SetFilter` | scr/js/app.js:112-113 | only the filter changes, to the value named by the string; nothing is saved |
| `Store.TodoState.HandleDrop` | scr/js/app.js:310-331 | a drop on the dragged item itself does nothing; otherwise the list becomes Reorder's result and is saved, and out-of-range positions change nothing |

## Left out

- DOM lookups, the markup built with `innerHTML`, filter-button classes and `aria-selected`, event wiring and start-up (lines 4-15, 116-127, 142-165, 184-189, 194, 198, 224-269). These are rendering and plumbing. `View.Render` keeps only the data they draw.
- `escapeHtml` (lines 217-221). It relies on the browser's own serialisation.
- Clearing the input field after an add (line 87). It is a DOM write.
- Theme handling (lines 49-70). It is a DOM attribute and a storage write outside the list state.
- Drag visuals, `dataTransfer` and the injected CSS (lines 272-308, 333-364). These are UI event handling.
- How the drop handler gets its indices (lines 316-318). They are `indexOf` over the rendered items, and under an "active" or "completed" filter they are positions in the visible list applied to the full list without remapping. The model takes both indices as inputs.
- JSON parsing and serialisation, and local storage itself (lines 19, 213-215). `saved` records the list last written, with no encoding. A stored value that fails to parse throws at start-up; that path is not modelled. A stored value that is truthy but not an array is also not modelled.
- `Store.TodoState.constructor`: the seed's three `createdAt` values come from three separate clock reads; the model passes one timestamp for all three.
- Ids are JavaScript numbers compared with `===`; the model uses unbounded integers.
- Strings are sequences of Unicode scalar values; JavaScript's UTF-16 strings can hold unpaired surrogates, which the model cannot represent.
- `Store.TodoState.HandleDrop`: does not reproduce the script's result for positions outside the list; it uses the corrected `DragDrop.Reorder` (see Findings). `DragDrop.DropAsWritten` models the script's behaviour there.

## Findings

| source | as written | input that shows it | evidently intended | confidence | as-written member | corrected member |
|---|---|---|---|---|---|---|
| scr/js/app.js:314-323 | `draggedIndex` from `indexOf` is used unchecked. When the dragged element is not among the rendered items, it is -1. Then `state.todos[-1]` is undefined, `splice(-1, 1)` deletes the last todo, and `splice(dropIndex, 0, undefined)` inserts a hole. | A drop onto the first item while `draggedItem` is null or a node from an earlier render, as when something from outside the page is dragged onto the list. On the seed list: draggedIndex -1, dropIndex 0. | A position outside the list is refused and the list is left unchanged | not executed; the inputs follow from the handler code | `DragDrop.DropAsWrittenOnSeed` | `DragDrop.Reorder` |
