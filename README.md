# To-do list screen, modelled in Dafny

The application is a single-screen to-do list. The root screen remembers a list of items and
an id counter that starts at 1. An input row trims what the user typed. It rejects blank input
and hands any other text to the screen, which appends a new, active item with the counter's id
and advances the counter. Each item row has a checkbox that replaces the item with a copy
carrying the new completion flag. Its delete button filters the item out. The list is shown
in two sections: the active items (or an empty-state message when there are none), then the
completed items (a section that is absent when there are none). Both sections are keyed by
item id.

Modules:

- `TodoItems` (`TodoItems.dfy`): the immutable item value. Record update stands in for `copy`.
- `Lists` (`Lists.dfy`): Kotlin's `filter` and `map` on read-only lists, with the facts the
  screen relies on: order is kept, filtering splits a list in two, and removing the one
  rejected element leaves the rest in place.
- `Trimming` (`Trimming.dfy`): `String.trim()`, parameterised by the platform's whitespace
  predicate.
- `TodoLists` (`TodoLists.dfy`): the state as a value and its transitions (add, toggle,
  delete), the invariant "ids are unique and every id is in `[1, nextId)`", the two sections and
  what is rendered, and replay of any sequence of user events. It also holds the 32-bit counter
  described under Findings.
- `Screen` (`Screen.dfy`): the mutable state as classes. `TodoApp` holds `todoItems` and
  `nextId`, and its callbacks reassign them. `AddItemSection` holds `textInput` and handles the
  "Add" button. Each method's postcondition gives the new state as the pure transition applied to
  the old one. Four client methods play short sessions using only these contracts.

Two points of the code's behaviour shape the model:

- An item's text is trimmed and non-empty only when it comes through the "Add" button. The add
  callback accepts any text, so the state invariant does not include it.
  `Screen.SubmittedTextIsTrimmed` states it for text that comes through the button.
- Toggling updates every item with the id. With unique ids that is one item.

## Model

| member | source | states |
|---|---|---|
| `TodoItems.NewItemIsActive` | app/src/main/java/com/annguyen/todoappp/TodoItem.kt:10-14 | an item built from an id and a text has that id and text and is not completed (the default) |
| `TodoItems.CopyKeepsIdentity` | app/src/main/java/com/annguyen/todoappp/TodoItem.kt:10-14 | `copy(isCompleted = b)` keeps id and text, sets the flag to `b`, and equals the original exactly when the flag was already `b` |
| `TodoItems.EqualityIsStructural` | app/src/main/java/com/annguyen/todoappp/TodoItem.kt:10 | two items are equal exactly when id, text and flag are equal |
| `Lists.Filter` | app/src/main/java/com/annguyen/todoappp/MainActivity.kt:95 | the result is no longer than the input and holds exactly the input's elements that satisfy the predicate |
| `Lists.Map` | app/src/main/java/com/annguyen/todoappp/MainActivity.kt:89-92 | same length as the input, each position holds the function applied to the input's element there |
| `Lists.FilterAppend` | app/src/main/java/com/annguyen/todoappp/MainActivity.kt:74 | filtering a concatenation is concatenating the filtered parts, so kept elements keep their order |
| `Lists.FilterKeepsAll` | app/src/main/java/com/annguyen/todoappp/MainActivity.kt:95 | a filter that every element passes returns the list unchanged |
| `Lists.FilterDropsOne` | app/src/main/java/com/annguyen/todoappp/MainActivity.kt:95 | when only the element at `k` fails, the filter returns the list with position `k` cut out |
| `Lists.FilterSplits` | app/src/main/java/com/annguyen/todoappp/MainActivity.kt:74-111 | filtering by a predicate and by its negation gives parts whose lengths add up to the input's and whose multisets add up to the input's |
| `Trimming.LeadingWhitespace` | app/src/main/java/com/annguyen/todoappp/MainActivity.kt:168 | the count of leading whitespace: all of those characters are whitespace and the next one is not |
| `Trimming.TrailingWhitespace` | app/src/main/java/com/annguyen/todoappp/MainActivity.kt:168 | the count of trailing whitespace: all of those characters are whitespace and the one before them is not |
| `Trimming.Trim` | app/src/main/java/com/annguyen/todoappp/MainActivity.kt:168 | the result is empty iff the input is all whitespace; otherwise it starts and ends with non-whitespace; it is the input minus a whitespace prefix and a whitespace suffix |
| `Trimming.TrimPadded` | app/src/main/java/com/annguyen/todoappp/MainActivity.kt:168 | trimming `prefix + middle + suffix` with whitespace padding gives back `middle` when `middle` has no whitespace at its ends (trim is fully determined) |
| `Trimming.TrimIdempotent` | app/src/main/java/com/annguyen/todoappp/MainActivity.kt:168 | trimming twice equals trimming once |
| `TodoLists.InitialIsValid` | app/src/main/java/com/annguyen/todoappp/MainActivity.kt:45-46 | the initial state (no items, `nextId` 1) satisfies the invariant |
| `TodoLists.Add` | app/src/main/java/com/annguyen/todoappp/MainActivity.kt:61-65 | exactly one item is appended after the old items, with id = old `nextId`, the given text and not completed; `nextId` grows by exactly 1; the invariant is kept and the new id was not in use |
| `TodoLists.Toggled` | app/src/main/java/com/annguyen/todoappp/MainActivity.kt:87-92 | length, order, ids and texts are kept; exactly the items with a matching id get the new flag and the others keep theirs; an absent id leaves the list unchanged |
| `TodoLists.Toggle` | app/src/main/java/com/annguyen/todoappp/MainActivity.kt:124-129 | the counter and the length are unchanged and the invariant is kept |
| `TodoLists.ToggleOverrides` | app/src/main/java/com/annguyen/todoappp/MainActivity.kt:89-92 | toggling an id twice equals toggling it once with the second value |
| `TodoLists.ToggleIdempotent` | app/src/main/java/com/annguyen/todoappp/MainActivity.kt:89-92 | toggling an id twice with the same value equals toggling it once, for every list |
| `TodoLists.ToggleToCurrentIsIdentity` | app/src/main/java/com/annguyen/todoappp/MainActivity.kt:89-92 | setting the flag the matching items already have leaves the list unchanged |
| `TodoLists.CheckThenUncheckRestores` | app/src/main/java/com/annguyen/todoappp/MainActivity.kt:89-92 | checking then unchecking an active item gives back an equal list |
| `TodoLists.WithoutId` | app/src/main/java/com/annguyen/todoappp/MainActivity.kt:94-96 | an item stays iff it was present and its id differs; the id no longer occurs; an absent id leaves the list unchanged; unique ids stay unique |
| `TodoLists.Delete` | app/src/main/java/com/annguyen/todoappp/MainActivity.kt:131-134 | the counter is unchanged, the list does not grow and the invariant is kept |
| `TodoLists.DeleteRemovesExactlyOne` | app/src/main/java/com/annguyen/todoappp/MainActivity.kt:95 | with unique ids, deleting the id at position `k` gives the list with exactly position `k` cut out, so the length drops by one and the rest keep their order |
| `TodoLists.SameIdSameItem` | app/src/main/java/com/annguyen/todoappp/MainActivity.kt:84 | with unique ids, two items of the list with the same id are the same item |
| `TodoLists.TailAvoidsHeadId` | app/src/main/java/com/annguyen/todoappp/MainActivity.kt:84 | with unique ids, no item kept from the tail of a list has the id of its first item |
| `TodoLists.ConsKeepsIdsUnique` | app/src/main/java/com/annguyen/todoappp/MainActivity.kt:84 | putting an item with an id not in the list in front of a list with unique ids keeps the ids unique |
| `TodoLists.FilterKeepsIdsUnique` | app/src/main/java/com/annguyen/todoappp/MainActivity.kt:84 | any filter of a list with unique ids has unique ids |
| `TodoLists.ActiveItems` | app/src/main/java/com/annguyen/todoappp/MainActivity.kt:74 | an item is in the active section iff it is in the list and not completed |
| `TodoLists.CompletedItems` | app/src/main/java/com/annguyen/todoappp/MainActivity.kt:111 | an item is in the completed section iff it is in the list and completed |
| `TodoLists.PartitionSplits` | app/src/main/java/com/annguyen/todoappp/MainActivity.kt:74-111 | the two sections' lengths add up to the list's, and every item is in exactly one of them (as multisets) |
| `TodoLists.PartitionKeepsOrder` | app/src/main/java/com/annguyen/todoappp/MainActivity.kt:74-111 | each section of a concatenation is the concatenation of the sections, so each keeps the list's order |
| `TodoLists.Render` | app/src/main/java/com/annguyen/todoappp/MainActivity.kt:74-112 | the empty-state message shows iff no item is active, and it is the text at line 101; otherwise the active rows are shown; the completed section shows iff some item is completed, with the completed rows |
| `TodoLists.AppendKeepsIdsUnique` | app/src/main/java/com/annguyen/todoappp/MainActivity.kt:84-121 | joining two lists with unique ids and no id in common gives a list with unique ids |
| `TodoLists.SectionIdsUnique` | app/src/main/java/com/annguyen/todoappp/MainActivity.kt:84-121 | with unique ids, the active rows followed by the completed rows still have unique ids |
| `TodoLists.RenderShowsEachItemOnce` | app/src/main/java/com/annguyen/todoappp/MainActivity.kt:71-137 | in a valid state, the rendered rows are the items, each exactly once, and no two rows share a key |
| `TodoLists.ReplayKeepsValid` | app/src/main/java/com/annguyen/todoappp/MainActivity.kt:60-134 | any sequence of add, toggle and delete events keeps the invariant and never lowers `nextId` |
| `TodoLists.ReachableStatesAreValid` | app/src/main/java/com/annguyen/todoappp/MainActivity.kt:45-46 | every state reachable from the initial state satisfies the invariant |
| `TodoLists.IdsNeverReused` | app/src/main/java/com/annguyen/todoappp/MainActivity.kt:64 | an id in use now is never given to a later add, whatever happens in between, deletion of that item included |
| `TodoLists.IncrementInt` | app/src/main/java/com/annguyen/todoappp/MainActivity.kt:64 | `nextId++` on a Kotlin `Int`: the result stays in the 32-bit range and is `x + 1` modulo 2^32 |
| `TodoLists.AddInt32` | app/src/main/java/com/annguyen/todoappp/MainActivity.kt:63-64 | adding with a 32-bit counter appends the same item as `Add` and keeps the counter in range |
| `TodoLists.AddInt32AgreesBelowMax` | app/src/main/java/com/annguyen/todoappp/MainActivity.kt:63-64 | below `Int.MAX_VALUE` the 32-bit add and the unbounded add give the same state |
| `TodoLists.AddInt32BreaksInvariant` | app/src/main/java/com/annguyen/todoappp/MainActivity.kt:64 | from the valid state with `nextId = Int.MAX_VALUE`, the 32-bit add leaves an invalid state |
| `Screen.TodoApp.constructor` | app/src/main/java/com/annguyen/todoappp/MainActivity.kt:45-46 | the screen starts with no items and `nextId` 1, which is valid |
| `Screen.TodoApp.OnAddItem` | app/src/main/java/com/annguyen/todoappp/MainActivity.kt:61-65 | the new state is `Add` of the old state and the invariant is kept |
| `Screen.TodoApp.OnCheckedChange` | app/src/main/java/com/annguyen/todoappp/MainActivity.kt:87-93 | the new state is `Toggle` of the old state and the invariant is kept |
| `Screen.TodoApp.OnDelete` | app/src/main/java/com/annguyen/todoappp/MainActivity.kt:94-96 | the new state is `Delete` of the old state and the invariant is kept |
| `Screen.AddItemSection.constructor` | app/src/main/java/com/annguyen/todoappp/MainActivity.kt:149 | the input field starts empty |
| `Screen.AddItemSection.OnValueChange` | app/src/main/java/com/annguyen/todoappp/MainActivity.kt:159-160 | typing replaces the pending text |
| `Screen.AddItemSection.OnClick` | app/src/main/java/com/annguyen/todoappp/MainActivity.kt:166-177 | rejected iff the input is all whitespace; if rejected, the input and the list are unchanged; otherwise the trimmed text is added and the input becomes empty |
| `Screen.SubmittedTextIsTrimmed` | app/src/main/java/com/annguyen/todoappp/MainActivity.kt:168-174 | text added through the button is non-empty, has no whitespace at either end, and trimming it again changes nothing |

## Left out

- Rendering is not modelled: Compose layout, `Card`, `Text`, colours, sizes, `LazyColumn`
  mechanics, the headings, spacers and the row's background emphasis. `TodoLists.Render` keeps
  only which rows and sections appear and in what order.
- The validation `Toast` is a platform side effect. `OnClick` returns `rejected` in its place.
- `MainActivity.onCreate`, `setContent`, `MaterialTheme` and `Surface` are activity plumbing.
- `rememberSaveable` and `remember` save and restore state across configuration changes. That
  is framework machinery. Here the state is simply the fields of an object that lives between
  calls.
- Kotlin's whitespace table belongs to its standard library. The trim functions take the
  whitespace predicate as a parameter, so every property holds for any table.
- `Screen.AddItemSection.OnClick`: the `onAddItem` callback is fixed to
  `TodoApp.OnAddItem`, the one callback the screen ever passes, rather than being an arbitrary
  function value.
- `TodoItemRow` and `EmptyStateMessage` hold no state. A row's checkbox and delete button call
  the parent's callbacks with the row's item id. The model takes any id, present or not.
- `TodoLists.Add`: ids and `nextId` are unbounded integers. Kotlin's 32-bit `Int` wraps after
  `Int.MAX_VALUE` adds. That behaviour is modelled separately (`AddInt32`, see Findings) and
  is not used by the rest of the model.

## Findings

| source | as written | input that shows it | evidently intended | confidence | as-written member | corrected member |
|---|---|---|---|---|---|---|
| app/src/main/java/com/annguyen/todoappp/MainActivity.kt:46 | `nextId` is a Kotlin `Int`; `nextId++` at line 64 wraps from `Int.MAX_VALUE` to `Int.MIN_VALUE` | a session of 2147483646 adds, so that `nextId` is `Int.MAX_VALUE`, then one more add: the new item's id is no longer below `nextId`, and after 2^31 + 1 further adds `nextId` is 1 again, so the next add reuses id 1 while item 1 may still be listed, giving duplicate row keys | ids are never reused and stay below the counter | low: needs over two billion adds in one session; not executed | `TodoLists.AddInt32`, `TodoLists.AddInt32BreaksInvariant` | `TodoLists.Add` (invariant kept, `TodoLists.IdsNeverReused`) |
