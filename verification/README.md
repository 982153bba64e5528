# React-DND task board, modelled in Dafny

The DND component keeps a board of three ordered task lists, `todo`, `Running` and
`Completed`. A task is a record `{id, content}`. The component changes the board in two ways:

- **Drag end** (`onDragEnd`). The drag library reports a source `{droppableId, index}`
  and, unless the task was dropped outside every list, a destination. Within one list the
  handler copies the list with `Array.from`, splices the task out, and splices it back in at
  the destination index. Across lists it splices the task out of a copy of the source list
  and into a copy of the destination list. The new state is the old one with those lists
  replaced.
- **Add task** (`addTask`, behind the `handleSubmit` guard). When the input text is not
  empty after `trim()`, the task `{id: "task-" + Date.now(), content}` is appended to the end
  of `todo`. The content is the text as typed, not the trimmed text.

The project has five files:

- `wrappers.dfy`: module `Wrappers`, with the `Option` type used for the optional drop
  destination and for the stored list.
- `splice.dfy`: module `Splice`. It has `Removed` and `Inserted`,
  which say what `splice(i, 1)` and `splice(j, 0, x)` leave in an array. It also has their
  round-trip and multiset lemmas.
- `js_array.dfy`: module `JsArrays`. Its class `JsArray` is a growable array changed in
  place: `From` is `Array.from`, `RemoveAt` and `InsertAt` are the two splices. Each is
  written as a loop and proved equal to `Removed`/`Inserted` on the array's elements.
- `dnd.dfy`: module `Dnd`. It holds the board (`Task`, `Column`, `Board`), the drag result,
  and `Dragged`, the function the drag handler is specified by. `OnDragEnd` is the handler
  itself, run on `JsArray` copies and proved equal to `Dragged`. The module also has
  `AddTask`, the task id scheme and the lemmas about all of these.
- `task_input.dfy`: module `TaskInput`. It has `trim()` over the ECMAScript whitespace and
  line-terminator characters, and `HandleSubmit`, with the lemmas about the guard.

The board invariant is `Dnd.UniqueIds`: no task is on the board twice, and no two tasks
share an id. Every drag keeps it. Adding a task keeps it when the new id is fresh.

## Model

| member | source | states |
|---|---|---|
| `Splice.Removed` | src/DND.jsx:57 | The array after `splice(i, 1)` is one shorter. It keeps the elements before `i` and shifts every later element down one place. |
| `Splice.Inserted` | src/DND.jsx:58 | The array after `splice(j, 0, x)` is one longer and holds `x` at `j`. It keeps the elements before `j` and shifts the rest up one place. |
| `Splice.RemovedInserted` | src/DND.jsx:57-58 | Removing at `j` right after inserting at `j` gives back the original list. |
| `Splice.InsertedRemoved` | src/DND.jsx:57-58 | Putting the removed element back at the index it came from gives back the original list. |
| `Splice.RemovedMultiset` | src/DND.jsx:67 | Removal takes exactly one occurrence of the removed element out of the list's multiset. |
| `Splice.InsertedMultiset` | src/DND.jsx:70 | Insertion adds exactly one occurrence of the inserted element to the list's multiset. |
| `JsArrays.JsArray.From` | src/DND.jsx:56 | `Array.from` gives a fresh array whose elements are exactly the given list. |
| `JsArrays.JsArray.RemoveAt` | src/DND.jsx:57 | The in-place `splice(i, 1)` returns the element that was at `i`. Afterwards the array holds `Removed` of its old elements. |
| `JsArrays.JsArray.InsertAt` | src/DND.jsx:58 | The in-place `splice(j, 0, x)` leaves the array holding `Inserted` of its old elements. |
| `Dnd.Board.With` | src/DND.jsx:60-63 | Spreading the state and overriding one key replaces that list and leaves the other two as they were. |
| `Dnd.Initial` | src/DND.jsx:5-9 | At startup `todo` is the stored list, or empty when nothing is stored. `Running` and `Completed` start empty. |
| `Dnd.InitialUniqueIds` | src/DND.jsx:5-9 | The starting board has unique ids whenever the stored list has them. |
| `Dnd.InRange` | src/DND.jsx:57-58 | A drag result is in range exactly when it has no destination, or its source index names a task and its destination index is at most the length of the list the task is spliced into. For a reorder that list is the source list with the task taken out. For a move it is the destination list. |
| `Dnd.Dragged` | src/DND.jsx:48-78 | A drop with no destination leaves the board unchanged. Lists other than the source and destination are unchanged. The total number of tasks is unchanged. |
| `Dnd.OnDragEnd` | src/DND.jsx:48-78 | The handler, which copies lists and splices them in place, produces exactly the board `Dragged` describes. |
| `Dnd.ReorderKeepsTasks` | src/DND.jsx:55-58 | A reorder within one list keeps the list's length and its multiset of tasks. |
| `Dnd.ReorderPlacesTask` | src/DND.jsx:57-58 | After a reorder, the task from the source index is at the destination index. With it taken out, the other tasks are in their old relative order. |
| `Dnd.TransferMovesTask` | src/DND.jsx:66-70 | A move between lists shortens the source by one and lengthens the destination by one. The record at the destination index is the one taken from the source index. The source becomes the old source minus that task. With the task taken out, the destination is its old contents. |
| `Dnd.DragKeepsBag` | src/DND.jsx:48-78 | No drag creates, loses or duplicates a task: the multiset of all tasks on the board is unchanged. |
| `Dnd.DragKeepsIdsUnique` | src/DND.jsx:48-78 | Every drag keeps the invariant that ids are unique across the three lists. |
| `Dnd.UniqueIdsAtPositions` | src/DND.jsx:118-122 | Under the invariant, no two positions of the board hold the same id. It is what the left-out rendering needs for its `key` and `draggableId` values to be unique. |
| `Dnd.Decimal` | src/DND.jsx:82 | A timestamp is printed as decimal digits only, with a leading `0` exactly when the timestamp is 0. |
| `Dnd.TaskId` | src/DND.jsx:82 | The id is "task-" followed by exactly the decimal text of the timestamp (digits only, no leading zero), which reads back as the timestamp. |
| `Dnd.DecimalRoundTrip` | src/DND.jsx:82 | Reading back the decimal digits that a template literal prints for a timestamp gives the timestamp. |
| `Dnd.TaskIdInjective` | src/DND.jsx:82 | Tasks created at different milliseconds get different ids. |
| `Dnd.AddTask` | src/DND.jsx:80-90 | `todo` gets one task longer. Its old tasks stay in front, and its new last task has the id of `now` and the given content. `Running` and `Completed` are unchanged. |
| `Dnd.AddTaskBag` | src/DND.jsx:86-89 | Adding a task puts exactly that one task onto the board and raises the total by one. |
| `Dnd.AddTaskKeepsIdsUnique` | src/DND.jsx:80-90 | Adding a task whose id is not yet on the board keeps ids unique. |
| `Dnd.SameMillisecondSharesId` | src/DND.jsx:82 | Two tasks added in the same millisecond always break id uniqueness, so `AddTaskKeepsIdsUnique` cannot drop its freshness requirement. |
| `TaskInput.TrimStart` | src/DND.jsx:17 | The result is a suffix of the input. What it drops is all whitespace, and its first character, if any, is not whitespace. |
| `TaskInput.TrimEnd` | src/DND.jsx:17 | The result is a prefix of the input. What it drops is all whitespace, and its last character, if any, is not whitespace. |
| `TaskInput.TrimmedStretch` | src/DND.jsx:17 | Trimming both ends keeps, character for character, the stretch of the input that starts after the leading whitespace, and only whitespace follows that stretch. |
| `TaskInput.TrimmedEmptyIffBlank` | src/DND.jsx:17 | Trimming both ends leaves nothing exactly when every character of the input is whitespace. |
| `TaskInput.Trim` | src/DND.jsx:17 | `trim()` returns the stretch of the input, character for character, between a blank prefix and a blank suffix. It is empty exactly when every character of the text is whitespace. Otherwise it begins and ends with a character that is not whitespace. |
| `TaskInput.HandleSubmit` | src/DND.jsx:15-21 | Blank text leaves the board as it was. Any other text is added with `AddTask`, as typed. |
| `TaskInput.BlankSubmissionIgnored` | src/DND.jsx:15-21 | Submitting blank text changes nothing on the board. |
| `TaskInput.SubmissionAddsTask` | src/DND.jsx:17-18 | Submitting text that is not blank appends one task to `todo`, carrying the text as typed (untrimmed). The other lists are unchanged. |
| `TaskInput.BuyMilkScenario` | src/DND.jsx:48-90 | Take an empty board, add "buy milk", then drag it from `todo[0]` to `Running[0]`. The result has the task alone in `Running` and the other lists empty. |

## Left out

- Persistence (src/DND.jsx:6, 43-46). `localStorage` and JSON are host I/O. `Dnd.Initial`
  takes what storage held as a parameter, with `None` for nothing stored. Stored text that
  is not valid JSON makes `JSON.parse` throw in the source; that path is not modelled.
- The clock (src/DND.jsx:82). `Date.now()` is a parameter `now`. `Dnd.Decimal` writes it
  as plain decimal digits. That matches JavaScript's number-to-string for integers below
  10^21, which covers every timestamp.
- Rendering (src/DND.jsx:92-158). The JSX, the drag library's `DragDropContext`,
  `Droppable` and `Draggable`, the styles and the header capitalisation are UI.
- React scheduling. `useState`, `useEffect` and the `setTasks` updater are replaced by
  explicit board values passed in and returned. The handler reads the lists from the
  render-time `tasks` but spreads the updater's `prevTasks`. The model treats the two as
  the same state, so a second update queued in between is not modelled.
- The input field (src/DND.jsx:13, 19, 28). The controlled text, its reset to `""` after a
  submission, and `preventDefault` are UI state. `HandleSubmit` takes the text as a
  parameter and returns only the board.
- Out-of-range drag indices. `Dnd.InRange` requires them in range, because `splice` with an
  out-of-range index (no removal, or an `undefined` element inserted) is not a behaviour
  the component relies on.
- Representation details. JavaScript strings are UTF-16. The model's characters are
  Unicode scalar values, and every character `trim()` strips lies in the Basic
  Multilingual Plane. `JsArray`'s capacity and growth (`Grow`) stand in for the engine's
  array storage and are not part of the component.
