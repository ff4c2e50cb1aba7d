# To-do list app: list store and panel dragging, in Dafny

This project models the two pieces of logic in the browser to-do list app
(`static/app.js`):

- the **list store** held by the top-level `Main` component: an ordered
  sequence of task lists `{id, title, tasks}` changed only by `addList`,
  `sendTaskToList`, `dropTask`, `removeList` and `updateListTitle`, each a
  pure whole-sequence update (`map`, `filter` or an append);
- the **free-drag positioning** of one floating list panel (`TaskBox`): the
  `isDragging` flag, the `dragOffset` and the `position`, changed by
  `startDrag`, `onDrag` and `endDrag`.

Files:

- `text.dfy` (module `JsText`): JavaScript's `String.prototype.trim`, with the
  fixed set of ECMAScript WhiteSpace and LineTerminator code points.
- `store.dfy` (module `ListStore`): the `TaskList` record and the five store
  operations. Ids are opaque strings and are not assumed unique; every
  operation acts on every list whose id matches. `addList` takes its id as a
  parameter instead of calling `Math.random`.
- `store_props.dfy` (module `ListStoreProperties`): idempotence, the
  no-duplicate invariant, order preservation of `removeList`, the invariant
  over any sequence of user actions, and two concrete scenarios.
- `drag.dfy` (module `PanelDrag`): the drag state machine over integer
  client coordinates.

Notes on what `static/app.js` does:

- There is no set of completed tasks and no toggle: the task checkboxes are
  uncontrolled inputs (static/app.js:8), so completion is not state of the store.
  Removing a list therefore has no completion cleanup either.
- `onDrag` sets the position to pointer minus offset with no clamping
  (static/app.js:86-89); there is no lower bound. `PanelDrag.NoClamping`
  exhibits a negative position.
- `startDrag` is refused only when the event target's own tag is `INPUT` or
  `BUTTON` (static/app.js:57), not for descendants of such elements.
- `dropTask` stores the raw payload, not its trimmed form
  (static/app.js:340-346), so a list can hold both `" milk"` and `"milk"`
  (`ListStoreProperties.DropTaskStoresUntrimmed`).

## Model

| member | source | states |
|---|---|---|
| JsText.Trim | static/app.js:322 | `trim()` returns the slice of the text between its leading and trailing whitespace, that slice neither starts nor ends with whitespace, and it is empty exactly when the text is all whitespace |
| JsText.TrimIdempotent | static/app.js:322 | trimming already-trimmed text changes nothing |
| ListStore.AddList | static/app.js:316-319 | a new list with the given id, title "New List" and no tasks is appended at the end; every earlier list is kept, in order |
| ListStore.AppendToMatching | static/app.js:326-329 | the shared map step: ids, titles, count and order are kept; lists with another id or already holding the task are unchanged; each matching list lacking the task gets it at the end; afterwards a list holds the task iff it held it before or its id matches |
| ListStore.SendTaskToList | static/app.js:321-332 | text that trims to nothing leaves every list unchanged; otherwise the trimmed text is appended to each matching list that lacks it; lists with another id are unchanged, and ids, titles, count and order are kept |
| ListStore.DropTask | static/app.js:338-350 | a payload that trims to nothing is ignored; otherwise the untrimmed payload is appended to each matching list that lacks it; lists with another id are unchanged, and ids, titles, count and order are kept |
| ListStore.RemoveList | static/app.js:334-336 | the result holds a list iff the input held it and its id differs from the removed id; each list with another id occurs exactly as often as in the input, and lists with the removed id not at all |
| ListStore.UpdateListTitle | static/app.js:356-360 | every list with the id gets the new title; ids, tasks, count and order are kept; lists with another id are unchanged |
| ListStoreProperties.AppendToMatchingIdempotent | static/app.js:326-329 | offering the same task to the same lists twice equals offering it once |
| ListStoreProperties.SendTaskToListIdempotent | static/app.js:321-332 | sending the same text to the same list twice equals sending it once |
| ListStoreProperties.DropTaskIdempotent | static/app.js:338-350 | dropping the same payload on the same list twice equals dropping it once |
| ListStoreProperties.RemoveListIdempotent | static/app.js:334-336 | removing the same id twice equals removing it once |
| ListStoreProperties.UpdateListTitleLastWins | static/app.js:356-360 | renaming twice equals renaming once to the second title (so renaming is idempotent) |
| ListStoreProperties.RemoveListConcat | static/app.js:335 | `removeList` distributes over concatenation, so the surviving lists keep their relative order; together with `RemoveListSingle` this pins the result down to exactly the `filter` of the source |
| ListStoreProperties.RemoveListAbsent | static/app.js:335 | removing an id no list carries leaves the collection unchanged |
| ListStoreProperties.RemoveListSingle | static/app.js:335 | on one list, `removeList` keeps it exactly when its id differs |
| ListStoreProperties.AddListThenRemove | static/app.js:316-336 | adding a list and then removing its id equals removing that id from the original collection, which is the original collection when no list carried the id |
| ListStoreProperties.AppendAbsentKeepsNoDuplicates | static/app.js:327-328 | appending a task that is not in a duplicate-free sequence keeps it duplicate-free |
| ListStoreProperties.AppendToMatchingKeepsWellFormed | static/app.js:326-329 | the shared append step keeps every list free of duplicate tasks |
| ListStoreProperties.SendTaskToListKeepsWellFormed | static/app.js:325-331 | `sendTaskToList` keeps every list free of duplicate tasks |
| ListStoreProperties.DropTaskKeepsWellFormed | static/app.js:343-349 | `dropTask` keeps every list free of duplicate tasks |
| ListStoreProperties.RemoveListKeepsWellFormed | static/app.js:335 | `removeList` keeps every list free of duplicate tasks |
| ListStoreProperties.SendTaskToListKeepsTrimmed | static/app.js:322-328 | if every stored task is in trimmed form, it still is after `sendTaskToList` |
| ListStoreProperties.DropTaskStoresUntrimmed | static/app.js:340-346 | dropping " milk" on a list holding "milk" appends " milk", whereas sending " milk" changes nothing; the result is no longer all-trimmed |
| ListStoreProperties.ApplyKeepsWellFormed | static/app.js:316-360 | each of the five store operations keeps every list duplicate-free |
| ListStoreProperties.ApplyAllKeepsWellFormed | static/app.js:314-360 | from any duplicate-free collection (the initial empty one included), any sequence of user actions keeps every list duplicate-free |
| ListStoreProperties.TwoListScenario | static/app.js:316-350 | adding lists A and B, sending "Buy milk" to A, dropping it on A again and then on B leaves both lists holding it exactly once |
| PanelDrag.StartDrag | static/app.js:56-66 | a pointer-down on an INPUT or BUTTON changes nothing; elsewhere the panel enters dragging mode, stays put, and the offset is such that position plus offset is the pointer |
| PanelDrag.OnDrag | static/app.js:78-90 | when not dragging nothing changes; while dragging the offset is kept and the new position plus the offset is the pointer |
| PanelDrag.EndDrag | static/app.js:92-93 | dragging mode ends; position and offset are kept |
| PanelDrag.MovesWhileDragging | static/app.js:78-90 | while dragging, any non-empty run of moves keeps the offset and puts the panel at the last pointer minus the offset |
| PanelDrag.MovesWhileIdle | static/app.js:79 | when not dragging, any run of moves leaves the state unchanged |
| PanelDrag.DragTranslates | static/app.js:56-90 | after a drag starts at pointer p with the panel at x0, moves ending at p' put the panel at x0 + (p' - p), in both coordinates, unclamped |
| PanelDrag.MovesAfterEnd | static/app.js:79-93 | after a pointer-up, later moves leave the panel where it was released |
| PanelDrag.ControlDoesNotStartDrag | static/app.js:57 | a pointer-down on an input or button of an idle panel starts nothing, so later moves do not shift it |
| PanelDrag.NoClamping | static/app.js:51-89 | a mounted panel at (350, 300) grabbed at (360, 310) and moved to (0, 0) ends at (-10, -10) |

## Left out

- React rendering, the `TaskBoard`/`TaskList` components and CSS: presentation only.
- The random id of `addList` (static/app.js:317): `Math.random` is replaced by an id parameter.
- `String.prototype.trim` is modelled by its fixed code-point set; the Zs category is enumerated as of Unicode 15.
- Mouse/touch coordinate extraction (`e.clientX ?? e.touches?.[0]?.clientX`, static/app.js:59-60, 83-84): the model takes the extracted pointer as a `Point`; a touch event with no touch points, which gives `undefined` and then NaN in the source, is not modelled.
- Strings are Dafny strings, sequences of Unicode scalar values, whereas JavaScript strings are sequences of UTF-16 code units: a lone surrogate in typed text or in a dropped payload cannot be represented. On well-formed text `trim` (defined on code points) and `includes` behave as modelled.
- Pointer coordinates are integers, not floating-point numbers.
- Body scroll lock and `addEventListener`/`removeEventListener` wiring (static/app.js:68-75, 94-101, 190-198): DOM side effects with no state in the model; `preventDefault` calls likewise.
- The drag-and-drop source side (`handleDragStart`, canvas drag image, `dataTransfer`, static/app.js:150-176): browser APIs and font measurement. The drop side takes the payload string as a parameter.
- Mobile detection, the 300 ms `setTimeout` menu delay, the send menu and the draft input (static/app.js:137-310): UI and timing. `handleSend` calls `sendTaskToList` with the draft and then clears the draft (static/app.js:184-188); only the store half is modelled.
- `allowDrop` (static/app.js:352-354): only calls `preventDefault`.
