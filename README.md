# Dynamic to-do list: the task-list state in Dafny

`script.js` keeps one list of tasks in three places at once:

- the in-memory array `tasks`;
- the snapshot persisted under the key `"tasks"`;
- the list entries rendered on the page.

It also keeps the text-entry field. It changes them through four pieces of code:

- `addTask`: trims the text, rejects blank text with a notification, renders the entry, and optionally appends the task and persists it. It then clears the input field.
- The click handler of each entry's remove button: drops that entry, then deletes the first task with the same text and persists, if one exists.
- `loadTasks`: copies the snapshot into `tasks` and renders every stored item without saving.
- `saveTasks`: overwrites the snapshot with the whole array.

The model has three modules:

- `ArrayOps`: `indexOf` as `FirstIndexOf` and `splice(i, 1)` as `RemoveAt`.
- `StringTrim`: `String.prototype.trim` as `Trim`, over the ECMAScript white-space and line-terminator characters.
- `TodoList`:
  - a `Page` value holding the four pieces of state;
  - the pure transition functions `Added`, `AfterRemove` and `Loaded`, and the lemmas about them;
  - the class `TaskStore`. Its fields are the four pieces of state, and its methods `AddTask`, `Remove`, `Load` and `SaveTasks` update them in place. `AddTask`, `Remove` and `Load` are each proved to move the state exactly as `Added`, `AfterRemove` and `Loaded` say; `SaveTasks` is proved to make the snapshot equal to the list and change nothing else.

The list and the rendered entries hold the same texts only as multisets. The remove handler deletes the clicked entry, but the *first* equal task. So with duplicates, the two orders drift apart: see `RemoveDuplicateDiverges`. The model proves the multiset invariant and does not claim sequence equality.

Notes on the code's behaviour:

- The input field is cleared after every accepted `addTask`, not only after one that saves. This includes the renders done while loading (script.js:76 is outside the `if (save)`).
- Nothing catches the exception `JSON.parse` throws on a malformed snapshot, so `loadTasks` fails then (script.js:81).
- Loading raises the "Please enter a task" notification once for every stored item that trims to nothing. It renders such an item nowhere, but keeps it in `tasks`.
- The display order and the list order can diverge once duplicates exist (`RemoveDuplicateDiverges`).

## Model

| member | source | states |
|---|---|---|
| ArrayOps.FirstIndexOf | script.js:36 | the result is -1 exactly when x is absent; otherwise it is an index holding x with no x before it |
| ArrayOps.RemoveAt | script.js:38 | one element shorter; elements before i are kept and later ones shift down by one; the multiset loses exactly s[i] |
| StringTrim.IsWhitespace | script.js:55-57 | the characters `trim` removes: ECMAScript's WhiteSpace and LineTerminator code points; among the proofs only `TrimPaddingExample` depends on which characters these are |
| StringTrim.Trim | script.js:54-58 | the result has no white space at either end, is no longer than the input, and is empty exactly when the input is all white space |
| StringTrim.TrimIsInfix | script.js:55-57 | Trim(s) sits inside s with only white space before and after it |
| StringTrim.TrimOfPadded | script.js:55-57 | trimming w1 + t + w2 gives back t whenever w1 and w2 are white space and t has none at its ends; with TrimIsInfix this characterises Trim completely |
| StringTrim.TrimIdempotent | script.js:57 | trimming twice equals trimming once |
| StringTrim.TrimFixesExactlyTrimmed | script.js:57 | Trim(s) == s if and only if s has no white space at either end |
| TodoList.RawText | script.js:54-57 | the text addTask starts from: its argument, or the input field's value when there is none; stated about by `AddRejectsBlank` and `AddAppendsTrimmed` |
| TodoList.Normalize | script.js:54-64 | the trim-and-reject step of addTask, defined once and used by `AddOutcome`, `RenderOne` and `Blanks`; its results are stated by `AddRejectsBlank` and `AddAppendsTrimmed` |
| TodoList.AddOutcome | script.js:60-64 | whether addTask raises the notification or goes on with the trimmed text; stated by `AddRejectsBlank` (rejected exactly when blank) and `AddAppendsTrimmed` (an accepted text is a proper task) |
| TodoList.Added | script.js:52-77 | the whole page after addTask(text, save); its properties are stated by `AddRejectsBlank`, `AddAppendsTrimmed` and `AddKeepsInvariants` |
| TodoList.AddRejectsBlank | script.js:54-64 | addTask rejects exactly the texts that are all white space (the argument, or the input field when there is none), and a rejected call leaves the whole page unchanged, input field included |
| TodoList.AddAppendsTrimmed | script.js:52-77 | an accepted text is the trimmed text, non-empty and with no white space at either end; it is rendered last; with save it is appended to tasks and the snapshot equals tasks, without save neither list changes; the input field is emptied |
| TodoList.AddKeepsInvariants | script.js:67-73 | addTask only ever adds proper tasks; with save, the snapshot stays equal to tasks and the display stays equal to tasks as a multiset |
| TodoList.AddSavesTaskAsIs | script.js:52-77 | saving a text that is already a proper task appends it unchanged to tasks, snapshot and display |
| TodoList.AfterRemove | script.js:31-41 | the whole page after a click on the remove button of display entry i; its properties are stated by `RemoveEffect` and `RemoveKeepsInvariants` |
| TodoList.RemoveEffect | script.js:31-41 | exactly the clicked entry leaves the display; if its text is in tasks, exactly the first equal task is deleted, the others keep their order and the snapshot is rewritten to the new tasks; if not, tasks and snapshot are untouched; the input field never changes |
| TodoList.RemoveKeepsInvariants | script.js:33-39 | on a page in step the clicked entry's text is always found among the tasks, so the snapshot is always rewritten; a removal keeps snapshot == tasks and display == tasks as multisets, and keeps every task proper |
| TodoList.RemoveDuplicateDiverges | script.js:31-41 | with tasks [a, b, a], clicking the second "a" leaves display [a, b] and tasks [b, a]: still equal as multisets, no longer as sequences |
| TodoList.RemoveFirstMatchExample | script.js:36-39 | with tasks [a, a], removing the first entry leaves tasks, snapshot and display all equal to [a] |
| TodoList.RenderOne | script.js:85 | the entries one addTask(item, false) renders: none when rejected, else the trimmed text; stated by `RenderEachEffect` and `RenderedAreTasks` |
| TodoList.Rendered | script.js:85 | the entries the forEach renders for the first n items; stated by `RenderedOfTasks`, `RenderedDropsBlank`, `BlanksAreNotRendered` and `RenderedAreTasks` |
| TodoList.Blanks | script.js:85 | how many of the first n items raise the notification; stated by `BlanksAreNotRendered`, `NoBlanksExactly` and, through `Rendered`, `RenderedDropsBlank` |
| TodoList.RenderEach | script.js:85 | the page after the forEach has called addTask(item, false) on the first n items; stated by `RenderEachEffect`, with `BlanksAreNotRendered` and `RenderedDropsBlank` about what it renders |
| TodoList.Loaded | script.js:80-86 | the page after loadTasks; stated by `LoadEffect`, `LoadKeepsSnapshot`, `LoadSyncs` and `ReloadShowsSavedList` |
| TodoList.RenderedOfTasks | script.js:85 | rendering a list of proper tasks shows that list unchanged |
| TodoList.RenderedDropsBlank | script.js:85 | rendering shows one entry per item exactly when no item is all white space |
| TodoList.BlanksAreNotRendered | script.js:85 | the number of notifications plus the number of rendered entries is the number of items |
| TodoList.NoBlanksExactly | script.js:85 | loading raises no notification exactly when no stored item is all white space |
| TodoList.RenderedAreTasks | script.js:54-67 | every rendered entry is a proper task |
| TodoList.RenderEachEffect | script.js:85 | the forEach appends the rendered items to the display, leaves tasks and snapshot alone, and empties the input field once anything was rendered |
| TodoList.LoadEffect | script.js:80-86 | after loadTasks, tasks equals the snapshot, the snapshot is unchanged, and the stored items appear, rendered, after what was shown |
| TodoList.LoadKeepsSnapshot | script.js:80-86 | loading twice leaves the snapshot, and tasks, as loading once does |
| TodoList.LoadSyncs | script.js:80-86 | loading proper tasks onto an empty display shows exactly the stored list, with snapshot == tasks == display |
| TodoList.ReloadShowsSavedList | script.js:101-102 | a fresh page that loads the snapshot of a page in step displays that page's tasks in their order |
| TodoList.LoadPaddedItem | script.js:81-85 | a stored item with white space in front goes into tasks unchanged but is shown trimmed |
| TodoList.PaddedSnapshotItemSticks | script.js:31-41 | such an item's remove button finds no equal task: only the entry goes, and the snapshot keeps the item |
| TodoList.SaveEachEffect | script.js:52-77 | a run of saving adds appends the accepted texts, trimmed and in order, to tasks and display, and the snapshot follows tasks once anything was written |
| TodoList.RoundTrip | script.js:52-86 | from an empty store, saving any texts and reloading shows exactly the accepted texts, trimmed and in order, each stored once |
| TodoList.AddAddRemove | script.js:52-77 | adding tasks x then y to an empty store and removing the entry for x leaves snapshot [y] and display [y] |
| TodoList.TrimPaddingExample | script.js:54-73 | adding "  buy milk  " stores and shows "buy milk" |
| TodoList.TaskStore.constructor | script.js:8 | a fresh page: empty tasks, display and input field, and the snapshot left by an earlier session |
| TodoList.TaskStore.SaveTasks | script.js:11-13 | the snapshot becomes the whole in-memory list |
| TodoList.TaskStore.AddTask | script.js:52-77 | the outcome and the new state are exactly AddOutcome and Added of the old state, and a saving add keeps the copies in step |
| TodoList.TaskStore.Remove | script.js:31-41 | the new state is exactly AfterRemove of the old state, and the copies stay in step |
| TodoList.TaskStore.Load | script.js:80-86 | the new state is exactly Loaded of the old state; the result counts the notifications raised; loading proper tasks onto an empty display leaves the copies in step |

## Left out

- DOM creation and event wiring (script.js:1-5, 17-29, 43-44, 89-99) are left out. The display is the sequence of entry texts. The button click and the Enter key both call `addTask()` with no argument, which is `AddTask(None, true)`.
- The clicked entry is identified by its index in the display. The handler's closure text `taskText` is that entry's text.
- `alert` is a foreign UI call. `AddTask` returns `Rejected` instead, and `Load` returns how many notifications it raised.
- `JSON.stringify`/`JSON.parse` and `localStorage` are modelled as one `seq<string>` snapshot. An absent key reads as the empty list, which is the constructor's argument.
- A malformed snapshot makes `loadTasks` throw. This is not modelled.
- Non-string stored values, which `addTask` converts with `String(...)` (script.js:57), are not modelled, because the snapshot holds only strings.
- `storedTasks.slice()` (script.js:83) is a copy that nothing else aliases. The model copies by value.
- Several tabs sharing one snapshot are not modelled: there is one page.
- The white-space test, `IsWhitespace`, lists the white-space and line-terminator code points of ECMAScript's `trim`. Among the proofs only `TrimPaddingExample` depends on which characters are in it.
- Writing the snapshot is assumed to succeed. If `localStorage.setItem` throws (script.js:12), `addTask` has already rendered and pushed the task but neither persists it nor clears the input, and the remove handler has already spliced `tasks` without rewriting the snapshot; the model does not capture these partial updates.
- Strings are sequences of Unicode scalar values (Dafny's `char`), while JavaScript strings are UTF-16 code units. Every character `trim` strips lies in the Basic Multilingual Plane and no surrogate is white space, so `trim` and `===` agree on well-formed text; a lone surrogate in the input field cannot be represented.
