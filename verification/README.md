# memo: the to-do detail screen, modelled in Dafny

The memo app shows one to-do item on a detail screen (`TodoDetailViewController`),
lets the user edit its title, due date and category through an alert, and delete
it. All tasks live in one list persisted under a fixed user-defaults key; every
edit or delete loads the whole list, changes it and saves it whole.

This project models that screen's logic as pure functions over a state made of
the optional current task (`todoItem`) and the stored list:

- `todo_items.dfy` (module `TodoItems`): the `TodoItem` record, the store seen
  through its decoder, load and save.
- `categories.dfy` (module `Categories`): the `Category` enumeration as the screen
  uses it: its cases, raw values, `Category(rawValue:)`, and the picker data source.
- `todo_detail.dfy` (module `TodoDetail`): rendering (`updateUI`), committing an
  edit (`handleEditAction`) and deleting (`handleDeleteAction`).
- `wrappers.dfy` (module `Wrappers`): the optional type.

Design decisions:

- `Date` and `Category` are opaque types. Date parsing and formatting with the
  fixed pattern "yyyy-MM-dd HH:mm" are the fields `parseDate` (partial) and
  `formatDate` of a `Platform` value. The enumeration is given by its list of
  cases and its raw-value function (`CategoryEnum`); no category labels are
  assumed. `Category(rawValue:)` is taken to be the synthesised initialiser: it
  returns the first case whose raw value equals the text, compared code point by
  code point. Swift enforces distinct raw values, and lemmas that need this
  assume it explicitly (`DistinctRawValues`).
- Because `Category` is opaque, the model admits category values that are not
  among `allCases`; Swift cannot produce them. The branches that handle such a
  value (`SelectedRow` yielding no row for it) describe states the app never
  reaches, and lemmas about a rendered or selected category require
  `c in e.allCases` for this reason.
- The record carries a `category` field. The struct in memo/TodoItemClass.swift
  declares only `id`, `title`, `isCompleted` and `dueDate`, but the controller
  reads and writes `.category`. The model follows the controller.
- The store is `Store(saved: Option<seq<TodoItem>>)`. `None` means no data or
  data that does not decode, and loads as `[]`. Saving always writes
  `Some(list)`. This lets the model tell "nothing was written" (an edit whose
  date does not parse) apart from "the same list was written back" (an edit that
  matched nothing).
- The edit loop is modelled twice. `EditEntries` is a method that follows the
  Swift loop: on every iteration it re-reads the id of the current task, which
  the loop itself reassigns. It is proved equal to the functional definitions
  `EditedList` and `CurrentAfterEdit`.
- The edit alert's due-date field starts empty. The date picker writes text
  into it only when its value changes (TodoDetailViewController.swift:177-191).
  So an edit that never touches the date picker submits "", and unless the
  formatter parses "", `HandleEdit` discards the whole edit, title included.
- The edit follows the code, not a one-match reading of it. Every entry with
  the current id is updated, and `todoItem` becomes the last one. With a nil
  current item, a parsed date still causes a load and a save of the unchanged list.
- Delete's side effects (posting "TodoItemDeleted", popping the navigation
  controller) are returned as a list of `Effect` values.

## Model

| member | source | states |
|---|---|---|
| TodoItems.Load | memo/TodoItemClass.swift:27-33 | with no stored entry, or one that does not decode, the result is the empty list; otherwise it is the decoded list |
| TodoItems.Save | memo/TodoItemClass.swift:21-25 | the entry is always written, overwriting the previous one, and the next load returns exactly the saved list |
| TodoItems.LoadAfterSave | memo/TodoItemClass.swift:21-33 | the list just saved is the list the next load returns; this holds by the store abstraction, which assumes the JSON codec round-trips |
| TodoItems.SaveLoadedIsStable | memo/TodoItemClass.swift:21-33 | saving the loaded list and loading again gives the same list, and a second save changes nothing; this holds by the store abstraction, which assumes the JSON codec round-trips |
| Categories.FromRawValue | memo/Controllers/TodoDetailViewController.swift:86 | `Category(rawValue:)` yields a case that is in allCases and carries exactly that raw value; it yields nothing iff no case carries it |
| Categories.RawValueRoundTrip | memo/Controllers/TodoDetailViewController.swift:86 | with distinct raw values, every case is recovered from its own raw value |
| Categories.NumberOfRows | memo/Controllers/TodoDetailViewController.swift:115-117 | there is one row per case, and every row has a title |
| Categories.TitleForRow | memo/Controllers/TodoDetailViewController.swift:119-121 | a row's title is the raw value of the case at that row, and that title names a case |
| Categories.PickerRowParsesBack | memo/Controllers/TodoDetailViewController.swift:111-121 | each of the picker's rows (one per case) has a title, and that title converts back to the row's case |
| Categories.SelectedRow | memo/Controllers/TodoDetailViewController.swift:149-151 | the initial picker row is the first position holding the current category; there is none iff there is no current item or its category is not a case |
| Categories.SelectedRowShowsCurrent | memo/Controllers/TodoDetailViewController.swift:145-151 | for a category among the cases, the initial row exists and its title is that category's raw value |
| TodoDetail.FormattedDate | memo/Controllers/TodoDetailViewController.swift:53-58 | a nil date gives nil text; otherwise the formatter's text for the date |
| TodoDetail.Render | memo/Controllers/TodoDetailViewController.swift:46-51 | segment is always 0 or 1, and 1 iff there is an item and it is completed; the label is "Category: " plus the raw value, or plus "" with no item; name and date text are nil iff there is no item; with an item, the name is its title and the date text is the formatter's text for its due date |
| TodoDetail.RenderedCategoryParsesBack | memo/Controllers/TodoDetailViewController.swift:49 | the text after "Category: " converts back to the item's category |
| TodoDetail.UpdateEntry | memo/Controllers/TodoDetailViewController.swift:84-88 | an updated entry keeps its id and completion flag, takes the submitted title and due date, and takes the category only when the submitted text named a case |
| TodoDetail.EditedList | memo/Controllers/TodoDetailViewController.swift:82-88 | an edit keeps the length, order, ids and completion flags; it leaves non-matching entries untouched; matching entries get the title and due date, and the category only when the text named a case |
| TodoDetail.LastMatch | memo/Controllers/TodoDetailViewController.swift:82-83 | the position of the last entry matching the current id; none iff no entry matches (always none for a nil current item) |
| TodoDetail.CurrentAfterEdit | memo/Controllers/TodoDetailViewController.swift:89 | `todoItem` after the loop keeps its id. Without a match it is unchanged; with one it carries the submitted title and due date |
| TodoDetail.LastMatchStep | memo/Controllers/TodoDetailViewController.swift:82-89 | one more loop iteration makes the new entry the last match if it matches, and keeps the previous last match otherwise |
| TodoDetail.EditEntries | memo/Controllers/TodoDetailViewController.swift:81-91 | the loop as written, which re-reads the current id each iteration, computes `EditedList` and leaves `todoItem` as `CurrentAfterEdit` |
| TodoDetail.HandleEdit | memo/Controllers/TodoDetailViewController.swift:72-94 | a due date that does not parse (nil reads as "") aborts the edit: no save, no re-render, same current item. Otherwise the edited list is saved even without a match, and the screen re-renders; with a match, it shows the submitted title and the new date |
| TodoDetail.EditWithoutMatchIsIdentity | memo/Controllers/TodoDetailViewController.swift:81-92 | with a nil current item or no matching entry, the list written back equals the list loaded and the current item is unchanged |
| TodoDetail.CurrentIsLastUpdatedEntry | memo/Controllers/TodoDetailViewController.swift:82-91 | after an edit with a match, the current item equals the last updated entry of the saved list |
| TodoDetail.EditTargetsOneEntry | memo/Controllers/TodoDetailViewController.swift:82-88 | with distinct ids, an edit changes exactly the entry with the current id |
| TodoDetail.EditIsIdempotent | memo/Controllers/TodoDetailViewController.swift:82-88 | committing the same edit twice gives the same list as committing it once |
| TodoDetail.UnknownCategoryKeepsCategory | memo/Controllers/TodoDetailViewController.swift:84-88 | a category text naming no case keeps a matching entry's category, while its title and due date still change |
| TodoDetail.CountId | memo/Controllers/TodoDetailViewController.swift:101 | the number of entries with an id is at most the length, and zero iff no entry has it |
| TodoDetail.RemoveId | memo/Controllers/TodoDetailViewController.swift:101 | no entry left carries the id, and the list shrinks by exactly the number of entries that did |
| TodoDetail.RemoveIdKeeps | memo/Controllers/TodoDetailViewController.swift:101 | an entry survives removal iff it was in the list and does not carry the id |
| TodoDetail.RemoveIdDistributes | memo/Controllers/TodoDetailViewController.swift:101 | removal of a concatenation is the concatenation of removals, so kept entries keep their relative order |
| TodoDetail.RemoveAbsentId | memo/Controllers/TodoDetailViewController.swift:101 | removing an id no entry has leaves the list unchanged |
| TodoDetail.RemoveIdIsIdempotent | memo/Controllers/TodoDetailViewController.swift:101 | removing the same id twice equals removing it once |
| TodoDetail.RemoveSingleMatch | memo/Controllers/TodoDetailViewController.swift:101 | removing the id of an entry surrounded by stretches without that id joins the two stretches |
| TodoDetail.DeleteTargetsOneEntry | memo/Controllers/TodoDetailViewController.swift:99-102 | with distinct ids, deleting the task at position k yields the list without exactly that entry, in order |
| TodoDetail.HandleDelete | memo/Controllers/TodoDetailViewController.swift:96-105 | with a nil current item nothing is loaded, saved or posted. Otherwise the saved list has no entry with the current id and is shorter by the number of matches. The deletion is posted, the screen pops, and `todoItem` is not cleared |
| TodoDetail.DeleteKeepsExactlyOthers | memo/Controllers/TodoDetailViewController.swift:99-102 | after a delete, the stored list holds exactly the previously loaded entries whose id differs from the current task's |
| TodoDetail.DeleteTwiceIsDeleteOnce | memo/Controllers/TodoDetailViewController.swift:96-102 | a second delete leaves the screen state as the first delete did |
| TodoDetail.DeleteKeepsRendering | memo/Controllers/TodoDetailViewController.swift:97-104 | after a delete the screen still renders the same task, since `todoItem` is kept |

## Left out

- UIKit outlets, alerts, the navigation bar and the pop animation (TodoDetailViewController.swift:14-41, 111-113, 129-148, 152-175): presentation and picker wiring only; the picker has one wheel. Popping is an `Effect` value. The picker's initial row (:149-151) is modelled by `SelectedRow`.
- The NotificationCenter observer registration and removal, and the "TodoItemUpdated" name (:29, :39, :206-208): re-rendering on that notification or on `viewWillAppear` is `Render` of the current item. The "TodoItemDeleted" post is an `Effect` value.
- The first-responder lookup and the text that picker and date-picker selections write into the active field (:123-127, :177-204): platform-specific routing. The text a picker row writes is `TitleForRow`.
- Categories.FromRawValue: compares raw values code point by code point, whereas Swift's `String ==` treats canonically equivalent text (a precomposed "é" against "e" plus a combining accent) as equal. So text that is only canonically equivalent to a raw value is "unknown" in the model and keeps the category (:86-88), while the app would select that case. The `Category` enum is not part of this model; that it uses the synthesised `init?(rawValue:)` is an assumption.
- DateFormatter internals: parsing and formatting are opaque functions, and the format/parse round trip is not claimed.
- The JSON encoding of the list in user defaults (TodoItemClass.swift:18-33): the store is seen through its decoder. An encoding failure, which the source silently ignores, is not modelled; `Save` always writes.
- `globalTodoList` (TodoItemClass.swift:9): never read or written by the modelled logic.
- Concurrency: the source runs on the UI thread only.
