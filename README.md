# ToDo-Heroes task store, modelled in Dafny

The widget keeps an ordered, newest-first list of tasks (`id`, `text`,
`completed`) and an active filter string. It stores the list under the storage
key `"tasks"` after every change and rebuilds the list of rows from the
filtered tasks. Its handlers do the following:

- add prepends a task whose text is the trimmed input, and rejects input that is empty after trimming;
- toggle flips `completed` on the first task with the given id;
- edit stores the trimmed new text when it is not empty, and Escape cancels;
- delete runs in two phases: a request that schedules a commit only if the task's row is shown, and a commit, 300 ms later, that drops every task with that id;
- a filter click sets the filter and renders.

Files:

- `wrappers.dfy`: `Option`.
- `jsstring.dfy`: module `JsString`. `String.prototype.trim` over the WhiteSpace and LineTerminator code points of ECMA-262, with a characterisation: trimming a trimmed string padded with spaces gives it back.
- `tasks.dfy`: module `Tasks`. The `Task` datatype and the list operations as pure functions:
  - `Keep` is `Array.prototype.filter`;
  - `Filtered` is the view;
  - `FindFirst` is `Array.prototype.find`;
  - `Toggled` is the in-place flip of `completed` on the task `find` returns;
  - `Retexted` is the in-place write of `text` on the task being edited. The source writes to the task object that `enableEditing` captured; the model finds that task as the first one with its id;
  - `Without` is the delete commit.

  Their lemmas cover order preservation, partition, idempotence, involution and distinct ids.
- `app.dfy`: module `TodoApp`. Class `App` holds the application state:
  - `tasks` and `currentFilter`;
  - `persisted`, the stored value;
  - `view`, the rendered rows;
  - `scheduledDeletes`, the delete commits waiting on their timers.

  Each handler is a method. `Valid()` holds before and after every handler (`Save` and `Render` are the steps handlers are built from). It states two things: loading the stored value gives `tasks`, and `view` is `Filtered(tasks, currentFilter)`. At the end of the file, five client methods walk through typical use:
  - adding "Buy milk" to an empty list gives a one-task list;
  - adding the empty string or only spaces is rejected;
  - with one pending and one completed task, the "completed" view shows the completed one alone;
  - adding a task, toggling it and deleting it leaves the list empty;
  - a delete request leaves the task in the store until its timer fires.

Points where the code's behaviour is easy to misread:

- The code does not catch a malformed stored value: `JSON.parse` throws. It does not degrade to an empty list.
- Task ids come from `Date.now()` and are never checked for uniqueness. `Tasks.StoreKeepsIdsUnique` therefore makes the new task's id being unused the hypothesis of its first `ensures` (`FindFirst(s, t.id).None? ==> ...`).
- The delete commit drops every task with the id, not just one. Only with distinct ids does it remove exactly one (`Tasks.WithoutUnique`).
- A delete request does nothing at all unless the task's row is currently rendered.

## Model

| member | source | states |
|---|---|---|
| JsString.Trim | script.js:75 | the result has no leading or trailing space, is no longer than the input, and is empty exactly when every code point of the input is a space |
| JsString.TrimPadded | script.js:75 | any trimmed string surrounded by spaces trims back to itself, which pins down the result of trim on every input |
| JsString.TrimIdempotent | script.js:75 | trimming an already trimmed value changes nothing |
| Tasks.Keep | script.js:30-34 | filter keeps exactly the elements satisfying the predicate and never lengthens the list |
| Tasks.KeepIsSubsequence | script.js:30-34 | filter output is a subsequence of its input, order preserved |
| Tasks.KeepAll | script.js:33 | filtering by a predicate all elements satisfy returns the list itself |
| Tasks.KeepSplit | script.js:30-34 | filtering by a predicate and by its negation splits the list: multisets add up and lengths sum to the original |
| Tasks.KeepUnique | script.js:117 | filtering keeps ids distinct |
| Tasks.Filtered | script.js:30-34 | the view holds exactly the tasks passing the filter ("pending": not completed; "completed": completed; anything else: all) |
| Tasks.FilteredIsSubsequence | script.js:30-34 | the view keeps the list's relative order |
| Tasks.FilteredOther | script.js:33 | any filter value other than "pending" or "completed", "all" included, shows the whole list |
| Tasks.FilteredPartition | script.js:31-32 | the "pending" and "completed" views partition the list |
| Tasks.FilteredIdempotent | script.js:26-34 | filtering the view again gives the same view |
| Tasks.HasRowIff | script.js:108-110 | a row for an id is rendered iff some task with that id passes the active filter |
| Tasks.FindFirst | script.js:94 | returns the position of the first task with the id, and None exactly when no task has it |
| Tasks.FindFirstByIds | script.js:94 | the match depends only on the ids |
| Tasks.FindFirstUnique | script.js:94 | with distinct ids, the match is the task that has the id |
| Tasks.Toggled | script.js:93-96 | flips completed on the first task with the id alone; ids, texts and every other task are unchanged; a missing id leaves the list as it is |
| Tasks.ToggleInvolution | script.js:93-100 | toggling the same id twice restores the list |
| Tasks.Retexted | script.js:133-136 | sets the text of the first task with the id alone; ids, completion flags and every other task are unchanged; a missing id leaves the list as it is |
| Tasks.RetextIdempotent | script.js:141-143 | a second commit of the same edit (blur after Enter) changes nothing more |
| Tasks.Without | script.js:117 | the commit keeps exactly the tasks whose id differs |
| Tasks.WithoutIsSubsequence | script.js:117 | survivors keep their relative order |
| Tasks.WithoutIdempotent | script.js:117 | a second commit of the same id changes nothing |
| Tasks.WithoutAbsent | script.js:117 | committing an id no task has leaves the list unchanged |
| Tasks.WithoutUnique | script.js:117 | with distinct ids, deleting a present id shortens the list by exactly one |
| Tasks.StoreKeepsIdsUnique | script.js:85-86 | add with an unused id, toggle, edit and delete all keep ids distinct |
| Tasks.AddToggleDelete | script.js:85-86 | adding a task with a fresh id, toggling it and deleting it restores the list |
| TodoApp.App.constructor | script.js:11-12 | starts with the loaded list, filter "all", no pending deletes, the stored value untouched and the view rendered |
| TodoApp.App.Save | script.js:20-22 | the stored value becomes the current list |
| TodoApp.App.Render | script.js:26-34 | the rendered rows become the filtered list |
| TodoApp.App.Add | script.js:74-91 | input empty after trim changes nothing; otherwise the task (now, trimmed input, not completed) is prepended to the unchanged old list, stored and rendered |
| TodoApp.App.Toggle | script.js:93-100 | the list becomes Toggled of the old list; with no task of that id nothing changes, not even storage |
| TodoApp.App.EditCommit | script.js:132-139 | the list becomes Retexted with the trimmed text when it is non-empty and stays the same otherwise; it is stored and rendered either way |
| TodoApp.App.EditCancel | script.js:144 | Escape changes no state |
| TodoApp.App.RequestDelete | script.js:106-113 | list, storage and rows are untouched; a commit for the id is queued exactly when a task with the id passes the active filter |
| TodoApp.App.CommitDelete | script.js:116-119 | the list becomes Without of the old list, stored and rendered |
| TodoApp.App.FireDeleteTimer | script.js:115-120 | the earliest queued commit runs and leaves the queue; the list becomes Without of that id and is stored |
| TodoApp.UntouchedEditCommit | script.js:127-136 | committing an edit whose field still holds the task's trimmed text leaves the list unchanged |
| TodoApp.App.SetFilter | script.js:167-171 | sets the filter and re-renders; list, storage and queue are untouched |

## Left out

- DOM construction, CSS classes, the exit animation class, `updateFilterButtonsUI`, focus and placeholder handling, and clearing the input after an add (script.js:36-71, 77-81, 89-90, 112, 125-130, 148-159). These are presentation. The model keeps only the list of rendered tasks.
- The 2000 ms timer that clears the validation cue is presentation. `Add` reports the cue as `accepted == false`. The delay of the 300 ms delete timer is not modelled either. Those timers all have the same delay, so they fire in the order they were scheduled, and `scheduledDeletes` is a FIFO queue.
- JSON serialisation and parsing (script.js:17, 21) are not modelled. The stored value is taken already parsed: None stands for a missing key or an empty string. The code does not catch a `JSON.parse` failure, and a stored value that is not an array of tasks is not modelled.
- `Load` stands in for `getTasksFromStorage` (script.js:15-18): nothing stored reads as the empty list, a stored list as itself. The stored value is kept already parsed, so the save-then-load round trip in `Valid()` holds by that choice and is not a proof about serialisation.
- Strings: JavaScript strings are sequences of UTF-16 code units, while Dafny's `char` is a Unicode scalar value, so a text holding a lone surrogate cannot be represented. Every whitespace code point that trim removes is in the Basic Multilingual Plane, so `Trim` is unaffected.
- `Date.now()` (script.js:85) is the parameter `now` of `Add`. Nothing in the model assumes it is fresh or increasing.
- Object identity. The handlers mutate task objects in place, and `enableEditing` captures the task object itself. The model identifies the task by its id and its first match in the list. The two agree whenever ids are distinct, and also when the edited task has been deleted in the meantime.
- The editing session itself: swapping the input element into the row, and which row is being edited. Only its commit (`EditCommit`) and its cancel (`EditCancel`) are modelled. Depending on the browser, removing the focused field on re-render can fire `blur`. After Enter, that extra event is a second `EditCommit`, which `Tasks.RetextIdempotent` shows is harmless. After Escape (script.js:144), that `blur` runs `saveEdit` and stores the typed text: `EditCancel` models only browsers that fire no `blur` when the field is removed.
- Event-listener wiring (script.js:162-165, 167-168) is plumbing. The filter click is `SetFilter`.
