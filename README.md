# Todo list: a Dafny model

This project models the todo-list component in
`client/src/components/TodoList/Todo.tsx`. The component keeps a list of tasks. Each task has a
numeric id, a name and a done flag. It offers these operations:

- add a task;
- toggle a task's flag;
- rename a task through an edit dialog;
- delete one task, the completed tasks or all tasks, each behind a confirmation dialog;
- show the list under an "all", "completed" or "active" filter;
- load the initial list from a REST backend. Raw records are normalised into tasks, and a
  built-in list is used when the request fails.

The model has three modules:

- `Text` (text.dfy) is the string behaviour the component relies on: JavaScript's `trim` over
  the ECMAScript white-space set, and `toLowerCase` for ASCII letters.
- `Todo` (todo.dfy) holds the values and the pure computations:
  - the `Task` record, the alerts and the backend requests;
  - name validation (`isValidTask` as `Validate`);
  - the list updates the handlers make (the `map`, `filter`, `find` and `every` calls);
  - the filter views;
  - the normalisation of backend records.

  It also proves the invariant that the validation is there to keep. `WellFormed` says ids are
  unique, stored names are trimmed, and no two names are equal once trimmed and lower-cased.
- `TodoView` (todo_list.dfy) is the component itself, as the class `TodoList`:
  - Each state variable of the component is a field.
  - Each event handler is a method that states the handler's full effect on the fields.
  - Every backend call except the initial GET is assumed to succeed, and the backend is assumed to answer a POST or
    PUT with the record it was sent. The helpers catch network failures themselves. On
    success, though, `api.addTask` returns whatever body the backend sent (line 60), even for
    an error status, and line 156 appends that body unchecked.
  - The requests a handler makes are appended to the field `sent`, in order.
  - The delete loops of `deleteCompleted` and `deleteAll` are a `while` loop with invariants
    (`SendDeletes`).
  - Each mutating handler that starts from a `WellFormed` list also ends with one. There are
    two exceptions. Adding under an id already in use can break it. Loading replaces the list
    with whatever the reply normalises to, which may repeat ids or names.

The id that `Date.now()` would produce is a parameter of `AddTask`. The backend's reply to
the initial load is a parameter of `LoadTasks`, of type `Response`.

## Model

| member | source | states |
|---|---|---|
| Text.TrimEmptyIffBlank | client/src/components/TodoList/Todo.tsx:136 | a trimmed name is empty exactly when every character of it is white space, which is what the empty-name check tests |
| Text.TrimIsTrimmed | client/src/components/TodoList/Todo.tsx:153 | the name `addTask` stores neither starts nor ends with white space |
| Text.TrimIdempotent | client/src/components/TodoList/Todo.tsx:153 | trimming a stored, trimmed name again changes nothing |
| Todo.DeleteRequests | client/src/components/TodoList/Todo.tsx:202-204 | the loop issues exactly one DELETE per task, in list order, carrying that task's id |
| Todo.AnyClash | client/src/components/TodoList/Todo.tsx:140-142 | true exactly when some task whose id is not the excluded one has a lower-cased name equal to the candidate trimmed and lower-cased |
| Todo.ValidateCases | client/src/components/TodoList/Todo.tsx:135-147 | a name is refused as empty exactly when it is blank; refused as a duplicate exactly when it is not blank and some task not excluded clashes with it; accepted exactly when neither holds |
| Todo.VerdictAlert | client/src/components/TodoList/Todo.tsx:136-145 | an alert is raised exactly for a refused name |
| Todo.DuplicateAddScenario | client/src/components/TodoList/Todo.tsx:140-145 | with a task "a" in the list, adding "A" is refused as a duplicate, with the duplicate-name error alert |
| Todo.ValidateIgnoresExcludedTask | client/src/components/TodoList/Todo.tsx:140-142 | the verdict for a name with an excluded id does not depend on the tasks carrying that id, whatever their names |
| Todo.RepeatedAddRejected | client/src/components/TodoList/Todo.tsx:140-157 | once a name is added, that name and every name with the same trimmed, lower-cased form are refused |
| Todo.DuplicateMeansSameKey | client/src/components/TodoList/Todo.tsx:140-146 | when stored names are trimmed, a duplicate is exactly a non-blank name whose trimmed, lower-cased form equals that of a task that is not excluded |
| Todo.AcceptedKeyIsNew | client/src/components/TodoList/Todo.tsx:140-147 | when stored names are trimmed, an accepted name differs in trimmed, lower-cased form from every task that is not excluded |
| Todo.ReplaceById | client/src/components/TodoList/Todo.tsx:173 | the `map`: length kept; each task replaced by the new one exactly when its id matches, the others kept |
| Todo.IndexOfId | client/src/components/TodoList/Todo.tsx:168 | -1 exactly when no task has the id; otherwise the first position whose task has it |
| Todo.FindById | client/src/components/TodoList/Todo.tsx:168-169 | the `find`: nothing exactly when no task has the id; otherwise the first task with the id |
| Todo.ToggleShape | client/src/components/TodoList/Todo.tsx:167-173 | an absent id leaves the list as it is; otherwise length and order are kept, other ids are untouched, and each task with the id becomes the found task flipped |
| Todo.ToggleFlipsOnlyMatching | client/src/components/TodoList/Todo.tsx:170-173 | with unique ids, the task with the id is flipped and every other task is unchanged |
| Todo.ToggleTwice | client/src/components/TodoList/Todo.tsx:170-173 | with unique ids, toggling the same id twice restores the list |
| Todo.EveryDoneWithIsAllCompleted | client/src/components/TodoList/Todo.tsx:175 | the `every` over the old list, with the updated task substituted, holds exactly when every task of the updated list is done |
| Todo.AllDoneAlertIff | client/src/components/TodoList/Todo.tsx:175-178 | the celebration alert fires exactly when the toggled task was not done before and every task of the toggled list is done |
| Todo.Filter | client/src/components/TodoList/Todo.tsx:247-251 | the `filter`: no longer than the list, and it holds only tasks of the list that satisfy the predicate |
| Todo.FilterIsSubsequence | client/src/components/TodoList/Todo.tsx:247-251 | a filter keeps the relative order of the tasks it keeps |
| Todo.FilterCount | client/src/components/TodoList/Todo.tsx:247-251 | a filter keeps every copy of a task that passes and removes every copy of a task that fails |
| Todo.DeleteOneKeepsOthers | client/src/components/TodoList/Todo.tsx:188 | deleting an id keeps exactly the tasks with other ids, every copy of each, in their original order |
| Todo.DeleteCompletedKeepsActive | client/src/components/TodoList/Todo.tsx:198-205 | after the delete no task is done; every active task is kept, every copy, in order; with nothing done the list is kept whole |
| Todo.SubsequenceOfSameSize | client/src/components/TodoList/Todo.tsx:198-205 | an in-order subsequence as long as the list is the list, which is why the no-completed case keeps the list |
| Todo.ViewsPartition | client/src/components/TodoList/Todo.tsx:247-251 | "all" shows the list; "completed" and "active" are in-order subsequences that share no task, hold every task as often as the list does between them, and their button counts add up to the total count |
| Todo.SplitByCompletion | client/src/components/TodoList/Todo.tsx:343-353 | the completed and the active tasks together are the whole list, as multisets |
| Todo.CompletedViewScenario | client/src/components/TodoList/Todo.tsx:248 | of the tasks "A" (active) and "B" (done), the completed view shows only "B" |
| Todo.Normalize | client/src/components/TodoList/Todo.tsx:116-120 | one task per record, in order, with the record's id, the name read from `task` or else `name`, and the flag read as done |
| Todo.NormalizeRecordFields | client/src/components/TodoList/Todo.tsx:118-119 | the flag is set exactly for boolean true and for the string "hoan thanh"; the name is `task` when non-empty, else `name` |
| Todo.ToRecord | client/src/components/TodoList/Todo.tsx:57 | the record body the component sends in a POST or PUT, definition; its properties are in `Todo.NormalizeRoundTrip` |
| Todo.NormalizeRoundTrip | client/src/components/TodoList/Todo.tsx:116-120 | records in the shape the component itself sends normalise back to the same tasks, provided no name is empty (an empty `task` falls through to the missing `name`) |
| Todo.FallbackTasks | client/src/components/TodoList/Todo.tsx:38-43 | the built-in fallback list normalises to its four tasks, of which only the second is done |
| Todo.SameIdsAndNamesKeepWellFormed | client/src/components/TodoList/Todo.tsx:170-173 | a change that keeps every id and every name in place keeps the invariant |
| Todo.AppendKeepsWellFormed | client/src/components/TodoList/Todo.tsx:156 | appending a task with a fresh id and a trimmed name whose key is new keeps the invariant |
| Todo.UpdateKeepsWellFormed | client/src/components/TodoList/Todo.tsx:239 | overwriting a task with one of the same id and a trimmed name no other task carries keeps the invariant |
| Todo.AcceptedNameFits | client/src/components/TodoList/Todo.tsx:140-153 | an accepted name, once trimmed, is trimmed and differs in key from every task that is not excluded |
| Todo.AddKeepsWellFormed | client/src/components/TodoList/Todo.tsx:152-156 | adding an accepted name under a fresh id keeps the invariant |
| Todo.ToggleKeepsWellFormed | client/src/components/TodoList/Todo.tsx:170-173 | toggling keeps the invariant |
| Todo.CommitEditKeepsWellFormed | client/src/components/TodoList/Todo.tsx:236-239 | committing an accepted edit with its name trimmed keeps the invariant |
| Todo.TailWellFormed | client/src/components/TodoList/Todo.tsx:185-205 | the tail of a well-formed list is well formed, and the head shares no id or name with it |
| Todo.FilterKeepsWellFormed | client/src/components/TodoList/Todo.tsx:185-205 | any filter keeps the invariant |
| Todo.DeleteKeepsWellFormed | client/src/components/TodoList/Todo.tsx:188 | deleting one id keeps the invariant |
| Todo.DeleteCompletedKeepsWellFormed | client/src/components/TodoList/Todo.tsx:205 | deleting the completed tasks keeps the invariant |
| Todo.PaddedPairKeys | client/src/components/TodoList/Todo.tsx:140-142 | a character followed by white space trims to the character, has the same key, but its lower-cased untrimmed form differs from that key |
| Todo.PaddedRenameAccepted | client/src/components/TodoList/Todo.tsx:234-236 | renaming the only task to a name with trailing white space is accepted |
| Todo.AddAfterPaddedRenameAccepted | client/src/components/TodoList/Todo.tsx:234-240 | after that rename is stored as typed, adding the bare name is accepted |
| Todo.CommitEditAsWrittenAdmitsDuplicate | client/src/components/TodoList/Todo.tsx:234-240 | the list that results holds two names with the same trimmed, lower-cased form |
| Todo.EditThenAddBreaksInvariant | client/src/components/TodoList/Todo.tsx:234-240 | the whole counterexample: from a well-formed one-task list, the padded rename is accepted and the names are still distinct after it; the bare name is then accepted; after the add two names are equal once trimmed and lower-cased, so the list is not well formed |
| Todo.AddAfterTrimmedRenameRefused | client/src/components/TodoList/Todo.tsx:140-147 | with the rename stored trimmed, the same add is refused as a duplicate |
| Todo.RenameToPaddedScenario | client/src/components/TodoList/Todo.tsx:234-241 | the names "a" and "a " form such a pair, and the task "b" has a trimmed name |
| Text.Trim | client/src/components/TodoList/Todo.tsx:136 | `trim`, definition; its properties are in `Text.TrimIsTrimmed`, `Text.TrimIdempotent` and `Text.TrimEmptyIffBlank` |
| Text.Lower | client/src/components/TodoList/Todo.tsx:141 | `toLowerCase` character by character: the length is kept |
| Todo.Key | client/src/components/TodoList/Todo.tsx:141 | the compared form, trimmed then lower-cased; definition; its properties are in `Todo.DuplicateMeansSameKey` and `Todo.AcceptedKeyIsNew` |
| Todo.Clashes | client/src/components/TodoList/Todo.tsx:140-142 | the `some` predicate, definition; its properties are in `Todo.AnyClash` and `Todo.ValidateCases` |
| Todo.Validate | client/src/components/TodoList/Todo.tsx:135-147 | `isValidTask`'s verdict, definition; its properties are in `Todo.ValidateCases` |
| Todo.NewTask | client/src/components/TodoList/Todo.tsx:153 | the record `addTask` builds, definition; its properties are in `Todo.AddKeepsWellFormed` and `Todo.RepeatedAddRejected` |
| Todo.Flip | client/src/components/TodoList/Todo.tsx:170 | the task with its flag inverted, definition; its properties are in `Todo.ToggleShape` and `Todo.ToggleTwice` |
| Todo.Toggle | client/src/components/TodoList/Todo.tsx:167-173 | the list `toggleTask` leaves, definition; its properties are in `Todo.ToggleShape`, `Todo.ToggleTwice` and `Todo.ToggleKeepsWellFormed` |
| Todo.EveryDoneWith | client/src/components/TodoList/Todo.tsx:175 | the `every` of the celebration check, definition; its properties are in `Todo.EveryDoneWithIsAllCompleted` |
| Todo.AllDoneAfterToggle | client/src/components/TodoList/Todo.tsx:175-176 | the celebration condition, definition; its properties are in `Todo.AllDoneAlertIff` |
| Todo.CommitEditAsWritten | client/src/components/TodoList/Todo.tsx:239 | the commit of an edit as written, definition; its properties are in `Todo.EditThenAddBreaksInvariant` |
| Todo.CommitEdit | client/src/components/TodoList/Todo.tsx:239 | the commit of an edit with the name trimmed, definition; its properties are in `Todo.CommitEditKeepsWellFormed` |
| Todo.Without | client/src/components/TodoList/Todo.tsx:188 | the list `deleteTask` keeps, definition; its properties are in `Todo.DeleteOneKeepsOthers` and `Todo.DeleteKeepsWellFormed` |
| Todo.CompletedOf | client/src/components/TodoList/Todo.tsx:198 | the completed tasks, definition; its properties are in `Todo.ViewsPartition` and `Todo.SplitByCompletion` |
| Todo.ActiveOf | client/src/components/TodoList/Todo.tsx:205 | the list `deleteCompleted` keeps, definition; its properties are in `Todo.DeleteCompletedKeepsActive` and `Todo.DeleteCompletedKeepsWellFormed` |
| Todo.ViewCounts | client/src/components/TodoList/Todo.tsx:247-251 | each view holds every task its filter lets through exactly as often as the list does, and no other task |
| Todo.View | client/src/components/TodoList/Todo.tsx:247-251 | `filteredTasks`, definition; its properties are in `Todo.ViewsPartition` |
| Todo.SubsequenceOfSelf | client/src/components/TodoList/Todo.tsx:247-251 | a list occurs in itself in order, which is what the "all" view needs |
| Todo.IsDone | client/src/components/TodoList/Todo.tsx:119 | the flag rule, definition; its properties are in `Todo.NormalizeRecordFields` |
| Todo.RawName | client/src/components/TodoList/Todo.tsx:118 | the name rule, `task` unless it is empty and `name` otherwise; definition; its properties are in `Todo.NormalizeRecordFields` |
| TodoView.TodoList.Shown | client/src/components/TodoList/Todo.tsx:247-251 | the tasks on screen: the whole list under "all"; in every case an in-order subsequence of the list; under "completed" every done task and under "active" every task not done, each exactly as often as the list holds it, and no other task |
| TodoView.NameOf | client/src/components/TodoList/Todo.tsx:395-399 | the name shown in the single-task confirmation: present exactly when a task has the id, and then that first task's name |
| TodoView.TodoList.constructor | client/src/components/TodoList/Todo.tsx:11-22 | the initial state: no tasks, empty field, loading, not busy, filter "all", no edit, alert or modal |
| TodoView.TodoList.LoadTasks | client/src/components/TodoList/Todo.tsx:113-128 | one GET; a list reply is normalised, a failed request yields the fallback tasks, a reply that is not a list keeps the tasks and raises the load error; loading and busy end cleared |
| TodoView.TodoList.SetNewTask | client/src/components/TodoList/Todo.tsx:302 | typing sets the new-task field and nothing else |
| TodoView.TodoList.SetFilter | client/src/components/TodoList/Todo.tsx:335-351 | a filter button sets the filter and nothing else |
| TodoView.TodoList.IsValidTask | client/src/components/TodoList/Todo.tsx:135-148 | the result is true exactly when the name is accepted; a refusal raises its alert; nothing else changes |
| TodoView.TodoList.AddTask | client/src/components/TodoList/Todo.tsx:151-163 | an invalid name only raises its alert; when busy nothing changes; otherwise one POST, the new task with the trimmed name and done false appended, the field cleared, the success alert; the invariant is kept under a fresh id |
| TodoView.TodoList.AddStep | client/src/components/TodoList/Todo.tsx:155-159 | the effect of an add that goes ahead |
| TodoView.TodoList.ToggleTask | client/src/components/TodoList/Todo.tsx:166-182 | when busy or the id is absent nothing changes; otherwise one PUT of the flipped task, the toggled list, and the celebration alert exactly as `AllDoneAfterToggle` decides; the invariant is kept |
| TodoView.TodoList.ToggleStep | client/src/components/TodoList/Todo.tsx:171-178 | the effect of a toggle that goes ahead |
| TodoView.TodoList.DeleteTask | client/src/components/TodoList/Todo.tsx:185-194 | one DELETE, the tasks with other ids kept, the modal closed, the success alert; the invariant is kept |
| TodoView.TodoList.DeleteCompleted | client/src/components/TodoList/Todo.tsx:197-211 | with no completed task nothing changes; otherwise one DELETE per completed task in order, the active tasks kept, the modal closed, the success alert; the invariant is kept |
| TodoView.TodoList.DeleteAll | client/src/components/TodoList/Todo.tsx:214-225 | one DELETE per task in order, the list emptied, the modal closed, the success alert |
| TodoView.TodoList.SendDeletes | client/src/components/TodoList/Todo.tsx:202-218 | the loop appends exactly the DELETEs of the given tasks, in order, and clears the busy flag once a call was made |
| TodoView.TodoList.OpenEditModal | client/src/components/TodoList/Todo.tsx:228-231 | editing starts on a copy of the task; nothing else changes |
| TodoView.TodoList.EditName | client/src/components/TodoList/Todo.tsx:518-520 | typing in the edit field renames the copy being edited |
| TodoView.TodoList.CancelEdit | client/src/components/TodoList/Todo.tsx:528 | the edit dialog closes; nothing else changes |
| TodoView.TodoList.UpdateTask | client/src/components/TodoList/Todo.tsx:234-245 | with no edit in progress, or when busy, nothing changes; an invalid name only raises its alert; otherwise one PUT, the edit committed with its name trimmed, the dialog closed, the success alert; the invariant is kept |
| TodoView.TodoList.CommitStep | client/src/components/TodoList/Todo.tsx:237-241 | the effect of an edit that passed validation: one PUT, the edit committed with its name trimmed, the dialog closed, the success alert |
| TodoView.TodoList.AskDeleteOne | client/src/components/TodoList/Todo.tsx:394-401 | the single-task confirmation opens for the id, with the task's name when it exists |
| TodoView.TodoList.AskDeleteCompleted | client/src/components/TodoList/Todo.tsx:419 | the confirmation for the completed tasks opens |
| TodoView.TodoList.AskDeleteAll | client/src/components/TodoList/Todo.tsx:431 | the confirmation for all tasks opens |
| TodoView.TodoList.CancelDelete | client/src/components/TodoList/Todo.tsx:470 | the confirmation closes; nothing else changes |
| TodoView.TodoList.ConfirmDelete | client/src/components/TodoList/Todo.tsx:482-490 | dispatches on what is asked: a single task is deleted only when its id is not 0; the completed and all cases behave as their handlers, busy flag included; with no modal nothing changes; the invariant is kept |

## Left out

- The HTTP layer is not modelled: `fetch`, the localhost URLs, JSON encoding and the HTTP
  methods (Todo.tsx:27-104). Every call except the initial GET is assumed to succeed
  and to echo what it was sent. The initial GET may fail, and then the fallback list is
  loaded. Each call is recorded as a `Request` in `sent`, and the busy flag is cleared as
  the helpers' `finally` clauses do.
- The `catch` branches of `addTask`, `toggleTask`, `deleteTask`, `deleteCompleted`, `deleteAll`
  and `updateTask`, with their error alerts, are not modelled. The helpers they call catch
  their own failures, so those branches are not reached under the success assumption.
- TodoView.TodoList.AddTask: assumes the backend answers the POST with the record it was sent.
  On success `api.addTask` returns the backend's body (line 60), even for an error status,
  and line 156 appends it unchecked. Only on failure does the helper return the record it
  was given. A backend that answers with something else is not modelled.
- The delays and timers are not modelled: the waits at lines 33, 59, 79 and 95, the alert
  auto-dismiss at 109, the loading delay at 126, and the focus timers at 158 and 230. The
  alert is never cleared, and `loading` is cleared at the end of `LoadTasks`.
- Concurrency is not modelled because it is event-loop behaviour. This covers the race
  between React closures and the asynchronously set busy flag. `apiLoading` is a plain field,
  cleared when a call completes and checked on entry.
- `Date.now()` is not modelled: the new id is a parameter of `AddTask`.
- `toLowerCase` changes only the ASCII letters A to Z. Unicode case mapping is not modelled.
- Rendering is not modelled: JSX, CSS, icons, refs, keypress handling and focus
  (Todo.tsx:253-557). The JSX handlers that only set state are modelled as the methods
  `SetNewTask`, `SetFilter`, `EditName`, `CancelEdit`, `AskDeleteOne`, `AskDeleteCompleted`,
  `AskDeleteAll` and `CancelDelete`. The `disabled` attributes of the buttons are not
  modelled; the handlers' own guards are.
- client/src/components/Loading.tsx is not part of this model. It is a separate screen made
  only of a GET, a timer and rendering.
- `console.error` logging is not modelled.
- Normalisation reads `t.task || t.name` with a missing `name` as the empty string rather than
  `undefined`.
- Normalisation only handles records with a numeric `id` and with `task` and `name` fields
  that are strings. A missing or non-numeric `id` (read as `undefined` or kept as it is) is not
  modelled, and neither are other JSON types in the name fields.
- A reply to the initial load that is not a list makes `map` throw. It is modelled as the
  `NotAList` response.
- Todo.ToggleTwice: assumes ids are unique. With a repeated id, the first toggle copies one
  task over the others, and the second toggle cannot undo that.
- Todo.ToggleFlipsOnlyMatching: assumes ids are unique, for the same reason. `Todo.ToggleShape`
  states the general case.
- TodoView.TodoList.UpdateTask and TodoView.TodoList.CommitStep: store and PUT the name
  trimmed, which differs from the source (see Findings). The behaviour as written is
  `Todo.CommitEditAsWritten`.
- TodoView.TodoList.LoadTasks: does not keep `WellFormed`. The reply is taken as it comes, and
  it may repeat ids or names.
- Todo.NormalizeRoundTrip: requires every name to be non-empty. In the source, an empty `task`
  falls through to the record's missing `name` and reads back as `undefined`. Every name the
  component stores through adding or editing is non-blank.
- TodoView.TodoList.AddTask: keeps the invariant only when the id is fresh. The source relies
  on `Date.now()` producing a fresh id.

## Findings

| source | as written | input that shows it | evidently intended | confidence | as-written member | corrected member |
|---|---|---|---|---|---|---|
| client/src/components/TodoList/Todo.tsx:239 | `updateTask` stores the edited name exactly as typed. `addTask` stores names trimmed (line 153), and the duplicate check lower-cases stored names without trimming them (line 141). A rename with trailing white space therefore defeats the check. | The list holds task "b". Rename it to "a " (accepted), then add "a" (accepted). The list now holds "a " and "a", which are equal once trimmed and lower-cased. | Store the edited name trimmed, as adding does, so that no two names are ever equal up to white space and case. | not executed | Todo.EditThenAddBreaksInvariant | Todo.CommitEditKeepsWellFormed |
