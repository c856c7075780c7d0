# To-do list application: the list handling, in Dafny

This project models the logic of a small React to-do application: the
in-memory list of todos owned by the `App` component, the three filter
modes, the updates the event handlers apply to the list (delete, add,
toggle status), the title input rule, the derived flags, and the footer's
"items left" counter, "Clear completed" enablement and filter links.

Files and modules:

- `todos.dfy` (`Todos`): the `Todo` record, the creation payload
  `NewTodo`, the numeric enumeration `FilterTypes` (its names and
  numbers), and `Response<T>`, the outcome of a request to the remote store.
- `js_array.dfy` (`JsArray`): the `Array.prototype` operations the code
  relies on, as pure functions: `filter` (`Filter`), `every` (`Every`),
  `some` (`Any`), `findIndex` (`FindIndex`) and `splice(start, 1, item)`
  (`SpliceOne`, with the start normalisation of negative and
  out-of-range positions), and what they guarantee.
- `js_string.dfy` (`JsString`): `trimStart` (`TrimStart`) over a fixed
  white-space predicate.
- `app.dfy` (`AppComponent`): `filteringTodos` and its properties; the list
  updates as functions (`RemoveTodo`, `ToggledTodo`, `StatusUpdate`) with
  their properties; `isTodosEmpty` and `isAllTodosCompleted`; and the class
  `App`, whose fields are the component state `todos`, `newTodoTitle` and
  `filterType`, with one method per event handler. Its invariant `Valid()`
  is that the title field never starts with white space.
- `footer.dfy` (`FooterComponent`): the counter, the button enablement,
  and the filter links.

Requests to the remote store are not calls in the model. Each handler
returns the payload it sends, and the handlers that wait for an answer
take the request's outcome as a `Response` parameter (`Success(value)` or
`Failure`). The delete request is never awaited, so `DeleteSelectedTodo`
takes no outcome; it returns the id it always sends. The user
id constant the requests carry is the `App`'s `const userId`, given to its
constructor, since its value is configured outside the source.

The toggle handler looks the position of the todo up in the list as it was
rendered when the checkbox was clicked, and splices the new todo into the
list as it is when the response arrives (src/App.tsx:92-98).
`HandleTodoStatus` therefore takes that rendered list as its `snapshot`
parameter; a caller with no interleaving passes `todos`. `SpliceOne`
follows `splice` exactly. When the id is not found, `findIndex` gives -1
and the last todo is replaced, or the candidate is added to an empty list.
`StatusUpdateIdMissing` and `StaleSnapshotReplacesOther` state what this
does.

`Object.values` of the numeric enumeration `FilterTypes` gives six values:
the names `'All'`, `'Active'`, `'Completed'`, then the numbers 0, 1 and 2.
A link is rendered for each. A click acts only on a name link. A link is
selected only when its value strictly equals the current mode, which is a
number. So the selected link is always a number link, and clicking it does
nothing (`SelectedLinkIsTheNumber`, `SelectedLinkIsInert`).

The model states what the code does, which differs from what such an
application is usually expected to do:

- Deleting removes the todo at once and never restores it: there is no
  rollback when the delete request fails, and no error state.
- An empty title makes no request and changes nothing: no "empty title"
  error is set.
- A successful status update is placed by position, as described above.
  It does not replace the todo with the same id in the current list, and
  a stale response is not ignored.
- The code keeps no error notification state. A failed load, add or
  status update raises an alert; a failed delete is silent, since its
  promise has no handler.

## Model

| member | source | states |
|---|---|---|
| `AppComponent.FilteringAllIsIdentity` | src/App.tsx:34-35 | under `All` the list itself is shown, same elements in the same order |
| `AppComponent.FilteringTodosSelects` | src/App.tsx:24-39 | for each mode, a todo is in the view iff it is in the list and the mode selects it (`Active`: not completed, `Completed`: completed, `All`: every todo); each selected todo occurs as often as in the list; the view is a subsequence of the list (order kept) |
| `AppComponent.ActiveAndCompletedPartition` | src/App.tsx:28-32 | the `Active` and `Completed` views have lengths summing to the list length, their multisets add up to the list's, and no todo is in both |
| `AppComponent.FilteringTodosIdempotent` | src/App.tsx:24-39 | filtering a view again by the same mode returns it unchanged |
| `AppComponent.AllCompletedIffNoneActive` | src/App.tsx:76-78 | `isAllTodosCompleted` holds iff the `Active` view is empty iff the items-left count is 0; it holds for the empty list (`isTodosEmpty`) |
| `AppComponent.RemoveTodoSpec` | src/App.tsx:52-55 | after deleting `targetId`, a todo is in the list iff it was and its id differs; every other todo is kept as often as before and in order |
| `AppComponent.RemoveAbsentTodo` | src/App.tsx:54 | deleting an id no todo has leaves the list unchanged |
| `AppComponent.RemovePresentTodo` | src/App.tsx:54 | with unique ids, deleting a present id shortens the list by exactly one |
| `AppComponent.ToggledTwice` | src/App.tsx:83-88 | the candidate flips `completed`; toggling twice gives back the todo with the configured user id |
| `AppComponent.StatusUpdateInPlace` | src/App.tsx:91-100 | when the snapshot is the current list and position `k` is the first with the id, the update keeps the length, puts the candidate at `k` and leaves every other position unchanged |
| `AppComponent.StatusUpdateUniqueIds` | src/App.tsx:91-100 | with unique ids and the id present, each position becomes the candidate if its todo has the id, and is unchanged otherwise |
| `AppComponent.StatusUpdateIdMissing` | src/App.tsx:94-98 | when no todo of the snapshot has the id, the last todo of the current list is replaced by the candidate, or the candidate becomes the only todo of an empty list |
| `AppComponent.StaleSnapshotReplacesOther` | src/App.tsx:92-98 | with snapshot `[a, b]` and current list `[b]`, toggling `a` yields `[toggled a]`: the deleted todo comes back and `b` is lost |
| `AppComponent.App.constructor` | src/App.tsx:42-44 | the state starts with no todos, an empty title and the `All` mode, and satisfies the title invariant |
| `AppComponent.App.LoadTodos` | src/App.tsx:46-50 | on success the list becomes the loaded list; on failure it is unchanged |
| `AppComponent.App.DeleteSelectedTodo` | src/App.tsx:52-55 | the delete request for the id is always sent; the list becomes `RemoveTodo` of the old list whatever the request does, so no todo with the id remains |
| `AppComponent.App.HandleSubmit` | src/App.tsx:57-74 | an empty title sends nothing and changes nothing; otherwise the payload `{userId, title, completed: false}` is sent, its title does not start with white space, the returned todo is appended on success only, and the title becomes empty on success and on failure |
| `AppComponent.App.HandleTodoStatus` | src/App.tsx:82-104 | the payload is the todo with `completed` negated, the same id and title, and the configured user id; on success the list becomes `StatusUpdate` of the old list with the snapshot's index; on failure it is unchanged |
| `AppComponent.App.ChangeNewTodoTitle` | src/App.tsx:126-129 | the stored title is the typed value with leading white space removed, so it never starts with white space |
| `AppComponent.App.SetFilterType` | src/App.tsx:147 | the setter the footer receives sets the mode and nothing else |
| `AppComponent.App.ClickFilterLink` | src/components/Footer.tsx:42 | on a non-empty list (the footer is rendered only then, src/App.tsx:144), a link click sets the mode `handleFiltering` maps the value to, and leaves it unchanged when no case matches |
| `FooterComponent.AmountOfActiveTodosCounts` | src/components/Footer.tsx:18 | the items-left count is the number of positions holding an uncompleted todo, and never exceeds the list length |
| `FooterComponent.ClearCompletedDisabledIff` | src/components/Footer.tsx:19 | the button (disabled at line 56 by `!isSomeTodoIsCompleted`) is disabled iff no todo is completed, iff the items-left count equals the list length |
| `FooterComponent.FilterLinkValues` | src/components/Footer.tsx:39 | links are rendered for six values: at position `n` the name of the mode numbered `n`, at position `3 + n` the number `n` itself |
| `FooterComponent.HandleFilteringSetsNamedMode` | src/components/Footer.tsx:21-29 | `handleFiltering` sets mode `f` iff the value is the name of `f` (`'All'`, `'Active'`, `'Completed'`) |
| `FooterComponent.HandleFilteringIgnoresOthers` | src/components/Footer.tsx:21-30 | any value that is no mode's name, such as a mode's number, matches no case and the setter is not called |
| `FooterComponent.SelectedLinkIsTheNumber` | src/components/Footer.tsx:39-46 | for every mode exactly one of the six links is selected: the one whose value strictly equals the mode's number; no name link is ever selected |
| `FooterComponent.SelectedLinkIsInert` | src/components/Footer.tsx:42-45 | the selected link's click handler matches no case, so clicking it changes nothing |
| `JsArray.FilterMembers` | src/App.tsx:29 | `filter` keeps a value iff it is in the array and satisfies the callback |
| `JsArray.FilterCounts` | src/App.tsx:32 | `filter` keeps each satisfying value as often as it occurs, and no other |
| `JsArray.FilterIsSubsequence` | src/App.tsx:54 | `filter` keeps the relative order of what it keeps |
| `JsArray.FilterLength` | src/components/Footer.tsx:18 | the length of a filtered array is the number of positions satisfying the callback, at most the array length |
| `JsArray.FilterKeepsAll` | src/App.tsx:54 | when every element satisfies the callback, `filter` returns the same sequence |
| `JsArray.FilterIdempotent` | src/App.tsx:29 | filtering twice by the same callback is filtering once |
| `JsArray.FilterPartition` | src/App.tsx:28-32 | filtering by a callback and by its negation splits the array into two disjoint parts whose lengths and multisets add up to the array's |
| `JsArray.Every` | src/App.tsx:78 | `every` holds iff the callback holds at every position, so it holds for an empty array |
| `JsArray.Any` | src/components/Footer.tsx:19 | `some` holds iff the callback holds at some position |
| `JsArray.FindIndex` | src/App.tsx:94-96 | `findIndex` gives -1 iff no element satisfies the callback, and otherwise the first position whose element does |
| `JsArray.SpliceStart` | src/App.tsx:98 | the start of `splice` is the given position when within the array, counts from the end when negative, is 0 when it is negative beyond the length, and is the length when past the end |
| `JsArray.SpliceOne` | src/App.tsx:98 | `splice(i, 1, x)` with a valid `i` keeps the length, puts `x` at `i` and changes nothing else; with -1 it replaces the last element; past the end or on an empty array it appends `x` |
| `JsString.TrimStart` | src/App.tsx:128 | `trimStart` returns a suffix of the string, everything cut off is white space, and the result does not start with white space |
| `JsString.TrimStartIdempotent` | src/App.tsx:128 | trimming a trimmed title changes nothing |
| `JsString.TrimStartEmptyIff` | src/App.tsx:66 | the stored title is empty, so the submit does nothing, iff everything typed was white space |

## Left out

- The remote store calls `getTodos`, `addTodo`, `deleteTodo` and `updateTodoStatus` and their HTTP transport: src/api/todos is not part of this model. Their outcomes are handler parameters.
- The value of `USER_ID` and the `UserWarning` screen shown when it is unset (src/App.tsx:106-108): the value is configured outside the source; the model takes it as the constructor's `userId`.
- `alert` calls on failed load, add and status update: they are I/O and change no state.
- The order in which promises settle and concurrent requests: only the stale render-time list of the toggle handler is kept, as the `snapshot` parameter. Each handler otherwise applies its outcome at once.
- `AppComponent.App.HandleSubmit`: the title is cleared and the todo appended in the same step, while the source clears the title only when the request settles.
- The exact white-space set of `trimStart`: `JsString.IsWhitespace` lists ASCII white space, the no-break space and the byte-order mark, not every Unicode space separator.
- Rendering (JSX, class names, `data-cy` attributes, link keys), src/components/Header.tsx (an unused copy of App's inline header with the same `trimStart` call), src/components/TodoList.tsx and src/components/TodoComponent.tsx (rendering only), and src/components/ErrorNotification.tsx (timer-driven and not used by App).
