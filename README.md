# To-do list state, modelled in Dafny

This project models the client-side state of a small single-page to-do
application written in React. The root component (`src/App.tsx`) holds four
pieces of state: the list of items (`todos`, each `{id, title, completed,
userId}`), the view filter (`all` / `active` / `completed`), an optional
error message and a loading flag. Its handlers replace that state: the
initial load succeeds or fails, a trimmed title is added, one item is
toggled, one is deleted, all are toggled, the filter is set, and the error
is hidden or times out. On every render it derives the filtered list, the
"all completed" aggregate and the remaining count. The footer
(`src/components/Footer.tsx`) is a stateless function of its props. It
shows the counter word, marks the selected filter link, forwards clicks to
`setFilter`, and has a clear-completed button with no handler.

Files:

- `builtins.dfy`, module `Builtins`: the JavaScript built-ins the
  component relies on, as recursive functions with contracts.
  `Array.prototype.filter` is `Filter`, `map` is `Map`, `every` is `Every`
  and `String.prototype.trim` is `Trim`. `IsFilterOf` is an independent
  characterisation of filtering: an order-preserving subsequence holding
  exactly the matching elements. `Filter` is proved to meet it and to be the
  only sequence that does.
- `todos.dfy`, module `Todos`: the record, filter and message types, and
  the pure list transforms the handlers pass to `setTodos`, with their
  lemmas.
- `footer.dfy`, module `Footer`: the footer as a function of
  `remainingCount` and `currentFilter`.
- `app.dfy`, module `TodoApp`: class `App`, with the component's state as
  fields and one method per handler. Each method's `ensures` gives the whole
  new state in terms of the old one. `View` is one render, reduced to
  values.

Behaviour worth knowing, as the code has it:

- Toggle-all pressed twice restores the list only when all items had the
  same flag. A mixed list comes back with every item active
  (`Todos.ToggleAllTwice`).
- A failed load leaves the list as it was (empty at start), shows the load
  message and ends loading.
- Nothing keeps ids unique: loaded ids come from the server and new ones
  from the clock. The model proves only that toggling and deleting keep
  ids unique, and that adding keeps them unique exactly when the new id is
  unused.
- The clear-completed button has no click handler, so pressing it changes
  nothing (`Footer.Render`, `TodoApp.App.ClickFooterControl`).

## Model

| member | source | states |
|---|---|---|
| `Todos.Shows` | src/App.tsx:67-75 | The callback of `filteredTodos`: `active` lets through the items not completed, `completed` the completed ones, and `all` everything. Its effect on the view is proved in `Todos.FilteredTodos` and `Todos.FilteredTodosSpec`. |
| `Todos.FilteredTodos` | src/App.tsx:66-76 | The view is no longer than the list. Every shown item passes the current filter, and every passing item is shown as often as it occurs in the list. `all` shows the list itself. Order is proved in `Todos.FilteredTodosSpec`. |
| `Todos.FilteredTodosSpec` | src/App.tsx:66-76 | `all` gives the whole list. `active` gives exactly the items not completed, and `completed` exactly the completed ones. In both cases the result keeps list order and each item's multiplicity (`IsFilterOf`). |
| `Todos.FilteredTodosMembers` | src/App.tsx:66-76 | An item is in the filtered view exactly when it is in the list and the filter lets it through. |
| `Todos.ShownBy` | src/App.tsx:66-76 | The filter callback holds of an item exactly when `Shows(filter, item)` does: `active` means not completed, `completed` means completed, anything else passes. |
| `Todos.AllTodosCompleted` | src/App.tsx:78-79 | True exactly when the list is non-empty and every item is completed. So it is false for the empty list. |
| `Todos.RemainingCountViews` | src/App.tsx:180 | Added to the length of the `completed` view, the remaining count gives the list length. |
| `Todos.RemainingCount` | src/App.tsx:180 | `todos.filter(!completed).length` never exceeds the list length and equals the length of the `active` view. |
| `Todos.RemainingCountZero` | src/App.tsx:78-80 | The remaining count is 0 exactly when every item is completed. "All completed" holds exactly when the list is non-empty and the remaining count is 0. |
| `Todos.FooterVisible` | src/App.tsx:177 | The footer is rendered exactly when the list is non-empty. `TodoApp.App.View` uses it for the footer. |
| `Todos.ToggleById` | src/App.tsx:139-146 | Same length and order. Each item keeps its id, title and owner. `completed` is flipped exactly on the items whose id is `k`. |
| `Todos.ToggleByIdTwice` | src/App.tsx:139-146 | Toggling the same id twice gives back the original list. |
| `Todos.ToggleByAbsentId` | src/App.tsx:139-146 | Toggling an id that no item carries leaves the list unchanged. |
| `Todos.Pending` | src/App.tsx:180 | The callback `todo => !todo.completed` of the remaining count. `Todos.RemainingCount` and `Todos.FilteredTodosSpec` prove that it picks out exactly the `active` view. |
| `Todos.Done` | src/App.tsx:79 | The callback `todo => todo.completed` of `allTodosCompleted`. `Todos.FilteredTodosSpec` proves that it picks out exactly the `completed` view. |
| `Todos.OtherId` | src/App.tsx:161 | The delete callback holds of an item exactly when its id is not `k`. |
| `Todos.RemoveById` | src/App.tsx:159-163 | No survivor has id `k`, and the list does not grow. |
| `Todos.RemoveByIdSpec` | src/App.tsx:159-163 | The survivors are exactly the items with another id, in their old relative order and with their old multiplicity. An item survives exactly when it was in the list with another id. |
| `Todos.RemoveByIdIdempotent` | src/App.tsx:159-163 | Deleting an id that no item carries changes nothing. Deleting the same id twice is the same as deleting it once. |
| `Todos.ToggleAllItems` | src/App.tsx:91-99 | Same length and order. Each item keeps its id, title and owner. Every item's `completed` becomes `!allTodosCompleted` of the old list. |
| `Todos.ToggleAllOutcome` | src/App.tsx:91-99 | If the list was not all completed, every item is completed afterwards (and a non-empty list is then all completed). If it was, no item is completed afterwards (the remaining count equals the length). |
| `Todos.ToggleAllTwice` | src/App.tsx:91-99 | Toggle-all twice gives back the list exactly when all its items had the same `completed` flag. A mixed list (some items completed, some not) comes back with no item completed. |
| `Todos.AddTodo` | src/App.tsx:39-54 | The title is refused exactly when the input is empty or all white space, and the refusal carries the title message. Otherwise one item is appended at the end: the earlier items are unchanged and in order, and the new item has the given id, the trimmed (non-empty) title, `completed = false` and the owner `USER_ID`. |
| `Todos.TogglesKeepUniqueIds` | src/App.tsx:139-146 | If ids were unique before, they are still unique after toggling one item, and after toggle-all (lines 91-99). |
| `Todos.RemoveKeepsUniqueIds` | src/App.tsx:159-163 | If ids were unique before, they are still unique after a delete. |
| `Todos.AddKeepsUniqueIds` | src/App.tsx:47-54 | Starting from unique ids, adding keeps them unique exactly when the new id is not already in the list. |
| `Builtins.Filter` | src/App.tsx:66-76 | `filter` returns a list no longer than its input. Every element it returns passes the predicate, and each passing element appears as often as in the input. |
| `Builtins.FilterIsSubsequence` | src/App.tsx:66-76 | `filter` keeps the relative order of the elements it keeps. |
| `Builtins.FilterOfIsUnique` | src/App.tsx:66-76 | Only `filter`'s result meets the characterisation above, so it is fully determined by it. |
| `Builtins.Map` | src/App.tsx:94-98 | `map` keeps the length and puts `f(s[i])` at position `i`. |
| `Builtins.Every` | src/App.tsx:79 | `every` holds exactly when the predicate holds of every element, so it is true of the empty list. |
| `Builtins.TrimBoth` | src/App.tsx:39 | Trimming returns a slice of the input with only removable characters cut before and after it. The result is empty exactly when the input is all removable characters. Otherwise it starts and ends with a character that is not removable. |
| `Builtins.Trim` | src/App.tsx:39 | `trim()` returns a slice of the input with only ECMAScript white space and line terminators cut before and after it. It is empty exactly when the input is all ECMAScript white space or line terminators. Otherwise it starts and ends with other characters. |
| `Footer.CounterWord` | src/components/Footer.tsx:23 | The word is `item` exactly when the count is 1, and `items` otherwise, 0 included. |
| `Footer.HandleFilter` | src/components/Footer.tsx:16-18 | `handleFilter` asks `setFilter` for the filter it was given, unchanged. |
| `Footer.Link` | src/components/Footer.tsx:27-58 | A link stands for its filter. It is selected exactly when the current filter is that filter, and its click asks for that filter. |
| `Footer.Render` | src/components/Footer.tsx:20-69 | The footer shows the count and its word, and the links `All`, `Active`, `Completed` in that order. Each link is selected exactly when its filter is the current one. Each link's click asks for its own filter, unchanged. The clear-completed button has no handler. |
| `Footer.ExactlyOneSelected` | src/components/Footer.tsx:28-57 | Exactly one of the three links is selected, and it is the current filter's. |
| `TodoApp.App.constructor` | src/App.tsx:10-13 | The initial state: an empty list, filter `all`, no error, loading. |
| `TodoApp.App.StartLoad` | src/App.tsx:15-16 | The mount effect sets loading and changes nothing else. |
| `TodoApp.App.LoadSucceeded` | src/App.tsx:17-20 | A successful load replaces the list with the fetched one, ends loading, and leaves the filter and the error alone. |
| `TodoApp.App.LoadFailed` | src/App.tsx:17-20 | A failed load shows the load message, ends loading, and leaves the list and the filter as they were. |
| `TodoApp.App.HandleAddTodo` | src/App.tsx:35-60 | A refused title shows the title message and leaves the list as it was. An accepted one sets the list to the appended list and leaves the error alone. The filter and the loading flag never change. |
| `TodoApp.App.HandleHideError` | src/App.tsx:62-64 | The error becomes none and nothing else changes. |
| `TodoApp.App.ErrorTimeoutFired` | src/App.tsx:23-31 | When the auto-dismiss timer fires while a message is shown, the error becomes none and nothing else changes. |
| `TodoApp.App.HandleToggle` | src/App.tsx:139-146 | The list becomes `ToggleById` of the old list. The other fields are unchanged. |
| `TodoApp.App.HandleDelete` | src/App.tsx:159-163 | The list becomes `RemoveById` of the old list. The other fields are unchanged. |
| `TodoApp.App.HandleToggleAll` | src/App.tsx:91-100 | The list becomes `ToggleAllItems` of the old list. The other fields are unchanged. |
| `TodoApp.App.SetFilter` | src/App.tsx:177-183 | The filter becomes the given one. The list, the error and the loading flag are unchanged. |
| `TodoApp.App.ClickFooterControl` | src/components/Footer.tsx:16-18 | A link's handler sets the filter to the link's filter. A control without a handler (clear completed) leaves the filter unchanged. The list, the error and the loading flag never change. |
| `TodoApp.App.View` | src/App.tsx:81-205 | The toggle-all button is active exactly when the list is non-empty and all items are completed. The loader replaces the list exactly while loading, and otherwise the filtered view is shown. The footer is present exactly when the list is non-empty, and it is rendered from the remaining count and the filter. The notification carries the current error. |

## Left out

- JSX markup, CSS class composition, test hooks and the per-item loader
  overlay (`src/App.tsx:168-171`) are presentation only. `View` keeps only
  the values that the markup shows.
- The text of the counter (`{n} items left`) is not rendered. `Footer.Render`
  keeps the count and the word.
- The network request `getTodos` is asynchronous I/O. Only its two
  outcomes are modelled, as `LoadSucceeded` and `LoadFailed`. Nothing forces
  them to happen once, or after `StartLoad`.
- The 3-second auto-dismiss timer depends on the clock and the event loop.
  Only its firing is modelled, as `ErrorTimeoutFired`. The delay and the
  cancel-and-restart on each change of message are not modelled.
- `Date.now()` ids depend on the clock. The new id is a parameter of
  `HandleAddTodo`, and no uniqueness is claimed.
- The Enter-key test, `preventDefault` and the clearing of the input through
  `inputRef` are DOM event plumbing. `HandleAddTodo` starts after Enter,
  from the field's text.
- The `Filter`, `ErrorMessages` and `api/todos` modules are not part of this
  model. `Filter` is a three-value datatype, and the two messages are
  distinct constants without text. `USER_ID` is the `userId` given to the
  constructor.
- React's batching and its deferred functional updates are not modelled.
  Each handler's effect on the state is applied whole, as soon as the
  handler runs. So the `allTodosCompleted` that toggle-all reads from the
  last render and the `prevTodos` it maps over are the same list here.
- Strings are sequences of Unicode scalar values, not
  JavaScript's UTF-16 code units. The white-space set is ECMAScript's
  WhiteSpace and LineTerminator characters.
