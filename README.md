# Todo list page: local state reconciliation

This project models the `TodoList` component of the `react-crud` todo page.
The component keeps three pieces of local state: `todos` (the list of `Todo`
rows), `inputValue` (the text of the new-todo field) and `isLoading` (true
until the first load ends). Four handlers each take the response of one
request to the remote "Todos" table and update that state:

- `getTodos` loads every row;
- `addTodo` inserts the field's text, or refuses blank text;
- `toggleTodoStatus` flips `isCompleted` for one `id`;
- `deleteTodo` removes one `id`.

The remote call is not modelled. Each handler takes its outcome as a parameter
of type `Reply<T>`. That is either `Failed(message)` or `Succeeded(data)`,
where `data` may be null (`None`), because the code tests `if (data)`. Each
handler returns the notification it would show as `Option<string>`. The insert
and update handlers also return the request they would send. That way the
payloads (`{ text, isCompleted: false }` and `{ isCompleted: !status }`) are
part of the contract.

Files:

- `Todos.dfy` (module `Todos`) holds the values and the pure parts:
  - the `Todo` row, the requests and the `Reply` outcome;
  - the character set that JavaScript's `String.prototype.trim` strips, and
    `Trim`, with the lemma that `trim() === ""` holds exactly for the
    all-whitespace strings;
  - the list updates `ReplaceById` (the `map` at line 69) and `RemoveById`
    (the `filter` at line 80), with lemmas about order, idempotence and
    distinct ids.
- `TodoPage.dfy` (module `TodoPage`) holds the class `TodoList`. Its fields are
  `todos`, `inputValue` and `isLoading`, and it has one method per handler.
  Each method's `modifies` frame names only the fields that handler sets. Its
  `ensures` give the whole new state for every outcome: error, null data, no
  rows and rows. `Scenario` is a client that follows a load, a toggle, a
  failed toggle, a delete and a refused blank add, using the contracts alone.

Behaviour of the handlers worth stating on its own:

- On a failed load, `getTodos` leaves `todos` as it was (page.tsx:27-30).
  That is the empty list only on the first load.
- Toggle and delete act on every entry with that `id` (page.tsx:69, 80).
  Toggle replaces each one with the first returned row, and delete drops
  each one. `ReplaceByIdUnique` and `RemoveByIdUnique` show that with
  distinct ids exactly one entry is affected. Nothing in the component
  enforces distinct ids, so the model does not assume it.
- `addTodo` sends the untrimmed field text. Only the blank check trims it.

Three predicates are vocabulary that the contracts above are written in,
rather than members with contracts of their own:

- `Todos.HasRows` is the `data && data.length > 0` test (page.tsx:68, 79).
  The `ensures` of `ToggleTodoStatus` and `DeleteTodo` branch on it.
- `Todos.IsWhitespace` is the set of characters `trim()` strips, written out.
  It is used by the check at page.tsx:40.
- `Todos.IsBlank` says that every character is whitespace. `TrimEmptyIffBlank`
  proves it equivalent to `trim() === ""` (page.tsx:40), and `AddTodo` states
  its blank case with it.

## Model

| member | source | states |
|---|---|---|
| `TodoPage.TodoList.constructor` | react-crud/app/page.tsx:21-23 | initially the list and the field are empty and loading is on |
| `TodoPage.TodoList.SetInputValue` | react-crud/app/page.tsx:91-92 | the field's change handler sets `inputValue` and nothing else |
| `TodoPage.TodoList.GetTodos` | react-crud/app/page.tsx:25-33 | loading is off whatever the outcome; on an error the message is shown and the list is unchanged; returned data replaces the list exactly; null data leaves it; the field is never touched |
| `TodoPage.TodoList.AddTodo` | react-crud/app/page.tsx:39-58 | blank text shows "Todo text cannot be empty", sends no request and changes nothing; otherwise the insert carries the untrimmed text and `isCompleted == false`; a returned row is appended at the end and the field cleared; an error or null data changes neither; loading is untouched |
| `TodoPage.TodoList.ToggleTodoStatus` | react-crud/app/page.tsx:60-70 | the update patches `isCompleted` to `!status` for that `id`; with rows back the list becomes `ReplaceById(old list, id, first row)`; an error or no rows leave it; field and loading untouched |
| `TodoPage.TodoList.DeleteTodo` | react-crud/app/page.tsx:72-82 | with rows back the list becomes `RemoveById(old list, id)`; an error or no rows leave it; field and loading untouched |
| `Todos.TrimStart` | react-crud/app/page.tsx:40 | the result is the suffix of the input after its leading whitespace, and it starts with a non-whitespace character or is empty |
| `Todos.TrimEnd` | react-crud/app/page.tsx:40 | the result is the prefix of the input before its trailing whitespace, and it ends with a non-whitespace character or is empty |
| `Todos.Trim` | react-crud/app/page.tsx:40 | the trimmed text is no longer than the input, and neither of its ends is whitespace |
| `Todos.TrimEmptyIffBlank` | react-crud/app/page.tsx:40 | `trim() === ""` holds if and only if every character is whitespace |
| `Todos.CountId` | react-crud/app/page.tsx:80 | the number of entries with an `id` is at most the length, and it is zero exactly when no entry has that `id` |
| `Todos.ReplaceById` | react-crud/app/page.tsx:69 | the length is kept; every position whose `id` matches holds the new row; every other position is unchanged |
| `Todos.ReplaceByIdIdempotent` | react-crud/app/page.tsx:69 | applying the same replacement twice gives the same list as once |
| `Todos.ReplaceByIdAbsent` | react-crud/app/page.tsx:69 | replacing an `id` that no entry has leaves the list unchanged |
| `Todos.ReplaceByIdUnique` | react-crud/app/page.tsx:69 | with distinct ids and a returned row that keeps its `id`, exactly the one matching position changes, and the ids stay distinct |
| `Todos.RemoveById` | react-crud/app/page.tsx:80 | the result holds exactly the entries with another `id`, and the length drops by the number of matching entries |
| `Todos.RemoveByIdAppend` | react-crud/app/page.tsx:80 | filtering distributes over concatenation, so the kept entries keep their relative order |
| `Todos.RemoveByIdAbsent` | react-crud/app/page.tsx:79-80 | deleting an `id` that no entry has leaves the list unchanged |
| `Todos.RemoveByIdIdempotent` | react-crud/app/page.tsx:80 | deleting the same `id` twice gives the same list as once |
| `Todos.RemoveByIdDistinct` | react-crud/app/page.tsx:80 | deleting keeps the ids distinct |
| `Todos.RemoveByIdUnique` | react-crud/app/page.tsx:80 | with distinct ids, deleting the `id` at position `k` gives the list without exactly that entry, one shorter |
| `Todos.AppendDistinct` | react-crud/app/page.tsx:55 | appending the inserted row keeps the ids distinct if and only if its `id` is new to the list |

## Left out

- The Supabase client calls (page.tsx lines 26, 48-52, 61-65, 73-77) are remote requests. Their outcomes are method parameters. Nothing constrains what the server returns, for example that the inserted row carries the sent text.
- `toast.error` and `console.log` are user-interface side effects. A handler returns the notification text instead. Nothing is returned for `console.log`.
- The `useEffect` mount hook and React's `useState` are framework plumbing. The state is plain class fields, and calling `GetTodos` on a fresh object stands for the mount.
- Rendering, the `date-fns` timestamp formatting and the truncated id display are presentation. `created_at` is an opaque `Timestamp`.
- Interleaved asynchronous responses and stale closures are concurrency. Each handler is one atomic step from the state at the time of the call. The stale-`status` race on toggle lies outside this model.
- `id` is a JavaScript number. It is modelled as an unbounded integer, and floating-point ids are not modelled.
- JavaScript strings are UTF-16 code units. The model's strings are Unicode scalar values, so lone surrogates are not modelled.
- react-crud/app/login/page.tsx is static markup with no state or handlers. It is not part of this model.
