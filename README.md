# ai-generated-todo, modelled in Dafny

A model of a small in-memory todo service and proofs about it. The service
has three parts:

- `ToDo.generate` builds a five-field todo record, filling in defaults.
- `InMemoryRepository` keeps records in a JavaScript `Map` keyed by `id`.
  It offers `create`, `read`, `readAll`, `update` (a shallow merge) and
  `delete`.
- `TodoService` checks inputs and turns a missing record into an error.
  It also implements the case-sensitive substring search of `listTodos`.

Modules, one per concern:

- `Wrappers` (`wrappers.dfy`): `Option` stands for a `null` result and
  `Result` for a thrown error.
- `Js` (`js.dfy`): the JavaScript semantics the code relies on:
  - values and their truthiness;
  - plain objects as `Record = map<string, Value>`, where a missing property
    reads as `undefined`;
  - object spread `{ ...item, ...updates }`, which is the right-biased map
    union `item + updates`;
  - `String.prototype.includes`.
- `OrderedMaps` (`ordered_map.dfy`): the JavaScript `Map`, a value with the
  key insertion order and the entries. Setting a key that is already present
  keeps its position. Deleting a key drops it from the order.
- `TodoModel` (`todo_model.dfy`): `ToDo.generate` as a function.
- `Repository` (`in_memory_repository.dfy`): the class
  `InMemoryRepository`. Its one field `data` is reassigned by `Create`,
  `Update` and `Delete`. `Read` and `ReadAll` are functions that read it.
- `Service` (`todo_service.dfy`):
  - the service's errors;
  - the search callback `Matches` and the filter `Filter`, with their
    lemmas;
  - the class `TodoService` over an `InMemoryRepository`:
    - `CreateTodo`, `UpdateTodo` and `DeleteTodo` are methods that change
      storage;
    - `GetTodoById` and `ListTodos` are queries.

Behaviour of the code worth knowing:

- `readAll` lists one record per key. `create` files a record under its
  `id` and overwrites a record stored under that key, keeping its place in
  the order. `update` can store a record whose `id` differs from its key,
  so two listed records can carry the same `id`.
- `generate` applies its defaults only to `undefined`. A `null`
  description is kept as `null`.
- The repository does not check `title`. Only `createTodo` rejects a falsy
  title, and `update` can overwrite the title with anything.
- When a non-empty `textSearch` is given and for the values modelled,
  `listTodos` throws a `TypeError` in two cases:
  - a stored record's `title` is not a string;
  - the title does not match and the record's truthy `description` is not a
    string.

  With an absent or empty `textSearch` the records are returned as they
  are and nothing throws. The model returns the `TypeError` as
  `Error.TypeError`. It proves that a table whose records are all
  searchable never produces it. A record is searchable when
  its `title` is a string and its `description` is a string or falsy.
  Records created through `createTodo` with string inputs are searchable.
  Updates whose `title` is a string and whose `description` is a string or
  falsy keep them searchable.

## Model

| member | source | states |
|---|---|---|
| `Js.Truthy` | src/todo.service.js:9 | the falsy values are exactly `undefined`, `null`, `false`, `0` and `''`; every other value, including every `Date`, is truthy (the test behind each `if (!x)` of the service) |
| `Js.GetMerge` | src/in-memory.repository.js:22 | reading a property of the merged record gives the value from `updates` when `updates` has that property, and otherwise the property of the stored record, `undefined` when it has none |
| `Js.Merge` | src/in-memory.repository.js:22 | the spread merge has the keys of both objects; every key of `updates` takes the value from `updates`, and every other key keeps the value from `item` |
| `Js.Includes` | src/todo.service.js:32 | `includes` is true exactly when `needle` occurs at some position of `hay`, comparing characters exactly |
| `OrderedMaps.GetValues` | src/in-memory.repository.js:12 | `map.get(k)` of a present key is the value that `values()` lists at that key's position in the insertion order, so `read` and `readAll` agree |
| `OrderedMaps.OrderedMap.Size` | src/in-memory.repository.js:16 | the number of keys equals the length of the insertion order |
| `OrderedMaps.OrderedMap.Values` | src/in-memory.repository.js:16 | `values()` has one entry per key in insertion order, and each entry is that key's value |
| `OrderedMaps.OrderedMap.Set` | src/in-memory.repository.js:7 | after `map.set(k, v)`, `k` maps to `v`, every other key is unchanged, the map stays well formed, and the order grows by `k` only when `k` was new |
| `OrderedMaps.OrderedMap.Delete` | src/in-memory.repository.js:28 | after `map.delete(k)`, `k` is absent, every other key is unchanged, and the other keys keep their relative order |
| `OrderedMaps.Empty` | src/in-memory.repository.js:3 | `new Map()` is well formed and has no keys |
| `OrderedMaps.ValuesExact` | src/in-memory.repository.js:15-17 | `values()` has exactly one entry per live key and holds exactly the stored values |
| `OrderedMaps.SetNewValues` | src/in-memory.repository.js:7 | setting a new key appends its value at the end of `values()` |
| `OrderedMaps.SetExistingValues` | src/in-memory.repository.js:23 | setting an existing key replaces its value where it stands in `values()` and does not reorder |
| `OrderedMaps.DeleteValues` | src/in-memory.repository.js:28 | deleting a key removes exactly its value from `values()` and keeps the order of the rest |
| `TodoModel.Generate` | src/todo.model.js:2-10 | the record has exactly the fields `id`, `title`, `description`, `completed` and `createdAt`; a supplied `id`, `description` or `completed` is kept, and an undefined one becomes the random id, `''` or `false`; `title` is copied unchanged; `createdAt` is the clock value |
| `Repository.KeyOfMerge` | src/in-memory.repository.js:22 | the `id` of a merged record is the `id` of `updates` when it has one, and otherwise the `id` of the stored record, so `update` keeps a record filed under its own id exactly when `updates` sets no different `id` |
| `Repository.InMemoryRepository.constructor` | src/in-memory.repository.js:2-4 | a new repository is empty and `readAll()` is `[]` |
| `Repository.InMemoryRepository.Read` | src/in-memory.repository.js:11-13 | `read(id)` returns the stored record when `id` is a key and `null` otherwise |
| `Repository.InMemoryRepository.ReadAll` | src/in-memory.repository.js:15-17 | `readAll()` has one record per live key, in key insertion order, and holds exactly the stored records |
| `Repository.InMemoryRepository.Create` | src/in-memory.repository.js:6-9 | `create(item)` returns `item`, and `read(item.id)` then returns `item`; every other key is unchanged; an overwrite keeps the record's position in `readAll()` and a new id is appended; records stay filed under their own id |
| `Repository.InMemoryRepository.Update` | src/in-memory.repository.js:19-25 | for an absent id, `null` and no change; otherwise the stored and returned record is `old + updates`, under the same key and at the same position, with other keys unchanged; records stay filed under their own id exactly when `updates` does not set a different `id` |
| `Repository.InMemoryRepository.Delete` | src/in-memory.repository.js:27-29 | `delete(id)` returns true exactly when `id` was present; afterwards `read(id)` is `null`, other keys are unchanged, and `readAll()` loses exactly that record, keeping the rest in order; an absent id changes nothing |
| `Service.Matches` | src/todo.service.js:31-32 | the callback, when it does not throw, is true exactly when the search text occurs in the string title or in a truthy string description; a searchable record never throws; for the values modelled, a non-string title always throws a `TypeError`; a matching title decides without looking at the description |
| `Service.Filter` | src/todo.service.js:30-33 | `todos.filter(...)` fails only with a `TypeError`; a successful result is no longer than its input and every record it keeps matches the search text |
| `Service.FilterAppend` | src/todo.service.js:30-33 | the filter works record by record and keeps order: filtering `a + b` is filtering `a` and then `b`, and the first throw wins |
| `Service.FilterFails` | src/todo.service.js:30-33 | the filter throws exactly when the callback throws on some record, and then with a `TypeError` |
| `Service.FilterMembers` | src/todo.service.js:30-33 | a successful filter is no longer than its input and holds exactly the input records that match |
| `Service.FilterIdempotent` | src/todo.service.js:30-33 | filtering the result again with the same text gives the same result |
| `Service.FilterSearchable` | src/todo.service.js:30-33 | when every record is searchable the filter does not throw |
| `Service.MergeSearchable` | src/in-memory.repository.js:22 | a merge whose `title`, if present, is a string and whose `description`, if present, is a string or falsy keeps a searchable record searchable |
| `Service.SearchText` | src/todo.service.js:27 | an omitted `textSearch` is the empty string, which every string includes; a given one is used as it is |
| `Service.Deleted` | src/todo.service.js:58 | the object `deleteTodo` returns has the single property `success`, which is `true` |
| `Service.NewTodo` | src/todo.service.js:12 | the record `createTodo` builds has the five todo fields, the fresh id as both `id` and storage key, the given title, the description or `''`, `completed` false and the clock as `createdAt`; it is searchable when title and description are strings |
| `Service.TodoService.constructor` | src/todo.service.js:4-6 | the service uses the storage it is given |
| `Service.TodoService.CreateTodo` | src/todo.service.js:8-14 | a falsy title fails with "Title is required" and leaves storage unchanged; otherwise the generated record is stored under its id and returned, `read` then finds it, and a new id is appended to `readAll()` |
| `Service.TodoService.GetTodoById` | src/todo.service.js:16-25 | a falsy id fails with "ID is required"; an id that is not stored fails with not-found; otherwise the stored record is returned unchanged |
| `Service.TodoService.ListTodos` | src/todo.service.js:27-36 | with an absent or empty text, returns `readAll()` unchanged; otherwise returns the filter of `readAll()`, which on success holds exactly the stored records that match; it fails only with a `TypeError`, and never when every stored record is searchable |
| `Service.TodoService.UpdateTodo` | src/todo.service.js:38-48 | a falsy id fails with "ID is required" and an id that is not stored fails with not-found, both leaving storage unchanged; otherwise returns the merge of `updates` over the stored record, which is now stored under the same key |
| `Service.TodoService.DeleteTodo` | src/todo.service.js:50-59 | a falsy id fails with "ID is required"; otherwise it succeeds with `{ success: true }` exactly when the id was stored, and then that record is removed; a missing id fails with not-found and changes nothing |

## Left out

- `ToDo.generateRandomId` (src/todo.model.js:12-14) draws on `Math.random`.
  Its result is the `randomId` parameter of `Generate`, `NewTodo` and
  `CreateTodo`.
- `new Date()` reads the clock. Its time value is the `now` parameter, and
  a `Date` is modelled by that number.
- src/index.js is a console demonstration and is not part of this model.
- Storage is pluggable in the source, and the tests use stand-ins. The
  model wires the service to the `InMemoryRepository` only.
- Object identity and aliasing are not modelled because records are
  values. `create` returns the very object it stored, so a caller can
  change a stored record by mutating it. The model does not capture that.
  For the same reason, a `Date` used as a key is compared by value, not by
  identity.
- The value domain has only `undefined`, `null`, booleans, integers,
  strings and `Date`s. Arrays, nested objects and functions are not
  modelled. An array `title` (which `updateTodo` can store) has its own
  `includes` and does not make `listTodos` throw. A nested object in a
  record is replaced wholesale by the shallow merge, which holds in the
  model too, but such a value cannot be represented.
- The service methods take positional parameters. In the code they
  destructure one argument object. `createTodo`, `getTodoById`,
  `updateTodo` and `deleteTodo` have no default for it, so calling them
  without an argument, or with `null`, throws a `TypeError`. `listTodos`
  defaults its argument to `{}` but still throws on `null`. Those failures
  are not modelled.
- Numbers are integers. `NaN`, `-0` and fractions are not modelled.
- Objects are maps, so the order of their properties is not modelled.
- `updates` is always an object. Spreading `undefined` does the same as
  spreading the empty record. Spreading strings or arrays is not modelled.
- Service.TodoService.ListTodos: takes the search text as an optional
  string. A truthy non-string `textSearch` is not modelled: `includes`
  converts a number or an ordinary object to a string (5 searches for
  "5"), and throws a `TypeError` for a RegExp or a Symbol.
- Error messages are modelled as error kinds with the constant texts.
  "Title is required" and "ID is required" are the `ValidationError`
  messages. The not-found message is represented by the id it names.
- Strings are sequences of Dafny characters, not UTF-16 code units.
- Concurrency is not modelled: the code is single-threaded and synchronous.
