# Task store model

A Dafny model of the in-memory task store behind a small CRUD service
(`main.py`). The store is one ordered list of task records, empty when the
process starts. Five operations work on it:

- **create** validates the body, assigns `id = max(existing ids) + 1` (1 on an
  empty list) and appends the record;
- **list** returns the whole list;
- **get** finds the first record with a given id by a linear scan;
- **update** validates the body, finds the record and overwrites its `title`,
  `description` and `completed` with the body's values;
- **delete** finds the record and removes it with `list.remove`.

Layout:

- `tasks.dfy`, module `Tasks`: the task record, the request body as it
  arrives (each field present or absent), the validated payload with its
  defaults, the outcome `Ok(task) | NotFound | ValidationError`, and the
  validation of a body.
- `records.dfy`, module `Records`: pure functions over the list: the
  largest id, the new record create builds, the scan by id, `dict.update`,
  `list.remove`, and the lemmas about them (removal drops exactly the found
  position, N creates from empty give ids 1..N, deleting the largest id lets
  it be handed out again).
- `store.dfy`, module `TaskStore`: the class `Store` whose field `tasks` is
  the list. Its invariant `Valid()` says ids are pairwise distinct and
  positive. `Create`, `Update` and `Delete` change the list in place.
  `List` and `Get` are reads. `CreateFromEmpty` runs N creates on a fresh
  store and states what list then returns. `ExampleSession` runs a session
  on a fresh store and states each result.

Points where the model follows the code:

- Update is not a partial update. The body is validated against the same
  payload model as create, so `title` is required. An omitted `description`
  becomes null and an omitted `completed` becomes false before the record is
  overwritten. An update body of just `{completed: true}` is a validation
  error, not a change of `completed` alone.
- `title` must be present, but the empty string is accepted.
- Create also accepts a supplied `completed`, and stores it as given.
- Validation happens before the handler runs. An update with no title is a
  validation error even when the id is absent.

## Model

| member | source | states |
|---|---|---|
| Tasks.Validate | main.py:15-21 | a body is rejected exactly when `title` is absent; otherwise the title and description are kept as given, a missing `completed` becomes false and a supplied one is kept |
| Records.MaxId | main.py:34 | the result is at least every id in the list, is 0 for the empty list and is one of the ids otherwise |
| Records.NewRecord | main.py:34-36 | the new record's id is 1 on an empty list and otherwise one more than an id present, larger than every id in the list (and at least 1 when ids are positive); its other fields come from the payload |
| Records.FindIndex | main.py:61 | the result is the position of the first record with the id, and None exactly when no record has it |
| Records.Overwrite | main.py:81 | `dict.update` with the payload keeps the record's id and takes title, description and completed from the payload |
| Records.RemoveFirst | main.py:98 | `list.remove` of a member of the list shortens it by one |
| Records.RemoveFirstSkips | main.py:98 | `list.remove` passes over a head that differs from the element and removes the first equal one from the tail |
| Records.RemoveFirstAt | main.py:95-98 | removing the record found at position i by the scan leaves the list without exactly that position, the rest in order |
| Records.RemoveAtKeepsIds | main.py:98 | deleting a record keeps ids distinct and positive and keeps every other record |
| Records.CreateAllSize | main.py:34-37 | N creates from empty leave N records whose largest id is N |
| Records.CreateAllLast | main.py:34-37 | the last of N creates from empty stores the last payload under id N |
| Records.CreateAllPrefix | main.py:37 | a create leaves the records before it in place |
| Records.CreateAllStep | main.py:34-37 | one more create appends exactly the new record to the list of the creates before it |
| Records.CreateAllAt | main.py:34-37 | the k-th of N creates from empty stores the k-th payload under id k + 1 and later creates keep it |
| Records.CreateAllFromEmpty | main.py:34-37 | after N creates on an empty store the list has N records, the k-th with id k and the k-th payload's fields |
| Records.DeleteMaxAllowsReuse | main.py:34 | after the record with the largest id is deleted, the next id handed out is at most that id |
| TaskStore.Store.constructor | main.py:13 | the store starts empty and valid |
| TaskStore.Store.Create | main.py:24-38 | a body without a title gives ValidationError and no change; otherwise exactly one record is appended, earlier records are unchanged, its id exceeds every earlier id, get finds it at the end, it is returned, and ids stay distinct |
| TaskStore.Store.Get | main.py:51-64 | never a validation error; NotFound exactly when no record has the id; otherwise a stored record with that id, the only one when ids are distinct |
| TaskStore.Store.Update | main.py:67-82 | a body without a title gives ValidationError and an absent id gives NotFound, both with no change; otherwise that record alone is replaced by one with the same id and position and the payload's title, description and completed; ids are unchanged and stay distinct |
| TaskStore.Store.Delete | main.py:85-99 | an absent id gives NotFound and no change; otherwise the found record is returned and exactly its position is removed, the rest in order; afterwards get on the id is NotFound |
| TaskStore.CreateFromEmpty | main.py:34-48 | after N creates on a fresh store, list returns N records in creation order, the k-th with id k and the k-th payload's title, description and completed, and ids are distinct |
| TaskStore.ExampleSession | tests/test.py:43-73 | on a fresh store: create gets id 1 with completed false; an update without a description nulls it; delete returns the updated record; get is then NotFound; the next create gets id 1 again |

## Left out

- The HTTP layer: routing, path-parameter parsing, JSON encoding and status
  codes. A not-found result is the `NotFound` outcome, not the
  `({"error": ...}, 404)` tuple; a validation failure is `ValidationError`,
  not a 422 response.
- Type coercion and the other checks of the validation library. Only "title
  must be present" is modelled. `Request` reads an explicit null `title` or
  `description` as an absent field. That matches version 1 of the validation
  library. Version 2 rejects an explicit null `description`, and the
  repository does not pin a version.
- Tasks.Validate: an explicit `"completed": null` is rejected by the
  validation library (main.py:21 declares a `bool`), but `Request` cannot
  tell it from an absent field, so the model stores false instead of
  returning `ValidationError`.
- Aliasing: create returns the very dict it stored and list returns the live
  list. The model returns values, so a caller cannot change the store through
  them.
- The `ValueError` that `list.remove` raises for a missing element: delete
  only removes a record it has just found, so that case cannot arise.
- RemoveFirst: its own contract states only the new length; which element
  goes is stated by RemoveFirstAt, for the case delete uses.
- Concurrency: the handlers are plain functions that the web framework runs
  on a pool of worker threads, with no lock around the list. Two creates can
  both compute the same largest id (main.py:34) before either appends
  (main.py:37), so two records can get the same id. The model runs one
  request at a time, and `Valid()`'s distinct ids hold only under that
  assumption.
