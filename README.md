# Todo store and service — a verified model

This project models the core of a single-user, in-memory todo list written in
Python: the record store (`TodoStore` in `src/models.py`) and the service layer
above it (`TodoService` in `src/service.py`).

- The store keeps an ordered list of todo records (`id`, `text`, `completed`) and a
  counter `_next_id` that starts at 1. It can add a record, list all records,
  find one by id (linear scan), complete it, change its text, delete it and
  count the records.
- The service rejects text that is empty once stripped of surrounding
  whitespace, and stores the stripped text. It reports an unknown id as
  not-found and a second completion as already-complete.

The Dafny modules follow that structure:

- `Models` (`models.dfy`) holds the `Todo` record as a value datatype and
  `TodoStore` as a class. The class has the fields `todos: seq<Todo>` and
  `nextId: int`, plus a ghost history `Issued` of every id handed out so far.
  Its object invariant `Valid()` states the invariants the store keeps:
  - the ids issued so far are exactly 1, 2, …, `nextId - 1`;
  - every record held carries one of those ids;
  - ids strictly increase in list order, so they are unique and positive.
  Each method is proved to preserve `Valid()` and states its whole new state
  in terms of the old one.
- `Whitespace` (`whitespace.dfy`) models Python's `str.strip()` with no
  argument. `IsWhitespace` accepts exactly the code points Python's
  `str.isspace()` accepts: U+0009–U+000D, U+001C–U+0020, U+0085, U+00A0,
  U+1680, U+2000–U+200A, U+2028, U+2029, U+202F, U+205F and U+3000.
  `Strip` scans the way CPython does: forward from the start, then backward
  from the end but not past the first scan. It is proved equal to the
  declarative meaning, `IsStrippedFrom`: the unique slice of the input that
  has only whitespace around it and none at either of its own ends.
- `Service` (`service.dfy`) holds `TodoService`, a class wrapping a store.
  Python's three exceptions become the `Error` datatype, with the variants
  `InvalidInput`, `NotFound(id)` and `AlreadyComplete(id)`. Each service
  operation returns a `Result`. Its contract gives the outcome and the new
  store state for every case, in the source's order of checks.
- `Scenarios` (`scenarios.dfy`) holds client checks that call the service the
  way the repository's tests do. They prove the tested outcomes from the
  service contracts alone.

Python's `delete` loop, the scan in `get_by_id` and the two scans inside
`str.strip` are written as loops or scanning functions. Python's
`get_by_id` hands back the live record object, and `complete` and `update`
change that object. In the model, `Find` returns the record's position
instead, and `Complete` and `Update` replace the element at that position.

Where the code's docstrings or its exception hierarchy and the model differ,
the model follows the code:

- The invalid-input failure is Python's built-in `ValueError`. It is not a
  subclass of `TodoServiceError`. The model folds all three failures into one
  `Error` type.
- `delete_todo`'s docstring says it may return `False`. The code cannot: it
  raises not-found first. `DeleteTodo` is proved to return `Ok(true)` whenever
  it succeeds.

## Model

| member | source | states |
|---|---|---|
| `Whitespace.IsWhitespace` | hackhton-II-Phase-1/src/service.py:75-77 | Holds exactly for U+0009–U+000D, U+001C–U+0020, U+0085, U+00A0, U+1680, U+2000–U+200A, U+2028, U+2029, U+202F, U+205F and U+3000: the characters `str.strip()` removes. |
| `Whitespace.SkipLeading` | hackhton-II-Phase-1/src/service.py:75-77 | The forward scan of `str.strip` stops at the first non-whitespace index at or after its start; everything skipped is whitespace. |
| `Whitespace.SkipTrailing` | hackhton-II-Phase-1/src/service.py:75-77 | The backward scan of `str.strip` never passes the forward scan's stop; everything it skips is whitespace; and it stops just after a non-whitespace character unless it reached that bound. |
| `Whitespace.Strip` | hackhton-II-Phase-1/src/service.py:75-77 | The stripped text is no longer than the input and has no whitespace at either end. It is empty exactly when the input is all whitespace, which covers the empty input of the `not text` test. |
| `Whitespace.StripIsStripped` | hackhton-II-Phase-1/src/service.py:75-77 | What `Strip` returns is a slice of the input with only whitespace before and after it. |
| `Whitespace.StrippedUnique` | hackhton-II-Phase-1/src/service.py:75-77 | A string has at most one such stripped slice. |
| `Whitespace.StripUnique` | hackhton-II-Phase-1/src/service.py:75-77 | Any string meeting the declarative meaning of stripping equals `Strip`'s result, so the scanning definition and the declarative one agree. |
| `Whitespace.StripOfTrimmed` | hackhton-II-Phase-1/src/service.py:77 | A text with no whitespace at either end is stored unchanged. |
| `Whitespace.StripDropsSurrounding` | hackhton-II-Phase-1/tests/test_service.py:39-44 | Whitespace around a trimmed core is exactly what is removed (`"  Buy groceries  "` becomes `"Buy groceries"`). |
| `Whitespace.StripIdempotent` | hackhton-II-Phase-1/src/service.py:77 | Stripping the stored, already stripped text again changes nothing. |
| `Models.Lookup` | hackhton-II-Phase-1/src/models.py:64-67 | The record found for an id is absent exactly when no record carries that id. A found record is held in the store and carries that id. |
| `Models.LookupFirst` | hackhton-II-Phase-1/src/models.py:64-67 | The scan returns the record at the first position carrying the id. |
| `Models.LookupUnique` | hackhton-II-Phase-1/src/models.py:64-67 | With ascending ids, every record held is the one found for its own id, so "first match" and "the match" coincide. |
| `Models.ReplaceKeeps` | hackhton-II-Phase-1/src/models.py:78-81 | Overwriting one record in place keeps each position's id, so the ids stay ascending and no set completed flag is cleared. |
| `Models.ReplaceBySelf` | hackhton-II-Phase-1/src/models.py:78-81 | Writing a record back unchanged leaves the store as it was; this is why completing a completed record changes nothing. |
| `Models.CompletionKeptUnchanged` | hackhton-II-Phase-1/src/service.py:100-105 | An operation that leaves the records alone keeps every completed flag. |
| `Models.AppendKeeps` | hackhton-II-Phase-1/src/models.py:42-44 | Appending a record whose id exceeds all ids present keeps the ids ascending and every set flag. |
| `Models.RemoveKeeps` | hackhton-II-Phase-1/src/models.py:107-111 | Removing one record keeps the ids ascending and every surviving record's completed flag. |
| `Models.TodoStore.constructor` | hackhton-II-Phase-1/src/models.py:28-31 | A new store is empty, its counter is 1, no id has been issued, and the invariant holds. |
| `Models.TodoStore.Add` | hackhton-II-Phase-1/src/models.py:33-45 | Appends exactly one record at the end, with id equal to the old counter, the given text and `completed == false`. The counter goes up by one. The new id exceeds every id ever issued, and earlier records are unchanged. |
| `Models.TodoStore.GetAll` | hackhton-II-Phase-1/src/models.py:47-53 | Returns the stored records in insertion order and changes nothing. |
| `Models.TodoStore.Find` | hackhton-II-Phase-1/src/models.py:64-67 | The loop returns the first position carrying the id, and every earlier record has a different id. It returns none exactly when no record carries the id. |
| `Models.TodoStore.GetById` | hackhton-II-Phase-1/src/models.py:55-67 | Returns the first record carrying the id, or none when there is no such record. |
| `Models.TodoStore.Complete` | hackhton-II-Phase-1/src/models.py:69-81 | On a present id, sets that record's flag to true unconditionally and returns it; every other record is unchanged, and completing twice changes nothing more. On an absent id, returns none and changes nothing. The counter and the issued ids are untouched. |
| `Models.TodoStore.Update` | hackhton-II-Phase-1/src/models.py:83-96 | On a present id, replaces only that record's text and keeps its id, its flag, the order and the other records. On an absent id, returns none and changes nothing. |
| `Models.TodoStore.Delete` | hackhton-II-Phase-1/src/models.py:98-111 | Returns true exactly when the id is present. Then the new list is the old one with that single record removed and the rest in their old order. Otherwise nothing changes. The counter is never touched. |
| `Models.TodoStore.Count` | hackhton-II-Phase-1/src/models.py:113-119 | Returns the number of records held. |
| `Service.ReplaceKeepsTexts` | hackhton-II-Phase-1/src/service.py:121-126 | Overwriting a record with one whose text is non-empty and stripped keeps every stored text non-empty and stripped. |
| `Service.RemoveKeepsTexts` | hackhton-II-Phase-1/src/service.py:140-142 | Deleting a record keeps every stored text non-empty and stripped. |
| `Service.TodoService.constructor` | hackhton-II-Phase-1/src/service.py:50-56 | A service built without a store owns a new, empty store with counter 1. |
| `Service.TodoService.WithStore` | hackhton-II-Phase-1/src/service.py:50-56 | A service built with a store uses exactly that store. |
| `Service.TodoService.AddTodo` | hackhton-II-Phase-1/src/service.py:63-77 | Blank text gives invalid input and leaves the store unchanged. Otherwise it appends a new record with the old counter as id, the stripped (non-empty, trimmed) text and `completed == false`. |
| `Service.TodoService.GetTodos` | hackhton-II-Phase-1/src/service.py:79-85 | Returns the store's records in insertion order and changes nothing. |
| `Service.TodoService.CompleteTodo` | hackhton-II-Phase-1/src/service.py:87-105 | An absent id gives not-found and an already completed record gives already-complete; both leave the store unchanged. Otherwise only that record's flag goes from false to true, and the updated record is returned. No set flag is ever cleared. |
| `Service.TodoService.UpdateTodo` | hackhton-II-Phase-1/src/service.py:107-126 | Blank text gives invalid input even for an unknown id; after that, an absent id gives not-found. Both leave the store unchanged. Otherwise only that record's text becomes the stripped text; its id and flag stay. |
| `Service.TodoService.DeleteTodo` | hackhton-II-Phase-1/src/service.py:128-142 | An absent id gives not-found and leaves the store unchanged. Otherwise it returns `true`, never `false`, and exactly that record is removed. |
| `Scenarios.SequentialIds` | hackhton-II-Phase-1/tests/test_service.py:127-136 | Three successful adds on a new service return ids 1, 2 and 3. |
| `Scenarios.DeleteKeepsIdsFresh` | hackhton-II-Phase-1/src/models.py:98-111 | After adding two records and deleting the first, only record 2 remains, unchanged. The next add gets id 3: a deleted id is never reused. |
| `Scenarios.DeleteMiddleKeepsOthers` | hackhton-II-Phase-1/tests/test_models.py:136-149 | In a store holding records 1, 2 and 3, deleting 2 leaves a count of 2; records 1 and 3 are still found, unchanged, and 2 is not. |
| `Scenarios.ErrorsOnEmptyService` | hackhton-II-Phase-1/src/service.py:121-125 | On an empty service: completing or deleting any id gives not-found; updating with blank text gives invalid input, not not-found; adding blank text gives invalid input. |
| `Scenarios.UpdateKeepsId` | hackhton-II-Phase-1/tests/test_service.py:86-93 | An update keeps id 1 and the incomplete flag and stores the new stripped text. Two listings in a row are equal. |
| `Scenarios.CompleteTwice` | hackhton-II-Phase-1/tests/test_service.py:77-84 | The first completion returns the record with its flag set; the second gives already-complete. |
| `Scenarios.DeleteOnly` | hackhton-II-Phase-1/tests/test_service.py:110-118 | Deleting the only record returns `true` and leaves an empty list. |

## Left out

- `src/cli.py`, `src/interactive.py`, `src/main.py` and `src/__main__.py` are not part of this model. They only handle console input and output, command wiring and exit codes.
- Exact error message strings are not modelled. Errors are datatype variants carrying the id, like the exceptions' `todo_id` attribute.
- The exception class hierarchy (`TodoServiceError` and its two subclasses, plus the built-in `ValueError`) is flattened into one `Error` datatype.
- Object aliasing of `Todo` instances is not modelled. Records are values held in a sequence. So `GetAll` and `GetById` return snapshots, whereas Python's `get_all` copies the list but shares the record objects. A caller holding a Python `Todo` sees later changes and can change the store through it.
- The `store` property of `TodoService` is the model's read-only `store` field, not a separate member.
- `str.isspace()` follows the Unicode database of the Python version in use. The whitespace set above is the one current Python 3 releases use.
- Python's dynamic typing is not modelled. Arguments are a `string` and an `int`, so a `None` text (also caught by `not text`) cannot occur.
