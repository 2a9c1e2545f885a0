# Task store of the personal task scheduler, in Dafny

The program is a small command-line to-do tool. Its core is the class `Task` in
`T_Scheduler.py`. The class keeps an in-memory list of task records (`task_list`).
The list is read from a JSON file when the store is created. `add_task` validates
a new task, gives it a fresh id, appends it and rewrites the file. The `view`
command prints a "no tasks" notice or one table row per record.

This project models that core:

- `wrappers.dfy`: `Option` and `Result`.
- `dates.dfy` (module `Dates`): the due-date check. It models
  `datetime.strptime(due_date, "%Y-%m-%d")` as a pure parser, `ParseDate`. The text
  must split at the first two `-` into three parts: exactly four ASCII digits for
  the year, and one or two ASCII digits each for the month and the day. The three
  numbers must name a real proleptic Gregorian date with a year from 1 to 9999.
  February has 29 days in years divisible by 4, except century years not divisible
  by 400. `FormatDate` is the canonical `YYYY-MM-DD` printer. It is a partner of
  the parser: the two form a proved round trip.
- `tasks.dfy` (module `Tasks`): the five-field task record and the three checks in
  their source order. It also holds the id rule `max(ids, default=0) + 1` and two
  pure specifications of one `add_task` call: `AddResult` (what the call returns or
  raises) and `AfterAdd` (the list it leaves). The lemmas about them cover unique,
  increasing ids and the invariant that every stored record passed validation.
  They also cover any sequence of calls: starting from an empty list, the
  successful calls get ids 1, 2, …, n in call order.
- `taskstore.dfy` (module `TaskStore`): the class `TaskStore` with the fields
  `taskList` and `stored`. `stored` is the backing file's contents, or `None` while
  the file does not exist. The file name is a constant field. `AddTask` is the
  imperative `add_task`. It checks the inputs in order, returns an `AddError` in
  place of raising `ValueError`, and otherwise appends the record and then replaces
  `stored`. It is proved equal to `AddResult`/`AfterAdd`. `View` is the observable
  part of `view`.

Persistence is abstract. The constructor receives what reading the file produced
(`None` for a missing file, which gives an empty list). A successful add sets the
file's contents to the whole new list. A failed add leaves both the list and the
file as they were.

## Model

| member | source | states |
|---|---|---|
| `TaskStore.TaskStore.constructor` | T_Scheduler.py:12-22 | a store opened on a missing file holds an empty list; otherwise it holds exactly what the file held. The list and the file agree (`Valid`) |
| `TaskStore.TaskStore.AddTask` | T_Scheduler.py:30-62 | the result is `AddResult` of the old list. On success the list is the old list plus the new record, and the file holds the new list. On any error, neither the list nor the file changes. The new id exceeds every old id. Unique ids and well-formedness are preserved. After a success the list and the file agree, and an agreement that held before still holds after an error |
| `TaskStore.TaskStore.SaveToJson` | T_Scheduler.py:25-27 | the file afterwards holds exactly the current list, which is not changed, so the two agree |
| `TaskStore.TaskStore.View` | T_Scheduler.py:104-107 | the no-tasks notice is shown exactly when the list is empty; otherwise the rows are the records in list order |
| `TaskStore.OpenMissingFile` | T_Scheduler.py:17-22 | with no file, `view` shows the no-tasks notice |
| `TaskStore.ReopenAfterAdd` | T_Scheduler.py:12-27 | a store reopened on the file after an add holds the same list: always after a success, and after an error when the list and the file agreed before. The reopened store's list and file agree |
| `Tasks.Validate` | T_Scheduler.py:33-45 | reports no error exactly when all three checks pass. Otherwise it reports the FIRST failing check in the order title, priority, due date (both directions of each case) |
| `Tasks.IsValidTitle` | T_Scheduler.py:34 | a title passes exactly when it has at least one character, whitespace included |
| `Tasks.IsValidPriority` | T_Scheduler.py:38 | a priority passes exactly when it is `Low`, `Medium` or `High`, with that case |
| `Tasks.ValidDueDateIff` | T_Scheduler.py:42-45 | a due date passes exactly when it is a four-digit year, a one- or two-digit month and a one- or two-digit day joined by `-` that name a real date |
| `Tasks.MaxId` | T_Scheduler.py:48 | the result is 0 for an empty list; otherwise it is an id in the list that no other id exceeds |
| `Tasks.NextId` | T_Scheduler.py:48 | the next id is 1 for an empty list, is greater than every existing id, and equals some existing id plus one otherwise |
| `Tasks.AddResult` | T_Scheduler.py:30-57 | the call succeeds exactly when all three checks pass. An error is the first failing check. The new record holds title, description, due date and priority exactly as given. Its id is above every existing id, and it is 1 on an empty list |
| `Tasks.AfterAdd` | T_Scheduler.py:60 | after an error the list is unchanged; after success it is exactly one longer, with the old records in place and the new record last |
| `Tasks.IncreasingIdsAreUnique` | T_Scheduler.py:48 | increasing ids are pairwise distinct |
| `Tasks.AddKeepsIdsUnique` | T_Scheduler.py:48-60 | from any list with unique ids, any add keeps them unique |
| `Tasks.AddKeepsIdsIncreasing` | T_Scheduler.py:48-60 | ids in increasing list order stay so after any add |
| `Tasks.AddKeepsWellFormed` | T_Scheduler.py:33-60 | a list whose records all passed validation, with positive increasing ids, stays so after any add |
| `Tasks.ApplyAll` | T_Scheduler.py:30-62 | a sequence of calls only appends: the old list stays in front, and the list grows by exactly the number of accepted requests |
| `Tasks.Accepted` | T_Scheduler.py:33-45 | every kept request passes all three checks and comes from the input. Every passing request is kept. When all pass, all are kept; a single request is kept exactly when it passes |
| `Tasks.AcceptedConcat` | T_Scheduler.py:33-45 | filtering the requests keeps their call order: the accepted requests of two runs of calls are those of the first run followed by those of the second |
| `Tasks.Numbered` | T_Scheduler.py:48-57 | record k carries request k's fields and id `first + k` |
| `Tasks.AfterAddRequest` | T_Scheduler.py:33-60 | one call appends the record with `NextId` when the request passes all checks, and changes nothing otherwise |
| `Tasks.NextIdCountingFromOne` | T_Scheduler.py:48 | on a list numbered 1..n the next id is n + 1 |
| `Tasks.AcceptedCallNumbers` | T_Scheduler.py:48-60 | an accepted call on a list numbered 1..n appends record n + 1, and the list stays numbered from 1 |
| `Tasks.RefusedCallKeeps` | T_Scheduler.py:33-45 | a refused call changes nothing in a sequence of calls |
| `Tasks.ApplyAllNumbers` | T_Scheduler.py:30-62 | on a list numbered 1..n, a sequence of calls appends exactly the accepted requests' records, numbered n + 1, n + 2, … in call order |
| `Tasks.ApplyAllFromEmpty` | T_Scheduler.py:22-60 | from an empty list, the n successful calls produce ids 1..n in insertion order, each record holding its call's arguments |
| `Tasks.ApplyAllFromEmptyIncreasing` | T_Scheduler.py:22-60 | the list built from an empty file is sorted by id and well formed |
| `Tasks.FirstAddFromEmpty` | T_Scheduler.py:48-60 | "Write report" added to an empty list becomes the single record with id 1 |
| `Tasks.EmptyTitleWins` | T_Scheduler.py:34-35 | an empty title gives the title error whatever the other inputs are, and leaves the list unchanged |
| `Tasks.LowerCasePriorityRejected` | T_Scheduler.py:38-39 | the priority `low` is refused with the priority error before the date is looked at |
| `Dates.DaysInMonth` | T_Scheduler.py:43 | months have 28 to 31 days; February has 29 exactly in leap years |
| `Dates.FirstDash` | T_Scheduler.py:43 | the result is the position of the first `-`, or the length when there is none |
| `Dates.ParseDate` | T_Scheduler.py:42-45 | an accepted date is a real calendar date in range, written as 8 to 10 characters with a four-digit year followed by `-` |
| `Dates.ParseDateAccepted` | T_Scheduler.py:42-45 | an accepted text is a four-digit year, a one- or two-digit month and a one- or two-digit day joined by `-`, and the parsed date is the value of those groups |
| `Dates.ParseDateIffDateText` | T_Scheduler.py:42-45 | a text is accepted exactly when it is three digit groups of those widths, joined by `-`, naming a real date |
| `Dates.Pad` | T_Scheduler.py:43 | zero-padded digits of the given width denoting the number |
| `Dates.ParseDigitGroups` | T_Scheduler.py:43 | for three digit groups joined by `-`, acceptance depends only on the field widths and the calendar check |
| `Dates.ParseFormatRoundTrip` | T_Scheduler.py:43 | every real date is accepted in `YYYY-MM-DD` form and parses back to itself |
| `Dates.CanonicalAcceptedIffValid` | T_Scheduler.py:43 | a date written in `YYYY-MM-DD` form is accepted exactly when it is a real date |
| `Dates.RejectsMonthThirteen` | T_Scheduler.py:42-45 | `2024-13-01` is refused |
| `Dates.RejectsFebruaryThirtieth` | T_Scheduler.py:42-45 | `2024-02-30` is refused |
| `Dates.RejectsLeapDayIn2023` | T_Scheduler.py:42-45 | `2023-02-29` is refused: 2023 is not a leap year |
| `Dates.RejectsLeapDayIn1900` | T_Scheduler.py:42-45 | `1900-02-29` is refused: century years not divisible by 400 are not leap years |
| `Dates.AcceptsLeapDayIn2024` | T_Scheduler.py:42-45 | `2024-02-29` is accepted |
| `Dates.AcceptsLeapDayIn2000` | T_Scheduler.py:42-45 | `2000-02-29` is accepted: 2000 is divisible by 400 |
| `Dates.RejectsSlashes` | T_Scheduler.py:42-45 | `2024/01/01` is refused |
| `Dates.AcceptsOneDigitFields` | T_Scheduler.py:43 | `2024-7-5` is accepted, because the month and day fields take one or two digits |

## Left out

- JSON encoding and decoding (`load_from_json`, `save_to_json`, T_Scheduler.py:17-27) are file I/O through Python's `json` library. The model treats the file as a value. A present file gives its decoded list, and a save stores the whole list. The textual round trip of the `json` library is not modelled.
- A malformed file, a file whose records lack keys or hold non-integer ids, and a failed or partial write are not handled by the source, so they are not modelled. Ids are unbounded integers, as Python's are.
- Concurrency: two processes rewriting the same file are outside the single-threaded program's logic.
- The click command-line layer (T_Scheduler.py:69-100, 126-127) belongs to a library. This includes option parsing, interactive prompts, printing the error message, and `click.Choice`, which normalises priority case before `add_task` sees it.
- The Rich table rendering in `view` (T_Scheduler.py:109-123): `View` only says which records are shown, in which order, and when the notice appears. Column styles and `str(id)` are not modelled.
- The module-level instance `task_manager = Task("tasks.json")` (T_Scheduler.py:64) is wiring.
- Dates.ParseDate: `strptime` also accepts a day written as a space followed by one digit, and it treats non-ASCII Unicode digits as digits. The model refuses both, because the library's matching grammar is not part of this model.
