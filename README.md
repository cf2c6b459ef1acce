# AI Productivity Assistant — verified model of the task tracker's core

The program is a Streamlit task tracker. A user records tasks: a name, a due
date, an estimated duration, a category and a priority. The tracker hands two
jobs to an external text-generation service: ranking the tasks by urgency and
drafting a day-by-day study schedule. This project models, in Dafny, what the
tracker itself does around those calls:

- **Task construction.** `Task.__post_init__` rewrites the due date as a plain
  calendar date, `YYYY-MM-DD`. That is the extended complete representation
  of section 4.1.2.2 of ISO 8601:2004. `ParseDateTime` models the part of
  `datetime.fromisoformat` used here: the Gregorian month and day bounds, leap
  years, years 1 to 9999, and an optional time after a one-character
  separator. `NormalizeDueDate` is the rewrite itself (module `IsoDate`).
- **Validation.** `_validate_task` is `ValidateTask`, built on a model of
  Python's `str.strip()` (module `TaskModel`).
- **The assistant's state.** `ProductivityAssistant` is a class with fields
  `tasks`, `schedule` and `saves` (module `Assistant`). `saves` logs every
  snapshot written to the save file, so contracts can say "no save". Its
  methods are `AddTask`, `PrioritizeTasks`, `GenerateStudySchedule`,
  `SaveData`, the "Complete" button (`Complete`) and loading at construction.
  The object invariant `Valid()` says that every stored due date is canonical
  `YYYY-MM-DD` text. Every task passes through `Task.__post_init__`, both
  when `main` builds it for `add_task` and when loading rebuilds it with
  `Task(**t)`. With this invariant, what a save writes loads back as the same
  task list.
- **Priority assignment.** The service's parsed reply is a map from key to a
  list of names. Each task gets `high`, else `medium`, else `low`. A missing
  key reads as an empty list. A failed call or failed parse changes nothing
  (module `Prioritization`).
- **Schedule re-dating.** The reply's day buckets, taken in reply order, are
  re-keyed as start date + 0, 1, 2, … days. Their blocks are carried over
  unchanged. This rests on a calendar successor function (module `Calendar`).
  That function is proved equal to Python's ordinal day arithmetic
  (`toordinal`, `_DAYS_BEFORE_MONTH`, `MAXORDINAL`), including the
  `OverflowError` past 9999-12-31 (modules `Calendar` and `Scheduling`).
- **The board's views.** These are the pending, completed and per-date
  filters, and the pending list sorted by the priority *string* (`"high"` <
  `"low"` < `"medium"`) with Python's stable sort. `Lex.Less` is Python's
  `str` comparison.

The external replies, whether the save file can be written, the state read
back from the save file, and the date of `datetime.now()` are all parameters.

Behaviours of the code worth noting:

- A schedule reply that parses as JSON but is not an object is still stored
  in `self.schedule` before the loop fails. Only a failed call or invalid
  JSON leaves the schedule untouched.
- `add_task` answers yes once validation passes, even when prioritisation or
  saving then fails. Those failures are reported, not returned.
- Tasks read back from the save file pass through `Task(**t)`, so their due
  dates are normalised. Their names are never validated, so the
  non-empty-name invariant holds only for tasks added through `add_task`.
  `Valid()` therefore covers due dates only.
- `add_task` receives a `Task` that `main` has already constructed
  (ProductivityAI.py:274-281), so its due date is already canonical. That is
  `AddTask`'s precondition. `_validate_task` still runs `fromisoformat` on it,
  and the model keeps that check.
- A non-object priority reply raises only when the loop first calls `.get`.
  Over an empty task list the success message still shows
  (`PrioritizeTasks`' `ok`).

## Model

| member | source | states |
|---|---|---|
| Calendar.NextDay | ProductivityAI.py:219 | the successor of a well-formed date is well-formed and strictly later, rolling over month and year ends |
| Calendar.NextDayIsImmediate | ProductivityAI.py:219 | no well-formed date lies strictly between a date and its successor |
| Calendar.NextDayOrdinal | ProductivityAI.py:219 | the successor's `toordinal()` is one more, so it agrees with `+ timedelta(days=1)` across month, year and leap-day boundaries |
| Calendar.DaysBeforeNextYear | ProductivityAI.py:219 | Python's `_days_before_year` grows by 366 exactly after a leap year and by 365 otherwise |
| Calendar.OrdinalOrder | ProductivityAI.py:219 | ordinals are ordered as dates are, and equal exactly for equal dates |
| Calendar.StepOrdinal | ProductivityAI.py:219 | stepping n days adds n to the ordinal |
| Calendar.AddDays | ProductivityAI.py:219 | `start + timedelta(days=n)`, when defined, is a date in range, and it equals the start exactly when n is 0 |
| Calendar.AddDaysOrdinal | ProductivityAI.py:219 | a defined `start + timedelta(days=n)` lies exactly n ordinal days after the start |
| Calendar.AddDaysOverflow | ProductivityAI.py:219 | the addition fails (OverflowError) exactly when the ordinal would pass that of 9999-12-31 (3652059) |
| Calendar.StepIncreasing | ProductivityAI.py:218-221 | a larger offset gives a strictly later date |
| Calendar.AddDaysPrefixClosed | ProductivityAI.py:218-221 | once an offset overflows, every larger one does too |
| IsoDate.ParseDateTime | ProductivityAI.py:106 | a due date `fromisoformat` accepts names an in-range Gregorian date |
| IsoDate.NormalizeDueDate | ProductivityAI.py:104-106 | the rewrite succeeds exactly when `fromisoformat` accepts the text, and the result reads back as the same date |
| IsoDate.FormatDate | ProductivityAI.py:106 | `.date().isoformat()` (and `strftime('%Y-%m-%d')` at line 220, `isoformat()` at line 291): ten characters with dashes at positions 4 and 7, which ParseFormat and FormatParse prove to be the unique YYYY-MM-DD spelling of the date |
| IsoDate.ParseFormat | ProductivityAI.py:106 | reading back `isoformat()` text gives the same date |
| IsoDate.FormatParse | ProductivityAI.py:106 | text read as a YYYY-MM-DD date is exactly that date's `isoformat()`: one spelling per date |
| IsoDate.FormatInjective | ProductivityAI.py:220 | different dates format differently |
| IsoDate.NormalizeKeepsDatePart | ProductivityAI.py:104-106 | a due date normalises only if its first ten characters are a valid date, and becomes exactly those ten characters |
| IsoDate.NormalizeFixesCanonical | ProductivityAI.py:104-106 | a due date comes out unchanged if and only if it is already a valid YYYY-MM-DD |
| IsoDate.NormalizeIdempotent | ProductivityAI.py:104-106 | normalising a normalised due date changes nothing |
| IsoDate.NormalizeTruncatesTime | ProductivityAI.py:106 | a date followed by any separator and a valid time normalises to the date part |
| IsoDate.FormatDateOrder | ProductivityAI.py:220 | formatted dates compare as Python strings in calendar order |
| TaskModel.NewTask | ProductivityAI.py:95-106 | construction succeeds iff the due date parses; the stored date is the canonical text of the same calendar date; all other fields are kept |
| TaskModel.NewTaskKeepsCanonicalDate | ProductivityAI.py:104-106 | constructing with a YYYY-MM-DD due date keeps every field as given |
| TaskModel.Rebuild | ProductivityAI.py:173 | `Task(**t)` of one record succeeds exactly when its due date parses |
| TaskModel.RebuildAll | ProductivityAI.py:173 | loading succeeds exactly when every record's due date parses, and then gives one task per record, the i-th being `Task(**t)` of the i-th record |
| TaskModel.RebuildAllCanonical | ProductivityAI.py:173 | each reloaded task has a canonical YYYY-MM-DD due date and keeps every other field of its record |
| TaskModel.RebuildAllRoundTrip | ProductivityAI.py:158-174 | reloading saved tasks with normalised dates reproduces them exactly |
| TaskModel.StripEmptyIff | ProductivityAI.py:124 | `name.strip()` is empty iff every character is Python whitespace |
| TaskModel.Strip | ProductivityAI.py:124 | `strip()` never lengthens a name, and a non-empty result starts and ends with non-whitespace |
| TaskModel.StripTrimsEnds | ProductivityAI.py:124 | `strip()` removes whitespace only, and only at the ends: the name is leading whitespace, then the stripped name, then trailing whitespace |
| TaskModel.ValidateTask | ProductivityAI.py:123-132 | the name is checked first: an all-whitespace name is rejected for its name whatever the date; the date is rejected only for a non-empty name |
| TaskModel.ValidateTaskIff | ProductivityAI.py:123-132 | a task is accepted iff its name has a non-whitespace character and its due date parses; it is rejected for its name iff the name is all whitespace |
| TaskModel.ConstructedTaskDateValid | ProductivityAI.py:127-131 | a constructed task is never rejected for its date |
| TaskModel.Select | ProductivityAI.py:289-292 | a filter is no longer than the list it filters |
| TaskModel.SelectMembers | ProductivityAI.py:289-292 | a filter keeps exactly the tasks whose field equals the value |
| TaskModel.SelectAppend | ProductivityAI.py:316 | filtering distributes over concatenation, so it keeps the list order |
| TaskModel.SelectAfterSet | ProductivityAI.py:326 | setting one task's field to v grows the v filter by one unless the task already had v |
| TaskModel.SelectAfterUnset | ProductivityAI.py:326 | setting one task's field away from v shrinks the v filter by one if it had v |
| TaskModel.PendingTasks | ProductivityAI.py:316 | the pending filter keeps exactly the tasks with status "pending" |
| TaskModel.CompletedTasks | ProductivityAI.py:339 | the completed filter keeps exactly the tasks with status "resolved" |
| TaskModel.TasksDueOn | ProductivityAI.py:289-292 | the per-date view keeps exactly the tasks whose due date is the selected date's `isoformat()` |
| TaskModel.TasksDueOnOneDate | ProductivityAI.py:289-292 | a task appears under exactly one date, the one its due date names |
| TaskModel.InsertByPriority | ProductivityAI.py:318 | inserting into a priority-sorted list keeps it sorted and adds exactly that task |
| TaskModel.SortByPriority | ProductivityAI.py:318 | `sorted(key=priority)` returns a permutation sorted by Python string order |
| TaskModel.SortStable | ProductivityAI.py:318 | the sort is stable: tasks sharing a priority keep their relative order |
| TaskModel.PriorityStringOrder | ProductivityAI.py:318 | "high" < "low" < "medium" as strings |
| TaskModel.PendingView | ProductivityAI.py:316-318 | the Pending tab lists exactly the pending tasks, each as often as in the list, sorted by priority string |
| TaskModel.Resolve | ProductivityAI.py:326 | the chosen task's status becomes "resolved", all its other fields and every other task unchanged |
| TaskModel.ResolveMovesTask | ProductivityAI.py:325-339 | a completed task is in the completed list and not in the pending view; the pending count drops by one exactly when it was pending |
| Lex.Less | ProductivityAI.py:318 | Python's `str` `<`, which `sorted(key=priority)` compares with: never holds between equal strings, and is a strict total order (LessIrreflexive, LessTransitive, LessTotal) |
| Prioritization.Listed | ProductivityAI.py:151-152 | a key missing from the reply reads as an empty list |
| Prioritization.PriorityFor | ProductivityAI.py:150-153 | high iff the name is in `high`; medium iff not in `high` but in `medium`; low iff in neither, so a name in both gets high |
| Prioritization.Prioritized | ProductivityAI.py:149-153 | every task, resolved ones included, keeps all fields but its priority, which becomes high, medium or low |
| Prioritization.PrioritizedKeepsStatusViews | ProductivityAI.py:149-153 | statuses are untouched, so the pending (or completed) view after re-prioritising is the re-prioritised view, in the same order |
| Prioritization.PrioritizedAppend | ProductivityAI.py:117-118 | after appending and re-prioritising, the earlier tasks come first in order and the new task last |
| Prioritization.PrioritizedIdempotent | ProductivityAI.py:149-153 | applying the same reply twice is applying it once |
| Prioritization.PriorityExample | ProductivityAI.py:149-153 | reply {"high": ["A"], "medium": [], "low": []} over A and B gives A high and B low |
| Scheduling.Redated | ProductivityAI.py:217-221 | a successful re-dating has one entry per bucket, each with that bucket's blocks |
| Scheduling.RedateBuckets | ProductivityAI.py:217-221 | the enumerate loop builds exactly the re-dated schedule, or fails on overflow |
| Scheduling.RedatedExtends | ProductivityAI.py:218-221 | each loop pass whose date exists appends that date's key and the bucket's blocks to what is built so far |
| Scheduling.RedatedStops | ProductivityAI.py:219 | one bucket whose date would pass 9999-12-31 makes the whole re-dating fail |
| Scheduling.RedatedShape | ProductivityAI.py:217-221 | one entry per bucket; the i-th key is a valid YYYY-MM-DD date i days after the start; the blocks are those of the i-th bucket |
| Scheduling.RedatedIncreasing | ProductivityAI.py:218-221 | keys are strictly increasing as strings and pairwise distinct, so no dict entry overwrites another |
| Scheduling.RedatedDefinedIff | ProductivityAI.py:219 | re-dating fails exactly when the last key would pass 9999-12-31 |
| Scheduling.RedatedIgnoresKeys | ProductivityAI.py:218-221 | the reply's literal keys do not affect the result |
| Scheduling.RedatedExample | ProductivityAI.py:217-223 | from 2025-01-01, two buckets become keys 2025-01-01 and 2025-01-02 with their blocks unchanged |
| Assistant.AfterPrioritizing | ProductivityAI.py:147-156 | whatever the reply, the task list keeps its length and every field of every task except the priority |
| Assistant.ProductivityAssistant.constructor | ProductivityAI.py:109-113 | loading restores the saved tasks, re-normalised, and the schedule; any load failure leaves empty state |
| Assistant.ProductivityAssistant.SaveData | ProductivityAI.py:158-166 | a writable file receives a snapshot of the current state, and loading that snapshot gives back exactly the current tasks; a failed write changes nothing |
| Assistant.ProductivityAssistant.PrioritizeTasks | ProductivityAI.py:134-156 | a parsed reply re-assigns every task's priority; any failure leaves the tasks exactly as they were |
| Assistant.ProductivityAssistant.AddTask | ProductivityAI.py:115-121 | rejection iff validation fails, with no change and no save; otherwise the task is appended, all tasks re-prioritised, the state saved if writable (and the save loads back as the new task list), and the answer is yes; every stored due date stays canonical |
| Assistant.ProductivityAssistant.Complete | ProductivityAI.py:325-327 | the chosen task's status becomes "resolved", nothing else changes, and the state is saved; a save loads back as exactly the current tasks |
| Assistant.ProductivityAssistant.GenerateStudySchedule | ProductivityAI.py:179-230 | a failed call or invalid JSON leaves the schedule untouched and returns {}; a non-object or overflowing reply is stored raw, unsaved, and {} is returned; otherwise the re-dated schedule replaces it, is saved and is returned; a save loads back as exactly the current tasks |

## Left out

- The Streamlit page is left out: CSS, forms, tabs, expanders, toasts and the
  error-message texts. Only the filter, sort and complete logic of `main` is
  modelled.
- The calls to the text-generation service and the prompt texts are left out.
  That includes the pending-task list embedded in the schedule prompt. Each
  reply is a parameter: the call fails, the text is not JSON, or the parsed
  value.
- `json.loads`, `json.dump` and file access are left out. Loading is modelled
  from what the file yields (`SavedState`), with a missing entry already read
  as empty. Saving is modelled as appending a snapshot when the file is
  writable.
- `datetime.now()` is left out. Its date is the `start` parameter, and its
  time of day does not affect the `%Y-%m-%d` keys.
- Only part of `fromisoformat` is modelled. Fractional seconds, UTC offsets,
  the compact and week-date forms of newer Python versions, and hour 24 are
  left out, because that grammar differs between Python versions.
- `FormatDate`: the model pads the year to four digits, as `isoformat()`
  does. On glibc, `strftime('%Y')` does not pad years below 1000. A start
  date that early is unreachable from `datetime.now()`.
- Duck-typing quirks are left out, and only lists of names and string dates
  are modelled:
  - a `high` or `medium` value that is a string makes `in` match substrings;
  - a value that is neither a list nor a string makes `in` raise part-way
    through the loop;
  - a non-string due date raises in `_validate_task`;
  - a schedule bucket may hold something other than a list of blocks.
- A JSON object with duplicate keys is left out. `json.loads` keeps the last
  value for such a key, and the model takes the reply as an ordered list of
  distinct buckets.
- Tasks are modelled as values. The in-place updates `task.priority = …` and
  `task.status = …` become replacing the element at that index. Aliasing of
  one Task object from two places is not captured.
- `estimated_duration` and a block's `duration` are only stored, never
  computed on, and are kept as opaque reals.
- Streamlit button keys that collide when two tasks share a name are a
  presentation concern and are left out.
