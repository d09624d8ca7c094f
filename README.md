# To-do scheduling core, modelled in Dafny

This project models the client-side scheduling logic of a small to-do application. The model covers:

- **Tasks:** `Todo` records with a naive local due string `YYYY-MM-DDTHH:mm`.
- **Date-time helpers:** splitting the due string, parsing it to an instant, start and end of day, minutes until a target.
- **Daily-load analyser:** six four-hour buckets, then peak, spread, busiest window and a light/balanced/heavy class.
- **Task status flags:** completed, overdue, in progress, planned.
- **Task-screen views:** the three-mode filter (focus window, exact, between), the stable sort by due instant, paging, grouping by date, the next upcoming task and its 15-minute reminder, the day the load card analyses, and the today/tomorrow/next-seven-days summary.
- **Task-screen state:** a class whose handlers change the cached list and the view state (add with conflict detection, toggle, delete, clear completed, the in-progress marker and its cleanup effect, paging, focus mode, filter inputs, reminder dismissal, clock tick).
- **Form validation:** the task form schema and the password rule.
- **Database mapping:** from a `tasks` table row to the task object the API returns.

Modules:

- `Wrappers`: `Option` and `Result`.
- `JsMath`, `JsString`, `JsArray`, `JsDate`: the JavaScript built-ins the core relies on.
  - `Math.ceil` of a quotient.
  - `String.prototype.split` and `trim`, and `Number` on digit strings.
  - `Array.prototype.filter`, and a stable sort by an optional numeric key.
  - The `Date` constructor's day and time arithmetic, following the `MakeDay`, `MakeTime` and `MakeDate` operations of the ECMAScript language specification over a zone-free civil calendar.
- `TodoTypes`: the client task record.
- `Utils`: the helpers in `src/components/todo/utils.ts`.
- `Schemas`: `src/components/todo/schemas.ts`.
- `TaskRows`: `src/app/api/tasks/types.ts`.
- `TodoView`: the derived views of `TodoApp.tsx`.
- `TodoAppState`: the state and handlers of `TodoApp.tsx`, as the class `TodoApp`.

Modelling conventions:

- **Instants and NaN:** instants are integer milliseconds. JavaScript `NaN` (a due string that does not parse) is `None`. Every comparison against `None` is false, exactly as every comparison against `NaN` is. So an unparsable task fails the focus and exact-instant checks but passes the between-mode date check, as in the source.
- **`Number(s)`:** on a string of ASCII digits it is their value, on `""` it is 0, and on anything else it is NaN.
- **Inputs instead of ambient values:** the current instant, the today and tomorrow day keys, and server replies are inputs.

## Model

| member | source | states |
|---|---|---|
| Utils.Pad2 | src/components/todo/utils.ts:5-7 | The result has at least two characters, exactly two below 100, and reading it back as a number gives n. |
| Utils.PartsWithoutT | src/components/todo/utils.ts:27-33 | With no `T`, the date part is the whole string and the time part is "". |
| Utils.PartsAroundFirstT | src/components/todo/utils.ts:27-33 | The date part is the text before the first `T`. The time part is the text after it, up to a second `T` or the end. |
| Utils.PartsRejoin | src/components/todo/utils.ts:27-33 | A string with exactly one `T` equals date part + "T" + time part. |
| Utils.DateTimeWellFormed | src/components/todo/utils.ts:35-40 | Digit runs `Y-M-DTH:m` parse to the local instant of year Y, 1-based month M and day D at H:m, with overflow carrying as in the `Date` constructor. |
| Utils.LocalInstantClock | src/components/todo/utils.ts:39 | With an hour in [0, 23] and a minute in [0, 59], the instant falls on the named day and its hour is that hour. |
| Utils.DateOnlyWellFormed | src/components/todo/utils.ts:42-45 | Three digit runs joined by `-` parse to local midnight of that year, month and day. |
| Utils.TimeToMinutesWellFormed | src/components/todo/utils.ts:47-50 | `HH:mm` parses to HH*60+mm. A clock time 00:00–23:59 lands in [0, 1439]. |
| Utils.StartOfDay | src/components/todo/utils.ts:19-21 | The result is at or before t, on the same day as t, and at midnight. |
| Utils.EndOfDay | src/components/todo/utils.ts:23-25 | The result is at or after t, on the same day as t, and one millisecond before the next midnight. |
| Utils.WithinDayIff | src/components/todo/utils.ts:19-25 | u lies in [startOfDay(t), endOfDay(t)] exactly when u falls on t's day. |
| Utils.AddDays | src/components/todo/utils.ts:13-17 | The result is `days` days later at the same time of day. |
| Utils.MinutesUntil | src/components/todo/utils.ts:73-75 | The result is the ceiling of the difference in minutes: (r-1) minutes < target-now <= r minutes. |
| Utils.MinutesUntilNonNegative | src/components/todo/utils.ts:73-75 | A target at or after now is zero or more minutes away. |
| Utils.MinutesUntilAtMost | src/components/todo/utils.ts:73-75 | The target is at most w minutes away iff it is no more than w*60000 ms ahead. |
| Utils.MinutesUntilExact | src/components/todo/utils.ts:73-75 | A target exactly k minutes ahead is k minutes away. |
| Utils.DueWindow | src/components/todo/utils.ts:88-90 | A parsed due time maps to a window index in [0, 5]. |
| Utils.CountByWindow | src/components/todo/utils.ts:86-92 | The bucket loop yields exactly six counts. Count w is the number of tasks whose due hour falls in window w. |
| Utils.WindowsCoverParsed | src/components/todo/utils.ts:86-92 | Over the six windows, the counts add up to the number of tasks whose due time parses. |
| Utils.AllParsedCount | src/components/todo/utils.ts:86-94 | When every due time parses, every task is counted. |
| Utils.NonEmptyAtMostSum | src/components/todo/utils.ts:96 | There are never more non-empty buckets than tasks in the buckets. |
| Utils.FirstPeak | src/components/todo/utils.ts:95-98 | The first index holding the maximum exists, and every earlier bucket is strictly smaller. |
| Utils.DailyLoadUnique | src/components/todo/utils.ts:77-104 | Two reports that both satisfy `IsDailyLoadOf` for the same tasks are equal: the report is determined by the tasks. |
| Utils.GetDailyLoad | src/components/todo/utils.ts:77-104 | `IsDailyLoadOf` holds: six buckets with the per-window counts. They sum to the parsed count, and to `total` when every due time parses. `peak` is the largest bucket. `spread` is the number of non-empty buckets, at most 6 and at most `total`. `busiestWindow` is the label of the first bucket equal to the peak. The class is that of the score. |
| Utils.ClassifyByDoubledScore | src/components/todo/utils.ts:100-101 | With d = 2*total + 3*peak + max(0, spread-1): light iff d <= 10, balanced iff 10 < d <= 20, heavy iff d > 20. |
| Utils.LoadMonotoneInTotal | src/components/todo/utils.ts:100-101 | More tasks, with the same peak and spread, never give a lighter class. |
| Utils.GetTaskFlags | src/components/todo/utils.ts:106-113 | `completed` is copied. `overdue` iff open and the due instant is before now. `inProgress` iff open and the marker names the task. A completed task has no other flag. `planned` iff no other flag holds, so at least one flag always holds. |
| Utils.OverdueWhileInProgress | src/components/todo/utils.ts:109-111 | An open, past-due task that holds the marker is both overdue and in progress, and not planned. |
| Schemas.TitleIssues | src/components/todo/schemas.ts:6 | No issue iff the trimmed length is in [1, 80]. "Required" iff the trimmed title is empty. "Too long" iff it exceeds 80. |
| Schemas.DescriptionIssues | src/components/todo/schemas.ts:7-12 | No issue iff absent or trimmed to at most 500 characters. Otherwise the only issue is "too long". |
| Schemas.DueAtIssues | src/components/todo/schemas.ts:13-16 | No issue iff the pattern matches. "Required" iff empty. "Invalid" iff the pattern fails. |
| Schemas.EmptyDueAtIssues | src/components/todo/schemas.ts:13-16 | An empty due string reports "required" and then "invalid". |
| Schemas.ParseTodo | src/components/todo/schemas.ts:5-17 | Accepted iff all three field rules hold. On success it yields the trimmed title and description and the unchanged due string. On failure each issue is reported exactly when its rule fails. |
| Schemas.ValidatePassword | src/components/todo/schemas.ts:23 | Accepted iff the password has at least 6 characters. Otherwise the message is the schema's. |
| Schemas.AcceptedDueAtShape | src/components/todo/schemas.ts:13-16 | An accepted due string has 16 characters with its only `T` at index 10. Splitting and rejoining it gives it back. |
| Schemas.PatternAcceptsOutOfRange | src/components/todo/schemas.ts:16 | `2024-13-45T99:99` matches the pattern and raises no due-date issue. |
| Schemas.AcceptedDueAtParses | src/components/todo/utils.ts:35-40 | An accepted due string parses to the local date-time it spells. For an hour below 24 and minutes below 60, the parsed hour is that hour. |
| TaskRows.CoerceAttachments | src/app/api/tasks/types.ts:39-42 | A non-array gives []. An array gives an in-order subsequence, no longer than the input, holding exactly its truthy entries. |
| TaskRows.CoerceKeepsTruthyList | src/app/api/tasks/types.ts:41 | An array of truthy entries passes through unchanged. |
| TaskRows.CoerceIdempotent | src/app/api/tasks/types.ts:39-42 | Coercing a coerced list changes nothing. |
| TaskRows.FromDbTask | src/app/api/tasks/types.ts:46-55 | id, title, due time, completion and description (null as absent) are copied. The attachments are exactly `coerceAttachments` of the column: truthy, and no more than in the row. |
| TaskRows.NewTaskRow | src/app/api/tasks/route.ts:54-62 | The inserted row has the trimmed title, the trimmed description or null when it trims to nothing, the given due string and owner, is neither completed nor in progress, and has an empty attachment array. |
| TaskRows.CreatedTaskReadsBack | src/app/api/tasks/route.ts:54-68 | A freshly inserted task reads back open, with no attachments, the trimmed title, and no description iff the given one trims to nothing. |
| TaskRows.ToDbRow | src/app/api/tasks/types.ts:46-55 | A model-side inverse of `fromDbTask` (no source function builds rows this way): the row of a task keeps the given owner and mark and writes the attachments as an array. It serves `TaskRoundTrip` and `FromDbTaskStable`. |
| TaskRows.TaskRoundTrip | src/app/api/tasks/types.ts:46-55 | Reading back the stored row of a task with truthy attachments gives the task. |
| TaskRows.FromDbTaskIgnoresOwnerAndMark | src/app/api/tasks/types.ts:44-53 | The owner and the in-progress column do not affect the task. |
| TaskRows.FromDbTaskStable | src/app/api/tasks/types.ts:44-53 | Read, store and read again gives the same task. |
| TodoView.FocusFiltered | src/components/todo/TodoApp.tsx:145-151 | An in-order subsequence holding exactly the tasks with now <= due <= now + 4 h. |
| TodoView.ExactFiltered | src/components/todo/TodoApp.tsx:153-163 | No inputs: the list unchanged. Date only: the tasks with that date part. Time only: the tasks with that time part. Both: the tasks whose instant equals the combined instant. Always a subsequence. |
| TodoView.BetweenFiltered | src/components/todo/TodoApp.tsx:165-188 | An in-order subsequence holding exactly the tasks that pass both the date check and the time-of-day check. |
| TodoView.BetweenAllEmpty | src/components/todo/TodoApp.tsx:165-188 | With the four between inputs empty, the list is unchanged. |
| TodoView.StartOfDayBound | src/components/todo/TodoApp.tsx:168-170 | An instant is at or after the from-day's start iff its day is not earlier. |
| TodoView.EndOfDayBound | src/components/todo/TodoApp.tsx:171-173 | An instant is at or before the to-day's end iff its day is not later. |
| TodoView.DateCheckByDay | src/components/todo/TodoApp.tsx:168-180 | With both dates given, a parsed task passes the date check iff its day lies from the from-day to the to-day. |
| TodoView.UnparsedPassesDateCheck | src/components/todo/TodoApp.tsx:178-180 | A task whose due string does not parse passes the date check. |
| TodoView.FilteredTodos | src/components/todo/TodoApp.tsx:144-200 | Focus mode takes precedence over the filter inputs; otherwise the selected mode applies. The result is a subsequence. |
| TodoView.ConflictSlotShown | src/components/todo/TodoApp.tsx:276-279 | After the exact inputs are set from a well-formed clashing due string, every task due at it is listed. |
| TodoView.SortByDueSpec | src/components/todo/TodoApp.tsx:202-208 | The sorted list is a permutation, ordered by due instant, and stable: tasks with equal instants keep their order. |
| TodoView.SortByDueAscending | src/components/todo/TodoApp.tsx:202-208 | With every due string parsed, the due instants ascend. |
| TodoView.TotalPages | src/components/todo/TodoApp.tsx:215-216 | The result is at least 1, equals 1 for no items, and is otherwise the least page count that holds n items. |
| TodoView.ClampPage | src/components/todo/TodoApp.tsx:210-213 | The result lies in [1, totalPages]. An in-range page is kept. Below 1 goes to 1, past the end to the last page. |
| TodoView.PageItems | src/components/todo/TodoApp.tsx:219-222 | The slice [(page-1)*size, page*size) cut at the end, at most `size` long, empty past the end. |
| TodoView.PageOfItem | src/components/todo/TodoApp.tsx:219-222 | Item i is shown on page i/size + 1, at position i mod size. |
| TodoView.ClampedPageNotEmpty | src/components/todo/TodoApp.tsx:210-222 | A page in [1, totalPages] of a non-empty list shows at least one task. |
| TodoView.GroupByDate | src/components/todo/TodoApp.tsx:224-233 | The groups' items concatenate to the input. Groups are non-empty and share their date part. Adjacent groups differ in date. |
| TodoView.NearestIndex | src/components/todo/TodoApp.tsx:121-128 | The reference definition: -1, or the index of an open task due now or later. |
| TodoView.NearestIndexSpec | src/components/todo/TodoApp.tsx:121-128 | -1 iff no task is upcoming. Otherwise its due instant is the least among upcoming tasks, and no earlier upcoming task shares it. |
| TodoView.CandidatesHead | src/components/todo/TodoApp.tsx:121-126 | The first least-key candidate is the reference task. |
| TodoView.NextUpcomingIsNearest | src/components/todo/TodoApp.tsx:121-128 | `nextUpcoming` is the first task, in list order, among open tasks with the least due instant at or after now. It is absent iff there is none. |
| TodoView.GetReminder | src/components/todo/TodoApp.tsx:135-142 | A reminder is about the next upcoming task, is 0 to 15 minutes away, and `mins` is the rounded-up distance. |
| TodoView.ReminderWindow | src/components/todo/TodoApp.tsx:135-142 | A reminder shows iff a next upcoming task exists, is not dismissed, and is due within 15 minutes. |
| TodoView.ReminderExamples | src/components/todo/TodoApp.tsx:136-140 | Due in 10 minutes: a reminder. Due in 20: none. |
| TodoView.LoadDayKey | src/components/todo/TodoApp.tsx:377-383 | The key is one of the inputs or today. The exact date wins in exact mode. Otherwise a from date alone, or equal from and to dates, give the from date; a to date alone gives the to date; two distinct from/to dates and no inputs at all give today. |
| TodoView.DailyLoadForDay | src/components/todo/TodoApp.tsx:385-388 | The report satisfies `IsDailyLoadOf` for the tasks whose date part is the key, kept in list order; by `DailyLoadUnique` that fixes every field. |
| TodoView.UpcomingRange | src/components/todo/TodoApp.tsx:408-409 | The range starts at tomorrow's midnight and ends seven days later, at the start of day +8. |
| TodoView.GetSummary | src/components/todo/TodoApp.tsx:390-428 | Today's completed and pending counts add up to today's tasks. Tomorrow's total and per-window counts. The next seven days' total and per-window counts, which add up to that total. |
| TodoView.UpcomingAllParsed | src/components/todo/TodoApp.tsx:411-418 | Every task in the seven-day range has a parsed due time. |
| TodoAppState.SetCompleted | src/components/todo/TodoApp.tsx:298 | Same length. Only `completed` changes, and it is set exactly on the tasks with the id. |
| TodoAppState.FindById | src/components/todo/TodoApp.tsx:297 | Absent iff no task has the id. Otherwise the first task of the list with that id. |
| TodoAppState.ConflictCount | src/components/todo/TodoApp.tsx:270-271 | Positive iff some task is due at exactly that string. |
| TodoAppState.WithoutCompleted | src/components/todo/TodoApp.tsx:323-325 | A subsequence holding exactly the tasks whose id is not a completed id. None is completed. |
| TodoAppState.WithoutCompletedUnique | src/components/todo/TodoApp.tsx:322-325 | With unique ids, this is exactly the open tasks. |
| TodoAppState.TodoApp.constructor | src/components/todo/TodoApp.tsx:63-81 | The initial state: no tasks, no marker, between mode with empty inputs, 5 per page, page 1. |
| TodoAppState.TodoApp.CompletedCount | src/components/todo/TodoApp.tsx:235 | The number of completed tasks among those listed (the length of their filter), so at most the listed count, and zero iff none is completed. |
| TodoAppState.TodoApp.AddTodo | src/components/todo/TodoApp.tsx:269-294 | A conflict iff some task has the same due string. It then tags the slot, switches to exact mode on the string's two halves and goes to page 1. The created task is prepended. Nothing else changes. |
| TodoAppState.TodoApp.ToggleTodo | src/components/todo/TodoApp.tsx:296-310 | Only the completion flag of the id changes. Completing the marked task clears the marker. It asks for attachments iff an open task is completed. |
| TodoAppState.TodoApp.DeleteTodo | src/components/todo/TodoApp.tsx:312-314 | Exactly the tasks with the id go, and the rest keep their order. Their marker is cleared. |
| TodoAppState.TodoApp.ClearCompleted | src/components/todo/TodoApp.tsx:322-325 | A no-op with nothing completed. Otherwise every completed task goes (exactly those with unique ids). Nothing else changes. |
| TodoAppState.TodoApp.SetInProgress | src/components/todo/TodoApp.tsx:333-344 | The marker becomes the server's answer, or the requested id when the request failed. |
| TodoAppState.TodoApp.CleanupInProgress | src/components/todo/TodoApp.tsx:88-92 | A marker survives iff its task exists and is open. The marker is only ever cleared. An empty marker is left alone. Nothing else changes. |
| TodoAppState.TodoApp.ClampPage | src/components/todo/TodoApp.tsx:210-213 | The page ends in [1, totalPages], an in-range page is kept, and a non-empty list shows a non-empty page. |
| TodoAppState.TodoApp.PrevPage | src/components/todo/TodoApp.tsx:728 | The page goes back by one, not below 1. |
| TodoAppState.TodoApp.NextPage | src/components/todo/TodoApp.tsx:740 | The page goes on by one, not past the last page. |
| TodoAppState.TodoApp.ChangePageSize | src/components/todo/TodoApp.tsx:704-707 | The new size is set and the page returns to 1. |
| TodoAppState.TodoApp.ToggleFocusMode | src/components/todo/TodoApp.tsx:451-454 | Focus mode flips and the page returns to 1. |
| TodoAppState.TodoApp.ExitFocusMode | src/components/todo/TodoApp.tsx:617 | Focus mode is turned off. |
| TodoAppState.TodoApp.SetFilterMode | src/components/todo/TodoApp.tsx:635-643 | The chosen mode is set. |
| TodoAppState.TodoApp.SetFilterFields | src/components/todo/TodoApp.tsx:668-679 | The inputs are set. |
| TodoAppState.TodoApp.ClearFilters | src/components/todo/TodoApp.tsx:652-657 | All six inputs are emptied. Outside focus mode every task is then listed. |
| TodoAppState.TodoApp.SyncDismissedReminder | src/components/todo/TodoApp.tsx:130-133 | The dismissed id is forgotten only when no task is upcoming. |
| TodoAppState.TodoApp.DismissReminder | src/components/todo/TodoApp.tsx:544 | The shown reminder's task is dismissed, and no reminder shows afterwards. |
| TodoAppState.TodoApp.Tick | src/components/todo/TodoApp.tsx:84 | Only the clock reading changes. |

Specification functions without a contract of their own are described by the rows that state their properties:

- `Utils.ParseLocalDateTime` (src/components/todo/utils.ts:35-40): `Utils.PartsWithoutT`, `Utils.DateTimeWellFormed`, `Utils.LocalInstantClock`, `Schemas.AcceptedDueAtParses`.
- `Utils.ParseLocalDateOnly` (src/components/todo/utils.ts:42-45): `Utils.DateOnlyWellFormed`.
- `Utils.ParseLocalTimeToMinutes` (src/components/todo/utils.ts:47-50): `Utils.TimeToMinutesWellFormed`.
- `Utils.Score` and `Utils.Classify` (src/components/todo/utils.ts:100-101): `Utils.ClassifyByDoubledScore`, `Utils.LoadMonotoneInTotal`.
- `Schemas.MatchesDueAtPattern` (src/components/todo/schemas.ts:16): `Schemas.AcceptedDueAtShape`, `Schemas.PatternAcceptsOutOfRange`, `Schemas.DueAtIssues`.
- `TaskRows.Truthy` (src/app/api/tasks/types.ts:41): `TaskRows.CoerceAttachments`, `TaskRows.CoerceKeepsTruthyList`.
- `TodoView.SortByDue` (src/components/todo/TodoApp.tsx:202-208): `TodoView.SortByDueSpec`, `TodoView.SortByDueAscending`.
- `TodoView.NextUpcoming` (src/components/todo/TodoApp.tsx:121-128): `TodoView.NextUpcomingIsNearest`, `TodoView.CandidatesHead`.
- `TodoView.FromDateMs`, `TodoView.ToDateMs`, `TodoView.FromTimeMin`, `TodoView.ToTimeMin` (src/components/todo/TodoApp.tsx:168-176): `TodoView.StartOfDayBound`, `TodoView.EndOfDayBound`, `TodoView.BetweenFiltered`, `TodoView.BetweenAllEmpty`.

## Left out

- Network, database and error handling:
  - The API requests, server replies and toasts are not modelled. A handler receives the reply as a parameter (`created` in `AddTodo`, `reply` in `SetInProgress`).
  - Failed requests and the error toasts are not modelled.
  - The initial load effect, `seedDemoTasks`, and the attachment upload, download and delete handlers are network I/O and are not modelled.
  - `requestAttachmentsForTodo` is reduced to the `askForAttachments` result of `ToggleTodo`.
- Timers:
  - The 30-second clock is reduced to `Tick`, which receives the new instant.
  - The 8-second expiry of the conflict tag is not modelled. The tag is a plain field that `AddTodo` sets.
- Time zones and calendar range:
  - Time zones and daylight saving are not modelled: local time is a zone-free civil calendar.
  - The `Date` range limit (TimeClip) is not modelled.
- Formatting: `formatLocalDateTime`, `formatDateTimeFromMs` and `localDateKey` are not modelled. The first two are locale formatting. The today and tomorrow day keys are inputs to `GetSummary`, and the load card's default key is an input to `LoadDayKey`.
- JavaScript text and number semantics:
  - `Number` on signs, whitespace, fractions and exponents is not modelled.
  - String lengths count characters, not UTF-16 code units.
- Floating-point arithmetic: the load score is kept as an exact `real`, which agrees with IEEE doubles for these small multiples of 0.5.
- The e-mail rule of `authSchema` (a regular expression) is not modelled. Only the password rule is.
- Utils.ParseLocalDateTime: a due string with no `T` makes the source throw a TypeError, because the time part is undefined. The model returns None, i.e. NaN. `nextUpcoming` (src/components/todo/TodoApp.tsx:121-128) parses the due string of every open task on each render, so in the source one such open task takes down the whole task screen; the model goes on computing the views.
- Utils.Pad2: is stated only for non-negative integers, the only values the source passes to it.
- Utils.GetDailyLoad: the buckets add up to `total` only when every due time parses. A NaN hour indexes no bucket in the source, so such a task is counted in `total` but in no bucket.
- Utils.StartOfDay: the source rebuilds the date with the `Date` constructor, which reads years 0 to 99 as 1900 to 1999. For an instant in the years 0 to 99 AD the source therefore returns an instant in the 1900s, while the model returns midnight of the same day. In the task screen the argument is a parsed filter date or the start of tomorrow, so such an instant needs a filter date in the year 0100 whose month or day underflows (such as `0100-00-01`).
- Utils.EndOfDay: the same as `StartOfDay` for instants in the years 0 to 99 AD.
- TodoView.SortByDueSpec: when some due string does not parse, the source's comparator returns NaN. Such a comparator is inconsistent, and the ECMAScript language specification leaves the resulting order implementation-defined. The model treats NaN as "equal" and still orders the parsed tasks among themselves, which an engine need not do: V8 leaves keys [3, NaN, 1] as they are. With every due string parsed, the model's order is the one the source guarantees.
- JsArray.SortBy: the same as `TodoView.SortByDueSpec` for keys that are None.
- Concurrency of the handlers: `AddTodo`, `ToggleTodo`, `SetInProgress` and the other request handlers are modelled as atomic steps on the state at the time the reply arrives. Requests whose replies interleave with other handlers or with each other are not modelled.
- TodoAppState.TodoApp.AddTodo: does not itself state that the clashing tasks become visible. That is proved separately as `TodoView.ConflictSlotShown`, for well-formed due strings.
- TodoAppState.TodoApp.ChangePageSize: requires a positive size. The page-size select only offers 5, 10, 15 and 20.
- TodoAppState.TodoApp.DismissReminder: requires a shown reminder. The Dismiss button only exists while one is shown.
- The JSX rendering of the task screen, the task list, the task form and the menus is not modelled; it has no logic beyond what the views above compute.
