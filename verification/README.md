# AI Study Assistant — planner and focus-timer model

A Dafny model of the logic inside the tkinter prototype `ai_study_app.py`:

- **Tasks** (`StudyTask`): a task has a name, estimated hours, a due date and
  completed hours; its remaining hours are the outstanding difference, never
  below zero.
- **The allocation scheduler** (`DueOrder`, `Allocation`): "generate plan"
  sorts the tasks by due date (a stable sort), then for each task spreads its
  remaining hours evenly over the days from today to the due date, each
  day's share capped at the daily capacity, and emits one entry per day.
- **Grouping for display** (`Grouping`, `DailyLoad`): the entries are bucketed
  by date, dates shown in ascending order, entries of one date in emission
  order.
- **The daily-capacity cache and the generate action** (`Planner`): the
  capacity is asked for only while unset, accepted only above zero, and
  reset to unset on a bad answer.
- **The focus timer and points** (`FocusTimer`): starting is refused while the
  running flag is set, the minutes must be a positive whole number, the
  countdown shows `divmod(remaining, 60)`, and a countdown that reaches its
  end with the flag still set awards 10 points; the flag is cleared either way.
- **Worked examples** (`Scenarios`).

Dates are whole day numbers, hours are exact `real`s. A dialog answer is a
`Reply<T>`: `Dismissed` (the user closed the prompt), `Unparsable` (the text
is not a number) or `Given(v)`. The background countdown thread is replaced by
a sequence of events: `Tick(remaining)` for one pass of the countdown loop,
`FlagCleared` for the running flag found cleared, and the end of the sequence
for the end time being reached.

Two behaviours of the code are kept exactly as written:

- A task due before today gets no entry at all. The comment at
  `ai_study_app.py:193` says such a task has all its work allocated today,
  and its day count is indeed clamped to one, but the day loop at
  `ai_study_app.py:197` starts at today, which is already past the due date,
  so it never runs (`Scenarios.PastDueGetsNothing`).
- The capacity caps each entry, not each day: tasks sharing a day can put
  more than the capacity on it (`DailyLoad.SharedDayExceedsCapacity`,
  `DailyLoad.DayTotalBound`).

Further facts about the program that the model keeps: there is no cancel
operation, and the running flag is cleared only by the countdown itself;
dismissing the minutes or capacity prompt ends the action silently; and with
an empty task list "generate plan" returns before the capacity prompt, so the
cache and the previous plan are left untouched.

## Model

| member | source | states |
|---|---|---|
| `StudyTask.Remaining` | ai_study_app.py:55-58 | remaining hours are the maximum of `hours - completed` and zero: never negative, equal to the difference whenever it is not negative |
| `StudyTask.NewTaskRemaining` | ai_study_app.py:49-58 | a freshly entered task (nothing completed) still needs all its estimated hours, or none if the estimate is negative |
| `DueOrder.Insert` | ai_study_app.py:187 | inserting into a due-date-sorted list keeps it sorted, adds exactly that task, and puts it before the tasks of the same day already there |
| `DueOrder.SortByDue` | ai_study_app.py:187 | the ordered tasks are sorted by due date, a permutation of the input, and list the tasks of every due day in their input order (stability) |
| `DueOrder.SortedUnique` | ai_study_app.py:187 | two due-date-sorted lists with the same per-day task sequences are equal |
| `DueOrder.StableSortIsSortByDue` | ai_study_app.py:187 | any stable sort by due date, such as the library sort the program calls, gives exactly `SortByDue` |
| `Allocation.TotalDays` | ai_study_app.py:191-193 | the day count is at least one: the days from today to the due date inclusive, or one for a task due before today |
| `Allocation.DailyAllocation` | ai_study_app.py:194 | a task's daily share is never negative |
| `Allocation.DailySharesAddUp` | ai_study_app.py:191-194 | the daily share times the day count is exactly the remaining hours |
| `Allocation.EntryHours` | ai_study_app.py:198 | an entry's hours are the smaller of the daily share and the capacity, and not negative when the capacity is not |
| `Allocation.EntriesFrom` | ai_study_app.py:196-200 | stepping a date from `from` while it is not past the due date gives one entry per day, for consecutive days starting at `from`, none if `from` is already past |
| `Allocation.TaskEntries` | ai_study_app.py:190-200 | a task due `d >= 0` days from today gets exactly `d + 1` entries dated today, today+1, …, due, each with its capped share; a task due before today gets none |
| `Allocation.EmitTask` | ai_study_app.py:191-200 | the day loop for one task, with its clamped day count and daily share, emits exactly the task's entries `TaskEntries` |
| `Allocation.GenerateSchedule` | ai_study_app.py:184-200 | the nested loops of the program (tasks in due-date order, days from today to the due date) build exactly the plan `Schedule` |
| `Allocation.TaskHoursTotal` | ai_study_app.py:194-200 | a task's entries add up to the smaller of its remaining hours and `(d + 1)` times the capacity; to zero when it is past due |
| `Allocation.UnclippedTaskGetsAllHours` | ai_study_app.py:194-199 | when the capacity does not bind, every entry of a task carries its daily share, remaining/(d + 1), and the entries add up to all the remaining hours |
| `Allocation.ScheduleWithinWindows` | ai_study_app.py:186-200 | every plan entry is dated today or later, within the window of a task of the same name, carrying that task's capped share, never more than the capacity |
| `Grouping.Bucket` | ai_study_app.py:208-210 | the date buckets have a key for exactly the dates that occur, and each bucket holds that date's entries in emission order |
| `Grouping.DateKeys` | ai_study_app.py:211 | the sorted keys are strictly ascending and are exactly the dates that occur |
| `Grouping.GroupByDate` | ai_study_app.py:207-214 | the display blocks are in strictly ascending date order, each block non-empty and holding its date's entries in emission order, every entry's date has a block, and the blocks together hold every entry exactly once |
| `DailyLoad.ScheduleOnDay` | ai_study_app.py:190-200 | the plan's entries for a day are one per task whose window contains that day, in due-date order |
| `DailyLoad.PlanBlocks` | ai_study_app.py:207-214 | each display block of the plan lists one entry per task active on its date, in due-date order |
| `DailyLoad.DayTotalBound` | ai_study_app.py:198 | a day holds one entry per active task, and its total is at most the capacity times that number |
| `DailyLoad.SharedDayExceedsCapacity` | ai_study_app.py:190-199 | two tasks due today with at least the capacity left put twice the capacity on today, more than the capacity |
| `Scenarios.EssayFits` | ai_study_app.py:190-200 | six hours due in three days with two hours a day: four entries of 1.5 hours adding up to 6 |
| `Scenarios.EssayUnderAllocated` | ai_study_app.py:190-200 | the same with one hour a day: four entries of 1 hour adding up to 4, less than the 6 needed |
| `Scenarios.PastDueGetsNothing` | ai_study_app.py:191-197 | a task due before today gets an empty plan although its day count is one |
| `Planner.InitialPlanner` | ai_study_app.py:73-76 | the start-up planner has no tasks, no cached capacity and no plan; its cache is valid and "generate plan" leaves it unchanged, whatever the prompt would be answered |
| `Planner.ResolveCapacity` | ai_study_app.py:170-181 | a cached capacity is used without asking; otherwise the answer is taken if and only if it is a number above zero |
| `Planner.Generate` | ai_study_app.py:163-200 | with no tasks nothing changes; with a cached capacity the plan is rebuilt; when asking, a positive answer is cached and used, anything else leaves the state as it was |
| `Planner.ReplyIgnoredWhenNotAsked` | ai_study_app.py:170-171 | when the prompt is not shown, the answer it would have got makes no difference |
| `Planner.GenerateKeepsCapacityValid` | ai_study_app.py:174-181 | a cached capacity stays positive |
| `Planner.CapacityReused` | ai_study_app.py:170-181 | after a capacity is accepted, later presses do not ask again and plan with that capacity |
| `Planner.PlanRebuiltFromScratch` | ai_study_app.py:184-200 | a rebuilt plan does not depend on the plan it replaces |
| `FocusTimer.IdleAtStartUp` | ai_study_app.py:78-79 | at start-up no session runs and no points are held, so a start is never refused as already running |
| `FocusTimer.StartSession` | ai_study_app.py:235-253 | start is refused while running; otherwise it succeeds if and only if the minutes are a number above zero, then setting the flag with `60 * minutes` seconds and the points unchanged |
| `FocusTimer.Split` | ai_study_app.py:222-223 | the display split satisfies `mins * 60 + secs == remaining` with `0 <= secs < 60` |
| `FocusTimer.SplitUnique` | ai_study_app.py:223 | that split is the only such pair |
| `FocusTimer.Finish` | ai_study_app.py:227-233 | ending with the flag set adds exactly 10 points, with the flag clear adds none, and the flag is clear afterwards |
| `FocusTimer.Countdown` | ai_study_app.py:217-233 | the countdown shows the split of each tick before the flag is cleared, awards 10 points exactly when started running and never interrupted, and always ends with the flag clear |
| `FocusTimer.FocusSession` | ai_study_app.py:217-256 | a refused start changes nothing; an accepted one counts down `60 * minutes` seconds and earns exactly 10 points unless the flag is cleared on the way |
| `FocusTimer.PointsNeverDecrease` | ai_study_app.py:227-253 | starting keeps the points and finishing never lowers them |

## Left out

- Adding a task (`add_task`): reading, trimming and parsing the entry form and the list display; the task list is taken as given.
- The widgets, dialogs and message boxes: only the values they would show or return are modelled; a dialog answer is a `Reply`.
- Text formatting and parsing: `float`/`int` of user text, `strptime`, `strftime`, `:.2f` and `:02d`; inputs are already-parsed values and entries hold the date and hours rather than strings.
- The thread, `time.time()` and `time.sleep`: the countdown is driven by a sequence of events; how the remaining seconds are computed from the clock is not modelled.
- Data races between the countdown thread and the buttons: the transitions are taken one after another.
- Floating point: hours are exact reals, so rounding of the shares is not modelled, nor NaN or infinite answers (which pass the program's `<= 0` test).
- Due dates are day numbers; the time-of-day part of the parsed due date is always midnight in the program and is dropped.
- FocusTimer.Countdown: the seconds carried by a tick are taken as given; the model does not tie them to the session length, because in the program they come from the clock.
- The total number of entries of a whole plan is stated per task (`Allocation.TaskEntries`) and by the plan's construction as the tasks' entries in due-date order, not as one closed formula over the task list.
- Planner.Generate: dates are unbounded day numbers. The program's dates stop at 9999-12-31, which the due-date parser accepts; stepping past it at `ai_study_app.py:200` raises an error. That error ends plan generation after the last entry of the first task due on that day. Later tasks are then missing from the plan and the display is not refreshed. The model promises the full `Schedule` instead.
- FocusTimer.FocusSession: the session length is an unbounded integer. In the program, the end time at `ai_study_app.py:220` is a float. A minutes answer of about 3·10^306 or more makes that addition raise an error. The countdown thread then dies with the running flag still set, and every later start is refused. `FocusTimer.Countdown` and the model both promise that the flag is cleared.
