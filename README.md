# PM Planner core, in Dafny

This project models the logic under the PM Planner's React UI. The planner is a single-user Gantt tool: tasks with start and end dates, a category, an assignee, a progress percentage and finish-to-start dependencies on other tasks. The model covers four parts:

- **Date arithmetic** (`date_utils.dfy`, module `DateUtils`, from `src/utils/dateUtils.ts`). It covers the inclusive duration, the timeline window `getDateRange`, `isWeekend` and `addBusinessDays`.
- **Bar layout, category colours and the dependency validator** (`gantt_utils.dfy`, module `GanttUtils`, from `src/utils/ganttUtils.ts`).
  - `validateTaskDependencies` is an imperative method. Its loops build the id map and then walk every (task, dependency id) pair. It is proved equal to `Violations`, a specification function defined over the list of conflicting index pairs.
- **The task store** (`app.dfy`, module `App`, from `src/App.tsx`). Class `Planner` holds `tasks`, `editingTask`, `showTaskForm` and `dependencyErrors`.
  - Each handler is a method that replaces `tasks` with a function of the old list.
  - Each handler then runs the re-validation effect. The class invariant `Valid()` is "the diagnostics shown are those of the current list".
  - The dashboard stats are a function of the list.
- **The task form** (`task_form.dfy`, module `TaskForm`, from `src/components/TaskForm.tsx`). Class `FormState` holds `formData` and covers the dependency checkbox toggle, the non-blank-name submit guard, the initial form contents, and the tasks offered as dependencies.

`types.dfy` (module `Types`) mirrors `Task`, `TaskCategory` and `TaskFormData` from `src/types/index.ts`. `lists.dfy` (module `Lists`) holds the two `filter` idioms that the store and the form share.

Conventions:

- **Dates are whole day numbers.** Day 0 is 1970-01-01, a Thursday.
  - Instants, where date-fns needs them (`startOfDay`, `endOfDay`, `differenceInDays`), are milliseconds in one time zone without daylight saving.
  - Every task date comes from a `yyyy-MM-dd` form field. The model numbers it by the local calendar day the field names. That is what reading the field as a local midnight gives, and it round-trips in every time zone (`LocalParseRoundTrips`). Under this numbering, the validator's comparison of full `Date` values (`ganttUtils.ts:56`) is a comparison of days.
  - The code itself reads the field as midnight UTC (`new Date('yyyy-MM-dd')`, src/App.tsx:42-43) but formats it on the local clock (src/components/TaskForm.tsx:16-17). West of UTC these disagree by a day. This is recorded under "## Findings".
- **Pixel arithmetic uses exact `real` division.**
- **Inputs outside the model are parameters.** "Today" (`new Date()`) and the id of a new task (`Date.now().toString()`) are passed in.

Behaviour of the code that is easy to misread:

- **`calculateDuration` with the end before the start.** `differenceInDays` truncates toward zero, so the result is `end - start + 2`. A task ending the day before it starts therefore reports duration 1, not a non-positive number (`DurationIsInclusiveCount`).
- **Delete removes every task carrying the id.** The length drops by the number of such tasks. That is exactly 1 only when ids are unique (`DeleteRemovesEveryTrace`, `DeleteRemovesExactlyOne`).
- **`calculateTaskPosition` needs only a positive timeline length.** A zero or negative container width is accepted, as the code accepts it. The exact-geometry facts are stated for a positive day width. Every window `getDateRange` produces has positive length (`DateRangeHasPositiveLength`).

## Model

| member | source | states |
|---|---|---|
| `Lists.Without` | src/components/TaskForm.tsx:35 | dropping an id leaves no occurrence of it, keeps membership of every other id, and shortens the list by the id's occurrence count |
| `Lists.WithoutAbsent` | src/components/TaskForm.tsx:35 | filtering out an id that is not in the list returns the list unchanged |
| `Lists.WithoutAppend` | src/App.tsx:90 | filtering out an id distributes over concatenation, so kept ids stay in their relative order |
| `Lists.WithoutId` | src/App.tsx:86 | filtering tasks by id leaves no task with that id, keeps every other task, and shortens the list by the number of tasks with the id |
| `Lists.WithoutIdAbsent` | src/components/TaskForm.tsx:40-42 | filtering by an id no task carries changes nothing |
| `Lists.WithoutIdAppend` | src/App.tsx:86 | filtering tasks by id distributes over concatenation (survivors keep their order) |
| `Lists.WithoutIdRemovesOne` | src/App.tsx:86 | with unique ids, filtering by task k's id gives exactly the list without position k |
| `DateUtils.DifferenceInDays` | src/utils/dateUtils.ts:12 | the result is the whole number of days between two instants, truncated toward zero in both directions |
| `DateUtils.DifferenceOfDayStarts` | src/utils/ganttUtils.ts:13-14 | between two day starts, differenceInDays is the exact difference of the day numbers |
| `DateUtils.DurationIsInclusiveCount` | src/utils/dateUtils.ts:11-13 | calculateDuration (`CalculateDuration`) is end - start + 1 for an ordered range, and end - start + 2 for a reversed one |
| `DateUtils.SameDayDuration` | src/utils/dateUtils.ts:12 | a task that starts and ends on the same day has duration 1 |
| `DateUtils.OrderedDurationPositive` | src/utils/dateUtils.ts:11-13 | an ordered range has duration at least 1 |
| `DateUtils.AddBusinessDays` | src/utils/dateUtils.ts:15-17 | addBusinessDays moves exactly n calendar days |
| `DateUtils.Weekday` | src/utils/dateUtils.ts:39 | getDay lies in 0..6 and counts the days since the last Sunday: going back that many days lands a whole number of weeks from Sunday 1970-01-04 |
| `DateUtils.WeekendIsSaturdayOrSunday` | src/utils/dateUtils.ts:38-41 | isWeekend (`IsWeekend`) holds iff the day is a whole number of weeks from a known Saturday or Sunday |
| `DateUtils.AddBusinessDaysReachesWeekend` | src/utils/dateUtils.ts:15-17 | addBusinessDays does not skip weekends: one day after a Friday is a Saturday |
| `DateUtils.NextWorkday` | src/utils/dateUtils.ts:15-17 | the first weekday after d is at most 3 days later, and every day in between is a weekend day |
| `DateUtils.AddWorkdays` | src/utils/dateUtils.ts:15-17 | stepping n weekdays lands at least n days later, and for n > 0 never on a weekend |
| `DateUtils.WorkdaysAfterSplit` | src/utils/dateUtils.ts:15-17 | weekday counts over adjacent spans add up |
| `DateUtils.OneWorkdayToNext` | src/utils/dateUtils.ts:15-17 | exactly one weekday lies between d and its next weekday |
| `DateUtils.AddWorkdaysCountsWeekdays` | src/utils/dateUtils.ts:15-17 | AddWorkdays(d, n) passes exactly n weekdays |
| `DateUtils.AddBusinessDaysDiffersFromWorkdays` | src/utils/dateUtils.ts:15-17 | from Friday 1970-01-02 the as-written function gives Saturday and the weekday-stepping one gives Monday |
| `DateUtils.LocalDay` | src/utils/dateUtils.ts:3-5 | formatDate writes the local calendar day containing the instant |
| `DateUtils.UtcParseShiftsWestOfUtc` | src/App.tsx:42-43 | a form date read as midnight UTC (`UtcMidnight`) falls on the previous local day in any zone west of UTC |
| `DateUtils.UtcParseKeepsDayEastOfUtc` | src/App.tsx:42-43 | at UTC or east of it, the UTC reading keeps the local day |
| `DateUtils.UnchangedEditMovesTaskBackWestOfUtc` | src/components/TaskForm.tsx:16-17 | in New York, a task dated 1970-01-10 is shown as 1970-01-09, and saving the form unchanged stores 1970-01-09 |
| `DateUtils.LocalParseRoundTrips` | src/App.tsx:42-43 | reading the field as a local midnight (`LocalMidnight`) gives back the same local day in every time zone |
| `DateUtils.AllDates` | src/utils/dateUtils.ts:28 | the flattened list holds each task's start then end date, in task order |
| `DateUtils.Min` | src/utils/dateUtils.ts:29 | Math.min returns an element of the list that is at most every element |
| `DateUtils.Max` | src/utils/dateUtils.ts:30 | Math.max returns an element of the list that is at least every element |
| `DateUtils.GetDateRange` | src/utils/dateUtils.ts:19-26 | with no tasks the window is today to today + 30 (`App.Planner.Timeline` applies it to the planner's list, src/App.tsx:112) |
| `DateUtils.DateRangeBoundsTasks` | src/utils/dateUtils.ts:28-35 | for a non-empty list, every start and end date lies in [start + 7, end - 7], and both bounds are reached by some task date |
| `DateUtils.DateRangeHasPositiveLength` | src/utils/dateUtils.ts:19-35 | the window is at least 14 days long (30 when empty), so layout can divide by it |
| `GanttUtils.CalculateTaskPosition` | src/utils/ganttUtils.ts:4-20 | left is never negative and width is never less than one day's width |
| `GanttUtils.RealMax` | src/utils/ganttUtils.ts:17-18 | Math.max returns one of its arguments and bounds both |
| `GanttUtils.TaskPositionExact` | src/utils/ganttUtils.ts:10-18 | dayWidth is containerWidth / (end - start). With dayWidth > 0, left is 0 for a task starting on or before the timeline start and otherwise its day offset times dayWidth, and an ordered task's width is its inclusive day count times dayWidth |
| `GanttUtils.ParseCategory` | src/utils/ganttUtils.ts:46 | a string is found iff it is one of the four category keys, and it maps to that category |
| `GanttUtils.GetCategoryColor` | src/utils/ganttUtils.ts:22-47 | a category key gets its own palette entry (`Palette`), and any other string gets the development entry |
| `GanttUtils.IdMapLastWins` | src/utils/ganttUtils.ts:51 | the Map (`IdMap`): an id is in it iff some task has it, and it resolves to the last such task |
| `GanttUtils.IdMapUnique` | src/utils/ganttUtils.ts:51 | with unique ids, every task is found under its own id |
| `GanttUtils.RowEdgesSound` | src/utils/ganttUtils.ts:54-58 | every pair in row i belongs to task i, lies among its first k dependencies and conflicts |
| `GanttUtils.RowEdgesComplete` | src/utils/ganttUtils.ts:54-58 | every conflicting dependency among the first k of task i is in row i |
| `GanttUtils.RowEdgesSorted` | src/utils/ganttUtils.ts:54 | row i lists dependency positions in strictly increasing order |
| `GanttUtils.RowEdgesExact` | src/utils/ganttUtils.ts:54-58 | within one task, the flagged positions are exactly the resolving, overlapping ones, in increasing order |
| `GanttUtils.EdgesUpToSound` | src/utils/ganttUtils.ts:53-59 | every flagged pair is in range, and its dependency resolves and ends on or after the dependent starts |
| `GanttUtils.EdgesUpToComplete` | src/utils/ganttUtils.ts:53-59 | every such pair is flagged |
| `GanttUtils.EdgesUpToSorted` | src/utils/ganttUtils.ts:53-54 | flagged pairs are strictly increasing by task, then by dependency position |
| `GanttUtils.ConflictEdgesExact` | src/utils/ganttUtils.ts:53-59 | the flagged pairs are exactly the conflicting (task, dependency) pairs, each once, in task and then dependency-list order |
| `GanttUtils.BuildTaskMap` | src/utils/ganttUtils.ts:51 | inserting the tasks one by one in list order builds exactly the last-wins id map |
| `GanttUtils.CheckDependencies` | src/utils/ganttUtils.ts:54-59 | the inner loop over task i's dependency ids pushes exactly the messages of task i's conflicting pairs, in list order, after the messages so far |
| `GanttUtils.ConflictStep` | src/utils/ganttUtils.ts:55-57 | a dependency that resolves and ends on or after task i starts adds its pair to the row and its message to the output |
| `GanttUtils.NoConflictStep` | src/utils/ganttUtils.ts:55-56 | a dependency that does not resolve, or ends before task i starts, adds nothing |
| `GanttUtils.Render` | src/utils/ganttUtils.ts:57 | one message per pair, in the same order |
| `GanttUtils.RenderSnoc` | src/utils/ganttUtils.ts:57 | pushing a pair pushes its message |
| `GanttUtils.ViolationsNameBothTasks` | src/utils/ganttUtils.ts:55-57 | the p-th diagnostic (`Violations`) belongs to the p-th conflicting pair. It is the line-57 template (`Message`) filled with the dependent task's name and the name of the task its id resolves to |
| `GanttUtils.DanglingNeverReported` | src/utils/ganttUtils.ts:55-56 | a dependency id that matches no task is never reported |
| `GanttUtils.DependencyReportedIffOverlap` | src/utils/ganttUtils.ts:53-59 | with unique ids, A depending on B is flagged iff B ends on or after A starts, and no pair is flagged twice |
| `GanttUtils.ValidateTaskDependencies` | src/utils/ganttUtils.ts:49-63 | the nested loops return exactly Violations(tasks) |
| `TaskForm.TrimStart` | src/components/TaskForm.tsx:26 | the result is a suffix of the input that starts with a non-space, and everything dropped is white space |
| `TaskForm.TrimEnd` | src/components/TaskForm.tsx:26 | the result is a prefix of the input that ends with a non-space, and everything dropped is white space |
| `TaskForm.TrimEmptyIffBlank` | src/components/TaskForm.tsx:26 | name.trim() (`Trim`) is empty iff every character is ECMAScript white space |
| `TaskForm.Toggle` | src/components/TaskForm.tsx:31-37 | a toggle flips the toggled id's membership and keeps every other id's. An absent id is appended after an unchanged prefix, and a present one loses all its occurrences |
| `TaskForm.ToggleTwiceRestores` | src/components/TaskForm.tsx:31-37 | toggling an absent id twice returns the original list |
| `TaskForm.UntickKeepsOrder` | src/components/TaskForm.tsx:35 | unticking keeps the other ids in their order |
| `TaskForm.ToggleTwiceMovesToEnd` | src/components/TaskForm.tsx:34-36 | toggling a present id twice leaves one copy of it, at the end |
| `TaskForm.AvailableDependenciesExact` | src/components/TaskForm.tsx:40-42 | the offered tasks (`AvailableDependencies`) are all tasks when not editing; otherwise the list without the edited task, in order (with unique ids) |
| `TaskForm.InitialFormData` | src/components/TaskForm.tsx:14-22 | the initial form copies the edited task's fields, with "" for a missing description or assignee. Without an edited task it is a blank development task dated today |
| `TaskForm.FormState.constructor` | src/components/TaskForm.tsx:14-22 | mounting sets formData to the initial form |
| `TaskForm.FormState.ToggleDependency` | src/components/TaskForm.tsx:31-38 | only the dependency list changes, and it becomes the toggled list |
| `TaskForm.FormState.HandleSubmit` | src/components/TaskForm.tsx:24-29 | the form data is submitted iff the name has a non-white-space character |
| `App.NewTask` | src/App.tsx:61-72 | a new task has the fresh id, progress 0 and the computed duration, with every other field copied from the form |
| `App.EditedTask` | src/App.tsx:47-56 | an edited task keeps its id and progress, takes the form's fields and dates, and gets a recomputed duration |
| `App.WithEdited` | src/App.tsx:45-58 | an edit changes only tasks with the edited id, and the length is unchanged |
| `App.ScrubDependency` | src/App.tsx:88-91 | every task keeps all fields except its dependency list, which loses the id |
| `App.WithPatched` | src/App.tsx:95-99 | tasks with the id become the spread of the patch over them (`ApplyPatch`), while tasks with other ids and the length are unchanged |
| `App.WithProgress` | src/App.tsx:101-105 | only the progress of tasks with the id changes |
| `App.CreateKeepsIdsUnique` | src/App.tsx:60-73 | a create with a fresh id keeps ids unique |
| `App.EditUnchangedFormIsIdentity` | src/App.tsx:45-58 | re-submitting a task's own initial form gives the list back when its duration is current and both optional texts are present. Dates are numbered by local day; the code as written does this only at UTC or east of it (see "## Findings") |
| `App.EditKeepsIdsUnique` | src/App.tsx:45-58 | an edit keeps ids unique, and with unique ids at most one task changes |
| `App.DeleteRemovesEveryTrace` | src/App.tsx:84-93 | after a delete (`AfterDelete`), no task has the id and no dependency list mentions it. The length drops by the number of tasks with the id, and each survivor equals an original task except for its dependencies |
| `App.DeleteRemovesExactlyOne` | src/App.tsx:86-91 | with unique ids, a delete leaves the other tasks in order, scrubbed of the id, and is exactly one shorter |
| `App.WithoutIdKeepsIdsUnique` | src/App.tsx:86 | the filter step keeps ids unique |
| `App.DeleteKeepsIdsUnique` | src/App.tsx:84-93 | a delete keeps ids unique |
| `App.ProgressUpdateFrame` | src/App.tsx:101-105 | a progress update keeps ids unique, and an unknown id leaves the list unchanged |
| `App.ProgressIsProgressOnlyPatch` | src/App.tsx:95-105 | a progress update is the update whose patch carries only progress |
| `App.PatchOverwritesOnlyGivenFields` | src/App.tsx:95-99 | on a matching task, each of the ten fields the patch carries is replaced and each absent one is kept. `description` and `assignee` can also be set to absent. The duration is not recomputed when the dates move |
| `App.CountProgress` | src/App.tsx:116-118 | a filtered count is at most the list length |
| `App.CountProgressIsFilterLength` | src/App.tsx:116-118 | the count is the number of tasks whose progress lies in [lo, hi], as `filter(...).length` gives |
| `App.CountProgressSplit` | src/App.tsx:114-119 | counts over adjacent progress ranges add up |
| `App.CountProgressAll` | src/App.tsx:114-119 | a range holding every task's progress counts every task |
| `App.StatsPartition` | src/App.tsx:114-119 | in the stats (`StatsOf`, which `App.Planner.Stats` applies to the planner's list), completed, in-progress and not-started are disjoint and count the tasks with progress in [0, 100], so they sum to the total when every progress is in range |
| `App.Planner.constructor` | src/App.tsx:12-16 | the planner starts with no tasks, no form and no diagnostics |
| `App.Planner.TasksChanged` | src/App.tsx:36-39 | after the effect, the diagnostics are those of the current list, which re-establishes the invariant `Valid` |
| `App.Planner.OpenTaskForm` | src/App.tsx:160 | the Add Task button opens the form |
| `App.Planner.EditTask` | src/App.tsx:79-82 | editing a task opens the form on it |
| `App.Planner.CancelTaskForm` | src/App.tsx:261-264 | cancel closes the form and clears the edited task |
| `App.Planner.SubmitTask` | src/App.tsx:41-77 | a submit edits the edited task or appends a new one, closes the form, clears the edited task and keeps the diagnostics current |
| `App.Planner.DeleteTask` | src/App.tsx:84-93 | a delete applies the filter and the dependency scrub, then re-validates |
| `App.Planner.UpdateTask` | src/App.tsx:95-99 | an update applies the patch, then re-validates |
| `App.Planner.UpdateProgress` | src/App.tsx:101-105 | a progress update sets the progress, then re-validates |

## Findings

| source | as written | input that shows it | evidently intended | confidence | as-written member | corrected member |
|---|---|---|---|---|---|---|
| src/utils/dateUtils.ts:15-17 | `addBusinessDays(date, days)` returns `addDays(date, days)`, counting Saturdays and Sundays | Friday 1970-01-02 plus 1 gives Saturday 1970-01-03 | step over `days` weekdays, skipping weekends (Monday 1970-01-05 here) | medium (the name is the only evidence, and no caller uses it), not executed | `DateUtils.AddBusinessDaysReachesWeekend` | `DateUtils.AddWorkdaysCountsWeekdays` |
| src/App.tsx:42-43 | `new Date(taskData.startDate)` reads the `yyyy-MM-dd` field as midnight UTC, while the edit form writes it back with `formatDate`, on the local clock (src/components/TaskForm.tsx:16-17) | in New York (UTC-5), a task dated 1970-01-10 opens as 1970-01-09, and saving unchanged stores 1970-01-09 | the field is read as a local midnight, so an unchanged edit keeps the dates in every time zone | high (date-only strings are read as UTC by the ECMAScript date format rules), not executed | `DateUtils.UnchangedEditMovesTaskBackWestOfUtc` | `DateUtils.LocalParseRoundTrips` |

## Left out

- **Persistence.** Loading and saving tasks in `localStorage` is browser I/O, as is the JSON and ISO-date round trip with its swallowed parse errors (src/App.tsx:18-37). The re-validation in the same effect is modelled.
- **Rendering and the rest of the UI.** This covers the PDF export (src/components/ExportButton.tsx) and the Gantt and list views (src/components/GanttChart.tsx, src/components/TaskList.tsx). Those views contain drag state that never changes dates, the resize listener and the grid's own day width. It also covers the Gantt/list view switch.
- **Date formatting and form date strings.** `formatDate` and `formatDisplayDate` wrap a date-fns formatter. The form's `yyyy-MM-dd` strings are represented by the day they name, and the parse is not modelled.
- **Daylight saving and Invalid Date values.** The local zone is a fixed offset from UTC, days are uniform 86 400 000 ms, and NaN timestamps are not represented.
- **Time zones outside the date-string lemmas.** Apart from the `LocalDay`/`UtcMidnight` lemmas, stored dates are the local days their form fields name (the corrected reading). The code as written behaves like `App.EditUnchangedFormIsIdentity` only at UTC or east of it.
- **Floating point.** Pixel widths are exact reals.
- **Delete confirmation.** The `window.confirm` gate on delete is UI. `DeleteTask` is the transition after confirmation.
- **Form field handlers.** The name, date, category, assignee and description handlers (src/components/TaskForm.tsx:68-139) are single-field overwrites of `formData` and are not modelled.
- **`Partial<Task>` with explicit `undefined`.** A patch that carries a required field as `undefined` is not representable. `TaskPatch` carries either a value or nothing, except that `description` and `assignee` can be set to absent.
- **Inherited property names in `getCategoryColor`.** A name such as `"constructor"` finds a property of `Object.prototype` rather than falling back. Every caller passes a `TaskCategory`, and the model treats all non-category strings as the fallback.
- **The unused `Dependency` and `GanttChartProps` types** (src/types/index.ts:16-28).
- `DateUtils.AddWorkdays`: the corrected weekday-stepping function is defined for n >= 0 only; the as-written `addBusinessDays` accepts negative n.
- `DateUtils.GetDateRange`: its own contract covers only the empty list; the non-empty case is stated by `DateUtils.DateRangeBoundsTasks`.
