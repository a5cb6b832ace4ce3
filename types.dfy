/** The planner's data model: a task, its category, and the record the task form edits.

    Calendar dates are whole day numbers: day 0 is 1970-01-01 and day n is n days later
    (negative before). Every date the planner stores comes from a 'yyyy-MM-dd' form
    field and is numbered by the calendar day it names on the local clock, so no finer
    unit is needed (DateUtils.LocalParseRoundTrips; the UTC reading the code actually
    performs is DateUtils.UtcParseShiftsWestOfUtc). */
module Types {

  datatype Option<+T> = None | Some(value: T)

  /** A calendar date, counted in days from 1970-01-01. */
  type Day = int

  /** The four task categories. */
  datatype Category = Planning | Development | Testing | Deployment

  /** A task. `duration` and `progress` are plain numbers that the store keeps;
      `description` and `assignee` are optional (absent on tasks that never went
      through the form). */
  datatype Task = Task(
    id: string,
    name: string,
    startDate: Day,
    endDate: Day,
    duration: int,
    progress: int,
    category: Category,
    dependencies: seq<string>,
    description: Option<string>,
    assignee: Option<string>)

  /** What the task form holds while the user types. The two date fields are the
      form's 'yyyy-MM-dd' strings, represented by the day they denote. */
  datatype TaskFormData = TaskFormData(
    name: string,
    startDate: Day,
    endDate: Day,
    category: Category,
    description: string,
    assignee: string,
    dependencies: seq<string>)

  /** Number of tasks in `tasks` whose id is `id`. */
  function CountId(tasks: seq<Task>, id: string): (n: nat)
    ensures n <= |tasks|
    ensures n == 0 <==> forall k :: 0 <= k < |tasks| ==> tasks[k].id != id
  {
    if tasks == [] then 0
    else CountId(tasks[..|tasks| - 1], id) + (if tasks[|tasks| - 1].id == id then 1 else 0)
  }

  /** No two tasks share an id. */
  predicate UniqueIds(tasks: seq<Task>)
  {
    forall i, j :: 0 <= i < j < |tasks| ==> tasks[i].id != tasks[j].id
  }
}
