/** The planner's state and its transitions (src/App.tsx): the task list, the task
    being edited, whether the form is open, and the dependency diagnostics that are
    recomputed whenever the task list changes. */
module App {
  import opened Types
  import opened Lists
  import opened DateUtils
  import opened GanttUtils
  import opened TaskForm

  // ---------------------------------------------------------------------------
  // The task-list transitions, as functions of the old list

  /** The task a create submission appends: fresh id, no progress yet, its duration
      computed from the form's dates, every other field copied from the form. */
  function NewTask(taskData: TaskFormData, newId: string): (t: Task)
    ensures t.id == newId && t.progress == 0
    ensures t.duration == CalculateDuration(taskData.startDate, taskData.endDate)
    ensures t.name == taskData.name && t.category == taskData.category
    ensures t.startDate == taskData.startDate && t.endDate == taskData.endDate
    ensures t.dependencies == taskData.dependencies
    ensures t.description == Some(taskData.description) && t.assignee == Some(taskData.assignee)
  {
    Task(newId, taskData.name, taskData.startDate, taskData.endDate,
         CalculateDuration(taskData.startDate, taskData.endDate), 0, taskData.category,
         taskData.dependencies, Some(taskData.description), Some(taskData.assignee))
  }

  /** `{...task, ...taskData, startDate, endDate, duration}`: the form overwrites every
      field it has, the duration is recomputed, and id and progress are kept. */
  function EditedTask(task: Task, taskData: TaskFormData): (t: Task)
    ensures t.id == task.id && t.progress == task.progress
    ensures t.duration == CalculateDuration(taskData.startDate, taskData.endDate)
    ensures t.name == taskData.name && t.category == taskData.category
    ensures t.startDate == taskData.startDate && t.endDate == taskData.endDate
    ensures t.dependencies == taskData.dependencies
    ensures t.description == Some(taskData.description) && t.assignee == Some(taskData.assignee)
  {
    task.(name := taskData.name, startDate := taskData.startDate, endDate := taskData.endDate,
          duration := CalculateDuration(taskData.startDate, taskData.endDate),
          category := taskData.category, dependencies := taskData.dependencies,
          description := Some(taskData.description), assignee := Some(taskData.assignee))
  }

  /** The edit submission: every task whose id is `editId` becomes the edited task;
      all others, and the length, stay as they were. */
  function WithEdited(tasks: seq<Task>, editId: string, taskData: TaskFormData): (r: seq<Task>)
    ensures |r| == |tasks|
    ensures forall k :: 0 <= k < |tasks| && tasks[k].id != editId ==> r[k] == tasks[k]
    ensures forall k :: 0 <= k < |tasks| && tasks[k].id == editId ==> r[k] == EditedTask(tasks[k], taskData)
  {
    seq(|tasks|, k requires 0 <= k < |tasks| =>
      if tasks[k].id == editId then EditedTask(tasks[k], taskData) else tasks[k])
  }

  /** The second step of a delete: every remaining dependency list loses the id. */
  function ScrubDependency(tasks: seq<Task>, taskId: string): (r: seq<Task>)
    ensures |r| == |tasks|
    ensures forall k :: 0 <= k < |tasks| ==>
      r[k] == tasks[k].(dependencies := Without(tasks[k].dependencies, taskId))
  {
    seq(|tasks|, k requires 0 <= k < |tasks| =>
      tasks[k].(dependencies := Without(tasks[k].dependencies, taskId)))
  }

  /** The fields a `Partial<Task>` may carry; an absent field is None. */
  datatype TaskPatch = TaskPatch(
    id: Option<string>,
    name: Option<string>,
    startDate: Option<Day>,
    endDate: Option<Day>,
    duration: Option<int>,
    progress: Option<int>,
    category: Option<Category>,
    dependencies: Option<seq<string>>,
    description: Option<Option<string>>,
    assignee: Option<Option<string>>)

  /** `val ?? old` for one patch field. */
  function Pick<T>(patch: Option<T>, current: T): T
  {
    match patch
    case Some(v) => v
    case None => current
  }

  /** `{...task, ...updates}`: each field the patch carries replaces the task's. */
  function ApplyPatch(task: Task, updates: TaskPatch): Task
  {
    Task(Pick(updates.id, task.id), Pick(updates.name, task.name),
         Pick(updates.startDate, task.startDate), Pick(updates.endDate, task.endDate),
         Pick(updates.duration, task.duration), Pick(updates.progress, task.progress),
         Pick(updates.category, task.category), Pick(updates.dependencies, task.dependencies),
         Pick(updates.description, task.description), Pick(updates.assignee, task.assignee))
  }

  /** handleTaskUpdate's new list: the patch is applied to every task with the id. */
  function WithPatched(tasks: seq<Task>, taskId: string, updates: TaskPatch): (r: seq<Task>)
    ensures |r| == |tasks|
    ensures forall k :: 0 <= k < |tasks| && tasks[k].id != taskId ==> r[k] == tasks[k]
    ensures forall k :: 0 <= k < |tasks| && tasks[k].id == taskId ==> r[k] == ApplyPatch(tasks[k], updates)
  {
    seq(|tasks|, k requires 0 <= k < |tasks| =>
      if tasks[k].id == taskId then ApplyPatch(tasks[k], updates) else tasks[k])
  }

  /** handleProgressUpdate's new list: only the progress of tasks with the id changes. */
  function WithProgress(tasks: seq<Task>, taskId: string, progress: int): (r: seq<Task>)
    ensures |r| == |tasks|
    ensures forall k :: 0 <= k < |tasks| ==>
      r[k] == if tasks[k].id == taskId then tasks[k].(progress := progress) else tasks[k]
  {
    seq(|tasks|, k requires 0 <= k < |tasks| =>
      if tasks[k].id == taskId then tasks[k].(progress := progress) else tasks[k])
  }

  // ---------------------------------------------------------------------------
  // Properties of the transitions

  /** A create keeps ids unique when the new id is fresh. */
  lemma CreateKeepsIdsUnique(tasks: seq<Task>, taskData: TaskFormData, newId: string)
    requires UniqueIds(tasks)
    requires forall k :: 0 <= k < |tasks| ==> tasks[k].id != newId
    ensures UniqueIds(tasks + [NewTask(taskData, newId)])
  {
  }

  /** Re-submitting the form of a task without changing anything gives the task back,
      as long as its duration is already the computed one and both optional texts are
      present; with unique ids the whole list comes back unchanged. */
  lemma EditUnchangedFormIsIdentity(tasks: seq<Task>, k: int, today: Day)
    requires UniqueIds(tasks) && 0 <= k < |tasks|
    requires tasks[k].duration == CalculateDuration(tasks[k].startDate, tasks[k].endDate)
    requires tasks[k].description.Some? && tasks[k].assignee.Some?
    ensures WithEdited(tasks, tasks[k].id, InitialFormData(Some(tasks[k]), today)) == tasks
  {
    var t := tasks[k];
    var r := WithEdited(tasks, t.id, InitialFormData(Some(t), today));
    assert EditedTask(t, InitialFormData(Some(t), today)) == t;
    forall j | 0 <= j < |tasks|
      ensures r[j] == tasks[j]
    {
      if j != k {
        assert tasks[j].id != t.id;
      }
    }
  }

  /** An edit changes no id, so unique ids stay unique, and with unique ids exactly
      one task (the edited one) can differ from before. */
  lemma EditKeepsIdsUnique(tasks: seq<Task>, editId: string, taskData: TaskFormData)
    requires UniqueIds(tasks)
    ensures UniqueIds(WithEdited(tasks, editId, taskData))
    ensures forall j, k :: 0 <= j < k < |tasks| ==>
      WithEdited(tasks, editId, taskData)[j] == tasks[j] || WithEdited(tasks, editId, taskData)[k] == tasks[k]
  {
    var r := WithEdited(tasks, editId, taskData);
    assert forall k :: 0 <= k < |tasks| ==> r[k].id == tasks[k].id;
  }

  /** The full delete: drop the tasks with the id, then scrub it from every
      dependency list. */
  function AfterDelete(tasks: seq<Task>, taskId: string): seq<Task>
  {
    ScrubDependency(WithoutId(tasks, taskId), taskId)
  }

  /** After a delete no task has the id and no dependency list mentions it; the
      list shrinks by the number of tasks that had the id, and every survivor keeps
      all its fields except its dependency list. */
  lemma DeleteRemovesEveryTrace(tasks: seq<Task>, taskId: string)
    ensures var r := AfterDelete(tasks, taskId);
      && |r| == |tasks| - CountId(tasks, taskId)
      && (forall k :: 0 <= k < |r| ==> r[k].id != taskId && taskId !in r[k].dependencies)
      && (forall k :: 0 <= k < |r| ==> r[k].(dependencies := []) in ClearedDependencies(tasks))
  {
    var s := WithoutId(tasks, taskId);
    var r := AfterDelete(tasks, taskId);
    forall k | 0 <= k < |r|
      ensures r[k].(dependencies := []) in ClearedDependencies(tasks)
    {
      assert s[k] in s;
      var j :| 0 <= j < |tasks| && tasks[j] == s[k];
      assert ClearedDependencies(tasks)[j] == r[k].(dependencies := []);
    }
  }

  /** Every task with its dependency list emptied (a view that forgets the one field
      a delete is allowed to change). */
  function ClearedDependencies(tasks: seq<Task>): (r: seq<Task>)
    ensures |r| == |tasks|
    ensures forall k :: 0 <= k < |tasks| ==> r[k] == tasks[k].(dependencies := [])
  {
    seq(|tasks|, k requires 0 <= k < |tasks| => tasks[k].(dependencies := []))
  }

  /** With unique ids, deleting task k removes exactly that task: the list is the
      others in their order, each scrubbed of the id, one shorter than before. */
  lemma DeleteRemovesExactlyOne(tasks: seq<Task>, k: int)
    requires UniqueIds(tasks) && 0 <= k < |tasks|
    ensures AfterDelete(tasks, tasks[k].id) == ScrubDependency(tasks[..k] + tasks[k + 1..], tasks[k].id)
    ensures |AfterDelete(tasks, tasks[k].id)| == |tasks| - 1
  {
    WithoutIdRemovesOne(tasks, k);
  }

  /** Dropping tasks by id keeps ids unique. */
  lemma {:induction false} WithoutIdKeepsIdsUnique(tasks: seq<Task>, taskId: string)
    requires UniqueIds(tasks)
    ensures UniqueIds(WithoutId(tasks, taskId))
  {
    if tasks != [] {
      var init, last := tasks[..|tasks| - 1], tasks[|tasks| - 1];
      WithoutIdKeepsIdsUnique(init, taskId);
      var s := WithoutId(init, taskId);
      forall i | 0 <= i < |s|
        ensures s[i].id != last.id
      {
        assert s[i] in init;
      }
    }
  }

  /** A delete keeps ids unique. */
  lemma DeleteKeepsIdsUnique(tasks: seq<Task>, taskId: string)
    requires UniqueIds(tasks)
    ensures UniqueIds(AfterDelete(tasks, taskId))
  {
    WithoutIdKeepsIdsUnique(tasks, taskId);
  }

  /** A progress update never changes which ids exist, so unique ids stay unique;
      for an id that no task has, nothing changes at all. */
  lemma ProgressUpdateFrame(tasks: seq<Task>, taskId: string, progress: int)
    ensures UniqueIds(tasks) ==> UniqueIds(WithProgress(tasks, taskId, progress))
    ensures (forall k :: 0 <= k < |tasks| ==> tasks[k].id != taskId) ==> WithProgress(tasks, taskId, progress) == tasks
  {
    var r := WithProgress(tasks, taskId, progress);
    assert forall k :: 0 <= k < |tasks| ==> r[k].id == tasks[k].id;
  }

  /** A progress update is the patch that carries only `progress`. */
  lemma ProgressIsProgressOnlyPatch(tasks: seq<Task>, taskId: string, progress: int)
    ensures WithProgress(tasks, taskId, progress)
         == WithPatched(tasks, taskId, TaskPatch(None, None, None, None, None, Some(progress), None, None, None, None))
  {
  }

  /** handleTaskUpdate overwrites exactly the fields the patch carries on the matching
      tasks; in particular a patch that moves the dates but carries no duration
      leaves the old duration in place (it is not recomputed). */
  lemma PatchOverwritesOnlyGivenFields(tasks: seq<Task>, taskId: string, updates: TaskPatch, k: int)
    requires 0 <= k < |tasks| && tasks[k].id == taskId
    ensures var t, u := tasks[k], WithPatched(tasks, taskId, updates)[k];
      && (updates.name.None? ==> u.name == t.name) && (updates.name.Some? ==> u.name == updates.name.value)
      && (updates.startDate.None? ==> u.startDate == t.startDate)
      && (updates.startDate.Some? ==> u.startDate == updates.startDate.value)
      && (updates.endDate.None? ==> u.endDate == t.endDate)
      && (updates.endDate.Some? ==> u.endDate == updates.endDate.value)
      && (updates.duration.None? ==> u.duration == t.duration)
      && (updates.duration.Some? ==> u.duration == updates.duration.value)
      && (updates.progress.None? ==> u.progress == t.progress)
      && (updates.progress.Some? ==> u.progress == updates.progress.value)
      && (updates.id.None? ==> u.id == t.id) && (updates.id.Some? ==> u.id == updates.id.value)
      && (updates.dependencies.None? ==> u.dependencies == t.dependencies)
      && (updates.dependencies.Some? ==> u.dependencies == updates.dependencies.value)
      && (updates.category.None? ==> u.category == t.category)
      && (updates.category.Some? ==> u.category == updates.category.value)
      && (updates.description.None? ==> u.description == t.description)
      && (updates.description.Some? ==> u.description == updates.description.value)
      && (updates.assignee.None? ==> u.assignee == t.assignee)
      && (updates.assignee.Some? ==> u.assignee == updates.assignee.value)
  {
  }

  // ---------------------------------------------------------------------------
  // Stats

  /** The four counters of the dashboard. */
  datatype Stats = Stats(total: nat, completed: nat, inProgress: nat, notStarted: nat)

  /** Number of tasks whose progress lies in [lo, hi]. */
  function CountProgress(tasks: seq<Task>, lo: int, hi: int): (n: nat)
    ensures n <= |tasks|
  {
    if tasks == [] then 0
    else
      var p := tasks[|tasks| - 1].progress;
      CountProgress(tasks[..|tasks| - 1], lo, hi) + (if lo <= p <= hi then 1 else 0)
  }

  /** The stats: completed is progress 100, in progress is strictly between 0 and
      100 (1 to 99, progress being whole), not started is progress 0. */
  function StatsOf(tasks: seq<Task>): Stats
  {
    Stats(|tasks|, CountProgress(tasks, 100, 100), CountProgress(tasks, 1, 99), CountProgress(tasks, 0, 0))
  }

  /** CountProgress is `filter(t => lo <= t.progress <= hi).length`: the number of
      positions whose task has its progress in [lo, hi]. */
  lemma {:induction false} CountProgressIsFilterLength(tasks: seq<Task>, lo: int, hi: int)
    ensures CountProgress(tasks, lo, hi) == |set k | 0 <= k < |tasks| && lo <= tasks[k].progress <= hi|
  {
    if tasks != [] {
      var n := |tasks| - 1;
      var prefix := tasks[..n];
      CountProgressIsFilterLength(prefix, lo, hi);
      var all := set k | 0 <= k < |tasks| && lo <= tasks[k].progress <= hi;
      var before := set k | 0 <= k < |prefix| && lo <= prefix[k].progress <= hi;
      assert before == set k | 0 <= k < n && lo <= tasks[k].progress <= hi;
      if lo <= tasks[n].progress <= hi {
        assert all == before + {n};
      } else {
        assert all == before;
      }
    }
  }

  /** Counting a range is counting its two halves. */
  lemma {:induction false} CountProgressSplit(tasks: seq<Task>, lo: int, mid: int, hi: int)
    requires lo <= mid <= hi
    ensures CountProgress(tasks, lo, hi) == CountProgress(tasks, lo, mid) + CountProgress(tasks, mid + 1, hi)
  {
    if tasks != [] {
      CountProgressSplit(tasks[..|tasks| - 1], lo, mid, hi);
    }
  }

  /** A range every task's progress lies in counts every task. */
  lemma {:induction false} CountProgressAll(tasks: seq<Task>, lo: int, hi: int)
    requires forall k :: 0 <= k < |tasks| ==> lo <= tasks[k].progress <= hi
    ensures CountProgress(tasks, lo, hi) == |tasks|
  {
    if tasks != [] {
      CountProgressAll(tasks[..|tasks| - 1], lo, hi);
    }
  }

  /** The three classes are disjoint and together count exactly the tasks whose
      progress is in [0, 100]; when every progress is in range they add up to the
      total. */
  lemma StatsPartition(tasks: seq<Task>)
    ensures var s := StatsOf(tasks);
      && s.completed + s.inProgress + s.notStarted == CountProgress(tasks, 0, 100)
      && ((forall k :: 0 <= k < |tasks| ==> 0 <= tasks[k].progress <= 100) ==>
            s.completed + s.inProgress + s.notStarted == s.total)
  {
    CountProgressSplit(tasks, 0, 0, 100);
    CountProgressSplit(tasks, 1, 99, 100);
    if forall k :: 0 <= k < |tasks| ==> 0 <= tasks[k].progress <= 100 {
      CountProgressAll(tasks, 0, 100);
    }
  }

  // ---------------------------------------------------------------------------
  // The component

  /** The App component's state. Valid() is the effect that re-validates on every
      change of `tasks`: the diagnostics shown are always those of the current list. */
  class Planner {
    var tasks: seq<Task>
    var editingTask: Option<Task>
    var showTaskForm: bool
    var dependencyErrors: seq<string>

    ghost predicate Valid()
      reads this
    {
      dependencyErrors == Violations(tasks)
    }

    /** First render: no tasks, no form, no diagnostics. */
    constructor()
      ensures Valid()
      ensures tasks == [] && editingTask == None && !showTaskForm && dependencyErrors == []
    {
      tasks := [];
      editingTask := None;
      showTaskForm := false;
      dependencyErrors := [];
    }

    /** The effect that runs after `tasks` changes: re-validate. */
    method TasksChanged()
      modifies this`dependencyErrors
      ensures Valid()
    {
      dependencyErrors := ValidateTaskDependencies(tasks);
    }

    /** The header's "Add Task" button. */
    method OpenTaskForm()
      requires Valid()
      modifies this`showTaskForm
      ensures Valid() && showTaskForm
    {
      showTaskForm := true;
    }

    /** handleTaskEdit: open the form on `task`. */
    method EditTask(task: Task)
      requires Valid()
      modifies this`editingTask, this`showTaskForm
      ensures Valid() && editingTask == Some(task) && showTaskForm
    {
      editingTask := Some(task);
      showTaskForm := true;
    }

    /** The form's cancel button: close it and forget the task being edited. */
    method CancelTaskForm()
      requires Valid()
      modifies this`editingTask, this`showTaskForm
      ensures Valid() && editingTask == None && !showTaskForm
    {
      showTaskForm := false;
      editingTask := None;
    }

    /** handleTaskSubmit: edits the task being edited, or appends a new task with id
        `newId`; either way the form closes and the diagnostics are recomputed. */
    method SubmitTask(taskData: TaskFormData, newId: string)
      requires Valid()
      modifies this
      ensures Valid() && !showTaskForm && editingTask == None
      ensures old(editingTask).Some? ==> tasks == WithEdited(old(tasks), old(editingTask).value.id, taskData)
      ensures old(editingTask).None? ==> tasks == old(tasks) + [NewTask(taskData, newId)]
    {
      if editingTask.Some? {
        tasks := WithEdited(tasks, editingTask.value.id, taskData);
        editingTask := None;
      } else {
        tasks := tasks + [NewTask(taskData, newId)];
      }
      showTaskForm := false;
      TasksChanged();
    }

    /** handleTaskDelete, once the user has confirmed: drop the task, then scrub its
        id from the remaining dependency lists. */
    method DeleteTask(taskId: string)
      requires Valid()
      modifies this
      ensures Valid() && tasks == AfterDelete(old(tasks), taskId)
      ensures editingTask == old(editingTask) && showTaskForm == old(showTaskForm)
    {
      tasks := WithoutId(tasks, taskId);
      tasks := ScrubDependency(tasks, taskId);
      TasksChanged();
    }

    /** handleTaskUpdate. */
    method UpdateTask(taskId: string, updates: TaskPatch)
      requires Valid()
      modifies this
      ensures Valid() && tasks == WithPatched(old(tasks), taskId, updates)
      ensures editingTask == old(editingTask) && showTaskForm == old(showTaskForm)
    {
      tasks := WithPatched(tasks, taskId, updates);
      TasksChanged();
    }

    /** handleProgressUpdate. */
    method UpdateProgress(taskId: string, progress: int)
      requires Valid()
      modifies this
      ensures Valid() && tasks == WithProgress(old(tasks), taskId, progress)
      ensures editingTask == old(editingTask) && showTaskForm == old(showTaskForm)
    {
      tasks := WithProgress(tasks, taskId, progress);
      TasksChanged();
    }

    /** The dashboard counters of the current list. */
    function Stats(): Stats
      reads this
    {
      StatsOf(tasks)
    }

    /** The timeline window rendered on day `today`. */
    function Timeline(today: Day): DateRange
      reads this
    {
      GetDateRange(tasks, today)
    }
  }
}
