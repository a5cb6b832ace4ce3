/** The task form's logic (src/components/TaskForm.tsx): its initial contents, the
    dependency checkboxes, the list of tasks offered as dependencies, and the guard
    on submission. */
module TaskForm {
  import opened Types
  import opened Lists

  // ---------------------------------------------------------------------------
  // The submit guard: String.prototype.trim

  /** The characters String.prototype.trim strips: the ECMAScript WhiteSpace and
      LineTerminator code points. */
  predicate IsWhiteSpace(c: char)
  {
    c == '\t' || c == '\n' || c == '\U{B}' || c == '\U{C}' || c == '\r' || c == ' '
    || c == '\U{A0}' || c == '\U{1680}' || ('\U{2000}' <= c <= '\U{200A}')
    || c == '\U{2028}' || c == '\U{2029}' || c == '\U{202F}' || c == '\U{205F}'
    || c == '\U{3000}' || c == '\U{FEFF}'
  }

  /** `s` without its leading white space. */
  function TrimStart(s: string): (r: string)
    ensures |r| <= |s| && r == s[|s| - |r|..]
    ensures r != [] ==> !IsWhiteSpace(r[0])
    ensures forall i :: 0 <= i < |s| - |r| ==> IsWhiteSpace(s[i])
  {
    if s != [] && IsWhiteSpace(s[0]) then TrimStart(s[1..]) else s
  }

  /** `s` without its trailing white space. */
  function TrimEnd(s: string): (r: string)
    ensures |r| <= |s| && r == s[..|r|]
    ensures r != [] ==> !IsWhiteSpace(r[|r| - 1])
    ensures forall i :: |r| <= i < |s| ==> IsWhiteSpace(s[i])
  {
    if s != [] && IsWhiteSpace(s[|s| - 1]) then TrimEnd(s[..|s| - 1]) else s
  }

  /** String.prototype.trim. */
  function Trim(s: string): string
  {
    TrimEnd(TrimStart(s))
  }

  /** A string trims to nothing exactly when every character of it is white space. */
  lemma TrimEmptyIffBlank(s: string)
    ensures Trim(s) == [] <==> forall i :: 0 <= i < |s| ==> IsWhiteSpace(s[i])
  {
    var t := TrimStart(s);
    if Trim(s) != [] {
      assert !IsWhiteSpace(t[0]) && t[0] == s[|s| - |t|];
    }
  }

  // ---------------------------------------------------------------------------
  // Dependency checkboxes

  /** handleDependencyToggle's new list: untick (drop every occurrence) when the id
      is ticked, tick (append it) otherwise. */
  function Toggle(deps: seq<string>, taskId: string): (r: seq<string>)
    ensures (taskId in r) == (taskId !in deps)
    ensures forall other :: other != taskId ==> (other in r <==> other in deps)
    ensures taskId !in deps ==> |r| == |deps| + 1 && r[..|deps|] == deps && r[|deps|] == taskId
    ensures taskId in deps ==> |r| == |deps| - Occurrences(deps, taskId)
  {
    if taskId in deps then Without(deps, taskId) else deps + [taskId]
  }

  /** Ticking and then unticking an id restores the list exactly. */
  lemma ToggleTwiceRestores(deps: seq<string>, taskId: string)
    requires taskId !in deps
    ensures Toggle(Toggle(deps, taskId), taskId) == deps
  {
    WithoutAppend(deps, [taskId], taskId);
    WithoutAbsent(deps, taskId);
    assert Without([taskId], taskId) == [];
  }

  /** Unticking keeps the other ids in their order: the filter distributes over any
      split of the list. */
  lemma UntickKeepsOrder(before: seq<string>, after: seq<string>, taskId: string)
    requires taskId in before + after
    ensures Toggle(before + after, taskId) == Without(before, taskId) + Without(after, taskId)
  {
    WithoutAppend(before, after, taskId);
  }

  /** Unticking and ticking again moves the id to the end, once. */
  lemma ToggleTwiceMovesToEnd(deps: seq<string>, taskId: string)
    requires taskId in deps
    ensures Toggle(Toggle(deps, taskId), taskId) == Without(deps, taskId) + [taskId]
  {
  }

  // ---------------------------------------------------------------------------
  // Dependencies offered, and the form's initial contents

  /** availableDependencies: every existing task except the one being edited. */
  function AvailableDependencies(existingTasks: seq<Task>, editingTask: Option<Task>): seq<Task>
  {
    match editingTask
    case None => existingTasks
    case Some(t) => WithoutId(existingTasks, t.id)
  }

  /** The offered tasks are the existing ones in their order, minus exactly the
      task being edited when ids are unique (minus nothing when not editing, or when
      the edited task is no longer in the list). */
  lemma AvailableDependenciesExact(existingTasks: seq<Task>, editingTask: Option<Task>)
    requires UniqueIds(existingTasks)
    ensures editingTask.None? ==> AvailableDependencies(existingTasks, editingTask) == existingTasks
    ensures editingTask.Some? ==>
      forall k :: 0 <= k < |existingTasks| && existingTasks[k].id == editingTask.value.id ==>
        AvailableDependencies(existingTasks, editingTask) == existingTasks[..k] + existingTasks[k + 1..]
    ensures editingTask.Some? && (forall k :: 0 <= k < |existingTasks| ==> existingTasks[k].id != editingTask.value.id) ==>
      AvailableDependencies(existingTasks, editingTask) == existingTasks
  {
    if editingTask.Some? {
      var id := editingTask.value.id;
      forall k | 0 <= k < |existingTasks| && existingTasks[k].id == id
        ensures AvailableDependencies(existingTasks, editingTask) == existingTasks[..k] + existingTasks[k + 1..]
      {
        WithoutIdRemovesOne(existingTasks, k);
      }
      if forall k :: 0 <= k < |existingTasks| ==> existingTasks[k].id != id {
        WithoutIdAbsent(existingTasks, id);
      }
    }
  }

  /** `s || fallback` on an optional string. */
  function OrEmpty(s: Option<string>): string
  {
    match s
    case Some(v) => v
    case None => ""
  }

  /** The form's initial state: a copy of the task being edited, or a blank
      development task dated today. */
  function InitialFormData(editingTask: Option<Task>, today: Day): (f: TaskFormData)
    ensures editingTask.None? ==>
      f.name == "" && f.category == Development && f.description == "" && f.assignee == ""
      && f.dependencies == [] && f.startDate == today && f.endDate == today
    ensures editingTask.Some? ==>
      var t := editingTask.value;
      f.name == t.name && f.startDate == t.startDate && f.endDate == t.endDate
      && f.category == t.category && f.dependencies == t.dependencies
      && (t.description.Some? ==> f.description == t.description.value)
      && (t.description.None? ==> f.description == "")
      && (t.assignee.Some? ==> f.assignee == t.assignee.value)
      && (t.assignee.None? ==> f.assignee == "")
  {
    match editingTask
    case None => TaskFormData("", today, today, Development, "", "", [])
    case Some(t) =>
      TaskFormData(t.name, t.startDate, t.endDate, t.category, OrEmpty(t.description), OrEmpty(t.assignee), t.dependencies)
  }

  /** The form component: the task it edits (if any) and the data typed so far. */
  class FormState {
    const editingTask: Option<Task>
    var formData: TaskFormData

    /** Mounting the form, on day `today`. */
    constructor(editingTask: Option<Task>, today: Day)
      ensures this.editingTask == editingTask
      ensures formData == InitialFormData(editingTask, today)
    {
      this.editingTask := editingTask;
      formData := InitialFormData(editingTask, today);
    }

    /** handleDependencyToggle: only the dependency list changes. */
    method ToggleDependency(taskId: string)
      modifies this
      ensures formData == old(formData).(dependencies := Toggle(old(formData.dependencies), taskId))
    {
      formData := formData.(dependencies := Toggle(formData.dependencies, taskId));
    }

    /** handleSubmit: hands the form data on, unless the name is blank. */
    method HandleSubmit() returns (submitted: Option<TaskFormData>)
      ensures submitted.Some? <==> exists i :: 0 <= i < |formData.name| && !IsWhiteSpace(formData.name[i])
      ensures submitted.Some? ==> submitted.value == formData
    {
      TrimEmptyIffBlank(formData.name);
      if Trim(formData.name) != [] {
        submitted := Some(formData);
      } else {
        submitted := None;
      }
    }
  }
}
