/** Bar layout, category colours and the dependency validator (src/utils/ganttUtils.ts). */
module GanttUtils {
  import opened Types
  import opened DateUtils

  // ---------------------------------------------------------------------------
  // calculateTaskPosition

  /** Horizontal placement of one task bar, in pixels. */
  datatype Position = Position(left: real, width: real)

  /** Width of one day when a `containerWidth`-pixel strip shows the timeline
      [timelineStart, timelineEnd]. */
  function DayWidth(timelineStart: Day, timelineEnd: Day, containerWidth: real): real
    requires timelineStart < timelineEnd
  {
    containerWidth / (DifferenceInDays(StartOfDay(timelineEnd), StartOfDay(timelineStart)) as real)
  }

  /** calculateTaskPosition: the bar starts at the task's day offset from the
      timeline start (never left of the strip) and spans its inclusive day count
      (never narrower than one day). */
  function CalculateTaskPosition(task: Task, timelineStart: Day, timelineEnd: Day, containerWidth: real): (p: Position)
    requires timelineStart < timelineEnd
    ensures p.left >= 0.0
    ensures p.width >= DayWidth(timelineStart, timelineEnd, containerWidth)
  {
    DifferenceOfDayStarts(timelineEnd, timelineStart);
    var dayWidth := DayWidth(timelineStart, timelineEnd, containerWidth);
    var startOffset := DifferenceInDays(StartOfDay(task.startDate), StartOfDay(timelineStart));
    var taskDuration := DifferenceInDays(StartOfDay(task.endDate), StartOfDay(task.startDate)) + 1;
    Position(RealMax(0.0, startOffset as real * dayWidth), RealMax(dayWidth, taskDuration as real * dayWidth))
  }

  /** Math.max on two numbers. */
  function RealMax(a: real, b: real): (m: real)
    ensures m >= a && m >= b && (m == a || m == b)
  {
    if a >= b then a else b
  }

  /** With a positive day width the bar's geometry is exact: its left edge is the
      task's day offset times the day width (or 0 for a task starting on or before
      the timeline start), and an ordered task is exactly its inclusive day count
      wide; the day width is the strip divided by the timeline's length in days. */
  lemma {:induction false} TaskPositionExact(task: Task, timelineStart: Day, timelineEnd: Day, containerWidth: real)
    requires timelineStart < timelineEnd
    ensures DayWidth(timelineStart, timelineEnd, containerWidth)
            == containerWidth / ((timelineEnd - timelineStart) as real)
    ensures var dayWidth := DayWidth(timelineStart, timelineEnd, containerWidth);
      var p := CalculateTaskPosition(task, timelineStart, timelineEnd, containerWidth);
      dayWidth > 0.0 ==>
        && (task.startDate <= timelineStart ==> p.left == 0.0)
        && (task.startDate > timelineStart ==> p.left == (task.startDate - timelineStart) as real * dayWidth)
        && (task.endDate >= task.startDate ==> p.width == (task.endDate - task.startDate + 1) as real * dayWidth)
  {
    DifferenceOfDayStarts(timelineEnd, timelineStart);
    DifferenceOfDayStarts(task.startDate, timelineStart);
    DifferenceOfDayStarts(task.endDate, task.startDate);
    var dayWidth := DayWidth(timelineStart, timelineEnd, containerWidth);
    if dayWidth > 0.0 {
      var k := task.startDate - timelineStart;
      if k <= 0 {
        assert k as real * dayWidth <= 0.0;
      }
      var n := task.endDate - task.startDate + 1;
      if n >= 1 {
        assert n as real * dayWidth >= dayWidth;
      }
    }
  }

  // ---------------------------------------------------------------------------
  // getCategoryColor

  /** Background, border and text style classes for a category. */
  datatype ColorClasses = ColorClasses(bg: string, border: string, text: string)

  /** The palette table. */
  function Palette(c: Category): ColorClasses
  {
    match c
    case Planning => ColorClasses("bg-blue-500", "border-blue-600", "text-blue-900")
    case Development => ColorClasses("bg-green-500", "border-green-600", "text-green-900")
    case Testing => ColorClasses("bg-amber-500", "border-amber-600", "text-amber-900")
    case Deployment => ColorClasses("bg-red-500", "border-red-600", "text-red-900")
  }

  /** The string a category is stored as. */
  function CategoryKey(c: Category): string
  {
    match c
    case Planning => "planning"
    case Development => "development"
    case Testing => "testing"
    case Deployment => "deployment"
  }

  /** Looks a string up among the four category keys. */
  function ParseCategory(s: string): (r: Option<Category>)
    ensures r.Some? ==> CategoryKey(r.value) == s
    ensures r.None? ==> forall c: Category :: CategoryKey(c) != s
  {
    if s == "planning" then Some(Planning)
    else if s == "development" then Some(Development)
    else if s == "testing" then Some(Testing)
    else if s == "deployment" then Some(Deployment)
    else None
  }

  /** getCategoryColor: the palette entry of the named category, the development
      entry for any other string. */
  function GetCategoryColor(category: string): (r: ColorClasses)
    ensures (forall c: Category :: CategoryKey(c) != category) ==> r == Palette(Development)
    ensures forall c: Category :: CategoryKey(c) == category ==> r == Palette(c)
  {
    match ParseCategory(category)
    case Some(c) => Palette(c)
    case None => Palette(Development)
  }

  // ---------------------------------------------------------------------------
  // validateTaskDependencies

  /** `new Map(tasks.map(t => [t.id, t]))`: entries inserted in list order, so a
      later task overwrites an earlier one with the same id. */
  function IdMap(tasks: seq<Task>): map<string, Task>
  {
    if tasks == [] then map[]
    else
      var last := tasks[|tasks| - 1];
      IdMap(tasks[..|tasks| - 1])[last.id := last]
  }

  /** An id resolves iff some task carries it, and then to the LAST such task. */
  lemma {:induction false} IdMapLastWins(tasks: seq<Task>, id: string)
    ensures id in IdMap(tasks) <==> exists j :: 0 <= j < |tasks| && tasks[j].id == id
    ensures id in IdMap(tasks) ==> exists j :: 0 <= j < |tasks| && IdMap(tasks)[id] == tasks[j] && tasks[j].id == id
                                    && forall j' :: j < j' < |tasks| ==> tasks[j'].id != id
  {
    if tasks != [] {
      var init := tasks[..|tasks| - 1];
      IdMapLastWins(init, id);
      if tasks[|tasks| - 1].id != id && id in IdMap(init) {
        var j :| 0 <= j < |init| && IdMap(init)[id] == init[j] && init[j].id == id
                 && forall j' :: j < j' < |init| ==> init[j'].id != id;
        assert tasks[j] == init[j];
      }
      if exists j :: 0 <= j < |tasks| && tasks[j].id == id {
        var j :| 0 <= j < |tasks| && tasks[j].id == id;
        if j < |init| {
          assert init[j].id == id;
        }
      }
    }
  }

  /** With unique ids, each task is found under its own id. */
  lemma IdMapUnique(tasks: seq<Task>, i: int)
    requires UniqueIds(tasks) && 0 <= i < |tasks|
    ensures tasks[i].id in IdMap(tasks) && IdMap(tasks)[tasks[i].id] == tasks[i]
  {
    IdMapLastWins(tasks, tasks[i].id);
  }

  /** A (dependent task, dependency position) pair: `task` indexes the task list,
      `dep` indexes that task's dependency list. */
  datatype Edge = Edge(task: nat, dep: nat)

  /** The k-th dependency of task i resolves in `m` to a task that ends on or after
      task i starts. */
  predicate Conflict(tasks: seq<Task>, m: map<string, Task>, i: nat, k: nat)
    requires i < |tasks| && k < |tasks[i].dependencies|
  {
    var depId := tasks[i].dependencies[k];
    depId in m && m[depId].endDate >= tasks[i].startDate
  }

  /** The conflicting positions among the first k dependencies of task i, in order. */
  function RowEdges(tasks: seq<Task>, m: map<string, Task>, i: nat, k: nat): seq<Edge>
    requires i < |tasks| && k <= |tasks[i].dependencies|
  {
    if k == 0 then []
    else RowEdges(tasks, m, i, k - 1) + (if Conflict(tasks, m, i, k - 1) then [Edge(i, k - 1)] else [])
  }

  /** The conflicting pairs among the first n tasks, in task order and then
      dependency order. */
  function EdgesUpTo(tasks: seq<Task>, m: map<string, Task>, n: nat): seq<Edge>
    requires n <= |tasks|
  {
    if n == 0 then []
    else EdgesUpTo(tasks, m, n - 1) + RowEdges(tasks, m, n - 1, |tasks[n - 1].dependencies|)
  }

  /** Every conflicting (task, dependency) pair of the list. */
  function ConflictEdges(tasks: seq<Task>): seq<Edge>
  {
    EdgesUpTo(tasks, IdMap(tasks), |tasks|)
  }

  /** The pair is a valid position in the list. */
  predicate InRange(tasks: seq<Task>, e: Edge)
  {
    e.task < |tasks| && e.dep < |tasks[e.task].dependencies|
  }

  /** Lexicographic order on pairs. */
  predicate Before(a: Edge, b: Edge)
  {
    a.task < b.task || (a.task == b.task && a.dep < b.dep)
  }

  /** RowEdges lists exactly the conflicting positions below k, in increasing order. */
  lemma {:induction false} RowEdgesExact(tasks: seq<Task>, m: map<string, Task>, i: nat, k: nat)
    requires i < |tasks| && k <= |tasks[i].dependencies|
    ensures forall p :: 0 <= p < |RowEdges(tasks, m, i, k)| ==>
              RowEdges(tasks, m, i, k)[p].task == i && RowEdges(tasks, m, i, k)[p].dep < k &&
              Conflict(tasks, m, i, RowEdges(tasks, m, i, k)[p].dep)
    ensures forall d :: 0 <= d < k && Conflict(tasks, m, i, d) ==> Edge(i, d) in RowEdges(tasks, m, i, k)
    ensures forall p, q :: 0 <= p < q < |RowEdges(tasks, m, i, k)| ==>
              RowEdges(tasks, m, i, k)[p].dep < RowEdges(tasks, m, i, k)[q].dep
  {
    RowEdgesSound(tasks, m, i, k);
    RowEdgesComplete(tasks, m, i, k);
    RowEdgesSorted(tasks, m, i, k);
  }

  /** Row i's pairs are pairs of task i among its first k dependencies, and conflict. */
  lemma {:induction false} RowEdgesSound(tasks: seq<Task>, m: map<string, Task>, i: nat, k: nat)
    requires i < |tasks| && k <= |tasks[i].dependencies|
    ensures forall p :: 0 <= p < |RowEdges(tasks, m, i, k)| ==>
              RowEdges(tasks, m, i, k)[p].task == i && RowEdges(tasks, m, i, k)[p].dep < k &&
              Conflict(tasks, m, i, RowEdges(tasks, m, i, k)[p].dep)
  {
    if k > 0 {
      RowEdgesSound(tasks, m, i, k - 1);
      var prev := RowEdges(tasks, m, i, k - 1);
      var r := RowEdges(tasks, m, i, k);
      var hit := Conflict(tasks, m, i, k - 1);
      assert r == prev + (if hit then [Edge(i, k - 1)] else []);
      forall p | 0 <= p < |r|
        ensures r[p].task == i && r[p].dep < k && Conflict(tasks, m, i, r[p].dep)
      {
        if p < |prev| {
          assert r[p] == prev[p];
        } else {
          assert hit && r[p] == Edge(i, k - 1);
        }
      }
    }
  }

  /** Every conflicting dependency among the first k of task i is in row i. */
  lemma {:induction false} RowEdgesComplete(tasks: seq<Task>, m: map<string, Task>, i: nat, k: nat)
    requires i < |tasks| && k <= |tasks[i].dependencies|
    ensures forall d :: 0 <= d < k && Conflict(tasks, m, i, d) ==> Edge(i, d) in RowEdges(tasks, m, i, k)
  {
    if k > 0 {
      RowEdgesComplete(tasks, m, i, k - 1);
      var prev := RowEdges(tasks, m, i, k - 1);
      var r := RowEdges(tasks, m, i, k);
      assert r == prev + (if Conflict(tasks, m, i, k - 1) then [Edge(i, k - 1)] else []);
      forall d | 0 <= d < k && Conflict(tasks, m, i, d)
        ensures Edge(i, d) in r
      {
        if d < k - 1 {
          var p :| 0 <= p < |prev| && prev[p] == Edge(i, d);
          assert r[p] == Edge(i, d);
        } else {
          assert r[|r| - 1] == Edge(i, d);
        }
      }
    }
  }

  /** Row i lists its dependency positions in strictly increasing order. */
  lemma {:induction false} RowEdgesSorted(tasks: seq<Task>, m: map<string, Task>, i: nat, k: nat)
    requires i < |tasks| && k <= |tasks[i].dependencies|
    ensures forall p, q :: 0 <= p < q < |RowEdges(tasks, m, i, k)| ==>
              RowEdges(tasks, m, i, k)[p].dep < RowEdges(tasks, m, i, k)[q].dep
  {
    if k > 0 {
      RowEdgesSorted(tasks, m, i, k - 1);
      RowEdgesSound(tasks, m, i, k - 1);
      var prev := RowEdges(tasks, m, i, k - 1);
      var r := RowEdges(tasks, m, i, k);
      assert r == prev + (if Conflict(tasks, m, i, k - 1) then [Edge(i, k - 1)] else []);
      forall p, q | 0 <= p < q < |r|
        ensures r[p].dep < r[q].dep
      {
        if q < |prev| {
          assert r[p] == prev[p] && r[q] == prev[q];
        } else {
          assert r[p] == prev[p];
        }
      }
    }
  }

  /** Every pair EdgesUpTo lists is a conflicting pair of one of the first n tasks. */
  lemma {:induction false} EdgesUpToSound(tasks: seq<Task>, m: map<string, Task>, n: nat)
    requires n <= |tasks|
    ensures forall p :: 0 <= p < |EdgesUpTo(tasks, m, n)| ==>
              EdgesUpTo(tasks, m, n)[p].task < n && InRange(tasks, EdgesUpTo(tasks, m, n)[p]) &&
              Conflict(tasks, m, EdgesUpTo(tasks, m, n)[p].task, EdgesUpTo(tasks, m, n)[p].dep)
  {
    if n > 0 {
      EdgesUpToSound(tasks, m, n - 1);
      var len := |tasks[n - 1].dependencies|;
      RowEdgesExact(tasks, m, n - 1, len);
      var a := EdgesUpTo(tasks, m, n - 1);
      var b := RowEdges(tasks, m, n - 1, len);
      var r := EdgesUpTo(tasks, m, n);
      assert r == a + b;
      forall p | 0 <= p < |r|
        ensures r[p].task < n && InRange(tasks, r[p]) && Conflict(tasks, m, r[p].task, r[p].dep)
      {
        if p < |a| {
          assert r[p] == a[p];
        } else {
          assert r[p] == b[p - |a|];
        }
      }
    }
  }

  /** Every conflicting pair of the first n tasks is listed by EdgesUpTo. */
  lemma {:induction false} EdgesUpToComplete(tasks: seq<Task>, m: map<string, Task>, n: nat)
    requires n <= |tasks|
    ensures forall e :: InRange(tasks, e) && e.task < n && Conflict(tasks, m, e.task, e.dep) ==> e in EdgesUpTo(tasks, m, n)
  {
    if n > 0 {
      EdgesUpToComplete(tasks, m, n - 1);
      var len := |tasks[n - 1].dependencies|;
      RowEdgesExact(tasks, m, n - 1, len);
      var a := EdgesUpTo(tasks, m, n - 1);
      var b := RowEdges(tasks, m, n - 1, len);
      var r := EdgesUpTo(tasks, m, n);
      assert r == a + b;
      forall e | InRange(tasks, e) && e.task < n && Conflict(tasks, m, e.task, e.dep)
        ensures e in r
      {
        if e.task < n - 1 {
          assert e in a;
        } else {
          assert Edge(n - 1, e.dep) in b;
        }
      }
    }
  }

  /** EdgesUpTo is strictly increasing in lexicographic order. */
  lemma {:induction false} EdgesUpToSorted(tasks: seq<Task>, m: map<string, Task>, n: nat)
    requires n <= |tasks|
    ensures forall p, q :: 0 <= p < q < |EdgesUpTo(tasks, m, n)| ==>
              Before(EdgesUpTo(tasks, m, n)[p], EdgesUpTo(tasks, m, n)[q])
  {
    if n > 0 {
      EdgesUpToSorted(tasks, m, n - 1);
      EdgesUpToSound(tasks, m, n - 1);
      var len := |tasks[n - 1].dependencies|;
      RowEdgesExact(tasks, m, n - 1, len);
      var a := EdgesUpTo(tasks, m, n - 1);
      var b := RowEdges(tasks, m, n - 1, len);
      var r := EdgesUpTo(tasks, m, n);
      assert r == a + b;
      forall p, q | 0 <= p < q < |r|
        ensures Before(r[p], r[q])
      {
        if q < |a| {
          assert r[p] == a[p] && r[q] == a[q];
        } else if p < |a| {
          assert r[p] == a[p] && r[q] == b[q - |a|];
        } else {
          assert r[p] == b[p - |a|] && r[q] == b[q - |a|];
        }
      }
    }
  }

  /** The list of conflicting pairs is complete, sound, and strictly increasing (so
      every pair occurs at most once, ordered by task and then by position in the
      task's dependency list). */
  lemma ConflictEdgesExact(tasks: seq<Task>)
    ensures forall e :: e in ConflictEdges(tasks) <==> InRange(tasks, e) && Conflict(tasks, IdMap(tasks), e.task, e.dep)
    ensures forall p, q :: 0 <= p < q < |ConflictEdges(tasks)| ==> Before(ConflictEdges(tasks)[p], ConflictEdges(tasks)[q])
  {
    var r := ConflictEdges(tasks);
    EdgesUpToSound(tasks, IdMap(tasks), |tasks|);
    EdgesUpToComplete(tasks, IdMap(tasks), |tasks|);
    EdgesUpToSorted(tasks, IdMap(tasks), |tasks|);
    forall e | e in r
      ensures InRange(tasks, e) && Conflict(tasks, IdMap(tasks), e.task, e.dep)
    {
      var p :| 0 <= p < |r| && r[p] == e;
    }
  }

  /** The diagnostic text for a dependent task and the dependency it overlaps. */
  function Message(taskName: string, depName: string): string
  {
    "Task \"" + taskName + "\" cannot start before its dependency \"" + depName + "\" ends"
  }

  /** The message for a conflicting pair (empty for a pair that is out of range or
      does not resolve, which ConflictEdges never contains). */
  function MessageAt(tasks: seq<Task>, m: map<string, Task>, e: Edge): string
  {
    if InRange(tasks, e) && tasks[e.task].dependencies[e.dep] in m
    then Message(tasks[e.task].name, m[tasks[e.task].dependencies[e.dep]].name)
    else ""
  }

  /** The messages for a list of pairs, one each, in the same order. */
  function Render(tasks: seq<Task>, m: map<string, Task>, es: seq<Edge>): (r: seq<string>)
    ensures |r| == |es|
    ensures forall p :: 0 <= p < |es| ==> r[p] == MessageAt(tasks, m, es[p])
  {
    if es == [] then []
    else Render(tasks, m, es[..|es| - 1]) + [MessageAt(tasks, m, es[|es| - 1])]
  }

  /** What validateTaskDependencies returns: one message per conflicting pair. */
  function Violations(tasks: seq<Task>): seq<string>
  {
    Render(tasks, IdMap(tasks), ConflictEdges(tasks))
  }

  /** The diagnostics, position by position: there is one per conflicting pair and
      the p-th names the dependent task of the p-th pair and the task its
      dependency id resolves to. */
  lemma ViolationsNameBothTasks(tasks: seq<Task>, p: int)
    requires 0 <= p < |ConflictEdges(tasks)|
    ensures |Violations(tasks)| == |ConflictEdges(tasks)|
    ensures InRange(tasks, ConflictEdges(tasks)[p])
    ensures var e := ConflictEdges(tasks)[p];
      var depId := tasks[e.task].dependencies[e.dep];
      && depId in IdMap(tasks)
      && IdMap(tasks)[depId].endDate >= tasks[e.task].startDate
      && Violations(tasks)[p] == Message(tasks[e.task].name, IdMap(tasks)[depId].name)
  {
    ConflictEdgesExact(tasks);
    assert ConflictEdges(tasks)[p] in ConflictEdges(tasks);
  }

  /** A dependency id that names no task is never reported. */
  lemma DanglingNeverReported(tasks: seq<Task>, i: nat, k: nat)
    requires i < |tasks| && k < |tasks[i].dependencies|
    requires forall j :: 0 <= j < |tasks| ==> tasks[j].id != tasks[i].dependencies[k]
    ensures Edge(i, k) !in ConflictEdges(tasks)
  {
    IdMapLastWins(tasks, tasks[i].dependencies[k]);
    ConflictEdgesExact(tasks);
  }

  /** With unique ids, task a depending on task b is reported exactly when b ends on
      or after a starts, and then exactly once per occurrence of b's id in a's list. */
  lemma DependencyReportedIffOverlap(tasks: seq<Task>, a: nat, b: nat, k: nat)
    requires UniqueIds(tasks) && a < |tasks| && b < |tasks|
    requires k < |tasks[a].dependencies| && tasks[a].dependencies[k] == tasks[b].id
    ensures Edge(a, k) in ConflictEdges(tasks) <==> tasks[b].endDate >= tasks[a].startDate
    ensures forall p, q :: 0 <= p < q < |ConflictEdges(tasks)| ==> ConflictEdges(tasks)[p] != ConflictEdges(tasks)[q]
  {
    IdMapUnique(tasks, b);
    ConflictEdgesExact(tasks);
  }

  /** validateTaskDependencies: builds the id map, then walks every task and every
      dependency id of it, pushing a message for each one that resolves and ends on or
      after the dependent task starts. */
  method ValidateTaskDependencies(tasks: seq<Task>) returns (errors: seq<string>)
    ensures errors == Violations(tasks)
  {
    var taskMap := BuildTaskMap(tasks);
    errors := [];
    ghost var edges: seq<Edge> := [];
    var i := 0;
    while i < |tasks|
      invariant i <= |tasks|
      invariant edges == EdgesUpTo(tasks, taskMap, i)
      invariant errors == Render(tasks, taskMap, edges)
    {
      edges, errors := CheckDependencies(tasks, taskMap, i, edges, errors);
      RowDone(tasks, taskMap, i);
      i := i + 1;
    }
  }

  /** The inner `task.dependencies.forEach` for task i: pushes, onto the messages so
      far, one message per conflicting dependency of task i, in list order. */
  method CheckDependencies(tasks: seq<Task>, taskMap: map<string, Task>, i: nat,
                           ghost edgesBefore: seq<Edge>, errorsBefore: seq<string>)
    returns (ghost edges: seq<Edge>, errors: seq<string>)
    requires i < |tasks| && errorsBefore == Render(tasks, taskMap, edgesBefore)
    ensures edges == edgesBefore + RowEdges(tasks, taskMap, i, |tasks[i].dependencies|)
    ensures errors == Render(tasks, taskMap, edges)
  {
    errors := errorsBefore;
    var task := tasks[i];
    var k := 0;
    assert edgesBefore + RowEdges(tasks, taskMap, i, 0) == edgesBefore;
    while k < |task.dependencies|
      invariant k <= |task.dependencies|
      invariant errors == Render(tasks, taskMap, edgesBefore + RowEdges(tasks, taskMap, i, k))
    {
      var depId := task.dependencies[k];
      if depId in taskMap && taskMap[depId].endDate >= task.startDate {
        ConflictStep(tasks, taskMap, i, k, edgesBefore);
        errors := errors + [Message(task.name, taskMap[depId].name)];
      } else {
        NoConflictStep(tasks, taskMap, i, k);
      }
      k := k + 1;
    }
    edges := edgesBefore + RowEdges(tasks, taskMap, i, k);
  }

  /** The id map of validateTaskDependencies, built by inserting the tasks in list
      order. */
  method BuildTaskMap(tasks: seq<Task>) returns (taskMap: map<string, Task>)
    ensures taskMap == IdMap(tasks)
  {
    taskMap := map[];
    var n := 0;
    while n < |tasks|
      invariant n <= |tasks|
      invariant taskMap == IdMap(tasks[..n])
    {
      assert tasks[..n + 1][..n] == tasks[..n];
      taskMap := taskMap[tasks[n].id := tasks[n]];
      n := n + 1;
    }
    assert tasks[..|tasks|] == tasks;
  }

  /** A conflicting step of the inner loop: the row grows by pair (i, k), and the
      rendered list by that pair's message. */
  lemma ConflictStep(tasks: seq<Task>, m: map<string, Task>, i: nat, k: nat, before: seq<Edge>)
    requires i < |tasks| && k < |tasks[i].dependencies|
    requires tasks[i].dependencies[k] in m && m[tasks[i].dependencies[k]].endDate >= tasks[i].startDate
    ensures RowEdges(tasks, m, i, k + 1) == RowEdges(tasks, m, i, k) + [Edge(i, k)]
    ensures Render(tasks, m, before + RowEdges(tasks, m, i, k + 1))
         == Render(tasks, m, before + RowEdges(tasks, m, i, k))
            + [Message(tasks[i].name, m[tasks[i].dependencies[k]].name)]
  {
    var row := RowEdges(tasks, m, i, k);
    assert before + RowEdges(tasks, m, i, k + 1) == (before + row) + [Edge(i, k)];
    RenderSnoc(tasks, m, before + row, Edge(i, k));
  }

  /** A step of the inner loop over a dependency that does not resolve, or ends
      before task i starts: the row stays as it is. */
  lemma NoConflictStep(tasks: seq<Task>, m: map<string, Task>, i: nat, k: nat)
    requires i < |tasks| && k < |tasks[i].dependencies|
    requires !(tasks[i].dependencies[k] in m && m[tasks[i].dependencies[k]].endDate >= tasks[i].startDate)
    ensures RowEdges(tasks, m, i, k + 1) == RowEdges(tasks, m, i, k)
  {
  }

  /** After its last dependency, task i's row closes the pairs of the first i + 1
      tasks. */
  lemma RowDone(tasks: seq<Task>, m: map<string, Task>, i: nat)
    requires i < |tasks|
    ensures EdgesUpTo(tasks, m, i + 1) == EdgesUpTo(tasks, m, i) + RowEdges(tasks, m, i, |tasks[i].dependencies|)
  {
  }

  /** Pushing a pair pushes its message. */
  lemma RenderSnoc(tasks: seq<Task>, m: map<string, Task>, es: seq<Edge>, e: Edge)
    ensures Render(tasks, m, es + [e]) == Render(tasks, m, es) + [MessageAt(tasks, m, e)]
  {
    assert (es + [e])[..|es|] == es;
  }
}
