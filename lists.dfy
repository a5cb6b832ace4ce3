/** The two `filter` idioms shared by the store and the task form: dropping one id
    from a list of ids (`ids.filter(x => x !== v)`), and dropping the tasks that carry
    one id (`tasks.filter(t => t.id !== v)`). */
module Lists {
  import opened Types

  /** Number of occurrences of `x` in `s`. */
  function Occurrences(s: seq<string>, x: string): (n: nat)
    ensures n <= |s|
    ensures n == 0 <==> x !in s
  {
    if s == [] then 0
    else Occurrences(s[..|s| - 1], x) + (if s[|s| - 1] == x then 1 else 0)
  }

  /** `s` with every occurrence of `x` removed, the rest kept in order. */
  function Without(s: seq<string>, x: string): (r: seq<string>)
    ensures x !in r
    ensures forall y :: y != x ==> (y in r <==> y in s)
    ensures |r| == |s| - Occurrences(s, x)
  {
    if s == [] then []
    else Without(s[..|s| - 1], x) + (if s[|s| - 1] == x then [] else [s[|s| - 1]])
  }

  /** Removing a value that is not there changes nothing. */
  lemma {:induction false} WithoutAbsent(s: seq<string>, x: string)
    requires x !in s
    ensures Without(s, x) == s
  {
    if s != [] {
      WithoutAbsent(s[..|s| - 1], x);
    }
  }

  /** Filtering distributes over concatenation, so the kept elements stay in their
      original relative order. */
  lemma {:induction false} WithoutAppend(a: seq<string>, b: seq<string>, x: string)
    ensures Without(a + b, x) == Without(a, x) + Without(b, x)
  {
    if b == [] {
      assert a + b == a;
    } else {
      var last := |b| - 1;
      assert (a + b)[..|a + b| - 1] == a + b[..last];
      WithoutAppend(a, b[..last], x);
    }
  }

  /** `tasks` without the tasks whose id is `id`, the rest kept in order. */
  function WithoutId(tasks: seq<Task>, id: string): (r: seq<Task>)
    ensures forall k :: 0 <= k < |r| ==> r[k].id != id
    ensures forall k :: 0 <= k < |tasks| && tasks[k].id != id ==> tasks[k] in r
    ensures forall k :: 0 <= k < |r| ==> r[k] in tasks
    ensures |r| == |tasks| - CountId(tasks, id)
  {
    if tasks == [] then []
    else
      var last := tasks[|tasks| - 1];
      WithoutId(tasks[..|tasks| - 1], id) + (if last.id == id then [] else [last])
  }

  /** Dropping an id no task carries changes nothing. */
  lemma {:induction false} WithoutIdAbsent(tasks: seq<Task>, id: string)
    requires forall k :: 0 <= k < |tasks| ==> tasks[k].id != id
    ensures WithoutId(tasks, id) == tasks
  {
    if tasks != [] {
      var n := |tasks| - 1;
      var prefix := tasks[..n];
      forall k | 0 <= k < |prefix|
        ensures prefix[k].id != id
      {
        assert prefix[k] == tasks[k];
      }
      WithoutIdAbsent(prefix, id);
      assert tasks[n].id != id;
      assert tasks == prefix + [tasks[n]];
    }
  }

  /** Dropping by id distributes over concatenation: survivors keep their order. */
  lemma {:induction false} WithoutIdAppend(a: seq<Task>, b: seq<Task>, id: string)
    ensures WithoutId(a + b, id) == WithoutId(a, id) + WithoutId(b, id)
  {
    if b == [] {
      assert a + b == a;
    } else {
      var last := |b| - 1;
      assert (a + b)[..|a + b| - 1] == a + b[..last];
      WithoutIdAppend(a, b[..last], id);
    }
  }

  /** When ids are unique, dropping the id of task k removes exactly that task. */
  lemma WithoutIdRemovesOne(tasks: seq<Task>, k: int)
    requires UniqueIds(tasks) && 0 <= k < |tasks|
    ensures WithoutId(tasks, tasks[k].id) == tasks[..k] + tasks[k + 1..]
  {
    var id := tasks[k].id;
    var before, after := tasks[..k], tasks[k + 1..];
    assert tasks == (before + [tasks[k]]) + after;
    forall j | 0 <= j < |before|
      ensures before[j].id != id
    {
      assert before[j] == tasks[j];
    }
    forall j | 0 <= j < |after|
      ensures after[j].id != id
    {
      assert after[j] == tasks[k + 1 + j];
    }
    WithoutIdAbsent(before, id);
    WithoutIdAbsent(after, id);
    WithoutIdAppend(before + [tasks[k]], after, id);
    WithoutIdAppend(before, [tasks[k]], id);
    assert WithoutId([tasks[k]], id) == [];
    assert WithoutId(before + [tasks[k]], id) == before;
    assert WithoutId(tasks, id) == before + after;
  }
}
