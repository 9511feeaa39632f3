/** Batches of tasks and their affinity (src/parallel/task_balancer.cpp), and what running a batch in
    order leaves in memory. */
module Batches {

  /** What one buffer holds, and all buffers by address. */
  type Buffer = seq<int>
  type Memory = seq<Buffer>

  /** A task computes new contents of its destination from memory; see ReadsOnly. */
  datatype Task = Task(destination: nat, sources: set<nat>, run: Memory -> Buffer, affinity: nat)

  ghost predicate ReadsOnly(t: Task) {
    forall m, m': Memory :: SameAt(m, m', t.sources + {t.destination}) ==> t.run(m) == t.run(m')
  }

  ghost predicate SameAt(m: Memory, m': Memory, addresses: set<nat>) {
    |m| == |m'| && forall a :: a in addresses && a < |m| ==> m[a] == m'[a]
  }

  /** Tasks that share a destination share their affinity. */
  ghost predicate Balanced(tasks: seq<Task>) {
    forall i, j :: 0 <= i < |tasks| && 0 <= j < |tasks| && tasks[i].destination == tasks[j].destination ==>
      tasks[i].affinity == tasks[j].affinity
  }

  /** No task touches the destination of a task with another destination. */
  ghost predicate Independent(tasks: seq<Task>, size: nat) {
    && (forall i :: 0 <= i < |tasks| ==> tasks[i].destination < size && ReadsOnly(tasks[i]))
    && forall i, j :: 0 <= i < |tasks| && 0 <= j < |tasks| && tasks[i].destination != tasks[j].destination ==>
         tasks[i].destination !in tasks[j].sources
  }

  class TaskBalancer {
    var affinityMap: map<nat, nat>
    var tasks: seq<Task>

    ghost predicate Valid()
      reads this
    {
      && Balanced(tasks)
      && (forall i :: 0 <= i < |tasks| ==> tasks[i].destination in affinityMap && affinityMap[tasks[i].destination] == tasks[i].affinity)
      && (forall d :: d in affinityMap ==> affinityMap[d] < |affinityMap|)
      && forall d, e :: d in affinityMap && e in affinityMap && d != e ==> affinityMap[d] != affinityMap[e]
    }

    constructor ()
      ensures Valid() && tasks == [] && affinityMap == map[]
    {
      affinityMap := map[];
      tasks := [];
    }

    /** A new destination gets the number of destinations before it. */
    method Add(task: Task)
      requires Valid()
      modifies this
      ensures Valid()
      ensures task.destination in affinityMap
      ensures affinityMap == if task.destination in old(affinityMap) then old(affinityMap)
                             else old(affinityMap)[task.destination := |old(affinityMap)|]
      ensures tasks == old(tasks) + [task.(affinity := affinityMap[task.destination])]
    {
      var destination := task.destination;
      if destination !in affinityMap {
        affinityMap := affinityMap[destination := |affinityMap|];
      }
      tasks := tasks + [task.(affinity := affinityMap[destination])];
    }

    method PopAll() returns (popped: seq<Task>)
      requires Valid()
      modifies this
      ensures Valid() && tasks == [] && affinityMap == map[]
      ensures popped == old(tasks) && Balanced(popped)
    {
      affinityMap := map[];
      popped := tasks;
      tasks := [];
    }
  }

  // ---------- running in order ----------

  function Apply(t: Task, m: Memory): (m': Memory)
    requires t.destination < |m|
    ensures |m'| == |m|
  {
    m[t.destination := t.run(m)]
  }

  /** Memory after the first k tasks, in order. */
  ghost function Sequential(m: Memory, tasks: seq<Task>, k: nat): (m': Memory)
    requires k <= |tasks| && Independent(tasks, |m|)
    ensures |m'| == |m|
  {
    if k == 0 then m else Apply(tasks[k - 1], Sequential(m, tasks, k - 1))
  }

  /** One buffer after the listed tasks, when only its own tasks matter. */
  ghost function Own(m: Memory, tasks: seq<Task>, list: seq<nat>, d: nat): Buffer
    requires d < |m| && forall a :: 0 <= a < |list| ==> list[a] < |tasks|
  {
    if list == [] then m[d]
    else
      var before := Own(m, tasks, list[..|list| - 1], d);
      var t := tasks[list[|list| - 1]];
      if t.destination == d then t.run(m[d := before]) else before
  }

  ghost function FirstTasks(k: nat): (list: seq<nat>)
    ensures |list| == k && forall a :: 0 <= a < |list| ==> list[a] == a
  {
    seq(k, i => i)
  }

  /** Running a task in any memory that agrees with m except at destinations gives what it gives when
      only its own destination has changed. */
  lemma OwnEffect(m: Memory, now: Memory, tasks: seq<Task>, i: nat)
    requires Independent(tasks, |m|) && i < |tasks| && |now| == |m|
    requires forall a: nat :: a < |m| && (forall j :: 0 <= j < |tasks| ==> tasks[j].destination != a) ==> now[a] == m[a]
    ensures var d := tasks[i].destination; tasks[i].run(now) == tasks[i].run(m[d := now[d]])
  {
    var t := tasks[i];
    var d := t.destination;
    var mine := m[d := now[d]];
    assert ReadsOnly(t);
    forall a | a in t.sources + {d} && a < |now| ensures now[a] == mine[a] {
      if a != d {
        assert forall j :: 0 <= j < |tasks| ==> tasks[j].destination != a;
      }
    }
    assert SameAt(now, mine, t.sources + {d});
  }

  lemma {:induction false} SequentialUntouched(m: Memory, tasks: seq<Task>, k: nat, a: nat)
    requires Independent(tasks, |m|) && k <= |tasks| && a < |m| && forall j :: 0 <= j < |tasks| ==> tasks[j].destination != a
    ensures Sequential(m, tasks, k)[a] == m[a]
  {
    if k > 0 { SequentialUntouched(m, tasks, k - 1, a); }
  }

  lemma {:induction false} SequentialOwn(m: Memory, tasks: seq<Task>, k: nat, d: nat)
    requires Independent(tasks, |m|) && k <= |tasks| && d < |m|
    ensures Sequential(m, tasks, k)[d] == Own(m, tasks, FirstTasks(k), d)
  {
    if k > 0 {
      SequentialOwn(m, tasks, k - 1, d);
      assert FirstTasks(k)[..k - 1] == FirstTasks(k - 1);
      var now := Sequential(m, tasks, k - 1);
      forall a: nat | a < |m| && (forall j :: 0 <= j < |tasks| ==> tasks[j].destination != a) ensures now[a] == m[a] {
        SequentialUntouched(m, tasks, k - 1, a);
      }
      OwnEffect(m, now, tasks, k - 1);
    }
  }

  // ---------- the list of one worker ----------

  /** The tasks among the first k that send_tasks gives to worker w. */
  function Assigned(tasks: seq<Task>, count: nat, w: nat, k: nat): (list: seq<nat>)
    requires count > 0 && k <= |tasks|
    ensures forall a :: 0 <= a < |list| ==> list[a] < k && tasks[list[a]].affinity % count == w
  {
    if k == 0 then []
    else
      var before := Assigned(tasks, count, w, k - 1);
      if tasks[k - 1].affinity % count == w then before + [k - 1] else before
  }

  lemma {:induction false} AssignedAscends(tasks: seq<Task>, count: nat, w: nat, k: nat)
    requires count > 0 && k <= |tasks|
    ensures forall a, b :: 0 <= a < b < |Assigned(tasks, count, w, k)| ==> Assigned(tasks, count, w, k)[a] < Assigned(tasks, count, w, k)[b]
  {
    if k > 0 {
      AssignedAscends(tasks, count, w, k - 1);
      var before, list := Assigned(tasks, count, w, k - 1), Assigned(tasks, count, w, k);
      forall a, b | 0 <= a < b < |list| ensures list[a] < list[b] {
        assert list[a] == before[a];
      }
    }
  }

  lemma {:induction false} AssignedComplete(tasks: seq<Task>, count: nat, w: nat, k: nat, i: nat)
    requires count > 0 && i < k <= |tasks| && tasks[i].affinity % count == w
    ensures i in Assigned(tasks, count, w, k)
  {
    if i < k - 1 { AssignedComplete(tasks, count, w, k - 1, i); }
  }

  /** A worker's list holds all tasks of its destinations, in order. */
  lemma {:induction false} OwnAssigned(m: Memory, tasks: seq<Task>, count: nat, w: nat, k: nat, d: nat)
    requires count > 0 && k <= |tasks| && d < |m|
    requires forall i :: 0 <= i < |tasks| && tasks[i].destination == d ==> tasks[i].affinity % count == w
    ensures Own(m, tasks, Assigned(tasks, count, w, k), d) == Own(m, tasks, FirstTasks(k), d)
  {
    if k > 0 {
      hide Own;
      OwnAssigned(m, tasks, count, w, k - 1, d);
      var before := Assigned(tasks, count, w, k - 1);
      FirstStep(k - 1);
      OwnStep(m, tasks, FirstTasks(k - 1), k - 1, d);
      OwnStep(m, tasks, before, k - 1, d);
    }
  }

  lemma FirstStep(k: nat)
    ensures FirstTasks(k + 1) == FirstTasks(k) + [k]
  {
  }

  lemma OwnStep(m: Memory, tasks: seq<Task>, list: seq<nat>, i: nat, d: nat)
    requires d < |m| && i < |tasks| && forall a :: 0 <= a < |list| ==> list[a] < |tasks|
    ensures var before := Own(m, tasks, list, d);
      Own(m, tasks, list + [i], d) == if tasks[i].destination == d then tasks[i].run(m[d := before]) else before
  {
    assert (list + [i])[..|list|] == list;
  }

  /** Memory after the first k batches, each run in order. */
  ghost function After(initial: Memory, batches: seq<seq<Task>>, k: nat): (m: Memory)
    requires k <= |batches| && forall b :: 0 <= b < |batches| ==> Independent(batches[b], |initial|)
    ensures |m| == |initial|
  {
    if k == 0 then initial
    else Sequential(After(initial, batches, k - 1), batches[k - 1], |batches[k - 1]|)
  }
}
