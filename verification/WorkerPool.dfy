/** The worker pool (src/parallel/worker.cpp) as a step system with arbitrary interleaving. */
module WorkerPool {
  import opened Batches

  datatype Item = Job(index: nat) | Stop

  /** Where Worker::run stands. */
  datatype Pc = Acquiring | Taking | Processing | Releasing(canContinue: bool) | Stopped

  datatype Worker = Worker(pc: Pc, start: nat, done: nat, marked: bool, mailbox: seq<Item>, tasks: seq<Item>, position: nat)

  /** Where the sending thread stands: the three statements of send_tasks for a worker, wait, and the
      destructor. Waiting(count) is the return of wait, Joining(count) the end. */
  datatype Sender =
    | Swapping(w: nat) | Starting(w: nat) | Marking(w: nat) | Waiting(w: nat)
    | Stopping(w: nat) | Signalling(w: nat) | Joining(w: nat)

  datatype Program = Program(batches: seq<seq<Task>>, count: nat, initial: Memory)

  /** `before` and `log` are history: memory at the start of the batch, and the tasks of the batch run
      so far, by index. */
  datatype State = State(sender: Sender, batch: nat, workers: seq<Worker>, memory: Memory, before: Memory, log: seq<nat>)

  datatype Step = SenderStep | WorkerStep(w: nat)

  ghost predicate ValidProgram(p: Program) {
    && p.count >= 1
    && forall b :: 0 <= b < |p.batches| ==> Balanced(p.batches[b]) && Independent(p.batches[b], |p.initial|)
  }

  // ---------- the steps ----------

  /** What send_tasks collects for a worker. */
  function List(p: Program, b: nat, w: nat): seq<nat>
    requires p.count >= 1 && b < |p.batches|
  {
    Assigned(p.batches[b], p.count, w, |p.batches[b]|)
  }

  function Jobs(list: seq<nat>): (items: seq<Item>)
    ensures |items| == |list| && forall a :: 0 <= a < |list| ==> items[a] == Job(list[a])
  {
    seq(|list|, a requires 0 <= a < |list| => Job(list[a]))
  }

  function Begin(p: Program, b: nat): Sender {
    if b < |p.batches| then Swapping(0) else Stopping(0)
  }

  function NextSend(p: Program, w: nat): Sender {
    if w + 1 < p.count then Swapping(w + 1) else Waiting(0)
  }

  function NextStop(p: Program, w: nat): Sender {
    if w + 1 < p.count then Stopping(w + 1) else Joining(0)
  }

  predicate SenderOk(p: Program, sender: Sender, b: nat)
    requires p.count >= 1
  {
    match sender
    case Swapping(w) => w < p.count && b < |p.batches|
    case Starting(w) => w < p.count && b < |p.batches| && List(p, b, w) != []
    case Marking(w) => w < p.count && b < |p.batches| && List(p, b, w) != []
    case Waiting(w) => w <= p.count && b < |p.batches|
    case Stopping(w) => w < p.count && b == |p.batches|
    case Signalling(w) => w < p.count && b == |p.batches|
    case Joining(w) => w <= p.count && b == |p.batches|
  }

  ghost predicate Init(p: Program, s: State) {
    && s.sender == Begin(p, 0) && s.batch == 0 && |s.workers| == p.count
    && (forall w :: 0 <= w < p.count ==> s.workers[w] == Worker(Acquiring, 0, 0, false, [], [], 0))
    && s.memory == s.before == p.initial && s.log == []
  }

  predicate Enabled(p: Program, s: State, step: Step) {
    p.count >= 1 && |s.workers| == p.count && SenderOk(p, s.sender, s.batch) &&
    match step
    case WorkerStep(w) =>
      && w < p.count && !s.workers[w].pc.Stopped?
      && (s.workers[w].pc.Acquiring? ==> s.workers[w].start > 0)
    case SenderStep =>
      match s.sender
      case Waiting(w) => w < p.count && s.workers[w].marked ==> s.workers[w].done > 0
      case Joining(w) => w < p.count && s.workers[w].pc.Stopped?
      case _ => true
  }

  function SenderNext(p: Program, s: State): State
    requires Enabled(p, s, SenderStep)
  {
    var ws := s.workers;
    match s.sender
    case Swapping(w) =>
      var list := Jobs(List(p, s.batch, w));
      if list == [] then s.(sender := NextSend(p, w))
      else s.(sender := Starting(w), workers := ws[w := ws[w].(mailbox := list)])
    case Starting(w) => s.(sender := Marking(w), workers := ws[w := ws[w].(start := ws[w].start + 1)])
    case Marking(w) => s.(sender := NextSend(p, w), workers := ws[w := ws[w].(marked := true)])
    case Waiting(w) =>
      if w == p.count then s.(sender := Begin(p, s.batch + 1), batch := s.batch + 1, before := s.memory, log := [])
      else if ws[w].marked then s.(sender := Waiting(w + 1), workers := ws[w := ws[w].(done := ws[w].done - 1, marked := false)])
      else s.(sender := Waiting(w + 1))
    case Stopping(w) => s.(sender := Signalling(w), workers := ws[w := ws[w].(mailbox := ws[w].mailbox + [Stop])])
    case Signalling(w) => s.(sender := NextStop(p, w), workers := ws[w := ws[w].(start := ws[w].start + 1)])
    case Joining(w) => s.(sender := Joining(w + 1))
  }

  /** The worker's own fields after a step that runs no task. */
  function Advance(worker: Worker): Worker {
    match worker.pc
    case Acquiring => worker.(pc := Taking, start := if worker.start > 0 then worker.start - 1 else 0)
    case Taking => worker.(pc := Processing, tasks := worker.mailbox, mailbox := [], position := 0)
    case Processing =>
      if worker.position >= |worker.tasks| then worker.(pc := Releasing(true))
      else if worker.tasks[worker.position].Stop? then worker.(pc := Releasing(false))
      else worker.(position := worker.position + 1)
    case Releasing(canContinue) => worker.(pc := if canContinue then Acquiring else Stopped, done := worker.done + 1, tasks := [])
    case Stopped => worker
  }

  /** The task that the worker's next step runs, if any. */
  function Running(worker: Worker): (r: int)
    ensures r >= 0 ==> worker.pc.Processing? && worker.position < |worker.tasks| && worker.tasks[worker.position] == Job(r)
  {
    if worker.pc.Processing? && worker.position < |worker.tasks| && worker.tasks[worker.position].Job?
    then worker.tasks[worker.position].index else -1
  }

  function Execute(p: Program, b: nat, i: int, m: Memory): Memory {
    if b < |p.batches| && 0 <= i < |p.batches[b]| && p.batches[b][i].destination < |m| then Apply(p.batches[b][i], m) else m
  }

  function WorkerNext(p: Program, s: State, w: nat): State
    requires Enabled(p, s, WorkerStep(w))
  {
    var i := Running(s.workers[w]);
    s.(workers := s.workers[w := Advance(s.workers[w])],
       memory := Execute(p, s.batch, i, s.memory),
       log := if i >= 0 then s.log + [i] else s.log)
  }

  function Next(p: Program, s: State, step: Step): State
    requires Enabled(p, s, step)
  {
    match step
    case SenderStep => SenderNext(p, s)
    case WorkerStep(w) => WorkerNext(p, s, w)
  }

  // ---------- what every worker is doing ----------

  datatype Role = Idle | Loaded(list: seq<Item>) | Active(list: seq<Item>, marked: bool)

  function Sent(list: seq<Item>): Role {
    if list == [] then Idle else Active(list, true)
  }

  /** What the position of the sending thread says about worker v. */
  function RoleOf(p: Program, sender: Sender, b: nat, v: nat): Role
    requires p.count >= 1 && SenderOk(p, sender, b)
  {
    match sender
    case Swapping(w) => if v < w then Sent(Jobs(List(p, b, v))) else Idle
    case Starting(w) =>
      if v < w then Sent(Jobs(List(p, b, v))) else if v == w then Loaded(Jobs(List(p, b, v))) else Idle
    case Marking(w) =>
      if v < w then Sent(Jobs(List(p, b, v))) else if v == w then Active(Jobs(List(p, b, v)), false) else Idle
    case Waiting(w) => if v < w then Idle else Sent(Jobs(List(p, b, v)))
    case Stopping(w) => if v < w then Active([Stop], false) else Idle
    case Signalling(w) => if v < w then Active([Stop], false) else if v == w then Loaded([Stop]) else Idle
    case Joining(w) => Active([Stop], false)
  }

  /** A list of a batch is never empty when it is sent, and only the destructor's list stops. */
  predicate Stops(list: seq<Item>) {
    list == [Stop]
  }

  predicate AllJobs(list: seq<Item>) {
    forall a :: 0 <= a < |list| ==> list[a].Job?
  }

  /** From the release of the start semaphore to the release of the done semaphore, and after it. */
  predicate Busy(worker: Worker, list: seq<Item>) {
    match worker.pc
    case Acquiring =>
      || (worker.start == 1 && worker.done == 0 && worker.mailbox == list && worker.tasks == [])
      || (worker.start == 0 && worker.done == 1 && worker.mailbox == [] && worker.tasks == [] && AllJobs(list))
    case Taking => worker.start == 0 && worker.done == 0 && worker.mailbox == list && worker.tasks == []
    case Processing =>
      && worker.start == 0 && worker.done == 0 && worker.mailbox == [] && worker.tasks == list
      && worker.position <= |list| && (Stops(list) ==> worker.position == 0)
    case Releasing(canContinue) =>
      && worker.start == 0 && worker.done == 0 && worker.mailbox == [] && (canContinue <==> AllJobs(list))
    case Stopped => worker.start == 0 && worker.done == 1 && worker.mailbox == [] && Stops(list)
  }

  predicate Fits(worker: Worker, role: Role) {
    match role
    case Idle => worker.pc.Acquiring? && worker.start == 0 && worker.done == 0 && !worker.marked && worker.mailbox == [] && worker.tasks == []
    case Loaded(list) => worker.pc.Acquiring? && worker.start == 0 && worker.done == 0 && !worker.marked && worker.mailbox == list && worker.tasks == []
    case Active(list, marked) => worker.marked == marked && Busy(worker, list)
  }

  ghost predicate WorkersFit(p: Program, s: State) {
    && p.count >= 1 && |s.workers| == p.count && SenderOk(p, s.sender, s.batch)
    && forall v :: 0 <= v < p.count ==> Fits(s.workers[v], RoleOf(p, s.sender, s.batch, v))
  }

  ghost predicate BinarySemaphores(s: State) {
    forall v :: 0 <= v < |s.workers| ==> s.workers[v].start <= 1 && s.workers[v].done <= 1
  }

  lemma FitIsBinary(p: Program, s: State)
    requires WorkersFit(p, s)
    ensures BinarySemaphores(s)
  {
    forall v | 0 <= v < |s.workers| ensures s.workers[v].start <= 1 && s.workers[v].done <= 1 {
      assert Fits(s.workers[v], RoleOf(p, s.sender, s.batch, v));
    }
  }

  /** A step of a worker keeps it within its role. */
  lemma AdvanceFits(worker: Worker, role: Role)
    requires Fits(worker, role) && (worker.pc.Acquiring? ==> worker.start > 0)
    requires role.Active? ==> Stops(role.list) || (AllJobs(role.list) && role.list != [])
    ensures Fits(Advance(worker), role)
  {
  }

  /** Lists are either jobs or the single stop. */
  lemma RoleLists(p: Program, sender: Sender, b: nat, v: nat)
    requires p.count >= 1 && SenderOk(p, sender, b)
    ensures var role := RoleOf(p, sender, b, v); role.Active? ==> Stops(role.list) || (AllJobs(role.list) && role.list != [])
  {
  }

  lemma RoleAfterSend(p: Program, b: nat, w: nat, v: nat)
    requires p.count >= 1 && b < |p.batches| && w < p.count && v < p.count
    ensures SenderOk(p, NextSend(p, w), b)
    ensures RoleOf(p, NextSend(p, w), b, v) == if v <= w then Sent(Jobs(List(p, b, v))) else Idle
  {
  }

  lemma RoleAfterStop(p: Program, w: nat, v: nat)
    requires p.count >= 1 && w < p.count && v < p.count
    ensures SenderOk(p, NextStop(p, w), |p.batches|)
    ensures RoleOf(p, NextStop(p, w), |p.batches|, v) == if v <= w then Active([Stop], false) else Idle
  {
  }

  lemma RoleAtBegin(p: Program, b: nat, v: nat)
    requires p.count >= 1 && b <= |p.batches| && v < p.count
    ensures SenderOk(p, Begin(p, b), b) && RoleOf(p, Begin(p, b), b, v) == Idle
  {
  }

  /** A step of the sending thread moves it and at most one worker to new roles together. */
  lemma SenderKeepsFitAt(p: Program, s: State, v: nat)
    requires WorkersFit(p, s) && Enabled(p, s, SenderStep) && v < p.count
    ensures var s' := SenderNext(p, s); SenderOk(p, s'.sender, s'.batch) && Fits(s'.workers[v], RoleOf(p, s'.sender, s'.batch, v))
  {
    hide List, NextSend, NextStop, Begin, Busy;
    var b := s.batch;
    assert Fits(s.workers[v], RoleOf(p, s.sender, b, v));
    match s.sender
    case Swapping(w) => RoleAfterSend(p, b, w, v);
    case Starting(w) => BusyStart(s.workers[v], Jobs(List(p, b, v)));
    case Marking(w) =>
      JobsOnly(List(p, b, v));
      RoleAfterSend(p, b, w, v);
      BusyUnmarked(s.workers[v], Jobs(List(p, b, v)));
    case Waiting(w) =>
      if w == p.count {
        RoleAtBegin(p, b + 1, v);
      } else {
        JobsOnly(List(p, b, v));
        BusyEnd(s.workers[v], Jobs(List(p, b, v)));
      }
    case Stopping(w) => assert v == w ==> s.workers[w].mailbox + [Stop] == [Stop];
    case Signalling(w) =>
      RoleAfterStop(p, w, v);
      BusyStart(s.workers[v], [Stop]);
    case Joining(w) =>
  }

  lemma SenderKeepsFit(p: Program, s: State)
    requires WorkersFit(p, s) && Enabled(p, s, SenderStep)
    ensures WorkersFit(p, SenderNext(p, s))
  {
    hide List, Fits, RoleOf, SenderNext;
    SenderKeepsSize(p, s);
    forall v | 0 <= v < p.count
      ensures var s' := SenderNext(p, s); SenderOk(p, s'.sender, s'.batch) && Fits(s'.workers[v], RoleOf(p, s'.sender, s'.batch, v))
    {
      SenderKeepsFitAt(p, s, v);
    }
    SenderStays(p, s);
  }

  lemma SenderKeepsSize(p: Program, s: State)
    requires Enabled(p, s, SenderStep)
    ensures |SenderNext(p, s).workers| == |s.workers| == p.count >= 1
  {
    hide List;
  }

  lemma SenderStays(p: Program, s: State)
    requires WorkersFit(p, s) && Enabled(p, s, SenderStep)
    ensures SenderOk(p, SenderNext(p, s).sender, SenderNext(p, s).batch)
  {
    hide List;
  }

  lemma JobsOnly(list: seq<nat>)
    ensures AllJobs(Jobs(list)) && !Stops(Jobs(list)) && (list == [] <==> Jobs(list) == [])
  {
    if list != [] { assert Jobs(list)[0] == Job(list[0]); }
  }

  lemma BusyUnmarked(worker: Worker, list: seq<Item>)
    ensures Busy(worker.(marked := true), list) == Busy(worker, list)
  {
  }

  lemma BusyStart(worker: Worker, list: seq<Item>)
    ensures worker.pc.Acquiring? && worker.start == 0 && worker.done == 0 && worker.mailbox == list && worker.tasks == [] ==>
      Busy(worker.(start := 1), list)
  {
  }

  /** A released done semaphore means that the list is finished and the worker idle again. */
  lemma BusyEnd(worker: Worker, list: seq<Item>)
    ensures Busy(worker, list) && worker.done > 0 && !Stops(list) ==> Fits(worker.(done := worker.done - 1, marked := false), Idle)
  {
  }

  lemma WorkerKeepsFit(p: Program, s: State, w: nat)
    requires WorkersFit(p, s) && Enabled(p, s, WorkerStep(w))
    ensures WorkersFit(p, WorkerNext(p, s, w))
  {
    hide List, Busy, Advance, RoleOf, Fits;
    forall v | 0 <= v < p.count ensures Fits(WorkerNext(p, s, w).workers[v], RoleOf(p, s.sender, s.batch, v)) {
      assert Fits(s.workers[v], RoleOf(p, s.sender, s.batch, v));
      if v == w {
        RoleLists(p, s.sender, s.batch, v);
        AdvanceFits(s.workers[v], RoleOf(p, s.sender, s.batch, v));
      }
    }
  }

  // ---------- what the batch has done so far ----------

  /** How many tasks of its list a worker has run. */
  function Progress(sender: Sender, v: nat, worker: Worker, length: nat): nat {
    if sender.Waiting? && v < sender.w then length
    else match worker.pc
      case Acquiring => if worker.done > 0 then length else 0
      case Taking => 0
      case Processing => if worker.position <= length then worker.position else length
      case Releasing(_) => length
      case Stopped => 0
  }

  lemma ProgressBound(sender: Sender, v: nat, worker: Worker, length: nat)
    ensures Progress(sender, v, worker, length) <= length
  {
  }

  /** The part of worker v's list that has been run. */
  ghost function Executed(p: Program, s: State, v: nat): (list: seq<nat>)
    requires p.count >= 1 && s.batch < |p.batches| && v < |s.workers|
  {
    var list := List(p, s.batch, v);
    ProgressBound(s.sender, v, s.workers[v], |list|);
    list[..Progress(s.sender, v, s.workers[v], |list|)]
  }

  /** The worker that owns a destination. */
  ghost function Home(p: Program, b: nat, d: nat): (w: nat)
    requires p.count >= 1 && b < |p.batches|
    ensures w < p.count
  {
    if i :| 0 <= i < |p.batches[b]| && p.batches[b][i].destination == d then p.batches[b][i].affinity % p.count else 0
  }

  lemma HomeOf(p: Program, b: nat, i: nat)
    requires ValidProgram(p) && b < |p.batches| && i < |p.batches[b]|
    ensures Home(p, b, p.batches[b][i].destination) == p.batches[b][i].affinity % p.count
  {
    assert Balanced(p.batches[b]);
  }

  lemma ListIsBelow(p: Program, b: nat, v: nat)
    requires p.count >= 1 && b < |p.batches|
    ensures forall a :: 0 <= a < |List(p, b, v)| ==> List(p, b, v)[a] < |p.batches[b]|
  {
  }

  /** Every buffer holds what its own tasks, as far as they have run, make of it. */
  ghost predicate MemoryFits(p: Program, s: State)
    requires ValidProgram(p) && |s.workers| == p.count
  {
    && |s.memory| == |p.initial|
    && (s.batch < |p.batches| ==>
         && s.before == After(p.initial, p.batches, s.batch)
         && forall d: nat :: d < |s.memory| ==> BufferFits(p, s, d))
    && (s.batch == |p.batches| ==> s.memory == After(p.initial, p.batches, s.batch))
  }

  ghost predicate BufferFits(p: Program, s: State, d: nat)
    requires ValidProgram(p) && |s.workers| == p.count && s.batch < |p.batches| && d < |s.memory| == |s.before|
  {
    var list := Executed(p, s, Home(p, s.batch, d));
    ListIsBelow(p, s.batch, Home(p, s.batch, d));
    s.memory[d] == Own(s.before, p.batches[s.batch], list, d)
  }

  /** The log lists exactly the tasks that have run, each once, and those of one destination in order. */
  ghost predicate LogFits(p: Program, s: State)
    requires p.count >= 1 && |s.workers| == p.count
  {
    s.batch < |p.batches| ==>
      && (forall a :: 0 <= a < |s.log| ==> s.log[a] < |p.batches[s.batch]|)
      && (forall a, c :: 0 <= a < c < |s.log| ==> s.log[a] != s.log[c])
      && (forall i: nat :: i < |p.batches[s.batch]| ==> (i in s.log <==> i in Executed(p, s, p.batches[s.batch][i].affinity % p.count)))
      && InOrder(p.batches[s.batch], s.log)
  }

  ghost predicate InOrder(tasks: seq<Task>, log: seq<nat>) {
    forall a, c :: 0 <= a < c < |log| && log[a] < |tasks| && log[c] < |tasks| ==>
      (tasks[log[a]].destination == tasks[log[c]].destination ==> log[a] < log[c])
  }

  /** The invariant of every run. */
  ghost predicate Inv(p: Program, s: State) {
    ValidProgram(p) && WorkersFit(p, s) && s.batch <= |p.batches| && MemoryFits(p, s) && LogFits(p, s)
  }

  lemma InitInv(p: Program, s: State)
    requires ValidProgram(p) && Init(p, s)
    ensures Inv(p, s)
  {
    hide List, Own;
    forall v | 0 <= v < p.count ensures SenderOk(p, s.sender, 0) && Fits(s.workers[v], RoleOf(p, s.sender, 0, v)) {
      RoleAtBegin(p, 0, v);
    }
    NothingRun(p, s);
  }

  /** At the start of a batch nothing of it has run. */
  lemma NothingRun(p: Program, s: State)
    requires ValidProgram(p) && |s.workers| == p.count && s.batch <= |p.batches| && s.log == []
    requires s.sender == Begin(p, s.batch) && forall v :: 0 <= v < p.count ==> Fits(s.workers[v], Idle)
    requires s.memory == s.before == After(p.initial, p.batches, s.batch)
    ensures MemoryFits(p, s) && LogFits(p, s)
  {
    hide List;
    if s.batch < |p.batches| {
      forall v | 0 <= v < p.count ensures Executed(p, s, v) == [] {
        assert Fits(s.workers[v], Idle);
      }
    }
  }

  /** Steps that run no task. */
  lemma SameData(p: Program, s: State, s': State)
    requires ValidProgram(p) && |s.workers| == |s'.workers| == p.count && MemoryFits(p, s) && LogFits(p, s)
    requires s'.batch == s.batch && s'.memory == s.memory && s'.before == s.before && s'.log == s.log
    requires s.batch < |p.batches| ==> forall v :: 0 <= v < p.count ==> Executed(p, s', v) == Executed(p, s, v)
    ensures MemoryFits(p, s') && LogFits(p, s')
  {
    hide Executed, Own, Home, InOrder, List;
    if s.batch < |p.batches| {
      forall d: nat | d < |s.memory| ensures BufferFits(p, s', d) {
        assert BufferFits(p, s, d);
      }
    }
  }

  lemma SenderKeepsProgress(p: Program, s: State, v: nat)
    requires WorkersFit(p, s) && Enabled(p, s, SenderStep) && v < p.count && s.batch < |p.batches|
    requires s.sender != Waiting(p.count)
    ensures SenderNext(p, s).batch == s.batch && |SenderNext(p, s).workers| == p.count
    ensures Executed(p, SenderNext(p, s), v) == Executed(p, s, v)
  {
    hide List, Busy;
    assert Fits(s.workers[v], RoleOf(p, s.sender, s.batch, v));
    JobsOnly(List(p, s.batch, v));
    BusyDone(s.workers[v], Jobs(List(p, s.batch, v)));
  }

  /** When the done semaphore of a batch worker is up, its whole list has been run. */
  lemma BusyDone(worker: Worker, list: seq<Item>)
    ensures Busy(worker, list) && worker.done > 0 && !Stops(list) ==> worker.pc.Acquiring?
  {
  }

  lemma WorkerKeepsProgress(p: Program, s: State, w: nat, v: nat)
    requires WorkersFit(p, s) && Enabled(p, s, WorkerStep(w)) && v < p.count && s.batch < |p.batches|
    requires v != w || Running(s.workers[w]) < 0
    ensures Executed(p, WorkerNext(p, s, w), v) == Executed(p, s, v)
  {
    hide List, Busy;
    assert Fits(s.workers[v], RoleOf(p, s.sender, s.batch, v));
    if v == w {
      JobsOnly(List(p, s.batch, v));
      BusyAdvance(s.workers[v], Jobs(List(p, s.batch, v)));
    }
  }

  lemma BusyAdvance(worker: Worker, list: seq<Item>)
    requires AllJobs(list)
    ensures Busy(worker, list) && (worker.pc.Acquiring? ==> worker.start > 0) && Running(worker) < 0 ==>
      && (worker.pc.Acquiring? ==> worker.done == 0)
      && (worker.pc.Processing? ==> worker.tasks == list && worker.position == |list| && Advance(worker).pc.Releasing?)
      && (worker.pc.Releasing? ==> worker.pc.canContinue && worker.done == 0)
  {
  }

  /** All tasks of all lists have run. */
  lemma AllRun(p: Program, s: State, v: nat)
    requires WorkersFit(p, s) && s.sender == Waiting(p.count) && v < p.count
    ensures Executed(p, s, v) == List(p, s.batch, v)
  {
    hide List;
  }

  /** When wait returns: memory is what running the batch in order gives, and the log holds every task. */
  lemma WaitReturned(p: Program, s: State)
    requires Inv(p, s) && s.sender == Waiting(p.count)
    ensures s.batch < |p.batches|
    ensures s.memory == After(p.initial, p.batches, s.batch + 1)
    ensures forall i: nat :: i < |p.batches[s.batch]| ==> i in s.log
  {
    SizeOf(p, s);
    hide List, Executed, Home, WorkersFit;
    var tasks := p.batches[s.batch];
    var inOrder := Sequential(s.before, tasks, |tasks|);
    forall d: nat | d < |s.memory| ensures s.memory[d] == inOrder[d] {
      assert BufferFits(p, s, d);
      AllRun(p, s, Home(p, s.batch, d));
      HomeList(p, s.batch, s.before, d);
    }
    assert s.memory == inOrder;
    forall i: nat | i < |tasks| ensures i in s.log {
      AllRun(p, s, tasks[i].affinity % p.count);
      ListHas(p, s.batch, i);
    }
  }

  lemma HomeList(p: Program, b: nat, m: Memory, d: nat)
    requires ValidProgram(p) && b < |p.batches| && |m| == |p.initial| && d < |m|
    ensures forall a :: 0 <= a < |List(p, b, Home(p, b, d))| ==> List(p, b, Home(p, b, d))[a] < |p.batches[b]|
    ensures Own(m, p.batches[b], List(p, b, Home(p, b, d)), d) == Sequential(m, p.batches[b], |p.batches[b]|)[d]
  {
    var tasks, w := p.batches[b], Home(p, b, d);
    forall i | 0 <= i < |tasks| && tasks[i].destination == d ensures tasks[i].affinity % p.count == w {
      HomeOf(p, b, i);
    }
    hide Own, Sequential, Home;
    OwnAssigned(m, tasks, p.count, w, |tasks|, d);
    SequentialOwn(m, tasks, |tasks|, d);
  }

  lemma ListHas(p: Program, b: nat, i: nat)
    requires p.count >= 1 && b < |p.batches| && i < |p.batches[b]|
    ensures i in List(p, b, p.batches[b][i].affinity % p.count)
  {
    AssignedComplete(p.batches[b], p.count, p.batches[b][i].affinity % p.count, |p.batches[b]|, i);
  }

  /** A step of the sending thread keeps the invariant. */
  lemma SenderKeepsInv(p: Program, s: State)
    requires Inv(p, s) && Enabled(p, s, SenderStep)
    ensures Inv(p, SenderNext(p, s))
  {
    hide Executed, MemoryFits, LogFits, WorkersFit, ValidProgram;
    var s' := SenderNext(p, s);
    SenderKeepsFit(p, s);
    SizeOf(p, s);
    SizeOf(p, s');
    if s.sender == Waiting(p.count) {
      WaitReturned(p, s);
      forall v | 0 <= v < p.count ensures Fits(s'.workers[v], Idle) {
        IdleAfterWait(p, s, v);
      }
      NothingRun(p, s');
    } else {
      if s.batch < |p.batches| {
        forall v | 0 <= v < p.count ensures Executed(p, s', v) == Executed(p, s, v) {
          SenderKeepsProgress(p, s, v);
        }
      }
      SameData(p, s, s');
    }
  }

  lemma SizeOf(p: Program, s: State)
    requires WorkersFit(p, s)
    ensures p.count >= 1 && |s.workers| == p.count && SenderOk(p, s.sender, s.batch) && s.batch <= |p.batches|
  {
    hide List;
  }

  lemma IdleAfterWait(p: Program, s: State, v: nat)
    requires WorkersFit(p, s) && s.sender == Waiting(p.count) && v < p.count
    ensures Fits(s.workers[v], Idle)
  {
    assert Fits(s.workers[v], RoleOf(p, s.sender, s.batch, v));
  }

  // ---------- running one task ----------

  /** The next task of a worker is the next one of its list. */
  lemma RunningIs(p: Program, s: State, w: nat)
    requires ValidProgram(p) && WorkersFit(p, s) && Enabled(p, s, WorkerStep(w)) && Running(s.workers[w]) >= 0
    ensures s.batch < |p.batches|
    ensures var list, k := List(p, s.batch, w), |Executed(p, s, w)|;
      k < |list| && Running(s.workers[w]) == list[k] < |p.batches[s.batch]| && p.batches[s.batch][list[k]].affinity % p.count == w
    ensures Executed(p, WorkerNext(p, s, w), w) == Executed(p, s, w) + [Running(s.workers[w])]
  {
    var worker := s.workers[w];
    assert Fits(worker, RoleOf(p, s.sender, s.batch, w));
    SizeOf(p, s);
    if s.batch < |p.batches| {
      ListIsBelow(p, s.batch, w);
      hide List;
      var list := List(p, s.batch, w);
      assert list[..worker.position + 1] == list[..worker.position] + [list[worker.position]];
    }
  }

  /** The buffer of the task's destination. */
  lemma TaskEffect(p: Program, s: State, w: nat, d: nat)
    requires Inv(p, s) && Enabled(p, s, WorkerStep(w)) && Running(s.workers[w]) >= 0 && d < |s.memory|
    ensures s.batch < |p.batches| && |WorkerNext(p, s, w).memory| == |s.memory| == |s.before| && |WorkerNext(p, s, w).workers| == p.count
    ensures BufferFits(p, WorkerNext(p, s, w), d)
  {
    SizeOf(p, s);
    RunningIs(p, s, w);
    var i, s', tasks := Running(s.workers[w]), WorkerNext(p, s, w), p.batches[s.batch];
    assert Independent(tasks, |p.initial|);
    assert BufferFits(p, s, d);
    HomeOf(p, s.batch, i);
    ExecuteIs(p, s.batch, i, s.memory);
    hide List, Executed, Own, Home, WorkersFit, Apply, Running;
    if Home(p, s.batch, d) == w {
      ListIsBelow(p, s.batch, w);
      ExecutedBelow(p, s, w);
      OwnStep(s.before, tasks, Executed(p, s, w), i, d);
      if tasks[i].destination == d {
        forall a: nat | a < |s.memory| && (forall j :: 0 <= j < |tasks| ==> tasks[j].destination != a) ensures s.memory[a] == s.before[a] {
          assert BufferFits(p, s, a);
          ExecutedBelow(p, s, Home(p, s.batch, a));
          OwnUntouched(s.before, tasks, Executed(p, s, Home(p, s.batch, a)), a);
        }
        OwnEffect(s.before, s.memory, tasks, i);
      }
    } else {
      WorkerKeepsProgress(p, s, w, Home(p, s.batch, d));
    }
  }

  lemma ExecutedBelow(p: Program, s: State, v: nat)
    requires p.count >= 1 && s.batch < |p.batches| && v < |s.workers|
    ensures forall a :: 0 <= a < |Executed(p, s, v)| ==> Executed(p, s, v)[a] < |p.batches[s.batch]|
  {
    ListIsBelow(p, s.batch, v);
    hide List;
  }

  lemma {:induction false} OwnUntouched(m: Memory, tasks: seq<Task>, list: seq<nat>, a: nat)
    requires a < |m| && (forall k :: 0 <= k < |list| ==> list[k] < |tasks|) && forall j :: 0 <= j < |tasks| ==> tasks[j].destination != a
    ensures Own(m, tasks, list, a) == m[a]
  {
    if list != [] { OwnUntouched(m, tasks, list[..|list| - 1], a); }
  }

  lemma ExecuteIs(p: Program, b: nat, i: nat, m: Memory)
    requires ValidProgram(p) && b < |p.batches| && i < |p.batches[b]| && |m| == |p.initial|
    ensures p.batches[b][i].destination < |m|
    ensures Execute(p, b, i, m) == m[p.batches[b][i].destination := p.batches[b][i].run(m)]
  {
    assert Independent(p.batches[b], |p.initial|);
  }

  /** Appending a task that is not in the log and comes after the earlier ones of its destination. */
  lemma LogAppend(tasks: seq<Task>, log: seq<nat>, i: nat)
    requires InOrder(tasks, log) && i < |tasks|
    requires forall a :: 0 <= a < |log| && log[a] < |tasks| && tasks[log[a]].destination == tasks[i].destination ==> log[a] < i
    ensures InOrder(tasks, log + [i])
  {
  }

  lemma Logged(p: Program, s: State, a: nat)
    requires Inv(p, s) && s.batch < |p.batches| && a < |s.log|
    ensures |s.workers| == p.count >= 1 && s.log[a] < |p.batches[s.batch]|
    ensures s.log[a] in Executed(p, s, p.batches[s.batch][s.log[a]].affinity % p.count)
  {
    hide Executed, WorkersFit, MemoryFits, InOrder;
    SizeOf(p, s);
  }

  /** The log grows by a task that was not in it, and after all earlier ones of its destination. */
  lemma LogGrows(p: Program, s: State, w: nat)
    requires Inv(p, s) && Enabled(p, s, WorkerStep(w)) && Running(s.workers[w]) >= 0
    ensures |WorkerNext(p, s, w).workers| == p.count && LogFits(p, WorkerNext(p, s, w))
  {
    hide *;
    InvParts(p, s);
    SizeOf(p, s);
    RunningIs(p, s, w);
    ExecutedAscends(p, s, w);
    var i, s', tasks := Running(s.workers[w]), WorkerNext(p, s, w), p.batches[s.batch];
    NextIs(p, s, w);
    LogParts(p, s);
    forall a | 0 <= a < |s.log| ensures s.log[a] < |tasks| && s.log[a] != i
      ensures tasks[s.log[a]].destination == tasks[i].destination ==> s.log[a] < i
    {
      Logged(p, s, a);
      SameAffinity(tasks, s.log[a], i);
    }
    LogAppend(tasks, s.log, i);
    forall j: nat | j < |tasks| ensures j in s'.log <==> j in Executed(p, s', tasks[j].affinity % p.count) {
      if tasks[j].affinity % p.count != w { WorkerKeepsProgress(p, s, w, tasks[j].affinity % p.count); }
    }
    LogFitsIs(p, s');
  }

  lemma InvParts(p: Program, s: State)
    requires Inv(p, s)
    ensures ValidProgram(p) && WorkersFit(p, s) && |s.workers| == p.count >= 1 && LogFits(p, s)
    ensures s.batch < |p.batches| ==> Balanced(p.batches[s.batch])
  {
    hide Fits, RoleOf;
  }

  lemma NextIs(p: Program, s: State, w: nat)
    requires Enabled(p, s, WorkerStep(w)) && Running(s.workers[w]) >= 0
    ensures var s' := WorkerNext(p, s, w);
      |s'.workers| == p.count && s'.log == s.log + [Running(s.workers[w])] && s'.batch == s.batch
  {
  }

  lemma LogParts(p: Program, s: State)
    requires p.count >= 1 && |s.workers| == p.count && LogFits(p, s) && s.batch < |p.batches|
    ensures (forall a :: 0 <= a < |s.log| ==> s.log[a] < |p.batches[s.batch]|)
    ensures (forall a, c :: 0 <= a < c < |s.log| ==> s.log[a] != s.log[c])
    ensures (forall i: nat :: i < |p.batches[s.batch]| ==> (i in s.log <==> i in Executed(p, s, p.batches[s.batch][i].affinity % p.count)))
    ensures InOrder(p.batches[s.batch], s.log)
  {
    hide Executed, InOrder;
  }

  lemma LogFitsIs(p: Program, s: State)
    requires p.count >= 1 && |s.workers| == p.count && s.batch < |p.batches|
    requires (forall a :: 0 <= a < |s.log| ==> s.log[a] < |p.batches[s.batch]|)
    requires (forall a, c :: 0 <= a < c < |s.log| ==> s.log[a] != s.log[c])
    requires (forall i: nat :: i < |p.batches[s.batch]| ==> (i in s.log <==> i in Executed(p, s, p.batches[s.batch][i].affinity % p.count)))
    requires InOrder(p.batches[s.batch], s.log)
    ensures LogFits(p, s)
  {
    hide Executed, InOrder;
  }

  lemma SameAffinity(tasks: seq<Task>, i: nat, j: nat)
    requires Balanced(tasks) && i < |tasks| && j < |tasks|
    ensures tasks[i].destination == tasks[j].destination ==> tasks[i].affinity == tasks[j].affinity
  {
  }

  /** What a worker has run comes before what it runs next. */
  lemma ExecutedAscends(p: Program, s: State, w: nat)
    requires ValidProgram(p) && WorkersFit(p, s) && Enabled(p, s, WorkerStep(w)) && Running(s.workers[w]) >= 0 && s.batch < |p.batches|
    ensures forall j :: j in Executed(p, s, w) ==> j < Running(s.workers[w])
  {
    RunningIs(p, s, w);
    AssignedAscends(p.batches[s.batch], p.count, w, |p.batches[s.batch]|);
    var list, k := List(p, s.batch, w), |Executed(p, s, w)|;
    hide Running;
    forall j | j in Executed(p, s, w) ensures j < list[k] {
      var a :| 0 <= a < |Executed(p, s, w)| && Executed(p, s, w)[a] == j;
      assert list[a] == j;
    }
  }

  lemma WorkerKeepsInv(p: Program, s: State, w: nat)
    requires Inv(p, s) && Enabled(p, s, WorkerStep(w))
    ensures Inv(p, WorkerNext(p, s, w))
  {
    var s' := WorkerNext(p, s, w);
    SizeOf(p, s);
    WorkerKeepsFit(p, s, w);
    if Running(s.workers[w]) >= 0 {
      RunningIs(p, s, w);
      hide Executed, LogFits, WorkersFit, Running, BufferFits, Execute;
      LogGrows(p, s, w);
      MemorySize(p, s, w);
      forall d: nat | d < |s.memory| ensures BufferFits(p, s', d) {
        TaskEffect(p, s, w, d);
      }
    } else {
      hide Executed, LogFits, WorkersFit, MemoryFits;
      if s.batch < |p.batches| {
        forall v | 0 <= v < p.count ensures Executed(p, s', v) == Executed(p, s, v) {
          WorkerKeepsProgress(p, s, w, v);
        }
      }
      SameData(p, s, s');
    }
  }

  lemma MemorySize(p: Program, s: State, w: nat)
    requires Inv(p, s) && Enabled(p, s, WorkerStep(w)) && Running(s.workers[w]) >= 0
    ensures |WorkerNext(p, s, w).memory| == |s.memory|
  {
  }

  // ---------- every run ----------

  ghost predicate Run(p: Program, states: seq<State>, steps: seq<Step>) {
    && |states| == |steps| + 1 && Init(p, states[0])
    && forall k :: 0 <= k < |steps| ==> Enabled(p, states[k], steps[k]) && states[k + 1] == Next(p, states[k], steps[k])
  }

  lemma {:induction false} RunInv(p: Program, states: seq<State>, steps: seq<Step>, k: nat)
    requires ValidProgram(p) && Run(p, states, steps) && k <= |steps|
    ensures Inv(p, states[k])
  {
    hide Inv, Next, Enabled, Init;
    if k == 0 {
      InitInv(p, states[0]);
    } else {
      RunInv(p, states, steps, k - 1);
      StepInv(p, states[k - 1], steps[k - 1]);
    }
  }

  lemma StepInv(p: Program, s: State, step: Step)
    requires Inv(p, s) && Enabled(p, s, step)
    ensures Inv(p, Next(p, s, step))
  {
    hide Inv;
    match step
    case SenderStep => SenderKeepsInv(p, s);
    case WorkerStep(w) => WorkerKeepsInv(p, s, w);
  }

  /** Safety of every interleaving: no semaphore exceeds one; when wait returns every task of the batch has
      run exactly once, tasks of one destination in order, and memory is what running all batches so
      far in order leaves; after the last join it is what the whole program leaves. */
  lemma PoolIsSafe(p: Program, states: seq<State>, steps: seq<Step>, k: nat)
    requires ValidProgram(p) && Run(p, states, steps) && k <= |steps|
    ensures forall v :: 0 <= v < |states[k].workers| ==> states[k].workers[v].start <= 1 && states[k].workers[v].done <= 1
    ensures var s := states[k]; s.sender == Waiting(p.count) ==>
      && s.batch < |p.batches| && s.memory == After(p.initial, p.batches, s.batch + 1)
      && (forall i: nat :: i < |p.batches[s.batch]| <==> i in s.log)
      && (forall a, c :: 0 <= a < c < |s.log| ==> s.log[a] != s.log[c])
      && (forall a :: 0 <= a < |s.log| ==> s.log[a] < |p.batches[s.batch]|)
      && (forall a, c :: 0 <= a < c < |s.log| && p.batches[s.batch][s.log[a]].destination == p.batches[s.batch][s.log[c]].destination ==> s.log[a] < s.log[c])
    ensures states[k].sender == Joining(p.count) ==> states[k].memory == After(p.initial, p.batches, |p.batches|)
  {
    RunInv(p, states, steps, k);
    var s := states[k];
    FitIsBinary(p, s);
    SizeOf(p, s);
    hide Executed, WorkersFit, List;
    if s.sender == Waiting(p.count) { WaitReturned(p, s); }
  }

  /** No deadlock: until the last worker is joined some thread can move. */
  lemma SomeoneMoves(p: Program, s: State)
    requires WorkersFit(p, s) && s.sender != Joining(p.count)
    ensures exists step :: Enabled(p, s, step)
  {
    SizeOf(p, s);
    if !Enabled(p, s, SenderStep) {
      var w := s.sender.w;
      assert Fits(s.workers[w], RoleOf(p, s.sender, s.batch, w));
      JobsAreNotStop(p, s, w);
      assert !AllJobs([Stop]) by { assert [Stop][0].Stop?; }
      assert Enabled(p, s, WorkerStep(w));
    }
  }

  lemma JobsAreNotStop(p: Program, s: State, w: nat)
    requires p.count >= 1
    ensures s.batch < |p.batches| ==> AllJobs(Jobs(List(p, s.batch, w))) && !Stops(Jobs(List(p, s.batch, w)))
  {
    if s.batch < |p.batches| { JobsOnly(List(p, s.batch, w)); }
  }

  // ---------- every run ends ----------

  /** The steps a worker still has to make before it waits again or has stopped. */
  function WorkLeft(worker: Worker): nat {
    match worker.pc
    case Acquiring => if worker.start > 0 then |worker.mailbox| + 4 else 0
    case Taking => |worker.mailbox| + 3
    case Processing => if worker.position <= |worker.tasks| then |worker.tasks| - worker.position + 2 else 2
    case Releasing(_) => 1
    case Stopped => 0
  }

  function AllWorkLeft(workers: seq<Worker>): nat {
    if workers == [] then 0 else AllWorkLeft(workers[..|workers| - 1]) + WorkLeft(workers[|workers| - 1])
  }

  lemma {:induction false} WorkUpdate(workers: seq<Worker>, w: nat, worker: Worker)
    requires w < |workers|
    ensures AllWorkLeft(workers[w := worker]) + WorkLeft(workers[w]) == AllWorkLeft(workers) + WorkLeft(worker)
  {
    hide WorkLeft;
    var last, updated := |workers| - 1, workers[w := worker];
    if w == last {
      assert updated[..last] == workers[..last];
    } else {
      assert updated[..last] == workers[..last][w := worker];
      WorkUpdate(workers[..last], w, worker);
    }
  }

  /** The sender's steps from worker w of batch b to the return of wait, with the work they hand out. */
  function BatchCost(p: Program, b: nat, w: nat): nat
    requires p.count >= 1 && b < |p.batches| && w <= p.count
    decreases p.count - w
  {
    if w < p.count then 3 + (|List(p, b, w)| + 4) + BatchCost(p, b, w + 1) else p.count + 1
  }

  function StopCost(p: Program, w: nat): nat
    requires w <= p.count
    decreases p.count - w
  {
    if w < p.count then 2 + 5 + StopCost(p, w + 1) else p.count
  }

  /** From the start of batch b to the last join. */
  function ProgramCost(p: Program, b: nat): nat
    requires p.count >= 1 && b <= |p.batches|
    decreases |p.batches| - b
  {
    if b < |p.batches| then BatchCost(p, b, 0) + ProgramCost(p, b + 1) else StopCost(p, 0)
  }

  function SenderLeft(p: Program, sender: Sender, b: nat): nat
    requires p.count >= 1 && SenderOk(p, sender, b)
  {
    match sender
    case Swapping(w) => BatchCost(p, b, w) + ProgramCost(p, b + 1)
    case Starting(w) => 2 + (|List(p, b, w)| + 4) + BatchCost(p, b, w + 1) + ProgramCost(p, b + 1)
    case Marking(w) => 1 + BatchCost(p, b, w + 1) + ProgramCost(p, b + 1)
    case Waiting(w) => p.count + 1 - w + ProgramCost(p, b + 1)
    case Stopping(w) => StopCost(p, w)
    case Signalling(w) => 1 + 5 + StopCost(p, w + 1)
    case Joining(w) => p.count - w
  }

  ghost function Left(p: Program, s: State): nat
    requires p.count >= 1 && SenderOk(p, s.sender, s.batch)
  {
    SenderLeft(p, s.sender, s.batch) + AllWorkLeft(s.workers)
  }

  lemma AdvanceWorks(worker: Worker, role: Role)
    requires Fits(worker, role) && !worker.pc.Stopped? && (worker.pc.Acquiring? ==> worker.start > 0)
    ensures WorkLeft(Advance(worker)) < WorkLeft(worker)
  {
  }

  lemma WorkerStepDecreases(p: Program, s: State, w: nat)
    requires WorkersFit(p, s) && Enabled(p, s, WorkerStep(w))
    ensures var s' := WorkerNext(p, s, w); SenderOk(p, s'.sender, s'.batch) && Left(p, s') < Left(p, s)
  {
    hide List, Advance, WorkLeft, SenderLeft, Fits, RoleOf, AllWorkLeft;
    assert Fits(s.workers[w], RoleOf(p, s.sender, s.batch, w));
    AdvanceWorks(s.workers[w], RoleOf(p, s.sender, s.batch, w));
    WorkUpdate(s.workers, w, Advance(s.workers[w]));
  }

  lemma BatchCostStep(p: Program, b: nat, w: nat)
    requires p.count >= 1 && b < |p.batches| && w < p.count
    ensures BatchCost(p, b, w) == 7 + |List(p, b, w)| + BatchCost(p, b, w + 1)
    ensures SenderOk(p, NextSend(p, w), b) && SenderLeft(p, NextSend(p, w), b) == BatchCost(p, b, w + 1) + ProgramCost(p, b + 1)
  {
    hide List, ProgramCost;
  }

  lemma StopCostStep(p: Program, w: nat)
    requires p.count >= 1 && w < p.count
    ensures StopCost(p, w) == 7 + StopCost(p, w + 1)
    ensures SenderOk(p, NextStop(p, w), |p.batches|) && SenderLeft(p, NextStop(p, w), |p.batches|) == StopCost(p, w + 1)
  {
    hide List;
  }

  lemma BeginCost(p: Program, b: nat)
    requires p.count >= 1 && b <= |p.batches|
    ensures SenderOk(p, Begin(p, b), b) && SenderLeft(p, Begin(p, b), b) == ProgramCost(p, b)
  {
    hide List, BatchCost, StopCost;
  }

  /** What a sender step does to the worker it touches. */
  lemma SenderWork(p: Program, s: State, w: nat)
    requires WorkersFit(p, s) && Enabled(p, s, SenderStep) && w < p.count
    ensures match s.sender
      case Starting(v) => v == w ==> WorkLeft(s.workers[w].(start := s.workers[w].start + 1)) == |List(p, s.batch, w)| + 4 && WorkLeft(s.workers[w]) == 0
      case Signalling(v) => v == w ==> WorkLeft(s.workers[w].(start := s.workers[w].start + 1)) == 5 && WorkLeft(s.workers[w]) == 0
      case Swapping(v) => v == w ==> WorkLeft(s.workers[w].(mailbox := Jobs(List(p, s.batch, w)))) == WorkLeft(s.workers[w]) == 0
      case Stopping(v) => v == w ==> WorkLeft(s.workers[w].(mailbox := s.workers[w].mailbox + [Stop])) == WorkLeft(s.workers[w]) == 0
      case _ => true
  {
    hide List, Jobs;
    assert Fits(s.workers[w], RoleOf(p, s.sender, s.batch, w));
  }

  lemma SenderStepDecreases(p: Program, s: State)
    requires WorkersFit(p, s) && Enabled(p, s, SenderStep)
    ensures var s' := SenderNext(p, s); SenderOk(p, s'.sender, s'.batch) && Left(p, s') < Left(p, s)
  {
    hide List, Jobs, WorkLeft, AllWorkLeft, Fits, RoleOf, BatchCost, StopCost, ProgramCost, NextSend, NextStop, Begin;
    SenderStays(p, s);
    var b, ws := s.batch, s.workers;
    match s.sender
    case Swapping(w) =>
      SenderWork(p, s, w);
      BatchCostStep(p, b, w);
      WorkUpdate(ws, w, ws[w].(mailbox := Jobs(List(p, b, w))));
    case Starting(w) =>
      SenderWork(p, s, w);
      WorkUpdate(ws, w, ws[w].(start := ws[w].start + 1));
    case Marking(w) =>
      BatchCostStep(p, b, w);
      WorkUpdate(ws, w, ws[w].(marked := true));
      MarkedWork(ws[w]);
    case Waiting(w) =>
      if w == p.count {
        BeginCost(p, b + 1);
      } else if ws[w].marked {
        WorkUpdate(ws, w, ws[w].(done := ws[w].done - 1, marked := false));
        MarkedWork(ws[w]);
      }
    case Stopping(w) =>
      SenderWork(p, s, w);
      StopCostStep(p, w);
      WorkUpdate(ws, w, ws[w].(mailbox := ws[w].mailbox + [Stop]));
    case Signalling(w) =>
      SenderWork(p, s, w);
      StopCostStep(p, w);
      WorkUpdate(ws, w, ws[w].(start := ws[w].start + 1));
    case Joining(w) =>
  }

  lemma MarkedWork(worker: Worker)
    ensures WorkLeft(worker.(marked := true)) == WorkLeft(worker)
    ensures worker.done > 0 ==> WorkLeft(worker.(done := worker.done - 1, marked := false)) == WorkLeft(worker)
  {
  }

  lemma StepDecreases(p: Program, s: State, step: Step)
    requires WorkersFit(p, s) && Enabled(p, s, step)
    ensures var s' := Next(p, s, step); SenderOk(p, s'.sender, s'.batch) && Left(p, s') < Left(p, s)
  {
    hide WorkersFit, Enabled, SenderNext, WorkerNext, Left;
    match step
    case SenderStep => SenderStepDecreases(p, s);
    case WorkerStep(w) => WorkerStepDecreases(p, s, w);
  }

  lemma {:induction false} RunDecreases(p: Program, states: seq<State>, steps: seq<Step>, k: nat)
    requires ValidProgram(p) && Run(p, states, steps) && k <= |steps|
    ensures p.count >= 1 && SenderOk(p, states[k].sender, states[k].batch) && Left(p, states[k]) + k <= ProgramCost(p, 0)
  {
    hide Inv, Next, Enabled, Left, WorkersFit, SenderOk;
    RunFits(p, states, steps, k);
    if k == 0 {
      InitCost(p, states[0]);
    } else {
      RunDecreases(p, states, steps, k - 1);
      RunFits(p, states, steps, k - 1);
      StepDecreases(p, states[k - 1], steps[k - 1]);
    }
  }

  lemma RunFits(p: Program, states: seq<State>, steps: seq<Step>, k: nat)
    requires ValidProgram(p) && Run(p, states, steps) && k <= |steps|
    ensures WorkersFit(p, states[k]) && p.count >= 1
  {
    RunInv(p, states, steps, k);
  }

  lemma InitCost(p: Program, s: State)
    requires ValidProgram(p) && Init(p, s)
    ensures SenderOk(p, s.sender, s.batch) && Left(p, s) == ProgramCost(p, 0)
  {
    BeginCost(p, 0);
    hide ProgramCost, SenderLeft, Begin;
    NoWork(s.workers);
  }

  lemma {:induction false} NoWork(workers: seq<Worker>)
    requires forall w :: 0 <= w < |workers| ==> workers[w].pc.Acquiring? && workers[w].start == 0
    ensures AllWorkLeft(workers) == 0
  {
    if workers != [] { NoWork(workers[..|workers| - 1]); }
  }

  /** Liveness: no run is longer than the cost of the program, so every run that is continued as long as
      some thread can move ends, and it ends with every worker stopped and joined and the memory that
      the whole program leaves. In particular every wait returns. */
  lemma EveryRunEnds(p: Program, states: seq<State>, steps: seq<Step>)
    requires ValidProgram(p) && Run(p, states, steps)
    ensures p.count >= 1 && |steps| <= ProgramCost(p, 0)
    ensures (forall step :: !Enabled(p, states[|steps|], step)) ==>
      var s := states[|steps|];
      && s.sender == Joining(p.count) && s.memory == After(p.initial, p.batches, |p.batches|)
      && |s.workers| == p.count && forall v :: 0 <= v < p.count ==> s.workers[v].pc.Stopped?
  {
    hide Enabled, Inv, Next, WorkersFit, Left;
    var last := |steps|;
    RunDecreases(p, states, steps, last);
    RunFits(p, states, steps, last);
    if forall step :: !Enabled(p, states[last], step) {
      if states[last].sender != Joining(p.count) { SomeoneMoves(p, states[last]); }
      PoolIsSafe(p, states, steps, last);
      AllStopped(p, states[last]);
    }
  }

  lemma AllStopped(p: Program, s: State)
    requires WorkersFit(p, s) && s.sender == Joining(p.count) && forall step :: !Enabled(p, s, step)
    ensures |s.workers| == p.count && forall v :: 0 <= v < p.count ==> s.workers[v].pc.Stopped?
  {
    forall v | 0 <= v < p.count ensures s.workers[v].pc.Stopped? {
      assert Fits(s.workers[v], RoleOf(p, s.sender, s.batch, v));
      assert !Enabled(p, s, WorkerStep(v));
      assert !AllJobs([Stop]) by { assert [Stop][0].Stop?; }
    }
  }
}
