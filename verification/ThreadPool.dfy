/** The task queue of sync_queue.c between its producers, the workers of thread_pool.c and the thread that
    destroys the pool, as a transition system: one event is one step of one thread between two accesses to
    shared state, and a run is any sequence of events. What a critical section does to the linked list is
    the subject of SyncQueue. */
module ThreadPool {
  import opened Wrappers

  /** A task, by the order of its allocation. */
  type Task = nat

  /** Where a thread is in sync_queue_pop_front. */
  datatype Pop = Lock | CheckFlag | CheckHead | Wait | Blocked | Woken | Take | Unlock(ret: Option<Task>)

  /** thread_pool_task_entry. */
  datatype Worker = Popping(pc: Pop) | Running(task: Task) | Exited

  /** thread_pool_add_task and sync_queue_push_back. */
  datatype Producer = Idle | Locking(task: Task) | Checking(task: Task) | Linking(task: Task) | Signalling | Unlocking

  /** thread_pool_destroy. */
  datatype Destroyer = Waiting | Flagged | Joining(next: nat) | Draining(pc: Pop) | Done

  datatype Thread = AWorker(i: nat) | AProducer(j: nat) | TheDestroyer

  /** `accepted` are the tasks that were linked, in this order; `handed` those that workers were given, and
      `drained` those that were freed unrun. */
  datatype State = State(destroying: bool, lock: Option<Thread>, queue: seq<Task>, unborn: Task,
                         workers: seq<Worker>, producers: seq<Producer>, destroyer: Destroyer,
                         accepted: seq<Task>, handed: seq<Task>, drained: seq<Task>)

  /** One step of a thread; a spurious wakeup; a producer that starts on a new task. `wake` is the worker a
      signal picks. An event that cannot happen changes nothing. */
  datatype Event = WorkerStep(i: nat) | Spurious(i: nat) | Add(j: nat) | ProducerStep(j: nat, wake: nat) | DestroyerStep

  function Init(workers: nat, producers: nat): State {
    State(false, None, [], 0, seq(workers, i => Popping(Lock)), seq(producers, j => Idle), Waiting, [], [], [])
  }

  // ---------------------------------------------------------------- the steps

  /** One step in sync_queue_pop_front: the next place, the lock and the queue. */
  function PopStep(s: State, me: Thread, pc: Pop): (Pop, Option<Thread>, seq<Task>) {
    match pc
    case Lock => if s.lock == None then (CheckFlag, Some(me), s.queue) else (Lock, s.lock, s.queue)
    case CheckFlag => (if s.destroying then Take else CheckHead, s.lock, s.queue)
    case CheckHead => (if s.queue == [] then Wait else Take, s.lock, s.queue)
    case Wait => (Blocked, None, s.queue)
    case Blocked => (Blocked, s.lock, s.queue)
    case Woken => if s.lock == None then (CheckFlag, Some(me), s.queue) else (Woken, s.lock, s.queue)
    case Take => if s.queue == [] then (Unlock(None), s.lock, s.queue) else (Unlock(Some(s.queue[0])), s.lock, s.queue[1..])
    case Unlock(ret) => (pc, None, s.queue)
  }

  function DoWorker(s: State, i: nat): State
    requires i < |s.workers|
  {
    match s.workers[i]
    case Popping(Unlock(ret)) =>
      s.(lock := None, workers := s.workers[i := if ret == None then Exited else Running(ret.value)])
    case Popping(pc) =>
      var (pc', lock', queue') := PopStep(s, AWorker(i), pc);
      s.(lock := lock', queue := queue', workers := s.workers[i := Popping(pc')],
         handed := if pc == Take && s.queue != [] then s.handed + [s.queue[0]] else s.handed)
    case Running(t) => s.(workers := s.workers[i := Popping(Lock)])
    case Exited => s
  }

  function WakeOne(s: State, i: nat): State
    requires i < |s.workers|
  {
    if s.workers[i] == Popping(Blocked) then s.(workers := s.workers[i := Popping(Woken)]) else s
  }

  predicate NoneBlocked(ws: seq<Worker>) {
    forall i :: 0 <= i < |ws| ==> ws[i] != Popping(Blocked)
  }

  function DoProducer(s: State, j: nat, wake: nat): State
    requires j < |s.producers|
  {
    match s.producers[j]
    case Idle => s
    case Locking(t) => if s.lock == None then s.(lock := Some(AProducer(j)), producers := s.producers[j := Checking(t)]) else s
    case Checking(t) => s.(producers := s.producers[j := if s.destroying then Unlocking else Linking(t)])
    case Linking(t) => s.(queue := s.queue + [t], accepted := s.accepted + [t], producers := s.producers[j := Signalling])
    case Signalling =>
      var s' := s.(producers := s.producers[j := Unlocking]);
      if NoneBlocked(s.workers) then s'
      else if wake < |s.workers| && s.workers[wake] == Popping(Blocked) then WakeOne(s', wake)
      else s
    case Unlocking => s.(lock := None, producers := s.producers[j := Idle])
  }

  /** pthread_cond_broadcast. */
  function WakeAll(ws: seq<Worker>): seq<Worker> {
    seq(|ws|, i requires 0 <= i < |ws| => if ws[i] == Popping(Blocked) then Popping(Woken) else ws[i])
  }

  function DoDestroyer(s: State): State {
    match s.destroyer
    case Waiting => s.(destroying := true, destroyer := Flagged)
    case Flagged => s.(workers := WakeAll(s.workers), destroyer := Joining(0))
    case Joining(i) =>
      if i >= |s.workers| then s.(destroyer := Draining(Lock))
      else if s.workers[i] == Exited then s.(destroyer := Joining(i + 1))
      else s
    case Draining(Unlock(ret)) => s.(lock := None, destroyer := if ret == None then Done else Draining(Lock))
    case Draining(pc) =>
      var (pc', lock', queue') := PopStep(s, TheDestroyer, pc);
      s.(lock := lock', queue := queue', destroyer := Draining(pc'),
         drained := if pc == Take && s.queue != [] then s.drained + [s.queue[0]] else s.drained)
    case Done => s
  }

  function Do(s: State, e: Event): State {
    match e
    case WorkerStep(i) => if i < |s.workers| then DoWorker(s, i) else s
    case Spurious(i) => if i < |s.workers| then WakeOne(s, i) else s
    case Add(j) =>
      if j < |s.producers| && s.producers[j] == Idle then
        s.(unborn := s.unborn + 1, producers := s.producers[j := Locking(s.unborn)])
      else s
    case ProducerStep(j, wake) => if j < |s.producers| then DoProducer(s, j, wake) else s
    case DestroyerStep => DoDestroyer(s)
  }

  function Run(s: State, events: seq<Event>): State {
    if events == [] then s else Do(Run(s, events[..|events| - 1]), events[|events| - 1])
  }

  // ---------------------------------------------------------------- the invariant

  /** A thread at this place of the pop holds the lock. */
  predicate Inside(pc: Pop) {
    pc == CheckFlag || pc == CheckHead || pc == Wait || pc == Take || pc.Unlock?
  }

  predicate WorkerInside(w: Worker) {
    w.Popping? && Inside(w.pc)
  }

  predicate ProducerInside(p: Producer) {
    !p.Idle? && !p.Locking?
  }

  predicate DestroyerInside(d: Destroyer) {
    d.Draining? && Inside(d.pc)
  }

  /** At most one thread is in a critical section, and it is the one that holds the lock. */
  ghost predicate Mutex(s: State) {
    && (forall i :: 0 <= i < |s.workers| ==> (WorkerInside(s.workers[i]) <==> s.lock == Some(AWorker(i))))
    && (forall j :: 0 <= j < |s.producers| ==> (ProducerInside(s.producers[j]) <==> s.lock == Some(AProducer(j))))
    && (DestroyerInside(s.destroyer) <==> s.lock == Some(TheDestroyer))
    && (s.lock != None && s.lock.value.AWorker? ==> s.lock.value.i < |s.workers|)
    && (s.lock != None && s.lock.value.AProducer? ==> s.lock.value.j < |s.producers|)
  }

  lemma MutexWorker(s: State, i: nat)
    requires Mutex(s) && i < |s.workers|
    ensures Mutex(DoWorker(s, i))
  {
  }

  lemma MutexProducer(s: State, j: nat, wake: nat)
    requires Mutex(s) && j < |s.producers|
    ensures Mutex(DoProducer(s, j, wake))
  {
  }

  lemma MutexDestroyer(s: State)
    requires Mutex(s)
    ensures Mutex(DoDestroyer(s))
  {
  }

  lemma MutexKept(s: State, e: Event)
    requires Mutex(s)
    ensures Mutex(Do(s, e))
  {
    match e
    case WorkerStep(i) => if i < |s.workers| { MutexWorker(s, i); }
    case ProducerStep(j, wake) => if j < |s.producers| { MutexProducer(s, j, wake); }
    case DestroyerStep => MutexDestroyer(s);
    case _ =>
  }

  /** What a thread inside has found out stays true while it is inside; the destroyer pops only after the
      flag is set, and never blocks. */
  ghost predicate Checked(s: State) {
    && (forall i :: 0 <= i < |s.workers| && s.workers[i] == Popping(Take) ==> s.destroying || s.queue != [])
    && (forall i :: 0 <= i < |s.workers| && s.workers[i] == Popping(Wait) ==> s.queue == [])
    && (s.destroyer != Waiting ==> s.destroying)
    && (s.destroyer.Draining? ==> s.destroyer.pc == Lock || s.destroyer.pc == CheckFlag || s.destroyer.pc == Take || s.destroyer.pc.Unlock?)
  }

  lemma CheckedKept(s: State, e: Event)
    requires Mutex(s) && Checked(s)
    ensures Checked(Do(s, e))
  {
  }

  /** The queue is closed: the flag is set, nothing is queued, and no producer is past its check. */
  predicate Closed(s: State) {
    s.destroying && s.queue == [] && forall j :: 0 <= j < |s.producers| ==> !s.producers[j].Linking?
  }

  lemma ClosedForever(s: State, e: Event)
    requires Closed(s)
    ensures Closed(Do(s, e))
  {
  }

  predicate Gone(w: Worker) {
    w == Exited || w == Popping(Unlock(None))
  }

  /** A worker has been told to exit only once the queue was closed; the destroyer drains only once every
      worker has exited. */
  ghost predicate Shut(s: State) {
    && (forall i :: 0 <= i < |s.workers| && Gone(s.workers[i]) ==> Closed(s))
    && (s.destroyer.Joining? ==> forall i :: 0 <= i < s.destroyer.next && i < |s.workers| ==> s.workers[i] == Exited)
    && (s.destroyer.Draining? || s.destroyer.Done? ==> forall i :: 0 <= i < |s.workers| ==> s.workers[i] == Exited)
  }

  lemma ShutWorker(s: State, i: nat)
    requires Mutex(s) && Checked(s) && Shut(s) && i < |s.workers| && (Closed(s) ==> Closed(DoWorker(s, i)))
    ensures Shut(DoWorker(s, i))
  {
  }

  lemma ShutKept(s: State, e: Event)
    requires Mutex(s) && Checked(s) && Shut(s)
    ensures Shut(Do(s, e))
  {
    if Closed(s) {
      ClosedForever(s, e);
    }
    if e.WorkerStep? && e.i < |s.workers| {
      assert Closed(s) ==> Closed(DoWorker(s, e.i));
      ShutWorker(s, e.i);
    }
  }

  // ---------------------------------------------------------------- no task is lost, none is given twice

  /** The tasks given to workers, then those freed unrun, then those queued, are the tasks accepted, in
      order; and with a worker there is, nothing is freed unrun. */
  ghost predicate Conserved(s: State) {
    s.accepted == s.handed + s.drained + s.queue && (|s.workers| > 0 ==> s.drained == []) && (|s.workers| == 0 ==> s.handed == [])
  }

  lemma HeadMoves(front: seq<Task>, queue: seq<Task>)
    requires queue != []
    ensures front + queue == front + [queue[0]] + queue[1..]
  {
  }

  lemma BackGrows(front: seq<Task>, queue: seq<Task>, t: Task)
    ensures front + queue + [t] == front + (queue + [t])
  {
  }

  lemma ConservedWorker(s: State, i: nat)
    requires Conserved(s) && i < |s.workers|
    ensures Conserved(DoWorker(s, i))
  {
    var s' := DoWorker(s, i);
    if s'.queue != s.queue {
      HeadMoves(s.handed, s.queue);
      assert s.handed + [] == s.handed && s'.handed + [] == s'.handed;
    }
  }

  lemma ConservedProducer(s: State, j: nat, wake: nat)
    requires Conserved(s) && j < |s.producers|
    ensures Conserved(DoProducer(s, j, wake))
  {
    if s.producers[j].Linking? {
      BackGrows(s.handed + s.drained, s.queue, s.producers[j].task);
    }
  }

  lemma ConservedDestroyer(s: State)
    requires Checked(s) && Shut(s) && Conserved(s)
    ensures Conserved(DoDestroyer(s))
  {
    if s.destroyer == Draining(Take) && s.queue != [] {
      if |s.workers| > 0 {
        assert Gone(s.workers[0]);
        assert false;
      }
      HeadMoves(s.drained, s.queue);
      assert [] + s.drained == s.drained && [] + DoDestroyer(s).drained == DoDestroyer(s).drained;
    }
  }

  lemma ConservedKept(s: State, e: Event)
    requires Checked(s) && Shut(s) && Conserved(s)
    ensures Conserved(Do(s, e))
  {
    match e
    case WorkerStep(i) => if i < |s.workers| { ConservedWorker(s, i); }
    case ProducerStep(j, wake) => if j < |s.producers| { ConservedProducer(s, j, wake); }
    case DestroyerStep => ConservedDestroyer(s);
    case _ =>
  }

  ghost predicate Distinct(ts: seq<Task>) {
    forall a, b :: 0 <= a < b < |ts| ==> ts[a] != ts[b]
  }

  function Pending(p: Producer): Option<Task> {
    match p
    case Locking(t) => Some(t)
    case Checking(t) => Some(t)
    case Linking(t) => Some(t)
    case _ => None
  }

  /** Every task was allocated once: those accepted, and those producers still have in hand. */
  ghost predicate Fresh(s: State) {
    && Distinct(s.accepted)
    && (forall a :: 0 <= a < |s.accepted| ==> s.accepted[a] < s.unborn)
    && (forall j :: 0 <= j < |s.producers| && Pending(s.producers[j]) != None ==>
          Pending(s.producers[j]).value < s.unborn && Pending(s.producers[j]).value !in s.accepted)
    && (forall j, k :: 0 <= j < k < |s.producers| && Pending(s.producers[j]) != None ==>
          Pending(s.producers[j]) != Pending(s.producers[k]))
  }

  lemma FreshAdd(s: State, j: nat)
    requires Fresh(s)
    ensures Fresh(Do(s, Add(j)))
  {
  }

  lemma FreshProducer(s: State, j: nat, wake: nat)
    requires Fresh(s) && j < |s.producers|
    ensures Fresh(DoProducer(s, j, wake))
  {
    var s' := DoProducer(s, j, wake);
    assert Pending(s'.producers[j]) == None || Pending(s'.producers[j]) == Pending(s.producers[j]);
  }

  lemma FreshKept(s: State, e: Event)
    requires Fresh(s)
    ensures Fresh(Do(s, e))
  {
    match e
    case Add(j) => FreshAdd(s, j);
    case ProducerStep(j, wake) => if j < |s.producers| { FreshProducer(s, j, wake); }
    case _ => FreshSame(s, Do(s, e));
  }

  lemma FreshSame(s: State, s': State)
    requires Fresh(s) && s'.accepted == s.accepted && s'.unborn == s.unborn && s'.producers == s.producers
    ensures Fresh(s')
  {
  }

  /** The task a worker has in hand. */
  function Held(w: Worker): Option<Task> {
    match w
    case Popping(Unlock(ret)) => ret
    case Running(t) => Some(t)
    case _ => None
  }

  /** A worker's task was handed out, and no other worker has it. */
  ghost predicate Exclusive(s: State) {
    && (forall i :: 0 <= i < |s.workers| && Held(s.workers[i]) != None ==> Held(s.workers[i]).value in s.handed)
    && (forall i, k :: 0 <= i < k < |s.workers| && Held(s.workers[i]) != None ==> Held(s.workers[i]) != Held(s.workers[k]))
  }

  lemma HeadIsNew(s: State)
    requires Conserved(s) && Fresh(s) && s.queue != []
    ensures s.queue[0] !in s.handed
  {
    assert s.accepted[|s.handed| + |s.drained|] == s.queue[0];
    forall a | 0 <= a < |s.handed| ensures s.handed[a] != s.queue[0] {
      assert s.accepted[a] == s.handed[a];
    }
  }

  lemma ExclusiveWorker(s: State, i: nat)
    requires Exclusive(s) && i < |s.workers| && (s.queue != [] ==> s.queue[0] !in s.handed)
    ensures Exclusive(DoWorker(s, i))
  {
    var s' := DoWorker(s, i);
    assert Held(s'.workers[i]) == Held(s.workers[i]) || Held(s'.workers[i]) == None
           || (s.workers[i] == Popping(Take) && s.queue != [] && Held(s'.workers[i]) == Some(s.queue[0]) && s'.handed == s.handed + [s.queue[0]]);
  }

  lemma ExclusiveKept(s: State, e: Event)
    requires Conserved(s) && Fresh(s) && Exclusive(s)
    ensures Exclusive(Do(s, e))
  {
    match e
    case WorkerStep(i) =>
      if i < |s.workers| {
        if s.queue != [] {
          HeadIsNew(s);
        }
        ExclusiveWorker(s, i);
      }
    case Spurious(i) =>
    case Add(j) =>
    case ProducerStep(j, wake) =>
    case DestroyerStep =>
  }

  // ---------------------------------------------------------------- no task sleeps with the workers

  /** A worker that will look at the queue before it can block. */
  predicate Examines(w: Worker) {
    w.Popping? && (w.pc == Lock || w.pc == CheckFlag || w.pc == CheckHead || w.pc == Take || w.pc == Woken)
  }

  function Examiners(ws: seq<Worker>): nat {
    if ws == [] then 0 else Examiners(ws[1..]) + if Examines(ws[0]) then 1 else 0
  }

  lemma {:induction false} ExaminersUpdate(ws: seq<Worker>, i: nat, w: Worker)
    requires i < |ws|
    ensures Examiners(ws[i := w]) == Examiners(ws) - (if Examines(ws[i]) then 1 else 0) + (if Examines(w) then 1 else 0)
  {
    if i == 0 {
      assert ws[0 := w][1..] == ws[1..];
    } else {
      assert ws[i := w][1..] == ws[1..][i - 1 := w];
      ExaminersUpdate(ws[1..], i - 1, w);
    }
  }

  lemma {:induction false} SomeExaminer(ws: seq<Worker>) returns (i: nat)
    requires Examiners(ws) > 0
    ensures i < |ws| && Examines(ws[i])
  {
    if Examines(ws[0]) {
      i := 0;
    } else {
      i := SomeExaminer(ws[1..]);
      i := i + 1;
    }
  }

  /** A signal is still to come. */
  predicate SignalDue(s: State) {
    exists j :: 0 <= j < |s.producers| && s.producers[j] == Signalling
  }

  /** While a worker is blocked, there are no more tasks than workers about to look at the queue, but for
      the one that is just being announced. */
  ghost predicate Counted(s: State) {
    NoneBlocked(s.workers) || |s.queue| <= Examiners(s.workers) + if SignalDue(s) then 1 else 0
  }

  lemma CountedWorker(s: State, i: nat)
    requires Checked(s) && Counted(s) && i < |s.workers|
    ensures Counted(DoWorker(s, i))
  {
    var s' := DoWorker(s, i);
    ExaminersUpdate(s.workers, i, s'.workers[i]);
    assert s'.workers == s.workers[i := s'.workers[i]];
    assert SignalDue(s') == SignalDue(s);
  }

  lemma CountedWake(s: State, i: nat)
    requires Counted(s) && i < |s.workers|
    ensures Counted(WakeOne(s, i))
  {
    ExaminersUpdate(s.workers, i, Popping(Woken));
  }

  lemma CountedProducer(s: State, j: nat, wake: nat)
    requires Mutex(s) && Counted(s) && j < |s.producers|
    ensures Counted(DoProducer(s, j, wake))
  {
    var s' := DoProducer(s, j, wake);
    match s.producers[j]
    case Linking(t) =>
      assert s'.producers[j] == Signalling;
      assert !SignalDue(s);
    case Signalling =>
      if s' != s && !NoneBlocked(s.workers) {
        ExaminersUpdate(s.workers, wake, Popping(Woken));
      }
    case _ =>
      assert SignalDue(s) ==> SignalDue(s');
  }

  lemma CountedDestroyer(s: State)
    requires Counted(s)
    ensures Counted(DoDestroyer(s))
  {
    assert SignalDue(DoDestroyer(s)) == SignalDue(s);
    if s.destroyer == Flagged {
      assert NoneBlocked(WakeAll(s.workers));
    }
  }

  lemma CountedKept(s: State, e: Event)
    requires Mutex(s) && Checked(s) && Counted(s)
    ensures Counted(Do(s, e))
  {
    match e
    case WorkerStep(i) => if i < |s.workers| { CountedWorker(s, i); }
    case Spurious(i) => if i < |s.workers| { CountedWake(s, i); }
    case Add(j) =>
      if SignalDue(s) {
        var k :| 0 <= k < |s.producers| && s.producers[k] == Signalling;
        assert Do(s, e).producers[k] == Signalling;
      }
    case ProducerStep(j, wake) => if j < |s.producers| { CountedProducer(s, j, wake); }
    case DestroyerStep => CountedDestroyer(s);
  }

  // ---------------------------------------------------------------- every run

  ghost predicate Inv(s: State) {
    Mutex(s) && Checked(s) && Shut(s) && Conserved(s) && Fresh(s) && Exclusive(s) && Counted(s)
  }

  lemma InvKept(s: State, e: Event)
    requires Inv(s)
    ensures Inv(Do(s, e))
  {
    MutexKept(s, e);
    CheckedKept(s, e);
    ShutKept(s, e);
    ConservedKept(s, e);
    FreshKept(s, e);
    ExclusiveKept(s, e);
    CountedKept(s, e);
  }

  lemma {:induction false} InvAlways(s: State, events: seq<Event>)
    requires Inv(s)
    ensures Inv(Run(s, events))
  {
    if events != [] {
      InvAlways(s, events[..|events| - 1]);
      InvKept(Run(s, events[..|events| - 1]), events[|events| - 1]);
    }
  }

  lemma SameThreads(s: State, e: Event)
    ensures |Do(s, e).workers| == |s.workers|
  {
  }

  lemma {:induction false} SameThreadsAlways(s: State, events: seq<Event>)
    ensures |Run(s, events).workers| == |s.workers|
  {
    if events != [] {
      SameThreadsAlways(s, events[..|events| - 1]);
      SameThreads(Run(s, events[..|events| - 1]), events[|events| - 1]);
    }
  }

  lemma InvInit(workers: nat, producers: nat)
    ensures Inv(Init(workers, producers))
  {
    var s := Init(workers, producers);
    assert s.accepted == [];
    assert Mutex(s) && Checked(s) && Shut(s);
    assert Exclusive(s) && Counted(s);
  }

  lemma {:induction false} RunInParts(s: State, a: seq<Event>, b: seq<Event>)
    ensures Run(s, a + b) == Run(Run(s, a), b)
  {
    if b == [] {
      assert a + b == a;
    } else {
      assert (a + b)[..|a + b| - 1] == a + b[..|b| - 1];
      RunInParts(s, a, b[..|b| - 1]);
    }
  }

  /** In every interleaving the tasks handed to workers, followed by those queued, are the accepted ones in
      order; no task is handed out twice, and none is ever freed unrun. */
  lemma HandedThenQueued(workers: nat, producers: nat, events: seq<Event>)
    requires workers > 0
    ensures var s := Run(Init(workers, producers), events);
      s.accepted == s.handed + s.queue && Distinct(s.handed) && s.drained == [] && Exclusive(s)
  {
    InvInit(workers, producers);
    InvAlways(Init(workers, producers), events);
    SameThreadsAlways(Init(workers, producers), events);
    HandedOnce(Run(Init(workers, producers), events));
  }

  lemma HandedOnce(s: State)
    requires Conserved(s) && Fresh(s) && |s.workers| > 0
    ensures s.accepted == s.handed + s.queue && Distinct(s.handed)
  {
    assert s.handed + [] + s.queue == s.handed + s.queue;
    forall a, b | 0 <= a < b < |s.handed| ensures s.handed[a] != s.handed[b] {
      assert s.accepted[a] == s.handed[a] && s.accepted[b] == s.handed[b];
    }
  }

  lemma {:induction false} ClosedStays(s: State, events: seq<Event>)
    requires Closed(s)
    ensures Closed(Run(s, events)) && Run(s, events).accepted == s.accepted
  {
    if events != [] {
      ClosedStays(s, events[..|events| - 1]);
      ClosedForever(Run(s, events[..|events| - 1]), events[|events| - 1]);
    }
  }

  /** Once a worker has exited, whatever happens: the queue stays empty, nothing more is accepted, and every
      accepted task has been handed out. */
  lemma ExitIsFinal(workers: nat, producers: nat, events: seq<Event>, more: seq<Event>)
    requires var s := Run(Init(workers, producers), events); exists i :: 0 <= i < |s.workers| && Gone(s.workers[i])
    ensures var s, s' := Run(Init(workers, producers), events), Run(Init(workers, producers), events + more);
      s'.queue == [] && s'.accepted == s.accepted == s'.handed
  {
    InvInit(workers, producers);
    InvAlways(Init(workers, producers), events);
    InvAlways(Init(workers, producers), events + more);
    RunInParts(Init(workers, producers), events, more);
    ClosedStays(Run(Init(workers, producers), events), more);
    SameThreadsAlways(Init(workers, producers), events + more);
    SameThreadsAlways(Init(workers, producers), events);
    var s' := Run(Init(workers, producers), events + more);
    assert s'.handed + [] + [] == s'.handed;
  }

  /** When the pool is destroyed, every worker has exited, and every accepted task has been handed out. */
  lemma DestroyedClean(workers: nat, producers: nat, events: seq<Event>)
    requires workers > 0
    ensures var s := Run(Init(workers, producers), events); s.destroyer == Done ==>
      s.accepted == s.handed && forall i :: 0 <= i < |s.workers| ==> s.workers[i] == Exited
  {
    InvInit(workers, producers);
    InvAlways(Init(workers, producers), events);
    SameThreadsAlways(Init(workers, producers), events);
    var s := Run(Init(workers, producers), events);
    if s.destroyer == Done {
      assert Gone(s.workers[0]);
      assert s.handed + [] + [] == s.handed;
    }
  }

  /** While tasks are queued, and none is just being announced, some worker that has not exited is not
      blocked. */
  lemma NoSleepingTask(workers: nat, producers: nat, events: seq<Event>)
    requires workers > 0
    ensures var s := Run(Init(workers, producers), events);
      s.queue != [] && !SignalDue(s) ==> exists i :: 0 <= i < |s.workers| && s.workers[i] != Exited && s.workers[i] != Popping(Blocked)
  {
    InvInit(workers, producers);
    InvAlways(Init(workers, producers), events);
    SameThreadsAlways(Init(workers, producers), events);
    var s := Run(Init(workers, producers), events);
    if s.queue != [] && !SignalDue(s) {
      var i := 0;
      if !NoneBlocked(s.workers) {
        i := SomeExaminer(s.workers);
      }
      assert s.workers[i] != Exited && s.workers[i] != Popping(Blocked);
    }
  }

  // ---------------------------------------------------------------- what becomes of a task

  /** A producer still has the task in hand. */
  predicate InProducer(s: State, t: Task) {
    exists j :: 0 <= j < |s.producers| && Pending(s.producers[j]) == Some(t)
  }

  /** A producer finds the flag set when it looks under the lock. */
  predicate Refuses(s: State, e: Event, t: Task) {
    e.ProducerStep? && e.j < |s.producers| && s.producers[e.j] == Checking(t) && s.destroying
  }

  predicate SomeRefusal(s: State, events: seq<Event>, t: Task) {
    events != [] &&
    var front := events[..|events| - 1];
    SomeRefusal(s, front, t) || Refuses(Run(s, front), events[|events| - 1], t)
  }

  /** A task that has been allocated is in hand, or accepted, or was refused, and only one of these. */
  ghost predicate Accounted(s: State, t: Task, refused: bool) {
    && (t < s.unborn ==> InProducer(s, t) || t in s.accepted || refused)
    && (InProducer(s, t) ==> t !in s.accepted && !refused && t < s.unborn) && (t in s.accepted ==> !refused && t < s.unborn)
    && (refused ==> s.destroying && t < s.unborn)
  }

  lemma InProducerUpdate(s: State, j: nat, p: Producer, t: Task)
    requires Fresh(s) && j < |s.producers|
    ensures InProducer(s.(producers := s.producers[j := p]), t) <==>
      Pending(p) == Some(t) || (InProducer(s, t) && Pending(s.producers[j]) != Some(t))
  {
    var ps := s.producers[j := p];
    if Pending(p) == Some(t) {
      assert Pending(ps[j]) == Some(t);
    } else if InProducer(s, t) && Pending(s.producers[j]) != Some(t) {
      var k :| 0 <= k < |s.producers| && Pending(s.producers[k]) == Some(t);
      assert Pending(ps[k]) == Some(t);
    }
  }

  lemma AccountedByProducer(s: State, j: nat, wake: nat, t: Task, refused: bool)
    requires Fresh(s) && Accounted(s, t, refused) && j < |s.producers|
    ensures Accounted(DoProducer(s, j, wake), t, refused || Refuses(s, ProducerStep(j, wake), t))
  {
    var s' := DoProducer(s, j, wake);
    InProducerUpdate(s, j, s'.producers[j], t);
    assert s'.producers == s.producers[j := s'.producers[j]];
    assert InProducer(s', t) == InProducer(s.(producers := s'.producers), t);
    if Pending(s.producers[j]) == Some(t) {
      assert InProducer(s, t);
    }
  }

  lemma AccountedKept(s: State, e: Event, t: Task, refused: bool)
    requires Fresh(s) && Accounted(s, t, refused)
    ensures Accounted(Do(s, e), t, refused || Refuses(s, e, t))
  {
    var s' := Do(s, e);
    match e
    case ProducerStep(j, wake) => if j < |s.producers| { AccountedByProducer(s, j, wake, t, refused); }
    case Add(j) =>
      if j < |s.producers| && s.producers[j] == Idle {
        InProducerUpdate(s, j, Locking(s.unborn), t);
        assert InProducer(s', t) == InProducer(s.(producers := s'.producers), t);
        assert s.unborn in s.accepted ==> s.unborn < s.unborn;
      }
    case _ =>
      assert InProducer(s', t) == InProducer(s, t);
  }

  lemma {:induction false} AccountedAlways(s: State, events: seq<Event>, t: Task)
    requires Inv(s) && Accounted(s, t, false)
    ensures Accounted(Run(s, events), t, SomeRefusal(s, events, t))
  {
    if events != [] {
      var front := events[..|events| - 1];
      AccountedAlways(s, front, t);
      InvAlways(s, front);
      AccountedKept(Run(s, front), events[|events| - 1], t, SomeRefusal(s, front, t));
    }
  }

  /** In every interleaving: a task that its producer is done with has been accepted exactly if the flag was clear
      when the producer looked under the lock; and before the flag is set, every task there is has been accepted,
      or is still in its producer's hand. */
  lemma AcceptedExactly(workers: nat, producers: nat, events: seq<Event>, t: Task)
    ensures var s := Run(Init(workers, producers), events);
      && (t in s.accepted || InProducer(s, t) ==> t < s.unborn)
      && (t < s.unborn && !InProducer(s, t) ==> (t in s.accepted <==> !SomeRefusal(Init(workers, producers), events, t)))
      && (!s.destroying ==> (t < s.unborn <==> t in s.accepted || InProducer(s, t)))
  {
    InvInit(workers, producers);
    AccountedAlways(Init(workers, producers), events, t);
  }

  /** A worker has been given the task and not begun with it; or runs it. */
  predicate InHand(s: State, t: Task) {
    exists i :: 0 <= i < |s.workers| && s.workers[i] == Popping(Unlock(Some(t)))
  }

  predicate Runs(s: State, t: Task) {
    exists i :: 0 <= i < |s.workers| && s.workers[i] == Running(t)
  }

  predicate HasRun(s: State, events: seq<Event>, t: Task) {
    Runs(Run(s, events), t) || (events != [] && HasRun(s, events[..|events| - 1], t))
  }

  /** A task that was given to a worker stays in its hand until the worker runs it. */
  lemma HandStays(s: State, e: Event, t: Task)
    requires InHand(s, t)
    ensures InHand(Do(s, e), t) || Runs(Do(s, e), t)
  {
    var i :| 0 <= i < |s.workers| && s.workers[i] == Popping(Unlock(Some(t)));
    assert Do(s, e).workers[i] == s.workers[i] || Do(s, e).workers[i] == Running(t);
  }

  lemma {:induction false} HandedAlways(s: State, events: seq<Event>, t: Task)
    requires Inv(s) && t !in s.handed
    ensures t in Run(s, events).handed <==> InHand(Run(s, events), t) || HasRun(s, events, t)
  {
    InvAlways(s, events);
    var s' := Run(s, events);
    if events == [] {
      HeldIsHanded(s, t);
    } else {
      var front, e := events[..|events| - 1], events[|events| - 1];
      HandedAlways(s, front, t);
      InvAlways(s, front);
      HandedGrows(Run(s, front), e, t);
      if InHand(Run(s, front), t) {
        HandStays(Run(s, front), e, t);
      }
      HeldIsHanded(s', t);
    }
  }

  lemma HandedGrows(s: State, e: Event, t: Task)
    requires Inv(s)
    ensures t in s.handed ==> t in Do(s, e).handed
    ensures t in Do(s, e).handed && t !in s.handed ==> InHand(Do(s, e), t)
  {
    var s' := Do(s, e);
    if t in s'.handed && t !in s.handed {
      assert e.WorkerStep? && s'.workers[e.i] == Popping(Unlock(Some(t)));
    }
  }

  lemma HeldIsHanded(s: State, t: Task)
    requires Exclusive(s)
    ensures InHand(s, t) || Runs(s, t) ==> t in s.handed
  {
    if InHand(s, t) {
      var i :| 0 <= i < |s.workers| && s.workers[i] == Popping(Unlock(Some(t)));
      assert Held(s.workers[i]) == Some(t);
    } else if Runs(s, t) {
      var i :| 0 <= i < |s.workers| && s.workers[i] == Running(t);
      assert Held(s.workers[i]) == Some(t);
    }
  }

  /** In every interleaving the tasks handed out are those that workers have run, or run, or are about to run. */
  lemma HandedIsRun(workers: nat, producers: nat, events: seq<Event>, t: Task)
    ensures var s := Run(Init(workers, producers), events);
      t in s.handed <==> InHand(s, t) || HasRun(Init(workers, producers), events, t)
  {
    InvInit(workers, producers);
    HandedAlways(Init(workers, producers), events, t);
  }

  // ---------------------------------------------------------------- every thread goes on

  /** A worker waits for the lock, or for a signal, or has exited. */
  predicate WorkerWaits(s: State, i: nat)
    requires i < |s.workers|
  {
    s.workers[i] == Exited || s.workers[i] == Popping(Blocked)
    || ((s.workers[i] == Popping(Lock) || s.workers[i] == Popping(Woken)) && s.lock != None)
  }

  predicate ProducerWaits(s: State, j: nat)
    requires j < |s.producers|
  {
    s.producers[j] == Idle || (s.producers[j].Locking? && s.lock != None)
  }

  /** The destroyer is done, or waits for a worker to exit, or for the lock. */
  predicate DestroyerWaits(s: State) {
    match s.destroyer
    case Done => true
    case Joining(i) => i < |s.workers| && s.workers[i] != Exited
    case Draining(pc) => pc == Lock && s.lock != None
    case _ => false
  }

  /** In every reachable state the threads that cannot go on are exactly those that wait. */
  lemma ThreadsMove(workers: nat, producers: nat, events: seq<Event>)
    ensures var s := Run(Init(workers, producers), events);
      && (forall i :: 0 <= i < |s.workers| ==> (DoWorker(s, i) == s <==> WorkerWaits(s, i)))
      && (forall j :: 0 <= j < |s.producers| ==> ((forall wake :: DoProducer(s, j, wake) == s) <==> ProducerWaits(s, j)))
      && (DoDestroyer(s) == s <==> DestroyerWaits(s))
  {
    InvInit(workers, producers);
    InvAlways(Init(workers, producers), events);
    var s := Run(Init(workers, producers), events);
    forall i | 0 <= i < |s.workers| ensures DoWorker(s, i) == s <==> WorkerWaits(s, i) {
      WorkerMoves(s, i);
    }
    forall j | 0 <= j < |s.producers| ensures (forall wake :: DoProducer(s, j, wake) == s) <==> ProducerWaits(s, j) {
      ProducerMoves(s, j);
    }
    DestroyerMoves(s);
  }

  lemma WorkerMoves(s: State, i: nat)
    requires i < |s.workers|
    ensures DoWorker(s, i) == s <==> WorkerWaits(s, i)
  {
    assert DoWorker(s, i) != s || DoWorker(s, i).workers[i] == s.workers[i];
  }

  lemma ProducerMoves(s: State, j: nat)
    requires j < |s.producers|
    ensures (forall wake :: DoProducer(s, j, wake) == s) <==> ProducerWaits(s, j)
  {
    if !ProducerWaits(s, j) {
      var wake: nat := 0;
      if !NoneBlocked(s.workers) {
        wake :| wake < |s.workers| && s.workers[wake] == Popping(Blocked);
      }
      assert DoProducer(s, j, wake).producers[j] != s.producers[j];
    }
  }

  lemma DestroyerMoves(s: State)
    requires Checked(s)
    ensures DoDestroyer(s) == s <==> DestroyerWaits(s)
  {
  }

  // ---------------------------------------------------------------- the operations in one go

  function WorkerSteps(s: State, i: nat, k: nat): State {
    if k == 0 then s else Do(WorkerSteps(s, i, k - 1), WorkerStep(i))
  }

  function ProducerSteps(s: State, j: nat, wake: nat, k: nat): State {
    if k == 0 then s else Do(ProducerSteps(s, j, wake, k - 1), ProducerStep(j, wake))
  }

  /** One step of a worker at a place of the pop. */
  function At(s: State, i: nat, lock: Option<Thread>, w: Worker): State
    requires i < |s.workers|
  {
    s.(lock := lock, workers := s.workers[i := w])
  }

  lemma WorkerGoesOn(s: State, i: nat, lock: Option<Thread>, pc: Pop)
    requires i < |s.workers| && (lock == Some(AWorker(i)) || (pc == Lock && lock == None))
    ensures var me := Some(AWorker(i)); var s' := DoWorker(At(s, i, lock, Popping(pc)), i);
      && (pc == Lock && lock == None ==> s' == At(s, i, me, Popping(CheckFlag)))
      && (pc == CheckFlag ==> s' == At(s, i, me, Popping(if s.destroying then Take else CheckHead)))
      && (pc == CheckHead ==> s' == At(s, i, me, Popping(if s.queue == [] then Wait else Take)))
      && (pc == Wait ==> s' == At(s, i, None, Popping(Blocked)))
      && (pc == Unlock(None) ==> s' == At(s, i, None, Exited))
      && (pc == Take && s.queue == [] ==> s' == At(s, i, me, Popping(Unlock(None))))
  {
    assert At(s, i, lock, Popping(pc)).workers[i := Exited] == s.workers[i := Exited];
    assert forall pc' :: At(s, i, lock, Popping(pc)).workers[i := Popping(pc')] == s.workers[i := Popping(pc')];
  }

  lemma WorkerTakes(s: State, i: nat)
    requires i < |s.workers| && s.queue != []
    ensures DoWorker(DoWorker(At(s, i, Some(AWorker(i)), Popping(Take)), i), i) ==
      s.(lock := None, queue := s.queue[1..], handed := s.handed + [s.queue[0]], workers := s.workers[i := Running(s.queue[0])])
  {
    var t := s.queue[0];
    assert s.workers[i := Popping(Take)][i := Popping(Unlock(Some(t)))][i := Running(t)] == s.workers[i := Running(t)];
  }

  /** sync_queue_pop_front by a worker that is not disturbed: the first task, which it runs; or, when there is none,
      a wait, or the end once the flag is set. */
  lemma PopsFront(s: State, i: nat)
    requires i < |s.workers| && s.workers[i] == Popping(Lock) && s.lock == None
    ensures if s.queue != [] then
        WorkerSteps(s, i, if s.destroying then 4 else 5) ==
          s.(queue := s.queue[1..], handed := s.handed + [s.queue[0]], workers := s.workers[i := Running(s.queue[0])])
      else
        WorkerSteps(s, i, 4) == s.(workers := s.workers[i := if s.destroying then Exited else Popping(Blocked)])
  {
    var me := Some(AWorker(i));
    assert s.workers[i := Popping(Lock)] == s.workers;
    WorkerGoesOn(s, i, None, Lock);
    assert WorkerSteps(s, i, 0) == s;
    assert WorkerSteps(s, i, 1) == At(s, i, me, Popping(CheckFlag));
    WorkerGoesOn(s, i, me, CheckFlag);
    WorkerGoesOn(s, i, me, CheckHead);
    if s.queue == [] {
      PopsNothing(s, i);
    } else {
      WorkerTakes(s, i);
      if s.destroying {
        assert WorkerSteps(s, i, 2) == At(s, i, me, Popping(Take));
        assert WorkerSteps(s, i, 4) == DoWorker(DoWorker(WorkerSteps(s, i, 2), i), i);
      } else {
        assert WorkerSteps(s, i, 2) == At(s, i, me, Popping(CheckHead));
        assert WorkerSteps(s, i, 3) == At(s, i, me, Popping(Take));
        assert WorkerSteps(s, i, 5) == DoWorker(DoWorker(WorkerSteps(s, i, 3), i), i);
      }
    }
  }

  lemma PopsNothing(s: State, i: nat)
    requires i < |s.workers| && s.queue == [] && WorkerSteps(s, i, 1) == At(s, i, Some(AWorker(i)), Popping(CheckFlag)) && s.lock == None
    ensures WorkerSteps(s, i, 4) == s.(workers := s.workers[i := if s.destroying then Exited else Popping(Blocked)])
  {
    var me := Some(AWorker(i));
    WorkerGoesOn(s, i, me, CheckFlag);
    if s.destroying {
      assert WorkerSteps(s, i, 2) == At(s, i, me, Popping(Take));
      WorkerGoesOn(s, i, me, Take);
      assert WorkerSteps(s, i, 3) == At(s, i, me, Popping(Unlock(None)));
      WorkerGoesOn(s, i, me, Unlock(None));
    } else {
      assert WorkerSteps(s, i, 2) == At(s, i, me, Popping(CheckHead));
      WorkerGoesOn(s, i, me, CheckHead);
      assert WorkerSteps(s, i, 3) == At(s, i, me, Popping(Wait));
      WorkerGoesOn(s, i, me, Wait);
    }
  }

  /** A producer at a place of the push. */
  function AtPush(s: State, j: nat, lock: Option<Thread>, p: Producer): State
    requires j < |s.producers|
  {
    s.(lock := lock, producers := s.producers[j := p])
  }

  /** What is in the queue behind the push of `t`, and which worker is awake. */
  function Pushed(s: State, t: Task, wake: nat): State {
    s.(queue := s.queue + [t], accepted := s.accepted + [t],
       workers := if wake < |s.workers| && s.workers[wake] == Popping(Blocked) then s.workers[wake := Popping(Woken)] else s.workers)
  }

  lemma ProducerGoesOn(s: State, j: nat, wake: nat, t: Task)
    requires j < |s.producers| && (NoneBlocked(s.workers) || (wake < |s.workers| && s.workers[wake] == Popping(Blocked)))
    ensures var me := Some(AProducer(j)); var linked := s.(queue := s.queue + [t], accepted := s.accepted + [t]);
      && DoProducer(AtPush(s, j, None, Locking(t)), j, wake) == AtPush(s, j, me, Checking(t))
      && DoProducer(AtPush(s, j, me, Checking(t)), j, wake) == AtPush(s, j, me, if s.destroying then Unlocking else Linking(t))
      && DoProducer(AtPush(s, j, me, Linking(t)), j, wake) == AtPush(linked, j, me, Signalling)
      && DoProducer(AtPush(linked, j, me, Signalling), j, wake) == AtPush(Pushed(s, t, wake), j, me, Unlocking)
  {
    forall p: Producer, q: Producer {:trigger s.producers[j := p][j := q]}
      ensures s.producers[j := p][j := q] == s.producers[j := q]
    {
    }
  }

  lemma ProducerUnlocks(s: State, j: nat, wake: nat)
    requires j < |s.producers|
    ensures DoProducer(AtPush(s, j, Some(AProducer(j)), Unlocking), j, wake) == AtPush(s, j, None, Idle)
  {
    assert s.producers[j := Unlocking][j := Idle] == s.producers[j := Idle];
  }

  /** thread_pool_add_task by a producer that is not disturbed: the new task is last in the queue, and one blocked
      worker is woken; once the flag is set, nothing comes of it. */
  lemma PushesBack(s: State, j: nat, wake: nat)
    requires j < |s.producers| && s.producers[j] == Idle && s.lock == None
    requires NoneBlocked(s.workers) || (wake < |s.workers| && s.workers[wake] == Popping(Blocked))
    ensures var s' := s.(unborn := s.unborn + 1);
      if s.destroying then ProducerSteps(Do(s, Add(j)), j, wake, 3) == s'
      else ProducerSteps(Do(s, Add(j)), j, wake, 5) == Pushed(s', s.unborn, wake)
  {
    var s', t := s.(unborn := s.unborn + 1), s.unborn;
    var s0, me := Do(s, Add(j)), Some(AProducer(j));
    assert s0 == AtPush(s', j, None, Locking(t)) && s'.producers[j := Idle] == s'.producers;
    ProducerGoesOn(s', j, wake, t);
    assert ProducerSteps(s0, j, wake, 0) == s0;
    assert ProducerSteps(s0, j, wake, 1) == AtPush(s', j, me, Checking(t));
    if s.destroying {
      assert ProducerSteps(s0, j, wake, 2) == AtPush(s', j, me, Unlocking);
      ProducerUnlocks(s', j, wake);
    } else {
      assert ProducerSteps(s0, j, wake, 2) == AtPush(s', j, me, Linking(t));
      assert ProducerSteps(s0, j, wake, 3) == DoProducer(AtPush(s', j, me, Linking(t)), j, wake);
      assert ProducerSteps(s0, j, wake, 4) == AtPush(Pushed(s', t, wake), j, me, Unlocking);
      ProducerUnlocks(Pushed(s', t, wake), j, wake);
    }
  }

  /** The flag, and the broadcast: every blocked worker is woken, as it may be by itself, and no other worker sees a
      difference. */
  lemma Broadcasts(s: State, i: nat)
    requires s.destroyer == Waiting && i < |s.workers|
    ensures var s' := Do(Do(s, DestroyerStep), DestroyerStep);
      && s'.destroying && s'.destroyer == Joining(0) && |s'.workers| == |s.workers| && s'.queue == s.queue
      && s'.workers[i] == (if s.workers[i] == Popping(Blocked) then Popping(Woken) else s.workers[i])
      && s'.workers[i] == Do(s, Spurious(i)).workers[i]
  {
  }

  // ---------------------------------------------------------------- the flag without the lock

  /** A worker that has seen the flag clear and the queue empty, and does not wait yet. */
  predicate AboutToWait(s: State) {
    exists i :: 0 <= i < |s.workers| && (s.workers[i] == Popping(Wait) || (s.workers[i] == Popping(CheckHead) && s.queue == []))
  }

  predicate PastBroadcast(s: State) {
    s.destroyer != Waiting && s.destroyer != Flagged
  }

  /** No worker is on its way to sleep, and none sleeps once the broadcast was made. */
  ghost predicate WakesAll(s: State) {
    && s.destroying && s.destroyer != Waiting && !AboutToWait(s)
    && (forall i :: 0 <= i < |s.workers| && s.workers[i] == Popping(CheckHead) ==> s.queue != [])
    && (PastBroadcast(s) ==> NoneBlocked(s.workers))
  }

  lemma WakesAllKept(s: State, e: Event)
    requires Mutex(s) && WakesAll(s)
    ensures WakesAll(Do(s, e))
  {
  }

  lemma {:induction false} WakesAllAlways(s: State, events: seq<Event>)
    requires Inv(s) && WakesAll(s)
    ensures WakesAll(Run(s, events))
  {
    if events != [] {
      InvAlways(s, events[..|events| - 1]);
      WakesAllAlways(s, events[..|events| - 1]);
      WakesAllKept(Run(s, events[..|events| - 1]), events[|events| - 1]);
    }
  }

  /** The flag is set and broadcast without the lock. A worker can sleep through the broadcast exactly if,
      when the flag is set, it is between its check and its wait. */
  lemma WakeupLostExactly(s: State)
    requires Inv(s) && s.destroyer == Flagged
    ensures (exists events :: PastBroadcast(Run(s, events)) && !NoneBlocked(Run(s, events).workers)) <==> AboutToWait(s)
  {
    if AboutToWait(s) {
      var i :| 0 <= i < |s.workers| && (s.workers[i] == Popping(Wait) || (s.workers[i] == Popping(CheckHead) && s.queue == []));
      SleepsThrough(s, i);
    } else {
      assert WakesAll(s);
      forall events ensures !(PastBroadcast(Run(s, events)) && !NoneBlocked(Run(s, events).workers)) {
        WakesAllAlways(s, events);
      }
    }
  }

  lemma SleepsThrough(s: State, i: nat)
    requires s.destroyer == Flagged && i < |s.workers|
    requires s.workers[i] == Popping(Wait) || (s.workers[i] == Popping(CheckHead) && s.queue == [])
    ensures exists events :: PastBroadcast(Run(s, events)) && !NoneBlocked(Run(s, events).workers)
  {
    var s1 := Do(s, DestroyerStep);
    assert s1 == Run(s, [DestroyerStep]) by {
      OneMoreEvent(s, [], DestroyerStep);
    }
    assert s1.workers[i] == s.workers[i] && s1.queue == s.queue && PastBroadcast(s1);
    if s.workers[i] == Popping(Wait) {
      FallsAsleep(s, [DestroyerStep], i);
    } else {
      OneMoreEvent(s, [DestroyerStep], WorkerStep(i));
      FallsAsleep(s, [DestroyerStep] + [WorkerStep(i)], i);
    }
  }

  lemma OneMoreEvent(s: State, events: seq<Event>, e: Event)
    ensures Run(s, events + [e]) == Do(Run(s, events), e)
  {
    assert (events + [e])[..|events|] == events;
  }

  lemma FallsAsleep(s: State, events: seq<Event>, i: nat)
    requires var s' := Run(s, events); PastBroadcast(s') && i < |s'.workers| && s'.workers[i] == Popping(Wait)
    ensures exists more :: PastBroadcast(Run(s, more)) && !NoneBlocked(Run(s, more).workers)
  {
    OneMoreEvent(s, events, WorkerStep(i));
    assert Run(s, events + [WorkerStep(i)]).workers[i] == Popping(Blocked);
  }

  lemma SeesNothing(s: State)
    requires s == Init(1, 0)
    ensures var s' := Do(Do(s, WorkerStep(0)), WorkerStep(0));
      s'.workers == [Popping(CheckHead)] && s'.queue == [] && s'.destroyer == Waiting
  {
    var s1 := Do(s, WorkerStep(0));
    assert s1.workers == [Popping(CheckFlag)];
  }

  /** And so it happens: a worker finds the flag clear and the queue empty, and then the flag is set. */
  lemma CanSleepThrough()
    ensures var s := Run(Init(1, 0), [WorkerStep(0), WorkerStep(0), DestroyerStep]);
      s.destroyer == Flagged && AboutToWait(s) && Inv(s)
  {
    var s0, w := Init(1, 0), WorkerStep(0);
    assert [w, w, DestroyerStep] == [] + [w] + [w] + [DestroyerStep];
    OneMoreEvent(s0, [], w);
    OneMoreEvent(s0, [] + [w], w);
    OneMoreEvent(s0, [] + [w] + [w], DestroyerStep);
    InvInit(1, 0);
    InvAlways(s0, [w, w, DestroyerStep]);
    SeesNothing(s0);
    FlagSeen(Do(Do(s0, w), w));
  }

  lemma FlagSeen(s: State)
    requires s.workers == [Popping(CheckHead)] && s.queue == [] && s.destroyer == Waiting
    ensures Do(s, DestroyerStep).destroyer == Flagged && AboutToWait(Do(s, DestroyerStep))
  {
    assert Do(s, DestroyerStep).workers[0] == Popping(CheckHead);
  }
}
