/** The life of a connection slot between the main loop of server.c:62-119, which holds a stale copy of the
    descriptor set, and the workers, as a transition system: an event is one step of the main thread or of a
    worker between two accesses to what they share, and a run is any sequence of events. The slots come from
    object_pool.c, and the list is that of list.c; only the main thread touches either. FD_SET reads a word of
    the set and writes it back: a worker does so under the lock, the main thread does not (line 99). */
module Server {
  import opened Wrappers

  type Slot = nat
  type Fd = nat

  const WORD := 64   // the bits of one word of an fd_set

  /** The main thread: at the top of its loop; in select with its copy of the set; before accept; with a new
      descriptor; behind reading that descriptor's word of the set; behind writing it back; before the visits of
      `todo`; in a visit, behind the first look at the socket; behind FD_ISSET; behind FD_CLR. `ready` is what
      select left of the copy. */
  datatype Main =
    | Top
    | Selecting(copy: set<Fd>)
    | Accepting(ready: set<Fd>)
    | Reading(ready: set<Fd>, fd: Fd)
    | Writing(ready: set<Fd>, fd: Fd, word: set<Fd>)
    | Enlisting(ready: set<Fd>, fd: Fd)
    | Visiting(ready: set<Fd>, todo: seq<Slot>)
    | Testing(ready: set<Fd>, todo: seq<Slot>, slot: Slot)
    | Clearing(ready: set<Fd>, todo: seq<Slot>, slot: Slot)
    | Adding(ready: set<Fd>, todo: seq<Slot>, slot: Slot)

  /** A worker: without a task; serving a slot; behind close, with the slot's socket still as it was; in FD_SET
      with the word it has read, and the lock; behind it, with the notification still to write. */
  datatype Worker = Idle | Serving(slot: Slot) | Closing(slot: Slot) | Returning(slot: Slot, word: set<Fd>) | Notifying

  /** `free` is the pool, `listed` the connection list, `sock` the socket of each slot, where None is -1.
      `fds` are the descriptors of clients in the server's set, `open` those the kernel has open, and
      `leaked` those that were accepted when the pool was empty. `tasks` is the queue of the thread pool, and
      `lock` the worker that holds fd_lock. */
  datatype State = State(free: seq<Slot>, listed: seq<Slot>, sock: seq<Option<Fd>>, fds: set<Fd>, open: set<Fd>,
                         leaked: set<Fd>, tasks: seq<Slot>, lock: Option<nat>, main: Main, workers: seq<Worker>)

  /** What may happen: a step of the main thread that needs nothing from outside; select returns; accept
      fails, or returns a descriptor; a worker takes a task, closes its connection, sets the slot's socket to -1,
      reads the word it gives its descriptor back to, writes it, or has written its notification. An event that cannot happen changes
      nothing; so does a step that waits for the lock. */
  datatype Event =
    | MainStep
    | Select(ready: set<Fd>, listen: bool)
    | AcceptFails
    | Accept(fd: Fd)
    | Pop(w: nat)
    | Close(w: nat)
    | Forget(w: nat)
    | ReadBack(w: nat)
    | WriteBack(w: nat)
    | Notified(w: nat)

  function Init(slots: nat, workers: nat): State {
    State(seq(slots, i requires 0 <= i => i), [], seq(slots, i => None), {}, {}, {}, [], None, Top, seq(workers, i => Idle))
  }

  // ---------------------------------------------------------------- the steps

  predicate SameWord(f: Fd, g: Fd) {
    f / WORD == g / WORD
  }

  /** The words of a set are its stretches of 64 descriptors. */
  lemma SameWordExactly(f: Fd, g: Fd)
    ensures SameWord(f, g) <==> exists k: nat :: 64 * k <= f < 64 * k + 64 && 64 * k <= g < 64 * k + 64
  {
    var k := f / 64;
    assert 64 * k <= f < 64 * k + 64;
    if SameWord(f, g) {
      assert 64 * k <= g < 64 * k + 64;
    }
  }

  /** The descriptors of the set in the word of `fd`. */
  function Word(fds: set<Fd>, fd: Fd): set<Fd> {
    set f | f in fds && SameWord(f, fd)
  }

  /** The set when that word is written, with `fd` added to what was read. */
  function Written(fds: set<Fd>, word: set<Fd>, fd: Fd): set<Fd> {
    (fds - Word(fds, fd)) + word + {fd}
  }

  /** Lines 100-116: object_pool_acquire, and the new connection. */
  function Enlist(s: State, ready: set<Fd>, fd: Fd): State {
    if s.free == [] then s.(leaked := s.leaked + {fd}, main := Visiting(ready, s.listed))
    else if s.free[0] < |s.sock| then
      var listed := s.listed + [s.free[0]];
      s.(free := s.free[1..], listed := listed, sock := s.sock[s.free[0] := Some(fd)], main := Visiting(ready, listed))
    else s
  }

  function Without(listed: seq<Slot>, slot: Slot): seq<Slot> {
    if listed == [] then [] else if listed[0] == slot then listed[1..] else [listed[0]] + Without(listed[1..], slot)
  }

  /** Lines 64-66, 99-116 and 220-240. The socket is looked at twice; a descriptor of -1 is in no set. */
  function DoMain(s: State): State {
    match s.main
    case Top => if s.lock == None then s.(main := Selecting(s.fds)) else s
    case Selecting(copy) => s
    case Accepting(ready) => s
    case Reading(ready, fd) => s.(main := Writing(ready, fd, Word(s.fds, fd)))
    case Writing(ready, fd, word) => s.(fds := Written(s.fds, word, fd), main := Enlisting(ready, fd))
    case Enlisting(ready, fd) => Enlist(s, ready, fd)
    case Visiting(ready, todo) =>
      if todo == [] then s.(main := Top)
      else if todo[0] >= |s.sock| then s
      else if s.sock[todo[0]] == None then
        s.(listed := Without(s.listed, todo[0]), free := [todo[0]] + s.free, main := Visiting(ready, todo[1..]))
      else s.(main := Testing(ready, todo[1..], todo[0]))
    case Testing(ready, todo, slot) =>
      if slot < |s.sock| && s.sock[slot] != None && s.sock[slot].value in ready then s.(main := Clearing(ready, todo, slot))
      else s.(main := Visiting(ready, todo))
    case Clearing(ready, todo, slot) =>
      if slot < |s.sock| && s.sock[slot] != None && s.lock == None then
        s.(fds := s.fds - {s.sock[slot].value}, main := Adding(ready, todo, slot))
      else s
    case Adding(ready, todo, slot) => s.(tasks := s.tasks + [slot], main := Visiting(ready, todo))
  }

  /** Lines 68-86, but for the error that ends the server. A byte in the pipe makes no difference: alone it
      leads back to the top, like a select that returns nothing. */
  function DoSelect(s: State, ready: set<Fd>, listen: bool): State {
    if !s.main.Selecting? || !(ready <= s.main.copy) then s
    else if ready == {} && !listen then s.(main := Top)
    else if listen then s.(main := Accepting(ready))
    else s.(main := Visiting(ready, s.listed))
  }

  function DoAccept(s: State, fd: Fd): State {
    if s.main.Accepting? && fd !in s.open then s.(open := s.open + {fd}, main := Reading(s.main.ready, fd)) else s
  }

  function DoPop(s: State, w: nat): State {
    if w < |s.workers| && s.workers[w] == Idle && s.tasks != [] then
      s.(tasks := s.tasks[1..], workers := s.workers[w := Serving(s.tasks[0])])
    else s
  }

  /** The worker has a slot in hand, with an open socket. */
  predicate Holds(s: State, w: nat) {
    w < |s.workers| && SlotOf(s.workers[w]) != None && SlotOf(s.workers[w]).value < |s.sock|
    && s.sock[SlotOf(s.workers[w]).value] != None
  }

  function SlotOf(w: Worker): Option<Slot> {
    match w
    case Serving(slot) => Some(slot)
    case Closing(slot) => Some(slot)
    case Returning(slot, word) => Some(slot)
    case _ => None
  }

  /** The descriptor of the slot a worker has in hand. */
  function FdOf(s: State, w: nat): Fd
    requires Holds(s, w)
  {
    s.sock[SlotOf(s.workers[w]).value].value
  }

  /** Line 352: from here on accept may return the descriptor again. */
  function DoClose(s: State, w: nat): State {
    if Holds(s, w) && s.workers[w].Serving? then
      s.(open := s.open - {FdOf(s, w)}, workers := s.workers[w := Closing(s.workers[w].slot)])
    else s
  }

  /** Line 353. */
  function DoForget(s: State, w: nat): State {
    if Holds(s, w) && s.workers[w].Closing? then
      s.(sock := s.sock[s.workers[w].slot := None], workers := s.workers[w := Idle])
    else s
  }

  /** Lines 356-358: the lock, and the word. */
  function DoReadBack(s: State, w: nat): State {
    if Holds(s, w) && s.workers[w].Serving? && s.lock == None then
      s.(lock := Some(w), workers := s.workers[w := Returning(s.workers[w].slot, Word(s.fds, FdOf(s, w)))])
    else s
  }

  /** Lines 358-359: the word back, and the lock. */
  function DoWriteBack(s: State, w: nat): State {
    if WritesBack(s, w) then
      s.(fds := Written(s.fds, s.workers[w].word, FdOf(s, w)), lock := None, workers := s.workers[w := Notifying])
    else s
  }

  predicate WritesBack(s: State, w: nat) {
    Holds(s, w) && s.workers[w].Returning?
  }

  function Do(s: State, e: Event): State {
    match e
    case MainStep => DoMain(s)
    case Select(ready, listen) => DoSelect(s, ready, listen)
    case AcceptFails => if s.main.Accepting? then s.(main := Top) else s
    case Accept(fd) => DoAccept(s, fd)
    case Pop(w) => DoPop(s, w)
    case Close(w) => DoClose(s, w)
    case Forget(w) => DoForget(s, w)
    case ReadBack(w) => DoReadBack(s, w)
    case WriteBack(w) => DoWriteBack(s, w)
    case Notified(w) => if w < |s.workers| && s.workers[w] == Notifying then s.(workers := s.workers[w := Idle]) else s
  }

  function Run(s: State, events: seq<Event>): State {
    if events == [] then s else Do(Run(s, events[..|events| - 1]), events[|events| - 1])
  }

  // ---------------------------------------------------------------- the invariant

  ghost predicate Distinct(s: seq<Slot>) {
    forall i, j :: 0 <= i < j < |s| ==> s[i] != s[j]
  }

  /** Every slot is in the pool or in the list, in one place only. */
  ghost predicate Partition(s: State) {
    && Distinct(s.free) && Distinct(s.listed)
    && (forall x: Slot :: x in s.free ==> x < |s.sock| && x !in s.listed && s.sock[x] == None)
    && (forall x: Slot :: x in s.listed ==> x < |s.sock|)
    && (forall x: Slot :: x < |s.sock| ==> x in s.free || x in s.listed)
  }

  predicate HasSlot(sock: seq<Option<Fd>>, f: Fd) {
    exists x :: 0 <= x < |sock| && sock[x] == Some(f)
  }

  /** The main thread has accepted `f`, but not yet put it into the set; or not yet given it a slot. */
  predicate Accepted(s: State, f: Fd) {
    (s.main.Reading? || s.main.Writing?) && s.main.fd == f
  }

  predicate Enlisted(s: State, f: Fd) {
    s.main.Enlisting? && s.main.fd == f
  }

  /** A worker has closed the socket of the slot, and the slot does not know yet. */
  predicate InClose(workers: seq<Worker>, x: Slot) {
    exists w :: 0 <= w < |workers| && workers[w] == Closing(x)
  }

  predicate Arrived(s: State, f: Fd) {
    Accepted(s, f) || Enlisted(s, f)
  }

  /** A descriptor belongs to one slot; those in the server's set are open, and each open one is that of a
      slot, or leaked, or on its way to a slot. One on its way may have come back from accept before the slot it
      was closed for knows. */
  ghost predicate Descriptors(s: State) {
    && s.fds <= s.open && s.leaked <= s.fds
    && (forall x, y :: 0 <= x < y < |s.sock| && s.sock[x] != None ==> s.sock[x] != s.sock[y])
    && (forall x :: 0 <= x < |s.sock| && s.sock[x] != None ==> s.sock[x].value !in s.leaked)
    && (forall x :: 0 <= x < |s.sock| && s.sock[x] != None ==>
          if InClose(s.workers, x) then s.sock[x].value in s.open ==> Arrived(s, s.sock[x].value)
          else s.sock[x].value in s.open && !Arrived(s, s.sock[x].value))
    && (forall f :: Arrived(s, f) ==> f in s.open && f !in s.leaked && f !in s.main.ready && (f in s.fds <==> Enlisted(s, f)))
    && (forall f :: f in s.open ==> f in s.leaked || HasSlot(s.sock, f) || Arrived(s, f))
  }

  predicate Served(workers: seq<Worker>, x: Slot) {
    exists w :: 0 <= w < |workers| && SlotOf(workers[w]) == Some(x)
  }

  predicate BeingAdded(s: State, x: Slot) {
    s.main.Adding? && s.main.slot == x
  }

  /** A task for the slot is about to be queued, queued, or running. */
  predicate Busy(s: State, x: Slot) {
    x in s.tasks || Served(s.workers, x) || BeingAdded(s, x)
  }

  /** There is one such task for a slot at most. */
  ghost predicate Single(s: State) {
    && Distinct(s.tasks)
    && (forall v, w :: 0 <= v < w < |s.workers| && SlotOf(s.workers[v]) != None ==> SlotOf(s.workers[v]) != SlotOf(s.workers[w]))
    && (forall x :: x in s.tasks ==> !Served(s.workers, x) && !BeingAdded(s, x))
    && (s.main.Adding? ==> !Served(s.workers, s.main.slot))
  }

  /** The socket of the slot is out of the server's set, but for a descriptor that is being closed, has come back,
      and has not got its new slot. */
  predicate OutOfSet(s: State, x: Slot)
    requires x < |s.sock| && s.sock[x] != None
  {
    s.sock[x].value !in s.fds || (InClose(s.workers, x) && Enlisted(s, s.sock[x].value))
  }

  /** A slot has a task exactly while its socket is open, or being closed, and not in the server's set. */
  ghost predicate Owned(s: State) {
    && (forall x: Slot :: Busy(s, x) ==> x < |s.sock|)
    && (forall x: Slot :: x < |s.sock| ==> (Busy(s, x) <==> s.sock[x] != None && OutOfSet(s, x)))
  }

  /** A slot whose socket the stale set holds is in the server's set still. */
  predicate NotStale(s: State, ready: set<Fd>, x: Slot) {
    x < |s.sock| && (s.sock[x] != None && s.sock[x].value in ready ==> s.sock[x].value in s.fds)
  }

  ghost predicate ToVisit(s: State, ready: set<Fd>, todo: seq<Slot>) {
    Distinct(todo) && forall x :: x in todo ==> x in s.listed && NotStale(s, ready, x)
  }

  /** What the main thread relies on between its steps. */
  ghost predicate Copied(s: State) {
    match s.main
    case Top => true
    case Selecting(copy) => copy <= s.fds
    case Accepting(ready) => ready <= s.fds
    case Reading(ready, fd) => ready <= s.fds
    case Writing(ready, fd, word) => ready <= s.fds
    case Enlisting(ready, fd) => ready <= s.fds
    case Visiting(ready, todo) => ToVisit(s, ready, todo)
    case Testing(ready, todo, slot) => ToVisit(s, ready, todo) && slot in s.listed && slot !in todo && NotStale(s, ready, slot)
    case Clearing(ready, todo, slot) =>
      && ToVisit(s, ready, todo) && slot in s.listed && slot !in todo
      && slot < |s.sock| && s.sock[slot] != None && s.sock[slot].value in s.fds
    case Adding(ready, todo, slot) => ToVisit(s, ready, todo) && slot !in todo
  }

  /** The lock is held by the worker that is between reading and writing a word. */
  ghost predicate Locked(s: State) {
    && (forall w: nat :: w < |s.workers| ==> (s.workers[w].Returning? <==> s.lock == Some(w)))
    && (s.lock != None ==> s.lock.value < |s.workers|)
  }

  ghost predicate Inv(s: State) {
    Partition(s) && Descriptors(s) && Single(s) && Owned(s) && Copied(s) && Locked(s)
  }

  /** The descriptor is closed, and still that of a slot. */
  predicate HalfClosed(s: State, fd: Fd) {
    exists x :: 0 <= x < |s.sock| && s.sock[x] == Some(fd) && InClose(s.workers, x)
  }

  /** The word that is about to be written is what the set holds now: nobody has written it since it was read.
      And the descriptor that is about to get a slot is not that of another. */
  predicate Current(s: State, e: Event) {
    match e
    case MainStep =>
      && (s.main.Writing? ==> s.main.word == Word(s.fds, s.main.fd))
      && (s.main.Enlisting? ==> !HalfClosed(s, s.main.fd))
    case WriteBack(w) => WritesBack(s, w) ==> s.workers[w].word == Word(s.fds, FdOf(s, w))
    case _ => true
  }

  lemma WrittenCurrent(fds: set<Fd>, fd: Fd)
    ensures Written(fds, Word(fds, fd), fd) == fds + {fd}
  {
  }

  lemma ServedUpdate(ws: seq<Worker>, w: nat, n: Worker, x: Slot)
    requires w < |ws| && forall v :: 0 <= v < |ws| && v != w && SlotOf(ws[w]) != None ==> SlotOf(ws[v]) != SlotOf(ws[w])
    ensures Served(ws[w := n], x) <==> SlotOf(n) == Some(x) || (Served(ws, x) && SlotOf(ws[w]) != Some(x))
  {
    var ws' := ws[w := n];
    if SlotOf(n) == Some(x) {
      assert SlotOf(ws'[w]) == Some(x);
    } else if Served(ws, x) && SlotOf(ws[w]) != Some(x) {
      var v :| 0 <= v < |ws| && SlotOf(ws[v]) == Some(x);
      assert SlotOf(ws'[v]) == Some(x);
    }
  }

  lemma InCloseUpdate(ws: seq<Worker>, w: nat, n: Worker, x: Slot)
    requires w < |ws| && forall v :: 0 <= v < |ws| && v != w && SlotOf(ws[w]) != None ==> SlotOf(ws[v]) != SlotOf(ws[w])
    ensures InClose(ws[w := n], x) <==> n == Closing(x) || (InClose(ws, x) && ws[w] != Closing(x))
  {
    var ws' := ws[w := n];
    if n == Closing(x) {
      assert ws'[w] == Closing(x);
    } else if InClose(ws, x) && ws[w] != Closing(x) {
      var v :| 0 <= v < |ws| && ws[v] == Closing(x);
      assert ws'[v] == Closing(x);
    }
    if InClose(ws', x) && n != Closing(x) {
      var v :| 0 <= v < |ws| && ws'[v] == Closing(x);
      assert ws[v] == Closing(x) && SlotOf(ws[v]) == Some(x);
    }
  }

  lemma HasSlotUpdate(sock: seq<Option<Fd>>, x: Slot, o: Option<Fd>, f: Fd)
    requires x < |sock| && forall y :: 0 <= y < |sock| && y != x && sock[x] != None ==> sock[y] != sock[x]
    ensures HasSlot(sock[x := o], f) <==> o == Some(f) || (HasSlot(sock, f) && sock[x] != Some(f))
  {
    var sock' := sock[x := o];
    if o == Some(f) {
      assert sock'[x] == Some(f);
    } else if HasSlot(sock, f) && sock[x] != Some(f) {
      var y :| 0 <= y < |sock| && sock[y] == Some(f);
      assert sock'[y] == Some(f);
    }
  }

  lemma HeadOff(ts: seq<Slot>, x: Slot)
    requires ts != [] && Distinct(ts)
    ensures x in ts[1..] <==> x in ts && x != ts[0]
  {
  }

  lemma {:induction false} WithoutOne(listed: seq<Slot>, slot: Slot)
    requires Distinct(listed) && slot in listed
    ensures Distinct(Without(listed, slot))
    ensures forall x :: x in Without(listed, slot) <==> x in listed && x != slot
  {
    if listed[0] != slot {
      var rest := Without(listed[1..], slot);
      WithoutOne(listed[1..], slot);
      assert listed[0] !in rest by {
        HeadOff(listed, listed[0]);
      }
      assert forall x :: x in listed <==> x == listed[0] || x in listed[1..];
    } else {
      forall x ensures x in listed[1..] <==> x in listed && x != slot {
        HeadOff(listed, x);
      }
    }
  }

  // ---------------------------------------------------------------- every step keeps it

  lemma InvInit(slots: nat, workers: nat)
    ensures Inv(Init(slots, workers))
  {
    var s := Init(slots, workers);
    forall x: Slot | x < |s.sock| ensures x in s.free {
      assert s.free[x] == x;
    }
  }

  lemma AcceptKept(s: State, fd: Fd)
    requires Inv(s)
    ensures Inv(DoAccept(s, fd))
  {
    var s' := DoAccept(s, fd);
    if s' != s {
      assert fd !in s.fds;
      forall x: Slot ensures Busy(s', x) == Busy(s, x) {
      }
      assert Descriptors(s');
    }
  }

  lemma PopKept(s: State, w: nat)
    requires Inv(s)
    ensures Inv(DoPop(s, w))
  {
    var s' := DoPop(s, w);
    if s' != s {
      var t := s.tasks[0];
      assert t in s.tasks;
      forall x: Slot ensures Served(s'.workers, x) <==> x == t || Served(s.workers, x) {
        ServedUpdate(s.workers, w, Serving(t), x);
      }
      forall x: Slot ensures InClose(s'.workers, x) <==> InClose(s.workers, x) {
        InCloseUpdate(s.workers, w, Serving(t), x);
      }
      forall x: Slot ensures x in s'.tasks <==> x in s.tasks && x != t {
        HeadOff(s.tasks, x);
      }
      forall x: Slot ensures Busy(s', x) == Busy(s, x) {
      }
      assert Partition(s');
      assert Descriptors(s');
      assert Single(s');
      assert Owned(s');
      assert Copied(s');
      assert Locked(s');
    }
  }

  /** A worker closes its connection. */
  ghost predicate Closes(s: State, w: nat) {
    Inv(s) && Holds(s, w) && s.workers[w].Serving?
  }

  lemma CloseChanges(s: State, w: nat)
    requires Closes(s, w)
    ensures var s', slot, fd := DoClose(s, w), s.workers[w].slot, FdOf(s, w);
      && Busy(s, slot) && fd !in s.fds && HasSlot(s.sock, fd)
      && (forall x: Slot :: Served(s'.workers, x) <==> Served(s.workers, x))
      && (forall x: Slot :: InClose(s'.workers, x) <==> x == slot || InClose(s.workers, x))
      && (forall x: Slot :: Busy(s', x) <==> Busy(s, x))
  {
    var s', slot, fd := DoClose(s, w), s.workers[w].slot, FdOf(s, w);
    assert Served(s.workers, slot) && Busy(s, slot);
    forall x: Slot ensures Served(s'.workers, x) <==> Served(s.workers, x) {
      ServedUpdate(s.workers, w, Closing(slot), x);
    }
    forall x: Slot ensures InClose(s'.workers, x) <==> x == slot || InClose(s.workers, x) {
      InCloseUpdate(s.workers, w, Closing(slot), x);
    }
  }

  lemma CloseKeepsSlots(s: State, w: nat)
    requires Closes(s, w)
    ensures var s' := DoClose(s, w); Partition(s') && Descriptors(s') && Locked(s')
  {
    CloseChanges(s, w);
  }

  lemma CloseKeepsTasks(s: State, w: nat)
    requires Closes(s, w)
    ensures var s' := DoClose(s, w); Single(s') && Owned(s') && Copied(s')
  {
    CloseChanges(s, w);
  }

  lemma CloseKept(s: State, w: nat)
    requires Inv(s)
    ensures Inv(DoClose(s, w))
  {
    if Closes(s, w) {
      CloseKeepsSlots(s, w);
      CloseKeepsTasks(s, w);
    }
  }

  /** A worker tells the slot. */
  ghost predicate Forgets(s: State, w: nat) {
    Inv(s) && Holds(s, w) && s.workers[w].Closing?
  }

  lemma ForgetChanges(s: State, w: nat)
    requires Forgets(s, w)
    ensures var s', slot, fd := DoForget(s, w), s.workers[w].slot, FdOf(s, w);
      && Busy(s, slot)
      && (forall x: Slot :: Served(s'.workers, x) <==> x != slot && Served(s.workers, x))
      && (forall x: Slot :: InClose(s'.workers, x) <==> x != slot && InClose(s.workers, x))
      && (forall f: Fd :: HasSlot(s'.sock, f) <==> f != fd && HasSlot(s.sock, f))
      && (forall x: Slot :: Busy(s', x) <==> x != slot && Busy(s, x))
  {
    var s', slot, fd := DoForget(s, w), s.workers[w].slot, FdOf(s, w);
    assert s.workers[w] == Closing(slot);
    assert InClose(s.workers, slot) && Served(s.workers, slot) && Busy(s, slot);
    forall x: Slot ensures Served(s'.workers, x) <==> x != slot && Served(s.workers, x) {
      ServedUpdate(s.workers, w, Idle, x);
    }
    forall x: Slot ensures InClose(s'.workers, x) <==> x != slot && InClose(s.workers, x) {
      InCloseUpdate(s.workers, w, Idle, x);
    }
    forall f: Fd ensures HasSlot(s'.sock, f) <==> f != fd && HasSlot(s.sock, f) {
      HasSlotUpdate(s.sock, slot, None, f);
    }
  }

  lemma ForgetKeepsSlots(s: State, w: nat)
    requires Forgets(s, w)
    ensures var s' := DoForget(s, w); Partition(s') && Descriptors(s') && Locked(s')
  {
    ForgetChanges(s, w);
  }

  lemma ForgetKeepsTasks(s: State, w: nat)
    requires Forgets(s, w)
    ensures var s' := DoForget(s, w); Single(s') && Owned(s') && Copied(s')
  {
    ForgetChanges(s, w);
  }

  lemma ForgetKept(s: State, w: nat)
    requires Inv(s)
    ensures Inv(DoForget(s, w))
  {
    if Forgets(s, w) {
      ForgetKeepsSlots(s, w);
      ForgetKeepsTasks(s, w);
    }
  }

  lemma ReadBackKept(s: State, w: nat)
    requires Inv(s)
    ensures Inv(DoReadBack(s, w))
  {
    var s' := DoReadBack(s, w);
    if s' != s {
      forall x: Slot ensures Served(s'.workers, x) <==> Served(s.workers, x) {
        ServedUpdate(s.workers, w, s'.workers[w], x);
      }
      forall x: Slot ensures InClose(s'.workers, x) <==> InClose(s.workers, x) {
        InCloseUpdate(s.workers, w, s'.workers[w], x);
      }
      forall x: Slot ensures Busy(s', x) == Busy(s, x) {
      }
      assert Single(s');
      assert Locked(s');
    }
  }

  lemma WriteBackChanges(s: State, w: nat)
    requires Inv(s) && Current(s, WriteBack(w)) && WritesBack(s, w)
    ensures var s', slot, fd := DoWriteBack(s, w), s.workers[w].slot, FdOf(s, w);
      && s'.fds == s.fds + {fd} && HasSlot(s.sock, fd) && Busy(s, slot) && !InClose(s.workers, slot)
      && (forall x: Slot :: Served(s'.workers, x) <==> x != slot && Served(s.workers, x))
      && (forall x: Slot :: InClose(s'.workers, x) <==> InClose(s.workers, x))
      && (forall x: Slot :: Busy(s', x) <==> x != slot && Busy(s, x))
  {
    var s', slot, fd := DoWriteBack(s, w), s.workers[w].slot, FdOf(s, w);
    WrittenCurrent(s.fds, fd);
    assert HasSlot(s.sock, fd) && Served(s.workers, slot) && Busy(s, slot);
    forall x: Slot ensures Served(s'.workers, x) <==> x != slot && Served(s.workers, x) {
      ServedUpdate(s.workers, w, Notifying, x);
    }
    forall x: Slot ensures InClose(s'.workers, x) <==> InClose(s.workers, x) {
      InCloseUpdate(s.workers, w, Notifying, x);
    }
  }

  lemma WriteBackKeepsSlots(s: State, w: nat)
    requires Inv(s) && Current(s, WriteBack(w)) && WritesBack(s, w)
    ensures var s' := DoWriteBack(s, w); Partition(s') && Descriptors(s') && Locked(s')
  {
    WriteBackChanges(s, w);
  }

  lemma WriteBackKeepsTasks(s: State, w: nat)
    requires Inv(s) && Current(s, WriteBack(w)) && WritesBack(s, w)
    ensures var s' := DoWriteBack(s, w); Single(s') && Owned(s') && Copied(s')
  {
    WriteBackChanges(s, w);
  }

  lemma WriteBackKept(s: State, w: nat)
    requires Inv(s) && Current(s, WriteBack(w))
    ensures Inv(DoWriteBack(s, w))
  {
    if WritesBack(s, w) {
      WriteBackKeepsSlots(s, w);
      WriteBackKeepsTasks(s, w);
    }
  }

  lemma NotifiedKept(s: State, w: nat)
    requires Inv(s)
    ensures Inv(Do(s, Notified(w)))
  {
    var s' := Do(s, Notified(w));
    if s' != s {
      forall x: Slot ensures Served(s'.workers, x) <==> Served(s.workers, x) {
        ServedUpdate(s.workers, w, Idle, x);
      }
      forall x: Slot ensures InClose(s'.workers, x) <==> InClose(s.workers, x) {
        InCloseUpdate(s.workers, w, Idle, x);
      }
      forall x: Slot ensures Busy(s', x) == Busy(s, x) {
      }
    }
  }

  lemma SelectKept(s: State, ready: set<Fd>, listen: bool)
    requires Inv(s)
    ensures Inv(DoSelect(s, ready, listen))
  {
    var s' := DoSelect(s, ready, listen);
    forall x: Slot ensures Busy(s', x) == Busy(s, x) {
    }
  }

  lemma ReadKept(s: State)
    requires Inv(s) && s.main.Reading?
    ensures Inv(DoMain(s))
  {
    var s' := DoMain(s);
    forall x: Slot ensures Busy(s', x) == Busy(s, x) {
    }
    assert Descriptors(s');
  }

  lemma WriteKept(s: State)
    requires Inv(s) && s.main.Writing? && Current(s, MainStep)
    ensures Inv(DoMain(s))
  {
    var s' := DoMain(s);
    WrittenCurrent(s.fds, s.main.fd);
    assert Accepted(s, s.main.fd);
    forall x: Slot ensures Busy(s', x) == Busy(s, x) {
    }
    assert Partition(s');
    assert Descriptors(s');
    assert Owned(s');
  }

  lemma EnlistChanges(s: State)
    requires Inv(s) && s.main.Enlisting? && s.free != []
    ensures var s', slot := DoMain(s), s.free[0];
      && slot in s.free && slot < |s.sock|
      && (forall x: Slot :: x in s'.free <==> x in s.free && x != slot)
      && (forall f: Fd :: HasSlot(s'.sock, f) <==> f == s.main.fd || HasSlot(s.sock, f))
      && (forall x: Slot :: Busy(s', x) == Busy(s, x))
  {
    var s', slot := DoMain(s), s.free[0];
    assert slot in s.free;
    forall x: Slot ensures x in s'.free <==> x in s.free && x != slot {
      HeadOff(s.free, x);
    }
    forall f: Fd ensures HasSlot(s'.sock, f) <==> f == s.main.fd || HasSlot(s.sock, f) {
      HasSlotUpdate(s.sock, slot, Some(s.main.fd), f);
    }
  }

  lemma EnlistKeepsSlots(s: State)
    requires Inv(s) && s.main.Enlisting? && s.free != []
    ensures var s' := DoMain(s); Partition(s') && Copied(s')
  {
    EnlistChanges(s);
  }

  lemma EnlistKeepsTasks(s: State)
    requires Inv(s) && s.main.Enlisting? && s.free != [] && Current(s, MainStep)
    ensures var s' := DoMain(s); Descriptors(s') && Single(s') && Owned(s') && Locked(s')
  {
    assert Enlisted(s, s.main.fd);
    EnlistChanges(s);
    assert forall y :: 0 <= y < |s.sock| ==> s.sock[y] != Some(s.main.fd);
  }

  lemma EnlistKept(s: State)
    requires Inv(s) && s.main.Enlisting? && Current(s, MainStep)
    ensures Inv(DoMain(s))
  {
    if s.free == [] {
      assert Enlisted(s, s.main.fd);
      forall x: Slot ensures Busy(DoMain(s), x) == Busy(s, x) {
      }
    } else {
      EnlistKeepsSlots(s);
      EnlistKeepsTasks(s);
    }
  }

  lemma VisitChanges(s: State)
    requires Inv(s) && s.main.Visiting? && s.main.todo != []
    ensures var s', slot := DoMain(s), s.main.todo[0];
      && slot in s.main.todo && slot in s.listed
      && (forall x: Slot :: x in s.main.todo[1..] <==> x in s.main.todo && x != slot)
      && Distinct(Without(s.listed, slot)) && (forall x :: x in Without(s.listed, slot) <==> x in s.listed && x != slot)
      && (forall x: Slot :: Busy(s', x) == Busy(s, x))
  {
    var slot := s.main.todo[0];
    assert slot in s.main.todo;
    forall x: Slot ensures x in s.main.todo[1..] <==> x in s.main.todo && x != slot {
      HeadOff(s.main.todo, x);
    }
    WithoutOne(s.listed, slot);
  }

  lemma VisitKeepsSlots(s: State)
    requires Inv(s) && s.main.Visiting? && s.main.todo != []
    ensures var s' := DoMain(s); Partition(s') && Copied(s')
  {
    VisitChanges(s);
  }

  lemma VisitKeepsDescriptors(s: State)
    requires Inv(s) && s.main.Visiting?
    ensures var s' := DoMain(s); Descriptors(s') && Locked(s')
  {
    assert !Arrived(s, 0) && !Arrived(DoMain(s), 0);
  }

  lemma VisitKeepsTasks(s: State)
    requires Inv(s) && s.main.Visiting?
    ensures var s' := DoMain(s); Single(s') && Owned(s')
  {
    forall x: Slot ensures Busy(DoMain(s), x) == Busy(s, x) {
    }
  }

  lemma VisitKept(s: State)
    requires Inv(s) && s.main.Visiting?
    ensures Inv(DoMain(s))
  {
    if s.main.todo != [] {
      VisitKeepsSlots(s);
    }
    VisitKeepsDescriptors(s);
    VisitKeepsTasks(s);
  }

  lemma TestKept(s: State)
    requires Inv(s) && s.main.Testing?
    ensures Inv(DoMain(s))
  {
    var s' := DoMain(s);
    forall x: Slot ensures Busy(s', x) == Busy(s, x) {
    }
  }

  lemma ClearKept(s: State)
    requires Inv(s) && s.main.Clearing? && s.lock == None
    ensures Inv(DoMain(s))
  {
    var s' := DoMain(s);
    var slot := s.main.slot;
    assert s.sock[slot].value in s.fds && !Busy(s, slot);
    assert HasSlot(s.sock, s.sock[slot].value);
    forall x: Slot ensures Busy(s', x) <==> x == slot || Busy(s, x) {
    }
    assert Partition(s');
    assert Descriptors(s');
    assert Single(s');
    assert Owned(s');
    assert Copied(s');
  }

  lemma AddKept(s: State)
    requires Inv(s) && s.main.Adding?
    ensures Inv(DoMain(s))
  {
    var s' := DoMain(s);
    assert BeingAdded(s, s.main.slot);
    forall x: Slot ensures Busy(s', x) == Busy(s, x) {
    }
  }

  lemma TopKept(s: State, s': State)
    requires Inv(s) && (s' == s || (s' == s.(main := s'.main) && (s'.main == Top || s'.main == Selecting(s.fds)) && (s.main.Top? || s.main.Accepting?)))
    ensures Inv(s')
  {
    forall x: Slot ensures Busy(s', x) == Busy(s, x) {
    }
  }

  lemma MainKept(s: State)
    requires Inv(s) && Current(s, MainStep)
    ensures Inv(DoMain(s))
  {
    match s.main {
      case Reading(ready, fd) => ReadKept(s);
      case Writing(ready, fd, word) => WriteKept(s);
      case Enlisting(ready, fd) => EnlistKept(s);
      case Visiting(ready, todo) => VisitKept(s);
      case Testing(ready, todo, slot) => TestKept(s);
      case Clearing(ready, todo, slot) => if s.lock == None { ClearKept(s); }
      case Adding(ready, todo, slot) => AddKept(s);
      case _ => TopKept(s, DoMain(s));
    }
  }

  /** Every step keeps the invariant, but for those two. */
  lemma InvKept(s: State, e: Event)
    requires Inv(s) && Current(s, e)
    ensures Inv(Do(s, e))
  {
    match e
    case MainStep => MainKept(s);
    case Select(ready, listen) => SelectKept(s, ready, listen);
    case AcceptFails => TopKept(s, Do(s, e));
    case Accept(fd) => AcceptKept(s, fd);
    case Pop(w) => PopKept(s, w);
    case Close(w) => CloseKept(s, w);
    case Forget(w) => ForgetKept(s, w);
    case ReadBack(w) => ReadBackKept(s, w);
    case WriteBack(w) => WriteBackKept(s, w);
    case Notified(w) => NotifiedKept(s, w);
  }

  // ---------------------------------------------------------------- every run

  /** A run in which no word is written that is out of date, and no connection is enlisted under a descriptor a slot
      still has. */
  predicate Clean(s: State, events: seq<Event>) {
    events == [] ||
    var front := events[..|events| - 1];
    Clean(s, front) && Current(Run(s, front), events[|events| - 1])
  }

  lemma {:induction false} InvAlways(s: State, events: seq<Event>)
    requires Inv(s) && Clean(s, events)
    ensures Inv(Run(s, events)) && |Run(s, events).sock| == |s.sock|
  {
    if events != [] {
      var front, e := events[..|events| - 1], events[|events| - 1];
      InvAlways(s, front);
      InvKept(Run(s, front), e);
      SameSlots(Run(s, front), e);
    }
  }

  lemma SameSlots(s: State, e: Event)
    ensures |Do(s, e).sock| == |s.sock|
  {
  }

  lemma InvReached(slots: nat, workers: nat, events: seq<Event>)
    requires Clean(Init(slots, workers), events)
    ensures var s := Run(Init(slots, workers), events); Inv(s) && |s.sock| == slots
  {
    InvInit(slots, workers);
    InvAlways(Init(slots, workers), events);
  }

  /** In the list, its descriptor in the server's set, no task. */
  ghost predicate IsIdle(s: State, x: Slot)
    requires x < |s.sock|
  {
    x in s.listed && !Busy(s, x) && s.sock[x] != None && s.sock[x].value in s.fds
  }

  /** In the list, its descriptor out of the server's set, and open unless the task is closing it; a task for it
      in one place. */
  ghost predicate IsDispatched(s: State, x: Slot)
    requires x < |s.sock|
  {
    && x in s.listed && s.sock[x] != None && (s.sock[x].value in s.open || InClose(s.workers, x)) && OutOfSet(s, x)
    && Busy(s, x) && !(x in s.tasks && Served(s.workers, x)) && !(BeingAdded(s, x) && (x in s.tasks || Served(s.workers, x)))
    && (forall i, j :: 0 <= i < j < |s.tasks| ==> s.tasks[i] != x || s.tasks[j] != x)
    && (forall v, w :: 0 <= v < w < |s.workers| ==> SlotOf(s.workers[v]) != Some(x) || SlotOf(s.workers[w]) != Some(x))
  }

  /** In the list, its socket -1, no task: the next visit takes it back. */
  ghost predicate IsClosed(s: State, x: Slot)
    requires x < |s.sock|
  {
    x in s.listed && !Busy(s, x) && s.sock[x] == None
  }

  ghost predicate IsFree(s: State, x: Slot) {
    x in s.free && x !in s.listed && !Busy(s, x)
  }

  /** In the list, its descriptor open but out of the server's set, and no task. */
  ghost predicate Stranded(s: State, x: Slot) {
    x < |s.sock| && x in s.listed && !Busy(s, x) && s.sock[x] != None && s.sock[x].value in s.open && s.sock[x].value !in s.fds
  }

  /** In every state a clean run reaches, each slot is exactly one of free, idle, dispatched and closed; none is
      lost, and none is in two places of the pool or the list. */
  lemma OneOwner(slots: nat, workers: nat, events: seq<Event>, x: Slot)
    requires x < slots && Clean(Init(slots, workers), events)
    ensures var s := Run(Init(slots, workers), events);
      && |s.sock| == slots && Distinct(s.free) && Distinct(s.listed)
      && (IsFree(s, x) || IsIdle(s, x) || IsDispatched(s, x) || IsClosed(s, x))
      && !(IsFree(s, x) && (IsIdle(s, x) || IsDispatched(s, x) || IsClosed(s, x)))
      && !(IsIdle(s, x) && (IsDispatched(s, x) || IsClosed(s, x))) && !(IsDispatched(s, x) && IsClosed(s, x))
      && !Stranded(s, x)
  {
    InvReached(slots, workers, events);
    var s := Run(Init(slots, workers), events);
    assert forall i :: 0 <= i < |s.tasks| && s.tasks[i] == x ==> x in s.tasks;
    assert forall w :: 0 <= w < |s.workers| && SlotOf(s.workers[w]) == Some(x) ==> Served(s.workers, x);
  }

  /** No slot goes back to the pool while a task for it is queued or running. */
  lemma ReclaimedUnused(slots: nat, workers: nat, events: seq<Event>, e: Event, x: Slot)
    requires Clean(Init(slots, workers), events) && Current(Run(Init(slots, workers), events), e)
    requires var s := Run(Init(slots, workers), events); x !in s.free && x in Do(s, e).free
    ensures var s := Run(Init(slots, workers), events); x < |s.sock| && IsClosed(s, x) && IsFree(Do(s, e), x)
  {
    InvReached(slots, workers, events);
    var s := Run(Init(slots, workers), events);
    InvKept(s, e);
    SameSlots(s, e);
    assert s.main.Visiting? && s.main.todo != [] && x == s.main.todo[0];
    assert x in s.main.todo;
  }

  lemma OneMoreEvent(s: State, events: seq<Event>, e: Event)
    ensures Run(s, events + [e]) == Do(Run(s, events), e)
    ensures Clean(s, events + [e]) <==> Clean(s, events) && Current(Run(s, events), e)
  {
    assert (events + [e])[..|events|] == events;
  }

  /** A slot gets a task only while it is idle, however old the copy of the descriptor set is. */
  lemma DispatchedFromIdle(slots: nat, workers: nat, events: seq<Event>, e: Event, x: Slot)
    requires Clean(Init(slots, workers), events) && Current(Run(Init(slots, workers), events), e)
    requires var s := Run(Init(slots, workers), events); !Busy(s, x) && Busy(Do(s, e), x)
    ensures var s := Run(Init(slots, workers), events); x < |s.sock| && IsIdle(s, x) && IsDispatched(Do(s, e), x)
  {
    OneMoreEvent(Init(slots, workers), events, e);
    InvReached(slots, workers, events);
    InvReached(slots, workers, events + [e]);
    OneOwner(slots, workers, events + [e], x);
    var s := Run(Init(slots, workers), events);
    BusyFromIdle(s, e, x);
  }

  lemma BusyByClearing(s: State, e: Event, x: Slot)
    requires Inv(s) && !Busy(s, x) && Busy(Do(s, e), x)
    ensures e == MainStep && s.main.Clearing? && s.main.slot == x && s.lock == None
  {
  }

  lemma BusyFromIdle(s: State, e: Event, x: Slot)
    requires Inv(s) && Inv(Do(s, e)) && !Busy(s, x) && Busy(Do(s, e), x)
    ensures x < |s.sock| && IsIdle(s, x) && Do(s, e).sock[x] != None && Do(s, e).sock[x].value !in Do(s, e).fds
  {
    BusyByClearing(s, e, x);
  }

  /** Between two waits, for the world or for the lock, the main thread can always go on. */
  lemma MainMoves(slots: nat, workers: nat, events: seq<Event>)
    requires Clean(Init(slots, workers), events)
    ensures var s := Run(Init(slots, workers), events);
      DoMain(s).main == s.main <==> s.main.Selecting? || s.main.Accepting? || ((s.main.Top? || s.main.Clearing?) && s.lock != None)
  {
    InvReached(slots, workers, events);
    var s := Run(Init(slots, workers), events);
    if s.main.Visiting? && s.main.todo != [] {
      assert s.main.todo[0] in s.main.todo;
    } else if s.main.Enlisting? && s.free != [] {
      assert s.free[0] in s.free;
    }
  }

  // ---------------------------------------------------------------- the sweep of the list

  /** The main thread goes through the connection list. */
  predicate Sweeping(m: Main) {
    m.Visiting? || m.Testing? || m.Clearing? || m.Adding?
  }

  predicate SweepingAll(s: State, events: seq<Event>) {
    Sweeping(Run(s, events).main) && (events == [] || SweepingAll(s, events[..|events| - 1]))
  }

  /** How a visit finds a connection: closed, not ready, or ready. */
  datatype Look = Closed | Still | Ready

  /** What the main thread looks at in a step, and finds there. */
  function Looked(s: State, e: Event): seq<(Slot, Look)> {
    if e != MainStep then []
    else
      match s.main
      case Visiting(ready, todo) => if todo != [] && todo[0] < |s.sock| && s.sock[todo[0]] == None then [(todo[0], Closed)] else []
      case Testing(ready, todo, x) =>
        if x < |s.sock| && s.sock[x] != None && s.sock[x].value in ready then [(x, Ready)] else [(x, Still)]
      case _ => []
  }

  /** What becomes of a connection in a step, by the change it makes: it goes from the list to the pool; it becomes a
      task; or the main thread goes on to the next with all as it was. */
  function Answered(s: State, e: Event): seq<(Slot, Look)> {
    var s' := Do(s, e);
    if e != MainStep || !Sweeping(s.main) then []
    else if |s'.free| > |s.free| then [(s'.free[0], Closed)]
    else if |s'.tasks| > |s.tasks| then [(s'.tasks[|s'.tasks| - 1], Ready)]
    else if s.main.Testing? && s'.main.Visiting? then [(s.main.slot, Still)]
    else []
  }

  function Seen(s: State, events: seq<Event>): seq<(Slot, Look)> {
    if events == [] then []
    else
      var front := events[..|events| - 1];
      Seen(s, front) + Looked(Run(s, front), events[|events| - 1])
  }

  function Answers(s: State, events: seq<Event>): seq<(Slot, Look)> {
    if events == [] then []
    else
      var front := events[..|events| - 1];
      Answers(s, front) + Answered(Run(s, front), events[|events| - 1])
  }

  function Slots(looks: seq<(Slot, Look)>): seq<Slot> {
    seq(|looks|, i requires 0 <= i < |looks| => looks[i].0)
  }

  /** The connections still to be looked at, and the one that was found ready and is not a task yet. */
  function ToSee(m: Main): seq<Slot>
    requires Sweeping(m)
  {
    match m
    case Visiting(ready, todo) => todo
    case Testing(ready, todo, x) => [x] + todo
    case Clearing(ready, todo, x) => todo
    case Adding(ready, todo, x) => todo
  }

  function Owed(m: Main): seq<(Slot, Look)>
    requires Sweeping(m)
  {
    if m.Clearing? || m.Adding? then [(m.slot, Ready)] else []
  }

  lemma SweepOthers(s: State, e: Event)
    requires Sweeping(s.main) && e != MainStep
    ensures Do(s, e).main == s.main && Looked(s, e) == [] && Answered(s, e) == []
  {
  }

  lemma SweepLooks(s: State)
    requires Inv(s) && Sweeping(s.main) && Sweeping(DoMain(s).main)
    ensures DoMain(s).main.ready == s.main.ready && Slots(Looked(s, MainStep)) + ToSee(DoMain(s).main) == ToSee(s.main)
  {
    if s.main.Visiting? {
      if s.main.todo != [] {
        assert s.main.todo[0] in s.main.todo;
        assert s.main.todo == [s.main.todo[0]] + s.main.todo[1..];
        assert Slots([(s.main.todo[0], Closed)]) == [s.main.todo[0]];
      }
    } else {
      assert |Looked(s, MainStep)| <= 1;
    }
  }

  lemma SweepAnswers(s: State)
    requires Inv(s) && Sweeping(s.main) && Sweeping(DoMain(s).main)
    ensures Answered(s, MainStep) + Owed(DoMain(s).main) == Owed(s.main) + Looked(s, MainStep)
  {
    if s.main.Visiting? && s.main.todo != [] {
      assert s.main.todo[0] in s.main.todo;
    }
  }

  /** One step of a sweep: what is looked at is the next of the list, and what was looked at is answered. */
  lemma SweepStep(s: State, e: Event)
    requires Inv(s) && Sweeping(s.main) && Sweeping(Do(s, e).main)
    ensures var s' := Do(s, e);
      && s'.main.ready == s.main.ready
      && Slots(Looked(s, e)) + ToSee(s'.main) == ToSee(s.main)
      && Answered(s, e) + Owed(s'.main) == Owed(s.main) + Looked(s, e)
  {
    if e == MainStep {
      SweepLooks(s);
      SweepAnswers(s);
    } else {
      SweepOthers(s, e);
      assert Slots([]) == [];
    }
  }

  /** What each answer means. */
  lemma AnswersMean(s: State, e: Event, x: Slot, look: Look)
    requires Inv(s) && Answered(s, e) == [(x, look)]
    ensures var s' := Do(s, e);
      match look
      case Closed => x in s.listed && s.sock[x] == None && x !in s'.listed && s'.free == [x] + s.free && s'.tasks == s.tasks
      case Still => s'.listed == s.listed && s'.free == s.free && s'.tasks == s.tasks && s'.fds == s.fds
      case Ready => s'.listed == s.listed && s'.free == s.free && s'.tasks == s.tasks + [x]
  {
    if s.main.Visiting? && s.main.todo != [] {
      assert s.main.todo[0] in s.main.todo;
      WithoutOne(s.listed, s.main.todo[0]);
    }
  }

  lemma SlotsInParts(a: seq<(Slot, Look)>, b: seq<(Slot, Look)>)
    ensures Slots(a + b) == Slots(a) + Slots(b)
  {
  }

  lemma Regrouped(a: seq<Slot>, b: seq<Slot>, c: seq<Slot>)
    ensures a + b + c == a + (b + c)
  {
  }

  lemma LooksRegrouped(a: seq<(Slot, Look)>, b: seq<(Slot, Look)>, c: seq<(Slot, Look)>)
    ensures a + b + c == a + (b + c)
  {
  }

  lemma {:induction false} SweepSteps(s: State, events: seq<Event>)
    requires Inv(s) && Clean(s, events) && SweepingAll(s, events)
    ensures Sweeping(s.main)
    ensures var s' := Run(s, events);
      && Inv(s') && s'.main.ready == s.main.ready
      && Slots(Seen(s, events)) + ToSee(s'.main) == ToSee(s.main)
      && Answers(s, events) + Owed(s'.main) == Owed(s.main) + Seen(s, events)
  {
    InvAlways(s, events);
    if events == [] {
      assert Slots([]) == [];
    } else {
      var front, e := events[..|events| - 1], events[|events| - 1];
      SweepSteps(s, front);
      var s1 := Run(s, front);
      SweepStep(s1, e);
      SlotsInParts(Seen(s, front), Looked(s1, e));
      Regrouped(Slots(Seen(s, front)), Slots(Looked(s1, e)), ToSee(Do(s1, e).main));
      LooksRegrouped(Answers(s, front), Answered(s1, e), Owed(Do(s1, e).main));
      LooksRegrouped(Answers(s, front), Owed(s1.main), Looked(s1, e));
      LooksRegrouped(Owed(s.main), Seen(s, front), Looked(s1, e));
    }
  }

  /** A sweep begins with the whole list, new connection included, before its first. */
  lemma SweepBegins(s: State, e: Event)
    requires !Sweeping(s.main) && Sweeping(Do(s, e).main)
    ensures var s' := Do(s, e);
      && s'.main.Visiting? && s'.main.todo == s'.listed && s'.main.ready == if e.Select? then e.ready else s.main.ready
  {
  }

  /** An event begins a sweep, and `more` leads to its end. */
  predicate SweepsThrough(s: State, e: Event, more: seq<Event>) {
    && !Sweeping(s.main) && SweepingAll(Do(s, e), more)
    && Run(Do(s, e), more).main.Visiting? && Run(Do(s, e), more).main.todo == []
  }

  /** Every connection of the list is looked at in its turn, and answered as it was found, whatever the workers do. */
  lemma EveryConnectionVisited(slots: nat, workers: nat, events: seq<Event>, e: Event, more: seq<Event>)
    requires Clean(Init(slots, workers), events + [e]) && Clean(Run(Init(slots, workers), events + [e]), more)
    requires SweepsThrough(Run(Init(slots, workers), events), e, more)
    ensures var s1 := Do(Run(Init(slots, workers), events), e);
      Slots(Seen(s1, more)) == s1.listed && Answers(s1, more) == Seen(s1, more)
  {
    var s := Run(Init(slots, workers), events);
    var s1 := Do(s, e);
    OneMoreEvent(Init(slots, workers), events, e);
    InvReached(slots, workers, events + [e]);
    SweepSteps(s1, more);
    SweepBegins(s, e);
    assert Slots(Seen(s1, more)) + [] == Slots(Seen(s1, more)) && Answers(s1, more) + [] == Answers(s1, more);
  }

  /** A new connection takes the first free slot, last in the list, with its descriptor; without a free slot nothing
      changes but that it has leaked. */
  lemma NewIsLast(s: State)
    requires Inv(s) && s.main.Enlisting?
    ensures var s' := DoMain(s);
      if s.free == [] then s' == s.(leaked := s.leaked + {s.main.fd}, main := Visiting(s.main.ready, s.listed))
      else
        && s.free == [s.free[0]] + s'.free && s'.listed == s.listed + [s.free[0]] && s'.main.Visiting?
        && s.free[0] < |s.sock| && s'.sock == s.sock[s.free[0] := Some(s.main.fd)] && s'.leaked == s.leaked
  {
    if s.free != [] {
      assert s.free[0] in s.free;
    }
  }

  /** When select or accept returns, the main thread goes on: to a new connection if there is one, else to the sweep
      if any client is ready, else back. */
  lemma ReturnsMove(s: State, ready: set<Fd>, fd: Fd)
    requires fd !in s.open
    ensures s.main.Selecting? && ready <= s.main.copy ==>
      && Do(s, Select(ready, true)).main.Accepting?
      && (Do(s, Select(ready, false)).main.Visiting? <==> ready != {}) && (Do(s, Select({}, false)).main == Top)
    ensures s.main.Accepting? ==>
      Accepted(Do(s, Accept(fd)), fd) && fd in Do(s, Accept(fd)).open && Do(s, AcceptFails).main == Top
  {
  }

  /** An idle slot stays as it is until the main thread takes its descriptor out of the set. */
  lemma IdleStays(s: State, e: Event, x: Slot, f: Fd)
    requires Inv(s) && Current(s, e) && x < |s.sock| && IsIdle(s, x) && s.sock[x] == Some(f)
    requires !(s.main.Clearing? && s.main.slot == x)
    ensures var s' := Do(s, e); |s'.sock| == |s.sock| && IsIdle(s', x) && s'.sock[x] == Some(f)
  {
    SameSlots(s, e);
    if Busy(Do(s, e), x) {
      BusyByClearing(s, e, x);
    }
    if e == MainStep {
      IdleKeptByMain(s, x, f);
    } else {
      IdleKeptByOthers(s, e, x, f);
    }
  }

  lemma IdleKeptByMain(s: State, x: Slot, f: Fd)
    requires Inv(s) && Current(s, MainStep) && x < |s.sock| && IsIdle(s, x) && s.sock[x] == Some(f)
    requires !(s.main.Clearing? && s.main.slot == x)
    ensures var s' := DoMain(s); |s'.sock| == |s.sock| && s'.sock[x] == Some(f) && x in s'.listed && f in s'.fds
  {
    match s.main
    case Writing(ready, fd, word) => WrittenCurrent(s.fds, fd);
    case Enlisting(ready, fd) =>
      if s.free != [] {
        assert s.free[0] in s.free;
      }
    case Visiting(ready, todo) =>
      if todo != [] && todo[0] != x {
        WithoutOthers(s.listed, todo[0], x);
      }
    case _ =>
  }

  lemma IdleKeptByOthers(s: State, e: Event, x: Slot, f: Fd)
    requires Inv(s) && Current(s, e) && e != MainStep && x < |s.sock| && IsIdle(s, x) && s.sock[x] == Some(f)
    ensures var s' := Do(s, e); |s'.sock| == |s.sock| && s'.sock[x] == Some(f) && x in s'.listed && f in s'.fds
  {
    if e.WriteBack? && WritesBack(s, e.w) {
      WrittenCurrent(s.fds, FdOf(s, e.w));
    }
    if e.Forget? && Holds(s, e.w) && s.workers[e.w].Closing? {
      assert Served(s.workers, s.workers[e.w].slot);
    }
  }

  /** A sweep that has an idle connection to see, whose descriptor select has returned, makes it a task. */
  lemma {:induction false} ReadyIsSeen(s: State, events: seq<Event>, x: Slot, f: Fd)
    requires Inv(s) && Clean(s, events) && SweepingAll(s, events) && Sweeping(s.main)
    requires x < |s.sock| && x in ToSee(s.main) && IsIdle(s, x) && s.sock[x] == Some(f) && f in s.main.ready
    ensures var s' := Run(s, events);
      Sweeping(s'.main) && if x in ToSee(s'.main) then |s'.sock| == |s.sock| && IsIdle(s', x) && s'.sock[x] == Some(f)
                           else (x, Ready) in Seen(s, events)
  {
    if events != [] {
      var front, e := events[..|events| - 1], events[|events| - 1];
      ReadyIsSeen(s, front, x, f);
      SweepSteps(s, front);
      var s1 := Run(s, front);
      InvAlways(s, front);
      if x in ToSee(s1.main) {
        IdleStays(s1, e, x, f);
        ReadyStep(s1, e, x, f);
        var looks := Seen(s, front) + Looked(s1, e);
        assert (x, Ready) in Looked(s1, e) ==> (x, Ready) in looks;
      } else {
        SweepStep(s1, e);
        StaysSeen(s1, e, x);
      }
    }
  }

  lemma ReadyStep(s: State, e: Event, x: Slot, f: Fd)
    requires Inv(s) && Sweeping(s.main) && Sweeping(Do(s, e).main) && x in ToSee(s.main)
    requires x < |s.sock| && s.sock[x] == Some(f) && f in s.main.ready
    ensures x in ToSee(Do(s, e).main) || (x, Ready) in Looked(s, e)
  {
  }

  lemma StaysSeen(s: State, e: Event, x: Slot)
    requires Inv(s) && Sweeping(s.main) && Sweeping(Do(s, e).main) && x !in ToSee(s.main)
    ensures x !in ToSee(Do(s, e).main)
  {
  }

  /** The main thread has copied the set, others have gone on, and select has returned. */
  ghost predicate Selected(s: State, between: seq<Event>, ready: set<Fd>) {
    && s.main == Top && s.lock == None && MainStep !in between && (forall e :: e in between ==> !e.Select?)
    && Clean(DoMain(s), between) && ready != {} && ready <= DoMain(s).main.copy
  }

  /** And the sweep that follows has come to its end. */
  ghost predicate Swept(s: State, between: seq<Event>, ready: set<Fd>, more: seq<Event>)
    requires Selected(s, between, ready)
  {
    var s1 := DoSelect(Run(DoMain(s), between), ready, false);
    Clean(s1, more) && SweepingAll(s1, more) && Run(s1, more).main == Visiting(ready, [])
  }

  lemma {:induction false} WaitsInSelect(s: State, events: seq<Event>, x: Slot, f: Fd)
    requires Inv(s) && Clean(s, events) && s.main.Selecting? && MainStep !in events && forall e :: e in events ==> !e.Select?
    requires x < |s.sock| && IsIdle(s, x) && s.sock[x] == Some(f)
    ensures var s' := Run(s, events);
      Inv(s') && s'.main == s.main && |s'.sock| == |s.sock| && IsIdle(s', x) && s'.sock[x] == Some(f)
  {
    if events != [] {
      var front, e := events[..|events| - 1], events[|events| - 1];
      WaitsInSelect(s, front, x, f);
      assert e in events;
      InvKept(Run(s, front), e);
      IdleStays(Run(s, front), e, x, f);
    }
  }

  lemma SelectFinds(s: State, between: seq<Event>, ready: set<Fd>, x: Slot, f: Fd)
    requires Inv(s) && Selected(s, between, ready) && x < |s.sock| && IsIdle(s, x) && s.sock[x] == Some(f)
    ensures var s1 := DoSelect(Run(DoMain(s), between), ready, false);
      && f in DoMain(s).main.copy && Inv(s1) && s1.main == Visiting(ready, s1.listed)
      && x < |s1.sock| && IsIdle(s1, x) && s1.sock[x] == Some(f)
  {
    MainKept(s);
    IdleStays(s, MainStep, x, f);
    var s0 := Run(DoMain(s), between);
    WaitsInSelect(DoMain(s), between, x, f);
    InvKept(s0, Select(ready, false));
    IdleStays(s0, Select(ready, false), x, f);
  }

  /** From the top of the loop to the end of the sweep: an idle connection is among those select is asked for, and if
      select returns its descriptor, a task for it is queued in that sweep. */
  lemma ReadyIsServed(slots: nat, workers: nat, events: seq<Event>, between: seq<Event>, ready: set<Fd>, more: seq<Event>, x: Slot)
    requires Clean(Init(slots, workers), events)
    requires Selected(Run(Init(slots, workers), events), between, ready)
    requires Swept(Run(Init(slots, workers), events), between, ready, more)
    requires x < |Run(Init(slots, workers), events).sock| && IsIdle(Run(Init(slots, workers), events), x)
    ensures var s := Run(Init(slots, workers), events);
      var s1 := DoSelect(Run(DoMain(s), between), ready, false);
      && s.sock[x].value in DoMain(s).main.copy && (s.sock[x].value in ready ==> (x, Ready) in Answers(s1, more))
  {
    var s := Run(Init(slots, workers), events);
    var f := s.sock[x].value;
    InvReached(slots, workers, events);
    SelectFinds(s, between, ready, x, f);
    var s1 := DoSelect(Run(DoMain(s), between), ready, false);
    if f in ready {
      ReadyIsSeen(s1, more, x, f);
      SweepSteps(s1, more);
      assert Answers(s1, more) + [] == Answers(s1, more) && [] + Seen(s1, more) == Seen(s1, more);
    }
  }

  // ---------------------------------------------------------------- the workers

  /** A worker in the middle of a task has its socket, and can go on; only the lock can make it wait. */
  lemma WorkersMove(slots: nat, workers: nat, events: seq<Event>, w: nat)
    requires Clean(Init(slots, workers), events) && w < |Run(Init(slots, workers), events).workers|
    ensures var s := Run(Init(slots, workers), events);
      match s.workers[w]
      case Idle => DoPop(s, w) == s <==> s.tasks == []
      case Serving(x) => DoClose(s, w) != s && (DoReadBack(s, w) == s <==> s.lock != None)
      case Closing(x) => DoForget(s, w) != s
      case Returning(x, word) => DoWriteBack(s, w) != s
      case Notifying => Do(s, Notified(w)) != s
  {
    InvReached(slots, workers, events);
    var s := Run(Init(slots, workers), events);
    if SlotOf(s.workers[w]) != None {
      assert Served(s.workers, SlotOf(s.workers[w]).value) && Busy(s, SlotOf(s.workers[w]).value);
    }
    assert s.workers[w := Idle][w] == Idle;
    WorkerChanges(s, w);
  }

  lemma WorkerChanges(s: State, w: nat)
    requires w < |s.workers| && (SlotOf(s.workers[w]) != None ==> Holds(s, w))
    ensures match s.workers[w]
      case Idle => s.tasks != [] ==> DoPop(s, w).workers[w] != s.workers[w]
      case Serving(x) => DoClose(s, w).workers[w] != s.workers[w] && (s.lock == None ==> DoReadBack(s, w).workers[w] != s.workers[w])
      case Closing(x) => DoForget(s, w).workers[w] != s.workers[w]
      case Returning(x, word) => DoWriteBack(s, w).workers[w] != s.workers[w]
      case Notifying => Do(s, Notified(w)).workers[w] != s.workers[w]
  {
  }

  /** A task that keeps its connection, by a worker that is not disturbed: the descriptor is in the set again. */
  lemma GivesBack(s: State, w: nat)
    requires Holds(s, w) && s.workers[w].Serving? && s.lock == None
    ensures Do(Do(Do(s, ReadBack(w)), WriteBack(w)), Notified(w)) ==
      s.(fds := s.fds + {FdOf(s, w)}, workers := s.workers[w := Idle])
  {
    var fd, x := FdOf(s, w), s.workers[w].slot;
    WrittenCurrent(s.fds, fd);
    var s1 := Do(s, ReadBack(w));
    assert s1.workers[w] == Returning(x, Word(s.fds, fd)) && WritesBack(s1, w) && FdOf(s1, w) == fd;
    var s2 := Do(s1, WriteBack(w));
    assert s2.workers[w] == Notifying && s2.workers[w := Idle] == s.workers[w := Idle];
  }

  /** One that closes it: the descriptor is closed, and the slot has none. */
  lemma ClosesDown(s: State, w: nat)
    requires Holds(s, w) && s.workers[w].Serving?
    ensures Do(Do(s, Close(w)), Forget(w)) ==
      s.(open := s.open - {FdOf(s, w)}, sock := s.sock[s.workers[w].slot := None], workers := s.workers[w := Idle])
  {
    var s1 := Do(s, Close(w));
    assert s1.workers[w] == Closing(s.workers[w].slot) && Holds(s1, w);
    assert s1.workers[w := Idle] == s.workers[w := Idle];
  }

  /** The slots that became tasks, and those that workers took on, by the change. */
  function Added(s: State, e: Event): seq<Slot> {
    var s' := Do(s, e);
    if |s'.tasks| > |s.tasks| then [s'.tasks[|s'.tasks| - 1]] else []
  }

  function Taken(s: State, e: Event): seq<Slot> {
    if e.Pop? && e.w < |s.workers| && s.workers[e.w] == Idle && e.w < |Do(s, e).workers| && Do(s, e).workers[e.w].Serving?
    then [Do(s, e).workers[e.w].slot] else []
  }

  function AddedAll(s: State, events: seq<Event>): seq<Slot> {
    if events == [] then []
    else
      var front := events[..|events| - 1];
      AddedAll(s, front) + Added(Run(s, front), events[|events| - 1])
  }

  function TakenAll(s: State, events: seq<Event>): seq<Slot> {
    if events == [] then []
    else
      var front := events[..|events| - 1];
      TakenAll(s, front) + Taken(Run(s, front), events[|events| - 1])
  }

  lemma QueueStep(s: State, e: Event)
    ensures s.tasks + Added(s, e) == Taken(s, e) + Do(s, e).tasks
  {
  }

  /** Workers take on the tasks in the order in which they were queued, each once. */
  lemma {:induction false} TakenInOrder(s: State, events: seq<Event>)
    ensures s.tasks + AddedAll(s, events) == TakenAll(s, events) + Run(s, events).tasks
  {
    if events == [] {
      assert s.tasks + [] == [] + s.tasks;
    } else {
      var front, e := events[..|events| - 1], events[|events| - 1];
      var s1 := Run(s, front);
      TakenInOrder(s, front);
      QueueStep(s1, e);
      Regrouped(s.tasks, AddedAll(s, front), Added(s1, e));
      Regrouped(TakenAll(s, front), s1.tasks, Added(s1, e));
      Regrouped(TakenAll(s, front), Taken(s1, e), Do(s1, e).tasks);
    }
  }

  // ---------------------------------------------------------------- two FD_SETs at once

  /** Until the main thread writes, the word a worker has read is up to date: only lock holders have written. */
  ghost predicate WordFresh(s: State) {
    s.lock != None && (s.main.Selecting? || s.main.Accepting? || s.main.Reading? || s.main.Writing?) ==>
      Current(s, WriteBack(s.lock.value))
  }

  lemma FreshKept(s: State, e: Event)
    requires Inv(s) && WordFresh(s) && Current(s, e)
    ensures WordFresh(Do(s, e))
  {
  }

  lemma {:induction false} FreshAlways(s: State, events: seq<Event>)
    requires Inv(s) && WordFresh(s) && Clean(s, events)
    ensures WordFresh(Run(s, events))
  {
    if events != [] {
      var front, e := events[..|events| - 1], events[|events| - 1];
      FreshAlways(s, front);
      InvAlways(s, front);
      FreshKept(Run(s, front), e);
    }
  }

  /** A worker writes the word of `fd`. */
  predicate WorkerWrites(s: State, e: Event, fd: Fd) {
    e.WriteBack? && WritesBack(s, e.w) && SameWord(FdOf(s, e.w), fd)
  }

  /** It does so somewhere among these events. */
  predicate SomeWorkerWrites(s: State, events: seq<Event>, fd: Fd) {
    events != [] &&
    var front := events[..|events| - 1];
    SomeWorkerWrites(s, front, fd) || WorkerWrites(Run(s, front), events[|events| - 1], fd)
  }

  /** A worker writes `f` itself back. */
  predicate WritesFd(s: State, e: Event, f: Fd) {
    e.WriteBack? && WritesBack(s, e.w) && FdOf(s, e.w) == f
  }

  predicate SomeWriteOf(s: State, events: seq<Event>, f: Fd) {
    events != [] &&
    var front := events[..|events| - 1];
    SomeWriteOf(s, front, f) || WritesFd(Run(s, front), events[|events| - 1], f)
  }

  /** What other threads do between the main thread's reading and writing of a word. */
  ghost predicate Meanwhile(s: State, s1: State) {
    s1.main == s.main && s.fds <= s1.fds && s1.leaked == s.leaked
  }

  lemma WorkerStep(s: State, e: Event)
    requires Inv(s) && WordFresh(s) && s.main.Writing? && e != MainStep
    ensures Current(s, e) && Meanwhile(s, Do(s, e))
    ensures WorkerWrites(s, e, s.main.fd) ==>
      FdOf(s, e.w) in Word(Do(s, e).fds, s.main.fd) && FdOf(s, e.w) !in s.fds
    ensures !WorkerWrites(s, e, s.main.fd) ==> Word(Do(s, e).fds, s.main.fd) == Word(s.fds, s.main.fd)
    ensures forall f :: f in Do(s, e).fds <==> f in s.fds || WritesFd(s, e, f)
    ensures forall f :: WritesFd(s, e, f) ==> f !in s.fds
  {
    if e.WriteBack? && WritesBack(s, e.w) {
      assert s.lock == Some(e.w);
      WrittenCurrent(s.fds, FdOf(s, e.w));
      assert Served(s.workers, s.workers[e.w].slot) && Busy(s, s.workers[e.w].slot);
    }
  }

  lemma {:induction false} WorkerSteps(s: State, events: seq<Event>)
    requires Inv(s) && WordFresh(s) && s.main.Writing? && MainStep !in events
    ensures var s1 := Run(s, events);
      && Clean(s, events) && Inv(s1) && WordFresh(s1) && Meanwhile(s, s1) && |s1.sock| == |s.sock|
      && (Word(s1.fds, s.main.fd) != Word(s.fds, s.main.fd) <==> SomeWorkerWrites(s, events, s.main.fd))
  {
    if events != [] {
      var front, e := events[..|events| - 1], events[|events| - 1];
      WorkerSteps(s, front);
      var s1 := Run(s, front);
      WorkerStep(s1, e);
      InvKept(s1, e);
      FreshKept(s1, e);
      SameSlots(s1, e);
      if WorkerWrites(s1, e, s.main.fd) {
        assert FdOf(s1, e.w) !in Word(s.fds, s.main.fd);
      }
    }
  }

  lemma {:induction false} WrittenSince(s: State, events: seq<Event>, f: Fd)
    requires Inv(s) && WordFresh(s) && s.main.Writing? && MainStep !in events
    ensures SomeWriteOf(s, events, f) <==> f in Run(s, events).fds && f !in s.fds
  {
    if events != [] {
      var front := events[..|events| - 1];
      WrittenSince(s, front, f);
      WorkerSteps(s, front);
      WorkerStep(Run(s, front), events[|events| - 1]);
    }
  }

  /** The main thread has read a word, other threads go on, and it writes the word back. */
  ghost predicate MainReads(slots: nat, workers: nat, events: seq<Event>, between: seq<Event>) {
    && Clean(Init(slots, workers), events) && MainStep !in between
    && Run(Init(slots, workers), events).main.Reading?
  }

  lemma ReadsAndWaits(slots: nat, workers: nat, events: seq<Event>, between: seq<Event>)
    requires MainReads(slots, workers, events, between)
    ensures var s := DoMain(Run(Init(slots, workers), events));
      Inv(s) && WordFresh(s) && s.main.Writing? && s.main.word == Word(s.fds, s.main.fd) && |s.sock| == slots
  {
    var s0 := Run(Init(slots, workers), events);
    InvReached(slots, workers, events);
    InvInit(slots, workers);
    FreshAlways(Init(slots, workers), events);
    InvKept(s0, MainStep);
    FreshKept(s0, MainStep);
    SameSlots(s0, MainStep);
  }

  /** Then a slot is stranded exactly if a worker has written that word in between, and otherwise the run stays
      clean. */
  lemma MainWriteLosesExactly(slots: nat, workers: nat, events: seq<Event>, between: seq<Event>)
    requires MainReads(slots, workers, events, between)
    ensures var s := DoMain(Run(Init(slots, workers), events));
      var s2 := DoMain(Run(s, between));
      && ((exists x :: Stranded(s2, x)) <==> SomeWorkerWrites(s, between, s.main.fd))
      && (Current(Run(s, between), MainStep) <==> !SomeWorkerWrites(s, between, s.main.fd))
  {
    var s := DoMain(Run(Init(slots, workers), events));
    var s1 := Run(s, between);
    ReadsAndWaits(slots, workers, events, between);
    WorkerSteps(s, between);
    if Word(s1.fds, s.main.fd) == Word(s.fds, s.main.fd) {
      InvKept(s1, MainStep);
    } else {
      assert Word(s.fds, s.main.fd) <= Word(s1.fds, s.main.fd);
      var f :| f in Word(s1.fds, s.main.fd) && f !in s.main.word;
      StrandedByMain(s1, f);
    }
  }

  lemma StrandedByMain(s: State, f: Fd)
    requires Inv(s) && s.main.Writing? && f in Word(s.fds, s.main.fd) && f !in s.main.word && f !in s.leaked
    ensures var s' := DoMain(s); exists x :: Stranded(s', x)
  {
    assert Accepted(s, s.main.fd) && HasSlot(s.sock, f);
    var x: Slot :| x < |s.sock| && s.sock[x] == Some(f);
    var s' := DoMain(s);
    assert !Busy(s, x) && !Busy(s', x);
    assert f !in s'.fds;
    assert Stranded(s', x);
  }

  /** And which slot it is: that of a descriptor of the word that a worker has given back in between. */
  lemma StrandedExactly(slots: nat, workers: nat, events: seq<Event>, between: seq<Event>, x: Slot)
    requires MainReads(slots, workers, events, between) && x < slots
    ensures var s := DoMain(Run(Init(slots, workers), events));
      var s2 := DoMain(Run(s, between));
      && |s2.sock| == slots
      && (Stranded(s2, x) <==> s2.sock[x] != None && SameWord(s2.sock[x].value, s.main.fd) && SomeWriteOf(s, between, s2.sock[x].value))
  {
    var s := DoMain(Run(Init(slots, workers), events));
    var s1 := Run(s, between);
    ReadsAndWaits(slots, workers, events, between);
    WorkerSteps(s, between);
    StrandedHere(s1, x);
    if s1.sock[x] != None {
      WrittenSince(s, between, s1.sock[x].value);
    }
  }

  lemma StrandedHere(s: State, x: Slot)
    requires Inv(s) && s.main.Writing? && x < |s.sock|
    ensures var s' := DoMain(s);
      Stranded(s', x) <==> s.sock[x] != None && s.sock[x].value in Word(s.fds, s.main.fd) && s.sock[x].value !in s.main.word
  {
    var s' := DoMain(s);
    assert Accepted(s, s.main.fd);
    assert Busy(s', x) <==> Busy(s, x);
    if s.sock[x] != None {
      var f := s.sock[x].value;
      assert f in s'.fds <==> f == s.main.fd || f in s.main.word || (f in s.fds && !SameWord(f, s.main.fd));
    }
  }

  // ---- whether for good

  /** Whatever happens. */
  ghost predicate LostForGood(s: State, x: Slot) {
    forall more :: Stranded(Run(s, more), x)
  }

  /** What the main thread has in hand of the set. */
  function InMain(m: Main): set<Fd> {
    match m
    case Top => {}
    case Selecting(copy) => copy
    case Writing(ready, fd, word) => ready + word
    case _ => m.ready
  }

  /** The lock holder is about to write the descriptor back, with the word it has read. */
  predicate HeldByWriter(s: State, f: Fd) {
    exists w :: 0 <= w < |s.workers| && s.workers[w].Returning? && f in s.workers[w].word
  }

  /** A stranded slot whose descriptor no thread has in hand either. */
  ghost predicate Forgotten(s: State, x: Slot, f: Fd) {
    && Stranded(s, x) && x !in s.free && s.sock[x] == Some(f)
    && (forall y :: 0 <= y < |s.sock| && y != x ==> s.sock[y] != Some(f))
    && f !in InMain(s.main) && !Arrived(s, f) && !HeldByWriter(s, f)
    && !(s.main.Clearing? && s.main.slot == x)
  }

  lemma {:induction false} WithoutOthers(listed: seq<Slot>, slot: Slot, x: Slot)
    requires x in listed && x != slot
    ensures x in Without(listed, slot)
  {
    if listed[0] != slot && listed[0] != x {
      assert x in listed[1..];
      WithoutOthers(listed[1..], slot, x);
    }
  }

  lemma MainForgets(s: State, x: Slot, f: Fd)
    requires Forgotten(s, x, f)
    ensures Forgotten(DoMain(s), x, f)
  {
    if s.main.Visiting? && s.main.todo != [] && s.main.todo[0] != x {
      WithoutOthers(s.listed, s.main.todo[0], x);
    }
  }

  lemma WorkerForgets(s: State, e: Event, x: Slot, f: Fd)
    requires Forgotten(s, x, f) && e != MainStep
    ensures Forgotten(Do(s, e), x, f)
  {
  }

  /** No step of any thread brings it back, not even one that writes a word that is out of date. */
  lemma {:induction false} ForgottenForGood(s: State, events: seq<Event>, x: Slot, f: Fd)
    requires Forgotten(s, x, f)
    ensures Forgotten(Run(s, events), x, f)
  {
    if events != [] {
      var front, e := events[..|events| - 1], events[|events| - 1];
      ForgottenForGood(s, front, x, f);
      if e == MainStep {
        MainForgets(Run(s, front), x, f);
      } else {
        WorkerForgets(Run(s, front), e, x, f);
      }
    }
  }

  lemma ForgottenIsLost(s: State, x: Slot, f: Fd)
    requires Forgotten(s, x, f)
    ensures LostForGood(s, x)
  {
    forall more ensures Stranded(Run(s, more), x) {
      ForgottenForGood(s, more, x, f);
    }
  }

  /** When the main thread has written a word that is out of date, a slot is lost for good, whatever happens,
      exactly if it is stranded and no worker is about to write its descriptor back. */
  lemma LostForGoodExactly(slots: nat, workers: nat, events: seq<Event>, between: seq<Event>, x: Slot)
    requires MainReads(slots, workers, events, between) && x < slots
    ensures var s := DoMain(Run(Init(slots, workers), events));
      var s2 := DoMain(Run(s, between));
      && |s2.sock| == slots
      && (LostForGood(s2, x) <==>
          && s2.sock[x] != None && SameWord(s2.sock[x].value, s.main.fd) && SomeWriteOf(s, between, s2.sock[x].value)
          && !HeldByWriter(s2, s2.sock[x].value))
  {
    StrandedExactly(slots, workers, events, between, x);
    var s := DoMain(Run(Init(slots, workers), events));
    var s1 := Run(s, between);
    ReadsAndWaits(slots, workers, events, between);
    WorkerSteps(s, between);
    ForGoodIfForgotten(s, s1, x);
  }

  lemma ForGoodIfForgotten(s: State, s1: State, x: Slot)
    requires Inv(s) && Inv(s1) && s.main.Writing? && s.main.word == Word(s.fds, s.main.fd) && Meanwhile(s, s1)
    ensures var s2 := DoMain(s1);
      LostForGood(s2, x) <==> Stranded(s2, x) && !HeldByWriter(s2, s2.sock[x].value)
  {
    var s2 := DoMain(s1);
    if !Stranded(s2, x) {
      assert !Stranded(Run(s2, []), x);
    } else {
      var f := s2.sock[x].value;
      StrandedStays(s, s1, x);
      if HeldByWriter(s2, f) {
        BackInSet(s1, x, f);
      } else {
        ForgottenIsLost(s2, x, f);
      }
    }
  }

  lemma StrandedStays(s: State, s1: State, x: Slot)
    requires Inv(s) && Inv(s1) && s.main.Writing? && s.main.word == Word(s.fds, s.main.fd) && Meanwhile(s, s1)
    requires Stranded(DoMain(s1), x)
    ensures var s2 := DoMain(s1); HeldByWriter(s2, s2.sock[x].value) || Forgotten(s2, x, s2.sock[x].value)
  {
    StrandedHere(s1, x);
    assert Accepted(s1, s.main.fd);
    var f := s1.sock[x].value;
    assert f !in s.main.ready;
  }

  lemma WritesItBack(s: State, w: nat, x: Slot, f: Fd)
    requires WritesBack(s, w) && f in s.workers[w].word && x < |s.sock| && s.sock[x] == Some(f)
    ensures !Stranded(DoWriteBack(s, w), x)
  {
    assert f in DoWriteBack(s, w).fds;
  }

  lemma WritesAfterMain(s: State, w: nat)
    requires Inv(s) && s.main.Writing? && w < |s.workers| && s.workers[w].Returning?
    ensures WritesBack(DoMain(s), w)
  {
    assert Served(s.workers, s.workers[w].slot) && Busy(s, s.workers[w].slot);
  }

  lemma NotForGood(s: State, w: nat, x: Slot, f: Fd)
    requires WritesBack(s, w) && f in s.workers[w].word && x < |s.sock| && s.sock[x] == Some(f)
    ensures exists more :: !Stranded(Run(s, more), x)
  {
    WritesItBack(s, w, x, f);
    OneMoreEvent(s, [], WriteBack(w));
    assert !Stranded(Run(s, [] + [WriteBack(w)]), x);
  }

  lemma BackInSet(s: State, x: Slot, f: Fd)
    requires Inv(s) && s.main.Writing? && Stranded(DoMain(s), x) && s.sock[x] == Some(f) && HeldByWriter(DoMain(s), f)
    ensures exists more :: !Stranded(Run(DoMain(s), more), x)
  {
    var w: nat :| w < |s.workers| && s.workers[w].Returning? && f in s.workers[w].word;
    WritesAfterMain(s, w);
    NotForGood(DoMain(s), w, x, f);
  }

  // ---- and the other way round

  /** The main thread writes the word of `fd`. */
  predicate MainWrites(s: State, e: Event, fd: Fd) {
    e == MainStep && s.main.Writing? && SameWord(s.main.fd, fd)
  }

  predicate SomeMainWrite(s: State, events: seq<Event>, fd: Fd) {
    events != [] &&
    var front := events[..|events| - 1];
    SomeMainWrite(s, front, fd) || MainWrites(Run(s, front), events[|events| - 1], fd)
  }

  /** An open descriptor that is in no set, and that no thread has in hand, but to forget it. */
  ghost predicate Dropped(s: State, f: Fd) {
    && f in s.open && f !in s.fds && !Accepted(s, f)
    && forall x: Slot :: x < |s.sock| && s.sock[x] == Some(f) ==> !Busy(s, x) || InClose(s.workers, x)
  }

  lemma NothingDropped(s: State, f: Fd)
    requires Inv(s)
    ensures !Dropped(s, f)
  {
    if HasSlot(s.sock, f) {
      var x: Slot :| x < |s.sock| && s.sock[x] == Some(f);
      assert f !in s.fds ==> Busy(s, x);
    }
  }

  /** The worker `w` is in FD_SET. */
  ghost predicate InSet(s: State, w: nat, slot: Slot, fd: Fd) {
    Inv(s) && WritesBack(s, w) && s.workers[w].slot == slot && FdOf(s, w) == fd
  }

  /** What the worker has in hand is the same. */
  predicate SameHand(s: State, s': State, w: nat) {
    && |s'.workers| == |s.workers| && |s'.sock| == |s.sock|
    && Holds(s, w) && s'.workers[w] == s.workers[w]
    && s'.sock[SlotOf(s.workers[w]).value] == s.sock[SlotOf(s.workers[w]).value]
  }

  lemma MainLeavesHand(s: State, w: nat)
    requires Inv(s) && Holds(s, w)
    ensures SameHand(s, DoMain(s), w)
  {
    if s.main.Enlisting? && s.free != [] {
      assert s.free[0] in s.free;
    }
  }

  lemma OthersLeaveHand(s: State, e: Event, w: nat)
    requires Inv(s) && Holds(s, w) && s.workers[w].Returning? && e != MainStep && e != WriteBack(w)
    ensures SameHand(s, Do(s, e), w)
  {
    assert s.lock == Some(w);
    if e.Forget? && Forgets(s, e.w) {
      assert SlotOf(s.workers[e.w]) != SlotOf(s.workers[w]);
    }
  }

  /** Nobody else touches what that worker has in hand, or the lock. */
  lemma LockedStays(s: State, e: Event, w: nat, slot: Slot, fd: Fd)
    requires InSet(s, w, slot, fd) && e != WriteBack(w) && Current(s, e)
    ensures InSet(Do(s, e), w, slot, fd) && Do(s, e).workers[w] == s.workers[w]
  {
    InvKept(s, e);
    if e == MainStep {
      MainLeavesHand(s, w);
    } else {
      OthersLeaveHand(s, e, w);
    }
    assert SameHand(s, Do(s, e), w);
  }

  lemma LockedStep(s: State, e: Event, w: nat, slot: Slot, fd: Fd)
    requires InSet(s, w, slot, fd) && e != WriteBack(w) && Current(s, e)
    ensures s.fds <= Do(s, e).fds
    ensures MainWrites(s, e, fd) ==> s.main.fd in Word(Do(s, e).fds, fd) && s.main.fd !in s.fds
    ensures !MainWrites(s, e, fd) ==> Word(Do(s, e).fds, fd) == Word(s.fds, fd)
  {
    assert s.lock == Some(w);
    if e == MainStep && s.main.Writing? {
      WrittenCurrent(s.fds, s.main.fd);
      assert Accepted(s, s.main.fd);
    } else {
      assert Do(s, e).fds == s.fds;
    }
  }

  lemma {:induction false} LockedSteps(s: State, events: seq<Event>, w: nat, slot: Slot, fd: Fd)
    requires InSet(s, w, slot, fd) && WriteBack(w) !in events && Clean(s, events)
    ensures var s1 := Run(s, events);
      && InSet(s1, w, slot, fd) && s1.workers[w] == s.workers[w] && s.fds <= s1.fds
      && (Word(s1.fds, fd) != Word(s.fds, fd) <==> SomeMainWrite(s, events, fd))
  {
    if events != [] {
      var front, e := events[..|events| - 1], events[|events| - 1];
      LockedSteps(s, front, w, slot, fd);
      var s1 := Run(s, front);
      LockedStays(s1, e, w, slot, fd);
      LockedStep(s1, e, w, slot, fd);
      if MainWrites(s1, e, fd) {
        assert s1.main.fd !in Word(s.fds, fd);
      }
    }
  }

  /** A worker has read a word, the others go on, and it writes the word back: a descriptor is dropped exactly if
      the main thread has written that word in between, and otherwise the run stays clean. */
  lemma WorkerWriteLosesExactly(slots: nat, workers: nat, events: seq<Event>, w: nat, between: seq<Event>)
    requires Clean(Init(slots, workers), events) && WriteBack(w) !in between
    requires var s0 := Run(Init(slots, workers), events);
      Holds(s0, w) && s0.workers[w].Serving? && s0.lock == None && Clean(DoReadBack(s0, w), between)
    ensures var s := DoReadBack(Run(Init(slots, workers), events), w);
      var s2 := DoWriteBack(Run(s, between), w);
      && ((exists f :: Dropped(s2, f)) <==> SomeMainWrite(s, between, FdOf(s, w)))
      && (Current(Run(s, between), WriteBack(w)) <==> !SomeMainWrite(s, between, FdOf(s, w)))
  {
    InvReached(slots, workers, events);
    var s0 := Run(Init(slots, workers), events);
    var s := DoReadBack(s0, w);
    ReadBackKept(s0, w);
    var slot, fd := s.workers[w].slot, FdOf(s, w);
    LockedSteps(s, between, w, slot, fd);
    var s1 := Run(s, between);
    var s2 := DoWriteBack(s1, w);
    if Word(s1.fds, fd) == Word(s.fds, fd) {
      WriteBackKept(s1, w);
      forall f ensures !Dropped(s2, f) {
        NothingDropped(s2, f);
      }
    } else {
      assert Word(s.fds, fd) <= Word(s1.fds, fd);
      var f :| f in Word(s1.fds, fd) && f !in s.workers[w].word;
      DroppedByWorker(s1, w, f);
    }
  }

  lemma DroppedByWorker(s: State, w: nat, f: Fd)
    requires Inv(s) && WritesBack(s, w) && f in Word(s.fds, FdOf(s, w)) && f !in s.workers[w].word
    ensures Dropped(DoWriteBack(s, w), f)
  {
    var s' := DoWriteBack(s, w);
    var fd := FdOf(s, w);
    assert Served(s.workers, s.workers[w].slot) && Busy(s, s.workers[w].slot) && fd !in s.fds;
    assert f !in s'.fds;
    forall x: Slot | x < |s'.sock| && s'.sock[x] == Some(f) ensures !Busy(s', x) || InClose(s'.workers, x) {
      ServedUpdate(s.workers, w, Notifying, x);
      InCloseUpdate(s.workers, w, Notifying, x);
    }
  }

  // ---------------------------------------------------------------- connections without a slot

  lemma {:induction false} RunInParts(s: State, a: seq<Event>, b: seq<Event>)
    ensures Run(s, a + b) == Run(Run(s, a), b)
    ensures Clean(s, a + b) <==> Clean(s, a) && Clean(Run(s, a), b)
  {
    if b == [] {
      assert a + b == a;
    } else {
      assert (a + b)[..|a + b| - 1] == a + b[..|b| - 1];
      RunInParts(s, a, b[..|b| - 1]);
    }
  }

  lemma LeakedStays(s: State, e: Event)
    ensures s.leaked <= Do(s, e).leaked
  {
  }

  lemma {:induction false} LeakedAlways(s: State, events: seq<Event>)
    ensures s.leaked <= Run(s, events).leaked
  {
    if events != [] {
      LeakedAlways(s, events[..|events| - 1]);
      LeakedStays(Run(s, events[..|events| - 1]), events[|events| - 1]);
    }
  }

  /** An open descriptor without a slot, and not on its way to one. */
  predicate Slotless(s: State, f: Fd) {
    f in s.open && !HasSlot(s.sock, f) && !Arrived(s, f)
  }

  /** Nothing gives it a slot or closes it, whatever words are written. */
  lemma SlotlessStays(s: State, e: Event, f: Fd)
    requires Slotless(s, f)
    ensures Slotless(Do(s, e), f)
  {
  }

  lemma {:induction false} SlotlessAlways(s: State, events: seq<Event>, f: Fd)
    requires Slotless(s, f)
    ensures Slotless(Run(s, events), f)
  {
    if events != [] {
      SlotlessAlways(s, events[..|events| - 1], f);
      SlotlessStays(Run(s, events[..|events| - 1]), events[|events| - 1], f);
    }
  }

  /** A descriptor that has leaked stays open for good and never gets a slot, whatever happens; and it stays in the
      server's set as long as no word is written that is out of date. */
  lemma LeakedForGood(slots: nat, workers: nat, events: seq<Event>, more: seq<Event>, f: Fd)
    requires Clean(Init(slots, workers), events) && f in Run(Init(slots, workers), events).leaked
    ensures var s := Run(Init(slots, workers), events + more);
      && f in s.leaked && Slotless(s, f) && (Clean(Init(slots, workers), events + more) ==> f in s.fds)
  {
    var s := Run(Init(slots, workers), events);
    RunInParts(Init(slots, workers), events, more);
    LeakedAlways(s, more);
    InvReached(slots, workers, events);
    assert f in s.fds && !Arrived(s, f);
    SlotlessAlways(s, more, f);
    if Clean(Init(slots, workers), events + more) {
      InvReached(slots, workers, events + more);
    }
  }

  lemma EnlistedSlot(s: State)
    requires Inv(s) && s.main.Enlisting? && (s.free != [] || HalfClosed(s, s.main.fd))
    ensures HasSlot(DoMain(s).sock, s.main.fd)
  {
    if s.free != [] {
      assert s.free[0] in s.free;
      assert DoMain(s).sock[s.free[0]] == Some(s.main.fd);
    }
  }

  /** A new connection is never served and never closed, whatever happens, exactly if the pool is empty, and its
      descriptor is not that of another. */
  lemma LeaksExactly(slots: nat, workers: nat, events: seq<Event>)
    requires Clean(Init(slots, workers), events) && Run(Init(slots, workers), events).main.Enlisting?
    ensures var s := Run(Init(slots, workers), events);
      s.free == [] && !HalfClosed(s, s.main.fd) <==>
      forall more :: Slotless(Run(Init(slots, workers), events + [MainStep] + more), s.main.fd)
  {
    var i := Init(slots, workers);
    var s := Run(i, events);
    InvReached(slots, workers, events);
    OneMoreEvent(i, events, MainStep);
    if s.free == [] && !HalfClosed(s, s.main.fd) {
      forall more ensures Slotless(Run(i, events + [MainStep] + more), s.main.fd) {
        LeakedForGood(slots, workers, events + [MainStep], more, s.main.fd);
      }
    } else {
      EnlistedSlot(s);
      assert events + [MainStep] + [] == events + [MainStep];
      assert !Slotless(Run(i, events + [MainStep] + []), s.main.fd);
    }
  }

  // ---------------------------------------------------------------- descriptors that come back

  /** Two connections have one descriptor; or one has it, and another got no slot for it. */
  predicate Shared(s: State, fd: Fd) {
    || (exists x, y :: 0 <= x < y < |s.sock| && s.sock[x] == Some(fd) && s.sock[y] == Some(fd))
    || (fd in s.leaked && HasSlot(s.sock, fd))
  }

  /** While a descriptor is on its way, only slots it was closed for have it, and one of those at most. */
  ghost predicate OnItsWay(s: State, fd: Fd) {
    && Arrived(s, fd) && fd !in s.leaked
    && (forall x :: 0 <= x < |s.sock| && s.sock[x] == Some(fd) ==> InClose(s.workers, x))
    && (forall x, y :: 0 <= x < y < |s.sock| && s.sock[x] == Some(fd) ==> s.sock[x] != s.sock[y])
    && (forall x: Slot :: x in s.free ==> x < |s.sock| && s.sock[x] == None)
  }

  /** A worker sets the socket with that descriptor to -1. */
  predicate ForgetsFd(s: State, e: Event, fd: Fd) {
    e.Forget? && Holds(s, e.w) && s.workers[e.w].Closing? && FdOf(s, e.w) == fd
  }

  predicate SomeForget(s: State, events: seq<Event>, fd: Fd) {
    events != [] &&
    var front := events[..|events| - 1];
    SomeForget(s, front, fd) || ForgetsFd(Run(s, front), events[|events| - 1], fd)
  }

  /** The descriptor is on its way all the time. */
  predicate Underway(s: State, events: seq<Event>, fd: Fd) {
    Arrived(Run(s, events), fd) && (events == [] || Underway(s, events[..|events| - 1], fd))
  }

  /** Meanwhile sockets only become -1, by the worker that has closed them. */
  lemma WaySocks(s: State, e: Event, fd: Fd, x: Slot)
    requires OnItsWay(s, fd) && Arrived(Do(s, e), fd) && x < |s.sock|
    ensures |Do(s, e).sock| == |s.sock| && Do(s, e).leaked == s.leaked && Do(s, e).free == s.free
    ensures Do(s, e).sock[x] == s.sock[x] || Do(s, e).sock[x] == None
    ensures s.sock[x] == Some(fd) ==> (Do(s, e).sock[x] == None <==> ForgetsFd(s, e, fd))
    ensures Do(s, e).sock[x] == Some(fd) ==> InClose(Do(s, e).workers, x)
  {
    if Do(s, e).sock[x] == Some(fd) {
      var v :| 0 <= v < |s.workers| && s.workers[v] == Closing(x);
      assert Do(s, e).workers[v] == Closing(x);
    }
  }

  lemma WayStep(s: State, e: Event, fd: Fd)
    requires OnItsWay(s, fd) && Arrived(Do(s, e), fd)
    ensures OnItsWay(Do(s, e), fd)
    ensures HasSlot(Do(s, e).sock, fd) <==> HasSlot(s.sock, fd) && !ForgetsFd(s, e, fd)
  {
    var s' := Do(s, e);
    forall x: Slot | x < |s.sock|
      ensures |s'.sock| == |s.sock| && s'.leaked == s.leaked && s'.free == s.free
      ensures (s'.sock[x] == s.sock[x] || s'.sock[x] == None) && (s'.sock[x] == Some(fd) ==> InClose(s'.workers, x))
      ensures s.sock[x] == Some(fd) ==> (s'.sock[x] == None <==> ForgetsFd(s, e, fd))
    {
      WaySocks(s, e, fd, x);
    }
    SameSlots(s, e);
  }

  lemma {:induction false} WaySteps(s: State, events: seq<Event>, fd: Fd)
    requires OnItsWay(s, fd) && Underway(s, events, fd)
    ensures OnItsWay(Run(s, events), fd)
    ensures HasSlot(Run(s, events).sock, fd) <==> HasSlot(s.sock, fd) && !SomeForget(s, events, fd)
  {
    if events != [] {
      WaySteps(s, events[..|events| - 1], fd);
      WayStep(Run(s, events[..|events| - 1]), events[|events| - 1], fd);
    }
  }

  lemma SharedIfKept(s: State, fd: Fd)
    requires OnItsWay(s, fd) && s.main.Enlisting?
    ensures Shared(DoMain(s), fd) <==> HasSlot(s.sock, fd)
  {
    var s' := DoMain(s);
    if s.free != [] {
      var slot := s.free[0];
      assert slot in s.free;
      assert s'.sock == s.sock[slot := Some(fd)];
      if HasSlot(s.sock, fd) {
        var x :| 0 <= x < |s.sock| && s.sock[x] == Some(fd);
        var lower, upper := if x < slot then x else slot, if x < slot then slot else x;
        assert lower < upper && s'.sock[lower] == Some(fd) && s'.sock[upper] == Some(fd);
      }
    }
  }

  /** Accept returns the descriptor, and `more` leads to where its connection is about to be enlisted. */
  predicate ComesBack(s: State, fd: Fd, more: seq<Event>) {
    && s.main.Accepting? && fd !in s.open
    && Underway(DoAccept(s, fd), more, fd) && Run(DoAccept(s, fd), more).main.Enlisting?
  }

  /** A descriptor may come back from accept before the slot it was closed for knows. Whatever the workers do until
      its connection has been enlisted, whichever words are written: it then belongs to two connections exactly if
      the slot did not know when it came back, and has not been told since. */
  lemma ReuseSharesExactly(slots: nat, workers: nat, events: seq<Event>, fd: Fd, more: seq<Event>)
    requires Clean(Init(slots, workers), events) && ComesBack(Run(Init(slots, workers), events), fd, more)
    ensures var s := Run(Init(slots, workers), events);
      var s1 := DoAccept(s, fd);
      var s2 := Run(s1, more);
      && (Shared(DoMain(s2), fd) <==> HalfClosed(s2, fd))
      && (HalfClosed(s2, fd) <==> HalfClosed(s, fd) && !SomeForget(s1, more, fd))
  {
    InvReached(slots, workers, events);
    var s := Run(Init(slots, workers), events);
    var s1 := DoAccept(s, fd);
    AcceptKept(s, fd);
    assert Accepted(s1, fd);
    assert HasSlot(s.sock, fd) <==> HalfClosed(s, fd);
    WaySteps(s1, more, fd);
    SharedIfKept(Run(s1, more), fd);
  }

  // ---------------------------------------------------------------- runs that show it

  /** One more event, given where the run stands and where it leads. */
  lemma Then(i: State, events: seq<Event>, e: Event, s: State, s': State)
    requires Run(i, events) == s && Do(s, e) == s'
    ensures Run(i, events + [e]) == s' && (Clean(i, events + [e]) <==> Clean(i, events) && Current(s, e))
  {
    OneMoreEvent(i, events, e);
  }

  /** From the top to a new descriptor whose word has been read. */
  function Arriving(events: seq<Event>, fd: Fd): seq<Event> {
    events + [MainStep] + [Select({}, true)] + [Accept(fd)] + [MainStep]
  }

  lemma AcceptRun(i: State, events: seq<Event>, s: State, fd: Fd)
    requires Run(i, events) == s && s.main == Top && s.lock == None && fd !in s.open
    ensures Run(i, Arriving(events, fd)) == s.(open := s.open + {fd}, main := Writing({}, fd, Word(s.fds, fd)))
    ensures Clean(i, events) && !HalfClosed(s, fd) ==> Clean(i, Arriving(events, fd))
  {
    var s1, s2, o := s.(main := Selecting(s.fds)), s.(main := Accepting({})), s.open + {fd};
    var s3 := s.(open := o, main := Reading({}, fd));
    Then(i, events, MainStep, s, s1);
    Then(i, events + [MainStep], Select({}, true), s1, s2);
    Then(i, events + [MainStep] + [Select({}, true)], Accept(fd), s2, s3);
    Then(i, events + [MainStep] + [Select({}, true)] + [Accept(fd)], MainStep, s3,
         s.(open := o, main := Writing({}, fd, Word(s.fds, fd))));
  }

  /** And on, until it stands before the list. */
  lemma EnlistRun(i: State, events: seq<Event>, s: State, fd: Fd)
    requires Run(i, events) == s && s.main == Top && s.lock == None && fd !in s.open
    ensures var all := Arriving(events, fd) + [MainStep];
      && Run(i, all) == s.(open := s.open + {fd}, fds := s.fds + {fd}, main := Enlisting({}, fd))
      && (Clean(i, events) && !HalfClosed(s, fd) ==> Clean(i, all))
  {
    AcceptRun(i, events, s, fd);
    WrittenCurrent(s.fds, fd);
    OneMoreEvent(i, Arriving(events, fd), MainStep);
  }

  /** A visit of the only slot, whose socket is not ready. */
  function Quiet(events: seq<Event>): seq<Event> {
    events + [MainStep] + [MainStep] + [MainStep]
  }

  lemma QuietRun(i: State, events: seq<Event>, s: State)
    requires Run(i, events) == s.(main := Visiting({}, [0])) && |s.sock| == 1 && s.sock[0] != None && s.main == Top
    ensures Run(i, Quiet(events)) == s && (Clean(i, events) ==> Clean(i, Quiet(events)))
  {
    assert [0][1..] == [];
    Then(i, events, MainStep, s.(main := Visiting({}, [0])), s.(main := Testing({}, [], 0)));
    Then(i, events + [MainStep], MainStep, s.(main := Testing({}, [], 0)), s.(main := Visiting({}, [])));
    Then(i, events + [MainStep] + [MainStep], MainStep, s.(main := Visiting({}, [])), s);
  }

  /** From the top, the only slot's socket is ready, and a task for it is queued. */
  function Dispatching(events: seq<Event>): seq<Event> {
    events + [MainStep] + [Select({3}, false)] + [MainStep] + [MainStep] + [MainStep] + [MainStep]
  }

  ghost predicate OneReady(s: State) {
    s.main == Top && s.lock == None && s.listed == [0] && s.sock == [Some(3)] && s.fds == {3}
  }

  lemma VisitReady(s: State)
    requires OneReady(s)
    ensures var r := {3};
      && DoMain(s.(main := Visiting(r, [0]))) == s.(main := Testing(r, [], 0))
      && DoMain(s.(main := Testing(r, [], 0))) == s.(main := Clearing(r, [], 0))
      && DoMain(s.(main := Clearing(r, [], 0))) == s.(fds := {}, main := Adding(r, [], 0))
  {
    assert [0][1..] == [] && {3} - {3} == {};
  }

  lemma DispatchRun(i: State, events: seq<Event>, s: State)
    requires Run(i, events) == s && OneReady(s)
    ensures Run(i, Dispatching(events)) == s.(fds := {}, tasks := s.tasks + [0], main := Visiting({3}, []))
    ensures Clean(i, events) ==> Clean(i, Dispatching(events))
  {
    var r := {3};
    var e := events + [MainStep] + [Select(r, false)];
    VisitReady(s);
    Then(i, events, MainStep, s, s.(main := Selecting(r)));
    Then(i, events + [MainStep], Select(r, false), s.(main := Selecting(r)), s.(main := Visiting(r, [0])));
    Then(i, e, MainStep, s.(main := Visiting(r, [0])), s.(main := Testing(r, [], 0)));
    Then(i, e + [MainStep], MainStep, s.(main := Testing(r, [], 0)), s.(main := Clearing(r, [], 0)));
    var s1 := s.(fds := {}, main := Adding(r, [], 0));
    Then(i, e + [MainStep] + [MainStep], MainStep, s.(main := Clearing(r, [], 0)), s1);
    Then(i, e + [MainStep] + [MainStep] + [MainStep], MainStep, s1,
         s.(fds := {}, tasks := s.tasks + [0], main := Visiting(r, [])));
  }

  /** One slot, taken by descriptor 3; the main thread is back at the top. */
  function OneTaken(): State {
    State([], [0], [Some(3)], {3}, {3}, {}, [], None, Top, [Idle])
  }

  function TakenEvents(): seq<Event> {
    Quiet(Arriving([], 3) + [MainStep] + [MainStep])
  }

  lemma EnlistFirst(s: State)
    requires s == Init(1, 1).(open := Init(1, 1).open + {3}, fds := Init(1, 1).fds + {3}, main := Enlisting({}, 3))
    ensures DoMain(s) == OneTaken().(main := Visiting({}, [0]))
  {
    assert s.open == {3} && s.fds == {3};
    assert s.free == [0] && s.sock == [None] && s.workers == [Idle];
    assert s.free[1..] == [] && s.sock[0 := Some(3)] == [Some(3)] && s.listed + [0] == [0];
  }

  lemma TakenRun()
    ensures Clean(Init(1, 1), TakenEvents()) && Run(Init(1, 1), TakenEvents()) == OneTaken()
  {
    var i, e := Init(1, 1), Arriving([], 3) + [MainStep];
    EnlistRun(i, [], i, 3);
    EnlistFirst(Run(i, e));
    Then(i, e, MainStep, Run(i, e), OneTaken().(main := Visiting({}, [0])));
    QuietRun(i, e + [MainStep], OneTaken());
  }

  /** The slot is served; the main thread is at the top. */
  function OneServed(): State {
    OneTaken().(fds := {}, workers := [Serving(0)])
  }

  function ServedEvents(): seq<Event> {
    Dispatching(TakenEvents()) + [MainStep] + [Pop(0)]
  }

  lemma PopFirst(s: State)
    requires s == OneTaken().(fds := {}, tasks := [0])
    ensures DoPop(s, 0) == OneServed()
  {
    assert [0][1..] == [] && [Idle][0 := Serving(0)] == [Serving(0)];
  }

  lemma QueuedRun()
    ensures Run(Init(1, 1), Dispatching(TakenEvents())) == OneTaken().(fds := {}, tasks := [0], main := Visiting({3}, []))
  {
    TakenRun();
    DispatchRun(Init(1, 1), TakenEvents(), OneTaken());
    assert OneTaken().tasks + [0] == [0];
  }

  lemma ServedRun()
    ensures Run(Init(1, 1), ServedEvents()) == OneServed()
  {
    var i, e := Init(1, 1), Dispatching(TakenEvents());
    var s := OneTaken().(fds := {}, tasks := [0]);
    QueuedRun();
    TopAndPop(i, e, s);
    PopFirst(s);
  }

  lemma TopAndPop(i: State, events: seq<Event>, s: State)
    requires Run(i, events) == s.(main := Visiting({3}, [])) && s.main == Top
    ensures Run(i, events + [MainStep] + [Pop(0)]) == DoPop(s, 0)
  {
    OneMoreEvent(i, events, MainStep);
    OneMoreEvent(i, events + [MainStep], Pop(0));
  }

  /** The race for a word: the main thread has read it for descriptor 4, the worker gives back descriptor 3, and
      the main thread writes it. */
  lemma RaceStrands(s: State)
    requires s == OneServed().(open := {3, 4}, main := Writing({}, 4, {}))
    ensures Forgotten(DoMain(DoWriteBack(DoReadBack(s, 0), 0)), 0, 3)
  {
    assert Word({}, 3) == {};
    var s1 := DoReadBack(s, 0);
    assert s1.workers == [Returning(0, {})];
    var s2 := DoWriteBack(s1, 0);
    assert s2.fds == {3} && s2.workers == [Notifying];
    var s3 := DoMain(s2);
    assert SameWord(3, 4) && 3 in Word({3}, 4) && 3 !in s3.fds;
  }

  lemma LastThree(i: State, events: seq<Event>)
    ensures Run(i, events + [ReadBack(0)] + [WriteBack(0)] + [MainStep])
         == DoMain(DoWriteBack(DoReadBack(Run(i, events), 0), 0))
  {
    OneMoreEvent(i, events, ReadBack(0));
    OneMoreEvent(i, events + [ReadBack(0)], WriteBack(0));
    OneMoreEvent(i, events + [ReadBack(0)] + [WriteBack(0)], MainStep);
  }

  lemma RaceRun()
    ensures Run(Init(1, 1), Arriving(ServedEvents(), 4)) == OneServed().(open := {3, 4}, main := Writing({}, 4, {}))
  {
    ServedRun();
    AcceptRun(Init(1, 1), ServedEvents(), OneServed(), 4);
    assert {3} + {4} == {3, 4} && Word({}, 4) == {};
  }

  /** A run from the start, then, that loses a slot for good. */
  lemma CanStrand()
    ensures exists events :: LostForGood(Run(Init(1, 1), events), 0)
  {
    var i, e := Init(1, 1), Arriving(ServedEvents(), 4);
    RaceRun();
    RaceStrands(Run(i, e));
    LastThree(i, e);
    var events := e + [ReadBack(0)] + [WriteBack(0)] + [MainStep];
    ForgottenIsLost(Run(i, events), 0, 3);
  }

  /** A second connection finds the pool empty, and leaks. */
  lemma CanLeak()
    ensures exists events :: Clean(Init(1, 1), events) && Run(Init(1, 1), events).main.Enlisting? && Run(Init(1, 1), events).free == []
  {
    TakenRun();
    assert !HalfClosed(OneTaken(), 4);
    EnlistRun(Init(1, 1), TakenEvents(), OneTaken(), 4);
    var events := Arriving(TakenEvents(), 4) + [MainStep];
    assert Run(Init(1, 1), events).free == [];
  }

  /** The worker has closed descriptor 3, which has come back for a connection without a slot. */
  function OneReused(): State {
    OneTaken().(leaked := {3}, workers := [Closing(0)])
  }

  function OneClosed(): State {
    OneServed().(open := {}, workers := [Closing(0)])
  }

  function ReusedEvents(): seq<Event> {
    Quiet(Arriving(ServedEvents() + [Close(0)], 3) + [MainStep] + [MainStep])
  }

  lemma ClosedRun()
    ensures Run(Init(1, 1), ServedEvents() + [Close(0)]) == OneClosed()
  {
    ServedRun();
    assert {3} - {3} == {} && [Serving(0)][0 := Closing(0)] == [Closing(0)];
    Then(Init(1, 1), ServedEvents(), Close(0), OneServed(), OneClosed());
  }

  lemma LeakReused(s: State)
    requires s == OneClosed().(open := OneClosed().open + {3}, fds := OneClosed().fds + {3}, main := Enlisting({}, 3))
    ensures DoMain(s) == OneReused().(main := Visiting({}, [0]))
  {
    assert s.open == {3} && s.fds == {3} && s.leaked + {3} == {3};
  }

  lemma ReusedRun()
    ensures Run(Init(1, 1), ReusedEvents()) == OneReused()
  {
    var i, e := Init(1, 1), Arriving(ServedEvents() + [Close(0)], 3) + [MainStep];
    ClosedRun();
    EnlistRun(i, ServedEvents() + [Close(0)], OneClosed(), 3);
    LeakReused(Run(i, e));
    Then(i, e, MainStep, Run(i, e), OneReused().(main := Visiting({}, [0])));
    QuietRun(i, e + [MainStep], OneReused());
  }

  /** A slot is told in time: the descriptor has come back before, and the slot does not know. */
  ghost predicate ToldInTime(s: State, more: seq<Event>, fd: Fd) {
    && s.main.Accepting? && fd !in s.open && HalfClosed(s, fd)
    && var s2 := Run(DoAccept(s, fd), more); Enlisted(s2, fd) && !Shared(DoMain(s2), fd)
  }

  lemma ForgetsInTime(s: State)
    requires s == OneClosed().(main := Accepting({}))
    ensures ToldInTime(s, [] + [Forget(0)] + [MainStep] + [MainStep], 3)
  {
    var s1 := DoAccept(s, 3);
    var s2 := s1.(sock := [None], workers := [Idle]);
    assert s.workers[0] == Closing(0) && s.sock[0] == Some(3);
    assert s1.sock[0 := None] == [None] && s1.workers[0 := Idle] == [Idle];
    Then(s1, [], Forget(0), s1, s2);
    Then(s1, [] + [Forget(0)], MainStep, s2, DoMain(s2));
    Then(s1, [] + [Forget(0)] + [MainStep], MainStep, DoMain(s2), DoMain(DoMain(s2)));
  }

  /** A run from the start in which it is. */
  lemma CanForgetInTime()
    ensures exists events, more :: ToldInTime(Run(Init(1, 1), events), more, 3)
  {
    var i, e := Init(1, 1), ServedEvents() + [Close(0)];
    var s := OneClosed();
    ClosedRun();
    Then(i, e, MainStep, s, s.(main := Selecting({})));
    Then(i, e + [MainStep], Select({}, true), s.(main := Selecting({})), s.(main := Accepting({})));
    ForgetsInTime(s.(main := Accepting({})));
    assert ToldInTime(Run(i, e + [MainStep] + [Select({}, true)]), [] + [Forget(0)] + [MainStep] + [MainStep], 3);
  }

  /** It is then taken for that of the old slot: a second task for a slot is queued while the first one runs. */
  lemma CanDispatchTwice()
    ensures exists events :: var s := Run(Init(1, 1), events); 0 in s.tasks && Served(s.workers, 0)
  {
    ReusedRun();
    DispatchRun(Init(1, 1), ReusedEvents(), OneReused());
    var s := Run(Init(1, 1), Dispatching(ReusedEvents()));
    assert s.tasks == [0] && s.workers == [Closing(0)];
    assert SlotOf(s.workers[0]) == Some(0);
  }
}
