/** The life of a Ctx under any number of threads: the read/write lock, the
  module pointer, the count of blocking waits, and the library behind them
  (cryptoki/binding.go, lifecycle.go, slot.go). A step is one atomic action of
  one thread; a run is any sequence of steps. */
module Lifecycle {
  import opened Common

  type Tid = nat

  datatype Op = Call | Wait(blocking: bool) | Initialize | Finalize | Destroy

  /** Where a thread stands. */
  datatype Pc =
    | Idle
    | WantRead(op: Op)                     // before RLock
    | Reading(op: Op)                      // RLock held, pointer not yet checked
    | InCall                               // in an ordinary native function, RLock held
    | Leaving                              // about to RUnlock
    | Grabbed(blocking: bool)              // WaitForSlotEvent after grab
    | Registered(blocking: bool)           // after waiters.Add, RLock still held
    | Counted(blocking: bool)              // lock dropped, native wait not yet entered
    | Waiting(blocking: bool, woken: bool) // in C_WaitForSlotEvent
    | Returned                             // native wait returned, before waiters.Done
    | WantWrite(op: Op)                    // before Lock
    | Writing(op: Op)                      // Lock held, pointer not yet checked
    | InInitialize
    | InFinalize
    | Draining                             // Destroy in waiters.Wait
    | Closing                              // library unloaded, pointer not yet cleared
    | Unlocking                            // about to Unlock

  /** The fields of the Ctx and the library behind it. */
  datatype Shared = Shared(
    readers: int,
    writer: bool,
    pointer: bool,     // c.module is not nil
    waiters: int,
    loaded: bool,      // the shared library is mapped
    initialised: bool)

  datatype State = State(threads: map<Tid, Pc>, g: Shared)

  /** One action: a thread starts an operation, a slot event reaches a native
      wait, or a thread advances; `ok` is what a native function returns. */
  datatype Action = Begin(op: Op) | Event | Advance(ok: bool)

  /** What an action does: the thread's new position, the new shared fields,
      and whether every native wait is woken. */
  datatype Effect = Blocked | Effect(pc: Pc, g: Shared, wake: bool)

  function Woken(pc: Pc): Pc {
    if pc.Waiting? then pc.(woken := true) else pc
  }

  /** C_Finalize wakes every native wait. */
  function WakeAll(threads: map<Tid, Pc>): map<Tid, Pc> {
    map t | t in threads :: Woken(threads[t])
  }

  function Do(pc: Pc, g: Shared, a: Action): Effect {
    match a
    case Begin(op) =>
      if pc != Idle then Blocked
      else Effect(if op.Call? || op.Wait? then WantRead(op) else WantWrite(op), g, false)
    case Event => if pc.Waiting? then Effect(Woken(pc), g, false) else Blocked
    case Advance(ok) => Go(pc, g, ok)
  }

  function Go(pc: Pc, g: Shared, ok: bool): Effect {
    match pc
    case Idle => Blocked
    case WantRead(op) => if g.writer then Blocked else Effect(Reading(op), g.(readers := g.readers + 1), false)
    case Reading(op) =>
      Effect(if !g.pointer then Leaving else if op.Wait? then Grabbed(op.blocking) else InCall, g, false)
    case InCall => Effect(Leaving, g, false)
    case Leaving => Effect(Idle, g.(readers := g.readers - 1), false)
    case Grabbed(b) => Effect(Registered(b), g.(waiters := g.waiters + 1), false)
    case Registered(b) => Effect(Counted(b), g.(readers := g.readers - 1), false)
    case Counted(b) => Effect(Waiting(b, !g.initialised), g, false)
    case Waiting(b, woken) => if b && !woken then Blocked else Effect(Returned, g, false)
    case Returned => Effect(Idle, g.(waiters := g.waiters - 1), false)
    case WantWrite(op) => if g.writer || g.readers != 0 then Blocked else Effect(Writing(op), g.(writer := true), false)
    case Writing(op) =>
      Effect(if !g.pointer then Unlocking
             else if op.Initialize? then InInitialize else if op.Finalize? then InFinalize else Draining, g, false)
    case InInitialize => Effect(Unlocking, g.(initialised := g.initialised || ok), false)
    case InFinalize => Effect(Unlocking, g.(initialised := g.initialised && !ok), ok)
    case Draining => if g.waiters != 0 then Blocked else Effect(Closing, g.(loaded := false, initialised := false), false)
    case Closing => Effect(Unlocking, g.(pointer := false), false)
    case Unlocking => Effect(Idle, g.(writer := false), false)
  }

  /** The step of thread t, None when the action is not possible now. */
  function Apply(s: State, t: Tid, a: Action): Option<State> {
    if t !in s.threads then None
    else
      var e := Do(s.threads[t], s.g, a);
      if e.Blocked? then None
      else Some(State((if e.wake then WakeAll(s.threads) else s.threads)[t := e.pc], e.g))
  }

  /** A freshly loaded Ctx. */
  predicate Initial(s: State) {
    && (forall t | t in s.threads :: s.threads[t] == Idle)
    && s.g == Shared(0, false, true, 0, true, false)
  }

  type Run = seq<(Tid, Action)>

  /** The state after a run, if every action of it is possible. */
  function Exec(s: State, run: Run): Option<State> {
    if run == [] then Some(s)
    else
      match Exec(s, run[..|run| - 1])
      case None => None
      case Some(m) => Apply(m, run[|run| - 1].0, run[|run| - 1].1)
  }

  predicate HoldsRead(pc: Pc) {
    pc.Reading? || pc.InCall? || pc.Leaving? || pc.Grabbed? || pc.Registered?
  }

  predicate HoldsWrite(pc: Pc) {
    pc.Writing? || pc.InInitialize? || pc.InFinalize? || pc.Draining? || pc.Closing? || pc.Unlocking?
  }

  /** The thread is counted by the waiter group. */
  predicate IsWaiter(pc: Pc) {
    pc.Registered? || pc.Counted? || pc.Waiting? || pc.Returned?
  }

  /** The thread holds a module pointer it may still execute in, or executes
      native code now. */
  predicate UsesLibrary(pc: Pc) {
    pc.InCall? || pc.Grabbed? || IsWaiter(pc) || pc.InInitialize? || pc.InFinalize? || pc.Draining?
  }

  function Those(threads: map<Tid, Pc>, p: Pc -> bool): set<Tid> {
    set t | t in threads && p(threads[t])
  }

  predicate Closed(s: State) {
    exists t | t in s.threads :: s.threads[t].Closing?
  }

  /** The counts of the lock and the waiter group are the numbers of threads at
      the corresponding positions. */
  predicate CountsMatch(s: State) {
    && s.g.readers == |Those(s.threads, HoldsRead)|
    && |Those(s.threads, HoldsWrite)| == (if s.g.writer then 1 else 0)
    && (s.g.writer ==> s.g.readers == 0)
    && s.g.waiters == |Those(s.threads, IsWaiter)|
  }

  /** What a thread's position says about the library. */
  predicate Fits(g: Shared, pc: Pc) {
    && (UsesLibrary(pc) ==> g.loaded)
    && (pc.Closing? ==> !g.loaded)
    && (pc.Waiting? && !pc.woken ==> g.initialised)
  }

  predicate Inv(s: State) {
    && CountsMatch(s)
    && (forall t | t in s.threads :: Fits(s.g, s.threads[t]))
    && (s.g.pointer && !s.g.loaded ==> Closed(s))
  }

  // ---- Counting ---------------------------------------------------------

  function One(b: bool): int {
    if b then 1 else 0
  }

  lemma Moves(threads: map<Tid, Pc>, t: Tid, pc: Pc, p: Pc -> bool)
    requires t in threads
    ensures |Those(threads[t := pc], p)| == |Those(threads, p)| - One(p(threads[t])) + One(p(pc))
  {
    var before, after := Those(threads, p), Those(threads[t := pc], p);
    Without(before, t);
    Without(after, t);
    assert after - {t} == before - {t};
  }

  lemma Without(s: set<Tid>, t: Tid)
    ensures |s - {t}| == |s| - if t in s then 1 else 0
  {
    if t !in s {
      assert s - {t} == s;
    }
  }

  lemma Wakes(threads: map<Tid, Pc>, p: Pc -> bool)
    requires forall pc :: p(Woken(pc)) == p(pc)
    ensures Those(WakeAll(threads), p) == Those(threads, p)
  {
  }

  lemma AtLeastOne(threads: map<Tid, Pc>, t: Tid, p: Pc -> bool)
    requires t in threads && p(threads[t])
    ensures t in Those(threads, p) && |Those(threads, p)| >= 1
  {
  }

  lemma OnlyOne(threads: map<Tid, Pc>, t: Tid, u: Tid, p: Pc -> bool)
    requires t in threads && p(threads[t]) && u in threads && p(threads[u])
    requires |Those(threads, p)| == 1
    ensures t == u
  {
    var rest := Those(threads, p) - {t};
    assert t in Those(threads, p) && |rest| == 0;
    assert u in rest || u == t;
  }

  // ---- Safety -----------------------------------------------------------

  lemma AllMoves(threads: map<Tid, Pc>, t: Tid, pc: Pc)
    requires t in threads
    ensures |Those(threads[t := pc], HoldsRead)| ==
            |Those(threads, HoldsRead)| - One(HoldsRead(threads[t])) + One(HoldsRead(pc))
    ensures |Those(threads[t := pc], HoldsWrite)| ==
            |Those(threads, HoldsWrite)| - One(HoldsWrite(threads[t])) + One(HoldsWrite(pc))
    ensures |Those(threads[t := pc], IsWaiter)| ==
            |Those(threads, IsWaiter)| - One(IsWaiter(threads[t])) + One(IsWaiter(pc))
  {
    Moves(threads, t, pc, HoldsRead);
    Moves(threads, t, pc, HoldsWrite);
    Moves(threads, t, pc, IsWaiter);
  }

  /** What a thread's position says about the counts. */
  lemma Basics(s: State, t: Tid)
    requires CountsMatch(s) && t in s.threads
    ensures HoldsRead(s.threads[t]) ==> s.g.readers >= 1 && !s.g.writer
    ensures HoldsWrite(s.threads[t]) ==> s.g.writer
    ensures IsWaiter(s.threads[t]) ==> s.g.waiters >= 1
  {
    if HoldsRead(s.threads[t]) {
      AtLeastOne(s.threads, t, HoldsRead);
    }
    if HoldsWrite(s.threads[t]) {
      AtLeastOne(s.threads, t, HoldsWrite);
    }
    if IsWaiter(s.threads[t]) {
      AtLeastOne(s.threads, t, IsWaiter);
    }
  }

  /** Readers and a writer exclude each other, and there is one writer. */
  lemma Exclusive(s: State, t: Tid, u: Tid)
    requires CountsMatch(s) && t in s.threads && u in s.threads && t != u && HoldsWrite(s.threads[t])
    ensures !HoldsRead(s.threads[u]) && !HoldsWrite(s.threads[u])
  {
    Basics(s, t);
    Basics(s, u);
    if HoldsWrite(s.threads[u]) {
      OnlyOne(s.threads, t, u, HoldsWrite);
    }
  }

  predicate CountsChange(g: Shared, g': Shared, from: Pc, to: Pc) {
    && g'.readers == g.readers + One(HoldsRead(to)) - One(HoldsRead(from))
    && One(g'.writer) == One(g.writer) + One(HoldsWrite(to)) - One(HoldsWrite(from))
    && g'.waiters == g.waiters + One(IsWaiter(to)) - One(IsWaiter(from))
    && (g'.writer ==> g'.readers == 0)
  }

  /** The counters follow the thread's position. */
  lemma DoChanges(pc: Pc, g: Shared, a: Action)
    requires Do(pc, g, a).Effect? && (g.writer ==> g.readers == 0)
    requires (HoldsRead(pc) ==> !g.writer) && (HoldsWrite(pc) ==> g.writer)
    ensures CountsChange(g, Do(pc, g, a).g, pc, Do(pc, g, a).pc)
  {
    if a.Advance? {
      if HoldsWrite(pc) {
      } else if HoldsRead(pc) {
      } else {
      }
    }
  }

  lemma CountsStep(s: State, t: Tid, a: Action)
    requires CountsMatch(s) && Apply(s, t, a).Some?
    ensures CountsMatch(Apply(s, t, a).value)
  {
    var e := Do(s.threads[t], s.g, a);
    Basics(s, t);
    DoChanges(s.threads[t], s.g, a);
    Wakes(s.threads, HoldsRead);
    Wakes(s.threads, HoldsWrite);
    Wakes(s.threads, IsWaiter);
    AllMoves(if e.wake then WakeAll(s.threads) else s.threads, t, e.pc);
  }

  /** A thread with a lock sees a module pointer only while the library is
      loaded, except the one that has just unloaded it. */
  lemma PointerMeansLoaded(s: State, t: Tid)
    requires Inv(s) && t in s.threads && s.g.pointer
    requires HoldsRead(s.threads[t]) || (HoldsWrite(s.threads[t]) && !s.threads[t].Closing?)
    ensures s.g.loaded
  {
    if !s.g.loaded {
      var w :| w in s.threads && s.threads[w].Closing?;
      Exclusive(s, w, t);
    }
  }

  /** The stepping thread fits the library state it leaves. */
  lemma OwnStep(pc: Pc, g: Shared, a: Action)
    requires Do(pc, g, a).Effect? && Fits(g, pc)
    requires g.pointer && (pc.Reading? || pc.Writing?) ==> g.loaded
    ensures Fits(Do(pc, g, a).g, Do(pc, g, a).pc)
  {
  }

  /** So does every other thread, which is woken when C_Finalize wakes all. */
  lemma OtherStep(pc: Pc, g: Shared, a: Action, other: Pc)
    requires Do(pc, g, a).Effect? && Fits(g, other)
    requires HoldsWrite(pc) ==> !HoldsRead(other) && !HoldsWrite(other)
    requires IsWaiter(other) ==> g.waiters >= 1
    ensures Fits(Do(pc, g, a).g, if Do(pc, g, a).wake then Woken(other) else other)
  {
  }

  /** Every step of every thread keeps the invariant. */
  lemma InvStep(s: State, t: Tid, a: Action)
    requires Inv(s) && Apply(s, t, a).Some?
    ensures Inv(Apply(s, t, a).value)
  {
    CountsStep(s, t, a);
    var s' := Apply(s, t, a).value;
    forall u | u in s'.threads ensures Fits(s'.g, s'.threads[u]) {
      if u == t {
        if s.g.pointer && (s.threads[t].Reading? || s.threads[t].Writing?) {
          PointerMeansLoaded(s, t);
        }
        OwnStep(s.threads[t], s.g, a);
      } else {
        Basics(s, u);
        if HoldsWrite(s.threads[t]) {
          Exclusive(s, t, u);
        }
        OtherStep(s.threads[t], s.g, a, s.threads[u]);
      }
    }
    if s'.g.pointer && !s'.g.loaded {
      StillClosed(s, t, a);
    }
  }

  lemma StillClosed(s: State, t: Tid, a: Action)
    requires Inv(s) && Apply(s, t, a).Some? && Apply(s, t, a).value.g.pointer && !Apply(s, t, a).value.g.loaded
    ensures Closed(Apply(s, t, a).value)
  {
    var s' := Apply(s, t, a).value;
    if s.g.loaded {
      assert s'.threads[t].Closing?;
    } else {
      var w :| w in s.threads && s.threads[w].Closing?;
      if w != t && HoldsWrite(s.threads[t]) {
        Exclusive(s, t, w);
      }
      assert w in s'.threads && s'.threads[w].Closing?;
    }
  }

  /** Every reachable state satisfies the invariant. */
  lemma {:induction false} Reachable(s: State, run: Run)
    requires Initial(s) && Exec(s, run).Some?
    ensures Inv(Exec(s, run).value)
  {
    if run == [] {
      assert Those(s.threads, HoldsRead) == {} == Those(s.threads, HoldsWrite) == Those(s.threads, IsWaiter);
    } else {
      Reachable(s, run[..|run| - 1]);
      InvStep(Exec(s, run[..|run| - 1]).value, run[|run| - 1].0, run[|run| - 1].1);
    }
  }

  /** Over every interleaving: the library is never unloaded under a thread
      that holds a module pointer it may still execute in. */
  lemma {:induction false} NeverUnloadedUnderUser(s: State, run: Run, t: Tid)
    requires Initial(s) && Exec(s, run).Some? && t in Exec(s, run).value.threads
    requires UsesLibrary(Exec(s, run).value.threads[t])
    ensures Exec(s, run).value.g.loaded
  {
    Reachable(s, run);
  }
}
