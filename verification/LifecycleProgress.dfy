/** Progress of the Ctx life cycle: a parked wait never holds up Finalize, and
  Destroy before Finalize is the only way to stop the whole Ctx. */
module LifecycleProgress {
  import opened Common
  import opened Lifecycle

  /** No thread can advance; only a slot event or a new operation could change
      anything. */
  predicate Stuck(s: State) {
    forall t | t in s.threads :: Go(s.threads[t], s.g, true).Blocked?
  }

  predicate Queued(pc: Pc) {
    pc.WantRead? || pc.WantWrite?
  }

  predicate Parked(pc: Pc) {
    pc.Waiting? && pc.blocking && !pc.woken
  }

  lemma SomeThread(threads: map<Tid, Pc>, p: Pc -> bool) returns (t: Tid)
    requires |Those(threads, p)| > 0
    ensures t in threads && p(threads[t])
  {
    t :| t in Those(threads, p);
  }

  lemma NoThread(threads: map<Tid, Pc>, p: Pc -> bool)
    requires forall t | t in threads :: !p(threads[t])
    ensures |Those(threads, p)| == 0
  {
    assert Those(threads, p) == {};
  }

  /** Once no thread holds the lock, Finalize runs to its end alone and wakes
      every parked wait, whatever number of them there is. */
  lemma FinalizeWakesParked(s: State, f: Tid) returns (run: Run)
    requires Inv(s) && s.g.pointer && f in s.threads && s.threads[f] == WantWrite(Finalize)
    requires forall t | t in s.threads :: !HoldsRead(s.threads[t]) && !HoldsWrite(s.threads[t])
    ensures |run| == 4 && (forall i | 0 <= i < |run| :: run[i] == (f, Advance(true))) && Exec(s, run).Some?
    ensures var s' := Exec(s, run).value;
            && s'.threads.Keys == s.threads.Keys && s'.threads[f] == Idle
            && !s'.g.initialised && !s'.g.writer && s'.g.loaded
            && forall t | t in s.threads && t != f ::
                 s'.threads[t] == Woken(s.threads[t]) && !Parked(s'.threads[t])
  {
    NoThread(s.threads, HoldsRead);
    NoThread(s.threads, HoldsWrite);
    assert !Closed(s);
    run := FinalizeAlone(s, f);
  }

  /** A run extended by one step of thread t. */
  lemma Then(s: State, run: Run, m: State, t: Tid, m': State) returns (longer: Run)
    requires Exec(s, run) == Some(m) && Apply(m, t, Advance(true)) == Some(m')
    ensures longer == run + [(t, Advance(true))] && Exec(s, longer) == Some(m')
  {
    longer := run + [(t, Advance(true))];
    assert longer[..|run|] == run;
  }

  /** One step of thread f that wakes nobody. */
  lemma QuietStep(s: State, f: Tid, pc: Pc, g: Shared)
    requires f in s.threads && Go(s.threads[f], s.g, true) == Effect(pc, g, false)
    ensures Apply(s, f, Advance(true)) == Some(State(s.threads[f := pc], g))
  {
  }

  lemma WakeThenMove(threads: map<Tid, Pc>, f: Tid, pc: Pc, pc': Pc)
    requires f in threads
    ensures WakeAll(threads[f := pc])[f := pc'] == WakeAll(threads)[f := pc']
  {
  }

  /** The four steps of Finalize with nobody in its way. */
  lemma FinalizeAlone(s: State, f: Tid) returns (run: Run)
    requires s.g.pointer && s.g.readers == 0 && !s.g.writer && f in s.threads && s.threads[f] == WantWrite(Finalize)
    ensures |run| == 4 && forall i | 0 <= i < |run| :: run[i] == (f, Advance(true))
    ensures Exec(s, run) == Some(State(WakeAll(s.threads)[f := Idle], s.g.(initialised := false)))
  {
    var g, g' := s.g.(writer := true), s.g.(writer := true, initialised := false);
    var s1 := State(s.threads[f := Writing(Finalize)], g);
    var s2 := State(s.threads[f := InFinalize], g);
    var s3 := State(WakeAll(s.threads)[f := Unlocking], g');
    var s4 := State(WakeAll(s.threads)[f := Idle], s.g.(initialised := false));
    QuietStep(s, f, Writing(Finalize), g);
    QuietStep(s1, f, InFinalize, g);
    assert s1.threads[f := InFinalize] == s2.threads;
    WakeThenMove(s.threads, f, InFinalize, Unlocking);
    QuietStep(s3, f, Idle, s4.g);
    assert s3.threads[f := Idle] == s4.threads;
    run := FourSteps(s, s1, s2, s3, s4, f);
  }

  lemma FourSteps(s: State, s1: State, s2: State, s3: State, s4: State, f: Tid) returns (run: Run)
    requires Apply(s, f, Advance(true)) == Some(s1) && Apply(s1, f, Advance(true)) == Some(s2)
    requires Apply(s2, f, Advance(true)) == Some(s3) && Apply(s3, f, Advance(true)) == Some(s4)
    ensures |run| == 4 && forall i | 0 <= i < |run| :: run[i] == (f, Advance(true))
    ensures Exec(s, run) == Some(s4)
  {
    run := [];
    run := Then(s, run, s, f, s1);
    run := Then(s, run, s1, f, s2);
    run := Then(s, run, s2, f, s3);
    run := Then(s, run, s3, f, s4);
  }

  // ---- Freeing the lock for Finalize ---------------------------------------------

  predicate Holds(pc: Pc) {
    HoldsRead(pc) || HoldsWrite(pc)
  }

  /** The steps a lock holder still takes before it lets go. */
  function HolderRank(pc: Pc): nat {
    match pc
    case Reading(_) => 5
    case Grabbed(_) => 4
    case Registered(_) => 3
    case InCall => 2
    case Leaving => 1
    case Writing(_) => 4
    case InInitialize => 3
    case InFinalize => 3
    case Unlocking => 1
    case _ => 0
  }

  /** The thread is inside Destroy. */
  predicate InDestroy(pc: Pc) {
    pc.Draining? || pc.Closing? || (pc.Writing? && !pc.op.Initialize? && !pc.op.Finalize?)
  }

  /** Thread f waits for the write lock to finalise, and no thread is in the
      middle of Destroy. Readers, writers, and waits in any position may be there. */
  predicate Wants(s: State, f: Tid) {
    && Inv(s) && s.g.pointer && f in s.threads && s.threads[f] == WantWrite(Finalize)
    && forall t | t in s.threads :: !InDestroy(s.threads[t])
  }

  /** The other threads are where they were, or were woken. */
  predicate OthersStay(s: State, s': State, t: Tid) {
    && s'.threads.Keys == s.threads.Keys
    && forall u | u in s.threads && u != t :: s'.threads[u] == s.threads[u] || s'.threads[u] == Woken(s.threads[u])
  }

  /** A holder's next position. */
  lemma HolderMoves(pc: Pc, g: Shared)
    requires Holds(pc) && !InDestroy(pc) && g.pointer
    ensures var e := Go(pc, g, true);
            e.Effect? && e.g.pointer && !InDestroy(e.pc) && HolderRank(e.pc) < HolderRank(pc)
  {
  }

  /** A thread that holds the lock can always step, and comes closer to letting
      it go; nobody has to wait for a slot event. */
  lemma HolderStep(s: State, f: Tid, t: Tid)
    requires Wants(s, f) && t in s.threads && Holds(s.threads[t])
    ensures Apply(s, t, Advance(true)).Some?
    ensures var s' := Apply(s, t, Advance(true)).value;
            Wants(s', f) && OthersStay(s, s', t) && HolderRank(s'.threads[t]) < HolderRank(s.threads[t])
  {
    HolderMoves(s.threads[t], s.g);
    InvStep(s, t, Advance(true));
  }

  function Holders(s: State): set<Tid> {
    Those(s.threads, Holds)
  }

  /** Every step of the run is one of a thread that holds the lock then: no
      thread begins anything, no slot event comes, and no native wait moves. */
  predicate HoldersOnly(s: State, run: Run)
    requires Exec(s, run).Some?
  {
    run == [] ||
    var prefix, last := run[..|run| - 1], run[|run| - 1];
    && HoldersOnly(s, prefix) && last.1 == Advance(true)
    && last.0 in Exec(s, prefix).value.threads && Holds(Exec(s, prefix).value.threads[last.0])
  }

  lemma HoldersAfter(s: State, s': State, t: Tid)
    requires t in s.threads && Holds(s.threads[t]) && OthersStay(s, s', t)
    ensures Holders(s') == if Holds(s'.threads[t]) then Holders(s) else Holders(s) - {t}
  {
  }

  lemma OneMoreHolder(s: State, before: Run, m: State, t: Tid) returns (run: Run)
    requires Exec(s, before) == Some(m) && HoldersOnly(s, before) && t in m.threads && Holds(m.threads[t])
    requires Apply(m, t, Advance(true)).Some?
    ensures Exec(s, run) == Apply(m, t, Advance(true)) && HoldersOnly(s, run)
  {
    run := Then(s, before, m, t, Apply(m, t, Advance(true)).value);
    assert run[..|run| - 1] == before;
  }

  /** One holder lets go of the lock. */
  lemma {:induction false} FreeOne(s: State, before: Run, m: State, f: Tid, t: Tid) returns (run: Run, m': State)
    requires Exec(s, before) == Some(m) && HoldersOnly(s, before) && Wants(m, f)
    requires t in m.threads && Holds(m.threads[t])
    ensures Exec(s, run) == Some(m') && HoldersOnly(s, run) && Wants(m', f)
    ensures Holders(m') == Holders(m) - {t}
    decreases HolderRank(m.threads[t])
  {
    HolderStep(m, f, t);
    run := OneMoreHolder(s, before, m, t);
    m' := Apply(m, t, Advance(true)).value;
    HoldersAfter(m, m', t);
    if Holds(m'.threads[t]) {
      run, m' := FreeOne(s, run, m', f, t);
    }
  }

  /** All of them do. */
  lemma {:induction false} FreeAll(s: State, before: Run, m: State, f: Tid) returns (run: Run, m': State)
    requires Exec(s, before) == Some(m) && HoldersOnly(s, before) && Wants(m, f)
    ensures Exec(s, run) == Some(m') && HoldersOnly(s, run) && Wants(m', f) && Holders(m') == {}
    decreases |Holders(m)|
  {
    run, m' := before, m;
    if Holders(m) != {} {
      var t :| t in Holders(m);
      run, m' := FreeOne(s, before, m, f, t);
      Without(Holders(m), t);
      run, m' := FreeAll(s, run, m', f);
    }
  }

  /** Finalize is never held up: wherever the other threads stand, the lock
      holders can let go one after the other without the help of any wait, slot
      event or new operation, and Finalize then runs to its end alone and leaves
      no wait parked. */
  lemma FinalizeNeverHeldUp(s: State, f: Tid) returns (free: Run, m: State, run: Run)
    requires Wants(s, f)
    ensures Exec(s, free) == Some(m) && HoldersOnly(s, free) && f in m.threads && m.threads[f] == WantWrite(Finalize)
    ensures |run| == 4 && (forall i | 0 <= i < |run| :: run[i] == (f, Advance(true))) && Exec(m, run).Some?
    ensures var s' := Exec(m, run).value;
            && s'.threads.Keys == s.threads.Keys && s'.threads[f] == Idle && !s'.g.initialised && s'.g.loaded
            && forall t | t in s'.threads :: !Parked(s'.threads[t])
  {
    free, m := FreeAll(s, [], s, f);
    forall t | t in m.threads ensures !HoldsRead(m.threads[t]) && !HoldsWrite(m.threads[t]) {
      assert t !in Holders(m);
    }
    SameThreads(s, free);
    run := FinalizeWakesParked(m, f);
  }

  lemma {:induction false} SameThreads(s: State, run: Run)
    requires Exec(s, run).Some?
    ensures Exec(s, run).value.threads.Keys == s.threads.Keys
  {
    if run != [] {
      SameThreads(s, run[..|run| - 1]);
    }
  }

  // ---- Deadlock --------------------------------------------------------------------

  /** Threads that wait for each other forever: some Destroy is draining while
      a wait is parked in an initialised library. */
  predicate DestroyBeforeFinalize(s: State) {
    && s.g.initialised
    && (exists d | d in s.threads :: s.threads[d].Draining?)
    && (exists w | w in s.threads :: Parked(s.threads[w]))
  }

  lemma DrainingIsBlocked(s: State, d: Tid)
    requires Inv(s) && Stuck(s) && d in s.threads && s.threads[d].Draining?
    ensures DestroyBeforeFinalize(s)
  {
    assert Go(s.threads[d], s.g, true).Blocked?;
    var w := SomeThread(s.threads, IsWaiter);
    assert Go(s.threads[w], s.g, true).Blocked?;
    assert Fits(s.g, s.threads[w]) && Parked(s.threads[w]);
  }

  lemma QueueHasDraining(s: State, t: Tid) returns (d: Tid)
    requires Inv(s) && Stuck(s) && t in s.threads && Queued(s.threads[t])
    ensures d in s.threads && s.threads[d].Draining?
  {
    assert Go(s.threads[t], s.g, true).Blocked?;
    if s.g.writer {
      d := SomeThread(s.threads, HoldsWrite);
    } else {
      d := SomeThread(s.threads, HoldsRead);
    }
    assert Go(s.threads[d], s.g, true).Blocked?;
  }

  /** The only deadlock: when nothing can advance, every thread is idle or
      parked in a wait, unless a Destroy came before Finalize. */
  lemma {:induction false} OnlyDestroyBeforeFinalizeBlocks(s: State)
    requires Inv(s) && Stuck(s)
    ensures (forall t | t in s.threads :: s.threads[t].Idle? || Parked(s.threads[t])) || DestroyBeforeFinalize(s)
  {
    if t :| t in s.threads && !s.threads[t].Idle? && !Parked(s.threads[t]) {
      assert Go(s.threads[t], s.g, true).Blocked?;
      if s.threads[t].Draining? {
        DrainingIsBlocked(s, t);
      } else {
        var d := QueueHasDraining(s, t);
        DrainingIsBlocked(s, d);
      }
    }
  }

  // ---- Ordinary calls ----------------------------------------------------------------

  /** One step of a run that wakes nobody. */
  lemma QuietAction(s: State, run: Run, m: State, t: Tid, a: Action, pc: Pc, g: Shared) returns (longer: Run, m': State)
    requires Exec(s, run) == Some(m) && t in m.threads && Do(m.threads[t], m.g, a) == Effect(pc, g, false)
    ensures longer == run + [(t, a)] && Exec(s, longer) == Some(m') && m' == State(m.threads[t := pc], g)
  {
    longer, m' := run + [(t, a)], State(m.threads[t := pc], g);
    assert longer[..|run|] == run;
  }

  /** An ordinary call of a Ctx that has not been destroyed: from any state
      without a writer, the steps of its thread alone take it into the native
      function with a read lock, and out of it again. */
  lemma CallEnters(s: State, t: Tid) returns (enter: Run, m: State, leave: Run)
    requires t in s.threads && s.threads[t] == Idle && s.g.pointer && !s.g.writer
    ensures enter == [(t, Begin(Call)), (t, Advance(true)), (t, Advance(true))]
    ensures Exec(s, enter) == Some(m) && m == State(s.threads[t := InCall], s.g.(readers := s.g.readers + 1))
    ensures Exec(m, leave) == Some(State(s.threads[t := Idle], s.g)) && |leave| == 2
  {
    var m1, m2;
    enter, m1 := QuietAction(s, [], s, t, Begin(Call), WantRead(Call), s.g);
    enter, m2 := QuietAction(s, enter, m1, t, Advance(true), Reading(Call), s.g.(readers := s.g.readers + 1));
    enter, m := QuietAction(s, enter, m2, t, Advance(true), InCall, m2.g);
    assert m.threads == s.threads[t := InCall];
    leave, m1 := QuietAction(m, [], m, t, Advance(true), Leaving, m.g);
    leave, m2 := QuietAction(m, leave, m1, t, Advance(true), Idle, s.g);
    assert m2.threads == s.threads[t := Idle];
  }

  /** A call of a destroyed Ctx takes the lock, finds no module and lets it go. */
  lemma CallOfDestroyed(s: State, t: Tid) returns (run: Run)
    requires t in s.threads && s.threads[t] == Idle && !s.g.pointer && !s.g.writer
    ensures run == [(t, Begin(Call)), (t, Advance(true)), (t, Advance(true)), (t, Advance(true))]
    ensures Exec(s, run[..3]) == Some(State(s.threads[t := Leaving], s.g.(readers := s.g.readers + 1)))
    ensures Exec(s, run) == Some(State(s.threads[t := Idle], s.g))
  {
    var m1, m2, m3;
    run, m1 := QuietAction(s, [], s, t, Begin(Call), WantRead(Call), s.g);
    run, m2 := QuietAction(s, run, m1, t, Advance(true), Reading(Call), s.g.(readers := s.g.readers + 1));
    run, m3 := QuietAction(s, run, m2, t, Advance(true), Leaving, m2.g);
    assert m3.threads == s.threads[t := Leaving];
    ghost var three := run;
    run, m1 := QuietAction(s, run, m3, t, Advance(true), Idle, s.g);
    assert run[..3] == three && m1.threads == s.threads[t := Idle];
  }

  /** What a native function answers decides: a failed C_Initialize or C_Finalize
      leaves the library as it was and wakes nobody, a successful one initialises
      it, or finalises it and wakes every native wait. */
  lemma NativeAnswers(s: State, t: Tid, ok: bool)
    requires t in s.threads && (s.threads[t].InInitialize? || s.threads[t].InFinalize?)
    ensures Apply(s, t, Advance(ok)) ==
            if !ok then Some(State(s.threads[t := Unlocking], s.g))
            else if s.threads[t].InInitialize? then Some(State(s.threads[t := Unlocking], s.g.(initialised := true)))
            else Some(State(WakeAll(s.threads)[t := Unlocking], s.g.(initialised := false)))
  {
  }
}
