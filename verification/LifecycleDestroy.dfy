/** Destroy and the blocking waits it waits for: it drains and unloads exactly
  when no wait can hold it up for ever (cryptoki/binding.go, slot.go). */
module LifecycleDestroy {
  import opened Common
  import opened Lifecycle
  import opened LifecycleProgress

  /** A wait that only a slot event or Finalize could end: it is parked, or it
      is about to enter a blocking native wait. */
  predicate HoldsUp(pc: Pc) {
    Parked(pc) || (pc.Counted? && pc.blocking)
  }

  /** The library is still initialised, and some wait holds Destroy up. */
  predicate HeldUp(s: State) {
    s.g.initialised && exists w | w in s.threads :: HoldsUp(s.threads[w])
  }

  /** A held up Destroy stays where it is, and so does the wait, over every run
      that brings the wait no slot event. */
  lemma {:induction false} HeldUpStays(s: State, run: Run, d: Tid, w: Tid)
    requires Inv(s) && d in s.threads && s.threads[d].Draining?
    requires s.g.initialised && w in s.threads && HoldsUp(s.threads[w])
    requires Exec(s, run).Some? && (w, Event) !in run
    ensures var s' := Exec(s, run).value;
            && Inv(s') && s'.g.loaded && s'.g.initialised
            && d in s'.threads && s'.threads[d].Draining? && w in s'.threads && HoldsUp(s'.threads[w])
  {
    if run != [] {
      var prefix := run[..|run| - 1];
      assert forall x | x in prefix :: x in run;
      HeldUpStays(s, prefix, d, w);
      var m, t, a := Exec(s, prefix).value, run[|run| - 1].0, run[|run| - 1].1;
      assert (t, a) in run;
      HeldUpStep(m, d, w, t, a);
    } else {
      assert Fits(s.g, s.threads[d]);
    }
  }

  lemma HeldUpStep(m: State, d: Tid, w: Tid, t: Tid, a: Action)
    requires Inv(m) && d in m.threads && m.threads[d].Draining?
    requires m.g.initialised && w in m.threads && HoldsUp(m.threads[w])
    requires Apply(m, t, a).Some? && (t != w || !a.Event?)
    ensures var s' := Apply(m, t, a).value;
            && Inv(s') && s'.g.loaded && s'.g.initialised
            && d in s'.threads && s'.threads[d].Draining? && w in s'.threads && HoldsUp(s'.threads[w])
  {
    InvStep(m, t, a);
    Basics(m, d);
    Basics(m, w);
    if t != d && HoldsWrite(m.threads[t]) {
      Exclusive(m, d, t);
    }
    var s' := Apply(m, t, a).value;
    assert Fits(s'.g, s'.threads[d]);
  }

  // ---- Draining ------------------------------------------------------------------

  predicate IsCounted(pc: Pc) { pc.Counted? }
  predicate IsWaiting(pc: Pc) { pc.Waiting? }
  predicate IsReturned(pc: Pc) { pc.Returned? }

  /** The steps the counted waiters still have to take. */
  function Remaining(threads: map<Tid, Pc>): nat {
    3 * |Those(threads, IsCounted)| + 2 * |Those(threads, IsWaiting)| + |Those(threads, IsReturned)|
  }

  function Rank(pc: Pc): nat {
    if pc.Counted? then 3 else if pc.Waiting? then 2 else if pc.Returned? then 1 else 0
  }

  lemma RemainingMoves(threads: map<Tid, Pc>, t: Tid, pc: Pc)
    requires t in threads
    ensures Remaining(threads[t := pc]) == Remaining(threads) - Rank(threads[t]) + Rank(pc)
    ensures Remaining(WakeAll(threads)) == Remaining(threads)
  {
    Moves(threads, t, pc, IsCounted);
    Moves(threads, t, pc, IsWaiting);
    Moves(threads, t, pc, IsReturned);
    Wakes(threads, IsCounted);
    Wakes(threads, IsWaiting);
    Wakes(threads, IsReturned);
  }

  /** Destroy d holds the lock, and nothing holds it up for ever. */
  predicate Drains(s: State, d: Tid) {
    Inv(s) && d in s.threads && s.threads[d].Draining? && !HeldUp(s)
  }

  /** A counted waiter takes one of its remaining steps. */
  predicate WaiterStep(s: State, t: Tid, a: Action) {
    a.Advance? && t in s.threads && Rank(s.threads[t]) > 0
  }

  /** While Destroy drains, no wait can register and nobody can initialise the
      library again; each step of a waiter lowers the measure by one and no
      other step changes it, until Destroy itself unloads the library. */
  lemma {:induction false} DrainStep(s: State, d: Tid, t: Tid, a: Action)
    requires Drains(s, d) && Apply(s, t, a).Some?
    ensures var s' := Apply(s, t, a).value;
            if t == d then s.g.waiters == 0 && !s'.g.loaded
            else Drains(s', d) && Remaining(s'.threads) == Remaining(s.threads) - One(WaiterStep(s, t, a))
  {
    InvStep(s, t, a);
    Basics(s, d);
    Basics(s, t);
    if t != d {
      if HoldsWrite(s.threads[t]) || HoldsRead(s.threads[t]) {
        Exclusive(s, d, t);
      }
      RemainingMoves(s.threads, t, Do(s.threads[t], s.g, a).pc);
      NotHeldUpStep(s, d, t, a);
    }
  }

  /** Nothing comes to hold Destroy up while it drains. */
  lemma NotHeldUpStep(s: State, d: Tid, t: Tid, a: Action)
    requires Drains(s, d) && t != d && Apply(s, t, a).Some?
    requires !HoldsWrite(s.threads[t]) && !HoldsRead(s.threads[t])
    ensures !HeldUp(Apply(s, t, a).value)
  {
    var s' := Apply(s, t, a).value;
    forall w | w in s'.threads && s'.g.initialised ensures !HoldsUp(s'.threads[w]) {
      assert !HoldsUp(s.threads[w]);
    }
  }

  /** It never stalls: some waiter can take a step, or Destroy can unload. */
  lemma {:induction false} DrainNeverStalls(s: State, d: Tid) returns (t: Tid)
    requires Drains(s, d)
    ensures t in s.threads && Apply(s, t, Advance(true)).Some?
    ensures s.g.waiters > 0 ==> WaiterStep(s, t, Advance(true))
    ensures s.g.waiters == 0 ==> t == d && !Apply(s, t, Advance(true)).value.g.loaded
  {
    Basics(s, d);
    if s.g.waiters > 0 {
      t := SomeThread(s.threads, IsWaiter);
      assert Fits(s.g, s.threads[t]) && !(s.g.initialised && HoldsUp(s.threads[t]));
      Basics(s, t);
    } else {
      if |Those(s.threads, IsWaiter)| > 0 {
        t := SomeThread(s.threads, IsWaiter);
      }
      t := d;
    }
  }

  /** The number of steps of counted waiters in a run. */
  function WaiterSteps(s: State, run: Run): nat
    requires Exec(s, run).Some?
  {
    if run == [] then 0
    else
      var prefix := run[..|run| - 1];
      WaiterSteps(s, prefix) + One(WaiterStep(Exec(s, prefix).value, run[|run| - 1].0, run[|run| - 1].1))
  }

  lemma {:induction false} DrainCounts(s: State, d: Tid, run: Run)
    requires Drains(s, d) && Exec(s, run).Some? && forall i | 0 <= i < |run| :: run[i].0 != d
    ensures Drains(Exec(s, run).value, d)
    ensures WaiterSteps(s, run) + Remaining(Exec(s, run).value.threads) == Remaining(s.threads)
  {
    if run != [] {
      var prefix := run[..|run| - 1];
      DrainCounts(s, d, prefix);
      DrainStep(Exec(s, prefix).value, d, run[|run| - 1].0, run[|run| - 1].1);
    }
  }

  /** In every run in which Destroy has not unloaded yet, the waiters take no
      more steps than the measure said, and when they have taken them all the
      unload is possible. */
  lemma {:induction false} DrainIsBounded(s: State, d: Tid, run: Run)
    requires Drains(s, d) && Exec(s, run).Some? && forall i | 0 <= i < |run| :: run[i].0 != d
    ensures Drains(Exec(s, run).value, d)
    ensures WaiterSteps(s, run) + Remaining(Exec(s, run).value.threads) == Remaining(s.threads)
    ensures WaiterSteps(s, run) == Remaining(s.threads) <==> Apply(Exec(s, run).value, d, Advance(true)).Some?
  {
    DrainCounts(s, d, run);
    NothingRemains(Exec(s, run).value, d);
    UnloadPossible(Exec(s, run).value, d);
  }

  lemma UnloadPossible(s: State, d: Tid)
    requires Drains(s, d)
    ensures Apply(s, d, Advance(true)).Some? <==> s.g.waiters == 0
  {
  }

  lemma NothingRemains(s: State, d: Tid)
    requires Drains(s, d)
    ensures Remaining(s.threads) == 0 <==> s.g.waiters == 0
  {
    Basics(s, d);
    if s.g.waiters > 0 {
      var t := SomeThread(s.threads, IsWaiter);
      Basics(s, t);
      RemainingMoves(s.threads, t, Idle);
    } else if Remaining(s.threads) > 0 {
      var t;
      if |Those(s.threads, IsCounted)| > 0 {
        t := SomeThread(s.threads, IsCounted);
      } else if |Those(s.threads, IsWaiting)| > 0 {
        t := SomeThread(s.threads, IsWaiting);
      } else {
        t := SomeThread(s.threads, IsReturned);
      }
      Basics(s, t);
    }
  }

  // ---- The exact condition -------------------------------------------------------

  /** The waiters step until none is left, and Destroy unloads. */
  lemma {:induction false} DrainRun(s: State, d: Tid, before: Run, m: State) returns (run: Run)
    requires Exec(s, before) == Some(m) && Drains(m, d) && NoEvents(before)
    ensures Exec(s, run).Some? && NoEvents(run) && !Exec(s, run).value.g.loaded
    decreases Remaining(m.threads)
  {
    var t := DrainNeverStalls(m, d);
    var m' := Apply(m, t, Advance(true)).value;
    DrainStep(m, d, t, Advance(true));
    run := Then(s, before, m, t, m');
    if t != d {
      run := DrainRun(s, d, run, m');
    }
  }

  predicate NoEvents(run: Run) {
    forall x | x in run :: !x.1.Event?
  }

  /** A draining Destroy unloads in some run without slot events if and only if
      the library is finalised, or no wait is parked or about to park. Then every
      run leads there, by DrainStep and DrainNeverStalls; otherwise none does. */
  lemma {:induction false} DestroyEndsIff(s: State, d: Tid)
    requires Inv(s) && d in s.threads && s.threads[d].Draining?
    ensures (exists run :: NoEvents(run) && Unloads(s, run)) <==> !HeldUp(s)
  {
    if HeldUp(s) {
      var w :| w in s.threads && HoldsUp(s.threads[w]);
      forall run | NoEvents(run) && Exec(s, run).Some? ensures !Unloads(s, run) {
        assert (w, Event) !in run;
        HeldUpStays(s, run, d, w);
      }
    } else {
      var run := DrainRun(s, d, [], s);
      assert Unloads(s, run);
    }
  }

  predicate Unloads(s: State, run: Run) {
    Exec(s, run).Some? && !Exec(s, run).value.g.loaded
  }

  // ---- A Destroy that is held up ---------------------------------------------------

  lemma InitializeRuns(s: State, run: Run, m: State, t: Tid) returns (longer: Run, m': State)
    requires Exec(s, run) == Some(m) && m.g == Shared(0, false, true, 0, true, false)
    requires t in m.threads && m.threads[t] == Idle
    ensures Exec(s, longer) == Some(m') && m' == State(m.threads[t := Idle], Shared(0, false, true, 0, true, true))
  {
    longer, m' := TakesLock(s, run, m, t, Initialize);
    longer, m' := InitializeEnds(s, longer, m', t);
    assert m'.threads == m.threads[t := Idle];
  }

  lemma InitializeEnds(s: State, run: Run, m: State, t: Tid) returns (longer: Run, m': State)
    requires Exec(s, run) == Some(m) && m.g == Shared(0, true, true, 0, true, false)
    requires t in m.threads && m.threads[t] == Writing(Initialize)
    ensures Exec(s, longer) == Some(m') && m' == State(m.threads[t := Idle], Shared(0, false, true, 0, true, true))
  {
    longer, m' := QuietAction(s, run, m, t, Advance(true), InInitialize, m.g);
    longer, m' := QuietAction(s, longer, m', t, Advance(true), Unlocking, Shared(0, true, true, 0, true, true));
    longer, m' := QuietAction(s, longer, m', t, Advance(true), Idle, Shared(0, false, true, 0, true, true));
    assert m'.threads == m.threads[t := Idle];
  }

  /** An operation that wants the write lock, up to having it. */
  lemma TakesLock(s: State, run: Run, m: State, t: Tid, op: Op) returns (longer: Run, m': State)
    requires Exec(s, run) == Some(m) && m.g.readers == 0 && !m.g.writer && (op.Initialize? || op.Destroy?)
    requires t in m.threads && m.threads[t] == Idle
    ensures Exec(s, longer) == Some(m') && m' == State(m.threads[t := Writing(op)], m.g.(writer := true))
  {
    longer, m' := QuietAction(s, run, m, t, Begin(op), WantWrite(op), m.g);
    longer, m' := QuietAction(s, longer, m', t, Advance(true), Writing(op), m.g.(writer := true));
    assert m'.threads == m.threads[t := Writing(op)];
  }

  /** A blocking wait, up to registering. */
  lemma WaitRegisters(s: State, run: Run, m: State, t: Tid) returns (longer: Run, m': State)
    requires Exec(s, run) == Some(m) && m.g == Shared(0, false, true, 0, true, true)
    requires t in m.threads && m.threads[t] == Idle
    ensures Exec(s, longer) == Some(m') && m' == State(m.threads[t := Registered(true)], m.g.(readers := 1, waiters := 1))
  {
    var op := Wait(true);
    longer, m' := QuietAction(s, run, m, t, Begin(op), WantRead(op), m.g);
    longer, m' := QuietAction(s, longer, m', t, Advance(true), Reading(op), m'.g.(readers := 1));
    longer, m' := QuietAction(s, longer, m', t, Advance(true), Grabbed(true), m'.g);
    longer, m' := QuietAction(s, longer, m', t, Advance(true), Registered(true), m'.g.(waiters := 1));
    assert m'.threads == m.threads[t := Registered(true)];
  }

  lemma WaitParks(s: State, run: Run, m: State, t: Tid) returns (longer: Run, m': State)
    requires Exec(s, run) == Some(m) && m.g == Shared(0, false, true, 0, true, true)
    requires t in m.threads && m.threads[t] == Idle
    ensures Exec(s, longer) == Some(m') && m' == State(m.threads[t := Waiting(true, false)], m.g.(waiters := 1))
  {
    longer, m' := WaitRegisters(s, run, m, t);
    longer, m' := QuietAction(s, longer, m', t, Advance(true), Counted(true), m'.g.(readers := 0));
    longer, m' := QuietAction(s, longer, m', t, Advance(true), Waiting(true, false), m'.g);
    assert m'.threads == m.threads[t := Waiting(true, false)];
  }

  /** A Destroy, up to waiting for the waits. */
  lemma DestroyDrains(s: State, run: Run, m: State, t: Tid) returns (longer: Run, m': State)
    requires Exec(s, run) == Some(m) && m.g == Shared(0, false, true, 1, true, true)
    requires t in m.threads && m.threads[t] == Idle
    ensures Exec(s, longer) == Some(m') && m' == State(m.threads[t := Draining], m.g.(writer := true))
  {
    longer, m' := TakesLock(s, run, m, t, Destroy);
    longer, m' := QuietAction(s, longer, m', t, Advance(true), Draining, m'.g);
    assert m'.threads == m.threads[t := Draining];
  }

  /** From a freshly loaded Ctx: one thread initialises, another parks in a
      wait, the first destroys. It is held up. */
  lemma HeldUpReachable() returns (s: State, run: Run)
    ensures Initial(s) && Exec(s, run).Some?
    ensures var e := Exec(s, run).value; 0 in e.threads && e.threads[0].Draining? && HeldUp(e) && DestroyBeforeFinalize(e)
  {
    s := State(map[0 := Idle, 1 := Idle], Shared(0, false, true, 0, true, false));
    var m;
    run, m := InitializeRuns(s, [], s, 0);
    run, m := WaitParks(s, run, m, 1);
    run, m := DestroyDrains(s, run, m, 0);
    assert m.threads[1] == Waiting(true, false) && m.threads[0] == Draining;
  }
}
