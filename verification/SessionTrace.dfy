/** p11.Session under any number of threads. Every method below runs with the
  session mutex held; an event is one call it makes on the cryptoki.Ctx
  (p11/session.go, key.go, object.go). */
module SessionTrace {
  import opened Common

  datatype Kind = Encrypt | Decrypt | Sign | Verify | VerifySignature

  datatype Call =
    | Init(kind: Kind) | Operate(kind: Kind)
    | FindInit | FindNext | FindFinal
    | CloseSession
    | Single(guarded: bool)   // one call of a method, behind checkOpen or not

  datatype Outcome = Failed | Ok(count: nat)
  datatype Step = Step(call: Call, outcome: Outcome)

  /** What a thread runs under the mutex. */
  datatype Job = Pair(kind: Kind) | One(guarded: bool) | Find | Close

  /** The first call of a method, none when checkOpen or Close finds the session
      closed. */
  function First(job: Job, closed: bool): Option<Call> {
    match job
    case Pair(kind) => if closed then None else Some(Init(kind))
    case One(guarded) => if guarded && closed then None else Some(Single(guarded))
    case Find => Some(FindInit)
    case Close => if closed then None else Some(CloseSession)
  }

  /** The call the same method makes next, none when it returns. */
  function After(s: Step): Option<Call> {
    match s.call
    case Init(kind) => if s.outcome.Ok? then Some(Operate(kind)) else None
    case FindInit => if s.outcome.Ok? then Some(FindNext) else None
    case FindNext => if s.outcome.Ok? && s.outcome.count > 0 then Some(FindNext) else Some(FindFinal)
    case _ => None
  }

  /** The calls one method makes, from its first to its last. */
  predicate Block(job: Job, closed: bool, steps: seq<Step>) {
    if steps == [] then First(job, closed).None?
    else
      && First(job, closed) == Some(steps[0].call)
      && (forall i | 0 <= i < |steps| - 1 :: After(steps[i]) == Some(steps[i + 1].call))
      && After(steps[|steps| - 1]).None?
  }

  // ---- Interleavings --------------------------------------------------------

  type Tid = nat

  /** `last` is the latest step of the thread's present method. */
  datatype Pc = Idle | Wanting(job: Job) | Inside(job: Job, last: Option<Step>)
  datatype Event = Event(tid: Tid, step: Step)
  datatype State = State(closed: bool, owner: Option<Tid>, threads: map<Tid, Pc>, trace: seq<Event>)
  datatype Action = Begin(job: Job) | Lock | Issue(outcome: Outcome) | Unlock

  /** The call a thread inside the mutex makes next. */
  function Due(s: State, pc: Pc): Option<Call>
    requires pc.Inside?
  {
    if pc.last.None? then First(pc.job, s.closed) else After(pc.last.value)
  }

  function Apply(s: State, t: Tid, a: Action): Option<State> {
    if t !in s.threads then None
    else
      var pc := s.threads[t];
      match a
      case Begin(job) => if pc.Idle? then Some(s.(threads := s.threads[t := Wanting(job)])) else None
      case Lock =>
        if pc.Wanting? && s.owner.None?
        then Some(s.(owner := Some(t), threads := s.threads[t := Inside(pc.job, None)]))
        else None
      case Issue(outcome) =>
        if pc.Inside? && Due(s, pc).Some?
        then
          var step := Step(Due(s, pc).value, outcome);
          Some(State(s.closed || step.call.CloseSession?, s.owner,
                     s.threads[t := pc.(last := Some(step))], s.trace + [Event(t, step)]))
        else None
      case Unlock =>
        if pc.Inside? && Due(s, pc).None?
        then Some(s.(owner := None, threads := s.threads[t := Idle]))
        else None
  }

  type Run = seq<(Tid, Action)>

  function Exec(s: State, run: Run): Option<State> {
    if run == [] then Some(s)
    else
      match Exec(s, run[..|run| - 1])
      case None => None
      case Some(m) => Apply(m, run[|run| - 1].0, run[|run| - 1].1)
  }

  predicate Initial(s: State) {
    && !s.closed && s.owner.None? && s.trace == []
    && forall t | t in s.threads :: s.threads[t].Idle?
  }

  /** Starts no method: the call only follows another of the same method. */
  predicate Continues(c: Call) {
    c.Operate? || c.FindNext? || c.FindFinal?
  }

  /** Event i + 1 carries on the method of event i while that has a call to
      make, and starts a method otherwise. */
  predicate Linked(trace: seq<Event>, i: nat)
    requires i + 1 < |trace|
  {
    match After(trace[i].step)
    case Some(call) => trace[i + 1].tid == trace[i].tid && trace[i + 1].step.call == call
    case None => !Continues(trace[i + 1].step.call)
  }

  predicate Chained(trace: seq<Event>) {
    && (trace != [] ==> !Continues(trace[0].step.call))
    && forall i | 0 <= i < |trace| - 1 :: Linked(trace, i)
  }

  /** Calls that checkOpen or Close's own flag stands before. */
  predicate Guarded(c: Call) {
    c.Init? || c.Operate? || c.CloseSession? || (c.Single? && c.guarded)
  }

  predicate ClosedAt(trace: seq<Event>, i: nat)
    requires i < |trace|
  {
    trace[i].step.call.CloseSession?
  }

  /** Nothing guarded comes after a CloseSession, not even another one. */
  predicate QuietAfterClose(trace: seq<Event>) {
    forall i, j | 0 <= i < j < |trace| && ClosedAt(trace, i) :: !Guarded(trace[j].step.call)
  }

  predicate Inv(s: State) {
    && (forall t | t in s.threads && s.threads[t].Inside? :: s.owner == Some(t))
    && (s.owner.Some? ==> s.owner.value in s.threads && s.threads[s.owner.value].Inside?)
    && Chained(s.trace) && QuietAfterClose(s.trace)
    && (s.closed <==> exists i :: 0 <= i < |s.trace| && ClosedAt(s.trace, i))
    && LastIsOwners(s)
  }

  /** A method in progress belongs to the owner of the mutex, and its latest
      step ends the trace. */
  predicate LastIsOwners(s: State) {
    && (s.owner.Some? && s.owner.value in s.threads && s.threads[s.owner.value].Inside? ==>
          var last := s.threads[s.owner.value].last;
          last.Some? ==> s.trace != [] && s.trace[|s.trace| - 1] == Event(s.owner.value, last.value))
    && (s.trace != [] && After(s.trace[|s.trace| - 1].step).Some? ==>
          var e := s.trace[|s.trace| - 1];
          s.owner == Some(e.tid) && e.tid in s.threads && s.threads[e.tid].Inside? && s.threads[e.tid].last == Some(e.step))
  }

  lemma ChainedMore(trace: seq<Event>, e: Event)
    requires Chained(trace)
    requires trace == [] ==> !Continues(e.step.call)
    requires trace != [] ==> Linked(trace + [e], |trace| - 1)
    ensures Chained(trace + [e])
  {
    var longer := trace + [e];
    forall i | 0 <= i < |longer| - 1 ensures Linked(longer, i) {
      if i < |trace| - 1 {
        assert Linked(trace, i);
      }
    }
  }

  lemma QuietMore(trace: seq<Event>, e: Event)
    requires QuietAfterClose(trace)
    requires (exists i :: 0 <= i < |trace| && ClosedAt(trace, i)) ==> !Guarded(e.step.call)
    ensures QuietAfterClose(trace + [e])
    ensures (exists i :: 0 <= i < |trace + [e]| && ClosedAt(trace + [e], i)) <==>
            (exists i :: 0 <= i < |trace| && ClosedAt(trace, i)) || e.step.call.CloseSession?
  {
    var longer := trace + [e];
    forall i, j | 0 <= i < j < |longer| && ClosedAt(longer, i) ensures !Guarded(longer[j].step.call) {
      assert ClosedAt(trace, i);
    }
    if i :| 0 <= i < |trace| && ClosedAt(trace, i) {
      assert ClosedAt(longer, i);
    }
    if e.step.call.CloseSession? {
      assert ClosedAt(longer, |trace|);
    }
    if i :| 0 <= i < |longer| && ClosedAt(longer, i) {
      assert i < |trace| ==> ClosedAt(trace, i);
    }
  }

  /** The step that makes a call. */
  lemma IssueKeeps(s: State, t: Tid, outcome: Outcome)
    requires Inv(s) && Apply(s, t, Issue(outcome)).Some?
    ensures var s' := Apply(s, t, Issue(outcome)).value;
            && Chained(s'.trace) && QuietAfterClose(s'.trace)
            && (s'.closed <==> exists i :: 0 <= i < |s'.trace| && ClosedAt(s'.trace, i))
  {
    var pc := s.threads[t];
    var e := Event(t, Step(Due(s, pc).value, outcome));
    if pc.last.None? {
      assert !Continues(e.step.call);
    } else {
      assert s.trace[|s.trace| - 1] == Event(t, pc.last.value);
    }
    ChainedMore(s.trace, e);
    if i :| 0 <= i < |s.trace| && ClosedAt(s.trace, i) {
      if pc.last.Some? && pc.last.value.call.Init? {
        assert false;
      }
    }
    QuietMore(s.trace, e);
  }

  lemma InvStep(s: State, t: Tid, a: Action)
    requires Inv(s) && Apply(s, t, a).Some?
    ensures Inv(Apply(s, t, a).value)
  {
    if a.Issue? {
      IssueKeeps(s, t, a.outcome);
    }
  }

  lemma {:induction false} Reachable(s: State, run: Run)
    requires Initial(s) && Exec(s, run).Some?
    ensures Inv(Exec(s, run).value)
  {
    if run != [] {
      Reachable(s, run[..|run| - 1]);
      InvStep(Exec(s, run[..|run| - 1]).value, run[|run| - 1].0, run[|run| - 1].1);
    }
  }

  /** Whatever the interleaving, the call after an event that its method has
      not finished with is that method's next call, by the same thread: no
      init is parted from its operation and no find sequence is split. */
  lemma {:induction false} NeverSplit(s: State, run: Run, i: nat)
    requires Initial(s) && Exec(s, run).Some? && i + 1 < |Exec(s, run).value.trace|
    ensures var trace := Exec(s, run).value.trace;
            && (After(trace[i].step).Some? ==>
                  trace[i + 1].tid == trace[i].tid && After(trace[i].step) == Some(trace[i + 1].step.call))
            && (trace[i + 1].step.call.Operate? ==>
                  trace[i] == Event(trace[i + 1].tid, Step(Init(trace[i + 1].step.call.kind), trace[i].step.outcome))
                  && trace[i].step.outcome.Ok?)
  {
    Reachable(s, run);
    assert Linked(Exec(s, run).value.trace, i);
  }

  /** Event i is the last one and its thread still holds the mutex, or the next
      event is this call by the same thread. */
  predicate GoesOn(s: State, i: nat, call: Call)
    requires i < |s.trace|
  {
    if i + 1 < |s.trace| then s.trace[i + 1].tid == s.trace[i].tid && s.trace[i + 1].step.call == call
    else
      var t := s.trace[i].tid;
      s.owner == Some(t) && t in s.threads && s.threads[t].Inside?
  }

  /** In every reachable trace a successful init is followed by its operation, a
      search that was opened by a find call or its final call as the answers say,
      each by the same thread, unless that thread holds the mutex to do so now. */
  lemma {:induction false} AlwaysGoesOn(s: State, run: Run, i: nat)
    requires Initial(s) && Exec(s, run).Some? && i < |Exec(s, run).value.trace|
    ensures var m := Exec(s, run).value;
            match m.trace[i].step
            case Step(Init(kind), Ok(_)) => GoesOn(m, i, Operate(kind))
            case Step(FindInit, Ok(_)) => GoesOn(m, i, FindNext)
            case Step(FindNext, Ok(n)) => GoesOn(m, i, if n > 0 then FindNext else FindFinal)
            case Step(FindNext, Failed) => GoesOn(m, i, FindFinal)
            case _ => true
  {
    Reachable(s, run);
    var m := Exec(s, run).value;
    if i + 1 < |m.trace| {
      assert Linked(m.trace, i);
    }
  }

  /** CloseSession is called at most once and no guarded call follows it. */
  lemma {:induction false} NothingAfterClose(s: State, run: Run, i: nat, j: nat)
    requires Initial(s) && Exec(s, run).Some? && i < j < |Exec(s, run).value.trace|
    requires Exec(s, run).value.trace[i].step.call.CloseSession?
    ensures !Guarded(Exec(s, run).value.trace[j].step.call)
  {
    Reachable(s, run);
    assert ClosedAt(Exec(s, run).value.trace, i);
  }

  // ---- Blocks ---------------------------------------------------------------

  /** The steps of one method by one thread. */
  datatype Whole = Whole(tid: Tid, job: Job, steps: seq<Step>)

  function Events(b: Whole): seq<Event> {
    seq(|b.steps|, i requires 0 <= i < |b.steps| => Event(b.tid, b.steps[i]))
  }

  function Flatten(blocks: seq<Whole>): seq<Event> {
    if blocks == [] then [] else Flatten(blocks[..|blocks| - 1]) + Events(blocks[|blocks| - 1])
  }

  predicate AllWhole(blocks: seq<Whole>) {
    forall b | b in blocks :: b.steps != [] && Block(b.job, false, b.steps)
  }

  /** The method a starting call belongs to. */
  function JobOf(c: Call): Job {
    match c
    case Init(kind) => Pair(kind)
    case Operate(kind) => Pair(kind)
    case CloseSession => Close
    case Single(guarded) => One(guarded)
    case _ => Find
  }

  /** The steps of one method so far: its first call, and each next one. */
  predicate Partial(w: Whole) {
    w.steps != [] ==>
      && First(w.job, false) == Some(w.steps[0].call)
      && forall i | 0 <= i < |w.steps| - 1 :: After(w.steps[i]) == Some(w.steps[i + 1].call)
  }

  /** `rest` with one more event, or the start of a method. */
  function Extend(rest: Whole, e: Event): Whole {
    if rest.steps == [] then Whole(e.tid, JobOf(e.step.call), [e.step]) else rest.(steps := rest.steps + [e.step])
  }

  lemma ExtendKeeps(rest: Whole, e: Event)
    requires Partial(rest)
    requires rest.steps == [] ==> !Continues(e.step.call)
    requires rest.steps != [] ==> rest.tid == e.tid && After(rest.steps[|rest.steps| - 1]) == Some(e.step.call)
    ensures Partial(Extend(rest, e)) && Events(Extend(rest, e)) == Events(rest) + [e]
    ensures After(e.step).None? ==> Block(Extend(rest, e).job, false, Extend(rest, e).steps)
  {
    var open := Extend(rest, e);
    forall i | 0 <= i < |open.steps| - 1 ensures After(open.steps[i]) == Some(open.steps[i + 1].call) {
      if i < |rest.steps| - 1 {
        assert open.steps[i] == rest.steps[i] && open.steps[i + 1] == rest.steps[i + 1];
      }
    }
  }

  lemma FlattenMore(blocks: seq<Whole>, w: Whole)
    requires AllWhole(blocks) && w.steps != [] && Block(w.job, false, w.steps)
    ensures AllWhole(blocks + [w]) && Flatten(blocks + [w]) == Flatten(blocks) + Events(w)
  {
    assert (blocks + [w])[..|blocks|] == blocks;
  }

  /** A chained trace is a row of whole blocks followed by the events of one
      method, which is unfinished exactly when its last step has a successor. */
  lemma {:induction false} SplitsIntoBlocks(trace: seq<Event>) returns (blocks: seq<Whole>, rest: Whole)
    requires Chained(trace)
    ensures trace == Flatten(blocks) + Events(rest) && AllWhole(blocks) && Partial(rest)
    ensures rest.steps == [] <==> trace == [] || After(trace[|trace| - 1].step).None?
    ensures rest.steps != [] ==> trace[|trace| - 1] == Event(rest.tid, rest.steps[|rest.steps| - 1])
  {
    if trace == [] {
      blocks, rest := [], Whole(0, Find, []);
    } else {
      var n := |trace| - 1;
      var before, e := trace[..n], trace[n];
      forall i | 0 <= i < |before| - 1 ensures Linked(before, i) {
        assert Linked(trace, i);
      }
      blocks, rest := SplitsIntoBlocks(before);
      if n > 0 {
        assert Linked(trace, n - 1);
      }
      ExtendKeeps(rest, e);
      assert trace == before + [e];
      assert trace == Flatten(blocks) + Events(Extend(rest, e));
      if After(e.step).Some? {
        rest := Extend(rest, e);
      } else {
        FlattenMore(blocks, Extend(rest, e));
        blocks, rest := blocks + [Extend(rest, e)], Whole(0, Find, []);
      }
    }
  }

  /** Every interleaving yields a concatenation of whole method blocks, plus
      the calls so far of the method that holds the mutex now, if any. */
  lemma {:induction false} TraceIsBlocks(s: State, run: Run) returns (blocks: seq<Whole>, rest: Whole)
    requires Initial(s) && Exec(s, run).Some?
    ensures Exec(s, run).value.trace == Flatten(blocks) + Events(rest) && AllWhole(blocks)
    ensures rest.steps != [] ==>
              && Partial(rest) && Exec(s, run).value.owner == Some(rest.tid)
              && After(rest.steps[|rest.steps| - 1]).Some?
  {
    Reachable(s, run);
    blocks, rest := SplitsIntoBlocks(Exec(s, run).value.trace);
  }
}
