/** The bodies that run under the session mutex: the init/operation pair, the
  find loop, and Close (p11/session.go, key.go). Each is proved to make exactly
  the calls of one block of SessionTrace. */
module SessionMethods {
  import opened Common
  import opened SessionTrace

  const BATCH: nat := 32

  /** What a call answers: whether it succeeds, and how many handles a find
      call would like to hand out. */
  datatype Answer = Answer(ok: bool, take: nat)

  /** The cryptoki.Ctx: any answers, and a finite search result that find calls
      hand out in order, at least one handle and at most the limit at a time
      until it is used up. */
  class Ctx {
    const script: nat -> Answer
    const matches: seq<nat>
    var pos: nat
    var log: seq<Step>

    constructor (script: nat -> Answer, matches: seq<nat>)
      ensures pos == 0 && log == [] && this.matches == matches && this.script == script
    {
      this.script, this.matches := script, matches;
      pos, log := 0, [];
    }

    method Do(call: Call) returns (ok: bool)
      modifies this
      ensures ok == script(|old(log)|).ok
      ensures log == old(log) + [Step(call, if ok then Ok(0) else Failed)]
      ensures pos == if call.FindInit? && ok then 0 else old(pos)
    {
      ok := script(|log|).ok;
      log := log + [Step(call, if ok then Ok(0) else Failed)];
      pos := if call.FindInit? && ok then 0 else pos;
    }

    /** A limit below one asks for nothing and makes no call. */
    method FindObjects(limit: int) returns (ok: bool, batch: seq<nat>)
      requires pos <= |matches|
      modifies this
      ensures limit <= 0 ==> ok && batch == [] && pos == old(pos) && log == old(log)
      ensures limit > 0 ==> ok == script(|old(log)|).ok
      ensures !ok ==> batch == [] && pos == old(pos) && log == old(log) + [Step(FindNext, Failed)]
      ensures ok && limit > 0 ==> old(pos) <= pos <= |matches| && batch == matches[old(pos)..pos] && |batch| <= limit
      ensures ok && limit > 0 ==> log == old(log) + [Step(FindNext, Ok(|batch|))]
      ensures ok && limit > 0 ==> (batch == [] <==> old(pos) == |matches|)
    {
      if limit <= 0 {
        return true, [];
      }
      var answer := script(|log|);
      ok, batch := answer.ok, [];
      if !ok {
        log := log + [Step(FindNext, Failed)];
        return;
      }
      var left := |matches| - pos;
      var most := if left < limit then left else limit;
      var n := if left == 0 then 0 else 1 + answer.take % most;
      batch := matches[pos..pos + n];
      pos := pos + n;
      log := log + [Step(FindNext, Ok(n))];
    }
  }

  predicate SomeFailed(steps: seq<Step>) {
    exists i :: 0 <= i < |steps| && steps[i].outcome.Failed?
  }

  /** One search: opened once, closed once when it was opened, and never used
      after it was closed. */
  predicate FinalOnce(steps: seq<Step>) {
    && steps != [] && steps[0].call.FindInit?
    && (forall i | 0 < i < |steps| - 1 :: steps[i].call.FindNext?)
    && (forall i | 0 <= i < |steps| - 1 :: !steps[i].call.FindFinal?)
    && (steps[|steps| - 1].call.FindFinal? <==> steps[0].outcome.Ok?)
  }

  /** The steps of a search that has been opened and not closed. */
  predicate Searched(steps: seq<Step>) {
    && steps != [] && steps[0].call.FindInit? && steps[0].outcome.Ok?
    && (forall i | 0 <= i < |steps| :: steps[i].call.FindInit? || steps[i].call.FindNext?)
    && (forall i | 0 <= i < |steps| - 1 :: After(steps[i]) == Some(steps[i + 1].call))
  }

  lemma FailedMore(steps: seq<Step>, next: Step)
    ensures SomeFailed(steps + [next]) <==> SomeFailed(steps) || next.outcome.Failed?
    ensures (steps + [next])[..|steps|] == steps
  {
    var more := steps + [next];
    if next.outcome.Failed? {
      assert more[|steps|].outcome.Failed?;
    }
    if i :| 0 <= i < |steps| && steps[i].outcome.Failed? {
      assert more[i].outcome.Failed?;
    }
  }

  lemma Longer(steps: seq<Step>, next: Step)
    requires Searched(steps) && After(steps[|steps| - 1]) == Some(FindNext) && next.call.FindNext?
    ensures Searched(steps + [next])
    ensures SomeFailed(steps + [next]) <==> SomeFailed(steps) || next.outcome.Failed?
  {
    FailedMore(steps, next);
    var more := steps + [next];
    forall i | 0 <= i < |more| - 1 ensures After(more[i]) == Some(more[i + 1].call) {
      if i < |steps| - 1 {
        assert more[i] == steps[i] && more[i + 1] == steps[i + 1];
      }
    }
  }

  lemma Closes(steps: seq<Step>, final: Step, closed: bool)
    requires Searched(steps) && After(steps[|steps| - 1]) == Some(FindFinal) && final.call.FindFinal?
    ensures Block(Find, closed, steps + [final]) && FinalOnce(steps + [final])
    ensures SomeFailed(steps + [final]) <==> SomeFailed(steps) || final.outcome.Failed?
    ensures (steps + [final])[..|steps + [final]| - 1] == steps
  {
    FailedMore(steps, final);
    var more := steps + [final];
    forall i | 0 <= i < |more| - 1 ensures After(more[i]) == Some(more[i + 1].call) && !more[i].call.FindFinal? {
      assert more[i] == steps[i];
      if i < |steps| - 1 {
        assert more[i + 1] == steps[i + 1];
      }
    }
    forall i | 0 < i < |more| - 1 ensures more[i].call.FindNext? {
      assert more[i] == steps[i] && After(steps[i - 1]) == Some(steps[i].call);
    }
  }

  /** On an open session the init alone, failed, or the init and then its own
      operation; nothing on a closed one. Success is that both succeeded. */
  predicate PairCalls(kind: Kind, closed: bool, ok: bool, steps: seq<Step>) {
    if closed then steps == [] && !ok
    else
      || (steps == [Step(Init(kind), Failed)] && !ok)
      || (|steps| == 2 && steps[0].call == Init(kind) && steps[0].outcome.Ok? && steps[1].call == Operate(kind)
          && (ok <==> steps[1].outcome.Ok?))
  }

  datatype Found = One(handle: nat) | NoneMatched | Several(count: nat) | Error

  class Session {
    const ctx: Ctx
    var closed: bool

    constructor (ctx: Ctx)
      ensures !closed && this.ctx == ctx
    {
      this.ctx, closed := ctx, false;
    }

    /** Encrypt, Decrypt, Sign, Verify and VerifyStateless under the mutex. */
    method InitThenOperate(kind: Kind) returns (ok: bool, ghost steps: seq<Step>)
      modifies ctx
      ensures ctx.log == old(ctx.log) + steps && Block(Pair(kind), closed, steps)
      ensures PairCalls(kind, closed, ok, steps)
      ensures ok ==> |steps| == 2 && steps[0].call == Init(kind) && steps[1].call == Operate(kind) && !SomeFailed(steps)
    {
      steps := [];
      if closed {
        return false, steps;
      }
      ok := ctx.Do(Init(kind));
      steps := [Step(Init(kind), if ok then Ok(0) else Failed)];
      if !ok {
        return;
      }
      ok := ctx.Do(Operate(kind));
      steps := steps + [Step(Operate(kind), if ok then Ok(0) else Failed)];
    }

    /** Close: idempotent, and the session counts as closed even when the call
        fails. */
    method Close() returns (ok: bool, ghost steps: seq<Step>)
      modifies this, ctx
      ensures closed && ctx.log == old(ctx.log) + steps && Block(SessionTrace.Close, old(closed), steps)
      ensures if old(closed) then steps == [] && ok
              else |steps| == 1 && steps[0].call == CloseSession && (ok <==> steps[0].outcome.Ok?)
    {
      steps := [];
      if closed {
        return true, steps;
      }
      closed := true;
      ok := ctx.Do(CloseSession);
      steps := [Step(CloseSession, if ok then Ok(0) else Failed)];
    }

    /** FindObjects: every matching handle in the order of the search, unless an
        earlier call than the final one fails, and one final call on every path
        after a successful init. */
    method FindObjects() returns (ok: bool, found: seq<nat>, ghost steps: seq<Step>)
      modifies ctx
      ensures ctx.log == old(ctx.log) + steps && Block(Find, closed, steps) && FinalOnce(steps)
      ensures ok <==> !SomeFailed(steps)
      ensures found == if |steps| > 1 && !SomeFailed(steps[..|steps| - 1]) then ctx.matches else []
    {
      var begun := ctx.Do(FindInit);
      steps := [Step(FindInit, if begun then Ok(0) else Failed)];
      if !begun {
        assert steps[0].outcome.Failed?;
        return false, [], steps;
      }
      ok, found, steps := Collect(steps);
    }

    /** The final call of a search. */
    method Finish(ghost steps: seq<Step>) returns (ok: bool, ghost all: seq<Step>)
      requires Searched(steps) && After(steps[|steps| - 1]) == Some(FindFinal)
      modifies ctx
      ensures |all| == |steps| + 1 && all[..|steps|] == steps && ctx.log == old(ctx.log) + all[|steps|..]
      ensures Block(Find, closed, all) && FinalOnce(all)
      ensures SomeFailed(all) <==> SomeFailed(steps) || !ok
    {
      ok := ctx.Do(FindFinal);
      ghost var final := Step(FindFinal, if ok then Ok(0) else Failed);
      Closes(steps, final, closed);
      all := steps + [final];
      assert all[|steps|..] == [final];
    }

    /** The loop, up to the final call. */
    method Collect(ghost begun: seq<Step>) returns (ok: bool, found: seq<nat>, ghost steps: seq<Step>)
      requires ctx.pos == 0 && Searched(begun) && !SomeFailed(begun) && |begun| == 1
      modifies ctx
      ensures begun <= steps && ctx.log == old(ctx.log) + steps[1..] && Block(Find, closed, steps) && FinalOnce(steps)
      ensures ok <==> !SomeFailed(steps)
      ensures found == if |steps| > 1 && !SomeFailed(steps[..|steps| - 1]) then ctx.matches else []
    {
      ghost var searched;
      ok, found, searched := Batches(begun);
      var closedOk;
      closedOk, steps := Finish(searched);
      assert steps[1..] == searched[1..] + steps[|searched|..];
      assert old(ctx.log) + searched[1..] + steps[|searched|..] == old(ctx.log) + (searched[1..] + steps[|searched|..]);
      ok := ok && closedOk;
    }

    /** The batches, until one is empty or a call fails. */
    method Batches(ghost begun: seq<Step>) returns (ok: bool, found: seq<nat>, ghost steps: seq<Step>)
      requires ctx.pos == 0 && Searched(begun) && !SomeFailed(begun) && |begun| == 1
      modifies ctx
      ensures begun <= steps && ctx.log == old(ctx.log) + steps[1..] && Searched(steps)
      ensures After(steps[|steps| - 1]) == Some(FindFinal) && (ok <==> !SomeFailed(steps))
      ensures found == if ok then ctx.matches else []
    {
      steps, found := begun, [];
      while true
        invariant begun <= steps && ctx.log == old(ctx.log) + steps[1..] && Searched(steps) && !SomeFailed(steps)
        invariant After(steps[|steps| - 1]) == Some(FindNext)
        invariant 0 <= ctx.pos <= |ctx.matches| && found == ctx.matches[..ctx.pos]
        decreases |ctx.matches| - ctx.pos
      {
        var batch;
        ok, batch := ctx.FindObjects(BATCH);
        ghost var next := Step(FindNext, if ok then Ok(|batch|) else Failed);
        Longer(steps, next);
        steps := steps + [next];
        if !ok {
          return false, [], steps;
        }
        if |batch| == 0 {
          assert ctx.matches[..|ctx.matches|] == ctx.matches;
          return true, found, steps;
        }
        found := found + batch;
      }
    }

    /** FindObject: the handle when exactly one object matches. */
    method FindObject() returns (r: Found, ghost steps: seq<Step>)
      modifies ctx
      ensures ctx.log == old(ctx.log) + steps && Block(Find, closed, steps)
      ensures r.Error? <==> SomeFailed(steps)
      ensures !r.Error? ==> (r.One? <==> |ctx.matches| == 1) && (r.NoneMatched? <==> ctx.matches == [])
      ensures r.One? ==> ctx.matches == [r.handle]
      ensures r.Several? ==> r.count == |ctx.matches| > 1
    {
      var ok, found;
      ok, found, steps := FindObjects();
      if !ok {
        return Error, steps;
      }
      r := if |found| == 0 then NoneMatched else if |found| == 1 then Found.One(found[0]) else Several(|found|);
    }
  }
}
