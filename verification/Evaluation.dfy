/** Evaluating the define list (cmd/genconst/main.go). */
module Evaluation {
  import opened Common
  import opened Text
  import opened Translation
  import opened Numbers
  import opened Expressions

  datatype Define = Define(name: string, value: string)

  predicate IsAttribute(name: string) {
    |name| >= 4 && name[0] == 'C' && name[1] == 'K' && name[2] == 'A' && name[3] == '_'
  }

  /** The value of a define where these names are known. */
  function ValueOf(d: Define, known: Env): Option<nat> {
    EvalTerms(Split(Inner(d.value)), known)
  }

  /** The names recorded by the first n defines, a later value over an earlier. */
  function Record(defines: seq<Define>, outcomes: seq<Option<nat>>, n: nat): Env
    requires n <= |defines| && n <= |outcomes|
  {
    if n == 0 then map[]
    else
      var known := Record(defines, outcomes, n - 1);
      if outcomes[n - 1].Some? then known[defines[n - 1].name := outcomes[n - 1].value] else known
  }

  /** What each of the first n defines denotes, computed from those before it. */
  function Outcomes(defines: seq<Define>, n: nat): (outcomes: seq<Option<nat>>)
    requires n <= |defines|
    ensures |outcomes| == n
  {
    if n == 0 then []
    else
      var before := Outcomes(defines, n - 1);
      before + [ValueOf(defines[n - 1], Record(defines, before, n - 1))]
  }

  function Meanings(defines: seq<Define>): (outcomes: seq<Option<nat>>)
    ensures |outcomes| == |defines|
  {
    Outcomes(defines, |defines|)
  }

  function Known(defines: seq<Define>): Env {
    Record(defines, Meanings(defines), |defines|)
  }

  lemma {:induction false} RecordPrefix(defines: seq<Define>, x: seq<Option<nat>>, y: seq<Option<nat>>, n: nat)
    requires n <= |defines| && n <= |x| && x <= y
    ensures Record(defines, x, n) == Record(defines, y, n)
  {
    if n > 0 {
      RecordPrefix(defines, x, y, n - 1);
    }
  }

  lemma LastOutcome(defines: seq<Define>, n: nat) returns (x: Option<nat>)
    requires 0 < n <= |defines|
    ensures Outcomes(defines, n) == Outcomes(defines, n - 1) + [x]
    ensures x == ValueOf(defines[n - 1], Record(defines, Outcomes(defines, n - 1), n - 1))
  {
    x := ValueOf(defines[n - 1], Record(defines, Outcomes(defines, n - 1), n - 1));
  }

  lemma Longer<T>(s: seq<T>, t: seq<T>, x: T)
    requires s <= t
    ensures s <= t + [x]
  {
  }

  lemma {:induction false} OutcomesPrefix(defines: seq<Define>, n: nat, m: nat)
    requires n <= m <= |defines|
    ensures Outcomes(defines, n) <= Outcomes(defines, m)
  {
    if n < m {
      OutcomesPrefix(defines, n, m - 1);
      OneLonger(defines, Outcomes(defines, n), m);
    }
  }

  lemma OneLonger(defines: seq<Define>, s: seq<Option<nat>>, m: nat)
    requires 0 < m <= |defines| && s <= Outcomes(defines, m - 1)
    ensures s <= Outcomes(defines, m)
  {
    var x := LastOutcome(defines, m);
    Longer(s, Outcomes(defines, m - 1), x);
  }

  /** Every define denotes what it evaluates to where the names before it are
      recorded. */
  lemma MeaningAt(defines: seq<Define>, i: nat)
    requires i < |defines|
    ensures Meanings(defines)[i] == ValueOf(defines[i], Record(defines, Meanings(defines), i))
  {
    var x := LastOutcome(defines, i + 1);
    OutcomesPrefix(defines, i, |defines|);
    OutcomesPrefix(defines, i + 1, |defines|);
    RecordPrefix(defines, Outcomes(defines, i), Meanings(defines), i);
    assert Meanings(defines)[i] == Outcomes(defines, i + 1)[i];
  }

  /** Of the first n defines every attribute denotes a value. */
  predicate AttributesDenote(defines: seq<Define>, outcomes: seq<Option<nat>>, n: nat)
    requires n <= |defines| && n <= |outcomes|
  {
    forall i: nat | i < n && IsAttribute(defines[i].name) :: outcomes[i].Some?
  }

  lemma OneMore(defines: seq<Define>, outcomes: seq<Option<nat>>, n: nat)
    requires n < |defines| && n < |outcomes| && AttributesDenote(defines, outcomes, n)
    ensures AttributesDenote(defines, outcomes, n + 1) <==> IsAttribute(defines[n].name) ==> outcomes[n].Some?
    ensures IsAttribute(defines[n].name) && outcomes[n].None? && |defines| == |outcomes| ==>
              !AttributesDenote(defines, outcomes, |defines|)
  {
  }

  /** evaluate: it fails exactly when some attribute is not computable from the
      defines before it. */
  method Evaluate(defines: seq<Define>) returns (r: Option<Env>)
    ensures r.Some? <==> AttributesDenote(defines, Meanings(defines), |defines|)
    ensures r.Some? ==> r.value == Known(defines)
  {
    ghost var all := Meanings(defines);
    var values: Env := map[];
    for n := 0 to |defines|
      invariant values == Record(defines, all, n)
      invariant AttributesDenote(defines, all, n)
    {
      MeaningAt(defines, n);
      OneMore(defines, all, n);
      var d := defines[n];
      var v := EvalExpr(d.value, values);
      if v.Some? {
        values := values[d.name := v.value];
      } else if IsAttribute(d.name) {
        return None;
      }
    }
    return Some(values);
  }

  /** Of the first n defines, i is the last computable one of its name. */
  predicate Last(defines: seq<Define>, outcomes: seq<Option<nat>>, n: nat, i: nat, name: string)
    requires n <= |defines| && n <= |outcomes|
  {
    && i < n && defines[i].name == name && outcomes[i].Some?
    && forall j: nat | i < j < n :: defines[j].name == name ==> outcomes[j].None?
  }

  /** A name is recorded exactly when it has a computable define, and with the
      value that its last one denotes. */
  lemma {:induction false} RecordedIsLast(defines: seq<Define>, outcomes: seq<Option<nat>>, n: nat, name: string)
    requires n <= |defines| && n <= |outcomes|
    ensures var known := Record(defines, outcomes, n);
            name in known ==> exists i: nat :: Last(defines, outcomes, n, i, name) && outcomes[i] == Some(known[name])
    ensures forall i: nat | i < n && defines[i].name == name && outcomes[i].Some? ::
              name in Record(defines, outcomes, n)
  {
    if n > 0 {
      RecordedIsLast(defines, outcomes, n - 1, name);
      var before := Record(defines, outcomes, n - 1);
      if defines[n - 1].name == name && outcomes[n - 1].Some? {
        assert Last(defines, outcomes, n, n - 1, name);
      } else if name in before {
        var i: nat :| Last(defines, outcomes, n - 1, i, name) && outcomes[i] == Some(before[name]);
        assert Last(defines, outcomes, n, i, name);
      }
    }
  }

  predicate DistinctNames(defines: seq<Define>) {
    forall i, j | 0 <= i < j < |defines| :: defines[i].name != defines[j].name
  }

  predicate Extends(more: Env, known: Env) {
    forall name | name in known :: name in more && more[name] == known[name]
  }

  lemma {:induction false} RecordGrows(defines: seq<Define>, outcomes: seq<Option<nat>>, i: nat, n: nat)
    requires DistinctNames(defines) && i <= n <= |defines| && n <= |outcomes|
    ensures Extends(Record(defines, outcomes, n), Record(defines, outcomes, i))
  {
    if i < n {
      RecordGrows(defines, outcomes, i, n - 1);
      RecordedIsLast(defines, outcomes, n - 1, defines[n - 1].name);
    }
  }

  lemma {:induction false} MoreKnown(terms: seq<string>, known: Env, more: Env)
    requires Extends(more, known) && EvalTerms(terms, known).Some?
    ensures EvalTerms(terms, more) == EvalTerms(terms, known)
  {
    if terms != [] {
      MoreKnown(terms[1..], known, more);
    }
  }

  lemma RecordedValue(defines: seq<Define>, outcomes: seq<Option<nat>>, i: nat)
    requires DistinctNames(defines) && i < |defines| == |outcomes| && outcomes[i].Some?
    ensures var known, name := Record(defines, outcomes, |defines|), defines[i].name;
            name in known && Some(known[name]) == outcomes[i]
  {
    RecordedIsLast(defines, outcomes, |defines|, defines[i].name);
  }

  /** With distinct names the recorded values are consistent with all of the
      defines at once: in the final table each recorded name has the value its
      define denotes in that same table. */
  lemma Consistent(defines: seq<Define>, i: nat)
    requires DistinctNames(defines) && i < |defines| && Meanings(defines)[i].Some?
    ensures var known, name := Known(defines), defines[i].name;
            name in known && Meanings(defines)[i] == Some(known[name]) == ValueOf(defines[i], known)
  {
    var n, all := |defines|, Meanings(defines);
    RecordedValue(defines, all, i);
    MeaningAt(defines, i);
    RecordGrows(defines, all, i, n);
    MoreKnown(Split(Inner(defines[i].value)), Record(defines, all, i), Record(defines, all, n));
  }
}
