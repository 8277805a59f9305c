/** Choosing one name for each attribute value (cmd/genconst/main.go). */
module Table {
  import opened Common
  import opened Text
  import opened TextFields
  import opened Translation
  import opened Numbers
  import opened Expressions
  import opened Evaluation

  /** isIdentifier: the define is an alias of another name. */
  predicate IsAlias(d: Define) {
    IsIdentifier(TrimSpace(d.value))
  }

  /** A Go map lookup: zero for a key that is not there. */
  function Value(values: Env, d: Define): nat {
    if d.name in values then values[d.name] else 0
  }

  /** Define i is an attribute with this value. */
  predicate Has(defines: seq<Define>, values: Env, i: nat, v: nat) {
    i < |defines| && IsAttribute(defines[i].name) && Value(values, defines[i]) == v
  }

  /** Define i is the first attribute with this value. */
  predicate First(defines: seq<Define>, values: Env, i: nat, v: nat) {
    Has(defines, values, i, v) && forall j: nat | j < i :: !Has(defines, values, j, v)
  }

  /** Define i may name the value: it is the first or it is no alias. */
  predicate Candidate(defines: seq<Define>, values: Env, i: nat, v: nat) {
    Has(defines, values, i, v) && (First(defines, values, i, v) || !IsAlias(defines[i]))
  }

  /** Of the first n defines, define i names the value: it is the last candidate. */
  predicate Chosen(defines: seq<Define>, values: Env, n: nat, i: nat, v: nat)
    requires n <= |defines|
  {
    i < n && Candidate(defines, values, i, v) && forall j: nat | i < j < n :: !Candidate(defines, values, j, v)
  }

  /** The same without the candidates: no later attribute with the value is
      anything but an alias, and if this one is an alias it is the first. */
  lemma ChosenIff(defines: seq<Define>, values: Env, n: nat, i: nat, v: nat)
    requires n <= |defines|
    ensures Chosen(defines, values, n, i, v) <==>
            && i < n && Has(defines, values, i, v)
            && (forall j: nat | i < j < n && Has(defines, values, j, v) :: IsIdentifier(TrimSpace(defines[j].value)))
            && (IsIdentifier(TrimSpace(defines[i].value)) ==> forall j: nat | j < i :: !Has(defines, values, j, v))
  {
    if i < n && Has(defines, values, i, v) {
      forall j: nat | i < j < n
        ensures Candidate(defines, values, j, v) <==> Has(defines, values, j, v) && !IsIdentifier(TrimSpace(defines[j].value))
      {
        assert !First(defines, values, j, v);
      }
    }
  }

  /** A later attribute that is no alias takes its value over from every earlier
      one. */
  lemma Superseded(defines: seq<Define>, values: Env, i: nat, j: nat, v: nat)
    requires i < j < |defines| && Has(defines, values, j, v) && !IsAlias(defines[j])
    ensures !Chosen(defines, values, |defines|, i, v)
  {
    ChosenIff(defines, values, |defines|, i, v);
  }

  /** The values the first n defines bring in, in the order of their first use. */
  function Order(defines: seq<Define>, values: Env, n: nat): seq<nat>
    requires n <= |defines|
  {
    if n == 0 then []
    else
      var v := Value(values, defines[n - 1]);
      Order(defines, values, n - 1) + if First(defines, values, n - 1, v) then [v] else []
  }

  lemma {:induction false} OrderIs(defines: seq<Define>, values: Env, n: nat)
    requires n <= |defines|
    ensures var order := Order(defines, values, n);
            && (forall v :: v in order <==> exists i: nat | i < n :: Has(defines, values, i, v))
            && Distinct(order)
  {
    if n > 0 {
      OrderIs(defines, values, n - 1);
      var before, w := Order(defines, values, n - 1), Value(values, defines[n - 1]);
      if First(defines, values, n - 1, w) {
        assert w !in before;
        assert Has(defines, values, n - 1, w);
      }
      forall v | v in before ensures exists i: nat | i < n :: Has(defines, values, i, v) {
        var i: nat :| i < n - 1 && Has(defines, values, i, v);
      }
    }
  }

  predicate Distinct(order: seq<nat>) {
    forall i, j | 0 <= i < j < |order| :: order[i] != order[j]
  }

  /** The values stand in the order of their first attributes. */
  lemma OrderOfFirstUse(defines: seq<Define>, values: Env, p: nat, v: nat, q: nat, w: nat)
    requires p < q < |defines| && First(defines, values, p, v) && First(defines, values, q, w)
    ensures var order := Order(defines, values, |defines|);
            exists i, j :: 0 <= i < j < |order| && order[i] == v && order[j] == w
  {
    var before := Order(defines, values, q);
    OrderIs(defines, values, q);
    assert v in before;
    var i :| 0 <= i < |before| && before[i] == v;
    assert Order(defines, values, q + 1) == before + [w];
    OrderGrows(defines, values, q + 1, |defines|);
    var order := Order(defines, values, |defines|);
    assert order[i] == v && order[|before|] == w;
  }

  lemma {:induction false} OrderGrows(defines: seq<Define>, values: Env, m: nat, n: nat)
    requires m <= n <= |defines|
    ensures Order(defines, values, m) <= Order(defines, values, n)
  {
    if m < n {
      OrderGrows(defines, values, m, n - 1);
    }
  }

  /** The entry of every value of the first n defines. */
  ghost predicate Named(defines: seq<Define>, values: Env, n: nat, names: map<nat, string>)
    requires n <= |defines|
  {
    && (forall i: nat, v: nat | i < n && Has(defines, values, i, v) :: v in names)
    && (forall v | v in names :: exists i: nat :: Chosen(defines, values, n, i, v) && defines[i].name == names[v])
  }

  lemma ChosenStays(defines: seq<Define>, values: Env, n: nat, i: nat, v: nat)
    requires n < |defines| && Chosen(defines, values, n, i, v) && !Candidate(defines, values, n, v)
    ensures Chosen(defines, values, n + 1, i, v)
  {
  }

  lemma ChosenNow(defines: seq<Define>, values: Env, n: nat, v: nat)
    requires n < |defines| && Candidate(defines, values, n, v)
    ensures Chosen(defines, values, n + 1, n, v)
  {
  }

  /** A define is a candidate for a value that has no name yet, and for one that
      has when it is no alias. */
  lemma CandidateNow(defines: seq<Define>, values: Env, n: nat, names: map<nat, string>, v: nat)
    requires n < |defines| && Named(defines, values, n, names)
    ensures Candidate(defines, values, n, v) <==>
            Has(defines, values, n, v) && (v !in names || !IsAlias(defines[n]))
  {
    if v in names {
      var i: nat :| Chosen(defines, values, n, i, v) && defines[i].name == names[v];
      assert Has(defines, values, i, v);
    }
  }

  /** One turn of the loop of renderAttributes. */
  lemma NamedStep(defines: seq<Define>, values: Env, n: nat, names: map<nat, string>, next: map<nat, string>)
    requires n < |defines| && Named(defines, values, n, names)
    requires var d := defines[n]; var v := Value(values, d);
             next == if IsAttribute(d.name) && (v !in names || !IsAlias(d)) then names[v := d.name] else names
    ensures Named(defines, values, n + 1, next)
  {
    forall v | v in next
      ensures exists i: nat :: Chosen(defines, values, n + 1, i, v) && defines[i].name == next[v]
    {
      CandidateNow(defines, values, n, names, v);
      if Candidate(defines, values, n, v) {
        ChosenNow(defines, values, n, v);
      } else {
        var i: nat :| Chosen(defines, values, n, i, v) && defines[i].name == names[v];
        ChosenStays(defines, values, n, i, v);
      }
    }
  }

  /** The loop of renderAttributes: every attribute value has one entry, in the
      order of first use, and the entry is the last candidate. */
  method Resolve(defines: seq<Define>, values: Env) returns (names: map<nat, string>, order: seq<nat>)
    ensures order == Order(defines, values, |defines|)
    ensures forall v :: v in names <==> v in order
    ensures forall v | v in names ::
              exists i: nat :: Chosen(defines, values, |defines|, i, v) && defines[i].name == names[v]
  {
    names, order := map[], [];
    for n := 0 to |defines|
      invariant order == Order(defines, values, n)
      invariant forall v :: v in names <==> v in order
      invariant Named(defines, values, n, names)
    {
      var d := defines[n];
      var v := Value(values, d);
      ghost var before := names;
      OrderIs(defines, values, n);
      if IsAttribute(d.name) {
        if v !in names {
          order := order + [v];
          names := names[v := d.name];
        } else if !IsAlias(d) {
          names := names[v := d.name];
        }
      }
      NamedStep(defines, values, n, before, names);
    }
  }

  /** renderAttributes, up to the text it emits: it fails with evaluate, and else
      resolves the names by the values of the defines. */
  method RenderAttributes(defines: seq<Define>) returns (table: Option<(map<nat, string>, seq<nat>)>)
    ensures table.Some? <==> AttributesDenote(defines, Meanings(defines), |defines|)
    ensures table.Some? ==> table.value.1 == Order(defines, Known(defines), |defines|)
    ensures table.Some? ==> forall v :: v in table.value.0 <==> v in table.value.1
    ensures table.Some? ==> forall v | v in table.value.0 ::
              exists i: nat :: Chosen(defines, Known(defines), |defines|, i, v) && defines[i].name == table.value.0[v]
  {
    var values := Evaluate(defines);
    if values.None? {
      return None;
    }
    var names, order := Resolve(defines, values.value);
    return Some((names, order));
  }

  // ---- Aliases -------------------------------------------------------------------

  /** An alias has the value of the name it aliases. */
  lemma AliasValue(d: Define, known: Env)
    requires IsAlias(d)
    ensures var id := TrimSpace(d.value); ValueOf(d, known) == if id in known then Some(known[id]) else None
  {
    var id := TrimSpace(d.value);
    assert id[0] in id && IsWord(id[0]);
    SplitHasNoBars(id);
    IdentifierNeverParses(id);
    var l, r := TrimParts(d.value);
    TrimOf([], id, []);
    assert [] + id + [] == id;
    assert EvalTerms([id], known) == Either(EvalTerm(id, known), Some(0));
  }

  /** The define that an alias stands for comes before it and has its value. */
  lemma Aliased(defines: seq<Define>, k: nat) returns (j: nat)
    requires DistinctNames(defines) && k < |defines| && IsAlias(defines[k]) && Meanings(defines)[k].Some?
    ensures j < k && defines[j].name == TrimSpace(defines[k].value) && Meanings(defines)[j].Some?
    ensures Value(Known(defines), defines[j]) == Value(Known(defines), defines[k])
  {
    var all := Meanings(defines);
    var id, before := TrimSpace(defines[k].value), Record(defines, all, k);
    MeaningAt(defines, k);
    AliasValue(defines[k], before);
    RecordedIsLast(defines, all, k, id);
    j :| Last(defines, all, k, j, id) && all[j] == Some(before[id]);
    RecordedValue(defines, all, k);
    RecordedValue(defines, all, j);
  }

  /** Each define of the path but the last is an alias of the next one, and the
      last is an attribute. */
  predicate LeadsToAttribute(defines: seq<Define>, path: seq<nat>) {
    && |path| > 1 && (forall i | 0 <= i < |path| :: path[i] < |defines|)
    && (forall i | 0 <= i < |path| - 1 ::
          IsAlias(defines[path[i]]) && TrimSpace(defines[path[i]].value) == defines[path[i + 1]].name)
    && IsAttribute(defines[path[|path| - 1]].name)
  }

  /** A chain of aliases ends in an earlier attribute with the same value,
      whatever kinds of names it passes through. */
  lemma {:induction false} ChainKeepsValue(defines: seq<Define>, path: seq<nat>)
    requires DistinctNames(defines) && LeadsToAttribute(defines, path) && Meanings(defines)[path[0]].Some?
    ensures path[|path| - 1] < path[0]
    ensures Value(Known(defines), defines[path[|path| - 1]]) == Value(Known(defines), defines[path[0]])
  {
    var j := Aliased(defines, path[0]);
    assert j == path[1];
    if |path| > 2 {
      var rest := path[1..];
      forall i | 0 <= i < |rest| - 1
        ensures IsAlias(defines[rest[i]]) && TrimSpace(defines[rest[i]].value) == defines[rest[i + 1]].name
      {
        assert rest[i] == path[i + 1];
      }
      ChainKeepsValue(defines, rest);
    }
  }

  /** With distinct names, and values that evaluate computed, a define that a
      chain of aliases leads from to any attribute never names a value. */
  lemma AliasNeverChosen(defines: seq<Define>, path: seq<nat>, i: nat, v: nat)
    requires DistinctNames(defines) && AttributesDenote(defines, Meanings(defines), |defines|)
    requires LeadsToAttribute(defines, path)
    requires Chosen(defines, Known(defines), |defines|, i, v)
    ensures defines[i].name != defines[path[0]].name
  {
    var values, k, j := Known(defines), path[0], path[|path| - 1];
    if IsAttribute(defines[k].name) {
      ChainKeepsValue(defines, path);
      assert Has(defines, values, j, Value(values, defines[k]));
      assert !First(defines, values, k, Value(values, defines[k]));
      assert !Candidate(defines, values, k, Value(values, defines[k]));
    }
  }
}
