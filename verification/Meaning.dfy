/** What a macro value of the header means in C, and that its translation means
  the same in Go (cmd/genconst/main.go). */
module Meaning {
  import opened Common
  import opened Text
  import opened TextFields
  import opened Translation
  import opened Numbers
  import opened Expressions

  // ---- The header's grammar ------------------------------------------------------

  datatype Term = Literal(body: string, suffix: string) | Name(id: string)

  datatype Expr =
    | Bare(terms: seq<Term>)
    | Paren(terms: seq<Term>)
    | AllOnes(suffix: string)

  predicate IsTerm(t: Term) {
    match t
    case Literal(body, suffix) => IsCLiteral(body) && AllSuffix(suffix)
    case Name(id) => IsIdentifier(id)
  }

  function Spell(t: Term): string {
    match t
    case Literal(body, suffix) => body + suffix
    case Name(id) => id
  }

  /** The term without its suffix. */
  function Plain(t: Term): string {
    match t
    case Literal(body, _) => body
    case Name(id) => id
  }

  /** The parts are the terms, with white space around each. */
  ghost predicate Spells(parts: seq<string>, terms: seq<Term>) {
    && |parts| == |terms| > 0
    && forall i | 0 <= i < |terms| :: IsTerm(terms[i]) && Padded(parts[i], Spell(terms[i]))
  }

  predicate Solid(s: string) {
    s != [] && !IsSpace(s[0]) && !IsSpace(s[|s| - 1])
  }

  function InParens(s: string): string {
    ['('] + (s + [')'])
  }

  ghost predicate WritesBare(raw: string, parts: seq<string>, terms: seq<Term>) {
    Spells(parts, terms) && Solid(Join(parts, "|")) && Padded(raw, Join(parts, "|"))
  }

  ghost predicate WritesParen(raw: string, parts: seq<string>, terms: seq<Term>) {
    Spells(parts, terms) && Padded(raw, InParens(Join(parts, "|")))
  }

  ghost predicate WritesAllOnes(raw: string, a: string, b: string, c: string, suffix: string) {
    && AllSpace(a) && AllSpace(b) && AllSpace(c) && AllSuffix(suffix)
    && Padded(raw, InParens(a + (['~'] + (b + (['0'] + suffix) + c))))
  }

  /** The raw text is a way to write the expression. */
  ghost predicate Writes(raw: string, e: Expr) {
    match e
    case Bare(terms) => exists parts :: WritesBare(raw, parts, terms)
    case Paren(terms) => exists parts :: WritesParen(raw, parts, terms)
    case AllOnes(suffix) => exists a, b, c :: WritesAllOnes(raw, a, b, c, suffix)
  }

  // ---- Values --------------------------------------------------------------------

  function CTerm(t: Term, env: Env): Option<nat> {
    match t
    case Literal(body, _) => if IsCLiteral(body) then Some(CLiteral(body)) else None
    case Name(id) => if id in env then Some(env[id]) else None
  }

  /** The C value of terms joined by the or operator. */
  function COr(terms: seq<Term>, env: Env): Option<nat> {
    if terms == [] then Some(0) else Either(CTerm(terms[0], env), COr(terms[1..], env))
  }

  /** The value is an expression of exactly these terms, their suffixes gone. */
  predicate Carries(value: string, terms: seq<Term>) {
    var parts := Split(Inner(value));
    |parts| == |terms| && forall i | 0 <= i < |terms| :: TrimSpace(parts[i]) == Plain(terms[i])
  }

  lemma PlainTerm(t: Term)
    requires IsTerm(t)
    ensures var p := Plain(t); p != [] && AllWord(p) && NoSpace(p) && NoBar(p) && TrimSpace(p) == p
    ensures AllWord(Spell(t)) && Spell(t) != [] && StripWord(Spell(t)) == Plain(t)
  {
    var p := Plain(t);
    match t {
      case Literal(body, suffix) =>
        LiteralIsWord(body);
        BodyOf(body, suffix);
      case Name(id) =>
        IdentifierKept(id);
    }
    assert forall c | c in p :: IsWord(c);
    TrimWord(p, [], []);
    assert [] + p + [] == p;
  }

  lemma TermValue(t: Term, env: Env)
    requires IsTerm(t)
    ensures EvalTerm(Plain(t), env) == CTerm(t, env)
  {
    match t {
      case Literal(body, _) => GoReadsLiteral(body);
      case Name(id) => IdentifierNeverParses(id);
    }
  }

  lemma {:induction false} TermsValue(parts: seq<string>, terms: seq<Term>, env: Env)
    requires |parts| == |terms| && forall i | 0 <= i < |terms| :: IsTerm(terms[i]) && TrimSpace(parts[i]) == Plain(terms[i])
    ensures EvalTerms(parts, env) == COr(terms, env)
  {
    if terms != [] {
      TermValue(terms[0], env);
      TermsValue(parts[1..], terms[1..], env);
    }
  }

  // ---- Stripping the terms -------------------------------------------------------

  lemma {:induction false} StripJoin(parts: seq<string>)
    ensures Strip(Join(parts, "|")) == Join(Strips(parts), "|")
  {
    if |parts| > 1 {
      var a, b := parts[0], Join(parts[1..], "|");
      StripJoin(parts[1..]);
      assert Strips(parts)[1..] == Strips(parts[1..]);
      StripConcat(a, '|', b);
      Assoc(a, ['|'], b);
      Assoc(Strip(a), ['|'], Strip(b));
    }
  }

  lemma StripParens(s: string)
    ensures Strip(InParens(s)) == InParens(Strip(s))
  {
    StripConcat([], '(', s + [')']);
    StripConcat(s, ')', []);
    assert [] + InParens(s) == InParens(s);
    assert [')'] + [] == [')'];
    assert Strip([]) == [];
    assert [] + InParens(Strip(s)) == InParens(Strip(s));
  }

  lemma {:induction false} SplitJoin(parts: seq<string>)
    requires parts != [] && forall p | p in parts :: NoBar(p)
    ensures Split(Join(parts, "|")) == parts
  {
    assert parts[0] in parts;
    if |parts| == 1 {
      SplitHasNoBars(parts[0]);
    } else {
      SplitJoin(parts[1..]);
      SplitBar(parts[0], Join(parts[1..], "|"));
      assert [parts[0]] + parts[1..] == parts;
    }
  }

  /** x is the plain term with white space around it. */
  lemma StripPart(x: string, t: Term)
    requires IsTerm(t) && Padded(x, Spell(t))
    ensures Padded(Strip(x), Plain(t)) && TrimSpace(Strip(x)) == Plain(t) && NoBar(Strip(x))
  {
    var l, r :| PaddedBy(x, l, Spell(t), r);
    PlainTerm(t);
    StripSpaced(l, Spell(t), r);
    assert PaddedBy(Strip(x), l, Plain(t), r);
    TrimPadded(Strip(x), Plain(t));
  }

  /** The parts hold the plain terms. */
  predicate Holds(parts: seq<string>, terms: seq<Term>) {
    && |parts| == |terms| > 0
    && forall i | 0 <= i < |terms| :: IsTerm(terms[i]) && TrimSpace(parts[i]) == Plain(terms[i]) && NoBar(parts[i])
  }

  lemma StripParts(parts: seq<string>, terms: seq<Term>)
    requires Spells(parts, terms)
    ensures Holds(Strips(parts), terms)
  {
    forall i | 0 <= i < |terms|
      ensures TrimSpace(Strips(parts)[i]) == Plain(terms[i]) && NoBar(Strips(parts)[i])
    {
      StripPart(parts[i], terms[i]);
    }
  }

  lemma TrimSolid(raw: string, core: string)
    requires Padded(raw, core) && Solid(core)
    ensures TrimSpace(raw) == core && TrimSpace(core) == core
  {
    TrimOf([], core, []);
    assert [] + core + [] == core;
    TrimPadded(raw, core);
  }

  lemma InnerOfParens(s: string)
    ensures Inner(InParens(s)) == s && Solid(InParens(s))
  {
    var v := InParens(s);
    assert PaddedBy(v, [], v, []);
    TrimSolid(v, v);
  }
}
