/** Evaluating a translated macro value (cmd/genconst/main.go). */
module Expressions {
  import opened Common
  import opened Text
  import opened Numbers

  /** Bitwise or of two unsigned words. */
  function BitOr(a: nat, b: nat): nat
    decreases a + b
  {
    if a == 0 then b
    else if b == 0 then a
    else 2 * BitOr(a / 2, b / 2) + (if a % 2 == 1 || b % 2 == 1 then 1 else 0)
  }

  predicate Bit(n: nat, k: nat)
    decreases k
  {
    if k == 0 then n % 2 == 1 else Bit(n / 2, k - 1)
  }

  /** A bit is set in the or exactly when it is set in an operand. */
  lemma {:induction false} BitOrBits(a: nat, b: nat, k: nat)
    ensures Bit(BitOr(a, b), k) <==> Bit(a, k) || Bit(b, k)
    decreases k
  {
    NoBits(k);
    if a != 0 && b != 0 && k > 0 {
      BitOrBits(a / 2, b / 2, k - 1);
    }
  }

  lemma {:induction false} NoBits(k: nat)
    ensures !Bit(0, k)
  {
    if k > 0 {
      NoBits(k - 1);
    }
  }

  function Power(k: nat): (p: nat)
    ensures p >= 1
  {
    if k == 0 then 1 else 2 * Power(k - 1)
  }

  lemma {:induction false} BitOrFits(a: nat, b: nat, w: nat)
    requires a < Power(w) && b < Power(w)
    ensures BitOr(a, b) < Power(w)
  {
    if a != 0 && b != 0 {
      BitOrFits(a / 2, b / 2, w - 1);
    }
  }

  lemma SixtyFour()
    ensures Power(64) == 0x1_0000_0000_0000_0000 && Power(32) == 0x1_0000_0000
  {
    assert Power(8) == 0x100;
    assert Power(16) == 0x1_0000;
    assert Power(24) == 0x100_0000;
    assert Power(32) == 0x1_0000_0000;
    assert Power(40) == 0x100_0000_0000;
    assert Power(48) == 0x1_0000_0000_0000;
    assert Power(56) == 0x100_0000_0000_0000;
  }

  type Env = map<string, nat>

  /** One term of an expression: a number, or else a known name. */
  function EvalTerm(term: string, known: Env): Option<nat> {
    if ParseUint(term).Some? then ParseUint(term)
    else if term in known then Some(known[term])
    else None
  }

  /** The expression without its parentheses. */
  function Inner(expr: string): string {
    var e := TrimSpace(expr);
    if e != [] && e[0] == '(' && e[|e| - 1] == ')' then e[1..|e| - 1] else e
  }

  /** The or of two results, of which either may be missing. */
  function Either(a: Option<nat>, b: Option<nat>): Option<nat> {
    if a.Some? && b.Some? then Some(BitOr(a.value, b.value)) else None
  }

  function EvalTerms(terms: seq<string>, known: Env): Option<nat> {
    if terms == [] then Some(0)
    else Either(EvalTerm(TrimSpace(terms[0]), known), EvalTerms(terms[1..], known))
  }

  lemma Halves(a: nat, b: nat)
    ensures BitOr(a, b) / 2 == BitOr(a / 2, b / 2)
    ensures BitOr(a, b) % 2 == if a % 2 == 1 || b % 2 == 1 then 1 else 0
  {
  }

  lemma {:induction false} BitOrAssoc(a: nat, b: nat, c: nat)
    ensures BitOr(BitOr(a, b), c) == BitOr(a, BitOr(b, c))
    decreases a
  {
    if a != 0 {
      var l, r := BitOr(BitOr(a, b), c), BitOr(a, BitOr(b, c));
      BitOrAssoc(a / 2, b / 2, c / 2);
      Halves(a, b);
      Halves(b, c);
      Halves(BitOr(a, b), c);
      Halves(a, BitOr(b, c));
      assert l == 2 * (l / 2) + l % 2 && r == 2 * (r / 2) + r % 2;
    }
  }

  /** evalExpr */
  method EvalExpr(expr: string, known: Env) returns (r: Option<nat>)
    ensures r == EvalTerms(Split(Inner(expr)), known)
  {
    var terms := Split(Inner(expr));
    var total: nat := 0;
    for i := 0 to |terms|
      invariant EvalTerms(terms, known) == Either(Some(total), EvalTerms(terms[i..], known))
    {
      assert terms[i..][1..] == terms[i + 1..];
      var term := TrimSpace(terms[i]);
      var n := ParseUint(term);
      if n.None? {
        if term !in known {
          return None;
        }
        n := Some(known[term]);
      }
      if EvalTerms(terms[i + 1..], known).Some? {
        BitOrAssoc(total, n.value, EvalTerms(terms[i + 1..], known).value);
      }
      total := BitOr(total, n.value);
    }
    return Some(total);
  }

  /** Every term has a value, and the bits of the result are those of the terms. */
  lemma {:induction false} EvalTermsIsUnion(terms: seq<string>, known: Env)
    ensures EvalTerms(terms, known).Some? <==> forall t | t in terms :: EvalTerm(TrimSpace(t), known).Some?
    ensures var r := EvalTerms(terms, known);
            r.Some? ==> forall k: nat :: Bit(r.value, k) <==> SomeTermHas(terms, known, k)
  {
    if terms == [] {
      forall k: nat ensures !Bit(0, k) {
        NoBits(k);
      }
    } else {
      var rest := terms[1..];
      EvalTermsIsUnion(rest, known);
      assert terms == [terms[0]] + rest;
      if EvalTerms(terms, known).Some? {
        var a, b := EvalTerm(TrimSpace(terms[0]), known).value, EvalTerms(rest, known).value;
        forall k: nat ensures Bit(BitOr(a, b), k) <==> SomeTermHas(terms, known, k) {
          BitOrBits(a, b, k);
        }
      }
    }
  }

  predicate SomeTermHas(terms: seq<string>, known: Env, k: nat) {
    exists t | t in terms :: EvalTerm(TrimSpace(t), known).Some? && Bit(EvalTerm(TrimSpace(t), known).value, k)
  }

  predicate AllFit(known: Env) {
    forall name | name in known :: known[name] < 0x1_0000_0000_0000_0000
  }

  lemma {:induction false} GoDigitsFit(s: string, base: nat, n: nat)
    requires n < 0x1_0000_0000_0000_0000
    ensures var r := GoDigits(s, base, n); r.Some? ==> r.value < 0x1_0000_0000_0000_0000
  {
    if s != [] {
      var m := n * base + DigitValue(s[0]);
      if s[0] == '_' {
        GoDigitsFit(s[1..], base, n);
      } else if m < 0x1_0000_0000_0000_0000 {
        GoDigitsFit(s[1..], base, m);
      }
    }
  }

  /** 64-bit words are enough for the values: nothing wraps. */
  lemma {:induction false} EvalTermsFit(terms: seq<string>, known: Env)
    requires AllFit(known)
    ensures var r := EvalTerms(terms, known); r.Some? ==> r.value < 0x1_0000_0000_0000_0000
  {
    if terms != [] && EvalTerms(terms, known).Some? {
      EvalTermsFit(terms[1..], known);
      var term := TrimSpace(terms[0]);
      var a, b := EvalTerm(term, known).value, EvalTerms(terms[1..], known).value;
      if ParseUint(term).Some? {
        ParseUintFits(term);
      }
      SixtyFour();
      BitOrFits(a, b, 64);
    }
  }

  lemma ParseUintFits(s: string)
    ensures ParseUint(s).Some? ==> ParseUint(s).value < 0x1_0000_0000_0000_0000
  {
    if s != [] {
      GoDigitsFit(s, 10, 0);
      GoDigitsFit(s[1..], 8, 0);
      if Prefixed(s, 3) {
        GoDigitsFit(s[2..], PrefixBase(s[1]), 0);
      }
    }
  }
}
