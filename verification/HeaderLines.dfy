/** Lines of the header, one by one: internal/headers/pkcs11t.h through the
  generator (cmd/genconst/main.go). */
module HeaderLines {
  import opened Common
  import opened Text
  import opened Translation
  import opened Numbers
  import opened Expressions
  import opened Meaning
  import opened Preserved
  import opened Printing
  import opened GoConst
  import opened Evaluation
  import opened Table
  import opened Header

  lemma PaddedByNothing(s: string)
    ensures Padded(s, s)
  {
    assert PaddedBy(s, [], s, []);
  }

  lemma SolidTerm(t: Term)
    requires IsTerm(t)
    ensures Solid(Spell(t))
  {
    PlainTerm(t);
    var s := Spell(t);
    assert s[0] in s && s[|s| - 1] in s;
  }

  lemma WritesTerm(raw: string, t: Term)
    requires raw == Spell(t) && IsTerm(t)
    ensures Writes(raw, Bare([t]))
  {
    SolidTerm(t);
    PaddedByNothing(raw);
    assert Join([raw], "|") == raw;
    assert WritesBare(raw, [raw], [t]);
  }

  lemma OneTermValue(t: Term, env: Env)
    ensures COr([t], env) == CTerm(t, env)
  {
    assert COr([t], env) == Either(CTerm(t, env), COr([], env));
  }

  /** A suffixed literal of eight hexadecimal digits is translated to one that
      evaluates to the number printed. */
  lemma HexLine(raw: string, k: nat, n: nat, suffix: string, env: Env)
    requires n < 0x1_0000_0000_0000_0000 && AllSuffix(suffix)
    requires raw == ['0', 'x'] + (ZeroDigits(k) + Print(n, 16, Lower)) + suffix
    ensures EvalTerms(Split(Inner(TranslateValue(raw))), env) == Some(n)
  {
    var body := ['0', 'x'] + (ZeroDigits(k) + Print(n, 16, Lower));
    var t := Literal(body, suffix);
    HexPrinted(n, k, Lower, 'x');
    WritesTerm(raw, t);
    TermsPreserved(raw, Bare([t]), env);
    OneTermValue(t, env);
  }

  lemma Print62a()
    ensures ZeroDigits(5) + Print(0x62A, 16, Lower) == "0000062a"
  {
    assert Print(6, 16, Lower) == ['6'];
    assert Print(0x62, 16, Lower) == ['6'] + ['2'];
    assert Print(0x62A, 16, Lower) == ['6'] + ['2'] + ['a'];
    assert ZeroDigits(5) == "00000";
  }

  /** A single define whose value is known. */
  lemma OneDefine(d: Define, n: nat)
    requires ValueOf(d, map[]) == Some(n)
    ensures Meanings([d]) == [Some(n)] && Known([d]) == map[d.name := n]
    ensures AttributesDenote([d], Meanings([d]), 1)
  {
    var x := LastOutcome([d], 1);
    assert Outcomes([d], 0) == [] && Record([d], [], 0) == map[];
    assert Outcomes([d], 1) == [Some(n)];
    assert Record([d], [Some(n)], 0) == map[];
    assert Record([d], [Some(n)], 1) == map[][d.name := n];
  }

  lemma EncapsulateLine(raw: string)
    requires raw == "0x0000062aUL"
    ensures EvalTerms(Split(Inner(TranslateValue(raw))), map[]) == Some(0x62A)
  {
    Print62a();
    assert raw == ['0', 'x'] + "0000062a" + "UL";
    HexLine(raw, 5, 0x62A, "UL", map[]);
  }

  /** pkcs11t.h line 658. */
  method EncapsulateTemplate(name: string, raw: string) returns (r: Option<Env>)
    requires name == "CKA_ENCAPSULATE_TEMPLATE" && raw == "0x0000062aUL"
    ensures r == Some(map[name := 0x62A])
  {
    var d := Define(name, Translate(name, raw));
    EncapsulateLine(raw);
    OneDefine(d, 0x62A);
    r := Evaluate([d]);
  }

  // ---- The booleans ----------------------------------------------------------------

  lemma SmallDecimal(raw: string, n: nat)
    requires n < 10 && raw == Print(n, 10, Lower)
    ensures Writes(raw, Bare([Literal(raw, "")])) && COr([Literal(raw, "")], map[]) == Some(n)
  {
    DecimalPrinted(n);
    assert raw + "" == raw;
    WritesTerm(raw, Literal(raw, ""));
    OneTermValue(Literal(raw, ""), map[]);
  }

  /** pkcs11t.h lines 24 and 25: the constants are true and false in Go, as 1 and
      0 are in C. */
  lemma BooleanLines(one: string, zero: string)
    requires one == "1" && zero == "0"
    ensures Writes(one, Bare([Literal(one, "")])) && CTruth(Bare([Literal(one, "")]), map[]) == Some(true)
    ensures BoolValue(Translate("CK_TRUE", one)) == Some(true)
    ensures Writes(zero, Bare([Literal(zero, "")])) && CTruth(Bare([Literal(zero, "")]), map[]) == Some(false)
    ensures BoolValue(Translate("CK_FALSE", zero)) == Some(false)
  {
    assert one == Print(1, 10, Lower) && zero == Print(0, 10, Lower);
    SmallDecimal(one, 1);
    SmallDecimal(zero, 0);
    BooleanMeaning(Line("CK_TRUE", one, Bare([Literal(one, "")])), map[]);
    BooleanMeaning(Line("CK_FALSE", zero, Bare([Literal(zero, "")])), map[]);
  }

  // ---- Two names for one value -------------------------------------------------------

  lemma Print180()
    ensures ZeroDigits(5) + Print(0x180, 16, Lower) == "00000180"
  {
    assert Print(1, 16, Lower) == ['1'];
    assert Print(0x18, 16, Lower) == ['1'] + ['8'];
    assert Print(0x180, 16, Lower) == ['1'] + ['8'] + ['0'];
    assert ZeroDigits(5) == "00000";
  }

  lemma EcLine(raw: string, env: Env)
    requires raw == "0x00000180UL"
    ensures EvalTerms(Split(Inner(TranslateValue(raw))), env) == Some(0x180)
    ensures !IsIdentifier(TrimSpace(TranslateValue(raw)))
  {
    Print180();
    assert raw == ['0', 'x'] + "00000180" + "UL";
    HexLine(raw, 5, 0x180, "UL", env);
    HexIsNoAlias(raw, 5, 0x180, "UL");
  }

  lemma HexIsNoAlias(raw: string, k: nat, n: nat, suffix: string)
    requires n < 0x1_0000_0000_0000_0000 && AllSuffix(suffix)
    requires raw == ['0', 'x'] + (ZeroDigits(k) + Print(n, 16, Lower)) + suffix
    ensures !IsIdentifier(TrimSpace(TranslateValue(raw)))
  {
    var body := ['0', 'x'] + (ZeroDigits(k) + Print(n, 16, Lower));
    var t := Literal(body, suffix);
    HexPrinted(n, k, Lower, 'x');
    WritesTerm(raw, t);
    PaddedByNothing(raw);
    SolidTerm(t);
    assert Join([raw], "|") == raw && WritesBare(raw, [raw], [t]);
    BareIsStripped(raw, [raw], [t]);
    StripEnds(raw);
    var s := Join(Strips([raw]), "|");
    assert s == Strip(raw);
    PaddedByNothing(s);
    TrimSolid(s, s);
  }

  /** Two attributes with one value, the second no alias. */
  method RenderTwo(d: Define, e: Define, n: nat) returns (table: Option<(map<nat, string>, seq<nat>)>)
    requires ValueOf(d, map[]) == Some(n) && ValueOf(e, map[d.name := n]) == Some(n) && d.name != e.name
    requires IsAttribute(d.name) && IsAttribute(e.name) && !IsAlias(e)
    ensures table == Some((map[n := e.name], [n]))
  {
    TwoDefines(d, e, n);
    table := RenderAttributes([d, e]);
    OneEntry(d, e, n, table.value.0);
  }

  lemma AttributeIsNoBoolean(name: string, raw: string)
    requires IsAttribute(name)
    ensures Translate(name, raw) == TranslateValue(raw)
  {
  }

  /** Two attribute lines with the same raw value. */
  method SameValue(before: string, after: string, raw: string) returns (table: Option<(map<nat, string>, seq<nat>)>)
    requires IsAttribute(before) && IsAttribute(after) && before != after && raw == "0x00000180UL"
    ensures table == Some((map[0x180 := after], [0x180]))
  {
    AttributeIsNoBoolean(before, raw);
    AttributeIsNoBoolean(after, raw);
    EcLine(raw, map[]);
    EcLine(raw, map[before := 0x180]);
    table := RenderTwo(Define(before, Translate(before, raw)), Define(after, Translate(after, raw)), 0x180);
  }

  /** pkcs11t.h lines 563 and 564: the later name stands for the value. */
  method EcParams() returns (table: Option<(map<nat, string>, seq<nat>)>)
    ensures table == Some((map[0x180 := "CKA_EC_PARAMS"], [0x180]))
  {
    table := SameValue("CKA_ECDSA_PARAMS", "CKA_EC_PARAMS", "0x00000180UL");
  }

  lemma TwoDefines(d: Define, e: Define, n: nat)
    requires ValueOf(d, map[]) == Some(n) && ValueOf(e, map[d.name := n]) == Some(n) && d.name != e.name
    ensures Meanings([d, e]) == [Some(n), Some(n)] && Known([d, e]) == map[d.name := n, e.name := n]
    ensures AttributesDenote([d, e], Meanings([d, e]), 2)
  {
    var x := LastOutcome([d, e], 1);
    var y := LastOutcome([d, e], 2);
    var one: seq<Option<nat>>, two: seq<Option<nat>> := [Some(n)], [Some(n), Some(n)];
    assert Outcomes([d, e], 0) == [] && Record([d, e], [], 0) == map[];
    assert Outcomes([d, e], 1) == one;
    assert Record([d, e], one, 0) == map[] && Record([d, e], one, 1) == map[][d.name := n];
    assert Outcomes([d, e], 2) == two;
    assert Record([d, e], two, 0) == map[] && Record([d, e], two, 1) == map[][d.name := n];
    assert Record([d, e], two, 2) == map[d.name := n][e.name := n];
  }

  lemma OneEntry(d: Define, e: Define, n: nat, names: map<nat, string>)
    requires IsAttribute(d.name) && IsAttribute(e.name) && d.name != e.name && !IsAlias(e)
    requires Known([d, e]) == map[d.name := n, e.name := n]
    requires forall v :: v in names <==> v in Order([d, e], Known([d, e]), 2)
    requires forall v | v in names ::
               exists i: nat :: Chosen([d, e], Known([d, e]), 2, i, v) && [d, e][i].name == names[v]
    ensures Order([d, e], Known([d, e]), 2) == [n] && names == map[n := e.name]
  {
    var defines, values := [d, e], Known([d, e]);
    assert Has(defines, values, 0, n) && Has(defines, values, 1, n);
    assert First(defines, values, 0, n) && !First(defines, values, 1, n);
    assert Order(defines, values, 0) == [] && Order(defines, values, 1) == [n];
    var i: nat :| Chosen(defines, values, 2, i, n) && defines[i].name == names[n];
    if i == 0 {
      Superseded(defines, values, 0, 1, n);
    }
  }

  // ---- An or -------------------------------------------------------------------------

  lemma Print211()
    ensures ZeroDigits(5) + Print(0x211, 16, Lower) == "00000211"
  {
    assert Print(2, 16, Lower) == ['2'];
    assert Print(0x21, 16, Lower) == ['2'] + ['1'];
    assert Print(0x211, 16, Lower) == ['2'] + ['1'] + ['1'];
    assert ZeroDigits(5) == "00000";
  }

  /** An or of a name and a suffixed literal, without white space. */
  lemma OrLine(raw: string, id: string, body: string, suffix: string)
    requires IsIdentifier(id) && IsCLiteral(body) && AllSuffix(suffix)
    requires raw == InParens(id + "|" + (body + suffix))
    ensures Writes(raw, Paren([Name(id), Literal(body, suffix)]))
    ensures TranslateValue(raw) == InParens(id + " | " + body)
  {
    var parts, terms := [id, body + suffix], [Name(id), Literal(body, suffix)];
    PaddedByNothing(raw);
    PaddedByNothing(id);
    PaddedByNothing(body + suffix);
    assert parts[1..] == [body + suffix] && Join(parts, "|") == id + "|" + (body + suffix);
    assert WritesParen(raw, parts, terms);
    TidiedText(raw, parts, terms);
    SolidTerm(terms[0]);
    SolidTerm(terms[1]);
    assert Plains(terms) == [id, body] && [id, body][1..] == [body];
    assert [] + (Join(Plains(terms), " | ") + []) == id + " | " + body;
  }

  /** Bits above and below a position do not meet. */
  lemma {:induction false} BitOrAdds(m: nat, b: nat, k: nat)
    requires b < Power(k)
    ensures BitOr(m * Power(k), b) == m * Power(k) + b
  {
    var a := m * Power(k);
    if k > 0 && a != 0 && b != 0 {
      assert a == 2 * (m * Power(k - 1));
      BitOrAdds(m, b / 2, k - 1);
      Halves(a, b);
    }
  }

  lemma ArrayFlagOr()
    ensures BitOr(0x40000000, 0x211) == 0x40000211
  {
    assert Power(10) == 1024;
    BitOrAdds(0x100000, 0x211, 10);
  }

  lemma Literal211(body: string)
    requires body == "0x00000211"
    ensures IsCLiteral(body) && CLiteral(body) == 0x211
  {
    Print211();
    assert body == ['0', 'x'] + "00000211";
    HexPrinted(0x211, 5, Lower, 'x');
  }

  /** pkcs11t.h line 574, with the flag of line 478. */
  lemma WrapTemplate(id: string, body: string, suffix: string, raw: string)
    requires id == "CKF_ARRAY_ATTRIBUTE" && body == "0x00000211" && suffix == "UL"
    requires raw == InParens(id + "|" + (body + suffix))
    ensures TranslateValue(raw) == InParens(id + " | " + body)
    ensures EvalTerms(Split(Inner(TranslateValue(raw))), map[id := 0x40000000]) == Some(0x40000211)
  {
    Literal211(body);
    NamedOr(id, body, suffix, raw, map[id := 0x40000000]);
    ArrayFlagOr();
  }

  lemma NamedOr(id: string, body: string, suffix: string, raw: string, env: Env)
    requires IsIdentifier(id) && id in env && IsCLiteral(body) && AllSuffix(suffix)
    requires raw == InParens(id + "|" + (body + suffix))
    ensures TranslateValue(raw) == InParens(id + " | " + body)
    ensures EvalTerms(Split(Inner(TranslateValue(raw))), env) == Some(BitOr(env[id], CLiteral(body)))
  {
    OrLine(raw, id, body, suffix);
    TermsPreserved(raw, Paren([Name(id), Literal(body, suffix)]), env);
    OrValue(id, body, suffix, env);
  }

  lemma OrValue(id: string, body: string, suffix: string, env: Env)
    requires id in env && IsCLiteral(body)
    ensures COr([Name(id), Literal(body, suffix)], env) == Some(BitOr(env[id], CLiteral(body)))
  {
    var t := Literal(body, suffix);
    OneTermValue(t, env);
    assert [Name(id), t][1..] == [t];
    assert COr([Name(id), t], env) == Either(Some(env[id]), COr([t], env));
  }
}
