/** The generated constants mean in Go what the macros mean in C
  (cmd/genconst/main.go). */
module GoMeaning {
  import opened Common
  import opened Text
  import opened TextFields
  import opened Translation
  import opened Numbers
  import opened Expressions
  import opened Meaning
  import opened Preserved
  import opened GoConst

  predicate AllBlank(s: string) {
    forall c | c in s :: IsBlank(c)
  }

  /** The only white space is space and tab, as validateValue demands. */
  predicate OnlyBlanks(s: string) {
    forall c | c in s && IsSpace(c) :: IsBlank(c)
  }

  // ---- Lexing ----------------------------------------------------------------------

  lemma {:induction false} LexBlanks(l: string, s: string)
    requires AllBlank(l)
    ensures Lex(l + s) == Lex(s)
  {
    if l == [] {
      assert l + s == s;
    } else {
      assert l[0] in l && (l + s)[1..] == l[1..] + s;
      LexBlanks(l[1..], s);
    }
  }

  function TokenOfWord(w: string): Token
    requires w != []
  {
    if IsDigit(w[0]) then Number(w) else Ident(w)
  }

  lemma LexWord(w: string, s: string)
    requires w != [] && AllWord(w) && (s == [] || !IsWord(s[0]))
    ensures Lex(w + s) == Cons(TokenOfWord(w), Lex(s))
  {
    WordLenOf(w, s);
    assert w[0] in w && IsWord(w[0]) && !IsBlank(w[0]);
    assert (w + s)[..|w|] == w && (w + s)[|w|..] == s;
  }

  lemma LexBar(s: string)
    requires s == [] || (s[0] != '|' && s[0] != '=')
    ensures Lex(['|'] + s) == Cons(Bar, Lex(s))
  {
    assert (['|'] + s)[1..] == s;
  }

  lemma LexParens(s: string)
    ensures Lex(['('] + s) == Cons(Open, Lex(s)) && Lex([')'] + s) == Cons(Close, Lex(s))
  {
    assert (['('] + s)[1..] == s && ([')'] + s)[1..] == s;
  }

  function TokenOf(t: Term): Token {
    match t
    case Literal(body, _) => Number(body)
    case Name(id) => Ident(id)
  }

  /** A bar and a term for each of the terms, and then the tail. */
  function More(terms: seq<Term>, tail: seq<Token>): seq<Token> {
    if terms == [] then tail else [Bar] + ([TokenOf(terms[0])] + More(terms[1..], tail))
  }

  /** The tokens of an or, and then the tail. */
  function Tokens(terms: seq<Term>, tail: seq<Token>): seq<Token>
    requires terms != []
  {
    [TokenOf(terms[0])] + More(terms[1..], tail)
  }

  predicate AreTerms(terms: seq<Term>) {
    forall i | 0 <= i < |terms| :: IsTerm(terms[i])
  }

  predicate EndsTerms(tail: string) {
    tail == [] || tail[0] == ')'
  }

  /** One term with white space around it. */
  lemma LexPart(p: string, w: string, s: string)
    requires TrimSpace(p) == w && w != [] && AllWord(w) && OnlyBlanks(p)
    requires s == [] || !IsWord(s[0])
    ensures Lex(p + s) == Cons(TokenOfWord(w), Lex(s))
    ensures p != [] && p[0] != '=' && p[0] != '|'
  {
    var l, r := TrimParts(p);
    assert forall c | c in l :: c in p;
    assert forall c | c in r :: c in p;
    Assoc(l, w, r);
    Assoc(l, w + r, s);
    Assoc(w, r, s);
    LexBlanks(l, w + (r + s));
    assert r != [] ==> r[0] in r && !IsWord(r[0]);
    LexWord(w, r + s);
    LexBlanks(r, s);
    assert p[0] in p;
    assert l != [] ==> p[0] == l[0] && l[0] in l;
    assert l == [] ==> p[0] == w[0] && w[0] in w;
  }

  lemma LexTerm(p: string, t: Term, s: string)
    requires IsTerm(t) && TrimSpace(p) == Plain(t) && OnlyBlanks(p) && (s == [] || !IsWord(s[0]))
    ensures Lex(p + s) == Cons(TokenOf(t), Lex(s)) && p != [] && p[0] != '=' && p[0] != '|'
  {
    PlainTerm(t);
    LexPart(p, Plain(t), s);
    TokenOfPlain(t);
  }

  lemma TokenOfPlain(t: Term)
    requires IsTerm(t)
    ensures Plain(t) != [] && TokenOfWord(Plain(t)) == TokenOf(t)
  {
    if t.Literal? {
      LiteralIsWord(t.body);
    }
  }

  predicate AllOnlyBlanks(parts: seq<string>) {
    forall i | 0 <= i < |parts| :: OnlyBlanks(parts[i])
  }

  /** The terms of an or that is followed by other text. */
  lemma {:induction false} LexTerms(parts: seq<string>, terms: seq<Term>, tail: string, ts: seq<Token>)
    requires Holds(parts, terms) && AllOnlyBlanks(parts) && EndsTerms(tail) && Lex(tail) == Some(ts)
    ensures Lex(Join(parts, "|") + tail) == Some(Tokens(terms, ts))
    ensures var s := Join(parts, "|") + tail; s != [] && s[0] != '=' && s[0] != '|'
    decreases |parts|
  {
    if |parts| == 1 {
      LexTerm(parts[0], terms[0], tail);
    } else {
      var rest := Join(parts[1..], "|") + tail;
      LexTerms(parts[1..], terms[1..], tail, ts);
      LexBar(rest);
      LexTerm(parts[0], terms[0], ['|'] + rest);
      JoinedTail(parts, tail);
    }
  }

  lemma JoinedTail(parts: seq<string>, tail: string)
    requires |parts| > 1
    ensures Join(parts, "|") + tail == parts[0] + (['|'] + (Join(parts[1..], "|") + tail))
  {
  }

  // ---- Parsing ---------------------------------------------------------------------

  /** A C literal has its value in Go, where no size bounds it. */
  lemma LiteralMeans(body: string)
    requires IsCLiteral(body)
    ensures LiteralValue(body) == Some(CLiteral(body))
  {
    var (digits, base) := CDigits(body);
    if HexStart(body) {
      assert AllBelow(body[2..], 16);
    } else {
      assert |body| >= 2 ==> body[1] in body && IsDigit(body[1]);
      if body[0] == '0' && |body| >= 2 {
        assert Numeral(body, 8, 0) == Numeral(body[1..], 8, 0);
        assert forall c | c in body[1..] :: c in body;
      } else if body[0] == '0' {
        assert body == ['0'] && Numeral(body, 8, 0) == Numeral(body[1..], 8, 0) == 0;
        assert Numeral(body, 10, 0) == Numeral(body[1..], 10, 0) == 0;
      }
    }
  }

  /** The value of a term, with what follows it. */
  function TermParsed(t: Term, env: Env, tail: seq<Token>): Parsed {
    if CTerm(t, env).Some? then Some((Constant(CTerm(t, env).value, false), tail)) else None
  }

  lemma TermMeans(t: Term, tail: seq<Token>, env: Env, g: nat)
    requires IsTerm(t) && (tail == [] || tail[0] == Bar || tail[0] == Close)
    ensures ParseUnary([TokenOf(t)] + tail, env, g) == TermParsed(t, env, tail)
  {
    var ts := [TokenOf(t)] + tail;
    assert ts[1..] == tail;
    if t.Literal? {
      LiteralMeans(t.body);
    }
  }

  function OrParsed(v: nat, rest: Option<nat>, tail: seq<Token>): Parsed {
    if rest.Some? then Some((Constant(BitOr(v, rest.value), false), tail)) else None
  }

  predicate EndsTokens(tail: seq<Token>) {
    tail == [] || tail[0] == Close
  }

  lemma {:induction false} MoreMeans(v: nat, terms: seq<Term>, tail: seq<Token>, env: Env, g: nat)
    requires AreTerms(terms) && EndsTokens(tail)
    ensures ParseMore(Constant(v, false), More(terms, tail), env, g) == OrParsed(v, COr(terms, env), tail)
    decreases |terms|
  {
    if terms != [] {
      var rest := More(terms[1..], tail);
      var ts := More(terms, tail);
      assert ts[0] == Bar && ts[1..] == [TokenOf(terms[0])] + rest;
      TermMeans(terms[0], rest, env, g);
      if CTerm(terms[0], env).Some? {
        var n := CTerm(terms[0], env).value;
        MoreMeans(BitOr(v, n), terms[1..], tail, env, g);
        if COr(terms[1..], env).Some? {
          BitOrAssoc(v, n, COr(terms[1..], env).value);
        }
      }
    }
  }

  /** An or of terms parses to its C value. */
  lemma OrMeans(terms: seq<Term>, tail: seq<Token>, env: Env, g: nat)
    requires terms != [] && AreTerms(terms) && EndsTokens(tail)
    ensures ParseOr(Tokens(terms, tail), env, g) ==
            if COr(terms, env).Some? then Some((Constant(COr(terms, env).value, false), tail)) else None
  {
    TermMeans(terms[0], More(terms[1..], tail), env, g);
    if CTerm(terms[0], env).Some? {
      MoreMeans(CTerm(terms[0], env).value, terms[1..], tail, env, g);
    }
  }

  // ---- Translated values -----------------------------------------------------------

  /** The characters validateValue lets through. */
  predicate Emittable(value: string) {
    forall c | c in value :: IsWord(c) || c in "()|&^~+*/<> \t-"
  }

  lemma EmittableBlanks(value: string, part: string)
    requires Emittable(value) && forall c | c in part :: c in value
    ensures OnlyBlanks(part)
  {
  }

  lemma BareMeans(parts: seq<string>, terms: seq<Term>, env: Env, g: nat)
    requires Holds(parts, terms) && AreTerms(terms) && AllOnlyBlanks(parts)
    ensures ConstValue(Join(parts, "|"), env, g) == COr(terms, env)
  {
    LexTerms(parts, terms, [], []);
    assert Join(parts, "|") + [] == Join(parts, "|");
    OrMeans(terms, [], env, g);
  }

  lemma LexClose()
    ensures Lex([')']) == Some([Close])
  {
    LexParens([]);
    assert Lex([]) == Some([]) && [Close] + [] == [Close];
    assert [')'] + [] == [')'];
  }

  /** An expression in parentheses has the value it has without. */
  lemma ParseInParens(ts: seq<Token>, env: Env, g: nat)
    requires var r := ParseOr(ts, env, g); r.Some? ==> r.value.1 == [Close]
    ensures var r := ParseOr(ts, env, g);
            ParseOr([Open] + ts, env, g) == if r.Some? then Some((r.value.0, [])) else None
  {
    var all, r := [Open] + ts, ParseOr(ts, env, g);
    assert all[1..] == ts && [Close][1..] == [];
    var inParens: Parsed := if r.Some? then Some((r.value.0, [])) else None;
    assert ParseParens(all, env, g) == inParens;
    assert ParseUnary(all, env, g) == inParens;
    if r.Some? {
      assert ParseMore(r.value.0, [], env, g) == Some((r.value.0, []));
    }
  }

  lemma ParenMeans(parts: seq<string>, terms: seq<Term>, env: Env, g: nat)
    requires Holds(parts, terms) && AreTerms(terms) && AllOnlyBlanks(parts)
    ensures ConstValue(InParens(Join(parts, "|")), env, g) == COr(terms, env)
  {
    var ts := Tokens(terms, [Close]);
    LexClose();
    LexTerms(parts, terms, [')'], [Close]);
    LexParens(Join(parts, "|") + [')']);
    OrMeans(terms, [Close], env, g);
    ParseInParens(ts, env, g);
  }

  /** What is inside the parentheses, in the text they are in. */
  lemma InnerOf(value: string)
    requires Solid(value)
    ensures Inner(value) == value || value == InParens(Inner(value))
    ensures forall c | c in Inner(value) :: c in value
  {
    assert PaddedBy(value, [], value, []);
    TrimSolid(value, value);
    if value[0] == '(' && value[|value| - 1] == ')' {
      assert value == InParens(value[1..|value| - 1]);
    }
  }

  /** The parts of a value that carries the terms. */
  lemma PartsHold(value: string, terms: seq<Term>)
    requires Carries(value, terms) && terms != [] && AreTerms(terms) && Emittable(value) && Solid(value)
    ensures var parts := Split(Inner(value)); Holds(parts, terms) && AllOnlyBlanks(parts) && Join(parts, "|") == Inner(value)
  {
    var parts := Split(Inner(value));
    InnerOf(value);
    JoinSplit(Inner(value));
    SplitHasNoBars(Inner(value));
    forall i | 0 <= i < |parts| ensures OnlyBlanks(parts[i]) {
      forall c | c in parts[i] ensures c in value {
        JoinHas(parts, "|", parts[i], c);
      }
      EmittableBlanks(value, parts[i]);
    }
  }

  /** With or without parentheses, the value of the text is that of the terms. */
  lemma CarriedMeans(value: string, terms: seq<Term>, env: Env, g: nat)
    requires Carries(value, terms) && terms != [] && AreTerms(terms) && Emittable(value) && Solid(value)
    ensures ConstValue(value, env, g) == COr(terms, env)
  {
    PartsHold(value, terms);
    InnerOf(value);
    BareMeans(Split(Inner(value)), terms, env, g);
    ParenMeans(Split(Inner(value)), terms, env, g);
  }

  /** For every way to write literals and names that the generator lets through,
      the translation, read as a Go expression, has the C value, and none exactly
      when C knows none. */
  lemma TermsMeanTheSame(raw: string, e: Expr, env: Env, g: nat)
    requires Writes(raw, e) && !e.AllOnes? && Emittable(TranslateValue(raw))
    ensures ConstValue(TranslateValue(raw), env, g) == COr(e.terms, env)
  {
    match e {
      case Bare(terms) =>
        var parts :| WritesBare(raw, parts, terms);
        BareCarries(raw, parts, terms);
      case Paren(terms) =>
        var parts :| WritesParen(raw, parts, terms);
        ParenCarries(raw, parts, terms);
    }
    CarriedMeans(TranslateValue(raw), e.terms, env, g);
  }

  /** A complemented conversion of one word. */
  lemma LexCall(f: string, arg: string)
    requires f != [] && AllWord(f) && arg != [] && AllWord(arg)
    ensures Lex(['^'] + (f + (['('] + (arg + [')'])))) ==
            Some([Complement] + ([TokenOfWord(f)] + ([Open] + ([TokenOfWord(arg)] + [Close]))))
  {
    LexClose();
    LexWord(arg, [')']);
    LexParens(arg + [')']);
    LexWord(f, ['('] + (arg + [')']));
    LexComplement(f + (['('] + (arg + [')'])));
  }

  lemma LexComplement(s: string)
    requires s == [] || s[0] != '='
    ensures Lex(['^'] + s) == Cons(Complement, Lex(s))
  {
    assert (['^'] + s)[1..] == s;
  }

  lemma ParseNumber(text: string, env: Env, g: nat)
    requires LiteralValue(text).Some?
    ensures ParseOr([Number(text)] + [Close], env, g) == Some((Constant(LiteralValue(text).value, false), [Close]))
  {
    assert ([Number(text)] + [Close])[1..] == [Close];
  }

  lemma ParseConversion(text: string, env: Env, g: nat)
    requires LiteralValue(text).Some? && LiteralValue(text).value < Power(g)
    ensures ParseUnary([Ident("uint")] + ([Open] + ([Number(text)] + [Close])), env, g) ==
            Some((Constant(LiteralValue(text).value, true), []))
  {
    var number := [Number(text)] + [Close];
    ParseNumber(text, env, g);
    assert ([Open] + number)[1..] == number && [Close][1..] == [];
    assert ([Ident("uint")] + ([Open] + number))[1..] == [Open] + number;
  }

  lemma ParseComplement(ts: seq<Token>, n: nat, env: Env, g: nat)
    requires ParseUnary(ts, env, g) == Some((Constant(n, true), [])) && n < Power(g)
    ensures ParseOr([Complement] + ts, env, g) == Some((Constant(Power(g) - 1 - n, true), []))
  {
    assert ([Complement] + ts)[1..] == ts;
  }

  lemma CallMeans(f: string, arg: string, env: Env, g: nat)
    requires f == "uint" && AllWord(f) && arg != [] && AllWord(arg) && IsDigit(arg[0])
    requires LiteralValue(arg).Some? && LiteralValue(arg).value < Power(g)
    ensures ConstValue(['^'] + (f + (['('] + (arg + [')']))), env, g) == Some(Power(g) - 1 - LiteralValue(arg).value)
  {
    LexCall(f, arg);
    ParseConversion(arg, env, g);
    ParseComplement([Ident("uint")] + ([Open] + ([Number(arg)] + [Close])), LiteralValue(arg).value, env, g);
  }

  lemma CaretShape(value: string) returns (f: string, arg: string)
    requires value == Caret
    ensures f == "uint" && AllWord(f) && arg == ['0'] && value == ['^'] + (f + (['('] + (arg + [')'])))
  {
    f, arg := "uint", ['0'];
  }

  lemma ZeroCallMeans(value: string, f: string, arg: string, env: Env, g: nat)
    requires f == "uint" && AllWord(f) && arg == ['0'] && value == ['^'] + (f + (['('] + (arg + [')'])))
    ensures ConstValue(value, env, g) == Some(Power(g) - 1)
  {
    ZeroIsLiteral(arg);
    CallMeans(f, arg, env, g);
  }

  /** The all-ones word is all ones in a Go uint. */
  lemma CaretMeans(value: string, env: Env, g: nat)
    requires value == Caret
    ensures ConstValue(value, env, g) == Some(Power(g) - 1)
  {
    var f, arg := CaretShape(value);
    ZeroCallMeans(value, f, arg, env, g);
  }

  lemma ZeroIsLiteral(arg: string)
    requires arg == ['0']
    ensures AllWord(arg) && IsDigit(arg[0]) && LiteralValue(arg) == Some(0)
  {
    assert Numeral(arg[1..], 10, 0) == 0;
  }

  // ---- Words -----------------------------------------------------------------------

  /** The C value of ~0 with a suffix, as a CK_ULONG of w bits: a plain U makes
      an unsigned int, of u bits, and every other type is sign-extended or at least
      w bits wide already. */
  function CAllOnes(suffix: string, w: nat, u: nat): nat {
    if IsUnsignedInt(suffix) then Power(u) - 1 else Power(w) - 1
  }

  predicate IsUnsignedInt(suffix: string) {
    suffix != [] && forall c | c in suffix :: c == 'u' || c == 'U'
  }

  /** The C value of an expression, as a CK_ULONG of w bits. */
  function CValue(e: Expr, env: Env, w: nat, u: nat): Option<nat> {
    match e
    case Bare(terms) => COr(terms, env)
    case Paren(terms) => COr(terms, env)
    case AllOnes(suffix) => Some(CAllOnes(suffix, w, u))
  }

  /** Both are missing, or they are the same w-bit word. */
  predicate SameWord(a: Option<nat>, b: Option<nat>, w: nat) {
    a.Some? == b.Some? && (a.Some? ==> a.value % Power(w) == b.value % Power(w))
  }

  lemma {:induction false} PowerMonotone(w: nat, g: nat)
    requires w <= g
    ensures Power(w) <= Power(g) && (w < g ==> Power(w) < Power(g))
  {
    if w < g {
      PowerMonotone(w, g - 1);
      assert Power(g) == 2 * Power(g - 1);
    }
  }

  lemma {:induction false} OnesNarrow(w: nat, g: nat)
    requires w <= g
    ensures (Power(g) - 1) % Power(w) == Power(w) - 1
  {
    var m := Power(w);
    if w == g {
      Small(m - 1, m);
    } else {
      OnesNarrow(w, g - 1);
      var x := Power(g - 1) - 1;
      Doubling(x, m);
      assert Power(g) - 1 == 2 * x + 1;
    }
  }

  lemma Small(x: nat, m: nat)
    requires x < m
    ensures x % m == x
  {
  }

  lemma Doubling(x: nat, m: nat)
    requires m > 0 && x % m == m - 1
    ensures (2 * x + 1) % m == m - 1
  {
    var k, y := x / m, 2 * x + 1;
    assert x == m * k + (m - 1);
    assert m * (2 * k + 1) == m * k + m * k + m;
    Unique(m, 2 * k + 1, m - 1, y / m, y % m);
  }

  lemma Unique(m: nat, k: int, r: nat, q: int, s: nat)
    requires r < m && s < m && m * k + r == m * q + s
    ensures r == s
  {
    assert m * (k - q) == s - r;
    Far(m, k - q);
  }

  lemma Far(m: nat, d: int)
    ensures d == 0 || m * d >= m || m * d + m <= 0
  {
  }

  lemma OnesWord(u: nat, w: nat, g: nat)
    requires u <= w <= g
    ensures (Power(g) - 1) % Power(w) == (Power(w) - 1) % Power(w)
    ensures (Power(g) - 1) % Power(w) == (Power(u) - 1) % Power(w) <==> u == w
  {
    OnesNarrow(w, g);
    PowerMonotone(u, w);
    Small(Power(w) - 1, Power(w));
    Small(Power(u) - 1, Power(w));
  }

  lemma OnesMean(suffix: string, u: nat, w: nat, g: nat)
    requires u <= w <= g
    ensures SameWord(Some(Power(g) - 1), Some(CAllOnes(suffix, w, u)), w) <==> !(IsUnsignedInt(suffix) && u < w)
  {
    OnesWord(u, w, g);
  }

  lemma AllOnesTranslated(raw: string, suffix: string)
    requires Writes(raw, AllOnes(suffix))
    ensures TranslateValue(raw) == Caret
  {
    var a, b, c :| WritesAllOnes(raw, a, b, c, suffix);
    AllOnesFound(raw, a, b, c, suffix);
  }

  /** For every raw value in the header's grammar that the generator lets through,
      however it is spaced, the Go constant is the C value as a word of any width
      up to that of a Go uint; but for ~0U, which C widens from an unsigned int
      with zeros. */
  lemma MeaningPreserved(raw: string, e: Expr, env: Env, u: nat, w: nat, g: nat)
    requires Writes(raw, e) && u <= w <= g && Emittable(TranslateValue(raw))
    ensures SameWord(ConstValue(TranslateValue(raw), env, g), CValue(e, env, w, u), w)
            <==> !(e.AllOnes? && IsUnsignedInt(e.suffix) && u < w)
  {
    if e.AllOnes? {
      AllOnesTranslated(raw, e.suffix);
      CaretMeans(TranslateValue(raw), env, g);
      OnesMean(e.suffix, u, w, g);
    } else {
      TermsMeanTheSame(raw, e, env, g);
    }
  }

  lemma UnsignedWritten(raw: string)
    requires raw == "(~0U)"
    ensures Writes(raw, AllOnes("U"))
  {
    assert raw == InParens([] + (['~'] + ([] + (['0'] + "U") + [])));
    assert PaddedBy(raw, [], raw, []);
    assert WritesAllOnes(raw, [], [], [], "U");
  }

  /** The exception at its smallest: ~0U with an unsigned int of 32 bits and a
      CK_ULONG and a Go uint of 64. */
  lemma UnsignedComplementDiffers(raw: string)
    requires raw == "(~0U)"
    ensures Writes(raw, AllOnes("U"))
    ensures CValue(AllOnes("U"), map[], 64, 32) == Some(0xFFFF_FFFF)
    ensures ConstValue(TranslateValue(raw), map[], 64) == Some(0xFFFF_FFFF_FFFF_FFFF)
  {
    UnsignedWritten(raw);
    AllOnesTranslated(raw, "U");
    CaretMeans(TranslateValue(raw), map[], 64);
    SixtyFour();
  }
}
