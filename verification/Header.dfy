/** From the header to the attribute table (cmd/genconst/main.go). */
module Header {
  import opened Common
  import opened Text
  import opened Translation
  import opened Numbers
  import opened Expressions
  import opened Meaning
  import opened Preserved
  import opened GoConst
  import opened GoMeaning
  import opened Evaluation
  import opened Table

  /** A line of the header, and the expression its value is a way to write. */
  datatype Line = Line(name: string, raw: string, expr: Expr)

  predicate IsMacro(name: string) {
    |name| >= 2 && name[0] == 'C' && name[1] == 'K'
  }

  ghost predicate IsHeader(lines: seq<Line>) {
    forall i | 0 <= i < |lines| :: IsMacro(lines[i].name) && Writes(lines[i].raw, lines[i].expr)
  }

  predicate IsBoolean(name: string) {
    name == "CK_TRUE" || name == "CK_FALSE"
  }

  /** The C value of a line where these names are known. Booleans and the
      all-ones word are no numbers of the table. */
  function CMeaning(line: Line, known: Env): Option<nat> {
    if IsBoolean(line.name) || line.expr.AllOnes? then None else COr(line.expr.terms, known)
  }

  /** The defines that parse makes of the lines. */
  function Defines(lines: seq<Line>): (defines: seq<Define>)
    ensures |defines| == |lines|
  {
    seq(|lines|, i requires 0 <= i < |lines| => Define(lines[i].name, Translate(lines[i].name, lines[i].raw)))
  }

  /** The C values of the first n lines, each from those before it. */
  function CMeanings(lines: seq<Line>, n: nat): (outcomes: seq<Option<nat>>)
    requires n <= |lines|
    ensures |outcomes| == n
  {
    if n == 0 then []
    else
      var before := CMeanings(lines, n - 1);
      before + [CMeaning(lines[n - 1], Record(Defines(lines), before, n - 1))]
  }

  predicate MacrosOnly(known: Env) {
    forall name | name in known :: IsMacro(name)
  }

  lemma {:induction false} RecordsMacros(defines: seq<Define>, outcomes: seq<Option<nat>>, n: nat)
    requires n <= |defines| && n <= |outcomes|
    requires forall i | 0 <= i < |defines| :: IsMacro(defines[i].name)
    ensures MacrosOnly(Record(defines, outcomes, n))
  {
    if n > 0 {
      RecordsMacros(defines, outcomes, n - 1);
    }
  }

  lemma CaretHasNoValue(d: Define, known: Env)
    requires d.value == Caret && MacrosOnly(known)
    ensures ValueOf(d, known).None?
  {
    CaretTerm();
    assert ParseUint(Caret).None?;
    assert Caret !in known;
    assert EvalTerms([Caret], known) == Either(EvalTerm(Caret, known), Some(0));
  }

  lemma BooleanHasNoValue(d: Define, known: Env)
    requires (d.value == "true" || d.value == "false") && MacrosOnly(known)
    ensures ValueOf(d, known).None?
  {
    TrimOf([], d.value, []);
    assert [] + d.value + [] == d.value;
    AliasValue(d, known);
  }

  /** A translated line denotes in Go what the line denotes in C. */
  lemma LineMeaning(line: Line, known: Env)
    requires Writes(line.raw, line.expr) && MacrosOnly(known)
    ensures ValueOf(Define(line.name, Translate(line.name, line.raw)), known) == CMeaning(line, known)
  {
    var d := Define(line.name, Translate(line.name, line.raw));
    if IsBoolean(line.name) {
      BooleanHasNoValue(d, known);
    } else if line.expr.AllOnes? {
      var a, b, c :| WritesAllOnes(line.raw, a, b, c, line.expr.suffix);
      AllOnesFound(line.raw, a, b, c, line.expr.suffix);
      CaretHasNoValue(d, known);
    } else {
      TermsPreserved(line.raw, line.expr, known);
    }
  }

  lemma LastCMeaning(lines: seq<Line>, n: nat) returns (x: Option<nat>)
    requires 0 < n <= |lines|
    ensures CMeanings(lines, n) == CMeanings(lines, n - 1) + [x]
    ensures x == CMeaning(lines[n - 1], Record(Defines(lines), CMeanings(lines, n - 1), n - 1))
  {
    x := CMeaning(lines[n - 1], Record(Defines(lines), CMeanings(lines, n - 1), n - 1));
  }

  /** For every header, of any length, the defines denote what the lines denote
      in C. */
  lemma {:induction false} HeaderMeaning(lines: seq<Line>, n: nat)
    requires IsHeader(lines) && n <= |lines|
    ensures Outcomes(Defines(lines), n) == CMeanings(lines, n)
  {
    if n > 0 {
      HeaderMeaning(lines, n - 1);
      var x := LastOutcome(Defines(lines), n);
      var y := LastCMeaning(lines, n);
      var before := CMeanings(lines, n - 1);
      RecordsMacros(Defines(lines), before, n - 1);
      LineMeaning(lines[n - 1], Record(Defines(lines), before, n - 1));
    }
  }

  /** The truth of a value in C: it is not zero. */
  function CTruth(e: Expr, env: Env): Option<bool> {
    if e.AllOnes? then Some(true)
    else
      var n := COr(e.terms, env);
      if n.Some? then Some(n.value != 0) else None
  }

  lemma LexOneWord(w: string)
    requires w != [] && AllWord(w) && !IsDigit(w[0])
    ensures Lex(w) == Some([Ident(w)])
  {
    LexWord(w, []);
    assert w + [] == w && Lex([]) == Some([]) && [Ident(w)] + [] == [Ident(w)];
  }

  lemma BooleanReads(name: string, raw: string)
    ensures name == "CK_TRUE" ==> BoolValue(Translate(name, raw)) == Some(true)
    ensures name == "CK_FALSE" ==> BoolValue(Translate(name, raw)) == Some(false)
  {
    LexOneWord("true");
    LexOneWord("false");
  }

  /** A boolean constant keeps the truth of its macro exactly when that is what
      its name says, whatever way the value is written. */
  lemma BooleanMeaning(line: Line, env: Env)
    requires IsBoolean(line.name) && Writes(line.raw, line.expr) && CTruth(line.expr, env).Some?
    ensures BoolValue(Translate(line.name, line.raw)) == CTruth(line.expr, env) <==>
            CTruth(line.expr, env).value == (line.name == "CK_TRUE")
  {
    BooleanReads(line.name, line.raw);
  }

  /** With distinct names the table has an entry for exactly the values that the
      attributes of the header have in C. */
  lemma {:induction false} TableCoversHeader(lines: seq<Line>, v: nat)
    requires IsHeader(lines) && DistinctNames(Defines(lines))
    requires AttributesDenote(Defines(lines), CMeanings(lines, |lines|), |lines|)
    ensures v in Order(Defines(lines), Known(Defines(lines)), |lines|) <==>
            exists i: nat :: i < |lines| && IsAttribute(lines[i].name) && CMeanings(lines, |lines|)[i] == Some(v)
  {
    var defines, n := Defines(lines), |lines|;
    var values := Known(defines);
    HeaderMeaning(lines, n);
    OrderIs(defines, values, n);
    forall i: nat | i < n && IsAttribute(lines[i].name)
      ensures Some(Value(values, defines[i])) == CMeanings(lines, n)[i]
    {
      RecordedValue(defines, Meanings(defines), i);
    }
    if v in Order(defines, values, n) {
      var i: nat :| i < n && Has(defines, values, i, v);
      assert lines[i].name == defines[i].name;
    }
    if i: nat :| i < n && IsAttribute(lines[i].name) && CMeanings(lines, n)[i] == Some(v) {
      assert Has(defines, values, i, v);
    }
  }
}
