/** Go constant expressions, as far as the generated constants use them: integer
  literals without underscores, names, the or operator, parentheses, conversion
  to uint and complement. Anything else has no value here. This is the reading of
  a Go compiler, with a lexer and a parser, and not that of the generator. */
module GoConst {
  import opened Common
  import opened Text
  import opened Translation
  import opened Numbers
  import opened Expressions

  datatype Token = Number(text: string) | Ident(text: string) | Bar | Complement | Open | Close

  /** White space that does not end a statement. */
  predicate IsBlank(c: char) {
    c == ' ' || c == '\t'
  }

  function Cons(t: Token, rest: Option<seq<Token>>): Option<seq<Token>> {
    if rest.Some? then Some([t] + rest.value) else None
  }

  /** The tokens of a text; || and |= are other tokens than two of these. */
  function Lex(s: string): Option<seq<Token>>
    decreases |s|
  {
    if s == [] then Some([])
    else if IsBlank(s[0]) then Lex(s[1..])
    else if IsWord(s[0]) then
      var n := WordLen(s);
      Cons(if IsDigit(s[0]) then Number(s[..n]) else Ident(s[..n]), Lex(s[n..]))
    else if s[0] == '|' then
      if |s| > 1 && (s[1] == '|' || s[1] == '=') then None else Cons(Bar, Lex(s[1..]))
    else if s[0] == '^' then
      if |s| > 1 && s[1] == '=' then None else Cons(Complement, Lex(s[1..]))
    else if s[0] == '(' then Cons(Open, Lex(s[1..]))
    else if s[0] == ')' then Cons(Close, Lex(s[1..]))
    else None
  }

  /** The value of an integer literal, of any size. */
  function LiteralValue(text: string): Option<nat> {
    if |text| >= 3 && text[0] == '0' && text[1] in "xX" then Digits(text[2..], 16)
    else if |text| >= 3 && text[0] == '0' && text[1] in "oO" then Digits(text[2..], 8)
    else if |text| >= 3 && text[0] == '0' && text[1] in "bB" then Digits(text[2..], 2)
    else if |text| >= 2 && text[0] == '0' then Digits(text[1..], 8)
    else Digits(text, 10)
  }

  function Digits(text: string, base: nat): Option<nat> {
    if text != [] && AllBelow(text, base) then Some(Numeral(text, base, 0)) else None
  }

  /** A constant: untyped, or of type uint. */
  datatype Constant = Constant(n: nat, typed: bool)

  /** A parsed value and the tokens after it. */
  type Parsed = Option<(Constant, seq<Token>)>

  function Or(a: Constant, b: Constant): Constant {
    Constant(BitOr(a.n, b.n), a.typed || b.typed)
  }

  /** Operands joined by the or operator, where a uint has g bits. */
  function ParseOr(t: seq<Token>, env: Env, g: nat): (r: Parsed)
    ensures r.Some? ==> |r.value.1| < |t|
    decreases |t|, 2
  {
    var first := ParseUnary(t, env, g);
    if first.None? then None else ParseMore(first.value.0, first.value.1, env, g)
  }

  function ParseMore(v: Constant, t: seq<Token>, env: Env, g: nat): (r: Parsed)
    ensures r.Some? ==> |r.value.1| <= |t|
    decreases |t|, 1
  {
    if t != [] && t[0] == Bar then
      var next := ParseUnary(t[1..], env, g);
      if next.None? then None else ParseMore(Or(v, next.value.0), next.value.1, env, g)
    else Some((v, t))
  }

  function ParseUnary(t: seq<Token>, env: Env, g: nat): (r: Parsed)
    ensures r.Some? ==> |r.value.1| < |t|
    decreases |t|, 1
  {
    if t == [] then None
    else
      match t[0]
      case Number(text) =>
        if LiteralValue(text).Some? then Some((Constant(LiteralValue(text).value, false), t[1..])) else None
      case Ident(text) =>
        if text == "uint" && |t| > 1 && t[1] == Open then
          var inner := ParseParens(t[1..], env, g);
          if inner.Some? && inner.value.0.n < Power(g) then Some((Constant(inner.value.0.n, true), inner.value.1)) else None
        else if text in env then Some((Constant(env[text], false), t[1..]))
        else None
      case Open => ParseParens(t, env, g)
      case Complement =>
        var operand := ParseUnary(t[1..], env, g);
        if operand.Some? && operand.value.0.typed && operand.value.0.n < Power(g)
        then Some((Constant(Power(g) - 1 - operand.value.0.n, true), operand.value.1))
        else None
      case _ => None
  }

  function ParseParens(t: seq<Token>, env: Env, g: nat): (r: Parsed)
    requires t != [] && t[0] == Open
    ensures r.Some? ==> |r.value.1| < |t|
    decreases |t|, 0
  {
    var inner := ParseOr(t[1..], env, g);
    if inner.Some? && inner.value.1 != [] && inner.value.1[0] == Close
    then Some((inner.value.0, inner.value.1[1..]))
    else None
  }

  /** The value of a text that is one expression, with nothing after it. */
  function ConstValue(text: string, env: Env, g: nat): Option<nat> {
    var t := Lex(text);
    if t.None? then None
    else
      var r := ParseOr(t.value, env, g);
      if r.Some? && r.value.1 == [] then Some(r.value.0.n) else None
  }

  /** The value of a text that is one of the two boolean constants. */
  function BoolValue(text: string): Option<bool> {
    var t := Lex(text);
    if t == Some([Ident("true")]) then Some(true)
    else if t == Some([Ident("false")]) then Some(false)
    else None
  }
}
