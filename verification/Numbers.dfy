/** Integer literals as C reads them and as strconv.ParseUint reads them. */
module Numbers {
  import opened Common
  import opened Text
  import opened Translation

  /** The value of a digit or letter in a numeral, 36 for anything else. */
  function DigitValue(c: char): nat {
    if '0' <= c <= '9' then (c - '0') as nat
    else if 'a' <= c <= 'z' then (c - 'a') as nat + 10
    else if 'A' <= c <= 'Z' then (c - 'A') as nat + 10
    else 36
  }

  /** Reading digits from the left, after those that made n. */
  function Numeral(digits: string, base: nat, n: nat): nat {
    if digits == [] then n else Numeral(digits[1..], base, n * base + DigitValue(digits[0]))
  }

  predicate AllBelow(digits: string, base: nat) {
    forall c | c in digits :: DigitValue(c) < base
  }

  // ---- C ----------------------------------------------------------------------

  /** The digits of a C literal and their base: 0x hexadecimal, 0 octal. */
  function CDigits(body: string): (string, nat) {
    if HexStart(body) then (body[2..], 16)
    else if body != [] && body[0] == '0' then (body, 8)
    else (body, 10)
  }

  /** A C literal, without its suffix, that has a value in 64 bits. */
  predicate IsCLiteral(body: string) {
    var (digits, base) := CDigits(body);
    IsLiteral(body) && AllBelow(digits, base) && Numeral(digits, base, 0) < 0x1_0000_0000_0000_0000
  }

  function CLiteral(body: string): nat {
    var (digits, base) := CDigits(body);
    Numeral(digits, base, 0)
  }

  // ---- Go ---------------------------------------------------------------------

  /** The loop of strconv.ParseUint for base 0: underscores are skipped, and a
      character that is no digit and a value beyond 64 bits are errors. */
  function GoDigits(s: string, base: nat, n: nat): Option<nat> {
    if s == [] then Some(n)
    else if s[0] == '_' then GoDigits(s[1..], base, n)
    else if DigitValue(s[0]) >= base then None
    else if n * base + DigitValue(s[0]) >= 0x1_0000_0000_0000_0000 then None
    else GoDigits(s[1..], base, n * base + DigitValue(s[0]))
  }

  /** A base prefix, for the parser only when a digit can follow it. */
  predicate Prefixed(s: string, least: nat) {
    |s| >= least >= 2 && s[0] == '0' && s[1] in "bBoOxX"
  }

  function PrefixBase(c: char): nat {
    if c == 'b' || c == 'B' then 2 else if c == 'o' || c == 'O' then 8 else 16
  }

  datatype Saw = Begin | Digit | Underscore | Neither

  /** The loop of strconv.underscoreOK. */
  predicate UnderscoreScan(s: string, hex: bool, saw: Saw) {
    if s == [] then saw != Underscore
    else if IsDigit(s[0]) || (hex && IsHex(s[0])) then UnderscoreScan(s[1..], hex, Digit)
    else if s[0] == '_' then saw == Digit && UnderscoreScan(s[1..], hex, Underscore)
    else saw != Underscore && UnderscoreScan(s[1..], hex, Neither)
  }

  /** strconv.underscoreOK, for text without a sign. */
  predicate UnderscoreOK(s: string) {
    if Prefixed(s, 2) then UnderscoreScan(s[2..], s[1] in "xX", Digit)
    else UnderscoreScan(s, false, Begin)
  }

  /** strconv.ParseUint(s, 0, 64), with None for its errors. */
  function ParseUint(s: string): Option<nat> {
    var n := if s == [] then None
             else if Prefixed(s, 3) then GoDigits(s[2..], PrefixBase(s[1]), 0)
             else if s[0] == '0' then GoDigits(s[1..], 8, 0)
             else GoDigits(s, 10, 0);
    if '_' in s && !UnderscoreOK(s) then None else n
  }

  // ---- Both -------------------------------------------------------------------

  lemma {:induction false} NumeralGrows(digits: string, base: nat, n: nat)
    requires base >= 1
    ensures Numeral(digits, base, n) >= n
  {
    if digits != [] {
      NumeralGrows(digits[1..], base, n * base + DigitValue(digits[0]));
      assert n * base >= n;
    }
  }

  lemma {:induction false} GoReadsDigits(digits: string, base: nat, n: nat)
    requires 1 <= base <= 36 && '_' !in digits && n < 0x1_0000_0000_0000_0000
    ensures var value := Numeral(digits, base, n);
            GoDigits(digits, base, n) ==
            (if AllBelow(digits, base) && value < 0x1_0000_0000_0000_0000 then Some(value) else None)
  {
    if digits != [] {
      var m := n * base + DigitValue(digits[0]);
      assert digits == [digits[0]] + digits[1..];
      NumeralGrows(digits[1..], base, m);
      if m < 0x1_0000_0000_0000_0000 {
        GoReadsDigits(digits[1..], base, m);
      }
    }
  }

  lemma LiteralHasNoUnderscore(body: string)
    requires IsLiteral(body)
    ensures '_' !in body
  {
    if HexStart(body) && AllHex(body[2..]) {
      assert body == [body[0]] + ([body[1]] + body[2..]);
      assert '_' !in body[2..];
    }
  }

  /** Of the texts that the suffix is stripped from, Go reads those that are C
      literals, as C does, and no others. */
  lemma GoReadsLiteral(body: string)
    requires IsLiteral(body)
    ensures ParseUint(body) == if IsCLiteral(body) then Some(CLiteral(body)) else None
  {
    var (digits, base) := CDigits(body);
    LiteralHasNoUnderscore(body);
    GoReadsDigits(digits, base, 0);
    if !HexStart(body) {
      assert |body| >= 2 ==> body[1] in body && IsDigit(body[1]);
      if body[0] == '0' {
        assert GoDigits(digits, 8, 0) == GoDigits(body[1..], 8, 0);
      }
    }
  }

  predicate IsIdentifier(s: string) {
    s != [] && !IsDigit(s[0]) && AllWord(s)
  }

  /** No macro name is read as a number. */
  lemma IdentifierNeverParses(id: string)
    requires IsIdentifier(id)
    ensures ParseUint(id) == None
  {
    assert id[0] in id && IsWord(id[0]);
    if id[0] == '_' {
      assert !UnderscoreOK(id);
    }
  }
}
