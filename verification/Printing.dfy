/** Numerals as they are printed: what the readers of C and Go numerals make of
  the digits of a number, in the order "0123456789abcdef". */
module Printing {
  import opened Common
  import opened Text
  import opened Translation
  import opened Numbers
  import opened GoConst

  const Lower: string := "0123456789abcdef"
  const Upper: string := "0123456789ABCDEF"

  predicate IsBase(base: nat) {
    base == 8 || base == 10 || base == 16
  }

  function Quotient(n: nat, base: nat): (q: nat)
    requires IsBase(base)
    ensures q * base <= n < q * base + base && (q > 0 ==> q < n)
  {
    if base == 8 then n / 8 else if base == 10 then n / 10 else n / 16
  }

  /** The digits of n in a base, the most significant first. */
  function Print(n: nat, base: nat, table: string): string
    requires IsBase(base) && |table| == 16
    decreases n
  {
    var q := Quotient(n, base);
    if q == 0 then [table[n]] else Print(q, base, table) + [table[n - q * base]]
  }

  function ZeroDigits(k: nat): string {
    seq(k, i => '0')
  }

  lemma DigitAt(table: string, d: nat)
    requires (table == Lower || table == Upper) && d < 16
    ensures DigitValue(table[d]) == d && IsHex(table[d]) && (d < 10 ==> IsDigit(table[d]))
    ensures table[d] == '0' <==> d == 0
  {
    if d < 8 {
      assert table[..8] == "01234567";
      assert table[d] == "01234567"[d];
      if d < 4 { assert d == 0 || d == 1 || d == 2 || d == 3; } else { assert d == 4 || d == 5 || d == 6 || d == 7; }
    } else if d < 12 {
      assert d == 8 || d == 9 || d == 10 || d == 11;
    } else {
      assert d == 12 || d == 13 || d == 14 || d == 15;
    }
  }

  lemma {:induction false} NumeralAppend(s: string, c: char, base: nat, n: nat)
    ensures Numeral(s + [c], base, n) == Numeral(s, base, n) * base + DigitValue(c)
  {
    if s == [] {
      assert s + [c] == [c] && [c][1..] == [];
    } else {
      assert (s + [c])[1..] == s[1..] + [c];
      NumeralAppend(s[1..], c, base, n * base + DigitValue(s[0]));
    }
  }

  /** The digits of n, the first of them zero only for zero. */
  predicate AreDigitsOf(s: string, n: nat, base: nat) {
    && s != [] && Numeral(s, base, 0) == n && AllBelow(s, base) && AllHex(s)
    && (base <= 10 ==> AllDigit(s)) && (s[0] == '0' <==> n == 0)
  }

  lemma OneDigit(c: char, d: nat, base: nat)
    requires DigitValue(c) == d < base && IsHex(c) && (base <= 10 ==> IsDigit(c)) && (c == '0' <==> d == 0)
    ensures AreDigitsOf([c], d, base)
  {
    assert [c][1..] == [];
    assert Numeral([c], base, 0) == Numeral([], base, DigitValue(c));
  }

  lemma OneDigitMore(s: string, q: nat, c: char, d: nat, base: nat, n: nat)
    requires AreDigitsOf(s, q, base) && q != 0 && n == q * base + d && n > 0
    requires DigitValue(c) == d < base && IsHex(c) && (base <= 10 ==> IsDigit(c))
    ensures AreDigitsOf(s + [c], n, base)
  {
    NumeralAppend(s, c, base, 0);
    assert (s + [c])[0] == s[0];
  }

  /** Reading what was printed gives the number back. */
  lemma {:induction false} PrintedReads(n: nat, base: nat, table: string)
    requires (table == Lower || table == Upper) && IsBase(base)
    ensures AreDigitsOf(Print(n, base, table), n, base)
    decreases n
  {
    var q := Quotient(n, base);
    if q == 0 {
      DigitAt(table, n);
      OneDigit(table[n], n, base);
    } else {
      var d := n - q * base;
      PrintedReads(q, base, table);
      DigitAt(table, d);
      OneDigitMore(Print(q, base, table), q, table[d], d, base, n);
    }
  }

  /** Leading zeros change nothing. */
  lemma {:induction false} ZerosRead(k: nat, s: string, base: nat)
    requires base >= 1
    ensures var z := ZeroDigits(k) + s;
            && Numeral(z, base, 0) == Numeral(s, base, 0) && (AllBelow(z, base) <==> AllBelow(s, base))
            && (AllHex(z) <==> AllHex(s)) && (AllDigit(z) <==> AllDigit(s))
  {
    var z := ZeroDigits(k) + s;
    if k == 0 {
      assert z == s;
    } else {
      ZerosRead(k - 1, s, base);
      assert z == ['0'] + (ZeroDigits(k - 1) + s) && z[1..] == ZeroDigits(k - 1) + s;
    }
  }

  /** What all three readers make of a literal. */
  predicate ReadAs(text: string, n: nat) {
    && IsLiteral(text)
    && (n < 0x1_0000_0000_0000_0000 ==> IsCLiteral(text) && CLiteral(text) == n && ParseUint(text) == Some(n))
    && (n >= 0x1_0000_0000_0000_0000 ==> !IsCLiteral(text) && ParseUint(text) == None)
    && LiteralValue(text) == Some(n)
  }

  /** A hexadecimal literal, in either case and with any leading zeros. */
  lemma HexPrinted(n: nat, k: nat, table: string, x: char)
    requires (table == Lower || table == Upper) && (x == 'x' || x == 'X')
    ensures ReadAs(['0', x] + (ZeroDigits(k) + Print(n, 16, table)), n)
  {
    var s := ZeroDigits(k) + Print(n, 16, table);
    var text := ['0', x] + s;
    PrintedReads(n, 16, table);
    ZerosRead(k, Print(n, 16, table), 16);
    assert text[2..] == s && text[2] == s[0] && s[0] in s;
    GoReadsLiteral(text);
  }

  /** An octal literal: a zero, and the digits. */
  lemma OctalPrinted(n: nat, k: nat)
    ensures ReadAs(['0'] + (ZeroDigits(k) + Print(n, 8, Lower)), n)
  {
    PrintedReads(n, 8, Lower);
    ZerosRead(k, Print(n, 8, Lower), 8);
    OctalReads(ZeroDigits(k) + Print(n, 8, Lower), n);
  }

  lemma OctalReads(s: string, n: nat)
    requires s != [] && AllDigit(s) && AllBelow(s, 8) && Numeral(s, 8, 0) == n
    ensures ReadAs(['0'] + s, n)
  {
    var text := ['0'] + s;
    assert text[1..] == s && text[1] == s[0] && s[0] in s;
    assert Numeral(text, 8, 0) == Numeral(s, 8, 0);
    GoReadsLiteral(text);
  }

  /** A decimal literal. */
  lemma DecimalPrinted(n: nat)
    ensures ReadAs(Print(n, 10, Lower), n)
  {
    var text := Print(n, 10, Lower);
    PrintedReads(n, 10, Lower);
    assert text[0] in text && (|text| > 1 ==> text[1] in text);
    if n == 0 {
      assert text == ['0'] && text[1..] == [];
    }
    GoReadsLiteral(text);
  }

  /** The other forms of strconv.ParseUint: a binary and an octal prefix, */
  lemma PrefixForms(binary: string, octal: string)
    requires binary == "0b101" && octal == "0o17"
    ensures ParseUint(binary) == Some(5) && ParseUint(octal) == Some(15)
  {
    assert binary[2..] == "101" && "101"[1..] == "01" && "01"[1..] == "1" && "1"[1..] == [];
    assert octal[2..] == "17" && "17"[1..] == "7" && "7"[1..] == [];
    assert GoDigits("101", 2, 0) == GoDigits("01", 2, 1) == GoDigits("1", 2, 2) == Some(5);
    assert GoDigits("17", 8, 0) == GoDigits("7", 8, 1) == Some(15);
  }

  /** and an underscore between digits, */
  lemma PartedForm(s: string)
    requires s == "1_0"
    ensures ParseUint(s) == Some(10)
  {
    assert s[1..] == "_0" && "_0"[1..] == "0" && "0"[1..] == [];
    assert GoDigits(s, 10, 0) == GoDigits("_0", 10, 1) == GoDigits("0", 10, 1) == Some(10);
    assert UnderscoreScan(s, false, Begin) == UnderscoreScan("_0", false, Digit) == UnderscoreScan("0", false, Underscore);
  }

  /** but not two, nor one at an end. */
  lemma RefusedForms(twice: string, before: string, after: string)
    requires twice == "1__0" && before == "_10" && after == "10_"
    ensures ParseUint(twice) == None && ParseUint(before) == None && ParseUint(after) == None
  {
    assert twice[1..] == "__0" && "__0"[1..] == "_0" && twice[2] == '_';
    assert !UnderscoreScan("_0", false, Underscore) && before[0] == '_';
    assert UnderscoreScan(twice, false, Begin) == UnderscoreScan("__0", false, Digit);
    assert after[1..] == "0_" && "0_"[1..] == "_" && "_"[1..] == [] && after[2] == '_';
    assert UnderscoreScan("_", false, Digit) == UnderscoreScan([], false, Underscore) == false;
    assert UnderscoreScan(after, false, Begin) == UnderscoreScan("0_", false, Digit) == UnderscoreScan("_", false, Digit);
  }
}
