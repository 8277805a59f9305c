/** The character classes and name prefixes, written out. */
module Characters {
  import opened Text
  import opened Translation
  import opened Numbers
  import opened Evaluation
  import opened Header

  const Digits: string := "0123456789"
  const HexDigits: string := "0123456789abcdefABCDEF"
  const LowerLetters: string := "abcdefghijklmnopqrstuvwxyz"
  const UpperLetters: string := "ABCDEFGHIJKLMNOPQRSTUVWXYZ"

  predicate IsWordChar(c: char) {
    c in Digits || c in LowerLetters || c in UpperLetters || c == '_'
  }

  /** The classes of the regular expressions, character by character. */
  lemma Classes(c: char)
    ensures IsDigit(c) <==> c in Digits
    ensures IsHex(c) <==> c in HexDigits
    ensures IsSuffix(c) <==> c in "uUlL"
  {
  }

  lemma WordClass(c: char)
    ensures IsWord(c) <==> IsWordChar(c)
  {
  }

  /** The white space of unicode.IsSpace. */
  lemma Spaces(c: char)
    ensures IsSpace(c) <==>
            c in "\t\n\U{000B}\U{000C}\r \U{0085}\U{00A0}\U{1680}\U{2000}\U{2001}\U{2002}\U{2003}\U{2004}\U{2005}\U{2006}\U{2007}\U{2008}\U{2009}\U{200A}\U{2028}\U{2029}\U{202F}\U{205F}\U{3000}"
  {
  }

  /** A macro name: a letter or underscore, and word characters. */
  lemma Identifiers(s: string)
    ensures IsIdentifier(s) <==> s != [] && s[0] !in Digits && forall c | c in s :: IsWordChar(c)
  {
    if s != [] {
      Classes(s[0]);
    }
    forall c | c in s ensures IsWord(c) <==> IsWordChar(c) {
      WordClass(c);
    }
  }

  lemma Prefixes(name: string)
    ensures IsAttribute(name) <==> "CKA_" <= name
    ensures IsMacro(name) <==> "CK" <= name
  {
  }
}
