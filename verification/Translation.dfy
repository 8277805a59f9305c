/** Rewriting a C macro value into a Go constant expression
  (cmd/genconst/main.go). */
module Translation {
  import opened Text
  import opened TextFields

  predicate IsDigit(c: char) { '0' <= c <= '9' }
  predicate IsHex(c: char) { IsDigit(c) || ('A' <= c <= 'F') || ('a' <= c <= 'f') }
  predicate IsSuffix(c: char) { c == 'u' || c == 'U' || c == 'l' || c == 'L' }

  predicate AllDigit(s: string) { forall c | c in s :: IsDigit(c) }
  predicate AllHex(s: string) { forall c | c in s :: IsHex(c) }
  predicate AllSuffix(s: string) { forall c | c in s :: IsSuffix(c) }

  predicate HexStart(w: string) {
    |w| >= 3 && w[0] == '0' && (w[1] == 'x' || w[1] == 'X') && IsHex(w[2])
  }

  /** 0[xX][0-9A-Fa-f]+|[0-9]+ */
  predicate IsLiteral(b: string) {
    (HexStart(b) && AllHex(b[2..])) || (b != [] && AllDigit(b))
  }

  function DigitLen(s: string): (n: nat)
    ensures n <= |s|
  {
    if s != [] && IsDigit(s[0]) then 1 + DigitLen(s[1..]) else 0
  }

  function HexLen(s: string): (n: nat)
    ensures n <= |s|
  {
    if s != [] && IsHex(s[0]) then 1 + HexLen(s[1..]) else 0
  }

  /** The length of the literal a word starts with, 0 for none. */
  function BodyLen(w: string): (n: nat)
    ensures n <= |w|
  {
    if HexStart(w) then 2 + HexLen(w[2..]) else DigitLen(w)
  }

  /** A word without its integer suffix, if it is a suffixed literal. */
  function StripWord(w: string): string {
    var k := BodyLen(w);
    if 0 < k < |w| && AllSuffix(w[k..]) then w[..k] else w
  }

  function WordLen(s: string): (n: nat)
    ensures n <= |s| && (s != [] && IsWord(s[0]) ==> 0 < n)
  {
    if s != [] && IsWord(s[0]) then 1 + WordLen(s[1..]) else 0
  }

  /** intSuffixRE.ReplaceAllString(s, "$1"), by scanning words. */
  function Strip(s: string): string
    decreases |s|
  {
    if s == [] then []
    else if !IsWord(s[0]) then [s[0]] + Strip(s[1..])
    else
      var n := WordLen(s);
      StripWord(s[..n]) + Strip(s[n..])
  }

  /** collapse */
  function Collapse(v: string): string {
    Join(Fields(Strip(v)), "")
  }

  predicate IsAllOnes(v: string) {
    Collapse(v) == "(~0)"
  }

  function Tidied(v: string): string {
    if v != [] && v[0] == '(' && '|' in v then Normal(PadBars(v)) else v
  }

  /** translate, for a name that is not a boolean constant. */
  function TranslateValue(raw: string): string {
    var v := TrimSpace(raw);
    if IsAllOnes(v) then "^uint(0)" else Tidied(Strip(v))
  }

  /** translate */
  function Translate(name: string, raw: string): string {
    if name == "CK_TRUE" then "true" else if name == "CK_FALSE" then "false" else TranslateValue(raw)
  }

  // ---- The regular expression ----------------------------------------------------

  /** \b at position p. */
  predicate Boundary(s: string, p: nat)
    requires p <= |s|
  {
    (p > 0 && IsWord(s[p - 1])) != (p < |s| && IsWord(s[p]))
  }

  /** The pattern matches s[i..j] with group 1 at s[i..k]. */
  predicate Matches(s: string, i: nat, k: nat, j: nat) {
    && i < k < j <= |s|
    && Boundary(s, i) && Boundary(s, j)
    && IsLiteral(s[i..k]) && AllSuffix(s[k..j])
  }

  /** s[i..j] is a word with no word character next to it. */
  predicate WholeWord(s: string, i: nat, j: nat) {
    && i < j <= |s| && AllWord(s[i..j])
    && (i > 0 ==> !IsWord(s[i - 1])) && (j < |s| ==> !IsWord(s[j]))
  }

  lemma {:induction false} DigitRun(a: string, b: string)
    requires AllDigit(a) && (b == [] || !IsDigit(b[0]))
    ensures DigitLen(a + b) == |a|
  {
    if a == [] {
      assert a + b == b;
    } else {
      assert a[0] in a && (a + b)[1..] == a[1..] + b;
      DigitRun(a[1..], b);
    }
  }

  lemma {:induction false} HexRun(a: string, b: string)
    requires AllHex(a) && (b == [] || !IsHex(b[0]))
    ensures HexLen(a + b) == |a|
  {
    if a == [] {
      assert a + b == b;
    } else {
      assert a[0] in a && (a + b)[1..] == a[1..] + b;
      HexRun(a[1..], b);
    }
  }

  lemma {:induction false} DigitPrefix(s: string)
    ensures AllDigit(s[..DigitLen(s)])
  {
    if s != [] && IsDigit(s[0]) {
      DigitPrefix(s[1..]);
      assert s[..DigitLen(s)] == [s[0]] + s[1..][..DigitLen(s[1..])];
    }
  }

  lemma {:induction false} HexPrefix(s: string)
    ensures AllHex(s[..HexLen(s)])
  {
    if s != [] && IsHex(s[0]) {
      HexPrefix(s[1..]);
      assert s[..HexLen(s)] == [s[0]] + s[1..][..HexLen(s[1..])];
    }
  }

  /** A literal followed by suffix letters is taken apart where they meet. */
  lemma BodyOf(b: string, suffix: string)
    requires IsLiteral(b) && AllSuffix(suffix)
    ensures BodyLen(b + suffix) == |b| && StripWord(b + suffix) == b
  {
    var w := b + suffix;
    assert suffix != [] ==> suffix[0] in suffix;
    if HexStart(b) && AllHex(b[2..]) {
      assert w[2..] == b[2..] + suffix;
      HexRun(b[2..], suffix);
    } else {
      assert |b| > 1 ==> b[1] in b;
      assert |b| > 1 ==> w[1] == b[1];
      assert |b| == 1 && |suffix| > 0 ==> w[1] == suffix[0];
      DigitRun(b, suffix);
    }
    assert w[..|b|] == b && w[|b|..] == suffix;
  }

  lemma BodyIsLiteral(w: string)
    requires BodyLen(w) > 0
    ensures IsLiteral(w[..BodyLen(w)])
  {
    var b := w[..BodyLen(w)];
    if HexStart(w) {
      HexPrefix(w[2..]);
      assert b[2..] == w[2..][..HexLen(w[2..])];
    } else {
      DigitPrefix(w);
    }
  }

  lemma LiteralIsWord(b: string)
    requires IsLiteral(b)
    ensures AllWord(b) && b != [] && IsDigit(b[0])
  {
    assert b[0] in b;
    forall c | c in b ensures IsWord(c) {
      if HexStart(b) && AllHex(b[2..]) {
        assert c == b[0] || c == b[1] || c in b[2..];
      }
    }
  }

  /** Every match of the expression is one whole word, and group 1 is the word
      without its suffix; so scanning word by word replaces every match. */
  lemma MatchIsWholeWord(s: string, i: nat, k: nat, j: nat)
    requires Matches(s, i, k, j)
    ensures WholeWord(s, i, j) && StripWord(s[i..j]) == s[i..k] != s[i..j]
  {
    var b, suffix := s[i..k], s[k..j];
    LiteralIsWord(b);
    assert s[i..j] == b + suffix && s[i] == b[0] && s[j - 1] == suffix[|suffix| - 1];
    assert suffix[|suffix| - 1] in suffix && IsWord(s[j - 1]);
    BodyOf(b, suffix);
  }

  /** And every whole word the scanner changes is a match. */
  lemma ChangedWordIsMatch(s: string, i: nat, j: nat)
    requires WholeWord(s, i, j) && StripWord(s[i..j]) != s[i..j]
    ensures Matches(s, i, i + |StripWord(s[i..j])|, j)
  {
    var w := s[i..j];
    var k := BodyLen(w);
    assert 0 < k < |w| && |StripWord(w)| == k && AllSuffix(w[k..]);
    BodyIsLiteral(w);
    assert s[i..i + k] == w[..k] && s[i + k..j] == w[k..];
    WholeWordEnds(s, i, j);
  }

  lemma WholeWordEnds(s: string, i: nat, j: nat)
    requires WholeWord(s, i, j)
    ensures Boundary(s, i) && Boundary(s, j)
  {
    assert s[i] == s[i..j][0] && s[j - 1] == s[i..j][j - i - 1];
  }

  lemma IdentifierKept(w: string)
    requires w != [] && !IsDigit(w[0])
    ensures StripWord(w) == w
  {
  }

  // ---- Stripping piece by piece ---------------------------------------------------

  lemma {:induction false} WordLenOf(w: string, rest: string)
    requires AllWord(w) && (rest == [] || !IsWord(rest[0]))
    ensures WordLen(w + rest) == |w|
  {
    if w == [] {
      assert w + rest == rest;
    } else {
      assert w[0] in w && (w + rest)[1..] == w[1..] + rest;
      WordLenOf(w[1..], rest);
    }
  }

  lemma StripHead(w: string, rest: string)
    requires w != [] && AllWord(w) && (rest == [] || !IsWord(rest[0]))
    ensures Strip(w + rest) == StripWord(w) + Strip(rest)
  {
    assert w[0] in w;
    WordLenOf(w, rest);
    assert (w + rest)[..|w|] == w && (w + rest)[|w|..] == rest;
  }

  lemma StripOne(w: string)
    requires w != [] && AllWord(w)
    ensures Strip(w) == StripWord(w)
  {
    StripHead(w, []);
    assert w + [] == w && StripWord(w) + [] == StripWord(w);
  }

  lemma {:induction false} WordParts(s: string) returns (w: string, rest: string)
    ensures s == w + rest && AllWord(w) && (rest == [] || !IsWord(rest[0]))
    ensures s != [] && IsWord(s[0]) ==> w != []
  {
    if s != [] && IsWord(s[0]) {
      w, rest := WordParts(s[1..]);
      w := [s[0]] + w;
    } else {
      w, rest := [], s;
    }
  }

  /** A character that is no word character separates what is stripped. */
  lemma {:induction false} StripConcat(a: string, c: char, b: string)
    requires !IsWord(c)
    ensures Strip(a + ([c] + b)) == Strip(a) + ([c] + Strip(b))
    decreases |a|
  {
    var tail := [c] + b;
    assert tail[1..] == b;
    if a == [] {
      assert a + tail == tail;
    } else if !IsWord(a[0]) {
      assert (a + tail)[1..] == a[1..] + tail;
      StripConcat(a[1..], c, b);
    } else {
      var w, rest := WordParts(a);
      StripConcat(rest, c, b);
      Assoc(w, rest, tail);
      StripHead(w, rest);
      StripHead(w, rest + tail);
    }
  }

  function Strips(parts: seq<string>): (r: seq<string>)
    ensures |r| == |parts|
  {
    seq(|parts|, i requires 0 <= i < |parts| => Strip(parts[i]))
  }

  lemma FirstBar(s: string) returns (a: string, b: string)
    requires '|' in s
    ensures s == a + ("|" + b) && NoBar(a)
  {
    if s[0] == '|' {
      a, b := [], s[1..];
    } else {
      a, b := FirstBar(s[1..]);
      a := [s[0]] + a;
    }
  }

  /** A word in white space is stripped where it stands. */
  lemma StripSpaced(left: string, w: string, right: string)
    requires AllSpace(left) && AllSpace(right) && w != [] && AllWord(w)
    ensures Strip(left + w + right) == left + StripWord(w) + right
  {
    SpaceStays(left, w + right);
    assert right != [] ==> right[0] in right && !IsWord(right[0]);
    StripHead(w, right);
    SpaceStays(right, []);
    assert right + [] == right;
    Assoc(left, w, right);
    Assoc(left, StripWord(w), right);
  }

  lemma StripPast(c: char, s: string)
    requires !IsWord(c)
    ensures Strip([c] + s) == [c] + Strip(s)
  {
    assert ([c] + s)[1..] == s;
  }

  lemma {:induction false} SpaceStays(left: string, s: string)
    requires AllSpace(left)
    ensures Strip(left + s) == left + Strip(s)
  {
    if left == [] {
      assert left + s == s;
    } else {
      var c, tail := left[0], left[1..] + s;
      assert c in left && !IsWord(c);
      assert left + s == [c] + tail;
      StripPast(c, tail);
      SpaceStays(left[1..], s);
      Assoc([c], left[1..], Strip(s));
    }
  }

  lemma PartOfWord(w: string)
    requires w != [] && AllWord(w)
    ensures StripWord(w) != [] && StripWord(w)[0] == w[0] && AllWord(StripWord(w))
  {
    assert forall c | c in StripWord(w) :: c in w;
  }

  lemma WordEnd(w: string)
    requires w != [] && AllWord(w)
    ensures !IsSpace(w[|w| - 1])
  {
    assert w[|w| - 1] in w;
  }

  lemma StripFront(v: string)
    requires v != []
    ensures Strip(v) != [] && Strip(v)[0] == v[0]
  {
    if IsWord(v[0]) {
      var w, rest := WordParts(v);
      StripHead(w, rest);
      PartOfWord(w);
    }
  }

  lemma {:induction false} StripBack(v: string)
    requires v != []
    ensures var s := Strip(v); s != [] && (IsSpace(s[|s| - 1]) <==> IsSpace(v[|v| - 1]))
    decreases |v|
  {
    StripFront(v);
    if !IsWord(v[0]) {
      if |v| > 1 {
        StripBack(v[1..]);
      }
    } else {
      var w, rest := WordParts(v);
      PartOfWord(w);
      if rest == [] {
        assert v == w;
        StripOne(w);
        WordEnd(w);
        WordEnd(StripWord(w));
      } else {
        StripHead(w, rest);
        StripBack(rest);
      }
    }
  }

  /** Stripping leaves the ends of a text what they are. */
  lemma StripEnds(v: string)
    requires v != []
    ensures var s := Strip(v); s != [] && s[0] == v[0] && (IsSpace(s[|s| - 1]) <==> IsSpace(v[|v| - 1]))
  {
    StripFront(v);
    StripBack(v);
  }
}
