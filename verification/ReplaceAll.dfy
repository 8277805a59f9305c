/** The scanner that strips integer suffixes is the replacement of every match
  of the regular expression (cmd/genconst/main.go). */
module ReplaceAll {
  import opened Text
  import opened Translation

  ghost predicate MatchAt(s: string, i: nat) {
    exists k: nat, j: nat :: Matches(s, i, k, j)
  }

  ghost function SomeMatch(s: string, i: nat): (m: (nat, nat))
    requires MatchAt(s, i)
    ensures Matches(s, i, m.0, m.1)
  {
    var k: nat, j: nat :| Matches(s, i, k, j);
    (k, j)
  }

  /** ReplaceAllString(s, "$1") from position i on: at each position where the
      expression matches, some match is replaced by its group 1 and the scan goes
      on after it; every other character is kept. */
  ghost function Replaced(s: string, i: nat): string
    requires i <= |s|
    decreases |s| - i
  {
    if i == |s| then []
    else if MatchAt(s, i) then
      var m := SomeMatch(s, i);
      s[i..m.0] + Replaced(s, m.1)
    else [s[i]] + Replaced(s, i + 1)
  }

  /** No match starts inside a word. */
  lemma {:induction false} InsideWord(s: string, i: nat, j: nat)
    requires 0 < i <= j <= |s| && (forall k | i - 1 <= k < j :: IsWord(s[k]))
    ensures Replaced(s, i) == s[i..j] + Replaced(s, j)
    decreases j - i
  {
    if i < j {
      assert !Boundary(s, i);
      InsideWord(s, i + 1, j);
      assert s[i..j] == [s[i]] + s[i + 1..j];
      Assoc([s[i]], s[i + 1..j], Replaced(s, j));
    } else {
      assert s[i..j] == [];
    }
  }

  /** The end of the word that starts at i. */
  lemma {:induction false} WordEndsAt(s: string, i: nat) returns (j: nat)
    requires i < |s| && IsWord(s[i])
    ensures i < j <= |s| && (forall k | i <= k < j :: IsWord(s[k])) && (j < |s| ==> !IsWord(s[j]))
    decreases |s| - i
  {
    j := i + 1;
    if j < |s| && IsWord(s[j]) {
      j := WordEndsAt(s, j);
    }
  }

  lemma WordChars(s: string, i: nat, j: nat)
    requires WholeWord(s, i, j)
    ensures forall k | i <= k < j :: IsWord(s[k])
  {
    forall k | i <= k < j ensures IsWord(s[k]) {
      assert s[k] == s[i..j][k - i] && s[k] in s[i..j];
    }
  }

  lemma SameWord(s: string, i: nat, j: nat, j': nat)
    requires WholeWord(s, i, j) && WholeWord(s, i, j')
    ensures j' == j
  {
    WordChars(s, i, j);
    WordChars(s, i, j');
  }

  /** One whole word: replaced by its match if it has one, kept otherwise. */
  lemma WordReplaced(s: string, i: nat, j: nat)
    requires i < j <= |s| && (forall k | i <= k < j :: IsWord(s[k])) && (j < |s| ==> !IsWord(s[j]))
    requires i > 0 ==> !IsWord(s[i - 1])
    ensures Replaced(s, i) == StripWord(s[i..j]) + Replaced(s, j)
  {
    WordAt(s, i, j);
    if MatchAt(s, i) {
      var m := SomeMatch(s, i);
      MatchIsWholeWord(s, i, m.0, m.1);
      SameWord(s, i, j, m.1);
    } else {
      if StripWord(s[i..j]) != s[i..j] {
        ChangedWordIsMatch(s, i, j);
      }
      InsideWord(s, i + 1, j);
      assert s[i..j] == [s[i]] + s[i + 1..j];
      Assoc([s[i]], s[i + 1..j], Replaced(s, j));
    }
  }

  lemma WordAt(s: string, i: nat, j: nat)
    requires i < j <= |s| && (forall k | i <= k < j :: IsWord(s[k])) && (j < |s| ==> !IsWord(s[j]))
    requires i > 0 ==> !IsWord(s[i - 1])
    ensures WholeWord(s, i, j)
  {
    forall c | c in s[i..j] ensures IsWord(c) {
      var k :| 0 <= k < j - i && s[i..j][k] == c;
      assert s[i + k] == c;
    }
  }

  lemma NoMatchOutside(s: string, i: nat)
    requires i < |s| && !IsWord(s[i])
    ensures !MatchAt(s, i)
  {
    forall k: nat, j: nat ensures !Matches(s, i, k, j) {
      if Matches(s, i, k, j) {
        MatchIsWholeWord(s, i, k, j);
        WordChars(s, i, j);
      }
    }
  }

  lemma StripCharAt(s: string, i: nat)
    requires i < |s| && !IsWord(s[i])
    ensures Strip(s[i..]) == [s[i]] + Strip(s[i + 1..])
  {
    assert s[i..] == [s[i]] + s[i + 1..];
    StripPast(s[i], s[i + 1..]);
  }

  lemma StripWordAt(s: string, i: nat, j: nat)
    requires WholeWord(s, i, j)
    ensures Strip(s[i..]) == StripWord(s[i..j]) + Strip(s[j..])
  {
    assert s[i..] == s[i..j] + s[j..];
    StripHead(s[i..j], s[j..]);
  }

  lemma {:induction false} ReplacedFrom(s: string, i: nat)
    requires i <= |s| && (0 < i < |s| && IsWord(s[i]) ==> !IsWord(s[i - 1]))
    ensures Replaced(s, i) == Strip(s[i..])
    decreases |s| - i
  {
    if i == |s| {
      assert s[i..] == [];
    } else if !IsWord(s[i]) {
      NoMatchOutside(s, i);
      ReplacedFrom(s, i + 1);
      StripCharAt(s, i);
    } else {
      var j := WordEndsAt(s, i);
      WordReplaced(s, i, j);
      ReplacedFrom(s, j);
      WordAt(s, i, j);
      StripWordAt(s, i, j);
    }
  }

  /** Stripping replaces every match, whichever match is taken where several
      could be. */
  lemma StripReplacesAll(s: string)
    ensures Strip(s) == Replaced(s, 0)
  {
    ReplacedFrom(s, 0);
    assert s[0..] == s;
  }

  // ---- Identifiers ---------------------------------------------------------------

  /** Text is stripped separately on both sides of the end of a word. */
  lemma {:induction false} StripApart(a: string, b: string)
    requires a == [] || b == [] || !IsWord(a[|a| - 1]) || !IsWord(b[0])
    ensures Strip(a + b) == Strip(a) + Strip(b)
    decreases |a|
  {
    if a == [] {
      assert a + b == b;
    } else if !IsWord(a[0]) {
      assert a == [a[0]] + a[1..] && a + b == [a[0]] + (a[1..] + b);
      StripPast(a[0], a[1..]);
      StripPast(a[0], a[1..] + b);
      StripApart(a[1..], b);
      Assoc([a[0]], Strip(a[1..]), Strip(b));
    } else {
      var w, rest := WordParts(a);
      assert rest != [] ==> rest[|rest| - 1] == a[|a| - 1];
      if rest == [] {
        assert a == w && a[|a| - 1] in w;
        StripOne(w);
        StripHead(w, b);
      } else {
        StripHead(w, rest);
        StripApart(rest, b);
        Assoc(w, rest, b);
        StripHead(w, rest + b);
        Assoc(StripWord(w), Strip(rest), Strip(b));
      }
    }
  }

  lemma KeptBetween(a: string, w: string, b: string)
    requires w != [] && AllWord(w) && !IsDigit(w[0])
    requires (a == [] || !IsWord(a[|a| - 1])) && (b == [] || !IsWord(b[0]))
    ensures Strip(a + (w + b)) == Strip(a) + w + Strip(b)
  {
    StripApart(a, w + b);
    StripHead(w, b);
    IdentifierKept(w);
    Assoc(Strip(a), w, Strip(b));
  }

  /** Wherever an identifier stands in a text, it stays as it is, and what is
      around it is stripped as if it stood alone. */
  lemma IdentifierKeptInText(s: string, i: nat, j: nat)
    requires WholeWord(s, i, j) && !IsDigit(s[i])
    ensures Strip(s) == Strip(s[..i]) + s[i..j] + Strip(s[j..])
  {
    assert s == s[..i] + (s[i..j] + s[j..]);
    KeptBetween(s[..i], s[i..j], s[j..]);
  }
}
