/** The string functions of the Go library that the constant generator uses. */
module Text {
  /** unicode.IsSpace */
  predicate IsSpace(c: char) {
    || ('\t' <= c <= '\r') || c == ' ' || c == '\U{0085}' || c == '\U{00A0}' || c == '\U{1680}'
    || ('\U{2000}' <= c <= '\U{200A}') || c == '\U{2028}' || c == '\U{2029}' || c == '\U{202F}'
    || c == '\U{205F}' || c == '\U{3000}'
  }

  /** A word character of a regular expression. */
  predicate IsWord(c: char) {
    ('0' <= c <= '9') || ('A' <= c <= 'Z') || ('a' <= c <= 'z') || c == '_'
  }

  predicate AllSpace(s: string) {
    forall c | c in s :: IsSpace(c)
  }

  predicate NoSpace(s: string) {
    forall c | c in s :: !IsSpace(c)
  }

  predicate AllWord(s: string) {
    forall c | c in s :: IsWord(c)
  }

  function TrimLeft(s: string): string {
    if s != [] && IsSpace(s[0]) then TrimLeft(s[1..]) else s
  }

  function TrimRight(s: string): string {
    if s != [] && IsSpace(s[|s| - 1]) then TrimRight(s[..|s| - 1]) else s
  }

  /** strings.TrimSpace */
  function TrimSpace(s: string): string {
    TrimRight(TrimLeft(s))
  }

  /** strings.Split(s, "|") */
  function Split(s: string): (parts: seq<string>)
    ensures parts != []
  {
    if s == [] then [[]]
    else
      var rest := Split(s[1..]);
      if s[0] == '|' then [[]] + rest else [[s[0]] + rest[0]] + rest[1..]
  }

  /** strings.ReplaceAll(s, "|", " | ") */
  function PadBars(s: string): string {
    if s == [] then [] else (if s[0] == '|' then " | " else [s[0]]) + PadBars(s[1..])
  }

  /** strings.Join */
  function Join(parts: seq<string>, sep: string): string {
    if parts == [] then [] else if |parts| == 1 then parts[0] else parts[0] + sep + Join(parts[1..], sep)
  }

  /** strings.Fields: the runs without white space. */
  function Fields(s: string): (fields: seq<string>)
    ensures s != [] && !IsSpace(s[0]) ==> fields != []
  {
    if s == [] then []
    else if IsSpace(s[0]) then Fields(s[1..])
    else if |s| == 1 || IsSpace(s[1]) then [[s[0]]] + Fields(s[1..])
    else
      var rest := Fields(s[1..]);
      [[s[0]] + rest[0]] + rest[1..]
  }

  // ---- Trimming ---------------------------------------------------------------

  lemma {:induction false} TrimLeftParts(s: string) returns (left: string)
    ensures s == left + TrimLeft(s) && AllSpace(left)
    ensures TrimLeft(s) == [] || !IsSpace(TrimLeft(s)[0])
  {
    left := [];
    if s != [] && IsSpace(s[0]) {
      left := TrimLeftParts(s[1..]);
      left := [s[0]] + left;
    }
  }

  lemma {:induction false} TrimRightParts(s: string) returns (right: string)
    ensures s == TrimRight(s) + right && AllSpace(right)
    ensures TrimRight(s) == [] || (!IsSpace(TrimRight(s)[|TrimRight(s)| - 1]) && TrimRight(s)[0] == s[0])
  {
    right := [];
    if s != [] && IsSpace(s[|s| - 1]) {
      right := TrimRightParts(s[..|s| - 1]);
      right := right + [s[|s| - 1]];
    }
  }

  /** Trimming leaves a text with no white space at its ends, and takes nothing
      but white space away. */
  lemma TrimParts(s: string) returns (left: string, right: string)
    ensures s == left + TrimSpace(s) + right && AllSpace(left) && AllSpace(right)
    ensures var t := TrimSpace(s); t == [] || (!IsSpace(t[0]) && !IsSpace(t[|t| - 1]))
  {
    left := TrimLeftParts(s);
    right := TrimRightParts(TrimLeft(s));
    Assoc(left, TrimSpace(s), right);
  }

  lemma Assoc(a: string, b: string, c: string)
    ensures a + (b + c) == a + b + c
  {
  }

  lemma {:induction false} TrimLeftOf(left: string, t: string)
    requires AllSpace(left) && (t == [] || !IsSpace(t[0]))
    ensures TrimLeft(left + t) == t
  {
    if left == [] {
      assert left + t == t;
    } else {
      assert left[0] in left;
      assert (left + t)[1..] == left[1..] + t;
      TrimLeftOf(left[1..], t);
    }
  }

  lemma {:induction false} TrimRightOf(t: string, right: string)
    requires AllSpace(right) && (t == [] || !IsSpace(t[|t| - 1]))
    ensures TrimRight(t + right) == t
  {
    if right == [] {
      assert t + right == t;
    } else {
      var n := |right| - 1;
      assert right[n] in right;
      assert (t + right)[..|t + right| - 1] == t + right[..n];
      TrimRightOf(t, right[..n]);
    }
  }

  /** Trimming removes exactly the white space around a text. */
  lemma TrimOf(left: string, t: string, right: string)
    requires AllSpace(left) && AllSpace(right)
    requires t != [] && !IsSpace(t[0]) && !IsSpace(t[|t| - 1])
    ensures TrimSpace(left + t + right) == t
  {
    assert left + t + right == left + (t + right);
    TrimLeftOf(left, t + right);
    TrimRightOf(t, right);
  }

  // ---- Splitting and joining ----------------------------------------------------

  predicate NoBar(s: string) {
    '|' !in s
  }

  lemma {:induction false} SplitHasNoBars(s: string)
    ensures forall p | p in Split(s) :: NoBar(p)
    ensures NoBar(s) ==> Split(s) == [s]
    ensures |Split(s)| == 1 ==> NoBar(s)
  {
    if s != [] {
      SplitHasNoBars(s[1..]);
      var rest := Split(s[1..]);
      assert s == [s[0]] + s[1..] && rest[0] in rest;
      if s[0] != '|' {
        assert NoBar(s) <==> NoBar(s[1..]);
        assert NoBar([s[0]] + rest[0]);
        forall p | p in Split(s) ensures NoBar(p) {
          assert p in rest || p == [s[0]] + rest[0];
        }
      }
    }
  }

  /** A prefix without bars stays in the first part. */
  lemma {:induction false} SplitPrefix(a: string, s: string)
    requires NoBar(a)
    ensures Split(a + s) == [a + Split(s)[0]] + Split(s)[1..]
  {
    if a == [] {
      assert a + s == s;
      var p := Split(s);
      assert a + p[0] == p[0] && [p[0]] + p[1..] == p;
    } else {
      assert (a + s)[1..] == a[1..] + s;
      SplitPrefix(a[1..], s);
      assert [a[0]] + (a[1..] + Split(s)[0]) == a + Split(s)[0];
    }
  }

  lemma {:induction false} SplitBar(a: string, s: string)
    requires NoBar(a)
    ensures Split(a + "|" + s) == [a] + Split(s)
  {
    assert a + "|" + s == a + ("|" + s);
    SplitPrefix(a, "|" + s);
    assert ("|" + s)[1..] == s;
    assert Split("|" + s) == [[]] + Split(s) && a + [] == a;
  }

  /** A character in front of joined parts is in front of the first one. */
  lemma JoinCons(c: char, parts: seq<string>, sep: string)
    requires parts != []
    ensures Join([[c] + parts[0]] + parts[1..], sep) == [c] + Join(parts, sep)
  {
    var more := [[c] + parts[0]] + parts[1..];
    assert more[1..] == parts[1..];
    if |parts| > 1 {
      Assoc([c], parts[0], sep);
      Assoc([c], parts[0] + sep, Join(parts[1..], sep));
    }
  }

  lemma JoinEmpty(parts: seq<string>, sep: string)
    requires parts != []
    ensures Join([[]] + parts, sep) == sep + Join(parts, sep)
  {
    assert ([[]] + parts)[1..] == parts;
    assert [] + sep == sep;
  }

  /** Replacing bars is joining the parts again with padded bars. */
  lemma {:induction false} PadBarsJoins(s: string)
    ensures PadBars(s) == Join(Split(s), " | ")
  {
    if s != [] {
      PadBarsJoins(s[1..]);
      JoinEmpty(Split(s[1..]), " | ");
      JoinCons(s[0], Split(s[1..]), " | ");
    }
  }

  predicate PaddedBy(x: string, l: string, t: string, r: string) {
    AllSpace(l) && AllSpace(r) && x == l + t + r
  }

  /** x is t with white space around it. */
  ghost predicate Padded(x: string, t: string) {
    exists l, r :: PaddedBy(x, l, t, r)
  }

  /** Joining with padded bars and splitting again gives the parts with a space
      on each side that was joined. */
  lemma {:induction false} SplitJoined(parts: seq<string>)
    requires parts != [] && forall p | p in parts :: NoBar(p)
    ensures var again := Split(Join(parts, " | "));
            |again| == |parts| && forall i | 0 <= i < |parts| :: TrimSpace(again[i]) == TrimSpace(parts[i])
  {
    SplitPadded(parts, []);
    var again := Split(Join(parts, " | "));
    assert [] + Join(parts, " | ") == Join(parts, " | ");
    forall i | 0 <= i < |parts| ensures TrimSpace(again[i]) == TrimSpace(parts[i]) {
      assert Padded(again[i], parts[i]);
      TrimPadded(again[i], parts[i]);
    }
  }

  lemma {:induction false} SplitPadded(parts: seq<string>, left: string)
    requires parts != [] && (forall p | p in parts :: NoBar(p)) && AllSpace(left)
    ensures var again := Split(left + Join(parts, " | "));
            |again| == |parts| && forall i | 0 <= i < |parts| :: Padded(again[i], parts[i])
  {
    assert NoBar(left);
    assert parts[0] in parts;
    var again := Split(left + Join(parts, " | "));
    if |parts| == 1 {
      SplitHasNoBars(left + parts[0]);
      assert PaddedBy(again[0], left, parts[0], []);
    } else {
      var tail := parts[1..];
      SplitPadded(tail, " ");
      var head := left + parts[0] + " ";
      JoinedHead(parts, left);
      SplitBar(head, " " + Join(tail, " | "));
      assert PaddedBy(again[0], left, parts[0], " ");
      forall i | 1 <= i < |parts| ensures Padded(again[i], parts[i]) {
        assert again[i] == Split(" " + Join(tail, " | "))[i - 1] && parts[i] == tail[i - 1];
      }
    }
  }

  lemma JoinedHead(parts: seq<string>, left: string)
    requires |parts| > 1
    ensures left + Join(parts, " | ") == (left + parts[0] + " ") + "|" + (" " + Join(parts[1..], " | "))
  {
    Regroup(left, parts[0], " | ", " ", "|", Join(parts[1..], " | "));
  }

  lemma Regroup(left: string, p: string, sep: string, sp: string, bar: string, t: string)
    requires sep == sp + (bar + sp)
    ensures left + (p + sep + t) == (left + p + sp) + bar + (sp + t)
  {
    var rest := bar + (sp + t);
    Assoc(p, sep, t);
    Assoc(sp, bar + sp, t);
    Assoc(bar, sp, t);
    Assoc(left, p, sp + rest);
    Assoc(left + p, sp, rest);
    Assoc(left + p + sp, bar, sp + t);
  }

  lemma TrimBlank(s: string)
    requires AllSpace(s)
    ensures TrimSpace(s) == []
  {
    TrimLeftOf(s, []);
    assert s + [] == s;
  }

  lemma TrimPadded(x: string, t: string)
    requires Padded(x, t)
    ensures TrimSpace(x) == TrimSpace(t)
  {
    var l, r :| PaddedBy(x, l, t, r);
    var l', r' := TrimParts(t);
    var core := TrimSpace(t);
    if core != [] {
      Assoc(l, l' + core, r');
      Assoc(l, l', core);
      Assoc(l + l' + core, r', r);
      assert x == (l + l') + core + (r' + r);
      TrimOf(l + l', core, r' + r);
    } else {
      assert t == l' + r';
      TrimBlank(x);
    }
  }

  lemma {:induction false} JoinHas(fs: seq<string>, sep: string, f: string, c: char)
    requires f in fs && c in f
    ensures c in Join(fs, sep)
  {
    if |fs| > 1 && f in fs[1..] {
      JoinHas(fs[1..], sep, f, c);
    }
  }

  /** A text is its parts, joined. */
  lemma {:induction false} JoinSplit(s: string)
    ensures Join(Split(s), "|") == s
  {
    if s != [] {
      JoinSplit(s[1..]);
      assert s == [s[0]] + s[1..];
      JoinEmpty(Split(s[1..]), "|");
      JoinCons(s[0], Split(s[1..]), "|");
    }
  }
}
