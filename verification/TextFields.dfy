/** Splitting at white space and joining again. */
module TextFields {
  import opened Text

  /** strings.Join(strings.Fields(s), " ") */
  function Normal(s: string): string {
    Join(Fields(s), " ")
  }

  /** White space separates fields. */
  lemma {:induction false} FieldsConcat(a: string, c: char, b: string)
    requires IsSpace(c)
    ensures Fields(a + ([c] + b)) == Fields(a) + Fields(b)
  {
    var tail := [c] + b;
    assert tail[1..] == b;
    if a == [] {
      assert a + tail == tail;
    } else {
      assert (a + tail)[1..] == a[1..] + tail;
      FieldsConcat(a[1..], c, b);
      assert |a| > 1 ==> (a + tail)[1] == a[1];
    }
  }

  lemma {:induction false} Skip(left: string, s: string)
    requires AllSpace(left)
    ensures Fields(left + s) == Fields(s)
  {
    if left == [] {
      assert left + s == s;
    } else {
      assert left[0] in left;
      assert (left + s)[1..] == left[1..] + s;
      Skip(left[1..], s);
    }
  }

  lemma FieldsBlank(s: string)
    requires AllSpace(s)
    ensures Fields(s) == []
  {
    Skip(s, []);
    assert s + [] == s;
  }

  lemma {:induction false} FieldsOne(f: string)
    requires f != [] && NoSpace(f)
    ensures Fields(f) == [f]
  {
    assert f[0] in f;
    if |f| > 1 {
      assert f[1] in f;
      FieldsOne(f[1..]);
      assert [f[0]] + f[1..] == f;
    } else {
      assert f == [f[0]];
    }
  }

  lemma FieldsHead(f: string, rest: string)
    requires f != [] && NoSpace(f) && (rest == [] || IsSpace(rest[0]))
    ensures Fields(f + rest) == [f] + Fields(rest)
  {
    FieldsOne(f);
    if rest == [] {
      assert f + rest == f;
    } else {
      assert rest == [rest[0]] + rest[1..];
      FieldsConcat(f, rest[0], rest[1..]);
    }
  }

  lemma {:induction false} JoinAppend(xs: seq<string>, ys: seq<string>, sep: string)
    requires xs != [] && ys != []
    ensures Join(xs + ys, sep) == Join(xs, sep) + sep + Join(ys, sep)
  {
    assert (xs + ys)[1..] == xs[1..] + ys;
    if |xs| > 1 {
      JoinAppend(xs[1..], ys, sep);
      Assoc(xs[0] + sep, Join(xs[1..], sep) + sep, Join(ys, sep));
      Assoc(xs[0] + sep, Join(xs[1..], sep), sep);
    }
  }

  /** Every part holds some text. */
  predicate NoneBlank(parts: seq<string>) {
    forall p | p in parts :: Fields(p) != []
  }

  function Normals(parts: seq<string>): (r: seq<string>)
    ensures |r| == |parts|
  {
    seq(|parts|, i requires 0 <= i < |parts| => Normal(parts[i]))
  }

  lemma PairShape(a: string, b: string)
    ensures a + " | " + b == a + ([' '] + (['|'] + ([' '] + b)))
  {
    var bar := [' '] + (['|'] + ([' '] + b));
    assert " | " + b == bar;
    Assoc(a, " | ", b);
  }

  lemma FieldsOfPair(a: string, b: string)
    ensures Fields(a + " | " + b) == Fields(a) + (["|"] + Fields(b))
  {
    PairShape(a, b);
    FieldsConcat(a, ' ', ['|'] + ([' '] + b));
    FieldsConcat(['|'], ' ', b);
    FieldsOne(['|']);
  }

  lemma NormalOfPair(a: string, b: string)
    requires Fields(a) != [] && Fields(b) != []
    ensures Fields(a + " | " + b) != []
    ensures Normal(a + " | " + b) == Normal(a) + " | " + Normal(b)
  {
    var x, y := Fields(a), Fields(b);
    FieldsOfPair(a, b);
    JoinAppend(["|"], y, " ");
    JoinAppend(x, ["|"] + y, " ");
    var u, v := Join(x, " "), Join(y, " ");
    assert Join(["|"], " ") == ['|'];
    assert Join(["|"] + y, " ") == ['|', ' '] + v;
    assert " " + (['|', ' '] + v) == " | " + v;
    Assoc(u, " ", ['|', ' '] + v);
    Assoc(u, " | ", v);
  }

  /** Normalising text joined with padded bars normalises the parts. */
  lemma {:induction false} NormalOfJoined(parts: seq<string>)
    requires parts != [] && NoneBlank(parts)
    ensures Fields(Join(parts, " | ")) != []
    ensures Normal(Join(parts, " | ")) == Join(Normals(parts), " | ")
  {
    assert parts[0] in parts;
    if |parts| > 1 {
      var tail := parts[1..];
      NormalOfJoined(tail);
      NormalOfPair(parts[0], Join(tail, " | "));
      assert Normals(parts)[1..] == Normals(tail);
    }
  }

  /** A text with one word in it. */
  lemma NormalOfWord(s: string)
    requires TrimSpace(s) != [] && NoSpace(TrimSpace(s))
    ensures Fields(s) == [TrimSpace(s)] && Normal(s) == TrimSpace(s)
  {
    var l, r := TrimParts(s);
    var w := TrimSpace(s);
    Assoc(l, w, r);
    Skip(l, w + r);
    FieldsHead(w, r);
    FieldsBlank(r);
  }

  lemma TrimWord(w: string, l: string, r: string)
    requires AllSpace(l) && AllSpace(r) && w != [] && NoSpace(w)
    ensures TrimSpace(l + w + r) == w
  {
    assert w[0] in w && w[|w| - 1] in w;
    TrimOf(l, w, r);
  }

  /** One space where the text starts with white space. */
  function Lead(s: string): string {
    if s != [] && IsSpace(s[0]) then [' '] else []
  }

  /** One space where the text ends with white space. */
  function Trail(s: string): string {
    if s != [] && IsSpace(s[|s| - 1]) then [' '] else []
  }

  function AfterParen(s: string): string {
    Lead(s) + TrimSpace(s)
  }

  function BeforeParen(s: string): string {
    TrimSpace(s) + Trail(s)
  }

  lemma WordAfterParen(w: string, r: string)
    requires w != [] && NoSpace(w) && AllSpace(r)
    ensures Fields(['('] + (w + r)) == [['('] + w]
  {
    Assoc(['('], w, r);
    assert r != [] ==> r[0] in r;
    FieldsHead(['('] + w, r);
    FieldsBlank(r);
  }

  lemma SpaceAfterParen(s: string, w: string)
    requires TrimSpace(s) == w != [] && NoSpace(w) && IsSpace(s[0])
    ensures Fields(['('] + s) == [['('], w] && Normal(['('] + s) == ['('] + ([' '] + w)
  {
    FieldsHead(['('], s);
    NormalOfWord(s);
    assert Join([['('], w], " ") == ['('] + " " + w;
    Assoc(['('], [' '], w);
  }

  /** With a parenthesis before it, the parenthesis stays first. */
  lemma NormalAfterParen(s: string)
    requires TrimSpace(s) != [] && NoSpace(TrimSpace(s)) && NoBar(s)
    ensures var p := AfterParen(s);
            Fields(['('] + s) != [] && Normal(['('] + s) == ['('] + p && TrimSpace(p) == TrimSpace(s) && NoBar(p)
  {
    var l, r := TrimParts(s);
    var w := TrimSpace(s);
    if l == [] {
      assert s == w + r && AfterParen(s) == w;
      WordAfterParen(w, r);
      TrimOfWord(w);
    } else {
      assert s[0] == l[0] && l[0] in l;
      SpaceAfterParen(s, w);
      TrimAfterSpace(w);
    }
  }

  lemma TrimOfWord(w: string)
    requires w != [] && NoSpace(w)
    ensures TrimSpace(w) == w
  {
    TrimWord(w, [], []);
    assert [] + w + [] == w;
  }

  lemma TrimAfterSpace(w: string)
    requires w != [] && NoSpace(w)
    ensures TrimSpace([' '] + w) == w && TrimSpace(w + [' ']) == w
  {
    TrimWord(w, [' '], []);
    TrimWord(w, [], [' ']);
    assert [' '] + w + [] == [' '] + w && [] + w + [' '] == w + [' '];
  }

  lemma WordBeforeParen(l: string, w: string)
    requires w != [] && NoSpace(w) && AllSpace(l)
    ensures Fields(l + w + [')']) == [w + [')']]
  {
    Assoc(l, w, [')']);
    Skip(l, w + [')']);
    FieldsOne(w + [')']);
  }

  lemma SpaceBeforeParen(l: string, w: string, r: string)
    requires w != [] && NoSpace(w) && AllSpace(l) && AllSpace(r) && r != []
    ensures Fields(l + w + r + [')']) == [w, [')']]
  {
    var last := |r| - 1;
    assert r[last] in r;
    var before := l + w + r[..last];
    assert l + w + r + [')'] == before + ([r[last]] + [')']);
    FieldsConcat(before, r[last], [')']);
    FieldsOne([')']);
    TrimWord(w, l, r[..last]);
    NormalOfWord(before);
  }

  /** With a parenthesis after it, the parenthesis stays last. */
  lemma NormalBeforeParen(s: string)
    requires TrimSpace(s) != [] && NoSpace(TrimSpace(s)) && NoBar(s)
    ensures var p := BeforeParen(s);
            Fields(s + [')']) != [] && Normal(s + [')']) == p + [')'] && TrimSpace(p) == TrimSpace(s) && NoBar(p)
  {
    var l, r := TrimParts(s);
    var w := TrimSpace(s);
    if r == [] {
      assert s == l + w && BeforeParen(s) == w;
      WordBeforeParen(l, w);
      TrimOfWord(w);
    } else {
      assert s[|s| - 1] == r[|r| - 1] && r[|r| - 1] in r;
      SpaceBeforeParen(l, w, r);
      TrimAfterSpace(w);
      assert Join([w, [')']], " ") == (w + [' ']) + [')'];
    }
  }

  /** Text without its white space. */
  function Squeeze(s: string): string {
    if s == [] then [] else (if IsSpace(s[0]) then [] else [s[0]]) + Squeeze(s[1..])
  }

  lemma {:induction false} FieldsSqueezed(s: string)
    ensures Join(Fields(s), "") == Squeeze(s)
  {
    if s != [] {
      FieldsSqueezed(s[1..]);
      var rest := Fields(s[1..]);
      if !IsSpace(s[0]) {
        if |s| == 1 || IsSpace(s[1]) {
          assert ([[s[0]]] + rest)[1..] == rest;
          assert [s[0]] + "" == [s[0]];
        } else if |rest| > 1 {
          assert Fields(s)[1..] == rest[1..];
          assert rest[0] + "" == rest[0];
          assert [s[0]] + rest[0] + "" == [s[0]] + rest[0];
        }
      }
    }
  }

  lemma {:induction false} SqueezeHas(s: string, c: char)
    requires !IsSpace(c)
    ensures c in Squeeze(s) <==> c in s
  {
    if s != [] {
      SqueezeHas(s[1..], c);
      assert s == [s[0]] + s[1..];
    }
  }

  lemma {:induction false} SqueezeConcat(a: string, b: string)
    ensures Squeeze(a + b) == Squeeze(a) + Squeeze(b)
  {
    if a == [] {
      assert a + b == b;
    } else {
      assert (a + b)[1..] == a[1..] + b;
      SqueezeConcat(a[1..], b);
    }
  }

  lemma {:induction false} SqueezeSpace(s: string)
    requires AllSpace(s)
    ensures Squeeze(s) == []
  {
    if s != [] {
      assert s[0] in s;
      SqueezeSpace(s[1..]);
    }
  }
}
