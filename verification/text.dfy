/** The .NET string and collection operations the tool relies on, over
    `string` (= seq<char>). Character classes are the ASCII part of the .NET
    ones. */
module Text {

  /** `char.IsWhiteSpace` (and regex `\s`) restricted to ASCII: tab, line
      feed, vertical tab, form feed, carriage return and space. */
  predicate IsSpace(c: char) {
    c == ' ' || 9 <= c as int <= 13
  }

  /** Regex `\w` restricted to ASCII: letters, digits and underscore. */
  predicate IsWordChar(c: char) {
    ('a' <= c <= 'z') || ('A' <= c <= 'Z') || ('0' <= c <= '9') || c == '_'
  }

  /** Ordinal `s.StartsWith(prefix)`. */
  predicate StartsWith(s: string, prefix: string) {
    |prefix| <= |s| && s[..|prefix|] == prefix
  }

  /** Ordinal `s.Contains(sub)`. */
  predicate Contains(s: string, sub: string) {
    exists i | 0 <= i <= |s| :: StartsWith(s[i..], sub)
  }

  predicate AllSpace(s: string) {
    forall j :: 0 <= j < |s| ==> IsSpace(s[j])
  }

  /** A non-empty run of non-white-space characters. */
  predicate IsToken(t: string) {
    t != [] && forall j :: 0 <= j < |t| ==> !IsSpace(t[j])
  }

  /** Index of the first `c` in `s`, or `|s|` when there is none. */
  function IndexOf(s: string, c: char): (i: nat)
    ensures i <= |s|
    ensures i < |s| ==> s[i] == c
    ensures forall j :: 0 <= j < i ==> s[j] != c
  {
    if s == [] then 0 else if s[0] == c then 0 else 1 + IndexOf(s[1..], c)
  }

  /** `s.Split(sep)`: the pieces between separators, empty pieces kept. */
  function Split(s: string, sep: char): (parts: seq<string>)
    ensures |parts| >= 1
    decreases |s|
  {
    var i := IndexOf(s, sep);
    if i == |s| then [s] else [s[..i]] + Split(s[i + 1..], sep)
  }

  /** No piece holds the separator. */
  lemma {:induction false} SplitNoSep(s: string, sep: char)
    ensures forall p :: p in Split(s, sep) ==> sep !in p
    decreases |s|
  {
    var i := IndexOf(s, sep);
    if i < |s| {
      SplitNoSep(s[i + 1..], sep);
      assert sep !in s[..i];
    }
  }

  /** `string.Join(sep, parts)`. */
  function Join(sep: string, parts: seq<string>): string {
    if |parts| == 0 then ""
    else if |parts| == 1 then parts[0]
    else parts[0] + sep + Join(sep, parts[1..])
  }

  /** The lines of a text, as the multiline regex anchor `^` sees them. */
  function Lines(text: string): seq<string> {
    Split(text, '\n')
  }

  lemma JoinCons(sep: string, head: string, tail: seq<string>)
    requires |tail| >= 1
    ensures Join(sep, [head] + tail) == head + sep + Join(sep, tail)
  {
    assert ([head] + tail)[1..] == tail;
  }

  /** Joining the pieces of a split gives the text back. */
  lemma {:induction false} JoinSplit(s: string, sep: char)
    ensures Join([sep], Split(s, sep)) == s
    decreases |s|
  {
    var i := IndexOf(s, sep);
    if i < |s| {
      var rest := Split(s[i + 1..], sep);
      JoinSplit(s[i + 1..], sep);
      JoinCons([sep], s[..i], rest);
      assert s == s[..i] + [sep] + s[i + 1..];
    }
  }

  /** Splitting a join of separator-free pieces gives the pieces back. */
  lemma {:induction false} SplitJoin(parts: seq<string>, sep: char)
    requires |parts| >= 1
    requires forall p :: p in parts ==> sep !in p
    ensures Split(Join([sep], parts), sep) == parts
    decreases |parts|
  {
    assert parts[0] in parts;
    if |parts| > 1 {
      var head, tail := parts[0], Join([sep], parts[1..]);
      var s := head + [sep] + tail;
      JoinCons([sep], head, parts[1..]);
      assert parts == [head] + parts[1..];
      IndexOfAfter(head, sep, tail);
      assert s[..|head|] == head;
      assert s[|head| + 1..] == tail;
      SplitJoin(parts[1..], sep);
    }
  }

  /** The first `c` after a `c`-free prefix is the one right after it. */
  lemma IndexOfAfter(a: string, c: char, b: string)
    requires c !in a
    ensures IndexOf(a + [c] + b, c) == |a|
  {
    var s := a + [c] + b;
    assert s[|a|] == c;
    assert forall j :: 0 <= j < |a| ==> s[j] == a[j];
  }

  /** `IndexOf` is the only index with its three properties. */
  lemma {:induction false} IndexOfUnique(s: string, c: char, i: nat)
    requires i <= |s| && (i < |s| ==> s[i] == c)
    requires forall j :: 0 <= j < i ==> s[j] != c
    ensures IndexOf(s, c) == i
  {
  }

  /** The first `c` of `a + b`, when `a` holds none, is the first of `b`. */
  lemma IndexOfConcat(a: string, b: string, c: char)
    requires IndexOf(a, c) == |a|
    ensures IndexOf(a + b, c) == |a| + IndexOf(b, c)
  {
    var s := a + b;
    var j := IndexOf(b, c);
    assert forall k :: 0 <= k < |a| ==> s[k] == a[k];
    assert forall k :: 0 <= k < j ==> s[|a| + k] == b[k];
    IndexOfUnique(s, c, |a| + j);
  }

  /** A separator-free text glues onto the first piece of what follows. */
  lemma {:induction false} SplitConcatFree(a: string, b: string, c: char)
    requires IndexOf(a, c) == |a|
    ensures var pb := Split(b, c);
      Split(a + b, c) == [a + pb[0]] + pb[1..]
  {
    var j := IndexOf(b, c);
    IndexOfConcat(a, b, c);
    if j < |b| {
      SplitConcatFreeCut(a, b, c, j);
    } else {
      SplitAt(a + b, c);
      SplitAt(b, c);
    }
  }

  lemma SplitConcatFreeCut(a: string, b: string, c: char, j: nat)
    requires j == IndexOf(b, c) < |b|
    requires IndexOf(a + b, c) == |a| + j
    ensures Split(a + b, c) == [a + b[..j]] + Split(b[j + 1..], c)
    ensures Split(b, c) == [b[..j]] + Split(b[j + 1..], c)
  {
    var s := a + b;
    SplitAt(s, c);
    SplitAt(b, c);
    assert s[..|a| + j] == a + b[..j];
    assert s[|a| + j + 1..] == b[j + 1..];
  }

  /** One unfolding of `Split`. */
  lemma {:induction false} SplitAt(s: string, c: char)
    ensures var i := IndexOf(s, c);
      Split(s, c) == if i == |s| then [s] else [s[..i]] + Split(s[i + 1..], c)
  {
  }

  lemma {:induction false} SplitConcatStep(a: string, b: string, c: char, i: nat)
    requires i == IndexOf(a, c) < |a|
    ensures Split(a, c) == [a[..i]] + Split(a[i + 1..], c)
    ensures Split(a + b, c) == [a[..i]] + Split(a[i + 1..] + b, c)
  {
    var s := a + b;
    assert forall k :: 0 <= k < i ==> s[k] == a[k];
    IndexOfUnique(s, c, i);
    assert s[..i] == a[..i];
    assert s[i + 1..] == a[i + 1..] + b;
  }

  lemma GlueCons(h: string, rest: seq<string>, pb: seq<string>)
    requires rest != [] && pb != []
    ensures var pa := [h] + rest;
      [h] + (rest[..|rest| - 1] + [rest[|rest| - 1] + pb[0]] + pb[1..]) ==
      pa[..|pa| - 1] + [pa[|pa| - 1] + pb[0]] + pb[1..]
  {
    var pa := [h] + rest;
    assert pa[..|pa| - 1] == [h] + rest[..|rest| - 1];
  }

  /** Splitting a concatenation: the last piece of the first text and the
      first piece of the second become one piece. */
  lemma {:induction false} SplitConcat(a: string, b: string, c: char)
    ensures var pa := Split(a, c);
      var pb := Split(b, c);
      Split(a + b, c) == pa[..|pa| - 1] + [pa[|pa| - 1] + pb[0]] + pb[1..]
    decreases |a|
  {
    var i := IndexOf(a, c);
    if i == |a| {
      SplitConcatFree(a, b, c);
    } else {
      SplitConcatStep(a, b, c, i);
      SplitConcat(a[i + 1..], b, c);
      GlueCons(a[..i], Split(a[i + 1..], c), Split(b, c));
    }
  }

  /** `s.TrimStart(' ')`. */
  function TrimStartSpaces(s: string): string {
    if s != [] && s[0] == ' ' then TrimStartSpaces(s[1..]) else s
  }

  function TrimStartWhite(s: string): string {
    if s != [] && IsSpace(s[0]) then TrimStartWhite(s[1..]) else s
  }

  function TrimEndWhite(s: string): string {
    if s != [] && IsSpace(s[|s| - 1]) then TrimEndWhite(s[..|s| - 1]) else s
  }

  /** `s.Trim()`: white space removed at both ends. */
  function Trim(s: string): string {
    TrimEndWhite(TrimStartWhite(s))
  }

  function UpperChar(c: char): char {
    if 'a' <= c <= 'z' then (c as int - 32) as char else c
  }

  function LowerChar(c: char): char {
    if 'A' <= c <= 'Z' then (c as int + 32) as char else c
  }

  /** `s.ToUpper()` on ASCII letters. */
  function ToUpper(s: string): (r: string)
    ensures |r| == |s|
  {
    seq(|s|, i requires 0 <= i < |s| => UpperChar(s[i]))
  }

  /** `s.ToLower()` on ASCII letters. */
  function ToLower(s: string): (r: string)
    ensures |r| == |s|
  {
    seq(|s|, i requires 0 <= i < |s| => LowerChar(s[i]))
  }

  /** `s.Replace(from, to)` for characters. */
  function Replace(s: string, from: char, to: char): (r: string)
    ensures |r| == |s|
  {
    seq(|s|, i requires 0 <= i < |s| => if s[i] == from then to else s[i])
  }

  /** Length of the longest prefix of `s` free of white space. */
  function NonSpaceRun(s: string): (n: nat)
    ensures n <= |s|
    ensures forall j :: 0 <= j < n ==> !IsSpace(s[j])
    ensures n < |s| ==> IsSpace(s[n])
  {
    if s == [] || IsSpace(s[0]) then 0 else 1 + NonSpaceRun(s[1..])
  }

  /** `s.Split(null as char[], StringSplitOptions.RemoveEmptyEntries)`: the
      maximal runs of non-white-space characters, in order. */
  function Tokens(s: string): (ts: seq<string>)
    ensures forall t :: t in ts ==> IsToken(t)
    decreases |s|
  {
    if s == [] then []
    else if IsSpace(s[0]) then Tokens(s[1..])
    else
      var n := NonSpaceRun(s);
      [s[..n]] + Tokens(s[n..])
  }

  /** Leading white space does not change the tokens. */
  lemma {:induction false} TokensSkipSpace(w: string, s: string)
    requires AllSpace(w)
    ensures Tokens(w + s) == Tokens(s)
    decreases |w|
  {
    if w != [] {
      assert (w + s)[0] == w[0] && IsSpace(w[0]);
      assert (w + s)[1..] == w[1..] + s;
      assert Tokens(w + s) == Tokens(w[1..] + s);
      assert AllSpace(w[1..]) by {
        forall j | 0 <= j < |w[1..]| ensures IsSpace(w[1..][j]) {
          assert w[1..][j] == w[j + 1];
        }
      }
      TokensSkipSpace(w[1..], s);
    } else {
      assert w + s == s;
    }
  }

  lemma {:induction false} NonSpaceRunStops(a: string, rest: string)
    requires rest == [] || IsSpace(rest[0])
    ensures NonSpaceRun(a + rest) == NonSpaceRun(a)
    decreases |a|
  {
    if a != [] && !IsSpace(a[0]) {
      assert (a + rest)[1..] == a[1..] + rest;
      NonSpaceRunStops(a[1..], rest);
    }
  }

  /** A non-empty run of white space separates tokens, whatever its length. */
  lemma {:induction false} TokensAtSpace(a: string, w: string, b: string)
    requires w != [] && AllSpace(w)
    ensures Tokens(a + w + b) == Tokens(a) + Tokens(b)
    decreases |a|
  {
    if a == [] {
      assert a + w + b == w + b;
      TokensSkipSpace(w, b);
    } else if IsSpace(a[0]) {
      assert (a + w + b)[1..] == a[1..] + w + b;
      TokensAtSpace(a[1..], w, b);
    } else {
      var n := NonSpaceRun(a);
      NonSpaceRunStops(a, w + b);
      assert a + w + b == a + (w + b);
      assert (a + w + b)[..n] == a[..n];
      assert (a + w + b)[n..] == a[n..] + w + b;
      TokensAtSpace(a[n..], w, b);
    }
  }

  /** A token on its own tokenizes to itself. */
  lemma TokensOfToken(t: string)
    requires IsToken(t)
    ensures Tokens(t) == [t]
  {
    NonSpaceRunStops(t, []);
    assert t + [] == t;
    assert NonSpaceRun(t) == |t|;
    assert t[|t|..] == [];
  }

  /** Joining tokens with single spaces and tokenizing again is the identity. */
  lemma {:induction false} TokensOfJoin(ts: seq<string>)
    requires forall t :: t in ts ==> IsToken(t)
    ensures Tokens(Join(" ", ts)) == ts
    decreases |ts|
  {
    if |ts| == 1 {
      TokensOfToken(ts[0]);
    } else if |ts| > 1 {
      JoinCons(" ", ts[0], ts[1..]);
      TokensAtSpace(ts[0], " ", Join(" ", ts[1..]));
      TokensOfToken(ts[0]);
      TokensOfJoin(ts[1..]);
      assert ts == [ts[0]] + ts[1..];
    }
  }

  predicate NoDup<T(==)>(xs: seq<T>) {
    forall i, j :: 0 <= i < j < |xs| ==> xs[i] != xs[j]
  }

  function Elems<T>(xs: seq<T>): set<T> {
    set x | x in xs
  }

  /** The first occurrences of the elements of `xs`, in order: what a
      `HashSet` filled from `xs` enumerates. */
  function Distinct<T(==)>(xs: seq<T>): (d: seq<T>)
    ensures NoDup(d) && Elems(d) == Elems(xs)
  {
    if xs == [] then []
    else
      var d := Distinct(xs[..|xs| - 1]);
      var x := xs[|xs| - 1];
      ElemsConcat(xs[..|xs| - 1], [x]);
      assert xs == xs[..|xs| - 1] + [x];
      if x in d then d else ElemsConcat(d, [x]); NoDupSnoc(d, x); d + [x]
  }

  /** The elements of `xs` that are not in `s`, in order: `Enumerable.Except`. */
  function Except<T(==)>(xs: seq<T>, s: set<T>): (r: seq<T>)
    ensures Elems(r) == Elems(xs) - s
    ensures NoDup(xs) ==> NoDup(r)
  {
    if xs == [] then []
    else
      var rest := Except(xs[1..], s);
      assert xs == [xs[0]] + xs[1..];
      ElemsConcat([xs[0]], xs[1..]);
      ElemsConcat([xs[0]], rest);
      if xs[0] in s then rest
      else
        assert NoDup(xs) ==> NoDup(xs[1..]) by {
          if NoDup(xs) {
            forall i, j | 0 <= i < j < |xs[1..]| ensures xs[1..][i] != xs[1..][j] {
              assert xs[1..][i] == xs[i + 1] && xs[1..][j] == xs[j + 1];
            }
          }
        }
        assert NoDup(xs) ==> NoDup([xs[0]] + rest) by {
          if NoDup(xs) {
            assert xs[0] !in Elems(rest);
            NoDupCons(xs[0], rest);
          }
        }
        [xs[0]] + rest
  }

  lemma ElemsConcat<T>(a: seq<T>, b: seq<T>)
    ensures Elems(a + b) == Elems(a) + Elems(b)
  {
    forall x | x in a + b ensures x in a || x in b {
      var k :| 0 <= k < |a + b| && (a + b)[k] == x;
      if k >= |a| { assert b[k - |a|] == x; }
    }
  }

  lemma NoDupSnoc<T>(d: seq<T>, x: T)
    requires NoDup(d) && x !in d
    ensures NoDup(d + [x])
  {
    forall i, j | 0 <= i < j < |d + [x]| ensures (d + [x])[i] != (d + [x])[j] {
      if j == |d| {
        assert (d + [x])[i] == d[i];
        assert d[i] in d;
      } else {
        assert (d + [x])[i] == d[i] && (d + [x])[j] == d[j];
      }
    }
  }

  lemma NoDupCons<T>(x: T, d: seq<T>)
    requires NoDup(d) && x !in d
    ensures NoDup([x] + d)
  {
    forall i, j | 0 <= i < j < |[x] + d| ensures ([x] + d)[i] != ([x] + d)[j] {
      assert ([x] + d)[j] == d[j - 1];
      if i == 0 {
        assert d[j - 1] in d;
      } else {
        assert ([x] + d)[i] == d[i - 1];
      }
    }
  }

  lemma NoDupAppend<T>(a: seq<T>, b: seq<T>)
    requires NoDup(a) && NoDup(b) && Elems(a) !! Elems(b)
    ensures NoDup(a + b)
  {
    forall i, j | 0 <= i < j < |a + b| ensures (a + b)[i] != (a + b)[j] {
      if j < |a| {
        assert (a + b)[i] == a[i] && (a + b)[j] == a[j];
      } else if i >= |a| {
        assert (a + b)[i] == b[i - |a|] && (a + b)[j] == b[j - |a|];
      } else {
        assert (a + b)[i] == a[i] && a[i] in Elems(a);
        assert (a + b)[j] == b[j - |a|] && b[j - |a|] in Elems(b);
      }
    }
  }
}
