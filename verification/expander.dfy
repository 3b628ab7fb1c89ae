/** Library expansion (`ExpandInner` and `Expand`, SubmitTool/Program.cs:349-433):
    every `using Solve.Libraries.X;` line of the solver pulls in the file
    `Libraries/X.cs` (dots become slashes). The library's own `using` targets
    that the text does not have yet are prepended as `using` lines, its other
    non-empty lines are appended, and the text is scanned again until a round
    adds no library. */
module Expander {
  import opened Wrappers
  import opened Text
  import opened Patterns
  import Minifier

  /** The library files that can be read: path to the lines
      `File.ReadAllLinesAsync` returns. A path that is absent is a file that
      does not exist. */
  type Files = map<string, seq<string>>

  /** The lines of a library file that are appended: the non-empty ones that
      do not start with "using", in file order, each occurrence kept. */
  function KeptLines(lines: seq<string>): (kept: seq<string>)
    ensures forall l :: l in kept ==> l in lines && l != [] && !StartsWith(l, "using")
    ensures forall l :: l in lines && l != [] && !StartsWith(l, "using") ==> l in kept
  {
    if lines == [] then []
    else
      assert lines == [lines[0]] + lines[1..];
      (if lines[0] != [] && !StartsWith(lines[0], "using") then [lines[0]] else []) + KeptLines(lines[1..])
  }

  /** An empty file keeps nothing; a one-line file keeps its line exactly
      when the line passes the filter. */
  lemma KeptLinesBase(lines: seq<string>)
    ensures lines == [] ==> KeptLines(lines) == []
    ensures |lines| == 1 ==>
      KeptLines(lines) == if lines[0] != [] && !StartsWith(lines[0], "using") then lines else []
  {
    if |lines| == 1 {
      assert lines[1..] == [];
    }
  }

  /** The filter keeps order: the kept lines of two consecutive parts of a
      file are those of the first part, then those of the second. With
      `KeptLinesBase` this fixes the result line by line. */
  lemma {:induction false} KeptLinesAppend(a: seq<string>, b: seq<string>)
    ensures KeptLines(a + b) == KeptLines(a) + KeptLines(b)
    decreases |a|
  {
    if a != [] {
      var h := if a[0] != [] && !StartsWith(a[0], "using") then [a[0]] else [];
      assert (a + b)[0] == a[0];
      assert (a + b)[1..] == a[1..] + b;
      KeptLinesCons(a + b);
      KeptLinesCons(a);
      KeptLinesAppend(a[1..], b);
      assert h + (KeptLines(a[1..]) + KeptLines(b)) == (h + KeptLines(a[1..])) + KeptLines(b);
    } else {
      assert a + b == b;
    }
  }

  /** One step of the filter. */
  lemma KeptLinesCons(lines: seq<string>)
    requires lines != []
    ensures KeptLines(lines) ==
      (if lines[0] != [] && !StartsWith(lines[0], "using") then [lines[0]] else []) + KeptLines(lines[1..])
  {
  }

  /** What one library appends to the text. */
  function Body(lines: seq<string>): string {
    Join("\n", KeptLines(lines)) + "\n"
  }

  /** `usingRegex.Matches(libSource).Select(Func).ToHashSet()`: the library's
      `using` targets, each once, in order of first appearance. */
  function LibUsings(lines: seq<string>): seq<string> {
    Distinct(UsingTargets(Join("\n", lines)))
  }

  /** `string.Join("\n", newUsing.Select(x => $"using {x};"))`. */
  function UsingBlock(xs: seq<string>): string {
    Join("\n", seq(|xs|, i requires 0 <= i < |xs| => UsingLine(xs[i])))
  }

  /** The state of an expansion. The text is `Source(e)`: the using blocks of
      the finished rounds (newest first), the solver source, then the bodies
      of the expanded libraries. `added` is the set of expanded modules kept
      in expansion order; `usingSet` and `newUsing` are the variables of the
      same names. */
  datatype Expansion = Expansion(
    rounds: seq<seq<string>>,
    base: string,
    body: string,
    added: seq<string>,
    usingSet: set<string>,
    newUsing: seq<string>)

  /** The using lines prepended by the given rounds, the last round first. */
  function Header(rounds: seq<seq<string>>): string {
    if rounds == [] then ""
    else UsingBlock(rounds[|rounds| - 1]) + "\n" + Header(rounds[..|rounds| - 1])
  }

  /** The current text of the expansion (`source` in the loop). */
  function Source(e: Expansion): string {
    Header(e.rounds) + e.base + e.body
  }

  /** All targets queued for prepending so far, in order. */
  function Flatten(rounds: seq<seq<string>>): seq<string> {
    if rounds == [] then [] else Flatten(rounds[..|rounds| - 1]) + rounds[|rounds| - 1]
  }

  /** The state before the first round. */
  function Start(source: string): Expansion {
    Expansion([], source, "", [], Elems(UsingTargets(source)), [])
  }

  /** One pass of the inner loop for the captured module name s. */
  function Visit(e: Expansion, files: Files, s: string): (r: Result<Expansion, string>)
    ensures r.Failure? <==> s !in e.added && ModulePath(s) !in files
    ensures r.Failure? ==> r.error == ModulePath(s)
    ensures r.Success? ==> r.value.rounds == e.rounds && r.value.base == e.base
    ensures r.Success? ==> s in r.value.added
    ensures r.Success? && s in e.added ==> r.value == e
    ensures r.Success? && s !in e.added ==> r.value.added == e.added + [s] && ModulePath(s) in files
  {
    if s in e.added then Success(e)
    else
      var path := ModulePath(s);
      if path !in files then Failure(path)
      else
        var lines := files[path];
        var libUsing := LibUsings(lines);
        Success(e.(body := e.body + Body(lines),
                   added := e.added + [s],
                   usingSet := e.usingSet + Elems(libUsing),
                   newUsing := e.newUsing + Except(libUsing, e.usingSet)))
  }

  /** The inner loop over the captures of one round. */
  function Round(e: Expansion, files: Files, refs: seq<string>): (r: Result<Expansion, string>)
    ensures r.Failure? ==> r.error !in files && exists x :: x in refs && r.error == ModulePath(x)
    ensures r.Success? ==> r.value.rounds == e.rounds && r.value.base == e.base
    ensures r.Success? ==> |e.added| <= |r.value.added| && r.value.added[..|e.added|] == e.added
    ensures r.Success? ==> forall x :: x in refs ==> x in r.value.added
    ensures r.Success? && |r.value.added| == |e.added| ==> r.value == e
    decreases |refs|
  {
    if refs == [] then Success(e)
    else
      match Visit(e, files, refs[0])
      case Failure(p) => Failure(p)
      case Success(e1) =>
        var r := Round(e1, files, refs[1..]);
        assert refs == [refs[0]] + refs[1..];
        assert r.Success? ==> r.value.added[..|e.added|] == e.added by {
          if r.Success? {
            assert e1.added[..|e.added|] == e.added;
            assert r.value.added[..|e1.added|] == e1.added;
          }
        }
        assert r.Success? ==> refs[0] in r.value.added by {
          if r.Success? {
            var k :| 0 <= k < |e1.added| && e1.added[k] == refs[0];
            assert r.value.added[k] == refs[0];
          }
        }
        r
  }

  /** What expanding a new module does to the text, the name set and the
      using bookkeeping. */
  lemma VisitEffect(e: Expansion, files: Files, s: string)
    requires s !in e.added && ModulePath(s) in files
    requires Sane(e, files) && IsModuleName(s)
    ensures Sane(Visit(e, files, s).value, files)
    ensures var v := Visit(e, files, s).value;
      var lines := files[ModulePath(s)];
      && Source(v) == Source(e) + Body(lines)
      && Elems(v.added) == Elems(e.added) + {s}
      && v.usingSet == e.usingSet + Elems(LibUsings(lines))
      && v.newUsing == e.newUsing + Except(LibUsings(lines), e.usingSet)
  {
    var v := Visit(e, files, s).value;
    ElemsConcat(e.added, [s]);
    NoDupSnoc(e.added, s);
  }

  /** One step of the inner loop. */
  lemma RoundStep(e: Expansion, files: Files, refs: seq<string>)
    requires refs != []
    ensures Visit(e, files, refs[0]).Failure? ==>
      Round(e, files, refs) == Failure(Visit(e, files, refs[0]).error)
    ensures Visit(e, files, refs[0]).Success? ==>
      Round(e, files, refs) == Round(Visit(e, files, refs[0]).value, files, refs[1..])
  {
  }

  /** Every expanded module is a module name whose file exists, each once. */
  predicate Sane(e: Expansion, files: Files) {
    NoDup(e.added) && forall n :: n in e.added ==> IsModuleName(n) && ModulePath(n) in files
  }

  /** The files read for the given modules. */
  function Paths(names: seq<string>): set<string> {
    set n | n in names :: ModulePath(n)
  }

  lemma {:induction false} RoundSane(e: Expansion, files: Files, refs: seq<string>)
    requires Sane(e, files)
    requires forall x :: x in refs ==> IsModuleName(x)
    ensures Round(e, files, refs).Success? ==> Sane(Round(e, files, refs).value, files)
    decreases |refs|
  {
    if refs != [] {
      assert refs[0] in refs;
      var v := Visit(e, files, refs[0]);
      if v.Success? {
        if refs[0] !in e.added {
          NoDupSnoc(e.added, refs[0]);
        }
        forall x | x in refs[1..] ensures IsModuleName(x) {
          assert x in refs;
        }
        RoundSane(v.value, files, refs[1..]);
      }
    }
  }

  /** A round that added a module leaves fewer library files unread: the
      measure that bounds the number of rounds. */
  lemma Grows(e: Expansion, e1: Expansion, files: Files)
    requires Sane(e1, files)
    requires |e.added| < |e1.added| && e1.added[..|e.added|] == e.added
    ensures files.Keys - Paths(e1.added) < files.Keys - Paths(e.added)
  {
    var n := e1.added[|e.added|];
    assert n in e1.added;
    forall m | m in e.added ensures ModulePath(m) != ModulePath(n) {
      var j :| 0 <= j < |e.added| && e.added[j] == m;
      assert e1.added[j] == m;
      assert m != n;
      assert m in e1.added;
      ModulePathInjective(m, n);
    }
    assert ModulePath(n) in Paths(e1.added);
    assert ModulePath(n) !in Paths(e.added);
    forall m | m in e.added ensures m in e1.added {
      var j :| 0 <= j < |e.added| && e.added[j] == m;
      assert e1.added[j] == m;
    }
  }

  /** The end of a round that added something: `newUsing` is prepended and cleared. */
  function Close(e: Expansion): Expansion {
    e.(rounds := e.rounds + [e.newUsing], newUsing := [])
  }

  lemma SourceOfClose(e: Expansion)
    ensures Source(Close(e)) == UsingBlock(e.newUsing) + "\n" + Source(e)
  {
    var rs := e.rounds + [e.newUsing];
    assert rs[..|rs| - 1] == e.rounds;
  }

  /** The outer loop from the start of a round to its end: the final state,
      or the path of the first library file that is missing. */
  function ExpandFrom(e: Expansion, files: Files): (r: Result<Expansion, string>)
    requires Sane(e, files) && e.newUsing == []
    ensures r.Failure? ==> r.error !in files
    ensures r.Success? ==> r.value.base == e.base && r.value.newUsing == []
    ensures r.Success? ==> Sane(r.value, files)
    ensures r.Success? ==> |e.added| <= |r.value.added| && r.value.added[..|e.added|] == e.added
    ensures r.Success? ==> forall x :: x in LibraryRefs(Source(r.value)) ==> x in r.value.added
    decreases files.Keys - Paths(e.added)
  {
    var refs := LibraryRefs(Source(e));
    if refs == [] then Success(e)
    else
      match Round(e, files, refs)
      case Failure(p) => Failure(p)
      case Success(e1) =>
        RoundSane(e, files, refs);
        if |e1.added| == |e.added| then
          assert e1 == e;
          Success(e1)
        else
          Grows(e, e1, files);
          var r := ExpandFrom(Close(e1), files);
          if r.Failure? then r
          else
            PrefixOfPrefix(e.added, e1.added, r.value.added);
            r
  }

  lemma PrefixOfPrefix(a: seq<string>, b: seq<string>, c: seq<string>)
    requires |a| <= |b| <= |c| && b[..|a|] == a && c[..|b|] == b
    ensures c[..|a|] == a
  {
    assert c[..|a|] == c[..|b|][..|a|];
  }

  /** One round of the outer loop. */
  lemma ExpandStep(e: Expansion, files: Files)
    requires Sane(e, files) && e.newUsing == []
    requires LibraryRefs(Source(e)) != []
    ensures var r := Round(e, files, LibraryRefs(Source(e)));
      && (r.Failure? ==> ExpandFrom(e, files) == Failure(r.error))
      && (r.Success? && |r.value.added| == |e.added| ==> ExpandFrom(e, files) == Success(r.value))
      && (r.Success? && |r.value.added| != |e.added| ==>
            Sane(Close(r.value), files) && ExpandFrom(e, files) == ExpandFrom(Close(r.value), files))
  {
    RoundSane(e, files, LibraryRefs(Source(e)));
  }

  /** `ExpandInner(source, minimize)`: the expanded text, minified when asked,
      or the path of a library file that could not be read (the exception
      that ends the command). */
  function ExpandInnerSpec(source: string, minimize: bool, files: Files): Result<string, string> {
    match ExpandFrom(Start(source), files)
    case Failure(p) => Failure(p)
    case Success(e) => Success(if minimize then Minifier.Minified(Source(e)) else Source(e))
  }

  /** The `foreach` over the captures of one round
      (SubmitTool/Program.cs:363-382): the loop variables after it, or the
      path of the library file that could not be read. `e0` is the state the
      variables stand for when the round starts. */
  method ExpandRound(matches: seq<string>, files: Files, ghost e0: Expansion,
                     text0: string, usingSet0: set<string>, added0: set<string>)
    returns (missing: Option<string>, text: string, usingSet: set<string>,
             newUsing: seq<string>, added: set<string>, flag: bool, ghost e: Expansion)
    requires Sane(e0, files) && e0.newUsing == []
    requires text0 == Source(e0) && usingSet0 == e0.usingSet && added0 == Elems(e0.added)
    requires forall x :: x in matches ==> IsModuleName(x)
    ensures missing.Some? ==> Round(e0, files, matches) == Failure(missing.value)
    ensures missing.None? ==> Round(e0, files, matches) == Success(e)
    ensures missing.None? ==> text == Source(e) && usingSet == e.usingSet && newUsing == e.newUsing
    ensures missing.None? ==> added == Elems(e.added) && (flag <==> |e.added| > |e0.added|)
  {
    text, usingSet, newUsing, added, flag := text0, usingSet0, [], added0, false;
    e := e0;
    for i := 0 to |matches|
      invariant Sane(e, files)
      invariant |e0.added| <= |e.added| && e.added[..|e0.added|] == e0.added
      invariant text == Source(e) && usingSet == e.usingSet && added == Elems(e.added)
      invariant newUsing == e.newUsing
      invariant Round(e, files, matches[i..]) == Round(e0, files, matches)
      invariant flag <==> |e.added| > |e0.added|
    {
      var s := matches[i];
      assert s in matches && matches[i..][1..] == matches[i + 1..];
      RoundStep(e, files, matches[i..]);
      if s in added {
        continue;
      }
      flag := true;
      added := added + {s};
      var path := ModulePath(s);
      if path !in files {
        return Some(path), text, usingSet, newUsing, added, flag, e;
      }
      var libSourceLines := files[path];
      var libUsing := LibUsings(libSourceLines);
      newUsing := newUsing + Except(libUsing, usingSet);
      usingSet := usingSet + Elems(libUsing);
      text := text + Body(libSourceLines);
      VisitEffect(e, files, s);
      e := Visit(e, files, s).value;
      assert e.added[..|e0.added|] == e0.added;
    }
    assert matches[|matches|..] == [];
    missing := None;
  }

  /** The rounds of `ExpandInner`, as written: a HashSet of expanded names, a
      set of known using targets, the list of new ones, and the text. */
  method ExpandInner(source: string, minimize: bool, files: Files) returns (r: Result<string, string>)
    ensures r == ExpandInnerSpec(source, minimize, files)
  {
    var text := source;
    var matches := LibraryRefs(text);
    var usingSet := Elems(UsingTargets(text));
    var newUsing: seq<string> := [];
    var added: set<string> := {};
    ghost var e := Start(source);
    while matches != []
      invariant Sane(e, files) && e.newUsing == [] && newUsing == []
      invariant text == Source(e) && usingSet == e.usingSet && added == Elems(e.added)
      invariant matches == LibraryRefs(text)
      invariant ExpandFrom(e, files) == ExpandFrom(Start(source), files)
      decreases files.Keys - Paths(e.added)
    {
      ExpandStep(e, files);
      var missing, flag;
      ghost var e1;
      missing, text, usingSet, newUsing, added, flag, e1 :=
        ExpandRound(matches, files, e, text, usingSet, added);
      if missing.Some? {
        return Failure(missing.value);
      }
      if !flag {
        e := e1;
        break;
      }
      RoundSane(e, files, matches);
      Grows(e, e1, files);
      SourceOfClose(e1);
      text := UsingBlock(newUsing) + "\n" + text;
      matches := LibraryRefs(text);
      newUsing := [];
      e := Close(e1);
    }
    assert ExpandFrom(Start(source), files) == Success(e);
    if minimize {
      text := Minifier.Minify(text);
    }
    return Success(text);
  }

  /** `Expand` and the start of `RunInner` (SubmitTool/Program.cs:418-433,
      460-477): the text is only expanded when it mentions "Solve.Libraries". */
  function PrepareSource(source: string, minimize: bool, files: Files): Result<string, string> {
    if Contains(source, "Solve.Libraries") then ExpandInnerSpec(source, minimize, files)
    else Success(source)
  }

  /** Expanding a text that does not mention "Solve.Libraries" would give it
      back unchanged, so skipping the expansion for it (copying the file)
      loses nothing when no minifying is asked for. */
  lemma SkipAgrees(source: string, files: Files)
    requires !Contains(source, "Solve.Libraries")
    ensures PrepareSource(source, false, files) == Success(source)
    ensures ExpandInnerSpec(source, false, files) == Success(source)
  {
    RefsNeedMarker(source);
    NoRefsUnchanged(source, files);
  }

  /** A text without a library-reference line comes back unchanged when
      minifying is off: the first round finds nothing to expand. */
  lemma NoRefsUnchanged(source: string, files: Files)
    requires LibraryRefs(source) == []
    ensures ExpandInnerSpec(source, false, files) == Success(source)
  {
    assert Source(Start(source)) == source;
  }

  /** The bodies of the given modules, in order. */
  function Bodies(files: Files, names: seq<string>): string
    requires forall n :: n in names ==> ModulePath(n) in files
  {
    if names == [] then ""
    else Bodies(files, names[..|names| - 1]) + Body(files[ModulePath(names[|names| - 1])])
  }

  /** The using targets of the given modules' files. */
  function Targets(files: Files, names: seq<string>): set<string>
    requires forall n :: n in names ==> ModulePath(n) in files
  {
    if names == [] then {}
    else Targets(files, names[..|names| - 1]) + Elems(LibUsings(files[ModulePath(names[|names| - 1])]))
  }

  /** What holds of the state between any two steps: the body is the
      expanded modules' bodies in order; the targets queued for prepending
      are distinct and new to the solver source; and the known targets are
      the solver's own plus the queued ones, which is the solver's own plus
      those of every expanded library. */
  predicate Inv(e: Expansion, files: Files) {
    var own := Elems(UsingTargets(e.base));
    var queued := Flatten(e.rounds) + e.newUsing;
    && Sane(e, files)
    && e.body == Bodies(files, e.added)
    && NoDup(queued)
    && Elems(queued) !! own
    && e.usingSet == own + Elems(queued)
    && e.usingSet == own + Targets(files, e.added)
  }

  lemma InvStart(source: string, files: Files)
    ensures Inv(Start(source), files)
  {
  }

  lemma VisitBodies(e: Expansion, files: Files, s: string)
    requires s !in e.added && ModulePath(s) in files
    requires forall n :: n in e.added ==> ModulePath(n) in files
    ensures var v := Visit(e, files, s).value;
      && (e.body == Bodies(files, e.added) ==> v.body == Bodies(files, v.added))
      && Targets(files, v.added) == Targets(files, e.added) + Elems(LibUsings(files[ModulePath(s)]))
  {
    var v := Visit(e, files, s).value;
    assert v.added[..|v.added| - 1] == e.added;
  }

  lemma VisitQueued(e: Expansion, files: Files, s: string, own: set<string>)
    requires s !in e.added && ModulePath(s) in files
    requires var queued := Flatten(e.rounds) + e.newUsing;
      NoDup(queued) && Elems(queued) !! own && e.usingSet == own + Elems(queued)
    ensures var v := Visit(e, files, s).value;
      var queued := Flatten(v.rounds) + v.newUsing;
      NoDup(queued) && Elems(queued) !! own && v.usingSet == own + Elems(queued)
  {
    var v := Visit(e, files, s).value;
    var lib := LibUsings(files[ModulePath(s)]);
    var extra := Except(lib, e.usingSet);
    var queued := Flatten(e.rounds) + e.newUsing;
    assert Flatten(v.rounds) + v.newUsing == queued + extra;
    ElemsConcat(queued, extra);
    NoDupAppend(queued, extra);
  }

  lemma VisitInv(e: Expansion, files: Files, s: string)
    requires Inv(e, files) && IsModuleName(s)
    ensures Visit(e, files, s).Success? ==> Inv(Visit(e, files, s).value, files)
  {
    if s !in e.added && ModulePath(s) in files {
      VisitEffect(e, files, s);
      VisitBodies(e, files, s);
      VisitQueued(e, files, s, Elems(UsingTargets(e.base)));
    }
  }

  lemma {:induction false} RoundInv(e: Expansion, files: Files, refs: seq<string>)
    requires Inv(e, files)
    requires forall x :: x in refs ==> IsModuleName(x)
    ensures Round(e, files, refs).Success? ==> Inv(Round(e, files, refs).value, files)
    decreases |refs|
  {
    if refs != [] {
      assert refs[0] in refs;
      VisitInv(e, files, refs[0]);
      var v := Visit(e, files, refs[0]);
      if v.Success? {
        forall x | x in refs[1..] ensures IsModuleName(x) {
          assert x in refs;
        }
        RoundInv(v.value, files, refs[1..]);
      }
    }
  }

  lemma CloseInv(e: Expansion, files: Files)
    requires Inv(e, files)
    ensures Inv(Close(e), files)
  {
    var rs := e.rounds + [e.newUsing];
    assert rs[..|rs| - 1] == e.rounds;
    assert Flatten(rs) + [] == Flatten(e.rounds) + e.newUsing;
  }

  lemma {:induction false} ExpandFromInv(e: Expansion, files: Files)
    requires Inv(e, files) && e.newUsing == []
    ensures ExpandFrom(e, files).Success? ==> Inv(ExpandFrom(e, files).value, files)
    decreases files.Keys - Paths(e.added)
  {
    var refs := LibraryRefs(Source(e));
    if refs != [] {
      ExpandStep(e, files);
      RoundInv(e, files, refs);
      var r := Round(e, files, refs);
      if r.Success? && |r.value.added| != |e.added| {
        RoundSane(e, files, refs);
        Grows(e, r.value, files);
        CloseInv(r.value, files);
        ExpandFromInv(Close(r.value), files);
      }
    }
  }

  /** What a finished expansion of a solver source gives: the using lines of
      the rounds, then the solver source unchanged, then the body of each
      expanded library once, in expansion order. Every library the final
      text refers to has been expanded and its file exists. The prepended
      targets are distinct, none is one the solver already had, and
      together with the solver's own they are exactly the solver's own plus
      every expanded library's. */
  lemma ExpandResult(source: string, files: Files)
    ensures var r := ExpandFrom(Start(source), files);
      var own := Elems(UsingTargets(source));
      r.Success? ==>
        var e := r.value;
        && NoDup(e.added)
        && (forall n :: n in e.added ==> ModulePath(n) in files)
        && Source(e) == Header(e.rounds) + source + Bodies(files, e.added)
        && (forall x :: x in LibraryRefs(Source(e)) ==> x in e.added)
        && NoDup(Flatten(e.rounds))
        && Elems(Flatten(e.rounds)) !! own
        && own + Elems(Flatten(e.rounds)) == own + Targets(files, e.added)
  {
    InvStart(source, files);
    ExpandFromInv(Start(source), files);
    var r := ExpandFrom(Start(source), files);
    if r.Success? {
      assert Flatten(r.value.rounds) + [] == Flatten(r.value.rounds);
    }
  }

  /** A body never holds a `using` line of its own: its lines are the kept
      library lines, each non-empty and not starting with "using". */
  lemma BodyLines(lines: seq<string>)
    requires forall l :: l in lines ==> '\n' !in l
    requires KeptLines(lines) != []
    ensures Lines(Body(lines)) == KeptLines(lines) + [""]
  {
    var kept := KeptLines(lines);
    var parts := kept + [""];
    forall p | p in parts ensures '\n' !in p {
      if p in kept {
        assert p in lines;
      }
    }
    JoinSnoc(kept);
    SplitJoin(parts, '\n');
  }

  /** The text is not ended by a line feed before a body is appended, so
      the first kept line of the library continues the text's last line. */
  lemma GluedFirstLine(text: string, lines: seq<string>)
    requires forall l :: l in lines ==> '\n' !in l
    requires KeptLines(lines) != []
    ensures var ts := Lines(text);
      var ks := KeptLines(lines);
      Lines(text + Body(lines)) == ts[..|ts| - 1] + [ts[|ts| - 1] + ks[0]] + ks[1..] + [""]
  {
    var ks := KeptLines(lines);
    BodyLines(lines);
    SplitConcat(text, Body(lines), '\n');
    assert (ks + [""])[1..] == ks[1..] + [""];
  }

  /** So when the text's last line holds a `//` comment, cutting comments
      (as minifying does) drops the library's first kept line with it. */
  lemma CommentSwallowsLibraryLine(text: string, lines: seq<string>)
    requires forall l :: l in lines ==> '\n' !in l
    requires KeptLines(lines) != []
    requires var ts := Lines(text); CommentFrom(ts[|ts| - 1], 0) < |ts[|ts| - 1]|
    ensures var ts := Lines(text);
      var glued := Lines(text + Body(lines));
      |glued| > |ts| &&
      glued[|ts| - 1] == ts[|ts| - 1] + KeptLines(lines)[0] &&
      StripLine(glued[|ts| - 1]) == StripLine(ts[|ts| - 1])
  {
    var ts := Lines(text);
    GluedFirstLine(text, lines);
    CommentHidesTail(ts[|ts| - 1], KeptLines(lines)[0]);
  }

  lemma {:induction false} JoinSnoc(ps: seq<string>)
    requires ps != []
    ensures Join("\n", ps + [""]) == Join("\n", ps) + "\n"
    decreases |ps|
  {
    if |ps| == 1 {
      assert Join("\n", ps + [""]) == ps[0] + "\n" + Join("\n", [""]);
    } else {
      assert (ps + [""])[1..] == ps[1..] + [""];
      JoinSnoc(ps[1..]);
    }
  }
}
