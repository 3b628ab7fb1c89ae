/** The line patterns of `ExpandInner` (SubmitTool/Program.cs:354-355, 394)
    and the library path scheme (SubmitTool/Program.cs:371). The regexes run
    with `RegexOptions.Multiline`, where `^` matches at the start of the text
    and after each line feed, and `.`, `\w`, `\S` never match a line feed; so
    each regex is modelled as a function of one line of `Lines(text)`. */
module Patterns {
  import opened Wrappers
  import opened Text

  const LibraryPrefix: string := "using Solve.Libraries."
  const UsingPrefix: string := "using "

  /** A dotted library module name, as `[\w\.]+` captures it. */
  predicate IsModuleName(n: string) {
    n != [] && forall j :: 0 <= j < |n| ==> IsWordChar(n[j]) || n[j] == '.'
  }

  /** Length of the longest prefix of `s` made of `\w` and `.` characters. */
  function WordDotRun(s: string): (n: nat)
    ensures n <= |s|
    ensures forall j :: 0 <= j < n ==> IsWordChar(s[j]) || s[j] == '.'
    ensures n < |s| ==> !(IsWordChar(s[n]) || s[n] == '.')
  {
    if s == [] || !(IsWordChar(s[0]) || s[0] == '.') then 0 else 1 + WordDotRun(s[1..])
  }

  /** `^using Solve\.Libraries\.([\w\.]+);` on one line. The character class
      excludes `;`, so backtracking cannot help: the capture is the whole
      run of word characters and dots, and a `;` must follow it. */
  function LibraryRef(line: string): (r: Option<string>)
    ensures r.Some? ==> IsModuleName(r.value)
    ensures r.Some? ==> StartsWith(line, LibraryPrefix + r.value + ";")
  {
    if !StartsWith(line, LibraryPrefix) then None
    else
      var rest := line[|LibraryPrefix|..];
      var n := WordDotRun(rest);
      if 0 < n < |rest| && rest[n] == ';' then
        assert line[..|LibraryPrefix| + n + 1] == LibraryPrefix + rest[..n] + ";";
        Some(rest[..n])
      else None
  }

  /** Index of the last `c` in `s`, or -1 when there is none. */
  function LastIndexOf(s: string, c: char): (k: int)
    ensures -1 <= k < |s|
    ensures k >= 0 ==> s[k] == c
    ensures forall j :: k < j < |s| ==> s[j] != c
  {
    if s == [] then -1
    else if s[|s| - 1] == c then |s| - 1
    else LastIndexOf(s[..|s| - 1], c)
  }

  /** `^using (\S+);` on one line. `\S+` is greedy and gives characters back
      one at a time until a `;` follows, so the capture runs from after
      "using " to the last `;` of the non-white-space run there, and must
      hold at least one character. */
  function UsingTarget(line: string): (r: Option<string>)
    ensures r.Some? ==> IsToken(r.value)
  {
    if !StartsWith(line, UsingPrefix) then None
    else
      var rest := line[|UsingPrefix|..];
      var run := rest[..NonSpaceRun(rest)];
      var k := LastIndexOf(run, ';');
      if k >= 1 then Some(run[..k]) else None
  }

  /** The captures of the library pattern over a list of lines, in order. */
  function LibraryRefsOf(lines: seq<string>): (refs: seq<string>)
    ensures forall r :: r in refs ==> IsModuleName(r)
  {
    if lines == [] then []
    else
      var head := match LibraryRef(lines[0]) case Some(n) => [n] case None => [];
      head + LibraryRefsOf(lines[1..])
  }

  /** The captures of the using pattern over a list of lines, in order. */
  function UsingTargetsOf(lines: seq<string>): (targets: seq<string>)
    ensures forall t :: t in targets ==> IsToken(t)
  {
    if lines == [] then []
    else
      var head := match UsingTarget(lines[0]) case Some(t) => [t] case None => [];
      head + UsingTargetsOf(lines[1..])
  }

  /** `libraryRegex.Matches(text).Select(Func)`. */
  function LibraryRefs(text: string): seq<string> {
    LibraryRefsOf(Lines(text))
  }

  /** `usingRegex.Matches(text).Select(Func)`. */
  function UsingTargets(text: string): seq<string> {
    UsingTargetsOf(Lines(text))
  }

  /** The line `$"using {x};"` that an expansion round prepends for target x. */
  function UsingLine(x: string): string {
    UsingPrefix + x + ";"
  }

  /** A library reference can only be found in a text that mentions
      "Solve.Libraries": the test `Expand` and `RunInner` use to skip the
      expansion. */
  lemma {:induction false} RefsNeedMarker(s: string)
    ensures LibraryRefs(s) != [] ==> Contains(s, "Solve.Libraries")
    decreases |s|
  {
    var i := IndexOf(s, '\n');
    var head := s[..i];
    if LibraryRef(head).Some? {
      assert StartsWith(head, LibraryPrefix);
      assert s[6..][..15] == head[6..21] == LibraryPrefix[6..21] == "Solve.Libraries";
      assert StartsWith(s[6..], "Solve.Libraries");
    } else if i < |s| {
      var rest := s[i + 1..];
      assert Lines(s) == [head] + Lines(rest);
      assert LibraryRefs(s) == LibraryRefs(rest);
      RefsNeedMarker(rest);
      if Contains(rest, "Solve.Libraries") {
        var j :| 0 <= j <= |rest| && StartsWith(rest[j..], "Solve.Libraries");
        assert s[i + 1 + j..] == rest[j..];
      }
    } else {
      assert head == s;
      assert Lines(s) == [s];
      assert [s][1..] == [];
      assert LibraryRefsOf([s]) == [];
    }
  }

  /** A prepended line is read back as the target it was made from. */
  lemma UsingLineRoundTrip(x: string)
    requires IsToken(x)
    ensures UsingTarget(UsingLine(x)) == Some(x)
  {
    var line := UsingLine(x);
    assert line == UsingPrefix + (x + ";");
    assert StartsWith(line, UsingPrefix);
    var rest := line[|UsingPrefix|..];
    assert rest == x + ";";
    assert forall j :: 0 <= j < |rest| ==> !IsSpace(rest[j]) by {
      forall j | 0 <= j < |rest| ensures !IsSpace(rest[j]) {
        if j < |x| { assert rest[j] == x[j]; }
      }
    }
    assert NonSpaceRun(rest) == |rest|;
    assert rest[..NonSpaceRun(rest)] == rest;
    assert rest[|rest| - 1] == ';';
    assert LastIndexOf(rest, ';') == |x|;
    assert rest[..|x|] == x;
  }

  /** A prepended line for target `Solve.Libraries.<n>` is read back as a
      reference to module n: this is how transitive references are found. */
  lemma LibraryLineRoundTrip(n: string)
    requires IsModuleName(n)
    ensures LibraryRef(UsingLine("Solve.Libraries." + n)) == Some(n)
  {
    var line := UsingLine("Solve.Libraries." + n);
    assert line == LibraryPrefix + n + ";";
    assert StartsWith(line, LibraryPrefix);
    var rest := line[|LibraryPrefix|..];
    assert rest == n + ";";
    assert rest[|n|] == ';';
    assert forall j :: 0 <= j < |n| ==> rest[j] == n[j];
    var k := WordDotRun(rest);
    assert k == |n|;
    assert rest[..k] == n;
  }

  /** `$"Libraries/{s.Replace('.', '/')}.cs"`: where module s is read from. */
  function ModulePath(name: string): string {
    "Libraries/" + Replace(name, '.', '/') + ".cs"
  }

  /** The module a library path stands for, when it has the library shape. */
  function ModuleOfPath(path: string): Option<string> {
    if |path| >= 13 && path[..10] == "Libraries/" && path[|path| - 3..] == ".cs" then
      Some(Replace(path[10..|path| - 3], '/', '.'))
    else None
  }

  /** Reading a module's path back gives the module: names never hold '/'. */
  lemma ModulePathRoundTrip(name: string)
    requires '/' !in name
    ensures ModuleOfPath(ModulePath(name)) == Some(name)
  {
    var path := ModulePath(name);
    var mid := Replace(name, '.', '/');
    assert path[..10] == "Libraries/";
    assert path[|path| - 3..] == ".cs";
    assert path[10..|path| - 3] == mid;
    var back := Replace(mid, '/', '.');
    forall j | 0 <= j < |name| ensures back[j] == name[j] {
      assert name[j] in name;
    }
    assert back == name;
  }

  /** Distinct modules are read from distinct files. */
  lemma ModulePathInjective(a: string, b: string)
    requires IsModuleName(a) && IsModuleName(b)
    ensures ModulePath(a) == ModulePath(b) ==> a == b
  {
    NoSlash(a);
    NoSlash(b);
    ModulePathRoundTrip(a);
    ModulePathRoundTrip(b);
  }

  lemma NoSlash(n: string)
    requires IsModuleName(n)
    ensures '/' !in n
  {
  }

  /** A `//` at q with at least one character after it on the line. */
  predicate CommentAt(s: string, q: int) {
    0 <= q && q + 2 < |s| && s[q] == '/' && s[q + 1] == '/'
  }

  /** The first comment start at or after i, or `|s|`. */
  function CommentFrom(s: string, i: nat): (q: nat)
    requires i <= |s|
    ensures i <= q <= |s|
    ensures q < |s| ==> CommentAt(s, q)
    ensures forall j :: i <= j < q ==> !CommentAt(s, j)
    decreases |s| - i
  {
    if i + 2 >= |s| then |s|
    else if CommentAt(s, i) then i
    else CommentFrom(s, i + 1)
  }

  /** `Regex.Replace(text, "(.*?)//.+", "$1")` on one line: the lazy group
      stops at the first `//` that has a character after it, and the greedy
      `.+` takes the rest of the line, so the line is cut there. */
  function StripLine(line: string): string {
    line[..CommentFrom(line, 0)]
  }

  /** A comment that starts inside `t` hides whatever is written after `t`
      on the same line. */
  lemma CommentHidesTail(t: string, k: string)
    requires CommentFrom(t, 0) < |t|
    ensures StripLine(t + k) == StripLine(t)
  {
    var q := CommentFrom(t, 0);
    var s := t + k;
    assert CommentAt(s, q);
    forall j | 0 <= j < q ensures !CommentAt(s, j) {
      assert !CommentAt(t, j);
    }
    assert CommentFrom(s, 0) == q;
    assert s[..q] == t[..q];
  }

  /** After the cut, a `//` can only remain as the last two characters. */
  lemma StripLineMarkerAtEnd(line: string, q: int)
    requires 0 <= q && q + 2 <= |StripLine(line)|
    requires StripLine(line)[q] == '/' && StripLine(line)[q + 1] == '/'
    ensures q + 2 == |StripLine(line)|
  {
    var c := CommentFrom(line, 0);
    assert line[q] == '/' && line[q + 1] == '/';
    assert q < c;
    assert !CommentAt(line, q);
  }

  /** Stripping twice is stripping once. */
  lemma StripLineIdempotent(line: string)
    ensures StripLine(StripLine(line)) == StripLine(line)
  {
    var r := StripLine(line);
    var c := CommentFrom(r, 0);
    if c < |r| {
      StripLineMarkerAtEnd(line, c);
    }
  }

  /** Cutting a line cannot introduce a line feed. */
  lemma StripLineNoLineFeed(line: string)
    requires '\n' !in line
    ensures '\n' !in StripLine(line)
  {
    var r := StripLine(line);
    assert forall j :: 0 <= j < |r| ==> r[j] == line[j];
  }
}
