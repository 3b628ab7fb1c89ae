/** The minify pass at the end of `ExpandInner`
    (SubmitTool/Program.cs:391-412): comments are cut, every `#` line is kept
    on a line of its own, and everything between two `#` lines is joined into
    one line. */
module Minifier {
  import opened Text
  import opened Patterns

  /** Every line of `ls` with its comment cut. */
  function StripAll(ls: seq<string>): seq<string> {
    seq(|ls|, i requires 0 <= i < |ls| => StripLine(ls[i]))
  }

  /** `Regex.Replace(source, "(.*?)//.+", "$1")` over the whole text. */
  function StripComments(text: string): string {
    Join("\n", StripAll(Lines(text)))
  }

  /** The lines the minify loop walks are the comment-cut source lines. */
  lemma LinesOfStripped(text: string)
    ensures Lines(StripComments(text)) == StripAll(Lines(text))
  {
    var ls := Lines(text);
    SplitNoSep(text, '\n');
    forall p | p in StripAll(ls) ensures '\n' !in p {
      var i :| 0 <= i < |ls| && StripAll(ls)[i] == p;
      assert ls[i] in ls;
      StripLineNoLineFeed(ls[i]);
    }
    SplitJoin(StripAll(ls), '\n');
  }

  /** Cutting comments twice is cutting them once. */
  lemma StripCommentsIdempotent(text: string)
    ensures StripComments(StripComments(text)) == StripComments(text)
  {
    LinesOfStripped(text);
    var once := StripAll(Lines(text));
    forall i | 0 <= i < |once| ensures StripLine(once[i]) == once[i] {
      StripLineIdempotent(Lines(text)[i]);
    }
    assert StripAll(once) == once;
  }

  /** `s.StartsWith("#")`: a preprocessor line. */
  predicate IsDirective(line: string) {
    StartsWith(line, "#")
  }

  /** The minify loop from a point where `buf` is the content of `sb`: the
      lines it still adds to `lines`. */
  function MinifyFrom(ls: seq<string>, buf: string): seq<string>
    decreases |ls|
  {
    if ls == [] then (if buf != "" then [Trim(buf)] else [])
    else if IsDirective(ls[0]) then [Trim(buf), TrimStartSpaces(ls[0])] + MinifyFrom(ls[1..], "")
    else MinifyFrom(ls[1..], buf + TrimStartSpaces(ls[0]) + " ")
  }

  /** The text the minify pass produces. */
  function Minified(text: string): string {
    Join("\n", MinifyFrom(Lines(StripComments(text)), ""))
  }

  /** The minify loop over the split, comment-cut text. */
  method Minify(text: string) returns (r: string)
    ensures r == Minified(text)
  {
    var source := StripComments(text);
    var ls := Split(source, '\n');
    var lines: seq<string> := [];
    var sb := "";
    for i := 0 to |ls|
      invariant lines + MinifyFrom(ls[i..], sb) == MinifyFrom(ls, "")
    {
      var s := ls[i];
      assert ls[i..] == [s] + ls[i + 1..];
      if IsDirective(s) {
        lines := lines + [Trim(sb)];
        sb := "";
        lines := lines + [TrimStartSpaces(s)];
        continue;
      }
      sb := sb + TrimStartSpaces(s) + " ";
    }
    assert ls[|ls|..] == [];
    assert ls == Lines(source);
    if |sb| > 0 {
      lines := lines + [Trim(sb)];
    }
    assert lines == MinifyFrom(ls, "");
    r := Join("\n", lines);
  }

  /** A `#` line begins with `#`, so `TrimStart(' ')` leaves it as it is. */
  lemma DirectiveVerbatim(line: string)
    requires IsDirective(line)
    ensures TrimStartSpaces(line) == line
  {
  }

  /** No line of `g` is a `#` line. */
  predicate Plain(g: seq<string>) {
    forall k :: 0 <= k < |g| ==> !IsDirective(g[k])
  }

  /** What the lines of `g` put in the buffer: each one space-trimmed, then a space. */
  function Buffer(g: seq<string>): string {
    if g == [] then "" else TrimStartSpaces(g[0]) + " " + Buffer(g[1..])
  }

  /** Number of `#` lines. */
  function Directives(ls: seq<string>): nat {
    if ls == [] then 0 else (if IsDirective(ls[0]) then 1 else 0) + Directives(ls[1..])
  }

  /** Lines after the last `#` line end up in one trimmed line, or in none
      when there are none and the buffer is empty. */
  lemma {:induction false} MinifyPlain(g: seq<string>, buf: string)
    requires Plain(g)
    ensures MinifyFrom(g, buf) ==
      if buf + Buffer(g) == "" then [] else [Trim(buf + Buffer(g))]
    decreases |g|
  {
    if g == [] {
      assert buf + Buffer(g) == buf;
    } else {
      assert !IsDirective(g[0]);
      assert Plain(g[1..]) by {
        forall k | 0 <= k < |g[1..]| ensures !IsDirective(g[1..][k]) {
          assert g[1..][k] == g[k + 1];
        }
      }
      var buf' := buf + TrimStartSpaces(g[0]) + " ";
      assert MinifyFrom(g, buf) == MinifyFrom(g[1..], buf');
      assert Buffer(g) == TrimStartSpaces(g[0]) + " " + Buffer(g[1..]);
      MinifyPlain(g[1..], buf');
      assert buf' + Buffer(g[1..]) == buf + Buffer(g);
    }
  }

  /** A `#` line is emitted unchanged right after the trimmed buffer of all
      lines since the previous `#` line (empty when there were none), and
      the buffer starts over after it. */
  lemma {:induction false} MinifyGroup(g: seq<string>, d: string, rest: seq<string>, buf: string)
    requires Plain(g) && IsDirective(d)
    ensures MinifyFrom(g + [d] + rest, buf) == [Trim(buf + Buffer(g)), d] + MinifyFrom(rest, "")
    decreases |g|
  {
    var ls := g + [d] + rest;
    if g == [] {
      assert ls == [d] + rest;
      assert ls[1..] == rest;
      assert buf + Buffer(g) == buf;
    } else {
      assert ls[0] == g[0] && !IsDirective(g[0]);
      assert ls[1..] == g[1..] + [d] + rest;
      assert Plain(g[1..]) by {
        forall k | 0 <= k < |g[1..]| ensures !IsDirective(g[1..][k]) {
          assert g[1..][k] == g[k + 1];
        }
      }
      var buf' := buf + TrimStartSpaces(g[0]) + " ";
      MinifyGroup(g[1..], d, rest, buf');
      assert buf' + Buffer(g[1..]) == buf + Buffer(g);
    }
  }

  /** Two output lines per `#` line, and one more when a line follows the
      last `#` line (with no `#` line at all, when the buffer is not empty). */
  lemma {:induction false} MinifyLineCount(ls: seq<string>, buf: string)
    ensures |MinifyFrom(ls, buf)| == 2 * Directives(ls) +
      (if ls == [] then (if buf != "" then 1 else 0)
       else if IsDirective(ls[|ls| - 1]) then 0 else 1)
    decreases |ls|
  {
    if ls != [] {
      if IsDirective(ls[0]) {
        MinifyLineCount(ls[1..], "");
      } else {
        MinifyLineCount(ls[1..], buf + TrimStartSpaces(ls[0]) + " ");
      }
      if |ls| > 1 {
        assert ls[1..][|ls[1..]| - 1] == ls[|ls| - 1];
      }
    }
  }

  /** For a whole text: 2 * (number of `#` lines) output lines, plus one when
      the last line of the comment-cut text is not a `#` line. */
  lemma MinifiedLineCount(text: string)
    ensures var ls := Lines(StripComments(text));
      |MinifyFrom(ls, "")| == 2 * Directives(ls) + (if IsDirective(ls[|ls| - 1]) then 0 else 1)
  {
    MinifyLineCount(Lines(StripComments(text)), "");
  }
}
