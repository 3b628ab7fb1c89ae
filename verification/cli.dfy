/** The command line of the tool's read-eval loop (SubmitTool/Program.cs:18-125):
    a line is split at spaces into words, and the words become one of the
    commands below. What each command then does is modelled by the
    `Sessions.Session` methods and by `Expander.PrepareSource`. */
module Cli {
  import opened Wrappers
  import opened Text
  import Tasks

  /** The non-empty pieces of a line split at spaces
      (`Split(' ', StringSplitOptions.RemoveEmptyEntries)`). */
  function Words(line: string): (ws: seq<string>)
    ensures forall w :: w in ws ==> w != [] && ' ' !in w
  {
    SplitNoSep(line, ' ');
    NonEmpty(Split(line, ' '))
  }

  function NonEmpty(ps: seq<string>): (r: seq<string>)
    ensures forall p :: p in r ==> p != [] && p in ps
  {
    if ps == [] then []
    else if ps[0] == [] then NonEmpty(ps[1..])
    else [ps[0]] + NonEmpty(ps[1..])
  }

  /** Words joined by single spaces split back into the same words. */
  lemma WordsRoundTrip(ws: seq<string>)
    requires forall w :: w in ws ==> w != [] && ' ' !in w
    ensures Words(Join(" ", ws)) == ws
  {
    if ws == [] {
      assert Split("", ' ') == [""];
    } else {
      SplitJoin(ws, ' ');
      NonEmptyKeeps(ws);
    }
  }

  lemma {:induction false} NonEmptyKeeps(ps: seq<string>)
    requires forall p :: p in ps ==> p != []
    ensures NonEmpty(ps) == ps
  {
    if ps != [] {
      assert ps[0] in ps;
      assert forall p :: p in ps[1..] ==> p in ps;
      NonEmptyKeeps(ps[1..]);
    }
  }

  const MinInt32: int := -0x8000_0000
  const MaxInt32: int := 0x7fff_ffff

  predicate IsDigit(c: char) {
    '0' <= c <= '9'
  }

  predicate AllDigits(s: string) {
    forall j :: 0 <= j < |s| ==> IsDigit(s[j])
  }

  /** The value of a run of decimal digits. */
  function DigitsValue(s: string): nat
    requires AllDigits(s)
  {
    if s == [] then 0
    else DigitsValue(s[..|s| - 1]) * 10 + (s[|s| - 1] as int - '0' as int)
  }

  /** `int.TryParse` with the integer number style: white space around, an
      optional sign, decimal digits, and a value that fits in 32 bits. */
  function ParseInt32(s: string): (r: Option<int>)
    ensures r.Some? ==> MinInt32 <= r.value <= MaxInt32
  {
    var t := Trim(s);
    var signed := |t| > 0 && (t[0] == '-' || t[0] == '+');
    var digits := if signed then t[1..] else t;
    if digits == [] || !AllDigits(digits) then None
    else
      var v: int := if signed && t[0] == '-' then -(DigitsValue(digits) as int) else DigitsValue(digits);
      if MinInt32 <= v <= MaxInt32 then Some(v) else None
  }

  /** The decimal form of a natural number. */
  function ShowNat(n: nat): (s: string)
    decreases n
  {
    if n < 10 then [(48 + n) as char] else ShowNat(n / 10) + [(48 + n % 10) as char]
  }

  /** The decimal form of an integer, with a leading '-' when negative. */
  function Show(n: int): string {
    if n < 0 then "-" + ShowNat(-n) else ShowNat(n)
  }

  lemma {:induction false} ShowNatDigits(n: nat)
    ensures ShowNat(n) != [] && AllDigits(ShowNat(n))
    ensures DigitsValue(ShowNat(n)) == n
    decreases n
  {
    var s := ShowNat(n);
    if n >= 10 {
      ShowNatDigits(n / 10);
      assert s[..|s| - 1] == ShowNat(n / 10);
    } else {
      assert s[..|s| - 1] == [];
    }
  }

  lemma TrimNoWhite(s: string)
    requires s != [] && !IsSpace(s[0]) && !IsSpace(s[|s| - 1])
    ensures Trim(s) == s
  {
  }

  /** Every 32-bit number parses back from its decimal form. */
  lemma ParseShow(n: int)
    requires MinInt32 <= n <= MaxInt32
    ensures ParseInt32(Show(n)) == Some(n)
  {
    var m := if n < 0 then -n else n;
    ShowNatDigits(m);
    var s := Show(n);
    TrimNoWhite(s);
    if n < 0 {
      assert s[1..] == ShowNat(m);
    }
  }

  /** What a line asks the program to do. */
  datatype Command =
    | Blank
    | Exit
    | Logout
    | Usage(name: string)
    | BadCount
    | GetTasks(contest: string, count: int)
    | LoadTasks(contest: string)
    | RunTask(chosen: Option<string>, task: string, submit: bool, force: bool, minimize: bool)
    | ChangeLanguage(alias: string)
    | ExpandSolver(minimize: bool)
    | Invalid

  /** The words that start with '-' (a HashSet: order and repetition are lost). */
  function OptionSet(args: seq<string>): set<string> {
    set a | a in args && StartsWith(a, "-")
  }

  /** The words that do not start with '-', in order. */
  function Positional(args: seq<string>): (r: seq<string>)
    ensures forall a :: a in r ==> a in args && !StartsWith(a, "-")
  {
    if args == [] then []
    else if StartsWith(args[0], "-") then Positional(args[1..])
    else [args[0]] + Positional(args[1..])
  }

  /** `submit` / `s`. Its own name is the first positional word, so there is
      always at least one. */
  function ParseSubmit(args: seq<string>): Command
    requires args != []
  {
    if |args| < 2 then Usage(args[0])
    else
      var options := OptionSet(args);
      var force := "--force" in options || "-F" in options;
      var minimize := "--minimize" in options;
      var pos := Positional(args);
      if |pos| <= 1 then Usage(args[0])
      else if |pos| == 2 then RunTask(None, pos[1], true, force, minimize)
      else RunTask(Some(pos[1]), pos[2], true, force, minimize)
  }

  /** `run` / `r`: never forced, always minimized, and the words are taken
      by position whatever they start with. */
  function ParseRun(args: seq<string>): Command
    requires args != []
  {
    if |args| < 2 then Usage(args[0])
    else if |args| == 2 then RunTask(None, args[1], false, false, true)
    else RunTask(Some(args[1]), args[2], false, false, true)
  }

  /** The switch of the read-eval loop, with the largest task count `get`
      accepts as a parameter. */
  function ParseWith(args: seq<string>, maxCount: int): (c: Command)
    ensures c.GetTasks? ==> c.count == -1 || c.count == 0 || 0 < c.count <= maxCount
  {
    if args == [] then Blank
    else
      match args[0]
      case "exit" => Exit
      case "logout" => Logout
      case "get" =>
        if |args| < 2 then Usage("get")
        else if |args| > 2 then
          match ParseInt32(args[2])
          case Some(n) => if n < 0 || n > maxCount then BadCount else GetTasks(args[1], n)
          case None => GetTasks(args[1], 0)
        else GetTasks(args[1], -1)
      case "load" => if |args| != 2 then Usage("load") else LoadTasks(args[1])
      case "s" => ParseSubmit(args)
      case "submit" => ParseSubmit(args)
      case "r" => ParseRun(args)
      case "run" => ParseRun(args)
      case "change" => if |args| != 2 then Usage("change") else ChangeLanguage(args[1])
      case "expand" => ExpandSolver(|args| > 1 && "--minimize" in args[1..])
      case _ => Invalid
  }

  /** The bound on `get`'s task count as the source writes it. */
  const WrittenMaxCount: int := 100

  /** The bound that keeps every key a letter: 'A' to 'Z'. */
  const LetterMaxCount: int := 26

  function ParseAsWritten(args: seq<string>): Command {
    ParseWith(args, WrittenMaxCount)
  }

  function Parse(args: seq<string>): Command {
    ParseWith(args, LetterMaxCount)
  }

  /** `get`: the contest is the second word; without a third word the
      table is scraped (count -1); a third word that does not parse counts
      as 0; a parsed count outside 0..maxCount is refused. */
  lemma GetCountMeaning(args: seq<string>, maxCount: int)
    requires |args| >= 2 && args[0] == "get"
    ensures var c := ParseWith(args, maxCount);
      && (c.BadCount? <==> |args| > 2 && ParseInt32(args[2]).Some? &&
                           !(0 <= ParseInt32(args[2]).value <= maxCount))
      && (!c.BadCount? ==> c.GetTasks? && c.contest == args[1])
      && (c.GetTasks? ==> (c.count == -1 <==> |args| == 2))
      && (c.GetTasks? && |args| > 2 ==>
            (ParseInt32(args[2]).None? ==> c.count == 0) &&
            (ParseInt32(args[2]).Some? ==> c.count == ParseInt32(args[2]).value))
  {
  }

  /** Moving `submit`'s options around, or repeating them, changes nothing:
      only the positional words and the set of options count. */
  lemma SubmitIgnoresOptionOrder(a: seq<string>, b: seq<string>, maxCount: int)
    requires a != [] && b != [] && a[0] == b[0] && (a[0] == "s" || a[0] == "submit")
    requires Positional(a) == Positional(b) && OptionSet(a) == OptionSet(b)
    ensures ParseWith(a, maxCount) == ParseWith(b, maxCount)
  {
    assert a[0][0] == 's';
    if |a| < 2 {
      assert a == [a[0]];
      assert Positional(a) == [a[0]];
    }
    if |b| < 2 {
      assert b == [b[0]];
      assert Positional(b) == [b[0]];
    }
  }

  /** `submit` submits; `--force` or `-F` anywhere skips the samples, and
      `--minimize` anywhere minimizes. */
  lemma SubmitFlags(args: seq<string>, maxCount: int)
    requires args != [] && (args[0] == "s" || args[0] == "submit")
    ensures var c := ParseWith(args, maxCount);
      c.RunTask? ==>
        && c.submit
        && (c.force <==> "--force" in args || "-F" in args)
        && (c.minimize <==> "--minimize" in args)
  {
  }

  /** `run` neither submits nor forces, and always minimizes: the contest
      is given exactly when there are three or more words. */
  lemma RunDefaults(args: seq<string>, maxCount: int)
    requires |args| >= 2 && (args[0] == "r" || args[0] == "run")
    ensures var c := ParseWith(args, maxCount);
      && c.RunTask? && !c.submit && !c.force && c.minimize
      && (c.chosen.None? <==> |args| == 2)
      && c.task == (if |args| == 2 then args[1] else args[2])
  {
  }

  /** As written, `get` accepts counts up to 100, but the 33rd key is "A"
      again, so `get abc 33` reaches the table and the duplicate key stops
      it. */
  lemma CountLimitAsWritten(contest: string)
    requires contest != [] && ' ' !in contest
    ensures ParseAsWritten(Words("get " + contest + " 33")) == GetTasks(contest, 33)
    ensures Tasks.Collect(Tasks.GetEntries(contest, 33, [])) == Failure("A")
  {
    var ws := ["get", contest, "33"];
    assert ws[1..] == [contest, "33"];
    assert ws[1..][1..] == ["33"];
    assert Join(" ", [contest, "33"]) == contest + " " + "33";
    assert Join(" ", ws) == "get" + " " + (contest + " " + "33");
    assert "get" + " " + (contest + " " + "33") == "get " + contest + " 33";
    WordsRoundTrip(ws);
    ParseShow(33);
    assert Show(33) == "33";
    Tasks.CountTableFails(contest, 33);
  }

  /** With the bound at 26, every count `get` accepts builds a table, and
      its keys are the letters 'A' to 'Z'. */
  lemma CountLimitCorrected(args: seq<string>, standings: seq<(string, string)>)
    requires Parse(args).GetTasks? && Parse(args).count != -1
    ensures var c := Parse(args);
      && Tasks.Collect(Tasks.GetEntries(c.contest, c.count, standings)).Success?
      && forall k :: k in Tasks.Collect(Tasks.GetEntries(c.contest, c.count, standings)).value ==>
           |k| == 1 && 'A' <= k[0] <= 'Z'
  {
    var c := Parse(args);
    var es := Tasks.GetEntries(c.contest, c.count, standings);
    Tasks.CountTableSucceeds(c.contest, c.count);
    forall k | k in Tasks.Collect(es).value ensures |k| == 1 && 'A' <= k[0] <= 'Z' {
      assert k in Tasks.KeysOf(es);
      var i :| 0 <= i < |es| && es[i].key == k;
      Tasks.KeyChar(i);
    }
  }
}
