/** Running the samples inside `RunInner` (SubmitTool/Program.cs:536-653):
    judging each run, the status the sample loop accumulates, and the
    confirmation asked before a submission that did not pass every sample. */
module Verifier {
  import opened Wrappers
  import opened Text

  /** How one run of the compiled solver on a sample ended: it exited within
      the time limit with an exit code and its standard output, or it did not. */
  datatype Outcome = Exited(code: int, stdout: string) | TimedOut

  datatype Verdict = AC | WA | RE | TLE

  /** A sample of the task page: its number, input and expected output. */
  datatype Sample = Sample(num: int, input: string, expected: string)

  /** The numeric branch of the comparison, given an expected and an actual
      token: None when one of them does not parse as a number, otherwise
      whether the two numbers are close enough. */
  type NumericCheck = (string, string) -> Option<bool>

  /** One position of the comparison: numerically when either token holds a
      '.' and both parse, otherwise by exact equality. */
  predicate PairMatches(ex: string, re: string, numeric: NumericCheck) {
    if ('.' in ex || '.' in re) && numeric(ex, re).Some? then numeric(ex, re).value
    else ex == re
  }

  /** An accepted output: as many white-space separated tokens as expected,
      each matching the expected token at its position. */
  predicate OutputMatches(expected: string, actual: string, numeric: NumericCheck) {
    var es := Tokens(expected);
    var rs := Tokens(actual);
    |es| == |rs| && forall i :: 0 <= i < |es| ==> PairMatches(es[i], rs[i], numeric)
  }

  /** The comparison loop (SubmitTool/Program.cs:559-585): every position is
      looked at, and `isOk` only ever goes from true to false. */
  method CompareOutput(expected: string, actual: string, numeric: NumericCheck) returns (isOk: bool)
    ensures isOk == OutputMatches(expected, actual, numeric)
  {
    var es := Tokens(expected);
    var rs := Tokens(actual);
    isOk := true;
    if |es| == |rs| {
      for i := 0 to |es|
        invariant isOk == forall k :: 0 <= k < i ==> PairMatches(es[k], rs[k], numeric)
      {
        if ('.' in es[i] || '.' in rs[i]) && numeric(es[i], rs[i]).Some? {
          if !numeric(es[i], rs[i]).value {
            isOk := false;
          }
        } else {
          isOk := isOk && es[i] == rs[i];
        }
      }
    } else {
      isOk := false;
    }
  }

  /** Without a '.' in any token, an output is accepted exactly when its
      tokens are the expected tokens. */
  lemma ExactWithoutDots(expected: string, actual: string, numeric: NumericCheck)
    requires forall t :: t in Tokens(expected) ==> '.' !in t
    requires forall t :: t in Tokens(actual) ==> '.' !in t
    ensures OutputMatches(expected, actual, numeric) <==> Tokens(expected) == Tokens(actual)
  {
    var es := Tokens(expected);
    var rs := Tokens(actual);
    if |es| == |rs| {
      forall i | 0 <= i < |es| ensures PairMatches(es[i], rs[i], numeric) <==> es[i] == rs[i] {
        assert es[i] in es && rs[i] in rs;
      }
    }
  }

  /** Which run of white space separates two parts of the output does not
      change the verdict. */
  lemma WhitespaceRunsIrrelevant(expected: string, a: string, w1: string, w2: string, b: string,
                                 numeric: NumericCheck)
    requires w1 != [] && AllSpace(w1) && w2 != [] && AllSpace(w2)
    ensures OutputMatches(expected, a + w1 + b, numeric) == OutputMatches(expected, a + w2 + b, numeric)
  {
    TokensAtSpace(a, w1, b);
    TokensAtSpace(a, w2, b);
  }

  /** Trailing white space (such as the final line feed) does not change the
      verdict. */
  lemma TrailingWhitespaceIrrelevant(expected: string, actual: string, w: string, numeric: NumericCheck)
    requires AllSpace(w)
    ensures OutputMatches(expected, actual + w, numeric) == OutputMatches(expected, actual, numeric)
  {
    if w != [] {
      TokensAtSpace(actual, w, "");
      assert actual + w + "" == actual + w;
      assert Tokens("") == [];
      assert Tokens(actual) + [] == Tokens(actual);
    } else {
      assert actual + w == actual;
    }
  }

  /** When the numeric check never rejects a token against itself, the
      expected output itself is accepted. */
  lemma ExpectedIsAccepted(expected: string, numeric: NumericCheck)
    requires forall t :: numeric(t, t) != Some(false)
    ensures OutputMatches(expected, expected, numeric)
  {
    var es := Tokens(expected);
    forall i | 0 <= i < |es| ensures PairMatches(es[i], es[i], numeric) {
      assert numeric(es[i], es[i]) != Some(false);
    }
  }

  /** The verdict for one sample (SubmitTool/Program.cs:546-615). */
  function Judge(outcome: Outcome, expected: string, numeric: NumericCheck): Verdict {
    match outcome
    case TimedOut => TLE
    case Exited(code, out) =>
      if code != 0 then RE
      else if OutputMatches(expected, out, numeric) then AC
      else WA
  }

  /** A run that exits normally with a different number of tokens than the
      expected output is wrong, whatever the tokens are. */
  lemma CountMismatchIsWrong(expected: string, out: string, numeric: NumericCheck)
    requires |Tokens(expected)| != |Tokens(out)|
    ensures Judge(Exited(0, out), expected, numeric) == WA
  {
  }

  /** Number of samples that are run: all of them, or up to and including
      the first one that times out. */
  function Executed(outcomes: seq<Outcome>): (n: nat)
    ensures n <= |outcomes|
    ensures forall i :: 0 <= i < n - 1 ==> !outcomes[i].TimedOut?
    ensures n < |outcomes| ==> 0 < n && outcomes[n - 1].TimedOut?
    ensures n == |outcomes| && 0 < n && !outcomes[n - 1].TimedOut? ==>
      forall i :: 0 <= i < |outcomes| ==> !outcomes[i].TimedOut?
  {
    if outcomes == [] then 0
    else if outcomes[0].TimedOut? then 1
    else
      var n := 1 + Executed(outcomes[1..]);
      assert forall i :: 1 <= i < n - 1 ==> outcomes[i] == outcomes[1..][i - 1];
      n
  }

  /** The verdicts of the samples that are run, in order. */
  function Verdicts(samples: seq<Sample>, outcomes: seq<Outcome>, numeric: NumericCheck): seq<Verdict>
    requires |outcomes| == |samples|
  {
    seq(Executed(outcomes), i requires 0 <= i < Executed(outcomes) =>
      Judge(outcomes[i], samples[i].expected, numeric))
  }

  /** The status as a function of the verdicts: 2 after a time-out, else 1
      after a wrong answer or runtime error, else 0. */
  function Status(vs: seq<Verdict>): int {
    if TLE in vs then 2
    else if exists i :: 0 <= i < |vs| && vs[i] != AC then 1
    else 0
  }

  /** The sample loop (SubmitTool/Program.cs:536-618): runs the samples in
      order, stops at the first time-out, and accumulates `status`. */
  method RunSamples(samples: seq<Sample>, outcomes: seq<Outcome>, numeric: NumericCheck)
    returns (verdicts: seq<Verdict>, status: int)
    requires |outcomes| == |samples|
    ensures verdicts == Verdicts(samples, outcomes, numeric)
    ensures status == Status(verdicts)
  {
    status := 0;
    verdicts := [];
    var k := 0;
    while k < |samples|
      invariant 0 <= k <= |samples|
      invariant forall i :: 0 <= i < k ==> !outcomes[i].TimedOut?
      invariant |verdicts| == k
      invariant forall i :: 0 <= i < k ==> verdicts[i] == Judge(outcomes[i], samples[i].expected, numeric)
      invariant TLE !in verdicts
      invariant status == Status(verdicts)
    {
      match outcomes[k]
      case TimedOut =>
        verdicts := verdicts + [TLE];
        status := 2;
        assert Executed(outcomes) == k + 1;
        return;
      case Exited(code, out) =>
        if code != 0 {
          verdicts := verdicts + [RE];
          status := 1;
        } else {
          var isOk := CompareOutput(samples[k].expected, out, numeric);
          if isOk {
            verdicts := verdicts + [AC];
          } else {
            verdicts := verdicts + [WA];
            status := 1;
          }
        }
      k := k + 1;
    }
    assert Executed(outcomes) == |outcomes|;
  }

  /** Status 0 means every sample that ran was accepted. */
  lemma StatusZeroIffAllAccepted(vs: seq<Verdict>)
    ensures Status(vs) == 0 <==> forall i :: 0 <= i < |vs| ==> vs[i] == AC
  {
  }

  /** A time-out is always the last sample run: the samples after it are
      never run. */
  lemma TimeoutStopsTheLoop(samples: seq<Sample>, outcomes: seq<Outcome>, numeric: NumericCheck, k: nat)
    requires |outcomes| == |samples|
    requires k < |outcomes| && outcomes[k].TimedOut?
    ensures |Verdicts(samples, outcomes, numeric)| <= k + 1
    ensures Status(Verdicts(samples, outcomes, numeric)) == 2
  {
    var n := Executed(outcomes);
    var vs := Verdicts(samples, outcomes, numeric);
    assert vs[n - 1] == TLE;
  }

  /** Without a time-out, every sample is run. */
  lemma AllRunWithoutTimeout(samples: seq<Sample>, outcomes: seq<Outcome>, numeric: NumericCheck)
    requires |outcomes| == |samples|
    requires forall i :: 0 <= i < |outcomes| ==> !outcomes[i].TimedOut?
    ensures |Verdicts(samples, outcomes, numeric)| == |samples|
    ensures Status(Verdicts(samples, outcomes, numeric)) != 2
  {
    var vs := Verdicts(samples, outcomes, numeric);
    assert forall i :: 0 <= i < |vs| ==> vs[i] != TLE;
  }

  /** A key read by `Console.ReadKey` at the confirmation prompt. */
  datatype Key = Enter | KeyN | KeyY | Other(c: char)

  /** How the confirmation ends: submit or give up after reading `read` keys,
      or still waiting for a deciding key when the given keys run out. */
  datatype GateResult = Proceed(read: nat) | Cancel(read: nat) | Waiting

  predicate Decisive(k: Key) {
    k.Enter? || k.KeyN? || k.KeyY?
  }

  /** Index of the first Enter, N or Y key, or `|keys|`. */
  function FirstDecisive(keys: seq<Key>): (i: nat)
    ensures i <= |keys|
    ensures i < |keys| ==> Decisive(keys[i])
    ensures forall j :: 0 <= j < i ==> !Decisive(keys[j])
  {
    if keys == [] then 0 else if Decisive(keys[0]) then 0 else 1 + FirstDecisive(keys[1..])
  }

  /** The confirmation as a function of the status and the keys. */
  function Gate(status: int, keys: seq<Key>): GateResult {
    if status == 0 then Proceed(0)
    else
      var i := FirstDecisive(keys);
      if i == |keys| then Waiting
      else if keys[i].KeyY? then Proceed(i + 1)
      else Cancel(i + 1)
  }

  /** The `while (status != 0)` key loop (SubmitTool/Program.cs:638-653). */
  method ConfirmGate(status0: int, keys: seq<Key>) returns (g: GateResult)
    ensures g == Gate(status0, keys)
  {
    var status := status0;
    var read := 0;
    while status != 0
      invariant 0 <= read <= |keys|
      invariant status != 0 ==> status == status0 && forall j :: 0 <= j < read ==> !Decisive(keys[j])
      invariant status == 0 ==> Gate(status0, keys) == Proceed(read)
      decreases |keys| - read, if status != 0 then 1 else 0
    {
      if read == |keys| {
        return Waiting;
      }
      var key := keys[read];
      read := read + 1;
      if key.Enter? || key.KeyN? {
        return Cancel(read);
      }
      if key.KeyY? {
        status := 0;
      }
    }
    return Proceed(read);
  }

  /** The submission goes ahead exactly when all samples passed or the first
      deciding key is Y; keys other than Enter, N and Y are ignored. */
  lemma GateProceedsIff(status: int, keys: seq<Key>)
    ensures Gate(status, keys).Proceed? <==>
      status == 0 ||
      exists k :: 0 <= k < |keys| && keys[k].KeyY? && forall j :: 0 <= j < k ==> !Decisive(keys[j])
  {
    var i := FirstDecisive(keys);
    if status != 0 && i < |keys| && keys[i].KeyY? {
      assert forall j :: 0 <= j < i ==> !Decisive(keys[j]);
    }
    if exists k :: 0 <= k < |keys| && keys[k].KeyY? && forall j :: 0 <= j < k ==> !Decisive(keys[j]) {
      var k :| 0 <= k < |keys| && keys[k].KeyY? && forall j :: 0 <= j < k ==> !Decisive(keys[j]);
      assert Decisive(keys[k]);
      assert k == i;
    }
  }
}
