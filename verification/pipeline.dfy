/** `RunInner` (SubmitTool/Program.cs:435-693) with its processes, files and
    HTTP requests replaced by the values they produce: the solver file's
    lines, the library files, the build's exit code, the samples, each run's
    outcome, the keys pressed at the confirmation prompt, and the CSRF token
    found on the submit page, if any. */
module Pipeline {
  import opened Wrappers
  import opened Text
  import opened Verifier
  import Expander

  /** What the outside world supplies to one run. */
  datatype World = World(
    solverLines: seq<string>,
    libraries: Expander.Files,
    buildExitCode: int,
    buildOutput: string,
    samples: seq<Sample>,
    outcomes: seq<Outcome>,
    keys: seq<Key>,
    csrfToken: Option<string>)

  /** The form posted to the contest's submit page (SubmitTool/Program.cs:657-672). */
  datatype Submission =
    Submission(contest: string, taskScreenName: string, languageId: string, sourceCode: string, csrfToken: string)

  /** How a run ends. */
  datatype RunReport =
    | LibraryMissing(path: string)
    | BuildFailed(output: string)
    | Tested(verdicts: seq<Verdict>, status: int)
    | Declined(verdicts: seq<Verdict>, status: int)
    | Undecided(verdicts: seq<Verdict>, status: int)
    | Submitted(verdicts: seq<Verdict>, status: int, submission: Submission)
    | ForceSubmitted(submission: Submission)
    | TokenMissing

  /** The source that is compiled and submitted: the solver file's lines
      joined by line feeds (no trailing one), expanded when it mentions
      "Solve.Libraries". */
  function SubmittedSource(w: World, minimize: bool): Result<string, string> {
    Expander.PrepareSource(Join("\n", w.solverLines), minimize, w.libraries)
  }

  /** The run as a function of its inputs. */
  function RunSpec(contest: string, taskName: string, submit: bool, forceSubmit: bool, minimize: bool,
                   languageId: string, w: World, numeric: NumericCheck): RunReport
    requires |w.outcomes| == |w.samples|
  {
    match SubmittedSource(w, minimize)
    case Failure(p) => LibraryMissing(p)
    case Success(source) =>
      if w.buildExitCode != 0 then BuildFailed(w.buildOutput)
      else if forceSubmit then
        match w.csrfToken
        case None => TokenMissing
        case Some(t) => ForceSubmitted(Submission(contest, taskName, languageId, source, t))
      else
        var vs := Verdicts(w.samples, w.outcomes, numeric);
        var status := Status(vs);
        if !submit then Tested(vs, status)
        else
          match Gate(status, w.keys)
          case Proceed(_) =>
            (match w.csrfToken
             case None => TokenMissing
             case Some(t) => Submitted(vs, status, Submission(contest, taskName, languageId, source, t)))
          case Cancel(_) => Declined(vs, status)
          case Waiting => Undecided(vs, status)
  }

  /** The steps of `RunInner`, in order. */
  method RunInner(contest: string, taskName: string, submit: bool, forceSubmit: bool, minimize: bool,
                  languageId: string, w: World, numeric: NumericCheck) returns (report: RunReport)
    requires |w.outcomes| == |w.samples|
    ensures report == RunSpec(contest, taskName, submit, forceSubmit, minimize, languageId, w, numeric)
  {
    var source := Join("\n", w.solverLines);
    var expand := Contains(source, "Solve.Libraries");
    if expand {
      var r := Expander.ExpandInner(source, minimize, w.libraries);
      if r.Failure? {
        return LibraryMissing(r.error);
      }
      source := r.value;
    }
    if w.buildExitCode != 0 {
      return BuildFailed(w.buildOutput);
    }
    var verdicts: seq<Verdict> := [];
    var status := 0;
    if !forceSubmit {
      verdicts, status := RunSamples(w.samples, w.outcomes, numeric);
      if !submit {
        return Tested(verdicts, status);
      }
      var g := ConfirmGate(status, w.keys);
      if g.Cancel? {
        return Declined(verdicts, status);
      }
      if g.Waiting? {
        return Undecided(verdicts, status);
      }
    }
    if w.csrfToken.None? {
      return TokenMissing;
    }
    var form := Submission(contest, taskName, languageId, source, w.csrfToken.value);
    if forceSubmit {
      return ForceSubmitted(form);
    }
    return Submitted(verdicts, status, form);
  }

  /** A submission is only made when it was forced, or when submitting was
      asked for and either every sample run passed or the first deciding
      key was Y. What is submitted is the prepared source, for the given
      task and language. */
  lemma SubmitsOnlyWhenAllowed(contest: string, taskName: string, submit: bool, forceSubmit: bool,
                               minimize: bool, languageId: string, w: World, numeric: NumericCheck)
    requires |w.outcomes| == |w.samples|
    ensures var r := RunSpec(contest, taskName, submit, forceSubmit, minimize, languageId, w, numeric);
      (r.Submitted? || r.ForceSubmitted?) ==>
        && SubmittedSource(w, minimize) == Success(r.submission.sourceCode)
        && r.submission.taskScreenName == taskName
        && r.submission.languageId == languageId
        && w.csrfToken == Some(r.submission.csrfToken)
        && w.buildExitCode == 0
        && (forceSubmit ||
            (submit &&
             ((forall i :: 0 <= i < |r.verdicts| ==> r.verdicts[i] == AC) ||
              exists k :: 0 <= k < |w.keys| && w.keys[k].KeyY? && forall j :: 0 <= j < k ==> !Decisive(w.keys[j]))))
  {
    var r := RunSpec(contest, taskName, submit, forceSubmit, minimize, languageId, w, numeric);
    if r.Submitted? {
      var vs := Verdicts(w.samples, w.outcomes, numeric);
      StatusZeroIffAllAccepted(vs);
      GateProceedsIff(Status(vs), w.keys);
    }
  }

  /** When every sample passes, asking to submit submits without reading a key. */
  lemma AllPassedSubmits(contest: string, taskName: string, minimize: bool, languageId: string,
                         w: World, numeric: NumericCheck)
    requires |w.outcomes| == |w.samples|
    requires SubmittedSource(w, minimize).Success? && w.buildExitCode == 0 && w.csrfToken.Some?
    requires forall i :: 0 <= i < |Verdicts(w.samples, w.outcomes, numeric)| ==>
      Verdicts(w.samples, w.outcomes, numeric)[i] == AC
    ensures RunSpec(contest, taskName, true, false, minimize, languageId, w, numeric).Submitted?
  {
    StatusZeroIffAllAccepted(Verdicts(w.samples, w.outcomes, numeric));
  }

  /** A forced run does not depend on the samples, their outcomes or the
      keys: the sample loop and the prompt are skipped. */
  lemma ForceIgnoresSamples(contest: string, taskName: string, submit: bool, minimize: bool,
                            languageId: string, w: World, w': World, numeric: NumericCheck)
    requires |w.outcomes| == |w.samples| && |w'.outcomes| == |w'.samples|
    requires w'.solverLines == w.solverLines && w'.libraries == w.libraries
    requires w'.buildExitCode == w.buildExitCode && w'.buildOutput == w.buildOutput
    requires w'.csrfToken == w.csrfToken
    ensures RunSpec(contest, taskName, submit, true, minimize, languageId, w, numeric) ==
            RunSpec(contest, taskName, submit, true, minimize, languageId, w', numeric)
    ensures SubmittedSource(w, minimize).Success? && w.buildExitCode == 0 && w.csrfToken.Some? ==>
      RunSpec(contest, taskName, submit, true, minimize, languageId, w, numeric) ==
      ForceSubmitted(Submission(contest, taskName, languageId, SubmittedSource(w, minimize).value, w.csrfToken.value))
  {
  }

  /** `run` (submit false, not forced) never submits. */
  lemma RunNeverSubmits(contest: string, taskName: string, minimize: bool, languageId: string,
                        w: World, numeric: NumericCheck)
    requires |w.outcomes| == |w.samples|
    ensures var r := RunSpec(contest, taskName, false, false, minimize, languageId, w, numeric);
      !r.Submitted? && !r.ForceSubmitted? && !r.TokenMissing?
  {
  }
}
