/** The `Program` object's contest and language state
    (SubmitTool/Program.cs:127-133) and the methods that change it: `Get`
    (195-243), `Load` (245-268), `Change` (724-742), and `Run` (695-715),
    which reads it to pick the task before the run itself. The directory
    config/contests is the field `contestFiles`, each file held as its lines. */
module Sessions {
  import opened Wrappers
  import opened Text
  import opened Tasks
  import Verifier
  import Pipeline

  /** Why `Get` stops before storing a table. */
  datatype GetError = ContestNotFound | FetchFailed | DuplicateTask(key: string)

  class Session {
    var contestName: Option<string>
    var tasks: map<string, string>
    var languageId: string
    var contestFiles: map<string, seq<string>>

    /** The language is one of the four the switch knows; a table is only
        held for a loaded contest, whose file exists; every key is in upper
        case, so `Run`'s upper-casing of the task name can reach it. */
    ghost predicate Valid()
      reads this
    {
      && languageId in LanguageIds
      && (contestName.None? ==> tasks == map[])
      && (contestName.Some? ==> contestName.value in contestFiles)
      && (forall k :: k in tasks ==> ToUpper(k) == k)
    }

    /** A fresh program: no contest, language 4010. */
    constructor (files: map<string, seq<string>>)
      ensures Valid()
      ensures contestName == None && tasks == map[] && languageId == DefaultLanguageId
      ensures contestFiles == files
    {
      contestName := None;
      tasks := map[];
      languageId := DefaultLanguageId;
      contestFiles := files;
    }

    /** Builds the table of a contest, from the standings' (assignment,
        screen name) matches when `count` is -1 and from the first `count`
        letters otherwise, stores it and writes its file. `httpStatus` is
        the status of the contest page. */
    method Get(contest: string, count: int, httpStatus: int, standings: seq<(string, string)>)
        returns (error: Option<GetError>)
      requires Valid()
      modifies this
      ensures Valid()
      ensures languageId == old(languageId)
      ensures httpStatus == 404 ==> error == Some(ContestNotFound)
      ensures httpStatus != 404 && httpStatus != 200 ==> error == Some(FetchFailed)
      ensures httpStatus == 200 ==>
        match Collect(GetEntries(contest, count, standings))
        case Failure(k) => error == Some(DuplicateTask(k))
        case Success(m) =>
          && error == None
          && contestName == Some(contest)
          && tasks == m
          && contestFiles == old(contestFiles)[contest := TaskFile(GetEntries(contest, count, standings))]
      ensures error.Some? ==>
        contestName == old(contestName) && tasks == old(tasks) && contestFiles == old(contestFiles)
    {
      if httpStatus == 404 {
        return Some(ContestNotFound);
      }
      if httpStatus != 200 {
        return Some(FetchFailed);
      }
      var built;
      if count == -1 {
        built := ScrapeTable(standings);
      } else {
        built := CountTable(contest, count);
      }
      if built.Failure? {
        return Some(DuplicateTask(built.error));
      }
      var (list, order) := built.value;
      GetKeysUpper(contest, count, standings);
      assert list.Keys == KeysOf(order);
      contestName := Some(contest);
      tasks := list;
      contestFiles := contestFiles[contest := TaskFile(order)];
      return None;
    }

    /** Reads a contest's file back into the table, line by line. */
    method Load(contest: string) returns (error: Option<LoadError>)
      requires Valid()
      modifies this
      ensures Valid()
      ensures languageId == old(languageId) && contestFiles == old(contestFiles)
      ensures contest !in contestFiles ==> error == Some(Missing)
      ensures contest in contestFiles ==>
        match LoadTable(contestFiles[contest])
        case Failure(err) => error == Some(err)
        case Success(m) => error == None && contestName == Some(contest) && tasks == m
      ensures error.Some? ==> contestName == old(contestName) && tasks == old(tasks)
    {
      if contest !in contestFiles {
        return Some(Missing);
      }
      var lines := contestFiles[contest];
      var d: map<string, string> := map[];
      var i := 0;
      while i < |lines|
        invariant 0 <= i <= |lines|
        invariant LoadTable(lines[..i]) == Success(d)
      {
        assert lines[..i + 1][..i] == lines[..i];
        var s := Split(lines[i], '\t');
        if |s| != 2 {
          LoadPrefixFailure(lines, i + 1);
          return Some(BadFormat(i));
        }
        var key := ToUpper(s[0]);
        if key in d {
          LoadPrefixFailure(lines, i + 1);
          return Some(DuplicateKey(key));
        }
        d := d[key := s[1]];
        i := i + 1;
      }
      assert lines[..i] == lines;
      contestName := Some(contest);
      tasks := d;
      return None;
    }

    /** Switches the language by its alias; an unknown alias changes nothing. */
    method Change(alias: string) returns (changed: bool)
      requires Valid()
      modifies this
      ensures Valid()
      ensures changed <==> LanguageIdOf(alias).Some?
      ensures languageId == if changed then LanguageIdOf(alias).value else old(languageId)
      ensures contestName == old(contestName) && tasks == old(tasks) && contestFiles == old(contestFiles)
    {
      var next := LanguageIdOf(alias);
      if next.None? {
        return false;
      }
      languageId := next.value;
      return true;
    }

    /** Resolves the contest and the task screen name, then runs (and
        maybe submits) with the current language. */
    method Run(contest: Option<string>, taskName: string, submit: bool, forceSubmit: bool, minimize: bool,
               w: Pipeline.World, numeric: Verifier.NumericCheck)
        returns (r: Result<Pipeline.RunReport, RunError>)
      requires Valid()
      requires |w.outcomes| == |w.samples|
      ensures match ResolveTask(contestName, tasks, contest, taskName)
        case Failure(e) => r == Failure(e)
        case Success(p) =>
          r == Success(Pipeline.RunSpec(p.0, p.1, submit, forceSubmit, minimize, languageId, w, numeric))
    {
      var c: string;
      var name: string;
      if contest.None? {
        var key := ToUpper(taskName);
        if contestName.None? {
          return Failure(NoContestLoaded);
        }
        c := contestName.value;
        if key !in tasks {
          return Failure(NoSuchTask(key));
        }
        name := tasks[key];
      } else {
        c := contest.value;
        name := Replace(c, '-', '_') + "_" + ToLower(taskName);
      }
      var report := Pipeline.RunInner(c, name, submit, forceSubmit, minimize, languageId, w, numeric);
      return Success(report);
    }
  }

  /** In a valid session with a contest loaded, every key of the table is
      found by `Run` whether it is typed in upper or lower case. */
  lemma EveryKeyReachable(s: Session, key: string)
    requires s.Valid() && s.contestName.Some? && key in s.tasks
    ensures ResolveTask(s.contestName, s.tasks, None, key) == Success((s.contestName.value, s.tasks[key]))
    ensures ResolveTask(s.contestName, s.tasks, None, ToLower(key)) == Success((s.contestName.value, s.tasks[key]))
  {
    LookupIgnoresCase(s.contestName, s.tasks, key);
  }
}
