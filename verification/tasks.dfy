/** The contest task table (SubmitTool/Program.cs:195-268, 695-742): the
    table `Get` builds, the tab-separated file it is written to and `Load`
    reads back, the resolution of a task name in `Run`, and the language
    aliases of `Change`. */
module Tasks {
  import opened Wrappers
  import opened Text

  /** One `key → task screen name` pair, in the order it was added. */
  datatype Entry = Entry(key: string, value: string)

  /** `((char)('A' + i)).ToString().ToUpper()`. */
  function TaskKey(i: nat): string
    requires i <= 32
  {
    ToUpper([(65 + i) as char])
  }

  /** `$"{contestName.Replace('-', '_')}_{(char)('a' + i)}"`. */
  function TaskName(contest: string, i: nat): string
    requires i <= 32
  {
    Replace(contest, '-', '_') + "_" + [(97 + i) as char]
  }

  /** The first 32 keys are the characters 'A' to '`', each its own upper
      case; the 33rd is 'a', which upper-cases to "A" again. */
  lemma TaskKeys(i: nat, j: nat)
    requires i < j <= 32
    ensures TaskKey(i) == TaskKey(j) <==> i == 0 && j == 32
    ensures j < 32 ==> ToUpper(TaskKey(j)) == TaskKey(j)
  {
    KeyChar(i);
    KeyChar(j);
  }

  lemma KeyChar(i: nat)
    requires i <= 32
    ensures TaskKey(i) == [if i == 32 then 'A' else (65 + i) as char]
  {
    assert TaskKey(i)[0] == UpperChar((65 + i) as char);
  }

  /** The candidate entries of the count branch of `Get`. The key of entry
      32 repeats the key of entry 0, so `Add` throws there and no later
      entry is ever built: the table stops at 33 entries. */
  function TaskTable(contest: string, count: int): (es: seq<Entry>)
    ensures |es| == if count < 0 then 0 else if count > 33 then 33 else count
  {
    var n := if count < 0 then 0 else if count > 33 then 33 else count;
    seq(n, i requires 0 <= i < n => Entry(TaskKey(i), TaskName(contest, i)))
  }

  /** The entries of the `count == -1` branch: each (assignment, screen name)
      match of the standings, the assignment upper-cased. */
  function ScrapedTable(standings: seq<(string, string)>): (es: seq<Entry>)
    ensures |es| == |standings|
  {
    seq(|standings|, i requires 0 <= i < |standings| => Entry(ToUpper(standings[i].0), standings[i].1))
  }

  /** The entries `Get` adds, in order. */
  function GetEntries(contest: string, count: int, standings: seq<(string, string)>): seq<Entry> {
    if count == -1 then ScrapedTable(standings) else TaskTable(contest, count)
  }

  function KeysOf(es: seq<Entry>): set<string> {
    set e | e in es :: e.key
  }

  /** Adding the entries one by one to a Dictionary: the map, or the first
      key that is added twice (where `Add` throws). */
  function Collect(es: seq<Entry>): (r: Result<map<string, string>, string>)
    ensures r.Success? ==> r.value.Keys == KeysOf(es)
    ensures r.Success? ==> forall i :: 0 <= i < |es| ==> r.value[es[i].key] == es[i].value
    ensures r.Failure? ==> exists i, j :: 0 <= i < j < |es| && es[i].key == es[j].key == r.error
  {
    if es == [] then Success(map[])
    else
      var front := es[..|es| - 1];
      var e := es[|es| - 1];
      assert es == front + [e];
      match Collect(front)
      case Failure(k) =>
        SharedKeySnoc(front, e, k);
        Failure(k)
      case Success(m) =>
        if e.key in m then
          AddShared(front, e, m);
          Failure(e.key)
        else
          AddFresh(front, e, m);
          Success(m[e.key := e.value])
  }

  /** A key shared by two entries stays shared when an entry is appended. */
  lemma SharedKeySnoc(front: seq<Entry>, e: Entry, k: string)
    requires exists i, j :: 0 <= i < j < |front| && front[i].key == front[j].key == k
    ensures var es := front + [e];
      exists i, j :: 0 <= i < j < |es| && es[i].key == es[j].key == k
  {
    var es := front + [e];
    var i, j :| 0 <= i < j < |front| && front[i].key == front[j].key == k;
    assert es[i] == front[i] && es[j] == front[j];
  }

  /** Appending an entry whose key the map already holds shares that key. */
  lemma AddShared(front: seq<Entry>, e: Entry, m: map<string, string>)
    requires m.Keys == KeysOf(front) && e.key in m
    ensures var es := front + [e];
      exists i, j :: 0 <= i < j < |es| && es[i].key == es[j].key == e.key
  {
    var es := front + [e];
    var i :| 0 <= i < |front| && front[i].key == e.key;
    assert es[i] == front[i] && es[|front|] == e;
  }

  /** Appending an entry with a new key: the map grows by that pair. */
  lemma AddFresh(front: seq<Entry>, e: Entry, m: map<string, string>)
    requires m.Keys == KeysOf(front) && e.key !in m
    requires forall i :: 0 <= i < |front| ==> m[front[i].key] == front[i].value
    ensures var es := front + [e];
      var m' := m[e.key := e.value];
      && m'.Keys == KeysOf(es)
      && forall i :: 0 <= i < |es| ==> m'[es[i].key] == es[i].value
  {
    var es := front + [e];
    assert KeysOf(es) == KeysOf(front) + {e.key};
    forall i | 0 <= i < |es| ensures m[e.key := e.value][es[i].key] == es[i].value {
      if i < |front| {
        assert es[i] == front[i];
        assert front[i].key in KeysOf(front);
      }
    }
  }

  /** `Add` throws exactly when two entries share a key. */
  lemma CollectFailsIffDuplicate(es: seq<Entry>)
    ensures Collect(es).Failure? <==> exists i, j :: 0 <= i < j < |es| && es[i].key == es[j].key
  {
    if Collect(es).Success? {
      var m := Collect(es).value;
      forall i, j | 0 <= i < j < |es| ensures es[i].key != es[j].key {
        CollectDistinct(es, i, j);
      }
    }
  }

  lemma {:induction false} CollectDistinct(es: seq<Entry>, i: nat, j: nat)
    requires Collect(es).Success? && i < j < |es|
    ensures es[i].key != es[j].key
    decreases |es|
  {
    var front := es[..|es| - 1];
    assert Collect(front).Success?;
    if j < |es| - 1 {
      assert front[i] == es[i] && front[j] == es[j];
      CollectDistinct(front, i, j);
    } else {
      assert es[i] == front[i];
      assert es[i].key in Collect(front).value;
    }
  }

  /** The count branch succeeds for at most 32 tasks, and the table maps the
      i-th key to the i-th name. */
  lemma CountTableSucceeds(contest: string, count: int)
    requires 0 <= count <= 32
    ensures Collect(TaskTable(contest, count)).Success?
    ensures forall i :: 0 <= i < count ==>
      TaskKey(i) in Collect(TaskTable(contest, count)).value &&
      Collect(TaskTable(contest, count)).value[TaskKey(i)] == TaskName(contest, i)
  {
    var es := TaskTable(contest, count);
    forall i, j | 0 <= i < j < |es| ensures es[i].key != es[j].key {
      TaskKeys(i, j);
    }
    CollectFailsIffDuplicate(es);
    assert forall i :: 0 <= i < count ==> es[i].key == TaskKey(i) && es[i].value == TaskName(contest, i);
  }

  /** With more than 32 tasks the count branch fails on the key "A". */
  lemma CountTableFails(contest: string, count: int)
    requires count > 32
    ensures Collect(TaskTable(contest, count)) == Failure("A")
  {
    var es := TaskTable(contest, count);
    var front := TaskTable(contest, 32);
    assert es == front + [es[32]];
    CountTableSucceeds(contest, 32);
    KeyChar(0);
    KeyChar(32);
    assert front[0].key == "A" && es[32].key == "A";
    CollectSnocDuplicate(front, es[32]);
  }

  lemma CollectSnocDuplicate(front: seq<Entry>, e: Entry)
    requires Collect(front).Success? && e.key in Collect(front).value
    ensures Collect(front + [e]) == Failure(e.key)
  {
    assert (front + [e])[..|front|] == front;
  }

  lemma CollectSnocFailure(front: seq<Entry>, e: Entry)
    requires Collect(front).Failure?
    ensures Collect(front + [e]) == Collect(front)
  {
    assert (front + [e])[..|front|] == front;
  }

  lemma CollectSnocAdd(front: seq<Entry>, e: Entry)
    requires Collect(front).Success? && e.key !in Collect(front).value
    ensures Collect(front + [e]) == Success(Collect(front).value[e.key := e.value])
  {
    assert (front + [e])[..|front|] == front;
  }

  /** Every key `Get` adds is in upper case. */
  lemma GetKeysUpper(contest: string, count: int, standings: seq<(string, string)>)
    ensures forall e :: e in GetEntries(contest, count, standings) ==> ToUpper(e.key) == e.key
  {
    var es := GetEntries(contest, count, standings);
    forall e | e in es ensures ToUpper(e.key) == e.key {
      var i :| 0 <= i < |es| && es[i] == e;
      if count == -1 {
        UpperIdempotent(standings[i].0);
      } else {
        UpperIdempotent([(65 + i) as char]);
      }
    }
  }

  /** Once `Add` has thrown, the later entries do not matter. */
  lemma CollectPrefixFailure(es: seq<Entry>, n: nat)
    requires n <= |es| && Collect(es[..n]).Failure?
    ensures Collect(es) == Collect(es[..n])
  {
    assert es == es[..n] + es[n..];
    CollectAppendFailure(es[..n], es[n..]);
  }

  lemma {:induction false} CollectAppendFailure(a: seq<Entry>, b: seq<Entry>)
    requires Collect(a).Failure?
    ensures Collect(a + b) == Collect(a)
    decreases |b|
  {
    if b == [] {
      assert a + b == a;
    } else {
      var b' := b[..|b| - 1];
      CollectAppendFailure(a, b');
      assert a + b == (a + b') + [b[|b| - 1]];
      CollectSnocFailure(a + b', b[|b| - 1]);
    }
  }

  /** The `count == -1` loop of `Get`: adds each scraped entry, and stops
      at the first key added twice. On success it returns the map and the
      entries in the order they were added. */
  method ScrapeTable(standings: seq<(string, string)>) returns (r: Result<(map<string, string>, seq<Entry>), string>)
    ensures match Collect(ScrapedTable(standings))
      case Failure(k) => r == Failure(k)
      case Success(m) => r == Success((m, ScrapedTable(standings)))
  {
    ghost var es := ScrapedTable(standings);
    var list: map<string, string> := map[];
    var order: seq<Entry> := [];
    var i := 0;
    while i < |standings|
      invariant 0 <= i <= |standings|
      invariant order == es[..i]
      invariant Collect(order) == Success(list)
    {
      var e := Entry(ToUpper(standings[i].0), standings[i].1);
      assert es[..i + 1] == order + [e];
      if e.key in list {
        CollectSnocDuplicate(order, e);
        CollectPrefixFailure(es, i + 1);
        return Failure(e.key);
      }
      CollectSnocAdd(order, e);
      list := list[e.key := e.value];
      order := order + [e];
      i := i + 1;
    }
    assert order == es;
    return Success((list, order));
  }

  /** The counted loop of `Get`: adds the first `count` letter keys, and
      stops where a key is added twice, which happens at the 33rd. */
  method CountTable(contest: string, count: int) returns (r: Result<(map<string, string>, seq<Entry>), string>)
    ensures match Collect(TaskTable(contest, count))
      case Failure(k) => r == Failure(k)
      case Success(m) => r == Success((m, TaskTable(contest, count)))
  {
    ghost var es := TaskTable(contest, count);
    var list: map<string, string> := map[];
    var order: seq<Entry> := [];
    var i := 0;
    while i < count
      invariant 0 <= i <= 32 && (count >= 0 ==> i <= count) && (count < 0 ==> i == 0)
      invariant order == es[..i]
      invariant Collect(order) == Success(list)
    {
      var e := Entry(TaskKey(i), TaskName(contest, i));
      TaskTableStep(contest, count, i);
      if i == 32 {
        KeyRepeats(order, list);
      }
      if e.key in list {
        CollectSnocDuplicate(order, e);
        CollectPrefixFailure(es, i + 1);
        return Failure(e.key);
      }
      CollectSnocAdd(order, e);
      list := list[e.key := e.value];
      order := order + [e];
      i := i + 1;
    }
    assert order == es;
    return Success((list, order));
  }

  lemma TaskTableStep(contest: string, count: int, i: nat)
    requires i < count && i <= 32
    ensures TaskTable(contest, count)[..i + 1] ==
      TaskTable(contest, count)[..i] + [Entry(TaskKey(i), TaskName(contest, i))]
  {
  }

  /** The 33rd key is the first one again. */
  lemma KeyRepeats(order: seq<Entry>, list: map<string, string>)
    requires |order| == 32 && order[0].key == TaskKey(0)
    requires Collect(order) == Success(list)
    ensures TaskKey(32) in list
  {
    KeyChar(0);
    KeyChar(32);
    assert order[0] in order;
  }

  /** `$"{x.Key}\t{x.Value}"` for every entry: the lines of the contest file. */
  function TaskFile(es: seq<Entry>): (lines: seq<string>)
    ensures |lines| == |es|
  {
    seq(|es|, i requires 0 <= i < |es| => es[i].key + "\t" + es[i].value)
  }

  datatype LoadError = Missing | BadFormat(line: nat) | DuplicateKey(key: string)

  /** Reading the contest file line by line: the map, or the first line that
      does not split into two fields at tabs, or the first key (upper-cased)
      that is added twice. */
  function LoadTable(lines: seq<string>): (r: Result<map<string, string>, LoadError>)
    ensures r.Failure? ==> !r.error.Missing?
    ensures r.Failure? && r.error.BadFormat? ==>
      r.error.line < |lines| && |Split(lines[r.error.line], '\t')| != 2
    ensures r.Success? ==> forall k :: k in r.value ==> ToUpper(k) == k
  {
    if lines == [] then Success(map[])
    else
      var n := |lines| - 1;
      assert forall i :: 0 <= i < n ==> lines[..n][i] == lines[i];
      match LoadTable(lines[..n])
      case Failure(err) => Failure(err)
      case Success(m) =>
        var s := Split(lines[n], '\t');
        if |s| != 2 then Failure(BadFormat(n))
        else
          var key := ToUpper(s[0]);
          UpperIdempotent(s[0]);
          if key in m then Failure(DuplicateKey(key)) else Success(m[key := s[1]])
  }

  /** A line `Load` accepts: it splits into exactly two fields at tabs. */
  predicate TwoFields(line: string) {
    |Split(line, '\t')| == 2
  }

  /** The key `Load` adds for a line: its first field, upper-cased. */
  function LineKey(line: string): string
    requires TwoFields(line)
  {
    ToUpper(Split(line, '\t')[0])
  }

  /** The task screen name `Load` adds for a line: its second field. */
  function LineValue(line: string): string
    requires TwoFields(line)
  {
    Split(line, '\t')[1]
  }

  predicate Readable(lines: seq<string>) {
    forall i :: 0 <= i < |lines| ==> TwoFields(lines[i])
  }

  predicate DistinctKeys(lines: seq<string>)
    requires Readable(lines)
  {
    forall i, j :: 0 <= i < j < |lines| ==> LineKey(lines[i]) != LineKey(lines[j])
  }

  /** What `Load` makes of any file. It succeeds exactly when every line
      has two fields and no two lines share an upper-cased key, and then the
      map holds exactly those keys, each with its line's second field. A
      format error names the first line without two fields, all lines before
      it being readable with distinct keys. A duplicate key is the key of a
      readable line that an earlier line already had, all lines before it
      being readable with distinct keys. */
  lemma LoadTableMeaning(lines: seq<string>)
    ensures LoadTable(lines).Success? <==> Readable(lines) && DistinctKeys(lines)
    ensures LoadTable(lines).Success? ==>
      var m := LoadTable(lines).value;
      && Readable(lines)
      && m.Keys == (set i | 0 <= i < |lines| :: LineKey(lines[i]))
      && forall i :: 0 <= i < |lines| ==> m[LineKey(lines[i])] == LineValue(lines[i])
    ensures LoadTable(lines).Failure? && LoadTable(lines).error.BadFormat? ==>
      var n := LoadTable(lines).error.line;
      && n < |lines| && !TwoFields(lines[n])
      && Readable(lines[..n]) && DistinctKeys(lines[..n])
    ensures LoadTable(lines).Failure? && LoadTable(lines).error.DuplicateKey? ==>
      exists n :: 0 < n < |lines| && FirstRepeat(lines, n, LoadTable(lines).error.key)
  {
    LoadMeaningHolds(lines);
  }

  /** The four clauses of `LoadTableMeaning` for a result r. */
  ghost predicate LoadMeaning(lines: seq<string>, r: Result<map<string, string>, LoadError>) {
    && (r.Success? <==> Readable(lines) && DistinctKeys(lines))
    && (r.Success? ==>
        && Readable(lines)
        && r.value.Keys == (set i | 0 <= i < |lines| :: LineKey(lines[i]))
        && forall i :: 0 <= i < |lines| ==> r.value[LineKey(lines[i])] == LineValue(lines[i]))
    && (r.Failure? && r.error.BadFormat? ==>
        && r.error.line < |lines| && !TwoFields(lines[r.error.line])
        && Readable(lines[..r.error.line]) && DistinctKeys(lines[..r.error.line]))
    && (r.Failure? && r.error.DuplicateKey? ==>
        exists n :: 0 < n < |lines| && FirstRepeat(lines, n, r.error.key))
  }

  lemma {:induction false} LoadMeaningHolds(lines: seq<string>)
    ensures LoadMeaning(lines, LoadTable(lines))
    decreases |lines|
  {
    if lines != [] {
      var n := |lines| - 1;
      var front := lines[..n];
      var line := lines[n];
      LoadMeaningHolds(front);
      assert lines == front + [line];
      match LoadTable(front)
      case Failure(err) =>
        assert LoadTable(lines) == Failure(err);
        LoadMeaningFail(front, line, err);
      case Success(m) =>
        if !TwoFields(line) {
          assert LoadTable(lines) == Failure(BadFormat(n));
          LoadMeaningBad(front, line, m);
        } else if LineKey(line) in m {
          assert LoadTable(lines) == Failure(DuplicateKey(LineKey(line)));
          LoadMeaningDup(front, line, m);
        } else {
          assert LoadTable(lines) == Success(m[LineKey(line) := LineValue(line)]);
          LoadMeaningAdd(front, line, m);
        }
    }
  }

  lemma LoadMeaningFail(front: seq<string>, line: string, err: LoadError)
    requires LoadMeaning(front, Failure(err))
    ensures LoadMeaning(front + [line], Failure(err))
  {
    var lines := front + [line];
    PrefixOfSnoc(front, line);
    assert forall i :: 0 <= i < |front| ==> lines[i] == front[i];
    if err.DuplicateKey? {
      var n :| 0 < n < |front| && FirstRepeat(front, n, err.key);
      assert lines[..n + 1] == front[..n + 1];
      assert FirstRepeat(lines, n, err.key);
    }
  }

  lemma LoadMeaningBad(front: seq<string>, line: string, m: map<string, string>)
    requires LoadMeaning(front, Success(m)) && !TwoFields(line)
    ensures LoadMeaning(front + [line], Failure(BadFormat(|front|)))
  {
    var lines := front + [line];
    PrefixOfSnoc(front, line);
    assert !TwoFields(lines[|front|]);
  }

  lemma LoadMeaningDup(front: seq<string>, line: string, m: map<string, string>)
    requires LoadMeaning(front, Success(m)) && TwoFields(line) && LineKey(line) in m
    ensures LoadMeaning(front + [line], Failure(DuplicateKey(LineKey(line))))
  {
    var lines := front + [line];
    var n := |front|;
    PrefixOfSnoc(front, line);
    var i :| 0 <= i < n && LineKey(front[i]) == LineKey(line);
    assert lines[i] == front[i] && lines[n] == line;
    assert lines[..n + 1] == lines;
    assert forall k :: 0 <= k < n ==> lines[k] == front[k];
    assert FirstRepeat(lines, n, LineKey(line));
    assert !DistinctKeys(lines);
  }

  lemma LoadMeaningAdd(front: seq<string>, line: string, m: map<string, string>)
    requires LoadMeaning(front, Success(m)) && TwoFields(line) && LineKey(line) !in m
    ensures LoadMeaning(front + [line], Success(m[LineKey(line) := LineValue(line)]))
  {
    LoadAddFresh(front, line, m);
  }

  /** Line n is the first whose key repeats an earlier line's: the lines up
      to it are readable, those before it have distinct keys, and its key k
      is the key of some earlier line. */
  ghost predicate FirstRepeat(lines: seq<string>, n: nat, k: string)
    requires n < |lines|
  {
    && Readable(lines[..n + 1]) && DistinctKeys(lines[..n])
    && TwoFields(lines[n]) && LineKey(lines[n]) == k
    && exists i :: 0 <= i < n && TwoFields(lines[i]) && LineKey(lines[i]) == k
  }

  lemma PrefixOfSnoc(front: seq<string>, line: string)
    ensures forall n :: 0 <= n <= |front| ==> (front + [line])[..n] == front[..n]
    ensures (front + [line])[..|front|] == front
  {
  }

  /** A readable last line with a new key extends the map by that pair. */
  lemma LoadAddFresh(front: seq<string>, line: string, m: map<string, string>)
    requires Readable(front) && DistinctKeys(front) && TwoFields(line)
    requires m.Keys == (set i | 0 <= i < |front| :: LineKey(front[i]))
    requires forall i :: 0 <= i < |front| ==> m[LineKey(front[i])] == LineValue(front[i])
    requires LineKey(line) !in m
    ensures var lines := front + [line];
      var m' := m[LineKey(line) := LineValue(line)];
      && Readable(lines) && DistinctKeys(lines)
      && m'.Keys == (set i | 0 <= i < |lines| :: LineKey(lines[i]))
      && forall i :: 0 <= i < |lines| ==> m'[LineKey(lines[i])] == LineValue(lines[i])
  {
    var lines := front + [line];
    var n := |front|;
    assert forall i :: 0 <= i < n ==> lines[i] == front[i];
    assert lines[n] == line;
    forall i | 0 <= i < n ensures LineKey(front[i]) != LineKey(line) {
      assert LineKey(front[i]) in m.Keys;
    }
    assert (set i | 0 <= i < |lines| :: LineKey(lines[i])) ==
      (set i | 0 <= i < n :: LineKey(front[i])) + {LineKey(line)};
  }

  /** Once a line has failed, the later lines are never read. */
  lemma {:induction false} LoadPrefixFailure(lines: seq<string>, n: nat)
    requires n <= |lines| && LoadTable(lines[..n]).Failure?
    ensures LoadTable(lines) == LoadTable(lines[..n])
    decreases |lines| - n
  {
    if n < |lines| {
      assert lines[..n + 1][..n] == lines[..n];
      assert LoadTable(lines[..n + 1]) == LoadTable(lines[..n]);
      LoadPrefixFailure(lines, n + 1);
    } else {
      assert lines[..n] == lines;
    }
  }

  lemma UpperIdempotent(s: string)
    ensures ToUpper(ToUpper(s)) == ToUpper(s)
  {
  }

  lemma TabLine(k: string, v: string)
    requires '\t' !in k && '\t' !in v
    ensures Split(k + "\t" + v, '\t') == [k, v]
  {
    assert Join("\t", [k, v]) == k + "\t" + v;
    SplitJoin([k, v], '\t');
  }

  /** What `Get` writes, `Load` reads back as the same table: keys are
      already upper case, and neither keys nor names hold a tab. */
  lemma {:induction false} FileRoundTrip(es: seq<Entry>)
    requires Collect(es).Success?
    requires forall e :: e in es ==> ToUpper(e.key) == e.key && '\t' !in e.key && '\t' !in e.value
    ensures LoadTable(TaskFile(es)) == Success(Collect(es).value)
    decreases |es|
  {
    if es != [] {
      var n := |es| - 1;
      var front := es[..n];
      assert TaskFile(es)[..n] == TaskFile(front);
      assert forall e :: e in front ==> e in es;
      assert Collect(front).Success?;
      FileRoundTrip(front);
      assert es[n] in es;
      TabLine(es[n].key, es[n].value);
    }
  }

  /** The tables `Get` writes satisfy the round trip's conditions when
      neither the contest name nor a scraped assignment or screen name holds
      a tab (the scraped ones are `\w+` matches, which never do). */
  lemma GetEntriesFileSafe(contest: string, count: int, standings: seq<(string, string)>)
    requires '\t' !in contest
    requires forall k :: 0 <= k < |standings| ==> '\t' !in standings[k].0 && '\t' !in standings[k].1
    ensures forall e :: e in GetEntries(contest, count, standings) ==>
      ToUpper(e.key) == e.key && '\t' !in e.key && '\t' !in e.value
  {
    var es := GetEntries(contest, count, standings);
    forall e | e in es ensures ToUpper(e.key) == e.key && '\t' !in e.key && '\t' !in e.value {
      var i :| 0 <= i < |es| && es[i] == e;
      if count == -1 {
        UpperIdempotent(standings[i].0);
        NoTabUpper(standings[i].0);
      } else {
        UpperIdempotent([(65 + i) as char]);
        var r := Replace(contest, '-', '_');
        assert forall j :: 0 <= j < |r| ==> r[j] == '_' || r[j] == contest[j];
      }
    }
  }

  lemma NoTabUpper(s: string)
    requires '\t' !in s
    ensures '\t' !in ToUpper(s)
  {
    assert forall j :: 0 <= j < |s| ==> ToUpper(s)[j] == UpperChar(s[j]) && s[j] != '\t';
  }

  /** Everything `Get` stores, `Load` reads back unchanged. */
  lemma GetThenLoad(contest: string, count: int, standings: seq<(string, string)>)
    requires '\t' !in contest
    requires forall k :: 0 <= k < |standings| ==> '\t' !in standings[k].0 && '\t' !in standings[k].1
    requires Collect(GetEntries(contest, count, standings)).Success?
    ensures LoadTable(TaskFile(GetEntries(contest, count, standings))) ==
      Success(Collect(GetEntries(contest, count, standings)).value)
  {
    GetEntriesFileSafe(contest, count, standings);
    FileRoundTrip(GetEntries(contest, count, standings));
  }

  datatype RunError = NoContestLoaded | NoSuchTask(key: string)

  /** `Run`'s choice of contest and task screen name (SubmitTool/Program.cs:695-715). */
  function ResolveTask(contestName: Option<string>, tasks: map<string, string>,
                       contest: Option<string>, taskName: string): (r: Result<(string, string), RunError>)
    ensures r.Success? && contest.None? ==>
      contestName == Some(r.value.0) && ToUpper(taskName) in tasks && tasks[ToUpper(taskName)] == r.value.1
    ensures r.Success? && contest.Some? ==> r.value.0 == contest.value
    ensures r.Failure? <==> contest.None? && (contestName.None? || ToUpper(taskName) !in tasks)
  {
    match contest
    case None =>
      var key := ToUpper(taskName);
      if contestName.None? then Failure(NoContestLoaded)
      else if key !in tasks then Failure(NoSuchTask(key))
      else Success((contestName.value, tasks[key]))
    case Some(c) => Success((c, Replace(c, '-', '_') + "_" + ToLower(taskName)))
  }

  lemma UpperOfLower(s: string)
    ensures ToUpper(ToLower(s)) == ToUpper(s)
  {
    assert forall j :: 0 <= j < |s| ==> UpperChar(LowerChar(s[j])) == UpperChar(s[j]);
  }

  /** Without a contest name, the task name's case does not matter, and
      every upper-case key of the table is found by its name in either case. */
  lemma LookupIgnoresCase(contestName: Option<string>, tasks: map<string, string>, taskName: string)
    ensures ResolveTask(contestName, tasks, None, ToLower(taskName)) == ResolveTask(contestName, tasks, None, taskName)
    ensures ResolveTask(contestName, tasks, None, ToUpper(taskName)) == ResolveTask(contestName, tasks, None, taskName)
    ensures contestName.Some? && taskName in tasks && ToUpper(taskName) == taskName ==>
      ResolveTask(contestName, tasks, None, ToLower(taskName)) == Success((contestName.value, tasks[taskName]))
  {
    UpperOfLower(taskName);
    UpperIdempotent(taskName);
  }

  /** With a table from `Get(contest, count)` loaded, naming the task by its
      letter (either case) finds the same screen name as naming the contest
      explicitly, for the 26 letter keys. */
  lemma ResolveAgrees(contest: string, count: int, i: nat, upper: bool)
    requires 0 <= count <= 32 && i < count && i < 26
    ensures Collect(TaskTable(contest, count)).Success?
    ensures var tasks := Collect(TaskTable(contest, count)).value;
      var letter := if upper then [(65 + i) as char] else [(97 + i) as char];
      ResolveTask(Some(contest), tasks, None, letter) == Success((contest, TaskName(contest, i)))
      && ResolveTask(None, map[], Some(contest), letter) == Success((contest, TaskName(contest, i)))
  {
    CountTableSucceeds(contest, count);
    var tasks := Collect(TaskTable(contest, count)).value;
    assert TaskKey(i) in tasks && tasks[TaskKey(i)] == TaskName(contest, i);
    KeyChar(i);
    var letter := if upper then [(65 + i) as char] else [(97 + i) as char];
    assert ToUpper(letter)[0] == UpperChar(letter[0]);
    assert ToUpper(letter) == TaskKey(i);
    assert ToLower(letter)[0] == LowerChar(letter[0]);
    assert ToLower(letter) == [(97 + i) as char];
    assert TaskName(contest, i) == Replace(contest, '-', '_') + "_" + ToLower(letter);
  }

  const DefaultLanguageId: string := "4010"
  const LanguageIds: set<string> := {"3006", "4010", "4011", "4012"}

  /** The `Change` switch (SubmitTool/Program.cs:726-733). */
  function LanguageIdOf(alias: string): (r: Option<string>)
    ensures r.Some? ==> r.value in LanguageIds
  {
    match alias
    case "old" => Some("3006")
    case "new" => Some("4010")
    case "mcs" => Some("4011")
    case "csc" => Some("4012")
    case _ => None
  }

  /** The alias of each language id, the inverse of the switch. */
  function AliasOf(id: string): string
    requires id in LanguageIds
  {
    if id == "3006" then "old" else if id == "4010" then "new" else if id == "4011" then "mcs" else "csc"
  }

  /** Each language id has exactly one alias. */
  lemma AliasRoundTrip(alias: string, id: string)
    requires id in LanguageIds
    ensures LanguageIdOf(AliasOf(id)) == Some(id)
    ensures LanguageIdOf(alias) == Some(id) ==> alias == AliasOf(id)
  {
  }
}
