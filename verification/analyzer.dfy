/** The dispatcher (`Analyzer`): it collects the files to read, then runs
    every configured metric over every line of every file, in order,
    threading the result store and the duplicate table through the run. */
module Analyzer {
  import opened Wrappers
  import opened Assoc
  import opened Text
  import opened Settings
  import opened Foreign
  import opened ResultStore
  import opened Features
  import GetCount
  import FindDuplicates

  type State = FindDuplicates.State
  type Table = FindDuplicates.Table

  // ---------------------------------------------------------------------
  // Dispatching one line to one metric (`analyzeLine`)
  // ---------------------------------------------------------------------

  /** The two line strategies that exist. */
  datatype Strategy = Counting | Duplicates

  /** `$featureMap[$metric['type']]` followed by `class_exists`: a type
      without an entry, with a PHP-empty entry, or with an entry that names
      no strategy class is skipped. */
  function Resolve(featureMap: map<string, string>, kind: string): (r: Option<Strategy>)
    ensures r == Some(Counting) <==> kind in featureMap && featureMap[kind] == "GetCount"
    ensures r == Some(Duplicates) <==> kind in featureMap && featureMap[kind] == "FindDuplicates"
  {
    if kind !in featureMap then None
    else if featureMap[kind] == "GetCount" then Some(Counting)
    else if featureMap[kind] == "FindDuplicates" then Some(Duplicates)
    else None
  }

  /** One unit of work: a line of a file, for one configured metric. */
  datatype Job = Job(path: string, line: string, metric: Metric)

  /** A fresh strategy object processes the line for the metric; the store
      is shared, and so is the duplicate table. */
  function Dispatch(st: State, job: Job, config: Config, engine: Engine): (r: State)
    ensures Resolve(config.featureMap, job.metric.kind).None? ==> r == st
    ensures Resolve(config.featureMap, job.metric.kind) == Some(Counting) ==> r.table == st.table
  {
    match Resolve(config.featureMap, job.metric.kind)
    case None => st
    case Some(Counting) =>
      FindDuplicates.State(GetCount.ProcessLine(st.store, job.line, job.metric, config.metrics, job.path, engine), st.table)
    case Some(Duplicates) =>
      FindDuplicates.ProcessLine(st, job.line, job.metric, config.metrics, job.path, engine)
  }

  /** Reference semantics: the jobs carried out one after another. */
  function Replay(st: State, jobs: seq<Job>, config: Config, engine: Engine): State
    decreases |jobs|
  {
    if |jobs| == 0 then st
    else Dispatch(Replay(st, jobs[..|jobs| - 1], config, engine), jobs[|jobs| - 1], config, engine)
  }

  /** Carrying out `a` and then `b` is carrying out `a + b`. */
  lemma {:induction false} ReplayConcat(st: State, a: seq<Job>, b: seq<Job>, config: Config, engine: Engine)
    ensures Replay(st, a + b, config, engine) == Replay(Replay(st, a, config, engine), b, config, engine)
    decreases |b|
  {
    if |b| == 0 {
      assert a + b == a;
    } else {
      var b' := b[..|b| - 1];
      ReplayConcat(st, a, b', config, engine);
      assert (a + b)[..|a + b| - 1] == a + b';
      assert (a + b)[|a + b| - 1] == b[|b| - 1];
    }
  }

  /** The jobs for one line: every configured metric, in configuration
      order. */
  function LineJobs(path: string, line: string, metrics: seq<Metric>): (r: seq<Job>)
    ensures |r| == |metrics|
    ensures forall i :: 0 <= i < |r| ==> r[i] == Job(path, line, metrics[i])
  {
    seq(|metrics|, i requires 0 <= i < |metrics| => Job(path, line, metrics[i]))
  }

  /** `analyzeLine`: the metrics in configuration order. */
  method AnalyzeLine(st: State, path: string, line: string, config: Config, engine: Engine) returns (r: State)
    ensures r == Replay(st, LineJobs(path, line, config.metrics), config, engine)
  {
    var jobs := LineJobs(path, line, config.metrics);
    r := st;
    var k := 0;
    while k < |config.metrics|
      invariant 0 <= k <= |config.metrics|
      invariant r == Replay(st, jobs[..k], config, engine)
    {
      r := Dispatch(r, Job(path, line, config.metrics[k]), config, engine);
      assert jobs[..k + 1][..k] == jobs[..k];
      k := k + 1;
    }
    assert jobs[..k] == jobs;
  }

  // ---------------------------------------------------------------------
  // Lines of a file (`analyzeFile`)
  // ---------------------------------------------------------------------

  /** The line separator: `input_log_eol_character`, or `PHP_EOL` when it
      is absent. */
  function Eol(config: Config): (r: string)
    ensures config.eol.None? ==> r == PhpEol
    ensures config.eol.Some? ==> r == config.eol.value
  {
    config.eol.GetOr(PhpEol)
  }

  /** `explode($eol, $file->getContents())`. Contents that cannot be read
      are PHP's `null`, which `explode` reads as the empty string. An empty
      separator makes `explode` return `false`, and the loop over it runs
      no line. */
  function LinesOf(eol: string, contents: Option<string>): (r: seq<string>)
    ensures |eol| == 0 <==> |r| == 0
  {
    if |eol| == 0 then [] else Explode(eol, contents.GetOr(""))
  }

  /** Gluing the lines back together with the separator gives the contents
      back. */
  lemma LinesJoin(eol: string, contents: string)
    requires |eol| > 0
    ensures Join(LinesOf(eol, Some(contents)), eol) == contents
  {
    JoinExplode(eol, contents);
  }

  /** A file that cannot be read still yields one line, the empty one. */
  lemma UnreadableFileOneEmptyLine(eol: string)
    requires |eol| > 0
    ensures LinesOf(eol, None) == [""]
  {
    ExplodeWithoutDelimiter(eol, "");
  }

  /** With a one-character separator, a separator at the end of the file
      adds a final empty line, which is analysed like any other. */
  lemma TrailingEolEmptyLine(c: char, contents: string)
    ensures LinesOf([c], Some(contents + [c])) == LinesOf([c], Some(contents)) + [""]
  {
    TrailingDelimiter(c, contents);
  }

  /** The jobs for a file: its lines in order, each with every metric. */
  function FileJobs(path: string, lines: seq<string>, metrics: seq<Metric>): seq<Job>
    decreases |lines|
  {
    if |lines| == 0 then []
    else FileJobs(path, lines[..|lines| - 1], metrics) + LineJobs(path, lines[|lines| - 1], metrics)
  }

  /** The loop over the lines of `analyzeFile`. */
  method AnalyzeLines(st: State, path: string, lines: seq<string>, config: Config, engine: Engine) returns (r: State)
    ensures r == Replay(st, FileJobs(path, lines, config.metrics), config, engine)
  {
    r := st;
    var k := 0;
    while k < |lines|
      invariant 0 <= k <= |lines|
      invariant r == Replay(st, FileJobs(path, lines[..k], config.metrics), config, engine)
    {
      r := AnalyzeLine(r, path, lines[k], config, engine);
      ReplayConcat(st, FileJobs(path, lines[..k], config.metrics), LineJobs(path, lines[k], config.metrics), config, engine);
      assert lines[..k + 1][..k] == lines[..k];
      k := k + 1;
    }
    assert lines[..k] == lines;
  }

  // ---------------------------------------------------------------------
  // The whole run (`run`, `getProgressPercentage`)
  // ---------------------------------------------------------------------

  /** A whole percentage as `getProgressPercentage` prints it: one `'0'`
      in front when it is below 10. Its digits read back as the
      percentage; below 100 it has exactly two digits. */
  function PaddedPercent(p: nat): (r: string)
    ensures forall j :: 0 <= j < |r| ==> IsDigit(r[j])
    ensures DigitsValue(r) == p
    ensures |r| >= 2
    ensures p < 100 ==> |r| == 2
    ensures r[0] == '0' <==> p < 10
  {
    DecimalRoundTrip(p);
    DecimalNoLeadingZero(p);
    if p < 10 then
      LeadingZeroValue(Decimal(p));
      "0" + Decimal(p)
    else
      Decimal(p)
  }

  /** Before the file at index `i` of `n`, fewer than all are done. */
  lemma PercentBelowHundred(i: nat, n: nat)
    requires i < n
    ensures i * 100 / n < 100
  {
    assert i * 100 < n * 100;
  }

  /** `getProgressPercentage` before the file at index `i` of `n`: the
      whole percentage `i * 100 / n`, padded to two digits. */
  function ProgressLabel(i: nat, n: nat): (r: string)
    requires i < n
    ensures forall j :: 0 <= j < |r| ==> IsDigit(r[j])
    ensures DigitsValue(r) == i * 100 / n
    ensures |r| == 2
    ensures r[0] == '0' <==> i * 100 / n < 10
  {
    PercentBelowHundred(i, n);
    PaddedPercent(i * 100 / n)
  }

  /** The jobs of a run: every file in list order, each with its lines. */
  function RunJobs(paths: seq<string>, config: Config, host: Host): seq<Job>
    decreases |paths|
  {
    if |paths| == 0 then []
    else
      var path := paths[|paths| - 1];
      RunJobs(paths[..|paths| - 1], config, host) + FileJobs(path, LinesOf(Eol(config), host.read(path)), config.metrics)
  }

  /** One more file of a run: its jobs follow those of the files before. */
  lemma RunStep(init: State, paths: seq<string>, k: nat, config: Config, host: Host, engine: Engine)
    requires k < |paths|
    ensures Replay(init, RunJobs(paths[..k + 1], config, host), config, engine)
         == Replay(Replay(init, RunJobs(paths[..k], config, host), config, engine),
                   FileJobs(paths[k], LinesOf(Eol(config), host.read(paths[k])), config.metrics), config, engine)
  {
    assert paths[..k + 1][..k] == paths[..k];
    ReplayConcat(init, RunJobs(paths[..k], config, host),
                 FileJobs(paths[k], LinesOf(Eol(config), host.read(paths[k])), config.metrics), config, engine);
  }

  /** The paths of the collected files, in array order. */
  function Paths(files: Assoc<FileKey, string>): (r: seq<string>)
    ensures |r| == |files|
    ensures forall i :: 0 <= i < |files| ==> r[i] == files[i].1
  {
    seq(|files|, i requires 0 <= i < |files| => files[i].1)
  }

  /** The progress messages of a run: each file's path with the label
      computed before it is analysed. */
  function ProgressLog(files: Assoc<FileKey, string>): (r: seq<(string, string)>)
    ensures |r| == |files|
  {
    seq(|files|, i requires 0 <= i < |files| => (files[i].1, ProgressLabel(i, |files|)))
  }

  /** `Analyzer::run`: a fresh, empty store; the files in array order, each
      announced with its progress label; every file counts as processed,
      because an unreadable one is read as empty contents rather than an
      error. The duplicate table is the one left by earlier runs. */
  method Run(files: Assoc<FileKey, string>, config: Config, host: Host, engine: Engine, table: Table)
    returns (st: State, log: seq<(string, string)>, processed: nat)
    ensures st == Replay(FindDuplicates.State([], table), RunJobs(Paths(files), config, host), config, engine)
    ensures |log| == |files|
    ensures forall i :: 0 <= i < |files| ==> log[i] == (files[i].1, ProgressLabel(i, |files|))
    ensures processed == |files|
  {
    var paths := Paths(files);
    var init := FindDuplicates.State([], table);
    st := init;
    processed := 0;
    while processed < |files|
      invariant processed <= |files|
      invariant st == Replay(init, RunJobs(paths[..processed], config, host), config, engine)
    {
      var path := paths[processed];
      var lines := LinesOf(Eol(config), host.read(path));
      st := AnalyzeLines(st, path, lines, config, engine);
      RunStep(init, paths, processed, config, host, engine);
      processed := processed + 1;
    }
    assert paths[..processed] == paths;
    log := ProgressLog(files);
  }

  // ---------------------------------------------------------------------
  // Properties of a run
  // ---------------------------------------------------------------------

  /** The jobs whose metric type resolves to a strategy. */
  function Resolved(jobs: seq<Job>, config: Config): (r: seq<Job>)
    ensures |r| <= |jobs|
    ensures forall i :: 0 <= i < |r| ==> Resolve(config.featureMap, r[i].metric.kind).Some?
    decreases |jobs|
  {
    if |jobs| == 0 then []
    else
      var last := jobs[|jobs| - 1];
      Resolved(jobs[..|jobs| - 1], config) + (if Resolve(config.featureMap, last.metric.kind).Some? then [last] else [])
  }

  /** A metric whose type names no strategy is skipped without any effect:
      the run is the run of the other jobs alone. */
  lemma {:induction false} SkippedMetricsIrrelevant(st: State, jobs: seq<Job>, config: Config, engine: Engine)
    ensures Replay(st, jobs, config, engine) == Replay(st, Resolved(jobs, config), config, engine)
    decreases |jobs|
  {
    if |jobs| > 0 {
      var init := jobs[..|jobs| - 1];
      var last := jobs[|jobs| - 1];
      SkippedMetricsIrrelevant(st, init, config, engine);
      if Resolve(config.featureMap, last.metric.kind).Some? {
        ReplayConcat(st, Resolved(init, config), [last], config, engine);
        assert [last][..0] == [];
      } else {
        assert Resolved(jobs, config) == Resolved(init, config) + [];
        assert Resolved(init, config) + [] == Resolved(init, config);
      }
    }
  }

  /** The duplicate table only grows over a run: no fingerprint is lost,
      and the lines of each are only extended. */
  lemma {:induction false} TableGrowsOverRun(st: State, jobs: seq<Job>, config: Config, engine: Engine)
    ensures var r := Replay(st, jobs, config, engine);
      forall d :: d in st.table ==> d in r.table && st.table[d] <= r.table[d]
    decreases |jobs|
  {
    if |jobs| > 0 {
      var init := jobs[..|jobs| - 1];
      var last := jobs[|jobs| - 1];
      TableGrowsOverRun(st, init, config, engine);
      var mid := Replay(st, init, config, engine);
      FindDuplicates.TableGrows(mid, last.line, last.metric, config.metrics, last.path, engine);
    }
  }

  /** No metric of the run is a duplicate metric. */
  predicate CountingOnly(jobs: seq<Job>, config: Config) {
    forall i :: 0 <= i < |jobs| ==> Resolve(config.featureMap, jobs[i].metric.kind) != Some(Duplicates)
  }

  /** Without duplicate metrics the table is left alone, and the counts do
      not depend on what earlier runs left in it. */
  lemma {:induction false} CountingIgnoresTable(store: Store, t1: Table, t2: Table, jobs: seq<Job>,
                                                config: Config, engine: Engine)
    requires CountingOnly(jobs, config)
    ensures Replay(FindDuplicates.State(store, t1), jobs, config, engine).table == t1
    ensures Replay(FindDuplicates.State(store, t1), jobs, config, engine).store
         == Replay(FindDuplicates.State(store, t2), jobs, config, engine).store
    decreases |jobs|
  {
    if |jobs| > 0 {
      var init := jobs[..|jobs| - 1];
      assert CountingOnly(init, config) by {
        forall i | 0 <= i < |init|
          ensures Resolve(config.featureMap, init[i].metric.kind) != Some(Duplicates)
        {
          assert init[i] == jobs[i];
        }
      }
      CountingIgnoresTable(store, t1, t2, init, config, engine);
    }
  }

  // ---------------------------------------------------------------------
  // Collecting the files (`addFile`)
  // ---------------------------------------------------------------------

  /** The key of an entry of `$this->files`: an integer from `[] =`, or the
      digest of the path for a file found in a directory. */
  datatype FileKey = Appended(index: nat) | Hashed(digest: Digest)

  /** PHP's next integer key: the number of entries appended so far. */
  function NextIndex(files: Assoc<FileKey, string>): nat
    decreases |files|
  {
    if |files| == 0 then 0
    else NextIndex(files[..|files| - 1]) + (if files[|files| - 1].0.Appended? then 1 else 0)
  }

  /** `$this->files[] = new File($path)`. */
  function Append(files: Assoc<FileKey, string>, path: string): (r: Assoc<FileKey, string>)
    ensures Keys(r) == Keys(files) + [Appended(NextIndex(files))]
    ensures Paths(r) == Paths(files) + [path]
  {
    var r := files + [(Appended(NextIndex(files)), path)];
    KeysAppend(files, (Appended(NextIndex(files)), path));
    r
  }

  /** The keys of an array with one more entry at the end. */
  lemma {:induction false} KeysAppend<K, V>(m: Assoc<K, V>, e: (K, V))
    ensures Keys(m + [e]) == Keys(m) + [e.0]
    decreases |m|
  {
    if |m| > 0 {
      KeysAppend(m[1..], e);
      assert (m + [e])[1..] == m[1..] + [e];
    } else {
      assert m + [e] == [e];
    }
  }

  /** `File::getFilesFromDirectory`: each file found is stored under the
      digest of its path, so a file found twice keeps its first position. */
  function AddListing(files: Assoc<FileKey, string>, children: seq<string>, engine: Engine): (r: Assoc<FileKey, string>)
    ensures Keys(files) <= Keys(r)
    ensures forall c :: c in children ==> Hashed(engine.md5(c)) in Keys(r)
    ensures forall k :: k in Keys(r) ==> k in Keys(files) || exists c :: c in children && k == Hashed(engine.md5(c))
    ensures forall k :: (forall c :: c in children ==> k != Hashed(engine.md5(c))) ==> Find(r, k) == Find(files, k)
    ensures |children| > 0 ==>
      Find(r, Hashed(engine.md5(children[|children| - 1]))) == Some(children[|children| - 1])
    decreases |children|
  {
    if |children| == 0 then files
    else
      var next := Put(files, Hashed(engine.md5(children[0])), children[0]);
      var r := AddListing(next, children[1..], engine);
      assert children == [children[0]] + children[1..];
      ListingHas(files, next, r, children[0], children[1..], children, engine);
      ListingOnly(files, next, r, children[0], children[1..], children, engine);
      ListingKeeps(files, next, r, children[0], children[1..], children, engine);
      ListingLast(files, next, r, children[0], children[1..], children, engine);
      r
  }

  // One file of the listing, then the rest: what the rest promises of
  // `next` carries over to `files`, one ensures of `AddListing` at a time.

  lemma ListingHas(files: Assoc<FileKey, string>, next: Assoc<FileKey, string>, r: Assoc<FileKey, string>,
                   c: string, rest: seq<string>, children: seq<string>, engine: Engine)
    requires next == Put(files, Hashed(engine.md5(c)), c) && children == [c] + rest
    requires Keys(next) <= Keys(r)
    requires forall x :: x in rest ==> Hashed(engine.md5(x)) in Keys(r)
    ensures Keys(files) <= Keys(r)
    ensures forall x :: x in children ==> Hashed(engine.md5(x)) in Keys(r)
  {
    var key := Hashed(engine.md5(c));
    PutKeys(files, key, c);
    assert key in Keys(r) by {
      var i :| 0 <= i < |Keys(next)| && Keys(next)[i] == key;
      assert Keys(r)[i] == key;
    }
    assert forall x :: x in children ==> x == c || x in rest;
  }

  lemma ListingOnly(files: Assoc<FileKey, string>, next: Assoc<FileKey, string>, r: Assoc<FileKey, string>,
                    c: string, rest: seq<string>, children: seq<string>, engine: Engine)
    requires next == Put(files, Hashed(engine.md5(c)), c) && children == [c] + rest
    requires forall k :: k in Keys(r) ==> k in Keys(next) || exists x :: x in rest && k == Hashed(engine.md5(x))
    ensures forall k :: k in Keys(r) ==> k in Keys(files) || exists x :: x in children && k == Hashed(engine.md5(x))
  {
    PutKeys(files, Hashed(engine.md5(c)), c);
    forall k | k in Keys(r)
      ensures k in Keys(files) || exists x :: x in children && k == Hashed(engine.md5(x))
    {
      if k !in Keys(next) {
        var x :| x in rest && k == Hashed(engine.md5(x));
        assert x in children;
      } else if k !in Keys(files) {
        assert c in children;
      }
    }
  }

  lemma ListingKeeps(files: Assoc<FileKey, string>, next: Assoc<FileKey, string>, r: Assoc<FileKey, string>,
                     c: string, rest: seq<string>, children: seq<string>, engine: Engine)
    requires next == Put(files, Hashed(engine.md5(c)), c) && children == [c] + rest
    requires forall k :: (forall x :: x in rest ==> k != Hashed(engine.md5(x))) ==> Find(r, k) == Find(next, k)
    ensures forall k :: (forall x :: x in children ==> k != Hashed(engine.md5(x))) ==> Find(r, k) == Find(files, k)
  {
    forall k | forall x :: x in children ==> k != Hashed(engine.md5(x))
      ensures Find(r, k) == Find(files, k)
    {
      assert c in children;
      assert forall x :: x in rest ==> x in children;
    }
  }

  lemma ListingLast(files: Assoc<FileKey, string>, next: Assoc<FileKey, string>, r: Assoc<FileKey, string>,
                    c: string, rest: seq<string>, children: seq<string>, engine: Engine)
    requires next == Put(files, Hashed(engine.md5(c)), c) && children == [c] + rest
    requires |rest| > 0 ==> Find(r, Hashed(engine.md5(rest[|rest| - 1]))) == Some(rest[|rest| - 1])
    requires |rest| == 0 ==> r == next
    ensures Find(r, Hashed(engine.md5(children[|children| - 1]))) == Some(children[|children| - 1])
  {
    if |rest| > 0 {
      assert children[|children| - 1] == rest[|rest| - 1];
    }
  }

  /** `addFile` with a string: a readable directory contributes its files,
      anything else is appended as a file. */
  function AddPath(files: Assoc<FileKey, string>, path: string, host: Host, engine: Engine): (r: Assoc<FileKey, string>)
    ensures Keys(files) <= Keys(r)
    ensures !host.isDirectory(path) ==> Paths(r) == Paths(files) + [path]
  {
    if host.isDirectory(path) then AddListing(files, host.listDirectory(path), engine)
    else Append(files, path)
  }

  /** The string items of a list, in order. */
  function StringItems(items: seq<FileArg>): (r: seq<string>)
    ensures |r| <= |items|
    decreases |items|
  {
    if |items| == 0 then []
    else (if items[0].PathArg? then [items[0].path] else []) + StringItems(items[1..])
  }

  /** The loop of `addFile` over an array: only string items are added.
      The test meant to let `File` objects through looks at the array
      itself, which is never a `File`, so `File` objects and nested arrays
      in the list are dropped. */
  function AddEach(files: Assoc<FileKey, string>, items: seq<FileArg>, host: Host, engine: Engine): (r: Assoc<FileKey, string>)
    ensures Keys(files) <= Keys(r)
    decreases |items|
  {
    if |items| == 0 then files
    else
      var next := if items[0].PathArg? then AddPath(files, items[0].path, host, engine) else files;
      AddEach(next, items[1..], host, engine)
  }

  /** `addFile` applied to each path in turn. */
  function AddPaths(files: Assoc<FileKey, string>, paths: seq<string>, host: Host, engine: Engine): (r: Assoc<FileKey, string>)
    ensures Keys(files) <= Keys(r)
    decreases |paths|
  {
    if |paths| == 0 then files
    else AddPaths(AddPath(files, paths[0], host, engine), paths[1..], host, engine)
  }

  /** A list adds exactly its string items, in list order, each as
      `addFile` on a string would, directories included. */
  lemma {:induction false} AddEachIsAddPaths(files: Assoc<FileKey, string>, items: seq<FileArg>, host: Host, engine: Engine)
    ensures AddEach(files, items, host, engine) == AddPaths(files, StringItems(items), host, engine)
    decreases |items|
  {
    if |items| > 0 {
      var rest := items[1..];
      if items[0].PathArg? {
        var next := AddPath(files, items[0].path, host, engine);
        AddEachIsAddPaths(next, rest, host, engine);
        var ps := StringItems(items);
        assert ps == [items[0].path] + StringItems(rest);
        assert ps[0] == items[0].path && ps[1..] == StringItems(rest);
      } else {
        AddEachIsAddPaths(files, rest, host, engine);
        assert StringItems(items) == StringItems(rest);
      }
    }
  }

  /** Signalled by `addFile` for an argument of the wrong kind. */
  datatype InvalidFile = InvalidFile

  /** `Analyzer::addFile`. Anything other than a list, a string or a `File`
      is rejected; otherwise entries already collected keep their keys and
      positions. */
  function AddFile(arg: FileArg, files: Assoc<FileKey, string>, host: Host, engine: Engine): (r: Result<Assoc<FileKey, string>, InvalidFile>)
    ensures r.Failure? <==> arg.OtherArg?
    ensures r.Success? ==> Keys(files) <= Keys(r.value)
    ensures arg.FileObject? ==> r == Success(Append(files, arg.path))
  {
    match arg
    case OtherArg => Failure(InvalidFile)
    case PathArg(path) => Success(AddPath(files, path, host, engine))
    case FileObject(path) => Success(Append(files, path))
    case ListArg(items) => Success(AddEach(files, items, host, engine))
  }

  /** With no directories among them, a list's string items are appended
      in list order and everything else in it is dropped. */
  lemma {:induction false} ListOfPlainFiles(files: Assoc<FileKey, string>, items: seq<FileArg>, host: Host, engine: Engine)
    requires forall i :: 0 <= i < |items| && items[i].PathArg? ==> !host.isDirectory(items[i].path)
    ensures Paths(AddEach(files, items, host, engine)) == Paths(files) + StringItems(items)
    decreases |items|
  {
    if |items| == 0 {
      assert Paths(files) + [] == Paths(files);
    } else {
      var rest := items[1..];
      var next := if items[0].PathArg? then AddPath(files, items[0].path, host, engine) else files;
      var head := if items[0].PathArg? then [items[0].path] else [];
      assert Paths(next) == Paths(files) + head;
      forall i | 0 <= i < |rest| && rest[i].PathArg?
        ensures !host.isDirectory(rest[i].path)
      {
        assert rest[i] == items[i + 1];
      }
      ListOfPlainFiles(next, rest, host, engine);
      assert AddEach(files, items, host, engine) == AddEach(next, rest, host, engine);
      assert StringItems(items) == head + StringItems(rest);
      assert Paths(files) + head + StringItems(rest) == Paths(files) + (head + StringItems(rest));
    }
  }
}
