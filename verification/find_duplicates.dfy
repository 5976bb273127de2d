/** The duplicate-finding strategy (`FindDuplicates`): a line whose
    fingerprint (the digest of the line with the `ignore` pattern removed)
    was seen before, and that passes the `match` filter, is filed under the
    digest of its cleaned fingerprint text together with the first line that
    had the same fingerprint. */
module FindDuplicates {
  import opened Wrappers
  import opened Text
  import opened Settings
  import opened Foreign
  import opened ResultStore
  import opened Features

  /** The lines seen with one fingerprint, the first one first; never empty. */
  type Seen = s: seq<string> | |s| > 0 witness [""]

  /** `FindDuplicates::$cleanedUpLines`. The array is static in the source:
      every metric of this kind reads and writes the same table, and it
      outlives the run that filled it. The model passes it in and out. */
  type Table = map<Digest, Seen>

  datatype State = State(store: Store, table: Table)

  /** `cleanUpLine`: the line with every match of `ignore` replaced by the
      empty string, or the line itself without `ignore`. A failing
      replacement gives PHP's `null`, which `md5` and `str_replace` read as
      the empty string. */
  function CleanUpLine(line: string, metric: Metric, engine: Engine): (r: string)
    ensures metric.ignore.None? ==> r == line
    ensures metric.ignore.Some? && engine.pregReplace(metric.ignore.value, line).None? ==> r == ""
    ensures metric.ignore.Some? && engine.pregReplace(metric.ignore.value, line).Some? ==>
      r == engine.pregReplace(metric.ignore.value, line).value
  {
    match metric.ignore
    case None => line
    case Some(pattern) => engine.pregReplace(pattern, line).GetOr("")
  }

  /** Some pattern of the list matches the line. */
  predicate AnyMatches(patterns: seq<string>, line: string, engine: Engine)
    decreases |patterns|
  {
    |patterns| > 0 && (engine.pregMatch(patterns[0], line).Matched? || AnyMatches(patterns[1..], line, engine))
  }

  /** The scan of `match` stops at the first pattern that matches; the line
      passes exactly when one of the patterns matches it. */
  lemma {:induction false} AnyMatchesIff(patterns: seq<string>, line: string, engine: Engine)
    ensures AnyMatches(patterns, line, engine) <==>
      exists i :: 0 <= i < |patterns| && engine.pregMatch(patterns[i], line).Matched?
    decreases |patterns|
  {
    if |patterns| > 0 {
      AnyMatchesIff(patterns[1..], line, engine);
      if engine.pregMatch(patterns[0], line).Matched? {
        assert exists i :: 0 <= i < |patterns| && engine.pregMatch(patterns[i], line).Matched?;
      }
      if exists i :: 0 <= i < |patterns| && engine.pregMatch(patterns[i], line).Matched? {
        var i :| 0 <= i < |patterns| && engine.pregMatch(patterns[i], line).Matched?;
        if i > 0 {
          assert patterns[1..][i - 1] == patterns[i];
        }
      }
    }
  }

  /** `match`: without a `match` entry every line passes. A pattern that
      fails to compile does not match. */
  predicate PassesFilter(line: string, metric: Metric, engine: Engine) {
    match metric.matchAny
    case None => true
    case Some(patterns) => AnyMatches(patterns, line, engine)
  }

  /** The table key of a line. */
  function Fingerprint(line: string, metric: Metric, engine: Engine): Digest {
    engine.md5(CleanUpLine(line, metric, engine))
  }

  /** The result key a duplicate is filed under: the digest of the cleaned
      fingerprint text. */
  function DuplicateKey(line: string, metric: Metric, engine: Engine): Digest {
    engine.md5(CleanMetricKey(CleanUpLine(line, metric, engine), metric.cleanUp))
  }

  /** A digest is a key the store keeps as it is: it has no character for
      `trim` to strip and is never PHP-empty. */
  lemma DigestKeySafe(d: Digest)
    ensures Sanitize(d) == d
    ensures !PhpEmpty(d)
  {
    assert forall i :: 0 <= i < |d| ==> !Unsafe(d[i]);
  }

  /** The list written back for a duplicate: what `get` returned, cast to an
      array; the first line seen with the fingerprint in front when that
      array is empty; the new line at the end. An array the model does not
      track element-wise only grows by one. */
  function Grown(got: Got, first: string, line: string): (r: Value)
    ensures got == Null ==> r == Lines([first, line])
    ensures got.Slot? && got.value.Lines? && |got.value.items| > 0 ==> r == Lines(got.value.items + [line])
    ensures r.Lines? ==> |r.items| >= 2 && r.items[|r.items| - 1] == line
  {
    match ListCast(got)
    case Known(items) => if |items| < 1 then Lines([first, line]) else Lines(items + [line])
    case Opaque(size) => Untracked(size + 1)
  }

  /** What filing a duplicate does to the store: the slot of its key holds
      the grown list, and every other slot keeps its value. */
  ghost predicate Filed(store: Store, r: Store, group: string, name: string, key: Digest, first: string, line: string)
  {
    && SlotAt(r, GroupKey(group), Sanitize(name), key) == Some(Grown(Get(store, group, name, key), first, line))
    && forall G, N, K :: (G, N, K) != (GroupKey(group), Sanitize(name), key) ==> SlotAt(r, G, N, K) == SlotAt(store, G, N, K)
  }

  /** The write for a duplicate: read the list, grow it, write it back. */
  function FileDuplicate(store: Store, group: string, name: string, key: Digest, first: string, line: string): (r: Store)
    ensures Filed(store, r, group, name, key, first, line)
  {
    DigestKeySafe(key);
    Set(store, group, name, key, Grown(Get(store, group, name, key), first, line))
  }

  /** The table after a line that is not filed as a duplicate: the line is
      appended to the lines of its fingerprint. */
  function Remember(table: Table, fp: Digest, line: string): (r: Table)
    ensures fp in r && r[fp][|r[fp]| - 1] == line
    ensures fp in table ==> r[fp] == table[fp] + [line]
    ensures fp !in table ==> r[fp] == [line]
    ensures forall d :: d != fp ==> (d in r <==> d in table) && (d in table ==> r[d] == table[d])
  {
    table[fp := if fp in table then table[fp] + [line] else [line]]
  }

  /** `FindDuplicates::processLine`. A line of a file outside the metric,
      and an exact repeat of the first line seen with its fingerprint,
      change nothing. A line whose fingerprint is new, or that fails the
      `match` filter, is remembered in the table. Any other line is filed as
      a duplicate and leaves the table alone. */
  function ProcessLine(st: State, line: string, metric: Metric, configured: seq<Metric>,
                       path: string, engine: Engine): (r: State)
    ensures !IncludeFileInMetric(path, metric.inFiles) ==> r == st
    ensures IncludeFileInMetric(path, metric.inFiles) ==> Fingerprint(line, metric, engine) in r.table
    ensures r.table == st.table || r.store == st.store
    ensures r.store != st.store ==>
      var fp := Fingerprint(line, metric, engine);
      fp in st.table && PassesFilter(line, metric, engine) && st.table[fp][0] != line
  {
    if !IncludeFileInMetric(path, metric.inFiles) then st
    else
      var fp := Fingerprint(line, metric, engine);
      if fp in st.table && PassesFilter(line, metric, engine) then
        var first := st.table[fp][0];
        if first != line then
          State(FileDuplicate(st.store, MetricGroupName(metric, configured), metric.name,
                              DuplicateKey(line, metric, engine), first, line), st.table)
        else st
      else
        State(st.store, Remember(st.table, fp, line))
  }

  /** The table only grows: every fingerprint stays, and its lines are
      extended at the end, never rewritten. */
  lemma TableGrows(st: State, line: string, metric: Metric, configured: seq<Metric>, path: string, engine: Engine)
    ensures var r := ProcessLine(st, line, metric, configured, path, engine);
      forall d :: d in st.table ==> d in r.table && st.table[d] <= r.table[d]
  {
  }

  /** A line whose fingerprint is new, or that fails the filter, is
      appended to the table under its fingerprint and the results are
      untouched. */
  lemma RememberedWhenNotDuplicate(st: State, line: string, metric: Metric, configured: seq<Metric>,
                                   path: string, engine: Engine)
    requires IncludeFileInMetric(path, metric.inFiles)
    requires Fingerprint(line, metric, engine) !in st.table || !PassesFilter(line, metric, engine)
    ensures var r := ProcessLine(st, line, metric, configured, path, engine);
      r.store == st.store && r.table == Remember(st.table, Fingerprint(line, metric, engine), line)
  {
  }

  /** A line equal to the first line seen with its fingerprint is dropped,
      even though it is a duplicate. */
  lemma FirstLineRepeatIgnored(st: State, line: string, metric: Metric, configured: seq<Metric>,
                               path: string, engine: Engine)
    requires Fingerprint(line, metric, engine) in st.table && PassesFilter(line, metric, engine)
    requires st.table[Fingerprint(line, metric, engine)][0] == line
    ensures ProcessLine(st, line, metric, configured, path, engine) == st
  {
  }

  /** A duplicate is filed under the digest of its cleaned fingerprint
      text: a first duplicate starts the list with the first line seen and
      itself, a later one extends the list. Other slots and the table are
      unchanged. */
  lemma DuplicateFiled(st: State, line: string, metric: Metric, configured: seq<Metric>,
                       path: string, engine: Engine)
    requires IncludeFileInMetric(path, metric.inFiles)
    requires Fingerprint(line, metric, engine) in st.table && PassesFilter(line, metric, engine)
    requires st.table[Fingerprint(line, metric, engine)][0] != line
    requires !PhpEmpty(Sanitize(metric.name))
    ensures var r := ProcessLine(st, line, metric, configured, path, engine);
      var first := st.table[Fingerprint(line, metric, engine)][0];
      var G, N, K := GroupKey(MetricGroupName(metric, configured)), Sanitize(metric.name), DuplicateKey(line, metric, engine);
      && r.table == st.table
      && (SlotAt(st.store, G, N, K).None? ==> SlotAt(r.store, G, N, K) == Some(Lines([first, line])))
      && (forall items :: SlotAt(st.store, G, N, K) == Some(Lines(items)) && |items| > 0 ==>
            SlotAt(r.store, G, N, K) == Some(Lines(items + [line])))
      && (forall G', N', K' :: (G', N', K') != (G, N, K) ==> SlotAt(r.store, G', N', K') == SlotAt(st.store, G', N', K'))
  {
    var group := MetricGroupName(metric, configured);
    var key := DuplicateKey(line, metric, engine);
    DigestKeySafe(key);
    assert Get(st.store, group, metric.name, key) == AsGot(SlotAt(st.store, GroupKey(group), Sanitize(metric.name), key));
  }

  /** A later duplicate extends the list already filed under its key. */
  lemma DuplicateExtends(st: State, line: string, metric: Metric, configured: seq<Metric>,
                         path: string, engine: Engine, items: seq<string>)
    requires IncludeFileInMetric(path, metric.inFiles)
    requires Fingerprint(line, metric, engine) in st.table && PassesFilter(line, metric, engine)
    requires st.table[Fingerprint(line, metric, engine)][0] != line
    requires !PhpEmpty(Sanitize(metric.name)) && |items| > 0
    requires SlotAt(st.store, GroupKey(MetricGroupName(metric, configured)), Sanitize(metric.name),
                    DuplicateKey(line, metric, engine)) == Some(Lines(items))
    ensures var r := ProcessLine(st, line, metric, configured, path, engine);
      SlotAt(r.store, GroupKey(MetricGroupName(metric, configured)), Sanitize(metric.name),
             DuplicateKey(line, metric, engine)) == Some(Lines(items + [line]))
  {
    DuplicateFiled(st, line, metric, configured, path, engine);
  }

  // ---------------------------------------------------------------------
  // Runs where every line has the same fingerprint
  // ---------------------------------------------------------------------

  const Zeros: Digest := "00000000000000000000000000000000"

  /** An engine whose digest maps every text to the same value, so every
      line has the same fingerprint and the same key. */
  function SameDigestEngine(): Engine
  {
    Engine((p: string, s: string) => NoMatch,
           (p: string, s: string) => AllMatches([]),
           (p: string, s: string) => Some(s),
           (s: string) => Zeros)
  }

  /** A duplicate metric on every file, without filters or groups. */
  function DuplicateMetric(name: string): Metric
  {
    Metric(name, "FindDuplicates", "", false, None, None, None, None, Given("*"), None)
  }

  /** A metric name the store keeps as it is. */
  predicate PlainName(name: string) {
    !PhpEmpty(name) && forall i :: 0 <= i < |name| ==> !Unsafe(name[i])
  }

  const Fresh: State := State([], map[])

  /** Running `a`, `a`, `b` with `a != b`: the repeat of the first line is
      not filed, so the list holds `a` and `b` once each. */
  lemma RepeatOfFirstLineDropped(a: string, b: string, name: string)
    requires a != b && PlainName(name)
    ensures var m := DuplicateMetric(name);
      var e := SameDigestEngine();
      var s1 := ProcessLine(Fresh, a, m, [m], "log", e);
      var s2 := ProcessLine(s1, a, m, [m], "log", e);
      var s3 := ProcessLine(s2, b, m, [m], "log", e);
      SlotAt(s3.store, DefaultGroup, name, Zeros) == Some(Lines([a, b]))
  {
    var m := DuplicateMetric(name);
    var e := SameDigestEngine();
    var s1 := ProcessLine(Fresh, a, m, [m], "log", e);
    assert s1 == State([], map[Zeros := [a]]);
    FirstLineRepeatIgnored(s1, a, m, [m], "log", e);
    DuplicateFiled(s1, b, m, [m], "log", e);
  }

  /** After `b` and then `a`, the list holds both. */
  lemma SecondLineFiled(a: string, b: string, name: string)
    requires a != b && PlainName(name)
    ensures var m := DuplicateMetric(name);
      var e := SameDigestEngine();
      var s2 := ProcessLine(ProcessLine(Fresh, b, m, [m], "log", e), a, m, [m], "log", e);
      s2.table == map[Zeros := [b]] && SlotAt(s2.store, DefaultGroup, name, Zeros) == Some(Lines([b, a]))
  {
    var m := DuplicateMetric(name);
    var e := SameDigestEngine();
    var s1 := ProcessLine(Fresh, b, m, [m], "log", e);
    assert s1 == State([], map[Zeros := [b]]);
    DuplicateFiled(s1, a, m, [m], "log", e);
  }

  /** Running `b`, `a`, `a` with `a != b`: a repeat of a later line is filed
      again, so the list holds `a` twice. Which line came first decides. */
  lemma RepeatOfLaterLineFiled(a: string, b: string, name: string)
    requires a != b && PlainName(name)
    ensures var m := DuplicateMetric(name);
      var e := SameDigestEngine();
      var s1 := ProcessLine(Fresh, b, m, [m], "log", e);
      var s2 := ProcessLine(s1, a, m, [m], "log", e);
      var s3 := ProcessLine(s2, a, m, [m], "log", e);
      SlotAt(s3.store, DefaultGroup, name, Zeros) == Some(Lines([b, a, a]))
  {
    var m := DuplicateMetric(name);
    var e := SameDigestEngine();
    SecondLineFiled(a, b, name);
    var s2 := ProcessLine(ProcessLine(Fresh, b, m, [m], "log", e), a, m, [m], "log", e);
    DuplicateExtends(s2, a, m, [m], "log", e, [b, a]);
    assert [b, a] + [a] == [b, a, a];
  }

  /** The table is shared: a line seen under one metric makes a different
      line under another metric a duplicate, filed with the first metric's
      line. */
  lemma TableSharedAcrossMetrics(a: string, b: string, one: string, two: string)
    requires a != b && PlainName(one) && PlainName(two)
    ensures var m1 := DuplicateMetric(one);
      var m2 := DuplicateMetric(two);
      var e := SameDigestEngine();
      var s1 := ProcessLine(Fresh, a, m1, [m1, m2], "log", e);
      var s2 := ProcessLine(s1, b, m2, [m1, m2], "log", e);
      SlotAt(s2.store, DefaultGroup, two, Zeros) == Some(Lines([a, b]))
  {
    var m1 := DuplicateMetric(one);
    var m2 := DuplicateMetric(two);
    var e := SameDigestEngine();
    var s1 := ProcessLine(Fresh, a, m1, [m1, m2], "log", e);
    assert s1 == State([], map[Zeros := [a]]);
    DuplicateFiled(s1, b, m2, [m1, m2], "log", e);
  }
}
