/** The counting strategy (`GetCount`): each line the metric's regex
    matches adds to a counter keyed by the cleaned-up match text. */
module GetCount {
  import opened Wrappers
  import opened Text
  import opened Settings
  import opened Foreign
  import opened ResultStore
  import opened Features
  import opened Assoc

  /** What a successful match hands on: the full match of `preg_match`, or
      the list of all full matches of `preg_match_all` (never empty). */
  datatype Hit = Single(text: string) | All(texts: seq<string>)

  /** The matcher step: `preg_match_all` under `match_all`, `preg_match`
      otherwise. `false` and a count of zero are both "no hit". */
  function Matches(metric: Metric, line: string, engine: Engine): (r: Option<Hit>)
    ensures r.Some? && r.value.All? ==>
      metric.matchAll && engine.pregMatchAll(metric.regex, line) == AllMatches(r.value.texts) && |r.value.texts| > 0
    ensures r.Some? && r.value.Single? ==>
      !metric.matchAll && engine.pregMatch(metric.regex, line) == Matched(r.value.text)
    ensures r.None? <==>
      if metric.matchAll then !(engine.pregMatchAll(metric.regex, line).AllMatches? && |engine.pregMatchAll(metric.regex, line).full| > 0)
      else !engine.pregMatch(metric.regex, line).Matched?
  {
    if metric.matchAll then
      match engine.pregMatchAll(metric.regex, line)
      case AllMatches(full) => if |full| > 0 then Some(All(full)) else None
      case PregAllError => None
    else
      match engine.pregMatch(metric.regex, line)
      case Matched(full) => Some(Single(full))
      case _ => None
  }

  /** The counter slot a single-match hit `full` writes to, as `set`
      normalises its coordinates. */
  ghost function CounterAt(store: Store, metric: Metric, configured: seq<Metric>, full: string): Option<Value>
  {
    SlotAt(store, GroupKey(MetricGroupName(metric, configured)), Sanitize(metric.name),
           Sanitize(CleanMetricKey(full, metric.cleanUp)))
  }

  /** What a single-match hit `full` does to the store: its counter slot
      holds one more than the counter `get` read there (a missing slot
      reads as 0), and every other slot keeps its value. */
  ghost predicate CountedOnce(store: Store, r: Store, metric: Metric, configured: seq<Metric>, full: string)
  {
    var group := MetricGroupName(metric, configured);
    var key := CleanMetricKey(full, metric.cleanUp);
    var G, N, K := GroupKey(group), Sanitize(metric.name), Sanitize(key);
    && CounterAt(r, metric, configured, full) == Some(Count(IntCast(Get(store, group, metric.name, key)) + 1))
    && forall G', N', K' :: (G', N', K') != (G, N, K) ==> SlotAt(r, G', N', K') == SlotAt(store, G', N', K')
  }

  /** The write a single-match hit `full` makes: `get` the counter, add
      one, `set` it back. */
  function CountHit(store: Store, metric: Metric, configured: seq<Metric>, full: string): (r: Store)
    ensures CountedOnce(store, r, metric, configured, full)
  {
    var group := MetricGroupName(metric, configured);
    var key := CleanMetricKey(full, metric.cleanUp);
    Set(store, group, metric.name, key, Count(IntCast(Get(store, group, metric.name, key)) + 1))
  }

  /** `GetCount::processLine`. Outside the metric's files, and without a
      hit, nothing changes. A single match counts once at the slot of the
      cleaned match text. Under `match_all` the key is the list of matches,
      which PHP rejects as an array offset after creating the group and
      metric maps: no slot changes. */
  function ProcessLine(store: Store, line: string, metric: Metric, configured: seq<Metric>,
                       path: string, engine: Engine): (r: Store)
    ensures !IncludeFileInMetric(path, metric.inFiles) ==> r == store
    ensures Matches(metric, line, engine).None? ==> r == store
    ensures (IncludeFileInMetric(path, metric.inFiles) && Matches(metric, line, engine).Some?
      && Matches(metric, line, engine).value.Single?) ==>
      CountedOnce(store, r, metric, configured, Matches(metric, line, engine).value.text)
    ensures Matches(metric, line, engine).Some? && Matches(metric, line, engine).value.All? ==>
      forall G', N', K' :: SlotAt(r, G', N', K') == SlotAt(store, G', N', K')
  {
    var group := MetricGroupName(metric, configured);
    var hit := Matches(metric, line, engine);
    if !IncludeFileInMetric(path, metric.inFiles) || hit.None? then store
    else if hit.value.Single? then
      CountHit(store, metric, configured, hit.value.text)
    else
      Touch(store, group, metric.name)
  }

  /** With a metric name and a cleaned match text that are not PHP-empty, a
      hit turns a missing counter into 1 and a counter `n` into `n + 1`. */
  lemma CountIncrements(store: Store, line: string, metric: Metric, configured: seq<Metric>,
                        path: string, engine: Engine)
    requires IncludeFileInMetric(path, metric.inFiles)
    requires Matches(metric, line, engine).Some? && Matches(metric, line, engine).value.Single?
    requires !PhpEmpty(Sanitize(metric.name))
    requires !PhpEmpty(Sanitize(CleanMetricKey(Matches(metric, line, engine).value.text, metric.cleanUp)))
    ensures var full := Matches(metric, line, engine).value.text;
      var r := ProcessLine(store, line, metric, configured, path, engine);
      && (CounterAt(store, metric, configured, full).None? ==> CounterAt(r, metric, configured, full) == Some(Count(1)))
      && (forall n :: CounterAt(store, metric, configured, full) == Some(Count(n)) ==>
            CounterAt(r, metric, configured, full) == Some(Count(n + 1)))
  {
    var full := Matches(metric, line, engine).value.text;
    var group := MetricGroupName(metric, configured);
    var key := CleanMetricKey(full, metric.cleanUp);
    assert Get(store, group, metric.name, key) == AsGot(CounterAt(store, metric, configured, full));
  }

  /** When the cleaned match text is PHP-empty (`""` or `"0"`), `get`
      returns the whole metric map instead of the slot: the first hit
      writes 1, and every later hit writes 2, however many came before. */
  lemma EmptyKeyCountSticksAtTwo(store: Store, line: string, metric: Metric, configured: seq<Metric>,
                                 path: string, engine: Engine)
    requires IncludeFileInMetric(path, metric.inFiles)
    requires Matches(metric, line, engine).Some? && Matches(metric, line, engine).value.Single?
    requires !PhpEmpty(Sanitize(metric.name))
    requires PhpEmpty(Sanitize(CleanMetricKey(Matches(metric, line, engine).value.text, metric.cleanUp)))
    ensures var full := Matches(metric, line, engine).value.text;
      var r := ProcessLine(store, line, metric, configured, path, engine);
      && (CounterAt(r, metric, configured, full) == Some(Count(1)) || CounterAt(r, metric, configured, full) == Some(Count(2)))
      && (CounterAt(store, metric, configured, full).Some? ==> CounterAt(r, metric, configured, full) == Some(Count(2)))
  {
    var full := Matches(metric, line, engine).value.text;
    var group := MetricGroupName(metric, configured);
    var key := CleanMetricKey(full, metric.cleanUp);
    var G, N := GroupKey(group), Sanitize(metric.name);
    var got := Get(store, group, metric.name, key);
    assert got == (match MetricAt(store, G, N) case None => Null case Some(mm) => WholeMetric(mm));
    if CounterAt(store, metric, configured, full).Some? {
      var mm := Find(Find(store, G).value, N).value;
      assert Find(mm, Sanitize(key)).Some?;
      assert got == WholeMetric(mm);
    }
  }

  /** A regex engine whose every single match is the text `"0"`. */
  function ZeroEngine(): Engine
  {
    Engine((p: string, s: string) => Matched("0"),
           (p: string, s: string) => AllMatches([]),
           (p: string, s: string) => Some(s),
           (s: string) => "00000000000000000000000000000000")
  }

  /** A counting metric on every file, with no clean-up and no group. */
  function ZeroMetric(): Metric
  {
    Metric("zeros", "count", "/0/", false, None, None, None, None, Given("*"), None)
  }

  /** Three lines that each match `"0"` leave the counter for `"0"` at 2,
      not 3. */
  lemma ZeroKeyCountSaturates()
    ensures var once := ProcessLine([], "a", ZeroMetric(), [ZeroMetric()], "log", ZeroEngine());
      var twice := ProcessLine(once, "b", ZeroMetric(), [ZeroMetric()], "log", ZeroEngine());
      var thrice := ProcessLine(twice, "c", ZeroMetric(), [ZeroMetric()], "log", ZeroEngine());
      CounterAt(thrice, ZeroMetric(), [ZeroMetric()], "0") == Some(Count(2))
  {
    var m := ZeroMetric();
    var e := ZeroEngine();
    assert forall i :: 0 <= i < |"zeros"| ==> !Unsafe("zeros"[i]);
    assert forall i :: 0 <= i < |"0"| ==> !Unsafe("0"[i]);
    assert Matches(m, "a", e) == Some(Single("0"));
    assert Matches(m, "b", e) == Some(Single("0"));
    assert Matches(m, "c", e) == Some(Single("0"));
    var once := ProcessLine([], "a", m, [m], "log", e);
    EmptyKeyCountSticksAtTwo([], "a", m, [m], "log", e);
    var twice := ProcessLine(once, "b", m, [m], "log", e);
    EmptyKeyCountSticksAtTwo(once, "b", m, [m], "log", e);
    EmptyKeyCountSticksAtTwo(twice, "c", m, [m], "log", e);
  }
}
