/** The helpers every line strategy shares (`Feature`): the key clean-up,
    the in-files filter and the group resolver. */
module Features {
  import opened Wrappers
  import opened Text
  import opened Settings

  /** `cleanMetricKey`: without `clean_up` the key is returned as it is;
      with it, every occurrence of each listed substring is replaced by the
      empty string, one substring after the other in list order. The key
      never gets longer. */
  function CleanMetricKey(key: string, cleanUp: Option<seq<string>>): (r: string)
    ensures cleanUp.None? ==> r == key
    ensures |r| <= |key|
  {
    match cleanUp
    case None => key
    case Some(parts) => RemoveEach(key, parts)
  }

  /** The clean-up only deletes characters: what is left of the key is a
      subsequence of it. */
  lemma CleanKeySubsequence(key: string, cleanUp: Option<seq<string>>)
    ensures IsSubsequence(CleanMetricKey(key, cleanUp), key)
  {
    match cleanUp
    case None => SubsequenceRefl(key);
    case Some(parts) => RemoveEachSubsequence(key, parts);
  }

  /** With one substring to remove, the cleaned key is what is left between
      its occurrences, glued back together: splitting the key at the
      substring and joining the pieces with nothing in between. */
  lemma CleanKeyJoinsPieces(key: string, part: string)
    requires |part| > 0
    ensures CleanMetricKey(key, Some([part])) == Join(Explode(part, key), "")
  {
    assert [part][1..] == [];
    RemoveAllJoinsPieces(key, part);
  }

  /** A key that does not contain the substring passes through unchanged. */
  lemma CleanKeyWithoutPart(key: string, part: string)
    requires !Occurs(part, key)
    ensures CleanMetricKey(key, Some([part])) == key
  {
    assert [part][1..] == [];
  }

  /** `in_array`: a scan of the list from the front for an equal entry. */
  predicate InArray(needle: string, haystack: seq<string>)
    decreases |haystack|
  {
    |haystack| > 0 && (haystack[0] == needle || InArray(needle, haystack[1..]))
  }

  /** The scan finds the needle exactly when the list holds it. */
  lemma {:induction false} InArrayIff(needle: string, haystack: seq<string>)
    ensures InArray(needle, haystack) <==> needle in haystack
    decreases |haystack|
  {
    if |haystack| > 0 {
      InArrayIff(needle, haystack[1..]);
      assert haystack == [haystack[0]] + haystack[1..];
    }
  }

  /** `includeFileInMetric`: the file is analysed for the metric when
      `in_files` is the string `"*"`, or a list that holds the file's
      path. Any other string, and an absent entry, select nothing. */
  predicate IncludeFileInMetric(path: string, inFiles: InFiles)
  {
    match inFiles
    case Given(pattern) => pattern == "*"
    case Listed(paths) => InArray(path, paths)
    case Unset => false
  }

  /** The filter as a membership test: the wildcard, or a list that holds
      the path. */
  lemma {:induction false} IncludeFileIff(path: string, inFiles: InFiles)
    ensures IncludeFileInMetric(path, inFiles) <==>
      inFiles == Given("*") || (inFiles.Listed? && path in inFiles.paths)
  {
    if inFiles.Listed? {
      InArrayIff(path, inFiles.paths);
    }
  }

  /** The loop of `getMetricGroupName` as written: its test assigns the
      group name to the metric's `name` and then tests the assigned value,
      so the first configured metric ends the loop whenever the group name
      is truthy, whatever that metric is called. */
  function GroupScan(configured: seq<Metric>, group: string): string
  {
    if |configured| == 0 then ""
    else if !PhpEmpty(group) then group
    else GroupScan(configured[1..], group)
  }

  /** `getMetricGroupName`: `group_under` when it is present and not
      PHP-empty and at least one metric is configured; `""` otherwise.
      The configured metrics' names play no part. */
  function MetricGroupName(metric: Metric, configured: seq<Metric>): (r: string)
    ensures r == "" <==> metric.groupUnder.None? || PhpEmpty(metric.groupUnder.value) || |configured| == 0
    ensures r != "" ==> metric.groupUnder == Some(r)
  {
    match metric.groupUnder
    case None => ""
    case Some(group) => if PhpEmpty(group) then "" else GroupScan(configured, group)
  }

  /** The name check never rejects: a metric may be grouped under a name
      that no configured metric carries. */
  lemma GroupNameUnchecked(metric: Metric, configured: seq<Metric>)
    requires metric.groupUnder.Some? && !PhpEmpty(metric.groupUnder.value) && |configured| > 0
    requires forall i :: 0 <= i < |configured| ==> configured[i].name != metric.groupUnder.value
    ensures MetricGroupName(metric, configured) == metric.groupUnder.value
  {
  }
}
