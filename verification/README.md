# general-pattern log analyser — a Dafny model

general-pattern is a PHP tool that reads log files and aggregates what
configured regular expressions find in them. A run has four stages:

- `LogSniffer` checks the configuration.
- `Analyzer` collects the files named in the configuration.
- `Analyzer` then feeds every line of every file through every configured
  metric, in configuration order.
- `LogSniffer` prints the collected `Result` as indented JSON.

There are two kinds of metric:

- `GetCount` counts regex hits per matched text.
- `FindDuplicates` groups lines that become identical once an `ignore`
  pattern is removed. It keeps a static table of the lines it has seen,
  keyed by the md5 digest of the cleaned line.

This project models that core as pure functions over immutable data:

| module | file | models |
|---|---|---|
| `Wrappers` | `wrappers.dfy` | `Option`, `Result` |
| `Assoc` | `assoc.dfy` | PHP ordered arrays as association lists (`$a[$k] = $v` replaces in place or appends) |
| `Text` | `text.dfy` | PHP `empty()` on strings, `str_replace($p, '', $s)`, `explode`/`implode`, decimal digits |
| `Sorting` | `sorting.dfy` | an insertion sort under a caller-supplied order |
| `Foreign` | `foreign.dfy` | the regex engine, `md5` and the file system, as function-valued parameters |
| `Settings` | `settings.dfy` | the decoded configuration: metrics, `in_files`, `sort`, `files`, `feature_map` |
| `ResultStore` | `result_store.dfy` | `Result`: sanitising, `get`, `set`, sort directives, `toArray` |
| `Features` | `feature.dfy` | `Feature`: key clean-up, the in-files filter, the group-name resolver |
| `GetCount` | `get_count.dfy` | `GetCount::processLine` |
| `FindDuplicates` | `find_duplicates.dfy` | `FindDuplicates::processLine`, `cleanUpLine`, `match`, the fingerprint table |
| `Analyzer` | `analyzer.dfy` | `addFile`, `run`, `analyzeFile`, `analyzeLine`, `getProgressPercentage` |
| `LogSniffer` | `log_sniffer.dfy` | the constructor check, `run` + `getResult`, the hand-written `prettyJson` loop |

The state of a run is the pair (store, fingerprint table). It is threaded
through the jobs (file, line, metric) in order. `Analyzer.Replay` is that fold.
The table is an input and an output of `Analyzer.Run` and `LogSniffer.Sniff`,
because in the source it is a static property. It is shared by every
duplicate-finding metric and survives from one run to the next.

The model keeps the source's observable quirks:

- A PHP-empty metric name or key (`""` or `"0"` after sanitising) makes `get`
  return a whole map instead of a slot. So a counter whose key is `"0"` never
  goes past 2.
- `getMetricGroupName` assigns where it means to compare. So any non-empty
  `group_under` is accepted once at least one metric is configured.
- Under `match_all` the key is the list of all matches. PHP refuses it as an
  array offset, so the group and metric maps are created and no count is ever
  stored (`ResultStore.Touch`).
- An unreadable file yields `null` contents, which still give one empty line.
- `toArray` sorts only when the store holds a single group.
- `addFile` tests the list itself, not its element, for being a `File`. So
  `File` objects inside a list are dropped.
- The pretty-printer's one-character lookback treats the `"` in `"\\"` as
  escaped.

## Model

| member | source | states |
|---|---|---|
| `Text.RemoveAll` | src/GeneralPattern/Features/Feature.php:59-61 | removing every occurrence of a part never lengthens the text; an empty part changes nothing; a non-empty part changes the text exactly when it occurs in it |
| `Text.RemoveAllSubsequence` | src/GeneralPattern/Features/Feature.php:60 | what is left after the removal is the original with characters deleted, in order |
| `Text.RemoveAllJoinsPieces` | src/GeneralPattern/Features/Feature.php:60 | replacing a part by `''` equals exploding on the part and joining the pieces with nothing |
| `Text.RemoveEach` | src/GeneralPattern/Result.php:191-194 | removing a list of parts one after the other never lengthens the text, and changes nothing when every part is empty |
| `Text.RemoveEachSubsequence` | src/GeneralPattern/Result.php:194 | removing a list of parts only deletes characters, keeping the order of the rest |
| `Text.ExplodePiecesFree` | src/GeneralPattern/Analyzer.php:132 | no line produced by `explode` contains the delimiter |
| `Text.JoinExplode` | src/GeneralPattern/Analyzer.php:132 | joining the pieces of `explode` with the delimiter gives the text back |
| `Text.ExplodeWithoutDelimiter` | src/GeneralPattern/Analyzer.php:132 | text without the delimiter is one piece |
| `Text.TrailingDelimiter` | src/GeneralPattern/Analyzer.php:132 | a trailing one-character delimiter adds exactly one empty last piece |
| `Text.DecimalRoundTrip` | src/GeneralPattern/Analyzer.php:184-190 | the decimal text of a number reads back as that number |
| `Text.DecimalNoLeadingZero` | src/GeneralPattern/Analyzer.php:186-188 | the decimal text of a positive number has no leading zero |
| `Text.LeadingZeroValue` | src/GeneralPattern/Analyzer.php:186-188 | a `'0'` put in front of digits keeps them digits and keeps their value |
| `Assoc.Put` | src/GeneralPattern/Result.php:82 | after an array assignment the key holds the new value and every other key holds what it held |
| `Assoc.PutKeys` | src/GeneralPattern/Result.php:82 | assigning to an existing key keeps the key order; a new key goes last |
| `Sorting.InsertionSort` | src/GeneralPattern/Result.php:164-170 | the sorted metric is a permutation of its entries |
| `Sorting.InsertionSortSorted` | src/GeneralPattern/Result.php:164-170 | under a total preorder the result is ordered |
| `ResultStore.Sanitize` | src/GeneralPattern/Result.php:189-199 | no backslash or double quote is left; the text never gets longer; text without them is returned unchanged |
| `ResultStore.SanitizeIsDrop` | src/GeneralPattern/Result.php:191-194 | removing `\` and then `"` equals deleting every occurrence of each character |
| `ResultStore.SanitizeKeepsSafe` | src/GeneralPattern/Result.php:191-194 | the result is a subsequence of the input, keeps every other character with its multiplicity, and is strictly shorter when something was removed |
| `ResultStore.SanitizeIdempotent` | src/GeneralPattern/Result.php:189-199 | sanitising twice is sanitising once |
| `ResultStore.DropCounts` | src/GeneralPattern/Result.php:194 | deleting a character removes exactly its occurrences and keeps the count of every other character |
| `ResultStore.GroupKey` | src/GeneralPattern/Result.php:44-50 | the group used is never PHP-empty; it is `Default Metric Group` exactly when the sanitised group is PHP-empty or is that name already; otherwise it is the sanitised group |
| `ResultStore.Get` | src/GeneralPattern/Result.php:42-62 | with a name and a key that are not PHP-empty, `get` returns the slot; with a PHP-empty key, the whole metric map; with a PHP-empty name, the whole group map; missing entries read as null |
| `ResultStore.Set` | src/GeneralPattern/Result.php:72-83 | `set` writes the value at the sanitised (group, name, key) and every other slot keeps its value |
| `ResultStore.SetGroupOrder` | src/GeneralPattern/Result.php:82 | groups stay in first-written order; a new group goes last |
| `ResultStore.GetAfterSet` | src/GeneralPattern/Result.php:42-83 | reading back what `set` wrote, with a name and key that are not PHP-empty, gives the written value |
| `ResultStore.Touch` | src/GeneralPattern/Result.php:82 | a write with a list as key creates the group and metric maps and changes no slot |
| `ResultStore.ListCast` | src/GeneralPattern/Features/FindDuplicates.php:41 | `(array)` of null is the empty list, and of a stored list is that list |
| `ResultStore.PlanOf` | src/GeneralPattern/Result.php:108-130 | by name exactly when `by` is `name`; natural exactly for `natural`, numeric exactly for `number`; descending exactly for `desc` |
| `ResultStore.Directive` | src/GeneralPattern/Result.php:102-140 | the first metric with the name decides: its `sort` gives the plan, no `sort` gives none; no metric with the name gives none |
| `ResultStore.EntryOrderTotal` | src/GeneralPattern/Result.php:161-171 | the entry order chosen by a plan is a total preorder when the collator's comparisons are |
| `ResultStore.SortMetric` | src/GeneralPattern/Result.php:157-175 | a metric is a permutation of its entries; without a plan it keeps insertion order; with a coherent plan it is ordered by it |
| `ResultStore.SortedResults` | src/GeneralPattern/Result.php:147-178 | every group and metric keeps its name and position, and each metric's entries are sorted by that metric's plan |
| `ResultStore.ToArray` | src/GeneralPattern/Result.php:180 | with more than one group the store comes back unsorted; group names and order never change |
| `ResultStore.ToArraySingleGroup` | src/GeneralPattern/Result.php:147-180 | with one group each metric keeps its name and entries, stays in order without a plan, and is sorted under a coherent plan |
| `Features.CleanMetricKey` | src/GeneralPattern/Features/Feature.php:57-64 | without `clean_up` the key is unchanged; with it the key never gets longer |
| `Features.CleanKeySubsequence` | src/GeneralPattern/Features/Feature.php:59-61 | the cleaned key is the key with characters deleted, in order |
| `Features.CleanKeyJoinsPieces` | src/GeneralPattern/Features/Feature.php:60 | cleaning with one part equals exploding the key on it and joining with nothing |
| `Features.CleanKeyWithoutPart` | src/GeneralPattern/Features/Feature.php:59-63 | a key without the part is unchanged |
| `Features.InArrayIff` | src/GeneralPattern/Features/Feature.php:80 | the front-to-back scan of `in_array` finds the path exactly when the list holds it |
| `Features.IncludeFileIff` | src/GeneralPattern/Features/Feature.php:76-82 | a file is included exactly when `in_files` is `*` or a list holding its path; any other string or an absent entry selects nothing |
| `Features.MetricGroupName` | src/GeneralPattern/Features/Feature.php:90-107 | the group is `''` exactly when `group_under` is absent or PHP-empty or no metric is configured; otherwise it is `group_under`, named by a metric or not |
| `Features.GroupNameUnchecked` | src/GeneralPattern/Features/Feature.php:96-100 | a `group_under` that names no configured metric is still returned |
| `GetCount.Matches` | src/GeneralPattern/Features/GetCount.php:29-37 | there is a hit exactly when the matcher reports at least one match; in `match_all` mode the hit carries every full match the matcher reported |
| `GetCount.CountHit` | src/GeneralPattern/Features/GetCount.php:38-48 | a single hit stores one more than the `(int)` of what `get` reads at the cleaned key, and changes no other slot |
| `GetCount.ProcessLine` | src/GeneralPattern/Features/GetCount.php:24-51 | an excluded file or no hit leaves the store unchanged; a `match_all` hit stores no count |
| `GetCount.CountIncrements` | src/GeneralPattern/Features/GetCount.php:38-48 | with a name and a cleaned key that are not PHP-empty, a missing counter becomes 1 and a counter `n` becomes `n + 1` |
| `GetCount.EmptyKeyCountSticksAtTwo` | src/GeneralPattern/Features/GetCount.php:38-48 | with a PHP-empty cleaned key the counter becomes 1 or 2, and stays 2 once it exists |
| `GetCount.ZeroKeyCountSaturates` | src/GeneralPattern/Features/GetCount.php:24-51 | three hits on the text `"0"` leave its counter at 2 |
| `FindDuplicates.CleanUpLine` | src/GeneralPattern/Features/FindDuplicates.php:77-84 | without `ignore` the line is unchanged; with it, the line is what `preg_replace` returns, and a failing `preg_replace` gives the empty line |
| `FindDuplicates.AnyMatchesIff` | src/GeneralPattern/Features/FindDuplicates.php:96-106 | the `match` list passes exactly when some pattern matches the raw line |
| `FindDuplicates.DigestKeySafe` | src/GeneralPattern/Features/FindDuplicates.php:40 | an md5 digest survives sanitising unchanged and is never PHP-empty, so it always addresses a slot |
| `FindDuplicates.Grown` | src/GeneralPattern/Features/FindDuplicates.php:41-49 | an empty slot becomes the first-seen line and the line; a stored list gets the line appended; the line is always last and the list has at least two lines |
| `FindDuplicates.FileDuplicate` | src/GeneralPattern/Features/FindDuplicates.php:41-56 | the list under the key grows as above and every other slot is unchanged |
| `FindDuplicates.Remember` | src/GeneralPattern/Features/FindDuplicates.php:58-65 | the line is appended to the fingerprint's entry, which is created when missing; other entries are unchanged |
| `FindDuplicates.ProcessLine` | src/GeneralPattern/Features/FindDuplicates.php:31-67 | an excluded file changes nothing; an included line leaves its fingerprint in the table; a step changes the table or the store, never both; the store changes only for a seen fingerprint, a passing filter and a line unlike the first-seen one |
| `FindDuplicates.TableGrows` | src/GeneralPattern/Features/FindDuplicates.php:58-65 | no entry is lost and each entry only grows at its end, so the first-seen line never changes |
| `FindDuplicates.RememberedWhenNotDuplicate` | src/GeneralPattern/Features/FindDuplicates.php:39-65 | an unseen fingerprint, or a failing `match` filter, appends the raw line to the table and leaves the store unchanged |
| `FindDuplicates.FirstLineRepeatIgnored` | src/GeneralPattern/Features/FindDuplicates.php:39-43 | a repeat of the first-seen line that passes the filter changes nothing |
| `FindDuplicates.DuplicateFiled` | src/GeneralPattern/Features/FindDuplicates.php:39-57 | with a metric name that is not PHP-empty, a duplicate on an empty slot files the first-seen line and the line; on a stored list it appends the line; the table is unchanged |
| `FindDuplicates.DuplicateExtends` | src/GeneralPattern/Features/FindDuplicates.php:45-56 | with a metric name that is not PHP-empty, a duplicate on a non-empty stored list appends exactly the line |
| `FindDuplicates.RepeatOfFirstLineDropped` | src/GeneralPattern/Features/FindDuplicates.php:39-57 | for the lines a, a, b with one digest, the list is [a, b] |
| `FindDuplicates.SecondLineFiled` | src/GeneralPattern/Features/FindDuplicates.php:39-57 | for the lines b, a with one digest, the list is [b, a] |
| `FindDuplicates.RepeatOfLaterLineFiled` | src/GeneralPattern/Features/FindDuplicates.php:43-49 | for the lines b, a, a with one digest, the list is [b, a, a] |
| `FindDuplicates.TableSharedAcrossMetrics` | src/GeneralPattern/Features/FindDuplicates.php:23 | a line seen under one metric makes another line a duplicate under a second metric |
| `Analyzer.Resolve` | src/GeneralPattern/Analyzer.php:156-162 | a metric type resolves to counting or to duplicate finding exactly when the feature map names that feature |
| `Analyzer.Dispatch` | src/GeneralPattern/Analyzer.php:159-164 | an unresolved metric type changes nothing; a counting metric never touches the table |
| `Analyzer.ReplayConcat` | src/GeneralPattern/Analyzer.php:109-114 | running two job lists one after the other is running their concatenation |
| `Analyzer.LineJobs` | src/GeneralPattern/Analyzer.php:158-166 | one line gives one job per configured metric, in configuration order |
| `Analyzer.AnalyzeLine` | src/GeneralPattern/Analyzer.php:154-167 | the loop over metrics leaves the state the fold over the line's jobs gives |
| `Analyzer.Eol` | src/GeneralPattern/Analyzer.php:61-62 | the configured end-of-line string, or `PHP_EOL` when none is set |
| `Analyzer.LinesOf` | src/GeneralPattern/Analyzer.php:132 | an empty end-of-line string gives no lines at all, and any other gives at least one |
| `Analyzer.LinesJoin` | src/GeneralPattern/Analyzer.php:132 | joining the lines with the end-of-line string gives the contents back |
| `Analyzer.UnreadableFileOneEmptyLine` | src/GeneralPattern/File.php:40-47 | an unreadable file is one empty line |
| `Analyzer.TrailingEolEmptyLine` | src/GeneralPattern/Analyzer.php:132 | contents ending in the end-of-line character have one more, empty, last line |
| `Analyzer.AnalyzeLines` | src/GeneralPattern/Analyzer.php:132-138 | the loop over lines leaves the state the fold over the file's jobs gives |
| `Analyzer.PaddedPercent` | src/GeneralPattern/Analyzer.php:186-190 | the label is digits reading as the percentage, at least two long, two long below 100, with a leading `0` exactly below 10 |
| `Analyzer.ProgressLabel` | src/GeneralPattern/Analyzer.php:182-191 | before file `i` of `n` the label is two digits reading as `i*100/n`, with a leading `0` exactly below 10 |
| `Analyzer.Run` | src/GeneralPattern/Analyzer.php:104-146 | a run starts from an empty store, visits files in list order, logs one progress label per file and counts every file as processed |
| `Analyzer.SkippedMetricsIrrelevant` | src/GeneralPattern/Analyzer.php:159-165 | dropping the jobs of unresolved metric types changes nothing |
| `Analyzer.TableGrowsOverRun` | src/GeneralPattern/Analyzer.php:104-117 | over a run no fingerprint entry is lost and each only grows at its end |
| `Analyzer.CountingIgnoresTable` | src/GeneralPattern/Analyzer.php:154-167 | with only counting metrics the table is unchanged and the store does not depend on it |
| `Analyzer.Append` | src/GeneralPattern/Analyzer.php:89 | a file added by path goes last, under the next integer key |
| `Analyzer.AddListing` | src/GeneralPattern/File.php:56-76 | every file found is stored under the digest of its path, replacing in place an entry with that key; no other key is added and no other entry changes; the last file found holds its digest's entry; existing keys keep their order |
| `Analyzer.AddPath` | src/GeneralPattern/Analyzer.php:84-90 | a path that is not a directory is added last; existing keys keep their order |
| `Analyzer.AddPaths` | src/GeneralPattern/Analyzer.php:84-90 | adding strings one after the other as `addFile` does keeps existing keys in order |
| `Analyzer.AddEachIsAddPaths` | src/GeneralPattern/Analyzer.php:76-82 | a list adds exactly its string items, in list order, each as `addFile` on that string would, directories included; every other item is dropped |
| `Analyzer.AddFile` | src/GeneralPattern/Analyzer.php:74-97 | only an argument that is not a list, a string or a `File` fails; a `File` is added last |
| `Analyzer.ListOfPlainFiles` | src/GeneralPattern/Analyzer.php:76-82 | a list of non-directory entries adds its string entries in order and drops everything else |
| `LogSniffer.Create` | src/GeneralPattern/LogSniffer.php:26-32 | construction fails, with the invalid-input error, exactly when `files` is absent |
| `LogSniffer.Report` | src/GeneralPattern/LogSniffer.php:88-109 | an empty result gives null; otherwise the printed JSON holds the encoding in order and adds only layout |
| `LogSniffer.Sniff` | src/GeneralPattern/LogSniffer.php:61-81 | a run fails exactly when `files` is absent or of the wrong kind, and then leaves the table alone; a successful run returns the report of the sorted store that the run over the collected files leaves, and hands on the table that run leaves; the table only grows |
| `LogSniffer.EmitCases` | src/GeneralPattern/LogSniffer.php:147-183 | the quote state flips exactly on a `"` not after `\`; quoted characters are copied alone; `,` `{` `[` are followed by a newline and the indent; `}` `]` are preceded by a newline and one level less indent |
| `LogSniffer.EmitShape` | src/GeneralPattern/LogSniffer.php:158-180 | each step writes its character between inserted layout |
| `LogSniffer.PrettyJson` | src/GeneralPattern/LogSniffer.php:128-186 | the input is a subsequence of the output, and removing spaces and newlines from both gives the same text |
| `LogSniffer.PrettyContent` | src/GeneralPattern/LogSniffer.php:147-183 | the loop inserts nothing but layout |
| `LogSniffer.PrettySubsequence` | src/GeneralPattern/LogSniffer.php:147-183 | the loop writes the input in order |
| `LogSniffer.QuotedRunVerbatim` | src/GeneralPattern/LogSniffer.php:153-171 | while inside quotes the input is copied with nothing inserted |
| `LogSniffer.ScanCounts` | src/GeneralPattern/LogSniffer.php:147-183 | the depth is the count of unquoted opening minus closing brackets; the printer is outside quotes after an even number of unescaped quotes |
| `LogSniffer.BalancedEndsAtZero` | src/GeneralPattern/LogSniffer.php:160-174 | when the unquoted brackets balance, the depth ends at 0 |
| `LogSniffer.EscapedBackslashKeepsQuote` | src/GeneralPattern/LogSniffer.php:153 | in `["\\",1]` the closing quote follows a backslash, so the comma and bracket after it are copied as if quoted |

## Left out

- File-system access becomes the `Host` parameter of type `Foreign.Host`. This covers reading, `is_dir`, `is_readable`, `filesize`, the directory walk and its extension filter.
- The output-file write in `getResult` is left out.
- The regular-expression engine becomes the `Engine` parameter: `preg_match`, `preg_match_all` and `preg_replace`.
- `md5` also becomes part of the `Engine` parameter. It is not assumed injective.
- `json_encode` becomes the `encode` parameter of `LogSniffer.Report`.
- The `JSON_PRETTY_PRINT` branch, taken on versions after 5.4.0, is left out. Its output is PHP's own formatter; the hand-written loop is modelled instead.
- Loading and decoding the configuration file is left out. The configuration is the decoded `Settings.Config`; a missing key is `None`.
- `Log` is not modelled: its messages, time stamps and echo. `Analyzer.Run` returns the progress labels it would log instead.
- The command-line entry point is not modelled.
- `ini_set`, `set_time_limit` and the peak-memory report are host settings with no effect on results, so they are left out.
- `clearFileFromMemory` and `gc_collect_cycles` are left out. `foreach` walks a copy of the file list, so removing an entry changes nothing.
- Analyzer.ProgressLabel: computes `i*100/n` in integers. The source divides in floating point and then truncates, so e.g. 29 of 100 can print 28. The model states the integer value.
- Analyzer.TrailingEolEmptyLine: is stated for a one-character end-of-line string only. `PHP_EOL` on Unix and typical configured values have one character.
- Sorting collations are the `Collator` parameter: `SORT_NATURAL`, `SORT_NUMERIC`, `SORT_STRING`.
- Ties under `ksort` and `array_multisort` are resolved by a stable insertion sort. PHP's tie order depends on the version.
- PHP's conversion of numeric string keys to integers, and the re-indexing that follows, are left out. Keys stay strings.
- Loose `==` between numeric strings is modelled as string equality. This affects `in_files`, `sort.order` and sort-directive names.
- `class_exists` is modelled as the feature map naming `GetCount` or `FindDuplicates` exactly. Case-insensitive class names are left out, and so is the abstract `Feature` class, whose instantiation is fatal.
- A configuration value of the wrong PHP type is left out, e.g. a number where a string is expected. On PHP 8 `match_all` keys raise a `TypeError`; the model follows PHP 5 and 7, where a warning is raised and no slot is written.
- `Result::get` on a group or metric that holds a non-array value is left out. The typed store cannot hold one.
- Strings are sequences of characters, while PHP strings are bytes. Contents are assumed to be valid UTF-8, where byte-level and character-level search, splitting and replacement agree. Invalid byte sequences are left out, and so is `json_encode` returning `false` on them.
- The platform is fixed to Unix: `PHP_EOL` is `"\n"`. On Windows it is `"\r\n"`, which changes the default line split and the printer's line break. `LogSniffer.Layout` would then also have to count `'\r'` as layout.
- The PHP version is fixed to 5 and 7. `explode` with an empty delimiter returns `false` there, so no line is analysed (`Analyzer.LinesOf`). PHP 8 throws a `ValueError` instead, and that is left out.
