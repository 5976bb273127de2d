/** The decoded configuration document (`config.json`) as plain data. A key
    that is absent, or `null`, is `None` (or the empty string / empty list
    where the code treats absence that way). */
module Settings {
  import opened Wrappers

  /** `PHP_EOL` on the platforms the tool targets. */
  const PhpEol: string := "\n"

  /** A metric's `in_files` entry: a string (only `"*"` selects files), a
      list of paths, or absent. */
  datatype InFiles = Given(pattern: string) | Listed(paths: seq<string>) | Unset

  /** A metric's `sort` object; each field may be absent. */
  datatype SortSpec = SortSpec(sortBy: Option<string>, sortAs: Option<string>, sortOrder: Option<string>)

  /** One entry of the `metrics` list. A single `clean_up` or `match` string
      is the one-element list. */
  datatype Metric = Metric(
    name: string,
    kind: string,              // `type`, looked up in `feature_map`
    regex: string,
    matchAll: bool,            // `match_all`, false when absent
    ignore: Option<string>,    // pattern stripped before fingerprinting
    cleanUp: Option<seq<string>>,
    matchAny: Option<seq<string>>,  // `match`: patterns a duplicate must satisfy
    groupUnder: Option<string>,
    inFiles: InFiles,
    sort: Option<SortSpec>)

  /** What `Analyzer::addFile` accepts: a path string, an array, a `File`
      object; anything else is an error. */
  datatype FileArg = PathArg(path: string) | ListArg(items: seq<FileArg>) | FileObject(path: string) | OtherArg

  datatype Config = Config(
    files: Option<FileArg>,
    eol: Option<string>,       // `input_log_eol_character`
    metrics: seq<Metric>,
    featureMap: map<string, string>)
}
