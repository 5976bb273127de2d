/** The parts of PHP and of the host that the analyser calls but that are not
    modelled: the PCRE functions, `md5`, and the filesystem. Each becomes a
    function-valued parameter, so every property proved about the analyser
    holds for every regex engine, every digest function and every
    filesystem. */
module Foreign {
  import opened Wrappers

  /** `md5()` returns 32 lower-case hexadecimal characters. Nothing else is
      assumed about it; in particular it is not assumed injective. */
  predicate HexDigit(c: char) {
    '0' <= c <= '9' || 'a' <= c <= 'f'
  }

  predicate IsHexDigest(s: string) {
    |s| == 32 && forall i :: 0 <= i < |s| ==> HexDigit(s[i])
  }

  type Digest = s: string | IsHexDigest(s) witness "00000000000000000000000000000000"

  /** What `preg_match` reports: `false`, `0`, or `1` with the full match
      in `$matches[0]`. */
  datatype Preg = PregError | NoMatch | Matched(full: string)

  /** What `preg_match_all` reports: `false`, or the list `$matches[0]` of
      all full matches (its length is the returned count). */
  datatype PregAll = PregAllError | AllMatches(full: seq<string>)

  /** The regex engine and the digest, each taking the pattern first. */
  datatype Engine = Engine(
    pregMatch: (string, string) -> Preg,
    pregMatchAll: (string, string) -> PregAll,
    /** `preg_replace($pattern, '', $subject)`; `None` is PHP's `null` on error. */
    pregReplace: (string, string) -> Option<string>,
    md5: string -> Digest)

  /** The filesystem as seen by `File`: whether a path is a readable
      directory, the readable files below a directory that carry the
      configured extension (in iteration order), and a file's contents
      (`None` when `File::readContents` would throw, e.g. for a missing,
      unreadable or empty file). */
  datatype Host = Host(
    isDirectory: string -> bool,
    listDirectory: string -> seq<string>,
    read: string -> Option<string>)
}
