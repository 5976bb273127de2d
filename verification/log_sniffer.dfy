/** The entry point (`LogSniffer`): the check that a configuration names
    files, the run from configuration to report, and the hand-written JSON
    pretty-printer that lays the report out. */
module LogSniffer {
  import opened Wrappers
  import opened Assoc
  import opened Text
  import opened Settings
  import opened Foreign
  import opened ResultStore
  import Analyzer
  import FindDuplicates

  // ---------------------------------------------------------------------
  // Construction and the run
  // ---------------------------------------------------------------------

  /** The two exceptions that end a run: the configuration names no files
      (`InvalidInputException`), or `files` is of the wrong kind
      (`InvalidFileException`). */
  datatype Failed = InvalidInput | InvalidFile

  /** `new LogSniffer($config)`: rejected exactly when `files` is absent. */
  function Create(config: Config): (r: Result<Config, Failed>)
    ensures r.Failure? <==> config.files.None?
    ensures r.Failure? ==> r.error == InvalidInput
    ensures r.Success? ==> r.value == config
  {
    if config.files.None? then Failure(InvalidInput) else Success(config)
  }

  /** `getResult` without the output file: an empty result array gives
      `null`; otherwise the compact JSON encoding, laid out by
      `prettyJson`. */
  function Report(results: Store, encode: Store -> string): (r: Option<string>)
    ensures r.None? <==> |results| == 0
    ensures r.Some? ==> IsSubsequence(encode(results), r.value)
    ensures r.Some? ==> Content(r.value) == Content(encode(results))
  {
    if |results| == 0 then None
    else Some(PrettyJson(encode(results)))
  }

  /** `LogSniffer::create`, `run` and `getResult` in sequence: the files
      named in the configuration are collected into a fresh list, analysed
      in one run, and the sorted results reported. The duplicate table is
      the one left by earlier runs in the same process, and is handed on. */
  method Sniff(config: Config, host: Host, engine: Engine, collator: Collator,
               encode: Store -> string, table: FindDuplicates.Table)
    returns (r: Result<Option<string>, Failed>, tableAfter: FindDuplicates.Table)
    ensures r.Failure? <==> config.files.None? || config.files.value.OtherArg?
    ensures r.Failure? ==> tableAfter == table
    ensures forall d :: d in table ==> d in tableAfter && table[d] <= tableAfter[d]
    ensures r.Success? ==>
      && config.files.Some?
      && Analyzer.AddFile(config.files.value, [], host, engine).Success?
      && var files := Analyzer.AddFile(config.files.value, [], host, engine).value;
         var st := Analyzer.Replay(FindDuplicates.State([], table),
                                   Analyzer.RunJobs(Analyzer.Paths(files), config, host), config, engine);
         && r.value == Report(ToArray(st.store, config.metrics, collator), encode)
         && tableAfter == st.table
  {
    var created := Create(config);
    if created.Failure? {
      return Failure(InvalidInput), table;
    }
    var files := Analyzer.AddFile(config.files.value, [], host, engine);
    if files.Failure? {
      return Failure(InvalidFile), table;
    }
    var st, log, processed := Analyzer.Run(files.value, config, host, engine, table);
    Analyzer.TableGrowsOverRun(FindDuplicates.State([], table),
                               Analyzer.RunJobs(Analyzer.Paths(files.value), config, host), config, engine);
    var results := ToArray(st.store, config.metrics, collator);
    r := Success(Report(results, encode));
    tableAfter := st.table;
  }

  // ---------------------------------------------------------------------
  // `prettyJson`
  // ---------------------------------------------------------------------

  /** The loop state of `prettyJson`: the indent depth `$pos` (negative on
      unbalanced input), `$outOfQuotes`, and the previous character (`''`
      before the first). */
  datatype Scan = Scan(pos: int, outOfQuotes: bool, prev: Option<char>)

  const Start: Scan := Scan(0, true, None)

  /** `$pos` copies of the four-space indent; none when `$pos <= 0`. */
  function Indent(n: int): (r: string)
    ensures |r| == if n > 0 then 4 * n else 0
    ensures forall i :: 0 <= i < |r| ==> r[i] == ' '
    decreases n
  {
    if n <= 0 then "" else Indent(n - 1) + "    "
  }

  /** The characters the printer inserts. */
  predicate Layout(c: char) {
    c == ' ' || c == '\n'
  }

  predicate AllLayout(s: string) {
    forall i :: 0 <= i < |s| ==> Layout(s[i])
  }

  /** One pass of the loop body for the character `c`. A `"` whose previous
      character is not a backslash toggles the quote state. Outside quotes,
      a closing bracket is put on a new line one level out, and an opening
      bracket or a comma is followed by a new line at the (new) depth.
      Inside quotes the character is copied alone. */
  function Emit(st: Scan, c: char): (Scan, string)
  {
    var toggles := c == '"' && st.prev != Some('\\');
    var quotes := if toggles then !st.outOfQuotes else st.outOfQuotes;
    var closes := !toggles && (c == '}' || c == ']') && quotes;
    var pos1 := if closes then st.pos - 1 else st.pos;
    var before := if closes then PhpEol + Indent(pos1) else "";
    var opens := (c == ',' || c == '{' || c == '[') && quotes;
    var pos2 := if opens && (c == '{' || c == '[') then pos1 + 1 else pos1;
    var after := if opens then PhpEol + Indent(pos2) else "";
    (Scan(pos2, quotes, Some(c)), before + [c] + after)
  }

  /** What one step does, case by case: the quote state flips exactly on
      an unescaped `"`, quoted characters are copied alone, and outside
      quotes the brackets and the comma move the depth and break the line. */
  lemma EmitCases(st: Scan, c: char)
    ensures Emit(st, c).0.prev == Some(c)
    ensures Emit(st, c).0.outOfQuotes != st.outOfQuotes <==> c == '"' && st.prev != Some('\\')
    ensures !st.outOfQuotes ==> Emit(st, c).1 == [c] && Emit(st, c).0.pos == st.pos
    ensures st.outOfQuotes && (c == '{' || c == '[') ==>
      Emit(st, c).0.pos == st.pos + 1 && Emit(st, c).1 == [c] + PhpEol + Indent(st.pos + 1)
    ensures st.outOfQuotes && c == ',' ==> Emit(st, c).0.pos == st.pos && Emit(st, c).1 == [c] + PhpEol + Indent(st.pos)
    ensures st.outOfQuotes && (c == '}' || c == ']') ==>
      Emit(st, c).0.pos == st.pos - 1 && Emit(st, c).1 == PhpEol + Indent(st.pos - 1) + [c]
    ensures c !in "{[}]," ==> Emit(st, c).1 == [c] && Emit(st, c).0.pos == st.pos
  {
  }

  /** A line break followed by an indent is layout. */
  lemma BreakIsLayout(n: int)
    ensures AllLayout(PhpEol + Indent(n))
  {
    var b := PhpEol + Indent(n);
    forall i | 0 <= i < |b|
      ensures Layout(b[i])
    {
      if i > 0 {
        assert b[i] == Indent(n)[i - 1];
      }
    }
  }

  /** What one step writes is the character itself, between inserted
      layout `pre` and `post`. */
  lemma EmitShape(st: Scan, c: char) returns (pre: string, post: string)
    ensures AllLayout(pre) && AllLayout(post)
    ensures Emit(st, c).1 == pre + [c] + post
  {
    var pos := st.pos;
    pre, post := "", "";
    if !st.outOfQuotes || c !in "{[}]," {
    } else if c == '{' || c == '[' {
      post := PhpEol + Indent(pos + 1);
      BreakIsLayout(pos + 1);
    } else if c == ',' {
      post := PhpEol + Indent(pos);
      BreakIsLayout(pos);
    } else {
      pre := PhpEol + Indent(pos - 1);
      BreakIsLayout(pos - 1);
    }
  }

  /** The state after the first `k` characters. */
  function ScanTo(s: string, k: nat): Scan
    requires k <= |s|
  {
    if k == 0 then Start else Emit(ScanTo(s, k - 1), s[k - 1]).0
  }

  /** The output after the first `k` characters. */
  function PrettyTo(s: string, k: nat): string
    requires k <= |s|
  {
    if k == 0 then "" else PrettyTo(s, k - 1) + Emit(ScanTo(s, k - 1), s[k - 1]).1
  }

  /** `prettyJson` on the compact encoding `s`. The last round of the
      source's loop reads past the end and adds nothing. */
  function PrettyJson(s: string): (r: string)
    ensures IsSubsequence(s, r)
    ensures Content(r) == Content(s)
  {
    PrettySubsequence(s, |s|);
    PrettyContent(s, |s|);
    assert s[..|s|] == s;
    PrettyTo(s, |s|)
  }

  // ---------------------------------------------------------------------
  // Only layout is inserted
  // ---------------------------------------------------------------------

  /** The text without layout characters. */
  function Content(s: string): (r: string)
    ensures |r| <= |s|
    decreases |s|
  {
    if |s| == 0 then "" else Content(s[..|s| - 1]) + (if Layout(s[|s| - 1]) then "" else [s[|s| - 1]])
  }

  lemma {:induction false} ContentConcat(a: string, b: string)
    ensures Content(a + b) == Content(a) + Content(b)
    decreases |b|
  {
    if |b| == 0 {
      assert a + b == a;
    } else {
      var b' := b[..|b| - 1];
      ContentConcat(a, b');
      assert (a + b)[..|a + b| - 1] == a + b';
      assert (a + b)[|a + b| - 1] == b[|b| - 1];
    }
  }

  lemma {:induction false} ContentOfLayout(s: string)
    requires AllLayout(s)
    ensures Content(s) == ""
    decreases |s|
  {
    if |s| > 0 {
      ContentOfLayout(s[..|s| - 1]);
    }
  }

  /** A step adds the character itself to the content, and nothing else. */
  lemma EmitContent(st: Scan, c: char)
    ensures Content(Emit(st, c).1) == Content([c])
    ensures IsSubsequence([c], Emit(st, c).1)
  {
    var pre, post := EmitShape(st, c);
    Framed(pre, c, post);
  }

  /** A character between layout has itself as content, and occurs. */
  lemma Framed(pre: string, c: char, post: string)
    requires AllLayout(pre) && AllLayout(post)
    ensures Content(pre + [c] + post) == Content([c])
    ensures IsSubsequence([c], pre + [c] + post)
  {
    ContentConcat(pre, [c]);
    ContentConcat(pre + [c], post);
    ContentOfLayout(pre);
    ContentOfLayout(post);
    assert "" + Content([c]) + "" == Content([c]);
    EmptySubsequence(post);
    assert IsSubsequence([c], [c] + post) by {
      assert ([c] + post)[0] == c && ([c] + post)[1..] == post;
      assert [c][1..] == "";
    }
    SubsequencePrefix([c], pre, [c] + post);
    assert pre + ([c] + post) == pre + [c] + post;
  }

  /** Removing layout from the output gives the input with its own layout
      removed: the printer inserts nothing but spaces and newlines. */
  lemma {:induction false} PrettyContent(s: string, k: nat)
    requires k <= |s|
    ensures Content(PrettyTo(s, k)) == Content(s[..k])
  {
    if k > 0 {
      PrettyContent(s, k - 1);
      EmitContent(ScanTo(s, k - 1), s[k - 1]);
      ContentStep(PrettyTo(s, k - 1), Emit(ScanTo(s, k - 1), s[k - 1]).1, s[..k - 1], s[k - 1]);
      assert s[..k] == s[..k - 1] + [s[k - 1]];
    }
  }

  /** One step of `PrettyContent`, on plain strings. */
  lemma ContentStep(done: string, out: string, read: string, c: char)
    requires Content(done) == Content(read)
    requires Content(out) == Content([c])
    ensures Content(done + out) == Content(read + [c])
  {
    ContentConcat(done, out);
    ContentConcat(read, [c]);
  }

  /** The input appears in the output in order. */
  lemma {:induction false} PrettySubsequence(s: string, k: nat)
    requires k <= |s|
    ensures IsSubsequence(s[..k], PrettyTo(s, k))
  {
    if k == 0 {
      EmptySubsequence("");
    } else {
      PrettySubsequence(s, k - 1);
      var c := s[k - 1];
      EmitContent(ScanTo(s, k - 1), c);
      SubsequenceConcat(s[..k - 1], PrettyTo(s, k - 1), [c], Emit(ScanTo(s, k - 1), c).1);
      assert s[..k] == s[..k - 1] + [c];
    }
  }

  /** While the printer is inside quotes, the input is copied verbatim. */
  lemma {:induction false} QuotedRunVerbatim(s: string, a: nat, b: nat)
    requires a <= b <= |s|
    requires forall j :: a <= j < b ==> !ScanTo(s, j).outOfQuotes
    ensures PrettyTo(s, b) == PrettyTo(s, a) + s[a..b]
    decreases b - a
  {
    if b == a {
      assert s[a..b] == "";
    } else {
      QuotedRunVerbatim(s, a, b - 1);
      assert s[a..b] == s[a..b - 1] + [s[b - 1]];
    }
  }

  // ---------------------------------------------------------------------
  // The quote state and the depth, counted independently
  // ---------------------------------------------------------------------

  /** The character at `j` toggles the quote state: a `"` not directly
      after a backslash. */
  predicate TogglesAt(s: string, j: nat)
    requires j < |s|
  {
    s[j] == '"' && (j == 0 || s[j - 1] != '\\')
  }

  /** How many toggling quotes the first `k` characters hold. */
  function Toggles(s: string, k: nat): nat
    requires k <= |s|
  {
    if k == 0 then 0 else Toggles(s, k - 1) + (if TogglesAt(s, k - 1) then 1 else 0)
  }

  /** Opening minus closing brackets among the first `k` characters,
      counting only those outside quotes. */
  function Depth(s: string, k: nat): int
    requires k <= |s|
  {
    if k == 0 then 0
    else
      var outside := Toggles(s, k - 1) % 2 == 0;
      var c := s[k - 1];
      Depth(s, k - 1) + (if outside && (c == '{' || c == '[') then 1
                         else if outside && (c == '}' || c == ']') then -1
                         else 0)
  }

  /** The loop state after `k` characters: the depth is the count of
      unquoted brackets, the text is outside quotes after an even number of
      toggling quotes, and the previous character is the last one read. */
  lemma {:induction false} ScanCounts(s: string, k: nat)
    requires k <= |s|
    ensures ScanTo(s, k) == Scan(Depth(s, k), Toggles(s, k) % 2 == 0, if k == 0 then None else Some(s[k - 1]))
  {
    if k > 0 {
      ScanCounts(s, k - 1);
    }
  }

  /** For input whose unquoted brackets balance, the depth ends at 0. */
  lemma BalancedEndsAtZero(s: string)
    requires Depth(s, |s|) == 0
    ensures ScanTo(s, |s|).pos == 0
  {
    ScanCounts(s, |s|);
  }

  /** The one-character lookback: in `"\\"` the closing quote follows a
      backslash, so it does not close the string, and the comma and bracket
      after it are copied as if quoted. */
  lemma EscapedBackslashKeepsQuote()
    ensures PrettyJson("[\"\\\\\",1]") == "[\n    \"\\\\\",1]"
  {
    var s := "[\"\\\\\",1]";
    EscapedOpening(s);
    EscapedQuoted(s);
    QuotedRunVerbatim(s, 2, 8);
    assert s[2..8] == "\\\\\",1]";
    assert s[..8] == s;
  }

  /** The bracket breaks the line, and the first quote opens a string. */
  lemma EscapedOpening(s: string)
    requires s == "[\"\\\\\",1]"
    ensures ScanTo(s, 2) == Scan(1, false, Some('"'))
    ensures PrettyTo(s, 2) == "[\n    \""
  {
    assert Indent(1) == "    ";
    assert ScanTo(s, 1) == Scan(1, true, Some('['));
    assert PrettyTo(s, 1) == "[\n    ";
    assert Emit(ScanTo(s, 1), '"').1 == "\"";
  }

  /** The quote after the escaped backslash does not close the string. */
  lemma EscapedQuoted(s: string)
    requires s == "[\"\\\\\",1]"
    requires ScanTo(s, 2) == Scan(1, false, Some('"'))
    ensures forall j :: 2 <= j < 8 ==> !ScanTo(s, j).outOfQuotes
  {
    assert ScanTo(s, 3) == Scan(1, false, Some('\\'));
    assert ScanTo(s, 4) == Scan(1, false, Some('\\'));
    assert ScanTo(s, 5) == Scan(1, false, Some('"'));
    assert ScanTo(s, 6) == Scan(1, false, Some(','));
    assert ScanTo(s, 7) == Scan(1, false, Some('1'));
  }
}
