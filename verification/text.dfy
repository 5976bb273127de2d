/** String operations of PHP's standard library that the log analyser relies
    on: `empty()` on strings, `str_replace($search, '', $s)`, `explode`,
    `implode` and integer-to-string conversion. Strings are `seq<char>`. */
module Text {
  import opened Wrappers

  /** PHP's `empty()` on a string: true for `""` and for `"0"`. */
  predicate PhpEmpty(s: string) {
    s == "" || s == "0"
  }

  /** `a` can be obtained from `b` by deleting characters. */
  predicate IsSubsequence(a: string, b: string)
    decreases |b|
  {
    if |b| == 0 then |a| == 0
    else
      || (|a| > 0 && a[0] == b[0] && IsSubsequence(a[1..], b[1..]))
      || IsSubsequence(a, b[1..])
  }

  lemma {:induction false} SubsequenceRefl(s: string)
    ensures IsSubsequence(s, s)
  {
    if |s| > 0 {
      SubsequenceRefl(s[1..]);
    }
  }

  lemma {:induction false} EmptySubsequence(b: string)
    ensures IsSubsequence("", b)
  {
    if |b| > 0 {
      EmptySubsequence(b[1..]);
    }
  }

  /** Prefixing a string to the longer side keeps a subsequence. */
  lemma {:induction false} SubsequencePrefix(a: string, p: string, b: string)
    requires IsSubsequence(a, b)
    ensures IsSubsequence(a, p + b)
    decreases |p|
  {
    if |p| > 0 {
      SubsequencePrefix(a, p[1..], b);
      assert (p + b)[1..] == p[1..] + b;
      assert IsSubsequence(a, (p + b)[1..]);
    } else {
      assert p + b == b;
    }
  }

  /** Subsequences compose with a common prefix. */
  lemma {:induction false} SubsequenceAppend(p: string, a: string, b: string)
    requires IsSubsequence(a, b)
    ensures IsSubsequence(p + a, p + b)
    decreases |p|
  {
    if |p| > 0 {
      SubsequenceAppend(p[1..], a, b);
      assert (p + a)[1..] == p[1..] + a;
      assert (p + b)[1..] == p[1..] + b;
      assert (p + a)[0] == (p + b)[0];
      assert IsSubsequence((p + a)[1..], (p + b)[1..]);
    } else {
      assert p + a == a && p + b == b;
    }
  }

  lemma {:induction false} SubsequenceTrans(a: string, b: string, c: string)
    requires IsSubsequence(a, b) && IsSubsequence(b, c)
    ensures IsSubsequence(a, c)
    decreases |c|
  {
    if |a| == 0 {
      EmptySubsequence(c);
    } else if IsSubsequence(b, c[1..]) {
      SubsequenceTrans(a, b, c[1..]);
    } else {
      assert b[0] == c[0] && IsSubsequence(b[1..], c[1..]);
      if a[0] == b[0] && IsSubsequence(a[1..], b[1..]) {
        SubsequenceTrans(a[1..], b[1..], c[1..]);
      } else {
        SubsequenceTrans(a, b[1..], c[1..]);
      }
    }
  }

  /** Subsequences compose with a common suffix. */
  lemma {:induction false} SubsequenceSuffix(a: string, b: string, x: string)
    requires IsSubsequence(a, b)
    ensures IsSubsequence(a + x, b + x)
    decreases |b|
  {
    if |b| == 0 {
      assert a + x == x && b + x == x;
      SubsequenceRefl(x);
    } else {
      assert (b + x)[1..] == b[1..] + x;
      if IsSubsequence(a, b[1..]) {
        SubsequenceSuffix(a, b[1..], x);
      } else {
        SubsequenceSuffix(a[1..], b[1..], x);
        assert (a + x)[1..] == a[1..] + x;
      }
    }
  }

  /** Subsequences concatenate. */
  lemma SubsequenceConcat(a: string, b: string, x: string, y: string)
    requires IsSubsequence(a, b) && IsSubsequence(x, y)
    ensures IsSubsequence(a + x, b + y)
  {
    SubsequenceSuffix(a, b, x);
    SubsequenceAppend(b, x, y);
    SubsequenceTrans(a + x, b + x, b + y);
  }

  /** `p` occurs in `s` starting at index `i`. */
  predicate OccursAt(p: string, s: string, i: int) {
    0 <= i && i + |p| <= |s| && s[i..i + |p|] == p
  }

  predicate Occurs(p: string, s: string) {
    exists i | 0 <= i <= |s| - |p| :: OccursAt(p, s, i)
  }

  /** A one-character string occurs exactly where that character stands. */
  lemma OccursChar(c: char, s: string, i: int)
    requires 0 <= i < |s|
    ensures OccursAt([c], s, i) <==> s[i] == c
  {
    assert s[i..i + 1] == [s[i]];
  }

  /** An occurrence inside a slice is an occurrence in the whole text. */
  lemma OccursInSlice(p: string, s: string, lo: nat, hi: nat, j: int)
    requires lo <= hi <= |s| && OccursAt(p, s[lo..hi], j)
    ensures OccursAt(p, s, lo + j)
  {
    forall m | j <= m < j + |p|
      ensures s[lo..hi][m] == s[lo + m]
    {
    }
    assert s[lo..hi][j..j + |p|] == s[lo + j..lo + j + |p|];
  }

  /** An occurrence that fits inside `t` is one of `t + u` and conversely. */
  lemma OccursInPrefix(p: string, t: string, u: string, j: int)
    requires 0 <= j && j + |p| <= |t|
    ensures OccursAt(p, t + u, j) <==> OccursAt(p, t, j)
  {
    assert (t + u)[j..j + |p|] == t[j..j + |p|];
  }

  /** The first occurrence of a non-empty `p` in `s` at or after index `k`,
      scanning left to right as PHP's string functions do. */
  function SearchFrom(p: string, s: string, k: nat): (r: Option<nat>)
    requires |p| > 0
    ensures r.Some? ==> k <= r.value && OccursAt(p, s, r.value)
    ensures r.Some? ==> forall j :: k <= j < r.value ==> !OccursAt(p, s, j)
    ensures r.None? ==> forall j :: k <= j ==> !OccursAt(p, s, j)
    decreases |s| - k
  {
    if k + |p| > |s| then None
    else if s[k..k + |p|] == p then Some(k)
    else SearchFrom(p, s, k + 1)
  }

  /** The search result is determined by where the first occurrence is. */
  lemma SearchFromIs(p: string, s: string, k: nat, i: nat)
    requires |p| > 0 && k <= i && OccursAt(p, s, i)
    requires forall j :: k <= j < i ==> !OccursAt(p, s, j)
    ensures SearchFrom(p, s, k) == Some(i)
  {
  }

  /** The left-most occurrence of a non-empty `p` in `s`. */
  function Leftmost(p: string, s: string): (r: Option<nat>)
    requires |p| > 0
    ensures r.Some? ==> OccursAt(p, s, r.value)
    ensures r.Some? ==> forall j :: 0 <= j < r.value ==> !OccursAt(p, s, j)
    ensures r.None? <==> !Occurs(p, s)
  {
    SearchFrom(p, s, 0)
  }

  /** `str_replace($p, '', $s)` on the text from index `k` on: every
      left-to-right, non-overlapping occurrence of `p` is deleted. */
  function RemoveFrom(s: string, p: string, k: nat): (r: string)
    requires |p| > 0 && k <= |s|
    ensures |r| <= |s| - k
    decreases |s| - k
  {
    match SearchFrom(p, s, k)
    case None => s[k..]
    case Some(i) => s[k..i] + RemoveFrom(s, p, i + |p|)
  }

  /** Dropping a middle part keeps a subsequence. */
  lemma SubsequenceSkip(x: string, y: string, head: string, mid: string, tail: string, rest: string)
    requires x == head + tail && y == head + (mid + rest)
    requires IsSubsequence(tail, rest)
    ensures IsSubsequence(x, y)
  {
    SubsequencePrefix(tail, mid, rest);
    SubsequenceAppend(head, tail, mid + rest);
  }

  /** A text is its part before `i`, the `n` characters from `i`, and the
      rest. */
  lemma SliceAround(s: string, k: nat, i: nat, n: nat)
    requires k <= i && i + n <= |s|
    ensures s[k..] == s[k..i] + (s[i..i + n] + s[i + n..])
  {
  }

  /** One step of `RemoveFrom` past a found occurrence. */
  lemma RemoveFromStep(s: string, p: string, k: nat, i: nat)
    requires |p| > 0 && k <= |s| && SearchFrom(p, s, k) == Some(i)
    ensures RemoveFrom(s, p, k) == s[k..i] + RemoveFrom(s, p, i + |p|)
  {
  }

  /** What the deletion keeps is a subsequence of the text. */
  lemma {:induction false} RemoveFromSubsequence(s: string, p: string, k: nat)
    requires |p| > 0 && k <= |s|
    ensures IsSubsequence(RemoveFrom(s, p, k), s[k..])
    decreases |s| - k
  {
    var found := SearchFrom(p, s, k);
    if found.None? {
      SubsequenceRefl(s[k..]);
    } else {
      var i := found.value;
      RemoveFromStep(s, p, k, i);
      RemoveFromSubsequence(s, p, i + |p|);
      SliceAround(s, k, i, |p|);
      SubsequenceSkip(RemoveFrom(s, p, k), s[k..], s[k..i], s[i..i + |p|], RemoveFrom(s, p, i + |p|), s[i + |p|..]);
    }
  }

  /** `str_replace($p, '', $s)`. PHP leaves the subject unchanged when the
      search string is empty. The result is never longer, and equals the
      subject exactly when `p` does not occur in it. */
  function RemoveAll(s: string, p: string): (r: string)
    ensures |r| <= |s|
    ensures |p| == 0 ==> r == s
    ensures |p| > 0 ==> (r == s <==> !Occurs(p, s))
  {
    if |p| == 0 then s
    else
      var r := RemoveFrom(s, p, 0);
      match SearchFrom(p, s, 0)
      case None => assert s[0..] == s; r
      case Some(i) => assert |r| <= |s| - |p|; r
  }

  /** What `str_replace` keeps is the subject with characters deleted. */
  lemma RemoveAllSubsequence(s: string, p: string)
    ensures IsSubsequence(RemoveAll(s, p), s)
  {
    if |p| == 0 {
      SubsequenceRefl(s);
    } else {
      RemoveFromSubsequence(s, p, 0);
      assert s[0..] == s;
    }
  }

  /** `str_replace(array(...), '', $s)`: the searches are applied one after
      another, in list order, each to the result of the previous one. */
  function RemoveEach(s: string, ps: seq<string>): (r: string)
    ensures |r| <= |s|
    ensures (forall i :: 0 <= i < |ps| ==> |ps[i]| == 0) ==> r == s
    decreases |ps|
  {
    if |ps| == 0 then s
    else RemoveEach(RemoveAll(s, ps[0]), ps[1..])
  }

  /** The list form, too, only deletes characters. */
  lemma {:induction false} RemoveEachSubsequence(s: string, ps: seq<string>)
    ensures IsSubsequence(RemoveEach(s, ps), s)
    decreases |ps|
  {
    if |ps| == 0 {
      SubsequenceRefl(s);
    } else {
      var first := RemoveAll(s, ps[0]);
      RemoveAllSubsequence(s, ps[0]);
      RemoveEachSubsequence(first, ps[1..]);
      SubsequenceTrans(RemoveEach(first, ps[1..]), first, s);
    }
  }

  /** The pieces of `explode($d, $s)` from index `k` on. */
  function ExplodeFrom(d: string, s: string, k: nat): (r: seq<string>)
    requires |d| > 0 && k <= |s|
    ensures |r| >= 1
    decreases |s| - k
  {
    match SearchFrom(d, s, k)
    case None => [s[k..]]
    case Some(i) => [s[k..i]] + ExplodeFrom(d, s, i + |d|)
  }

  /** `explode($d, $s)` for a non-empty delimiter: the pieces between the
      left-most, non-overlapping occurrences of `d`. */
  function Explode(d: string, s: string): (r: seq<string>)
    requires |d| > 0
    ensures |r| >= 1
  {
    ExplodeFrom(d, s, 0)
  }

  /** No piece contains the delimiter. */
  lemma {:induction false} ExplodeFromPiecesFree(d: string, s: string, k: nat)
    requires |d| > 0 && k <= |s|
    ensures forall n :: 0 <= n < |ExplodeFrom(d, s, k)| ==> !Occurs(d, ExplodeFrom(d, s, k)[n])
    decreases |s| - k
  {
    var parts := ExplodeFrom(d, s, k);
    match SearchFrom(d, s, k)
    case None =>
      assert !Occurs(d, s[k..]) by {
        forall j | OccursAt(d, s[k..|s|], j)
          ensures false
        {
          OccursInSlice(d, s, k, |s|, j);
        }
        assert s[k..] == s[k..|s|];
      }
    case Some(i) =>
      assert !Occurs(d, s[k..i]) by {
        forall j | OccursAt(d, s[k..i], j)
          ensures false
        {
          OccursInSlice(d, s, k, i, j);
        }
      }
      ExplodeFromPiecesFree(d, s, i + |d|);
      assert parts == [s[k..i]] + ExplodeFrom(d, s, i + |d|);
  }

  /** No piece contains the delimiter: every line of a log file is free of
      the end-of-line marker. */
  lemma ExplodePiecesFree(d: string, s: string)
    requires |d| > 0
    ensures forall n :: 0 <= n < |Explode(d, s)| ==> !Occurs(d, Explode(d, s)[n])
  {
    ExplodeFromPiecesFree(d, s, 0);
  }

  /** `implode($d, $parts)`. */
  function Join(parts: seq<string>, d: string): string
  {
    if |parts| == 0 then ""
    else if |parts| == 1 then parts[0]
    else parts[0] + d + Join(parts[1..], d)
  }

  /** Joining the pieces with the delimiter gives back the text. */
  lemma {:induction false} JoinExplodeFrom(d: string, s: string, k: nat)
    requires |d| > 0 && k <= |s|
    ensures Join(ExplodeFrom(d, s, k), d) == s[k..]
    decreases |s| - k
  {
    match SearchFrom(d, s, k)
    case None =>
    case Some(i) =>
      JoinExplodeFrom(d, s, i + |d|);
      var parts := ExplodeFrom(d, s, k);
      var tailParts := ExplodeFrom(d, s, i + |d|);
      assert parts[1..] == tailParts;
      assert Join(parts, d) == s[k..i] + d + s[i + |d|..];
      assert s[k..] == s[k..i] + s[i..i + |d|] + s[i + |d|..];
  }

  /** Joining the pieces with the delimiter gives back the original text. */
  lemma JoinExplode(d: string, s: string)
    requires |d| > 0
    ensures Join(Explode(d, s), d) == s
  {
    JoinExplodeFrom(d, s, 0);
    assert s[0..] == s;
  }

  /** Deleting every occurrence is exploding and gluing the pieces back
      together with nothing in between. */
  lemma {:induction false} RemoveFromJoinsPieces(s: string, p: string, k: nat)
    requires |p| > 0 && k <= |s|
    ensures RemoveFrom(s, p, k) == Join(ExplodeFrom(p, s, k), "")
    decreases |s| - k
  {
    match SearchFrom(p, s, k)
    case None =>
    case Some(i) =>
      RemoveFromJoinsPieces(s, p, i + |p|);
      var parts := ExplodeFrom(p, s, k);
      assert parts[1..] == ExplodeFrom(p, s, i + |p|);
      assert Join(parts, "") == s[k..i] + "" + Join(ExplodeFrom(p, s, i + |p|), "");
  }

  /** Deleting every occurrence is the same as exploding on it and gluing the
      pieces back together with nothing in between. */
  lemma RemoveAllJoinsPieces(s: string, p: string)
    requires |p| > 0
    ensures RemoveAll(s, p) == Join(Explode(p, s), "")
  {
    RemoveFromJoinsPieces(s, p, 0);
  }

  /** Text without the delimiter is one piece; in particular the empty
      string is one empty piece. */
  lemma ExplodeWithoutDelimiter(d: string, s: string)
    requires |d| > 0 && !Occurs(d, s)
    ensures Explode(d, s) == [s]
  {
    assert s[0..] == s;
  }

  /** Appending one character `c` leaves the first `c` in `t` where it is,
      and where there is none, the appended one is the first. */
  lemma SearchAppendedChar(c: char, t: string, k: nat)
    requires k <= |t|
    ensures SearchFrom([c], t, k).Some? ==> SearchFrom([c], t + [c], k) == SearchFrom([c], t, k)
    ensures SearchFrom([c], t, k).None? ==> SearchFrom([c], t + [c], k) == Some(|t|)
  {
    var s := t + [c];
    var found := SearchFrom([c], t, k);
    var i := if found.Some? then found.value else |t|;
    forall j | k <= j < i
      ensures !OccursAt([c], s, j)
    {
      OccursInPrefix([c], t, [c], j);
    }
    if found.Some? {
      OccursInPrefix([c], t, [c], i);
    } else {
      assert s[|t|..|t| + 1] == [c];
    }
    SearchFromIs([c], s, k, i);
  }

  /** Past the end of the text there is exactly one piece, the empty one. */
  lemma ExplodeAtEnd(d: string, s: string)
    requires |d| > 0
    ensures ExplodeFrom(d, s, |s|) == [""]
  {
    assert s[|s|..] == "";
  }

  /** Without a delimiter from `k` on, the appended one closes the last
      piece and an empty piece follows. */
  lemma TrailingNoMore(c: char, t: string, k: nat)
    requires k <= |t| && SearchFrom([c], t, k).None?
    ensures ExplodeFrom([c], t + [c], k) == ExplodeFrom([c], t, k) + [""]
  {
    var s := t + [c];
    SearchAppendedChar(c, t, k);
    ExplodeAtEnd([c], s);
    assert s[k..|t|] == t[k..];
  }

  /** One step of `ExplodeFrom` past a found delimiter. */
  lemma ExplodeFromStep(d: string, s: string, k: nat, i: nat)
    requires |d| > 0 && k <= |s| && SearchFrom(d, s, k) == Some(i)
    ensures ExplodeFrom(d, s, k) == [s[k..i]] + ExplodeFrom(d, s, i + |d|)
  {
  }

  /** Before the first delimiter inside `t`, appending one more changes
      nothing: the first piece is the same. */
  lemma AppendedStep(c: char, t: string, k: nat, i: nat)
    requires k <= |t| && SearchFrom([c], t, k) == Some(i)
    ensures ExplodeFrom([c], t + [c], k) == [t[k..i]] + ExplodeFrom([c], t + [c], i + 1)
  {
    var s := t + [c];
    SearchAppendedChar(c, t, k);
    ExplodeFromStep([c], s, k, i);
    assert s[k..i] == t[k..i];
  }

  /** Behind a delimiter inside `t`, the pieces continue as they did. */
  lemma TrailingStep(x: seq<string>, y: seq<string>, head: string, rest: seq<string>, last: seq<string>)
    requires x == [head] + last && last == rest + [""] && y == [head] + rest
    ensures x == y + [""]
  {
  }

  /** A delimiter appended at the very end adds one empty piece. */
  lemma {:induction false} TrailingFrom(c: char, t: string, k: nat)
    requires k <= |t|
    ensures ExplodeFrom([c], t + [c], k) == ExplodeFrom([c], t, k) + [""]
    decreases |t| - k
  {
    var found := SearchFrom([c], t, k);
    if found.None? {
      TrailingNoMore(c, t, k);
    } else {
      var i := found.value;
      TrailingFrom(c, t, i + 1);
      AppendedStep(c, t, k, i);
      ExplodeFromStep([c], t, k, i);
      TrailingStep(ExplodeFrom([c], t + [c], k), ExplodeFrom([c], t, k), t[k..i],
                   ExplodeFrom([c], t, i + 1), ExplodeFrom([c], t + [c], i + 1));
    }
  }

  /** With a one-character delimiter, a delimiter at the very end of the text
      yields one extra, empty, final piece. */
  lemma TrailingDelimiter(c: char, t: string)
    ensures Explode([c], t + [c]) == Explode([c], t) + [""]
  {
    TrailingFrom(c, t, 0);
  }

  function DigitChar(d: nat): char
    requires d < 10
  {
    "0123456789"[d]
  }

  predicate IsDigit(c: char) {
    '0' <= c <= '9'
  }

  /** PHP's conversion of a non-negative integer to its decimal string. */
  function Decimal(n: nat): (r: string)
    ensures |r| >= 1
    ensures forall i :: 0 <= i < |r| ==> IsDigit(r[i])
    ensures n < 10 <==> |r| == 1
    ensures 10 <= n < 100 ==> |r| == 2
  {
    if n < 10 then [DigitChar(n)] else Decimal(n / 10) + [DigitChar(n % 10)]
  }

  /** The number a string of decimal digits denotes. */
  function DigitsValue(s: string): nat
    requires forall i :: 0 <= i < |s| ==> IsDigit(s[i])
  {
    if |s| == 0 then 0
    else
      assert IsDigit(s[|s| - 1]);
      DigitsValue(s[..|s| - 1]) * 10 + (s[|s| - 1] as int - '0' as int)
  }

  /** Reading the decimal string back gives the number. */
  lemma {:induction false} DecimalRoundTrip(n: nat)
    ensures DigitsValue(Decimal(n)) == n
  {
    if n >= 10 {
      DecimalRoundTrip(n / 10);
      var r := Decimal(n);
      assert r[..|r| - 1] == Decimal(n / 10);
    }
  }

  /** A positive number is written without a leading zero. */
  lemma {:induction false} DecimalNoLeadingZero(n: nat)
    ensures n > 0 ==> Decimal(n)[0] != '0'
  {
    if n >= 10 {
      DecimalNoLeadingZero(n / 10);
      assert Decimal(n)[0] == Decimal(n / 10)[0];
    }
  }

  /** A leading zero does not change the value of a digit string. */
  lemma {:induction false} LeadingZeroValue(s: string)
    requires forall i :: 0 <= i < |s| ==> IsDigit(s[i])
    ensures forall i :: 0 <= i < |"0" + s| ==> IsDigit(("0" + s)[i])
    ensures DigitsValue("0" + s) == DigitsValue(s)
    decreases |s|
  {
    var t := "0" + s;
    assert forall i :: 0 <= i < |t| ==> IsDigit(t[i]);
    if |s| > 0 {
      var init := s[..|s| - 1];
      LeadingZeroValue(init);
      assert t[..|t| - 1] == "0" + init;
    } else {
      assert t[..0] == "";
    }
  }
}
