/** The result store (`Result`): a three-level PHP array
    group -> metric name -> key -> value, with the identifier sanitiser, the
    default group, and the sort directives applied by `toArray`. */
module ResultStore {
  import opened Wrappers
  import opened Assoc
  import opened Text
  import opened Settings
  import Sorting

  /** `Result::DEFAULT_METRIC_GROUP_NAME`. */
  const DefaultGroup: string := "Default Metric Group"

  /** A stored value: a counter (`GetCount`), a list of raw lines
      (`FindDuplicates`), or a PHP array that the model tracks only by its
      element count. The last arises when `get` hands back a whole metric
      or group map, or a counter, and `FindDuplicates` casts it to an array
      and appends to it. */
  datatype Value = Count(n: int) | Lines(items: seq<string>) | Untracked(size: nat)

  type MetricMap = Assoc<string, Value>
  type GroupMap = Assoc<string, MetricMap>
  type Store = Assoc<string, GroupMap>

  // ---------------------------------------------------------------------
  // Identifier sanitising (`Result::trim`)
  // ---------------------------------------------------------------------

  /** The characters `trim` strips: backslash and double quote. */
  predicate Unsafe(c: char) {
    c == '\\' || c == '"'
  }

  /** Reference definition: `s` without any occurrence of `c`. */
  function Drop(s: string, c: char): (r: string)
  {
    if |s| == 0 then "" else (if s[0] == c then "" else [s[0]]) + Drop(s[1..], c)
  }

  lemma {:induction false} DropConcat(a: string, b: string, c: char)
    ensures Drop(a + b, c) == Drop(a, c) + Drop(b, c)
  {
    if |a| > 0 {
      DropConcat(a[1..], b, c);
      assert (a + b)[1..] == a[1..] + b;
    } else {
      assert a + b == b;
    }
  }

  lemma {:induction false} DropAbsent(a: string, c: char)
    requires forall i :: 0 <= i < |a| ==> a[i] != c
    ensures Drop(a, c) == a
  {
    if |a| > 0 {
      DropAbsent(a[1..], c);
    }
  }

  lemma {:induction false} DropCounts(s: string, c: char)
    ensures |Drop(s, c)| == |s| - multiset(s)[c]
    ensures multiset(Drop(s, c))[c] == 0
    ensures forall x :: x != c ==> multiset(Drop(s, c))[x] == multiset(s)[x]
    ensures forall i :: 0 <= i < |Drop(s, c)| ==> Drop(s, c)[i] != c
  {
    if |s| > 0 {
      DropCounts(s[1..], c);
      assert s == [s[0]] + s[1..];
      assert multiset(s) == multiset{s[0]} + multiset(s[1..]);
      var r := Drop(s, c);
      var head := if s[0] == c then "" else [s[0]];
      assert r == head + Drop(s[1..], c);
      assert multiset(r) == multiset(head) + multiset(Drop(s[1..], c));
    }
  }

  /** Deleting `c` in front of a text that starts with `c`. */
  lemma DropLeading(x: string, c: char)
    ensures Drop([c] + x, c) == Drop(x, c)
  {
    assert ([c] + x)[1..] == x;
  }

  /** Where a one-character search finds nothing, there is nothing to
      delete. */
  lemma DropBeforeMatch(s: string, c: char, k: nat, i: nat)
    requires k <= i <= |s|
    requires forall j :: k <= j < i ==> !OccursAt([c], s, j)
    ensures Drop(s[k..i], c) == s[k..i]
  {
    forall j | 0 <= j < |s[k..i]|
      ensures s[k..i][j] != c
    {
      OccursChar(c, s, k + j);
    }
    DropAbsent(s[k..i], c);
  }

  /** A text split around its character `c` at index `i`. */
  lemma SliceAroundChar(s: string, c: char, k: nat, i: nat)
    requires k <= i < |s| && s[i] == c
    ensures s[k..] == s[k..i] + ([c] + s[i + 1..])
  {
    assert s[k..] == s[k..i] + s[i..];
    assert s[i..] == [c] + s[i + 1..];
  }

  /** Deleting `c` around one found occurrence. */
  lemma DropAround(x: string, y: string, head: string, tail: string, rest: string, c: char)
    requires y == head + ([c] + rest) && x == head + tail
    requires Drop(head, c) == head && tail == Drop(rest, c)
    ensures x == Drop(y, c)
  {
    DropConcat(head, [c] + rest, c);
    DropLeading(rest, c);
  }

  /** Past the last occurrence of `c`, the deletion keeps the rest. */
  lemma RemoveCharNone(s: string, c: char, k: nat)
    requires k <= |s| && SearchFrom([c], s, k).None?
    ensures RemoveFrom(s, [c], k) == Drop(s[k..], c)
  {
    DropBeforeMatch(s, c, k, |s|);
    assert s[k..|s|] == s[k..];
  }

  /** At an occurrence of `c`, the deletion keeps what comes before and
      carries on behind it. */
  lemma RemoveCharStep(s: string, c: char, k: nat, i: nat)
    requires k <= |s| && SearchFrom([c], s, k) == Some(i)
    requires RemoveFrom(s, [c], i + 1) == Drop(s[i + 1..], c)
    ensures RemoveFrom(s, [c], k) == Drop(s[k..], c)
  {
    RemoveFromStep(s, [c], k, i);
    DropBeforeMatch(s, c, k, i);
    OccursChar(c, s, i);
    SliceAroundChar(s, c, k, i);
    DropAround(RemoveFrom(s, [c], k), s[k..], s[k..i], RemoveFrom(s, [c], i + 1), s[i + 1..], c);
  }

  /** `str_replace($c, '', $s)` from index `k` on deletes exactly the
      occurrences of the one character `c`. */
  lemma {:induction false} RemoveFromIsDrop(s: string, c: char, k: nat)
    requires k <= |s|
    ensures RemoveFrom(s, [c], k) == Drop(s[k..], c)
    decreases |s| - k
  {
    var found := SearchFrom([c], s, k);
    if found.None? {
      RemoveCharNone(s, c, k);
    } else {
      RemoveFromIsDrop(s, c, found.value + 1);
      RemoveCharStep(s, c, k, found.value);
    }
  }

  /** `str_replace($c, '', $s)` for a one-character search deletes exactly
      the occurrences of that character. */
  lemma RemoveCharIsDrop(s: string, c: char)
    ensures RemoveAll(s, [c]) == Drop(s, c)
  {
    RemoveFromIsDrop(s, c, 0);
    assert s[0..] == s;
  }

  /** The two-step replacement deletes exactly the two unsafe characters. */
  lemma SanitizeIsDrop(s: string)
    ensures RemoveEach(s, ["\\", "\""]) == Drop(Drop(s, '\\'), '"')
  {
    assert ["\\", "\""][1..] == ["\""];
    assert ["\""][1..] == [];
    RemoveCharIsDrop(s, '\\');
    RemoveCharIsDrop(Drop(s, '\\'), '"');
  }

  /** Deleting both unsafe characters leaves none, and leaves a text
      without them as it is. */
  lemma DropBoth(s: string)
    ensures |Drop(Drop(s, '\\'), '"')| <= |s|
    ensures forall i :: 0 <= i < |Drop(Drop(s, '\\'), '"')| ==> !Unsafe(Drop(Drop(s, '\\'), '"')[i])
    ensures (forall i :: 0 <= i < |s| ==> !Unsafe(s[i])) ==> Drop(Drop(s, '\\'), '"') == s
  {
    var once := Drop(s, '\\');
    DropCounts(s, '\\');
    DropCounts(once, '"');
    if forall i :: 0 <= i < |s| ==> !Unsafe(s[i]) {
      DropAbsent(s, '\\');
      DropAbsent(s, '"');
    }
  }

  /** `Result::trim`: `str_ireplace(array('\\', '"'), '', $s)`. PHP skips
      the replacement for `""` and `"0"`, which contain neither character,
      so the result is the same. No unsafe character is left, and a name
      without one passes through unchanged. */
  function Sanitize(s: string): (r: string)
    ensures |r| <= |s|
    ensures forall i :: 0 <= i < |r| ==> !Unsafe(r[i])
    ensures (forall i :: 0 <= i < |s| ==> !Unsafe(s[i])) ==> r == s
  {
    SanitizeIsDrop(s);
    DropBoth(s);
    RemoveEach(s, ["\\", "\""])
  }

  /** Sanitising deletes the unsafe characters and nothing else: every
      other character keeps its count, the order is kept, and a name with
      an unsafe character gets shorter. */
  lemma SanitizeKeepsSafe(s: string)
    ensures IsSubsequence(Sanitize(s), s)
    ensures forall x :: !Unsafe(x) ==> multiset(Sanitize(s))[x] == multiset(s)[x]
    ensures (exists i :: 0 <= i < |s| && Unsafe(s[i])) ==> |Sanitize(s)| < |s|
  {
    RemoveEachSubsequence(s, ["\\", "\""]);
    SanitizeIsDrop(s);
    var once := Drop(s, '\\');
    DropCounts(s, '\\');
    DropCounts(once, '"');
    if exists i :: 0 <= i < |s| && Unsafe(s[i]) {
      var i :| 0 <= i < |s| && Unsafe(s[i]);
      assert s[i] in multiset(s);
    }
  }

  /** Sanitising twice is sanitising once. */
  lemma SanitizeIdempotent(s: string)
    ensures Sanitize(Sanitize(s)) == Sanitize(s)
  {
  }

  /** The group a write or read goes to: the sanitised name, or the default
      group when that is PHP-empty. */
  function GroupKey(g: string): (r: string)
    ensures !PhpEmpty(r)
    ensures r == DefaultGroup <==> PhpEmpty(Sanitize(g)) || Sanitize(g) == DefaultGroup
    ensures r != DefaultGroup ==> r == Sanitize(g)
  {
    var s := Sanitize(g);
    if PhpEmpty(s) then DefaultGroup else s
  }

  // ---------------------------------------------------------------------
  // Reading and writing slots
  // ---------------------------------------------------------------------

  /** The value stored at already-normalised coordinates. */
  function SlotAt(store: Store, g: string, n: string, k: string): Option<Value>
  {
    match Find(store, g)
    case None => None
    case Some(gm) =>
      match Find(gm, n)
      case None => None
      case Some(mm) => Find(mm, k)
  }

  /** The metric map stored at already-normalised coordinates. */
  function MetricAt(store: Store, g: string, n: string): Option<MetricMap>
  {
    match Find(store, g)
    case None => None
    case Some(gm) => Find(gm, n)
  }

  /** What `Result::get` returns: `null`, a stored value, or a whole map. */
  datatype Got = Null | Slot(value: Value) | WholeMetric(metric: MetricMap) | WholeGroup(group: GroupMap)

  /** A slot as `get` reports it: `null` when it is missing. */
  function AsGot(o: Option<Value>): Got
  {
    match o
    case None => Null
    case Some(v) => Slot(v)
  }

  /** `Result::get($group, $name, $key)`. */
  function Get(store: Store, g: string, n: string, k: string): (r: Got)
    ensures !PhpEmpty(Sanitize(n)) && !PhpEmpty(Sanitize(k)) ==>
      r == AsGot(SlotAt(store, GroupKey(g), Sanitize(n), Sanitize(k)))
    ensures !PhpEmpty(Sanitize(n)) && PhpEmpty(Sanitize(k)) ==>
      match MetricAt(store, GroupKey(g), Sanitize(n))
      case None => r == Null
      case Some(mm) => r == WholeMetric(mm)
    ensures PhpEmpty(Sanitize(n)) ==>
      match Find(store, GroupKey(g))
      case None => r == Null
      case Some(gm) => r == WholeGroup(gm)
  {
    var G := GroupKey(g);
    var N := Sanitize(n);
    var K := Sanitize(k);
    if !PhpEmpty(N) then
      if !PhpEmpty(K) then
        AsGot(SlotAt(store, G, N, K))
      else
        match MetricAt(store, G, N)
        case None => Null
        case Some(mm) => WholeMetric(mm)
    else
      match Find(store, G)
      case None => Null
      case Some(gm) => WholeGroup(gm)
  }

  /** `Result::set($group, $name, $key, $value)`: the slot at the sanitised
      coordinates now holds `v`; every other slot is as before. */
  function Set(store: Store, g: string, n: string, k: string, v: Value): (r: Store)
    ensures SlotAt(r, GroupKey(g), Sanitize(n), Sanitize(k)) == Some(v)
    ensures forall G, N, K :: (G, N, K) != (GroupKey(g), Sanitize(n), Sanitize(k)) ==>
      SlotAt(r, G, N, K) == SlotAt(store, G, N, K)
  {
    var G := GroupKey(g);
    var N := Sanitize(n);
    var K := Sanitize(k);
    var gm := Find(store, G).GetOr([]);
    var mm := Find(gm, N).GetOr([]);
    Put(store, G, Put(gm, N, Put(mm, K, v)))
  }

  /** A write keeps the order of the groups and appends a new group last. */
  lemma SetGroupOrder(store: Store, g: string, n: string, k: string, v: Value)
    ensures GroupKey(g) in Keys(store) ==> Keys(Set(store, g, n, k, v)) == Keys(store)
    ensures GroupKey(g) !in Keys(store) ==> Keys(Set(store, g, n, k, v)) == Keys(store) + [GroupKey(g)]
  {
    var G := GroupKey(g);
    var gm := Find(store, G).GetOr([]);
    var mm := Find(gm, Sanitize(n)).GetOr([]);
    PutKeys(store, G, Put(gm, Sanitize(n), Put(mm, Sanitize(k), v)));
  }

  /** Reading back what was written: with a name and key that are not
      PHP-empty, `get` returns the value `set` stored. */
  lemma GetAfterSet(store: Store, g: string, n: string, k: string, v: Value)
    requires !PhpEmpty(Sanitize(n)) && !PhpEmpty(Sanitize(k))
    ensures Get(Set(store, g, n, k, v), g, n, k) == Slot(v)
  {
  }

  /** `$this->metrics[$g][$n][$arrayKey] = ...` with an array as the last
      key: PHP rejects the offset ("Illegal offset type") after the two
      outer levels have been created for writing, so the group and metric
      maps exist afterwards and no slot changes. */
  function Touch(store: Store, g: string, n: string): (r: Store)
    ensures MetricAt(r, GroupKey(g), Sanitize(n)).Some?
    ensures forall G, N, K :: SlotAt(r, G, N, K) == SlotAt(store, G, N, K)
  {
    var G := GroupKey(g);
    var N := Sanitize(n);
    var gm := Find(store, G).GetOr([]);
    var mm := Find(gm, N).GetOr([]);
    Put(store, G, Put(gm, N, mm))
  }

  /** `(int)` applied to what `get` returned. */
  function IntCast(got: Got): int
  {
    match got
    case Null => 0
    case Slot(Count(n)) => n
    case Slot(Lines(items)) => if |items| > 0 then 1 else 0
    case Slot(Untracked(size)) => if size > 0 then 1 else 0
    case WholeMetric(mm) => if |mm| > 0 then 1 else 0
    case WholeGroup(gm) => if |gm| > 0 then 1 else 0
  }

  /** The result of `(array)` applied to what `get` returned. */
  datatype PhpList = Known(items: seq<string>) | Opaque(size: nat)

  function ListCast(got: Got): (r: PhpList)
    ensures got == Null ==> r == Known([])
    ensures got.Slot? && got.value.Lines? ==> r == Known(got.value.items)
  {
    match got
    case Null => Known([])
    case Slot(Count(_)) => Opaque(1)
    case Slot(Lines(items)) => Known(items)
    case Slot(Untracked(size)) => if size == 0 then Known([]) else Opaque(size)
    case WholeMetric(mm) => if |mm| == 0 then Known([]) else Opaque(|mm|)
    case WholeGroup(gm) => if |gm| == 0 then Known([]) else Opaque(|gm|)
  }

  // ---------------------------------------------------------------------
  // Sort directives and `toArray`
  // ---------------------------------------------------------------------

  datatype SortBy = ByName | ByValue

  /** `SORT_NATURAL`, `SORT_NUMERIC`, `SORT_STRING`. */
  datatype Collation = Natural | Numeric | Lexical

  datatype Plan = Plan(sortBy: SortBy, collation: Collation, descending: bool)

  /** How `getSortingDetailsForMetricName` reads a `sort` object: `by` other
      than `name`/`value` (or absent) becomes `value`, `as` chooses the
      collation with string as the fallback, and only the literal `desc`
      gives descending order. */
  function PlanOf(spec: SortSpec): (r: Plan)
    ensures r.sortBy == ByName <==> spec.sortBy == Some("name")
    ensures r.collation == Natural <==> spec.sortAs == Some("natural")
    ensures r.collation == Numeric <==> spec.sortAs == Some("number")
    ensures r.descending <==> spec.sortOrder == Some("desc")
  {
    var key := if spec.sortBy == Some("name") then ByName else ByValue;
    var collation :=
      if spec.sortAs == Some("natural") then Natural
      else if spec.sortAs == Some("number") then Numeric
      else Lexical;
    Plan(key, collation, spec.sortOrder == Some("desc"))
  }

  /** `i` is the first configured metric whose name equals `name`. */
  ghost predicate FirstNamed(metrics: seq<Metric>, name: string, i: int) {
    0 <= i < |metrics| && metrics[i].name == name
    && forall j :: 0 <= j < i ==> metrics[j].name != name
  }

  /** `getSortingDetailsForMetricName`: the first configured metric with this
      name decides; without a `sort` object, or without such a metric, there
      is no sorting. */
  function Directive(metrics: seq<Metric>, name: string): (r: Option<Plan>)
    ensures r.Some? ==> exists i :: FirstNamed(metrics, name, i) && metrics[i].sort.Some?
    ensures forall i :: FirstNamed(metrics, name, i) ==>
      r == if metrics[i].sort.Some? then Some(PlanOf(metrics[i].sort.value)) else None
    ensures (forall i :: 0 <= i < |metrics| ==> metrics[i].name != name) ==> r == None
  {
    if |metrics| == 0 then None
    else if metrics[0].name == name then
      assert FirstNamed(metrics, name, 0);
      if metrics[0].sort.Some? then Some(PlanOf(metrics[0].sort.value)) else None
    else
      var r := Directive(metrics[1..], name);
      DirectiveShift(metrics, name, r);
      r
  }

  /** A directive found in the tail of the list, behind a differently named
      head, comes from the first metric of that name in the whole list. */
  lemma DirectiveShift(metrics: seq<Metric>, name: string, r: Option<Plan>)
    requires |metrics| > 0 && metrics[0].name != name
    requires r.Some? ==> exists i :: FirstNamed(metrics[1..], name, i) && metrics[1..][i].sort.Some?
    requires forall i :: FirstNamed(metrics[1..], name, i) ==>
      r == if metrics[1..][i].sort.Some? then Some(PlanOf(metrics[1..][i].sort.value)) else None
    ensures r.Some? ==> exists i :: FirstNamed(metrics, name, i) && metrics[i].sort.Some?
    ensures forall i :: FirstNamed(metrics, name, i) ==>
      r == if metrics[i].sort.Some? then Some(PlanOf(metrics[i].sort.value)) else None
  {
    forall i | FirstNamed(metrics, name, i)
      ensures i > 0 && FirstNamed(metrics[1..], name, i - 1)
    {
    }
    if r.Some? {
      var i :| FirstNamed(metrics[1..], name, i) && metrics[1..][i].sort.Some?;
      assert FirstNamed(metrics, name, i + 1);
    }
  }

  /** The comparisons PHP uses under each collation, supplied by the caller:
      `keyLe(c, a, b)` orders keys, `valueLe(c, a, b)` orders values. */
  datatype Collator = Collator(
    keyLe: (Collation, string, string) -> bool,
    valueLe: (Collation, Value, Value) -> bool)

  /** The order a plan puts a metric's entries in. */
  function EntryOrder(plan: Plan, c: Collator): ((string, Value), (string, Value)) -> bool
  {
    (a: (string, Value), b: (string, Value)) =>
      var x := if plan.descending then b else a;
      var y := if plan.descending then a else b;
      if plan.sortBy == ByName then c.keyLe(plan.collation, x.0, y.0)
      else c.valueLe(plan.collation, x.1, y.1)
  }

  /** The collation the plan uses is a total preorder on what it compares. */
  ghost predicate Coherent(plan: Plan, c: Collator) {
    if plan.sortBy == ByName then
      Sorting.TotalPreorder((a: string, b: string) => c.keyLe(plan.collation, a, b))
    else
      Sorting.TotalPreorder((a: Value, b: Value) => c.valueLe(plan.collation, a, b))
  }

  lemma EntryOrderTotal(plan: Plan, c: Collator)
    requires Coherent(plan, c)
    ensures Sorting.TotalPreorder(EntryOrder(plan, c))
  {
    var le := EntryOrder(plan, c);
    if plan.sortBy == ByName {
      var kle := (a: string, b: string) => c.keyLe(plan.collation, a, b);
      assert forall a: (string, Value), b: (string, Value) :: le(a, b) == (if plan.descending then kle(b.0, a.0) else kle(a.0, b.0));
    } else {
      var vle := (a: Value, b: Value) => c.valueLe(plan.collation, a, b);
      assert forall a: (string, Value), b: (string, Value) :: le(a, b) == (if plan.descending then vle(b.1, a.1) else vle(a.1, b.1));
    }
  }

  lemma SortsWhenCoherent(entries: MetricMap, p: Plan, c: Collator)
    ensures Coherent(p, c) ==> Sorting.SortedBy(Sorting.InsertionSort(entries, EntryOrder(p, c)), EntryOrder(p, c))
  {
    if Coherent(p, c) {
      EntryOrderTotal(p, c);
      Sorting.InsertionSortSorted(entries, EntryOrder(p, c));
    }
  }

  /** One metric's entries as `sortedResults` leaves them: untouched without
      a directive; otherwise a permutation of the key/value pairs in the
      plan's order. */
  function SortMetric(entries: MetricMap, plan: Option<Plan>, c: Collator): (r: MetricMap)
    ensures plan.None? ==> r == entries
    ensures multiset(r) == multiset(entries)
    ensures plan.Some? && Coherent(plan.value, c) ==> Sorting.SortedBy(r, EntryOrder(plan.value, c))
  {
    match plan
    case None => entries
    case Some(p) =>
      SortsWhenCoherent(entries, p, c);
      Sorting.InsertionSort(entries, EntryOrder(p, c))
  }

  /** `sortedResults` before its final choice: every metric of every group
      with its directive applied, groups and metrics in store order. */
  function SortedResults(store: Store, metrics: seq<Metric>, c: Collator): (r: Store)
    ensures |r| == |store|
    ensures forall i :: 0 <= i < |r| ==> r[i].0 == store[i].0 && |r[i].1| == |store[i].1|
    ensures forall i, j :: 0 <= i < |r| && 0 <= j < |r[i].1| ==>
      r[i].1[j].0 == store[i].1[j].0
      && r[i].1[j].1 == SortMetric(store[i].1[j].1, Directive(metrics, store[i].1[j].0), c)
  {
    seq(|store|, i requires 0 <= i < |store| =>
      (store[i].0, seq(|store[i].1|, j requires 0 <= j < |store[i].1| =>
        (store[i].1[j].0, SortMetric(store[i].1[j].1, Directive(metrics, store[i].1[j].0), c)))))
  }

  /** `Result::toArray`: the sorted results, except that with more than one
      group the raw, unsorted store is returned. */
  function ToArray(store: Store, metrics: seq<Metric>, c: Collator): (r: Store)
    ensures |store| > 1 ==> r == store
    ensures |r| == |store|
    ensures forall i :: 0 <= i < |r| ==> r[i].0 == store[i].0
  {
    var sorted := SortedResults(store, metrics, c);
    if |sorted| > 1 then store else sorted
  }

  /** With at most one group, each metric comes out as a permutation of its
      entries, ordered by its directive when it has one and in insertion
      order when it has none. */
  lemma ToArraySingleGroup(store: Store, metrics: seq<Metric>, c: Collator, j: int)
    requires |store| == 1 && 0 <= j < |store[0].1|
    ensures |ToArray(store, metrics, c)[0].1| == |store[0].1|
    ensures ToArray(store, metrics, c)[0].1[j].0 == store[0].1[j].0
    ensures multiset(ToArray(store, metrics, c)[0].1[j].1) == multiset(store[0].1[j].1)
    ensures Directive(metrics, store[0].1[j].0).None? ==>
      ToArray(store, metrics, c)[0].1[j].1 == store[0].1[j].1
    ensures Directive(metrics, store[0].1[j].0).Some? && Coherent(Directive(metrics, store[0].1[j].0).value, c) ==>
      Sorting.SortedBy(ToArray(store, metrics, c)[0].1[j].1, EntryOrder(Directive(metrics, store[0].1[j].0).value, c))
  {
  }
}
