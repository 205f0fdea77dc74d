/**
 * The two reports of `run` and `aggregate_ops` (sniff_info.py): the optional
 * collection filter, the ten operations with the largest replies, and the
 * per-collection totals ordered by reply bytes.
 */
module Reports {
  import opened Wrappers
  import opened Ordering
  import opened Matcher

  /** `a` can be obtained from `b` by deleting elements. */
  ghost predicate IsSubsequence<T>(a: seq<T>, b: seq<T>)
    decreases |b|
  {
    a == [] || (b != [] && ((a[0] == b[0] && IsSubsequence(a[1..], b[1..])) || IsSubsequence(a, b[1..])))
  }

  /** The operations on collection `c`, in their original order. */
  function KeepCollection(ops: seq<Op>, c: string): (r: seq<Op>)
    ensures forall k :: 0 <= k < |r| ==> r[k].collection == c
  {
    if ops == [] then [] else (if ops[0].collection == c then [ops[0]] else []) + KeepCollection(ops[1..], c)
  }

  /** The filter drops no matching operation and adds none: multiplicities agree on collection `c`. */
  lemma {:induction false} KeepCollectionCounts(ops: seq<Op>, c: string)
    ensures forall op :: multiset(KeepCollection(ops, c))[op] == if op.collection == c then multiset(ops)[op] else 0
    decreases |ops|
  {
    if ops != [] {
      KeepCollectionCounts(ops[1..], c);
      assert ops == [ops[0]] + ops[1..];
      assert multiset(ops) == multiset([ops[0]]) + multiset(ops[1..]);
    }
  }

  /** The filter keeps the input order. */
  lemma {:induction false} KeepCollectionOrder(ops: seq<Op>, c: string)
    ensures IsSubsequence(KeepCollection(ops, c), ops)
    decreases |ops|
  {
    if ops != [] {
      KeepCollectionOrder(ops[1..], c);
      var r := KeepCollection(ops, c);
      if ops[0].collection == c {
        assert r[1..] == KeepCollection(ops[1..], c);
      } else {
        assert r == KeepCollection(ops[1..], c);
      }
    }
  }

  /** The collection filter of `run`, applied only when a collection is given. */
  function FilterCollection(ops: seq<Op>, collection: Option<string>): (r: seq<Op>)
    ensures collection.None? ==> r == ops
    ensures collection.Some? ==> forall k :: 0 <= k < |r| ==> r[k].collection == collection.value
    ensures collection.Some? ==>
              forall op :: multiset(r)[op] == if op.collection == collection.value then multiset(ops)[op] else 0
    ensures IsSubsequence(r, ops)
  {
    match collection
    case None => SubsequenceRefl(ops); ops
    case Some(c) => KeepCollectionCounts(ops, c); KeepCollectionOrder(ops, c); KeepCollection(ops, c)
  }

  lemma {:induction false} SubsequenceRefl<T>(s: seq<T>)
    ensures IsSubsequence(s, s)
    decreases |s|
  {
    if s != [] {
      SubsequenceRefl(s[1..]);
    }
  }

  /** How many operations the sort report shows. */
  const TopCount := 10

  function SizeIn(op: Op): int { op.sizeIn }

  function SizeOut(op: Op): int { op.sizeOut }

  /** The first ten operations after a stable sort by bytes out, largest first. */
  function TopBySizeOut(ops: seq<Op>): (r: seq<Op>)
    ensures |r| == if |ops| < TopCount then |ops| else TopCount
    ensures multiset(r) <= multiset(ops)
    ensures NonIncreasing(r, SizeOut)
  {
    var n := if |ops| < TopCount then |ops| else TopCount;
    var sorted := SortDesc(ops, SizeOut);
    SortDescOrdered(ops, SizeOut);
    SortDescPermutes(ops, SizeOut);
    assert sorted == sorted[..n] + sorted[n..];
    sorted[..n]
  }

  /** The operations left out of a prefix of a sorted sequence are not larger than any kept. */
  lemma PrefixDominates(sorted: seq<Op>, n: nat)
    requires n <= |sorted|
    requires NonIncreasing(sorted, SizeOut)
    ensures forall x :: x in multiset(sorted) - multiset(sorted[..n]) ==>
              forall k :: 0 <= k < n ==> sorted[k].sizeOut >= x.sizeOut
  {
    var r := sorted[..n];
    assert sorted == r + sorted[n..];
    assert multiset(sorted) - multiset(r) == multiset(sorted[n..]);
    forall x | x in multiset(sorted) - multiset(r)
      ensures forall k :: 0 <= k < n ==> sorted[k].sizeOut >= x.sizeOut
    {
      assert x in sorted[n..];
      var idx :| 0 <= idx < |sorted[n..]| && sorted[n..][idx] == x;
      assert sorted[n + idx] == x;
    }
  }

  /**
   * The sort report holds min(10, n) operations, largest reply first, taken
   * from the input; no operation left out has a larger reply than one shown;
   * and among operations with equal reply sizes the ones shown are the
   * earliest, in input order.
   */
  lemma TopBySizeOutSpec(ops: seq<Op>)
    ensures |TopBySizeOut(ops)| == if |ops| < TopCount then |ops| else TopCount
    ensures NonIncreasing(TopBySizeOut(ops), SizeOut)
    ensures multiset(TopBySizeOut(ops)) <= multiset(ops)
    ensures forall x :: x in multiset(ops) - multiset(TopBySizeOut(ops)) ==>
              forall k :: 0 <= k < |TopBySizeOut(ops)| ==> TopBySizeOut(ops)[k].sizeOut >= x.sizeOut
    ensures forall v :: WithKey(TopBySizeOut(ops), SizeOut, v) <= WithKey(ops, SizeOut, v)
  {
    TopOrdered(ops);
    TopDrawn(ops);
    TopStable(ops);
  }

  lemma TopOrdered(ops: seq<Op>)
    ensures NonIncreasing(TopBySizeOut(ops), SizeOut)
  {
    SortDescOrdered(ops, SizeOut);
  }

  lemma TopDrawn(ops: seq<Op>)
    ensures multiset(TopBySizeOut(ops)) <= multiset(ops)
    ensures forall x :: x in multiset(ops) - multiset(TopBySizeOut(ops)) ==>
              forall k :: 0 <= k < |TopBySizeOut(ops)| ==> TopBySizeOut(ops)[k].sizeOut >= x.sizeOut
  {
    var sorted := SortDesc(ops, SizeOut);
    var n := if |ops| < TopCount then |ops| else TopCount;
    SortDescOrdered(ops, SizeOut);
    SortDescPermutes(ops, SizeOut);
    assert sorted == sorted[..n] + sorted[n..];
    assert multiset(sorted[..n]) <= multiset(sorted);
    PrefixDominates(sorted, n);
  }

  lemma TopStable(ops: seq<Op>)
    ensures forall v :: WithKey(TopBySizeOut(ops), SizeOut, v) <= WithKey(ops, SizeOut, v)
  {
    var sorted := SortDesc(ops, SizeOut);
    var n := if |ops| < TopCount then |ops| else TopCount;
    forall v ensures WithKey(sorted[..n], SizeOut, v) <= WithKey(ops, SizeOut, v) {
      SortDescStable(ops, SizeOut, v);
      WithKeyOfPrefix(sorted, SizeOut, v, n);
    }
  }

  /** One line of the aggregate report. */
  datatype Entry = Entry(collection: string, opsCount: int, sizeIn: int, sizeOut: int)

  function EntryCount(e: Entry): int { e.opsCount }

  function EntrySizeIn(e: Entry): int { e.sizeIn }

  function EntrySizeOut(e: Entry): int { e.sizeOut }

  function One(op: Op): int { 1 }

  /** The sum of `w` over the operations on collection `c`. */
  function GroupSum(ops: seq<Op>, c: string, w: Op -> int): int {
    if ops == [] then 0
    else GroupSum(ops[..|ops| - 1], c, w) + (if ops[|ops| - 1].collection == c then w(ops[|ops| - 1]) else 0)
  }

  /** The totals the report owes collection `c`: operation count, bytes in, bytes out. */
  function Rollup(ops: seq<Op>, c: string): Entry {
    Entry(c, GroupSum(ops, c, One), GroupSum(ops, c, SizeIn), GroupSum(ops, c, SizeOut))
  }

  /** Counting one more operation changes only the totals of its own collection. */
  lemma RollupStep(ops: seq<Op>, i: nat, c: string)
    requires i < |ops|
    ensures Rollup(ops[..i + 1], c) ==
            if ops[i].collection == c
            then Entry(c, Rollup(ops[..i], c).opsCount + 1, Rollup(ops[..i], c).sizeIn + ops[i].sizeIn,
                       Rollup(ops[..i], c).sizeOut + ops[i].sizeOut)
            else Rollup(ops[..i], c)
  {
    assert ops[..i + 1][..i] == ops[..i];
  }

  /**
   * The totals of collection `c` over the first `i` operations, counted one
   * operation at a time as the aggregation loop does.
   */
  function RollupTo(ops: seq<Op>, i: nat, c: string): (r: Entry)
    requires i <= |ops|
    ensures r.collection == c
  {
    if i == 0 then Entry(c, 0, 0, 0)
    else
      var before := RollupTo(ops, i - 1, c);
      if ops[i - 1].collection == c
      then Entry(c, before.opsCount + 1, before.sizeIn + ops[i - 1].sizeIn, before.sizeOut + ops[i - 1].sizeOut)
      else before
  }

  /** Counting one operation at a time gives the rollup of the prefix. */
  lemma {:induction false} RollupToPrefix(ops: seq<Op>, i: nat, c: string)
    requires i <= |ops|
    ensures RollupTo(ops, i, c) == Rollup(ops[..i], c)
    decreases i
  {
    if i > 0 {
      RollupToPrefix(ops, i - 1, c);
      RollupStep(ops, i - 1, c);
    }
  }

  /** Before its first operation a collection's running totals are zero. */
  lemma {:induction false} RollupToAbsent(ops: seq<Op>, i: nat, c: string)
    requires i <= |ops|
    requires forall k :: 0 <= k < i ==> ops[k].collection != c
    ensures RollupTo(ops, i, c) == Entry(c, 0, 0, 0)
    decreases i
  {
    if i > 0 {
      RollupToAbsent(ops, i - 1, c);
    }
  }

  /** A collection with a nonzero operation count is the collection of some operation. */
  lemma {:induction false} RollupOccurs(ops: seq<Op>, c: string)
    requires Rollup(ops, c).opsCount != 0
    ensures c in CollectionsOf(ops)
    decreases |ops|
  {
    var n := |ops| - 1;
    if ops[n].collection == c {
      assert CollectionsOf(ops)[n] == c;
    } else {
      RollupOccurs(ops[..n], c);
      var k :| 0 <= k < n && CollectionsOf(ops[..n])[k] == c;
      assert CollectionsOf(ops)[k] == c;
    }
  }

  /** A collection no operation names has zero totals. */
  lemma {:induction false} RollupAbsent(ops: seq<Op>, c: string)
    requires forall k :: 0 <= k < |ops| ==> ops[k].collection != c
    ensures Rollup(ops, c) == Entry(c, 0, 0, 0)
    decreases |ops|
  {
    if ops != [] {
      RollupAbsent(ops[..|ops| - 1], c);
    }
  }

  function CollectionsOf(ops: seq<Op>): (r: seq<string>)
    ensures |r| == |ops| && forall k :: 0 <= k < |ops| ==> r[k] == ops[k].collection
  {
    seq(|ops|, k requires 0 <= k < |ops| => ops[k].collection)
  }

  function KeysOf(entries: seq<Entry>): (r: seq<string>)
    ensures |r| == |entries| && forall k :: 0 <= k < |entries| ==> r[k] == entries[k].collection
  {
    seq(|entries|, k requires 0 <= k < |entries| => entries[k].collection)
  }

  /**
   * What `aggregate_ops` promises: one entry per distinct collection of the
   * operations, each with the count and byte sums of that collection, ordered
   * by bytes out, largest first. The order among equal totals is left open.
   */
  ghost predicate IsAggregation(ops: seq<Op>, entries: seq<Entry>) {
    && (forall k :: 0 <= k < |entries| ==>
          entries[k] == Rollup(ops, entries[k].collection) && entries[k].collection in CollectionsOf(ops))
    && (forall k :: 0 <= k < |ops| ==> ops[k].collection in KeysOf(entries))
    && Distinct(KeysOf(entries))
    && NonIncreasing(entries, EntrySizeOut)
  }

  /**
   * The per-collection totals of `ops`, gathered in one pass into a map, and
   * the collections in the order they first appear.
   */
  method Tally(ops: seq<Op>) returns (data: map<string, Entry>, keys: seq<string>)
    ensures Distinct(keys)
    ensures forall c :: c in data <==> c in keys
    ensures forall m :: 0 <= m < |keys| ==> keys[m] in CollectionsOf(ops)
    ensures forall k :: 0 <= k < |ops| ==> ops[k].collection in data
    ensures forall c :: c in data ==> data[c] == Rollup(ops, c)
  {
    data := map[];
    keys := [];
    for i := 0 to |ops|
      invariant Distinct(keys)
      invariant forall c :: c in data <==> c in keys
      invariant forall k :: 0 <= k < i ==> ops[k].collection in data
      invariant forall c :: c in data ==> data[c] == RollupTo(ops, i, c) && data[c].opsCount > 0
    {
      var op := ops[i];
      var c := op.collection;
      var before := Entry(c, 0, 0, 0);
      if c in data {
        before := data[c];
      } else {
        assert forall k :: 0 <= k < i ==> ops[k].collection != c;
        RollupToAbsent(ops, i, c);
        keys := keys + [c];
      }
      data := data[c := Entry(c, before.opsCount + 1, before.sizeIn + op.sizeIn, before.sizeOut + op.sizeOut)];
    }
    forall c | c in data ensures data[c] == Rollup(ops, c) && c in CollectionsOf(ops) {
      RollupToPrefix(ops, |ops|, c);
      assert ops[..|ops|] == ops;
      RollupOccurs(ops, c);
    }
  }

  method AggregateOps(ops: seq<Op>) returns (entries: seq<Entry>)
    ensures IsAggregation(ops, entries)
  {
    var data, keys := Tally(ops);
    var items := seq(|keys|, m requires 0 <= m < |keys| => data[keys[m]]);
    entries := SortDesc(items, EntrySizeOut);
    SortedRollups(ops, keys, items);
  }

  /** Entries rolled up for distinct keys are distinct. */
  lemma {:induction false} RollupsDistinct(ops: seq<Op>, keys: seq<string>, items: seq<Entry>)
    requires Distinct(keys)
    requires |items| == |keys| && forall m :: 0 <= m < |keys| ==> items[m] == Rollup(ops, keys[m])
    ensures Distinct(items)
  {
    forall a, b | 0 <= a < b < |items| ensures items[a] != items[b] {
      assert items[a].collection == keys[a];
      assert items[b].collection == keys[b];
    }
  }

  /** Sorting the rolled-up entries of distinct keys yields an aggregation. */
  lemma SortedRollups(ops: seq<Op>, keys: seq<string>, items: seq<Entry>)
    requires Distinct(keys)
    requires forall m :: 0 <= m < |keys| ==> keys[m] in CollectionsOf(ops)
    requires forall k :: 0 <= k < |ops| ==> ops[k].collection in keys
    requires |items| == |keys| && forall m :: 0 <= m < |keys| ==> items[m] == Rollup(ops, keys[m])
    ensures IsAggregation(ops, SortDesc(items, EntrySizeOut))
  {
    var entries := SortDesc(items, EntrySizeOut);
    SortDescOrdered(items, EntrySizeOut);
    SortDescPermutes(items, EntrySizeOut);
    RollupsDistinct(ops, keys, items);
    SortDescDistinct(items, EntrySizeOut);
    RolledUpEntries(ops, keys, items, entries);
    CoveredEntries(ops, keys, items, entries);
    forall a, b | 0 <= a < b < |entries| ensures KeysOf(entries)[a] != KeysOf(entries)[b] {
      assert entries[a] != entries[b];
    }
  }

  lemma RolledUpEntries(ops: seq<Op>, keys: seq<string>, items: seq<Entry>, entries: seq<Entry>)
    requires forall m :: 0 <= m < |keys| ==> keys[m] in CollectionsOf(ops)
    requires |items| == |keys| && forall m :: 0 <= m < |keys| ==> items[m] == Rollup(ops, keys[m])
    requires multiset(entries) == multiset(items)
    ensures forall k :: 0 <= k < |entries| ==>
              entries[k] == Rollup(ops, entries[k].collection) && entries[k].collection in CollectionsOf(ops)
  {
    forall k | 0 <= k < |entries|
      ensures entries[k] == Rollup(ops, entries[k].collection) && entries[k].collection in CollectionsOf(ops)
    {
      assert entries[k] in multiset(items);
      var m :| 0 <= m < |items| && items[m] == entries[k];
    }
  }

  lemma CoveredEntries(ops: seq<Op>, keys: seq<string>, items: seq<Entry>, entries: seq<Entry>)
    requires forall k :: 0 <= k < |ops| ==> ops[k].collection in keys
    requires |items| == |keys| && forall m :: 0 <= m < |keys| ==> items[m] == Rollup(ops, keys[m])
    requires multiset(entries) == multiset(items)
    ensures forall k :: 0 <= k < |ops| ==> ops[k].collection in KeysOf(entries)
  {
    forall k | 0 <= k < |ops| ensures ops[k].collection in KeysOf(entries) {
      var m :| 0 <= m < |keys| && keys[m] == ops[k].collection;
      assert items[m] in multiset(entries);
      var j :| 0 <= j < |entries| && entries[j] == items[m];
      assert KeysOf(entries)[j] == ops[k].collection;
    }
  }

  /** The sum over keys `ks` of each key's group sum. */
  function KeySum(ks: seq<string>, ops: seq<Op>, w: Op -> int): int {
    if ks == [] then 0 else KeySum(ks[..|ks| - 1], ops, w) + GroupSum(ops, ks[|ks| - 1], w)
  }

  lemma {:induction false} KeySumStep(ks: seq<string>, ops: seq<Op>, o: Op, w: Op -> int)
    requires Distinct(ks)
    ensures KeySum(ks, ops + [o], w) == KeySum(ks, ops, w) + (if o.collection in ks then w(o) else 0)
    decreases |ks|
  {
    var all := ops + [o];
    assert all[..|all| - 1] == ops;
    if ks != [] {
      var init := ks[..|ks| - 1];
      assert ks == init + [ks[|ks| - 1]];
      assert Distinct(init);
      KeySumStep(init, ops, o, w);
    }
  }

  /** Summing every group once gives the sum over all operations. */
  lemma {:induction false} KeySumAll(ks: seq<string>, ops: seq<Op>, w: Op -> int)
    requires Distinct(ks)
    requires forall k :: 0 <= k < |ops| ==> ops[k].collection in ks
    ensures KeySum(ks, ops, w) == SumOf(ops, w)
    decreases |ops|
  {
    if ops == [] {
      KeySumEmpty(ks, w);
    } else {
      var init := ops[..|ops| - 1];
      var o := ops[|ops| - 1];
      assert ops == init + [o];
      KeySumAll(ks, init, w);
      KeySumStep(ks, init, o, w);
    }
  }

  lemma {:induction false} KeySumEmpty(ks: seq<string>, w: Op -> int)
    ensures KeySum(ks, [], w) == 0
    decreases |ks|
  {
    if ks != [] {
      KeySumEmpty(ks[..|ks| - 1], w);
    }
  }

  lemma {:induction false} EntrySums(ops: seq<Op>, entries: seq<Entry>, f: Entry -> int, w: Op -> int)
    requires forall k :: 0 <= k < |entries| ==> f(entries[k]) == GroupSum(ops, entries[k].collection, w)
    ensures SumOf(entries, f) == KeySum(KeysOf(entries), ops, w)
    decreases |entries|
  {
    if entries != [] {
      var init := entries[..|entries| - 1];
      assert KeysOf(entries)[..|entries| - 1] == KeysOf(init);
      EntrySums(ops, init, f, w);
    }
  }

  lemma {:induction false} SumOfOne(ops: seq<Op>)
    ensures SumOf(ops, One) == |ops|
    decreases |ops|
  {
    if ops != [] {
      SumOfOne(ops[..|ops| - 1]);
    }
  }

  /**
   * An aggregation accounts for every operation exactly once: its counts add
   * up to the number of operations and its byte totals to the operations' byte
   * sums.
   */
  lemma {:induction false} AggregationTotals(ops: seq<Op>, entries: seq<Entry>)
    requires IsAggregation(ops, entries)
    ensures SumOf(entries, EntryCount) == |ops|
    ensures SumOf(entries, EntrySizeIn) == SumOf(ops, SizeIn)
    ensures SumOf(entries, EntrySizeOut) == SumOf(ops, SizeOut)
  {
    EntrySums(ops, entries, EntryCount, One);
    EntrySums(ops, entries, EntrySizeIn, SizeIn);
    EntrySums(ops, entries, EntrySizeOut, SizeOut);
    KeySumAll(KeysOf(entries), ops, One);
    KeySumAll(KeysOf(entries), ops, SizeIn);
    KeySumAll(KeysOf(entries), ops, SizeOut);
    SumOfOne(ops);
  }

  /** An empty selection of operations aggregates to an empty report. */
  lemma AggregationOfNothing(entries: seq<Entry>)
    requires IsAggregation([], entries)
    ensures entries == []
  {
    if |entries| > 0 {
      EntryHasOp([], entries, 0);
    }
  }

  /** Every entry of an aggregation names the collection of some operation. */
  lemma EntryHasOp(ops: seq<Op>, entries: seq<Entry>, k: nat)
    requires IsAggregation(ops, entries) && k < |entries|
    ensures exists m :: 0 <= m < |ops| && ops[m].collection == entries[k].collection
  {
    var cs := CollectionsOf(ops);
    assert entries[k].collection in cs;
    var m :| 0 <= m < |cs| && cs[m] == entries[k].collection;
  }

  /**
   * The report is determined up to the order of entries with equal bytes out:
   * any two aggregations of the same operations hold the same entries.
   */
  lemma AggregationUnique(ops: seq<Op>, e1: seq<Entry>, e2: seq<Entry>)
    requires IsAggregation(ops, e1) && IsAggregation(ops, e2)
    ensures multiset(e1) == multiset(e2)
  {
    EntriesDistinct(ops, e1);
    EntriesDistinct(ops, e2);
    forall x ensures multiset(e1)[x] == multiset(e2)[x] {
      DistinctCount(e1, x);
      DistinctCount(e2, x);
      if x in e1 { EntryInOther(ops, e1, e2, x); }
      if x in e2 { EntryInOther(ops, e2, e1, x); }
    }
  }

  lemma {:induction false} EntriesDistinct(ops: seq<Op>, entries: seq<Entry>)
    requires IsAggregation(ops, entries)
    ensures Distinct(entries)
  {
    forall a, b | 0 <= a < b < |entries| ensures entries[a] != entries[b] {
      assert KeysOf(entries)[a] != KeysOf(entries)[b];
    }
  }

  /** An entry of one aggregation appears in any other aggregation of the same operations. */
  lemma {:induction false} EntryInOther(ops: seq<Op>, e1: seq<Entry>, e2: seq<Entry>, x: Entry)
    requires IsAggregation(ops, e1) && IsAggregation(ops, e2) && x in e1
    ensures x in e2
  {
    var k :| 0 <= k < |e1| && e1[k] == x;
    EntryHasOp(ops, e1, k);
    var m :| 0 <= m < |ops| && ops[m].collection == x.collection;
    var j :| 0 <= j < |e2| && KeysOf(e2)[j] == x.collection;
    assert e2[j] == Rollup(ops, x.collection) == x;
  }

  /** A sequence without repetitions holds each value at most once. */
  lemma {:induction false} DistinctCount(s: seq<Entry>, x: Entry)
    requires Distinct(s)
    ensures multiset(s)[x] == if x in s then 1 else 0
  {
    if s != [] {
      var n := |s| - 1;
      assert s == s[..n] + [s[n]];
      assert Distinct(s[..n]);
      DistinctCount(s[..n], x);
      assert s[n] !in s[..n];
    }
  }
}
