/** The Greenwald-Khanna summary of gk.h: an ordered multiset of tuples
    (value, g, delta) ending in a sentinel tuple at `maxV`, plus a min-heap of
    threshold entries that schedules merges of adjacent tuples lazily.

    Map iterators become tuple ids: every tuple carries a unique `id`, and a heap
    entry names the tuple it was created for. The sentinel has id 0. */
module GK {
  import opened Search

  datatype Tuple = Tuple(value: int, g: nat, delta: nat, id: nat)

  /** A candidate merge of the tuple `id` into its successor, allowed once the
      global threshold reaches `threshold`. */
  datatype ThresholdEntry = ThresholdEntry(threshold: nat, id: nat)

  datatype Sketch = Sketch(
    lastN: nat,
    maxV: int,
    tuples: seq<Tuple>,
    heap: seq<ThresholdEntry>,
    nextId: nat)

  const SentinelId: nat := 0

  type Positive = d: nat | d > 0 witness 1

  /** The error bound EPS, as the non-negative rational num / den. */
  datatype Eps = Eps(num: nat, den: Positive)

  /** The global threshold once n values have been fed: floor(2 * EPS * n). */
  function Threshold(eps: Eps, n: nat): nat {
    (2 * eps.num * n) / eps.den
  }

  /** The threshold never decreases as values arrive. */
  lemma ThresholdMonotone(eps: Eps, a: nat, b: nat)
    requires a <= b
    ensures Threshold(eps, a) <= Threshold(eps, b)
  {
    var x, y := 2 * eps.num * a, 2 * eps.num * b;
    assert x <= y by {
      assert y - x == 2 * eps.num * (b - a);
    }
    var q := x / eps.den;
    assert q * eps.den <= x;
    assert q * eps.den <= y;
    DivLowerBound(y, eps.den, q);
  }

  lemma DivLowerBound(y: nat, d: Positive, q: nat)
    requires q * d <= y
    ensures q <= y / d
  {
    var r := y / d;
    assert y == r * d + y % d && y % d < d;
    LessOfMulLess(q, r + 1, d);
  }

  /** A positive factor cancels from a strict inequality. */
  lemma {:induction false} LessOfMulLess(a: nat, b: nat, d: Positive)
    requires a * d < b * d
    ensures a < b
    decreases a
  {
    if a > 0 && b > 0 {
      LessOfMulLess(a - 1, b - 1, d);
    }
  }

  /* ----- views of the tuple sequence ----- */

  function Values(ts: seq<Tuple>): seq<int> {
    seq(|ts|, i requires 0 <= i < |ts| => ts[i].value)
  }

  function Ids(ts: seq<Tuple>): seq<nat> {
    seq(|ts|, i requires 0 <= i < |ts| => ts[i].id)
  }

  function HeapIds(h: seq<ThresholdEntry>): seq<nat> {
    seq(|h|, i requires 0 <= i < |h| => h[i].id)
  }

  function Last<T>(s: seq<T>): T
    requires |s| > 0
  {
    s[|s| - 1]
  }

  /** Sum of the g fields. */
  function SumG(ts: seq<Tuple>): nat {
    if |ts| == 0 then 0 else ts[0].g + SumG(ts[1..])
  }

  /** What tuple i costs once merged into its successor: the successor's new g + delta. */
  function Cost(ts: seq<Tuple>, i: nat): nat
    requires i + 1 < |ts|
  {
    ts[i].g + ts[i + 1].g + ts[i + 1].delta
  }

  /** Tuple i absorbed into its successor and erased. */
  function MergeAt(ts: seq<Tuple>, i: nat): (r: seq<Tuple>)
    requires i + 1 < |ts|
    ensures |r| == |ts| - 1
  {
    ts[..i] + [ts[i + 1].(g := ts[i].g + ts[i + 1].g)] + ts[i + 2..]
  }

  /** Tuple j with its g raised by one: the absorb step. */
  function RaiseG(ts: seq<Tuple>, j: nat): seq<Tuple>
    requires j < |ts|
  {
    ts[j := ts[j].(g := ts[j].g + 1)]
  }

  function RemoveAt<T>(s: seq<T>, m: nat): seq<T>
    requires m < |s|
  {
    s[..m] + s[m + 1..]
  }

  function Max(a: nat, b: nat): nat {
    if a >= b then a else b
  }

  /** Position of the first tuple with the largest g + delta. */
  function ArgMaxGD(ts: seq<Tuple>): (k: nat)
    requires |ts| > 0
    ensures k < |ts|
    ensures forall i :: 0 <= i < |ts| ==> ts[i].g + ts[i].delta <= ts[k].g + ts[k].delta
  {
    if |ts| == 1 then 0
    else
      var k := ArgMaxGD(ts[..|ts| - 1]);
      assert ts[..|ts| - 1][k] == ts[k];
      if ts[|ts| - 1].g + ts[|ts| - 1].delta > ts[k].g + ts[k].delta then |ts| - 1 else k
  }

  /** The largest g + delta of the tuples (0 for none). */
  function MaxGD(ts: seq<Tuple>): (m: nat)
    ensures forall i :: 0 <= i < |ts| ==> ts[i].g + ts[i].delta <= m
  {
    if |ts| == 0 then 0 else ts[ArgMaxGD(ts)].g + ts[ArgMaxGD(ts)].delta
  }

  /* ----- invariants ----- */

  /** Every g is positive. */
  ghost predicate GPositive(ts: seq<Tuple>) {
    forall i :: 0 <= i < |ts| ==> ts[i].g >= 1
  }

  /** The delta of a tuple is at most g + delta of its successor, so the
      finalized keys ascend and merges only raise costs. */
  ghost predicate DeltasChained(ts: seq<Tuple>) {
    forall i, k {:trigger ts[i].delta, ts[k].delta} :: 0 <= i && k == i + 1 && k < |ts| ==> ts[i].delta <= ts[k].g + ts[k].delta
  }

  ghost predicate IdsDistinct(ts: seq<Tuple>) {
    forall i, j {:trigger ts[i].id, ts[j].id} :: 0 <= i < j < |ts| ==> ts[i].id != ts[j].id
  }

  /** Values ascending, every g positive, deltas chained, ids distinct. */
  ghost predicate Ordered(ts: seq<Tuple>) {
    && Ascending(Values(ts))
    && GPositive(ts)
    && DeltasChained(ts)
    && IdsDistinct(ts)
  }

  /** The heap holds exactly one entry per tuple other than the last. */
  ghost predicate OneEntryPerTuple(ts: seq<Tuple>, heap: seq<ThresholdEntry>)
    requires |ts| >= 1
  {
    multiset(HeapIds(heap)) == multiset(Ids(ts[..|ts| - 1]))
  }

  /** A stored threshold never exceeds the current cost of its pair. */
  ghost predicate ThresholdsBelowCost(ts: seq<Tuple>, heap: seq<ThresholdEntry>) {
    forall i, k {:trigger Cost(ts, i), heap[k]} :: 0 <= i < |ts| - 1 && 0 <= k < |heap| && heap[k].id == ts[i].id
      ==> heap[k].threshold <= Cost(ts, i)
  }

  /** The tuple/heap structure the lazy scheduler depends on. */
  ghost predicate Linked(ts: seq<Tuple>, heap: seq<ThresholdEntry>) {
    && |ts| >= 1
    && Ordered(ts)
    && OneEntryPerTuple(ts, heap)
    && ThresholdsBelowCost(ts, heap)
  }

  ghost predicate IsSentinel(t: Tuple, maxV: int) {
    t.value == maxV && t.id == SentinelId && t.delta == 0
  }

  ghost predicate Inv(s: Sketch) {
    && Linked(s.tuples, s.heap)
    && IsSentinel(Last(s.tuples), s.maxV)
    && (forall i :: 0 <= i < |s.tuples| ==> s.tuples[i].id < s.nextId)
  }

  /* ----- constructor ----- */

  /** The constructor: one sentinel tuple (maxV, g = 1, delta = 0), an empty heap. */
  function Init(maxV: int): (s: Sketch)
    ensures Inv(s)
    ensures s.tuples == [Tuple(maxV, 1, 0, SentinelId)] && s.heap == []
    ensures s.lastN == 0 && s.maxV == maxV && SumG(s.tuples) == 1
  {
    var s := Sketch(0, maxV, [Tuple(maxV, 1, 0, SentinelId)], [], SentinelId + 1);
    assert Ids(s.tuples[..0]) == [];
    s
  }

  /* ----- heap helpers ----- */

  /** Position of the first entry with the least threshold: the heap's top. */
  function MinIndex(h: seq<ThresholdEntry>): (m: nat)
    requires |h| > 0
    ensures m < |h|
    ensures forall k :: 0 <= k < |h| ==> h[m].threshold <= h[k].threshold
  {
    if |h| == 1 then 0
    else
      var m' := MinIndex(h[1..]);
      if h[0].threshold <= h[1 + m'].threshold then 0 else 1 + m'
  }

  /** Number of heap entries whose threshold is at most `t`. */
  function CountAtMost(h: seq<ThresholdEntry>, t: nat): nat {
    if |h| == 0 then 0
    else CountAtMost(h[..|h| - 1], t) + (if Last(h).threshold <= t then 1 else 0)
  }

  lemma {:induction false} CountAtMostConcat(a: seq<ThresholdEntry>, b: seq<ThresholdEntry>, t: nat)
    ensures CountAtMost(a + b, t) == CountAtMost(a, t) + CountAtMost(b, t)
    decreases |b|
  {
    if |b| == 0 {
      assert a + b == a;
    } else {
      assert (a + b)[..|a + b| - 1] == a + b[..|b| - 1];
      CountAtMostConcat(a, b[..|b| - 1], t);
    }
  }

  /** Re-pushing the top entry with a threshold above `t` shrinks the number of
      entries at most `t`: the compression loop terminates. */
  lemma {:induction false} RepushCount(h: seq<ThresholdEntry>, m: nat, t: nat, e: ThresholdEntry)
    requires m < |h| && h[m].threshold <= t && e.threshold > t
    ensures CountAtMost(RemoveAt(h, m) + [e], t) < CountAtMost(h, t)
  {
    assert h == h[..m] + [h[m]] + h[m + 1..];
    CountAtMostConcat(h[..m] + [h[m]], h[m + 1..], t);
    CountAtMostConcat(h[..m], [h[m]], t);
    CountAtMostConcat(h[..m], h[m + 1..], t);
    CountAtMostConcat(RemoveAt(h, m), [e], t);
    assert CountAtMost([h[m]], t) == 1 by {
      assert [h[m]][..0] == [];
    }
    assert CountAtMost([e], t) == 0 by {
      assert [e][..0] == [];
    }
  }

  /** The index of the tuple carrying `id`. */
  function IndexOf(ts: seq<Tuple>, id: nat): (i: nat)
    requires id in Ids(ts)
    ensures i < |ts| && ts[i].id == id
  {
    if ts[0].id == id then 0
    else
      assert id in Ids(ts[1..]) by {
        var k :| 0 <= k < |ts| && Ids(ts)[k] == id;
        assert Ids(ts[1..])[k - 1] == id;
      }
      1 + IndexOf(ts[1..], id)
  }

  /** Every heap entry names a non-last tuple. */
  lemma HeapEntryHasTuple(ts: seq<Tuple>, heap: seq<ThresholdEntry>, m: nat)
    requires Linked(ts, heap) && m < |heap|
    ensures heap[m].id in Ids(ts[..|ts| - 1])
  {
    assert HeapIds(heap)[m] == heap[m].id;
    assert heap[m].id in multiset(HeapIds(heap));
  }

  /** Every non-last tuple has a heap entry. */
  lemma TupleHasHeapEntry(ts: seq<Tuple>, heap: seq<ThresholdEntry>, i: nat)
    requires Linked(ts, heap) && i < |ts| - 1
    ensures exists k :: 0 <= k < |heap| && heap[k].id == ts[i].id
  {
    assert Ids(ts[..|ts| - 1])[i] == ts[i].id;
    assert ts[i].id in multiset(HeapIds(heap));
    var k :| 0 <= k < |heap| && HeapIds(heap)[k] == ts[i].id;
  }

  /** When the least stored threshold exceeds `t`, no adjacent pair can be merged. */
  lemma NoMergeWhenTopAbove(ts: seq<Tuple>, heap: seq<ThresholdEntry>, t: nat, m: nat)
    requires Linked(ts, heap) && m < |heap|
    requires forall k :: 0 <= k < |heap| ==> heap[m].threshold <= heap[k].threshold
    requires heap[m].threshold > t
    ensures forall i :: 0 <= i < |ts| - 1 ==> Cost(ts, i) > t
  {
    forall i | 0 <= i < |ts| - 1
      ensures Cost(ts, i) > t
    {
      TupleHasHeapEntry(ts, heap, i);
      var k :| 0 <= k < |heap| && heap[k].id == ts[i].id;
    }
  }

  /** Re-pushing a stale entry with its real cost keeps the structure. */
  lemma RepushLinked(ts: seq<Tuple>, heap: seq<ThresholdEntry>, i: nat, m: nat)
    requires Linked(ts, heap) && m < |heap| && i < |ts| - 1 && heap[m].id == ts[i].id
    ensures Linked(ts, RemoveAt(heap, m) + [ThresholdEntry(Cost(ts, i), ts[i].id)])
  {
    var h' := RemoveAt(heap, m) + [ThresholdEntry(Cost(ts, i), ts[i].id)];
    assert heap == heap[..m] + [heap[m]] + heap[m + 1..];
    assert HeapIds(heap) == HeapIds(heap[..m]) + [heap[m].id] + HeapIds(heap[m + 1..]);
    assert HeapIds(h') == HeapIds(heap[..m]) + HeapIds(heap[m + 1..]) + [ts[i].id];
    forall j, k | 0 <= j < |ts| - 1 && 0 <= k < |h'| && h'[k].id == ts[j].id
      ensures h'[k].threshold <= Cost(ts, j)
    {
      if k < m {
        assert h'[k] == heap[k];
      } else if k < |h'| - 1 {
        assert h'[k] == heap[k + 1];
      } else {
        assert j == i;
      }
    }
  }

  /** Merging pair i keeps the values ascending. */
  lemma MergeAtAscending(ts: seq<Tuple>, i: nat)
    requires Ascending(Values(ts)) && i + 1 < |ts|
    ensures Ascending(Values(MergeAt(ts, i)))
  {
    var r := MergeAt(ts, i);
    forall a, b | 0 <= a <= b < |r|
      ensures Values(r)[a] <= Values(r)[b]
    {
      var a' := if a < i then a else a + 1;
      var b' := if b < i then b else b + 1;
      MergeAtIndex(ts, i, a);
      MergeAtIndex(ts, i, b);
      assert Values(ts)[a'] <= Values(ts)[b'];
    }
  }

  /** Merging pair i keeps every g positive. */
  lemma MergeAtPositive(ts: seq<Tuple>, i: nat)
    requires GPositive(ts) && i + 1 < |ts|
    ensures GPositive(MergeAt(ts, i))
  {
    var r := MergeAt(ts, i);
    forall j | 0 <= j < |r|
      ensures r[j].g >= 1
    {
      MergeAtIndex(ts, i, j);
    }
  }

  /** Merging pair i keeps the ids distinct: it only erases one. */
  lemma MergeAtDistinct(ts: seq<Tuple>, i: nat)
    requires IdsDistinct(ts) && i + 1 < |ts|
    ensures IdsDistinct(MergeAt(ts, i))
  {
    var r := MergeAt(ts, i);
    forall a, b | 0 <= a < b < |r|
      ensures r[a].id != r[b].id
    {
      var a' := if a < i then a else a + 1;
      var b' := if b < i then b else b + 1;
      MergeAtIndex(ts, i, a);
      MergeAtIndex(ts, i, b);
      assert ts[a'].id != ts[b'].id;
    }
  }

  /** Merging pair i keeps the deltas chained: the merged tuple keeps its
      successor's delta and gains g. */
  lemma MergeAtChained(ts: seq<Tuple>, i: nat)
    requires DeltasChained(ts) && i + 1 < |ts|
    ensures DeltasChained(MergeAt(ts, i))
  {
    var r := MergeAt(ts, i);
    forall j | 0 <= j < |r| - 1
      ensures r[j].delta <= r[j + 1].g + r[j + 1].delta
    {
      MergeAtIndex(ts, i, j);
      MergeAtIndex(ts, i, j + 1);
      if j == i - 1 {
        assert ts[j].delta <= ts[j + 1].g + ts[j + 1].delta;
        assert ts[i].delta <= ts[i + 1].g + ts[i + 1].delta;
      } else if j >= i {
        assert ts[j + 1].delta <= ts[j + 2].g + ts[j + 2].delta;
      } else {
        assert ts[j].delta <= ts[j + 1].g + ts[j + 1].delta;
      }
    }
  }

  /** Merging pair i keeps the tuples ordered. */
  lemma MergeAtOrdered(ts: seq<Tuple>, i: nat)
    requires Ordered(ts) && i + 1 < |ts|
    ensures Ordered(MergeAt(ts, i))
  {
    MergeAtAscending(ts, i);
    MergeAtPositive(ts, i);
    MergeAtDistinct(ts, i);
    MergeAtChained(ts, i);
  }

  /** Where each tuple of MergeAt(ts, i) comes from. */
  lemma MergeAtIndex(ts: seq<Tuple>, i: nat, j: nat)
    requires i + 1 < |ts| && j < |ts| - 1
    ensures j < i ==> MergeAt(ts, i)[j] == ts[j]
    ensures j == i ==> MergeAt(ts, i)[j] == ts[i + 1].(g := ts[i].g + ts[i + 1].g)
    ensures j > i ==> MergeAt(ts, i)[j] == ts[j + 1]
  {
  }

  lemma MultisetCancel(a: seq<nat>, b: seq<nat>, c: seq<nat>, d: seq<nat>, x: nat)
    requires multiset(a + [x] + b) == multiset(c + [x] + d)
    ensures multiset(a + b) == multiset(c + d)
  {
    assert multiset(a + [x] + b) == multiset(a + b) + multiset{x};
    assert multiset(c + [x] + d) == multiset(c + d) + multiset{x};
    var l, r := multiset(a + b), multiset(c + d);
    assert l + multiset{x} == r + multiset{x};
    forall y
      ensures l[y] == r[y]
    {
      assert (l + multiset{x})[y] == (r + multiset{x})[y];
    }
  }

  /** Merging pair i and popping its entry (at m) keeps one entry per tuple. */
  lemma MergeAtOneEntry(ts: seq<Tuple>, heap: seq<ThresholdEntry>, i: nat, m: nat)
    requires |ts| >= 1 && OneEntryPerTuple(ts, heap)
    requires m < |heap| && i < |ts| - 1 && heap[m].id == ts[i].id
    ensures OneEntryPerTuple(MergeAt(ts, i), RemoveAt(heap, m))
  {
    var r := MergeAt(ts, i);
    var h' := RemoveAt(heap, m);
    var a, b := HeapIds(heap[..m]), HeapIds(heap[m + 1..]);
    var c, d := Ids(ts[..i]), Ids(ts[i + 1..|ts| - 1]);
    assert HeapIds(heap) == a + [ts[i].id] + b;
    assert HeapIds(h') == a + b;
    assert Ids(ts[..|ts| - 1]) == c + [ts[i].id] + d;
    assert Ids(r[..|r| - 1]) == c + d;
    MultisetCancel(a, b, c, d, ts[i].id);
  }

  /** A surviving pair's cost after merging pair i is at least its cost before:
      only the pair just before i changes, and it grows because i's delta is at
      most its successor's g + delta. */
  lemma MergeAtCost(ts: seq<Tuple>, i: nat, j: nat)
    requires i + 1 < |ts| && j + 1 < |ts| - 1
    requires ts[i].delta <= ts[i + 1].g + ts[i + 1].delta
    ensures Cost(MergeAt(ts, i), j) >= Cost(ts, if j < i then j else j + 1)
  {
    MergeAtIndex(ts, i, j);
    MergeAtIndex(ts, i, j + 1);
  }

  /** Merging pair i only raises the costs of the surviving pairs. */
  lemma MergeAtThresholds(ts: seq<Tuple>, heap: seq<ThresholdEntry>, i: nat, m: nat)
    requires Ordered(ts) && ThresholdsBelowCost(ts, heap)
    requires m < |heap| && i < |ts| - 1
    ensures ThresholdsBelowCost(MergeAt(ts, i), RemoveAt(heap, m))
  {
    var r := MergeAt(ts, i);
    var h' := RemoveAt(heap, m);
    assert ts[i].delta <= ts[i + 1].g + ts[i + 1].delta;
    forall j, k | 0 <= j < |r| - 1 && 0 <= k < |h'| && h'[k].id == r[j].id
      ensures h'[k].threshold <= Cost(r, j)
    {
      var k' := if k < m then k else k + 1;
      assert h'[k] == heap[k'];
      MergeAtIndex(ts, i, j);
      MergeAtCost(ts, i, j);
    }
  }

  /** Merging pair i (whose heap entry sits at m) keeps the structure, with that
      entry popped. */
  lemma MergeAtLinked(ts: seq<Tuple>, heap: seq<ThresholdEntry>, i: nat, m: nat)
    requires Linked(ts, heap) && m < |heap| && i < |ts| - 1 && heap[m].id == ts[i].id
    ensures Linked(MergeAt(ts, i), RemoveAt(heap, m))
  {
    MergeAtOrdered(ts, i);
    MergeAtOneEntry(ts, heap, i, m);
    MergeAtThresholds(ts, heap, i, m);
  }

  /* ----- the compression loop (gk.h:154-185) ----- */

  /** No adjacent pair of `ts` could be merged under threshold `t`. */
  ghost predicate NoneMergeable(ts: seq<Tuple>, t: nat) {
    forall i :: 0 <= i < |ts| - 1 ==> Cost(ts, i) > t
  }

  /** What one run of the compression loop under threshold `t` may make of
      `ts`: `ts` itself when no pair is mergeable, or `ts` with exactly one
      pair of cost at most `t` merged. */
  ghost predicate Compressed(ts: seq<Tuple>, t: nat, r: seq<Tuple>) {
    || (r == ts && NoneMergeable(ts, t))
    || (exists i :: 0 <= i < |ts| - 1 && Cost(ts, i) <= t && r == MergeAt(ts, i))
  }

  /** Pops candidates until the least stored threshold exceeds `t`; a popped
      candidate whose real cost is at most `t` is merged (ending the loop), any
      other is re-pushed with its real cost. The result is either the input
      tuples, with no pair mergeable, or the input with exactly one eligible pair
      merged. */
  function Compress(ts: seq<Tuple>, heap: seq<ThresholdEntry>, t: nat): (r: (seq<Tuple>, seq<ThresholdEntry>))
    requires Linked(ts, heap) && |heap| > 0
    ensures Linked(r.0, r.1)
    ensures Compressed(ts, t, r.0)
    decreases CountAtMost(heap, t)
  {
    var m := MinIndex(heap);
    var top := heap[m];
    if top.threshold > t then
      NoMergeWhenTopAbove(ts, heap, t, m);
      (ts, heap)
    else
      HeapEntryHasTuple(ts, heap, m);
      var i := IndexOf(ts[..|ts| - 1], top.id);
      var cost := Cost(ts, i);
      if cost <= t then
        MergeAtLinked(ts, heap, i, m);
        (MergeAt(ts, i), RemoveAt(heap, m))
      else
        var e := ThresholdEntry(cost, top.id);
        RepushLinked(ts, heap, i, m);
        RepushCount(heap, m, t, e);
        Compress(ts, RemoveAt(heap, m) + [e], t)
  }

  /* ----- feed (gk.h:126-187) ----- */

  function InsertAt(ts: seq<Tuple>, j: nat, t: Tuple): seq<Tuple>
    requires j <= |ts|
  {
    ts[..j] + [t] + ts[j..]
  }

  /** Index of the first tuple whose value is strictly greater than `v`: the
      multimap's upper_bound. Below the sentinel it is a real tuple, with every
      earlier value at most `v` and every later one above it. */
  function Successor(s: Sketch, v: int): (j: nat)
    requires Inv(s) && v < s.maxV
    ensures j < |s.tuples|
    ensures forall i :: 0 <= i < j ==> s.tuples[i].value <= v
    ensures forall i :: j <= i < |s.tuples| ==> s.tuples[i].value > v
  {
    var vs := Values(s.tuples);
    assert vs[|vs| - 1] == s.maxV;
    assert forall i :: 0 <= i < |vs| ==> vs[i] == s.tuples[i].value;
    FirstAboveSplits(vs, v);
    FirstAbove(vs, v)
  }

  lemma {:induction false} SumGConcat(a: seq<Tuple>, b: seq<Tuple>)
    ensures SumG(a + b) == SumG(a) + SumG(b)
    decreases |a|
  {
    if |a| == 0 {
      assert a + b == b;
    } else {
      assert (a + b)[1..] == a[1..] + b;
      SumGConcat(a[1..], b);
    }
  }

  lemma {:induction false} SumGCons(s: seq<Tuple>)
    requires |s| > 0
    ensures SumG(s) == s[0].g + SumG(s[1..])
  {
  }

  lemma {:induction false} SumGSplit(ts: seq<Tuple>, j: nat)
    requires j <= |ts|
    ensures SumG(ts) == SumG(ts[..j]) + SumG(ts[j..])
  {
    assert ts == ts[..j] + ts[j..];
    SumGConcat(ts[..j], ts[j..]);
  }

  /** `ts` split around position j: the sum before, the tuple, the sum after. */
  lemma {:induction false} SumGAt(ts: seq<Tuple>, j: nat)
    requires j < |ts|
    ensures SumG(ts) == SumG(ts[..j]) + ts[j].g + SumG(ts[j + 1..])
  {
    assert ts == ts[..j] + ts[j..];
    SumGConcat(ts[..j], ts[j..]);
    SumGCons(ts[j..]);
    assert ts[j..][1..] == ts[j + 1..];
  }

  /** Raising one tuple's g by one raises the sum by one. */
  lemma SumGAbsorb(ts: seq<Tuple>, j: nat)
    requires j < |ts|
    ensures SumG(RaiseG(ts, j)) == SumG(ts) + 1
  {
    var r := RaiseG(ts, j);
    SumGAt(ts, j);
    SumGAt(r, j);
    assert r[..j] == ts[..j];
    assert r[j + 1..] == ts[j + 1..];
  }

  /** Inserting a tuple adds its g to the sum. */
  lemma {:induction false} SumGInsert(ts: seq<Tuple>, j: nat, t: Tuple)
    requires j <= |ts|
    ensures SumG(InsertAt(ts, j, t)) == SumG(ts) + t.g
  {
    var r := InsertAt(ts, j, t);
    SumGSplit(ts, j);
    SumGAt(r, j);
    assert r[..j] == ts[..j];
    assert r[j + 1..] == ts[j..];
  }

  /** Merging moves g from the erased tuple into its successor: the sum is kept. */
  lemma {:induction false} SumGMerge(ts: seq<Tuple>, i: nat)
    requires i + 1 < |ts|
    ensures SumG(MergeAt(ts, i)) == SumG(ts)
  {
    var r := MergeAt(ts, i);
    SumGAt(ts, i);
    SumGCons(ts[i + 1..]);
    assert ts[i + 1..][1..] == ts[i + 2..];
    SumGAt(r, i);
    assert r[..i] == ts[..i];
    assert r[i + 1..] == ts[i + 2..];
  }

  /** The absorb path keeps the structure: only costs grow. */
  lemma AbsorbLinked(ts: seq<Tuple>, heap: seq<ThresholdEntry>, j: nat)
    requires Linked(ts, heap) && j < |ts|
    ensures Linked(RaiseG(ts, j), heap)
  {
    var r := RaiseG(ts, j);
    assert Values(r) == Values(ts);
    assert Ids(r[..|r| - 1]) == Ids(ts[..|ts| - 1]);
    forall i | 0 <= i < |r| - 1
      ensures r[i].delta <= r[i + 1].g + r[i + 1].delta
    {
      assert ts[i].delta <= ts[i + 1].g + ts[i + 1].delta;
    }
    forall i, k | 0 <= i < |r| - 1 && 0 <= k < |heap| && heap[k].id == r[i].id
      ensures heap[k].threshold <= Cost(r, i)
    {
      assert Cost(r, i) >= Cost(ts, i);
    }
  }

  lemma MultisetAdd(h: seq<nat>, c: seq<nat>, d: seq<nat>, x: nat)
    requires multiset(h) == multiset(c + d)
    ensures multiset(h + [x]) == multiset(c + [x] + d)
  {
    assert multiset(c + [x] + d) == multiset(c + d) + multiset{x};
  }

  /** Where each tuple of InsertAt(ts, j, t) comes from. */
  lemma InsertAtIndex(ts: seq<Tuple>, j: nat, t: Tuple, k: nat)
    requires j <= |ts| && k <= |ts|
    ensures k < j ==> InsertAt(ts, j, t)[k] == ts[k]
    ensures k == j ==> InsertAt(ts, j, t)[k] == t
    ensures k > j ==> InsertAt(ts, j, t)[k] == ts[k - 1]
  {
  }

  /** Inserting `t` where every earlier value is at most its own and every
      later one above it keeps the values ascending. */
  lemma InsertAscending(ts: seq<Tuple>, j: nat, t: Tuple)
    requires Ascending(Values(ts)) && j <= |ts|
    requires forall i :: 0 <= i < j ==> ts[i].value <= t.value
    requires forall i :: j <= i < |ts| ==> ts[i].value > t.value
    ensures Ascending(Values(InsertAt(ts, j, t)))
  {
    var r := InsertAt(ts, j, t);
    forall a, b | 0 <= a <= b < |r|
      ensures Values(r)[a] <= Values(r)[b]
    {
      InsertAtIndex(ts, j, t, a);
      InsertAtIndex(ts, j, t, b);
      if a != j && b != j {
        var a' := if a < j then a else a - 1;
        var b' := if b < j then b else b - 1;
        assert Values(ts)[a'] <= Values(ts)[b'];
      }
    }
  }

  /** Inserting a tuple with a positive g keeps every g positive. */
  lemma InsertPositive(ts: seq<Tuple>, j: nat, t: Tuple)
    requires GPositive(ts) && j <= |ts| && t.g >= 1
    ensures GPositive(InsertAt(ts, j, t))
  {
    var r := InsertAt(ts, j, t);
    forall k | 0 <= k < |r|
      ensures r[k].g >= 1
    {
      InsertAtIndex(ts, j, t, k);
    }
  }

  /** Inserting a tuple with a fresh id keeps the ids distinct. */
  lemma InsertDistinct(ts: seq<Tuple>, j: nat, t: Tuple)
    requires IdsDistinct(ts) && j <= |ts|
    requires forall i :: 0 <= i < |ts| ==> ts[i].id != t.id
    ensures IdsDistinct(InsertAt(ts, j, t))
  {
    var r := InsertAt(ts, j, t);
    forall a, b | 0 <= a < b < |r|
      ensures r[a].id != r[b].id
    {
      InsertAtIndex(ts, j, t, a);
      InsertAtIndex(ts, j, t, b);
      if a != j && b != j {
        var a' := if a < j then a else a - 1;
        var b' := if b < j then b else b - 1;
        assert ts[a'].id != ts[b'].id;
      }
    }
  }

  /** Inserting `t` before ts[j] keeps the deltas chained when t's delta is at
      most ts[j]'s g + delta, which is at most t's own g + delta. */
  lemma InsertChained(ts: seq<Tuple>, j: nat, t: Tuple)
    requires DeltasChained(ts) && j < |ts|
    requires t.delta <= ts[j].g + ts[j].delta <= t.g + t.delta
    ensures DeltasChained(InsertAt(ts, j, t))
  {
    var r := InsertAt(ts, j, t);
    forall i | 0 <= i < |r| - 1
      ensures r[i].delta <= r[i + 1].g + r[i + 1].delta
    {
      InsertAtIndex(ts, j, t, i);
      InsertAtIndex(ts, j, t, i + 1);
      if i < j - 1 {
        assert ts[i].delta <= ts[i + 1].g + ts[i + 1].delta;
      } else if i == j - 1 {
        assert ts[i].delta <= ts[j].g + ts[j].delta;
      } else if i > j {
        assert ts[i - 1].delta <= ts[i].g + ts[i].delta;
      }
    }
  }

  /** The insert path keeps the tuples ordered: the new tuple sits between
      values at most its own and values above it, and its delta stays below its
      successor's g + delta. */
  lemma InsertOrdered(ts: seq<Tuple>, j: nat, t: Tuple)
    requires Ordered(ts) && j < |ts|
    requires forall i :: 0 <= i < j ==> ts[i].value <= t.value
    requires forall i :: j <= i < |ts| ==> ts[i].value > t.value
    requires forall i :: 0 <= i < |ts| ==> ts[i].id != t.id
    requires t.g >= 1 && t.delta <= ts[j].g + ts[j].delta <= t.g + t.delta
    ensures Ordered(InsertAt(ts, j, t))
  {
    InsertAscending(ts, j, t);
    InsertPositive(ts, j, t);
    InsertDistinct(ts, j, t);
    InsertChained(ts, j, t);
  }

  /** The insert path pushes exactly one entry, for the new tuple. */
  lemma InsertOneEntry(ts: seq<Tuple>, heap: seq<ThresholdEntry>, j: nat, t: Tuple, e: ThresholdEntry)
    requires |ts| >= 1 && OneEntryPerTuple(ts, heap) && j < |ts| && e.id == t.id
    ensures OneEntryPerTuple(InsertAt(ts, j, t), heap + [e])
  {
    var r := InsertAt(ts, j, t);
    assert r[..|r| - 1] == ts[..j] + [t] + ts[j..|ts| - 1];
    assert Ids(r[..|r| - 1]) == Ids(ts[..j]) + [t.id] + Ids(ts[j..|ts| - 1]);
    assert ts[..|ts| - 1] == ts[..j] + ts[j..|ts| - 1];
    assert Ids(ts[..|ts| - 1]) == Ids(ts[..j]) + Ids(ts[j..|ts| - 1]);
    assert HeapIds(heap + [e]) == HeapIds(heap) + [t.id];
    MultisetAdd(HeapIds(heap), Ids(ts[..j]), Ids(ts[j..|ts| - 1]), t.id);
  }

  /** The insert path leaves every other cost as it was, and the new entry's
      threshold is at most the new pair's cost. */
  lemma InsertThresholds(ts: seq<Tuple>, heap: seq<ThresholdEntry>, j: nat, t: Tuple, e: ThresholdEntry)
    requires ThresholdsBelowCost(ts, heap) && j < |ts|
    requires forall k :: 0 <= k < |heap| ==> heap[k].id != t.id
    requires forall i :: 0 <= i < |ts| ==> ts[i].id != t.id
    requires e.id == t.id && e.threshold <= t.g + ts[j].g + ts[j].delta
    requires ts[j].g + ts[j].delta <= t.g + t.delta
    ensures ThresholdsBelowCost(InsertAt(ts, j, t), heap + [e])
  {
    var r := InsertAt(ts, j, t);
    var h' := heap + [e];
    assert forall i :: 0 <= i < j ==> r[i] == ts[i];
    assert r[j] == t;
    assert forall i :: j < i < |r| ==> r[i] == ts[i - 1];
    forall p, k | 0 <= p < |r| - 1 && 0 <= k < |h'| && h'[k].id == r[p].id
      ensures h'[k].threshold <= Cost(r, p)
    {
      if k < |heap| {
        assert h'[k] == heap[k];
        if p < j - 1 {
          assert Cost(r, p) == Cost(ts, p);
        } else if p == j - 1 {
          assert Cost(r, p) >= Cost(ts, p);
        } else {
          assert p != j;
          assert Cost(r, p) == Cost(ts, p - 1);
        }
      }
    }
  }

  /** Heap entries name existing tuples, so their ids are below `nextId`. */
  lemma HeapIdsBelowNext(s: Sketch)
    requires Inv(s)
    ensures forall k :: 0 <= k < |s.heap| ==> s.heap[k].id < s.nextId
  {
    forall k | 0 <= k < |s.heap|
      ensures s.heap[k].id < s.nextId
    {
      HeapEntryHasTuple(s.tuples, s.heap, k);
      var q := IndexOf(s.tuples[..|s.tuples| - 1], s.heap[k].id);
    }
  }

  /** Raising g of tuple j raises the largest g + delta to at most that
      tuple's new g + delta. */
  lemma MaxGDRaise(ts: seq<Tuple>, j: nat)
    requires j < |ts|
    ensures MaxGD(RaiseG(ts, j)) <= Max(MaxGD(ts), ts[j].g + ts[j].delta + 1)
  {
    var r := RaiseG(ts, j);
    var k := ArgMaxGD(r);
    assert MaxGD(r) == r[k].g + r[k].delta;
  }

  /** Inserting a tuple whose g + delta equals its successor's does not raise
      the largest g + delta. */
  lemma MaxGDInsert(ts: seq<Tuple>, j: nat, t: Tuple)
    requires j < |ts| && t.g + t.delta == ts[j].g + ts[j].delta
    ensures MaxGD(InsertAt(ts, j, t)) <= MaxGD(ts)
  {
    var r := InsertAt(ts, j, t);
    var k := ArgMaxGD(r);
    assert MaxGD(r) == r[k].g + r[k].delta;
    InsertAtIndex(ts, j, t, k);
  }

  /** Merging pair i raises the largest g + delta to at most the pair's cost. */
  lemma MaxGDMerge(ts: seq<Tuple>, i: nat)
    requires i + 1 < |ts|
    ensures MaxGD(MergeAt(ts, i)) <= Max(MaxGD(ts), Cost(ts, i))
  {
    var r := MergeAt(ts, i);
    var k := ArgMaxGD(r);
    assert MaxGD(r) == r[k].g + r[k].delta;
    MergeAtIndex(ts, i, k);
  }

  /** The compression loop under threshold `t` keeps the largest g + delta
      within the larger of its old value and `t`. */
  lemma MaxGDCompressed(ts: seq<Tuple>, t: nat, r: seq<Tuple>)
    requires Compressed(ts, t, r)
    ensures MaxGD(r) <= Max(MaxGD(ts), t)
  {
    if r != ts {
      var i :| 0 <= i < |ts| - 1 && Cost(ts, i) <= t && r == MergeAt(ts, i);
      MaxGDMerge(ts, i);
    }
  }

  /** The insert path, inserted tuple and compression together, keeps the
      largest g + delta within the larger of its old value and `t`. */
  lemma MaxGDInsertCompressed(ts: seq<Tuple>, j: nat, nt: Tuple, t: nat, r: seq<Tuple>)
    requires j < |ts| && nt.g + nt.delta == ts[j].g + ts[j].delta
    requires Compressed(InsertAt(ts, j, nt), t, r)
    ensures MaxGD(r) <= Max(MaxGD(ts), t)
  {
    MaxGDInsert(ts, j, nt);
    MaxGDCompressed(InsertAt(ts, j, nt), t, r);
  }

  /** The absorb path (gk.h:137-145): the successor's g grows by one. */
  function Absorb(s: Sketch, j: nat, n: nat): (r: Sketch)
    requires Inv(s) && j < |s.tuples|
    ensures Inv(r) && r.heap == s.heap && |r.tuples| == |s.tuples|
    ensures r.lastN == n && r.maxV == s.maxV && r.nextId == s.nextId
    ensures SumG(r.tuples) == SumG(s.tuples) + 1
    ensures r.tuples == RaiseG(s.tuples, j)
    ensures MaxGD(r.tuples) <= Max(MaxGD(s.tuples), s.tuples[j].g + s.tuples[j].delta + 1)
  {
    AbsorbKeeps(s, j, n);
    SumGAbsorb(s.tuples, j);
    MaxGDRaise(s.tuples, j);
    s.(lastN := n, tuples := RaiseG(s.tuples, j))
  }

  /** Raising one g keeps the invariant: the sentinel keeps its value, id and
      delta, and no id changes. */
  lemma AbsorbKeeps(s: Sketch, j: nat, n: nat)
    requires Inv(s) && j < |s.tuples|
    ensures Inv(s.(lastN := n, tuples := RaiseG(s.tuples, j)))
  {
    var ts := s.tuples;
    var r := RaiseG(ts, j);
    AbsorbLinked(ts, s.heap, j);
    assert Last(r).value == Last(ts).value && Last(r).id == Last(ts).id && Last(r).delta == Last(ts).delta;
    forall i | 0 <= i < |r|
      ensures r[i].id < s.nextId
    {
      assert r[i].id == ts[i].id;
    }
  }

  /** Inserting before position j keeps the last tuple, and a fresh id n keeps
      every id below n + 1. */
  lemma InsertKeeps(ts: seq<Tuple>, j: nat, t: Tuple, n: nat)
    requires j < |ts| && t.id == n
    requires forall k :: 0 <= k < |ts| ==> ts[k].id < n
    ensures Last(InsertAt(ts, j, t)) == Last(ts)
    ensures forall k :: 0 <= k < |InsertAt(ts, j, t)| ==> InsertAt(ts, j, t)[k].id < n + 1
  {
    var r := InsertAt(ts, j, t);
    assert forall k :: 0 <= k < j ==> r[k] == ts[k];
    assert forall k :: j < k < |r| ==> r[k] == ts[k - 1];
  }

  /** The tuple the insert path creates for `v` before its successor j:
      g = 1 and delta = g + delta of the successor, less one. */
  function NewTuple(s: Sketch, v: int, j: nat): (t: Tuple)
    requires Inv(s) && j < |s.tuples|
    ensures t.value == v && t.g == 1 && t.id == s.nextId
    ensures t.delta + 1 == s.tuples[j].g + s.tuples[j].delta
  {
    var e := s.tuples[j];
    assert e.g >= 1;
    Tuple(v, 1, e.g + e.delta - 1, s.nextId)
  }

  /** The entry the insert path pushes for the new tuple: threshold g + delta + 1
      of the successor. */
  function NewEntry(s: Sketch, j: nat): (e: ThresholdEntry)
    requires j < |s.tuples|
    ensures e.id == s.nextId && e.threshold == s.tuples[j].g + s.tuples[j].delta + 1
  {
    ThresholdEntry(s.tuples[j].g + s.tuples[j].delta + 1, s.nextId)
  }

  /** Inserting the new tuple and pushing its entry keeps the structure. */
  lemma InsertLinked(s: Sketch, v: int, j: nat)
    requires Inv(s) && j < |s.tuples|
    requires forall i :: 0 <= i < j ==> s.tuples[i].value <= v
    requires forall i :: j <= i < |s.tuples| ==> s.tuples[i].value > v
    ensures Linked(InsertAt(s.tuples, j, NewTuple(s, v, j)), s.heap + [NewEntry(s, j)])
  {
    var nt := NewTuple(s, v, j);
    var ne := NewEntry(s, j);
    HeapIdsBelowNext(s);
    InsertOrdered(s.tuples, j, nt);
    InsertOneEntry(s.tuples, s.heap, j, nt, ne);
    InsertThresholds(s.tuples, s.heap, j, nt, ne);
  }

  /** The insert path (gk.h:146-186): the new tuple goes right before its
      successor j, its entry is pushed, and the compression loop runs under
      threshold `t`. */
  function InsertAndCompress(s: Sketch, v: int, j: nat, t: nat, n: nat): Sketch
    requires Inv(s) && j < |s.tuples|
    requires forall i :: 0 <= i < j ==> s.tuples[i].value <= v
    requires forall i :: j <= i < |s.tuples| ==> s.tuples[i].value > v
  {
    InsertLinked(s, v, j);
    var (ts, h) := Compress(InsertAt(s.tuples, j, NewTuple(s, v, j)), s.heap + [NewEntry(s, j)], t);
    Sketch(n, s.maxV, ts, h, s.nextId + 1)
  }

  /** The insert path keeps the invariant and spends one fresh id. */
  lemma InsertAndCompressInv(s: Sketch, v: int, j: nat, t: nat, n: nat)
    requires Inv(s) && j < |s.tuples|
    requires forall i :: 0 <= i < j ==> s.tuples[i].value <= v
    requires forall i :: j <= i < |s.tuples| ==> s.tuples[i].value > v
    ensures var r := InsertAndCompress(s, v, j, t, n);
            && Inv(r) && r.nextId == s.nextId + 1 && r.lastN == n && r.maxV == s.maxV
  {
    var ts1 := InsertAt(s.tuples, j, NewTuple(s, v, j));
    InsertLinked(s, v, j);
    InsertKeeps(s.tuples, j, NewTuple(s, v, j), s.nextId);
    var ts2 := Compress(ts1, s.heap + [NewEntry(s, j)], t).0;
    CompressKeeps(ts1, ts2, t, s.nextId + 1);
  }

  /** The insert path adds one tuple of g = 1 and then merges at most one
      eligible pair: the tuple count grows by 0 or 1 and the sum of g by 1. */
  lemma InsertAndCompressCounts(s: Sketch, v: int, j: nat, t: nat, n: nat)
    requires Inv(s) && j < |s.tuples|
    requires forall i :: 0 <= i < j ==> s.tuples[i].value <= v
    requires forall i :: j <= i < |s.tuples| ==> s.tuples[i].value > v
    ensures var r := InsertAndCompress(s, v, j, t, n);
            && |s.tuples| <= |r.tuples| <= |s.tuples| + 1
            && SumG(r.tuples) == SumG(s.tuples) + 1
            && InsertPath(s, v, j, t, r.tuples)
  {
    var ts1 := InsertAt(s.tuples, j, NewTuple(s, v, j));
    InsertLinked(s, v, j);
    SumGInsert(s.tuples, j, NewTuple(s, v, j));
    InsertKeeps(s.tuples, j, NewTuple(s, v, j), s.nextId);
    var ts2 := Compress(ts1, s.heap + [NewEntry(s, j)], t).0;
    CompressKeeps(ts1, ts2, t, s.nextId + 1);
  }

  /** The insert path leaves the largest g + delta within max(old, t). */
  lemma InsertAndCompressBound(s: Sketch, v: int, j: nat, t: nat, n: nat)
    requires Inv(s) && j < |s.tuples|
    requires forall i :: 0 <= i < j ==> s.tuples[i].value <= v
    requires forall i :: j <= i < |s.tuples| ==> s.tuples[i].value > v
    ensures MaxGD(InsertAndCompress(s, v, j, t, n).tuples) <= Max(MaxGD(s.tuples), t)
  {
    var ts1 := InsertAt(s.tuples, j, NewTuple(s, v, j));
    InsertLinked(s, v, j);
    var ts2 := Compress(ts1, s.heap + [NewEntry(s, j)], t).0;
    MaxGDInsertCompressed(s.tuples, j, NewTuple(s, v, j), t, ts2);
  }

  /** What a merge shares with its input: the sum of g, the last tuple's value,
      id and delta, and a bound on the ids in use. */
  lemma {:induction false} MergeAtKeeps(ts: seq<Tuple>, i: nat, n: nat)
    requires i + 1 < |ts|
    requires forall k :: 0 <= k < |ts| ==> ts[k].id < n
    ensures var r := MergeAt(ts, i);
            && |r| == |ts| - 1 && SumG(r) == SumG(ts)
            && Last(r).value == Last(ts).value && Last(r).id == Last(ts).id
            && Last(r).delta == Last(ts).delta
            && (forall k :: 0 <= k < |r| ==> r[k].id < n)
  {
    var r := MergeAt(ts, i);
    SumGMerge(ts, i);
    assert forall k :: 0 <= k < i ==> r[k] == ts[k];
    assert forall k :: i < k < |r| ==> r[k] == ts[k + 1];
    assert r[i].id == ts[i + 1].id;
  }

  /** What the compression loop's result shares with its input. */
  lemma {:induction false} CompressKeeps(ts1: seq<Tuple>, ts2: seq<Tuple>, t: nat, n: nat)
    requires |ts1| >= 1
    requires forall k :: 0 <= k < |ts1| ==> ts1[k].id < n
    requires Compressed(ts1, t, ts2)
    ensures |ts1| - 1 <= |ts2| <= |ts1| && SumG(ts2) == SumG(ts1)
    ensures Last(ts2).value == Last(ts1).value && Last(ts2).id == Last(ts1).id
    ensures Last(ts2).delta == Last(ts1).delta
    ensures forall k :: 0 <= k < |ts2| ==> ts2[k].id < n
  {
    if ts2 != ts1 {
      var i :| 0 <= i < |ts1| - 1 && Cost(ts1, i) <= t && ts2 == MergeAt(ts1, i);
      MergeAtKeeps(ts1, i, n);
    }
  }

  /** The insert path before successor j leaves `ts`: the new tuple inserted,
      then either nothing mergeable or exactly one pair of cost at most `t`
      merged. */
  ghost predicate InsertPath(s: Sketch, v: int, j: nat, t: nat, ts: seq<Tuple>)
    requires Inv(s) && j < |s.tuples|
  {
    Compressed(InsertAt(s.tuples, j, NewTuple(s, v, j)), t, ts)
  }

  /** One call of `feed`: the count goes up first, and the threshold is the
      one for the new count. Which path a value below `maxV` takes is stated by
      Absorb and InsertAndCompress. */
  function Feed(s: Sketch, v: int, eps: Eps): (r: Sketch)
    requires Inv(s) && v <= s.maxV
    ensures Inv(r)
    ensures r.lastN == s.lastN + 1 && r.maxV == s.maxV
    ensures SumG(r.tuples) == SumG(s.tuples) + (if v == s.maxV then 0 else 1)
    ensures v == s.maxV ==> r == s.(lastN := s.lastN + 1)
    ensures MaxGD(r.tuples) <= Max(MaxGD(s.tuples), Threshold(eps, r.lastN))
  {
    var n := s.lastN + 1;
    if v == s.maxV then s.(lastN := n)
    else
      var t := Threshold(eps, n);
      FeedBelowMaxKeeps(s, v, t, n);
      FeedBelowMax(s, v, t, n)
  }

  /** Feeding a value below `maxV` under threshold `t`, as the n-th value. */
  function FeedBelowMax(s: Sketch, v: int, t: nat, n: nat): (r: Sketch)
    requires Inv(s) && v < s.maxV
  {
    var j := Successor(s, v);
    var e := s.tuples[j];
    if e.g + e.delta < t then
      Absorb(s, j, n)
    else
      InsertAndCompress(s, v, j, t, n)
  }

  /** Either path keeps the invariant, counts the value and stays within the
      threshold. */
  lemma FeedBelowMaxKeeps(s: Sketch, v: int, t: nat, n: nat)
    requires Inv(s) && v < s.maxV
    ensures var r := FeedBelowMax(s, v, t, n);
            && Inv(r)
            && r.lastN == n && r.maxV == s.maxV
            && SumG(r.tuples) == SumG(s.tuples) + 1
            && MaxGD(r.tuples) <= Max(MaxGD(s.tuples), t)
  {
    FeedBelowMaxInv(s, v, t, n);
    FeedBelowMaxSum(s, v, t, n);
    FeedBelowMaxBound(s, v, t, n);
  }

  /** Either path keeps the invariant. */
  lemma FeedBelowMaxInv(s: Sketch, v: int, t: nat, n: nat)
    requires Inv(s) && v < s.maxV
    ensures var r := FeedBelowMax(s, v, t, n);
            Inv(r) && r.lastN == n && r.maxV == s.maxV
  {
    var j := Successor(s, v);
    var e := s.tuples[j];
    if e.g + e.delta >= t {
      assert FeedBelowMax(s, v, t, n) == InsertAndCompress(s, v, j, t, n);
      InsertAndCompressInv(s, v, j, t, n);
    }
  }

  /** Either path adds 1 to the sum of g. */
  lemma FeedBelowMaxSum(s: Sketch, v: int, t: nat, n: nat)
    requires Inv(s) && v < s.maxV
    ensures SumG(FeedBelowMax(s, v, t, n).tuples) == SumG(s.tuples) + 1
  {
    var j := Successor(s, v);
    var e := s.tuples[j];
    if e.g + e.delta >= t {
      assert FeedBelowMax(s, v, t, n) == InsertAndCompress(s, v, j, t, n);
      InsertAndCompressCounts(s, v, j, t, n);
    }
  }

  /** Either path leaves the largest g + delta within max(old, t). */
  lemma FeedBelowMaxBound(s: Sketch, v: int, t: nat, n: nat)
    requires Inv(s) && v < s.maxV
    ensures MaxGD(FeedBelowMax(s, v, t, n).tuples) <= Max(MaxGD(s.tuples), t)
  {
    var j := Successor(s, v);
    var e := s.tuples[j];
    if e.g + e.delta < t {
      var r := Absorb(s, j, n);
      assert FeedBelowMax(s, v, t, n) == r;
      assert MaxGD(r.tuples) <= Max(MaxGD(s.tuples), e.g + e.delta + 1);
    } else {
      assert FeedBelowMax(s, v, t, n) == InsertAndCompress(s, v, j, t, n);
      InsertAndCompressBound(s, v, j, t, n);
    }
  }

  /* ----- streams ----- */

  /** Number of values in `vs` that differ from `maxV`. */
  function CountOther(vs: seq<int>, maxV: int): (c: nat)
    ensures c <= |vs|
  {
    if |vs| == 0 then 0
    else (if vs[0] == maxV then 0 else 1) + CountOther(vs[1..], maxV)
  }

  /** Feeds `vs` in order. */
  function FeedAll(s: Sketch, vs: seq<int>, eps: Eps): (r: Sketch)
    requires Inv(s)
    requires forall i :: 0 <= i < |vs| ==> vs[i] <= s.maxV
    ensures Inv(r) && r.maxV == s.maxV
    ensures r.lastN == s.lastN + |vs|
    ensures SumG(r.tuples) == SumG(s.tuples) + CountOther(vs, s.maxV)
    decreases |vs|
  {
    if |vs| == 0 then s
    else FeedAll(Feed(s, vs[0], eps), vs[1..], eps)
  }

  /** Σg counts the fed values other than `maxV`, plus one for the sentinel. */
  lemma {:induction false} SumGCountsFed(maxV: int, vs: seq<int>, eps: Eps)
    requires forall i :: 0 <= i < |vs| ==> vs[i] <= maxV
    ensures var r := FeedAll(Init(maxV), vs, eps);
            SumG(r.tuples) == 1 + CountOther(vs, maxV) && r.lastN == |vs|
  {
  }

  /** Every tuple's g + delta is at most `b`. */
  ghost predicate Bounded(ts: seq<Tuple>, b: nat) {
    forall i :: 0 <= i < |ts| ==> ts[i].g + ts[i].delta <= b
  }

  /** The compression bound: the largest g + delta stays within
      max(threshold, 1) for the number of values fed so far. The 1 is the
      sentinel's own g, present before the threshold becomes positive. */
  ghost predicate WithinBound(s: Sketch, eps: Eps) {
    MaxGD(s.tuples) <= Max(Threshold(eps, s.lastN), 1)
  }

  /** The constructor starts within the bound. */
  lemma InitWithinBound(maxV: int, eps: Eps)
    ensures WithinBound(Init(maxV), eps)
  {
    var s := Init(maxV);
    assert Threshold(eps, 0) == 0;
    assert s.tuples[0].g + s.tuples[0].delta == 1;
  }

  /** One call of `feed` keeps the bound for the new count. */
  lemma FeedKeepsBound(s: Sketch, v: int, eps: Eps)
    requires Inv(s) && v <= s.maxV && WithinBound(s, eps)
    ensures WithinBound(Feed(s, v, eps), eps)
  {
    var r := Feed(s, v, eps);
    var t0, t1 := Threshold(eps, s.lastN), Threshold(eps, r.lastN);
    ThresholdMonotone(eps, s.lastN, r.lastN);
    assert MaxGD(s.tuples) <= Max(t0, 1) <= Max(t1, 1);
    assert MaxGD(r.tuples) <= Max(MaxGD(s.tuples), t1);
  }

  /** The bound over a whole stream. */
  lemma {:induction false} FeedAllKeepsBound(s: Sketch, vs: seq<int>, eps: Eps)
    requires Inv(s) && WithinBound(s, eps)
    requires forall i :: 0 <= i < |vs| ==> vs[i] <= s.maxV
    ensures WithinBound(FeedAll(s, vs, eps), eps)
    decreases |vs|
  {
    if |vs| > 0 {
      var s1, rest := Feed(s, vs[0], eps), vs[1..];
      FeedKeepsBound(s, vs[0], eps);
      FeedAllKeepsBound(s1, rest, eps);
      assert FeedAll(s, vs, eps) == FeedAll(s1, rest, eps);
    }
  }

  /** From the constructor on, after any stream every g + delta is within
      max(floor(2 * EPS * n), 1) for the n values fed. */
  lemma StreamWithinBound(maxV: int, vs: seq<int>, eps: Eps)
    requires forall i :: 0 <= i < |vs| ==> vs[i] <= maxV
    ensures var r := FeedAll(Init(maxV), vs, eps);
            r.lastN == |vs| && Bounded(r.tuples, Max(Threshold(eps, |vs|), 1))
  {
    InitWithinBound(maxV, eps);
    FeedAllKeepsBound(Init(maxV), vs, eps);
  }

  /* ----- finalize and query (gk.h:74-111) ----- */

  datatype SummaryEntry = SummaryEntry(v: int, g: nat, delta: nat)

  /** The search key of a summary entry: g + delta. */
  function Keys(summary: seq<SummaryEntry>): (ks: seq<int>)
    ensures |ks| == |summary|
    ensures forall i :: 0 <= i < |summary| ==> ks[i] == summary[i].g + summary[i].delta
  {
    seq(|summary|, i requires 0 <= i < |summary| => summary[i].g + summary[i].delta)
  }

  lemma SumGPrefix(ts: seq<Tuple>, i: nat)
    requires i < |ts|
    ensures SumG(ts[..i + 1]) == SumG(ts[..i]) + ts[i].g
  {
    assert ts[..i + 1] == ts[..i] + [ts[i]];
    SumGConcat(ts[..i], [ts[i]]);
    assert [ts[i]][1..] == [];
  }

  /** One summary entry per tuple, in key order: the value, the running sum of g
      up to and including the tuple, and its delta; and max_gd, the largest
      g + delta halved (rounding down). */
  method Finalize(ts: seq<Tuple>) returns (summary: seq<SummaryEntry>, maxGd: nat)
    ensures |summary| == |ts|
    ensures forall i :: 0 <= i < |ts| ==> summary[i].v == ts[i].value && summary[i].delta == ts[i].delta
    ensures forall i :: 0 <= i < |ts| ==> summary[i].g == SumG(ts[..i + 1])
    ensures forall i :: 0 <= i < |ts| ==> (ts[i].g + ts[i].delta) / 2 <= maxGd
    ensures |ts| == 0 ==> maxGd == 0
    ensures |ts| > 0 ==> exists i :: 0 <= i < |ts| && maxGd == (ts[i].g + ts[i].delta) / 2
  {
    summary := [];
    var g: nat := 0;
    var maxSum: nat := 0;
    var i := 0;
    while i < |ts|
      invariant 0 <= i <= |ts|
      invariant |summary| == i && g == SumG(ts[..i])
      invariant forall k :: 0 <= k < i ==> summary[k].v == ts[k].value && summary[k].delta == ts[k].delta
      invariant forall k :: 0 <= k < i ==> summary[k].g == SumG(ts[..k + 1])
      invariant forall k :: 0 <= k < i ==> ts[k].g + ts[k].delta <= maxSum
      invariant i == 0 ==> maxSum == 0
      invariant i > 0 ==> exists k :: 0 <= k < i && maxSum == ts[k].g + ts[k].delta
    {
      var gd := ts[i].g + ts[i].delta;
      if gd > maxSum {
        maxSum := gd;
      }
      SumGPrefix(ts, i);
      g := g + ts[i].g;
      summary := summary + [SummaryEntry(ts[i].value, g, ts[i].delta)];
      i := i + 1;
    }
    maxGd := maxSum / 2;
  }

  /** On ordered tuples the summary keys ascend, so the query's binary search
      is well defined; the last entry's g is the total Σg. */
  lemma {:induction false} FinalizedKeysAscending(ts: seq<Tuple>, summary: seq<SummaryEntry>)
    requires Ordered(ts) && |summary| == |ts|
    requires forall i :: 0 <= i < |ts| ==> summary[i].delta == ts[i].delta
    requires forall i :: 0 <= i < |ts| ==> summary[i].g == SumG(ts[..i + 1])
    ensures Ascending(Keys(summary))
    ensures |ts| > 0 ==> summary[|ts| - 1].g == SumG(ts)
  {
    var ks := Keys(summary);
    forall i | 0 <= i < |ts| - 1
      ensures ks[i] <= ks[i + 1]
    {
      SumGPrefix(ts, i + 1);
      assert ts[i].delta <= ts[i + 1].g + ts[i + 1].delta;
    }
    AdjacentAscending(ks);
    if |ts| > 0 {
      assert ts[..|ts|] == ts;
    }
  }

  /** Keys that never drop between neighbours are ascending. */
  lemma {:induction false} AdjacentAscending(ks: seq<int>)
    requires forall i :: 0 <= i < |ks| - 1 ==> ks[i] <= ks[i + 1]
    ensures Ascending(ks)
    decreases |ks|
  {
    if |ks| > 1 {
      AdjacentAscending(ks[1..]);
      forall i, j | 0 <= i <= j < |ks|
        ensures ks[i] <= ks[j]
      {
        if 0 < i {
          assert ks[1..][i - 1] <= ks[1..][j - 1];
        } else if 0 < j {
          assert ks[0] <= ks[1];
          assert ks[1..][0] <= ks[1..][j - 1];
        }
      }
    }
  }

  /** The value of the last entry whose key g + delta is at most
      `rankN + maxGd`, where `rankN` stands for rank * last_n; 0 when even the
      first key is larger (or the summary is empty). */
  method QueryForValue(summary: seq<SummaryEntry>, maxGd: nat, rankN: nat) returns (v: int)
    requires Ascending(Keys(summary))
    ensures var target := rankN + maxGd;
            || ((|summary| == 0 || summary[0].g + summary[0].delta > target) && v == 0)
            || (exists k :: 0 <= k < |summary| && v == summary[k].v
                  && summary[k].g + summary[k].delta <= target
                  && (k + 1 == |summary| || summary[k + 1].g + summary[k + 1].delta > target))
  {
    var ks := Keys(summary);
    var k := UpperBound(ks, rankN + maxGd);
    if k == 0 {
      v := 0;
    } else {
      v := summary[k - 1].v;
    }
  }
}
