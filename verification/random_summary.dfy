/** finalize and query_for_value of the randomized sketch (random.h:161-228):
    every retained value carries the number of input values it stands for,
    the buffers are merged by value, and each summary entry is ranked by the
    total weight of the entries before it. */
module RandomSummary {
  import opened Outcomes
  import opened Search
  import opened Merging
  import opened Bits
  import opened Pool
  import opened RandomSketch

  /** A retained value and its weight. */
  datatype Weighted = Weighted(v: int, w: nat)

  function Value(e: Weighted): int { e.v }

  /** One buffer of finalize's heap: its values, all of the same weight. */
  datatype Stream = Stream(buf: seq<int>, w: nat)

  /** An entry of the summary: a value and the weight of the entries before it. */
  datatype QuantileEntry = QuantileEntry(v: int, rank: int)

  /** The values of a buffer, each with the buffer's weight. */
  function Tag(s: Stream): (es: seq<Weighted>)
    ensures |es| == |s.buf|
    ensures forall i :: 0 <= i < |es| ==> es[i] == Weighted(s.buf[i], s.w)
  {
    seq(|s.buf|, i requires 0 <= i < |s.buf| => Weighted(s.buf[i], s.w))
  }

  function Tagged(ss: seq<Stream>): (r: seq<seq<Weighted>>)
    ensures |r| == |ss|
    ensures forall i :: 0 <= i < |ss| ==> r[i] == Tag(ss[i])
  {
    seq(|ss|, i requires 0 <= i < |ss| => Tag(ss[i]))
  }

  /** The total weight of a sequence of entries. */
  function WeightOf(es: seq<Weighted>): nat {
    if |es| == 0 then 0 else es[0].w + WeightOf(es[1..])
  }

  /** Σ size * weight over the buffers, as finalize adds up summary_weight_sum. */
  function StreamsWeight(ss: seq<Stream>): nat {
    if |ss| == 0 then 0 else |ss[0].buf| * ss[0].w + StreamsWeight(ss[1..])
  }

  /** All entries of all streams. */
  function Union(ss: seq<seq<Weighted>>): multiset<Weighted> {
    if |ss| == 0 then multiset{} else multiset(ss[0]) + Union(ss[1..])
  }

  /* ----- the weights (random.h:166-186) ----- */

  /** The weight of a value in the current buffer as written: prob_mask + 1
      evaluated in the 32-bit type of prob_mask before it is widened. */
  function CurWeightAsWritten(s: Sampler): nat {
    (s.mask + 1) % WordMod
  }

  /** The weight of a value in the current buffer: the inverse 2^width of the
      sampling rate. */
  function CurWeight(s: Sampler): (w: nat)
    ensures w >= 1
  {
    Pow2(s.width)
  }

  /** Below width 32 the two agree. */
  lemma CurWeightAgrees(s: Sampler)
    requires SamplerInv(s) && s.width < WordBits
    ensures CurWeightAsWritten(s) == CurWeight(s)
  {
    MaskIsPow2(s);
    Pow2Monotone(s.width + 1, WordBits);
    Pow2Word();
  }

  /** At width 32, reached after 32 rotations, the mask is 2^32 - 1 and the
      written weight wraps to 0, while each value then stands for 2^32. */
  lemma CurWeightWraps(s: Sampler)
    requires SamplerInv(s) && s.width == WordBits
    ensures CurWeightAsWritten(s) == 0 && CurWeight(s) == WordMod
  {
    MaskIsPow2(s);
    Pow2Word();
  }

  /** The non-empty buffers among `hs`, each with weight w. */
  function BufferStreams(pool: seq<seq<int>>, hs: seq<nat>, w: nat): (r: seq<Stream>)
    requires forall k :: 0 <= k < |hs| ==> hs[k] < |pool|
    ensures forall i :: 0 <= i < |r| ==> r[i].w == w && |r[i].buf| > 0
  {
    if |hs| == 0 then []
    else (if |pool[hs[0]]| > 0 then [Stream(pool[hs[0]], w)] else []) + BufferStreams(pool, hs[1..], w)
  }

  /** Layers i and up; the weight doubles from one layer to the next. */
  function LayerStreams(pool: seq<seq<int>>, layers: seq<seq<nat>>, i: nat, w: nat): (r: seq<Stream>)
    requires forall j, k :: 0 <= j < |layers| && 0 <= k < |layers[j]| ==> layers[j][k] < |pool|
    ensures forall k :: 0 <= k < |r| ==> (r[k].w == 0 <==> w == 0) && |r[k].buf| > 0
    decreases |layers| - i
  {
    if i >= |layers| then []
    else BufferStreams(pool, layers[i], w) + LayerStreams(pool, layers, i + 1, 2 * w)
  }

  /** What finalize puts on its heap: the sorted current buffer when it is not
      empty, with weight cw, then every non-empty filed buffer, layer i with
      weight cw * 2^i. */
  function Streams(c: Config, st: Sketch, cw: nat): (r: seq<Stream>)
    requires WellFormed(c, st)
    ensures forall k :: 0 <= k < |r| ==> (r[k].w == 0 <==> cw == 0) && |r[k].buf| > 0
  {
    (if |st.pool[st.cur]| > 0 then [Stream(Sort(st.pool[st.cur]), cw)] else [])
      + LayerStreams(st.pool, st.layers, 0, cw)
  }

  /* ----- merging (random.h:188-213) ----- */

  /** The heap merge of finalize, as successive two-way merges by value. */
  function MergeAll(ss: seq<seq<Weighted>>): (m: seq<Weighted>)
    ensures multiset(m) == Union(ss)
    ensures (forall i :: 0 <= i < |ss| ==> SortedBy(ss[i], Value)) ==> SortedBy(m, Value)
  {
    if |ss| == 0 then []
    else Merge(ss[0], MergeAll(ss[1..]), Value)
  }

  lemma {:induction false} WeightOfCons(x: Weighted, s: seq<Weighted>)
    ensures WeightOf([x] + s) == x.w + WeightOf(s)
  {
    assert ([x] + s)[1..] == s;
  }

  /** Merging neither loses nor adds weight. */
  lemma {:induction false} WeightOfMerge(a: seq<Weighted>, b: seq<Weighted>)
    ensures WeightOf(Merge(a, b, Value)) == WeightOf(a) + WeightOf(b)
    decreases |a| + |b|
  {
    if |a| > 0 && |b| > 0 {
      if a[0].v < b[0].v {
        WeightOfMerge(a[1..], b);
        WeightOfCons(a[0], Merge(a[1..], b, Value));
      } else {
        WeightOfMerge(a, b[1..]);
        WeightOfCons(b[0], Merge(a, b[1..], Value));
      }
    }
  }

  /** A buffer of n values of weight w weighs n * w. */
  lemma {:induction false} WeightOfTag(s: Stream)
    ensures WeightOf(Tag(s)) == |s.buf| * s.w
    decreases |s.buf|
  {
    if |s.buf| > 0 {
      var t := Stream(s.buf[1..], s.w);
      WeightOfTag(t);
      assert Tag(s)[1..] == Tag(t);
    }
  }

  /** The merged entries weigh what finalize adds up as summary_weight_sum. */
  lemma {:induction false} WeightOfMergeAll(ss: seq<Stream>)
    ensures WeightOf(MergeAll(Tagged(ss))) == StreamsWeight(ss)
    decreases |ss|
  {
    if |ss| > 0 {
      assert Tagged(ss)[1..] == Tagged(ss[1..]);
      WeightOfMergeAll(ss[1..]);
      WeightOfTag(ss[0]);
      WeightOfMerge(Tag(ss[0]), MergeAll(Tagged(ss[1..])));
    }
  }

  lemma {:induction false} WeightOfSnoc(es: seq<Weighted>, i: nat)
    requires i < |es|
    ensures WeightOf(es[..i + 1]) == WeightOf(es[..i]) + es[i].w
    decreases i
  {
    if i > 0 {
      WeightOfSnoc(es[1..], i - 1);
      assert es[..i + 1][1..] == es[1..][..i];
      assert es[..i][1..] == es[1..][..i - 1];
    } else {
      assert es[..1][1..] == [];
    }
  }

  lemma {:induction false} WeightOfPrefixMonotone(es: seq<Weighted>, i: nat, j: nat)
    requires i <= j <= |es|
    ensures WeightOf(es[..i]) <= WeightOf(es[..j])
    decreases j - i
  {
    if i < j {
      WeightOfSnoc(es, j - 1);
      WeightOfPrefixMonotone(es, i, j - 1);
    }
  }

  /** finalize: merge all buffers by value and rank each entry by the weight
      before it. The current buffer's values weigh prob_mask + 1 as the source
      computes it in 32 bits, which is 2^width below width 32 (CurWeightAgrees)
      and wraps to 0 at width 32 (CurWeightWraps). */
  method Finalize(c: Config, st: Sketch) returns (summary: seq<QuantileEntry>, weightSum: nat)
    requires WellFormed(c, st)
    ensures var es := MergeAll(Tagged(Streams(c, st, CurWeightAsWritten(st.sampler))));
            && |summary| == |es|
            && (forall k :: 0 <= k < |es| ==> summary[k].v == es[k].v && summary[k].rank == WeightOf(es[..k]))
            && weightSum == WeightOf(es)
  {
    var ss := Streams(c, st, CurWeightAsWritten(st.sampler));
    weightSum := SumWeights(ss);
    WeightOfMergeAll(ss);
    summary := RankEntries(MergeAll(Tagged(ss)));
  }

  /** summary_weight_sum: Σ size * weight over the heap's buffers. */
  method SumWeights(ss: seq<Stream>) returns (total: nat)
    ensures total == StreamsWeight(ss)
  {
    total := 0;
    var i := 0;
    while i < |ss|
      invariant 0 <= i <= |ss|
      invariant total + StreamsWeight(ss[i..]) == StreamsWeight(ss)
    {
      assert ss[i..][1..] == ss[i + 1..];
      total := total + |ss[i].buf| * ss[i].w;
      i := i + 1;
    }
    assert ss[|ss|..] == [];
  }

  /** The loop that pops the heap: each entry is ranked by the weight of the
      entries popped before it. */
  method RankEntries(es: seq<Weighted>) returns (summary: seq<QuantileEntry>)
    ensures |summary| == |es|
    ensures forall k :: 0 <= k < |es| ==> summary[k].v == es[k].v && summary[k].rank == WeightOf(es[..k])
  {
    summary := [];
    var rank: nat := 0;
    var k := 0;
    while k < |es|
      invariant 0 <= k <= |es| && |summary| == k
      invariant rank == WeightOf(es[..k])
      invariant forall j :: 0 <= j < k ==> summary[j].v == es[j].v && summary[j].rank == WeightOf(es[..j])
    {
      summary := summary + [QuantileEntry(es[k].v, rank)];
      WeightOfSnoc(es, k);
      rank := rank + es[k].w;
      k := k + 1;
    }
  }

  /** The ranks of a summary, in order. */
  function Ranks(summary: seq<QuantileEntry>): (rs: seq<int>)
    ensures |rs| == |summary|
    ensures forall i :: 0 <= i < |summary| ==> rs[i] == summary[i].rank
  {
    seq(|summary|, i requires 0 <= i < |summary| => summary[i].rank)
  }

  /** The summary finalize builds from a sketch in the invariant: its values
      ascend, its ranks ascend from 0, and its entries are exactly the
      buffers' values, each with its buffer's weight. */
  lemma FinalizedOrdered(c: Config, st: Sketch, cw: nat, summary: seq<QuantileEntry>)
    requires Inv(c, st)
    requires var es := MergeAll(Tagged(Streams(c, st, cw)));
             && |summary| == |es|
             && forall k :: 0 <= k < |es| ==> summary[k].v == es[k].v && summary[k].rank == WeightOf(es[..k])
    ensures Ascending(Ranks(summary))
    ensures |summary| > 0 ==> summary[0].rank == 0
    ensures forall i, j :: 0 <= i <= j < |summary| ==> summary[i].v <= summary[j].v
    ensures multiset(MergeAll(Tagged(Streams(c, st, cw)))) == Union(Tagged(Streams(c, st, cw)))
  {
    var ss := Streams(c, st, cw);
    var es := MergeAll(Tagged(ss));
    forall i, j | 0 <= i <= j < |summary|
      ensures Ranks(summary)[i] <= Ranks(summary)[j]
    {
      WeightOfPrefixMonotone(es, i, j);
    }
    if |summary| > 0 {
      assert es[..0] == [];
    }
    StreamsSorted(c, st, cw);
    var ks := KeysOf(es, Value);
    forall i, j | 0 <= i <= j < |summary|
      ensures summary[i].v <= summary[j].v
    {
      assert ks[i] <= ks[j];
    }
  }

  /** Every buffer on the heap is sorted: the current one is sorted first, and
      filed ones are sorted already. */
  lemma StreamsSorted(c: Config, st: Sketch, cw: nat)
    requires Inv(c, st)
    ensures forall i :: 0 <= i < |Streams(c, st, cw)| ==> SortedBy(Tagged(Streams(c, st, cw))[i], Value)
  {
    var cur: seq<Stream> := if |st.pool[st.cur]| > 0 then [Stream(Sort(st.pool[st.cur]), cw)] else [];
    LayerStreamsSorted(c, st, 0, cw);
    AllSortedAppend(cur, LayerStreams(st.pool, st.layers, 0, cw));
    var ss := Streams(c, st, cw);
    forall i | 0 <= i < |ss|
      ensures SortedBy(Tag(ss[i]), Value)
    {
      TagSorted(ss[i]);
    }
  }

  lemma TagSorted(s: Stream)
    requires Ascending(s.buf)
    ensures SortedBy(Tag(s), Value)
  {
    var ks := KeysOf(Tag(s), Value);
    forall i, j | 0 <= i <= j < |ks|
      ensures ks[i] <= ks[j]
    {
      assert s.buf[i] <= s.buf[j];
    }
  }

  /** Every buffer of `ss` is sorted. */
  ghost predicate AllSorted(ss: seq<Stream>) {
    forall k :: 0 <= k < |ss| ==> Ascending(ss[k].buf)
  }

  lemma AllSortedAppend(a: seq<Stream>, b: seq<Stream>)
    requires AllSorted(a) && AllSorted(b)
    ensures AllSorted(a + b)
  {
    forall k | 0 <= k < |a + b|
      ensures Ascending((a + b)[k].buf)
    {
      if k >= |a| {
        assert (a + b)[k] == b[k - |a|];
      } else {
        assert (a + b)[k] == a[k];
      }
    }
  }

  lemma {:induction false} LayerStreamsSorted(c: Config, st: Sketch, i: nat, w: nat)
    requires Inv(c, st)
    ensures AllSorted(LayerStreams(st.pool, st.layers, i, w))
    decreases |st.layers| - i
  {
    if i < |st.layers| {
      LayerStreamsSorted(c, st, i + 1, 2 * w);
      BufferStreamsSorted(c, st, i, 0, w);
      assert st.layers[i][0..] == st.layers[i];
      AllSortedAppend(BufferStreams(st.pool, st.layers[i], w), LayerStreams(st.pool, st.layers, i + 1, 2 * w));
    }
  }

  lemma {:induction false} BufferStreamsSorted(c: Config, st: Sketch, i: nat, from: nat, w: nat)
    requires Inv(c, st) && i < |st.layers| && from <= |st.layers[i]|
    ensures AllSorted(BufferStreams(st.pool, st.layers[i][from..], w))
    decreases |st.layers[i]| - from
  {
    var hs := st.layers[i][from..];
    if |hs| > 0 {
      assert FullBuffer(c, st.pool[st.layers[i][from]]);
      assert hs[1..] == st.layers[i][from + 1..];
      BufferStreamsSorted(c, st, i, from + 1, w);
      var a: seq<Stream> := if |st.pool[hs[0]]| > 0 then [Stream(st.pool[hs[0]], w)] else [];
      AllSortedAppend(a, BufferStreams(st.pool, hs[1..], w));
    }
  }

  /* ----- query (random.h:217-228) ----- */

  /** query_for_value: `target` stands for ceil(rank * summary_weight_sum).
      The value of the last entry ranked at or below the target; the assert
      that such an entry exists is the fault. */
  method QueryForValue(summary: seq<QuantileEntry>, target: int) returns (r: Result<int>)
    requires Ascending(Ranks(summary))
    ensures r.Err? <==> (|summary| == 0 || summary[0].rank > target)
    ensures r.Err? ==> r.fault == NoEntryAtRank
    ensures r.Ok? ==> exists k :: 0 <= k < |summary| && r.value == summary[k].v
                       && summary[k].rank <= target
                       && (k + 1 == |summary| || summary[k + 1].rank > target)
  {
    var k := UpperBound(Ranks(summary), target);
    if k == 0 {
      r := Err(NoEntryAtRank);
    } else {
      r := Ok(summary[k - 1].v);
    }
  }

  /** With positive weights the answer for a target in [0, weightSum) is the
      entry whose span of weight [rank, rank + w) contains the target: the
      entry is determined and has as much weight before it as the target asks
      for, up to its own weight. */
  lemma {:induction false} AnswerCoversTarget(es: seq<Weighted>, summary: seq<QuantileEntry>, target: int, k: nat)
    requires |summary| == |es|
    requires forall j :: 0 <= j < |es| ==> summary[j].rank == WeightOf(es[..j])
    requires 0 <= target < WeightOf(es)
    requires k < |summary| && summary[k].rank <= target
    requires k + 1 == |summary| || summary[k + 1].rank > target
    ensures summary[k].rank <= target < summary[k].rank + es[k].w
  {
    WeightOfSnoc(es, k);
    if k + 1 == |es| {
      assert es[..k + 1] == es;
    }
  }

  /** With every weight 0, all ranks and the weight sum are 0, so whatever
      rank is asked for, the query answers the last entry: the largest
      retained value. */
  lemma {:induction false} ZeroWeightAnswersLast(es: seq<Weighted>, summary: seq<QuantileEntry>)
    requires |summary| == |es|
    requires forall j :: 0 <= j < |es| ==> es[j].w == 0
    requires forall j :: 0 <= j < |es| ==> summary[j].rank == WeightOf(es[..j])
    ensures WeightOf(es) == 0
    ensures FirstAbove(Ranks(summary), 0) == |summary|
  {
    forall j | 0 <= j <= |es|
      ensures WeightOf(es[..j]) == 0
    {
      ZeroPrefix(es, j);
    }
    assert es[..|es|] == es;
    FirstAboveAll(Ranks(summary), 0);
  }

  lemma {:induction false} ZeroPrefix(es: seq<Weighted>, j: nat)
    requires j <= |es| && forall i :: 0 <= i < |es| ==> es[i].w == 0
    ensures WeightOf(es[..j]) == 0
    decreases j
  {
    if j > 0 {
      ZeroPrefix(es, j - 1);
      WeightOfSnoc(es, j - 1);
    }
  }

  lemma {:induction false} FirstAboveAll(keys: seq<int>, target: int)
    requires forall i :: 0 <= i < |keys| ==> keys[i] <= target
    ensures FirstAbove(keys, target) == |keys|
    decreases |keys|
  {
    if |keys| > 0 {
      FirstAboveAll(keys[1..], target);
    }
  }

  /** As written, a sketch at width 32 weighs every buffer 0: its summary has
      weight sum 0 and ranks 0, and every query answers the largest retained
      value. */
  lemma WrappedWeightAnswersLast(c: Config, st: Sketch, summary: seq<QuantileEntry>)
    requires WellFormed(c, st) && st.sampler.width == WordBits
    requires var es := MergeAll(Tagged(Streams(c, st, CurWeightAsWritten(st.sampler))));
             && |summary| == |es| > 0
             && forall k :: 0 <= k < |es| ==> summary[k].rank == WeightOf(es[..k])
    ensures var es := MergeAll(Tagged(Streams(c, st, CurWeightAsWritten(st.sampler))));
            WeightOf(es) == 0 && FirstAbove(Ranks(summary), 0) == |summary|
  {
    CurWeightWraps(st.sampler);
    var es := MergeAll(Tagged(Streams(c, st, 0)));
    ZeroStreamsMerge(Streams(c, st, 0));
    ZeroWeightAnswersLast(es, summary);
  }

  /** Merging streams that all weigh 0 yields entries that all weigh 0. */
  lemma ZeroStreamsMerge(ss: seq<Stream>)
    requires forall k :: 0 <= k < |ss| ==> ss[k].w == 0
    ensures var es := MergeAll(Tagged(ss));
            forall j :: 0 <= j < |es| ==> es[j].w == 0
  {
    var es := MergeAll(Tagged(ss));
    forall j | 0 <= j < |es|
      ensures es[j].w == 0
    {
      assert es[j] in multiset(es);
      UnionWeights(Tagged(ss), es[j]);
    }
  }

  /** Every entry of the union carries the weight of the stream it came from. */
  lemma {:induction false} UnionWeights(ts: seq<seq<Weighted>>, e: Weighted)
    requires forall i, k :: 0 <= i < |ts| && 0 <= k < |ts[i]| ==> ts[i][k].w == 0
    requires e in Union(ts)
    ensures e.w == 0
    decreases |ts|
  {
    if e !in multiset(ts[0]) {
      UnionWeights(ts[1..], e);
    }
  }

  /** With the weight 2^width, every retained value weighs at least 1, so every
      target in [0, weightSum) is answered by the entry that covers it. */
  lemma CorrectedWeightsPositive(c: Config, st: Sketch)
    requires WellFormed(c, st)
    ensures forall e :: e in multiset(MergeAll(Tagged(Streams(c, st, CurWeight(st.sampler))))) ==> e.w >= 1
  {
    var ss := Streams(c, st, CurWeight(st.sampler));
    forall e | e in multiset(MergeAll(Tagged(ss)))
      ensures e.w >= 1
    {
      UnionPositive(Tagged(ss), e);
    }
  }

  lemma {:induction false} UnionPositive(ts: seq<seq<Weighted>>, e: Weighted)
    requires forall i, k :: 0 <= i < |ts| && 0 <= k < |ts[i]| ==> ts[i][k].w >= 1
    requires e in Union(ts)
    ensures e.w >= 1
    decreases |ts|
  {
    if e !in multiset(ts[0]) {
      UnionPositive(ts[1..], e);
    }
  }
}
