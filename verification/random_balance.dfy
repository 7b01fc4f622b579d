/** The shape of the layers of the randomized sketch. With at least two
    layers, every collapse finds a layer above the one it collapses, and it
    rotates only when the bottom layer has just been emptied, so the asserts
    of collapse never fire and feed can fail only on the sampler's width. */
module RandomBalance {
  import opened Outcomes
  import opened Search
  import opened Merging
  import opened Bits
  import opened Pool
  import opened RandomSketch

  /** The number of buffers in each layer. */
  function Sizes(layers: seq<seq<nat>>): (sz: seq<nat>)
    ensures |sz| == |layers|
    ensures forall i :: 0 <= i < |layers| ==> sz[i] == |layers[i]|
  {
    seq(|layers|, i requires 0 <= i < |layers| => |layers[i]|)
  }

  /** The number of buffers in layers j and up. */
  function SumFrom(sz: seq<nat>, j: nat): nat
    decreases |sz| - j
  {
    if j >= |sz| then 0 else sz[j] + SumFrom(sz, j + 1)
  }

  /** Stacked layer indices decrease towards the top of the stack, so its top
      is the lowest layer that holds two buffers. */
  ghost predicate Descending(stack: seq<nat>) {
    forall a, b :: 0 <= a < b < |stack| ==> stack[a] > stack[b]
  }

  /** Layers j and up, for j >= 1, together hold at most L - j + 1 buffers. */
  ghost predicate Bounded(sz: seq<nat>) {
    forall j :: 1 <= j < |sz| ==> SumFrom(sz, j) <= |sz| - j + 1
  }

  /** There are at least two layers, and the top one holds at most one buffer,
      and one only when every layer holds exactly one. */
  ghost predicate TopRule(sz: seq<nat>) {
    && |sz| >= 2
    && sz[|sz| - 1] <= 1
    && (sz[|sz| - 1] == 1 ==> forall i :: 0 <= i < |sz| ==> sz[i] == 1)
  }

  ghost predicate Balanced(st: Sketch) {
    Descending(st.stack) && Bounded(Sizes(st.layers)) && TopRule(Sizes(st.layers))
  }

  /* ----- sums of layer sizes ----- */

  /** Changing one size changes every sum that counts it by the difference. */
  lemma {:induction false} SumFromUpdate(sz: seq<nat>, i: nat, x: nat, j: nat)
    requires i < |sz|
    ensures SumFrom(sz[i := x], j) + (if j <= i then sz[i] else 0)
         == SumFrom(sz, j) + (if j <= i then x else 0)
    decreases |sz| - j
  {
    if j < |sz| {
      SumFromUpdate(sz, i, x, j + 1);
    }
  }

  /** Layers j .. k-1 holding at most one buffer each add at most k - j, and
      exactly k - j precisely when each holds one. */
  lemma {:induction false} SumFromSmall(sz: seq<nat>, j: nat, k: nat)
    requires j <= k <= |sz|
    requires forall i :: j <= i < k ==> sz[i] <= 1
    ensures SumFrom(sz, j) <= SumFrom(sz, k) + (k - j)
    ensures SumFrom(sz, j) == SumFrom(sz, k) + (k - j) <==> forall i :: j <= i < k ==> sz[i] == 1
    decreases k - j
  {
    if j < k {
      SumFromSmall(sz, j + 1, k);
    }
  }

  lemma {:induction false} SumFromSlice(layers: seq<seq<nat>>, j: nat)
    requires j <= |layers|
    ensures SumFrom(Sizes(layers), j) == |Flatten(layers[j..])|
    decreases |layers| - j
  {
    if j == |layers| {
      assert layers[j..] == [];
    } else {
      SumFromSlice(layers, j + 1);
      assert layers[j..][1..] == layers[j + 1..];
      assert Flatten(layers[j..]) == layers[j] + Flatten(layers[j + 1..]);
    }
  }

  /** All the layers' sizes add up to the number of filed buffers. */
  lemma {:induction false} SumFromFlatten(layers: seq<seq<nat>>)
    ensures SumFrom(Sizes(layers), 0) == |Flatten(layers)|
  {
    SumFromSlice(layers, 0);
    assert layers[0..] == layers;
  }

  /** Accounted handles are as many as the pool's buffers. */
  lemma AccountedCount(n: nat, hs: seq<nat>)
    requires Accounted(n, hs)
    ensures |hs| == n
  {
    assert |multiset(hs)| == |multiset(Range(n))|;
  }

  /* ----- one promotion, on sizes ----- */

  /** Promoting from the lowest layer k with two buffers, when L + 1 buffers
      are filed and the top layer is empty: there is a layer above k, and the
      bounds and the rule on the top layer still hold afterwards. */
  lemma PromoteBounded(sz: seq<nat>, k: nat)
    requires |sz| >= 2 && k < |sz| && sz[k] >= 2
    requires SumFrom(sz, 0) == |sz| + 1 && Bounded(sz) && sz[|sz| - 1] == 0
    requires forall i :: 0 <= i < k ==> sz[i] <= 1
    ensures k + 1 < |sz|
    ensures var sz' := sz[k := sz[k] - 2][k + 1 := sz[k + 1] + 1];
            Bounded(sz') && TopRule(sz')
  {
    var L := |sz|;
    assert k != L - 1;
    var sz' := sz[k := sz[k] - 2][k + 1 := sz[k + 1] + 1];
    SumFromSmall(sz, 0, k);
    var A := SumFrom(sz, k);
    if k >= 1 {
      assert A <= L - k + 1;
      assert A == L - k + 1;
    }
    forall j | 1 <= j < L
      ensures SumFrom(sz', j) <= L - j + 1
    {
      PromoteSum(sz, k, j);
      if j == k + 1 {
        assert SumFrom(sz, k + 1) == A - sz[k];
      }
    }
    PromoteTop(sz, k);
  }

  /** The sums after promoting from layer k: two fewer buffers from layer k
      down, one more from layer k + 1 down. */
  lemma PromoteSum(sz: seq<nat>, k: nat, j: nat)
    requires k + 1 < |sz| && sz[k] >= 2
    ensures SumFrom(sz[k := sz[k] - 2][k + 1 := sz[k + 1] + 1], j)
         == SumFrom(sz, j) - (if j <= k then 2 else 0) + (if j <= k + 1 then 1 else 0)
  {
    SumFromUpdate(sz, k, sz[k] - 2, j);
    SumFromUpdate(sz[k := sz[k] - 2], k + 1, sz[k + 1] + 1, j);
  }

  /** Promoting into the empty top layer happens only when every other layer
      holds one buffer and layer k holds the other two. */
  lemma PromoteTop(sz: seq<nat>, k: nat)
    requires |sz| >= 2 && k + 1 < |sz| && sz[k] >= 2
    requires SumFrom(sz, 0) == |sz| + 1 && Bounded(sz) && sz[|sz| - 1] == 0
    requires forall i :: 0 <= i < k ==> sz[i] <= 1
    ensures TopRule(sz[k := sz[k] - 2][k + 1 := sz[k + 1] + 1])
  {
    var L := |sz|;
    var sz' := sz[k := sz[k] - 2][k + 1 := sz[k + 1] + 1];
    if k + 1 == L - 1 {
      SumFromSmall(sz, 0, k);
      if k >= 1 {
        assert SumFrom(sz, k) <= L - k + 1;
      }
      assert SumFrom(sz, L - 1) == 0;
      assert sz[k] == SumFrom(sz, k);
      forall i | 0 <= i < L
        ensures sz'[i] == 1
      {
      }
    }
  }

  /** After a rotation that found every layer holding one buffer, the layers
      hold 2, 1, ..., 1, 0 buffers. */
  lemma RotatedBounded(sz: seq<nat>)
    requires |sz| >= 2 && sz[0] == 2 && sz[|sz| - 1] == 0
    requires forall i :: 1 <= i < |sz| - 1 ==> sz[i] == 1
    ensures Bounded(sz) && TopRule(sz)
  {
    var L := |sz|;
    forall j | 1 <= j < L
      ensures SumFrom(sz, j) <= L - j + 1
    {
      SumFromSmall(sz, j, L - 1);
    }
  }

  /* ----- the stack ----- */

  /** Below the top of an exact descending stack no layer holds two buffers. */
  lemma StackMin(st: Sketch)
    requires Stacked(st) && Descending(st.stack) && |st.stack| > 0
    ensures forall i :: 0 <= i < Top(st.stack) && i < |st.layers| ==> |st.layers[i]| <= 1
  {
    var n := |st.stack|;
    forall i | 0 <= i < Top(st.stack) && i < |st.layers|
      ensures |st.layers[i]| <= 1
    {
      forall a | 0 <= a < n
        ensures st.stack[a] != i
      {
        if a < n - 1 {
          assert st.stack[a] > st.stack[n - 1];
        }
      }
    }
  }

  /** Entry a of a descending stack exceeds its top by at least its distance
      from the top. */
  lemma {:induction false} DescendingGap(stack: seq<nat>, a: nat)
    requires Descending(stack) && a < |stack|
    ensures stack[a] + a + 1 >= Top(stack) + |stack|
    decreases |stack| - a
  {
    if a + 1 < |stack| {
      DescendingGap(stack, a + 1);
    }
  }

  /** Pushing an index below every stacked one keeps the stack descending. */
  lemma PushBelow(stack: seq<nat>, x: nat)
    requires Descending(stack) && forall a :: 0 <= a < |stack| ==> stack[a] > x
    ensures Descending(stack + [x])
  {
  }

  /* ----- the operations ----- */

  /** The constructor's layers are balanced when there are at least two. */
  lemma InitBalanced(c: Config)
    requires ValidConfig(c) && c.layerCount >= 2
    ensures Balanced(Init(c))
  {
    InitKeeps(c);
    var sz := Sizes(Init(c).layers);
    forall j | 1 <= j < |sz|
      ensures SumFrom(sz, j) <= |sz| - j + 1
    {
      SumFromSmall(sz, j, |sz|);
    }
  }

  /** A collapse started from balanced layers, with L + 1 buffers filed and
      the top layer empty or every layer but a doubled bottom one holding one
      buffer, passes all its asserts and leaves the layers balanced. */
  lemma CollapseBalanced(c: Config, st: Sketch, gen: nat -> nat)
    requires Filed(c, st) && |st.free| == 1
    requires Descending(st.stack) && Bounded(Sizes(st.layers)) && |st.layers| >= 2
    requires var L := |st.layers|;
             || |st.layers[L - 1]| == 0
             || (|st.layers[0]| == 2 && forall i :: 1 <= i < L ==> |st.layers[i]| == 1)
    ensures Collapse(c, st, gen).Ok? && Balanced(Collapse(c, st, gen).value)
  {
    Pigeonhole(c, st);
    CollapseUnfold(c, st, gen);
    AccountedCount(PoolSize(c), st.free + Flatten(st.layers));
    SumFromFlatten(st.layers);
    if |st.layers[|st.layers| - 1]| == 0 {
      PromoteBelowTop(c, st, gen);
    } else {
      PromoteRotates(c, st, gen);
    }
  }

  /** With the top layer empty, the lowest layer with two buffers has a layer
      above it, and promoting keeps the layers balanced. */
  lemma PromoteBelowTop(c: Config, st: Sketch, gen: nat -> nat)
    requires Filed(c, st) && |st.free| == 1
    requires Descending(st.stack) && Bounded(Sizes(st.layers)) && |st.layers| >= 2
    requires |st.layers[|st.layers| - 1]| == 0 && SumFrom(Sizes(st.layers), 0) == |st.layers| + 1
    requires |st.stack| > 0 && |st.layers[Top(st.stack)]| >= 2
    ensures var s2 := Popped(AllocateCurBuffer(c, st));
            var r := Promote(c, s2, Top(st.stack), gen, true);
            r.Ok? && Balanced(r.value)
  {
    var k := Top(st.stack);
    var s2 := Popped(AllocateCurBuffer(c, st));
    StackMin(st);
    PromoteBounded(Sizes(st.layers), k);
    PromoteEffect(c, s2, k, gen, true);
    var r := Promote(c, s2, k, gen, true).value;
    PromotedBalanced(st, k, s2.cur, r.layers, r.stack);
  }

  lemma PromotedBalanced(st: Sketch, k: nat, h: nat, layers: seq<seq<nat>>, stack: seq<nat>)
    requires Stacked(st) && Descending(st.stack) && |st.stack| > 0 && k == Top(st.stack)
    requires Bounded(Sizes(st.layers)) && |st.layers| >= 2 && |st.layers[|st.layers| - 1]| == 0
    requires SumFrom(Sizes(st.layers), 0) == |st.layers| + 1
    requires k + 1 < |st.layers| && |st.layers[k]| >= 2
    requires forall i :: 0 <= i < k ==> |st.layers[i]| <= 1
    requires layers == Promoted(st.layers, k, h)
    requires stack == st.stack[..|st.stack| - 1] + (if |st.layers[k + 1]| == 1 then [k + 1] else [])
                      + (if |layers[k]| >= 2 then [k] else [])
    ensures Descending(stack) && Bounded(Sizes(layers)) && TopRule(Sizes(layers))
  {
    var sz := Sizes(st.layers);
    PromoteBounded(sz, k);
    assert Sizes(layers) == sz[k := sz[k] - 2][k + 1 := sz[k + 1] + 1];
    CollapseStack(st, k);
    var s := st.stack[..|st.stack| - 1] + (if |st.layers[k + 1]| == 1 then [k + 1] else []);
    if |layers[k]| >= 2 {
      PushBelow(s, k);
    } else {
      assert stack == s;
    }
  }

  /** With every layer holding one buffer but a doubled bottom one, the bottom
      layer is the only one stacked; promoting empties it, and the rotation
      leaves 2, 1, ..., 1, 0 buffers. */
  lemma PromoteRotates(c: Config, st: Sketch, gen: nat -> nat)
    requires Filed(c, st) && |st.free| == 1 && |st.layers| >= 2 && Descending(st.stack)
    requires |st.layers[0]| == 2 && forall i :: 1 <= i < |st.layers| ==> |st.layers[i]| == 1
    requires |st.stack| > 0 && |st.layers[Top(st.stack)]| >= 2
    ensures var s2 := Popped(AllocateCurBuffer(c, st));
            var r := Promote(c, s2, Top(st.stack), gen, false);
            r.Ok? && Balanced(r.value)
  {
    var L := |st.layers|;
    var n := |st.stack|;
    var k := Top(st.stack);
    var s2 := Popped(AllocateCurBuffer(c, st));
    forall a | 0 <= a < n
      ensures st.stack[a] == 0
    {
      assert st.stack[a] in st.stack;
    }
    DescendingGap(st.stack, 0);
    assert n == 1;
    assert k == 0 && st.stack[..n - 1] == [];
    PromoteEffect(c, s2, k, gen, false);
    var r := Promote(c, s2, k, gen, false).value;
    var ls := Promoted(s2.layers, 0, s2.cur);
    assert r.layers == ls[1..] + [ls[0]];
    var sz' := Sizes(r.layers);
    forall i | 1 <= i < L - 1
      ensures sz'[i] == 1
    {
      assert r.layers[i] == ls[i + 1];
    }
    assert sz'[0] == 2 && sz'[L - 1] == 0;
    RotatedBounded(sz');
  }

  /** The stack after promoting from its top k below an empty top layer: k + 1
      goes on when its layer reaches two buffers, then k when it keeps two. */
  lemma CollapseStack(st: Sketch, k: nat)
    requires Stacked(st) && Descending(st.stack) && |st.stack| > 0 && k == Top(st.stack)
    requires k + 1 < |st.layers|
    ensures var popped := st.stack[..|st.stack| - 1];
            var s := popped + (if |st.layers[k + 1]| == 1 then [k + 1] else []);
            Descending(s) && (forall a :: 0 <= a < |s| ==> s[a] > k)
  {
    var n := |st.stack|;
    var popped := st.stack[..n - 1];
    forall a | 0 <= a < n - 1
      ensures popped[a] > k
    {
      assert st.stack[a] > st.stack[n - 1];
    }
    if |st.layers[k + 1]| == 1 {
      assert k + 1 !in st.stack;
      forall a | 0 <= a < n - 1
        ensures popped[a] > k + 1
      {
        assert popped[a] in st.stack;
      }
      PushBelow(popped, k + 1);
    }
  }

  /** Filing the full current buffer into the bottom layer of balanced layers:
      the bounds above the bottom layer and the stack's order hold, and either
      the top layer is empty or all layers hold one buffer but the bottom one,
      which now holds two; the latter only when no spare buffer is left. */
  lemma FileBottom(c: Config, st: Sketch)
    requires WellFormed(c, st) && Stacked(st) && Balanced(st)
    requires Accounted(PoolSize(c), st.free + [st.cur] + Flatten(st.layers))
    ensures var s3 := InsertCurBufferToLayers(c, st, 0).value;
            var L := |s3.layers|;
            && Descending(s3.stack) && Bounded(Sizes(s3.layers)) && L >= 2
            && (|s3.layers[L - 1]| == 0
                || (|st.free| == 1 && |s3.layers[0]| == 2 && forall i :: 1 <= i < L ==> |s3.layers[i]| == 1))
  {
    FileBottomStack(c, st);
    FileBottomBounded(c, st);
    FileBottomTop(c, st);
  }

  /** Filing into the bottom layer keeps the stack descending: layer 0 goes
      on top only when it reaches two buffers, and then it was not stacked. */
  lemma FileBottomStack(c: Config, st: Sketch)
    requires WellFormed(c, st) && Stacked(st) && Balanced(st)
    ensures Descending(InsertCurBufferToLayers(c, st, 0).value.stack)
  {
    if |st.layers[0]| == 1 {
      assert 0 !in st.stack;
      forall a | 0 <= a < |st.stack|
        ensures st.stack[a] > 0
      {
        assert st.stack[a] in st.stack;
      }
      PushBelow(st.stack, 0);
    }
  }

  /** Filing into the bottom layer leaves the sums from layer 1 up alone. */
  lemma FileBottomBounded(c: Config, st: Sketch)
    requires WellFormed(c, st) && Balanced(st)
    ensures Bounded(Sizes(InsertCurBufferToLayers(c, st, 0).value.layers))
  {
    var s3 := InsertCurBufferToLayers(c, st, 0).value;
    var L := |st.layers|;
    var sz := Sizes(st.layers);
    assert Sizes(s3.layers) == sz[0 := sz[0] + 1];
    forall j | 1 <= j < L
      ensures SumFrom(Sizes(s3.layers), j) <= L - j + 1
    {
      SumFromUpdate(sz, 0, sz[0] + 1, j);
    }
  }

  /** After filing into the bottom layer the top layer is still empty, unless
      it held the one buffer every layer held: then the bottom layer holds
      two and only one buffer is free. */
  lemma FileBottomTop(c: Config, st: Sketch)
    requires WellFormed(c, st) && Balanced(st)
    requires Accounted(PoolSize(c), st.free + [st.cur] + Flatten(st.layers))
    ensures var s3 := InsertCurBufferToLayers(c, st, 0).value;
            var L := |s3.layers|;
            && L >= 2
            && (|s3.layers[L - 1]| == 0
                || (|st.free| == 1 && |s3.layers[0]| == 2 && forall i :: 1 <= i < L ==> |s3.layers[i]| == 1))
  {
    var s3 := InsertCurBufferToLayers(c, st, 0).value;
    var L := |st.layers|;
    var sz := Sizes(st.layers);
    assert |s3.layers[L - 1]| == sz[L - 1];
    if sz[L - 1] == 1 {
      AccountedCount(PoolSize(c), st.free + [st.cur] + Flatten(st.layers));
      SumFromFlatten(st.layers);
      SumFromSmall(sz, 0, L);
    }
  }

  /** Descending stacks over bounded layers with an empty top layer are
      balanced. */
  lemma TopEmptyBalanced(st: Sketch)
    requires Descending(st.stack) && Bounded(Sizes(st.layers))
    requires |st.layers| >= 2 && |st.layers[|st.layers| - 1]| == 0
    ensures Balanced(st)
  {
  }

  /** Filing a full sorted current buffer into balanced layers passes every
      assert and keeps the layers balanced. */
  lemma FileFullBalanced(c: Config, st: Sketch, gen: nat -> nat)
    requires WellFormed(c, st) && LayersFull(c, st) && Stacked(st) && |st.free| >= 1
    requires Accounted(PoolSize(c), st.free + [st.cur] + Flatten(st.layers))
    requires FullBuffer(c, st.pool[st.cur]) && Balanced(st)
    ensures FileFull(c, st, gen).Ok? && Balanced(FileFull(c, st, gen).value)
  {
    FileCurrent(c, st, 0, -1);
    FileBottom(c, st);
    var s3 := InsertCurBufferToLayers(c, st, 0).value;
    assert InsertCurBufferToLayers(c, st, 0) == Ok(s3);
    assert s3.free == st.free;
    if |s3.free| >= 2 {
      assert |s3.layers[|s3.layers| - 1]| == 0;
      var s4 := AllocateCurBuffer(c, s3);
      assert FileFull(c, st, gen) == Ok(s4);
      TopEmptyBalanced(s4);
    } else {
      CollapseBalanced(c, s3, gen);
      assert FileFull(c, st, gen) == Collapse(c, s3, gen);
    }
  }

  /** Storing a sampled value into balanced layers passes every assert and
      keeps them balanced. */
  lemma StoreBalanced(c: Config, st: Sketch, v: int, gen: nat -> nat)
    requires Inv(c, st) && Balanced(st)
    ensures Store(c, st, v, gen).Ok? && Balanced(Store(c, st, v, gen).value)
  {
    var buf := st.pool[st.cur] + [v];
    if |buf| == c.bufferSize {
      SetCurrent(c, st, Sort(buf));
      FileFullBalanced(c, st.(pool := st.pool[st.cur := Sort(buf)]), gen);
    }
  }

  /** With at least two layers, feed keeps the balance of the layers (the
      invariant is FeedKeeps' part) and fails only when the sampling width
      has outgrown the 32-bit random words: every assert of collapse holds. */
  lemma FeedBalanced(c: Config, st: Sketch, v: int, gen: nat -> nat)
    requires Inv(c, st) && Balanced(st)
    ensures var r := Feed(c, st, v, gen);
            && (r.Ok? ==> Balanced(r.value))
            && (r.Err? ==> r.fault == WidthTooLarge)
  {
    var n := NextIsSampled(st.sampler, gen, st.drawn);
    if n.Ok? {
      var d := n.value;
      var s1 := Counted(st, d);
      assert Balanced(s1);
      if d.sampled {
        assert Inv(c, s1);
        StoreBalanced(c, s1, v, gen);
        FeedStores(c, st, v, gen);
      } else {
        assert Feed(c, st, v, gen) == Ok(s1);
      }
    } else {
      assert Feed(c, st, v, gen) == Err(n.fault);
    }
  }

  /** Any run of feeds from balanced layers fails only on the sampler's width. */
  lemma {:induction false} FeedAllBalanced(c: Config, st: Sketch, vs: seq<int>, gen: nat -> nat)
    requires Inv(c, st) && Balanced(st)
    ensures var r := FeedAll(c, st, vs, gen);
            && (r.Ok? ==> Inv(c, r.value) && Balanced(r.value))
            && (r.Err? ==> r.fault == WidthTooLarge)
    decreases |vs|
  {
    if |vs| > 0 {
      FeedKeeps(c, st, vs[0], gen);
      FeedBalanced(c, st, vs[0], gen);
      match Feed(c, st, vs[0], gen)
      case Err(f) =>
      case Ok(s) => FeedAllBalanced(c, s, vs[1..], gen);
    }
  }

  /** A sketch built with at least two layers never trips an assert of feed
      or collapse, whatever values and random words it meets: the only fault
      left is a sampling width beyond 32 bits. */
  lemma {:induction false} ConstructedFeedsSafe(c: Config, vs: seq<int>, gen: nat -> nat)
    requires ValidConfig(c) && c.layerCount >= 2
    ensures var r := FeedAll(c, Init(c), vs, gen);
            && (r.Ok? ==> Inv(c, r.value) && Balanced(r.value))
            && (r.Err? ==> r.fault == WidthTooLarge)
  {
    InitKeeps(c);
    InitBalanced(c);
    FeedAllBalanced(c, Init(c), vs, gen);
  }

  /* ----- a single layer ----- */

  /** While every value is sampled and the current buffer does not fill up,
      feeding only appends to it. */
  lemma {:induction false} FillCurrent(c: Config, st: Sketch, vs: seq<int>, gen: nat -> nat)
    requires Inv(c, st) && st.sampler.width == 0
    requires |st.pool[st.cur]| + |vs| < c.bufferSize
    ensures var r := FeedAll(c, st, vs, gen);
            && r.Ok? && Inv(c, r.value) && r.value.sampler.width == 0
            && r.value.layers == st.layers && r.value.cur == st.cur
            && |r.value.pool[r.value.cur]| == |st.pool[st.cur]| + |vs|
    decreases |vs|
  {
    if |vs| > 0 {
      FeedKeeps(c, st, vs[0], gen);
      FeedStores(c, st, vs[0], gen);
      var s := Feed(c, st, vs[0], gen).value;
      FillCurrent(c, s, vs[1..], gen);
    }
  }

  /** With one layer, the value that fills the current buffer while the layer
      is empty files it there and takes a fresh buffer. */
  lemma FileFirst(c: Config, st: Sketch, v: int, gen: nat -> nat)
    requires Inv(c, st) && c.layerCount == 1 && st.sampler.width == 0
    requires st.layers[0] == [] && |st.pool[st.cur]| + 1 == c.bufferSize
    ensures var r := Feed(c, st, v, gen);
            && r.Ok? && Inv(c, r.value) && r.value.sampler.width == 0
            && |r.value.layers[0]| == 1 && r.value.pool[r.value.cur] == []
  {
    FeedKeeps(c, st, v, gen);
    FeedStores(c, st, v, gen);
    AccountedCount(PoolSize(c), st.free + [st.cur] + Flatten(st.layers));
    assert Flatten(st.layers) == [] + Flatten(st.layers[1..]);
    var s1 := st.(lastN := st.lastN + 1);
    var full := s1.(pool := s1.pool[s1.cur := Sort(s1.pool[s1.cur] + [v])]);
    var s3 := InsertCurBufferToLayers(c, full, 0).value;
    assert InsertCurBufferToLayers(c, full, 0) == Ok(s3);
    assert |s3.free| == 2;
    assert FileFull(c, full, gen) == Ok(AllocateCurBuffer(c, s3));
  }

  /** With one layer, the value that fills the current buffer while the layer
      holds one buffer leaves a single buffer free, and the collapse that
      follows finds no layer above the bottom one: the assert of
      insert_cur_buffer_to_layers fails. */
  lemma SingleLayerFault(c: Config, st: Sketch, v: int, gen: nat -> nat)
    requires Inv(c, st) && c.layerCount == 1 && st.sampler.width == 0
    requires |st.layers[0]| == 1 && |st.pool[st.cur]| + 1 == c.bufferSize
    ensures Feed(c, st, v, gen) == Err(PastTopLayer)
  {
    var s1 := Counted(st, Draw(true, st.sampler, st.drawn));
    FeedStores(c, st, v, gen);
    assert Feed(c, st, v, gen) == Store(c, s1, v, gen);
    var b := Sort(s1.pool[s1.cur] + [v]);
    var full := s1.(pool := s1.pool[s1.cur := b]);
    assert Store(c, s1, v, gen) == FileFull(c, full, gen);
    SetCurrent(c, s1, b);
    SingleLayerFileFull(c, full, gen);
  }

  /** With one layer holding one buffer, filing a full current buffer leaves
      one buffer free, and the collapse that follows fails. */
  lemma SingleLayerFileFull(c: Config, st: Sketch, gen: nat -> nat)
    requires WellFormed(c, st) && LayersFull(c, st) && Stacked(st) && c.layerCount == 1
    requires Accounted(PoolSize(c), st.free + [st.cur] + Flatten(st.layers))
    requires FullBuffer(c, st.pool[st.cur]) && |st.layers[0]| == 1
    ensures FileFull(c, st, gen) == Err(PastTopLayer)
  {
    AccountedCount(PoolSize(c), st.free + [st.cur] + Flatten(st.layers));
    assert Flatten(st.layers) == st.layers[0] + Flatten(st.layers[1..]);
    FileCurrent(c, st, 0, -1);
    var s3 := InsertCurBufferToLayers(c, st, 0).value;
    assert InsertCurBufferToLayers(c, st, 0) == Ok(s3);
    assert |s3.free| == 1;
    assert FileFull(c, st, gen) == Collapse(c, s3, gen);
    SingleLayerCollapse(c, s3, gen);
  }

  /** With one layer, a collapse has no layer to promote into. */
  lemma SingleLayerCollapse(c: Config, st: Sketch, gen: nat -> nat)
    requires Filed(c, st) && |st.free| == 1 && c.layerCount == 1
    ensures Collapse(c, st, gen) == Err(PastTopLayer)
  {
    Pigeonhole(c, st);
    CollapseUnfold(c, st, gen);
  }

  /** With one layer holding one buffer and an empty current buffer, the next
      B values fail: the last of them fills the current buffer. */
  lemma {:induction false} SecondBufferFails(c: Config, st: Sketch, b: seq<int>, y: int, gen: nat -> nat)
    requires Inv(c, st) && c.layerCount == 1 && st.sampler.width == 0
    requires |st.layers[0]| == 1 && st.pool[st.cur] == [] && |b| + 1 == c.bufferSize
    ensures FeedAll(c, st, b + [y], gen) == Err(PastTopLayer)
  {
    FillCurrent(c, st, b, gen);
    var s3 := FeedAll(c, st, b, gen).value;
    SingleLayerFault(c, s3, y, gen);
    FeedAllAppend(c, s3, [y], [], gen);
    assert FeedAll(c, s3, [y], gen) == Err(PastTopLayer);
    FeedAllAppend(c, st, b, [y], gen);
  }

  /** With one layer, the first B values fed while the layer is empty file one
      buffer there and leave an empty current buffer. */
  lemma {:induction false} FirstBufferFiles(c: Config, st: Sketch, a: seq<int>, x: int, gen: nat -> nat)
    requires Inv(c, st) && c.layerCount == 1 && st.sampler.width == 0
    requires st.layers[0] == [] && st.pool[st.cur] == [] && |a| + 1 == c.bufferSize
    ensures var r := FeedAll(c, st, a + [x], gen);
            && r.Ok? && Inv(c, r.value) && r.value.sampler.width == 0
            && |r.value.layers[0]| == 1 && r.value.pool[r.value.cur] == []
  {
    FillCurrent(c, st, a, gen);
    var s1 := FeedAll(c, st, a, gen).value;
    FileFirst(c, s1, x, gen);
    var s2 := Feed(c, s1, x, gen).value;
    assert FeedAll(c, s1, [x], gen) == FeedAll(c, s2, [], gen);
    FeedAllAppend(c, st, a, [x], gen);
  }

  /** With one layer, any 2B values fed to a new sketch fail: the last of them
      triggers a collapse with no layer to promote into. */
  lemma {:induction false} SingleLayerRun(c: Config, vs: seq<int>, gen: nat -> nat)
    requires ValidConfig(c) && c.layerCount == 1 && |vs| == 2 * c.bufferSize
    ensures FeedAll(c, Init(c), vs, gen) == Err(PastTopLayer)
  {
    var B := c.bufferSize;
    var st := Init(c);
    InitKeeps(c);
    InitialSamplerInv();
    var first, b, y := vs[..B], vs[B..2 * B - 1], vs[2 * B - 1];
    assert vs == first + (b + [y]);
    assert first == first[..B - 1] + [first[B - 1]];
    FirstBufferFiles(c, st, first[..B - 1], first[B - 1], gen);
    var s2 := FeedAll(c, st, first, gen).value;
    SecondBufferFails(c, s2, b, y, gen);
    FeedAllAppend(c, st, first, b + [y], gen);
  }
}
