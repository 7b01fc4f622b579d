/** The randomized sketch of random.h: a pool of buffers, the current buffer
    being filled, layers of full sorted buffers, and a stack of the layers that
    can be collapsed. Every assert of the source is a fault of the result. */
module RandomSketch {
  import opened Outcomes
  import opened Search
  import opened Merging
  import opened Bits
  import opened Pool

  /** The two limits the constructor derives from eps: B values per buffer
      and L layers. */
  datatype Config = Config(bufferSize: nat, layerCount: nat)

  ghost predicate ValidConfig(c: Config) {
    c.bufferSize >= 1 && c.layerCount >= 1
  }

  /** buffer_count_limit + 1 buffers, where buffer_count_limit is L + 1. */
  function PoolSize(c: Config): nat {
    c.layerCount + 2
  }

  /** Buffers are handles into `pool`. The free list and the collapsible stack
      have their tops at the back; `layers[0]` is the bottom layer and lists its
      buffers oldest first; `stack` holds layer indices. */
  datatype Sketch = Sketch(
    lastN: nat,
    pool: seq<seq<int>>,
    free: seq<nat>,
    cur: nat,
    layers: seq<seq<nat>>,
    stack: seq<nat>,
    sampler: Sampler,
    coin: Coin,
    drawn: nat)

  /** Every handle names a pool buffer and every stacked index names a layer. */
  ghost predicate WellFormed(c: Config, st: Sketch) {
    && ValidConfig(c)
    && |st.pool| == PoolSize(c)
    && |st.layers| == c.layerCount
    && (forall a :: 0 <= a < |st.free| ==> st.free[a] < |st.pool|)
    && st.cur < |st.pool|
    && (forall i, k :: 0 <= i < |st.layers| && 0 <= k < |st.layers[i]| ==> st.layers[i][k] < |st.pool|)
    && (forall a :: 0 <= a < |st.stack| ==> st.stack[a] < |st.layers|)
    && SamplerInv(st.sampler)
    && CoinInv(st.coin)
  }

  /** A buffer as it is filed in a layer: full and sorted. */
  ghost predicate FullBuffer(c: Config, buf: seq<int>) {
    |buf| == c.bufferSize && Ascending(buf)
  }

  ghost predicate LayersFull(c: Config, st: Sketch)
    requires WellFormed(c, st)
  {
    forall i, k :: 0 <= i < |st.layers| && 0 <= k < |st.layers[i]| ==>
      FullBuffer(c, st.pool[st.layers[i][k]])
  }

  /** The stack names, once each, exactly the layers other than `skip` that
      hold at least two buffers; `skip` itself is not on it. */
  ghost predicate StackBut(st: Sketch, skip: int) {
    && (forall a :: 0 <= a < |st.stack| ==> st.stack[a] != skip)
    && (forall a, b :: 0 <= a < b < |st.stack| ==> st.stack[a] != st.stack[b])
    && (forall i :: 0 <= i < |st.layers| && i != skip ==> (i in st.stack <==> |st.layers[i]| >= 2))
  }

  ghost predicate Stacked(st: Sketch) {
    StackBut(st, -1)
  }

  /** The state between two calls of feed: the free, current and filed
      buffers are the whole pool, at least one buffer is free, the current
      buffer is not full, filed buffers are full and sorted, and the stack is
      exact. */
  ghost predicate Inv(c: Config, st: Sketch) {
    && WellFormed(c, st)
    && Accounted(PoolSize(c), st.free + [st.cur] + Flatten(st.layers))
    && |st.free| >= 1
    && |st.pool[st.cur]| < c.bufferSize
    && LayersFull(c, st)
    && Stacked(st)
  }

  /** The state right after the current buffer has been filed: every buffer is
      free or filed. */
  ghost predicate Filed(c: Config, st: Sketch) {
    && WellFormed(c, st)
    && Accounted(PoolSize(c), st.free + Flatten(st.layers))
    && LayersFull(c, st)
    && Stacked(st)
  }

  /* ----- construction (random.h:20-49) ----- */

  /** The constructor: all L + 2 buffers start empty and free, no layer holds
      a buffer, every value is sampled, and prepare_cur_buffer takes the last
      free buffer as current. */
  function Init(c: Config): (st: Sketch)
    requires ValidConfig(c)
    ensures WellFormed(c, st)
  {
    var st0 := Sketch(0, seq(PoolSize(c), _ => []), Range(PoolSize(c)), 0,
                      seq(c.layerCount, _ => []), [], InitialSampler, InitialCoin, 0);
    InitialSamplerInv();
    PrepareCurBuffer(c, st0).1
  }

  /* ----- buffer pool (random.h:242-262) ----- */

  /** allocate_cur_buffer: pop the free stack into the current buffer and
      clear it. */
  function AllocateCurBuffer(c: Config, st: Sketch): (r: Sketch)
    requires WellFormed(c, st) && |st.free| > 0
    ensures WellFormed(c, r)
    ensures r.free + [r.cur] == st.free && r.pool[r.cur] == []
    ensures forall h :: 0 <= h < |st.pool| && h != r.cur ==> r.pool[h] == st.pool[h]
    ensures r.layers == st.layers && r.stack == st.stack && |r.pool| == |st.pool|
    ensures r.lastN == st.lastN && r.sampler == st.sampler && r.coin == st.coin && r.drawn == st.drawn
  {
    var h := Top(st.free);
    st.(cur := h, free := st.free[..|st.free| - 1], pool := st.pool[h := []])
  }

  /** The sketch with the top of the layer stack popped. */
  function Popped(st: Sketch): Sketch
    requires |st.stack| > 0
  {
    st.(stack := st.stack[..|st.stack| - 1])
  }

  /** free_buffer: push a handle on the free stack. */
  function FreeBuffer(c: Config, st: Sketch, h: nat): (r: Sketch)
    requires WellFormed(c, st) && h < |st.pool|
    ensures WellFormed(c, r)
    ensures r.free == st.free + [h] && r == st.(free := r.free)
  {
    st.(free := st.free + [h])
  }

  /** free_buffer of a handle that is no longer free, current or filed puts it
      back: every handle is accounted exactly once again. */
  lemma FreeBufferReturns(c: Config, st: Sketch, h: nat)
    requires WellFormed(c, st) && h < |st.pool|
    requires Accounted(PoolSize(c), st.free + [st.cur] + Flatten(st.layers) + [h])
    ensures var r := FreeBuffer(c, st, h);
            Accounted(PoolSize(c), r.free + [r.cur] + Flatten(r.layers))
  {
  }

  /** The free list is a stack: the buffer freed last is the next one
      allocate_cur_buffer takes, and the free list is as before. */
  lemma FreeThenAllocate(c: Config, st: Sketch, h: nat)
    requires WellFormed(c, st) && h < |st.pool|
    ensures var r := AllocateCurBuffer(c, FreeBuffer(c, st, h));
            r.cur == h && r.free == st.free && r.pool[h] == []
  {
  }

  /** prepare_cur_buffer: allocate only while at least two buffers are free,
      so that the last one stays for collapse. */
  function PrepareCurBuffer(c: Config, st: Sketch): (r: (bool, Sketch))
    requires WellFormed(c, st)
    ensures WellFormed(c, r.1)
    ensures r.0 <==> |st.free| >= 2
    ensures r.0 ==> r.1 == AllocateCurBuffer(c, st) && |r.1.free| >= 1
    ensures !r.0 ==> r.1 == st
  {
    if |st.free| < 2 then (false, st) else (true, AllocateCurBuffer(c, st))
  }

  /** prepare_cur_buffer_for_collapse: exactly one buffer must be free. */
  function PrepareForCollapse(c: Config, st: Sketch): (r: Result<Sketch>)
    requires WellFormed(c, st)
    ensures r.Err? <==> |st.free| != 1
    ensures r.Err? ==> r.fault == FreeCountNotOne
    ensures r.Ok? ==> r.value == AllocateCurBuffer(c, st) && r.value.free == []
  {
    if |st.free| != 1 then Err(FreeCountNotOne) else Ok(AllocateCurBuffer(c, st))
  }

  /* ----- layers (random.h:270-284) ----- */

  /** insert_cur_buffer_to_layers: append the current buffer to layer i and put
      the layer on the stack when it has just reached two buffers. */
  function InsertCurBufferToLayers(c: Config, st: Sketch, i: nat): (r: Result<Sketch>)
    requires WellFormed(c, st)
    ensures r.Err? <==> i >= |st.layers|
    ensures r.Err? ==> r.fault == PastTopLayer
    ensures r.Ok? ==> WellFormed(c, r.value)
    ensures r.Ok? ==> r.value.layers == st.layers[i := st.layers[i] + [st.cur]]
    ensures r.Ok? ==> r.value.stack == st.stack + (if |st.layers[i]| == 1 then [i] else [])
    ensures r.Ok? ==> r.value == st.(layers := r.value.layers, stack := r.value.stack)
  {
    if i >= |st.layers| then Err(PastTopLayer)
    else
      var layer := st.layers[i] + [st.cur];
      var r := st.(layers := st.layers[i := layer],
                   stack := if |layer| == 2 then st.stack + [i] else st.stack);
      assert forall j, k :: 0 <= j < |r.layers| && 0 <= k < |r.layers[j]| ==> r.layers[j][k] < |r.pool| by {
        forall j, k | 0 <= j < |r.layers| && 0 <= k < |r.layers[j]|
          ensures r.layers[j][k] < |r.pool|
        {
          if j == i && k == |st.layers[i]| {
            assert r.layers[j][k] == st.cur;
          } else {
            assert r.layers[j][k] == st.layers[j][k];
          }
        }
      }
      Ok(r)
  }

  /** Where a stacked layer index points once the bottom layer has moved to
      the top of `n` layers: each layer moves down one place. */
  function Down(x: nat, n: nat): nat
    requires x < n
  {
    if x == 0 then n - 1 else x - 1
  }

  /** The bottom layer moves to the top; stacked indices follow their layers,
      and the sampling rate halves. */
  function Rotate(c: Config, st: Sketch): (r: Sketch)
    requires WellFormed(c, st)
    ensures WellFormed(c, r)
    ensures r.layers == st.layers[1..] + [st.layers[0]]
    ensures r.sampler == HalveRate(st.sampler)
    ensures |r.stack| == |st.stack| && forall a :: 0 <= a < |st.stack| ==> r.stack[a] == Down(st.stack[a], |st.layers|)
    ensures r.pool == st.pool && r.free == st.free && r.cur == st.cur
  {
    var n := |st.layers|;
    var r := st.(layers := st.layers[1..] + [st.layers[0]],
                 stack := seq(|st.stack|, a requires 0 <= a < |st.stack| && st.stack[a] < n => Down(st.stack[a], n)),
                 sampler := HalveRate(st.sampler));
    RotateWellFormed(c, st, r);
    r
  }

  lemma RotateWellFormed(c: Config, st: Sketch, r: Sketch)
    requires WellFormed(c, st)
    requires r.layers == st.layers[1..] + [st.layers[0]]
    requires |r.stack| == |st.stack| && forall a :: 0 <= a < |st.stack| ==> r.stack[a] == Down(st.stack[a], |st.layers|)
    requires SamplerInv(r.sampler)
    requires r.pool == st.pool && r.free == st.free && r.cur == st.cur && r.coin == st.coin
    ensures WellFormed(c, r)
  {
    var n := |st.layers|;
    forall j, k | 0 <= j < |r.layers| && 0 <= k < |r.layers[j]|
      ensures r.layers[j][k] < |r.pool|
    {
      if j < n - 1 {
        assert r.layers[j] == st.layers[j + 1];
      } else {
        assert r.layers[j] == st.layers[0];
      }
    }
  }

  /* ----- collapse (random.h:69-151) ----- */

  /** The two oldest buffers of layer k, merged by value and thinned to every
      other element with the parity of one coin toss, are appended to the
      current buffer; the two buffers are freed, first the oldest. */
  function MergePair(c: Config, st: Sketch, k: nat, gen: nat -> nat): (r: Sketch)
    requires WellFormed(c, st) && k < |st.layers| && |st.layers[k]| >= 2
    ensures WellFormed(c, r)
  {
    var b1 := st.layers[k][0];
    var b2 := st.layers[k][1];
    var t := TossCoin(st.coin, gen, st.drawn);
    var merged := EveryOther(Merge(st.pool[b1], st.pool[b2], Id), t.heads);
    var s := st.(pool := st.pool[st.cur := st.pool[st.cur] + merged],
                 layers := st.layers[k := st.layers[k][2..]],
                 coin := t.coin, drawn := t.drawn);
    assert forall j, i :: 0 <= j < |s.layers| && 0 <= i < |s.layers[j]| ==> s.layers[j][i] < |s.pool| by {
      forall j, i | 0 <= j < |s.layers| && 0 <= i < |s.layers[j]|
        ensures s.layers[j][i] < |s.pool|
      {
        if j == k {
          assert s.layers[j][i] == st.layers[k][i + 2];
        } else {
          assert s.layers[j] == st.layers[j];
        }
      }
    }
    FreeBuffer(c, FreeBuffer(c, s, b1), b2)
  }

  /** The merge loop of collapse: walk both sorted buffers in value order,
      taking from `b` on ties, flip `use` at every element and keep the
      element when `use` is then set; `use` starts at the coin toss. It keeps
      exactly every other element of the merge, the first one unless the coin
      came up heads. */
  method MergeAlternate(a: seq<int>, b: seq<int>, toss: bool) returns (out: seq<int>)
    requires |a| > 0 && |b| > 0
    ensures out == EveryOther(Merge(a, b, Id), toss)
  {
    var i, j := 0, 0;
    var use := toss;
    out := [];
    ghost var merged := Merge(a, b, Id);
    ghost var scanned: seq<int> := [];
    ghost var rem := merged;
    assert a[0..] == a && b[0..] == b;
    while i < |a| && j < |b|
      invariant 0 <= i <= |a| && 0 <= j <= |b|
      invariant merged == scanned + rem && rem == Merge(a[i..], b[j..], Id)
      invariant out == EveryOther(scanned, toss) && use == ((|scanned| % 2 == 0) == toss)
      decreases |a| - i + |b| - j
    {
      MergeFront(a, b, i, j);
      var x;
      if a[i] < b[j] {
        x := a[i];
        i := i + 1;
      } else {
        x := b[j];
        j := j + 1;
      }
      Alternate(scanned, out, use, x, toss);
      use := !use;
      if use {
        out := out + [x];
      }
      Scan(merged, scanned, rem, x, Merge(a[i..], b[j..], Id));
      scanned, rem := scanned + [x], Merge(a[i..], b[j..], Id);
    }
    // Once one buffer is used up, the rest of the other follows in order.
    MergeRest(a, b, i, j);
    out := TakeRest(a[i..] + b[j..], out, use, scanned, toss);
  }

  /** The tail loops of the merge: the elements of `rest`, in order, go through
      the same alternation. */
  method TakeRest(rest: seq<int>, out0: seq<int>, use0: bool, ghost scanned0: seq<int>, toss: bool)
    returns (out: seq<int>)
    requires out0 == EveryOther(scanned0, toss) && use0 == ((|scanned0| % 2 == 0) == toss)
    ensures out == EveryOther(scanned0 + rest, toss)
  {
    out := out0;
    var use := use0;
    var k := 0;
    assert scanned0 + rest[..0] == scanned0;
    while k < |rest|
      invariant 0 <= k <= |rest|
      invariant out == EveryOther(scanned0 + rest[..k], toss)
      invariant use == ((|scanned0 + rest[..k]| % 2 == 0) == toss)
    {
      TakeStep(rest, out, use, scanned0, toss, k);
      use := !use;
      if use {
        out := out + [rest[k]];
      }
      k := k + 1;
    }
    assert rest[..k] == rest;
  }

  /** One step of the drain loop, in terms of the prefix of `rest` taken so far. */
  lemma {:induction false} TakeStep(rest: seq<int>, out: seq<int>, use: bool, scanned0: seq<int>, toss: bool, k: nat)
    requires k < |rest|
    requires out == EveryOther(scanned0 + rest[..k], toss)
    requires use == ((|scanned0 + rest[..k]| % 2 == 0) == toss)
    ensures (if !use then out + [rest[k]] else out) == EveryOther(scanned0 + rest[..k + 1], toss)
    ensures !use == ((|scanned0 + rest[..k + 1]| % 2 == 0) == toss)
  {
    assert scanned0 + rest[..k + 1] == (scanned0 + rest[..k]) + [rest[k]];
    Alternate(scanned0 + rest[..k], out, use, rest[k], toss);
  }

  lemma Scan(merged: seq<int>, scanned: seq<int>, rem: seq<int>, x: int, rem': seq<int>)
    requires merged == scanned + rem && rem == [x] + rem'
    ensures merged == (scanned + [x]) + rem'
  {
  }

  /** One step of the merge loop: flipping `use` and keeping the element when
      it is set extends the kept alternate elements by the scanned one. */
  lemma {:induction false} Alternate(scanned: seq<int>, out: seq<int>, use: bool, x: int, toss: bool)
    requires out == EveryOther(scanned, toss) && use == ((|scanned| % 2 == 0) == toss)
    ensures (if !use then out + [x] else out) == EveryOther(scanned + [x], toss)
    ensures !use == ((|scanned + [x]| % 2 == 0) == toss)
  {
    EveryOtherSnoc(scanned, x, toss);
  }

  /** The next element of the merge is the smaller head, `b`'s on ties. */
  lemma MergeFront(a: seq<int>, b: seq<int>, i: nat, j: nat)
    requires i < |a| && j < |b|
    ensures Merge(a[i..], b[j..], Id)
         == if a[i] < b[j] then [a[i]] + Merge(a[i + 1..], b[j..], Id)
            else [b[j]] + Merge(a[i..], b[j + 1..], Id)
  {
    assert a[i..][1..] == a[i + 1..];
    assert b[j..][1..] == b[j + 1..];
  }

  lemma MergeRest(a: seq<int>, b: seq<int>, i: nat, j: nat)
    requires i <= |a| && j <= |b| && (i == |a| || j == |b|)
    ensures Merge(a[i..], b[j..], Id) == a[i..] + b[j..]
  {
  }

  /** What follows filing the merged buffer: if the top layer was occupied the
      collapsed layer must be the bottom one and now empty, and the layers
      rotate; otherwise the collapsed layer goes back on the stack while it
      still holds two buffers. */
  function Settle(c: Config, st: Sketch, k: nat, topEmpty: bool): (r: Result<Sketch>)
    requires WellFormed(c, st) && k < |st.layers|
    ensures r.Ok? ==> WellFormed(c, r.value)
    ensures r.Err? ==> !topEmpty && r.fault in {NotBottomLayer, BottomNotEmpty}
  {
    if topEmpty then Ok(if |st.layers[k]| > 1 then st.(stack := st.stack + [k]) else st)
    else if k != 0 then Err(NotBottomLayer)
    else if |st.layers[0]| != 0 then Err(BottomNotEmpty)
    else Ok(Rotate(c, st))
  }

  /** collapse: called when one buffer is left free. */
  function Collapse(c: Config, st: Sketch, gen: nat -> nat): (r: Result<Sketch>)
    requires WellFormed(c, st)
    ensures r.Ok? ==> WellFormed(c, r.value) && r.value.lastN == st.lastN
  {
    match PrepareForCollapse(c, st)
    case Err(f) => Err(f)
    case Ok(s1) => CollapseTop(c, s1, gen)
  }

  /** Pop the layer on top of the stack, which must hold two buffers, and
      promote its two oldest. */
  function CollapseTop(c: Config, s1: Sketch, gen: nat -> nat): (r: Result<Sketch>)
    requires WellFormed(c, s1)
    ensures r.Ok? ==> WellFormed(c, r.value) && r.value.lastN == s1.lastN
  {
    var topEmpty := |s1.layers[|s1.layers| - 1]| == 0;
    if |s1.stack| == 0 then Err(NoCollapsibleLayer)
    else
      var k := Top(s1.stack);
      var s2 := Popped(s1);
      if |s2.layers[k]| <= 1 then Err(LayerTooSmall)
      else Promote(c, s2, k, gen, topEmpty)
  }

  /** Merge the two oldest buffers of layer k into the current buffer, file it
      one layer up, settle the stack or rotate, and take a fresh buffer. */
  function Promote(c: Config, s2: Sketch, k: nat, gen: nat -> nat, topEmpty: bool): (r: Result<Sketch>)
    requires WellFormed(c, s2) && k < |s2.layers| && |s2.layers[k]| >= 2
    ensures r.Ok? ==> WellFormed(c, r.value) && r.value.lastN == s2.lastN
  {
    match InsertCurBufferToLayers(c, MergePair(c, s2, k, gen), k + 1)
    case Err(f) => Err(f)
    case Ok(s3) => Resume(c, s3, k, topEmpty)
  }

  /** The end of collapse, once the merged buffer is filed: settle the stack
      or rotate, and take a fresh current buffer. */
  function Resume(c: Config, s3: Sketch, k: nat, topEmpty: bool): (r: Result<Sketch>)
    requires WellFormed(c, s3) && k < |s3.layers|
    ensures r.Ok? ==> WellFormed(c, r.value) && r.value.lastN == s3.lastN
  {
    match Settle(c, s3, k, topEmpty)
    case Err(f) => Err(f)
    case Ok(s4) =>
      var p := PrepareCurBuffer(c, s4);
      if p.0 then Ok(p.1) else Err(NoFreeBuffer)
  }

  /* ----- feed (random.h:51-67) ----- */

  /** feed: count the value, keep it if sampled, and file the current buffer
      into the bottom layer once it is full, collapsing when no spare buffer
      is left. */
  function Feed(c: Config, st: Sketch, v: int, gen: nat -> nat): (r: Result<Sketch>)
    requires WellFormed(c, st)
    ensures r.Ok? ==> WellFormed(c, r.value) && r.value.lastN == st.lastN + 1
  {
    match NextIsSampled(st.sampler, gen, st.drawn)
    case Err(f) => Err(f)
    case Ok(d) =>
      var s1 := Counted(st, d);
      if !d.sampled then Ok(s1) else Store(c, s1, v, gen)
  }

  /** The sketch once an item has been counted and the sampler has drawn. */
  function Counted(st: Sketch, d: Draw): Sketch {
    st.(lastN := st.lastN + 1, sampler := d.sampler, drawn := d.drawn)
  }

  /** Feed the values of `vs` in order, stopping at the first fault. */
  function FeedAll(c: Config, st: Sketch, vs: seq<int>, gen: nat -> nat): (r: Result<Sketch>)
    requires WellFormed(c, st)
    ensures r.Ok? ==> WellFormed(c, r.value) && r.value.lastN == st.lastN + |vs|
    decreases |vs|
  {
    if |vs| == 0 then Ok(st)
    else
      match Feed(c, st, vs[0], gen)
      case Err(f) => Err(f)
      case Ok(s) => FeedAll(c, s, vs[1..], gen)
  }

  /** Append a sampled value to the current buffer; a buffer that is now full
      is sorted and filed. */
  function Store(c: Config, st: Sketch, v: int, gen: nat -> nat): (r: Result<Sketch>)
    requires WellFormed(c, st)
    ensures r.Ok? ==> WellFormed(c, r.value) && r.value.lastN == st.lastN
  {
    var buf := st.pool[st.cur] + [v];
    if |buf| != c.bufferSize then Ok(st.(pool := st.pool[st.cur := buf]))
    else FileFull(c, st.(pool := st.pool[st.cur := Sort(buf)]), gen)
  }

  /** A full, sorted current buffer goes to the bottom layer; a fresh buffer is
      taken if two are free, otherwise the sketch collapses. */
  function FileFull(c: Config, st: Sketch, gen: nat -> nat): (r: Result<Sketch>)
    requires WellFormed(c, st)
    ensures r.Ok? ==> WellFormed(c, r.value) && r.value.lastN == st.lastN
  {
    match InsertCurBufferToLayers(c, st, 0)
    case Err(f) => Err(f)
    case Ok(s2) =>
      var p := PrepareCurBuffer(c, s2);
      if p.0 then Ok(p.1) else Collapse(c, p.1, gen)
  }

  /* ----- pool conservation ----- */

  lemma KeysById(s: seq<int>)
    ensures KeysOf(s, Id) == s
  {
  }

  /** Each step below moves handles between the free list, the current buffer
      and the layers without losing or duplicating one. */
  lemma {:induction false} Pigeonhole(c: Config, st: Sketch)
    requires Filed(c, st) && |st.free| == 1
    ensures |st.stack| > 0 && |st.layers[Top(st.stack)]| >= 2
  {
    var f := Flatten(st.layers);
    assert |multiset(st.free + f)| == |multiset(Range(PoolSize(c)))|;
    assert |f| == c.layerCount + 1;
    if forall i :: 0 <= i < |st.layers| ==> |st.layers[i]| <= 1 {
      FlattenSmall(st.layers);
      assert false;
    }
    var i :| 0 <= i < |st.layers| && |st.layers[i]| >= 2;
    assert i in st.stack;
    assert Top(st.stack) in st.stack;
  }

  /** The handle taken from the free list is in no layer, so clearing it
      leaves the layers' buffers alone. */
  lemma AllocateLayers(c: Config, st: Sketch)
    requires WellFormed(c, st) && |st.free| > 0
    requires Accounted(PoolSize(c), st.free + Flatten(st.layers)) && LayersFull(c, st)
    ensures var r := AllocateCurBuffer(c, st);
            && Accounted(PoolSize(c), r.free + [r.cur] + Flatten(r.layers))
            && LayersFull(c, r)
  {
    var r := AllocateCurBuffer(c, st);
    assert r.free + [r.cur] + Flatten(r.layers) == st.free + Flatten(st.layers);
    assert r.cur in multiset(st.free);
    AccountedOnce(PoolSize(c), st.free, Flatten(st.layers), r.cur);
    forall i, k | 0 <= i < |r.layers| && 0 <= k < |r.layers[i]|
      ensures FullBuffer(c, r.pool[r.layers[i][k]])
    {
      FlattenMember(st.layers, i, k);
    }
  }

  /** prepare_cur_buffer succeeding on a filed state restores the invariant. */
  lemma AllocateKeeps(c: Config, st: Sketch)
    requires Filed(c, st) && |st.free| >= 2
    ensures Inv(c, AllocateCurBuffer(c, st))
    ensures |AllocateCurBuffer(c, st).free| == |st.free| - 1
  {
    AllocateLayers(c, st);
  }

  /** Filing the full current buffer into layer i: the handle moves into the
      layer, and the stack stays exact. */
  lemma FileCurrent(c: Config, st: Sketch, i: nat, skip: int)
    requires WellFormed(c, st) && i < |st.layers| && i != skip
    requires Accounted(PoolSize(c), st.free + [st.cur] + Flatten(st.layers))
    requires LayersFull(c, st) && FullBuffer(c, st.pool[st.cur]) && StackBut(st, skip)
    ensures var r := InsertCurBufferToLayers(c, st, i).value;
            && Accounted(PoolSize(c), r.free + Flatten(r.layers))
            && LayersFull(c, r)
            && StackBut(r, skip)
  {
    var r := InsertCurBufferToLayers(c, st, i).value;
    FileHandles(st.free, st.cur, st.layers, i, r.layers);
    forall j, k | 0 <= j < |r.layers| && 0 <= k < |r.layers[j]|
      ensures FullBuffer(c, r.pool[r.layers[j][k]])
    {
      if j == i && k == |st.layers[i]| {
        assert r.layers[j][k] == st.cur;
      } else {
        assert r.layers[j][k] == st.layers[j][k];
      }
    }
    FileStack(st, r, i, skip);
  }

  lemma {:induction false} FileHandles(free: seq<nat>, cur: nat, layers: seq<seq<nat>>, i: nat, layers': seq<seq<nat>>)
    requires i < |layers| && layers' == layers[i := layers[i] + [cur]]
    ensures multiset(free + Flatten(layers')) == multiset(free + [cur] + Flatten(layers))
  {
    FlattenAppend(layers, i, cur);
  }

  lemma FileStack(st: Sketch, r: Sketch, i: nat, skip: int)
    requires i < |st.layers| && i != skip && StackBut(st, skip)
    requires r.layers == st.layers[i := st.layers[i] + [st.cur]]
    requires r.stack == st.stack + (if |st.layers[i]| == 1 then [i] else [])
    ensures StackBut(r, skip)
  {
    if |st.layers[i]| == 1 {
      assert i !in st.stack;
    }
    forall j | 0 <= j < |r.layers| && j != skip
      ensures j in r.stack <==> |r.layers[j]| >= 2
    {
      if j != i {
        assert r.layers[j] == st.layers[j];
      }
    }
  }

  /** Popping the top of an exact stack leaves every other layer exact. */
  lemma PopStack(st: Sketch, s: Sketch)
    requires Stacked(st) && |st.stack| > 0
    requires s == Popped(st)
    ensures StackBut(s, Top(st.stack))
  {
    var n := |st.stack|;
    forall a | 0 <= a < |s.stack|
      ensures s.stack[a] != Top(st.stack)
    {
      assert st.stack[a] != st.stack[n - 1];
    }
    forall i | 0 <= i < |s.layers| && i != Top(st.stack)
      ensures i in s.stack <==> |s.layers[i]| >= 2
    {
      if i in st.stack {
        var a :| 0 <= a < n && st.stack[a] == i;
        assert a < n - 1 && s.stack[a] == i;
      }
    }
  }

  /** Opening a collapse: the single free buffer becomes current, and the
      layer on top of the stack holds at least two buffers. */
  lemma OpenKeeps(c: Config, st: Sketch)
    requires Filed(c, st) && |st.free| == 1
    ensures var s1 := AllocateCurBuffer(c, st);
            && |s1.stack| > 0 && |s1.layers[Top(s1.stack)]| >= 2
            && s1.free == []
            && Accounted(PoolSize(c), s1.free + [s1.cur] + Flatten(s1.layers))
            && LayersFull(c, s1)
            && StackBut(Popped(s1), Top(s1.stack))
  {
    Pigeonhole(c, st);
    AllocateLayers(c, st);
    var s1 := AllocateCurBuffer(c, st);
    PopStack(s1, Popped(s1));
  }

  /** What merging two buffers of layer k changes: the layer loses its two
      oldest buffers, which go on the free stack, the current buffer receives
      their thinned merge, and nothing else moves. */
  lemma MergePairShape(c: Config, s: Sketch, k: nat, gen: nat -> nat)
    requires WellFormed(c, s) && k < |s.layers| && |s.layers[k]| >= 2
    ensures var r := MergePair(c, s, k, gen);
            var b1 := s.layers[k][0];
            var b2 := s.layers[k][1];
            && r.layers == s.layers[k := s.layers[k][2..]]
            && r.free == s.free + [b1, b2]
            && r.cur == s.cur && r.stack == s.stack && r.sampler == s.sampler && r.lastN == s.lastN
            && r.pool[r.cur] == s.pool[s.cur] + EveryOther(Merge(s.pool[b1], s.pool[b2], Id), TossCoin(s.coin, gen, s.drawn).heads)
            && (forall h :: 0 <= h < |s.pool| && h != s.cur ==> r.pool[h] == s.pool[h])
  {
  }

  /** The merged buffer is full and sorted, the two merged handles are free
      and nothing else moves. */
  lemma MergePairKeeps(c: Config, s: Sketch, k: nat, gen: nat -> nat)
    requires WellFormed(c, s) && k < |s.layers| && |s.layers[k]| >= 2
    requires s.free == [] && s.pool[s.cur] == []
    requires Accounted(PoolSize(c), s.free + [s.cur] + Flatten(s.layers))
    requires LayersFull(c, s) && StackBut(s, k)
    ensures var r := MergePair(c, s, k, gen);
            && Accounted(PoolSize(c), r.free + [r.cur] + Flatten(r.layers))
            && r.free == [s.layers[k][0], s.layers[k][1]]
            && r.cur == s.cur
            && FullBuffer(c, r.pool[r.cur])
            && LayersFull(c, r)
            && StackBut(r, k)
  {
    var r := MergePair(c, s, k, gen);
    MergePairShape(c, s, k, gen);
    MergePairAccounted(c, s, k, gen);
    MergePairFull(c, s, k, gen);
    MergePairLayers(c, s, k, r);
    MergePairStack(s, k, r);
  }

  /** The two merged handles join the current buffer's among the accounted
      ones in place of their old layer slots. */
  lemma MergePairAccounted(c: Config, s: Sketch, k: nat, gen: nat -> nat)
    requires WellFormed(c, s) && k < |s.layers| && |s.layers[k]| >= 2 && s.free == []
    requires Accounted(PoolSize(c), s.free + [s.cur] + Flatten(s.layers))
    ensures var r := MergePair(c, s, k, gen);
            && Accounted(PoolSize(c), r.free + [r.cur] + Flatten(r.layers))
            && r.free == [s.layers[k][0], s.layers[k][1]]
            && r.cur == s.cur
  {
    var r := MergePair(c, s, k, gen);
    MergePairShape(c, s, k, gen);
    assert r.free == [s.layers[k][0], s.layers[k][1]];
    MergePairHandles(c, s, k, r);
  }

  /** Two full buffers of the layer merge into a full sorted current buffer. */
  lemma MergePairFull(c: Config, s: Sketch, k: nat, gen: nat -> nat)
    requires WellFormed(c, s) && k < |s.layers| && |s.layers[k]| >= 2
    requires s.pool[s.cur] == [] && LayersFull(c, s)
    ensures FullBuffer(c, MergePair(c, s, k, gen).pool[s.cur])
  {
    var b1, b2 := s.layers[k][0], s.layers[k][1];
    MergePairShape(c, s, k, gen);
    assert FullBuffer(c, s.pool[b1]) && FullBuffer(c, s.pool[b2]);
    MergedFull(c, s.pool[b1], s.pool[b2], TossCoin(s.coin, gen, s.drawn).heads);
  }

  lemma MergePairLayers(c: Config, s: Sketch, k: nat, r: Sketch)
    requires WellFormed(c, s) && WellFormed(c, r) && k < |s.layers| && |s.layers[k]| >= 2
    requires Accounted(PoolSize(c), s.free + [s.cur] + Flatten(s.layers)) && s.free == []
    requires LayersFull(c, s)
    requires r.layers == s.layers[k := s.layers[k][2..]]
    requires forall h :: 0 <= h < |s.pool| && h != s.cur ==> r.pool[h] == s.pool[h]
    ensures LayersFull(c, r)
  {
    assert s.cur in multiset([s.cur]);
    AccountedOnce(PoolSize(c), [s.cur], Flatten(s.layers), s.cur);
    forall j, i | 0 <= j < |r.layers| && 0 <= i < |r.layers[j]|
      ensures FullBuffer(c, r.pool[r.layers[j][i]])
    {
      if j == k {
        assert r.layers[j][i] == s.layers[k][i + 2];
        FlattenMember(s.layers, k, i + 2);
      } else {
        assert r.layers[j][i] == s.layers[j][i];
        FlattenMember(s.layers, j, i);
      }
    }
  }

  lemma MergePairStack(s: Sketch, k: nat, r: Sketch)
    requires k < |s.layers| && |s.layers[k]| >= 2 && StackBut(s, k)
    requires r.layers == s.layers[k := s.layers[k][2..]] && r.stack == s.stack
    ensures StackBut(r, k)
  {
    forall i | 0 <= i < |r.layers| && i != k
      ensures i in r.stack <==> |r.layers[i]| >= 2
    {
      assert r.layers[i] == s.layers[i];
    }
  }

  lemma MergePairHandles(c: Config, s: Sketch, k: nat, r: Sketch)
    requires k < |s.layers| && |s.layers[k]| >= 2 && s.free == []
    requires r.layers == s.layers[k := s.layers[k][2..]]
    requires r.free == [s.layers[k][0], s.layers[k][1]] && r.cur == s.cur
    ensures multiset(r.free + [r.cur] + Flatten(r.layers)) == multiset(s.free + [s.cur] + Flatten(s.layers))
  {
    FlattenDropTwo(s.layers, k);
  }

  /** Two full sorted buffers merge and thin to one full sorted buffer. */
  lemma {:induction false} MergedFull(c: Config, a: seq<int>, b: seq<int>, skipFirst: bool)
    requires FullBuffer(c, a) && FullBuffer(c, b)
    ensures FullBuffer(c, EveryOther(Merge(a, b, Id), skipFirst))
  {
    KeysById(a);
    KeysById(b);
    var m := Merge(a, b, Id);
    EveryOtherSorted(m, skipFirst, Id);
    KeysById(EveryOther(m, skipFirst));
  }

  /** After filing the merged buffer the state is filed again: the stack is
      made exact for the collapsed layer, or the layers rotate. */
  lemma SettleKeeps(c: Config, s: Sketch, k: nat, topEmpty: bool)
    requires WellFormed(c, s) && k < |s.layers|
    requires Accounted(PoolSize(c), s.free + Flatten(s.layers))
    requires LayersFull(c, s) && StackBut(s, k)
    ensures var r := Settle(c, s, k, topEmpty);
            r.Ok? ==> Filed(c, r.value) && r.value.free == s.free
  {
    var r := Settle(c, s, k, topEmpty);
    if topEmpty {
      if |s.layers[k]| > 1 {
        assert k !in s.stack;
        var t := s.(stack := s.stack + [k]);
        forall i | 0 <= i < |t.layers|
          ensures i in t.stack <==> |t.layers[i]| >= 2
        {
          if i != k {
            assert i in t.stack <==> i in s.stack;
          }
        }
        assert r.value == t;
      } else {
        forall i | 0 <= i < |s.layers|
          ensures i in s.stack <==> |s.layers[i]| >= 2
        {
        }
        assert r.value == s;
      }
    } else if r.Ok? {
      RotateKeeps(c, s);
    }
  }

  /** Rotating when the bottom layer is empty keeps every buffer and an exact
      stack. */
  lemma RotateKeeps(c: Config, s: Sketch)
    requires WellFormed(c, s)
    requires Accounted(PoolSize(c), s.free + Flatten(s.layers))
    requires LayersFull(c, s) && StackBut(s, 0) && |s.layers[0]| == 0
    ensures Filed(c, Rotate(c, s)) && Rotate(c, s).free == s.free
  {
    var r := Rotate(c, s);
    var n := |s.layers|;
    FlattenRotate(s.layers);
    forall j, i | 0 <= j < |r.layers| && 0 <= i < |r.layers[j]|
      ensures FullBuffer(c, r.pool[r.layers[j][i]])
    {
      assert j < n - 1;
      assert r.layers[j] == s.layers[j + 1];
    }
    RotateStack(s, r);
  }

  lemma RotateStack(s: Sketch, r: Sketch)
    requires |s.layers| > 0 && StackBut(s, 0) && |s.layers[0]| == 0
    requires forall a :: 0 <= a < |s.stack| ==> s.stack[a] < |s.layers|
    requires r.layers == s.layers[1..] + [s.layers[0]]
    requires |r.stack| == |s.stack|
    requires forall a :: 0 <= a < |s.stack| ==> r.stack[a] == Down(s.stack[a], |s.layers|)
    ensures Stacked(r)
  {
    var n := |s.layers|;
    forall a | 0 <= a < |s.stack|
      ensures r.stack[a] == s.stack[a] - 1 && r.stack[a] < n - 1
    {
      assert s.stack[a] != 0;
    }
    forall j | 0 <= j < n
      ensures j in r.stack <==> |r.layers[j]| >= 2
    {
      if j < n - 1 {
        assert r.layers[j] == s.layers[j + 1];
        if j in r.stack {
          var a :| 0 <= a < |r.stack| && r.stack[a] == j;
          assert s.stack[a] == j + 1;
        }
        if j + 1 in s.stack {
          var a :| 0 <= a < |s.stack| && s.stack[a] == j + 1;
          assert r.stack[a] == j;
        }
      } else {
        assert r.layers[j] == s.layers[0];
      }
    }
  }

  /** Replacing the current buffer's contents leaves the filed buffers alone. */
  lemma SetCurrent(c: Config, st: Sketch, b: seq<int>)
    requires WellFormed(c, st) && LayersFull(c, st)
    requires Accounted(PoolSize(c), st.free + [st.cur] + Flatten(st.layers))
    ensures WellFormed(c, st.(pool := st.pool[st.cur := b]))
    ensures LayersFull(c, st.(pool := st.pool[st.cur := b]))
  {
    var r := st.(pool := st.pool[st.cur := b]);
    assert st.cur in multiset(st.free + [st.cur]);
    AccountedOnce(PoolSize(c), st.free + [st.cur], Flatten(st.layers), st.cur);
    forall i, k | 0 <= i < |r.layers| && 0 <= k < |r.layers[i]|
      ensures FullBuffer(c, r.pool[r.layers[i][k]])
    {
      FlattenMember(st.layers, i, k);
    }
  }

  /** Promoting from a layer below the top restores the invariant and leaves
      one buffer free; only the asserts on the rotation can fail. */
  lemma PromoteKeeps(c: Config, s2: Sketch, k: nat, gen: nat -> nat, topEmpty: bool)
    requires WellFormed(c, s2) && k < |s2.layers| && |s2.layers[k]| >= 2
    requires s2.free == [] && s2.pool[s2.cur] == []
    requires Accounted(PoolSize(c), s2.free + [s2.cur] + Flatten(s2.layers))
    requires LayersFull(c, s2) && StackBut(s2, k)
    ensures var r := Promote(c, s2, k, gen, topEmpty);
            && (r.Ok? ==> Inv(c, r.value) && |r.value.free| == 1)
            && (r.Err? ==> r.fault in {PastTopLayer, NotBottomLayer, BottomNotEmpty})
  {
    MergePairKeeps(c, s2, k, gen);
    var s3 := MergePair(c, s2, k, gen);
    if k + 1 < |s2.layers| {
      FileCurrent(c, s3, k + 1, k);
      var s4 := InsertCurBufferToLayers(c, s3, k + 1).value;
      SettleKeeps(c, s4, k, topEmpty);
      var t := Settle(c, s4, k, topEmpty);
      if t.Ok? {
        AllocateKeeps(c, t.value);
      }
    }
  }

  /** A collapse started with one free buffer passes its asserts on the pool
      and the stack, leaves one buffer free and restores the invariant; only
      the asserts on the layer above and on the rotation can fail. */
  lemma CollapseKeeps(c: Config, st: Sketch, gen: nat -> nat)
    requires Filed(c, st) && |st.free| == 1
    ensures var r := Collapse(c, st, gen);
            && (r.Ok? ==> Inv(c, r.value) && |r.value.free| == 1)
            && (r.Err? ==> r.fault in {PastTopLayer, NotBottomLayer, BottomNotEmpty})
  {
    OpenKeeps(c, st);
    var s1 := AllocateCurBuffer(c, st);
    var k := Top(s1.stack);
    var s2 := Popped(s1);
    assert LayersFull(c, s2);
    PromoteKeeps(c, s2, k, gen, |st.layers[|st.layers| - 1]| == 0);
    CollapseUnfold(c, st, gen);
  }

  /** With one buffer free and a layer of two buffers on top of the stack,
      collapse promotes from that layer. */
  lemma CollapseUnfold(c: Config, st: Sketch, gen: nat -> nat)
    requires WellFormed(c, st) && |st.free| == 1 && |st.stack| > 0 && |st.layers[Top(st.stack)]| >= 2
    ensures var s2 := Popped(AllocateCurBuffer(c, st));
            Collapse(c, st, gen) == Promote(c, s2, Top(st.stack), gen, |st.layers[|st.layers| - 1]| == 0)
  {
    var s1 := AllocateCurBuffer(c, st);
    var e1 := |s1.layers[|s1.layers| - 1]| == 0;
    assert e1 == (|st.layers[|st.layers| - 1]| == 0);
    assert Top(s1.stack) == Top(st.stack);
    assert Collapse(c, st, gen) == Promote(c, Popped(s1), Top(s1.stack), gen, e1);
  }

  /** Filing a full sorted current buffer restores the invariant. */
  lemma FileFullKeeps(c: Config, st: Sketch, gen: nat -> nat)
    requires WellFormed(c, st) && LayersFull(c, st) && Stacked(st) && |st.free| >= 1
    requires Accounted(PoolSize(c), st.free + [st.cur] + Flatten(st.layers))
    requires FullBuffer(c, st.pool[st.cur])
    ensures var r := FileFull(c, st, gen);
            && (r.Ok? ==> Inv(c, r.value))
            && (r.Err? ==> r.fault in {PastTopLayer, NotBottomLayer, BottomNotEmpty})
  {
    FileCurrent(c, st, 0, -1);
    var s3 := InsertCurBufferToLayers(c, st, 0).value;
    assert InsertCurBufferToLayers(c, st, 0) == Ok(s3);
    if |s3.free| >= 2 {
      AllocateKeeps(c, s3);
      assert FileFull(c, st, gen) == Ok(AllocateCurBuffer(c, s3));
    } else {
      CollapseKeeps(c, s3, gen);
      assert FileFull(c, st, gen) == Collapse(c, s3, gen);
    }
  }

  /** Storing a sampled value keeps the invariant. */
  lemma StoreKeeps(c: Config, st: Sketch, v: int, gen: nat -> nat)
    requires Inv(c, st)
    ensures var r := Store(c, st, v, gen);
            && (r.Ok? ==> Inv(c, r.value))
            && (r.Err? ==> r.fault in {PastTopLayer, NotBottomLayer, BottomNotEmpty})
  {
    var buf := st.pool[st.cur] + [v];
    if |buf| != c.bufferSize {
      SetCurrent(c, st, buf);
    } else {
      SetCurrent(c, st, Sort(buf));
      FileFullKeeps(c, st.(pool := st.pool[st.cur := Sort(buf)]), gen);
    }
  }

  lemma FeedStores(c: Config, st: Sketch, v: int, gen: nat -> nat)
    requires WellFormed(c, st)
    requires NextIsSampled(st.sampler, gen, st.drawn).Ok?
    requires NextIsSampled(st.sampler, gen, st.drawn).value.sampled
    ensures var d := NextIsSampled(st.sampler, gen, st.drawn).value;
            Feed(c, st, v, gen) == Store(c, Counted(st, d), v, gen)
  {
    var d := NextIsSampled(st.sampler, gen, st.drawn).value;
    var s1 := Counted(st, d);
    assert SamplerInv(d.sampler);
    assert WellFormed(c, s1);
  }

  /** Every feed keeps the invariant: in particular the current buffer is
      never left full and one buffer always stays free. Only the sampler's
      width check and the asserts on the layer above and on the rotation can
      fail. */
  lemma FeedKeeps(c: Config, st: Sketch, v: int, gen: nat -> nat)
    requires Inv(c, st)
    ensures var r := Feed(c, st, v, gen);
            && (r.Ok? ==> Inv(c, r.value))
            && (r.Err? ==> r.fault in {WidthTooLarge, PastTopLayer, NotBottomLayer, BottomNotEmpty})
  {
    var n := NextIsSampled(st.sampler, gen, st.drawn);
    if n.Ok? {
      var d := n.value;
      var s1 := Counted(st, d);
      assert Inv(c, s1);
      if d.sampled {
        StoreKeeps(c, s1, v, gen);
        FeedStores(c, st, v, gen);
      } else {
        assert Feed(c, st, v, gen) == Ok(s1);
      }
    } else {
      assert Feed(c, st, v, gen) == Err(n.fault);
    }
  }

  /* ----- what a collapse does ----- */

  /** The layers after promoting from layer k: its two oldest buffers leave it
      and the buffer `h` holding their merge joins layer k + 1. */
  function Promoted(layers: seq<seq<nat>>, k: nat, h: nat): (ls: seq<seq<nat>>)
    requires k + 1 < |layers| && |layers[k]| >= 2
    ensures |ls| == |layers|
    ensures ls[k] == layers[k][2..] && ls[k + 1] == layers[k + 1] + [h]
    ensures forall i :: 0 <= i < |layers| && i != k && i != k + 1 ==> ls[i] == layers[i]
  {
    layers[k := layers[k][2..]][k + 1 := layers[k + 1] + [h]]
  }

  /** Promoting from a layer below the top, with the two merged buffers the
      only ones then free: the merged buffer (in the handle that was current)
      joins layer k + 1, which goes on the stack when it reaches two buffers;
      then either layer k goes back on the stack while it holds two buffers,
      or, when the top layer was occupied and layer k was the bottom one and
      is now empty, the layers rotate (the stack keeps its length; Rotate
      says where its entries go) and the sampling rate halves. The older merged buffer stays free and the younger
      becomes current. */
  lemma PromoteEffect(c: Config, s2: Sketch, k: nat, gen: nat -> nat, topEmpty: bool)
    requires WellFormed(c, s2) && k + 1 < |s2.layers| && |s2.layers[k]| >= 2 && s2.free == []
    ensures var r := Promote(c, s2, k, gen, topEmpty);
            var ls := Promoted(s2.layers, k, s2.cur);
            var stack := s2.stack + (if |s2.layers[k + 1]| == 1 then [k + 1] else []);
            && (topEmpty || (k == 0 && |s2.layers[0]| == 2) ==> r.Ok?)
            && (r.Ok? ==> r.value.free == [s2.layers[k][0]] && r.value.cur == s2.layers[k][1])
            && (topEmpty ==> r.Ok? && r.value.layers == ls && r.value.sampler == s2.sampler
                             && r.value.stack == stack + (if |ls[k]| >= 2 then [k] else []))
            && (!topEmpty && r.Ok? ==>
                  && r.value.layers == ls[1..] + [ls[0]]
                  && r.value.sampler == HalveRate(s2.sampler)
                  && |r.value.stack| == |stack|)
  {
    PromoteFile(c, s2, k, gen);
    var s4 := InsertCurBufferToLayers(c, MergePair(c, s2, k, gen), k + 1).value;
    assert Promote(c, s2, k, gen, topEmpty) == Resume(c, s4, k, topEmpty);
    ResumeEffect(c, s4, k, topEmpty);
  }

  /** Filing the merged buffer of layer k one layer up: the two merged
      handles are free, and the current buffer is now the last of layer
      k + 1, which goes on the stack when it reaches two buffers. */
  lemma PromoteFile(c: Config, s2: Sketch, k: nat, gen: nat -> nat)
    requires WellFormed(c, s2) && k + 1 < |s2.layers| && |s2.layers[k]| >= 2 && s2.free == []
    ensures var t := InsertCurBufferToLayers(c, MergePair(c, s2, k, gen), k + 1);
            && t.Ok?
            && t.value.layers == Promoted(s2.layers, k, s2.cur)
            && t.value.stack == s2.stack + (if |s2.layers[k + 1]| == 1 then [k + 1] else [])
            && t.value.free == [s2.layers[k][0], s2.layers[k][1]]
            && t.value.cur == s2.cur && t.value.sampler == s2.sampler
  {
    MergePairShape(c, s2, k, gen);
    var s3 := MergePair(c, s2, k, gen);
    assert s3.layers[k + 1] == s2.layers[k + 1];
    var s4 := InsertCurBufferToLayers(c, s3, k + 1).value;
    assert s4.layers == Promoted(s2.layers, k, s2.cur);
  }

  /** With two buffers free, the end of collapse succeeds when the top layer
      was empty, and then settles the stack; otherwise it rotates if it can.
      Either way it takes the newer free buffer and leaves the older one. */
  lemma ResumeEffect(c: Config, s4: Sketch, k: nat, topEmpty: bool)
    requires WellFormed(c, s4) && k < |s4.layers| && |s4.free| == 2
    ensures var r := Resume(c, s4, k, topEmpty);
            && (topEmpty || (k == 0 && |s4.layers[0]| == 0) ==> r.Ok?)
            && (r.Ok? ==> r.value.free == [s4.free[0]] && r.value.cur == s4.free[1])
            && (topEmpty ==> r.Ok? && r.value.layers == s4.layers && r.value.sampler == s4.sampler
                             && r.value.stack == s4.stack + (if |s4.layers[k]| >= 2 then [k] else []))
            && (!topEmpty && r.Ok? ==>
                  && r.value.layers == s4.layers[1..] + [s4.layers[0]]
                  && r.value.sampler == HalveRate(s4.sampler)
                  && |r.value.stack| == |s4.stack|
                  && (forall a :: 0 <= a < |s4.stack| ==> r.value.stack[a] == Down(s4.stack[a], |s4.layers|)))
  {
    var t := Settle(c, s4, k, topEmpty);
    if t.Ok? {
      assert t.value.free == s4.free;
    }
  }

  /** The constructor's prepare_cur_buffer finds enough free buffers, and the
      new sketch satisfies the invariant with L + 1 buffers free, nothing
      filed and nothing counted. */
  lemma InitKeeps(c: Config)
    requires ValidConfig(c)
    ensures var st := Init(c);
            && Inv(c, st)
            && |st.free| == c.layerCount + 1
            && st.lastN == 0 && st.stack == []
            && (forall i :: 0 <= i < |st.layers| ==> st.layers[i] == [])
            && st.pool[st.cur] == []
  {
    var st := Init(c);
    var n := PoolSize(c);
    assert st.free + [st.cur] == Range(n);
    FlattenEmpty(st.layers);
    assert st.free + [st.cur] + Flatten(st.layers) == Range(n);
  }

  /** Feeding a + b is feeding a, then b. */
  lemma {:induction false} FeedAllAppend(c: Config, st: Sketch, a: seq<int>, b: seq<int>, gen: nat -> nat)
    requires WellFormed(c, st)
    ensures FeedAll(c, st, a + b, gen)
         == match FeedAll(c, st, a, gen)
            case Err(f) => Err(f)
            case Ok(s) => FeedAll(c, s, b, gen)
    decreases |a|
  {
    if |a| == 0 {
      assert a + b == b;
    } else {
      assert (a + b)[0] == a[0] && (a + b)[1..] == a[1..] + b;
      match Feed(c, st, a[0], gen)
      case Err(f) =>
      case Ok(s) => FeedAllAppend(c, s, a[1..], b, gen);
    }
  }

  /** Any run of feeds keeps the invariant; it fails only on the sampler's
      width or on the asserts about the layer above and the rotation. */
  lemma {:induction false} FeedAllKeeps(c: Config, st: Sketch, vs: seq<int>, gen: nat -> nat)
    requires Inv(c, st)
    ensures var r := FeedAll(c, st, vs, gen);
            && (r.Ok? ==> Inv(c, r.value))
            && (r.Err? ==> r.fault in {WidthTooLarge, PastTopLayer, NotBottomLayer, BottomNotEmpty})
    decreases |vs|
  {
    if |vs| > 0 {
      FeedKeeps(c, st, vs[0], gen);
      match Feed(c, st, vs[0], gen)
      case Err(f) =>
      case Ok(s) => FeedAllKeeps(c, s, vs[1..], gen);
    }
  }
}
