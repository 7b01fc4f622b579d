/** The random bits of random.h: a generator of 32-bit words feeding the
    sampler (`next_is_sampled`) and the coin (`toss_coin`). The generator is a
    parameter `gen`, and `drawn` counts the words taken from it so far. */
module Bits {
  import opened Outcomes

  /** Width of the generator's result type. */
  const WordBits: nat := 32
  const WordMod: nat := 0x1_0000_0000

  function Pow2(n: nat): (p: nat)
    ensures p >= 1
  {
    if n == 0 then 1 else 2 * Pow2(n - 1)
  }

  lemma Pow2Word()
    ensures Pow2(WordBits) == WordMod
  {
    assert Pow2(1) == 2;
    assert Pow2(2) == 4;
    assert Pow2(3) == 8;
    assert Pow2(4) == 16;
    Pow2Split(4, 4);
    Pow2Split(8, 8);
    Pow2Split(16, 16);
  }

  lemma {:induction false} Pow2Monotone(a: nat, b: nat)
    requires a <= b
    ensures Pow2(a) <= Pow2(b)
    decreases b
  {
    if a < b {
      Pow2Monotone(a, b - 1);
    }
  }

  /** Words at or beyond the word size leave nothing of 2^n - 1 but the full mask. */
  lemma {:induction false} Pow2WordMultiple(n: nat)
    requires n >= WordBits
    ensures Pow2(n) % WordMod == 0
    decreases n
  {
    if n == WordBits {
      Pow2Word();
    } else {
      Pow2WordMultiple(n - 1);
      var k := Pow2(n - 1) / WordMod;
      assert Pow2(n - 1) == WordMod * k;
      assert Pow2(n) == WordMod * (2 * k);
      WordMultiple(2 * k);
    }
  }

  lemma WordMultiple(m: nat)
    ensures (WordMod * m) % WordMod == 0
  {
  }

  /** The k-th word of the generator, cut to the word size. */
  function Word(gen: nat -> nat, k: nat): (w: nat)
    ensures w < WordMod
  {
    gen(k) % WordMod
  }

  /** w shifted right by n places. */
  function Shr(w: nat, n: nat): (r: nat)
    ensures r <= w
  {
    if n == 0 then w else Shr(w / 2, n - 1)
  }

  /** Bit i of w, counting from the least significant: the lowest bit of w
      shifted right by i. */
  function Bit(w: nat, i: nat): bool {
    Shr(w, i) % 2 == 1
  }

  /** Shifting right by one moves every bit down one place. */
  lemma BitOfHalf(w: nat, i: nat)
    ensures Bit(w / 2, i) == Bit(w, i + 1)
  {
  }

  /* ----- next_is_sampled (random.h:316-337) ----- */

  /** The sampling state: `mask` = 2^width - 1 selects one item per block of
      mask + 1; `bits` holds `bitsLen` unused random bits. */
  datatype Sampler = Sampler(
    nextNewSample: int,
    nextSampled: int,
    mask: nat,
    width: nat,
    bits: nat,
    bitsLen: int)

  const InitialSampler: Sampler := Sampler(0, 0, 0, 0, 0, 0)

  /** The mask is 2^width - 1 as a 32-bit word, at most `bitsLen` <= 32 bits are
      buffered, and the countdown to the next block stays within the block. */
  ghost predicate SamplerInv(s: Sampler) {
    && s.mask == (Pow2(s.width) - 1) % WordMod
    && 0 <= s.bitsLen <= WordBits
    && s.bits < Pow2(s.bitsLen)
    && 0 <= s.nextNewSample <= s.mask
  }

  lemma InitialSamplerInv()
    ensures SamplerInv(InitialSampler)
  {
  }

  /** Below the word size the mask is exactly 2^width - 1. */
  lemma MaskIsPow2(s: Sampler)
    requires SamplerInv(s) && s.width <= WordBits
    ensures s.mask + 1 == Pow2(s.width)
  {
    MaskValue(s.width);
  }

  /** Halving the sampling rate in collapse (random.h:139-140): the 32-bit mask
      becomes 2 * mask + 1 and the width grows by one. */
  function HalveRate(s: Sampler): (r: Sampler)
    requires SamplerInv(s)
    ensures SamplerInv(r)
    ensures r.width == s.width + 1
    ensures r.width <= WordBits ==> r.mask + 1 == 2 * (s.mask + 1)
    ensures r.nextNewSample == s.nextNewSample && r.nextSampled == s.nextSampled
    ensures r.bits == s.bits && r.bitsLen == s.bitsLen
  {
    var r := s.(mask := (2 * s.mask + 1) % WordMod, width := s.width + 1);
    HalveRateFacts(s, r);
    r
  }

  lemma HalveRateFacts(s: Sampler, r: Sampler)
    requires SamplerInv(s)
    requires r == s.(mask := (2 * s.mask + 1) % WordMod, width := s.width + 1)
    ensures SamplerInv(r)
    ensures r.width <= WordBits ==> r.mask + 1 == 2 * (s.mask + 1)
  {
    HalveRateMask(s.width);
    if r.width <= WordBits {
      HalveRateBelowWord(s.width);
    } else {
      HalveRateAboveWord(s.width);
    }
  }

  lemma HalveRateBelowWord(w: nat)
    requires w + 1 <= WordBits
    ensures (Pow2(w + 1) - 1) % WordMod == 2 * ((Pow2(w) - 1) % WordMod) + 1
  {
    MaskValue(w);
    MaskValue(w + 1);
  }

  lemma HalveRateAboveWord(w: nat)
    requires w + 1 > WordBits
    ensures (Pow2(w + 1) - 1) % WordMod == WordMod - 1
  {
    Pow2WordMultiple(w + 1);
    FullMask(Pow2(w + 1));
  }

  /** One less than a positive multiple of the word modulus is all ones in a
      word. */
  lemma FullMask(x: nat)
    requires x >= 1 && x % WordMod == 0
    ensures (x - 1) % WordMod == WordMod - 1
  {
    var k := x / WordMod;
    assert x == WordMod * k && k >= 1;
    assert x - 1 == WordMod * (k - 1) + (WordMod - 1);
  }

  /** Below the word size, 2^w - 1 fits in a word. */
  lemma {:induction false} MaskValue(w: nat)
    requires w <= WordBits
    ensures (Pow2(w) - 1) % WordMod == Pow2(w) - 1
  {
    Pow2Monotone(w, WordBits);
    Pow2Word();
  }

  lemma HalveRateMask(w: nat)
    ensures (2 * ((Pow2(w) - 1) % WordMod) + 1) % WordMod == (Pow2(w + 1) - 1) % WordMod
  {
    if w < WordBits {
      MaskValue(w);
      MaskValue(w + 1);
    } else {
      Pow2WordMultiple(w);
      FullMask(Pow2(w));
      Pow2WordMultiple(w + 1);
      FullMask(Pow2(w + 1));
      assert (2 * (WordMod - 1) + 1) % WordMod == WordMod - 1;
    }
  }

  datatype Draw = Draw(sampled: bool, sampler: Sampler, drawn: nat)

  /** Whether the next fed item is kept. With width 0 every item is. Otherwise
      the first call of each block of mask + 1 calls takes `width` bits (drawing
      a fresh word only when fewer remain) as the block's chosen offset, and the
      call at that offset answers true. */
  function NextIsSampled(s: Sampler, gen: nat -> nat, drawn: nat): (r: Result<Draw>)
    requires SamplerInv(s)
    ensures r.Err? <==> (s.width > WordBits && s.nextNewSample == 0)
    ensures r.Err? ==> r.fault == WidthTooLarge
    ensures r.Ok? ==> SamplerInv(r.value.sampler)
    ensures r.Ok? ==> r.value.sampler.mask == s.mask && r.value.sampler.width == s.width
    ensures s.width == 0 ==> r == Ok(Draw(true, s, drawn))
    ensures r.Ok? && r.value.drawn != drawn ==>
              r.value.drawn == drawn + 1 && s.nextNewSample == 0 && s.width > s.bitsLen
  {
    if s.width == 0 then Ok(Draw(true, s, drawn))
    else if s.nextNewSample == 0 then
      if s.width > s.bitsLen && s.width > WordBits then Err(WidthTooLarge)
      else
        var refill := s.width > s.bitsLen;
        var bits := if refill then Word(gen, drawn) else s.bits;
        var len: int := if refill then WordBits else s.bitsLen;
        var d := if refill then drawn + 1 else drawn;
        MaskIsPow2(s);
        var offset := bits % (s.mask + 1);
        var r := Sampler(s.mask, offset - 1, s.mask, s.width, Shr(bits, s.width), len - s.width);
        Pow2Word();
        ShiftBound(bits, len, s.width);
        Ok(Draw(offset == 0, r, d))
    else
      Ok(Draw(s.nextSampled == 0,
              s.(nextNewSample := s.nextNewSample - 1, nextSampled := s.nextSampled - 1),
              drawn))
  }

  /** Dropping w of the `len` buffered bits leaves len - w bits. */
  lemma {:induction false} ShiftBound(bits: nat, len: nat, w: nat)
    requires bits < Pow2(len) && w <= len
    ensures Shr(bits, w) < Pow2(len - w)
    decreases w
  {
    if w > 0 {
      ShiftBound(bits / 2, len - 1, w - 1);
    }
  }

  lemma {:induction false} Pow2Split(a: nat, b: nat)
    ensures Pow2(a + b) == Pow2(a) * Pow2(b)
    decreases a
  {
    if a > 0 {
      Pow2Split(a - 1, b);
      assert Pow2(a + b) == 2 * Pow2(a - 1 + b);
    }
  }

  datatype Run = Run(picks: seq<bool>, sampler: Sampler, drawn: nat)

  /** `k` successive calls of next_is_sampled. */
  function SampleRun(s: Sampler, gen: nat -> nat, drawn: nat, k: nat): (r: Result<Run>)
    requires SamplerInv(s)
    ensures r.Ok? ==> |r.value.picks| == k && SamplerInv(r.value.sampler)
    ensures r.Ok? ==> r.value.sampler.mask == s.mask && r.value.sampler.width == s.width
    decreases k
  {
    if k == 0 then Ok(Run([], s, drawn))
    else
      match NextIsSampled(s, gen, drawn)
      case Err(f) => Err(f)
      case Ok(d) =>
        match SampleRun(d.sampler, gen, d.drawn, k - 1)
        case Err(f) => Err(f)
        case Ok(rest) => Ok(Run([d.sampled] + rest.picks, rest.sampler, rest.drawn))
  }

  /** Inside a block the calls count down without drawing: call i answers
      whether the countdown `nextSampled` has reached i. */
  lemma {:induction false} CountDown(s: Sampler, gen: nat -> nat, drawn: nat, k: nat)
    requires SamplerInv(s) && s.width >= 1 && k <= s.nextNewSample
    ensures var r := SampleRun(s, gen, drawn, k);
            && r.Ok? && r.value.drawn == drawn
            && (forall i :: 0 <= i < k ==> (r.value.picks[i] <==> s.nextSampled == i))
            && r.value.sampler.nextNewSample == s.nextNewSample - k
            && r.value.sampler.bits == s.bits && r.value.sampler.bitsLen == s.bitsLen
    decreases k
  {
    if k > 0 {
      var d := NextIsSampled(s, gen, drawn);
      var s' := s.(nextNewSample := s.nextNewSample - 1, nextSampled := s.nextSampled - 1);
      assert d == Ok(Draw(s.nextSampled == 0, s', drawn));
      CountDown(s', gen, drawn, k - 1);
    }
  }

  /** One sample per block: starting a block, the next mask + 1 calls answer
      true exactly once, at the offset given by the low `width` bits of the
      buffered bits (of a fresh word when fewer than `width` remain); the block
      consumes `width` bits and ends where the next block starts. */
  lemma {:induction false} SampleBlock(s: Sampler, gen: nat -> nat, drawn: nat)
    requires SamplerInv(s) && 1 <= s.width <= WordBits && s.nextNewSample == 0
    ensures var refill := s.width > s.bitsLen;
            var bits := if refill then Word(gen, drawn) else s.bits;
            var offset := bits % Pow2(s.width);
            var r := SampleRun(s, gen, drawn, Pow2(s.width));
            && r.Ok?
            && (forall i :: 0 <= i < Pow2(s.width) ==> (r.value.picks[i] <==> i == offset))
            && r.value.sampler.nextNewSample == 0
            && r.value.drawn == (if refill then drawn + 1 else drawn)
            && r.value.sampler.bitsLen == (if refill then WordBits else s.bitsLen) - s.width
  {
    var refill := s.width > s.bitsLen;
    var bits := if refill then Word(gen, drawn) else s.bits;
    var offset := bits % Pow2(s.width);
    var d := BlockFirstCall(s, gen, drawn);
    MaskIsPow2(s);
    CountDown(d.sampler, gen, d.drawn, s.mask);
    var rest := SampleRun(d.sampler, gen, d.drawn, s.mask);
    var r := SampleRun(s, gen, drawn, s.mask + 1);
    assert r == Ok(Run([d.sampled] + rest.value.picks, rest.value.sampler, rest.value.drawn));
    forall i | 0 <= i < s.mask + 1
      ensures r.value.picks[i] <==> i == offset
    {
      if i > 0 {
        assert r.value.picks[i] == rest.value.picks[i - 1];
      }
    }
  }

  /** The first call of a block: it fixes the offset and starts the countdown. */
  lemma BlockFirstCall(s: Sampler, gen: nat -> nat, drawn: nat) returns (d: Draw)
    requires SamplerInv(s) && 1 <= s.width <= WordBits && s.nextNewSample == 0
    ensures var refill := s.width > s.bitsLen;
            var bits := if refill then Word(gen, drawn) else s.bits;
            var offset := bits % Pow2(s.width);
            && NextIsSampled(s, gen, drawn) == Ok(d)
            && d.sampled == (offset == 0)
            && d.sampler.nextSampled == offset - 1 && d.sampler.nextNewSample == s.mask
            && d.drawn == (if refill then drawn + 1 else drawn)
            && d.sampler.bitsLen == (if refill then WordBits else s.bitsLen) - s.width
  {
    MaskIsPow2(s);
    d := NextIsSampled(s, gen, drawn).value;
  }

  /* ----- toss_coin (random.h:340-351) ----- */

  /** The coin's buffer: `len` unread random bits of `bits`, lowest first. */
  datatype Coin = Coin(bits: nat, len: int)

  const InitialCoin: Coin := Coin(0, 0)

  ghost predicate CoinInv(c: Coin) {
    0 <= c.len <= WordBits && c.bits < Pow2(c.len)
  }

  datatype Toss = Toss(heads: bool, coin: Coin, drawn: nat)

  /** One coin toss: the lowest buffered bit, after refilling a whole word when
      the buffer is empty. */
  function TossCoin(c: Coin, gen: nat -> nat, drawn: nat): (t: Toss)
    requires CoinInv(c)
    ensures CoinInv(t.coin)
    ensures c.len == 0 ==> t.drawn == drawn + 1 && t.coin.len == WordBits - 1
    ensures c.len > 0 ==> t.drawn == drawn && t.coin.len == c.len - 1
  {
    var refill := c.len == 0;
    var bits := if refill then Word(gen, drawn) else c.bits;
    var len: int := if refill then WordBits else c.len;
    Pow2Word();
    assert Pow2(len) == 2 * Pow2(len - 1);
    Toss(bits % 2 == 1, Coin(bits / 2, len - 1), if refill then drawn + 1 else drawn)
  }

  datatype Flips = Flips(heads: seq<bool>, coin: Coin, drawn: nat)

  /** `k` successive tosses. */
  function TossMany(c: Coin, gen: nat -> nat, drawn: nat, k: nat): (r: Flips)
    requires CoinInv(c)
    ensures |r.heads| == k && CoinInv(r.coin)
    decreases k
  {
    if k == 0 then Flips([], c, drawn)
    else
      var t := TossCoin(c, gen, drawn);
      var rest := TossMany(t.coin, gen, t.drawn, k - 1);
      Flips([t.heads] + rest.heads, rest.coin, rest.drawn)
  }

  /** While buffered bits remain the tosses read them lowest bit first and draw
      nothing from the generator. */
  lemma {:induction false} CoinsLsbFirst(c: Coin, gen: nat -> nat, drawn: nat, k: nat)
    requires CoinInv(c) && k <= c.len
    ensures var r := TossMany(c, gen, drawn, k);
            && r.drawn == drawn
            && r.coin == Coin(Shr(c.bits, k), c.len - k)
            && (forall i :: 0 <= i < k ==> r.heads[i] == Bit(c.bits, i))
    decreases k
  {
    if k > 0 {
      var t := TossCoin(c, gen, drawn);
      assert t == Toss(c.bits % 2 == 1, Coin(c.bits / 2, c.len - 1), drawn);
      CoinsLsbFirst(t.coin, gen, drawn, k - 1);
      var r := TossMany(c, gen, drawn, k);
      forall i | 0 <= i < k
        ensures r.heads[i] == Bit(c.bits, i)
      {
        if i > 0 {
          BitOfHalf(c.bits, i - 1);
        }
      }
    }
  }

  /** An empty buffer is refilled with exactly one fresh word, whose bits the
      next tosses read lowest first. */
  lemma {:induction false} CoinsAfterRefill(c: Coin, gen: nat -> nat, drawn: nat, k: nat)
    requires CoinInv(c) && c.len == 0 && 1 <= k <= WordBits
    ensures var r := TossMany(c, gen, drawn, k);
            && r.drawn == drawn + 1
            && (forall i :: 0 <= i < k ==> r.heads[i] == Bit(Word(gen, drawn), i))
  {
    var w := Word(gen, drawn);
    var t := TossCoin(c, gen, drawn);
    assert t == Toss(w % 2 == 1, Coin(w / 2, WordBits - 1), drawn + 1);
    CoinsLsbFirst(t.coin, gen, drawn + 1, k - 1);
    var r := TossMany(c, gen, drawn, k);
    forall i | 0 <= i < k
      ensures r.heads[i] == Bit(w, i)
    {
      if i > 0 {
        BitOfHalf(w, i - 1);
      }
    }
  }
}
