# Quantile sketches: Greenwald–Khanna and the randomized buffer sampler

A Dafny model of the two one-pass quantile sketches in `gk.h` and `random.h`.

**Greenwald–Khanna summary (`GK`, module `GK`)**

- The summary is a sequence of tuples `(value, g, delta)`, sorted by value. It ends in a sentinel `(max_v, 1, 0)`.
- A min-heap of `(threshold, tuple)` entries is the lazy scheduler for merges.
- `feed` does one of two things:
  - it absorbs a value into its successor tuple;
  - or it inserts a new tuple and then runs the compression loop. The loop pops candidates, revalidates each against the live tuples, and either merges one adjacent pair or re-pushes the candidate with its real cost.
- `finalize` builds prefix sums of `g`, and `query_for_value` binary-searches them.
- Tuples and heap entries refer to each other by a tuple id rather than by a map iterator.

**Randomized sampler (`Random`, modules `RandomSketch`, `RandomBalance`, `RandomSummary`)**

- A pool of `L + 2` buffers, addressed by handle, is shared between:
  - a free list;
  - the current buffer;
  - `L` layers, each a queue of buffers;
  - a stack of collapsible layers.
- `feed` samples with rate `2^-width`, fills the current buffer, and files full, sorted buffers into layer 0. When fewer than two buffers are free it calls `collapse`.
- `collapse` merges the two oldest buffers of the layer on top of the stack. It keeps every other element, starting with the parity given by a coin, and files the result one layer up. It may rotate the layers and halve the sampling rate.
- `finalize` merges all buffers by value, each value weighted by the inverse sampling rate of its layer. `query_for_value` finds the last entry whose rank is at most the target.
- The random generator is a parameter `gen: nat -> nat`. The model draws its words in order through a `drawn` counter and reduces each word modulo 2^32, the generator's word size.
- Each `assert` of `random.h` becomes an error value of `Outcomes.Fault`, returned through `Outcomes.Result`.

**Supporting modules**

- `Bits`: sampler and coin bit buffers.
- `Merging`: two-way merge, every-other selection, sort.
- `Search`: upper bound.
- `Pool`: handle accounting.

**Deviations from the usual GK bound.** The usual compression bound, `g + delta <= floor(2·ε·n)` for every tuple, does not hold for the sentinel while that threshold is still 0. The sentinel's `g` is already 1. What `feed` keeps, and what the model proves, is `g + delta <= max(floor(2·ε·n), 1)`.

## Model

| member | source | states |
|---|---|---|
| GK.Init | gk.h:65-72 | The constructor leaves exactly the sentinel tuple `(max_v, 1, 0)` and an empty heap, the invariant holds, and Σg is 1 |
| GK.ThresholdMonotone | gk.h:135 | The threshold floor(2·ε·n) never decreases as n grows |
| GK.Successor | gk.h:131-132 | For v below max_v the strict successor exists: every earlier tuple's value is at most v and it and every later tuple's value exceeds v |
| GK.Absorb | gk.h:137-145 | The absorb path raises only the successor's g by 1: tuple count and heap unchanged, Σg grows by 1, invariant kept |
| GK.InsertLinked | gk.h:146-151 | Inserting the new tuple `(v, 1, tmp - 1)` (tmp the successor's g + delta) just before its successor and pushing its entry with threshold tmp + 1 keeps the tuples ordered with chained deltas and the heap in one-to-one correspondence with the non-sentinel tuples, every stored threshold at most the real cost of merging its tuple into the successor |
| GK.InsertOrdered | gk.h:148 | Insertion before the strict successor keeps values ascending, g positive, deltas chained and ids distinct |
| GK.MinIndex | gk.h:156 | The heap top has the least stored threshold |
| GK.Compress | gk.h:154-185 | The compression loop terminates, keeps tuple/heap correspondence, and either merges exactly one pair whose real cost is at most the threshold or merges nothing and leaves every pair above the threshold |
| GK.RepushCount | gk.h:180-184 | Re-pushing a stale entry with its real cost (above the threshold) strictly shrinks the number of entries at or below the threshold, so the loop ends |
| GK.NoMergeWhenTopAbove | gk.h:157-162 | When the least stored threshold exceeds the threshold, no adjacent pair can be merged |
| GK.HeapEntryHasTuple | gk.h:164-168 | Every heap entry names a live tuple other than the sentinel, so its successor exists |
| GK.TupleHasHeapEntry | gk.h:146-151 | Every non-sentinel tuple has a heap entry |
| GK.RepushLinked | gk.h:180-184 | Replacing a popped entry by one with the real cost keeps the tuple/heap structure |
| GK.MergeAtLinked | gk.h:175-179 | Moving e1.g into e2 and erasing e1 (and its popped entry) keeps the tuple/heap structure |
| GK.MergeAtCost | gk.h:173-177 | A merge never lowers the real cost of any remaining pair, so stored thresholds stay below real costs |
| GK.MergeAtKeeps | gk.h:176-177 | A merge drops one tuple, keeps Σg and keeps the sentinel |
| GK.CompressKeeps | gk.h:154-185 | One compression pass erases at most one tuple, keeps Σg and never erases the sentinel |
| GK.SumGAbsorb | gk.h:140 | Absorbing adds exactly 1 to Σg |
| GK.SumGInsert | gk.h:148 | Inserting a tuple adds its g to Σg |
| GK.SumGMerge | gk.h:176-177 | Merging a pair keeps Σg |
| GK.InsertAndCompressInv | gk.h:146-186 | The insert path (new tuple, pushed entry, one compression pass) keeps the invariant and spends one fresh id |
| GK.InsertAndCompressCounts | gk.h:146-186 | The insert path grows the tuple count by 0 or 1 and Σg by exactly 1, and its result is the inserted tuples either untouched or with one eligible pair merged |
| GK.InsertAndCompressBound | gk.h:146-186 | The insert path leaves the largest g + delta within max(old, threshold) |
| GK.Feed | gk.h:126-187 | Feed counts the value; feeding max_v changes nothing else; otherwise Σg grows by 1; the invariant holds and the largest g + delta stays within max(old, threshold) |
| GK.FeedBelowMaxKeeps | gk.h:131-186 | Both paths for a value below max_v keep the invariant, add 1 to Σg and keep the largest g + delta within max(old, threshold) |
| GK.FeedAll | gk.h:126-187 | Feeding a stream counts every value and adds to Σg the number of values other than max_v |
| GK.SumGCountsFed | gk.h:126-187 | From the constructor, Σg equals 1 plus the number of fed values other than max_v |
| GK.MaxGDCompressed | gk.h:175-179 | A compression pass leaves the largest g + delta within max(old, threshold) |
| GK.InitWithinBound | gk.h:65-72 | The constructor satisfies the compression bound |
| GK.FeedKeepsBound | gk.h:126-187 | Feed keeps every g + delta within max(floor(2·ε·n), 1) |
| GK.StreamWithinBound | gk.h:65-187 | After any stream from the constructor every tuple has g + delta within max(floor(2·ε·n), 1) |
| GK.Finalize | gk.h:74-92 | One summary entry per tuple in order, g the running prefix sum of g's, delta copied, max_gd the largest (g + delta) halved |
| GK.FinalizedKeysAscending | gk.h:74-92 | The finalized keys g + delta ascend and the last entry's g is Σg, so the binary search is well defined |
| GK.QueryForValue | gk.h:94-111 | Returns the value of the entry just before the first whose g + delta exceeds rank·n + max_gd, or 0 when there is none before it |
| Search.FirstAbove | gk.h:99-103 | Reference upper bound: every key before the index is at most the target, the key at it exceeds it |
| Search.UpperBound | gk.h:99-103 | Binary search returns exactly the reference upper bound on ascending keys |
| Bits.HalveRate | random.h:139-140 | Halving the rate makes the mask 2·mask + 1 and the width one larger, keeping mask = 2^width − 1 within the word |
| Bits.MaskIsPow2 | random.h:307-311 | The sampler invariant gives prob_mask + 1 = 2^width while the width fits a word |
| Bits.NextIsSampled | random.h:316-337 | Width 0 always samples without touching the generator; the call fails only when a new block needs more bits than a word holds; the mask and width are unchanged and a word is drawn only to start a block short of bits |
| Bits.CountDown | random.h:332-336 | Within a block, the remaining calls return true exactly at the drawn offset and use no bits |
| Bits.SampleBlock | random.h:316-337 | A whole block of 2^width calls from a block start returns true exactly once, at the offset given by the low width bits, consumes width bits and refills only when short |
| Bits.BlockFirstCall | random.h:319-331 | The first call of a block draws the offset from the low bits, refilling only when too few bits remain, and sets the countdown to prob_mask |
| Bits.TossCoin | random.h:340-351 | A toss refills a whole word only when no coin bit is left, and consumes one bit |
| Bits.CoinsLsbFirst | random.h:347-349 | Successive tosses hand out the buffered bits lowest first |
| Bits.CoinsAfterRefill | random.h:342-349 | After a refill the tosses are the bits of the new word, lowest first |
| Pool.AccountedOnce | random.h:36-42 | No handle is both free/current and filed |
| Pool.FlattenDropTwo | random.h:79-82 | Removing a layer's two front buffers removes exactly those two handles |
| Pool.FlattenRotate | random.h:136-137 | Rotating the layers keeps the set of filed handles |
| Merging.Merge | random.h:84-120 | The by-value merge holds exactly both inputs' elements and is sorted when both inputs are |
| Merging.EveryOtherAt | random.h:95-113 | Every-other selection keeps positions 0, 2, 4 … or 1, 3, 5 … by the starting parity |
| Merging.EveryOtherSorted | random.h:84-120 | Every other element of a sorted sequence is sorted |
| Merging.Sort | random.h:59 | The sort yields an ascending permutation |
| Merging.SortedUnique | random.h:59 | An ascending permutation is unique, so the sort is determined by its result |
| RandomSketch.AllocateKeeps | random.h:254-258 | Taking the last free buffer as the current one, emptied, from a state whose full buffers are all filed and with at least two free buffers, restores the feed invariant: every pool handle is still free, current or filed exactly once, the current buffer is empty and not full, and one buffer fewer is free |
| RandomSketch.FreeBufferReturns | random.h:260-262 | Freeing a handle that has left the free list, the current buffer and the layers makes every pool handle accounted exactly once again |
| RandomSketch.FreeThenAllocate | random.h:254-262 | The free list is a stack: the buffer freed last is the next one allocated, emptied, and the free list is as it was before the free |
| RandomSketch.PrepareCurBuffer | random.h:242-247 | Succeeds exactly when at least two buffers are free, and then allocates and leaves one free |
| RandomSketch.PrepareForCollapse | random.h:249-252 | Fails exactly when the free count is not one; otherwise allocates the last free buffer |
| RandomSketch.InsertCurBufferToLayers | random.h:270-284 | Appends the current buffer at the back of the layer and pushes the layer on the stack exactly when it now holds two; fails past the last layer |
| RandomSketch.Rotate | random.h:136-140 | Layers rotate front to back, stacked layer indices follow their layer down by one, the rate halves, the buffers are untouched |
| RandomSketch.MergeAlternate | random.h:84-120 | The two-pointer merge loop with alternating `use` outputs exactly every other element of the by-value merge, parity given by the coin |
| RandomSketch.TakeRest | random.h:98-115 | Draining the rest of one input continues the every-other selection |
| RandomSketch.MergePairShape | random.h:79-123 | The layer loses its two front buffers, both go back on the free list, and the current buffer receives every other element of their merge |
| RandomSketch.MergedFull | random.h:84-120 | Two full sorted buffers of size B merge to a full sorted buffer of size B |
| RandomSketch.MergePairKeeps | random.h:75-123 | The collapse merge keeps every handle accounted for, returns both consumed buffers to the free list and leaves the merged buffer full and sorted |
| RandomSketch.Pigeonhole | random.h:61-74 | With one free buffer the collapsible stack is non-empty and its top layer holds at least two buffers, so the collapse asserts hold |
| RandomSketch.CollapseUnfold | random.h:69-83 | Collapse allocates the last free buffer, pops the stack's top layer and promotes from it, recording whether the top layer was empty |
| RandomSketch.PromoteEffect | random.h:125-150 | After the merge the result is filed one layer up; with an empty top layer the source is re-stacked when it still holds two; otherwise, when the source was layer 0 and is now empty, the layers rotate and the rate halves; one buffer ends free |
| RandomSketch.ResumeEffect | random.h:131-150 | Settle then prepare a new buffer: re-stack or rotate as above, taking the last of the two free buffers |
| RandomSketch.CollapseKeeps | random.h:69-151 | From a filed state with one free buffer, collapse restores the feed invariant with one free buffer, or fails only at a layer/rotation assertion |
| RandomSketch.InitKeeps | random.h:20-49 | The constructor leaves L + 1 free buffers, an empty current buffer, empty layers and stack, and the invariant |
| RandomSketch.Feed | random.h:51-67 | Feed counts the value and keeps handles well formed |
| RandomSketch.FeedKeeps | random.h:51-67 | Feed keeps the invariant: pool conservation, at least one free buffer, a non-full current buffer, full sorted filed buffers, an exact collapsible stack |
| RandomSketch.FeedAllKeeps | random.h:51-67 | Any stream of feeds keeps the invariant or stops at one of the asserted faults |
| RandomBalance.CollapseBalanced | random.h:69-151 | With at least two layers, a collapse never files past the top layer and rotates only when its source is layer 0 and empty, keeping the layer sizes balanced |
| RandomBalance.FileFullBalanced | random.h:57-66 | From a balanced state, filing a full buffer (and collapsing when buffers run short) always succeeds and stays balanced |
| RandomBalance.FeedBalanced | random.h:51-67 | With at least two layers feed fails only when the sampling width outgrows the word |
| RandomBalance.ConstructedFeedsSafe | random.h:20-67 | From the constructor with at least two layers, any stream keeps the invariant and never reaches a layer or rotation assertion |
| RandomBalance.SingleLayerRun | random.h:69-151 | With one layer, 2·B values from the constructor reach the past-the-top-layer assertion |
| RandomSummary.CurWeightAgrees | random.h:167 | Below width 32, prob_mask + 1 in 32 bits is the weight 2^width |
| RandomSummary.CurWeightWraps | random.h:167 | At width 32, prob_mask + 1 evaluates to 0 in 32 bits |
| RandomSummary.WeightOfMergeAll | random.h:165-188 | The merged summary's total weight equals Σ size·weight over the buffers (summary_weight_sum) |
| RandomSummary.SumWeights | random.h:165-188 | The accumulation loop computes Σ size·weight |
| RandomSummary.RankEntries | random.h:198-214 | Each summary entry's rank is the weight of all earlier entries |
| RandomSummary.Finalize | random.h:161-215 | One entry per stored value in merged order, ranked by the weight before it, with the total weight alongside; the current buffer weighs prob_mask + 1 in 32 bits and layer i that times 2^i |
| RandomSummary.FinalizedOrdered | random.h:161-215 | The summary's values are sorted and its ranks ascend from 0; that its entries are exactly the buffered values is carried over from the merge's own contract |
| RandomSummary.QueryForValue | random.h:217-228 | Returns the value of the last entry whose rank is at most the target, and fails exactly when there is none |
| RandomSummary.AnswerCoversTarget | random.h:217-228 | For a target below the total weight the answer's weight interval contains the target |
| RandomSummary.WrappedWeightAnswersLast | random.h:161-228 | At width 32 every weight is 0, so the target is 0 and every query answers the last entry |
| RandomSummary.CorrectedWeightsPositive | random.h:165-188 | With weight 2^width every summary entry carries a positive weight |

## Left out

- The floating-point constructor formulas of `Random`: ε / √2, `buffer_size_limit` and `layer_count_limit` (random.h:22-24). Both limits are positive integer parameters of `Config`.
- GK's ε: it is an exact rational `num/den`. The threshold is `floor(2·num·n / den)`, with no double rounding and no `unsigned int` truncation.
- GK.QueryForValue: takes the target `floor(rank·last_n)` as a natural number instead of the `double rank` and its conversion (gk.h:97).
- RandomSummary.QueryForValue: takes the target `ceil(rank·summary_weight_sum)` as an integer (random.h:219).
- The generator `boost::mt11213b` and its seeding with `time(nullptr)`: they are the injected word stream `gen`.
- Fixed-width counters (`unsigned int` g, delta and thresholds; `long long` counts and ranks; `int` widths): they are unbounded. The one 32-bit wrap that changes behaviour is modelled explicitly: `prob_mask + 1` (random.h:167).
- `prob_bits >>= prob_mask_width` with a width of 32 (random.h:328) is undefined behaviour in C++. The model's shift yields 0.
- Heap tie order:
  - GK's `priority_queue` pops some entry with the least threshold; the model pops the first such entry.
  - `finalize`'s k-way heap merge of `Random` is a left fold of two-way merges. The sequence of values, the rank at which each run of equal values starts, the total weight, and so every `query_for_value` answer, agree with any merge order. Within a run of equal values drawn from buffers of different weights, the ranks of the later entries depend on which buffer comes first and may differ from the source's.
- The in-place `std::sort` of the current buffer in `finalize` (random.h:170): the model sorts a copy.
- Pointers and iterators into the pool, the multimap and the deques are handles and indices.
- After a rotation, the collapsible stack's deque iterators are modelled as following their physical layer, which moves down one index.
- The probabilistic accuracy of `Random` and the full ε-rank-error theorem of GK are not stated.
- The test driver (test.h) is not part of this model.
- GK.Feed: requires v <= max_v, where the source only relies on `upper_bound` not returning `end()` (gk.h:131-132), and compares `(uint64_t)v == max_v` (gk.h:129) as plain equality. Both agree with the source for the default `max_v`, the largest value of the type.
- GK.Feed: states the branch taken only through GK.Absorb (`r.tuples == RaiseG`) and GK.InsertAndCompressCounts (`InsertPath`), not in its own contract.
- RandomSketch.Feed and RandomSketch.Collapse: their own contracts state only well-formedness and the count. The invariant and the faults are in RandomSketch.FeedKeeps and RandomSketch.CollapseKeeps.
- RandomSketch.PromoteEffect: in the rotating case it states only the stack's length. RandomSketch.ResumeEffect and RandomSketch.Rotate state where each stacked index goes.

## Findings

| source | as written | input that shows it | evidently intended | confidence | as-written member | corrected member |
|---|---|---|---|---|---|---|
| random.h:24 | `layer_count_limit` is 1 for ε between about 0.54 and 1.07; `collapse` then files its merged buffer into `layers.begin() + 1 == layers.end()` | ε = 0.6 gives B = 5 and L = 1. After 10 sampled values the second full buffer triggers a collapse that asserts at random.h:271 | at least two layers, so a collapse always has a layer above it | not executed | RandomBalance.SingleLayerRun | RandomBalance.ConstructedFeedsSafe |
| random.h:167 | `prob_mask + 1` is computed in the 32-bit `random_int_t` before widening, so at width 32 the weight wraps to 0 and every layer weight stays 0 | a stream long enough for 32 rate halvings, then `finalize` and any `query_for_value` | weight 2^width in 64 bits | not executed | RandomSummary.WrappedWeightAnswersLast | RandomSummary.CorrectedWeightsPositive |
