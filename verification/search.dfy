/** Ordered-sequence helpers shared by both sketches: ascending keys and the
    upper-bound search that both `query_for_value` implementations perform. */
module Search {

  /** Keys in non-decreasing order. */
  ghost predicate Ascending(keys: seq<int>) {
    forall i, j :: 0 <= i <= j < |keys| ==> keys[i] <= keys[j]
  }

  /** Reference definition of an upper bound: the index of the first key strictly
      greater than `target`, or |keys| when there is none. */
  function FirstAbove(keys: seq<int>, target: int): (k: nat)
    ensures k <= |keys|
    ensures forall i :: 0 <= i < k ==> keys[i] <= target
    ensures k < |keys| ==> keys[k] > target
  {
    if |keys| == 0 then 0
    else if keys[0] > target then 0
    else 1 + FirstAbove(keys[1..], target)
  }

  /** On ascending keys every key from the upper bound on exceeds the target. */
  lemma {:induction false} FirstAboveSplits(keys: seq<int>, target: int)
    requires Ascending(keys)
    ensures forall i :: FirstAbove(keys, target) <= i < |keys| ==> keys[i] > target
  {
    var k := FirstAbove(keys, target);
    if k < |keys| {
      forall i | k <= i < |keys|
        ensures keys[i] > target
      {
        assert keys[k] <= keys[i];
      }
    }
  }

  /** Binary search for the upper bound, as std::upper_bound does on a range
      partitioned by `target < key`. */
  method UpperBound(keys: seq<int>, target: int) returns (k: nat)
    requires Ascending(keys)
    ensures k <= |keys|
    ensures forall i :: 0 <= i < k ==> keys[i] <= target
    ensures forall i :: k <= i < |keys| ==> keys[i] > target
    ensures k == FirstAbove(keys, target)
  {
    var lo, hi := 0, |keys|;
    while lo < hi
      invariant 0 <= lo <= hi <= |keys|
      invariant forall i :: 0 <= i < lo ==> keys[i] <= target
      invariant forall i :: hi <= i < |keys| ==> keys[i] > target
      decreases hi - lo
    {
      var mid := lo + (hi - lo) / 2;
      if keys[mid] <= target {
        lo := mid + 1;
      } else {
        hi := mid;
      }
    }
    k := lo;
    var f := FirstAbove(keys, target);
    assert f < |keys| ==> keys[f] > target;
    assert k < |keys| ==> keys[k] > target;
  }
}
