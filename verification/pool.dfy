/** Buffer handles of the randomized sketch: the pool holds buffers 0 .. n-1,
    and every handle is either free, current, or filed in exactly one layer. */
module Pool {

  /** The top of a stack kept with its top at the back. */
  function Top(s: seq<nat>): nat
    requires |s| > 0
  {
    s[|s| - 1]
  }

  /** The handles 0 .. n-1 in order: the initial free list. */
  function Range(n: nat): (r: seq<nat>)
    ensures |r| == n
    ensures forall i :: 0 <= i < n ==> r[i] == i
  {
    if n == 0 then [] else Range(n - 1) + [n - 1]
  }

  /** Each handle occurs once in Range(n). */
  lemma {:induction false} RangeCount(n: nat, x: nat)
    ensures multiset(Range(n))[x] == if x < n then 1 else 0
    decreases n
  {
    if n > 0 {
      RangeCount(n - 1, x);
      var last: nat := n - 1;
      var m := multiset(Range(n - 1));
      assert multiset(Range(n)) == m + multiset{last};
      assert (m + multiset{last})[x] == m[x] + multiset{last}[x];
    }
  }

  /** The layers' handles, bottom layer first, each layer front to back. */
  function Flatten(layers: seq<seq<nat>>): seq<nat> {
    if |layers| == 0 then [] else layers[0] + Flatten(layers[1..])
  }

  /** `hs` is a rearrangement of the pool's handles 0 .. n-1. */
  ghost predicate Accounted(n: nat, hs: seq<nat>) {
    multiset(hs) == multiset(Range(n))
  }

  /** Every accounted handle names a pool buffer. */
  lemma AccountedBelow(n: nat, hs: seq<nat>, x: nat)
    requires Accounted(n, hs) && x in multiset(hs)
    ensures x < n
  {
    RangeCount(n, x);
  }

  /** No handle is accounted twice. */
  lemma AccountedOnce(n: nat, a: seq<nat>, b: seq<nat>, x: nat)
    requires Accounted(n, a + b) && x in multiset(a)
    ensures x !in multiset(b)
  {
    RangeCount(n, x);
    assert multiset(a + b)[x] == multiset(a)[x] + multiset(b)[x];
  }

  lemma {:induction false} FlattenMember(layers: seq<seq<nat>>, i: nat, k: nat)
    requires i < |layers| && k < |layers[i]|
    ensures layers[i][k] in multiset(Flatten(layers))
    decreases i
  {
    if i > 0 {
      FlattenMember(layers[1..], i - 1, k);
      assert layers[1..][i - 1] == layers[i];
    }
  }

  /** Appending a handle to one layer adds exactly that handle. */
  lemma {:induction false} FlattenAppend(layers: seq<seq<nat>>, i: nat, h: nat)
    requires i < |layers|
    ensures multiset(Flatten(layers[i := layers[i] + [h]])) == multiset(Flatten(layers)) + multiset{h}
    decreases i
  {
    var ls := layers[i := layers[i] + [h]];
    assert Flatten(ls) == ls[0] + Flatten(ls[1..]);
    assert Flatten(layers) == layers[0] + Flatten(layers[1..]);
    if i == 0 {
      assert ls[1..] == layers[1..];
      assert ls[0] == layers[0] + [h];
    } else {
      FlattenAppend(layers[1..], i - 1, h);
      assert ls[1..] == layers[1..][i - 1 := layers[1..][i - 1] + [h]];
      assert ls[0] == layers[0];
    }
  }

  /** Dropping the two oldest handles of one layer removes exactly those. */
  lemma {:induction false} FlattenDropTwo(layers: seq<seq<nat>>, i: nat)
    requires i < |layers| && |layers[i]| >= 2
    ensures multiset(Flatten(layers[i := layers[i][2..]])) + multiset{layers[i][0], layers[i][1]}
         == multiset(Flatten(layers))
    decreases i
  {
    var ls := layers[i := layers[i][2..]];
    assert Flatten(ls) == ls[0] + Flatten(ls[1..]);
    assert Flatten(layers) == layers[0] + Flatten(layers[1..]);
    if i == 0 {
      assert ls[1..] == layers[1..];
      assert layers[0] == [layers[0][0], layers[0][1]] + ls[0];
    } else {
      FlattenDropTwo(layers[1..], i - 1);
      assert ls[1..] == layers[1..][i - 1 := layers[1..][i - 1][2..]];
      assert ls[0] == layers[0];
    }
  }

  lemma {:induction false} FlattenConcat(a: seq<seq<nat>>, b: seq<seq<nat>>)
    ensures Flatten(a + b) == Flatten(a) + Flatten(b)
    decreases |a|
  {
    if |a| == 0 {
      assert a + b == b;
    } else {
      assert (a + b)[1..] == a[1..] + b;
      assert (a + b)[0] == a[0];
      FlattenConcat(a[1..], b);
      assert Flatten(a + b) == a[0] + Flatten(a[1..] + b);
      assert Flatten(a) == a[0] + Flatten(a[1..]);
      assert a[0] + (Flatten(a[1..]) + Flatten(b)) == (a[0] + Flatten(a[1..])) + Flatten(b);
    }
  }

  /** Moving the bottom layer to the top keeps the same handles. */
  lemma {:induction false} FlattenRotate(layers: seq<seq<nat>>)
    requires |layers| > 0
    ensures multiset(Flatten(layers[1..] + [layers[0]])) == multiset(Flatten(layers))
  {
    FlattenConcat(layers[1..], [layers[0]]);
    assert Flatten([layers[0]]) == layers[0] + Flatten([]);
  }

  /** If no layer holds two buffers, there are at most as many filed buffers as
      layers. */
  lemma {:induction false} FlattenSmall(layers: seq<seq<nat>>)
    requires forall i :: 0 <= i < |layers| ==> |layers[i]| <= 1
    ensures |Flatten(layers)| <= |layers|
    decreases |layers|
  {
    if |layers| > 0 {
      FlattenSmall(layers[1..]);
    }
  }

  /** Layers that hold nothing flatten to nothing. */
  lemma {:induction false} FlattenEmpty(layers: seq<seq<nat>>)
    requires forall i :: 0 <= i < |layers| ==> layers[i] == []
    ensures Flatten(layers) == []
    decreases |layers|
  {
    if |layers| > 0 {
      FlattenEmpty(layers[1..]);
    }
  }
}
