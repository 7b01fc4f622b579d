/** Sorting, two-way merging and alternate-element selection over sequences.
    These stand for std::sort and the hand-written merges of the randomized
    sketch. */
module Merging {
  import opened Search

  function Id(x: int): int { x }

  /** The keys of `s`, in order. */
  function KeysOf<T>(s: seq<T>, key: T -> int): (ks: seq<int>)
    ensures |ks| == |s|
    ensures forall i :: 0 <= i < |s| ==> ks[i] == key(s[i])
  {
    seq(|s|, i requires 0 <= i < |s| => key(s[i]))
  }

  ghost predicate SortedBy<T>(s: seq<T>, key: T -> int) {
    Ascending(KeysOf(s, key))
  }

  /** Two-way merge by key. On equal keys the element of `b` is taken first,
      because the source compares `a < b` and takes from `b` otherwise. */
  function Merge<T>(a: seq<T>, b: seq<T>, key: T -> int): (m: seq<T>)
    ensures |m| == |a| + |b|
    ensures multiset(m) == multiset(a) + multiset(b)
    ensures SortedBy(a, key) && SortedBy(b, key) ==> SortedBy(m, key)
    ensures |m| > 0 ==> (|a| > 0 && m[0] == a[0]) || (|b| > 0 && m[0] == b[0])
    decreases |a| + |b|
  {
    if |a| == 0 then b
    else if |b| == 0 then a
    else
      assert a == [a[0]] + a[1..];
      assert b == [b[0]] + b[1..];
      if key(a[0]) < key(b[0]) then
        var rest := Merge(a[1..], b, key);
        MergeConsSorted(a, b, rest, key, true);
        [a[0]] + rest
      else
        var rest := Merge(a, b[1..], key);
        MergeConsSorted(a, b, rest, key, false);
        [b[0]] + rest
  }

  /** A suffix of a sorted sequence is sorted. */
  lemma SortedSuffix<T>(s: seq<T>, k: nat, key: T -> int)
    requires SortedBy(s, key) && k <= |s|
    ensures SortedBy(s[k..], key)
  {
    var ks := KeysOf(s, key);
    forall i, j | 0 <= i <= j < |s| - k
      ensures KeysOf(s[k..], key)[i] <= KeysOf(s[k..], key)[j]
    {
      assert ks[i + k] <= ks[j + k];
    }
  }

  /** One merge step keeps the output sorted: the taken head is no larger than
      the head of what remains to be merged. */
  lemma MergeConsSorted<T>(a: seq<T>, b: seq<T>, rest: seq<T>, key: T -> int, takeA: bool)
    requires |a| > 0 && |b| > 0
    requires takeA <==> key(a[0]) < key(b[0])
    requires var a' := if takeA then a[1..] else a;
             var b' := if takeA then b else b[1..];
             && (SortedBy(a', key) && SortedBy(b', key) ==> SortedBy(rest, key))
             && (|rest| > 0 ==> (|a'| > 0 && rest[0] == a'[0]) || (|b'| > 0 && rest[0] == b'[0]))
    ensures SortedBy(a, key) && SortedBy(b, key)
            ==> SortedBy([if takeA then a[0] else b[0]] + rest, key)
  {
    if SortedBy(a, key) && SortedBy(b, key) {
      var x := if takeA then a[0] else b[0];
      var a' := if takeA then a[1..] else a;
      var b' := if takeA then b else b[1..];
      SortedSuffix(a, 1, key);
      SortedSuffix(b, 1, key);
      assert SortedBy(rest, key);
      var ka := KeysOf(a, key);
      var kb := KeysOf(b, key);
      if |rest| > 0 {
        if takeA {
          if |a'| > 0 && rest[0] == a'[0] {
            assert ka[0] <= ka[1];
          }
        } else {
          if |b'| > 0 && rest[0] == b'[0] {
            assert kb[0] <= kb[1];
          }
        }
        assert key(x) <= key(rest[0]);
      }
      var s := [x] + rest;
      var ks := KeysOf(s, key);
      var kr := KeysOf(rest, key);
      forall i, j | 0 <= i <= j < |ks|
        ensures ks[i] <= ks[j]
      {
        if i == 0 && j > 0 {
          assert kr[0] <= kr[j - 1];
        } else if i > 0 {
          assert kr[i - 1] <= kr[j - 1];
        }
      }
    }
  }

  /** The elements of `s` at even positions, or at odd positions when `skipFirst`:
      what survives when every other element of `s` is kept. */
  function EveryOther<T>(s: seq<T>, skipFirst: bool): (r: seq<T>)
    ensures |r| == (|s| + (if skipFirst then 0 else 1)) / 2
  {
    if |s| == 0 then []
    else if skipFirst then EveryOther(s[1..], false)
    else [s[0]] + EveryOther(s[1..], true)
  }

  /** Survivor i is element 2i of `s`, or 2i + 1 when the first is skipped. */
  lemma {:induction false} EveryOtherAt<T>(s: seq<T>, skipFirst: bool)
    ensures forall i :: 0 <= i < |EveryOther(s, skipFirst)| ==>
              EveryOther(s, skipFirst)[i] == s[2 * i + (if skipFirst then 1 else 0)]
    decreases |s|
  {
    if |s| > 0 {
      EveryOtherAt(s[1..], !skipFirst);
    }
  }

  /** Keeping every other element of a sorted sequence leaves it sorted. */
  lemma {:induction false} EveryOtherSorted<T>(s: seq<T>, skipFirst: bool, key: T -> int)
    requires SortedBy(s, key)
    ensures SortedBy(EveryOther(s, skipFirst), key)
  {
    var r := EveryOther(s, skipFirst);
    var off := if skipFirst then 1 else 0;
    var ks := KeysOf(s, key);
    EveryOtherAt(s, skipFirst);
    forall i, j | 0 <= i <= j < |r|
      ensures KeysOf(r, key)[i] <= KeysOf(r, key)[j]
    {
      assert ks[2 * i + off] <= ks[2 * j + off];
    }
  }

  /** Appending one element to the scanned prefix adds it to the survivors exactly
      when its position has the kept parity. */
  lemma {:induction false} EveryOtherSnoc<T>(s: seq<T>, x: T, skipFirst: bool)
    ensures EveryOther(s + [x], skipFirst)
         == EveryOther(s, skipFirst) + (if (|s| % 2 == 0) != skipFirst then [x] else [])
    decreases |s|
  {
    if |s| == 0 {
      assert s + [x] == [x];
      assert [x][1..] == [];
    } else {
      assert (s + [x])[1..] == s[1..] + [x];
      assert (s + [x])[0] == s[0];
      EveryOtherSnoc(s[1..], x, !skipFirst);
    }
  }

  /** Insert `x` into an ascending sequence after every element not greater than it. */
  function InsertSorted(x: int, s: seq<int>): (r: seq<int>)
    requires Ascending(s)
    ensures Ascending(r)
    ensures multiset(r) == multiset(s) + multiset{x}
    ensures |r| == |s| + 1
    ensures |s| > 0 ==> r[0] == x || r[0] == s[0]
  {
    if |s| == 0 then [x]
    else if x <= s[0] then [x] + s
    else
      var rest := InsertSorted(x, s[1..]);
      assert s == [s[0]] + s[1..];
      [s[0]] + rest
  }

  /** Ascending permutation of `s`: the result std::sort leaves in a buffer. */
  function Sort(s: seq<int>): (r: seq<int>)
    ensures Ascending(r)
    ensures multiset(r) == multiset(s)
    ensures |r| == |s|
  {
    if |s| == 0 then []
    else
      assert s == [s[0]] + s[1..];
      InsertSorted(s[0], Sort(s[1..]))
  }

  /** The head of an ascending sequence is its least element. */
  lemma HeadIsLeast(s: seq<int>, x: int)
    requires Ascending(s) && x in s
    ensures s[0] <= x
  {
    var i :| 0 <= i < |s| && s[i] == x;
    assert s[0] <= s[i];
  }

  /** An ascending sequence of integers is determined by its multiset, so any
      sort agrees with `Sort`. */
  lemma {:induction false} SortedUnique(a: seq<int>, b: seq<int>)
    requires Ascending(a) && Ascending(b)
    requires multiset(a) == multiset(b)
    ensures a == b
    decreases |a|
  {
    if |a| == 0 {
      assert multiset(b) == multiset{};
    } else {
      assert a[0] in multiset(b);
      assert b[0] in multiset(a);
      HeadIsLeast(b, a[0]);
      HeadIsLeast(a, b[0]);
      assert a[0] == b[0];
      MultisetTail(a);
      MultisetTail(b);
      assert multiset(a[1..]) == multiset(b[1..]);
      SortedSuffixInt(a);
      SortedSuffixInt(b);
      SortedUnique(a[1..], b[1..]);
      ConsTail(a);
      ConsTail(b);
    }
  }

  lemma MultisetTail(s: seq<int>)
    requires |s| > 0
    ensures multiset(s[1..]) == multiset(s) - multiset{s[0]}
  {
    assert s == [s[0]] + s[1..];
  }

  lemma ConsTail(s: seq<int>)
    requires |s| > 0
    ensures s == [s[0]] + s[1..]
  {
  }

  lemma SortedSuffixInt(s: seq<int>)
    requires Ascending(s) && |s| > 0
    ensures Ascending(s[1..])
  {
    forall i, j | 0 <= i <= j < |s| - 1
      ensures s[1..][i] <= s[1..][j]
    {
      assert s[i + 1] <= s[j + 1];
    }
  }
}
