/** Removing the elements at a set of indices from a list, keeping the order
    of the rest: what the server does when it pops eliminated rocks, and what
    its list comprehensions do when they filter. */
module Sequences {

  /** The elements s[i], lo <= i < |s|, whose index is not in `gone`, in order. */
  function KeepFrom<T>(s: seq<T>, gone: set<int>, lo: nat): seq<T>
    requires lo <= |s|
    decreases |s| - lo
  {
    if lo == |s| then []
    else (if lo in gone then [] else [s[lo]]) + KeepFrom(s, gone, lo + 1)
  }

  /** The indices lo <= i < n that are not in `gone`, in increasing order. */
  function KeptIndices(n: nat, gone: set<int>, lo: nat): seq<nat>
    requires lo <= n
    decreases n - lo
  {
    if lo == n then []
    else (if lo in gone then [] else [lo]) + KeptIndices(n, gone, lo + 1)
  }

  /** `ix` lists, in strictly increasing order, exactly the indices in [lo, n)
      that are not in `gone`. */
  ghost predicate ListsKept(ix: seq<nat>, n: nat, gone: set<int>, lo: nat)
  {
    (forall k :: 0 <= k < |ix| ==> lo <= ix[k] < n && ix[k] !in gone) &&
    (forall k1, k2 :: 0 <= k1 < k2 < |ix| ==> ix[k1] < ix[k2]) &&
    (forall i :: lo <= i < n && i !in gone ==> i in ix)
  }

  /** Every index KeptIndices lists lies in [lo, n) and is not in `gone`. */
  lemma {:induction false} KeptIndicesInRange(n: nat, gone: set<int>, lo: nat)
    requires lo <= n
    ensures forall k :: 0 <= k < |KeptIndices(n, gone, lo)| ==>
      lo <= KeptIndices(n, gone, lo)[k] < n && KeptIndices(n, gone, lo)[k] !in gone
    decreases n - lo
  {
    if lo < n {
      KeptIndicesInRange(n, gone, lo + 1);
      var rest := KeptIndices(n, gone, lo + 1);
      var ix := KeptIndices(n, gone, lo);
      if lo !in gone {
        assert ix == [lo] + rest;
        forall k | 0 < k < |ix|
          ensures lo <= ix[k] < n && ix[k] !in gone
        {
          assert ix[k] == rest[k - 1];
        }
      }
    }
  }

  /** KeptIndices is strictly increasing. */
  lemma {:induction false} KeptIndicesIncreasing(n: nat, gone: set<int>, lo: nat)
    requires lo <= n
    ensures forall k1, k2 :: 0 <= k1 < k2 < |KeptIndices(n, gone, lo)| ==>
      KeptIndices(n, gone, lo)[k1] < KeptIndices(n, gone, lo)[k2]
    decreases n - lo
  {
    if lo < n {
      KeptIndicesIncreasing(n, gone, lo + 1);
      KeptIndicesInRange(n, gone, lo + 1);
      var rest := KeptIndices(n, gone, lo + 1);
      var ix := KeptIndices(n, gone, lo);
      if lo !in gone {
        assert ix == [lo] + rest;
        forall k1, k2 | 0 <= k1 < k2 < |ix|
          ensures ix[k1] < ix[k2]
        {
          assert ix[k2] == rest[k2 - 1];
          if k1 > 0 { assert ix[k1] == rest[k1 - 1]; }
        }
      }
    }
  }

  /** Every index in [lo, n) that is not in `gone` is listed by KeptIndices. */
  lemma {:induction false} KeptIndicesComplete(n: nat, gone: set<int>, lo: nat)
    requires lo <= n
    ensures forall i :: lo <= i < n && i !in gone ==> i in KeptIndices(n, gone, lo)
    decreases n - lo
  {
    if lo < n {
      KeptIndicesComplete(n, gone, lo + 1);
      var rest := KeptIndices(n, gone, lo + 1);
      var ix := KeptIndices(n, gone, lo);
      assert ix == (if lo in gone then [] else [lo]) + rest;
      forall i | lo <= i < n && i !in gone
        ensures i in ix
      {
        if i > lo {
          assert i in rest;
        }
      }
    }
  }

  /** The k-th kept element is the element at the k-th kept index. */
  lemma {:induction false} KeepFromAt<T>(s: seq<T>, gone: set<int>, lo: nat)
    requires lo <= |s|
    ensures |KeepFrom(s, gone, lo)| == |KeptIndices(|s|, gone, lo)|
    ensures forall k :: 0 <= k < |KeptIndices(|s|, gone, lo)| ==> KeptIndices(|s|, gone, lo)[k] < |s|
    ensures forall k :: 0 <= k < |KeptIndices(|s|, gone, lo)| ==>
      KeepFrom(s, gone, lo)[k] == s[KeptIndices(|s|, gone, lo)[k]]
    decreases |s| - lo
  {
    KeptIndicesInRange(|s|, gone, lo);
    if lo < |s| {
      KeepFromAt(s, gone, lo + 1);
      var rest := KeptIndices(|s|, gone, lo + 1);
      var kept := KeepFrom(s, gone, lo + 1);
      var ix := KeptIndices(|s|, gone, lo);
      var r := KeepFrom(s, gone, lo);
      if lo in gone {
        assert ix == rest && r == kept;
      } else {
        assert ix == [lo] + rest && r == [s[lo]] + kept;
        forall k | 0 <= k < |ix|
          ensures r[k] == s[ix[k]]
        {
          if k > 0 {
            assert r[k] == kept[k - 1] && ix[k] == rest[k - 1];
          }
        }
      }
    }
  }

  /** KeepFrom removes exactly the indices in `gone` and keeps the others in
      their original order: its k-th element is s[ix[k]] for the increasing
      list ix of surviving indices. */
  lemma KeepFromSpec<T>(s: seq<T>, gone: set<int>, lo: nat)
    requires lo <= |s|
    ensures var ix := KeptIndices(|s|, gone, lo);
      ListsKept(ix, |s|, gone, lo) &&
      |KeepFrom(s, gone, lo)| == |ix| &&
      forall k :: 0 <= k < |ix| ==> KeepFrom(s, gone, lo)[k] == s[ix[k]]
  {
    KeptIndicesInRange(|s|, gone, lo);
    KeptIndicesIncreasing(|s|, gone, lo);
    KeptIndicesComplete(|s|, gone, lo);
    KeepFromAt(s, gone, lo);
  }

  /** Every kept element comes from the list, and every element at an index
      not in `gone` is kept. */
  lemma KeepFromMembers<T>(s: seq<T>, gone: set<int>)
    ensures forall v :: v in KeepFrom(s, gone, 0) ==> v in s
    ensures forall i :: 0 <= i < |s| && i !in gone ==> s[i] in KeepFrom(s, gone, 0)
  {
    KeepFromSpec(s, gone, 0);
    var r := KeepFrom(s, gone, 0);
    var ix := KeptIndices(|s|, gone, 0);
    forall i | 0 <= i < |s| && i !in gone
      ensures s[i] in r
    {
      var k :| 0 <= k < |ix| && ix[k] == i;
      assert r[k] == s[i];
    }
  }
}
