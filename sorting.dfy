/**
 * Sorting of row positions by a key, as pandas' `sort_values` does it for the
 * issuer rows (by issuer and time) and for one row's contributions (by
 * magnitude, descending). The result is a permutation of the positions, so
 * nothing is lost or repeated, and the keys read along it never go down.
 * The sort is stable: positions with equal keys keep their original order,
 * as pandas' lexicographic sort by several columns does. For a one-column
 * sort pandas promises no tie order, so its callers need not rely on this.
 */
module Sorting {

  predicate Distinct<T(==)>(s: seq<T>) {
    forall a, b :: 0 <= a < b < |s| ==> s[a] != s[b]
  }

  /** `order` lists every position 0..n-1 exactly once. */
  predicate IsPermutation(order: seq<nat>, n: nat) {
    && |order| == n
    && (forall k :: 0 <= k < n ==> order[k] < n)
    && Distinct(order)
    && (forall j :: 0 <= j < n ==> j in order)
  }

  /** `le` is total and transitive on the keys that occur. */
  predicate TotalPreorderOn<K>(keys: seq<K>, le: (K, K) -> bool) {
    && (forall a, b :: 0 <= a < |keys| && 0 <= b < |keys| ==> le(keys[a], keys[b]) || le(keys[b], keys[a]))
    && (forall a, b, c ::
          0 <= a < |keys| && 0 <= b < |keys| && 0 <= c < |keys| && le(keys[a], keys[b]) && le(keys[b], keys[c])
          ==> le(keys[a], keys[c]))
  }

  predicate InRange(order: seq<nat>, n: nat) {
    forall k :: 0 <= k < |order| ==> order[k] < n
  }

  /** Reading the keys along `order` never goes down. */
  predicate SortedBy<K>(keys: seq<K>, le: (K, K) -> bool, order: seq<nat>)
    requires InRange(order, |keys|)
  {
    forall a, b :: 0 <= a < b < |order| ==> le(keys[order[a]], keys[order[b]])
  }

  /** Two positions whose keys tie are read in their original order. */
  predicate StableBy<K>(keys: seq<K>, le: (K, K) -> bool, order: seq<nat>)
    requires InRange(order, |keys|)
  {
    forall a, b :: 0 <= a < b < |order| && le(keys[order[b]], keys[order[a]]) ==> order[a] < order[b]
  }

  /** Inserting position `i` at `p` keeps the order sorted when it fits between its neighbours. */
  lemma {:induction false} InsertKeepsSorted<K>(keys: seq<K>, le: (K, K) -> bool, order: seq<nat>, p: nat, i: nat)
    requires i < |keys| && InRange(order, |keys|) && p <= |order|
    requires SortedBy(keys, le, order)
    requires forall q :: 0 <= q < p ==> le(keys[order[q]], keys[i])
    requires forall q :: p <= q < |order| ==> le(keys[i], keys[order[q]])
    ensures InRange(order[..p] + [i] + order[p..], |keys|)
    ensures SortedBy(keys, le, order[..p] + [i] + order[p..])
  {
    var next := order[..p] + [i] + order[p..];
    assert forall k :: 0 <= k < p ==> next[k] == order[k];
    assert next[p] == i;
    assert forall k :: p < k < |next| ==> next[k] == order[k - 1];
  }

  /** Inserting the fresh position `i` into a permutation of 0..i-1 gives a permutation of 0..i. */
  lemma {:induction false} InsertKeepsPermutation(order: seq<nat>, p: nat, i: nat)
    requires IsPermutation(order, i) && p <= i
    ensures IsPermutation(order[..p] + [i] + order[p..], i + 1)
  {
    var next := order[..p] + [i] + order[p..];
    assert forall k :: 0 <= k < p ==> next[k] == order[k];
    assert next[p] == i;
    assert forall k :: p < k < i + 1 ==> next[k] == order[k - 1];
    forall j | 0 <= j < i + 1
      ensures j in next
    {
      if j < i {
        assert j in order;
        var q :| 0 <= q < i && order[q] == j;
        if q < p { assert next[q] == j; } else { assert next[q + 1] == j; }
      } else {
        assert next[p] == j;
      }
    }
  }

  /**
   * Inserting the position `i`, larger than all in `order`, before every key
   * strictly after its own keeps ties in their original order.
   */
  lemma InsertKeepsStable<K>(keys: seq<K>, le: (K, K) -> bool, order: seq<nat>, p: nat, i: nat)
    requires i < |keys| && InRange(order, |keys|) && p <= |order|
    requires forall q :: 0 <= q < |order| ==> order[q] < i
    requires StableBy(keys, le, order)
    requires forall q :: p <= q < |order| ==> !le(keys[order[q]], keys[i])
    ensures InRange(order[..p] + [i] + order[p..], |keys|)
    ensures StableBy(keys, le, order[..p] + [i] + order[p..])
  {
    var next := order[..p] + [i] + order[p..];
    assert forall k :: 0 <= k < p ==> next[k] == order[k];
    assert next[p] == i;
    assert forall k :: p < k < |next| ==> next[k] == order[k - 1];
  }

  /** The first place in a sorted `order` whose key is strictly after key `i`. */
  method InsertionPoint<K>(keys: seq<K>, le: (K, K) -> bool, order: seq<nat>, i: nat) returns (p: nat)
    requires TotalPreorderOn(keys, le)
    requires i < |keys| && InRange(order, |keys|) && SortedBy(keys, le, order)
    ensures p <= |order|
    ensures forall q :: 0 <= q < p ==> le(keys[order[q]], keys[i])
    ensures forall q :: p <= q < |order| ==> le(keys[i], keys[order[q]])
    ensures forall q :: p <= q < |order| ==> !le(keys[order[q]], keys[i])
  {
    p := 0;
    while p < |order| && le(keys[order[p]], keys[i])
      invariant 0 <= p <= |order|
      invariant forall q :: 0 <= q < p ==> le(keys[order[q]], keys[i])
    {
      p := p + 1;
    }
    if p < |order| {
      assert le(keys[i], keys[order[p]]);
      forall q | p <= q < |order|
        ensures le(keys[i], keys[order[q]])
        ensures !le(keys[order[q]], keys[i])
      {
        if q > p {
          assert le(keys[order[p]], keys[order[q]]);
        }
      }
    }
  }

  /** Insertion sort of the positions of `keys`; each new position goes after every earlier one it does not precede. */
  method SortIndices<K>(keys: seq<K>, le: (K, K) -> bool) returns (order: seq<nat>)
    requires TotalPreorderOn(keys, le)
    ensures IsPermutation(order, |keys|)
    ensures SortedBy(keys, le, order)
    ensures StableBy(keys, le, order)
  {
    order := [];
    var i := 0;
    while i < |keys|
      invariant 0 <= i <= |keys|
      invariant IsPermutation(order, i)
      invariant InRange(order, |keys|)
      invariant SortedBy(keys, le, order)
      invariant StableBy(keys, le, order)
    {
      var p := InsertionPoint(keys, le, order, i);
      InsertKeepsSorted(keys, le, order, p, i);
      InsertKeepsPermutation(order, p, i);
      InsertKeepsStable(keys, le, order, p, i);
      order := order[..p] + [i] + order[p..];
      i := i + 1;
    }
  }
}
