/**
 * The visiting order of the search: sorted(connectedness, key=connectedness.get), a
 * stable ascending sort of the bridges by their connectedness score.
 */
module Ordering {

  /**
   * Entry p goes before entry q: a smaller score, or an equal score and an earlier
   * position in the dictionary (Python's sort is stable).
   */
  predicate Ahead(scores: seq<int>, p: nat, q: nat)
    requires p < |scores| && q < |scores|
  {
    scores[p] < scores[q] || (scores[p] == scores[q] && p < q)
  }

  /** `perm` lists positions of `scores` strictly in Ahead order. */
  predicate SortedPositions(scores: seq<int>, perm: seq<nat>) {
    && (forall i :: 0 <= i < |perm| ==> perm[i] < |scores|)
    && (forall i, j :: 0 <= i < j < |perm| ==> Ahead(scores, perm[i], perm[j]))
  }

  /**
   * The positions 0 .. |scores|-1 of a dictionary's entries, in the order Python's
   * stable sort by score puts them: a permutation, ascending by score, ties kept in
   * dictionary order.
   */
  method StableOrder(scores: seq<int>) returns (perm: seq<nat>)
    ensures |perm| == |scores|
    ensures forall p :: 0 <= p < |scores| ==> p in perm
    ensures SortedPositions(scores, perm)
  {
    perm := [];
    for p := 0 to |scores|
      invariant |perm| == p
      invariant forall i :: 0 <= i < |perm| ==> perm[i] < p
      invariant forall q :: 0 <= q < p ==> q in perm
      invariant SortedPositions(scores, perm)
    {
      var k := InsertionPoint(scores, perm, p);
      InsertSorted(scores, perm, p, k);
      perm := perm[..k] + [p] + perm[k..];
    }
  }

  /** The insertion point for position p: after every entry whose score does not exceed scores[p]. */
  method InsertionPoint(scores: seq<int>, perm: seq<nat>, p: nat) returns (k: nat)
    requires p < |scores| && SortedPositions(scores, perm)
    ensures k <= |perm|
    ensures forall i :: 0 <= i < k ==> scores[perm[i]] <= scores[p]
    ensures forall i :: k <= i < |perm| ==> scores[perm[i]] > scores[p]
  {
    k := 0;
    while k < |perm| && scores[perm[k]] <= scores[p]
      invariant 0 <= k <= |perm|
      invariant forall i :: 0 <= i < k ==> scores[perm[i]] <= scores[p]
    {
      k := k + 1;
    }
    forall i | k < i < |perm|
      ensures scores[perm[i]] > scores[p]
    {
      assert Ahead(scores, perm[k], perm[i]);
    }
  }

  /**
   * Inserting a position p, larger than every listed one, at its insertion point keeps
   * the list sorted and adds exactly p.
   */
  lemma InsertSorted(scores: seq<int>, perm: seq<nat>, p: nat, k: nat)
    requires p < |scores| && SortedPositions(scores, perm) && k <= |perm|
    requires forall i :: 0 <= i < |perm| ==> perm[i] < p
    requires forall i :: 0 <= i < k ==> scores[perm[i]] <= scores[p]
    requires forall i :: k <= i < |perm| ==> scores[perm[i]] > scores[p]
    ensures SortedPositions(scores, perm[..k] + [p] + perm[k..])
    ensures forall x :: x in perm[..k] + [p] + perm[k..] <==> x in perm || x == p
    ensures forall i :: 0 <= i < |perm| + 1 ==> (perm[..k] + [p] + perm[k..])[i] <= p
  {
    var next := perm[..k] + [p] + perm[k..];
    assert perm == perm[..k] + perm[k..];
    assert forall i :: 0 <= i < |next| ==>
      next[i] == (if i < k then perm[i] else if i == k then p else perm[i - 1]);
  }

  /** The keys of a dictionary listed in the order of a permutation of its positions. */
  function Arrange(keys: seq<nat>, perm: seq<nat>): (order: seq<nat>)
    requires forall i :: 0 <= i < |perm| ==> perm[i] < |keys|
    ensures |order| == |perm|
  {
    seq(|perm|, i requires 0 <= i < |perm| => keys[perm[i]])
  }

  /** A permutation of a dictionary's positions lists every key once. */
  lemma ArrangeIsPermutation(keys: seq<nat>, perm: seq<nat>)
    requires |perm| == |keys|
    requires forall p :: 0 <= p < |keys| ==> p in perm
    requires forall i :: 0 <= i < |perm| ==> perm[i] < |keys|
    requires forall i, j :: 0 <= i < j < |perm| ==> perm[i] != perm[j]
    requires forall i, j :: 0 <= i < j < |keys| ==> keys[i] != keys[j]
    ensures forall x :: x in Arrange(keys, perm) <==> x in keys
    ensures forall i, j :: 0 <= i < j < |perm| ==> Arrange(keys, perm)[i] != Arrange(keys, perm)[j]
  {
    var order := Arrange(keys, perm);
    forall x | x in keys
      ensures x in order
    {
      var p :| 0 <= p < |keys| && keys[p] == x;
      assert p in perm;
      var i :| 0 <= i < |perm| && perm[i] == p;
      assert order[i] == x;
    }
  }
}
