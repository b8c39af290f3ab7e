/** Insertion-ordered Python dictionaries, as association lists whose order is
    the dictionary's iteration order. */
module Dicts {

  /** The keys, in iteration order. */
  function KeysOf<K, V>(d: seq<(K, V)>): (ks: seq<K>)
    ensures |ks| == |d|
    ensures forall i :: 0 <= i < |d| ==> ks[i] == d[i].0
  {
    seq(|d|, i requires 0 <= i < |d| => d[i].0)
  }

  /** No key occurs twice, as in any Python dictionary. */
  ghost predicate UniqueKeys<K, V>(d: seq<(K, V)>) {
    forall i, j :: 0 <= i < j < |d| ==> d[i].0 != d[j].0
  }

  /** `d[k]` for a key that is present. */
  function Get<K(==), V>(d: seq<(K, V)>, k: K): (v: V)
    requires k in KeysOf(d)
    ensures exists i :: 0 <= i < |d| && d[i].0 == k && d[i].1 == v
    ensures UniqueKeys(d) ==> forall i :: 0 <= i < |d| && d[i].0 == k ==> d[i].1 == v
  {
    if d[0].0 == k then d[0].1
    else
      assert k in KeysOf(d[1..]) by {
        var i :| 0 <= i < |d| && KeysOf(d)[i] == k;
        assert KeysOf(d[1..])[i - 1] == k;
      }
      assert forall i :: 1 <= i < |d| ==> d[i] == d[1..][i - 1];
      Get(d[1..], k)
  }

  /** A dictionary with unique keys returns, for each of its keys, the value
      stored with it. */
  lemma GetEntry<K, V>(d: seq<(K, V)>, i: nat)
    requires UniqueKeys(d) && i < |d|
    ensures d[i].0 in KeysOf(d)
    ensures Get(d, d[i].0) == d[i].1
  {
    assert KeysOf(d)[i] == d[i].0;
  }
}
