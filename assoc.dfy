/** Insertion-ordered association lists: the shape of a Python dict as the
    codec uses it (lookup by key, assignment that keeps the position of an
    existing key and appends a new one at the end). */
module Assoc {
  import opened Wrappers

  /** The names of the members, as a set. */
  function Names<K, V>(es: seq<(K, V)>): set<K>
  {
    set i | 0 <= i < |es| :: es[i].0
  }

  /** No name occurs twice, as in a Python dict. */
  predicate Distinct<K(==), V>(es: seq<(K, V)>)
  {
    forall i, j :: 0 <= i < j < |es| ==> es[i].0 != es[j].0
  }

  /** Position of the first member named `k`, or `|es|` when there is none. */
  function Find<K(==), V>(es: seq<(K, V)>, k: K): (i: nat)
    ensures i <= |es|
    ensures i < |es| ==> es[i].0 == k
    ensures forall j :: 0 <= j < i ==> es[j].0 != k
    ensures i == |es| <==> k !in Names(es)
    decreases |es|
  {
    if |es| == 0 then 0
    else if es[0].0 == k then 0
    else
      assert forall j :: 1 <= j < |es| ==> es[j].0 == es[1..][j - 1].0;
      assert Names(es) == {es[0].0} + Names(es[1..]) by {
        forall x | x in Names(es) ensures x in {es[0].0} + Names(es[1..]) {
          var j :| 0 <= j < |es| && es[j].0 == x;
          if j > 0 { assert es[1..][j - 1].0 == x; }
        }
      }
      1 + Find(es[1..], k)
  }

  /** The first position holding `k` is determined by those two facts. */
  lemma FindIs<K, V>(es: seq<(K, V)>, k: K, i: nat)
    requires i <= |es| && (i < |es| ==> es[i].0 == k)
    requires forall j :: 0 <= j < i ==> es[j].0 != k
    ensures Find(es, k) == i
  {
  }

  /** `d[k]` when `k in d`. */
  function Get<K(==), V>(es: seq<(K, V)>, k: K): (r: Option<V>)
    ensures r.Some? <==> k in Names(es)
  {
    var i := Find(es, k);
    if i < |es| then Some(es[i].1) else None
  }

  /** `d[k] = v`: an existing member keeps its position, a new one goes last. */
  function Assign<K(==), V>(es: seq<(K, V)>, k: K, v: V): (r: seq<(K, V)>)
    ensures Get(r, k) == Some(v)
    ensures |r| > 0
  {
    var i := Find(es, k);
    if i < |es| then
      FindIs(es[i := (k, v)], k, i);
      es[i := (k, v)]
    else
      FindIs(es + [(k, v)], k, |es|);
      es + [(k, v)]
  }

  /** Assigning `k` leaves every other key as it was. */
  lemma AssignOthers<K(!new), V>(es: seq<(K, V)>, k: K, v: V)
    ensures forall k' :: k' != k ==> Get(Assign(es, k, v), k') == Get(es, k')
  {
    var r := Assign(es, k, v);
    forall k' | k' != k ensures Get(r, k') == Get(es, k') {
      if Find(es, k) < |es| {
        FindIs(r, k', Find(es, k'));
      } else {
        FindIs(r, k', if Find(es, k') < |es| then Find(es, k') else |r|);
      }
    }
  }

  /** Assigning `k` adds `k` to the names, keeps them distinct, and leaves
      every other member as it was. */
  lemma AssignShape<K, V>(es: seq<(K, V)>, k: K, v: V)
    ensures Names(Assign(es, k, v)) == Names(es) + {k}
    ensures Distinct(es) ==> Distinct(Assign(es, k, v))
    ensures forall i :: 0 <= i < |Assign(es, k, v)| ==> Assign(es, k, v)[i] == (k, v) || Assign(es, k, v)[i] in es
  {
    var r := Assign(es, k, v);
    var i := Find(es, k);
    if i < |es| {
      forall x | x in Names(es) ensures x in Names(r) {
        var j :| 0 <= j < |es| && es[j].0 == x;
        assert r[j].0 == x;
      }
    } else {
      assert r[|es|].0 == k;
      forall x | x in Names(es) ensures x in Names(r) {
        var j :| 0 <= j < |es| && es[j].0 == x;
        assert r[j].0 == x;
      }
    }
  }

  /** In a dict without repeated names, the member at position `i` is what its name finds. */
  lemma FindDistinct<K, V>(es: seq<(K, V)>, i: nat)
    requires Distinct(es) && i < |es|
    ensures Find(es, es[i].0) == i
    ensures Get(es, es[i].0) == Some(es[i].1)
  {
    FindIs(es, es[i].0, i);
  }

  /** Assigning a key twice leaves what the second assignment wrote. */
  lemma AssignTwice<K, V>(es: seq<(K, V)>, k: K, v: V, w: V)
    ensures Assign(Assign(es, k, v), k, w) == Assign(es, k, w)
  {
    var i := Find(es, k);
    var r := Assign(es, k, v);
    if i < |es| { FindIs(r, k, i); } else { FindIs(r, k, |es|); }
  }

  /** Assigning a new key appends it. */
  lemma AssignFresh<K, V>(es: seq<(K, V)>, k: K, v: V)
    requires k !in Names(es)
    ensures Assign(es, k, v) == es + [(k, v)]
  {
  }
}
