/** Python dictionaries as the scripts use them: insertion-ordered lists of
    key/value pairs with distinct keys. Assigning to a present key replaces
    its value in place; assigning to a new key appends the pair. */
module Assoc {
  import opened PyText

  type Dict<K, V> = seq<(K, V)>

  function Keys<K, V>(d: Dict<K, V>): set<K> {
    set i | 0 <= i < |d| :: d[i].0
  }

  lemma {:induction false} KeysCons<K, V>(d: Dict<K, V>)
    requires |d| > 0
    ensures Keys(d) == {d[0].0} + Keys(d[1..])
  {
    forall k | k in Keys(d) ensures k == d[0].0 || k in Keys(d[1..]) {
      var i :| 0 <= i < |d| && d[i].0 == k;
      if i > 0 { assert d[1..][i - 1].0 == k; }
    }
  }

  /** The keys in insertion order. */
  function KeyList<K, V>(d: Dict<K, V>): (ks: seq<K>)
    ensures |ks| == |d|
    ensures forall i :: 0 <= i < |d| ==> ks[i] == d[i].0
  {
    seq(|d|, i requires 0 <= i < |d| => d[i].0)
  }

  predicate DistinctKeys<K(==), V>(d: Dict<K, V>) {
    forall i, j :: 0 <= i < j < |d| ==> d[i].0 != d[j].0
  }

  /** `d[k]` for a present key. */
  function Get<K(==), V>(d: Dict<K, V>, k: K): (v: V)
    requires k in Keys(d)
    ensures exists i :: 0 <= i < |d| && d[i] == (k, v)
    decreases |d|
  {
    if d[0].0 == k then d[0].1
    else
      assert k in Keys(d[1..]) by {
        var i :| 0 <= i < |d| && d[i].0 == k;
        assert d[1..][i - 1].0 == k;
      }
      Get(d[1..], k)
  }

  lemma {:induction false} GetAt<K, V>(d: Dict<K, V>, i: nat)
    requires DistinctKeys(d) && i < |d|
    ensures Get(d, d[i].0) == d[i].1
  {
    var v := Get(d, d[i].0);
    var j :| 0 <= j < |d| && d[j] == (d[i].0, v);
    if j != i {
      assert d[i].0 == d[j].0;
    }
  }

  /** `d[k] = v` (on a dictionary, whose keys are distinct, only one pair
      can carry `k`). */
  function Put<K(==), V>(d: Dict<K, V>, k: K, v: V): (r: Dict<K, V>)
    ensures k !in Keys(d) ==> r == d + [(k, v)]
    ensures k in Keys(d) ==> |r| == |d|
    ensures forall i :: 0 <= i < |d| ==> i < |r| && r[i] == (if d[i].0 == k then (k, v) else d[i])
  {
    if k in Keys(d) then seq(|d|, i requires 0 <= i < |d| => if d[i].0 == k then (k, v) else d[i])
    else d + [(k, v)]
  }

  /** Assignment adds exactly the assigned key, keeps keys distinct, and
      reading the key back gives the assigned value. */
  lemma {:induction false} PutGet<K, V>(d: Dict<K, V>, k: K, v: V)
    requires DistinctKeys(d)
    ensures Keys(Put(d, k, v)) == Keys(d) + {k}
    ensures DistinctKeys(Put(d, k, v)) && Get(Put(d, k, v), k) == v
  {
    var r := Put(d, k, v);
    if k in Keys(d) {
      var i :| 0 <= i < |d| && d[i].0 == k;
      forall a, b | 0 <= a < b < |r| ensures r[a].0 != r[b].0 {
        assert r[a].0 == d[a].0 && r[b].0 == d[b].0;
      }
      forall x | x in Keys(r) ensures x in Keys(d) {
        var j :| 0 <= j < |r| && r[j].0 == x;
        assert d[j].0 == x;
      }
      GetAt(r, i);
    } else {
      assert r[|d|] == (k, v);
      GetAt(r, |d|);
    }
  }

  /** Assigning a key leaves every other key's value alone. */
  lemma {:induction false} PutOther<K, V>(d: Dict<K, V>, k: K, v: V, k': K)
    requires DistinctKeys(d) && k' in Keys(d) && k' != k
    ensures k' in Keys(Put(d, k, v)) && Get(Put(d, k, v), k') == Get(d, k')
  {
    var i :| 0 <= i < |d| && d[i].0 == k';
    PutGet(d, k, v);
    GetAt(d, i);
    GetAt(Put(d, k, v), i);
  }

  /** Rewrites every value through `f`, which sees the key as well; keys and
      their order are unchanged. */
  function MapValues<K, V>(d: Dict<K, V>, f: (K, V) -> V): (r: Dict<K, V>)
    ensures |r| == |d|
    ensures forall i :: 0 <= i < |d| ==> r[i] == (d[i].0, f(d[i].0, d[i].1))
  {
    seq(|d|, i requires 0 <= i < |d| => (d[i].0, f(d[i].0, d[i].1)))
  }

  lemma {:induction false} MapValuesKeys<K, V>(d: Dict<K, V>, f: (K, V) -> V)
    ensures Keys(MapValues(d, f)) == Keys(d)
    ensures DistinctKeys(d) ==> DistinctKeys(MapValues(d, f))
  {
    var r := MapValues(d, f);
    forall k | k in Keys(r) ensures k in Keys(d) {
      var i :| 0 <= i < |r| && r[i].0 == k;
      assert d[i].0 == k;
    }
  }

  lemma {:induction false} MapValuesGet<K, V>(d: Dict<K, V>, f: (K, V) -> V, k: K)
    requires DistinctKeys(d) && k in Keys(d)
    ensures k in Keys(MapValues(d, f)) && Get(MapValues(d, f), k) == f(k, Get(d, k))
  {
    MapValuesKeys(d, f);
    var i :| 0 <= i < |d| && d[i].0 == k;
    GetAt(d, i);
    GetAt(MapValues(d, f), i);
  }

  /** `d.get(k)`: `None` for a missing key. */
  function Lookup<K(==), V>(d: Dict<K, V>, k: K): (r: Option<V>)
    ensures r.Some? <==> k in Keys(d)
    ensures r.Some? ==> exists i :: 0 <= i < |d| && d[i] == (k, r.value)
  {
    if k in Keys(d) then Some(Get(d, k)) else None
  }

  /** Evaluating a dictionary display: entries are assigned left to right,
      so a repeated key keeps its first position and takes its last value. */
  function DictDisplay<K(==), V>(entries: seq<(K, V)>): (d: Dict<K, V>)
    ensures DistinctKeys(d)
    ensures Keys(d) == set i | 0 <= i < |entries| :: entries[i].0
    decreases |entries|
  {
    if |entries| == 0 then []
    else
      var front := entries[..|entries| - 1];
      var last := entries[|entries| - 1];
      var d := DictDisplay(front);
      PutGet(d, last.0, last.1);
      assert entries == front + [last];
      Put(d, last.0, last.1)
  }

  /** A display without repeated keys evaluates to its own entries. */
  lemma {:induction false} DisplayFresh<K, V>(entries: seq<(K, V)>)
    requires forall i, j :: 0 <= i < j < |entries| ==> entries[i].0 != entries[j].0
    ensures DictDisplay(entries) == entries
    decreases |entries|
  {
    if |entries| > 0 {
      var front := entries[..|entries| - 1];
      DisplayFresh(front);
      var last := entries[|entries| - 1];
      assert last.0 !in Keys(DictDisplay(front));
    }
  }

  /** In a display, a key maps to the value of its last entry. */
  lemma {:induction false} DisplayGet<K, V>(entries: seq<(K, V)>, i: nat)
    requires i < |entries|
    requires forall j :: i < j < |entries| ==> entries[j].0 != entries[i].0
    ensures entries[i].0 in Keys(DictDisplay(entries))
    ensures Get(DictDisplay(entries), entries[i].0) == entries[i].1
    decreases |entries|
  {
    var front := entries[..|entries| - 1];
    var last := entries[|entries| - 1];
    var d := DictDisplay(front);
    assert entries == front + [last];
    PutGet(d, last.0, last.1);
    if i < |entries| - 1 {
      DisplayGet(front, i);
      PutOther(d, last.0, last.1, entries[i].0);
    }
  }
}
