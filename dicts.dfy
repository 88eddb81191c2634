/** Python dictionaries with string keys, which keep their items in insertion order, as the sequence
    of those items. A dictionary never holds a key twice (DistinctKeys); assigning
    to a present key replaces its value where it stands, and assigning to a new key
    appends the item. */
module Dicts {
  import opened Basics

  predicate HasKey<V>(d: seq<(string, V)>, k: string)
  {
    exists i :: 0 <= i < |d| && d[i].0 == k
  }

  predicate DistinctKeys<V>(d: seq<(string, V)>)
  {
    forall i, j :: 0 <= i < j < |d| ==> d[i].0 != d[j].0
  }

  /** Below a first item with another key, the key is present in the whole iff it
      is present in the rest. */
  lemma HasKeyTail<V>(d: seq<(string, V)>, k: string)
    requires d != [] && d[0].0 != k
    ensures HasKey(d, k) <==> HasKey(d[1..], k)
  {
    if HasKey(d, k) {
      var i :| 0 <= i < |d| && d[i].0 == k;
      assert d[1..][i - 1] == d[i];
    }
    if HasKey(d[1..], k) {
      var i :| 0 <= i < |d[1..]| && d[1..][i].0 == k;
      assert d[i + 1] == d[1..][i];
    }
  }

  /** `d.get(k)`: the value stored under `k`, None when `k` is absent. */
  function Get<V>(d: seq<(string, V)>, k: string): (r: Option<V>)
    ensures r.Some? <==> HasKey(d, k)
    ensures r.Some? ==> exists i :: 0 <= i < |d| && d[i] == (k, r.value)
  {
    if d == [] then None
    else if d[0].0 == k then Some(d[0].1)
    else
      HasKeyTail(d, k);
      var r := Get(d[1..], k);
      assert r.Some? ==> exists i :: 0 <= i < |d| && d[i] == (k, r.value) by {
        if r.Some? {
          var i :| 0 <= i < |d[1..]| && d[1..][i] == (k, r.value);
          assert d[i + 1] == d[1..][i];
        }
      }
      r
  }

  /** `d[k] = v`: afterwards `k` reads `v` and every other key reads what it read before. */
  function Put<V>(d: seq<(string, V)>, k: string, v: V): (r: seq<(string, V)>)
    ensures Get(r, k) == Some(v)
    ensures forall k' :: k' != k ==> Get(r, k') == Get(d, k')
  {
    if d == [] then [(k, v)]
    else if d[0].0 == k then [(k, v)] + d[1..]
    else [d[0]] + Put(d[1..], k, v)
  }

  /** Where the item lands: in the place of a present key, which keeps the key
      order, or at the end. */
  lemma {:induction false} PutPlacement<V>(d: seq<(string, V)>, k: string, v: V)
    ensures HasKey(d, k) ==>
              (|Put(d, k, v)| == |d| && forall i :: 0 <= i < |d| ==> Put(d, k, v)[i].0 == d[i].0)
    ensures !HasKey(d, k) ==> Put(d, k, v) == d + [(k, v)]
  {
    if d != [] && d[0].0 != k {
      HasKeyTail(d, k);
      PutPlacement(d[1..], k, v);
      var r := Put(d, k, v);
      assert r == [d[0]] + Put(d[1..], k, v);
      if HasKey(d, k) {
        forall i | 0 < i < |d| ensures r[i].0 == d[i].0 {
          assert r[i] == Put(d[1..], k, v)[i - 1] && d[i] == d[1..][i - 1];
        }
      }
    }
  }

  /** Assignment never makes a dictionary hold a key twice. */
  lemma PutKeepsKeysDistinct<V>(d: seq<(string, V)>, k: string, v: V)
    requires DistinctKeys(d)
    ensures DistinctKeys(Put(d, k, v))
  {
    var r := Put(d, k, v);
    PutPlacement(d, k, v);
    if HasKey(d, k) {
      forall i, j | 0 <= i < j < |r| ensures r[i].0 != r[j].0 {
        assert r[i].0 == d[i].0 && r[j].0 == d[j].0;
      }
    } else {
      forall i, j | 0 <= i < j < |r| ensures r[i].0 != r[j].0 {
        assert r[i] == d[i];
        if j < |d| {
          assert r[j] == d[j];
        } else {
          assert r[j].0 == k;
        }
      }
    }
  }
}
