/** Python's `list.sort(key=..., reverse=...)` and `sorted(...)`: a stable sort by a key.
    Python documents that `reverse=True` keeps equal keys in their original order, so
    both directions are stable. Modelled as insertion sort: each element is placed
    before the first element of the already-sorted rest that it may precede. */
module StableSort {

  /** Whether an element with key `a` may stand before one with key `b`. */
  predicate Precedes(a: real, b: real, descending: bool)
  {
    if descending then a >= b else a <= b
  }

  ghost predicate SortedBy<T>(s: seq<T>, key: T -> real, descending: bool)
  {
    forall i, j :: 0 <= i < j < |s| ==> Precedes(key(s[i]), key(s[j]), descending)
  }

  /** The elements of `s` whose key is `k`, in their order in `s`. */
  function WithKey<T>(s: seq<T>, key: T -> real, k: real): seq<T>
  {
    if s == [] then []
    else (if key(s[0]) == k then [s[0]] else []) + WithKey(s[1..], key, k)
  }

  /** Places `x` into the sorted `s`, before every element whose key ties with its own. */
  function Insert<T>(x: T, s: seq<T>, key: T -> real, descending: bool): (r: seq<T>)
    ensures multiset(r) == multiset([x] + s)
    ensures |r| == |s| + 1
  {
    if s == [] || Precedes(key(x), key(s[0]), descending) then [x] + s
    else
      var rest := Insert(x, s[1..], key, descending);
      assert s == [s[0]] + s[1..];
      [s[0]] + rest
  }

  /** The stable sort of `s` by `key`, highest key first when `descending`. */
  function SortBy<T>(s: seq<T>, key: T -> real, descending: bool): (r: seq<T>)
    ensures multiset(r) == multiset(s)
    ensures |r| == |s|
    ensures SortedBy(r, key, descending)
  {
    if s == [] then []
    else
      var rest := SortBy(s[1..], key, descending);
      InsertKeepsSorted(s[0], rest, key, descending);
      assert s == [s[0]] + s[1..];
      Insert(s[0], rest, key, descending)
  }

  lemma {:induction false} InsertKeepsSorted<T>(x: T, s: seq<T>, key: T -> real, descending: bool)
    requires SortedBy(s, key, descending)
    ensures SortedBy(Insert(x, s, key, descending), key, descending)
  {
    if s == [] || Precedes(key(x), key(s[0]), descending) {
      forall y | y in s ensures Precedes(key(x), key(y), descending) {
        var m :| 0 <= m < |s| && s[m] == y;
        if m > 0 {
          assert Precedes(key(s[0]), key(s[m]), descending);
        }
      }
      ConsSorted(x, s, key, descending);
    } else {
      var t := Insert(x, s[1..], key, descending);
      TailSorted(s, key, descending);
      InsertKeepsSorted(x, s[1..], key, descending);
      forall y | y in t ensures Precedes(key(s[0]), key(y), descending) {
        assert y in multiset([x] + s[1..]);
        if y != x {
          assert y in s[1..];
          var j :| 0 <= j < |s[1..]| && s[1..][j] == y;
          assert s[j + 1] == y;
        }
      }
      ConsSorted(s[0], t, key, descending);
    }
  }

  /** The rest of a sorted sequence is sorted. */
  lemma TailSorted<T>(s: seq<T>, key: T -> real, descending: bool)
    requires s != [] && SortedBy(s, key, descending)
    ensures SortedBy(s[1..], key, descending)
  {
    forall i, j | 0 <= i < j < |s[1..]| ensures Precedes(key(s[1..][i]), key(s[1..][j]), descending) {
      assert s[1..][i] == s[i + 1] && s[1..][j] == s[j + 1];
    }
  }

  /** An element that may precede every element of a sorted `t` keeps it sorted in front. */
  lemma ConsSorted<T>(y: T, t: seq<T>, key: T -> real, descending: bool)
    requires SortedBy(t, key, descending) && forall z :: z in t ==> Precedes(key(y), key(z), descending)
    ensures SortedBy([y] + t, key, descending)
  {
    var r := [y] + t;
    forall i, j | 0 <= i < j < |r| ensures Precedes(key(r[i]), key(r[j]), descending) {
      assert r[j] == t[j - 1] && r[j] in t;
      if i > 0 {
        assert r[i] == t[i - 1];
      }
    }
  }

  lemma {:induction false} WithKeyAppend<T>(a: seq<T>, b: seq<T>, key: T -> real, k: real)
    ensures WithKey(a + b, key, k) == WithKey(a, key, k) + WithKey(b, key, k)
  {
    if a == [] {
      assert a + b == b;
    } else {
      var head := if key(a[0]) == k then [a[0]] else [];
      assert (a + b)[0] == a[0];
      assert (a + b)[1..] == a[1..] + b;
      assert WithKey(a + b, key, k) == head + WithKey(a[1..] + b, key, k);
      WithKeyAppend(a[1..], b, key, k);
      assert WithKey(a, key, k) == head + WithKey(a[1..], key, k);
    }
  }

  lemma WithKeySingle<T>(x: T, key: T -> real, k: real)
    ensures WithKey([x], key, k) == if key(x) == k then [x] else []
  {
    assert [x][1..] == [];
  }

  lemma SwapWhenOneEmpty<T>(a: seq<T>, b: seq<T>, c: seq<T>)
    requires a == [] || b == []
    ensures a + (b + c) == b + (a + c)
  {
    if a == [] {
      assert a + (b + c) == b + c;
      assert a + c == c;
    } else {
      assert b + c == c;
      assert b + (a + c) == a + c;
    }
  }

  lemma {:induction false} InsertIsStable<T>(x: T, s: seq<T>, key: T -> real, descending: bool, k: real)
    ensures WithKey(Insert(x, s, key, descending), key, k) == WithKey([x] + s, key, k)
  {
    if s == [] || Precedes(key(x), key(s[0]), descending) {
      assert Insert(x, s, key, descending) == [x] + s;
    } else {
      var t := Insert(x, s[1..], key, descending);
      assert Insert(x, s, key, descending) == [s[0]] + t;
      // x does not precede s[0], so their keys differ and at most one of them equals k
      assert key(x) != key(s[0]);
      var wx, w0, wr := WithKey([x], key, k), WithKey([s[0]], key, k), WithKey(s[1..], key, k);
      WithKeySingle(x, key, k);
      WithKeySingle(s[0], key, k);
      WithKeyAppend([s[0]], t, key, k);
      InsertIsStable(x, s[1..], key, descending, k);
      WithKeyAppend([x], s[1..], key, k);
      assert WithKey([s[0]] + t, key, k) == w0 + (wx + wr);
      WithKeyAppend([s[0]], s[1..], key, k);
      assert [s[0]] + s[1..] == s;
      WithKeyAppend([x], s, key, k);
      assert WithKey([x] + s, key, k) == wx + (w0 + wr);
      SwapWhenOneEmpty(w0, wx, wr);
    }
  }

  /** Stability: for every key value, the elements carrying it keep their input order. */
  lemma {:induction false} SortIsStable<T>(s: seq<T>, key: T -> real, descending: bool, k: real)
    ensures WithKey(SortBy(s, key, descending), key, k) == WithKey(s, key, k)
  {
    if s != [] {
      var rest := SortBy(s[1..], key, descending);
      SortIsStable(s[1..], key, descending, k);
      InsertIsStable(s[0], rest, key, descending, k);
      WithKeyAppend([s[0]], rest, key, k);
      WithKeyAppend([s[0]], s[1..], key, k);
      assert [s[0]] + s[1..] == s;
    }
  }

  /** Elements with equal keys appear in strictly increasing `rank`. */
  ghost predicate TiesInRankOrder<T>(r: seq<T>, key: T -> real, rank: T -> int)
  {
    forall i, j :: 0 <= i < j < |r| && key(r[i]) == key(r[j]) ==> rank(r[i]) < rank(r[j])
  }

  /** Stability stated by rank: if the input is strictly increasing in `rank`, then
      any two output elements with equal keys are still in increasing rank order. */
  lemma {:induction false} SortKeepsTieOrder<T>(s: seq<T>, key: T -> real, descending: bool, rank: T -> int)
    requires forall i, j :: 0 <= i < j < |s| ==> rank(s[i]) < rank(s[j])
    ensures TiesInRankOrder(SortBy(s, key, descending), key, rank)
  {
    if s != [] {
      var rest := SortBy(s[1..], key, descending);
      assert forall i, j :: 0 <= i < j < |s[1..]| ==> s[1..][i] == s[i + 1] && s[1..][j] == s[j + 1];
      SortKeepsTieOrder(s[1..], key, descending, rank);
      forall y | y in rest ensures rank(s[0]) < rank(y) {
        assert y in multiset(s[1..]);
        var j :| 0 <= j < |s[1..]| && s[1..][j] == y;
        assert s[j + 1] == y;
      }
      InsertKeepsTieOrder(s[0], rest, key, descending, rank);
    }
  }

  lemma {:induction false} InsertKeepsTieOrder<T>(x: T, s: seq<T>, key: T -> real, descending: bool, rank: T -> int)
    requires forall y :: y in s ==> rank(x) < rank(y)
    requires TiesInRankOrder(s, key, rank)
    ensures TiesInRankOrder(Insert(x, s, key, descending), key, rank)
  {
    var r := Insert(x, s, key, descending);
    if s == [] || Precedes(key(x), key(s[0]), descending) {
      assert r == [x] + s;
      forall i, j | 0 <= i < j < |r| && key(r[i]) == key(r[j]) ensures rank(r[i]) < rank(r[j]) {
        if i == 0 {
          assert r[j] == s[j - 1] && r[j] in s;
        } else {
          assert r[i] == s[i - 1] && r[j] == s[j - 1];
        }
      }
    } else {
      var t := Insert(x, s[1..], key, descending);
      forall y | y in s[1..] ensures rank(x) < rank(y) {
        assert y in s;
      }
      assert TiesInRankOrder(s[1..], key, rank) by {
        forall i, j | 0 <= i < j < |s[1..]| && key(s[1..][i]) == key(s[1..][j])
          ensures rank(s[1..][i]) < rank(s[1..][j])
        {
          assert s[1..][i] == s[i + 1] && s[1..][j] == s[j + 1];
        }
      }
      InsertKeepsTieOrder(x, s[1..], key, descending, rank);
      assert r == [s[0]] + t;
      forall m | 0 <= m < |t| && key(s[0]) == key(t[m]) ensures rank(s[0]) < rank(t[m]) {
        HeadTieFollows(x, s, t, key, descending, rank, m);
      }
      ConsKeepsTieOrder(s[0], t, key, rank);
    }
  }

  lemma ConsKeepsTieOrder<T>(y: T, t: seq<T>, key: T -> real, rank: T -> int)
    requires TiesInRankOrder(t, key, rank)
    requires forall m :: 0 <= m < |t| && key(y) == key(t[m]) ==> rank(y) < rank(t[m])
    ensures TiesInRankOrder([y] + t, key, rank)
  {
    var r := [y] + t;
    forall i, j | 0 <= i < j < |r| && key(r[i]) == key(r[j]) ensures rank(r[i]) < rank(r[j]) {
      if i == 0 {
        assert r[j] == t[j - 1];
      } else {
        assert r[i] == t[i - 1] && r[j] == t[j - 1];
      }
    }
  }

  /** Helper for InsertKeepsTieOrder: when `x` was inserted past `s[0]`, an element of
      the rest that ties with `s[0]` comes from `s`, after `s[0]`. */
  lemma HeadTieFollows<T>(x: T, s: seq<T>, t: seq<T>, key: T -> real, descending: bool, rank: T -> int, m: nat)
    requires s != [] && !Precedes(key(x), key(s[0]), descending)
    requires TiesInRankOrder(s, key, rank)
    requires multiset(t) == multiset([x] + s[1..])
    requires m < |t| && key(s[0]) == key(t[m])
    ensures rank(s[0]) < rank(t[m])
  {
    assert t[m] in multiset([x] + s[1..]);
    if t[m] == x {
      assert false;
    }
    assert t[m] in s[1..];
    var n :| 0 <= n < |s[1..]| && s[1..][n] == t[m];
    assert s[n + 1] == t[m];
  }

  /** No two elements share a key. */
  /** Cutting a sorted sequence after `m` elements: the two parts together hold what it
      held, and everything kept may precede everything cut off. */
  lemma SortedPrefixPrecedesRest<T>(r: seq<T>, key: T -> real, descending: bool, m: nat)
    requires SortedBy(r, key, descending) && m <= |r|
    ensures multiset(r) - multiset(r[..m]) == multiset(r[m..])
    ensures forall x, y :: x in r[..m] && y in multiset(r) - multiset(r[..m]) ==>
              Precedes(key(x), key(y), descending)
  {
    assert r == r[..m] + r[m..];
    forall x, y | x in r[..m] && y in multiset(r) - multiset(r[..m])
      ensures Precedes(key(x), key(y), descending)
    {
      var i :| 0 <= i < m && r[..m][i] == x;
      assert y in r[m..];
      var j :| 0 <= j < |r| - m && r[m..][j] == y;
      assert r[i] == x && r[m + j] == y;
    }
  }

  /** The first `m` elements of the sorted `s` are drawn from `s`, and each of them may
      precede every element of `s` they leave out. */
  lemma SortPrefixIsTop<T>(s: seq<T>, key: T -> real, descending: bool, m: nat)
    requires m <= |s|
    ensures multiset(SortBy(s, key, descending)[..m]) <= multiset(s)
    ensures forall x, y :: x in SortBy(s, key, descending)[..m] &&
                           y in multiset(s) - multiset(SortBy(s, key, descending)[..m]) ==>
              Precedes(key(x), key(y), descending)
  {
    var r := SortBy(s, key, descending);
    SortedPrefixPrecedesRest(r, key, descending, m);
  }

  ghost predicate KeysDistinct<T>(s: seq<T>, key: T -> real)
  {
    forall i, j :: 0 <= i < j < |s| ==> key(s[i]) != key(s[j])
  }

  /** Sorting elements with pairwise distinct keys leaves them pairwise distinct,
      so the sorted order is strict. */
  lemma {:induction false} SortKeepsKeysDistinct<T>(s: seq<T>, key: T -> real, descending: bool)
    requires KeysDistinct(s, key)
    ensures KeysDistinct(SortBy(s, key, descending), key)
  {
    if s != [] {
      var rest := SortBy(s[1..], key, descending);
      TailKeysDistinct(s, key);
      SortKeepsKeysDistinct(s[1..], key, descending);
      forall y | y in rest ensures key(y) != key(s[0]) {
        assert y in multiset(s[1..]);
        var j :| 0 <= j < |s[1..]| && s[1..][j] == y;
        assert s[j + 1] == y;
      }
      InsertKeepsKeysDistinct(s[0], rest, key, descending);
    }
  }

  lemma {:induction false} InsertKeepsKeysDistinct<T>(x: T, s: seq<T>, key: T -> real, descending: bool)
    requires KeysDistinct(s, key) && forall y :: y in s ==> key(y) != key(x)
    ensures KeysDistinct(Insert(x, s, key, descending), key)
  {
    if s == [] || Precedes(key(x), key(s[0]), descending) {
      ConsKeysDistinct(x, s, key);
    } else {
      var t := Insert(x, s[1..], key, descending);
      TailKeysDistinct(s, key);
      InsertKeepsKeysDistinct(x, s[1..], key, descending);
      forall y | y in t ensures key(y) != key(s[0]) {
        var m :| 0 <= m < |t| && t[m] == y;
        HeadKeyDiffers(x, s, t, key, m);
      }
      ConsKeysDistinct(s[0], t, key);
    }
  }

  /** The rest of a sequence with distinct keys has distinct keys. */
  lemma TailKeysDistinct<T>(s: seq<T>, key: T -> real)
    requires s != [] && KeysDistinct(s, key)
    ensures KeysDistinct(s[1..], key)
  {
    forall i, j | 0 <= i < j < |s[1..]| ensures key(s[1..][i]) != key(s[1..][j]) {
      assert s[1..][i] == s[i + 1] && s[1..][j] == s[j + 1];
    }
  }

  /** An element whose key none of `s` has keeps the keys distinct in front of `s`. */
  lemma ConsKeysDistinct<T>(x: T, s: seq<T>, key: T -> real)
    requires KeysDistinct(s, key) && forall y :: y in s ==> key(y) != key(x)
    ensures KeysDistinct([x] + s, key)
  {
    var r := [x] + s;
    forall i, j | 0 <= i < j < |r| ensures key(r[i]) != key(r[j]) {
      assert r[j] == s[j - 1] && r[j] in s;
      if i > 0 { assert r[i] == s[i - 1]; }
    }
  }

  /** Helper for InsertKeepsKeysDistinct: an element of `t`, a permutation of `x`
      and the rest of `s`, has a key other than that of `s[0]`. */
  lemma HeadKeyDiffers<T>(x: T, s: seq<T>, t: seq<T>, key: T -> real, m: nat)
    requires s != [] && KeysDistinct(s, key) && forall y :: y in s ==> key(y) != key(x)
    requires multiset(t) == multiset([x] + s[1..]) && m < |t|
    ensures key(s[0]) != key(t[m])
  {
    assert t[m] in multiset([x] + s[1..]);
    if t[m] != x {
      assert t[m] in s[1..];
      var n :| 0 <= n < |s[1..]| && s[1..][n] == t[m];
      assert s[n + 1] == t[m];
    }
  }
}
