/**
 * PHP's ordered arrays (and the rows of a keyed database table) as a sequence of
 * (key, value) entries in insertion order. A lookup finds the first entry with the key;
 * `Put` is PHP's `$a[$k] = $v` (replace in place, or append a new key at the end);
 * `Unset` is PHP's `unset($a[$k])`; `Merge` is `array_merge` for non-numeric keys.
 * A PHP array never holds a key twice: that is `Distinct`.
 */
module Assoc {
  import opened Wrappers

  ghost predicate Distinct<K, V>(a: seq<(K, V)>) {
    forall i, j :: 0 <= i < j < |a| ==> a[i].0 != a[j].0
  }

  /** Position of the first entry with key `k`, or -1 when there is none. */
  function IndexOf<K(==), V>(a: seq<(K, V)>, k: K): (i: int)
    ensures -1 <= i < |a|
    ensures 0 <= i ==> a[i].0 == k
    ensures forall j :: 0 <= j < |a| && (i < 0 || j < i) ==> a[j].0 != k
  {
    if |a| == 0 then -1
    else if a[0].0 == k then 0
    else
      var r := IndexOf(a[1..], k);
      assert forall j :: 1 <= j < |a| ==> a[1..][j - 1] == a[j];
      if r < 0 then -1 else r + 1
  }

  /** The first entry with key `k` is the one `IndexOf` finds. */
  lemma IndexOfIs<K, V>(a: seq<(K, V)>, k: K, i: int)
    requires 0 <= i < |a| && a[i].0 == k
    requires forall j :: 0 <= j < i ==> a[j].0 != k
    ensures IndexOf(a, k) == i
  {
  }

  /** `isset($a[$k])` for a non-null value, `array_key_exists` in general. */
  predicate Has<K(==), V>(a: seq<(K, V)>, k: K) {
    IndexOf(a, k) >= 0
  }

  /** `$a[$k] ?? null`. */
  function Get<K(==), V>(a: seq<(K, V)>, k: K): (r: Option<V>)
    ensures r.Some? <==> Has(a, k)
    ensures r.Some? ==> (k, r.value) in a
  {
    var i := IndexOf(a, k);
    if i < 0 then None else Some(a[i].1)
  }

  /** Looking up in an array with one more entry in front. */
  lemma GetCons<K, V>(h: (K, V), t: seq<(K, V)>, k: K)
    ensures Get([h] + t, k) == if h.0 == k then Some(h.1) else Get(t, k)
  {
    assert ([h] + t)[1..] == t;
  }

  lemma DistinctGet<K, V>(a: seq<(K, V)>, i: int)
    requires Distinct(a) && 0 <= i < |a|
    ensures Get(a, a[i].0) == Some(a[i].1)
  {
    var j := IndexOf(a, a[i].0);
    assert j == i;
  }

  /** In an array without repeated keys, the last entry is found only under its own key. */
  lemma GetLast<K(!new), V>(a: seq<(K, V)>, k: K)
    requires Distinct(a) && a != []
    ensures Get(a, k) == if k == a[|a| - 1].0 then Some(a[|a| - 1].1) else Get(a[..|a| - 1], k)
    ensures Has(a, k) <==> k == a[|a| - 1].0 || Has(a[..|a| - 1], k)
  {
    var n := |a| - 1;
    var init := a[..n];
    assert !Has(init, a[n].0) by {
      var j := IndexOf(init, a[n].0);
      assert j < 0;
    }
    assert init + [a[n]] == a;
    assert a == Put(init, a[n].0, a[n].1);
  }

  /** `$a[$k] = $v`: an existing key keeps its position, a new key goes to the end. */
  function Put<K(==, !new), V>(a: seq<(K, V)>, k: K, v: V): (r: seq<(K, V)>)
    ensures Get(r, k) == Some(v)
    ensures forall j :: j != k ==> Get(r, j) == Get(a, j)
    ensures !Has(a, k) ==> r == a + [(k, v)]
    ensures Has(a, k) ==> |r| == |a|
    ensures Distinct(a) ==> Distinct(r)
  {
    var i := IndexOf(a, k);
    if i < 0 then
      var r := a + [(k, v)];
      assert r[|a|] == (k, v);
      PutGetOthers(a, k, v, r, i);
      r
    else
      var r := a[i := (k, v)];
      PutGetOthers(a, k, v, r, i);
      r
  }

  lemma PutGetOthers<K, V>(a: seq<(K, V)>, k: K, v: V, r: seq<(K, V)>, i: int)
    requires i == IndexOf(a, k)
    requires i < 0 ==> r == a + [(k, v)]
    requires i >= 0 ==> r == a[i := (k, v)]
    ensures Get(r, k) == Some(v)
    ensures forall j :: j != k ==> Get(r, j) == Get(a, j)
  {
    if i < 0 {
      assert forall x :: 0 <= x < |a| ==> r[x] == a[x];
      IndexOfIs(r, k, |a|);
    } else {
      IndexOfIs(r, k, i);
    }
    forall j | j != k ensures Get(r, j) == Get(a, j) {
      var ia, ir := IndexOf(a, j), IndexOf(r, j);
      if ia >= 0 {
        assert r[ia] == a[ia];
        assert ir == ia;
      } else {
        assert ir < 0;
      }
    }
  }

  /** A second `Put` on the same key overwrites the first. */
  lemma PutPut<K(!new), V>(a: seq<(K, V)>, k: K, v1: V, v2: V)
    ensures Put(Put(a, k, v1), k, v2) == Put(a, k, v2)
  {
    var i := IndexOf(a, k);
    var b := Put(a, k, v1);
    if i >= 0 {
      IndexOfIs(b, k, i);
    } else {
      assert forall x :: 0 <= x < |a| ==> b[x] == a[x];
      IndexOfIs(b, k, |a|);
    }
  }

  /** `unset($a[$k])`: the first entry with key `k` leaves, the others keep their order. */
  function Unset<K(==, !new), V>(a: seq<(K, V)>, k: K): (r: seq<(K, V)>)
    ensures forall j :: j != k ==> Get(r, j) == Get(a, j)
    ensures Distinct(a) ==> Distinct(r) && Get(r, k) == None
    ensures |r| <= |a|
  {
    var i := IndexOf(a, k);
    if i < 0 then a
    else
      var r := a[..i] + a[i + 1..];
      UnsetGetOthers(a, k, i, r);
      r
  }

  lemma UnsetGetOthers<K, V>(a: seq<(K, V)>, k: K, i: int, r: seq<(K, V)>)
    requires 0 <= i == IndexOf(a, k) && r == a[..i] + a[i + 1..]
    ensures forall j :: j != k ==> Get(r, j) == Get(a, j)
    ensures Distinct(a) ==> Distinct(r) && Get(r, k) == None
  {
    assert |r| == |a| - 1;
    assert forall x :: 0 <= x < i ==> r[x] == a[x];
    assert forall x :: i <= x < |r| ==> r[x] == a[x + 1];
    forall j | j != k ensures Get(r, j) == Get(a, j) {
      var ia, ir := IndexOf(a, j), IndexOf(r, j);
      if ia >= 0 {
        assert ia != i;
        if ia < i { assert r[ia] == a[ia]; assert ir == ia; }
        else { assert r[ia - 1] == a[ia]; assert ir == ia - 1; }
      }
    }
    if Distinct(a) {
      forall x | 0 <= x < |r| ensures r[x].0 != k {
        if x < i { assert r[x] == a[x]; } else { assert r[x] == a[x + 1]; }
      }
    }
  }

  /** `array_merge($a, $b)` for non-numeric keys: every entry of `b` is put into `a`, in order. */
  function Merge<K(==, !new), V>(a: seq<(K, V)>, b: seq<(K, V)>): (r: seq<(K, V)>)
    ensures Distinct(a) ==> Distinct(r)
    decreases |b|
  {
    if b == [] then a
    else
      var n := |b| - 1;
      Put(Merge(a, b[..n]), b[n].0, b[n].1)
  }

  /** Keys of the second array win; keys it does not mention keep the first array's value. */
  lemma {:induction false} MergeGet<K(!new), V>(a: seq<(K, V)>, b: seq<(K, V)>, k: K)
    requires Distinct(b)
    ensures Get(Merge(a, b), k) == if Has(b, k) then Get(b, k) else Get(a, k)
    decreases |b|
  {
    if b != [] {
      var n := |b| - 1;
      var init := b[..n];
      assert Distinct(init);
      MergeGet(a, init, k);
      GetLast(b, k);
    }
  }

  /** Every row left by `Unset` was a row before, so per-row facts survive it. */
  lemma UnsetKeepsRows<K(!new), V>(a: seq<(K, V)>, k: K)
    ensures forall x :: 0 <= x < |Unset(a, k)| ==> Unset(a, k)[x] in a
  {
    var i := IndexOf(a, k);
    if i >= 0 {
      var r := a[..i] + a[i + 1..];
      forall x | 0 <= x < |r| ensures r[x] in a {
        if x < i { assert r[x] == a[x]; } else { assert r[x] == a[x + 1]; }
      }
    }
  }

  /** Replacing one row with `Put` on an existing key keeps every other row where it was. */
  lemma PutExistingRows<K(!new), V>(a: seq<(K, V)>, k: K, v: V)
    requires Has(a, k)
    ensures Put(a, k, v) == a[IndexOf(a, k) := (k, v)]
  {
  }
}
