/** Ruby's Hash as the engine uses it: insertion ordered, one value per key.
    `h[k]` is `Get`, `h[k] = v` is `Put` (an existing key keeps its position,
    a new key goes to the end). */
module Hashes {

  datatype Option<+T> = None | Some(value: T)

  type Hash<K, V> = seq<(K, V)>

  /** Some pair of `h` has key `k`. */
  predicate HasKey<K(==), V>(h: Hash<K, V>, k: K) {
    exists i :: 0 <= i < |h| && h[i].0 == k
  }

  /** The invariant every Ruby hash keeps: no key occurs twice. */
  predicate DistinctKeys<K(==), V>(h: Hash<K, V>) {
    forall i, j :: 0 <= i < j < |h| ==> h[i].0 != h[j].0
  }

  /** Position of the first pair with key `k`. */
  function IndexOf<K(==), V>(h: Hash<K, V>, k: K): (i: nat)
    requires HasKey(h, k)
    ensures i < |h| && h[i].0 == k
    ensures forall j :: 0 <= j < i ==> h[j].0 != k
  {
    if h[0].0 == k then 0
    else
      assert HasKey(h[1..], k) by {
        var i :| 0 <= i < |h| && h[i].0 == k;
        assert i > 0 && h[1..][i - 1].0 == k;
      }
      1 + IndexOf(h[1..], k)
  }

  /** `h[k]`, with `nil` as `None`. */
  function Get<K(==), V>(h: Hash<K, V>, k: K): (r: Option<V>)
    ensures r.Some? <==> HasKey(h, k)
  {
    if HasKey(h, k) then Some(h[IndexOf(h, k)].1) else None
  }

  /** `(h[k] or default)`. */
  function GetOr<K(==), V>(h: Hash<K, V>, k: K, default: V): (r: V)
    ensures HasKey(h, k) ==> Get(h, k) == Some(r)
    ensures !HasKey(h, k) ==> r == default
  {
    match Get(h, k)
    case Some(v) => v
    case None => default
  }

  /** `h[k] = v`: the pair for `k` is replaced where it stands, or appended. */
  function Put<K(==), V>(h: Hash<K, V>, k: K, v: V): (r: Hash<K, V>)
    ensures HasKey(h, k) ==> r == h[IndexOf(h, k) := (k, v)]
    ensures !HasKey(h, k) ==> r == h + [(k, v)]
  {
    if HasKey(h, k) then h[IndexOf(h, k) := (k, v)] else h + [(k, v)]
  }

  /** What a lookup sees after `h[k] = v`. */
  lemma PutGet<K, V>(h: Hash<K, V>, k: K, v: V, k': K)
    ensures Get(Put(h, k, v), k') == if k' == k then Some(v) else Get(h, k')
  {
    var r := Put(h, k, v);
    assert HasKey(r, k) by {
      if HasKey(h, k) { assert r[IndexOf(h, k)].0 == k; } else { assert r[|h|].0 == k; }
    }
    if k' == k {
      if HasKey(h, k) {
        var i := IndexOf(h, k);
        assert forall j :: 0 <= j < i ==> r[j].0 != k;
        IndexOfUnique(r, k, i);
      } else {
        assert forall j :: 0 <= j < |h| ==> r[j].0 != k;
        IndexOfUnique(r, k, |h|);
      }
    } else if HasKey(h, k') {
      var i := IndexOf(h, k');
      assert r[i] == h[i];
      assert forall j :: 0 <= j < i ==> r[j].0 != k';
      IndexOfUnique(r, k', i);
    } else {
      assert forall j :: 0 <= j < |h| ==> h[j].0 != k';
    }
  }

  lemma IndexOfUnique<K, V>(h: Hash<K, V>, k: K, i: nat)
    requires i < |h| && h[i].0 == k
    requires forall j :: 0 <= j < i ==> h[j].0 != k
    ensures HasKey(h, k) && IndexOf(h, k) == i
  {
    var m := IndexOf(h, k);
    assert !(m < i) && !(i < m);
  }

  /** `h[k] = v` keeps the keys distinct, and changes the key list only by
      appending a key that was missing. */
  lemma PutKeys<K, V>(h: Hash<K, V>, k: K, v: V)
    ensures HasKey(h, k) ==> |Put(h, k, v)| == |h| && forall i :: 0 <= i < |h| ==> Put(h, k, v)[i].0 == h[i].0
    ensures DistinctKeys(h) ==> DistinctKeys(Put(h, k, v))
  {
    var r := Put(h, k, v);
    if DistinctKeys(h) && !HasKey(h, k) {
      forall i, j | 0 <= i < j < |r| ensures r[i].0 != r[j].0 {
        if j == |h| { assert r[i] == h[i]; }
      }
    }
  }

  lemma {:induction false} GetAt<K, V>(h: Hash<K, V>, i: nat)
    requires DistinctKeys(h) && i < |h|
    ensures Get(h, h[i].0) == Some(h[i].1)
  {
    IndexOfUnique(h, h[i].0, i);
  }

  /** For a well-formed hash, a lookup finds exactly the stored pairs. */
  lemma GetIff<K, V>(h: Hash<K, V>, k: K, v: V)
    requires DistinctKeys(h)
    ensures Get(h, k) == Some(v) <==> exists i :: 0 <= i < |h| && h[i] == (k, v)
  {
    if exists i :: 0 <= i < |h| && h[i] == (k, v) {
      var i :| 0 <= i < |h| && h[i] == (k, v);
      GetAt(h, i);
    }
    if Get(h, k) == Some(v) {
      var i := IndexOf(h, k);
      assert h[i] == (k, v);
    }
  }
}
