/**
 Sequences of operations on MyHashMap: size accounting over many puts,
 colliding keys, the null-key slot, and the first resize of a fresh map.
 */
module Scenarios {
  import opened Nullable
  import opened JavaInt
  import opened Chain
  import opened MyHashMap
  import opened MyHashMapProofs

  /**
   Putting non-null pairs one after another keeps the invariants, stores the
   pairs in order (a later put of a key wins), and leaves getSize equal to
   the number of distinct keys held.
   */
  lemma {:induction false} PutsInOrder<K, V>(hash: K -> nat, m: HashMap<K, V>, es: seq<Node<K, V>>)
    requires Invariant(hash, m)
    requires forall p :: 0 <= p < |es| ==> es[p].key.NonNull?
    ensures var r := Reassign(hash, m, es);
      && Invariant(hash, r)
      && Abstract(r) == Store(Abstract(m), es)
      && GetSize(hash, r) == |Abstract(m).Keys + Keys(es)|
    decreases |es|
  {
    var r := Reassign(hash, m, es);
    if |es| == 0 {
      assert Keys(es) == {};
    } else {
      var e := es[0];
      PutPreserves(hash, m, e.key, e.value);
      var m1 := Put(hash, m, e.key, e.value);
      PutsInOrder(hash, m1, es[1..]);
      assert Store(Abstract(m), [e]) == Abstract(m)[e.key := e.value] by { assert [e][..0] == []; }
      StoreAppend(Abstract(m), [e], es[1..]);
      assert [e] + es[1..] == es;
      KeysCons(es);
    }
    StoreKeys(Abstract(m), es);
  }

  /**
   Two distinct non-null keys put one after the other are both retrievable
   with their own values, and getSize counts two -- whether or not they
   share a slot.
   */
  lemma TwoKeys<K, V>(hash: K -> nat, k1: K, v1: V, k2: K, v2: V)
    requires k1 != k2
    ensures var m := Put(hash, Put(hash, Empty<K, V>(), NonNull(k1), v1), NonNull(k2), v2);
      && GetValue(hash, m, NonNull(k1)) == NonNull(v1)
      && GetValue(hash, m, NonNull(k2)) == NonNull(v2)
      && GetSize(hash, m) == 2
  {
    var e := Empty<K, V>();
    EmptyInvariant<K, V>(hash);
    var m1 := Put(hash, e, NonNull(k1), v1);
    PutPreserves(hash, e, NonNull(k1), v1);
    var m := Put(hash, m1, NonNull(k2), v2);
    PutPreserves(hash, m1, NonNull(k2), v2);
    GetValuePresent(hash, m, NonNull(k1));
    GetValuePresent(hash, m, NonNull(k2));
  }

  /**
   put(null, a), get(null), put(null, b), get(null) on a fresh map answers
   a, then b, and getSize stays 1.
   */
  lemma NullKeyTwice<K, V>(hash: K -> nat, a: V, b: V)
    ensures var m1 := Put(hash, Empty<K, V>(), Null, a);
      var m2 := Put(hash, m1, Null, b);
      && GetValue(hash, m1, Null) == NonNull(a) && GetSize(hash, m1) == 1
      && GetValue(hash, m2, Null) == NonNull(b) && GetSize(hash, m2) == 1
  {
    var e := Empty<K, V>();
    PutNull(hash, e, a);
    var m1 := Put(hash, e, Null, a);
    assert EnsureCapacity(hash, e) == e;
    PutNull(hash, m1, b);
    assert EnsureCapacity(hash, m1) == m1;
  }

  /**
   A fresh map takes twelve distinct non-null keys at capacity 16; the
   thirteenth put finds `size >= threshold`, doubles the capacity to 32 with
   threshold 24, and every earlier key keeps its value.
   */
  lemma FirstResize<K, V>(hash: K -> nat, es: seq<Node<K, V>>, k: K, v: V)
    requires |es| == 12 && DistinctKeys(es) && NonNull(k) !in Keys(es)
    requires forall p :: 0 <= p < |es| ==> es[p].key.NonNull?
    ensures var m := Reassign(hash, Empty<K, V>(), es);
      var r := Put(hash, m, NonNull(k), v);
      && m.capacity == 16 && GetSize(hash, m) == 12
      && r.capacity == 32 && r.threshold == 24 && GetSize(hash, r) == 13
      && forall p :: 0 <= p < |es| ==> GetValue(hash, r, es[p].key) == NonNull(es[p].value)
  {
    var e := Empty<K, V>();
    EmptyInvariant<K, V>(hash);
    ReassignReplays(hash, e, es);
    var m := Reassign(hash, e, es);
    StoreCard(map[], es);
    StoreKeys(map[], es);
    EnsureCapacityPreserves(hash, m);
    PutPreserves(hash, m, NonNull(k), v);
    var r := Put(hash, m, NonNull(k), v);
    assert Threshold(32) == 24;
    forall p | 0 <= p < |es| ensures GetValue(hash, r, es[p].key) == NonNull(es[p].value) {
      StoreInside(map[], es, p);
      GetValuePresent(hash, r, es[p].key);
    }
  }
}
