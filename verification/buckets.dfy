/**
 The bucket array of MyHashMap: one chain per slot, slot `i` holding the
 keys whose index is `i`.
 */
module Buckets {
  import opened Nullable
  import opened JavaInt
  import opened Chain

  /** All nodes in the order resizeList visits them: slot 0 first, each chain head to tail. */
  function Flatten<K, V>(b: seq<seq<Node<K, V>>>): (r: seq<Node<K, V>>)
    ensures |b| > 0 ==> b[0] <= r
  {
    if |b| == 0 then [] else Flatten(b[..|b| - 1]) + b[|b| - 1]
  }

  /** The replay sequence holds exactly the nodes of the slots: every node of every slot, and no other. */
  lemma {:induction false} FlattenMembers<K, V>(b: seq<seq<Node<K, V>>>)
    ensures forall i, n :: 0 <= i < |b| && n in b[i] ==> n in Flatten(b)
    ensures forall n :: n in Flatten(b) ==> exists i :: 0 <= i < |b| && n in b[i]
  {
    if |b| > 0 {
      var p := b[..|b| - 1];
      FlattenMembers(p);
      assert forall i :: 0 <= i < |p| ==> p[i] == b[i];
    }
  }

  /**
   The slot a key belongs to: put stores a null key at slot 0 and every other
   key at defineIndex of its (already normalised) hash.
   */
  function Slot<K>(hash: K -> nat, key: Nullable<K>, capacity: nat): (r: nat)
    requires capacity > 0
    ensures r < capacity
    ensures key.Null? ==> r == 0
    ensures key.NonNull? ==> r == hash(key.value) % capacity
  {
    if key.Null? then 0 else DefineIndex(hash(key.value), capacity)
  }

  /** Every node sits in the slot its key belongs to. */
  ghost predicate Placed<K, V>(hash: K -> nat, b: seq<seq<Node<K, V>>>, capacity: nat)
    requires capacity > 0
  {
    forall i, j :: 0 <= i < |b| && 0 <= j < |b[i]| ==> Slot(hash, b[i][j].key, capacity) == i
  }

  /** No chain holds a key twice. */
  ghost predicate ChainsDistinct<K, V>(b: seq<seq<Node<K, V>>>)
  {
    forall i :: 0 <= i < |b| ==> DistinctKeys(b[i])
  }

  /** Replacing one chain changes the node count by the difference of the chains' lengths. */
  lemma {:induction false} FlattenUpdateLength<K, V>(b: seq<seq<Node<K, V>>>, i: int, c: seq<Node<K, V>>)
    requires 0 <= i < |b|
    ensures |Flatten(b[i := c])| == |Flatten(b)| - |b[i]| + |c|
    decreases |b|
  {
    var n := |b| - 1;
    assert b[i := c][..n] == if i == n then b[..n] else b[..n][i := c];
    if i < n {
      FlattenUpdateLength(b[..n], i, c);
    }
  }

  /** Slots that are all empty hold no node. */
  lemma {:induction false} FlattenEmpty<K, V>(b: seq<seq<Node<K, V>>>)
    requires forall i :: 0 <= i < |b| ==> b[i] == []
    ensures Flatten(b) == []
    decreases |b|
  {
    if |b| > 0 {
      FlattenEmpty(b[..|b| - 1]);
    }
  }

  /**
   With every key in its slot and no chain repeating a key, a key is in the
   bucket array's map exactly when it is in the chain of its own slot, with
   that chain's value.
   */
  lemma {:induction false} MapAt<K, V>(hash: K -> nat, b: seq<seq<Node<K, V>>>, capacity: nat, key: Nullable<K>)
    requires capacity > 0 && Placed(hash, b, capacity) && ChainsDistinct(b)
    ensures key in ToMap(Flatten(b)) <==> Slot(hash, key, capacity) < |b| && key in Keys(b[Slot(hash, key, capacity)])
    ensures key in ToMap(Flatten(b)) ==>
      && key in ToMap(b[Slot(hash, key, capacity)])
      && ToMap(Flatten(b))[key] == ToMap(b[Slot(hash, key, capacity)])[key]
    decreases |b|
  {
    if |b| > 0 {
      var n := |b| - 1;
      var init := b[..n];
      var last := b[n];
      MapAt(hash, init, capacity, key);
      StoreAppend(map[], Flatten(init), last);
      StoreKeys(map[], last);
      var s := Slot(hash, key, capacity);
      if key in Keys(last) {
        var j :| 0 <= j < |last| && last[j].key == key;
        assert s == n;
        StoreInside(ToMap(Flatten(init)), last, j);
        StoreInside(map[], last, j);
      } else {
        StoreOutside(ToMap(Flatten(init)), last, key);
        if s == n {
          assert key !in ToMap(Flatten(init));
        }
      }
    }
  }

  /** With every key in its slot and no chain repeating a key, the map has one entry per node. */
  lemma {:induction false} MapSize<K, V>(hash: K -> nat, b: seq<seq<Node<K, V>>>, capacity: nat)
    requires capacity > 0 && Placed(hash, b, capacity) && ChainsDistinct(b)
    ensures |ToMap(Flatten(b))| == |Flatten(b)|
    decreases |b|
  {
    if |b| > 0 {
      var n := |b| - 1;
      var init := b[..n];
      var last := b[n];
      MapSize(hash, init, capacity);
      StoreAppend(map[], Flatten(init), last);
      forall key | key in Keys(last) ensures key !in ToMap(Flatten(init)) {
        var j :| 0 <= j < |last| && last[j].key == key;
        assert Slot(hash, key, capacity) == n;
        MapAt(hash, init, capacity, key);
      }
      StoreCard(ToMap(Flatten(init)), last);
    }
  }

  /**
   When a null key can only be the head of slot 0, no node after the first
   one resizeList visits has a null key.
   */
  lemma {:induction false} FlattenNullFirst<K, V>(b: seq<seq<Node<K, V>>>)
    requires forall i, j :: 0 <= i < |b| && 0 <= j < |b[i]| && b[i][j].key.Null? ==> i == 0 && j == 0
    ensures forall p :: 0 < p < |Flatten(b)| ==> Flatten(b)[p].key.NonNull?
    decreases |b|
  {
    if |b| > 0 {
      var n := |b| - 1;
      FlattenNullFirst(b[..n]);
      var f := Flatten(b[..n]);
      forall p | 0 < p < |Flatten(b)| ensures Flatten(b)[p].key.NonNull? {
        if p >= |f| {
          assert Flatten(b)[p] == b[n][p - |f|];
        } else {
          assert Flatten(b)[p] == f[p];
        }
      }
    }
  }
}
