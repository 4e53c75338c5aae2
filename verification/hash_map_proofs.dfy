/**
 Properties of MyHashMap: the invariants put with a non-null key and
 resizeList preserve, the key/value map they compute, what getValue answers,
 and what put with a null key does to slot 0.
 */
module MyHashMapProofs {
  import opened Nullable
  import opened JavaInt
  import opened Chain
  import opened Buckets
  import opened MyHashMap

  /** Slot 0 holds no node with a non-null key. */
  ghost predicate NoRealKeyInSlot0<K, V>(m: HashMap<K, V>)
    requires WellFormed(m)
  {
    forall j :: 0 <= j < |m.nodes[0]| ==> m.nodes[0][j].key.Null?
  }

  /** Maps with the same keys and the same value at each key are equal. */
  lemma MapsEqual<X, Y>(a: map<X, Y>, b: map<X, Y>)
    requires forall x :: (x in a <==> x in b) && (x in a ==> a[x] == b[x])
    ensures a == b
  {
    assert a.Keys == b.Keys;
  }

  /** A freshly allocated table satisfies every invariant and denotes the empty map. */
  lemma NewTableInvariant<K, V>(hash: K -> nat, capacity: nat)
    requires capacity > 0
    ensures Invariant(hash, NewTable<K, V>(capacity))
    ensures Abstract(NewTable<K, V>(capacity)) == map[]
  {
  }

  /** The constructor's table satisfies every invariant and denotes the empty map. */
  lemma EmptyInvariant<K, V>(hash: K -> nat)
    ensures Invariant(hash, Empty<K, V>())
    ensures Abstract(Empty<K, V>()) == map[] && GetSize(hash, Empty<K, V>()) == 0
  {
    NewTableInvariant<K, V>(hash, DEFAULT_START_CAPACITY);
  }

  /** Doubling a positive capacity raises the threshold. */
  lemma ThresholdGrows(capacity: nat)
    requires capacity > 0
    ensures Threshold(capacity) < Threshold(capacity * INCREASE_CAPACITY_VALUE)
  {
    var t := Threshold(capacity);
    var t2 := Threshold(capacity * 2);
    assert t as real <= 0.75 * capacity as real;
    assert 1.5 * capacity as real < t2 as real + 1.0;
  }

  /** The key/value maps of two tables differing only in slot `b` differ only there. */
  lemma {:induction false} ReplaceChain<K, V>(hash: K -> nat, m: HashMap<K, V>, r: HashMap<K, V>, b: nat, key: Nullable<K>)
    requires Valid(hash, m) && WellFormed(r) && r.capacity == m.capacity
    requires Placed(hash, r.nodes, r.capacity) && ChainsDistinct(r.nodes)
    requires b < m.capacity && forall i :: 0 <= i < |m.nodes| && i != b ==> r.nodes[i] == m.nodes[i]
    ensures Slot(hash, key, m.capacity) != b ==>
      (key in Abstract(r) <==> key in Abstract(m)) && (key in Abstract(r) ==> Abstract(r)[key] == Abstract(m)[key])
    ensures Slot(hash, key, m.capacity) == b ==>
      (key in Abstract(r) <==> key in ToMap(r.nodes[b])) && (key in Abstract(r) ==> Abstract(r)[key] == ToMap(r.nodes[b])[key])
    ensures Slot(hash, key, m.capacity) == b ==>
      (key in Abstract(m) <==> key in ToMap(m.nodes[b])) && (key in Abstract(m) ==> Abstract(m)[key] == ToMap(m.nodes[b])[key])
  {
    MapAt(hash, m.nodes, m.capacity, key);
    MapAt(hash, r.nodes, r.capacity, key);
    StoreKeys(map[], r.nodes[Slot(hash, key, m.capacity)]);
    StoreKeys(map[], m.nodes[Slot(hash, key, m.capacity)]);
  }

  /**
   The chain of slot `b` after the chain step of put: the key joins the
   chain's keys and map, keys stay distinct, and the chain either gains the
   node at its tail (a new key) or keeps its length with the key's node
   holding the new value (an existing key).
   */
  lemma {:induction false} ChainStep<K, V>(m: HashMap<K, V>, b: nat, node: Node<K, V>)
    requires WellFormed(m) && b < m.capacity && DistinctKeys(m.nodes[b])
    ensures var c := m.nodes[b];
      var c' := PutInBucket(m, b, node).nodes[b];
      && Keys(c') == Keys(c) + {node.key}
      && DistinctKeys(c')
      && ToMap(c') == ToMap(c)[node.key := node.value]
      && (node.key !in Keys(c) ==> c' == c + [node] && PutInBucket(m, b, node).size == m.size + 1)
      && (node.key in Keys(c) ==>
            && PutInBucket(m, b, node).size == m.size
            && exists j :: 0 <= j < |c| && c[j].key == node.key && c' == c[j := Node(node.key, node.value)])
  {
    var c := m.nodes[b];
    if c == [] {
      Singleton(node);
      assert [node] == c + [node];
    } else {
      PutNewNodeUpdates(node, c);
    }
  }

  /** The chain step of put for a key placed in its own slot keeps every node in its slot and every chain distinct. */
  lemma PutInBucketPlaced<K, V>(hash: K -> nat, m: HashMap<K, V>, node: Node<K, V>)
    requires Valid(hash, m)
    ensures var r := PutInBucket(m, Slot(hash, node.key, m.capacity), node);
      Placed(hash, r.nodes, r.capacity) && ChainsDistinct(r.nodes)
  {
    var b := Slot(hash, node.key, m.capacity);
    var r := PutInBucket(m, b, node);
    var c := m.nodes[b];
    var c' := r.nodes[b];
    ChainStep(m, b, node);
    forall j | 0 <= j < |c'| ensures Slot(hash, c'[j].key, m.capacity) == b {
      assert c'[j].key in Keys(c');
      if c'[j].key != node.key {
        var jj :| 0 <= jj < |c| && c[jj].key == c'[j].key;
      }
    }
  }

  /**
   The chain step of put for a key placed in its own slot keeps the table
   valid. A new key is linked after the chain's tail (as the head of a null
   slot) and counted; an existing key's node gets the value in place. No
   other slot changes.
   */
  lemma {:induction false} PutInBucketShape<K, V>(hash: K -> nat, m: HashMap<K, V>, node: Node<K, V>)
    requires Valid(hash, m)
    ensures var b := Slot(hash, node.key, m.capacity);
      var r := PutInBucket(m, b, node);
      && Valid(hash, r)
      && (node.key in Abstract(m) <==> node.key in Keys(m.nodes[b]))
      && r.size == (if node.key in Abstract(m) then m.size else m.size + 1)
      && (forall i :: 0 <= i < |m.nodes| && i != b ==> r.nodes[i] == m.nodes[i])
      && (node.key !in Abstract(m) ==> r.nodes[b] == m.nodes[b] + [node])
      && (node.key in Abstract(m) ==>
            exists j :: 0 <= j < |m.nodes[b]| && m.nodes[b][j].key == node.key
              && r.nodes[b] == m.nodes[b][j := Node(node.key, node.value)])
  {
    var b := Slot(hash, node.key, m.capacity);
    var r := PutInBucket(m, b, node);
    var c := m.nodes[b];
    var c' := r.nodes[b];
    MapAt(hash, m.nodes, m.capacity, node.key);
    StoreKeys(map[], c);
    PutInBucketPlaced(hash, m, node);
    FlattenUpdateLength(m.nodes, b, c');
    if node.key in Keys(c) {
      var j :| 0 <= j < |c| && c[j].key == node.key && c' == c[j := Node(node.key, node.value)];
      assert |c'| == |c|;
    }
  }

  /** The chain step of put for a key placed in its own slot stores the pair in the map. */
  lemma {:induction false} PutInBucketValid<K, V>(hash: K -> nat, m: HashMap<K, V>, node: Node<K, V>)
    requires Valid(hash, m)
    ensures var r := PutInBucket(m, Slot(hash, node.key, m.capacity), node);
      && Valid(hash, r)
      && Abstract(r) == Abstract(m)[node.key := node.value]
      && r.size == (if node.key in Abstract(m) then m.size else m.size + 1)
  {
    var b := Slot(hash, node.key, m.capacity);
    var r := PutInBucket(m, b, node);
    PutInBucketShape(hash, m, node);
    ChainStep(m, b, node);
    var a := Abstract(m)[node.key := node.value];
    forall x ensures (x in Abstract(r) <==> x in a) && (x in Abstract(r) ==> Abstract(r)[x] == a[x]) {
      ReplaceChain(hash, m, r, b, x);
      if Slot(hash, x, m.capacity) == b {
        assert ToMap(r.nodes[b]) == ToMap(m.nodes[b])[node.key := node.value];
      } else {
        assert x != node.key;
      }
    }
    MapsEqual(Abstract(r), a);
  }

  /** A null key is the head of slot 0 or absent; putting a non-null key keeps it so. */
  lemma PutInBucketNullFirst<K, V>(hash: K -> nat, m: HashMap<K, V>, node: Node<K, V>)
    requires Valid(hash, m) && NullFirst(m) && node.key.NonNull?
    ensures NullFirst(PutInBucket(m, Slot(hash, node.key, m.capacity), node))
  {
    var b := Slot(hash, node.key, m.capacity);
    var r := PutInBucket(m, b, node);
    var c := m.nodes[b];
    PutInBucketShape(hash, m, node);
    if node.key in Abstract(m) {
      var j :| 0 <= j < |c| && c[j].key == node.key && r.nodes[b] == c[j := Node(node.key, node.value)];
      assert forall i :: 0 <= i < |r.nodes[b]| ==> r.nodes[b][i].key == c[i].key;
    }
  }

  /** put with a null key after the resize check leaves every node in its slot and every chain distinct. */
  lemma NullPutPlaced<K, V>(hash: K -> nat, m: HashMap<K, V>, v: V)
    requires Valid(hash, m)
    ensures var r := PutEntry(hash, m, Null, v);
      && r.nodes == m.nodes[0 := [Node(Null, v)]]
      && Placed(hash, r.nodes, r.capacity) && ChainsDistinct(r.nodes)
      && (m.nodes[0] == [] ==> r.size == Count(r))
      && (m.nodes[0] != [] ==> r.size + 1 == Count(r) + |m.nodes[0]|)
  {
    var r := PutEntry(hash, m, Null, v);
    Singleton<K, V>(Node(Null, v));
    FlattenUpdateLength(m.nodes, 0, [Node(Null, v)]);
  }

  /**
   put with a null key after the resize check, on a valid table: slot 0
   becomes the one node (null, v). Every key slot 0 held is dropped from the
   map, and `size` grows only when the slot was null -- so when slot 0 held
   more than one node, `size` exceeds the node count.
   */
  lemma {:induction false} NullPutOverwritesSlot0<K, V>(hash: K -> nat, m: HashMap<K, V>, v: V)
    requires Valid(hash, m)
    ensures var r := PutEntry(hash, m, Null, v);
      && Placed(hash, r.nodes, r.capacity) && ChainsDistinct(r.nodes)
      && Abstract(r) == (Abstract(m) - Keys(m.nodes[0]))[Null := v]
      && (m.nodes[0] == [] ==> r.size == Count(r))
      && (m.nodes[0] != [] ==> r.size + 1 == Count(r) + |m.nodes[0]|)
  {
    var r := PutEntry(hash, m, Null, v);
    var c := m.nodes[0];
    NullPutPlaced(hash, m, v);
    Singleton<K, V>(Node(Null, v));
    var a := (Abstract(m) - Keys(c))[Null := v];
    forall x ensures (x in Abstract(r) <==> x in a) && (x in Abstract(r) ==> Abstract(r)[x] == a[x]) {
      ReplaceChain(hash, m, r, 0, x);
      if Slot(hash, x, m.capacity) == 0 {
        StoreKeys(map[], c);
      } else {
        assert x !in Keys(c) by {
          forall j | 0 <= j < |c| ensures c[j].key != x {
            assert Slot(hash, c[j].key, m.capacity) == 0;
          }
        }
      }
    }
    MapsEqual(Abstract(r), a);
  }

  /** When slot 0 holds no non-null key, put with a null key keeps every placement invariant. */
  lemma NullPutValid<K, V>(hash: K -> nat, m: HashMap<K, V>, v: V)
    requires Valid(hash, m) && NoRealKeyInSlot0(m)
    ensures var r := PutEntry(hash, m, Null, v);
      && Valid(hash, r) && NullFirst(r)
      && Abstract(r) == Abstract(m)[Null := v]
      && r.size == (if Null in Abstract(m) then m.size else m.size + 1)
  {
    var r := PutEntry(hash, m, Null, v);
    var c := m.nodes[0];
    NullPutOverwritesSlot0(hash, m, v);
    MapAt(hash, m.nodes, m.capacity, Null);
    // slot 0 held at most the null key, once
    assert Keys(c) <= {Null};
    assert (Abstract(m) - Keys(c))[Null := v] == Abstract(m)[Null := v];
    if c != [] {
      assert c[0].key in Keys(c);
    }
  }

  /**
   The replay inside resizeList: putting the nodes one by one into a valid
   table with room for all of them never triggers a nested resize, keeps the
   table valid and stores the nodes' pairs in order.
   */
  lemma {:induction false} ReassignReplays<K, V>(hash: K -> nat, acc: HashMap<K, V>, es: seq<Node<K, V>>)
    requires Valid(hash, acc) && NullFirst(acc) && acc.size + |es| <= acc.threshold
    requires forall p :: 0 < p < |es| ==> es[p].key.NonNull?
    requires |es| > 0 && es[0].key.Null? ==> NoRealKeyInSlot0(acc)
    ensures var r := Reassign(hash, acc, es);
      && Valid(hash, r) && NullFirst(r)
      && r.capacity == acc.capacity && r.threshold == acc.threshold
      && Abstract(r) == Store(Abstract(acc), es)
    decreases |es|
  {
    if |es| > 0 {
      var e := es[0];
      assert EnsureCapacity(hash, acc) == acc;
      var a1 := Put(hash, acc, e.key, e.value);
      assert a1 == PutEntry(hash, acc, e.key, e.value);
      if e.key.Null? {
        NullPutValid(hash, acc, e.value);
      } else {
        PutInBucketValid(hash, acc, e);
        PutInBucketNullFirst(hash, acc, e);
      }
      assert a1.size <= acc.size + 1;
      ReassignReplays(hash, a1, es[1..]);
      assert Store(Abstract(acc), [e]) == Abstract(acc)[e.key := e.value] by { assert [e][..0] == []; }
      StoreAppend(Abstract(acc), [e], es[1..]);
      assert [e] + es[1..] == es;
    }
  }

  /**
   resizeList on a table satisfying the invariants: the capacity doubles, the
   threshold is three quarters of it, and the map, the size and the
   invariants survive the rehash.
   */
  lemma ResizePreserves<K, V>(hash: K -> nat, m: HashMap<K, V>)
    requires Invariant(hash, m)
    ensures var r := Resize(hash, m);
      && Invariant(hash, r)
      && r.capacity == m.capacity * INCREASE_CAPACITY_VALUE
      && r.threshold == Threshold(r.capacity)
      && Abstract(r) == Abstract(m)
      && r.size == m.size
      && r.size < r.threshold
  {
    var start := NewTable<K, V>(m.capacity * INCREASE_CAPACITY_VALUE);
    var es := Flatten(m.nodes);
    NewTableInvariant<K, V>(hash, m.capacity * INCREASE_CAPACITY_VALUE);
    ThresholdGrows(m.capacity);
    FlattenNullFirst(m.nodes);
    ReassignReplays(hash, start, es);
    var r := Resize(hash, m);
    assert Store(map[], es) == Abstract(m);
    MapSize(hash, r.nodes, r.capacity);
    MapSize(hash, m.nodes, m.capacity);
  }

  /**
   The check at the start of put: on a table satisfying the invariants it
   resizes exactly when `size >= threshold`, and afterwards there is room for
   one more key with the same map and size.
   */
  lemma EnsureCapacityPreserves<K, V>(hash: K -> nat, m: HashMap<K, V>)
    requires Invariant(hash, m)
    ensures var g := EnsureCapacity(hash, m);
      && Invariant(hash, g)
      && Abstract(g) == Abstract(m) && g.size == m.size
      && g.size < g.threshold
      && (m.size >= m.threshold <==> g.capacity == m.capacity * INCREASE_CAPACITY_VALUE)
      && (m.size < m.threshold ==> g == m)
  {
    if m.size >= m.threshold {
      ResizePreserves(hash, m);
    }
  }

  /**
   put with a non-null key on a table satisfying the invariants keeps them
   (keys in their slots, distinct within a chain, size counting the nodes),
   stores the pair, and grows `size` exactly when the key is new.
   */
  lemma PutPreserves<K, V>(hash: K -> nat, m: HashMap<K, V>, key: Nullable<K>, v: V)
    requires Invariant(hash, m) && key.NonNull?
    ensures var r := Put(hash, m, key, v);
      && Invariant(hash, r)
      && Abstract(r) == Abstract(m)[key := v]
      && r.size == (if key in Abstract(m) then m.size else m.size + 1)
  {
    var g := EnsureCapacity(hash, m);
    EnsureCapacityPreserves(hash, m);
    PutInBucketValid(hash, g, Node(key, v));
    PutInBucketNullFirst(hash, g, Node(key, v));
  }

  /**
   put of a key the map does not hold: after the resize check the node
   becomes the head of a null slot or is linked after the chain's tail, and
   `size` grows by one; no other slot changes.
   */
  lemma PutNewKey<K, V>(hash: K -> nat, m: HashMap<K, V>, key: Nullable<K>, v: V)
    requires Invariant(hash, m) && key.NonNull? && key !in Abstract(m)
    ensures var g := EnsureCapacity(hash, m);
      var r := Put(hash, m, key, v);
      var b := Slot(hash, key, g.capacity);
      && r.nodes == g.nodes[b := g.nodes[b] + [Node(key, v)]]
      && r.size == m.size + 1
  {
    var g := EnsureCapacity(hash, m);
    EnsureCapacityPreserves(hash, m);
    PutInBucketShape(hash, g, Node(key, v));
    var r := Put(hash, m, key, v);
    var b := Slot(hash, key, g.capacity);
    assert r.nodes == g.nodes[b := g.nodes[b] + [Node(key, v)]];
  }

  /**
   put of a key the map already holds: the key's node gets the new value in
   place; no node is added and `size` stays.
   */
  lemma PutExistingKey<K, V>(hash: K -> nat, m: HashMap<K, V>, key: Nullable<K>, v: V)
    requires Invariant(hash, m) && key.NonNull? && key in Abstract(m)
    ensures var g := EnsureCapacity(hash, m);
      var r := Put(hash, m, key, v);
      var b := Slot(hash, key, g.capacity);
      && (exists j :: 0 <= j < |g.nodes[b]| && g.nodes[b][j].key == key
            && r.nodes == g.nodes[b := g.nodes[b][j := Node(key, v)]])
      && r.size == m.size && Count(r) == Count(m)
  {
    var g := EnsureCapacity(hash, m);
    EnsureCapacityPreserves(hash, m);
    PutInBucketShape(hash, g, Node(key, v));
    var r := Put(hash, m, key, v);
    var b := Slot(hash, key, g.capacity);
    var j :| 0 <= j < |g.nodes[b]| && g.nodes[b][j].key == key
      && r.nodes[b] == g.nodes[b][j := Node(key, v)];
    assert r.nodes == g.nodes[b := g.nodes[b][j := Node(key, v)]];
  }

  /**
   On a table satisfying the invariants, getValue of a key the map holds
   answers its value, and so does the intended lookup.
   */
  lemma GetValuePresent<K, V>(hash: K -> nat, m: HashMap<K, V>, key: Nullable<K>)
    requires Valid(hash, m) && NullFirst(m) && key in Abstract(m)
    ensures key.Null? ==> |m.nodes[0]| > 0
    ensures GetValue(hash, m, key) == NonNull(Abstract(m)[key])
    ensures Get(hash, m, key) == NonNull(Abstract(m)[key])
  {
    var b := Slot(hash, key, m.capacity);
    var c := m.nodes[b];
    MapAt(hash, m.nodes, m.capacity, key);
    var j :| 0 <= j < |c| && c[j].key == key;
    StoreInside(map[], c, j);
    LookupIsToMap(c, key);
    if key.NonNull? && |c| > 1 {
      FindNestedNodeIsToMap(c, key);
    }
  }

  /**
   On a valid table, getValue answers null for a non-null key only when the
   map lacks it -- but a lacking key whose slot is occupied gets some node's
   value (see the findings).
   */
  lemma GetValueNullMeansAbsent<K, V>(hash: K -> nat, m: HashMap<K, V>, key: Nullable<K>)
    requires Valid(hash, m) && key.NonNull?
    ensures GetValue(hash, m, key) == Null ==> key !in Abstract(m)
    ensures key !in Abstract(m) && m.nodes[Slot(hash, key, m.capacity)] != [] ==> GetValue(hash, m, key).NonNull?
  {
    MapAt(hash, m.nodes, m.capacity, key);
  }

  /** On a valid table the intended lookup answers exactly the map: the value when present, null when absent. */
  lemma GetIsAbstract<K, V>(hash: K -> nat, m: HashMap<K, V>, key: Nullable<K>)
    requires Valid(hash, m)
    ensures Get(hash, m, key) == if key in Abstract(m) then NonNull(Abstract(m)[key]) else Null
  {
    var c := m.nodes[Slot(hash, key, m.capacity)];
    MapAt(hash, m.nodes, m.capacity, key);
    LookupIsToMap(c, key);
    StoreKeys(map[], c);
  }

  /** getValue of a non-null key right after put of that key answers the value put. */
  lemma PutThenGet<K, V>(hash: K -> nat, m: HashMap<K, V>, key: Nullable<K>, v: V)
    requires Invariant(hash, m) && key.NonNull?
    ensures GetValue(hash, Put(hash, m, key, v), key) == NonNull(v)
    ensures Get(hash, Put(hash, m, key, v), key) == NonNull(v)
  {
    PutPreserves(hash, m, key, v);
    GetValuePresent(hash, Put(hash, m, key, v), key);
  }

  /** put of one non-null key leaves every other key's lookup as it was. */
  lemma PutKeepsOthers<K, V>(hash: K -> nat, m: HashMap<K, V>, key: Nullable<K>, v: V, other: Nullable<K>)
    requires Invariant(hash, m) && key.NonNull? && other != key
    ensures Get(hash, Put(hash, m, key, v), other) == Get(hash, m, other)
  {
    PutPreserves(hash, m, key, v);
    GetIsAbstract(hash, m, other);
    GetIsAbstract(hash, Put(hash, m, key, v), other);
  }

  /**
   put with a null key, on any table: after the resize check slot 0 becomes
   the one node (null, v), other slots stay, `size` grows only when slot 0
   was null, and getValue(null) answers v.
   */
  lemma PutNull<K, V>(hash: K -> nat, m: HashMap<K, V>, v: V)
    requires WellFormed(m)
    ensures var g := EnsureCapacity(hash, m);
      var r := Put(hash, m, Null, v);
      && r.nodes == g.nodes[0 := [Node(Null, v)]]
      && r.size == (if g.nodes[0] == [] then g.size + 1 else g.size)
      && GetValue(hash, r, Null) == NonNull(v)
  {
  }

  /**
   put with a null key when slot 0 (after the resize check) holds a
   non-null key: that key disappears from the map although no delete was
   asked for. With more than one node in slot 0, `size` no longer counts
   the nodes; with exactly one, every invariant still holds, so the
   invariants do not reveal the loss.
   */
  lemma PutNullDropsSlot0<K, V>(hash: K -> nat, m: HashMap<K, V>, v: V, k: Nullable<K>)
    requires Invariant(hash, m) && k.NonNull? && k in Keys(EnsureCapacity(hash, m).nodes[0])
    ensures k in Abstract(m) && k !in Abstract(Put(hash, m, Null, v))
    ensures |EnsureCapacity(hash, m).nodes[0]| > 1 ==> !Valid(hash, Put(hash, m, Null, v))
    ensures |EnsureCapacity(hash, m).nodes[0]| == 1 ==> Invariant(hash, Put(hash, m, Null, v))
  {
    var g := EnsureCapacity(hash, m);
    EnsureCapacityPreserves(hash, m);
    NullPutPlaced(hash, g, v);
    NullPutOverwritesSlot0(hash, g, v);
    MapAt(hash, g.nodes, g.capacity, k);
    var j :| 0 <= j < |g.nodes[0]| && g.nodes[0][j].key == k;
    assert Slot(hash, k, g.capacity) == 0;
    StoreKeys(map[], g.nodes[0]);
  }
}
