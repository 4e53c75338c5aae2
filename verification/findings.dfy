/**
 Three places where MyHashMap's code departs from the behaviour its design
 promises, each shown on a concrete table, next to a corrected definition
 with the promised property proved.
 */
module Findings {
  import opened Nullable
  import opened JavaInt
  import opened Chain
  import opened Buckets
  import opened MyHashMap
  import opened MyHashMapProofs

  /**
   hashCode(key) for an Integer key small enough not to overflow:
   Objects.hash(k) is 31 + k, made non-negative.
   */
  function IntegerKeyHash(k: int): nat
  {
    var h := 31 + k;
    if h < 0 then -h else h
  }

  /**
   The fixture agrees with MyHashMap.hashCode on the two Integer keys the
   findings use: Objects.hash(k) is 31 + k, and its normalisation leaves
   these non-negative values alone.
   */
  lemma IntegerKeyHashIsHashCode()
    ensures IntegerKeyHash(1) == HashCode(Wrap32(31 + 1)) as int == 32
    ensures IntegerKeyHash(17) == HashCode(Wrap32(31 + 17)) as int == 48
  {
  }

  /**
   As written: getValue answers a one-node chain's head without comparing
   keys (and findNestedNode answers the tail when nothing matches), so a key
   the map never held gets another key's value. With Integer keys 1 and 17
   sharing slot 0 of a fresh map, getValue(17) after put(1, 'x') answers 'x';
   the intended lookup answers null.
   */
  lemma GetValueAnswersAbsentKey()
    ensures var m := Put(IntegerKeyHash, Empty<int, char>(), NonNull(1), 'x');
      && NonNull(17) !in Abstract(m)
      && GetValue(IntegerKeyHash, m, NonNull(17)) == NonNull('x')
      && Get(IntegerKeyHash, m, NonNull(17)) == Null
  {
    OneKeyInSlot0('x');
    var m := Put(IntegerKeyHash, Empty<int, char>(), NonNull(1), 'x');
    assert Slot(IntegerKeyHash, NonNull(17), 16) == 0;
    GetIsAbstract(IntegerKeyHash, m, NonNull(17));
  }

  /**
   As written, on every valid table: a non-null key the map does not hold,
   whose slot is occupied, gets the value of that slot's tail node from
   getValue, where the intended lookup answers null.
   */
  lemma AbsentKeyGetsTail<K, V>(hash: K -> nat, m: HashMap<K, V>, key: Nullable<K>)
    requires Valid(hash, m) && key.NonNull? && key !in Abstract(m)
    requires m.nodes[Slot(hash, key, m.capacity)] != []
    ensures var c := m.nodes[Slot(hash, key, m.capacity)];
      && GetValue(hash, m, key) == NonNull(c[|c| - 1].value)
      && Get(hash, m, key) == Null
  {
    var c := m.nodes[Slot(hash, key, m.capacity)];
    MapAt(hash, m.nodes, m.capacity, key);
    StoreKeys(map[], c);
    GetIsAbstract(hash, m, key);
  }

  /**
   As written, on every valid table: getValue(null) answers the head of
   slot 0 without comparing keys, so when the map holds no null key but
   slot 0 is occupied it answers a real key's value, where the intended
   lookup answers null.
   */
  lemma NullKeyGetsHead<K, V>(hash: K -> nat, m: HashMap<K, V>)
    requires Valid(hash, m) && Null !in Abstract(m) && m.nodes[0] != []
    ensures m.nodes[0][0].key.NonNull?
    ensures GetValue(hash, m, Null) == NonNull(m.nodes[0][0].value)
    ensures Get(hash, m, Null) == Null
  {
    MapAt(hash, m.nodes, m.capacity, Null);
    StoreKeys(map[], m.nodes[0]);
    assert m.nodes[0][0].key in Keys(m.nodes[0]);
    GetIsAbstract(hash, m, Null);
  }

  /** With Integer key 1 in slot 0 of a fresh map, getValue(null) answers 1's value 'x'. */
  lemma NullGetAnswersKeyValue()
    ensures var m := Put(IntegerKeyHash, Empty<int, char>(), NonNull(1), 'x');
      && Null !in Abstract(m)
      && GetValue(IntegerKeyHash, m, Null) == NonNull('x')
      && Get(IntegerKeyHash, m, Null) == Null
  {
    OneKeyInSlot0('x');
    var m := Put(IntegerKeyHash, Empty<int, char>(), NonNull(1), 'x');
    GetIsAbstract(IntegerKeyHash, m, Null);
  }

  /** Integer key 1, put into a fresh map, is the one node of slot 0. */
  lemma OneKeyInSlot0(v: char)
    ensures var m := Put(IntegerKeyHash, Empty<int, char>(), NonNull(1), v);
      && Invariant(IntegerKeyHash, m) && m.size == 1 && m.capacity == 16
      && m.nodes[0] == [Node(NonNull(1), v)]
      && Abstract(m) == map[NonNull(1) := v]
  {
    var h := IntegerKeyHash;
    var e := Empty<int, char>();
    var n := Node(NonNull(1), v);
    EmptyInvariant<int, char>(h);
    PutPreserves(h, e, NonNull(1), v);
    assert EnsureCapacity(h, e) == e;
    assert DefineIndex(h(1), 16) == 0;
    assert Put(h, e, NonNull(1), v) == PutInBucket(e, 0, n);
    assert e.nodes[0] == [];
    assert Abstract(e)[NonNull(1) := v] == map[NonNull(1) := v];
  }

  /** Integer keys 1 and 17, put into a fresh map, share slot 0 in that order. */
  lemma SharedSlot0()
    ensures var h := IntegerKeyHash;
      var m2 := Put(h, Put(h, Empty<int, char>(), NonNull(1), 'a'), NonNull(17), 'c');
      && Invariant(h, m2) && m2.size == 2 && m2.capacity == 16
      && m2.nodes[0] == [Node(NonNull(1), 'a'), Node(NonNull(17), 'c')]
      && Abstract(m2) == map[NonNull(1) := 'a', NonNull(17) := 'c']
  {
    var h := IntegerKeyHash;
    OneKeyInSlot0('a');
    var m1 := Put(h, Empty<int, char>(), NonNull(1), 'a');
    var n := Node(NonNull(17), 'c');
    PutPreserves(h, m1, NonNull(17), 'c');
    assert EnsureCapacity(h, m1) == m1;
    assert DefineIndex(h(17), 16) == 0;
    assert Put(h, m1, NonNull(17), 'c') == PutInBucket(m1, 0, n);
    assert PutNewNode(n, m1.nodes[0]) == (m1.nodes[0] + [n], true);
    assert Abstract(m1)[NonNull(17) := 'c'] == map[NonNull(1) := 'a', NonNull(17) := 'c'];
  }

  /**
   As written: put(null, v) replaces slot 0 wholesale. After put(1, 'a') and
   put(17, 'c') -- both in slot 0 -- put(null, 'b') loses both keys, getSize
   still answers 2 for a map of one key, and getValue(1) answers 'b'.
   */
  lemma NullPutLosesKeys()
    ensures var h := IntegerKeyHash;
      var m2 := Put(h, Put(h, Empty<int, char>(), NonNull(1), 'a'), NonNull(17), 'c');
      var m := Put(h, m2, Null, 'b');
      && NonNull(1) in Abstract(m2) && NonNull(17) in Abstract(m2)
      && Abstract(m) == map[Null := 'b']
      && GetSize(h, m) == 2
      && GetValue(h, m, NonNull(1)) == NonNull('b')
  {
    var h := IntegerKeyHash;
    SharedSlot0();
    var m2 := Put(h, Put(h, Empty<int, char>(), NonNull(1), 'a'), NonNull(17), 'c');
    var m := Put(h, m2, Null, 'b');
    assert EnsureCapacity(h, m2) == m2;
    NullPutOverwritesSlot0(h, m2, 'b');
    var c := m2.nodes[0];
    assert Keys(c) == {NonNull(1), NonNull(17)} by {
      assert c[0].key == NonNull(1) && c[1].key == NonNull(17);
    }
    assert Abstract(m2) - Keys(c) == map[];
    assert Abstract(m) == map[][Null := 'b'];
    assert m.nodes[0] == [Node(Null, 'b')];
    assert Slot(h, NonNull(1), 16) == 0;
  }

  /**
   Corrected insertion step: the null key is chained into slot 0 like any
   other key, instead of replacing the slot.
   */
  function PutEntryFixed<K(==), V>(hash: K -> nat, m: HashMap<K, V>, key: Nullable<K>, value: V): (r: HashMap<K, V>)
    requires WellFormed(m)
    ensures WellFormed(r) && r.capacity == m.capacity && r.threshold == m.threshold
    ensures key.NonNull? ==> r == PutEntry(hash, m, key, value)
    ensures key.Null? ==> forall i :: 0 < i < |m.nodes| ==> r.nodes[i] == m.nodes[i]
    ensures key.Null? && Null !in Keys(m.nodes[0]) ==>
      r.nodes[0] == m.nodes[0] + [Node(Null, value)] && r.size == m.size + 1
    ensures key.Null? && Null in Keys(m.nodes[0]) ==>
      && r.size == m.size
      && exists j :: 0 <= j < |m.nodes[0]| && m.nodes[0][j].key.Null?
           && r.nodes[0] == m.nodes[0][j := Node(Null, value)]
  {
    PutInBucket(m, Slot(hash, key, m.capacity), Node(key, value))
  }

  /**
   The corrected insertion step keeps every placement invariant and stores
   the pair for every key, null included; `size` grows exactly when the key
   is new.
   */
  lemma PutEntryFixedStores<K, V>(hash: K -> nat, m: HashMap<K, V>, key: Nullable<K>, v: V)
    requires Valid(hash, m)
    ensures var r := PutEntryFixed(hash, m, key, v);
      && Valid(hash, r)
      && Abstract(r) == Abstract(m)[key := v]
      && r.size == (if key in Abstract(m) then m.size else m.size + 1)
  {
    PutInBucketValid(hash, m, Node(key, v));
  }
}
