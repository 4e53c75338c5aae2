/**
 MyHashMap: a hash map with separate chaining. The object's fields become an
 immutable `HashMap` value and every mutating method a function returning
 the new value.
 */
module MyHashMap {
  import opened Nullable
  import opened JavaInt
  import opened Chain
  import opened Buckets

  /** The fields of MyHashMap; `nodes[i]` is the chain hanging off slot `i`, empty for a null slot. */
  datatype HashMap<K, V> = HashMap(capacity: nat, size: nat, threshold: nat, nodes: seq<seq<Node<K, V>>>)

  /** The shape every MyHashMap has: a positive capacity and one slot per unit of capacity. */
  predicate WellFormed<K, V>(m: HashMap<K, V>)
  {
    m.capacity > 0 && |m.nodes| == m.capacity
  }

  /** The number of nodes reachable from the slots. */
  ghost function Count<K, V>(m: HashMap<K, V>): nat
  {
    |Flatten(m.nodes)|
  }

  /** The key/value map the table denotes. */
  ghost function Abstract<K, V>(m: HashMap<K, V>): map<Nullable<K>, V>
  {
    ToMap(Flatten(m.nodes))
  }

  /**
   The placement invariants: every node in the slot of its key, no key twice
   in a chain, and `size` counting the nodes.
   */
  ghost predicate Valid<K, V>(hash: K -> nat, m: HashMap<K, V>)
  {
    && WellFormed(m)
    && Placed(hash, m.nodes, m.capacity)
    && ChainsDistinct(m.nodes)
    && m.size == Count(m)
  }

  /** The load bookkeeping: the threshold is three quarters of the capacity and `size` never exceeds it. */
  ghost predicate Sized<K, V>(m: HashMap<K, V>)
  {
    m.threshold == Threshold(m.capacity) && m.size <= m.threshold
  }

  /** A null key, when present, is the head of its chain (slot 0, by placement). */
  ghost predicate NullFirst<K, V>(m: HashMap<K, V>)
  {
    forall i, j :: 0 <= i < |m.nodes| && 0 <= j < |m.nodes[i]| && m.nodes[i][j].key.Null? ==> j == 0
  }

  /** Everything put with a non-null key and resizeList preserve. */
  ghost predicate Invariant<K, V>(hash: K -> nat, m: HashMap<K, V>)
  {
    Valid(hash, m) && Sized(m) && NullFirst(m)
  }

  /** A table of `capacity` null slots, as the constructor and resizeList allocate it. */
  function NewTable<K, V>(capacity: nat): (m: HashMap<K, V>)
    requires capacity > 0
    ensures WellFormed(m) && m.capacity == capacity && m.size == 0 && m.threshold == Threshold(capacity)
    ensures Count(m) == 0 && Abstract(m) == map[]
  {
    var m := HashMap(capacity, 0, Threshold(capacity), seq(capacity, _ => []));
    FlattenEmpty(m.nodes);
    m
  }

  /** The constructor MyHashMap(): capacity 16, size 0, threshold 12, every slot null. */
  function Empty<K, V>(): (m: HashMap<K, V>)
    ensures WellFormed(m) && m.capacity == 16 && m.size == 0 && m.threshold == 12
    ensures forall i :: 0 <= i < |m.nodes| ==> m.nodes[i] == []
    ensures Abstract(m) == map[]
  {
    NewTable(DEFAULT_START_CAPACITY)
  }

  /**
   The non-null branch of put after the index is known: a null slot gets the
   node as its head and `size` grows; otherwise putNewNode walks the chain.
   */
  function PutInBucket<K(==), V>(m: HashMap<K, V>, index: nat, node: Node<K, V>): (r: HashMap<K, V>)
    requires WellFormed(m) && index < m.capacity
    ensures WellFormed(r) && r.capacity == m.capacity && r.threshold == m.threshold
    ensures Count(r) <= Count(m) + 1
    ensures forall i :: 0 <= i < |m.nodes| && i != index ==> r.nodes[i] == m.nodes[i]
    ensures node.key !in Keys(m.nodes[index]) ==>
      r.nodes[index] == m.nodes[index] + [node] && r.size == m.size + 1
    ensures node.key in Keys(m.nodes[index]) ==>
      && r.size == m.size
      && exists j :: 0 <= j < |m.nodes[index]| && m.nodes[index][j].key == node.key
           && (forall k :: 0 <= k < j ==> m.nodes[index][k].key != node.key)
           && r.nodes[index] == m.nodes[index][j := Node(node.key, node.value)]
  {
    if LastCollisionNode(m.nodes[index]).Null? then
      FlattenUpdateLength(m.nodes, index, [node]);
      m.(nodes := m.nodes[index := [node]], size := m.size + 1)
    else
      var (chain, added) := PutNewNode(node, m.nodes[index]);
      FlattenUpdateLength(m.nodes, index, chain);
      m.(nodes := m.nodes[index := chain], size := if added then m.size + 1 else m.size)
  }

  /**
   put after its resize check: a null key replaces slot 0 by a one-node
   chain, counting it only if the slot was null; any other key goes to slot
   defineIndex(hash).
   */
  function PutEntry<K(==), V>(hash: K -> nat, m: HashMap<K, V>, key: Nullable<K>, value: V): (r: HashMap<K, V>)
    requires WellFormed(m)
    ensures WellFormed(r) && r.capacity == m.capacity && r.threshold == m.threshold
    ensures Count(r) <= Count(m) + 1
  {
    var newNode := Node(key, value);
    if key.Null? && |m.nodes[0]| == 0 then
      FlattenUpdateLength(m.nodes, 0, [newNode]);
      m.(nodes := m.nodes[0 := [newNode]], size := m.size + 1)
    else if key.Null? then
      FlattenUpdateLength(m.nodes, 0, [newNode]);
      m.(nodes := m.nodes[0 := [newNode]])
    else
      PutInBucket(m, DefineIndex(hash(key.value), m.capacity), newNode)
  }

  /** MyHashMap.put: resize when `size >= threshold`, then insert or overwrite. */
  function Put<K(==), V>(hash: K -> nat, m: HashMap<K, V>, key: Nullable<K>, value: V): (r: HashMap<K, V>)
    requires WellFormed(m)
    ensures WellFormed(r)
    ensures Count(r) <= Count(m) + 1
    decreases Count(m), 3, 0
  {
    PutEntry(hash, EnsureCapacity(hash, m), key, value)
  }

  /** The check at the start of put: resizeList runs exactly when `size >= threshold`. */
  function EnsureCapacity<K(==), V>(hash: K -> nat, m: HashMap<K, V>): (r: HashMap<K, V>)
    requires WellFormed(m)
    ensures WellFormed(r) && r.capacity >= m.capacity
    ensures Count(r) <= Count(m)
    decreases Count(m), 2, 0
  {
    if m.size >= m.threshold then Resize(hash, m) else m
  }

  /**
   MyHashMap.resizeList: double the capacity, recompute the threshold, start
   from an all-null array with `size` 0, and put every old node again in
   slot order, each chain head to tail (reassignNodesPositions).
   */
  function Resize<K(==), V>(hash: K -> nat, m: HashMap<K, V>): (r: HashMap<K, V>)
    requires WellFormed(m)
    ensures WellFormed(r) && r.capacity >= m.capacity * INCREASE_CAPACITY_VALUE
    ensures Count(r) <= Count(m)
    decreases Count(m), 1, 0
  {
    Reassign(hash, NewTable(m.capacity * INCREASE_CAPACITY_VALUE), Flatten(m.nodes))
  }

  /** MyHashMap.reassignNodesPositions over a run of nodes: put each one, in order. */
  function Reassign<K(==), V>(hash: K -> nat, acc: HashMap<K, V>, es: seq<Node<K, V>>): (r: HashMap<K, V>)
    requires WellFormed(acc)
    ensures WellFormed(r) && r.capacity >= acc.capacity
    ensures Count(r) <= Count(acc) + |es|
    decreases Count(acc) + |es|, 0, |es|
  {
    if |es| == 0 then acc
    else Reassign(hash, Put(hash, acc, es[0].key, es[0].value), es[1..])
  }

  /**
   MyHashMap.getValue. A null key answers the head of slot 0 (the source
   dereferences it, so slot 0 must be occupied). Any other key answers null
   only for a null slot; a one-node chain answers its head without comparing
   keys, and a longer chain answers the node findNestedNode stops at.
   */
  function GetValue<K(==), V>(hash: K -> nat, m: HashMap<K, V>, key: Nullable<K>): (r: Nullable<V>)
    requires WellFormed(m)
    requires key.Null? ==> |m.nodes[0]| > 0
    ensures key.NonNull? ==> (r.Null? <==> m.nodes[Slot(hash, key, m.capacity)] == [])
    ensures r.NonNull? ==>
      exists j :: 0 <= j < |m.nodes[Slot(hash, key, m.capacity)]| && m.nodes[Slot(hash, key, m.capacity)][j].value == r.value
    ensures key.Null? ==> r == NonNull(m.nodes[0][0].value)
    ensures var c := m.nodes[Slot(hash, key, m.capacity)];
      key.NonNull? && key in Keys(c) ==>
        exists i :: 0 <= i < |c| && c[i].key == key && (forall j :: 0 <= j < i ==> c[j].key != key)
          && r == NonNull(c[i].value)
    ensures var c := m.nodes[Slot(hash, key, m.capacity)];
      key.NonNull? && key !in Keys(c) && c != [] ==> r == NonNull(c[|c| - 1].value)
  {
    if key.Null? then
      assert Slot(hash, key, m.capacity) == 0;
      NonNull(m.nodes[0][0].value)
    else
      var firstNodeOnIndex := m.nodes[DefineIndex(hash(key.value), m.capacity)];
      if |firstNodeOnIndex| == 0 then Null
      else if |firstNodeOnIndex| == 1 then NonNull(firstNodeOnIndex[0].value)
      else NonNull(FindNestedNode(firstNodeOnIndex, key).value)
  }

  /**
   The lookup the map's design intends: the value stored under `key` in its
   slot's chain, or null when the chain has no such key.
   */
  function Get<K(==), V>(hash: K -> nat, m: HashMap<K, V>, key: Nullable<K>): (r: Nullable<V>)
    requires WellFormed(m)
    ensures r.Null? <==> key !in Keys(m.nodes[Slot(hash, key, m.capacity)])
  {
    Lookup(m.nodes[Slot(hash, key, m.capacity)], key)
  }

  /** On a table satisfying the placement invariants, `size` is the number of keys the map holds. */
  lemma SizeCountsKeys<K, V>(hash: K -> nat, m: HashMap<K, V>)
    ensures Valid(hash, m) ==> m.size == |Abstract(m)|
  {
    if Valid(hash, m) {
      MapSize(hash, m.nodes, m.capacity);
    }
  }

  /** MyHashMap.getSize: the `size` field, which is the number of keys whenever the invariants hold. */
  function GetSize<K, V>(hash: K -> nat, m: HashMap<K, V>): (r: nat)
    ensures r == m.size
    ensures Valid(hash, m) ==> r == |Abstract(m)|
  {
    SizeCountsKeys(hash, m);
    m.size
  }
}
