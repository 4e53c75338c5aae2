# MyHashMap in Dafny

A Dafny model of `MyHashMap<K, V>`, a generic hash map with separate
chaining. The map keeps an array of bucket slots. Each slot is null or the
head of a singly-linked chain of `Node`s. `put` inserts or overwrites a
pair. A null key always goes to slot 0, and it replaces whatever that slot
held. `getValue` looks a key up, and `getSize` reports the pair count. When
`size >= threshold` at the start of a `put`, `resizeList` runs first. It
doubles the capacity, recomputes the threshold as three quarters of the
capacity, and replays every node through `put`.

The model is functional. The object's fields become an immutable `HashMap`
value (`capacity`, `size`, `threshold`, `nodes`), and each slot becomes a
`seq<Node>` holding its chain from head to tail. Every mutating method
becomes a function that returns the new table. Keys are `Nullable<K>`, so
Java's null key is `Null`. `getValue` answers `Nullable<V>`, where `Null` is
its `return null`. The key's normalised hash, `hashCode(key)`, is a
parameter `hash: K -> nat` of every operation.

`put`, `resizeList` and `reassignNodesPositions` are mutually recursive in
the source: the resize replays nodes through the full `put`, size check
included. The model keeps that recursion (`Put`, `EnsureCapacity`,
`Resize`, `Reassign`). Termination is proved by the number of nodes in the
table. `ReassignReplays` then shows that on a table satisfying the
invariants, the size check inside the replay never fires.

Modules and files:

- `nullable.dfy` (`Nullable`): Java's nullable references.
- `java_int.dfy` (`JavaInt`): 32-bit `hashCode` normalisation, Java's
  truncating `%`, `defineIndex`, and the threshold.
- `chain.dfy` (`Chain`): `Node`, `Node.equals`, `getLastCollisionNode`,
  `findNestedNode`, `putNewNode`, and the map a chain denotes.
- `buckets.dfy` (`Buckets`): the slot array, placement of keys in slots,
  and the abstraction from slots to a map.
- `hash_map.dfy` (`MyHashMap`): the table and its operations.
- `hash_map_proofs.dfy` (`MyHashMapProofs`): the invariants and what put,
  resize and getValue do to the abstract map.
- `scenarios.dfy` (`Scenarios`): sequences of operations.
- `findings.dfy` (`Findings`): the three defects listed below.

The invariants (`MyHashMap.Invariant`):

- `Valid`: every node sits in slot `Slot(key)`, which is
  `hash(k) % capacity` for a non-null key and 0 for the null key. Keys are
  distinct within each chain, and `size` equals the number of nodes.
- `Sized`: `threshold == capacity * 3 / 4` and `size <= threshold`.
- `NullFirst`: a null key can only be the head of a chain.

The abstract map `Abstract(m)` applies every node's pair in the order
`resizeList` visits them.

## Model

| member | source | states |
|---|---|---|
| JavaInt.Wrap32 | src/main/java/core/basesyntax/MyHashMap.java:73 | The exact product `hashcode * -1` truncated to a Java `int`: the result is in the `int` range and congruent to the exact value modulo 2^32. |
| JavaInt.HashCode | src/main/java/core/basesyntax/MyHashMap.java:71-74 | A hash other than Integer.MIN_VALUE becomes its absolute value. MIN_VALUE stays MIN_VALUE, because `hashcode * -1` wraps. |
| JavaInt.Rem | src/main/java/core/basesyntax/MyHashMap.java:94 | Java's `%` with a positive divisor. A non-negative dividend gives a remainder in `[0, b)` equal to the Euclidean one; a negative dividend gives one in `(-b, 0]`. |
| JavaInt.DefineIndex | src/main/java/core/basesyntax/MyHashMap.java:93-95 | For a non-negative hash the index lies in `[0, capacity)` and equals `hash % capacity`. A negative hash gives a non-positive index. |
| JavaInt.MinValueIndex | src/main/java/core/basesyntax/MyHashMap.java:71-74 | For every capacity that divides 2^31, Integer.MIN_VALUE still gets index 0, a valid slot. |
| JavaInt.Threshold | src/main/java/core/basesyntax/MyHashMap.java:17 | The threshold is the floor of 0.75 × capacity. |
| Chain.NodeEquals | src/main/java/core/basesyntax/MyHashMap.java:87-90 | `Objects.equals(key, this.key)`: a null key equals exactly a null node key, and a non-null key equals exactly a non-null node key with an equal value. |
| Chain.LastCollisionNode | src/main/java/core/basesyntax/MyHashMap.java:97-106 | Answers null exactly when the slot is empty, and otherwise the chain's tail node. |
| Chain.FindNestedNode | src/main/java/core/basesyntax/MyHashMap.java:108-113 | Answers the first node whose key equals the key if there is one, and the tail node if there is none. |
| Chain.PutNewNode | src/main/java/core/basesyntax/MyHashMap.java:115-130 | A new key is linked after the tail and reported as counted (`size++`). An existing key's first node gets the new value in place, with nothing counted. An empty chain is left alone. |
| Chain.PutNewNodeUpdates | src/main/java/core/basesyntax/MyHashMap.java:115-130 | On a chain with distinct keys, putNewNode keeps the keys distinct, adds the key to the key set, and updates the chain's map at that key. |
| Chain.Lookup | src/main/java/core/basesyntax/MyHashMap.java:108-113 | The lookup findNestedNode is meant to perform: null exactly when no node of the chain has the key, and otherwise the value of a node (key, value) in the chain. |
| Chain.FindNestedNodeIsToMap | src/main/java/core/basesyntax/MyHashMap.java:108-113 | With distinct keys, the node found for a present key carries that key's value. |
| Buckets.Flatten | src/main/java/core/basesyntax/MyHashMap.java:138-149 | The order resizeList replays nodes in. Slot 0's chain, head to tail, comes first. |
| Buckets.FlattenMembers | src/main/java/core/basesyntax/MyHashMap.java:138-149 | The replay visits every node of every slot, and no other node. |
| Buckets.Slot | src/main/java/core/basesyntax/MyHashMap.java:28-37 | The null key goes to slot 0 and any other key to `hash % capacity`. Both lie in `[0, capacity)`. |
| MyHashMap.NewTable | src/main/java/core/basesyntax/MyHashMap.java:132-137 | A freshly allocated array has `size` 0, the threshold of its capacity, no nodes and the empty map. |
| MyHashMap.Empty | src/main/java/core/basesyntax/MyHashMap.java:14-19 | The constructor gives capacity 16, size 0, threshold 12, every slot null, and the empty map. |
| MyHashMap.PutInBucket | src/main/java/core/basesyntax/MyHashMap.java:37-44 | The chain step keeps shape, capacity and threshold, and leaves every other slot untouched. A key not in the slot is linked after its tail (as the head of a null slot) and `size` grows by one. A key already there has its first node's value overwritten in place, and `size` stays. |
| MyHashMap.PutEntry | src/main/java/core/basesyntax/MyHashMap.java:26-44 | The insert step after the size check keeps shape, capacity and threshold, and adds at most one node. |
| MyHashMap.Put | src/main/java/core/basesyntax/MyHashMap.java:22-45 | On any well-formed table, put keeps the shape and adds at most one node. This bound is the termination measure of the put/resize recursion. |
| MyHashMap.EnsureCapacity | src/main/java/core/basesyntax/MyHashMap.java:23-25 | The size check never shrinks the capacity and never adds nodes. |
| MyHashMap.Resize | src/main/java/core/basesyntax/MyHashMap.java:132-143 | On any well-formed table, resizeList at least doubles the capacity and never adds nodes. |
| MyHashMap.Reassign | src/main/java/core/basesyntax/MyHashMap.java:145-150 | Replaying nodes adds at most one node per replayed node. |
| MyHashMap.GetValue | src/main/java/core/basesyntax/MyHashMap.java:48-63 | The null key gets the value of slot 0's head. A non-null key gets null exactly when its slot is empty. A key in its slot gets the value of the first node with that key. A key missing from an occupied slot gets the value of the slot's tail node. |
| MyHashMap.Get | src/main/java/core/basesyntax/MyHashMap.java:48-63 | The corrected lookup (see Findings): null exactly when the key's chain lacks the key. |
| MyHashMap.GetSize | src/main/java/core/basesyntax/MyHashMap.java:66-68 | getSize answers the `size` field. Whenever the placement invariants hold, that is the number of keys in the map. |
| MyHashMap.SizeCountsKeys | src/main/java/core/basesyntax/MyHashMap.java:66-68 | On a table satisfying the placement invariants, `size` is the number of keys the map holds. |
| MyHashMapProofs.EmptyInvariant | src/main/java/core/basesyntax/MyHashMap.java:14-19 | The constructor's table satisfies every invariant, denotes the empty map and has getSize 0. |
| MyHashMapProofs.NewTableInvariant | src/main/java/core/basesyntax/MyHashMap.java:136-137 | The array resizeList allocates satisfies every invariant. |
| MyHashMapProofs.ThresholdGrows | src/main/java/core/basesyntax/MyHashMap.java:133-134 | Doubling the capacity strictly raises the threshold. |
| MyHashMapProofs.ChainStep | src/main/java/core/basesyntax/MyHashMap.java:37-44 | After the chain step the key joins the chain's keys and map, and keys stay distinct. A new key is appended and counted. An existing key is overwritten in place and size stays. |
| MyHashMapProofs.PutInBucketShape | src/main/java/core/basesyntax/MyHashMap.java:37-44 | On a valid table the chain step keeps the table valid and touches only the key's slot. A new key becomes the slot's head or is linked after its tail. An existing key is overwritten in place. |
| MyHashMapProofs.PutInBucketValid | src/main/java/core/basesyntax/MyHashMap.java:37-44 | The chain step maps the table's map to the map updated at the key. Size grows exactly when the key is new. |
| MyHashMapProofs.PutInBucketNullFirst | src/main/java/core/basesyntax/MyHashMap.java:37-44 | The chain step for a non-null key keeps a null key at the head of its chain. |
| MyHashMapProofs.NullPutPlaced | src/main/java/core/basesyntax/MyHashMap.java:28-36 | The null branch makes slot 0 the single node (null, v). Size is counted only when slot 0 was empty, so size exceeds the node count by the number of nodes lost. |
| MyHashMapProofs.NullPutOverwritesSlot0 | src/main/java/core/basesyntax/MyHashMap.java:28-36 | The null branch drops every key slot 0 held and maps null to v. |
| MyHashMapProofs.NullPutValid | src/main/java/core/basesyntax/MyHashMap.java:28-36 | When slot 0 holds no non-null key, the null branch keeps the table valid, stores null ↦ v, and grows size exactly when null was absent. |
| MyHashMapProofs.ReassignReplays | src/main/java/core/basesyntax/MyHashMap.java:138-150 | Replaying nodes into a valid table with room never triggers a nested resize, keeps the invariants, and stores the nodes' pairs in order. |
| MyHashMapProofs.ResizePreserves | src/main/java/core/basesyntax/MyHashMap.java:132-150 | resizeList doubles the capacity and sets the threshold to 3/4 of it. It keeps the invariants, the abstract map and the size. |
| MyHashMapProofs.EnsureCapacityPreserves | src/main/java/core/basesyntax/MyHashMap.java:23-25 | The capacity doubles if and only if `size >= threshold`, and otherwise the table is untouched. Afterwards the map and size are unchanged and there is room for one more key. |
| MyHashMapProofs.PutPreserves | src/main/java/core/basesyntax/MyHashMap.java:22-45 | put with a non-null key keeps every invariant and stores the pair. Size grows exactly when the key was absent. |
| MyHashMapProofs.PutNewKey | src/main/java/core/basesyntax/MyHashMap.java:37-44 | For a new non-null key, after the size check its node becomes the head of an empty slot or is linked after the tail. Size grows by one and no other slot changes. |
| MyHashMapProofs.PutExistingKey | src/main/java/core/basesyntax/MyHashMap.java:119-123 | For a present non-null key, that key's node gets the new value in place. Size and the node count stay. |
| MyHashMapProofs.GetValuePresent | src/main/java/core/basesyntax/MyHashMap.java:48-63 | On a valid table, getValue (null key included) and the corrected lookup both answer the stored value of a key the map holds. |
| MyHashMapProofs.GetValueNullMeansAbsent | src/main/java/core/basesyntax/MyHashMap.java:52-62 | A null answer for a non-null key means the key is absent. An absent key whose slot is occupied still gets a value. |
| MyHashMapProofs.GetIsAbstract | src/main/java/core/basesyntax/MyHashMap.java:48-63 | On a valid table, the corrected lookup answers the map's value when the key is present and null when it is absent. |
| MyHashMapProofs.PutThenGet | src/main/java/core/basesyntax/MyHashMap.java:22-63 | getValue(k) right after put(k, v) with non-null k answers v. |
| MyHashMapProofs.PutKeepsOthers | src/main/java/core/basesyntax/MyHashMap.java:22-45 | put of one non-null key leaves every other key's corrected lookup (`Get`) unchanged. |
| MyHashMapProofs.PutNull | src/main/java/core/basesyntax/MyHashMap.java:28-36 | On any well-formed table, put(null, v) makes slot 0 the single node (null, v), grows size only if slot 0 was empty, and getValue(null) then answers v. |
| MyHashMapProofs.PutNullDropsSlot0 | src/main/java/core/basesyntax/MyHashMap.java:28-36 | When slot 0 holds a non-null key, put(null, v) removes that key from the map. With more than one node in slot 0 the table is no longer valid. With exactly one node every invariant still holds, so the loss goes unnoticed. |
| Scenarios.PutsInOrder | src/main/java/core/basesyntax/MyHashMap.java:22-45 | A run of non-null puts keeps the invariants and stores the pairs, with a later put winning. getSize counts the distinct keys. |
| Scenarios.TwoKeys | src/main/java/core/basesyntax/MyHashMap.java:37-63 | Two distinct keys put into a fresh map, colliding or not, are both retrievable and getSize is 2. |
| Scenarios.NullKeyTwice | src/main/java/core/basesyntax/MyHashMap.java:28-36 | put(null, a) then put(null, b) answer a and then b for getValue(null), and getSize stays 1. |
| Scenarios.FirstResize | src/main/java/core/basesyntax/MyHashMap.java:23-25 | A fresh map holds 12 distinct keys at capacity 16. The 13th put moves it to capacity 32 and threshold 24, and every earlier key keeps its value. |
| Findings.IntegerKeyHashIsHashCode | src/main/java/core/basesyntax/MyHashMap.java:71-74 | The Integer-key hash the findings use agrees with hashCode on keys 1 and 17, giving 32 and 48. |
| Findings.AbsentKeyGetsTail | src/main/java/core/basesyntax/MyHashMap.java:58-62 | On every valid table, a non-null key the map lacks whose slot is occupied gets the tail node's value from getValue, while the corrected lookup answers null. |
| Findings.NullKeyGetsHead | src/main/java/core/basesyntax/MyHashMap.java:49-50 | On every valid table without a null key whose slot 0 is occupied, slot 0's head holds a real key. getValue(null) answers that head's value, while the corrected lookup answers null. |
| Findings.NullGetAnswersKeyValue | src/main/java/core/basesyntax/MyHashMap.java:49-50 | In a concrete case, getValue(null) answers Integer key 1's value for a map that holds no null key, where the corrected lookup answers null. |
| Findings.GetValueAnswersAbsentKey | src/main/java/core/basesyntax/MyHashMap.java:58-62 | In a concrete case, getValue answers another key's value for a key the map does not hold, where the corrected lookup answers null. |
| Findings.NullPutLosesKeys | src/main/java/core/basesyntax/MyHashMap.java:28-36 | In a concrete case, put(null) loses two keys, getSize stays 2 for a one-key map, and getValue(1) answers the null key's value. |
| Findings.PutEntryFixed | src/main/java/core/basesyntax/MyHashMap.java:26-44 | The corrected insert step matches the source's step for non-null keys. A null key leaves slots other than 0 untouched. If slot 0 lacks the null key, the node is linked after its tail and `size` grows by one. Otherwise the null key's node is overwritten in place and `size` stays. |
| Findings.PutEntryFixedStores | src/main/java/core/basesyntax/MyHashMap.java:26-44 | The corrected insert step keeps the table valid and stores the pair for every key, null included. |

## Left out

- Objects.hash and the key's own hashCode are calls into library code. The
  map's operations take the already normalised hash as a `K -> nat`
  parameter. Normalisation is modelled on its own (`JavaInt.HashCode`), so
  the operations never see Integer.MIN_VALUE. `JavaInt.MinValueIndex` shows
  that index 0 would be a valid slot for it anyway. `GetSize` takes the
  hash too, although getSize reads no key, so that its contract can state
  what `size` counts on a well-placed table.
- `(int) (0.75f * capacity)` is computed in float; the model uses the exact
  floor `capacity * 3 / 4`. The two agree for every capacity 16·2^n up to
  2^24, and float rounding is not modelled.
- 32-bit overflow of `capacity * 2` and of `size` is not modelled.
  Integers are unbounded.
- The `MyMap` interface is a signature only, and MyMap.java is not part of
  this model.
- JavaInt.Rem: only positive divisors are modelled, because capacity is the
  only divisor `%` ever sees. Its contract for a negative dividend bounds
  the remainder without stating it exactly.
- MyHashMap.GetValue: the NullPointerException of getValue(null) on an
  empty slot 0 is a precondition, not a modelled exception.
- Object identity and aliasing of nodes are not modelled: a chain is a value
  sequence. `resizeList` builds fresh nodes through `put`, and
  `putNewNode` only mutates nodes of the current array, so no behaviour
  depends on sharing.
- Java null values are not distinguished. `V` is any type, and a stored
  null value would look like the "not found" answer in Java.
- `resizeList`'s loop over slots plus the recursion over each chain is
  modelled as a single replay over all nodes in the same order (`Flatten`).
- MyHashMap.Put: its own contract states only shape and a one-node bound,
  which must hold on every table for the put/resize recursion to
  terminate. Its behaviour is stated by `PutPreserves`, `PutNewKey`,
  `PutExistingKey` and `PutNull`.
- MyHashMap.PutEntry: its own contract states only shape and a one-node
  bound. The null branch is stated by `NullPutPlaced` and
  `NullPutOverwritesSlot0`, and the other branch by `PutInBucket`.
- MyHashMap.EnsureCapacity: its own contract states only that the capacity
  does not shrink and no node is added. The exact trigger and what it keeps
  are stated by `EnsureCapacityPreserves`.
- MyHashMap.Resize: its own contract states only that the capacity at
  least doubles and no node is added. Exact doubling, the new threshold, and
  the map and size kept are stated by `ResizePreserves`.
- MyHashMap.Reassign: its own contract states only a node-count bound. The
  replay semantics are stated by `ReassignReplays`.
- JavaInt.MinValueIndex: takes as a precondition that the capacity divides
  2^31. Every capacity 16·2^n up to 2^30 does, but that arithmetic fact is
  not proved here.
- The invariant-preservation lemmas for put take non-null keys. The null
  key is covered separately. When slot 0 holds no real key, a null put keeps
  the invariants and stores null ↦ v (`NullPutValid`). A real key in slot 0
  is lost (`PutNullDropsSlot0`). With one node in slot 0 the invariants
  still hold, so they do not reveal the loss. With more nodes, `size` counts
  more than the nodes that remain.
- Recursion depth is not modelled. findNestedNode, putNewNode and
  reassignNodesPositions recurse once per chain node, so a long collision
  chain ends in StackOverflowError in Java. `FindNestedNode`, `PutNewNode`
  and `Reassign` always return.
- Key equality and hashing are idealised. Node.equals calls the key's own
  `equals` through Objects.equals, and hashCode calls the key's own
  `hashCode`. The model uses Dafny's `==` on `K` and a fixed function
  `hash: K -> nat`. This assumes `equals` is an equivalence consistent with
  `hashCode`, and that no key is mutated after insertion.

## Findings

| source | as written | input that shows it | evidently intended | confidence | as-written member | corrected member |
|---|---|---|---|---|---|---|
| src/main/java/core/basesyntax/MyHashMap.java:58-62 | getValue answers a one-node chain's head without comparing keys. findNestedNode (lines 108-113) answers the tail node when no key matches. | Integer keys, fresh map: put(1, 'x') then getValue(17). Both keys hash to slot 0, and the answer is 'x'. | null for a key the map does not hold, as for an empty slot | high; not executed | Findings.AbsentKeyGetsTail and Findings.GetValueAnswersAbsentKey (on MyHashMap.GetValue) | MyHashMap.Get, proved by MyHashMapProofs.GetIsAbstract |
| src/main/java/core/basesyntax/MyHashMap.java:28-36 | put(null, v) replaces the whole of slot 0, even when it holds real keys. | Integer keys, fresh map: put(1, 'a'), put(17, 'c'), put(null, 'b'). Keys 1 and 17 are gone, getSize answers 2 for one key, and getValue(1) answers 'b'. | the null key kept in slot 0 alongside the keys already there | high; not executed | Findings.NullPutLosesKeys (on MyHashMap.Put) | Findings.PutEntryFixed, proved by Findings.PutEntryFixedStores |
| src/main/java/core/basesyntax/MyHashMap.java:49-50 | getValue(null) answers the head of slot 0 without comparing its key with null. | Integer keys, fresh map: put(1, 'x') then getValue(null). Key 1 hashes to slot 0, and the answer is 'x'. | null when the map holds no null key | high; not executed | Findings.NullKeyGetsHead and Findings.NullGetAnswersKeyValue (on MyHashMap.GetValue) | MyHashMap.Get, proved by MyHashMapProofs.GetIsAbstract |

The rest of the model keeps the source's behaviour so that it describes
the code as written. `GetValuePresent` proves that `GetValue` and the
corrected `Get` agree on every key the map holds. `PutEntryFixed` covers
the insert step only. Resizing a map built with it is not modelled.
