/**
 A collision chain of MyHashMap: the singly-linked list of nodes hanging
 off one bucket slot, modelled as a sequence from head to tail.
 */
module Chain {
  import opened Nullable

  /** MyHashMap.Node without its `next` link: the link is the node's successor in the sequence. */
  datatype Node<K, V> = Node(key: Nullable<K>, value: V)

  /** Node.equals: `Objects.equals(key, this.key)`, under which null equals only null. */
  predicate NodeEquals<K(==), V>(node: Node<K, V>, key: Nullable<K>): (r: bool)
    ensures key.Null? ==> (r <==> node.key.Null?)
    ensures key.NonNull? ==> (r <==> node.key.NonNull? && node.key.value == key.value)
  {
    key == node.key
  }

  /** The keys held by a chain. */
  ghost function Keys<K, V>(c: seq<Node<K, V>>): set<Nullable<K>>
  {
    set i | 0 <= i < |c| :: c[i].key
  }

  /** No two nodes of the chain share a key. */
  ghost predicate DistinctKeys<K, V>(c: seq<Node<K, V>>)
  {
    forall i, j :: 0 <= i < j < |c| ==> c[i].key != c[j].key
  }

  /** Applies the nodes' key/value pairs to `base` in order, later nodes winning. */
  ghost function Store<K, V>(base: map<Nullable<K>, V>, es: seq<Node<K, V>>): map<Nullable<K>, V>
    decreases |es|
  {
    if |es| == 0 then base
    else Store(base, es[..|es| - 1])[es[|es| - 1].key := es[|es| - 1].value]
  }

  /** The key/value map a chain (or any sequence of nodes) denotes. */
  ghost function ToMap<K, V>(es: seq<Node<K, V>>): map<Nullable<K>, V>
  {
    Store(map[], es)
  }

  /**
   MyHashMap.getLastCollisionNode: walks to the node whose `next` is null;
   null when the slot is empty.
   */
  function LastCollisionNode<K, V>(c: seq<Node<K, V>>): (r: Nullable<Node<K, V>>)
    ensures r.Null? <==> |c| == 0
    ensures |c| > 0 ==> r == NonNull(c[|c| - 1])
  {
    if |c| == 0 then Null
    else if |c| == 1 then NonNull(c[0])
    else LastCollisionNode(c[1..])
  }

  /**
   MyHashMap.findNestedNode: walks the chain until a node equals the key or
   the node has no successor. It answers the first matching node, and the
   tail node when no node matches.
   */
  function FindNestedNode<K(==), V>(c: seq<Node<K, V>>, key: Nullable<K>): (r: Node<K, V>)
    requires |c| > 0
    ensures key in Keys(c) ==>
      exists i :: 0 <= i < |c| && c[i] == r && r.key == key && forall j :: 0 <= j < i ==> c[j].key != key
    ensures key !in Keys(c) ==> r == c[|c| - 1]
  {
    if |c| > 1 && !NodeEquals(c[0], key) then
      var r := FindNestedNode(c[1..], key);
      KeysCons(c);
      r
    else
      assert c[0].key in Keys(c);
      c[0]
  }

  /**
   The lookup the map is meant to perform: the value of the node whose key
   equals `key`, or null when no node does.
   */
  function Lookup<K(==), V>(c: seq<Node<K, V>>, key: Nullable<K>): (r: Nullable<V>)
    ensures r.Null? <==> key !in Keys(c)
    ensures r.NonNull? ==> Node(key, r.value) in c
  {
    if |c| == 0 then Null
    else if NodeEquals(c[0], key) then NonNull(c[0].value)
    else
      var r := Lookup(c[1..], key);
      KeysCons(c);
      r
  }

  /**
   MyHashMap.putNewNode: walks the chain from `c`'s head. A node whose key
   equals the new node's key gets the new value in place; otherwise the new
   node is linked after the tail and the second component (the `size++`) is
   true. An empty chain (a null `currentNode`) is left alone.
   */
  function PutNewNode<K(==), V>(node: Node<K, V>, c: seq<Node<K, V>>): (r: (seq<Node<K, V>>, bool))
    ensures |c| == 0 ==> r == ([], false)
    ensures r.1 <==> |c| > 0 && node.key !in Keys(c)
    ensures r.1 ==> r.0 == c + [node]
    ensures |c| > 0 && node.key in Keys(c) ==>
      exists i :: 0 <= i < |c| && c[i].key == node.key
        && (forall j :: 0 <= j < i ==> c[j].key != node.key)
        && r.0 == c[i := Node(c[i].key, node.value)]
  {
    if |c| == 0 then (c, false)
    else if NodeEquals(node, c[0].key) then (c[0 := Node(c[0].key, node.value)], false)
    else if |c| == 1 then
      assert node.key !in Keys(c);
      (c + [node], true)
    else
      var (rest, added) := PutNewNode(node, c[1..]);
      KeysCons(c);
      assert added ==> [c[0]] + rest == c + [node] by {
        if added { assert [c[0]] + (c[1..] + [node]) == c + [node]; }
      }
      if added then ([c[0]] + rest, added)
      else
        FirstMatchShifts(c, node, rest);
        ([c[0]] + rest, added)
  }

  /**
   The first match of a chain's tail, one position further on, is the first
   match of the whole chain when the head does not match.
   */
  lemma FirstMatchShifts<K, V>(c: seq<Node<K, V>>, node: Node<K, V>, rest: seq<Node<K, V>>)
    requires |c| > 1 && c[0].key != node.key
    requires (exists i ::
                && 0 <= i < |c[1..]| && c[1..][i].key == node.key
                && (forall j :: 0 <= j < i ==> c[1..][j].key != node.key)
                && rest == c[1..][i := Node(c[1..][i].key, node.value)])
    ensures (exists i ::
               && 0 <= i < |c| && c[i].key == node.key
               && (forall j :: 0 <= j < i ==> c[j].key != node.key)
               && [c[0]] + rest == c[i := Node(c[i].key, node.value)])
  {
    var i :| 0 <= i < |c[1..]| && c[1..][i].key == node.key
      && (forall j :: 0 <= j < i ==> c[1..][j].key != node.key)
      && rest == c[1..][i := Node(c[1..][i].key, node.value)];
    assert [c[0]] + rest == c[i + 1 := Node(c[i + 1].key, node.value)];
    forall j | 0 <= j < i + 1 ensures c[j].key != node.key {
      if j > 0 { assert c[j] == c[1..][j - 1]; }
    }
  }

  lemma KeysCons<K, V>(c: seq<Node<K, V>>)
    requires |c| > 0
    ensures Keys(c) == {c[0].key} + Keys(c[1..])
  {
    forall k | k in Keys(c) ensures k in {c[0].key} + Keys(c[1..]) {
      var i :| 0 <= i < |c| && c[i].key == k;
      if i > 0 { assert c[1..][i - 1].key == k; }
    }
    forall k | k in Keys(c[1..]) ensures k in Keys(c) {
      var i :| 0 <= i < |c[1..]| && c[1..][i].key == k;
      assert c[i + 1].key == k;
    }
  }

  lemma KeysSnoc<K, V>(c: seq<Node<K, V>>, n: Node<K, V>)
    ensures Keys(c + [n]) == Keys(c) + {n.key}
  {
    forall k | k in Keys(c + [n]) ensures k in Keys(c) + {n.key} {
      var i :| 0 <= i < |c + [n]| && (c + [n])[i].key == k;
      if i < |c| { assert c[i].key == k; }
    }
    forall k | k in Keys(c) ensures k in Keys(c + [n]) {
      var i :| 0 <= i < |c| && c[i].key == k;
      assert (c + [n])[i].key == k;
    }
    assert (c + [n])[|c|].key == n.key;
  }

  /** The keys of the stored map are the base's keys and the nodes' keys. */
  lemma {:induction false} StoreKeys<K, V>(base: map<Nullable<K>, V>, es: seq<Node<K, V>>)
    ensures Store(base, es).Keys == base.Keys + Keys(es)
    decreases |es|
  {
    if |es| > 0 {
      var init := es[..|es| - 1];
      StoreKeys(base, init);
      assert es == init + [es[|es| - 1]];
      KeysSnoc(init, es[|es| - 1]);
    }
  }

  /** With distinct keys, every node's value is what the stored map holds for its key. */
  lemma {:induction false} StoreInside<K, V>(base: map<Nullable<K>, V>, es: seq<Node<K, V>>, i: int)
    requires DistinctKeys(es) && 0 <= i < |es|
    ensures es[i].key in Store(base, es) && Store(base, es)[es[i].key] == es[i].value
    decreases |es|
  {
    if i < |es| - 1 {
      var init := es[..|es| - 1];
      StoreInside(base, init, i);
      assert init[i] == es[i];
    }
  }

  /** A key no node carries keeps its base entry. */
  lemma {:induction false} StoreOutside<K, V>(base: map<Nullable<K>, V>, es: seq<Node<K, V>>, key: Nullable<K>)
    requires key !in Keys(es)
    ensures key in Store(base, es) <==> key in base
    ensures key in base ==> Store(base, es)[key] == base[key]
    decreases |es|
  {
    if |es| > 0 {
      var init := es[..|es| - 1];
      assert es == init + [es[|es| - 1]];
      KeysSnoc(init, es[|es| - 1]);
      StoreOutside(base, init, key);
    }
  }

  /** Storing a concatenation stores the first part, then the second. */
  lemma {:induction false} StoreAppend<K, V>(base: map<Nullable<K>, V>, a: seq<Node<K, V>>, b: seq<Node<K, V>>)
    ensures Store(base, a + b) == Store(Store(base, a), b)
    decreases |b|
  {
    if |b| == 0 {
      assert a + b == a;
    } else {
      var binit := b[..|b| - 1];
      assert (a + b)[..|a + b| - 1] == a + binit;
      StoreAppend(base, a, binit);
    }
  }

  /** Distinct keys, none already in the base, each add one entry. */
  lemma {:induction false} StoreCard<K, V>(base: map<Nullable<K>, V>, es: seq<Node<K, V>>)
    requires DistinctKeys(es) && base.Keys !! Keys(es)
    ensures |Store(base, es)| == |base| + |es|
    decreases |es|
  {
    if |es| > 0 {
      var init := es[..|es| - 1];
      var last := es[|es| - 1];
      assert es == init + [last];
      KeysSnoc(init, last);
      StoreCard(base, init);
      StoreKeys(base, init);
      forall i | 0 <= i < |init| ensures init[i].key != last.key {
        assert init[i] == es[i];
      }
    }
  }

  /** With distinct keys, the first-match lookup agrees with the chain's map in both directions. */
  lemma LookupIsToMap<K, V>(c: seq<Node<K, V>>, key: Nullable<K>)
    requires DistinctKeys(c)
    ensures Lookup(c, key) == if key in ToMap(c) then NonNull(ToMap(c)[key]) else Null
  {
    StoreKeys(map[], c);
    var r := Lookup(c, key);
    if r.NonNull? {
      var i :| 0 <= i < |c| && c[i] == Node(key, r.value);
      StoreInside(map[], c, i);
    }
  }

  /** With distinct keys, the node findNestedNode answers for a present key holds the chain's value. */
  lemma FindNestedNodeIsToMap<K, V>(c: seq<Node<K, V>>, key: Nullable<K>)
    requires |c| > 0 && DistinctKeys(c) && key in ToMap(c)
    ensures FindNestedNode(c, key).value == ToMap(c)[key]
  {
    StoreKeys(map[], c);
    var i :| 0 <= i < |c| && c[i] == FindNestedNode(c, key) && c[i].key == key;
    StoreInside(map[], c, i);
  }

  /** A one-node chain: its key, and the map holding just its pair. */
  lemma Singleton<K, V>(n: Node<K, V>)
    ensures Keys([n]) == {n.key} && DistinctKeys([n])
    ensures ToMap([n]) == map[n.key := n.value]
  {
    assert [n][0].key == n.key;
    assert [n][..0] == [];
    assert ToMap([n]) == Store(map[], [])[n.key := n.value];
    assert map[][n.key := n.value] == map[n.key := n.value];
  }

  /** Overwriting one node's value in place keeps the keys and updates the map at that key. */
  lemma UpdateInPlace<K, V>(c: seq<Node<K, V>>, i: int, v: V)
    requires DistinctKeys(c) && 0 <= i < |c|
    ensures DistinctKeys(c[i := Node(c[i].key, v)])
    ensures Keys(c[i := Node(c[i].key, v)]) == Keys(c)
    ensures ToMap(c[i := Node(c[i].key, v)]) == ToMap(c)[c[i].key := v]
  {
    var c' := c[i := Node(c[i].key, v)];
    forall k | k in Keys(c') ensures k in Keys(c) {
      var j :| 0 <= j < |c'| && c'[j].key == k;
      assert c[j].key == k;
    }
    forall k | k in Keys(c) ensures k in Keys(c') {
      var j :| 0 <= j < |c| && c[j].key == k;
      assert c'[j].key == k;
    }
    StoreKeys(map[], c);
    StoreKeys(map[], c');
    var m := ToMap(c)[c[i].key := v];
    forall j | 0 <= j < |c'| ensures c'[j].key in m && ToMap(c')[c'[j].key] == m[c'[j].key] {
      StoreInside(map[], c', j);
      StoreInside(map[], c, j);
    }
    assert ToMap(c').Keys == m.Keys;
  }

  /** putNewNode keeps a chain's keys distinct and updates its map at the new node's key. */
  lemma PutNewNodeUpdates<K, V>(node: Node<K, V>, c: seq<Node<K, V>>)
    requires |c| > 0 && DistinctKeys(c)
    ensures DistinctKeys(PutNewNode(node, c).0)
    ensures Keys(PutNewNode(node, c).0) == Keys(c) + {node.key}
    ensures ToMap(PutNewNode(node, c).0) == ToMap(c)[node.key := node.value]
  {
    var (c', added) := PutNewNode(node, c);
    if added {
      KeysSnoc(c, node);
      assert c'[..|c'| - 1] == c;
      forall i | 0 <= i < |c| ensures c[i].key != node.key {
        assert c[i].key in Keys(c);
      }
    } else {
      var i :| 0 <= i < |c| && c[i].key == node.key && c' == c[i := Node(c[i].key, node.value)];
      UpdateInPlace(c, i, node.value);
      assert c[i].key in Keys(c);
    }
  }
}
