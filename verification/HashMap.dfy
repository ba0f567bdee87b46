/** The chained hash map of `utils/src/hdf_map.c`: it answers as a finite map does, and its table grows with it. */
module HashMap {
  import opened Base
  import opened HashTable
  import opened MapRuns

  lemma FirstSize()
    ensures NextSize(0) == HDF_MIN_MAP_SIZE
  {
  }

  /** What a table holds: the chains of its buckets, their nodes, the node of each key, and the finite map. */
  datatype Shape = Shape(chains: seq<Chain>, members: set<MapNode>, index: map<Key, MapNode>, contents: Bindings)

  const NO_SHAPE := Shape([], {}, map[], map[])

  /** `s` without the node `node`, for which `chains` is what is left of the chains. */
  ghost function Cut(s: Shape, node: MapNode, chains: seq<Chain>): Shape {
    Shape(chains, s.members - {node}, s.index - {node.key}, s.contents - {node.key})
  }

  lemma CutParts(s: Shape, node: MapNode, chains: seq<Chain>)
    ensures var t := Cut(s, node, chains);
      && t.chains == chains && t.members == s.members - {node}
      && t.index == s.index - {node.key} && t.contents == s.contents - {node.key}
  {
  }

  lemma FirstInChain(c: Chain, j: nat, prev: MapNode, node: MapNode, chains: seq<Chain>, idx: nat)
    requires idx < |chains| && c == chains[idx] && j < |c| && c[j] == node && prev == c[if j == 0 then 0 else j - 1]
    ensures InChain(chains, idx, j, prev, node)
  {
  }

  lemma NextInChain(head: MapNode?, c: Chain)
    requires From(head, c)
    ensures head == if c == [] then null else c[0]
    ensures forall j {:trigger c[j].next} :: 0 <= j < |c| ==> c[j].next == if j + 1 < |c| then c[j + 1] else null
  {
  }

  /** `struct Map`. The ghost fields are what the table holds, the nodes that all resizes have relinked, and the keys
      inserted. */
  class Map {
    const signedChar: bool
    var nodes: array?<MapNode?>
    var nodeSize: nat
    var bucketSize: nat
    ghost var shape: Shape
    ghost var relinked: nat
    ghost var inserted: nat

    ghost predicate Holds(s: Shape)
      reads this`nodes, this`nodeSize, this`bucketSize, nodes, s.members`next, s.members`value
    {
      && Members(s.chains) == s.members && Table(nodes, bucketSize, s.chains)
      && Indexed(s.members, s.index, s.contents, signedChar)
      && nodeSize == |s.contents| == Total(s.chains)
    }

    ghost predicate Valid()
      reads this, nodes, shape.members
    {
      Holds(shape)
    }

    ghost function At(s: Shape): Account
      reads this`bucketSize, this`relinked, this`inserted
    {
      Account(s.contents, bucketSize, relinked, inserted)
    }

    /** The finite map that the table represents, and what the run has cost so far. */
    ghost function Now(): Account
      reads this`shape, this`bucketSize, this`relinked, this`inserted
    {
      At(shape)
    }

    /** `MapInit`. */
    constructor (signedChar: bool)
      ensures Valid() && Now() == EMPTY && this.signedChar == signedChar && shape.members == {} && nodes == null
    {
      this.signedChar := signedChar;
      nodes, nodeSize, bucketSize := null, 0, 0;
      shape, relinked, inserted := NO_SHAPE, 0, 0;
    }

    lemma Parts(s: Shape)
      ensures Holds(s) <==> (
        && Members(s.chains) == s.members && Table(nodes, bucketSize, s.chains)
        && Indexed(s.members, s.index, s.contents, signedChar)
        && nodeSize == |s.contents| == Total(s.chains))
    {
    }

    lemma Sizes(s: Shape)
      requires Holds(s)
      ensures bucketSize == 0 || (TableSize(bucketSize) && bucketSize < WORD)
      ensures nodes == null <==> bucketSize == 0
      ensures nodeSize == |s.contents| && (nodes == null ==> nodeSize == 0)
    {
      if nodes != null {
        AtLeastMinimum(bucketSize);
      }
    }

    // Searching.

    lemma Known(s: Shape, key: Key)
      requires Indexed(s.members, s.index, s.contents, signedChar) && key in s.contents
      ensures key in s.index && s.index[key] in s.members
      ensures s.index[key].key == key && s.index[key].hash == Hash(key, signedChar)
    {
    }

    /** A node with the wanted hash and key is in the chain of its bucket, if it is anywhere. */
    lemma AtBucket(s: Shape, key: Key) returns (c: Chain, j: nat)
      requires Placed(s.chains) && key in s.index && s.index[key] in Members(s.chains)
      requires s.index[key].key == key && s.index[key].hash == Hash(key, signedChar)
      ensures |s.chains| > 0 && c == s.chains[BitAnd(Hash(key, signedChar), |s.chains| - 1)]
      ensures j < |c| && c[j].hash == Hash(key, signedChar) && c[j].key == key
    {
      hide *;
      var i, l := WhereIs(s.chains, s.index[key]);
      c, j := s.chains[i], l;
    }

    lemma PlacedAndIndexed(s: Shape)
      requires Holds(s)
      ensures Indexed(s.members, s.index, s.contents, signedChar) && Members(s.chains) == s.members && Placed(s.chains)
    {
    }

    lemma NotThere(s: Shape, key: Key, c: Chain)
      requires Holds(s) && |s.chains| > 0 && c == s.chains[BitAnd(Hash(key, signedChar), |s.chains| - 1)]
      requires forall i {:trigger c[i]} :: 0 <= i < |c| ==> c[i].hash != Hash(key, signedChar) || c[i].key != key
      ensures key !in s.contents
    {
      hide *;
      if key in s.contents {
        PlacedAndIndexed(s);
        Known(s, key);
        var d, j := AtBucket(s, key);
      }
    }

    lemma InIndex(s: Shape, c: Chain, idx: nat, j: nat)
      requires Holds(s) && idx < |s.chains| && c == s.chains[idx] && j < |c|
      ensures c[j].key in s.index && s.index[c[j].key] == c[j] && c[j] in s.members
      ensures c[j].key in s.contents && s.contents[c[j].key] == c[j].value && |c[j].value| == c[j].valueSize
    {
      hide Table, Total, Hash;
      assert s.chains[idx][j] in s.members;
    }

    /** The bucket of a hash, and its chain. */
    lemma Bucket(s: Shape, hash: nat)
      requires Holds(s) && nodes != null
      ensures bucketSize > 0 && |s.chains| == nodes.Length == bucketSize
      ensures BitAnd(hash, bucketSize - 1) < bucketSize
      ensures From(nodes[BitAnd(hash, bucketSize - 1)], s.chains[BitAnd(hash, bucketSize - 1)])
    {
      hide Hash, Indexed, Members, Total;
      AtLeastMinimum(bucketSize);
    }

    /** The search loop of `MapSet` and `MapGet`. */
    method Find(key: Key, hash: nat, ghost s: Shape) returns (found: MapNode?)
      requires Holds(s) && nodes != null && hash == Hash(key, signedChar)
      ensures found == null <==> key !in s.contents
      ensures found != null ==> key in s.index && s.index[key] == found && s.contents[key] == found.value
      ensures found != null ==> |found.value| == found.valueSize && found in s.members
    {
      hide *;
      Bucket(s, hash);
      var idx := BitAnd(hash, bucketSize - 1);
      ghost var c, j := s.chains[idx], 0;
      NextInChain(nodes[idx], c);
      var node := nodes[idx];
      while node != null
        invariant j <= |c| && node == if j < |c| then c[j] else null
        invariant forall i {:trigger c[i]} :: 0 <= i < j ==> c[i].hash != hash || c[i].key != key
        decreases |c| - j
      {
        if node.hash == hash && node.key == key {
          InIndex(s, c, idx, j);
          return node;
        }
        node := node.next;
        j := j + 1;
      }
      NotThere(s, key, c);
      found := null;
    }

    /** The search of `MapSet` and `MapGet`, which is left out while the map has no nodes. */
    method Lookup(key: Key, ghost s: Shape) returns (node: MapNode?, hash: nat)
      requires Holds(s)
      ensures hash == Hash(key, signedChar)
      ensures node == null <==> key !in s.contents
      ensures node != null ==> key in s.index && s.index[key] == node && s.contents[key] == node.value
      ensures node != null ==> |node.value| == node.valueSize && node in s.members
    {
      hide *;
      Sizes(s);
      node := null;
      hash := MapHash(key, signedChar);
      if nodeSize > 0 && nodes != null {
        node := Find(key, hash, s);
      }
    }

    /** `MapGet`; the original returns a pointer to the value, or null. */
    method MapGet(key: Key) returns (found: bool, value: Value)
      requires Valid()
      ensures found <==> key in Now().contents
      ensures found ==> value == Now().contents[key]
    {
      var node, hash := Lookup(key, shape);
      if node == null {
        return false, [];
      }
      return true, node.value;
    }

    // Growing.

    /** The part of `MapResize` after the allocation. */
    method ReplaceTable(size: nat, ghost s: Shape) returns (ghost t: Shape, ghost moved: nat)
      requires Holds(s) && TableSize(size) && size < WORD
      modifies this`nodes, this`bucketSize, s.members`next
      ensures Holds(t) && t == s.(chains := t.chains)
      ensures bucketSize == size && fresh(nodes) && nodes != null && moved == nodeSize
    {
      hide *;
      Parts(s);
      ghost var chains;
      var newNodes;
      newNodes, chains, moved := NewTable(nodes, bucketSize, size, s.chains);
      t := s.(chains := chains);
      nodes := newNodes;
      bucketSize := size;
      Parts(t);
    }

    /** `MapResize`; `ok` says whether the allocation succeeds, which an allocation of size 0 does not. */
    method MapResize(size: nat, ok: bool, ghost s: Shape) returns (ret: int, ghost t: Shape)
      requires Holds(s) && (size == 0 || (TableSize(size) && size < WORD))
      modifies this`nodes, this`bucketSize, this`relinked, s.members`next
      ensures Holds(t) && t == s.(chains := t.chains) && (nodes == old(nodes) || fresh(nodes))
      ensures nodes == null <==> !(ok && size > 0) && old(nodes) == null
      ensures bucketSize == if ok && size > 0 then size else old(bucketSize)
      ensures relinked == if ok && size > 0 then old(relinked) + nodeSize else old(relinked)
      ensures ret == if ok && size > 0 then 0 else -6
    {
      hide Holds, TableSize;
      if ok && size > 0 {
        ghost var moved;
        t, moved := ReplaceTable(size, s);
        relinked := relinked + moved;
        ret := HDF_SUCCESS;
      } else {
        ret, t := HDF_ERR_MALLOC_FAIL, s;
      }
    }

    /** The growth of a full table before an insertion; the result of `MapResize` is ignored. */
    method GrowIfFull(tableOk: bool, ghost s: Shape) returns (ghost t: Shape)
      requires Holds(s)
      modifies this`nodes, this`bucketSize, this`relinked, s.members`next
      ensures Holds(t) && t == s.(chains := t.chains) && (nodes == old(nodes) || fresh(nodes))
      ensures At(t) == Enlarged(old(At(s)), tableOk)
      ensures nodes == null ==> old(nodes) == null && !tableOk
    {
      hide Holds, TableSize, NextSize;
      Sizes(s);
      NextIsTableSize(bucketSize);
      FirstSize();
      t := s;
      if nodeSize >= bucketSize {
        var ret;
        ret, t := MapResize(NextSize(bucketSize), tableOk, s);
      }
    }

    // Inserting.

    /** Puts a node for a new key into the table; `nodeSize` is still to be counted up. */
    method PutNode(node: MapNode, ghost s: Shape) returns (ghost t: Shape)
      requires Holds(s) && nodes != null && node !in s.members && node.key !in s.contents
      requires node.hash == Hash(node.key, signedChar) && |node.value| == node.valueSize
      modifies nodes, node`next
      ensures Members(t.chains) == t.members && Table(nodes, bucketSize, t.chains)
      ensures Indexed(t.members, t.index, t.contents, signedChar) && Total(t.chains) == Total(s.chains) + 1
      ensures t.members == s.members + {node} && t.contents == s.contents[node.key := node.value]
    {
      hide *;
      Parts(s);
      IndexedPlus(s.members, s.index, s.contents, signedChar, node);
      ghost var chains := AddToTable(nodes, bucketSize, node, s.chains);
      t := Shape(chains, s.members + {node}, s.index[node.key := node], s.contents[node.key := node.value]);
    }

    method InsertNode(node: MapNode, ghost s: Shape) returns (ghost t: Shape)
      requires Holds(s) && nodes != null && node !in s.members && node.key !in s.contents
      requires node.hash == Hash(node.key, signedChar) && |node.value| == node.valueSize
      modifies this`nodeSize, this`inserted, nodes, node`next
      ensures Holds(t) && t.contents == s.contents[node.key := node.value] && t.members == s.members + {node}
      ensures inserted == old(inserted) + 1
    {
      hide *;
      Parts(s);
      t := PutNode(node, s);
      nodeSize := nodeSize + 1;
      inserted := inserted + 1;
      Parts(t);
    }

    /** `MapCreateNode` and the insertion of the node. */
    method Insert(key: Key, hash: nat, value: Value, ghost s: Shape) returns (ghost t: Shape)
      requires Holds(s) && nodes != null && key !in s.contents && hash == Hash(key, signedChar)
      modifies this`nodeSize, this`inserted, nodes
      ensures Holds(t) && t.contents == s.contents[key := value] && fresh(t.members - s.members)
      ensures inserted == old(inserted) + 1
    {
      hide *;
      var node := new MapNode(key, hash, value);
      t := InsertNode(node, s);
    }

    method InsertIfAllocated(key: Key, hash: nat, value: Value, nodeOk: bool, ghost s: Shape)
      returns (ret: int, ghost t: Shape)
      requires Holds(s) && (nodeOk ==> nodes != null) && key !in s.contents && hash == Hash(key, signedChar)
      modifies this`nodeSize, this`inserted, nodes
      ensures Holds(t) && fresh(t.members - s.members)
      ensures ret == (if nodeOk then HDF_SUCCESS else HDF_ERR_INVALID_OBJECT)
      ensures t.contents == if nodeOk then s.contents[key := value] else s.contents
      ensures inserted == if nodeOk then old(inserted) + 1 else old(inserted)
    {
      hide Holds, Hash;
      if nodeOk {
        t := Insert(key, hash, value, s);
        ret := HDF_SUCCESS;
      } else {
        ret, t := HDF_ERR_INVALID_OBJECT, s;
      }
    }

    /** The part of `MapSet` for a key that is not in the map. */
    method SetNew(key: Key, hash: nat, value: Value, tableOk: bool, nodeOk: bool, ghost s: Shape)
      returns (ret: int, ghost t: Shape)
      requires Holds(s) && NewKey(s.contents, key, value) && hash == Hash(key, signedChar)
      requires nodes == null && nodeOk ==> tableOk
      modifies this`nodes, this`nodeSize, this`bucketSize, this`relinked, this`inserted, nodes, s.members`next
      ensures Holds(t) && IsSet(old(At(s)), At(t), OpSet(key, value, tableOk, nodeOk), ret)
      ensures fresh(t.members - s.members) && (nodes == old(nodes) || fresh(nodes))
    {
      hide Holds, Hash, IsSet, Enlarged;
      NewIsSet(At(s), OpSet(key, value, tableOk, nodeOk));
      ghost var u := GrowIfFull(tableOk, s);
      ret, t := InsertIfAllocated(key, hash, value, nodeOk, u);
    }

    // Updating.

    /** The update of a binding in place. */
    method Update(node: MapNode, value: Value, ghost s: Shape) returns (ghost t: Shape)
      requires Indexed(s.members, s.index, s.contents, signedChar) && node in s.members && |value| == node.valueSize
      modifies node`value
      ensures t == s.(contents := s.contents[node.key := value]) && |t.contents| == |s.contents|
      ensures Indexed(t.members, t.index, t.contents, signedChar)
    {
      hide Hash;
      assert node.key in s.contents;
      t := s.(contents := s.contents[node.key := value]);
      assert |t.contents| == |s.contents|;
      node.value := value;
      IndexedAnew(s.members, s.index, s.contents, signedChar, node);
    }

    /** The part of `MapSet` for a key that has a node. */
    method SetKnown(node: MapNode, value: Value, ghost op: Op, ghost s: Shape) returns (ret: int, ghost t: Shape)
      requires Holds(s) && op.OpSet? && op.value == value && !Refused(op.key, value)
      requires op.key in s.contents && op.key in s.index && s.index[op.key] == node
      requires |node.value| == node.valueSize && s.contents[op.key] == node.value
      modifies node`value
      ensures Holds(t) && t.members == s.members && IsSet(old(At(s)), At(t), op, ret)
    {
      hide Holds, Hash, IsSet, Refused, Table, Members, Total, Indexed;
      Parts(s);
      Known(s, op.key);
      KnownIsSet(At(s), op);
      if node.valueSize != |value| {
        ret, t := HDF_ERR_INVALID_OBJECT, s;
      } else {
        t := Update(node, value, s);
        Parts(t);
        ret := HDF_SUCCESS;
      }
    }

    method FindAndSet(key: Key, value: Value, tableOk: bool, nodeOk: bool, ghost s: Shape)
      returns (ret: int, ghost t: Shape)
      requires Holds(s) && !Refused(key, value)
      requires nodes == null && nodeOk && key !in s.contents ==> tableOk
      modifies this`nodes, this`nodeSize, this`bucketSize, this`relinked, this`inserted, nodes, s.members
      ensures Holds(t) && IsSet(old(At(s)), At(t), OpSet(key, value, tableOk, nodeOk), ret)
      ensures fresh(t.members - s.members) && (nodes == old(nodes) || fresh(nodes))
    {
      hide Holds, Hash, IsSet, Refused;
      var node, hash := Lookup(key, s);
      if node != null {
        ret, t := SetKnown(node, value, OpSet(key, value, tableOk, nodeOk), s);
      } else {
        ret, t := SetNew(key, hash, value, tableOk, nodeOk, s);
      }
    }

    /** `MapSet`. The flags say whether a new table and a new node can be allocated; the table must be when there is
        none and a node is, since `MapSet` does not look at the result of `MapResize`. */
    method MapSet(key: Key, value: Value, tableOk: bool, nodeOk: bool) returns (ret: int)
      requires Valid() && Supplied(Now(), OpSet(key, value, tableOk, nodeOk))
      modifies this, nodes, shape.members
      ensures Valid() && ret == SetCode(old(Now()).contents, key, value, nodeOk)
      ensures Now() == Booked(old(Now()), OpSet(key, value, tableOk, nodeOk))
      ensures
        var m, refused := old(Now()).contents, |value| == 0 || |value| > 1000 || |key| > 1000;
        && ret == (if refused then -3 else if key in m then (if |m[key]| != |value| then -4 else 0)
                   else if nodeOk then 0 else -4)
        && Now().contents == (if ret == 0 then m[key := value] else m)
      ensures
        var m, refused := old(Now()).contents, |value| == 0 || |value| > 1000 || |key| > 1000;
        var grows := !refused && key !in m && |m| >= old(bucketSize) && tableOk && old(bucketSize) != 0x8000_0000;
        && bucketSize == (if !grows then old(bucketSize) else if old(bucketSize) == 0 then 8 else 4 * old(bucketSize))
        && relinked == old(relinked) + if grows then |m| else 0
      ensures fresh(shape.members - old(shape.members)) && (nodes == old(nodes) || fresh(nodes))
    {
      hide Holds, IsSet, Booked, SetCode;
      Sizes(shape);
      SetInNumbers(Now(), OpSet(key, value, tableOk, nodeOk));
      ghost var a, op := Now(), OpSet(key, value, tableOk, nodeOk);
      if |value| == 0 || |value| > HDF_MAP_KEY_MAX_SIZE || |key| > HDF_MAP_VALUE_MAX_SIZE {
        RefusedIsSet(a, op);
        SetMeans(a, Now(), op, HDF_ERR_INVALID_PARAM);
        return HDF_ERR_INVALID_PARAM;
      }
      ghost var t;
      ret, t := FindAndSet(key, value, tableOk, nodeOk, shape);
      shape := t;
      SetMeans(a, Now(), op, ret);
    }

    static lemma SetMeans(a: Account, b: Account, op: Op, ret: int)
      requires op.OpSet? && IsSet(a, b, op, ret)
      ensures b == Booked(a, op) && ret == SetCode(a.contents, op.key, op.value, op.nodeOk)
    {
    }

    // Erasing.

    /** Takes a node out of the table; `nodeSize` is still to be counted down. */
    method CutNode(idx: nat, prev: MapNode, node: MapNode, ghost j: nat, ghost s: Shape) returns (ghost t: Shape)
      requires Holds(s) && nodes != null && InChain(s.chains, idx, j, prev, node) && node in s.members
      modifies nodes, prev`next
      ensures Members(t.chains) == t.members && Table(nodes, bucketSize, t.chains)
      ensures Indexed(t.members, t.index, t.contents, signedChar) && Total(t.chains) == Total(s.chains) - 1
      ensures t == Cut(s, node, t.chains)
    {
      hide *;
      Parts(s);
      IndexedMinus(s.members, s.index, s.contents, signedChar, node);
      ghost var chains := CutFromTable(nodes, bucketSize, idx, prev, node, j, s.chains);
      t := Cut(s, node, chains);
      CutParts(s, node, chains);
    }

    method CutAndCount(idx: nat, prev: MapNode, node: MapNode, ghost j: nat, ghost s: Shape) returns (ghost t: Shape)
      requires Holds(s) && nodes != null && InChain(s.chains, idx, j, prev, node)
      requires node in s.members && node.key in s.contents
      modifies this`nodeSize, nodes, prev`next
      ensures Holds(t) && t == Cut(s, node, t.chains)
    {
      hide *;
      Parts(s);
      OneLess(s.contents, node.key);
      t := CutNode(idx, prev, node, j, s);
      CutParts(s, node, t.chains);
      nodeSize := nodeSize - 1;
      Parts(t);
    }

    /** The search loop of `MapErase`. */
    method FindWithPrev(key: Key, ghost s: Shape) returns (idx: nat, prev: MapNode?, node: MapNode?, ghost j: nat)
      requires Holds(s) && nodes != null
      ensures node == null <==> key !in s.contents
      ensures node != null ==> node.key == key && prev != null && InChain(s.chains, idx, j, prev, node)
      ensures node != null ==> node in s.members && prev in s.members
    {
      hide *;
      var hash := MapHash(key, signedChar);
      Bucket(s, hash);
      idx := BitAnd(hash, bucketSize - 1);
      ghost var c := s.chains[idx];
      j := 0;
      NextInChain(nodes[idx], c);
      node := nodes[idx];
      prev := node;
      while node != null
        invariant j <= |c| && node == if j < |c| then c[j] else null
        invariant prev == if c == [] then null else c[if j == 0 then 0 else j - 1]
        invariant forall i {:trigger c[i]} :: 0 <= i < j ==> c[i].hash != hash || c[i].key != key
        decreases |c| - j
      {
        if node.hash == hash && node.key == key {
          InIndex(s, c, idx, j);
          InIndex(s, c, idx, if j == 0 then 0 else j - 1);
          FirstInChain(c, j, prev, node, s.chains, idx);
          return;
        }
        prev := node;
        node := node.next;
        j := j + 1;
      }
      NotThere(s, key, c);
    }

    method EraseIn(key: Key, ghost s: Shape) returns (ret: int, ghost t: Shape)
      requires Holds(s)
      modifies this`nodeSize, nodes, s.members`next
      ensures Holds(t) && t.members <= s.members
      ensures ret == EraseCode(s.contents, key) && t.contents == s.contents - {key}
    {
      hide *;
      Sizes(s);
      EraseMeans(s.contents, key);
      t := s;
      if nodeSize == 0 || nodes == null {
        return HDF_ERR_INVALID_PARAM, s;
      }
      var idx, prev, node;
      ghost var j;
      idx, prev, node, j := FindWithPrev(key, s);
      if node == null {
        return HDF_FAILURE, s;
      }
      t := CutAndCount(idx, prev, node, j, s);
      CutParts(s, node, t.chains);
      return HDF_SUCCESS, t;
    }

    /** `MapErase`. */
    method MapErase(key: Key) returns (ret: int)
      requires Valid()
      modifies this, nodes, shape.members
      ensures Valid() && ret == EraseCode(old(Now()).contents, key)
      ensures ret == if old(Now()).contents == map[] then -3 else if key in old(Now()).contents then 0 else -1
      ensures Now() == old(Now()).(contents := old(Now()).contents - {key})
      ensures shape.members <= old(shape.members) && nodes == old(nodes)
    {
      EraseMeans(Now().contents, key);
      hide Holds, EraseCode;
      ghost var t;
      ret, t := EraseIn(key, shape);
      shape := t;
    }

    /** `MapDelete`; `freed` lists the nodes in the order in which they are freed. */
    method MapDelete() returns (freed: seq<MapNode>)
      requires Valid()
      modifies this`nodes, this`nodeSize, this`bucketSize, this`shape
      ensures Valid() && Now() == old(Now()).(contents := map[], bucketSize := 0)
      ensures nodes == null && shape.members == {}
      ensures Distinct(freed) && Nodes(freed) == old(shape.members) && |freed| == old(nodeSize)
    {
      hide Holds, Distinct, Nodes;
      Tables(shape);
      freed := [];
      if nodes != null {
        freed := FreeAll(nodes, shape.chains);
        nodes := null;
        nodeSize := 0;
        bucketSize := 0;
      }
      shape := NO_SHAPE;
      NoShape();
    }

    /** What `MapDelete` needs to know of the table. */
    lemma Tables(s: Shape)
      requires Holds(s)
      ensures nodes != null ==> Linked(nodes[..], s.chains) && Placed(s.chains)
      ensures Members(s.chains) == s.members && Total(s.chains) == nodeSize
      ensures nodes == null ==> nodeSize == bucketSize == 0 && s.members == {} && s.contents == map[]
      ensures Distinct<MapNode>([]) && Nodes([]) == {}
    {
    }

    lemma NoShape()
      requires nodes == null && nodeSize == bucketSize == 0
      ensures Holds(NO_SHAPE)
    {
    }

    // Runs.

    /** One operation of a run. */
    method Perform(op: Op) returns (answer: Answer)
      requires Valid() && Supplied(Now(), op)
      modifies this, nodes, shape.members
      ensures Valid() && Now() == Booked(old(Now()), op) && answer == AnswerTo(old(Now()).contents, op)
      ensures op.OpGet? ==>
        && Now() == old(Now())
        && answer == (if op.key in Now().contents then Got(true, Now().contents[op.key]) else Got(false, []))
      ensures op.OpErase? ==> Now().contents == old(Now()).contents - {op.key}
      ensures op.OpDelete? ==> Now().contents == map[] && bucketSize == 0
      ensures fresh(shape.members - old(shape.members)) && (nodes == null || nodes == old(nodes) || fresh(nodes))
    {
      hide Holds, Booked, SetCode, EraseCode;
      OthersBooked(Now(), op);
      match op
      case OpSet(key, value, tableOk, nodeOk) =>
        var code := MapSet(key, value, tableOk, nodeOk);
        answer := Code(code);
      case OpGet(key) =>
        var found, value := MapGet(key);
        answer := Got(found, if found then value else []);
      case OpErase(key) =>
        var code := MapErase(key);
        answer := Code(code);
      case OpDelete =>
        var freed := MapDelete();
        answer := Deleted;
    }

    /** A run of operations. Every answer is that of the finite map; table, relinked nodes and insertions are those of
        the books; and if every table that is asked for is allocated, there are at the end no more nodes than buckets,
        and three times the nodes relinked are at most four times the keys inserted. */
    method PerformAll(ops: seq<Op>) returns (answers: seq<Answer>)
      requires Valid()
      requires forall i {:trigger ops[i]} :: 0 <= i < |ops| ==> Supplied(Books(Now(), ops, i), ops[i])
      modifies this, nodes, shape.members
      ensures Valid() && Now() == Books(old(Now()), ops, |ops|) && |answers| == |ops|
      ensures forall i {:trigger answers[i]} :: 0 <= i < |ops| ==>
        answers[i] == AnswerTo(Books(old(Now()), ops, i).contents, ops[i])
      ensures old(Now()) == EMPTY && AllGranted(EMPTY, ops, |ops|) ==>
        |Now().contents| <= bucketSize && 3 * relinked <= 4 * inserted
    {
      hide Holds, AnswerTo, Supplied, Booked, AllGranted, Insertions, NodesAtGrowths;
      answers := [];
      while |answers| < |ops|
        invariant |answers| <= |ops| && Valid() && Now() == Books(old(Now()), ops, |answers|)
        invariant forall i {:trigger answers[i]} :: 0 <= i < |answers| ==>
          answers[i] == AnswerTo(Books(old(Now()), ops, i).contents, ops[i])
        invariant fresh(shape.members - old(shape.members)) && (nodes == null || nodes == old(nodes) || fresh(nodes))
        decreases |ops| - |answers|
      {
        var answer := Perform(ops[|answers|]);
        answers := answers + [answer];
      }
      if old(Now()) == EMPTY && AllGranted(EMPTY, ops, |ops|) {
        AmortisedGrowth(ops, |ops|);
        BooksAreRight(EMPTY, ops, |ops|);
      }
    }
  }
}
