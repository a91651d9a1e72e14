/** ReadBTreeEntry of bootx/fs/hfs.c: descent with a binary search in every node. */
module BTree {
  import opened Options
  import opened KeyOrder

  /** A node as GetBTreeRecord presents it: an index node's records name its children, a leaf
      node's records hold data. */
  datatype Node =
    | IndexNode(keys: seq<Key>, children: seq<int>, fLink: int)
    | LeafNode(keys: seq<Key>, data: seq<int>, fLink: int)

  /** The nodes of a B-tree by number, and the number of its root. */
  datatype Tree = Tree(nodes: map<int, Node>, root: int, nodeSize: int)

  /** What ReadBTreeEntry delivers: the record's data, and where the next record is. */
  datatype Entry = Entry(data: int, dirIndex: int)

  predicate Sorted(t: Tables, keys: seq<Key>) {
    forall i, j :: 0 <= i < j < |keys| ==> Compare(t, keys[i], keys[j]) < 0
  }

  predicate SameKind(keys: seq<Key>, kind: KeyKind) {
    forall i :: 0 <= i < |keys| ==> KindOf(keys[i]) == kind
  }

  /** Node n is the root of a tree with h levels of index nodes whose keys are of one kind. */
  ghost predicate Shaped(b: Tree, kind: KeyKind, n: int, h: nat)
    decreases h
  {
    && n in b.nodes && b.nodes[n].keys != [] && SameKind(b.nodes[n].keys, kind)
    && match b.nodes[n]
       case LeafNode(keys, data, _) => h == 0 && |data| == |keys|
       case IndexNode(keys, children, _) =>
         h > 0 && |children| == |keys| && forall i :: 0 <= i < |keys| ==> Shaped(b, kind, children[i], h - 1)
  }

  /** The leaf below node n with number leaf has the record (key, data) at the index. */
  ghost predicate HasRecord(b: Tree, n: int, h: nat, leaf: int, index: nat)
    decreases h
  {
    && n in b.nodes
    && match b.nodes[n]
       case LeafNode(keys, data, _) => h == 0 && n == leaf && index < |keys|
       case IndexNode(keys, children, _) =>
         h > 0 && exists i :: 0 <= i < |children| && HasRecord(b, children[i], h - 1, leaf, index)
  }

  function LeafKey(b: Tree, leaf: int, index: nat): Key {
    if leaf in b.nodes && index < |b.nodes[leaf].keys| then b.nodes[leaf].keys[index] else ExtentKey(0, 0, 0)
  }

  /** Keys increase within every node; every index key is the first key of its child; and the
      records below a child lie between its index key and the next one. */
  ghost predicate Ordered(b: Tree, t: Tables, kind: KeyKind, n: int, h: nat)
    requires Shaped(b, kind, n, h)
    decreases h
  {
    && Sorted(t, b.nodes[n].keys)
    && (b.nodes[n].IndexNode? ==>
          forall i :: 0 <= i < |b.nodes[n].keys| ==>
            && Ordered(b, t, kind, b.nodes[n].children[i], h - 1)
            && Compare(t, b.nodes[b.nodes[n].children[i]].keys[0], b.nodes[n].keys[i]) == 0
            && Bounded(b, t, b.nodes[n].children[i], h - 1, b.nodes[n].keys, i))
  }

  ghost predicate Bounded(b: Tree, t: Tables, child: int, h: nat, keys: seq<Key>, i: nat)
    requires i < |keys|
  {
    forall leaf, index :: HasRecord(b, child, h, leaf, index) ==>
      Compare(t, keys[i], LeafKey(b, leaf, index)) <= 0 &&
      (i + 1 < |keys| ==> Compare(t, LeafKey(b, leaf, index), keys[i + 1]) < 0)
  }

  /** The position the search ends at: the last key not above the search key. */
  ghost predicate Position(t: Tables, key: Key, keys: seq<Key>, index: int) {
    && 0 <= index < |keys|
    && Compare(t, key, keys[index]) >= 0
    && forall j :: index < j < |keys| ==> Compare(t, key, keys[j]) < 0
  }

  /** The loop of ReadBTreeEntry over one node. It ends at the last key not above the search key,
      and result says whether that key is equal; at index -1 exactly if the search key is below
      the first key. */
  method SearchNode(t: Tables, key: Key, keys: seq<Key>) returns (index: int, result: int)
    requires keys != [] && SameKind(keys, KindOf(key)) && Sorted(t, keys)
    ensures index == -1 <==> Compare(t, key, keys[0]) < 0
    ensures index == -1 ==> result != 0
    ensures index != -1 ==> Position(t, key, keys, index) && (result == 0 <==> Compare(t, key, keys[index]) == 0)
  {
    hide Compare, Sorted;
    var lowerBound, upperBound := 0, |keys| - 1;
    index, result := 0, -1;
    while lowerBound <= upperBound
      invariant 0 <= lowerBound <= upperBound + 1 <= |keys|
      invariant forall j :: 0 <= j < lowerBound ==> Compare(t, key, keys[j]) > 0
      invariant forall j :: upperBound < j < |keys| ==> Compare(t, key, keys[j]) < 0
      invariant lowerBound <= upperBound || result < 0 || (result > 0 && index == upperBound >= 0)
      decreases upperBound - lowerBound
    {
      index := (lowerBound + upperBound) / 2;
      result := CompareKeys(t, key, keys[index]);
      if result < 0 {
        AboveToo(t, key, keys, index);
        upperBound := index - 1;
      } else if result > 0 {
        BelowToo(t, key, keys, index);
        lowerBound := index + 1;
      } else {
        EqualAbove(t, key, keys, index);
        NotBelow(t, key, keys, index);
        return;
      }
    }
    if result < 0 {
      index := upperBound;
    }
    if Compare(t, key, keys[0]) < 0 {
      AboveToo(t, key, keys, 0);
    }
  }

  lemma NotBelow(t: Tables, key: Key, keys: seq<Key>, index: nat)
    requires Sorted(t, keys) && index < |keys| && Compare(t, key, keys[index]) >= 0
    ensures Compare(t, key, keys[0]) >= 0
  {
    hide Compare;
    if Compare(t, key, keys[0]) < 0 {
      AboveToo(t, key, keys, 0);
    }
  }

  lemma AboveToo(t: Tables, key: Key, keys: seq<Key>, index: nat)
    requires Sorted(t, keys) && index < |keys| && Compare(t, key, keys[index]) < 0
    ensures forall j :: index <= j < |keys| ==> Compare(t, key, keys[j]) < 0
  {
    hide Compare;
    forall j | index <= j < |keys| ensures Compare(t, key, keys[j]) < 0 {
      ComparePreorder(t, key, keys[index], keys[j]);
    }
  }

  lemma BelowToo(t: Tables, key: Key, keys: seq<Key>, index: nat)
    requires Sorted(t, keys) && index < |keys| && Compare(t, key, keys[index]) > 0
    ensures forall j :: 0 <= j <= index ==> Compare(t, key, keys[j]) > 0
  {
    hide Compare;
    forall j | 0 <= j <= index ensures Compare(t, key, keys[j]) > 0 {
      ComparePreorder(t, keys[j], keys[index], key);
      ComparePreorder(t, key, keys[index], key);
      ComparePreorder(t, keys[j], key, key);
      ComparePreorder(t, key, keys[j], key);
    }
  }

  lemma EqualAbove(t: Tables, key: Key, keys: seq<Key>, index: nat)
    requires Sorted(t, keys) && index < |keys| && Compare(t, key, keys[index]) == 0
    ensures forall j :: index < j < |keys| ==> Compare(t, key, keys[j]) < 0
  {
    hide Compare;
    forall j | index < j < |keys| ensures Compare(t, key, keys[j]) < 0 {
      ComparePreorder(t, key, keys[index], keys[j]);
    }
  }

  /** A key equal to k, which lies between the keys at j and j + 1, has its position at j. */
  lemma BetweenKeys(t: Tables, key: Key, k: Key, keys: seq<Key>, i: int, j: int)
    requires Sorted(t, keys) && Position(t, key, keys, i) && 0 <= j < |keys| && Compare(t, key, k) == 0
    requires Compare(t, keys[j], k) <= 0 && (j + 1 < |keys| ==> Compare(t, k, keys[j + 1]) < 0)
    ensures i == j
  {
    hide Compare;
    if j < i {
      // k < keys[j + 1] <= keys[i] <= key
      ComparePreorder(t, k, keys[j + 1], keys[i]);
      ComparePreorder(t, keys[i], keys[i], key);
      ComparePreorder(t, key, keys[i], key);
      ComparePreorder(t, k, keys[i], key);
      ComparePreorder(t, key, k, key);
    } else if i < j {
      // key = k >= keys[j] > key
      ComparePreorder(t, keys[j], k, key);
      ComparePreorder(t, key, k, key);
      ComparePreorder(t, key, keys[j], key);
    }
  }

  /** The record looked for, if there is one, is below the child the search descends to. */
  lemma DescentFinds(b: Tree, t: Tables, key: Key, n: int, h: nat, i: int, leaf: int, index: nat)
    requires Shaped(b, KindOf(key), n, h) && Ordered(b, t, KindOf(key), n, h) && b.nodes[n].IndexNode?
    requires Position(t, key, b.nodes[n].keys, i)
    requires HasRecord(b, n, h, leaf, index) && Compare(t, key, LeafKey(b, leaf, index)) == 0
    ensures HasRecord(b, b.nodes[n].children[i], h - 1, leaf, index)
  {
    hide Compare, LeafKey, Sorted, Position;
    var keys := b.nodes[n].keys;
    var j :| 0 <= j < |b.nodes[n].children| && HasRecord(b, b.nodes[n].children[j], h - 1, leaf, index);
    assert Bounded(b, t, b.nodes[n].children[j], h - 1, keys, j);
    BetweenKeys(t, key, LeafKey(b, leaf, index), keys, i, j);
  }

  lemma EqualKeys(t: Tables, key: Key, k1: Key, k2: Key)
    requires Compare(t, key, k1) == 0 && Compare(t, key, k2) == 0
    ensures Compare(t, k1, k2) == 0
  {
    hide Compare;
    ComparePreorder(t, key, k1, key);
    ComparePreorder(t, key, k2, key);
    ComparePreorder(t, k1, key, k2);
    ComparePreorder(t, k2, key, k1);
    ComparePreorder(t, k1, k2, k1);
  }

  /** Two equal keys lie below the same child. */
  lemma SameChild(t: Tables, keys: seq<Key>, i: int, j: int, k1: Key, k2: Key)
    requires Sorted(t, keys) && 0 <= i < |keys| && 0 <= j < |keys| && Compare(t, k1, k2) == 0
    requires Compare(t, keys[i], k1) <= 0 && (i + 1 < |keys| ==> Compare(t, k1, keys[i + 1]) < 0)
    requires Compare(t, keys[j], k2) <= 0 && (j + 1 < |keys| ==> Compare(t, k2, keys[j + 1]) < 0)
    ensures i == j
  {
    hide Compare, Sorted;
    if i < j {
      OrderedApart(t, keys, i, j, k1, k2);
    } else if j < i {
      OrderedApart(t, keys, j, i, k2, k1);
      ComparePreorder(t, k1, k2, k1);
    }
  }

  /** At most one record of the tree has an equal key. */
  lemma {:induction false} RecordOnce(b: Tree, t: Tables, key: Key, n: int, h: nat, leaf1: int, at1: nat, leaf2: int, at2: nat)
    requires Shaped(b, KindOf(key), n, h) && Ordered(b, t, KindOf(key), n, h)
    requires HasRecord(b, n, h, leaf1, at1) && Compare(t, key, LeafKey(b, leaf1, at1)) == 0
    requires HasRecord(b, n, h, leaf2, at2) && Compare(t, key, LeafKey(b, leaf2, at2)) == 0
    ensures leaf1 == leaf2 && at1 == at2
    decreases h
  {
    hide Compare, LeafKey, Sorted, Bounded;
    EqualKeys(t, key, LeafKey(b, leaf1, at1), LeafKey(b, leaf2, at2));
    match b.nodes[n]
    case LeafNode(keys, _, _) =>
      LeafOnce(b, t, n, at1, at2);
    case IndexNode(keys, children, _) =>
      var i :| 0 <= i < |children| && HasRecord(b, children[i], h - 1, leaf1, at1);
      var j :| 0 <= j < |children| && HasRecord(b, children[j], h - 1, leaf2, at2);
      BoundedAt(b, t, children[i], h - 1, keys, i, leaf1, at1);
      BoundedAt(b, t, children[j], h - 1, keys, j, leaf2, at2);
      SameChild(t, keys, i, j, LeafKey(b, leaf1, at1), LeafKey(b, leaf2, at2));
      RecordOnce(b, t, key, children[i], h - 1, leaf1, at1, leaf2, at2);
  }

  lemma BoundedAt(b: Tree, t: Tables, child: int, h: nat, keys: seq<Key>, i: nat, leaf: int, index: nat)
    requires i < |keys| && Bounded(b, t, child, h, keys, i) && HasRecord(b, child, h, leaf, index)
    ensures Compare(t, keys[i], LeafKey(b, leaf, index)) <= 0
    ensures i + 1 < |keys| ==> Compare(t, LeafKey(b, leaf, index), keys[i + 1]) < 0
  {
    hide Compare, LeafKey;
  }

  /** No record of a well-formed tree is below its first key. */
  lemma RecordNotBelow(b: Tree, t: Tables, kind: KeyKind, n: int, h: nat, leaf: int, index: nat)
    requires Shaped(b, kind, n, h) && Ordered(b, t, kind, n, h) && HasRecord(b, n, h, leaf, index)
    ensures Compare(t, LeafKey(b, leaf, index), b.nodes[n].keys[0]) >= 0
  {
    hide Compare, Bounded;
    var keys := b.nodes[n].keys;
    var k := LeafKey(b, leaf, index);
    if b.nodes[n].LeafNode? {
      ComparePreorder(t, keys[0], k, k);
      ComparePreorder(t, k, keys[0], k);
    } else {
      var i :| 0 <= i < |b.nodes[n].children| && HasRecord(b, b.nodes[n].children[i], h - 1, leaf, index);
      BoundedAt(b, t, b.nodes[n].children[i], h - 1, keys, i, leaf, index);
      ComparePreorder(t, keys[0], keys[i], k);
      ComparePreorder(t, k, keys[0], k);
      ComparePreorder(t, keys[0], keys[0], k);
    }
  }

  lemma LeafOnce(b: Tree, t: Tables, n: int, i: nat, j: nat)
    requires n in b.nodes && Sorted(t, b.nodes[n].keys) && i < |b.nodes[n].keys| && j < |b.nodes[n].keys|
    requires Compare(t, LeafKey(b, n, i), LeafKey(b, n, j)) == 0
    ensures i == j
  {
    hide Compare;
    var keys := b.nodes[n].keys;
    ComparePreorder(t, keys[i], keys[j], keys[i]);
  }

  lemma OrderedApart(t: Tables, keys: seq<Key>, i: int, j: int, k1: Key, k2: Key)
    requires Sorted(t, keys) && 0 <= i < j < |keys|
    requires Compare(t, k1, keys[i + 1]) < 0 && Compare(t, keys[j], k2) <= 0
    ensures Compare(t, k1, k2) < 0
  {
    hide Compare;
    ComparePreorder(t, keys[j], keys[j], keys[j]);
    ComparePreorder(t, k1, keys[i + 1], keys[j]);
    ComparePreorder(t, k1, keys[j], k2);
  }

  lemma ChildNotAbove(b: Tree, t: Tables, key: Key, n: int, h: nat, i: int)
    requires Shaped(b, KindOf(key), n, h) && Ordered(b, t, KindOf(key), n, h) && b.nodes[n].IndexNode?
    requires Position(t, key, b.nodes[n].keys, i)
    ensures Shaped(b, KindOf(key), b.nodes[n].children[i], h - 1)
    ensures Compare(t, key, b.nodes[b.nodes[n].children[i]].keys[0]) >= 0
  {
    hide Compare;
    var k, c := b.nodes[n].keys[i], b.nodes[b.nodes[n].children[i]].keys[0];
    ComparePreorder(t, c, k, key);
    ComparePreorder(t, key, k, key);
    ComparePreorder(t, key, c, key);
  }

  /** ReadBTreeEntry, on a well-formed tree and a key not below its first one, unless the tree is a
      single leaf: the leaf record whose key compares equal, with the position of the record after
      it; nothing if there is none. */
  method ReadBTreeEntry(b: Tree, t: Tables, key: Key, ghost h: nat)
    returns (r: Option<Entry>, ghost leaf: int, ghost at: nat)
    requires Shaped(b, KindOf(key), b.root, h) && Ordered(b, t, KindOf(key), b.root, h)
    requires b.nodes[b.root].IndexNode? ==> Compare(t, key, b.nodes[b.root].keys[0]) >= 0
    ensures r.Some? ==> HasRecord(b, b.root, h, leaf, at) && Compare(t, key, LeafKey(b, leaf, at)) == 0
    ensures r.Some? ==> leaf in b.nodes && b.nodes[leaf].LeafNode? && at < |b.nodes[leaf].data|
    ensures r.Some? ==> r.value == Entry(b.nodes[leaf].data[at], NextIndex(b, leaf, at))
    ensures r.None? ==> forall l, i :: HasRecord(b, b.root, h, l, i) ==> Compare(t, key, LeafKey(b, l, i)) != 0
  {
    hide Compare, LeafKey;
    var curNode := b.root;
    ghost var level := h;
    leaf, at := 0, 0;
    while true
      invariant Shaped(b, KindOf(key), curNode, level) && Ordered(b, t, KindOf(key), curNode, level)
      invariant b.nodes[curNode].IndexNode? ==> Compare(t, key, b.nodes[curNode].keys[0]) >= 0
      invariant forall l, i :: HasRecord(b, b.root, h, l, i) && Compare(t, key, LeafKey(b, l, i)) == 0 ==>
        HasRecord(b, curNode, level, l, i)
      invariant forall l, i :: HasRecord(b, curNode, level, l, i) ==> HasRecord(b, b.root, h, l, i)
      decreases level
    {
      var node := b.nodes[curNode];
      var index, result := SearchNode(t, key, node.keys);
      match node
      case IndexNode(keys, children, _) =>
        ChildNotAbove(b, t, key, curNode, level, index);
        forall l, i | HasRecord(b, b.root, h, l, i) && Compare(t, key, LeafKey(b, l, i)) == 0
          ensures HasRecord(b, children[index], level - 1, l, i)
        {
          DescentFinds(b, t, key, curNode, level, index, l, i);
        }
        assert forall l, i :: HasRecord(b, children[index], level - 1, l, i) ==> HasRecord(b, curNode, level, l, i);
        curNode, level := children[index], level - 1;
      case LeafNode(keys, data, fLink) =>
        if index != -1 {
          LeafDecides(b, t, key, curNode, index);
        } else {
          LeafAbove(b, t, key, curNode);
        }
        if result != 0 {
          return None, 0, 0;
        }
        leaf, at := curNode, index;
        var next := if index + 1 == |keys| then fLink * b.nodeSize else curNode * b.nodeSize + (index + 1);
        return Some(Entry(data[index], next)), curNode, index;
    }
  }

  /** The directory index of the record behind one of a leaf: the node's number and the position in
      it, as one number. Behind the last record it is the first one of the next leaf. */
  function NextIndex(b: Tree, leaf: int, index: nat): int
    requires leaf in b.nodes && b.nodes[leaf].LeafNode?
  {
    if index + 1 == |b.nodes[leaf].keys| then b.nodes[leaf].fLink * b.nodeSize else leaf * b.nodeSize + (index + 1)
  }

  /** In a leaf whose first key is above the search key, no key is equal. */
  lemma LeafAbove(b: Tree, t: Tables, key: Key, n: int)
    requires n in b.nodes && b.nodes[n].LeafNode? && b.nodes[n].keys != [] && Sorted(t, b.nodes[n].keys)
    requires Compare(t, key, b.nodes[n].keys[0]) < 0
    ensures forall i: nat :: i < |b.nodes[n].keys| ==> Compare(t, key, LeafKey(b, n, i)) != 0
  {
    hide Compare;
    AboveToo(t, key, b.nodes[n].keys, 0);
    assert forall i: nat :: i < |b.nodes[n].keys| ==> LeafKey(b, n, i) == b.nodes[n].keys[i];
  }

  /** In a leaf, only the position found can hold an equal key. */
  lemma LeafDecides(b: Tree, t: Tables, key: Key, n: int, index: int)
    requires n in b.nodes && b.nodes[n].LeafNode? && Position(t, key, b.nodes[n].keys, index) && Sorted(t, b.nodes[n].keys)
    ensures LeafKey(b, n, index) == b.nodes[n].keys[index]
    ensures Compare(t, key, b.nodes[n].keys[index]) != 0 ==>
      forall i: nat :: i < |b.nodes[n].keys| ==> Compare(t, key, LeafKey(b, n, i)) != 0
  {
    hide Compare;
    var keys := b.nodes[n].keys;
    if Compare(t, key, keys[index]) > 0 {
      BelowToo(t, key, keys, index);
    }
    assert forall i: nat :: i < |keys| ==> LeafKey(b, n, i) == keys[i];
  }
}
