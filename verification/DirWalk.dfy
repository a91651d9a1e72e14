/** The listing of a directory in bootx/fs/hfs.c, which goes on from a directory index. */
module DirWalk {
  import opened BTree

  /** The leaves from one on, as linked: numbered from 1 on, none empty, all records with a position
      below the node size, and 0 behind the last one. */
  ghost predicate Chained(b: Tree, leaves: seq<int>) {
    leaves != [] ==> ChainedLeaf(b, leaves[0], if |leaves| > 1 then leaves[1] else 0) && Chained(b, leaves[1..])
  }

  predicate ChainedLeaf(b: Tree, leaf: int, next: int) {
    leaf > 0 && leaf in b.nodes && b.nodes[leaf].LeafNode? && b.nodes[leaf].fLink == next &&
    0 < |b.nodes[leaf].data| == |b.nodes[leaf].keys| < b.nodeSize
  }

  /** The records of the leaves, in order. */
  ghost function Records(b: Tree, leaves: seq<int>): seq<int>
    requires Chained(b, leaves)
  {
    if leaves == [] then [] else b.nodes[leaves[0]].data + Records(b, leaves[1..])
  }

  /** The records from position at of the first leaf on. */
  ghost function RecordsFrom(b: Tree, leaves: seq<int>, at: nat): seq<int>
    requires Chained(b, leaves) && (leaves != [] ==> at <= |b.nodes[leaves[0]].data|)
  {
    if leaves == [] then [] else b.nodes[leaves[0]].data[at..] + Records(b, leaves[1..])
  }

  /** A directory index names the record at a position of the first leaf, or the end. */
  ghost predicate Names(b: Tree, leaves: seq<int>, at: nat, dirIndex: int)
    requires Chained(b, leaves)
  {
    if leaves == [] then dirIndex == 0 && at == 0
    else at < |b.nodes[leaves[0]].data| && dirIndex == leaves[0] * b.nodeSize + at
  }

  /** GetCatalogEntry: the record at the index, and the index of the record behind it. */
  method GetCatalogEntry(b: Tree, dirIndex: int, ghost leaves: seq<int>, ghost at: nat)
    returns (data: int, next: int, ghost leaves': seq<int>, ghost at': nat)
    requires Chained(b, leaves) && leaves != [] && Names(b, leaves, at, dirIndex)
    ensures Chained(b, leaves') && Names(b, leaves', at', next)
    ensures RecordsFrom(b, leaves, at) == [data] + RecordsFrom(b, leaves', at')
    ensures next == NextIndex(b, leaves[0], at)
  {
    SplitIndex(leaves[0], b.nodeSize, at);
    var index, curNode := dirIndex % b.nodeSize, dirIndex / b.nodeSize;
    var node := b.nodes[curNode];
    data := node.data[index];
    index := index + 1;
    leaves', at' := leaves, at + 1;
    if index == |node.keys| {
      index, curNode := 0, node.fLink;
      leaves', at' := leaves[1..], 0;
    }
    next := curNode * b.nodeSize + index;
  }

  lemma SplitIndex(node: int, nodeSize: int, at: nat)
    requires at < nodeSize
    ensures (node * nodeSize + at) / nodeSize == node && (node * nodeSize + at) % nodeSize == at
  {
    var q := (node * nodeSize + at) / nodeSize;
    assert (q - node) * nodeSize == at - (node * nodeSize + at) % nodeSize;
    if q != node { Multiple(q - node, nodeSize); }
  }

  lemma Multiple(k: int, n: int)
    requires n > 0 && k != 0
    ensures k * n >= n || k * n <= -n
  {
  }

  /** HFSGetDirEntry, the directory having been looked up: the record at the index, unless that is -1
      or the record is neither a folder nor a file. The index is then that of the record behind it,
      and -1 behind the last one. */
  method HFSGetDirEntry(b: Tree, dirIndex: int, known: int -> bool, ghost leaves: seq<int>, ghost at: nat)
    returns (result: int, data: int, next: int, ghost leaves': seq<int>, ghost at': nat)
    requires Chained(b, leaves) && Names(b, leaves, at, if dirIndex == -1 then 0 else dirIndex)
    requires dirIndex == -1 <==> leaves == []
    ensures result == 0 || result == -1
    ensures result == 0 <==> leaves != [] && known(RecordsFrom(b, leaves, at)[0])
    ensures result == 0 ==> Chained(b, leaves') && Names(b, leaves', at', if next == -1 then 0 else next)
    ensures result == 0 ==> (next == -1 <==> leaves' == []) && RecordsFrom(b, leaves, at) == [data] + RecordsFrom(b, leaves', at')
  {
    result, data, next, leaves', at' := -1, 0, dirIndex, leaves, at;
    if dirIndex == -1 {
      return;
    }
    data, next, leaves', at' := GetCatalogEntry(b, dirIndex, leaves, at);
    if leaves' != [] { Positive(b, leaves', at', next); }
    if next == 0 {
      next := -1;
    }
    if known(data) {
      result := 0;
    }
  }

  lemma Positive(b: Tree, leaves: seq<int>, at: nat, dirIndex: int)
    requires Chained(b, leaves) && leaves != [] && Names(b, leaves, at, dirIndex)
    ensures dirIndex > 0
  {
    Multiple(leaves[0], b.nodeSize);
    assert leaves[0] * b.nodeSize > 0;
  }

  /** The records up to the first one that is neither a folder nor a file. */
  ghost function Listed(records: seq<int>, known: int -> bool): seq<int> {
    if records == [] || !known(records[0]) then [] else [records[0]] + Listed(records[1..], known)
  }

  /** The loop of a caller that asks for one entry after the other: it gets the records of the leaf
      chain in order, beginning with the one the directory index names. */
  method ListDir(b: Tree, dirIndex: int, known: int -> bool, ghost leaves: seq<int>, ghost at: nat) returns (listed: seq<int>)
    requires Chained(b, leaves) && Names(b, leaves, at, if dirIndex == -1 then 0 else dirIndex)
    requires dirIndex == -1 <==> leaves == []
    ensures listed == Listed(RecordsFrom(b, leaves, at), known)
  {
    listed := [];
    var index := dirIndex;
    ghost var ls, i := leaves, at;
    while true
      invariant Chained(b, ls) && Names(b, ls, i, if index == -1 then 0 else index)
      invariant index == -1 <==> ls == []
      invariant listed + Listed(RecordsFrom(b, ls, i), known) == Listed(RecordsFrom(b, leaves, at), known)
      decreases |RecordsFrom(b, ls, i)|
    {
      var result, data;
      ghost var rest := RecordsFrom(b, ls, i);
      result, data, index, ls, i := HFSGetDirEntry(b, index, known, ls, i);
      if result == -1 {
        break;
      }
      assert rest[1..] == RecordsFrom(b, ls, i);
      listed := listed + [data];
    }
  }

  /** What ReadBTreeEntry says about the record behind the one found: it goes on with that. */
  lemma FoundNext(b: Tree, leaves: seq<int>, at: nat)
    requires Chained(b, leaves) && leaves != [] && at < |b.nodes[leaves[0]].data|
    ensures if at + 1 < |b.nodes[leaves[0]].data| then Names(b, leaves, at + 1, NextIndex(b, leaves[0], at))
            else Names(b, leaves[1..], 0, NextIndex(b, leaves[0], at))
  {
  }
}
