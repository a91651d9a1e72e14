/** ReadExtentsEntry of bootx/fs/hfs.c: the overflow records of a fork in the extents B-tree. */
module ExtentsEntry {
  import opened Extents
  import opened KeyOrder
  import opened BTree

  /** The record of a leaf: the extents its data stand for. */
  type Records = int -> seq<Extent>

  /** The tree keeps what continues the fork of a file at every place some record is needed for. */
  ghost predicate Files(b: Tree, h: nat, records: Records, fileID: int, f: Fork, startBlock: nat) {
    exists leaf: int, index: nat ::
      HasRecord(b, b.root, h, leaf, index) && LeafKey(b, leaf, index) == ExtentKey(0, fileID, startBlock) &&
      leaf in b.nodes && b.nodes[leaf].LeafNode? && index < |b.nodes[leaf].data| &&
      records(b.nodes[leaf].data[index]) == f.overflow(startBlock)
  }

  /** The tree in which the records that continue a file's fork are looked up. */
  datatype OverflowFile = OverflowFile(tree: Tree, tables: Tables, records: Records, fileID: int)

  /** Every record needed for the blocks before the given one is filed. Nothing is asked of the tree
      if the extents in the volume header or catalog record are enough. */
  ghost predicate Filed(x: OverflowFile, h: nat, f: Fork, blocks: int)
    requires WellFormed(f)
  {
    forall n :: NeedsRecord(f, n, blocks) ==>
      Shaped(x.tree, KeyKind.Extents, x.tree.root, h) && Ordered(x.tree, x.tables, KeyKind.Extents, x.tree.root, h) &&
      Files(x.tree, h, x.records, x.fileID, f, Prefix(f, n))
  }

  /** The record that starts with extent n is needed. */
  ghost predicate NeedsRecord(f: Fork, n: nat, blocks: int)
    requires WellFormed(f)
  {
    n >= f.density && n % f.density == 0 && Prefix(f, n) < blocks
  }

  /** A needed record, fetched. */
  method ReadNeeded(x: OverflowFile, ghost h: nat, ghost f: Fork, ghost n: nat, ghost blocks: int, startBlock: nat,
      entry: seq<Extent>) returns (entry': seq<Extent>)
    requires WellFormed(f) && Filed(x, h, f, blocks) && NeedsRecord(f, n, blocks) && startBlock == Prefix(f, n)
    ensures entry' == f.overflow(startBlock)
  {
    hide Shaped, Ordered, HasRecord, Compare, LeafKey;
    FiledNotBelow(x, h, f, startBlock);
    var result;
    result, entry' := ReadExtentsEntry(x.tree, x.tables, x.fileID, startBlock, x.records, entry, h);
  }

  lemma FiledNotBelow(x: OverflowFile, h: nat, f: Fork, startBlock: nat)
    requires Shaped(x.tree, KeyKind.Extents, x.tree.root, h)
    requires Ordered(x.tree, x.tables, KeyKind.Extents, x.tree.root, h)
    requires Files(x.tree, h, x.records, x.fileID, f, startBlock)
    ensures Compare(x.tables, ExtentKey(0, x.fileID, startBlock), x.tree.nodes[x.tree.root].keys[0]) >= 0
  {
    hide Ordered, HasRecord, Compare, LeafKey;
    var leaf: int, index: nat :|
      HasRecord(x.tree, x.tree.root, h, leaf, index) && LeafKey(x.tree, leaf, index) == ExtentKey(0, x.fileID, startBlock);
    RecordNotBelow(x.tree, x.tables, KeyKind.Extents, x.tree.root, h, leaf, index);
  }

  /** ReadExtentsEntry: the buffer gets the record that continues the fork; without one it keeps what
      it held, and the result says so. */
  method ReadExtentsEntry(b: Tree, t: Tables, fileID: int, startBlock: nat, records: Records, entry: seq<Extent>, ghost h: nat)
      returns (result: int, entry': seq<Extent>)
    requires Shaped(b, KeyKind.Extents, b.root, h) && Ordered(b, t, KeyKind.Extents, b.root, h)
    requires b.nodes[b.root].IndexNode? ==> Compare(t, ExtentKey(0, fileID, startBlock), b.nodes[b.root].keys[0]) >= 0
    ensures result == 0 || (result == -1 && entry' == entry)
    ensures forall f :: Files(b, h, records, fileID, f, startBlock) ==> result == 0 && entry' == f.overflow(startBlock)
  {
    hide Compare, LeafKey, Shaped, Ordered, HasRecord;
    var key := ExtentKey(0, fileID, startBlock);
    var r, leaf, at := ReadBTreeEntry(b, t, key, h);
    if r.Some? {
      result, entry' := 0, records(r.value.data);
    } else {
      result, entry' := -1, entry;
    }
    forall f | Files(b, h, records, fileID, f, startBlock) ensures result == 0 && entry' == f.overflow(startBlock) {
      var l: int, i: nat :| HasRecord(b, b.root, h, l, i) && LeafKey(b, l, i) == key &&
        l in b.nodes && b.nodes[l].LeafNode? && i < |b.nodes[l].data| && records(b.nodes[l].data[i]) == f.overflow(startBlock);
      ComparePreorder(t, key, key, key);
      assert r.Some?;
      RecordOnce(b, t, key, b.root, h, leaf, at, l, i);
    }
  }
}
