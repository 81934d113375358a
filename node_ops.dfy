/** The in-place writes of the storage engine on a page buffer (a Python
    bytearray, here an array of bytes). Each method is proved against the
    pure "with" function of Layout that describes the same write, so every
    fact proved there (the getter reads back, nothing else changes) holds
    of the buffer afterwards. */
module NodeOps {
  import opened Bytes
  import opened Layout

  /** Slice assignment node[off .. off + |data|] = data. */
  method WriteInto(node: array<Byte>, off: nat, data: seq<Byte>)
    requires off + |data| <= node.Length
    modifies node
    ensures node[..] == Write(old(node[..]), off, data)
  {
    forall k | 0 <= k < |data| {
      node[off + k] := data[k];
    }
    assert node[..] == Write(old(node[..]), off, data);
  }

  /** struct.pack_into('I', node, off, v). */
  method PackU32(node: array<Byte>, off: nat, v: U32)
    requires off + 4 <= node.Length
    modifies node
    ensures node[..] == WriteU32(old(node[..]), off, v)
  {
    WriteInto(node, off, EncodeU32(v));
  }

  method SetNodeType(node: array<Byte>, t: Byte)
    requires node.Length == PAGE_SIZE
    modifies node
    ensures node[..] == WithNodeType(old(node[..]), t)
  {
    node[0] := t;
  }

  method SetNodeRoot(node: array<Byte>, isRoot: bool)
    requires node.Length == PAGE_SIZE
    modifies node
    ensures node[..] == WithRootFlag(old(node[..]), isRoot)
  {
    node[NODE_ROOT_OFFSET] := if isRoot then 1 else 0;
  }

  method SetNodeNumCells(node: array<Byte>, n: U32)
    requires node.Length == PAGE_SIZE
    modifies node
    ensures node[..] == WithNumCells(old(node[..]), n)
  {
    PackU32(node, NUM_CELLS_OFFSET, n);
  }

  method SetNodeNextLeaf(node: array<Byte>, page: U32)
    requires node.Length == PAGE_SIZE
    modifies node
    ensures node[..] == WithNextLeaf(old(node[..]), page)
  {
    PackU32(node, NEXT_LEAF_OFFSET, page);
  }

  method InitializeLeafNode(node: array<Byte>)
    requires node.Length == PAGE_SIZE
    modifies node
    ensures node[..] == InitLeaf(old(node[..]))
  {
    SetNodeType(node, NODE_LEAF);
    SetNodeRoot(node, false);
    SetNodeNumCells(node, 0);
    SetNodeNextLeaf(node, 0);
  }

  method InitializeInternalNode(node: array<Byte>)
    requires node.Length == PAGE_SIZE
    modifies node
    ensures node[..] == InitInternal(old(node[..]))
  {
    SetNodeType(node, NODE_INTERNAL);
    SetNodeRoot(node, false);
    SetNodeNumCells(node, 0);
  }

  /** The key, then the row bytes, at leaf cell i. */
  method WriteLeafCell(node: array<Byte>, i: nat, key: U32, row: seq<Byte>)
    requires node.Length == PAGE_SIZE && i < LEAF_NODE_MAX_CELLS && |row| == ROW_SIZE
    modifies node
    ensures node[..] == WithLeafCell(old(node[..]), i, key, row)
  {
    var o := LeafCellOffset(i);
    PackU32(node, o, key);
    WriteInto(node, o + LEAF_NODE_KEY_SIZE, row);
  }

  /** The max key, then the child page, at internal cell i. */
  method WriteInternalCell(node: array<Byte>, i: nat, maxKey: U32, child: U32)
    requires node.Length == PAGE_SIZE && i < INTERNAL_NODE_MAX_CELLS
    modifies node
    ensures node[..] == WithInternalCell(old(node[..]), i, maxKey, child)
  {
    var o := InternalCellOffset(i);
    PackU32(node, o, maxKey);
    PackU32(node, o + INTERNAL_NODE_KEY_SIZE, child);
  }

  /** The copy loops of split_root_node: cell i of src, for i in
      from .. to - 1, is copied to cell i - from of dst, so the cell area of
      dst starts with the bytes of src's cells from .. to - 1. */
  method CopyLeafCells(dst: array<Byte>, src: array<Byte>, from: nat, to: nat)
    requires dst != src && dst.Length == PAGE_SIZE && src.Length == PAGE_SIZE
    requires from <= to <= LEAF_NODE_MAX_CELLS
    modifies dst
    ensures dst[..] == Write(old(dst[..]), COMMON_NODE_HEADER_SIZE, src[LeafCellOffset(from) .. LeafCellOffset(to)])
  {
    for i := from to to
      invariant dst[..] == Write(old(dst[..]), COMMON_NODE_HEADER_SIZE, src[LeafCellOffset(from) .. LeafCellOffset(i)])
    {
      var s := LeafCellOffset(i);
      var d := LeafCellOffset(i - from);
      ghost var done := src[LeafCellOffset(from) .. s];
      var cell := src[s .. s + LEAF_NODE_CELL_SIZE];
      WriteInto(dst, d, cell);
      WriteAdjacent(old(dst[..]), COMMON_NODE_HEADER_SIZE, done, cell);
      assert done + cell == src[LeafCellOffset(from) .. LeafCellOffset(i + 1)];
    }
  }

  /** leaf_node_insert's append on a leaf with room: the key and row at
      cell num_cells, then the count one higher. */
  method AppendLeafCell(node: array<Byte>, key: U32, row: seq<Byte>)
    requires node.Length == PAGE_SIZE && |row| == ROW_SIZE
    requires NumCells(node[..]) < LEAF_NODE_MAX_CELLS
    modifies node
    ensures node[..] == InsertIntoLeaf(old(node[..]), key, row)
  {
    ghost var before := node[..];
    var numCells := NumCells(node[..]);
    WriteLeafCell(node, numCells, key, row);
    ghost var written := node[..];
    SetNodeNumCells(node, numCells + 1);
    assert node[..] == WithNumCells(written, numCells + 1) == InsertIntoLeaf(before, key, row);
  }

  /** The left half of split_root_node once the left page is initialized:
      link it to the right page, copy the root's first cells, set the count. */
  method FillLeftLeaf(left: array<Byte>, root: array<Byte>, rightPage: U32, ghost page: Page)
    requires left != root && left.Length == PAGE_SIZE && root.Length == PAGE_SIZE
    requires left[..] == InitLeaf(page)
    modifies left
    ensures left[..] == SplitLeftPage(page, root[..], rightPage)
  {
    var splitIndex := LEAF_NODE_MAX_CELLS / 2;
    SetNodeNextLeaf(left, rightPage);
    CopyLeafCells(left, root, 0, splitIndex);
    SetNodeNumCells(left, splitIndex);
    SplitLeftSteps(page, root[..], rightPage);
  }

  /** The right half of split_root_node once the right page is initialized:
      copy the root's remaining cells, set the count, then append the new
      row the way leaf_node_insert appends. */
  method FillRightLeaf(right: array<Byte>, root: array<Byte>, key: U32, row: seq<Byte>, ghost page: Page)
    requires right != root && right.Length == PAGE_SIZE && root.Length == PAGE_SIZE && |row| == ROW_SIZE
    requires right[..] == InitLeaf(page)
    modifies right
    ensures right[..] == SplitRightPage(page, root[..], key, row)
  {
    var oldMax := LEAF_NODE_MAX_CELLS;
    var splitIndex := oldMax / 2;
    CopyLeafCells(right, root, splitIndex, oldMax);
    SetNodeNumCells(right, oldMax - splitIndex);
    AppendLeafCell(right, key, row);
    SplitRightSteps(page, root[..], key, row);
  }

  /** The last step of split_root_node: page 0 rewritten in place as an
      internal root with two routing cells, the second with the sentinel. */
  method RewriteRoot(root: array<Byte>, leftMaxKey: U32, leftPage: U32, rightPage: U32)
    requires root.Length == PAGE_SIZE
    modifies root
    ensures root[..] == SplitRootPage(old(root[..]), leftMaxKey, leftPage, rightPage)
  {
    InitializeInternalNode(root);
    SetNodeRoot(root, true);
    SetNodeNumCells(root, 2);
    WriteInternalCell(root, 0, leftMaxKey, leftPage);
    WriteInternalCell(root, 1, MAX_INT_KEY, rightPage);
    SplitRootSteps(old(root[..]), leftMaxKey, leftPage, rightPage);
  }
}
