/** The binary layout of a page read as a B-tree node: the 14-byte common
    header, leaf cells (key, row) and internal cells (maxKey, child), with
    pure getters and pure "with" functions that describe each in-place write
    of the storage engine as a new page value. */
module Layout {
  import opened Bytes

  const PAGE_SIZE: nat := 4096
  const TABLE_MAX_PAGES: nat := 100

  // Row format: id, username, email.
  const ID_SIZE: nat := 4
  const USERNAME_SIZE: nat := 32
  const EMAIL_SIZE: nat := 255
  const ROW_SIZE: nat := ID_SIZE + USERNAME_SIZE + EMAIL_SIZE

  // Common node header: type, root flag, parent, cell count, next leaf.
  const NODE_TYPE_SIZE: nat := 1
  const NODE_ROOT_SIZE: nat := 1
  const NODE_PARENT_SIZE: nat := 4
  const NODE_NUM_CELLS_SIZE: nat := 4
  const NODE_NEXT_LEAF_SIZE: nat := 4
  const COMMON_NODE_HEADER_SIZE: nat :=
    NODE_TYPE_SIZE + NODE_ROOT_SIZE + NODE_PARENT_SIZE + NODE_NUM_CELLS_SIZE + NODE_NEXT_LEAF_SIZE
  const NODE_ROOT_OFFSET: nat := NODE_TYPE_SIZE
  const NUM_CELLS_OFFSET: nat := NODE_TYPE_SIZE + NODE_ROOT_SIZE + NODE_PARENT_SIZE
  const NEXT_LEAF_OFFSET: nat := NUM_CELLS_OFFSET + NODE_NUM_CELLS_SIZE

  // Leaf cells: a 4-byte key followed by a row.
  const LEAF_NODE_KEY_SIZE: nat := 4
  const LEAF_NODE_VALUE_SIZE: nat := ROW_SIZE
  const LEAF_NODE_CELL_SIZE: nat := LEAF_NODE_KEY_SIZE + LEAF_NODE_VALUE_SIZE
  const LEAF_NODE_SPACE_FOR_CELLS: nat := PAGE_SIZE - COMMON_NODE_HEADER_SIZE
  /** LEAF_NODE_SPACE_FOR_CELLS / LEAF_NODE_CELL_SIZE, as LayoutSizes proves. */
  const LEAF_NODE_MAX_CELLS: nat := 13

  // Internal cells: a 4-byte maximum key followed by a 4-byte child page.
  const INTERNAL_NODE_KEY_SIZE: nat := 4
  const INTERNAL_NODE_CHILD_SIZE: nat := 4
  const INTERNAL_NODE_CELL_SIZE: nat := INTERNAL_NODE_KEY_SIZE + INTERNAL_NODE_CHILD_SIZE
  const INTERNAL_NODE_SPACE_FOR_CELLS: nat := PAGE_SIZE - COMMON_NODE_HEADER_SIZE
  /** INTERNAL_NODE_SPACE_FOR_CELLS / INTERNAL_NODE_CELL_SIZE, as LayoutSizes proves. */
  const INTERNAL_NODE_MAX_CELLS: nat := 510

  const NODE_INTERNAL: Byte := 0
  const NODE_LEAF: Byte := 1

  /** Sentinel key of the rightmost routing cell, 2^32 - 1. */
  const MAX_INT_KEY: U32 := 4294967295

  /** The sizes the layout derives: 13 leaf cells of 295 bytes and 510
      internal cells of 8 bytes fit after the 14-byte header. */
  lemma LayoutSizes()
    ensures ROW_SIZE == 291 && COMMON_NODE_HEADER_SIZE == 14
    ensures LEAF_NODE_CELL_SIZE == 295 && LEAF_NODE_MAX_CELLS == LEAF_NODE_SPACE_FOR_CELLS / LEAF_NODE_CELL_SIZE
    ensures INTERNAL_NODE_CELL_SIZE == 8 && INTERNAL_NODE_MAX_CELLS == INTERNAL_NODE_SPACE_FOR_CELLS / INTERNAL_NODE_CELL_SIZE
    ensures SPLIT_INDEX == LEAF_NODE_MAX_CELLS / 2
    ensures NUM_CELLS_OFFSET == 6 && NEXT_LEAF_OFFSET == 10
  {
  }

  type Page = s: seq<Byte> | |s| == PAGE_SIZE witness Zeros(PAGE_SIZE)

  // ---- Header getters ----

  function NodeType(node: Page): Byte { node[0] }

  function RootFlag(node: Page): Byte { node[NODE_ROOT_OFFSET] }

  function NumCells(node: Page): U32 { U32At(node, NUM_CELLS_OFFSET) }

  function NextLeaf(node: Page): U32 { U32At(node, NEXT_LEAF_OFFSET) }

  // ---- Cells ----

  datatype LeafCell = LeafCell(key: U32, row: seq<Byte>)

  datatype InternalCell = InternalCell(maxKey: U32, child: U32)

  // The offsets are written with numerals (COMMON_NODE_HEADER_SIZE = 14,
  // LEAF_NODE_CELL_SIZE = 295, INTERNAL_NODE_CELL_SIZE = 8, as LayoutSizes
  // states) so that the solver sees multiplication by a constant.

  /** Where leaf cell i starts; the cell lies wholly inside the page
      exactly for the LEAF_NODE_MAX_CELLS cells 0 .. 12. */
  function LeafCellOffset(i: nat): (o: nat)
    ensures i < LEAF_NODE_MAX_CELLS <==> o + LEAF_NODE_CELL_SIZE <= PAGE_SIZE
  {
    14 + i * 295
  }

  /** Where internal cell i starts; the cell lies wholly inside the page
      exactly for the INTERNAL_NODE_MAX_CELLS cells 0 .. 509. */
  function InternalCellOffset(i: nat): (o: nat)
    ensures i < INTERNAL_NODE_MAX_CELLS <==> o + INTERNAL_NODE_CELL_SIZE <= PAGE_SIZE
  {
    14 + i * 8
  }

  /** Leaf cell i; the cells that fit in a page are 0 .. LEAF_NODE_MAX_CELLS - 1. */
  function LeafCellAt(node: Page, i: nat): LeafCell
    requires i < LEAF_NODE_MAX_CELLS
  {
    var o := LeafCellOffset(i);
    LeafCell(U32At(node, o), node[o + LEAF_NODE_KEY_SIZE .. o + LEAF_NODE_CELL_SIZE])
  }

  function LeafCells(node: Page, n: nat): seq<LeafCell>
    requires n <= LEAF_NODE_MAX_CELLS
  {
    seq(n, i requires 0 <= i < n => LeafCellAt(node, i))
  }

  function InternalCellAt(node: Page, i: nat): InternalCell
    requires i < INTERNAL_NODE_MAX_CELLS
  {
    var o := InternalCellOffset(i);
    InternalCell(U32At(node, o), U32At(node, o + INTERNAL_NODE_KEY_SIZE))
  }

  function InternalCells(node: Page, n: nat): seq<InternalCell>
    requires n <= INTERNAL_NODE_MAX_CELLS
  {
    seq(n, i requires 0 <= i < n => InternalCellAt(node, i))
  }

  /** get_node_max_key: the key of the last leaf cell, 0 for an empty node.
      The source reads the key at the offset the cell count gives, so it
      demands that this key lie inside the page. A count of 14, one past the
      last cell slot, still passes: the key is then read from the four bytes
      after cell 12, in the page's unused tail. */
  function MaxKey(node: Page): (r: U32)
    requires NumCells(node) == 0 || LeafCellOffset(NumCells(node) - 1) + LEAF_NODE_KEY_SIZE <= PAGE_SIZE
    ensures NumCells(node) == 0 ==> r == 0
    ensures 0 < NumCells(node) <= LEAF_NODE_MAX_CELLS ==>
              r == LeafCellAt(node, NumCells(node) - 1).key
    ensures NumCells(node) == LEAF_NODE_MAX_CELLS + 1 ==>
              r == U32At(node, LeafCellOffset(LEAF_NODE_MAX_CELLS))
  {
    var n := NumCells(node);
    if n == 0 then 0 else U32At(node, LeafCellOffset(n - 1))
  }

  // ---- Header writes: each changes its own bytes and nothing else ----

  function WithNodeType(node: Page, t: Byte): (r: Page)
    ensures NodeType(r) == t
    ensures forall i {:trigger r[i]} :: 0 <= i < PAGE_SIZE && i != 0 ==> r[i] == node[i]
  {
    node[0 := t]
  }

  function WithRootFlag(node: Page, isRoot: bool): (r: Page)
    ensures RootFlag(r) == if isRoot then 1 else 0
    ensures forall i {:trigger r[i]} :: 0 <= i < PAGE_SIZE && i != NODE_ROOT_OFFSET ==> r[i] == node[i]
  {
    node[NODE_ROOT_OFFSET := if isRoot then 1 else 0]
  }

  function WithNumCells(node: Page, n: U32): (r: Page)
    ensures NumCells(r) == n
    ensures forall i {:trigger r[i]} :: 0 <= i < PAGE_SIZE && !(NUM_CELLS_OFFSET <= i < NUM_CELLS_OFFSET + 4) ==> r[i] == node[i]
  {
    WriteU32(node, NUM_CELLS_OFFSET, n)
  }

  function WithNextLeaf(node: Page, page: U32): (r: Page)
    ensures NextLeaf(r) == page
    ensures forall i {:trigger r[i]} :: 0 <= i < PAGE_SIZE && !(NEXT_LEAF_OFFSET <= i < NEXT_LEAF_OFFSET + 4) ==> r[i] == node[i]
  {
    WriteU32(node, NEXT_LEAF_OFFSET, page)
  }

  /** initialize_leaf_node: type leaf, not root, no cells, no next leaf;
      the parent bytes and the cell area are left as they were. */
  function InitLeaf(node: Page): (r: Page)
    ensures NodeType(r) == NODE_LEAF && RootFlag(r) == 0 && NumCells(r) == 0 && NextLeaf(r) == 0
    ensures forall i {:trigger r[i]} :: 0 <= i < PAGE_SIZE && i != 0 && i != 1 && !(NUM_CELLS_OFFSET <= i < COMMON_NODE_HEADER_SIZE) ==> r[i] == node[i]
  {
    WithNextLeaf(WithNumCells(WithRootFlag(WithNodeType(node, NODE_LEAF), false), 0), 0)
  }

  /** initialize_internal_node: type internal, not root, no cells; unlike
      InitLeaf it leaves the next-leaf bytes 10..13 untouched. */
  function InitInternal(node: Page): (r: Page)
    ensures NodeType(r) == NODE_INTERNAL && RootFlag(r) == 0 && NumCells(r) == 0
    ensures NextLeaf(r) == NextLeaf(node)
    ensures forall i {:trigger r[i]} :: 0 <= i < PAGE_SIZE && i != 0 && i != 1 && !(NUM_CELLS_OFFSET <= i < NEXT_LEAF_OFFSET) ==> r[i] == node[i]
  {
    WithNumCells(WithRootFlag(WithNodeType(node, NODE_INTERNAL), false), 0)
  }

  // ---- Cell writes ----

  /** Key then row at leaf cell i; only that cell's bytes change. */
  function WithLeafCell(node: Page, i: nat, key: U32, row: seq<Byte>): (r: Page)
    requires i < LEAF_NODE_MAX_CELLS && |row| == ROW_SIZE
    ensures LeafCellAt(r, i) == LeafCell(key, row)
    ensures forall j {:trigger r[j]} :: 0 <= j < PAGE_SIZE && !(LeafCellOffset(i) <= j < LeafCellOffset(i) + LEAF_NODE_CELL_SIZE) ==> r[j] == node[j]
  {
    var o := LeafCellOffset(i);
    var keyed := WriteU32(node, o, key);
    var r := Write(keyed, o + LEAF_NODE_KEY_SIZE, row);
    assert U32At(r, o) == U32At(keyed, o);
    r
  }

  /** Max key then child at internal cell i; only that cell's bytes change. */
  function WithInternalCell(node: Page, i: nat, maxKey: U32, child: U32): (r: Page)
    requires i < INTERNAL_NODE_MAX_CELLS
    ensures InternalCellAt(r, i) == InternalCell(maxKey, child)
    ensures forall j {:trigger r[j]} :: 0 <= j < PAGE_SIZE && !(InternalCellOffset(i) <= j < InternalCellOffset(i) + INTERNAL_NODE_CELL_SIZE) ==> r[j] == node[j]
  {
    var o := InternalCellOffset(i);
    WriteU32(WriteU32(node, o, maxKey), o + INTERNAL_NODE_KEY_SIZE, child)
  }

  // ---- Facts about cells ----

  /** A leaf cell is determined by its bytes: two pages whose bytes agree on
      cell j of one and cell k of the other hold the same cell there. */
  lemma {:induction false} LeafCellFromBytes(a: Page, j: nat, b: Page, k: nat)
    requires j < LEAF_NODE_MAX_CELLS && k < LEAF_NODE_MAX_CELLS
    requires forall t :: LeafCellOffset(j) <= t < LeafCellOffset(j) + LEAF_NODE_CELL_SIZE ==>
               a[t] == b[t - LeafCellOffset(j) + LeafCellOffset(k)]
    ensures LeafCellAt(a, j) == LeafCellAt(b, k)
  {
    var oj, ok := LeafCellOffset(j), LeafCellOffset(k);
    assert a[oj] == b[ok] && a[oj + 1] == b[ok + 1] && a[oj + 2] == b[ok + 2] && a[oj + 3] == b[ok + 3];
    var ra, rb := a[oj + 4 .. oj + LEAF_NODE_CELL_SIZE], b[ok + 4 .. ok + LEAF_NODE_CELL_SIZE];
    forall x | 0 <= x < |ra|
      ensures ra[x] == rb[x]
    {
      assert ra[x] == a[oj + 4 + x];
      assert a[oj + 4 + x] == b[(oj + 4 + x) - oj + ok];
    }
    assert ra == rb;
  }

  /** leaf_node_insert on a non-full leaf: write the cell at index
      num_cells, then bump the count. */
  function InsertIntoLeaf(node: Page, key: U32, row: seq<Byte>): (r: Page)
    requires NumCells(node) < LEAF_NODE_MAX_CELLS && |row| == ROW_SIZE
    ensures NumCells(r) == NumCells(node) + 1
    ensures NodeType(r) == NodeType(node) && RootFlag(r) == RootFlag(node) && NextLeaf(r) == NextLeaf(node)
  {
    var n := NumCells(node);
    WithNumCells(WithLeafCell(node, n, key, row), n + 1)
  }

  /** Header writes leave every leaf cell as it was. */
  lemma NumCellsWriteKeepsLeafCell(node: Page, n: U32, j: nat)
    requires j < LEAF_NODE_MAX_CELLS
    ensures LeafCellAt(WithNumCells(node, n), j) == LeafCellAt(node, j)
  {
    LeafCellFromBytes(WithNumCells(node, n), j, node, j);
  }

  /** Writing leaf cell i leaves every other leaf cell as it was. */
  lemma LeafCellWriteKeepsOthers(node: Page, i: nat, key: U32, row: seq<Byte>, j: nat)
    requires i < LEAF_NODE_MAX_CELLS && |row| == ROW_SIZE && j < LEAF_NODE_MAX_CELLS && i != j
    ensures LeafCellAt(WithLeafCell(node, i, key, row), j) == LeafCellAt(node, j)
  {
    LeafCellFromBytes(WithLeafCell(node, i, key, row), j, node, j);
  }

  /** Writing cell n and then setting the count to n + 1 appends one cell. */
  lemma {:induction false} CellsAfterAppend(node: Page, n: nat, key: U32, row: seq<Byte>)
    requires n < LEAF_NODE_MAX_CELLS && |row| == ROW_SIZE
    ensures LeafCells(WithNumCells(WithLeafCell(node, n, key, row), n + 1), n + 1)
            == LeafCells(node, n) + [LeafCell(key, row)]
  {
    var mid := WithLeafCell(node, n, key, row);
    var lhs := LeafCells(WithNumCells(mid, n + 1), n + 1);
    var rhs := LeafCells(node, n) + [LeafCell(key, row)];
    forall j | 0 <= j < n + 1
      ensures lhs[j] == rhs[j]
    {
      NumCellsWriteKeepsLeafCell(mid, n + 1, j);
      if j < n {
        LeafCellWriteKeepsOthers(node, n, key, row, j);
      }
    }
    assert lhs == rhs;
  }

  /** Inserting into a non-full leaf appends the new cell after the existing
      ones, whatever its key: earlier cells are unchanged, nothing is sorted. */
  lemma {:induction false} InsertIntoLeafAppends(node: Page, key: U32, row: seq<Byte>)
    requires NumCells(node) < LEAF_NODE_MAX_CELLS && |row| == ROW_SIZE
    ensures LeafCells(InsertIntoLeaf(node, key, row), NumCells(node) + 1)
            == LeafCells(node, NumCells(node)) + [LeafCell(key, row)]
  {
    CellsAfterAppend(node, NumCells(node), key, row);
  }

  // ---- Root split, page by page ----

  /** Index at which the full root leaf is divided: LEAF_NODE_MAX_CELLS / 2,
      as LayoutSizes proves. */
  const SPLIT_INDEX: nat := 6

  /** The left leaf a root split leaves (split_root_node, left half): the
      header of an initialized leaf, parent bytes kept, with SPLIT_INDEX
      cells and the right page as next leaf; then the root's first
      SPLIT_INDEX cells; beyond them the bytes the page held before. */
  function SplitLeftPage(page: Page, root: Page, rightPage: U32): (left: Page)
    ensures NumCells(left) == SPLIT_INDEX
  {
    var count, next, copied := EncodeU32(SPLIT_INDEX), EncodeU32(rightPage), LeafCellOffset(SPLIT_INDEX);
    seq<Byte>(PAGE_SIZE, (i: int) requires 0 <= i < PAGE_SIZE =>
      if i == 0 then NODE_LEAF
      else if i == NODE_ROOT_OFFSET then 0
      else if NUM_CELLS_OFFSET <= i < NEXT_LEAF_OFFSET then count[i - NUM_CELLS_OFFSET]
      else if NEXT_LEAF_OFFSET <= i < COMMON_NODE_HEADER_SIZE then next[i - NEXT_LEAF_OFFSET]
      else if COMMON_NODE_HEADER_SIZE <= i < copied then root[i]
      else page[i])
  }

  /** The right leaf a root split leaves (split_root_node, right half): the
      header of an initialized leaf with LEAF_NODE_MAX_CELLS - SPLIT_INDEX + 1
      cells and no next leaf; then the root's cells SPLIT_INDEX .. 12 and
      after them the new cell (key, row), appended whatever its key; beyond
      them the bytes the page held before. */
  function SplitRightPage(page: Page, root: Page, key: U32, row: seq<Byte>): Page
    requires |row| == ROW_SIZE
  {
    var count, keyBytes := EncodeU32(LEAF_NODE_MAX_CELLS - SPLIT_INDEX + 1), EncodeU32(key);
    var from, moved := LeafCellOffset(SPLIT_INDEX), LeafCellOffset(LEAF_NODE_MAX_CELLS - SPLIT_INDEX);
    seq<Byte>(PAGE_SIZE, (i: int) requires 0 <= i < PAGE_SIZE =>
      if i == 0 then NODE_LEAF
      else if i == NODE_ROOT_OFFSET then 0
      else if NUM_CELLS_OFFSET <= i < NEXT_LEAF_OFFSET then count[i - NUM_CELLS_OFFSET]
      else if NEXT_LEAF_OFFSET <= i < COMMON_NODE_HEADER_SIZE then 0
      else if COMMON_NODE_HEADER_SIZE <= i < moved then root[i - COMMON_NODE_HEADER_SIZE + from]
      else if moved <= i < moved + LEAF_NODE_KEY_SIZE then keyBytes[i - moved]
      else if moved <= i < moved + LEAF_NODE_CELL_SIZE then row[i - moved - LEAF_NODE_KEY_SIZE]
      else page[i])
  }

  /** Page 0 rewritten in place as the internal root (split_root_node,
      last step): an internal node with the root flag and two cells, the
      left page under leftMaxKey and the right page under the sentinel;
      the parent and next-leaf bytes and everything after the two cells
      are left as they were. */
  function SplitRootPage(root: Page, leftMaxKey: U32, leftPage: U32, rightPage: U32): Page
  {
    var c0, c1 := InternalCellOffset(0), InternalCellOffset(1);
    var count, key0, child0 := EncodeU32(2), EncodeU32(leftMaxKey), EncodeU32(leftPage);
    var key1, child1 := EncodeU32(MAX_INT_KEY), EncodeU32(rightPage);
    seq<Byte>(PAGE_SIZE, (i: int) requires 0 <= i < PAGE_SIZE =>
      if i == 0 then NODE_INTERNAL
      else if i == NODE_ROOT_OFFSET then 1
      else if NUM_CELLS_OFFSET <= i < NEXT_LEAF_OFFSET then count[i - NUM_CELLS_OFFSET]
      else if i < c0 then root[i]
      else if i < c0 + INTERNAL_NODE_KEY_SIZE then key0[i - c0]
      else if i < c1 then child0[i - c0 - INTERNAL_NODE_KEY_SIZE]
      else if i < c1 + INTERNAL_NODE_KEY_SIZE then key1[i - c1]
      else if i < c1 + INTERNAL_NODE_CELL_SIZE then child1[i - c1 - INTERNAL_NODE_KEY_SIZE]
      else root[i])
  }

  // The writes split_root_node makes, one after another, leave these pages.

  /** Left half: initialize, link to the right page, copy the root's first
      cells, set the count. */
  lemma {:induction false} SplitLeftSteps(page: Page, root: Page, rightPage: U32)
    ensures var linked := WithNextLeaf(InitLeaf(page), rightPage);
      var copied := Write(linked, COMMON_NODE_HEADER_SIZE, root[LeafCellOffset(0) .. LeafCellOffset(SPLIT_INDEX)]);
      WithNumCells(copied, SPLIT_INDEX) == SplitLeftPage(page, root, rightPage)
  {
    var linked := WithNextLeaf(InitLeaf(page), rightPage);
    var copied := Write(linked, COMMON_NODE_HEADER_SIZE, root[LeafCellOffset(0) .. LeafCellOffset(SPLIT_INDEX)]);
    var lhs, rhs := WithNumCells(copied, SPLIT_INDEX), SplitLeftPage(page, root, rightPage);
    forall i | 0 <= i < PAGE_SIZE
      ensures lhs[i] == rhs[i]
    {
      if NUM_CELLS_OFFSET <= i < NEXT_LEAF_OFFSET {
        assert lhs[i] == EncodeU32(SPLIT_INDEX)[i - NUM_CELLS_OFFSET];
      } else if NEXT_LEAF_OFFSET <= i < COMMON_NODE_HEADER_SIZE {
        assert lhs[i] == linked[i] == EncodeU32(rightPage)[i - NEXT_LEAF_OFFSET];
      } else if i == 0 {
        assert lhs[i] == linked[i] == InitLeaf(page)[i];
        assert lhs[i] == rhs[i];
      } else if i == 1 {
        assert lhs[i] == linked[i] == InitLeaf(page)[i];
        assert lhs[i] == rhs[i];
      } else if i < COMMON_NODE_HEADER_SIZE {
        assert lhs[i] == linked[i] == InitLeaf(page)[i];
        assert lhs[i] == rhs[i];
      } else if i < LeafCellOffset(SPLIT_INDEX) {
        assert lhs[i] == copied[i];
        assert copied[i] == root[LeafCellOffset(0) .. LeafCellOffset(SPLIT_INDEX)][i - COMMON_NODE_HEADER_SIZE];
        assert lhs[i] == rhs[i];
      } else {
        assert lhs[i] == linked[i] == InitLeaf(page)[i];
        assert lhs[i] == rhs[i];
      }
    }
    assert lhs == rhs;
  }

  /** Right half: initialize, copy the root's remaining cells, set the
      count, then append the new cell as leaf_node_insert does. */
  lemma {:induction false} SplitRightSteps(page: Page, root: Page, key: U32, row: seq<Byte>)
    requires |row| == ROW_SIZE
    ensures var copied := Write(InitLeaf(page), COMMON_NODE_HEADER_SIZE,
                                root[LeafCellOffset(SPLIT_INDEX) .. LeafCellOffset(LEAF_NODE_MAX_CELLS)]);
      InsertIntoLeaf(WithNumCells(copied, LEAF_NODE_MAX_CELLS - SPLIT_INDEX), key, row)
      == SplitRightPage(page, root, key, row)
  {
    var copied := Write(InitLeaf(page), COMMON_NODE_HEADER_SIZE,
                        root[LeafCellOffset(SPLIT_INDEX) .. LeafCellOffset(LEAF_NODE_MAX_CELLS)]);
    var moved := WithNumCells(copied, LEAF_NODE_MAX_CELLS - SPLIT_INDEX);
    var o := LeafCellOffset(LEAF_NODE_MAX_CELLS - SPLIT_INDEX);
    var keyed := WriteU32(moved, o, key);
    var cell := Write(keyed, o + LEAF_NODE_KEY_SIZE, row);
    var lhs, rhs := InsertIntoLeaf(moved, key, row), SplitRightPage(page, root, key, row);
    assert lhs == WithNumCells(cell, LEAF_NODE_MAX_CELLS - SPLIT_INDEX + 1);
    forall i | 0 <= i < PAGE_SIZE
      ensures lhs[i] == rhs[i]
    {
      if NUM_CELLS_OFFSET <= i < NEXT_LEAF_OFFSET {
        assert lhs[i] == EncodeU32(LEAF_NODE_MAX_CELLS - SPLIT_INDEX + 1)[i - NUM_CELLS_OFFSET];
      } else if o <= i < o + LEAF_NODE_KEY_SIZE {
        assert lhs[i] == keyed[i] == EncodeU32(key)[i - o];
      } else if o + LEAF_NODE_KEY_SIZE <= i < o + LEAF_NODE_CELL_SIZE {
        assert lhs[i] == cell[i];
      } else {
        assert lhs[i] == moved[i];
      }
    }
    assert lhs == rhs;
  }

  /** New root: initialize as internal, set the root flag and a count of
      two, write the two routing cells. */
  lemma {:induction false} SplitRootSteps(root: Page, leftMaxKey: U32, leftPage: U32, rightPage: U32)
    ensures var header := WithNumCells(WithRootFlag(InitInternal(root), true), 2);
      WithInternalCell(WithInternalCell(header, 0, leftMaxKey, leftPage), 1, MAX_INT_KEY, rightPage)
      == SplitRootPage(root, leftMaxKey, leftPage, rightPage)
  {
    var header := WithNumCells(WithRootFlag(InitInternal(root), true), 2);
    var first := WithInternalCell(header, 0, leftMaxKey, leftPage);
    var lhs := WithInternalCell(first, 1, MAX_INT_KEY, rightPage);
    var rhs := SplitRootPage(root, leftMaxKey, leftPage, rightPage);
    var c0, c1 := InternalCellOffset(0), InternalCellOffset(1);
    forall i | 0 <= i < PAGE_SIZE
      ensures lhs[i] == rhs[i]
    {
      if NUM_CELLS_OFFSET <= i < NEXT_LEAF_OFFSET {
        assert lhs[i] == header[i] == EncodeU32(2)[i - NUM_CELLS_OFFSET];
      } else if c0 <= i < c0 + INTERNAL_NODE_KEY_SIZE {
        assert lhs[i] == first[i] == EncodeU32(leftMaxKey)[i - c0];
      } else if c0 + INTERNAL_NODE_KEY_SIZE <= i < c1 {
        assert lhs[i] == first[i] == EncodeU32(leftPage)[i - c0 - INTERNAL_NODE_KEY_SIZE];
      } else if c1 <= i < c1 + INTERNAL_NODE_KEY_SIZE {
        assert lhs[i] == EncodeU32(MAX_INT_KEY)[i - c1];
      } else if c1 + INTERNAL_NODE_KEY_SIZE <= i < c1 + INTERNAL_NODE_CELL_SIZE {
        assert lhs[i] == EncodeU32(rightPage)[i - c1 - INTERNAL_NODE_KEY_SIZE];
      } else {
        assert lhs[i] == header[i];
      }
    }
    assert lhs == rhs;
  }

  // What the split pages hold, read through the getters.

  lemma {:induction false} SplitLeftShape(page: Page, root: Page, rightPage: U32)
    ensures var left := SplitLeftPage(page, root, rightPage);
      && NodeType(left) == NODE_LEAF && RootFlag(left) == 0
      && NumCells(left) == SPLIT_INDEX && NextLeaf(left) == rightPage
      && LeafCells(left, SPLIT_INDEX) == LeafCells(root, LEAF_NODE_MAX_CELLS)[..SPLIT_INDEX]
      && MaxKey(left) == LeafCellAt(root, SPLIT_INDEX - 1).key
  {
    var left := SplitLeftPage(page, root, rightPage);
    U32AtEncoded(left, NEXT_LEAF_OFFSET, rightPage);
    var lhs, rhs := LeafCells(left, SPLIT_INDEX), LeafCells(root, LEAF_NODE_MAX_CELLS)[..SPLIT_INDEX];
    forall j | 0 <= j < SPLIT_INDEX
      ensures lhs[j] == rhs[j]
    {
      LeafCellFromBytes(left, j, root, j);
    }
    assert lhs == rhs;
    assert LeafCellAt(left, SPLIT_INDEX - 1) == lhs[SPLIT_INDEX - 1];
  }

  lemma {:induction false} SplitRightShape(page: Page, root: Page, key: U32, row: seq<Byte>)
    requires |row| == ROW_SIZE
    ensures var right := SplitRightPage(page, root, key, row);
      && NodeType(right) == NODE_LEAF && RootFlag(right) == 0
      && NumCells(right) == LEAF_NODE_MAX_CELLS - SPLIT_INDEX + 1 && NextLeaf(right) == 0
      && LeafCells(right, LEAF_NODE_MAX_CELLS - SPLIT_INDEX + 1)
         == LeafCells(root, LEAF_NODE_MAX_CELLS)[SPLIT_INDEX..] + [LeafCell(key, row)]
  {
    var right := SplitRightPage(page, root, key, row);
    var n := LEAF_NODE_MAX_CELLS - SPLIT_INDEX;
    U32AtEncoded(right, NUM_CELLS_OFFSET, n + 1);
    U32AtEncoded(right, NEXT_LEAF_OFFSET, 0);
    var lhs, rhs := LeafCells(right, n + 1), LeafCells(root, LEAF_NODE_MAX_CELLS)[SPLIT_INDEX..] + [LeafCell(key, row)];
    forall j | 0 <= j < n
      ensures lhs[j] == rhs[j]
    {
      LeafCellFromBytes(right, j, root, j + SPLIT_INDEX);
    }
    NewCellAt(right, n, key, row);
    assert lhs == rhs;
  }

  /** A page whose bytes at leaf cell j are key's encoding and then row
      holds the cell (key, row) there. */
  lemma {:induction false} NewCellAt(page: Page, j: nat, key: U32, row: seq<Byte>)
    requires j < LEAF_NODE_MAX_CELLS && |row| == ROW_SIZE
    requires forall t :: 0 <= t < LEAF_NODE_KEY_SIZE ==> page[LeafCellOffset(j) + t] == EncodeU32(key)[t]
    requires forall t :: 0 <= t < ROW_SIZE ==> page[LeafCellOffset(j) + LEAF_NODE_KEY_SIZE + t] == row[t]
    ensures LeafCellAt(page, j) == LeafCell(key, row)
  {
    var o := LeafCellOffset(j);
    U32AtEncoded(page, o, key);
    assert page[o + LEAF_NODE_KEY_SIZE .. o + LEAF_NODE_CELL_SIZE] == row;
  }

  lemma {:induction false} SplitRootShape(root: Page, leftMaxKey: U32, leftPage: U32, rightPage: U32)
    ensures var r := SplitRootPage(root, leftMaxKey, leftPage, rightPage);
      && NodeType(r) == NODE_INTERNAL && RootFlag(r) == 1 && NumCells(r) == 2
      && InternalCells(r, 2) == [InternalCell(leftMaxKey, leftPage), InternalCell(MAX_INT_KEY, rightPage)]
      && NextLeaf(r) == NextLeaf(root)
  {
    var r := SplitRootPage(root, leftMaxKey, leftPage, rightPage);
    var c0, c1 := InternalCellOffset(0), InternalCellOffset(1);
    U32AtEncoded(r, NUM_CELLS_OFFSET, 2);
    U32AtEncoded(r, c0, leftMaxKey);
    U32AtEncoded(r, c0 + INTERNAL_NODE_KEY_SIZE, leftPage);
    U32AtEncoded(r, c1, MAX_INT_KEY);
    U32AtEncoded(r, c1 + INTERNAL_NODE_KEY_SIZE, rightPage);
    assert InternalCells(r, 2) == [InternalCellAt(r, 0), InternalCellAt(r, 1)];
  }
}
