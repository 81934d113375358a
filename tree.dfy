/** The B-tree operations: routing a key from the root to a leaf
    (find_leaf_page), inserting a row into a leaf (leaf_node_insert) and
    splitting a full root leaf (split_root_node). Each is specified by a
    function over the page images and the page count, and the methods that
    work on the cached buffers are proved against those functions. */
module Tree {
  import opened Bytes
  import opened Layout
  import opened NodeOps
  import opened Paging
  import opened Cursors

  // ---- Routing ----

  /** The routing decision at an internal node: the first cell, from i on,
      whose max key is at least the key; none when the cell count runs out
      first; or a struct error when the cell count reaches past the page. */
  datatype Choice = Child(index: nat, page: U32) | NoMatch | BadCell

  function ChildFor(node: Page, key: int, i: nat, n: nat): (r: Choice)
    requires i <= INTERNAL_NODE_MAX_CELLS
    ensures r.Child? ==>
              && i <= r.index < n && r.index < INTERNAL_NODE_MAX_CELLS
              && key <= InternalCellAt(node, r.index).maxKey
              && r.page == InternalCellAt(node, r.index).child
              && forall k :: i <= k < r.index ==> key > InternalCellAt(node, k).maxKey
    ensures r.NoMatch? ==>
              n <= INTERNAL_NODE_MAX_CELLS && forall k :: i <= k < n ==> key > InternalCellAt(node, k).maxKey
    ensures r.BadCell? ==>
              INTERNAL_NODE_MAX_CELLS < n
              && forall k :: i <= k < INTERNAL_NODE_MAX_CELLS ==> key > InternalCellAt(node, k).maxKey
    decreases n - i
  {
    if i >= n then NoMatch
    else if i >= INTERNAL_NODE_MAX_CELLS then BadCell
    else
      var cell := InternalCellAt(node, i);
      if key <= cell.maxKey then Child(i, cell.child) else ChildFor(node, key, i + 1, n)
  }

  /** find_leaf_page's descent from `page`: at an internal node take the
      chosen child; with no match return page 0 at once; raise on a bad
      cell or on a child page past the cache. */
  function Route(img: seq<Page>, key: int, page: nat, fuel: nat): (w: Walk)
    requires |img| == TABLE_MAX_PAGES && page < TABLE_MAX_PAGES
    decreases fuel, 1
  {
    if NodeType(img[page]) != NODE_INTERNAL then Found(page)
    else if fuel == 0 then Diverges
    else RouteInternal(img, key, page, fuel)
  }

  /** One step of the descent at internal page `page`: follow the chosen
      child. */
  function RouteInternal(img: seq<Page>, key: int, page: nat, fuel: nat): (w: Walk)
    requires |img| == TABLE_MAX_PAGES && page < TABLE_MAX_PAGES && fuel > 0
    decreases fuel, 0
  {
    var node := img[page];
    match ChildFor(node, key, 0, NumCells(node))
    case NoMatch => Found(0)
    case BadCell => Raised
    case Child(_, c) => if c >= TABLE_MAX_PAGES then Raised else Route(img, key, c, fuel - 1)
  }

  /** When the descent ends at a page, that page is within the cache and is
      either not an internal node or page 0 (RouteNoMatchRoot gives one
      case of the latter). */
  lemma {:induction false} RouteEnds(img: seq<Page>, key: int, page: nat, fuel: nat)
    requires |img| == TABLE_MAX_PAGES && page < TABLE_MAX_PAGES
    ensures var w := Route(img, key, page, fuel);
      w.Found? ==> w.page < TABLE_MAX_PAGES && (w.page == 0 || NodeType(img[w.page]) != NODE_INTERNAL)
    decreases fuel
  {
    if NodeType(img[page]) == NODE_INTERNAL && fuel > 0 {
      assert Route(img, key, page, fuel) == RouteInternal(img, key, page, fuel);
      match ChildFor(img[page], key, 0, NumCells(img[page]))
      case Child(_, c) =>
        if c < TABLE_MAX_PAGES {
          RouteEnds(img, key, c, fuel - 1);
        }
      case _ =>
    }
  }

  /** A root that is an internal node and matches no cell for the key sends
      the key to page 0 itself: find_leaf_page returns 0 after its error. */
  lemma RouteNoMatchRoot(img: seq<Page>, key: int)
    requires |img| == TABLE_MAX_PAGES
    requires NodeType(img[0]) == NODE_INTERNAL && ChildFor(img[0], key, 0, NumCells(img[0])).NoMatch?
    ensures Route(img, key, 0, WALK_FUEL) == Found(0)
  {
  }

  /** find_leaf_page's loop goes on from page q: q is an internal node and
      the key chooses a child within the cache. */
  predicate RoutesOn(img: seq<Page>, key: int, q: nat)
  {
    && q < |img| && NodeType(img[q]) == NODE_INTERNAL
    && var c := ChildFor(img[q], key, 0, NumCells(img[q])); c.Child? && c.page < TABLE_MAX_PAGES
  }

  /** find_leaf_page's move: to the chosen child where the loop goes on. */
  function ChosenSteps(img: seq<Page>, key: int): (step: nat -> nat)
  {
    (q: nat) => if RoutesOn(img, key, q) then ChildFor(img[q], key, 0, NumCells(img[q])).page else q
  }

  /** A descent that runs out of fuel f goes on from each of its first f
      pages. */
  lemma {:induction false} RouteDivergesRoutes(img: seq<Page>, key: int, p: nat, f: nat, k: nat)
    requires |img| == TABLE_MAX_PAGES && p < TABLE_MAX_PAGES && Route(img, key, p, f) == Diverges && k < f
    ensures RoutesOn(img, key, Iterate(ChosenSteps(img, key), p, k))
    decreases k
  {
    assert Route(img, key, p, f) == RouteInternal(img, key, p, f);
    if k > 0 {
      var child := ChildFor(img[p], key, 0, NumCells(img[p])).page;
      RouteDivergesRoutes(img, key, child, f - 1, k - 1);
      IterateAdd(ChosenSteps(img, key), p, 1, k - 1);
    }
  }

  /** A descent that goes on from every page it reaches runs out of any
      fuel. */
  lemma {:induction false} RouteForever(img: seq<Page>, key: int, p: nat, fuel: nat)
    requires |img| == TABLE_MAX_PAGES && p < TABLE_MAX_PAGES
    requires forall k: nat :: RoutesOn(img, key, Iterate(ChosenSteps(img, key), p, k))
    ensures Route(img, key, p, fuel) == Diverges
    decreases fuel
  {
    assert RoutesOn(img, key, Iterate(ChosenSteps(img, key), p, 0));
    if fuel > 0 {
      assert Route(img, key, p, fuel) == RouteInternal(img, key, p, fuel);
      var child := ChildFor(img[p], key, 0, NumCells(img[p])).page;
      forall k: nat ensures RoutesOn(img, key, Iterate(ChosenSteps(img, key), child, k)) {
        IterateAdd(ChosenSteps(img, key), p, 1, k);
        assert RoutesOn(img, key, Iterate(ChosenSteps(img, key), p, 1 + k));
      }
      RouteForever(img, key, child, fuel - 1);
    }
  }

  /** Running out of WALK_FUEL means running forever: a descent that
      diverges with WALK_FUEL diverges with every fuel, so find_leaf_page's
      loop never ends on such pages. */
  lemma RouteDivergesForever(img: seq<Page>, key: int, page: nat, fuel: nat)
    requires |img| == TABLE_MAX_PAGES && page < TABLE_MAX_PAGES && Route(img, key, page, WALK_FUEL) == Diverges
    ensures Route(img, key, page, fuel) == Diverges
  {
    var step := ChosenSteps(img, key);
    var good := (q: nat) => RoutesOn(img, key, q);
    forall m: nat | m < WALK_FUEL
      ensures good(Iterate(step, page, m))
    {
      RouteDivergesRoutes(img, key, page, WALK_FUEL, m);
    }
    forall m: nat | m <= WALK_FUEL
      ensures Iterate(step, page, m) < WALK_FUEL
    {
      if m > 0 {
        RouteDivergesRoutes(img, key, page, WALK_FUEL, m - 1);
      }
    }
    forall k: nat
      ensures RoutesOn(img, key, Iterate(step, page, k))
    {
      AlwaysGood(step, good, page, WALK_FUEL, k);
    }
    RouteForever(img, key, page, fuel);
  }

  /** No cell matches exactly when every stored max key is below the key
      (and the cells all lie in the page). */
  lemma {:induction false} NoMatchIff(node: Page, key: int, n: nat)
    ensures ChildFor(node, key, 0, n).NoMatch? <==>
              n <= INTERNAL_NODE_MAX_CELLS && forall k :: 0 <= k < n ==> key > InternalCellAt(node, k).maxKey
  {
    var r := ChildFor(node, key, 0, n);
    if r.Child? {
      assert key <= InternalCellAt(node, r.index).maxKey;
    }
  }

  /** With the sentinel MAX_INT_KEY in the last cell, every key up to
      2^32 - 1 finds a child. */
  lemma {:induction false} SentinelRoutes(node: Page, key: int)
    requires 0 < NumCells(node) <= INTERNAL_NODE_MAX_CELLS
    requires InternalCellAt(node, NumCells(node) - 1).maxKey == MAX_INT_KEY && key <= MAX_INT_KEY
    ensures ChildFor(node, key, 0, NumCells(node)).Child?
  {
    NoMatchIff(node, key, NumCells(node));
  }

  // ---- Insertion ----

  /** The page images and page count after an operation, and whether it
      ended in an exception. */
  datatype Outcome = Outcome(pages: seq<Page>, numPages: nat, raised: bool)

  /** split_root_node: the two new pages are the next two page numbers and
      the count grows by two before either is fetched. When a new page
      number is past the cache, get_page raises and the writes made so far
      remain. Otherwise the left page takes the root's first cells, the
      right page the rest plus the new row, and page 0 becomes the internal
      root routing to them. */
  function SplitRoot(img: seq<Page>, numPages: nat, key: U32, row: seq<Byte>): Outcome
    requires |img| == TABLE_MAX_PAGES && numPages >= 1 && |row| == ROW_SIZE
  {
    var p1, p2 := numPages, numPages + 1;
    if p1 >= TABLE_MAX_PAGES then Outcome(img, numPages + 2, true)
    else if p2 >= TABLE_MAX_PAGES then Outcome(img[p1 := InitLeaf(img[p1])], numPages + 2, true)
    else
      var root := img[0];
      var left := SplitLeftPage(img[p1], root, p2);
      var right := SplitRightPage(img[p2], root, key, row);
      var newRoot := SplitRootPage(root, MaxKey(left), p1, p2);
      Outcome(img[p1 := left][p2 := right][0 := newRoot], numPages + 2, false)
  }

  /** leaf_node_insert at page pageNum: append to a non-full leaf; split
      when the full leaf carries the root flag (the split works on page 0);
      otherwise drop the row and leave every page as it was. */
  function LeafInsert(img: seq<Page>, numPages: nat, pageNum: nat, key: U32, row: seq<Byte>): Outcome
    requires |img| == TABLE_MAX_PAGES && numPages >= 1 && |row| == ROW_SIZE
  {
    if pageNum >= TABLE_MAX_PAGES then Outcome(img, numPages, true)
    else
      var node := img[pageNum];
      if NumCells(node) >= LEAF_NODE_MAX_CELLS then
        if RootFlag(node) != 0 then SplitRoot(img, numPages, key, row)
        else Outcome(img, numPages, false)
      else
        Outcome(img[pageNum := InsertIntoLeaf(node, key, row)], numPages, false)
  }

  /** The shape split_root_node leaves: page numbers, page count, both
      leaves, the new internal root, and every other page untouched. */
  lemma {:induction false} SplitRootResult(img: seq<Page>, numPages: nat, key: U32, row: seq<Byte>)
    requires |img| == TABLE_MAX_PAGES && numPages >= 1 && |row| == ROW_SIZE
    ensures var o, p1, p2 := SplitRoot(img, numPages, key, row), numPages, numPages + 1;
      && |o.pages| == TABLE_MAX_PAGES && o.numPages == numPages + 2
      && (o.raised <==> p2 >= TABLE_MAX_PAGES)
      && (o.raised ==> forall k :: 0 <= k < TABLE_MAX_PAGES && k != p1 ==> o.pages[k] == img[k])
      && (o.raised && p1 < TABLE_MAX_PAGES ==> o.pages[p1] == InitLeaf(img[p1]))
      && (!o.raised ==>
            var cells, left, right, root := LeafCells(img[0], LEAF_NODE_MAX_CELLS), o.pages[p1], o.pages[p2], o.pages[0];
            && NodeType(left) == NODE_LEAF && RootFlag(left) == 0 && NextLeaf(left) == p2
            && NumCells(left) == SPLIT_INDEX && LeafCells(left, SPLIT_INDEX) == cells[..SPLIT_INDEX]
            && NodeType(right) == NODE_LEAF && RootFlag(right) == 0 && NextLeaf(right) == 0
            && NumCells(right) == LEAF_NODE_MAX_CELLS - SPLIT_INDEX + 1
            && LeafCells(right, LEAF_NODE_MAX_CELLS - SPLIT_INDEX + 1) == cells[SPLIT_INDEX..] + [LeafCell(key, row)]
            && NodeType(root) == NODE_INTERNAL && RootFlag(root) == 1 && NumCells(root) == 2
            && InternalCells(root, 2) == [InternalCell(LeafCellAt(img[0], SPLIT_INDEX - 1).key, p1), InternalCell(MAX_INT_KEY, p2)]
            && forall k :: 0 <= k < TABLE_MAX_PAGES && k != 0 && k != p1 && k != p2 ==> o.pages[k] == img[k])
  {
    var p1, p2 := numPages, numPages + 1;
    if p2 < TABLE_MAX_PAGES {
      var o := SplitRoot(img, numPages, key, row);
      SplitRootPages(img, numPages, key, row);
      SplitPageShapes(img[0], img[p1], img[p2], o.pages[p1], o.pages[p2], o.pages[0], p1, p2, key, row);
    }
  }

  /** The three pages of a split, taken one at a time. */
  lemma SplitPageShapes(root: Page, page1: Page, page2: Page, left: Page, right: Page, newRoot: Page,
                        p1: nat, p2: nat, key: U32, row: seq<Byte>)
    requires p1 < p2 < TABLE_MAX_PAGES && |row| == ROW_SIZE
    requires left == SplitLeftPage(page1, root, p2) && right == SplitRightPage(page2, root, key, row)
    requires newRoot == SplitRootPage(root, LeafCellAt(root, SPLIT_INDEX - 1).key, p1, p2)
    ensures var cells := LeafCells(root, LEAF_NODE_MAX_CELLS);
      && NodeType(left) == NODE_LEAF && RootFlag(left) == 0 && NextLeaf(left) == p2
      && NumCells(left) == SPLIT_INDEX && LeafCells(left, SPLIT_INDEX) == cells[..SPLIT_INDEX]
      && NodeType(right) == NODE_LEAF && RootFlag(right) == 0 && NextLeaf(right) == 0
      && NumCells(right) == LEAF_NODE_MAX_CELLS - SPLIT_INDEX + 1
      && LeafCells(right, LEAF_NODE_MAX_CELLS - SPLIT_INDEX + 1) == cells[SPLIT_INDEX..] + [LeafCell(key, row)]
      && NodeType(newRoot) == NODE_INTERNAL && RootFlag(newRoot) == 1 && NumCells(newRoot) == 2
      && InternalCells(newRoot, 2) == [InternalCell(LeafCellAt(root, SPLIT_INDEX - 1).key, p1), InternalCell(MAX_INT_KEY, p2)]
  {
    SplitLeftShape(page1, root, p2);
    SplitRightShape(page2, root, key, row);
    SplitRootShape(root, LeafCellAt(root, SPLIT_INDEX - 1).key, p1, p2);
  }

  /** The pages a split leaves when both new page numbers fit, one by one. */
  lemma SplitRootPages(img: seq<Page>, numPages: nat, key: U32, row: seq<Byte>)
    requires |img| == TABLE_MAX_PAGES && numPages >= 1 && |row| == ROW_SIZE && numPages + 1 < TABLE_MAX_PAGES
    ensures var o, p1, p2 := SplitRoot(img, numPages, key, row), numPages, numPages + 1;
      && o.pages[p1] == SplitLeftPage(img[p1], img[0], p2)
      && o.pages[p2] == SplitRightPage(img[p2], img[0], key, row)
      && o.pages[0] == SplitRootPage(img[0], LeafCellAt(img[0], SPLIT_INDEX - 1).key, p1, p2)
      && forall k :: 0 <= k < TABLE_MAX_PAGES && k != 0 && k != p1 && k != p2 ==> o.pages[k] == img[k]
  {
    SplitLeftShape(img[numPages], img[0], numPages + 1);
  }

  /** The cases of leaf_node_insert: raise for a page past the cache; on a
      non-full leaf append the cell (count up by one, earlier cells kept,
      no other page changed); on a full non-root leaf change nothing; on a
      full root-flagged leaf split. */
  lemma {:induction false} LeafInsertResult(img: seq<Page>, numPages: nat, pageNum: nat, key: U32, row: seq<Byte>)
    requires |img| == TABLE_MAX_PAGES && numPages >= 1 && |row| == ROW_SIZE
    ensures var o := LeafInsert(img, numPages, pageNum, key, row);
      && (pageNum >= TABLE_MAX_PAGES ==> o == Outcome(img, numPages, true))
      && (pageNum < TABLE_MAX_PAGES && NumCells(img[pageNum]) < LEAF_NODE_MAX_CELLS ==>
            var n := NumCells(img[pageNum]);
            && !o.raised && o.numPages == numPages
            && NumCells(o.pages[pageNum]) == n + 1
            && LeafCells(o.pages[pageNum], n + 1) == LeafCells(img[pageNum], n) + [LeafCell(key, row)]
            && forall k :: 0 <= k < TABLE_MAX_PAGES && k != pageNum ==> o.pages[k] == img[k])
      && (pageNum < TABLE_MAX_PAGES && NumCells(img[pageNum]) >= LEAF_NODE_MAX_CELLS && RootFlag(img[pageNum]) == 0 ==>
            o == Outcome(img, numPages, false))
      && (pageNum < TABLE_MAX_PAGES && NumCells(img[pageNum]) >= LEAF_NODE_MAX_CELLS && RootFlag(img[pageNum]) != 0 ==>
            o == SplitRoot(img, numPages, key, row))
  {
    if pageNum < TABLE_MAX_PAGES && NumCells(img[pageNum]) < LEAF_NODE_MAX_CELLS {
      InsertIntoLeafAppends(img[pageNum], key, row);
    }
  }

  /** After a split, routing sends a key to the left leaf when it is at
      most the left leaf's max key and to the right leaf otherwise, for
      every key up to 2^32 - 1. */
  lemma {:induction false} RouteAfterSplit(img: seq<Page>, numPages: nat, key: U32, row: seq<Byte>, k: int)
    requires |img| == TABLE_MAX_PAGES && numPages >= 1 && |row| == ROW_SIZE
    requires numPages + 1 < TABLE_MAX_PAGES && k <= MAX_INT_KEY
    ensures var pages := SplitRoot(img, numPages, key, row).pages;
      var leftMax := LeafCellAt(img[0], SPLIT_INDEX - 1).key;
      Route(pages, k, 0, WALK_FUEL) == Found(if k <= leftMax then numPages else numPages + 1)
  {
    var o := SplitRoot(img, numPages, key, row);
    SplitRootPages(img, numPages, key, row);
    SplitPageShapes(img[0], img[numPages], img[numPages + 1], o.pages[numPages], o.pages[numPages + 1], o.pages[0],
                    numPages, numPages + 1, key, row);
    RouteTwoLeaves(SplitRoot(img, numPages, key, row).pages, k, LeafCellAt(img[0], SPLIT_INDEX - 1).key,
                   numPages, numPages + 1);
  }

  /** Routing under an internal root with two cells, the second holding the
      sentinel, whose children are leaves. */
  lemma {:induction false} RouteTwoLeaves(pages: seq<Page>, k: int, leftMax: U32, p1: nat, p2: nat)
    requires |pages| == TABLE_MAX_PAGES && 0 < p1 < TABLE_MAX_PAGES && 0 < p2 < TABLE_MAX_PAGES && k <= MAX_INT_KEY
    requires NodeType(pages[0]) == NODE_INTERNAL && NumCells(pages[0]) == 2
    requires InternalCells(pages[0], 2) == [InternalCell(leftMax, p1), InternalCell(MAX_INT_KEY, p2)]
    requires NodeType(pages[p1]) == NODE_LEAF && NodeType(pages[p2]) == NODE_LEAF
    ensures Route(pages, k, 0, WALK_FUEL) == Found(if k <= leftMax then p1 else p2)
  {
    var root := pages[0];
    assert InternalCellAt(root, 0) == InternalCells(root, 2)[0];
    assert InternalCellAt(root, 1) == InternalCells(root, 2)[1];
    assert ChildFor(root, k, 1, 2) == Child(1, p2);
    assert Route(pages, k, 0, WALK_FUEL) == RouteInternal(pages, k, 0, WALK_FUEL);
    assert Route(pages, k, p1, WALK_FUEL - 1) == Found(p1);
    assert Route(pages, k, p2, WALK_FUEL - 1) == Found(p2);
  }

  // ---- What a select reads ----

  /** A table whose root is a single leaf with no next leaf is read back
      as that leaf's cells in stored order. */
  lemma {:induction false} SelectSingleLeaf(img: seq<Page>, fuel: nat)
    requires |img| == TABLE_MAX_PAGES && NodeType(img[0]) != NODE_INTERNAL && NextLeaf(img[0]) == 0
    requires NumCells(img[0]) <= LEAF_NODE_MAX_CELLS && fuel >= NumCells(img[0])
    ensures Select(img, fuel) == Some(LeafCells(img[0], NumCells(img[0])))
  {
    var n := NumCells(img[0]);
    assert Start(img) == Some(Position(0, 0, n == 0));
    if n > 0 {
      ScanLeaf(img, 0, 0, fuel);
      assert LeafCells(img[0], n)[0..] == LeafCells(img[0], n);
    } else {
      assert LeafCells(img[0], n) == [];
    }
  }

  /** Inserting into a single-leaf table that has room: a select then reads
      the earlier rows and then the new one, whatever its key. */
  lemma {:induction false} InsertThenSelect(img: seq<Page>, numPages: nat, key: U32, row: seq<Byte>, fuel: nat)
    requires |img| == TABLE_MAX_PAGES && numPages >= 1 && |row| == ROW_SIZE
    requires NodeType(img[0]) != NODE_INTERNAL && NextLeaf(img[0]) == 0
    requires NumCells(img[0]) < LEAF_NODE_MAX_CELLS && fuel > NumCells(img[0])
    ensures Select(img, fuel) == Some(LeafCells(img[0], NumCells(img[0])))
    ensures Select(LeafInsert(img, numPages, 0, key, row).pages, fuel)
            == Some(LeafCells(img[0], NumCells(img[0])) + [LeafCell(key, row)])
  {
    SelectSingleLeaf(img, fuel);
    LeafInsertResult(img, numPages, 0, key, row);
    SelectSingleLeaf(LeafInsert(img, numPages, 0, key, row).pages, fuel);
  }

  /** A split keeps every row: a select afterwards reads the root's 13
      cells in their old order and then the new row. */
  lemma {:induction false} SplitThenSelect(img: seq<Page>, numPages: nat, key: U32, row: seq<Byte>, fuel: nat)
    requires |img| == TABLE_MAX_PAGES && numPages >= 1 && |row| == ROW_SIZE
    requires numPages + 1 < TABLE_MAX_PAGES && fuel >= LEAF_NODE_MAX_CELLS + 1
    ensures Select(SplitRoot(img, numPages, key, row).pages, fuel)
            == Some(LeafCells(img[0], LEAF_NODE_MAX_CELLS) + [LeafCell(key, row)])
  {
    var o := SplitRoot(img, numPages, key, row);
    SplitRootPages(img, numPages, key, row);
    SplitPageShapes(img[0], img[numPages], img[numPages + 1], o.pages[numPages], o.pages[numPages + 1], o.pages[0],
                    numPages, numPages + 1, key, row);
    var cells := LeafCells(img[0], LEAF_NODE_MAX_CELLS);
    SelectTwoLeaves(SplitRoot(img, numPages, key, row).pages, LeafCellAt(img[0], SPLIT_INDEX - 1).key,
                    numPages, numPages + 1, fuel, cells[..SPLIT_INDEX], cells[SPLIT_INDEX..] + [LeafCell(key, row)]);
    assert cells[..SPLIT_INDEX] + (cells[SPLIT_INDEX..] + [LeafCell(key, row)]) == cells + [LeafCell(key, row)];
  }

  /** Under an internal root whose first child is leaf p1, linked to the
      last leaf p2, a select reads p1's cells and then p2's. */
  lemma {:induction false} SelectTwoLeaves(pages: seq<Page>, leftMax: U32, p1: nat, p2: nat, fuel: nat,
                                           a: seq<LeafCell>, b: seq<LeafCell>)
    requires |pages| == TABLE_MAX_PAGES && 0 < p1 < TABLE_MAX_PAGES && 0 < p2 < TABLE_MAX_PAGES
    requires NodeType(pages[0]) == NODE_INTERNAL
    requires InternalCells(pages[0], 2) == [InternalCell(leftMax, p1), InternalCell(MAX_INT_KEY, p2)]
    requires NodeType(pages[p1]) == NODE_LEAF && NextLeaf(pages[p1]) == p2
    requires 0 < |a| == NumCells(pages[p1]) <= LEAF_NODE_MAX_CELLS && LeafCells(pages[p1], |a|) == a
    requires 0 < |b| == NumCells(pages[p2]) <= LEAF_NODE_MAX_CELLS && LeafCells(pages[p2], |b|) == b
    requires NextLeaf(pages[p2]) == 0 && fuel >= |a| + |b|
    ensures Select(pages, fuel) == Some(a + b)
  {
    assert InternalCellAt(pages[0], 0) == InternalCells(pages[0], 2)[0];
    assert Leftmost(pages, p1, WALK_FUEL - 1) == Found(p1);
    assert Start(pages) == Some(Position(p1, 0, false));
    ScanLeaf(pages, p1, 0, fuel);
    ScanLeaf(pages, p2, 0, fuel - |a|);
    assert a[0..] == a && b[0..] == b;
  }

  /** Appending into either leaf of a table split into two leaves keeps
      every row: a select then reads the new row right after the cells of
      the leaf it went into, whatever its key. */
  lemma {:induction false} InsertIntoTwoLeavesThenSelect(pages: seq<Page>, numPages: nat, leftMax: U32, p1: nat, p2: nat,
                                                        fuel: nat, a: seq<LeafCell>, b: seq<LeafCell>,
                                                        key: U32, row: seq<Byte>)
    requires |pages| == TABLE_MAX_PAGES && 0 < p1 < TABLE_MAX_PAGES && 0 < p2 < TABLE_MAX_PAGES
    requires NodeType(pages[0]) == NODE_INTERNAL
    requires InternalCells(pages[0], 2) == [InternalCell(leftMax, p1), InternalCell(MAX_INT_KEY, p2)]
    requires NodeType(pages[p1]) == NODE_LEAF && NextLeaf(pages[p1]) == p2
    requires 0 < |a| == NumCells(pages[p1]) <= LEAF_NODE_MAX_CELLS && LeafCells(pages[p1], |a|) == a
    requires 0 < |b| == NumCells(pages[p2]) <= LEAF_NODE_MAX_CELLS && LeafCells(pages[p2], |b|) == b
    requires NextLeaf(pages[p2]) == 0 && fuel > |a| + |b|
    requires numPages >= 1 && |row| == ROW_SIZE
    ensures |a| < LEAF_NODE_MAX_CELLS ==>
              Select(LeafInsert(pages, numPages, p1, key, row).pages, fuel) == Some(a + [LeafCell(key, row)] + b)
    ensures |b| < LEAF_NODE_MAX_CELLS ==>
              Select(LeafInsert(pages, numPages, p2, key, row).pages, fuel) == Some(a + b + [LeafCell(key, row)])
  {
    var cell := LeafCell(key, row);
    if |a| < LEAF_NODE_MAX_CELLS {
      LeafInsertResult(pages, numPages, p1, key, row);
      var q := LeafInsert(pages, numPages, p1, key, row).pages;
      SelectTwoLeaves(q, leftMax, p1, p2, fuel, a + [cell], b);
    }
    if |b| < LEAF_NODE_MAX_CELLS {
      LeafInsertResult(pages, numPages, p2, key, row);
      var q := LeafInsert(pages, numPages, p2, key, row).pages;
      SelectTwoLeaves(q, leftMax, p1, p2, fuel, a, b + [cell]);
      assert a + (b + [cell]) == a + b + [cell];
    }
  }

  method ChooseChild(node: Page, key: int) returns (c: Choice)
    ensures c == ChildFor(node, key, 0, NumCells(node))
  {
    var numCells := NumCells(node);
    var i: nat := 0;
    while i < numCells
      invariant i <= numCells && i <= INTERNAL_NODE_MAX_CELLS
      invariant ChildFor(node, key, i, numCells) == ChildFor(node, key, 0, numCells)
      decreases numCells - i
    {
      if i >= INTERNAL_NODE_MAX_CELLS {
        // the cell would be read past the end of the page: struct.error
        return BadCell;
      }
      var cell := InternalCellAt(node, i);
      if key <= cell.maxKey {
        return Child(i, cell.child);
      }
      i := i + 1;
    }
    return NoMatch;
  }

  /** What one step down from an internal node gives: the chosen child's
      page number, buffer and node type, or the end of find_leaf_page with its result
      (None when it raises). */
  datatype Step = Into(page: nat, node: array<Byte>, nodeType: Byte) | Stop(result: Option<nat>)

  /** The body of find_leaf_page's loop: choose the child for the key and
      fetch it; stop with page 0 when no cell matches. */
  method Descend(table: Table, node: array<Byte>, key: int, ghost img: seq<Page>, ghost page: nat, ghost fuel: nat,
                 ghost target: Walk)
    returns (s: Step)
    requires table.Valid() && table.pager.Image == img && page < TABLE_MAX_PAGES && node == table.pager.pages[page]
    requires NodeType(img[page]) == NODE_INTERNAL && Route(img, key, page, fuel) == target && target != Diverges
    modifies table.pager`pages, table.pager`Repr
    ensures table.Valid() && table.pager.Image == img
    ensures table.pager.numPages == old(table.pager.numPages)
    ensures s.Stop? ==> target == if s.result.Some? then Found(s.result.value) else Raised
    ensures s.Into? ==> && fuel > 0 && s.page < TABLE_MAX_PAGES && s.node == table.pager.pages[s.page]
                        && s.nodeType == NodeType(img[s.page]) && Route(img, key, s.page, fuel - 1) == target
  {
    assert Route(img, key, page, fuel) == RouteInternal(img, key, page, fuel);
    var c := ChooseChild(node[..], key);
    match c
    case BadCell =>
      return Stop(None);
    case NoMatch =>
      // no cell's max key reaches the key: report and return page 0
      return Stop(Some(0));
    case Child(_, child) =>
      var g, childType := Fetch(table, img, child);
      if g.None? {
        return Stop(None);
      }
      return Into(child, g.value, childType);
  }

  /** find_leaf_page, proved against Route: None when get_page raises. */
  method FindLeafPage(table: Table, key: int) returns (r: Option<nat>)
    requires table.Valid()
    requires Route(table.Img(), key, 0, WALK_FUEL) != Diverges
    modifies table.pager`pages, table.pager`Repr
    ensures table.Valid() && table.pager.Image == old(table.pager.Image)
    ensures table.pager.numPages == old(table.pager.numPages)
    ensures Route(old(table.Img()), key, 0, WALK_FUEL) == if r.Some? then Found(r.value) else Raised
  {
    ghost var img := table.Img();
    ghost var target := Route(img, key, 0, WALK_FUEL);
    var pageNum: nat := 0;
    var g, nodeType := Fetch(table, img, pageNum);
    var node := g.value;
    ghost var fuel: nat := WALK_FUEL;
    while nodeType == NODE_INTERNAL
      invariant table.Valid() && table.pager.Image == img
      invariant table.pager.numPages == old(table.pager.numPages)
      invariant pageNum < TABLE_MAX_PAGES && node == table.pager.pages[pageNum] && nodeType == NodeType(img[pageNum])
      invariant Route(img, key, pageNum, fuel) == target
      decreases fuel
    {
      var s := Descend(table, node, key, img, pageNum, fuel, target);
      if s.Stop? {
        return s.result;
      }
      pageNum, node, nodeType := s.page, s.node, s.nodeType;
      fuel := fuel - 1;
    }
    return Some(pageNum);
  }

  /** get_page for one of the split's new page numbers, then
      initialize_leaf_node on it: raises past the cache; otherwise the
      page's image becomes an initialized leaf and no other buffer changes. */
  method NewLeaf(table: Table, n: nat) returns (r: Option<array<Byte>>)
    requires table.Valid()
    modifies table.pager`pages, table.pager`Image, table.pager`Repr
    modifies if n < TABLE_MAX_PAGES && table.pager.pages[n] != null then {table.pager.pages[n]} else {}
    ensures table.Valid() && table.pager.numPages == old(table.pager.numPages)
    ensures table.pager.Repr == if r.Some? then old(table.pager.Repr) + {r.value} else old(table.pager.Repr)
    ensures r.None? <==> n >= TABLE_MAX_PAGES
    ensures r.None? ==> table.pager.pages == old(table.pager.pages) && table.pager.Image == old(table.pager.Image)
    ensures r.Some? ==>
              && table.pager.pages == old(table.pager.pages)[n := r.value]
              && table.Img() == old(table.Img())[n := InitLeaf(old(table.Img())[n])]
              && r.value.Length == PAGE_SIZE && r.value[..] == table.Img()[n]
              && (old(table.pager.pages[n]) == null ==> fresh(r.value))
              && (old(table.pager.pages[n]) != null ==> r.value == old(table.pager.pages[n]))
  {
    var pager := table.pager;
    r := pager.GetPage(n);
    if r.None? {
      return;
    }
    var node := r.value;
    label Fetched:
    InitializeLeafNode(node);
    pager.Image := pager.Image[n := node[..]];
    pager.Written@Fetched(n);
  }

  /** split_root_node, proved against SplitRoot: page 0 is fetched, the
      next two page numbers are handed out, and the rest is done on them. */
  method SplitRootNode(cursor: Cursor, key: U32, row: seq<Byte>) returns (raised: bool)
    requires cursor.table.Valid() && |row| == ROW_SIZE
    modifies cursor.table.pager, cursor.table.pager.Repr
    ensures cursor.table.Valid()
    ensures Outcome(cursor.table.Img(), cursor.table.pager.numPages, raised)
            == SplitRoot(old(cursor.table.Img()), old(cursor.table.pager.numPages), key, row)
  {
    var table := cursor.table;
    var pager := table.pager;
    var r0 := pager.GetPage(0);
    var root := r0.value;
    var leftPage := pager.GetUnusedPageNum();
    pager.numPages := pager.numPages + 1;
    var rightPage := pager.GetUnusedPageNum();
    pager.numPages := pager.numPages + 1;
    raised := SplitIntoNewLeaves(table, root, leftPage, key, row);
  }

  /** split_root_node once the page numbers are handed out: the left page is
      fetched and initialized, then the rest is done. */
  method SplitIntoNewLeaves(table: Table, root: array<Byte>, leftPage: nat, key: U32, row: seq<Byte>) returns (raised: bool)
    requires table.Valid() && |row| == ROW_SIZE && table.pager.pages[0] == root
    requires leftPage >= 1 && table.pager.numPages == leftPage + 2
    modifies table.pager, table.pager.Repr
    ensures table.Valid() && table.pager.numPages == old(table.pager.numPages)
    ensures Outcome(table.Img(), table.pager.numPages, raised) == SplitRoot(old(table.Img()), leftPage, key, row)
  {
    ghost var img := table.Img();
    var r1 := NewLeaf(table, leftPage);
    if r1.None? {
      return true;
    }
    raised := SplitIntoRightLeaf(table, root, r1.value, leftPage, key, row, img);
  }

  /** split_root_node once the left page is initialized: the right page is
      fetched and initialized, then both halves and the root are written. */
  method SplitIntoRightLeaf(table: Table, root: array<Byte>, left: array<Byte>, leftPage: nat,
                            key: U32, row: seq<Byte>, ghost img: seq<Page>) returns (raised: bool)
    requires table.Valid() && |row| == ROW_SIZE && |img| == TABLE_MAX_PAGES
    requires 1 <= leftPage < TABLE_MAX_PAGES && table.pager.numPages == leftPage + 2
    requires table.pager.pages[0] == root && table.pager.pages[leftPage] == left
    requires table.Img() == img[leftPage := InitLeaf(img[leftPage])]
    modifies table.pager, table.pager.Repr
    ensures table.Valid() && table.pager.numPages == old(table.pager.numPages)
    ensures Outcome(table.Img(), table.pager.numPages, raised) == SplitRoot(img, leftPage, key, row)
  {
    var rightPage := leftPage + 1;
    var r2 := NewLeaf(table, rightPage);
    if r2.None? {
      return true;
    }
    SplitBothLeaves(table, root, left, r2.value, leftPage, key, row, img);
    return false;
  }

  /** split_root_node once both new leaves are initialized: the writes
      leave the pages SplitRoot describes. */
  method SplitBothLeaves(table: Table, root: array<Byte>, left: array<Byte>, right: array<Byte>, leftPage: nat,
                         key: U32, row: seq<Byte>, ghost img: seq<Page>)
    requires table.Valid() && |row| == ROW_SIZE && |img| == TABLE_MAX_PAGES
    requires 1 <= leftPage && leftPage + 1 < TABLE_MAX_PAGES
    requires table.pager.pages[0] == root && table.pager.pages[leftPage] == left && table.pager.pages[leftPage + 1] == right
    requires table.Img() == img[leftPage := InitLeaf(img[leftPage])][leftPage + 1 := InitLeaf(img[leftPage + 1])]
    modifies table.pager`Image, left, right, root
    ensures table.Valid() && table.pager.pages == old(table.pager.pages)
    ensures table.Img() == SplitRoot(img, leftPage, key, row).pages
  {
    var rightPage := leftPage + 1;
    ghost var root0, leftImg, rightImg := img[0], img[leftPage], img[rightPage];
    SplitFill(table, root, left, right, leftPage, rightPage, key, row, leftImg, rightImg);
    ghost var l := SplitLeftPage(leftImg, root0, rightPage);
    ghost var r := SplitRightPage(rightImg, root0, key, row);
    ghost var n := SplitRootPage(root0, MaxKey(l), leftPage, rightPage);
    Overwrite(img, leftPage, rightPage, 0, InitLeaf(leftImg), InitLeaf(rightImg), l, r, n);
  }

  /** Pages i and j written twice, then page k: only the last writes count. */
  lemma Overwrite(s: seq<Page>, i: nat, j: nat, k: nat, a: Page, b: Page, c: Page, d: Page, e: Page)
    requires i < |s| && j < |s| && k < |s| && i != j
    ensures s[i := a][j := b][i := c][j := d][k := e] == s[i := c][j := d][k := e]
  {
  }

  /** split_root_node's writes once both new leaves are initialized. */
  method SplitFill(table: Table, root: array<Byte>, left: array<Byte>, right: array<Byte>, leftPage: nat, rightPage: nat,
                   key: U32, row: seq<Byte>, ghost leftImg: Page, ghost rightImg: Page)
    requires table.Valid() && 0 < leftPage < TABLE_MAX_PAGES && 0 < rightPage < TABLE_MAX_PAGES && leftPage != rightPage
    requires |row| == ROW_SIZE
    requires table.pager.pages[0] == root && table.pager.pages[leftPage] == left && table.pager.pages[rightPage] == right
    requires left[..] == InitLeaf(leftImg) && right[..] == InitLeaf(rightImg)
    modifies table.pager`Image, left, right, root
    ensures table.Valid() && table.pager.pages == old(table.pager.pages)
    ensures var root0 := old(table.Img())[0];
      var l := SplitLeftPage(leftImg, root0, rightPage);
      table.Img() == old(table.Img())[leftPage := l]
                                     [rightPage := SplitRightPage(rightImg, root0, key, row)]
                                     [0 := SplitRootPage(root0, MaxKey(l), leftPage, rightPage)]
  {
    SplitLeftHalf(table, root, left, leftPage, rightPage, leftImg);
    SplitRightAndRoot(table, root, left, right, leftPage, rightPage, key, row, rightImg);
  }

  /** split_root_node's right half and new root, once the left half is written. */
  method SplitRightAndRoot(table: Table, root: array<Byte>, left: array<Byte>, right: array<Byte>, leftPage: nat, rightPage: nat,
                           key: U32, row: seq<Byte>, ghost rightImg: Page)
    requires table.Valid() && 0 < leftPage < TABLE_MAX_PAGES && 0 < rightPage < TABLE_MAX_PAGES && leftPage != rightPage
    requires |row| == ROW_SIZE
    requires table.pager.pages[0] == root && table.pager.pages[rightPage] == right && table.pager.pages[leftPage] == left
    requires right[..] == InitLeaf(rightImg) && NumCells(left[..]) == SPLIT_INDEX
    modifies table.pager`Image, right, root
    ensures table.Valid() && table.pager.pages == old(table.pager.pages)
    ensures table.Img() == old(table.Img())[rightPage := SplitRightPage(rightImg, old(table.Img())[0], key, row)]
                                           [0 := SplitRootPage(old(table.Img())[0], MaxKey(old(left[..])), leftPage, rightPage)]
  {
    SplitRightHalf(table, root, right, rightPage, key, row, rightImg);
    var leftMaxKey := MaxKey(left[..]);
    SplitNewRoot(table, root, leftMaxKey, leftPage, rightPage);
  }

  /** split_root_node's left half on the cached buffers: the initialized
      left leaf is linked to the right page and takes the root's first
      cells; no other page changes. */
  method SplitLeftHalf(table: Table, root: array<Byte>, left: array<Byte>, leftPage: nat, rightPage: U32, ghost leftImg: Page)
    requires table.Valid() && 0 < leftPage < TABLE_MAX_PAGES
    requires table.pager.pages[0] == root && table.pager.pages[leftPage] == left
    requires left[..] == InitLeaf(leftImg)
    modifies table.pager`Image, left
    ensures table.Valid() && table.pager.pages == old(table.pager.pages)
    ensures table.Img() == old(table.Img())[leftPage := SplitLeftPage(leftImg, old(table.Img())[0], rightPage)]
    ensures left[..] == table.Img()[leftPage]
  {
    var pager := table.pager;
    assert root != left && root[..] == table.Img()[0];
    label Fetched:
    FillLeftLeaf(left, root, rightPage, leftImg);
    pager.Image := pager.Image[leftPage := left[..]];
    pager.Written@Fetched(leftPage);
  }

  /** split_root_node's right half on the cached buffers: the initialized
      right leaf takes the root's remaining cells and then the new row; no
      other page changes. */
  method SplitRightHalf(table: Table, root: array<Byte>, right: array<Byte>, rightPage: nat,
                        key: U32, row: seq<Byte>, ghost rightImg: Page)
    requires table.Valid() && 0 < rightPage < TABLE_MAX_PAGES && |row| == ROW_SIZE
    requires table.pager.pages[0] == root && table.pager.pages[rightPage] == right
    requires right[..] == InitLeaf(rightImg)
    modifies table.pager`Image, right
    ensures table.Valid() && table.pager.pages == old(table.pager.pages)
    ensures table.Img() == old(table.Img())[rightPage := SplitRightPage(rightImg, old(table.Img())[0], key, row)]
  {
    var pager := table.pager;
    assert root != right && root[..] == table.Img()[0];
    label Fetched:
    FillRightLeaf(right, root, key, row, rightImg);
    pager.Image := pager.Image[rightPage := right[..]];
    pager.Written@Fetched(rightPage);
  }

  /** split_root_node's last step on the cached buffers: page 0 becomes the
      internal root over the two leaves; no other page changes. */
  method SplitNewRoot(table: Table, root: array<Byte>, leftMaxKey: U32, leftPage: U32, rightPage: U32)
    requires table.Valid() && table.pager.pages[0] == root
    modifies table.pager`Image, root
    ensures table.Valid() && table.pager.pages == old(table.pager.pages)
    ensures table.Img() == old(table.Img())[0 := SplitRootPage(old(table.Img())[0], leftMaxKey, leftPage, rightPage)]
  {
    var pager := table.pager;
    label Fetched:
    RewriteRoot(root, leftMaxKey, leftPage, rightPage);
    pager.Image := pager.Image[0 := root[..]];
    pager.Written@Fetched(0);
  }

  /** leaf_node_insert at the cursor's page, proved against LeafInsert. */
  method LeafNodeInsert(cursor: Cursor, key: U32, row: seq<Byte>) returns (raised: bool)
    requires cursor.table.Valid() && |row| == ROW_SIZE
    modifies cursor.table.pager, cursor.table.pager.Repr
    ensures cursor.table.Valid()
    ensures Outcome(cursor.table.Img(), cursor.table.pager.numPages, raised)
            == LeafInsert(old(cursor.table.Img()), old(cursor.table.pager.numPages), cursor.pageNum, key, row)
  {
    ghost var img, numPages := cursor.table.Img(), cursor.table.pager.numPages;
    var r := cursor.table.pager.GetPage(cursor.pageNum);
    if r.None? {
      return true;
    }
    var node := r.value;
    var numCells := NumCells(node[..]);
    if numCells >= LEAF_NODE_MAX_CELLS {
      if RootFlag(node[..]) != 0 {
        assert LeafInsert(img, numPages, cursor.pageNum, key, row) == SplitRoot(img, numPages, key, row);
        raised := SplitRootNode(cursor, key, row);
      } else {
        // a full leaf that is not the root cannot be split: the row is dropped
        raised := false;
      }
      return;
    }
    AppendToLeaf(cursor.table, node, cursor.pageNum, key, row);
    return false;
  }

  /** leaf_node_insert's append on the cached buffer of a non-full leaf: the
      page's image becomes the leaf with the cell appended; no other page
      changes. */
  method AppendToLeaf(table: Table, node: array<Byte>, pageNum: nat, key: U32, row: seq<Byte>)
    requires table.Valid() && pageNum < TABLE_MAX_PAGES && |row| == ROW_SIZE
    requires table.pager.pages[pageNum] == node && NumCells(node[..]) < LEAF_NODE_MAX_CELLS
    modifies table.pager`Image, node
    ensures table.Valid() && table.pager.pages == old(table.pager.pages)
    ensures table.Img() == old(table.Img())[pageNum := InsertIntoLeaf(old(table.Img())[pageNum], key, row)]
  {
    var pager := table.pager;
    label Fetched:
    AppendLeafCell(node, key, row);
    pager.Image := pager.Image[pageNum := node[..]];
    pager.Written@Fetched(pageNum);
  }
}
