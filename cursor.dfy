/** The cursor that walks the leaves in order: start_reading descends to
    the leftmost leaf, advance steps through a leaf's cells and then along
    the next-leaf chain. The walks are specified as functions over the page
    images, which the walks themselves never change. */
module Cursors {
  import opened Bytes
  import opened Layout
  import opened Paging

  /** Where a descent from the root ends: at a page, with the exception
      get_page raises for a page number past the cache, or never (the
      pages form a cycle of internal nodes). */
  datatype Walk = Found(page: nat) | Raised | Diverges

  /** A descent that visits more internal nodes than there are pages has
      visited one of them twice, and from there it repeats forever: walks
      are given this much fuel, and running out of it means Diverges. */
  const WALK_FUEL: nat := TABLE_MAX_PAGES

  /** start_reading's descent from `page`: while the node is internal,
      follow the child of its cell 0. */
  function Leftmost(img: seq<Page>, page: nat, fuel: nat): (w: Walk)
    requires |img| == TABLE_MAX_PAGES && page < TABLE_MAX_PAGES
    ensures w.Found? ==> w.page < TABLE_MAX_PAGES && NodeType(img[w.page]) != NODE_INTERNAL
    decreases fuel, 1
  {
    if NodeType(img[page]) != NODE_INTERNAL then Found(page)
    else if fuel == 0 then Diverges
    else LeftmostInternal(img, page, fuel)
  }

  /** One step of the descent at internal page `page`: follow the child
      of cell 0. */
  function LeftmostInternal(img: seq<Page>, page: nat, fuel: nat): (w: Walk)
    requires |img| == TABLE_MAX_PAGES && page < TABLE_MAX_PAGES && fuel > 0
    ensures w.Found? ==> w.page < TABLE_MAX_PAGES && NodeType(img[w.page]) != NODE_INTERNAL
    decreases fuel, 0
  {
    var child := InternalCellAt(img[page], 0).child;
    if child >= TABLE_MAX_PAGES then Raised else Leftmost(img, child, fuel - 1)
  }

  // ---- Running out of fuel means running forever ----

  /** The page a walk that moves by `step` reaches after k moves. */
  function Iterate(step: nat -> nat, p: nat, k: nat): (q: nat)
  {
    if k == 0 then p else step(Iterate(step, p, k - 1))
  }

  /** k moves on from the page reached after i moves is i + k moves on. */
  lemma {:induction false} IterateAdd(step: nat -> nat, p: nat, i: nat, k: nat)
    ensures Iterate(step, Iterate(step, p, i), k) == Iterate(step, p, i + k)
  {
    if k > 0 {
      IterateAdd(step, p, i, k - 1);
    }
  }

  /** n + 1 values below n: two of them are equal. */
  lemma {:induction false} Pigeonhole(f: nat -> nat, n: nat) returns (i: nat, j: nat)
    requires forall k: nat :: k <= n ==> f(k) < n
    ensures i < j <= n && f(i) == f(j)
    decreases n
  {
    if n == 1 {
      return 0, 1;
    }
    if exists k: nat :: k < n && f(k) == f(n) {
      i :| i < n && f(i) == f(n);
      j := n;
    } else if f(n) == n - 1 {
      i, j := Pigeonhole(f, n - 1);
    } else {
      // the value n - 1 is taken only among f(0) .. f(n - 1); renaming it
      // to the unused f(n) leaves n values below n - 1
      var v := f(n);
      var g: nat -> nat := (k: nat) => if f(k) == n - 1 then v else f(k);
      i, j := Pigeonhole(g, n - 1);
    }
  }

  /** A walk that is back after j moves where it was after i moves only
      ever visits the pages of its first j moves. */
  lemma {:induction false} Recurs(step: nat -> nat, p: nat, i: nat, j: nat, k: nat) returns (m: nat)
    requires i < j && Iterate(step, p, i) == Iterate(step, p, j)
    ensures m < j && Iterate(step, p, k) == Iterate(step, p, m)
    decreases k
  {
    if k < j {
      m := k;
    } else {
      IterateAdd(step, p, j, k - j);
      IterateAdd(step, p, i, k - j);
      m := Recurs(step, p, i, j, i + (k - j));
    }
  }

  /** A walk whose first n pages are good and whose first n + 1 pages lie
      below n only ever visits good pages. */
  lemma {:induction false} AlwaysGood(step: nat -> nat, good: nat -> bool, p: nat, n: nat, k: nat)
    requires forall m: nat :: m < n ==> good(Iterate(step, p, m))
    requires forall m: nat :: m <= n ==> Iterate(step, p, m) < n
    ensures good(Iterate(step, p, k))
  {
    var i, j := Pigeonhole((m: nat) => Iterate(step, p, m), n);
    var m := Recurs(step, p, i, j, k);
  }

  /** start_reading's loop goes on from page q: q is an internal node whose
      cell 0 names a page within the cache. */
  predicate Passes(img: seq<Page>, q: nat)
  {
    q < |img| && NodeType(img[q]) == NODE_INTERNAL && InternalCellAt(img[q], 0).child < TABLE_MAX_PAGES
  }

  /** start_reading's move: to the child of cell 0 where the loop goes on. */
  function FirstChildSteps(img: seq<Page>): (step: nat -> nat)
  {
    (q: nat) => if Passes(img, q) then InternalCellAt(img[q], 0).child else q
  }

  /** A descent that runs out of fuel f goes on from each of its first f
      pages. */
  lemma {:induction false} LeftmostDivergesPasses(img: seq<Page>, p: nat, f: nat, k: nat)
    requires |img| == TABLE_MAX_PAGES && p < TABLE_MAX_PAGES && Leftmost(img, p, f) == Diverges && k < f
    ensures Passes(img, Iterate(FirstChildSteps(img), p, k))
    decreases k
  {
    assert Leftmost(img, p, f) == LeftmostInternal(img, p, f);
    if k > 0 {
      var child := InternalCellAt(img[p], 0).child;
      LeftmostDivergesPasses(img, child, f - 1, k - 1);
      IterateAdd(FirstChildSteps(img), p, 1, k - 1);
    }
  }

  /** A descent that goes on from every page it reaches runs out of any
      fuel. */
  lemma {:induction false} LeftmostForever(img: seq<Page>, p: nat, fuel: nat)
    requires |img| == TABLE_MAX_PAGES && p < TABLE_MAX_PAGES
    requires forall k: nat :: Passes(img, Iterate(FirstChildSteps(img), p, k))
    ensures Leftmost(img, p, fuel) == Diverges
    decreases fuel
  {
    assert Passes(img, Iterate(FirstChildSteps(img), p, 0));
    if fuel > 0 {
      assert Leftmost(img, p, fuel) == LeftmostInternal(img, p, fuel);
      var child := InternalCellAt(img[p], 0).child;
      forall k: nat ensures Passes(img, Iterate(FirstChildSteps(img), child, k)) {
        IterateAdd(FirstChildSteps(img), p, 1, k);
        assert Passes(img, Iterate(FirstChildSteps(img), p, 1 + k));
      }
      LeftmostForever(img, child, fuel - 1);
    }
  }

  /** Running out of WALK_FUEL means running forever: a descent that
      diverges with WALK_FUEL diverges with every fuel, so start_reading's
      loop never ends on such pages. */
  lemma LeftmostDivergesForever(img: seq<Page>, page: nat, fuel: nat)
    requires |img| == TABLE_MAX_PAGES && page < TABLE_MAX_PAGES && Leftmost(img, page, WALK_FUEL) == Diverges
    ensures Leftmost(img, page, fuel) == Diverges
  {
    var step := FirstChildSteps(img);
    var good := (q: nat) => Passes(img, q);
    forall m: nat | m < WALK_FUEL
      ensures good(Iterate(step, page, m))
    {
      LeftmostDivergesPasses(img, page, WALK_FUEL, m);
    }
    forall m: nat | m <= WALK_FUEL
      ensures Iterate(step, page, m) < WALK_FUEL
    {
      if m > 0 {
        LeftmostDivergesPasses(img, page, WALK_FUEL, m - 1);
      }
    }
    forall k: nat
      ensures Passes(img, Iterate(step, page, k))
    {
      AlwaysGood(step, good, page, WALK_FUEL, k);
    }
    LeftmostForever(img, page, fuel);
  }

  /** The cursor's state: page_num, cell_num, end_of_table. */
  datatype Position = Position(pageNum: nat, cellNum: nat, endOfTable: bool)

  /** Where start_reading leaves the cursor: cell 0 of the leftmost leaf,
      at the end of the table when that leaf has no cells. */
  function Start(img: seq<Page>): (r: Option<Position>)
    requires |img| == TABLE_MAX_PAGES
  {
    match Leftmost(img, 0, WALK_FUEL)
    case Found(p) => Some(Position(p, 0, NumCells(img[p]) == 0))
    case _ => None
  }

  /** advance: None when get_page raises for the cursor's page; otherwise
      the next cell of the leaf, or, past the leaf's last cell, the end of
      the table when there is no next leaf and cell 0 of the next leaf when
      there is one. */
  function Advanced(img: seq<Page>, pos: Position): (r: Option<Position>)
    requires |img| == TABLE_MAX_PAGES
    ensures r.None? <==> pos.pageNum >= TABLE_MAX_PAGES
    ensures r.Some? && pos.cellNum + 1 < NumCells(img[pos.pageNum]) ==>
              r.value == Position(pos.pageNum, pos.cellNum + 1, pos.endOfTable)
    ensures r.Some? && pos.cellNum + 1 >= NumCells(img[pos.pageNum]) ==>
              if NextLeaf(img[pos.pageNum]) == 0 then
                r.value == Position(pos.pageNum, pos.cellNum + 1, true)
              else r.value == Position(NextLeaf(img[pos.pageNum]), 0, pos.endOfTable)
  {
    if pos.pageNum >= TABLE_MAX_PAGES then None
    else
      var node := img[pos.pageNum];
      var cell := pos.cellNum + 1;
      if cell < NumCells(node) then Some(pos.(cellNum := cell))
      else if NextLeaf(node) == 0 then Some(pos.(cellNum := cell, endOfTable := true))
      else Some(Position(NextLeaf(node), 0, pos.endOfTable))
  }

  /** The cells a select reads from `pos`: the cell under the cursor, then
      those read after advancing, until end_of_table. None when a page or
      a cell cannot be read, or when the walk is longer than the fuel. */
  function Scan(img: seq<Page>, pos: Position, fuel: nat): Option<seq<LeafCell>>
    requires |img| == TABLE_MAX_PAGES
    decreases fuel
  {
    if pos.endOfTable then Some([])
    else if fuel == 0 || pos.pageNum >= TABLE_MAX_PAGES || pos.cellNum >= LEAF_NODE_MAX_CELLS then None
    else
      var cell := LeafCellAt(img[pos.pageNum], pos.cellNum);
      match Advanced(img, pos)
      case None => None
      case Some(next) => Prefixed([cell], Scan(img, next, fuel - 1))
  }

  /** The cells read before a scan that may fail, put in front of what it reads. */
  function Prefixed(cells: seq<LeafCell>, r: Option<seq<LeafCell>>): Option<seq<LeafCell>>
  {
    match r
    case None => None
    case Some(rest) => Some(cells + rest)
  }

  /** One scan step from a readable cell of page p. */
  lemma ScanCell(img: seq<Page>, p: nat, c: nat, fuel: nat)
    requires |img| == TABLE_MAX_PAGES && p < TABLE_MAX_PAGES && c < LEAF_NODE_MAX_CELLS && fuel > 0
    ensures Scan(img, Position(p, c, false), fuel)
            == Prefixed([LeafCellAt(img[p], c)], Scan(img, Advanced(img, Position(p, c, false)).value, fuel - 1))
  {
  }

  /** Every cell a full select (start_reading, then read and advance until
      end_of_table) reads, in order. */
  function Select(img: seq<Page>, fuel: nat): Option<seq<LeafCell>>
    requires |img| == TABLE_MAX_PAGES
  {
    match Start(img)
    case Some(pos) => Scan(img, pos, fuel)
    case None => None
  }

  /** Scanning a leaf from cell c reads its cells c .. n - 1 and then goes
      on at the next leaf, or stops when there is none. */
  lemma {:induction false} ScanLeaf(img: seq<Page>, p: nat, c: nat, fuel: nat)
    requires |img| == TABLE_MAX_PAGES && p < TABLE_MAX_PAGES
    requires c < NumCells(img[p]) <= LEAF_NODE_MAX_CELLS && fuel >= NumCells(img[p]) - c
    ensures var n, next := NumCells(img[p]), NextLeaf(img[p]);
      var cells := LeafCells(img[p], n)[c..];
      Scan(img, Position(p, c, false), fuel) ==
        if next == 0 then Some(cells) else Prefixed(cells, Scan(img, Position(next, 0, false), fuel - (n - c)))
    decreases NumCells(img[p]) - c
  {
    if c + 1 < NumCells(img[p]) {
      ScanLeaf(img, p, c + 1, fuel - 1);
      ScanLeafNext(img, p, c, fuel);
    } else {
      ScanLeafLast(img, p, c, fuel);
    }
  }

  /** The step of ScanLeaf: a cell that is not the leaf's last, in front of
      what the scan from the next cell reads. */
  lemma ScanLeafNext(img: seq<Page>, p: nat, c: nat, fuel: nat)
    requires |img| == TABLE_MAX_PAGES && p < TABLE_MAX_PAGES
    requires c + 1 < NumCells(img[p]) <= LEAF_NODE_MAX_CELLS && fuel >= NumCells(img[p]) - c
    requires var n, next := NumCells(img[p]), NextLeaf(img[p]);
      var cells := LeafCells(img[p], n)[c + 1..];
      Scan(img, Position(p, c + 1, false), fuel - 1) ==
        if next == 0 then Some(cells) else Prefixed(cells, Scan(img, Position(next, 0, false), fuel - 1 - (n - (c + 1))))
    ensures var n, next := NumCells(img[p]), NextLeaf(img[p]);
      var cells := LeafCells(img[p], n)[c..];
      Scan(img, Position(p, c, false), fuel) ==
        if next == 0 then Some(cells) else Prefixed(cells, Scan(img, Position(next, 0, false), fuel - (n - c)))
  {
    var n, next := NumCells(img[p]), NextLeaf(img[p]);
    var cell := LeafCellAt(img[p], c);
    var cells, rest := LeafCells(img[p], n)[c..], LeafCells(img[p], n)[c + 1..];
    assert cells == [cell] + rest;
    ScanCell(img, p, c, fuel);
    assert Advanced(img, Position(p, c, false)).value == Position(p, c + 1, false);
    if next != 0 {
      PrefixedTwice([cell], rest, Scan(img, Position(next, 0, false), fuel - (n - c)));
    }
  }

  /** The base of ScanLeaf: the leaf's last cell, then the end of the
      table or the next leaf. */
  lemma ScanLeafLast(img: seq<Page>, p: nat, c: nat, fuel: nat)
    requires |img| == TABLE_MAX_PAGES && p < TABLE_MAX_PAGES
    requires c + 1 == NumCells(img[p]) <= LEAF_NODE_MAX_CELLS && fuel >= 1
    ensures var n, next := NumCells(img[p]), NextLeaf(img[p]);
      var cells := LeafCells(img[p], n)[c..];
      Scan(img, Position(p, c, false), fuel) ==
        if next == 0 then Some(cells) else Prefixed(cells, Scan(img, Position(next, 0, false), fuel - (n - c)))
  {
    var n, next := NumCells(img[p]), NextLeaf(img[p]);
    var cell := LeafCellAt(img[p], c);
    assert LeafCells(img[p], n)[c..] == [cell];
    ScanCell(img, p, c, fuel);
    if next == 0 {
      assert Advanced(img, Position(p, c, false)).value == Position(p, c + 1, true);
      assert Scan(img, Position(p, c + 1, true), fuel - 1) == Some([]);
      assert [cell] + [] == [cell];
    } else {
      assert Advanced(img, Position(p, c, false)).value == Position(next, 0, false);
    }
  }

  lemma PrefixedTwice(a: seq<LeafCell>, b: seq<LeafCell>, r: Option<seq<LeafCell>>)
    ensures Prefixed(a, Prefixed(b, r)) == Prefixed(a + b, r)
  {
    if r.Some? {
      assert a + (b + r.value) == (a + b) + r.value;
    }
  }

  /** get_page as the descents use it: the cached buffer of page n and
      the node type it holds, or None past the cache. */
  method Fetch(table: Table, ghost img: seq<Page>, n: nat) returns (node: Option<array<Byte>>, nodeType: Byte)
    requires table.Valid() && img == table.Img()
    modifies table.pager`pages, table.pager`Repr
    ensures table.Valid() && table.pager.Image == old(table.pager.Image)
    ensures table.pager.numPages == old(table.pager.numPages)
    ensures node.None? <==> n >= TABLE_MAX_PAGES
    ensures node.Some? ==> node.value == table.pager.pages[n] && nodeType == NodeType(img[n])
  {
    node := table.pager.GetPage(n);
    nodeType := if node.Some? then node.value[0] else 0;
  }

  /** One step of start_reading's descent from the internal node on page
      `page`: fetch the child of its cell 0. None when get_page raises. */
  method FirstChild(table: Table, node: array<Byte>, ghost img: seq<Page>, ghost page: nat, ghost fuel: nat,
                    ghost target: Walk)
    returns (child: nat, next: Option<array<Byte>>, childType: Byte)
    requires table.Valid() && table.pager.Image == img && page < TABLE_MAX_PAGES && node == table.pager.pages[page]
    requires NodeType(img[page]) == NODE_INTERNAL && Leftmost(img, page, fuel) == target && target != Diverges
    modifies table.pager`pages, table.pager`Repr
    ensures table.Valid() && table.pager.Image == img
    ensures table.pager.numPages == old(table.pager.numPages)
    ensures next.None? ==> target == Raised
    ensures next.Some? ==> && fuel > 0 && child < TABLE_MAX_PAGES && next.value == table.pager.pages[child]
                           && childType == NodeType(img[child]) && Leftmost(img, child, fuel - 1) == target
  {
    assert Leftmost(img, page, fuel) == LeftmostInternal(img, page, fuel);
    child := U32At(node[..], COMMON_NODE_HEADER_SIZE + INTERNAL_NODE_KEY_SIZE);
    assert child == InternalCellAt(node[..], 0).child;
    next, childType := Fetch(table, img, child);
  }

  /** start_reading's descent from the root: while the node is internal,
      fetch the child of its cell 0. Gives the leaf's page and buffer, or
      None when get_page raises on the way. */
  method LeftmostLeaf(table: Table) returns (found: Option<nat>, node: array<Byte>)
    requires table.Valid()
    requires Leftmost(table.Img(), 0, WALK_FUEL) != Diverges
    modifies table.pager`pages, table.pager`Repr
    ensures table.Valid() && table.pager.Image == old(table.pager.Image)
    ensures table.pager.numPages == old(table.pager.numPages)
    ensures Leftmost(old(table.Img()), 0, WALK_FUEL) == if found.Some? then Found(found.value) else Raised
    ensures found.Some? ==> found.value < TABLE_MAX_PAGES && node == table.pager.pages[found.value]
  {
    ghost var img := table.Img();
    ghost var target := Leftmost(img, 0, WALK_FUEL);
    var page: nat := 0;
    var r, nodeType := Fetch(table, img, page);
    node := r.value;
    ghost var fuel: nat := WALK_FUEL;
    while nodeType == NODE_INTERNAL
      invariant table.Valid() && table.pager.Image == img
      invariant table.pager.numPages == old(table.pager.numPages)
      invariant page < TABLE_MAX_PAGES && node == table.pager.pages[page] && nodeType == NodeType(img[page])
      invariant Leftmost(img, page, fuel) == target
      decreases fuel
    {
      var child, next, childType := FirstChild(table, node, img, page, fuel, target);
      if next.None? {
        return None, node;
      }
      page, node, nodeType := child, next.value, childType;
      fuel := fuel - 1;
    }
    return Some(page), node;
  }

  class Cursor {
    const table: Table
    var pageNum: nat
    var cellNum: nat
    var endOfTable: bool

    constructor(table: Table)
      ensures this.table == table && pageNum == 0 && cellNum == 0 && !endOfTable
    {
      this.table := table;
      pageNum := 0;
      cellNum := 0;
      endOfTable := false;
    }

    function Pos(): Position
      reads this
    {
      Position(pageNum, cellNum, endOfTable)
    }

    /** start_reading: the cursor is left where Start says; when get_page
        raises on the way down it is left as it was. The pages are only
        read (possibly cached), never changed. */
    method StartReading() returns (raised: bool)
      requires table.Valid()
      requires Leftmost(table.Img(), 0, WALK_FUEL) != Diverges
      modifies this, table.pager`pages, table.pager`Repr
      ensures table.Valid() && table.pager.Image == old(table.pager.Image)
      ensures table.pager.numPages == old(table.pager.numPages)
      ensures raised <==> Start(old(table.Img())).None?
      ensures !raised ==> Pos() == Start(old(table.Img())).value
      ensures raised ==> Pos() == old(Pos())
    {
      var found, node := LeftmostLeaf(table);
      if found.None? {
        return true;
      }
      pageNum := found.value;
      cellNum := 0;
      endOfTable := NumCells(node[..]) == 0;
      return false;
    }

    /** advance, proved against Advanced; the pages are only read. */
    method Advance() returns (raised: bool)
      requires table.Valid()
      modifies this, table.pager`pages, table.pager`Repr
      ensures table.Valid() && table.pager.Image == old(table.pager.Image)
      ensures table.pager.numPages == old(table.pager.numPages)
      ensures raised <==> Advanced(old(table.Img()), old(Pos())).None?
      ensures !raised ==> Pos() == Advanced(old(table.Img()), old(Pos())).value
      ensures raised ==> Pos() == old(Pos())
    {
      var r := table.pager.GetPage(pageNum);
      if r.None? {
        return true;
      }
      var node := r.value;
      var numCells := NumCells(node[..]);
      cellNum := cellNum + 1;
      if cellNum >= numCells {
        var nextPage := NextLeaf(node[..]);
        if nextPage == 0 {
          endOfTable := true;
        } else {
          pageNum := nextPage;
          cellNum := 0;
        }
      }
      return false;
    }
  }
}
