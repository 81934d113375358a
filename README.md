# PyDB paged B-tree, modelled in Dafny

PyDB (`main.py`) is a small single-file database. It stores rows keyed by a 32-bit id in a B-tree. The tree lives in 4096-byte pages held by a page cache (the `Pager`). This project models the storage core of that program:

- the page cache;
- the byte layout of a node;
- the row record;
- `leaf_node_insert` and `split_root_node`;
- `find_leaf_page`;
- the `Cursor` that a `select` walks the leaves with.

The model follows the form of the source:

- **Pure parts as functions.** The header getters, the row codec and the routing decision are functions over byte sequences. Bytes are `Byte`, the integers 0..255. Words are little-endian unsigned 32-bit values.
- **Page writes as methods over arrays.** Every write the program makes into a page buffer (`struct.pack_into`, slice assignment, the copy loops of the split) is a method on an `array<Byte>`. Each method is proved against a pure "with" function that gives the page the write leaves (`Layout.WithNumCells`, `Layout.InsertIntoLeaf`, `Layout.SplitLeftPage`, ...). Lemmas then state what those pages hold when read back through the getters.
- **The pager as a class.** `Paging.Pager` keeps the 100 cache slots as a sequence of nullable buffers. A ghost `Image` records what `get_page(n)` would return for every page. `Valid()` ties the buffers to `Image`, and says that two slots never share a buffer, so a write into one cached page is not seen through another page number.
- **Tree operations as functions plus methods.** Each tree operation is first a function over the page images and the page count: `Tree.LeafInsert`, `Tree.SplitRoot`, `Tree.Route` and `Cursors.Leftmost`. The methods `Tree.LeafNodeInsert`, `Tree.SplitRootNode`, `Tree.FindLeafPage` and `Cursors.Cursor.StartReading` work on the cached buffers and are proved to leave exactly the images those functions give.
- **Exceptions as results.** An exception the source raises (a page number past the cache, a routing cell past the page) becomes a `raised` result or `None`. The writes made before the raise are kept.

`Cursors.Select` is the sequence of cells that `execute_select` reads (main.py:350-362). Three lemmas cover the tree shapes `main.py` can build: an append into a table whose root is a single leaf (`Tree.InsertThenSelect`), the root split (`Tree.SplitThenSelect`), and an append into either leaf of a table the split has left (`Tree.InsertIntoTwoLeavesThenSelect`). In each case no row is lost or reordered, and the new row is read right after the other cells of the leaf it went into.

Some behaviour of `main.py` that the model keeps as written:

- Pages are 4096 bytes (main.py:7).
- `leaf_node_insert` appends the new cell after the existing ones; it does not keep the cells sorted (main.py:292-295).
- `split_root_node` always puts the new row at the end of the right leaf, whatever its key. Its `target_node` variable is assigned but never used (main.py:250-260).
- A full leaf that is not the root is left unchanged and the row is dropped (main.py:288-290).
- `main.py` has no write-ahead log, no secondary index and no split of a non-root node.

## Model

| member | source | states |
|---|---|---|
| Bytes.Zeros | main.py:75 | `bytearray(n)`: n bytes, every one 0 |
| Bytes.U32At | main.py:167-168 | `struct.unpack_from('I', s, off)`: the little-endian word in bytes off..off+3. It is the inverse of packing both ways round: `EncodeU32` and `U32AtEncoded` read a packed value back, at offset 0 and at any offset; `EncodeU32At` packs a word read back into its bytes |
| Bytes.EncodeU32 | main.py:258 | `struct.pack('I', v)` is four bytes from which `U32At` reads v back |
| Bytes.EncodeU32At | main.py:168 | unpacking a word and packing it again gives back the same four bytes (the other half of the round trip) |
| Bytes.U32AtEncoded | main.py:269-275 | bytes that spell a packed word read back as that word, wherever they lie in a page |
| Bytes.Write | main.py:235 | slice assignment `s[off:off+len(d)] = d` keeps the length, puts d at off, and leaves every byte outside the slice as it was |
| Bytes.WriteAdjacent | main.py:232-235 | two slice writes side by side are one write of the concatenation, which is what makes the cell-by-cell copy loop a copy of a whole byte range |
| Bytes.WriteU32 | main.py:171 | `struct.pack_into('I', s, off, v)`: the word at off reads back as v and no byte outside off..off+3 changes |
| Layout.LayoutSizes | main.py:7-45 | the derived layout constants: 291-byte rows, a 14-byte header, 295-byte leaf cells with 13 per page, 8-byte internal cells with 510 per page, split index 13 // 2 = 6, cell count at byte 6 and next leaf at byte 10 |
| Layout.NodeType | main.py:157-158 | `get_node_type`: byte 0 of the page. `WithNodeType` proves it reads back the value `set_node_type` wrote, and `InitLeaf` and `InitInternal` that an initialized node reads as leaf or internal |
| Layout.RootFlag | main.py:285 | the root byte (byte 1) that `leaf_node_insert` tests. `WithRootFlag` proves it reads 1 or 0 as `set_node_root` wrote it, and `InitLeaf` and `InitInternal` that initializing clears it |
| Layout.NumCells | main.py:167-168 | `get_node_num_cells`: the word at byte 6. `WithNumCells` proves it reads back the count written, and `InitLeaf`, `InitInternal` and `InsertIntoLeaf` give the count each of them leaves |
| Layout.NextLeaf | main.py:173-175 | `get_node_next_leaf`: the word at byte 10. `WithNextLeaf` proves it reads back the page written; `InitLeaf` sets it to 0 and `InitInternal` keeps it |
| Layout.LeafCellOffset | main.py:356-359 | leaf cell i lies wholly inside the 4096-byte page exactly when i < 13, so reading cell 13 or later would run past the page |
| Layout.InternalCellOffset | main.py:309-311 | internal cell i lies wholly inside the page exactly when i < 510, so a routing cell at 510 or later would be read past the page |
| Layout.MaxKey | main.py:181-187 | `get_node_max_key`: 0 for a node without cells, otherwise the key of the last leaf cell; for a count of 14, one past the last cell slot, the word read from the four bytes after cell 12 |
| Layout.WithNodeType | main.py:160-161 | `set_node_type`: `get_node_type` returns the value written and no other byte changes |
| Layout.WithRootFlag | main.py:163-165 | `set_node_root`: the root byte reads 1 or 0 as asked and no other byte changes |
| Layout.WithNumCells | main.py:170-171 | `set_node_num_cells`: `get_node_num_cells` returns the count written and only bytes 6..9 change |
| Layout.WithNextLeaf | main.py:177-179 | `set_node_next_leaf`: `get_node_next_leaf` returns the page written and only bytes 10..13 change |
| Layout.InitLeaf | main.py:189-193 | `initialize_leaf_node` leaves type leaf, root flag 0, no cells and next leaf 0, and keeps the parent bytes 2..5 and the cell area |
| Layout.InitInternal | main.py:195-198 | `initialize_internal_node` leaves type internal, root flag 0 and no cells, and leaves the next-leaf bytes 10..13 untouched |
| Layout.WithLeafCell | main.py:292-294 | writing key then row at leaf cell i: cell i reads back as (key, row) and no byte outside that cell changes |
| Layout.WithInternalCell | main.py:268-275 | writing max key then child at internal cell i: the cell reads back as written and no byte outside it changes |
| Layout.LeafCellFromBytes | main.py:233-235 | a leaf cell is determined by its 295 bytes, so a cell copied byte for byte reads the same at its new index |
| Layout.InsertIntoLeaf | main.py:292-295 | the non-full leaf append: the count goes up by exactly one, and type, root flag and next leaf are kept |
| Layout.NumCellsWriteKeepsLeafCell | main.py:295 | setting the cell count changes no leaf cell |
| Layout.LeafCellWriteKeepsOthers | main.py:293-294 | writing one leaf cell leaves every other leaf cell as it was |
| Layout.CellsAfterAppend | main.py:292-295 | writing cell n and then setting the count to n + 1 gives the first n cells followed by the new one |
| Layout.InsertIntoLeafAppends | main.py:292-295 | after the append the leaf's cells are the old cells in their old order followed by (key, row): nothing is sorted |
| Layout.SplitLeftPage | main.py:219-236 | the left leaf of a split holds exactly 6 cells |
| Layout.SplitRightPage | main.py:222-260 | the right leaf of a split, byte for byte: an initialized non-root leaf with 8 cells and next leaf 0, the root's cells 6..12 moved to cells 0..6, the new (key, row) as cell 7, and the page's old bytes beyond; `SplitRightSteps` proves it is what the writes leave and `SplitRightShape` what it reads back as |
| Layout.SplitRootPage | main.py:262-275 | page 0 after a split, byte for byte: internal, root flag 1, count 2, cells (left max key, left page) and (2^32 - 1, right page), the parent and next-leaf bytes and everything after the two cells kept; `SplitRootSteps` proves it is what the writes leave and `SplitRootShape` what it reads back as |
| Layout.SplitLeftSteps | main.py:220-236 | the writes `split_root_node` makes on the left page (initialize, link to the right page, copy cells 0..5, set the count) leave `SplitLeftPage` |
| Layout.SplitRightSteps | main.py:222-260 | the writes on the right page (initialize, copy cells 6..12, set the count, append the new row) leave `SplitRightPage` |
| Layout.SplitRootSteps | main.py:262-275 | the writes on page 0 (initialize as internal, set the root flag and a count of 2, write both routing cells) leave `SplitRootPage` |
| Layout.SplitLeftShape | main.py:219-248 | the left leaf is a non-root leaf linked to the right page, holding the root's cells 0..5 in order; its max key is the key of the root's cell 5 |
| Layout.SplitRightShape | main.py:222-260 | the right leaf is a non-root leaf with next leaf 0, holding the root's cells 6..12 in order and then (key, row): 8 cells whatever the key |
| Layout.NewCellAt | main.py:257-259 | bytes that spell a key and then a row at leaf cell j read back as that cell |
| Layout.SplitRootShape | main.py:262-275 | page 0 becomes an internal root with root flag 1 and exactly the cells (left max key, left page) and (2^32 - 1, right page); its next-leaf bytes are kept |
| NodeOps.WriteInto | main.py:235 | the slice assignment on a buffer leaves `Bytes.Write` of its old contents |
| NodeOps.PackU32 | main.py:258 | `struct.pack_into('I', ...)` on a buffer leaves `Bytes.WriteU32` of its old contents |
| NodeOps.SetNodeType | main.py:160-161 | the buffer becomes `Layout.WithNodeType` of its old contents |
| NodeOps.SetNodeRoot | main.py:163-165 | the buffer becomes `Layout.WithRootFlag` of its old contents |
| NodeOps.SetNodeNumCells | main.py:170-171 | the buffer becomes `Layout.WithNumCells` of its old contents |
| NodeOps.SetNodeNextLeaf | main.py:177-179 | the buffer becomes `Layout.WithNextLeaf` of its old contents |
| NodeOps.InitializeLeafNode | main.py:189-193 | the buffer becomes `Layout.InitLeaf` of its old contents |
| NodeOps.InitializeInternalNode | main.py:195-198 | the buffer becomes `Layout.InitInternal` of its old contents |
| NodeOps.WriteLeafCell | main.py:292-294 | the buffer becomes `Layout.WithLeafCell` of its old contents |
| NodeOps.WriteInternalCell | main.py:268-275 | the buffer becomes `Layout.WithInternalCell` of its old contents |
| NodeOps.CopyLeafCells | main.py:232-244 | the copy loops: cells from..to-1 of the source end up, byte for byte, at the start of the destination's cell area, and nothing else changes |
| NodeOps.AppendLeafCell | main.py:292-295 | the in-place append leaves `Layout.InsertIntoLeaf` of the old buffer |
| NodeOps.FillLeftLeaf | main.py:225-236 | an initialized left buffer ends as `Layout.SplitLeftPage` |
| NodeOps.FillRightLeaf | main.py:239-260 | an initialized right buffer ends as `Layout.SplitRightPage` |
| NodeOps.RewriteRoot | main.py:262-275 | the root buffer ends as `Layout.SplitRootPage` of its old contents |
| Rows.Field | main.py:15 | struct format `s` of width n: exactly n bytes, the input's bytes first and NUL padding after |
| Rows.StripNul | main.py:207-208 | `rstrip('\x00')`: a prefix of the input that does not end in NUL, and every byte dropped is a NUL |
| Rows.SerializeRow | main.py:202-203 | fails exactly when the id is not an unsigned 32-bit word; otherwise 291 bytes: the id word, then bytes 4..35 the username and bytes 36..290 the email, each truncated or NUL-padded to its field (`Field`) |
| Rows.DeserializeRow | main.py:205-209 | the id is the first word; username and email fit their widths and carry no trailing NUL |
| Rows.StripField | main.py:203-208 | padding a field that fits and has no trailing NUL, then stripping it, gives the field back |
| Rows.FieldStrip | main.py:203-208 | stripping a field and padding it back to its width restores it |
| Rows.RowRoundTrip | main.py:202-209 | `deserialize_row(serialize_row(id, u, e)) == (id, u, e)` when u and e fit and have no trailing NUL |
| Rows.RowFieldsRoundTrip | main.py:202-209 | for every 32-bit id and any username and email, `deserialize_row(serialize_row(...))` gives the id back and each field truncated to its width with its trailing NULs stripped: a longer username or email loses its tail and a trailing NUL is lost |
| Rows.BytesRoundTrip | main.py:202-209 | every 291-byte record is what `serialize_row` writes for the row `deserialize_row` reads from it |
| Paging.PagesInFile | main.py:66-68 | the pages the file covers, with a partial last page counted as whole: the smallest n with the file length at most n × 4096 |
| Paging.FileImage | main.py:70-75 | an uncached page's contents: zeros at or past the end of the file, otherwise the file's bytes at that page; that is a whole page, or, for a partial last page, every byte left in the file (a whole page whenever the file holds whole pages) |
| Paging.FileImages | main.py:65-75 | the file image of each of the 100 page numbers |
| Paging.Pager.constructor | main.py:50-59 | opening: `num_pages` counts the whole pages in the file, no slot is cached, and every page reads as its file image |
| Paging.Pager.GetPage | main.py:61-77 | raises exactly for page numbers of 100 or more; a cached page comes back as the same buffer; an uncached one as a fresh buffer holding its file image (4096 zero bytes past the end of the file); no page's contents change |
| Paging.Pager.Written | main.py:73-75 | writing into one cached buffer and recording its new contents keeps the cache valid, because no other slot shares that buffer |
| Paging.Pager.GetUnusedPageNum | main.py:79-80 | the next page to hand out is `num_pages` |
| Paging.Table.constructor | main.py:94-103 | a file with no whole page gets page 0 as an empty root leaf (type leaf, root flag 1, no cells, next leaf 0) and a page count of 1; any other file is taken as it is |
| Cursors.Leftmost | main.py:115-133 | the descent from page 0 along cell 0's children; when it ends at a page, that page is within the cache and is not an internal node |
| Cursors.LeftmostInternal | main.py:129-133 | one step of that descent from an internal page: the child of cell 0, or a raise when that child is past the cache; an end page is a non-internal page within the cache |
| Cursors.LeftmostDivergesPasses | main.py:121-133 | a descent that runs out of fuel f goes on, at each of its first f pages, from an internal node whose cell 0 names a page within the cache |
| Cursors.LeftmostForever | main.py:121-133 | a descent that goes on from every page it reaches runs out of any fuel |
| Cursors.LeftmostDivergesForever | main.py:121-133 | a descent that runs out of the 100 steps runs out of every fuel: its pages repeat, so `start_reading`'s loop never ends |
| Cursors.Advanced | main.py:139-153 | `advance`: raises exactly for a page past the cache; steps to the next cell while one is left; past the last cell, sets end of table with the cell number one past the last cell when next leaf is 0, and moves to (next leaf, 0) otherwise |
| Cursors.Start | main.py:115-137 | where `start_reading` leaves the cursor: cell 0 of the page `Leftmost` ends at, at the end of the table exactly when that leaf has no cells; none when the descent raises or never ends. `Cursors.Cursor.StartReading` is proved to leave this position |
| Cursors.Scan | main.py:352-362 | the cells the select loop reads from a position: the cell under the cursor, then those read from the position `Advanced` gives, until end of table; none when a page or a cell cannot be read. `ScanCell`, `ScanLeaf`, `ScanLeafNext` and `ScanLeafLast` prove what it reads within and across leaves |
| Cursors.Select | main.py:350-362 | `execute_select`'s output: `Scan` from the `Start` position. `Tree.SelectSingleLeaf`, `Tree.SelectTwoLeaves`, `Tree.InsertThenSelect`, `Tree.SplitThenSelect` and `Tree.InsertIntoTwoLeavesThenSelect` give its value on each tree shape `main.py` builds |
| Cursors.ScanCell | main.py:352-362 | one step of the select loop from a readable cell: that cell, then what is read after advancing |
| Cursors.ScanLeaf | main.py:352-362 | scanning a leaf from cell c reads its cells c..n-1 in order, then goes on at the next leaf or stops when there is none |
| Cursors.ScanLeafNext | main.py:352-362 | the induction step of `ScanLeaf`, for a cell that is not the leaf's last |
| Cursors.ScanLeafLast | main.py:145-152 | the last cell of a leaf: after it the scan stops at next leaf 0 or goes on at the next leaf |
| Cursors.Fetch | main.py:118-119 | `get_page` followed by `get_node_type`: the cached buffer of the page and its node type, or a raise exactly past the cache; no page changes |
| Cursors.FirstChild | main.py:129-133 | one step of `start_reading`'s loop: the child page read from cell 0, fetched, is where the descent goes on, or the descent raises |
| Cursors.LeftmostLeaf | main.py:116-133 | `start_reading`'s loop ends at the page `Leftmost` gives, with its buffer, or raises exactly when `Leftmost` does; no page changes |
| Cursors.Cursor.constructor | main.py:109-113 | a new cursor is at page 0, cell 0, not at the end of the table |
| Cursors.Cursor.StartReading | main.py:115-137 | the cursor ends at cell 0 of the leftmost leaf, at the end of the table exactly when that leaf has no cells (`Start`), or is left as it was when `get_page` raises |
| Cursors.Cursor.Advance | main.py:139-153 | the cursor moves exactly as `Advanced` says, and the pages are only read |
| Tree.ChildFor | main.py:308-320 | the routing choice: the first cell in stored order whose max key is at least the key, with every earlier cell's key below it; no match only when every cell's key is below the key; a bad cell when the count reaches past the page |
| Tree.Route | main.py:297-325 | `find_leaf_page`'s descent from a page: a page that is not an internal node is the answer; an internal node goes on as `RouteInternal` says; the walk diverges when 100 steps do not end it. `RouteEnds`, `RouteNoMatchRoot`, `RouteDivergesForever` and `RouteAfterSplit` prove its properties, and `FindLeafPage` is proved to return it |
| Tree.RouteInternal | main.py:304-323 | one pass of the loop at an internal page: the child `ChildFor` chooses, page 0 at once when no cell matches, a raise for a bad cell or for a child past the cache |
| Tree.RouteEnds | main.py:297-325 | when `find_leaf_page`'s descent ends at a page, that page is within the cache and is either not an internal node or page 0 |
| Tree.RouteNoMatchRoot | main.py:318-320 | an internal root with no cell whose max key reaches the key sends that key to page 0 itself |
| Tree.RouteDivergesRoutes | main.py:303-323 | a route that runs out of fuel f goes on, at each of its first f pages, from an internal node where the key chooses a child within the cache |
| Tree.RouteForever | main.py:303-323 | a route that goes on from every page it reaches runs out of any fuel |
| Tree.RouteDivergesForever | main.py:303-323 | a route that runs out of the 100 steps runs out of every fuel: its pages repeat, so `find_leaf_page`'s loop never ends |
| Tree.NoMatchIff | main.py:318-320 | `find_leaf_page` gives up at a node exactly when every stored max key is below the key and the cells lie in the page |
| Tree.SentinelRoutes | main.py:45 | when the last routing cell carries 2^32 - 1, every key up to 2^32 - 1 finds a child |
| Tree.SplitRoot | main.py:211-275 | `split_root_node` over the page images and the page count: the next two page numbers are taken and the count grows by two; a page number past the cache raises with the writes made so far kept; otherwise page `num_pages` becomes the left leaf, `num_pages + 1` the right leaf and page 0 the internal root. `SplitRootResult`, `SplitPageShapes`, `SplitRootPages` and `SplitThenSelect` prove its properties, and `SplitRootNode` is proved to leave it |
| Tree.SplitRootResult | main.py:211-275 | the whole split: the new pages are `num_pages` and `num_pages + 1`, and the count grows by 2. It raises exactly when the second new page is past the cache; when the first one fits, that page has already become an initialized leaf. Otherwise the left leaf holds cells 0..5 and links to the right leaf. The right leaf holds cells 6..12 and then the new row. Page 0 is the internal root routing to both. No other page changes |
| Tree.SplitPageShapes | main.py:219-275 | the three pages of a split at once: both leaves and the new root as `SplitRootResult` describes them |
| Tree.SplitRootPages | main.py:211-275 | when both new page numbers fit, the split writes exactly the left page, the right page and page 0 |
| Tree.LeafInsert | main.py:279-295 | `leaf_node_insert` over the page images: raises past the cache; appends on a non-full leaf; changes nothing on a full non-root leaf; gives `SplitRoot` on a full leaf with the root flag set. `LeafInsertResult`, `InsertThenSelect` and `InsertIntoTwoLeavesThenSelect` prove its properties, and `LeafNodeInsert` is proved to leave it |
| Tree.LeafInsertResult | main.py:279-295 | `leaf_node_insert`: raises for a page past the cache; on a non-full leaf, appends the cell and changes no other page; on a full non-root leaf, changes nothing; on a full root leaf, splits |
| Tree.RouteAfterSplit | main.py:262-275 | after a split, every key up to 2^32 - 1 is routed to the left leaf when it is at most the left leaf's max key and to the right leaf otherwise |
| Tree.RouteTwoLeaves | main.py:303-325 | routing under an internal root whose two cells, the second holding the sentinel, point at leaves |
| Tree.SelectSingleLeaf | main.py:350-362 | a table whose root is a single leaf is read back as that leaf's cells in stored order |
| Tree.InsertThenSelect | main.py:279-295 | after an insert into a single-leaf table with room, a select reads the earlier rows and then the new one, whatever its key |
| Tree.SplitThenSelect | main.py:211-275 | after a split, a select reads the old root's 13 cells in their old order and then the new row |
| Tree.SelectTwoLeaves | main.py:115-153 | under an internal root whose first child is a leaf linked to a last leaf, a select reads both leaves' cells in turn |
| Tree.InsertIntoTwoLeavesThenSelect | main.py:279-295 | in a table split into two leaves, appending into the left leaf reads back as left cells, new row, right cells, and appending into the right leaf as left cells, right cells, new row, whatever the key |
| Tree.ChooseChild | main.py:308-320 | the cell-search loop returns the choice `ChildFor` gives |
| Tree.Descend | main.py:304-323 | one pass of `find_leaf_page`'s loop: the route goes on from the chosen child, or the walk ends with `Route`'s result |
| Tree.FindLeafPage | main.py:297-325 | `find_leaf_page` returns the page `Route` gives, or raises exactly when `Route` does; no page changes |
| Tree.NewLeaf | main.py:219-223 | `get_page` and then `initialize_leaf_node` on a new page number: raises past the cache, otherwise that page's image becomes an initialized leaf and no other page changes |
| Tree.SplitRootNode | main.py:211-217 | `split_root_node` leaves exactly the page images, page count and exception `SplitRoot` gives |
| Tree.SplitIntoNewLeaves | main.py:219-275 | the split once the page numbers are handed out matches `SplitRoot` |
| Tree.SplitIntoRightLeaf | main.py:222-275 | the split once the left page is initialized matches `SplitRoot` |
| Tree.SplitBothLeaves | main.py:225-275 | the writes once both leaves are initialized leave the pages of `SplitRoot` |
| Tree.SplitFill | main.py:225-275 | the split's writes on the three cached buffers leave page images with the left leaf, right leaf and new root; no other page changes |
| Tree.SplitRightAndRoot | main.py:239-275 | the right half and the new root on the cached buffers; no other page changes |
| Tree.SplitLeftHalf | main.py:225-236 | the left half on the cached buffer: the left page's image becomes `SplitLeftPage`; no other page changes |
| Tree.SplitRightHalf | main.py:239-260 | the right half on the cached buffer: the right page's image becomes `SplitRightPage`; no other page changes |
| Tree.SplitNewRoot | main.py:262-275 | page 0's image becomes `SplitRootPage`; no other page changes |
| Tree.LeafNodeInsert | main.py:279-290 | `leaf_node_insert` at the cursor's page leaves exactly the page images, page count and exception `LeafInsert` gives |
| Tree.AppendToLeaf | main.py:292-295 | the append on the cached buffer: the page's image becomes `InsertIntoLeaf` of its old image; no other page changes |

## Left out

- File I/O: opening, seeking, reading, `flush` and `close` (main.py:50-58, 82-92). The file is a byte sequence fixed when the pager is opened. The engine writes pages back only on close, so the file does not change while the cache is in use.
- The REPL, command parsing, `execute_insert`'s tokenising and `int()` parsing, and every `print` (main.py:277, 289, 319, 327-388). `Cursors.Select` gives the cells the select loop reads but does not decode or print them.
- UTF-8: usernames and emails are byte sequences, and their encoding and decoding are not modelled.
- Byte order: `struct` format `I` uses the machine's native order; the model fixes little-endian.
- benchmark.py is not part of this model. It times operations and imports a `BTree`, a `WAL` and `hash_email`, which main.py does not define.
- The write-ahead log, the secondary index, sorted insertion and splits of non-root or internal nodes are not modelled, because main.py has none of them.
- Cursors.Leftmost: a chain of internal nodes that loops makes `start_reading` run forever (main.py:121). The walk gets a fuel of 100 steps (one per page) and reports `Diverges` when the fuel runs out; `Cursors.LeftmostDivergesForever` proves that such a descent then runs out of every fuel. `Cursors.Cursor.StartReading` and `Cursors.LeftmostLeaf` require that the descent does not diverge.
- Tree.Route: the same applies to `find_leaf_page` (main.py:303), with `Tree.RouteDivergesForever`. `Tree.FindLeafPage` and `Tree.Descend` require that the route does not diverge.
- Tree.LeafNodeInsert: the tree operations require that the file holds whole pages, which is all `main.py` ever writes. With a partial last page, `get_page` returns a short buffer (which `Paging.Pager.GetPage` models). The slice assignments of the split and the append (main.py:235, 243, 259, 294) can then change the length of that buffer, and the page model, which keeps every page at 4096 bytes, does not follow buffer lengths. They also require the row to be the 291 bytes `serialize_row` produces.
- Cursors.Scan: a read that would fail (a page past the cache, a cell past the end of the page) and a chain longer than the fuel both give `None`; the two are not told apart.
- Paging.Table.constructor: requires a file of whole pages, like the tree operations; `Paging.Pager.constructor` and `Paging.Pager.GetPage` take any file.
- Paging.Pager.GetPage: the `pages` list is a sequence field that the method reassigns, not an object updated in place, so aliasing of the list itself is not modelled.
