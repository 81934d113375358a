/** The page cache (Pager) and the table that owns it. The database file is
    an abstract byte sequence fixed when the pager is opened: the engine
    only writes it back when it closes, so it does not change while the
    cache is in use. */
module Paging {
  import opened Bytes
  import opened Layout
  import opened NodeOps

  /** Pages the file covers, a partial last page counted as a whole one. */
  function PagesInFile(file: seq<Byte>): (n: nat)
    ensures |file| <= n * 4096 && (n == 0 || (n - 1) * 4096 < |file|)
  {
    if |file| % PAGE_SIZE == 0 then |file| / PAGE_SIZE else |file| / PAGE_SIZE + 1
  }

  /** What get_page gives for page n when it is not cached: the bytes the
      file holds there (short for a partial last page), or a zero-filled
      page at or beyond the end of the file. */
  function FileImage(file: seq<Byte>, n: nat): (r: seq<Byte>)
    ensures 0 < |r| <= PAGE_SIZE
    ensures n >= PagesInFile(file) ==> r == Zeros(PAGE_SIZE)
    ensures n < PagesInFile(file) ==> r <= file[n * 4096..]
    ensures n < PagesInFile(file) ==> |r| == PAGE_SIZE || n * 4096 + |r| == |file|
    ensures |file| % PAGE_SIZE == 0 ==> |r| == PAGE_SIZE
  {
    if n < PagesInFile(file) then
      var start := n * 4096;
      file[start .. if |file| < start + 4096 then |file| else start + 4096]
    else
      Zeros(PAGE_SIZE)
  }

  function FileImages(file: seq<Byte>): (r: seq<seq<Byte>>)
    ensures |r| == TABLE_MAX_PAGES
    ensures forall n :: 0 <= n < TABLE_MAX_PAGES ==> r[n] == FileImage(file, n)
  {
    seq(TABLE_MAX_PAGES, n requires 0 <= n => FileImage(file, n))
  }

  class Pager {
    const file: seq<Byte>
    /** Disk[n] is what get_page reads for page n when it is not cached. */
    ghost const Disk: seq<seq<Byte>>
    var numPages: nat
    /** The cache: TABLE_MAX_PAGES slots, each empty or holding a buffer. */
    var pages: seq<array?<Byte>>
    /** Image[n] is what get_page(n) returns now: the cached buffer's
        contents, or the file's image of page n. */
    ghost var Image: seq<seq<Byte>>
    /** The buffers the cache has handed out. */
    ghost var Repr: set<array<Byte>>

    /** The cache has its TABLE_MAX_PAGES slots and every image has the
        length of the page's file image. */
    ghost predicate Shaped()
      reads this
    {
      && |pages| == TABLE_MAX_PAGES && |Image| == TABLE_MAX_PAGES && |Disk| == TABLE_MAX_PAGES
      && (forall n {:trigger FileImage(file, n)} :: 0 <= n < TABLE_MAX_PAGES ==> Disk[n] == FileImage(file, n))
      && (forall n :: 0 <= n < TABLE_MAX_PAGES ==> |Image[n]| == |Disk[n]|)
    }

    ghost predicate Valid()
      reads this, Repr
    {
      && Shaped()
      && (forall n :: 0 <= n < TABLE_MAX_PAGES && pages[n] != null ==> pages[n] in Repr)
      && (forall n :: 0 <= n < TABLE_MAX_PAGES && pages[n] == null ==> Image[n] == Disk[n])
      && (forall n :: 0 <= n < TABLE_MAX_PAGES && pages[n] != null ==> pages[n][..] == Image[n])
      // two slots never share a buffer, so a write to one page is not seen in another
      && (forall m, n :: 0 <= m < n < TABLE_MAX_PAGES && pages[m] != null ==> pages[m] != pages[n])
    }

    /** Opening: num_pages counts the whole pages in the file; nothing is cached. */
    constructor(file: seq<Byte>)
      ensures Valid() && this.file == file
      ensures numPages == |file| / PAGE_SIZE
      ensures Image == FileImages(file)
      ensures forall n :: 0 <= n < TABLE_MAX_PAGES ==> pages[n] == null
    {
      this.file := file;
      Disk := FileImages(file);
      numPages := |file| / PAGE_SIZE;
      pages := seq(TABLE_MAX_PAGES, _ => null);
      Image := FileImages(file);
      Repr := {};
    }

    /** get_page: raises for a page number at or past TABLE_MAX_PAGES;
        otherwise returns the cached buffer, or caches and returns a new one
        holding the page's file image (zeros beyond the end of the file). */
    method GetPage(n: nat) returns (r: Option<array<Byte>>)
      requires Valid()
      modifies this`pages, this`Repr
      ensures Valid() && Image == old(Image)
      ensures Repr == if r.Some? then old(Repr) + {r.value} else old(Repr)
      ensures r.None? <==> n >= TABLE_MAX_PAGES
      ensures r.None? ==> pages == old(pages)
      ensures r.Some? ==> pages == old(pages)[n := r.value] && r.value[..] == Image[n]
      ensures n < TABLE_MAX_PAGES && old(pages[n]) != null ==> r.Some? && r.value == old(pages[n])
      ensures n < TABLE_MAX_PAGES && old(pages[n]) == null ==> fresh(r.value) && r.value[..] == FileImage(file, n)
    {
      if n >= TABLE_MAX_PAGES {
        return None;
      }
      if pages[n] == null {
        var numPagesInFile := |file| / PAGE_SIZE;
        if |file| % PAGE_SIZE != 0 {
          numPagesInFile := numPagesInFile + 1;
        }
        var buf: array<Byte>;
        if n < numPagesInFile {
          var start := n * 4096;
          var data := file[start .. if |file| < start + 4096 then |file| else start + 4096];
          buf := new Byte[|data|](i requires 0 <= i < |data| => data[i]);
        } else {
          buf := new Byte[PAGE_SIZE](_ => 0);
        }
        assert buf[..] == FileImage(file, n);
        assert forall m :: 0 <= m < TABLE_MAX_PAGES && pages[m] != null ==> pages[m] != buf;
        pages := pages[n := buf];
        Repr := Repr + {buf};
        assert forall m :: 0 <= m < TABLE_MAX_PAGES && pages[m] != null ==> pages[m][..] == Image[m];
      }
      r := Some(pages[n]);
    }

    /** Writing into the cached buffer of page a, and into no other buffer
        of the cache, and recording its new contents in Image keeps the
        cache valid. */
    twostate lemma Written(a: nat)
      requires old(Valid()) && pages == old(pages) && Repr == old(Repr) && |Image| == TABLE_MAX_PAGES
      requires a < TABLE_MAX_PAGES && pages[a] != null && Image[a] == pages[a][..]
      requires forall n :: 0 <= n < TABLE_MAX_PAGES && n != a ==> Image[n] == old(Image[n])
      requires forall o :: o in old(Repr) && o != pages[a] ==> unchanged(o)
      ensures Valid()
    {
      forall n | 0 <= n < TABLE_MAX_PAGES && n != a && pages[n] != null
        ensures pages[n][..] == Image[n]
      {
        var o: array<Byte> := pages[n];
        assert o in old(Repr);
        if n < a {
          assert old(pages[n]) != old(pages[a]);
        } else {
          assert old(pages[a]) != old(pages[n]);
        }
      }
    }

    /** get_unused_page_num: the next page to hand out is the page count. */
    method GetUnusedPageNum() returns (n: nat)
      ensures n == numPages
    {
      n := numPages;
    }
  }

  /** The pages of a table whose file holds whole pages. */
  ghost predicate WholePages(file: seq<Byte>)
  {
    |file| % PAGE_SIZE == 0
  }

  class Table {
    const pager: Pager

    ghost predicate Valid()
      reads this, pager, pager.Repr
    {
      Sized() && pager.Valid() && pager.numPages >= 1
    }

    /** The cache is shaped and the file holds whole pages: every image is
        a whole page. */
    ghost predicate Sized()
      reads this, pager
    {
      && pager.Shaped() && WholePages(pager.file)
      && forall n :: 0 <= n < TABLE_MAX_PAGES ==> |pager.Disk[n]| == PAGE_SIZE
    }

    /** The page images of the table, each a whole page. */
    ghost function Img(): (img: seq<Page>)
      requires Sized()
      reads this, pager
      ensures |img| == TABLE_MAX_PAGES && img == pager.Image
    {
      assert forall n :: 0 <= n < TABLE_MAX_PAGES ==> |pager.Image[n]| == PAGE_SIZE;
      pager.Image
    }

    /** Table.__init__: a file without a page gets page 0 set up as an empty
        root leaf and a page count of one; any other file is taken as it is. */
    constructor(file: seq<Byte>)
      requires WholePages(file)
      ensures Valid() && fresh(pager) && pager.file == file
      ensures |file| / PAGE_SIZE != 0 ==> pager.numPages == |file| / PAGE_SIZE && pager.Image == FileImages(file)
      ensures |file| / PAGE_SIZE == 0 ==>
                && pager.numPages == 1
                && pager.Image == FileImages(file)[0 := WithRootFlag(InitLeaf(Zeros(PAGE_SIZE)), true)]
                && NodeType(Img()[0]) == NODE_LEAF && RootFlag(Img()[0]) == 1
                && NumCells(Img()[0]) == 0 && NextLeaf(Img()[0]) == 0
    {
      var p := new Pager(file);
      assert forall n :: 0 <= n < TABLE_MAX_PAGES ==> |p.Disk[n]| == |FileImage(file, n)| == PAGE_SIZE;
      if p.numPages == 0 {
        var r := p.GetPage(0);
        var root := r.value;
        InitializeLeafNode(root);
        SetNodeRoot(root, true);
        p.Image := p.Image[0 := root[..]];
        p.numPages := 1;
      }
      pager := p;
    }
  }
}
