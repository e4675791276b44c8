/** The page allocator for nodes, attributes and strings: bump allocation in the last page, pages
    given back as soon as nothing on them is live. */
module XmlAllocator {

  const PAGE_SIZE: nat := 32768
  const LARGE_ALLOCATION_THRESHOLD: nat := PAGE_SIZE / 4

  datatype Block = Block(offset: nat, size: nat)

  function Total(blocks: seq<Block>): (n: nat)
  {
    if blocks == [] then 0 else blocks[0].size + Total(blocks[1..])
  }

  lemma {:induction false} TotalAppend(a: seq<Block>, b: seq<Block>)
    ensures Total(a + b) == Total(a) + Total(b)
    decreases |a|
  {
    if a == [] {
      assert a + b == b;
    } else {
      assert (a + b)[1..] == a[1..] + b;
      TotalAppend(a[1..], b);
    }
  }

  /** The live blocks of a page, by offset: none is empty, none overlaps another one, all lie in
      the first `busy` bytes, and their sizes make up what is busy and not freed. */
  ghost predicate Sound(blocks: seq<Block>, busy: nat, freed: nat)
  {
    && (forall i :: 0 <= i < |blocks| ==> blocks[i].size > 0 && blocks[i].offset + blocks[i].size <= busy)
    && (forall i, j :: 0 <= i < j < |blocks| ==> blocks[i].offset + blocks[i].size <= blocks[j].offset)
    && freed + Total(blocks) == busy
  }

  lemma SoundAfterAllocation(blocks: seq<Block>, busy: nat, freed: nat, size: nat)
    requires Sound(blocks, busy, freed) && size > 0
    ensures Sound(blocks + [Block(busy, size)], busy + size, freed)
  {
    TotalAppend(blocks, [Block(busy, size)]);
  }

  lemma {:induction false} TotalRemove(blocks: seq<Block>, k: nat)
    requires k < |blocks|
    ensures Total(blocks) == Total(blocks[..k] + blocks[k + 1..]) + blocks[k].size
    decreases k
  {
    var rest := blocks[..k] + blocks[k + 1..];
    if k == 0 {
      assert rest == blocks[1..];
    } else {
      TotalRemove(blocks[1..], k - 1);
      assert rest[0] == blocks[0] && rest[1..] == blocks[1..][..k - 1] + blocks[1..][k..];
    }
  }

  lemma SoundAfterFree(blocks: seq<Block>, busy: nat, freed: nat, k: nat)
    requires Sound(blocks, busy, freed) && k < |blocks|
    ensures Sound(blocks[..k] + blocks[k + 1..], busy, freed + blocks[k].size)
    ensures freed + blocks[k].size == busy <==> blocks[..k] + blocks[k + 1..] == []
  {
    hide Total;
    TotalRemove(blocks, k);
    var rest := blocks[..k] + blocks[k + 1..];
    forall i | 0 <= i < |rest| ensures rest[i] == blocks[if i < k then i else i + 1] {
    }
    NothingTotal(rest);
  }

  lemma NothingTotal(blocks: seq<Block>)
    requires forall i :: 0 <= i < |blocks| ==> blocks[i].size > 0
    ensures Total(blocks) == 0 <==> blocks == []
  {
  }

  class Page {
    const dataSize: nat
    var prev: Page?
    var next: Page?
    var busySize: nat
    var freedSize: nat
    ghost var live: seq<Block>

    constructor (dataSize: nat)
      ensures this.dataSize == dataSize && prev == null && next == null
      ensures busySize == 0 && freedSize == 0 && live == []
    {
      this.dataSize, prev, next, busySize, freedSize, live := dataSize, null, null, 0, 0, [];
    }
  }

  /** What two-byte fields in front of a string tell about its block; 0 stands for a whole page. */
  datatype StringHeader = StringHeader(pageOffset: nat, fullSize: nat)

  class Allocator {
    var root: Page
    var busySize: nat
    ghost var pages: seq<Page>

    /** The bytes of a page handed out so far; the allocator counts for the last page itself. */
    ghost function Busy(p: Page): (n: nat)
      reads this`root, this`busySize, p`busySize
    {
      if p == root then busySize else p.busySize
    }

    /** The list of pages, from the document's own page to the one that is allocated from. */
    ghost predicate Listed()
      reads this`root, this`pages, pages`prev, pages`next
    {
      && pages != [] && root == pages[|pages| - 1]
      && (forall i, j :: 0 <= i < j < |pages| ==> pages[i] != pages[j])
      && (forall i :: 0 <= i < |pages| ==> LinkedAt(i))
    }

    ghost predicate LinkedAt(i: nat)
      requires i < |pages|
      reads this`pages, pages`prev, pages`next
    {
      && pages[i].prev == (if i > 0 then pages[i - 1] else null)
      && pages[i].next == (if i + 1 < |pages| then pages[i + 1] else null)
    }

    /** The blocks of one page. Only the last page may be empty, and then it starts from zero; a
        block that does not fit a page of the usual size has one of its own. */
    ghost predicate PageOk(p: Page)
      reads this`root, this`busySize, p`busySize, p`freedSize, p`live
    {
      && Sound(p.live, Busy(p), p.freedSize)
      && Busy(p) <= p.dataSize
      && (p.live == [] ==> p == root && Busy(p) == 0)
      && (forall b :: b in p.live && b.size > PAGE_SIZE ==> p != root && b.offset == 0 && p.busySize == b.size)
    }

    ghost predicate Valid()
      reads this, pages
    {
      && Listed()
      && (forall p :: p in pages ==> PageOk(p))
      && root.dataSize == PAGE_SIZE
    }

    /** The document sits in the first page, which counts as full. */
    constructor ()
      ensures Valid() && |pages| == 1 && fresh(pages) && root.live == [Block(0, PAGE_SIZE)]
    {
      var sentinel := new Page(PAGE_SIZE);
      sentinel.busySize := PAGE_SIZE;
      sentinel.live := [Block(0, PAGE_SIZE)];
      root, busySize, pages := sentinel, PAGE_SIZE, [sentinel];
      new;
      assert LinkedAt(0);
      assert Total([Block(0, PAGE_SIZE)]) == PAGE_SIZE;
    }

    /** A page for `dataSize` bytes; running out of memory is not modelled. */
    method AllocatePage(dataSize: nat) returns (page: Page)
      ensures fresh(page) && page.dataSize == dataSize && page.prev == null && page.next == null
      ensures page.busySize == 0 && page.freedSize == 0 && page.live == []
    {
      page := new Page(dataSize);
    }

    /** Allocates from the last page, or from a new one. The result is the page and the offset. A
        block too large to share a page needs some page before the last one. */
    method AllocateMemory(size: nat) returns (page: Page, offset: nat)
      requires Valid() && size > 0
      requires busySize + size > PAGE_SIZE && size > LARGE_ALLOCATION_THRESHOLD ==> |pages| > 1
      modifies this, pages
      ensures Valid() && offset + size <= page.dataSize && offset <= 32768
      ensures page.live == (if fresh(page) then [] else old(page.live)) + [Block(offset, size)]
      ensures if old(busySize) + size <= 32768 then page == old(root) && pages == old(pages)
              else fresh(page) && pages == if size <= 8192 then old(pages) + [page]
                                           else old(pages[..|pages| - 1]) + [page] + [old(root)]
      ensures forall p :: p in old(pages) && p != page ==> p.live == old(p.live)
    {
      if busySize + size > PAGE_SIZE {
        if size <= LARGE_ALLOCATION_THRESHOLD {
          page := AllocateLast(size);
        } else {
          page := AllocateBeforeLast(size);
        }
        offset := 0;
      } else {
        page, offset := root, busySize;
        AllocateHere(size);
      }
    }

    /** Bumps the busy size of the last page. */
    method AllocateHere(size: nat)
      requires Valid() && 0 < size && busySize + size <= PAGE_SIZE
      modifies this`busySize, root`live
      ensures Valid() && busySize == old(busySize) + size && root.live == old(root.live) + [Block(old(busySize), size)]
    {
      hide Sound, Total;
      assert root in pages && PageOk(root);
      SoundAfterAllocation(root.live, busySize, root.freedSize, size);
      root.live := root.live + [Block(busySize, size)];
      busySize := busySize + size;
      forall i | 0 <= i < |pages| ensures LinkedAt(i) {
        assert old(LinkedAt(i));
      }
      forall p | p in pages ensures PageOk(p) {
        assert old(PageOk(p));
      }
    }

    /** `allocate_memory_oob` for a small block: a new last page. */
    method AllocateLast(size: nat) returns (page: Page)
      requires Valid() && 0 < size <= LARGE_ALLOCATION_THRESHOLD && busySize + size > PAGE_SIZE
      modifies this, pages
      ensures Valid() && fresh(page) && page.dataSize == PAGE_SIZE && page.busySize == size
      ensures page.live == [Block(0, size)]
      ensures pages == old(pages) + [page] && forall p :: p in old(pages) ==> p.live == old(p.live)
    {
      hide Sound, Total, LinkedAt;
      ghost var c := pages;
      page := AllocatePage(PAGE_SIZE);
      root.busySize := busySize;
      page.busySize := size;
      page.live := [Block(0, size)];
      SoundSingle(size);
      LinkLast(page);
      busySize := size;
      forall p | p in pages && p != page ensures p in c && PageOk(p) {
        assert old(PageOk(p));
      }
    }

    /** Makes a page the last one. */
    method LinkLast(page: Page)
      requires Listed() && page !in pages && page.next == null
      modifies this`root, this`pages, page`prev, pages`next
      ensures Listed() && pages == old(pages) + [page] && root == page
    {
      ghost var c := pages;
      page.prev := root;
      root.next := page;
      root := page;
      pages := pages + [page];
      forall i | 0 <= i < |pages| ensures LinkedAt(i) {
        if i < |c| {
          assert old(LinkedAt(i));
        }
      }
    }

    lemma SoundSingle(size: nat)
      requires size > 0
      ensures Sound([Block(0, size)], size, 0)
    {
      assert Total([Block(0, size)]) == size;
    }

    /** `allocate_memory_oob` for a large block: a page of its own before the last one. */
    method AllocateBeforeLast(size: nat) returns (page: Page)
      requires Valid() && |pages| > 1 && size > LARGE_ALLOCATION_THRESHOLD
      modifies this, pages
      ensures Valid() && fresh(page) && page.dataSize == size && page.live == [Block(0, size)]
      ensures pages == old(pages[..|pages| - 1]) + [page] + [old(root)]
      ensures forall p :: p in old(pages) ==> p.live == old(p.live)
    {
      hide Sound, Total, LinkedAt;
      ghost var c := pages;
      page := AllocatePage(size);
      page.busySize := size;
      page.live := [Block(0, size)];
      SoundSingle(size);
      LinkBeforeLast(page);
      forall p | p in pages && p != page ensures p in c && PageOk(p) {
        assert c[|c| - 1] in c && old(PageOk(p));
      }
    }

    /** Puts a page in front of the last one. */
    method LinkBeforeLast(page: Page)
      requires Listed() && |pages| > 1 && page !in pages
      modifies this`pages, page`prev, page`next, pages`prev, pages`next
      ensures Listed() && pages == old(pages)[..|old(pages)| - 1] + [page] + [root]
    {
      ghost var c, n := pages, |pages|;
      assert LinkedAt(n - 1) && LinkedAt(n - 2);
      page.prev := root.prev;
      page.next := root;
      root.prev.next := page;
      root.prev := page;
      pages := c[..n - 1] + [page] + [root];
      forall i | 0 <= i < |pages| ensures LinkedAt(i) {
        if i < n - 1 {
          assert old(LinkedAt(i)) && pages[i] == c[i];
          assert i < n - 2 ==> pages[i + 1] == c[i + 1] && c[i] != c[n - 2];
        }
      }
    }

    /** Frees a block. The last page is reset when it gets empty; any other one is given back. */
    method DeallocateMemory(offset: nat, size: nat, page: Page, ghost at: nat, ghost k: nat)
      requires Valid() && 0 < at < |pages| && pages[at] == page && k < |page.live|
            && page.live[k] == Block(offset, size)
      modifies this, pages
      ensures Valid() && page.live == old(page.live[..k] + page.live[k + 1..])
      ensures root == old(root)
      ensures pages == if page != root && page.live == [] then old(pages)[..at] + old(pages)[at + 1..] else old(pages)
      ensures forall p :: p in old(pages) && p != page ==> p.live == old(p.live)
    {
      hide Sound, Total, PageOk;
      ghost var c := pages;
      assert LinkedAt(at) && page in pages;
      assert page == root <==> at == |pages| - 1;
      FreeBlock(offset, size, page, k);
      if page.freedSize == page.busySize {
        if page.next == null {
          page.busySize, page.freedSize := 0, 0;
          busySize := 0;
        } else {
          Release(page, at);
          assert forall i :: 0 <= i < |pages| ==> pages[i] != page;
        }
      }
      forall p | p in pages ensures PageOk(p) {
        assert p in c && (p != page ==> old(PageOk(p)));
        PageStaysOk(p);
        if p == page {
          EmptyPageOk(page);
        }
      }
    }

    /** What `PageOk` needs of the last page when it is empty. */
    lemma EmptyPageOk(page: Page)
      ensures page == root && page.live == [] && busySize == 0 && page.freedSize == 0 ==> PageOk(page)
    {
    }

    /** A page whose sizes and blocks no one has touched. */
    twostate lemma PageStaysOk(p: Page)
      ensures
        && old(PageOk(p))
        && unchanged(p`busySize) && unchanged(p`freedSize) && unchanged(p`live)
        && root == old(root) && (p == root ==> busySize == old(busySize))
        ==> PageOk(p)
    {
    }

    /** The sizes after a block of the page has been freed. */
    method FreeBlock(offset: nat, size: nat, page: Page, ghost k: nat)
      requires PageOk(page) && k < |page.live| && page.live[k] == Block(offset, size)
      modifies page`busySize, page`freedSize, page`live
      ensures page.live == old(page.live[..k] + page.live[k + 1..])
      ensures page.busySize == old(Busy(page))
      ensures page.freedSize == page.busySize <==> page.live == []
      ensures page.live != [] ==> PageOk(page)
    {
      hide Total, Sound;
      if page == root {
        page.busySize := busySize;
      }
      SoundAfterFree(page.live, page.busySize, page.freedSize, k);
      page.freedSize := page.freedSize + size;
      page.live := page.live[..k] + page.live[k + 1..];
      assert forall b :: b in page.live ==> b in old(page.live);
    }

    /** Takes a page out of the list; its memory is given back. */
    method Release(page: Page, ghost at: nat)
      requires Listed() && 0 < at < |pages| - 1 && pages[at] == page
      modifies this`pages, pages`prev, pages`next
      ensures Listed() && root == old(root) && pages == old(pages)[..at] + old(pages)[at + 1..]
    {
      ghost var c := pages;
      assert LinkedAt(at) && LinkedAt(at - 1) && LinkedAt(at + 1);
      page.prev.next := page.next;
      page.next.prev := page.prev;
      pages := c[..at] + c[at + 1..];
      forall i | 0 <= i < |pages| ensures LinkedAt(i) {
        assert old(LinkedAt(if i < at then i else i + 1));
        assert pages[i] == c[if i < at then i else i + 1];
      }
    }

    /** Memory for a string behind its header, rounded up to whole pointers. */
    method AllocateString(length: nat) returns (page: Page, header: StringHeader)
      requires Valid()
      requires busySize + StringSize(length) > PAGE_SIZE && StringSize(length) > LARGE_ALLOCATION_THRESHOLD
            ==> |pages| > 1
      modifies this, pages
      ensures Valid() && header.pageOffset < 0x1_0000 && header.fullSize < 0x1_0000
      ensures page in pages && HeaderFor(header, Block(header.pageOffset, StringSize(length)))
      ensures page.live == (if fresh(page) then [] else old(page.live)) + [Block(header.pageOffset, StringSize(length))]
      ensures forall p :: p in old(pages) && p != page ==> p.live == old(p.live)
    {
      hide Sound, Total, PageOk;
      var fullSize := StringSize(length);
      var offset;
      page, offset := AllocateMemory(fullSize);
      header := StringHeader(offset, if fullSize < 0x1_0000 then fullSize else 0);
    }

    /** Frees the block that the header describes. */
    method DeallocateString(header: StringHeader, page: Page, ghost at: nat, ghost k: nat)
      requires Valid() && 0 < at < |pages| && pages[at] == page && k < |page.live|
      requires HeaderFor(header, page.live[k])
      modifies this, pages
      ensures Valid() && page.live == old(page.live[..k] + page.live[k + 1..])
      ensures root == old(root)
      ensures pages == if page != root && page.live == [] then old(pages)[..at] + old(pages)[at + 1..] else old(pages)
      ensures forall p :: p in old(pages) && p != page ==> p.live == old(p.live)
    {
      hide Sound, Total;
      assert PageOk(page) && page.live[k] in page.live;
      BlockPositive(page, k);
      var fullSize := if header.fullSize == 0 then page.busySize else header.fullSize;
      DeallocateMemory(header.pageOffset, fullSize, page, at, k);
    }

    lemma BlockPositive(page: Page, k: nat)
      requires PageOk(page) && k < |page.live|
      ensures page.live[k].size > 0
    {
    }
  }

  function StringSize(length: nat): (n: nat)
    ensures length + 4 <= n < length + 12 && n % 8 == 0
  {
    (length + 4 + 7) / 8 * 8
  }

  /** The header that belongs to a string's block. */
  predicate HeaderFor(header: StringHeader, b: Block)
  {
    header == StringHeader(b.offset, if b.size < 0x1_0000 then b.size else 0)
  }
}
