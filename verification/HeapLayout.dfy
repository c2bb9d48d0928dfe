// The shape of the kernel heap: a chain of pages, each tiled by blocks, and a chain of free
// blocks.  Headers are kept by address; the rest of a block is its payload.
module HeapLayout {
  import opened Bits

  const HEAP_START: Word := 0xF000_0000

  /** The fields of blk_header and page_header (nb_block apart). */
  datatype BlkHeader = BlkHeader(next: Word, size: Word, actualSize: Word)
  datatype PageHeader = PageHeader(next: Word, size: Word, usedSize: Word)

  type Blocks = map<Word, BlkHeader>
  type Pages = map<Word, PageHeader>

  /** The pages in list order: contiguous from HEAP_START, never past 4 GiB. */
  ghost predicate PageChain(head: Word, pages: Pages, ps: seq<Word>) {
    && (forall a :: a in pages <==> a in ps)
    && head == (if ps == [] then 0 else ps[0])
    && (ps != [] ==> ps[0] == HEAP_START)
    && (forall i | 0 <= i < |ps| :: PageOk(pages, ps, i))
  }

  ghost predicate PageOk(pages: Pages, ps: seq<Word>, i: nat)
    requires i < |ps|
  {
    && ps[i] in pages
    && var p := pages[ps[i]];
      && p.size % 4096 == 0 && 16 <= p.usedSize <= p.size && HEAP_START <= ps[i] && ps[i] + p.size <= 0x1_0000_0000
      && p.next == (if i + 1 < |ps| then ps[i + 1] else 0)
      && (i + 1 < |ps| ==> ps[i + 1] == ps[i] + p.size)
  }

  ghost predicate PagesPresent(pages: Pages, ps: seq<Word>) {
    forall i | 0 <= i < |ps| :: ps[i] in pages
  }

  /** The first address past the last page. */
  ghost function HeapEnd(pages: Pages, ps: seq<Word>): nat
    requires PagesPresent(pages, ps)
  {
    if ps == [] then HEAP_START else ps[|ps| - 1] + pages[ps[|ps| - 1]].size
  }

  /** The page list as its walks need it: linked in this order, nothing said of where pages lie. */
  ghost predicate PageLinks(head: Word, pages: Pages, ps: seq<Word>) {
    head == (if ps == [] then 0 else ps[0]) && forall i | 0 <= i < |ps| :: NextOk(pages, ps, i)
  }

  ghost predicate NextOk(pages: Pages, ps: seq<Word>, i: nat)
    requires i < |ps|
  {
    && ps[i] != 0 && ps[i] in pages && pages[ps[i]].usedSize <= pages[ps[i]].size
    && pages[ps[i]].next == if i + 1 < |ps| then ps[i + 1] else 0
  }

  /** Some page does not end within 4 GiB. */
  ghost predicate TooFar(pages: Pages) {
    exists p | p in pages :: p + pages[p].size > 0x1_0000_0000
  }

  /** The free list: linked in this order, without repetition. */
  ghost predicate FreeChain(head: Word, blocks: Blocks, fs: seq<Word>) {
    && head == (if fs == [] then 0 else fs[0])
    && (forall i | 0 <= i < |fs| :: LinkOk(blocks, fs, i))
    && (forall i, j | 0 <= i < j < |fs| :: fs[i] != fs[j])
  }

  ghost predicate LinkOk(blocks: Blocks, fs: seq<Word>, i: nat)
    requires i < |fs|
  {
    fs[i] != 0 && fs[i] in blocks && blocks[fs[i]].next == (if i + 1 < |fs| then fs[i + 1] else 0)
  }

  /** [from, to) is exactly the concatenation of the blocks at hs, header and payload. */
  ghost predicate Tiled(blocks: Blocks, hs: seq<Word>, from: nat, to: nat) {
    if hs == [] then from == to else
      var h := hs[|hs| - 1];
      h in blocks && h + 12 + blocks[h].actualSize == to && Tiled(blocks, hs[..|hs| - 1], from, h)
  }

  /** layout: the tiles of each page in address order; home: the page of each block. */
  ghost predicate LayoutOk(pages: Pages, blocks: Blocks, layout: map<Word, seq<Word>>, home: map<Word, Word>) {
    layout.Keys == pages.Keys && TilesOk(pages, blocks, layout) && HomesOk(blocks, layout, home)
  }

  ghost predicate TilesOk(pages: Pages, blocks: Blocks, layout: map<Word, seq<Word>>) {
    forall p | p in pages && p in layout :: Tiled(blocks, layout[p], p + 16, p + pages[p].usedSize)
  }

  ghost predicate HomesOk(blocks: Blocks, layout: map<Word, seq<Word>>, home: map<Word, Word>) {
    forall h | h in blocks :: h in home && home[h] in layout && h in layout[home[h]]
  }

  /** Every block is live or on the free list, never both; a live block holds what was asked for. */
  ghost predicate Partitioned(blocks: Blocks, live: set<Word>, fs: seq<Word>) {
    && (forall h :: h in blocks <==> h in live || h in fs)
    && (forall h | h in live :: h !in fs)
    && (forall h | h in live :: 1 <= blocks[h].size <= blocks[h].actualSize)
  }

  /** The ghost side of a heap: pages and free blocks in list order, tiles by page, live blocks. */
  datatype Shape = Shape(pages: seq<Word>, frees: seq<Word>, layout: map<Word, seq<Word>>, home: map<Word, Word>,
                         live: set<Word>)

  ghost predicate HeapOk(pageList: Word, freeList: Word, pages: Pages, blocks: Blocks, s: Shape) {
    && PageChain(pageList, pages, s.pages)
    && FreeChain(freeList, blocks, s.frees)
    && LayoutOk(pages, blocks, s.layout, s.home)
    && Partitioned(blocks, s.live, s.frees)
  }

  /** The address behind the last page, modulo 2^32, is that of no page yet. */
  ghost predicate Placeable(pages: Pages, s: Shape) {
    && PagesPresent(pages, s.pages)
    && Wrap(HeapEnd(pages, s.pages)) !in pages && Wrap(HeapEnd(pages, s.pages)) !in s.layout
  }

  // ---- pages ----------------------------------------------------------------------------------

  lemma {:induction false} PagesIncrease(head: Word, pages: Pages, ps: seq<Word>, i: nat, j: nat)
    requires PageChain(head, pages, ps) && i < j < |ps|
    ensures ps[i] + pages[ps[i]].size <= ps[j]
    decreases j
  {
    assert PageOk(pages, ps, j - 1);
    if i == j - 1 {
    } else {
      PagesIncrease(head, pages, ps, i, j - 1);
    }
  }

  lemma PagesDisjoint(head: Word, pages: Pages, ps: seq<Word>, p: Word, q: Word)
    requires PageChain(head, pages, ps) && p in pages && q in pages && p != q
    ensures p + pages[p].size <= q || q + pages[q].size <= p
  {
    var i :| 0 <= i < |ps| && ps[i] == p;
    var j :| 0 <= j < |ps| && ps[j] == q;
    if i < j { PagesIncrease(head, pages, ps, i, j); } else { PagesIncrease(head, pages, ps, j, i); }
  }

  lemma ChainLinks(head: Word, pages: Pages, ps: seq<Word>)
    requires PageChain(head, pages, ps)
    ensures PageLinks(head, pages, ps) && PagesPresent(pages, ps)
  {
    forall i | 0 <= i < |ps| ensures NextOk(pages, ps, i) {
      assert PageOk(pages, ps, i);
      if i + 1 < |ps| { assert PageOk(pages, ps, i + 1); }
    }
  }

  lemma LinksHead(head: Word, pages: Pages, ps: seq<Word>)
    requires PageLinks(head, pages, ps)
    ensures head == 0 <==> ps == []
  {
    if ps != [] { assert NextOk(pages, ps, 0); }
  }

  /** A page is the last one exactly when its link is null. */
  lemma LinksEnd(head: Word, pages: Pages, ps: seq<Word>, i: nat)
    requires PageLinks(head, pages, ps) && i < |ps|
    ensures ps[i] in pages && (pages[ps[i]].next == 0 <==> i + 1 == |ps|)
  {
    assert NextOk(pages, ps, i);
    if i + 1 < |ps| { assert NextOk(pages, ps, i + 1); }
  }

  /** A page past 4 GiB leaves no way to read the headers as a heap. */
  lemma NoHeap(pageList: Word, freeList: Word, pages: Pages, blocks: Blocks, s: Shape)
    requires TooFar(pages)
    ensures !HeapOk(pageList, freeList, pages, blocks, s)
  {
    if HeapOk(pageList, freeList, pages, blocks, s) {
      var p :| p in pages && p + pages[p].size > 0x1_0000_0000;
      var i := PageInChain(pageList, pages, s.pages, p);
    }
  }

  // ---- tiles ----------------------------------------------------------------------------------

  lemma {:induction false} TileExtent(blocks: Blocks, hs: seq<Word>, from: nat, to: nat, h: Word)
    requires Tiled(blocks, hs, from, to) && h in hs
    ensures h in blocks && from <= h && h + 12 + blocks[h].actualSize <= to
    decreases |hs|
  {
    var last := hs[|hs| - 1];
    TiledOrder(blocks, hs[..|hs| - 1], from, last);
    if h != last { TileExtent(blocks, hs[..|hs| - 1], from, last, h); }
  }

  lemma {:induction false} TiledOrder(blocks: Blocks, hs: seq<Word>, from: nat, to: nat)
    requires Tiled(blocks, hs, from, to)
    ensures from <= to
    decreases |hs|
  {
    if hs == [] {
    } else {
      TiledOrder(blocks, hs[..|hs| - 1], from, hs[|hs| - 1]);
    }
  }

  lemma {:induction false} TilesDisjoint(blocks: Blocks, hs: seq<Word>, from: nat, to: nat, g: Word, h: Word)
    requires Tiled(blocks, hs, from, to) && g in hs && h in hs && g != h
    ensures g in blocks && h in blocks
    ensures g + 12 + blocks[g].actualSize <= h || h + 12 + blocks[h].actualSize <= g
    decreases |hs|
  {
    var init, last := hs[..|hs| - 1], hs[|hs| - 1];
    if g == last {
      TileExtent(blocks, init, from, last, h);
    } else if h == last {
      TileExtent(blocks, init, from, last, g);
    } else {
      TilesDisjoint(blocks, init, from, last, g, h);
    }
  }

  /** Tiling depends on the sizes of the blocks alone. */
  lemma {:induction false} TiledAgain(blocks: Blocks, blocks': Blocks, hs: seq<Word>, from: nat, to: nat)
    requires Tiled(blocks, hs, from, to)
    requires forall h | h in blocks :: h in blocks' && blocks'[h].actualSize == blocks[h].actualSize
    ensures Tiled(blocks', hs, from, to)
    decreases |hs|
  {
    if hs == [] {
    } else {
      TiledAgain(blocks, blocks', hs[..|hs| - 1], from, hs[|hs| - 1]);
    }
  }

  lemma TileAppend(blocks: Blocks, hs: seq<Word>, from: nat, h: Word)
    requires Tiled(blocks, hs, from, h) && h in blocks
    ensures Tiled(blocks, hs + [h], from, h + 12 + blocks[h].actualSize)
  {
    assert (hs + [h])[..|hs|] == hs;
  }

  // ---- the theorem -------------------------------------------------------------------------------

  /** A block lies inside the used part of one page, past the page header. */
  ghost predicate InPage(pages: Pages, blocks: Blocks, h: Word, p: Word)
    requires h in blocks
  {
    p in pages && p + 16 <= h && h + 12 + blocks[h].actualSize <= p + pages[p].usedSize
  }

  lemma BlockInPage(pageList: Word, freeList: Word, pages: Pages, blocks: Blocks, s: Shape, h: Word) returns (p: Word)
    requires HeapOk(pageList, freeList, pages, blocks, s) && h in blocks
    ensures p in s.layout && h in s.layout[p] && InPage(pages, blocks, h, p)
  {
    hide PageChain, FreeChain, Partitioned, Tiled;
    p := s.home[h];
    TileExtent(blocks, s.layout[p], p + 16, p + pages[p].usedSize, h);
  }

  /**
   * Every block, header and payload, lies inside one page after its header, and no two blocks
   * overlap: in particular a payload meets no other payload and no header.
   */
  lemma BlocksDisjoint(pageList: Word, freeList: Word, pages: Pages, blocks: Blocks, s: Shape, g: Word, h: Word)
    requires HeapOk(pageList, freeList, pages, blocks, s) && g in blocks && h in blocks && g != h
    ensures g + 12 + blocks[g].actualSize <= h || h + 12 + blocks[h].actualSize <= g
    ensures exists p :: InPage(pages, blocks, g, p)
  {
    var p := BlockInPage(pageList, freeList, pages, blocks, s, g);
    var q := BlockInPage(pageList, freeList, pages, blocks, s, h);
    if p == q {
      TilesDisjoint(blocks, s.layout[p], p + 16, p + pages[p].usedSize, g, h);
    } else {
      PagesDisjoint(pageList, pages, s.pages, p, q);
      var i := PageInChain(pageList, pages, s.pages, p);
      var j := PageInChain(pageList, pages, s.pages, q);
    }
  }

  lemma PageInChain(head: Word, pages: Pages, ps: seq<Word>, p: Word) returns (i: nat)
    requires PageChain(head, pages, ps) && p in pages
    ensures i < |ps| && ps[i] == p && PageOk(pages, ps, i)
  {
    i :| i < |ps| && ps[i] == p;
  }
}
