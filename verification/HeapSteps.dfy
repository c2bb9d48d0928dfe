// What each heap operation does to the shape of the heap.
module HeapSteps {
  import opened Bits
  import opened HeapLayout

  /** Same blocks, same sizes of payload areas; only links and requested sizes may differ. */
  ghost predicate SameTiles(blocks: Blocks, blocks': Blocks) {
    (forall h :: h in blocks <==> h in blocks')
    && forall h | h in blocks :: blocks'[h].actualSize == blocks[h].actualSize
  }

  lemma LayoutAgain(pages: Pages, blocks: Blocks, blocks': Blocks, layout: map<Word, seq<Word>>, home: map<Word, Word>)
    requires LayoutOk(pages, blocks, layout, home) && SameTiles(blocks, blocks')
    ensures LayoutOk(pages, blocks', layout, home)
  {
    HomesAgain(blocks, blocks', layout, home);
    forall p | p in pages && p in layout ensures Tiled(blocks', layout[p], p + 16, p + pages[p].usedSize) {
      TiledAgain(blocks, blocks', layout[p], p + 16, p + pages[p].usedSize);
    }
    hide Tiled, HomesOk;
  }

  lemma HomesAgain(blocks: Blocks, blocks': Blocks, layout: map<Word, seq<Word>>, home: map<Word, Word>)
    requires HomesOk(blocks, layout, home) && forall h | h in blocks' :: h in blocks
    ensures HomesOk(blocks', layout, home)
  {
  }

  // ---- the free list --------------------------------------------------------------------------

  function WithNext(blocks: Blocks, h: Word, next: Word): Blocks
    requires h in blocks
  {
    blocks[h := blocks[h].(next := next)]
  }

  lemma RemoveFirst(head: Word, blocks: Blocks, fs: seq<Word>)
    requires FreeChain(head, blocks, fs) && fs != [] && LinkOk(blocks, fs, 0)
    ensures FreeChain(blocks[fs[0]].next, blocks, fs[1..])
  {
    var gs := fs[1..];
    forall i | 0 <= i < |gs| ensures LinkOk(blocks, gs, i) {
      assert LinkOk(blocks, fs, i + 1);
    }
  }

  ghost function Without(fs: seq<Word>, k: nat): seq<Word>
    requires k < |fs|
  {
    fs[..k] + fs[k + 1..]
  }

  lemma RemoveLater(head: Word, blocks: Blocks, fs: seq<Word>, k: nat)
    requires FreeChain(head, blocks, fs) && 0 < k < |fs| && LinkOk(blocks, fs, k) && LinkOk(blocks, fs, k - 1)
    ensures FreeChain(head, WithNext(blocks, fs[k - 1], blocks[fs[k]].next), Without(fs, k))
  {
    var blocks' := WithNext(blocks, fs[k - 1], blocks[fs[k]].next);
    var gs := Without(fs, k);
    forall i | 0 <= i < |gs|
      ensures gs[i] == (if i < k then fs[i] else fs[i + 1])
    {
    }
    forall i | 0 <= i < |gs| ensures LinkOk(blocks', gs, i) {
      var j := if i < k then i else i + 1;
      assert LinkOk(blocks, fs, j);
      assert j != k - 1 ==> fs[j] != fs[k - 1];
    }
  }

  lemma Push(head: Word, blocks: Blocks, fs: seq<Word>, h: Word)
    requires FreeChain(head, blocks, fs) && h in blocks && h !in fs && h != 0
    ensures FreeChain(h, WithNext(blocks, h, head), [h] + fs)
  {
    var gs := [h] + fs;
    var b := WithNext(blocks, h, head);
    forall i | 0 <= i < |gs| ensures LinkOk(b, gs, i) {
      if i > 0 { assert LinkOk(blocks, fs, i - 1); }
    }
  }

  /** Members of the free list keep their links. */
  lemma ChainAgain(head: Word, blocks: Blocks, blocks': Blocks, fs: seq<Word>)
    requires FreeChain(head, blocks, fs)
    requires forall h | h in fs :: h in blocks' && (h in blocks ==> blocks'[h].next == blocks[h].next)
    ensures FreeChain(head, blocks', fs)
  {
    forall i | 0 <= i < |fs| ensures LinkOk(blocks', fs, i) {
      assert LinkOk(blocks, fs, i);
    }
  }

  lemma ChainInBlocks(head: Word, blocks: Blocks, fs: seq<Word>)
    requires FreeChain(head, blocks, fs)
    ensures forall h | h in fs :: h in blocks && h != 0
  {
    forall i | 0 <= i < |fs| ensures fs[i] in blocks && fs[i] != 0 {
      assert LinkOk(blocks, fs, i);
    }
  }

  lemma LastLink(head: Word, blocks: Blocks, fs: seq<Word>, i: nat)
    requires FreeChain(head, blocks, fs) && i < |fs|
    ensures fs[i] in blocks && (blocks[fs[i]].next == 0 <==> i + 1 == |fs|)
  {
    assert LinkOk(blocks, fs, i);
    if i + 1 < |fs| { assert LinkOk(blocks, fs, i + 1); }
  }

  ghost predicate SameSizes(blocks: Blocks, blocks': Blocks) {
    SameTiles(blocks, blocks') && forall h | h in blocks :: blocks'[h].size == blocks[h].size
  }

  /** find_free_blk accepts the first block when it is strictly larger, a later one when large enough. */
  ghost predicate Suits(blocks: Blocks, fs: seq<Word>, i: nat, size: Word) {
    && i < |fs| && fs[i] in blocks
    && (if i == 0 then blocks[fs[0]].actualSize > size else blocks[fs[i]].actualSize >= size)
  }

  /** Block k is the first suitable one. */
  ghost predicate FirstSuited(blocks: Blocks, fs: seq<Word>, k: nat, size: Word) {
    Suits(blocks, fs, k, size) && forall i | 0 <= i < k :: !Suits(blocks, fs, i, size)
  }

  ghost predicate NoneSuits(blocks: Blocks, fs: seq<Word>, size: Word) {
    forall i | 0 <= i < |fs| :: !Suits(blocks, fs, i, size)
  }

  lemma SuitsOne(blocks: Blocks, fs: seq<Word>, k: nat, size: Word)
    requires FirstSuited(blocks, fs, k, size)
    ensures fs != [] && !NoneSuits(blocks, fs, size)
  {
  }

  /** The shapes the operations leave behind. */
  ghost function Freed(s: Shape, h: Word): Shape {
    s.(frees := [h] + s.frees, live := s.live - {h})
  }

  ghost function Reused(s: Shape, k: nat, h: Word): Shape {
    if k < |s.frees| then s.(frees := Without(s.frees, k), live := s.live + {h}) else s
  }

  ghost function Carved(s: Shape, p: Word, h: Word): Shape {
    if p in s.layout then
      s.(layout := s.layout[p := s.layout[p] + [h]], home := s.home[h := p], live := s.live + {h})
    else
      s
  }

  ghost function PageAdded(s: Shape, e: Word): Shape {
    s.(pages := s.pages + [e], layout := s.layout[e := []])
  }

  // ---- operations -----------------------------------------------------------------------------

  /** malloc from the free list: block k of the list leaves it and holds n bytes. */
  lemma ReuseKeepsHeap(pageList: Word, head: Word, head': Word, pages: Pages, blocks: Blocks, blocks': Blocks, s: Shape,
                       k: nat, h: Word, n: Word)
    requires HeapOk(pageList, head, pages, blocks, s) && k < |s.frees|
    requires SameSizes(blocks, blocks') && FreeChain(head', blocks', Without(s.frees, k))
    requires h == s.frees[k] && h in blocks && 1 <= n <= blocks[h].actualSize
    ensures HeapOk(pageList, head', pages, blocks'[h := blocks'[h].(size := n)],
                   Reused(s, k, h))
  {
    var b := blocks'[h := blocks'[h].(size := n)];
    WithSize(blocks, blocks', h, n);
    ChainInBlocks(head, blocks, s.frees);
    ChainInBlocks(head', blocks', Without(s.frees, k));
    RequestedKept(blocks, blocks', b, s.live, s.frees, h);
    hide PageChain, FreeChain, LayoutOk, Partitioned, Without, SameTiles;
    WithoutMembers(head, blocks, s.frees, k);
    ChainAgain(head', blocks', b, Without(s.frees, k));
    LayoutAgain(pages, blocks, b, s.layout, s.home);
    ReusePartition(blocks, b, s.live, s.frees, Without(s.frees, k), h);
  }

  lemma WithSize(blocks: Blocks, blocks': Blocks, h: Word, n: Word)
    requires SameTiles(blocks, blocks') && h in blocks
    ensures h in blocks' && SameTiles(blocks, blocks'[h := blocks'[h].(size := n)])
  {
  }

  lemma RequestedKept(blocks: Blocks, blocks': Blocks, b: Blocks, live: set<Word>, fs: seq<Word>, h: Word)
    requires Partitioned(blocks, live, fs) && h in fs && SameTiles(blocks, blocks') && SameTiles(blocks, b)
    requires forall x | x in live :: blocks'[x].size == blocks[x].size
    requires forall x | x in blocks' && x != h :: b[x] == blocks'[x]
    ensures forall x | x in live :: x in b && b[x].size == blocks[x].size
  {
  }

  lemma WithoutMembers(head: Word, blocks: Blocks, fs: seq<Word>, k: nat)
    requires FreeChain(head, blocks, fs) && k < |fs|
    ensures fs[k] !in Without(fs, k)
    ensures forall x :: x in fs <==> x in Without(fs, k) || x == fs[k]
  {
    var gs := Without(fs, k);
    forall x ensures x in fs <==> x in gs || x == fs[k] {
      if x in fs && x != fs[k] {
        var i :| 0 <= i < |fs| && fs[i] == x;
        assert gs[if i < k then i else i - 1] == x;
      }
    }
  }

  lemma ReusePartition(blocks: Blocks, b: Blocks, live: set<Word>, fs: seq<Word>, gs: seq<Word>, h: Word)
    requires Partitioned(blocks, live, fs) && SameTiles(blocks, b)
    requires h in b && h in fs && h !in gs && forall x :: x in fs <==> x in gs || x == h
    requires forall x | x in live :: b[x].size == blocks[x].size
    requires 1 <= b[h].size <= b[h].actualSize
    ensures Partitioned(b, live + {h}, gs)
  {
  }

  /** free: the block goes to the front of the list. */
  lemma FreeKeepsHeap(pageList: Word, head: Word, pages: Pages, blocks: Blocks, s: Shape, h: Word)
    requires HeapOk(pageList, head, pages, blocks, s) && h in s.live && h in blocks
    ensures HeapOk(pageList, h, pages, WithNext(blocks, h, head), Freed(s, h))
  {
    LiveBlock(blocks, s.live, s.frees, h);
    WithNextSame(blocks, h, head);
    hide PageChain, FreeChain, LayoutOk, Partitioned, SameTiles, SameSizes, WithNext;
    var b := WithNext(blocks, h, head);
    BlockNotNull(pageList, head, pages, blocks, s, h);
    Push(head, blocks, s.frees, h);
    LayoutAgain(pages, blocks, b, s.layout, s.home);
    FreePartition(blocks, b, s.live, s.frees, h);
  }

  lemma LiveBlock(blocks: Blocks, live: set<Word>, fs: seq<Word>, h: Word)
    requires Partitioned(blocks, live, fs) && h in live
    ensures h in blocks && h !in fs
  {
  }

  lemma WithNextSame(blocks: Blocks, h: Word, next: Word)
    requires h in blocks
    ensures SameTiles(blocks, WithNext(blocks, h, next)) && SameSizes(blocks, WithNext(blocks, h, next))
  {
  }

  lemma BlockNotNull(pageList: Word, head: Word, pages: Pages, blocks: Blocks, s: Shape, h: Word)
    requires HeapOk(pageList, head, pages, blocks, s) && h in blocks
    ensures HEAP_START + 16 <= h && h + 12 + blocks[h].actualSize <= 0x1_0000_0000
  {
    var p := BlockInPage(pageList, head, pages, blocks, s, h);
    var i := PageInChain(pageList, pages, s.pages, p);
  }

  lemma FreePartition(blocks: Blocks, b: Blocks, live: set<Word>, fs: seq<Word>, h: Word)
    requires Partitioned(blocks, live, fs) && SameSizes(blocks, b) && h in live
    ensures Partitioned(b, live - {h}, [h] + fs)
  {
  }

  /** malloc at the end of a page: the new block starts where the used part ended. */
  lemma CarveKeepsHeap(pageList: Word, head: Word, pages: Pages, blocks: Blocks, s: Shape, p: Word, h: Word, used: Word,
                       n: Word, a: Word)
    requires HeapOk(pageList, head, pages, blocks, s) && p in pages && p in s.layout
    requires h == p + pages[p].usedSize && used == pages[p].usedSize + 12 + a
    requires 1 <= n <= a && used <= pages[p].size
    ensures h !in blocks
    ensures HeapOk(pageList, head, pages[p := pages[p].(usedSize := used)], blocks[h := BlkHeader(0, n, a)],
                   Carved(s, p, h))
  {
    CarveIsFresh(pageList, head, pages, blocks, s, p, h);
    var b := blocks[h := BlkHeader(0, n, a)];
    CarveLayout(pages, blocks, s.layout, s.home, p, h, used, n, a);
    ChainKept(head, blocks, s.frees, h, BlkHeader(0, n, a));
    var i := PageInChain(pageList, pages, s.pages, p);
    CarvePages(pageList, pages, s.pages, p, used);
    CarvePartition(blocks, s.live, s.frees, h, BlkHeader(0, n, a));
    hide PageChain, FreeChain, LayoutOk, Partitioned, PageOk;
  }

  lemma CarveIsFresh(pageList: Word, head: Word, pages: Pages, blocks: Blocks, s: Shape, p: Word, h: Word)
    requires HeapOk(pageList, head, pages, blocks, s) && p in pages && pages[p].usedSize < pages[p].size
    requires h == p + pages[p].usedSize
    ensures h !in blocks
  {
    if h in blocks {
      var q := BlockInPage(pageList, head, pages, blocks, s, h);
      var i := PageInChain(pageList, pages, s.pages, q);
      if q != p { PagesDisjoint(pageList, pages, s.pages, p, q); }
      assert false;
    }
  }

  lemma ChainKept(head: Word, blocks: Blocks, fs: seq<Word>, h: Word, b: BlkHeader)
    requires FreeChain(head, blocks, fs) && h !in blocks
    ensures FreeChain(head, blocks[h := b], fs)
  {
    var blocks' := blocks[h := b];
    forall i | 0 <= i < |fs| ensures LinkOk(blocks', fs, i) {
      assert LinkOk(blocks, fs, i);
    }
  }

  lemma CarvePartition(blocks: Blocks, live: set<Word>, fs: seq<Word>, h: Word, b: BlkHeader)
    requires Partitioned(blocks, live, fs) && h !in blocks && 1 <= b.size <= b.actualSize
    ensures Partitioned(blocks[h := b], live + {h}, fs)
  {
  }

  lemma CarvePages(head: Word, pages: Pages, ps: seq<Word>, p: Word, used: Word)
    requires PageChain(head, pages, ps) && p in pages && 16 <= used <= pages[p].size
    ensures PageChain(head, pages[p := pages[p].(usedSize := used)], ps)
  {
    var pages' := pages[p := pages[p].(usedSize := used)];
    forall i | 0 <= i < |ps| ensures PageOk(pages', ps, i) {
      assert PageOk(pages, ps, i);
    }
  }

  lemma CarveLayout(pages: Pages, blocks: Blocks, layout: map<Word, seq<Word>>, home: map<Word, Word>, p: Word, h: Word,
                    used: Word, n: Word, a: Word)
    requires LayoutOk(pages, blocks, layout, home) && p in pages
    requires h == p + pages[p].usedSize && used == pages[p].usedSize + 12 + a && h !in blocks
    ensures LayoutOk(pages[p := pages[p].(usedSize := used)], blocks[h := BlkHeader(0, n, a)],
                     layout[p := layout[p] + [h]], home[h := p])
  {
    CarveTiles(pages, blocks, layout, p, h, used, n, a);
    CarveHomes(blocks, layout, home, p, h, n, a);
    hide TilesOk, HomesOk;
  }

  lemma CarveTiles(pages: Pages, blocks: Blocks, layout: map<Word, seq<Word>>, p: Word, h: Word, used: Word, n: Word,
                   a: Word)
    requires TilesOk(pages, blocks, layout) && p in pages && p in layout
    requires h == p + pages[p].usedSize && used == pages[p].usedSize + 12 + a && h !in blocks
    ensures TilesOk(pages[p := pages[p].(usedSize := used)], blocks[h := BlkHeader(0, n, a)],
                    layout[p := layout[p] + [h]])
  {
    var b := blocks[h := BlkHeader(0, n, a)];
    forall q | q in pages && q in layout ensures Tiled(b, layout[q], q + 16, q + pages[q].usedSize) {
      TiledAgain(blocks, b, layout[q], q + 16, q + pages[q].usedSize);
    }
    TileAppend(b, layout[p], p + 16, h);
    hide Tiled;
  }

  lemma CarveHomes(blocks: Blocks, layout: map<Word, seq<Word>>, home: map<Word, Word>, p: Word, h: Word, n: Word,
                   a: Word)
    requires HomesOk(blocks, layout, home) && p in layout
    ensures HomesOk(blocks[h := BlkHeader(0, n, a)], layout[p := layout[p] + [h]], home[h := p])
  {
  }

  /** A further page right behind the last one, with nothing but its header in use. */
  ghost function WithPage(pages: Pages, ps: seq<Word>, e: Word, size: Word): Pages
    requires PagesPresent(pages, ps)
  {
    (if ps == [] then pages else pages[ps[|ps| - 1] := pages[ps[|ps| - 1]].(next := e)])[e := PageHeader(0, size, 16)]
  }

  /** The heap (pages', s') is (pages, s) with an empty page of this size appended at e. */
  ghost predicate Appended(pages: Pages, s: Shape, e: nat, size: Word, pages': Pages, s': Shape) {
    && 0 < size && e < 0x1_0000_0000 && e !in pages && e !in s.layout
    && PagesPresent(pages, s.pages)
    && pages' == WithPage(pages, s.pages, e, size)
    && s' == PageAdded(s, e)
  }

  lemma WithPageCases(pages: Pages, ps: seq<Word>, e: Word, size: Word)
    requires PagesPresent(pages, ps)
    ensures ps == [] ==> WithPage(pages, ps, e, size) == pages[e := PageHeader(0, size, 16)]
    ensures ps != [] ==>
      var last := ps[|ps| - 1];
      WithPage(pages, ps, e, size) == pages[last := pages[last].(next := e)][e := PageHeader(0, size, 16)]
  {
  }

  lemma EndOfAppended(pages: Pages, s: Shape, e: Word, size: Word)
    requires PagesPresent(pages, s.pages)
    ensures PagesPresent(WithPage(pages, s.pages, e, size), s.pages + [e])
    ensures HeapEnd(WithPage(pages, s.pages, e, size), s.pages + [e]) == e + size
  {
  }

  lemma ChainMembers(head: Word, pages: Pages, ps: seq<Word>)
    requires PageChain(head, pages, ps)
    ensures PagesPresent(pages, ps)
    ensures HEAP_START <= HeapEnd(pages, ps) <= 0x1_0000_0000 && HeapEnd(pages, ps) % 4096 == 0
  {
    if ps != [] {
      EndAligned(head, pages, ps, |ps| - 1);
      assert PageOk(pages, ps, |ps| - 1);
    }
  }

  lemma {:induction false} EndAligned(head: Word, pages: Pages, ps: seq<Word>, i: nat)
    requires PageChain(head, pages, ps) && i < |ps|
    ensures ps[i] % 4096 == 0
  {
    if i == 0 {
    } else {
      EndAligned(head, pages, ps, i - 1);
      assert PageOk(pages, ps, i - 1);
    }
  }

  lemma HeapExtent(pageList: Word, head: Word, pages: Pages, blocks: Blocks, s: Shape)
    requires HeapOk(pageList, head, pages, blocks, s)
    ensures PagesPresent(pages, s.pages)
    ensures 0xF000_0000 <= HeapEnd(pages, s.pages) <= 0x1_0000_0000 && HeapEnd(pages, s.pages) % 4096 == 0
    ensures pageList == 0 <==> s.pages == []
  {
    ChainMembers(pageList, pages, s.pages);
    ChainLinks(pageList, pages, s.pages);
    LinksHead(pageList, pages, s.pages);
  }

  /** A page appended inside the window gives a heap. */
  lemma AppendedHeap(pageList: Word, head: Word, pages: Pages, blocks: Blocks, s: Shape, e: Word, size: Word,
                     pages': Pages, s': Shape)
    requires HeapOk(pageList, head, pages, blocks, s) && PagesPresent(pages, s.pages) && e == HeapEnd(pages, s.pages)
    requires size % 4096 == 0 && e + size <= 0x1_0000_0000 && Appended(pages, s, e, size, pages', s')
    ensures HeapOk(if pageList == 0 then e else pageList, head, pages', blocks, s')
    ensures PagesPresent(pages', s'.pages) && HeapEnd(pages', s'.pages) == e + size
  {
    HeapExtent(pageList, head, pages, blocks, s);
    AddPageKeepsHeap(pageList, head, pages, blocks, s, e, size);
    EndOfAppended(pages, s, e, size);
    hide HeapOk, WithPage, HeapEnd, PagesPresent;
  }

  /** Behind a heap there is always a place for a page, be it address 0. */
  lemma HeapPlaceable(pageList: Word, head: Word, pages: Pages, blocks: Blocks, s: Shape)
    requires HeapOk(pageList, head, pages, blocks, s)
    ensures PageLinks(pageList, pages, s.pages) && Placeable(pages, s)
  {
    var ps := s.pages;
    ChainLinks(pageList, pages, ps);
    ChainMembers(pageList, pages, ps);
    assert s.layout.Keys == pages.Keys;
    hide LayoutOk, FreeChain, Partitioned;
    forall i | 0 <= i < |ps| ensures HEAP_START <= ps[i] < HeapEnd(pages, ps) {
      assert PageOk(pages, ps, i);
      if i < |ps| - 1 { PagesIncrease(pageList, pages, ps, i, |ps| - 1); assert PageOk(pages, ps, |ps| - 1); }
    }
  }

  /** Without pages there are no blocks either. */
  lemma NoPages(pageList: Word, head: Word, pages: Pages, blocks: Blocks, s: Shape)
    requires HeapOk(pageList, head, pages, blocks, s) && s.pages == []
    ensures pages == map[] && s.layout == map[] && s.frees == []
  {
    FirstFree(head, blocks, s.frees);
    assert pages.Keys == {};
    NoBlocks(blocks, s.layout, s.home);
    hide LayoutOk, FreeChain, Partitioned;
  }

  lemma FirstFree(head: Word, blocks: Blocks, fs: seq<Word>)
    requires FreeChain(head, blocks, fs)
    ensures fs == [] || fs[0] in blocks
  {
    ChainInBlocks(head, blocks, fs);
  }

  lemma NoBlocks(blocks: Blocks, layout: map<Word, seq<Word>>, home: map<Word, Word>)
    requires HomesOk(blocks, layout, home) && layout == map[]
    ensures forall h: Word :: h !in blocks
  {
  }

  /** Walking the list still works with a page appended anywhere. */
  lemma LinksAppended(head: Word, pages: Pages, ps: seq<Word>, e: Word, size: Word)
    requires PageLinks(head, pages, ps) && PagesPresent(pages, ps) && e != 0 && e !in pages && 16 <= size
    ensures PageLinks(if ps == [] then e else head, WithPage(pages, ps, e, size), ps + [e])
  {
    var qs, pages' := ps + [e], WithPage(pages, ps, e, size);
    forall i | 0 <= i < |qs| ensures NextOk(pages', qs, i) {
      if i < |ps| {
        assert NextOk(pages, ps, i) && NextOk(pages, ps, |ps| - 1);
        if i + 1 < |ps| { assert NextOk(pages, ps, i + 1); }
      }
    }
  }

  /** An appended page past 4 GiB is one; nothing that happens later brings it back. */
  lemma AppendedTooFar(pages: Pages, s: Shape, e: nat, size: Word, pages': Pages, s': Shape)
    requires Appended(pages, s, e, size, pages', s')
    ensures e + size > 0x1_0000_0000 || TooFar(pages) ==> TooFar(pages')
  {
    if e + size > 0x1_0000_0000 {
      assert e in pages';
    } else if TooFar(pages) {
      var p :| p in pages && p + pages[p].size > 0x1_0000_0000;
      assert p in pages' && pages'[p].size == pages[p].size;
    }
  }

  lemma UsedTooFar(pages: Pages, p: Word, used: Word)
    requires TooFar(pages) && p in pages
    ensures TooFar(pages[p := pages[p].(usedSize := used)])
  {
    var q :| q in pages && q + pages[q].size > 0x1_0000_0000;
    assert q in pages[p := pages[p].(usedSize := used)];
  }

  lemma AddPageKeepsHeap(pageList: Word, head: Word, pages: Pages, blocks: Blocks, s: Shape, e: Word, size: Word)
    requires HeapOk(pageList, head, pages, blocks, s)
    requires PagesPresent(pages, s.pages) && e == HeapEnd(pages, s.pages)
    requires 0 < size && size % 4096 == 0 && e + size <= 0x1_0000_0000
    ensures e !in pages
    ensures HeapOk(if s.pages == [] then e else pageList, head, WithPage(pages, s.pages, e, size), blocks,
                   PageAdded(s, e))
  {
    AddPageChain(pageList, pages, s.pages, e, size);
    AddPageLayout(pages, blocks, s.layout, s.home, s.pages, e, size);
  }

  lemma AddPageChain(pageList: Word, pages: Pages, ps: seq<Word>, e: Word, size: Word)
    requires PageChain(pageList, pages, ps)
    requires PagesPresent(pages, ps) && e == HeapEnd(pages, ps)
    requires 0 < size && size % 4096 == 0 && e + size <= 0x1_0000_0000
    ensures e !in pages
    ensures PageChain(if ps == [] then e else pageList, WithPage(pages, ps, e, size), ps + [e])
  {
    var qs := ps + [e];
    var pages' := WithPage(pages, ps, e, size);
    forall i | 0 <= i < |ps| ensures ps[i] < e {
      assert PageOk(pages, ps, i);
      if i < |ps| - 1 { PagesIncrease(pageList, pages, ps, i, |ps| - 1); }
    }
    forall i | 0 <= i < |qs| ensures PageOk(pages', qs, i) {
      if i < |ps| {
        assert PageOk(pages, ps, i);
        if i < |ps| - 1 { PagesIncrease(pageList, pages, ps, i, |ps| - 1); assert PageOk(pages, ps, |ps| - 1); }
      }
    }
  }

  lemma AddPageLayout(pages: Pages, blocks: Blocks, layout: map<Word, seq<Word>>, home: map<Word, Word>, ps: seq<Word>,
                      e: Word, size: Word)
    requires LayoutOk(pages, blocks, layout, home) && e !in pages
    requires PagesPresent(pages, ps)
    ensures LayoutOk(WithPage(pages, ps, e, size), blocks, layout[e := []], home)
  {
    NewHome(blocks, layout, home, e);
    NewTiles(pages, WithPage(pages, ps, e, size), blocks, layout, e);
    hide TilesOk, HomesOk;
  }

  lemma NewTiles(pages: Pages, pages': Pages, blocks: Blocks, layout: map<Word, seq<Word>>, e: Word)
    requires TilesOk(pages, blocks, layout) && layout.Keys == pages.Keys && e !in pages
    requires forall q | q in pages' && q != e :: q in pages && pages'[q].usedSize == pages[q].usedSize
    requires e in pages' && pages'[e].usedSize == 16
    ensures TilesOk(pages', blocks, layout[e := []])
  {
    assert Tiled(blocks, [], e + 16, e + 16);
    hide Tiled;
  }

  lemma NewHome(blocks: Blocks, layout: map<Word, seq<Word>>, home: map<Word, Word>, e: Word)
    requires HomesOk(blocks, layout, home) && e !in layout
    ensures HomesOk(blocks, layout[e := []], home)
  {
  }

  // ---- what malloc promises ----------------------------------------------------------------------

  /** h is a new live block of n bytes; every block that was live keeps its place and sizes. */
  ghost predicate NewLive(blocks: Blocks, s: Shape, blocks': Blocks, s': Shape, h: Word, n: Word) {
    && h !in s.live && s'.live == s.live + {h} && s'.pages == s.pages
    && h in blocks' && blocks'[h].size == n && n <= blocks'[h].actualSize
    && forall x | x in s.live ::
       x in blocks && x in blocks' && blocks'[x].size == blocks[x].size && blocks'[x].actualSize == blocks[x].actualSize
  }

  /** The new block is the first suitable one of the free list. */
  ghost predicate TookFree(blocks: Blocks, s: Shape, s': Shape, h: Word, size: Word) {
    exists k: nat :: FirstSuited(blocks, s.frees, k, size) && h == s.frees[k] && s' == Reused(s, k, h)
  }

  /** The new block was carved from a page, since no free one was suitable. */
  ghost predicate TookPage(blocks: Blocks, s: Shape, s': Shape, h: Word, size: Word) {
    NoneSuits(blocks, s.frees, size) && exists p :: p in s.layout && s' == Carved(s, p, h)
  }

  /** mid is s with further empty pages; the blocks are the same. */
  ghost predicate GrownFrom(s: Shape, mid: Shape) {
    && s.pages <= mid.pages && mid.frees == s.frees && mid.live == s.live && mid.home == s.home
    && (forall p | p in s.layout :: p in mid.layout)
    && (forall p | p in mid.layout :: mid.layout[p] == if p in s.layout then s.layout[p] else [])
  }

  /** What malloc(n) leaves behind: nothing but new pages, or one new live block in (blocks, mid). */
  ghost predicate Outcome(blocks: Blocks, s: Shape, mid: Shape, blocks': Blocks, s': Shape, p: Word, n: Word, a: Word) {
    && GrownFrom(s, mid)
    && if p == 0 then blocks' == blocks && s' == mid else
         && p >= 12
         && NewLive(blocks, mid, blocks', s', p - 12, n)
         && (TookFree(blocks, mid, s', p - 12, a) || TookPage(blocks, mid, s', p - 12, a))
  }

  // ---- what malloc writes into the headers ---------------------------------------------------------

  /** How much of a page was used before; of one that was not there yet, its header. */
  ghost function UsedBefore(before: Pages, p: Word): nat {
    if p in before then before[p].usedSize else 16
  }

  /** No page has another size than before, and none but p another part in use. */
  ghost predicate UsedBut(before: Pages, pages: Pages, p: int) {
    && (forall q | q in before :: q in pages && pages[q].size == before[q].size)
    && (forall q | q in pages && q != p :: pages[q].usedSize == UsedBefore(before, q))
  }

  /** A block of size bytes behind the used part of page p; nothing else has changed. */
  ghost predicate TookRoom(before: Pages, b0: Blocks, pages: Pages, blocks: Blocks, p: Word, h: Word, n: Word,
                           size: Word) {
    && p in before && h == p + before[p].usedSize && blocks == b0[h := BlkHeader(0, n, size)]
    && (forall q :: q in pages <==> q in before)
    && (forall q | q in before :: pages[q].size == before[q].size && pages[q].next == before[q].next)
    && (forall q | q in before && q != p :: pages[q].usedSize == before[q].usedSize)
    && pages[p].usedSize == before[p].usedSize + 12 + size
  }

  /** The i-th page of the list is the first with room for size bytes and a header, and the block goes there. */
  ghost predicate CarvedAt(before: Pages, b0: Blocks, pages: Pages, blocks: Blocks, ps: seq<Word>, i: nat, h: Word,
                           n: Word, size: Word) {
    && i < |ps| && ps[i] in pages
    && h == ps[i] + UsedBefore(before, ps[i]) && blocks == b0[h := BlkHeader(0, n, size)]
    && pages[ps[i]].usedSize == UsedBefore(before, ps[i]) + 12 + size <= pages[ps[i]].size
    && UsedBut(before, pages, ps[i])
    && forall j | 0 <= j < i :: ps[j] in pages && pages[ps[j]].size < UsedBefore(before, ps[j]) + 12 + size
  }

  /** Of the first m free blocks the first is not larger than size, and the others are smaller. */
  ghost predicate NoneFits(blocks: Blocks, fs: seq<Word>, m: nat, size: Word) {
    forall i | 0 <= i < m && i < |fs| ::
      fs[i] in blocks && if i == 0 then blocks[fs[i]].actualSize <= size else blocks[fs[i]].actualSize < size
  }

  /** The k-th free block is the first that fits, and only the size asked of it has changed. */
  ghost predicate ReusedAt(before: Pages, b0: Blocks, fs: seq<Word>, pages: Pages, blocks: Blocks, k: nat, h: Word,
                           n: Word, size: Word) {
    && k < |fs| && h == fs[k] && h in b0 && NoneFits(b0, fs, k, size)
    && (if k == 0 then size < b0[h].actualSize else size <= b0[h].actualSize)
    && pages == before && (forall x :: x in blocks <==> x in b0)
    && forall x | x in b0 ::
         blocks[x].actualSize == b0[x].actualSize && blocks[x].size == if x == h then n else b0[x].size
  }

  ghost predicate FirstReused(before: Pages, b0: Blocks, fs: seq<Word>, pages: Pages, blocks: Blocks, h: Word,
                              n: Word, size: Word) {
    exists k: nat :: ReusedAt(before, b0, fs, pages, blocks, k, h, n, size)
  }

  ghost predicate FirstCarved(before: Pages, b0: Blocks, pages: Pages, blocks: Blocks, ps: seq<Word>, h: Word,
                              n: Word, size: Word) {
    exists i: nat :: CarvedAt(before, b0, pages, blocks, ps, i, h, n, size)
  }

  /** The headers after malloc(n) has answered p, with size bytes to be found for the payload. */
  ghost predicate Headers(before: Pages, b0: Blocks, fs: seq<Word>, pages: Pages, blocks: Blocks, ps: seq<Word>,
                          p: nat, n: Word, size: Word) {
    if p == 0 then
      NoneFits(b0, fs, |fs|, size) && blocks == b0 && UsedBut(before, pages, -1)
    else
      && 12 <= p < 0x1_0000_0000
      && (FirstReused(before, b0, fs, pages, blocks, p - 12, n, size)
          || (NoneFits(b0, fs, |fs|, size) && FirstCarved(before, b0, pages, blocks, ps, p - 12, n, size)))
  }

  lemma UsedSame(pages: Pages)
    ensures UsedBut(pages, pages, -1)
  {
  }

  lemma UsedAppended(before: Pages, s: Shape, e: nat, size: Word, pages: Pages, s': Shape)
    requires Appended(before, s, e, size, pages, s')
    ensures UsedBut(before, pages, -1)
  {
  }

  lemma FitsNone(head: Word, blocks: Blocks, fs: seq<Word>, size: Word)
    requires FreeChain(head, blocks, fs) && NoneSuits(blocks, fs, size)
    ensures NoneFits(blocks, fs, |fs|, size)
  {
    ChainInBlocks(head, blocks, fs);
    forall i | 0 <= i < |fs|
      ensures fs[i] in blocks && if i == 0 then blocks[fs[i]].actualSize <= size else blocks[fs[i]].actualSize < size
    {
      assert !Suits(blocks, fs, i, size);
    }
  }

  lemma ReusedHeaders(head: Word, pages: Pages, b: Blocks, b': Blocks, fs: seq<Word>, ps: seq<Word>, k: nat, h: Word,
                      n: Word, size: Word)
    requires FreeChain(head, b, fs) && FirstSuited(b, fs, k, size) && h == fs[k] && SameSizes(b, b')
    requires h in b' && h + 12 < 0x1_0000_0000
    ensures Headers(pages, b, fs, pages, b'[h := b'[h].(size := n)], ps, h + 12, n, size)
  {
    ChainInBlocks(head, b, fs);
    forall i | 0 <= i < k
      ensures fs[i] in b && if i == 0 then b[fs[i]].actualSize <= size else b[fs[i]].actualSize < size
    {
      assert !Suits(b, fs, i, size);
    }
    hide FreeChain;
    assert ReusedAt(pages, b, fs, pages, b'[h := b'[h].(size := n)], k, h, n, size);
  }

  /** No page in front of the i-th had room. */
  ghost predicate FullTo(before: Pages, ps: seq<Word>, i: nat, size: Word) {
    forall j | 0 <= j < i && j < |ps| :: ps[j] in before && before[ps[j]].size < before[ps[j]].usedSize + 12 + size
  }

  lemma CarvedHeaders(before: Pages, mid: Pages, b0: Blocks, fs: seq<Word>, pages: Pages, blocks: Blocks,
                      ps: seq<Word>, i: nat, h: Word, n: Word, size: Word)
    requires NoneFits(b0, fs, |fs|, size) && UsedBut(before, mid, -1) && i < |ps| && FullTo(before, ps, i, size)
    requires ps[i] in mid && mid[ps[i]].usedSize + 12 + size <= mid[ps[i]].size
    requires TookRoom(mid, b0, pages, blocks, ps[i], h, n, size)
    requires h + 12 < 0x1_0000_0000
    ensures Headers(before, b0, fs, pages, blocks, ps, h + 12, n, size)
  {
    hide NoneFits;
    assert CarvedAt(before, b0, pages, blocks, ps, i, h, n, size);
  }

  lemma RefusedHeaders(before: Pages, b0: Blocks, fs: seq<Word>, pages: Pages, ps: seq<Word>, n: Word, size: Word)
    requires NoneFits(b0, fs, |fs|, size) && UsedBut(before, pages, -1)
    ensures Headers(before, b0, fs, pages, b0, ps, 0, n, size)
  {
  }

  /** A page that was appended first makes no difference. */
  lemma HeadersGrown(before: Pages, mid: Pages, b0: Blocks, pages: Pages, blocks: Blocks, ps: seq<Word>, p: nat,
                     n: Word, size: Word)
    requires UsedBut(before, mid, -1) && Headers(mid, b0, [], pages, blocks, ps, p, n, size)
    ensures Headers(before, b0, [], pages, blocks, ps, p, n, size)
  {
    UsedTwice(before, mid, pages, -1);
    if p != 0 { CarvedGrown(before, mid, b0, pages, blocks, ps, p - 12, n, size); }
  }

  lemma CarvedGrown(before: Pages, mid: Pages, b0: Blocks, pages: Pages, blocks: Blocks, ps: seq<Word>, h: Word,
                    n: Word, size: Word)
    requires UsedBut(before, mid, -1) && FirstCarved(mid, b0, pages, blocks, ps, h, n, size)
    ensures FirstCarved(before, b0, pages, blocks, ps, h, n, size)
  {
    var i: nat :| CarvedAt(mid, b0, pages, blocks, ps, i, h, n, size);
    UsedTwice(before, mid, pages, ps[i]);
    hide UsedBut, UsedBefore;
    assert CarvedAt(before, b0, pages, blocks, ps, i, h, n, size);
  }

  lemma UsedTwice(before: Pages, mid: Pages, pages: Pages, p: int)
    requires UsedBut(before, mid, -1)
    ensures forall q: Word | q in mid :: UsedBefore(mid, q) == UsedBefore(before, q)
    ensures forall q: Word | q !in mid :: q !in before && UsedBefore(mid, q) == UsedBefore(before, q)
    ensures UsedBut(mid, pages, p) ==> UsedBut(before, pages, p)
  {
  }

  lemma GrownNone(s: Shape)
    ensures GrownFrom(s, s)
  {
  }

  lemma GrownByPage(pages: Pages, s: Shape, e: nat, size: Word, pages': Pages, s': Shape)
    requires Appended(pages, s, e, size, pages', s')
    ensures GrownFrom(s, s') && s'.frees == s.frees && 0 < size
    ensures e in pages' && pages'[e] == PageHeader(0, size, 16)
    ensures s.pages != [] ==> s.pages[|s.pages| - 1] in pages' && pages'[s.pages[|s.pages| - 1]].next == e
  {
    hide PageChain;
    if s.pages != [] { assert s.pages[|s.pages| - 1] in pages; }
  }

  lemma OutcomeGrown(blocks: Blocks, s0: Shape, s: Shape, mid: Shape, blocks': Blocks, s': Shape, p: Word, n: Word,
                     a: Word)
    requires GrownFrom(s0, s) && Outcome(blocks, s, mid, blocks', s', p, n, a)
    ensures Outcome(blocks, s0, mid, blocks', s', p, n, a)
  {
    hide NewLive, TookFree, TookPage;
  }

  /** The payload at h + 12 has n bytes inside the used part of one page. */
  ghost predicate GoodBlock(pages: Pages, blocks: Blocks, h: Word, n: Word) {
    h in blocks && n <= blocks[h].actualSize && exists p :: InPage(pages, blocks, h, p)
  }

  lemma ReuseIsNew(blocks: Blocks, blocks': Blocks, s: Shape, k: nat, h: Word, n: Word)
    requires Partitioned(blocks, s.live, s.frees) && SameSizes(blocks, blocks')
    requires k < |s.frees| && h == s.frees[k] && h in blocks && n <= blocks[h].actualSize
    ensures NewLive(blocks, s, blocks'[h := blocks'[h].(size := n)], Reused(s, k, h), h, n)
  {
    assert h in s.frees;
  }

  lemma CarveIsNew(blocks: Blocks, s: Shape, p: Word, h: Word, n: Word, a: Word)
    requires Partitioned(blocks, s.live, s.frees) && h !in blocks && n <= a && p in s.layout
    ensures NewLive(blocks, s, blocks[h := BlkHeader(0, n, a)], Carved(s, p, h), h, n)
  {
  }

  lemma ReuseFacts(pageList: Word, head: Word, head': Word, pages: Pages, b: Blocks, b': Blocks, s: Shape, k: nat,
                   h: Word, n: Word, a: Word)
    requires HeapOk(pageList, head, pages, b, s) && 1 <= n
    requires FirstSuited(b, s.frees, k, a) && h == s.frees[k] && FreeChain(head', b', Without(s.frees, k))
      && SameSizes(b, b')
    ensures h in b'
    ensures h + 12 + b'[h].actualSize <= 0x1_0000_0000 && 0xF000_0010 <= h
    ensures Reused(s, k, h).pages == s.pages
    ensures n <= a ==>
      && h + 12 < 0x1_0000_0000
      && HeapOk(pageList, head', pages, b'[h := b'[h].(size := n)], Reused(s, k, h))
      && NewLive(b, s, b'[h := b'[h].(size := n)], Reused(s, k, h), h, n)
      && TookFree(b, s, Reused(s, k, h), h, a)
  {
    BlockNotNull(pageList, head, pages, b, s, h);
    if n <= a {
      ReuseKeepsHeap(pageList, head, head', pages, b, b', s, k, h, n);
      ReuseIsNew(b, b', s, k, h, n);
      hide NewLive, HeapOk;
    }
  }

  /** The block after the used part of page p lies in memory, and no block starts there yet. */
  lemma CarveRoom(pageList: Word, head: Word, pages: Pages, blocks: Blocks, s: Shape, p: Word, a: Word)
    requires HeapOk(pageList, head, pages, blocks, s) && p in pages
    requires pages[p].usedSize + 12 + a <= pages[p].size
    ensures 0xF000_0010 <= p + pages[p].usedSize && p + pages[p].usedSize + 12 + a <= 0x1_0000_0000
    ensures pages[p].usedSize + 12 + a < 0x1_0000_0000
    ensures p in s.layout && Partitioned(blocks, s.live, s.frees)
  {
    var i := PageInChain(pageList, pages, s.pages, p);
    hide FreeChain, Partitioned, TilesOk, HomesOk;
  }

  lemma CarveFacts(pageList: Word, head: Word, pages: Pages, blocks: Blocks, s: Shape, p: Word, h: Word, used: Word,
                   n: Word, a: Word)
    requires HeapOk(pageList, head, pages, blocks, s) && p in pages
    requires 1 <= n <= a && used <= pages[p].size
    requires h == p + pages[p].usedSize && used == pages[p].usedSize + 12 + a
    ensures HeapOk(pageList, head, pages[p := pages[p].(usedSize := used)], blocks[h := BlkHeader(0, n, a)],
                   Carved(s, p, h))
    ensures NewLive(blocks, s, blocks[h := BlkHeader(0, n, a)], Carved(s, p, h), h, n)
    ensures Carved(s, p, h).pages == s.pages
    ensures NoneSuits(blocks, s.frees, a) ==> TookPage(blocks, s, Carved(s, p, h), h, a)
  {
    hide HeapOk, Partitioned, NewLive, PageOk, NoneSuits;
    CarveRoom(pageList, head, pages, blocks, s, p, a);
    CarveKeepsHeap(pageList, head, pages, blocks, s, p, h, used, n, a);
    CarveIsNew(blocks, s, p, h, n, a);
  }

  /** Changing how much of a page is used does not move the end of the heap. */
  lemma EndKept(pages: Pages, ps: seq<Word>, p: Word, used: Word)
    requires PagesPresent(pages, ps) && p in pages
    ensures PagesPresent(pages[p := pages[p].(usedSize := used)], ps)
    ensures HeapEnd(pages[p := pages[p].(usedSize := used)], ps) == HeapEnd(pages, ps)
  {
  }

  /** A block of a wrapped size is never inside a page, or smaller than the request. */
  lemma WrappedBlock(pageList: Word, head: Word, pages: Pages, blocks: Blocks, s: Shape, p: Word, n: Word, a: Word)
    requires HeapOk(pageList, head, pages, blocks, s) && p in pages && pages[p].usedSize < pages[p].size
    requires n > 0xFFFF_FFE0 && (a == 0 || a == 0xFFFF_FFF0)
    ensures 0xF000_0010 <= p + pages[p].usedSize && p + pages[p].size <= 0x1_0000_0000
    ensures var h, used := p + pages[p].usedSize, (pages[p].usedSize + 12 + a) % 0x1_0000_0000;
      !GoodBlock(pages[p := pages[p].(usedSize := used)], blocks[h := BlkHeader(0, n, a)], h, n)
  {
    var i := PageInChain(pageList, pages, s.pages, p);
    var h: Word, used: Word := p + pages[p].usedSize, (pages[p].usedSize + 12 + a) % 0x1_0000_0000;
    if a == 0xFFFF_FFF0 {
      UsedWraps(pages[p].usedSize);
      var pages' := pages[p := pages[p].(usedSize := used)];
      forall q | q in pages' ensures q + pages'[q].usedSize <= 0x1_0000_0000 {
        var j := PageInChain(pageList, pages, s.pages, q);
      }
      hide HeapOk, GoodBlock, PageOk;
      TooLong(pages', blocks[h := BlkHeader(0, n, a)], h, n);
    }
  }

  lemma UsedWraps(used: Word)
    requires used >= 16
    ensures (used + 12 + 0xFFFF_FFF0) % 0x1_0000_0000 == used - 4
  {
    assert used + 12 + 0xFFFF_FFF0 == 0x1_0000_0000 + (used - 4);
  }

  lemma TooLong(pages: Pages, blocks: Blocks, h: Word, n: Word)
    requires h in blocks && h >= 0xF000_0010 && blocks[h].actualSize == 0xFFFF_FFF0
    requires forall q | q in pages :: q + pages[q].usedSize <= 0x1_0000_0000
    ensures !GoodBlock(pages, blocks, h, n)
  {
  }

  lemma SmallBlock(pages: Pages, blocks: Blocks, h: Word, n: Word)
    requires h in blocks && h + 12 + blocks[h].actualSize <= 0x1_0000_0000 && 0xF000_0010 <= h && n > 0xFFFF_FFE0
    ensures !GoodBlock(pages, blocks, h, n)
  {
  }
}
