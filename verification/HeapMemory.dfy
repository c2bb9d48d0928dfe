// The heap in memory: words of heap pages are reached through the translation, and a store into
// the payload of a block reaches no header and no table.
module HeapMemory {
  import opened Bits
  import opened FrameOwnership
  import opened HeapBacking
  import opened HeapLayout
  import opened PageEntry
  import opened PagingMemory
  import H = Heap
  import P = PagingSpec
  import VM = AddressSpace

  /** The word of memory that the word at virtual address x is. */
  ghost function Cell(pages: map<nat, nat>, x: nat): nat
    requires x / 4096 in pages
  {
    1024 * pages[x / 4096] + x % 4096 / 4
  }

  /** The words of two pages on frames of data runs are the same word only at the same address. */
  lemma CellsApart(v: P.View, end: nat, x: nat, y: nat)
    requires Backed(v, end) && 0xF000_0000 <= x < end && 0xF000_0000 <= y < end && x % 4 == 0 && y % 4 == 0 && x != y
    ensures x / 4096 in v.pages && y / 4096 in v.pages && Cell(v.pages, x) != Cell(v.pages, y)
  {
    assert BackedPage(v, x / 4096) && BackedPage(v, y / 4096);
    if x / 4096 < y / 4096 {
      assert Apart(v, x / 4096, y / 4096);
    } else if y / 4096 < x / 4096 {
      assert Apart(v, y / 4096, x / 4096);
    }
    hide BackedPage, Apart;
    Digits(x);
    Digits(y);
  }

  lemma Digits(x: nat)
    requires x % 4 == 0
    ensures x == 4096 * (x / 4096) + 4 * (x % 4096 / 4) && x % 4096 / 4 < 1024
  {
  }

  /** The frame of a heap page: of a data run, and in memory. */
  lemma HeapFrame(space: VM.Space, end: nat, x: nat) returns (s: nat)
    requires space.Valid() && Backed(space.View(), end) && 0xF000_0000 <= x < end
    ensures var v := space.View();
      && x / 4096 in v.pages && P.DataRun(v, s) && v.pages[x / 4096] in Run(s, v.frames.live[s])
      && 1024 * (v.pages[x / 4096] + 1) <= space.mem.Length
  {
    var v := space.View();
    assert BackedPage(v, x / 4096);
    s :| P.DataRun(v, s) && v.pages[x / 4096] in Run(s, v.frames.live[s]);
    hide Structured, P.VInv;
  }

  lemma SpaceParts(space: VM.Space)
    requires space.Valid()
    ensures var m, v := space.mem[..], space.View();
      P.VInv(v) && Structured(m, v.dir) && v.tables == TablesOf(m, v.dir) && v.pages == PagesOf(m, v.dir)
  {
    hide Structured, P.VInv, TablesOf, PagesOf;
  }

  /** A store to one word of the heap changes no table, no translation and no other word of the heap. */
  ghost predicate StoresAlone(m: seq<Word>, v: P.View, x: nat, y: nat, w: Word) {
    && x / 4096 in v.pages && y / 4096 in v.pages && Cell(v.pages, x) < |m| && Cell(v.pages, y) < |m|
    && var n := m[Cell(v.pages, x) := w];
      && Structured(n, v.dir) && TablesOf(n, v.dir) == v.tables && PagesOf(n, v.dir) == v.pages
      && n[Cell(v.pages, y)] == m[Cell(v.pages, y)]
  }

  lemma StoreInHeap(space: VM.Space, end: nat, x: nat, y: nat, w: Word)
    requires space.Valid() && Backed(space.View(), end)
    requires 0xF000_0000 <= x < end && 0xF000_0000 <= y < end && x % 4 == 0 && y % 4 == 0 && x != y
    ensures StoresAlone(space.mem[..], space.View(), x, y, w)
  {
    var m, v := space.mem[..], space.View();
    var s := HeapFrame(space, end, x);
    var t := HeapFrame(space, end, y);
    SpaceParts(space);
    CellsApart(v, end, x, y);
    CellBound(v.pages, x, |m|);
    CellBound(v.pages, y, |m|);
    var cx, cy := Cell(v.pages, x), Cell(v.pages, y);
    hide *;
    StoreToRun(m, v, s, x, w);
    OtherCell(m, cx, cy, w);
  }

  lemma CellBound(pages: map<nat, nat>, x: nat, words: nat)
    requires x / 4096 in pages && x % 4 == 0 && 1024 * (pages[x / 4096] + 1) <= words
    ensures Cell(pages, x) < words
  {
    Digits(x);
  }

  lemma OtherCell(m: seq<Word>, a: nat, b: nat, w: Word)
    requires a < |m| && b < |m| && a != b
    ensures m[a := w][b] == m[b]
  {
  }

  lemma StoreToRun(m: seq<Word>, v: P.View, s: nat, x: nat, w: Word)
    requires P.VInv(v) && Structured(m, v.dir) && v.tables == TablesOf(m, v.dir) && v.pages == PagesOf(m, v.dir)
    requires P.DataRun(v, s) && x / 4096 in v.pages && v.pages[x / 4096] in Run(s, v.frames.live[s])
    requires 1024 * (v.pages[x / 4096] + 1) <= |m| && x % 4 == 0 && Cell(v.pages, x) < |m|
    ensures Structured(m[Cell(v.pages, x) := w], v.dir)
    ensures TablesOf(m[Cell(v.pages, x) := w], v.dir) == v.tables && PagesOf(m[Cell(v.pages, x) := w], v.dir) == v.pages
  {
    var a, f := Cell(v.pages, x), v.pages[x / 4096];
    CellFrame(v.pages, x);
    hide *;
    VM.DataFrameOutside(m, v, s, f);
    StoreOutside(m, v.dir, a, w);
  }

  lemma CellFrame(pages: map<nat, nat>, x: nat)
    requires x / 4096 in pages && x % 4 == 0
    ensures Cell(pages, x) / ENTRIES == pages[x / 4096]
  {
    Digits(x);
  }

  // ---- payloads and headers --------------------------------------------------------------------

  /** A word of a page header or of the header of any block. */
  ghost predicate HeaderWord(pages: Pages, blocks: Blocks, y: nat) {
    || (exists p :: p in pages && p <= y && y + 4 <= p + 16)
    || (exists g :: g in blocks && g <= y && y + 4 <= g + 12)
  }

  /** A word of the payload of block h. */
  ghost predicate PayloadWord(blocks: Blocks, h: Word, x: nat) {
    h in blocks && h + 12 <= x && x + 4 <= h + 12 + blocks[h].actualSize
  }

  lemma {:induction false} PageBelowEnd(head: Word, pages: Pages, ps: seq<Word>, p: Word)
    requires PageChain(head, pages, ps) && p in pages && PagesPresent(pages, ps)
    ensures 0xF000_0000 <= p && p + pages[p].size <= HeapEnd(pages, ps) && 16 <= pages[p].usedSize <= pages[p].size
  {
    var i := PageInChain(head, pages, ps, p);
    if i + 1 < |ps| { PagesIncrease(head, pages, ps, i, |ps| - 1); }
    assert PageOk(pages, ps, |ps| - 1);
  }

  /** Payload words and header words are different words of the heap. */
  lemma PayloadNotHeader(pageList: Word, freeList: Word, pages: Pages, blocks: Blocks, s: Shape, h: Word, x: nat,
                         y: nat)
    requires HeapOk(pageList, freeList, pages, blocks, s) && PagesPresent(pages, s.pages)
    requires PayloadWord(blocks, h, x) && HeaderWord(pages, blocks, y)
    ensures x + 4 <= y || y + 4 <= x
    ensures 0xF000_0000 <= x < HeapEnd(pages, s.pages) && 0xF000_0000 <= y < HeapEnd(pages, s.pages)
  {
    var q := BlockInPage(pageList, freeList, pages, blocks, s, h);
    PageBelowEnd(pageList, pages, s.pages, q);
    if p :| p in pages && p <= y && y + 4 <= p + 16 {
      PageBelowEnd(pageList, pages, s.pages, p);
      if p != q { PagesDisjoint(pageList, pages, s.pages, p, q); }
    } else {
      var g :| g in blocks && g <= y && y + 4 <= g + 12;
      var r := BlockInPage(pageList, freeList, pages, blocks, s, g);
      PageBelowEnd(pageList, pages, s.pages, r);
      if g != h { BlocksDisjoint(pageList, freeList, pages, blocks, s, g, h); }
    }
  }

  /**
   * A store to any word of the payload of a block of a valid heap leaves every page header, every
   * block header, every page table and the whole translation as they are.
   */
  lemma PayloadStore(heap: H.Heap, h: Word, x: nat, y: nat, w: Word)
    requires heap.Valid() && PayloadWord(heap.blocks, h, x) && HeaderWord(heap.pages, heap.blocks, y) && x % 4 == 0
      && y % 4 == 0
    ensures StoresAlone(heap.vm.mem[..], heap.vm.View(), x, y, w)
  {
    hide *;
    heap.GrowFacts();
    PayloadNotHeader(heap.pageList, heap.freeList, heap.pages, heap.blocks, heap.shape, h, x, y);
    StoreInHeap(heap.vm, heap.End(), x, y, w);
  }
}
