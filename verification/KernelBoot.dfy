// init_virtual_memory_manager as a whole: its last line calls calloc, the heap's first malloc.
module KernelBoot {
  import opened Bits
  import opened FrameOwnership
  import opened HeapBacking
  import opened HeapLayout
  import opened HeapSteps
  import opened PagingBoot
  import H = Heap
  import I = PagingIdentity
  import P = PagingSpec
  import R = PagingRollback
  import VM = AddressSpace

  /** v with page 0xF0000 on a fresh frame, and that page's table on another. */
  ghost predicate WithHeapPage(v: P.View, w: P.View) {
    exists base, table ::
      && P.CanAlloc(v.frames, base, 1) && P.CanAlloc(P.AllocRun(v.frames, base, 1), table, 1)
      && w.frames == P.AllocRun(P.AllocRun(v.frames, base, 1), table, 1) && w.dir == v.dir
      && w.tables == v.tables[960 := table] && w.pages == v.pages[0xF_0000 := base]
  }

  lemma IndexTaken(v: P.View, news: seq<P.Install>, i: nat)
    requires P.CanInstallAll(v, news) && news != [] && forall t | t in news :: t.index == i
    ensures i in P.InstallAll(v, news).tables
  {
    assert news[|news| - 1] in news;
  }

  /** Tables that are all for one directory entry are one table. */
  lemma OneTable(v: P.View, news: seq<P.Install>, i: nat)
    requires P.CanInstallAll(v, news) && (forall t | t in news :: t.index == i)
    requires i !in v.tables && i in P.InstallAll(v, news).tables
    ensures |news| == 1 && P.CanAlloc(v.frames, news[0].frame, 1) && news[0].index == i
    ensures P.InstallAll(v, news) == P.InstallOne(v, news[0])
  {
    P.InstallNone(v);
    var init, last := news[..|news| - 1], news[|news| - 1];
    assert last in news;
    if init != [] { IndexTaken(v, init, i); }
  }

  lemma SomeNews(news: seq<P.Install>, page: nat)
    requires news != []
    ensures !P.NewsWithin(news, page, 0)
  {
    assert news[0] in news;
  }

  lemma HeapEntryNews(news: seq<P.Install>)
    requires P.NewsWithin(news, 0xF_0000, 1)
    ensures forall t | t in news :: t.index == 960
  {
    assert P.PageAt(0xF_0000, 0) == 0xF_0000;
    assert P.Range(0xF_0000, 0) == {} && P.Range(0xF_0000, 1) == {0xF_0000};
  }

  lemma HeapEntryMapped(v: P.View, e: P.Event)
    requires P.Legal(v, e) && e.NewPages? && e.page == 0xF_0000 && e.count == 1
    ensures var u, w := P.WithRun(v, e.base, 1), P.Apply(v, e);
      && P.CanAlloc(v.frames, e.base, 1) && P.CanInstallAll(u, e.news) && 960 in P.InstallAll(u, e.news).tables
      && w == P.InstallAll(u, e.news).(pages := v.pages[0xF_0000 := e.base])
      && u.frames == P.AllocRun(v.frames, e.base, 1) && u.tables == v.tables && u.dir == v.dir
  {
    assert P.PageAt(0xF_0000, 0) == 0xF_0000;
    assert 0xF_0000 in P.Range(0xF_0000, 1) && 0xF_0000 / 1024 == 960;
    assert P.MapRange(v.pages, 0xF_0000, e.base, 1) == v.pages[0xF_0000 := e.base];
    hide P.InstallAll, P.CanInstallAll, P.CanAlloc, P.AllocRun;
  }

  lemma FirstPageGranted(v: P.View, e: P.Event)
    requires P.VInv(v) && P.Legal(v, e) && e.NewPages? && e.page == 0xF_0000 && e.count == 1
    requires P.NewsWithin(e.news, 0xF_0000, 1) && 960 !in v.tables
    ensures WithHeapPage(v, P.Apply(v, e))
  {
    HeapEntryNews(e.news);
    HeapEntryMapped(v, e);
    hide P.InstallAll, P.CanInstallAll, P.VInv, P.Legal, P.Apply, P.NewsWithin, P.AllocRun, P.CanAlloc;
    OneTable(P.WithRun(v, e.base, 1), e.news, 960);
  }

  /** The first request of the heap, for one page: granted with a new table, or nothing happens. */
  lemma FirstHeapPage(v: P.View, e: P.Event, max: Word)
    requires P.VInv(v) && P.Legal(v, e) && R.Answers(v, e, max, 1) && Attempt(e, 0xF000_0000, 4096)
    requires 960 !in v.tables
    ensures if e.NewPages? then WithHeapPage(v, P.Apply(v, e)) else P.Apply(v, e) == v
  {
    assert Wrap(0xF000_0000) / 4096 == 0xF_0000;
    if e.NewPages? {
      FirstPageGranted(v, e);
    } else if e.NewPagesFailed? {
      P.FailedAllocation(v, e);
      if e.news != [] { SomeNews(e.news, e.page); }
      P.RangeStart(v.pages, e.page);
      P.InstallNone(v);
    } else {
      P.NoStep(v);
    }
    hide P.VInv, P.Legal, P.Apply, P.InstallAll, P.CanInstallAll, WithHeapPage;
  }

  // ---- calloc(12, 1) ------------------------------------------------------------------------------

  /** The request is for one page; when that is granted the block fits in. */
  lemma OneRequest(grown: seq<P.Event>, spent: bool)
    requires H.Asked(grown, true, 0xF000_0000, 16) && H.AskedWhen(grown, true, 16, spent)
    ensures |grown| == 1 && Attempt(grown[0], 0xF000_0000, 4096) && H.AllKept(grown)
    ensures H.Refused(grown) <==> !grown[0].NewPages?
  {
    assert H.Align(16, 4096) == 4096 && H.Align(Wrap(44), 4096) == 4096;
    H.AskedParts(grown, true, 0xF000_0000, 16);
    H.AllKeptExact(grown, true, 0xF000_0000, 16);
  }

  lemma RunsOnly(v: P.View, grown: seq<P.Event>, w: P.View)
    requires Runs(v, grown, w) && |grown| == 1
    ensures P.Legal(v, grown[0]) && w == P.Apply(v, grown[0])
  {
    assert grown[1..] == [];
    hide P.Legal, P.Apply;
    assert Runs(P.Apply(v, grown[0]), [], w);
  }

  /** What calloc(12, 1) makes of an empty heap in address space v: one block, or nothing. */
  ghost predicate FirstBlock(v: P.View, w: P.View, blocks: Blocks, shape: Shape, p: Word) {
    if p == 0 then
      w == v && blocks == map[]
    else
      WithHeapPage(v, w) && p >= 12 && shape.live == {p - 12} && p - 12 in blocks && blocks[p - 12].size == 12
  }

  lemma BlockMade(v: P.View, w: P.View, e: P.Event, max: Word, s: Shape, mid: Shape, blocks: Blocks, shape: Shape,
                  p: Word)
    requires P.VInv(v) && P.Legal(v, e) && R.Answers(v, e, max, 1) && Attempt(e, 0xF000_0000, 4096) && 960 !in v.tables
    requires w == P.Apply(v, e) && s.live == {}
    requires Outcome(map[], s, mid, blocks, shape, p, 12, 16) && (p == 0 <==> !e.NewPages?)
    ensures FirstBlock(v, w, blocks, shape, p)
  {
    FirstHeapPage(v, e, max);
    hide P.VInv, P.Legal, P.Apply, R.Answers, WithHeapPage, TookFree, TookPage, Attempt;
  }

  /** The one request this makes for pages, and whether it was granted. */
  ghost predicate FirstRequest(v: P.View, w: P.View, max: Word, e: P.Event, p: Word) {
    && P.VInv(v) && P.Legal(v, e) && R.Answers(v, e, max, 1) && Attempt(e, 0xF000_0000, 4096)
    && w == P.Apply(v, e) && (p == 0 <==> !e.NewPages?)
  }

  /** The heap then has one page, or none. */
  ghost predicate FirstHeap(shape: Shape, end: nat, p: Word) {
    && shape.frees == [] && shape.pages == (if p == 0 then [] else [0xF000_0000])
    && end == if p == 0 then 0xF000_0000 else 0xF000_1000
  }

  lemma FirstHeapNow(s: Shape, mid: Shape, blocks: Blocks, shape: Shape, end: nat, e: P.Event, p: Word)
    requires Outcome(map[], s, mid, blocks, shape, p, 12, 16) && s.frees == [] && s.pages == []
    requires Attempt(e, 0xF000_0000, 4096) && (p == 0 <==> !e.NewPages?)
    requires Grew(s.pages, 0xF000_0000, shape.pages, end, [e])
    ensures FirstHeap(shape, end, p)
  {
    GrewOne([], 0xF000_0000, e, 4096);
    assert Wrap(0xF000_0000) == 0xF000_0000;
    hide NewLive, Attempt;
  }

  lemma OneReply(v: P.View, grown: seq<P.Event>, max: Word)
    requires Replies(v, grown, max, [4096, 4096]) && |grown| == 1
    ensures P.Legal(v, grown[0]) && R.Answers(v, grown[0], max, 1)
  {
    hide P.Legal, P.Apply, R.Answers;
  }

  /** calloc(12, 1) on an empty heap, without what it stores in the block. */
  method FirstCalloc(heap: H.Heap) returns (p: Word, ghost e: P.Event)
    requires heap.Valid() && heap.pageList == 0 && heap.blocks == map[] && heap.shape.live == {}
    requires 960 !in heap.vm.View().tables
    modifies heap`pageList, heap`freeList, heap`pages, heap`blocks, heap`shape
    modifies heap.vm.mem, heap.vm.pmm`usedBlocks, heap.vm.pmm`live, heap.vm.pmm.memoryMap
    ensures heap.Valid() && FirstBlock(old(heap.vm.View()), heap.vm.View(), heap.blocks, heap.shape, p)
    ensures FirstRequest(old(heap.vm.View()), heap.vm.View(), heap.vm.pmm.maxBlocks, e, p)
    ensures FirstHeap(heap.shape, heap.End(), p)
  {
    var n: Word := 12;
    hide *;
    CallocSizes();
    heap.GrowFacts();
    ghost var v, end, s := heap.vm.View(), heap.End(), heap.shape;
    heap.EmptyFacts(heap.pageList, heap.pages, s, end);
    ghost var spent := NoneSuits(heap.blocks, s.frees, 16) && H.AllFull(heap.pages, s.pages, 16);
    ghost var grown, mid := [], s;
    p, grown, mid := heap.Malloc(n);
    OneRequest(grown, spent);
    e := grown[0];
    CallocDone(v, heap.vm.View(), grown, heap.vm.pmm.maxBlocks, s, mid, heap.blocks, heap.shape, heap.End(), p);
  }

  lemma CallocSizes()
    ensures H.Align(12, 16) == 16 && H.Sizes(true, 16) == [4096, 4096]
  {
  }

  lemma CallocDone(v: P.View, w: P.View, grown: seq<P.Event>, max: Word, s: Shape, mid: Shape,
                   blocks: Blocks, shape: Shape,
                   end: nat, p: Word)
    requires P.VInv(v) && Runs(v, grown, w) && Replies(v, grown, max, [4096, 4096]) && 960 !in v.tables && s.live == {}
    requires |grown| == 1 && Attempt(grown[0], 0xF000_0000, 4096) && (H.Refused(grown) <==> !grown[0].NewPages?)
    requires Outcome(map[], s, mid, blocks, shape, p, 12, 16) && (p == 0 <==> H.Refused(grown))
    requires s.frees == [] && s.pages == [] && Grew(s.pages, 0xF000_0000, shape.pages, end, grown)
    ensures FirstBlock(v, w, blocks, shape, p) && FirstRequest(v, w, max, grown[0], p) && FirstHeap(shape, end, p)
  {
    RequestMade(v, w, grown, max, p);
    hide *;
    RunsOnly(v, grown, w);
    OneReply(v, grown, max);
    BlockMade(v, w, grown[0], max, s, mid, blocks, shape, p);
    assert grown == [grown[0]];
    FirstHeapNow(s, mid, blocks, shape, end, grown[0], p);
  }

  lemma RequestMade(v: P.View, w: P.View, grown: seq<P.Event>, max: Word, p: Word)
    requires P.VInv(v) && Runs(v, grown, w) && Replies(v, grown, max, [4096, 4096])
    requires |grown| == 1 && Attempt(grown[0], 0xF000_0000, 4096) && (p == 0 <==> !grown[0].NewPages?)
    ensures FirstRequest(v, w, max, grown[0], p)
  {
    RunsOnly(v, grown, w);
    OneReply(v, grown, max);
    hide P.VInv, P.Legal, P.Apply, R.Answers, Runs, Replies, Attempt;
  }

  lemma WithHeapPageKeys(v: P.View, w: P.View)
    requires WithHeapPage(v, w) && v.tables.Keys == {0, 768}
    ensures w.tables.Keys == {0, 768, 960} && w.pages.Keys == v.pages.Keys + {0xF_0000}
    ensures forall q | q in v.pages && q != 0xF_0000 :: w.pages[q] == v.pages[q]
    ensures w.pages[0xF_0000] in v.frames.free
  {
    var base, table :| w.pages == v.pages[0xF_0000 := base] && w.tables == v.tables[960 := table]
      && P.CanAlloc(v.frames, base, 1);
    assert base in Run(base, 1);
  }

  /**
   * The state init_virtual_memory_manager returns 1 in, free being the blocks that were free
   * before: the boot pages, and beside them page 0xF0000 on a block that was free, with table 960
   * and a heap of one block; or the boot pages alone, and calloc has returned NULL.
   */
  ghost predicate Initialised(kernel: nat, free: set<nat>, w: P.View, blocks: Blocks, shape: Shape, p: Word) {
    if p == 0 then
      w.pages == BootPages(kernel) && w.tables.Keys == {0, 768} && blocks == map[]
    else
      && w.pages.Keys == BootPages(kernel).Keys + {0xF_0000} && w.tables.Keys == {0, 768, 960}
      && (forall q | q in BootPages(kernel) && q != 0xF_0000 :: w.pages[q] == BootPages(kernel)[q])
      && w.pages[0xF_0000] in free
      && p >= 12 && shape.live == {p - 12} && p - 12 in blocks && blocks[p - 12].size == 12
  }

  lemma InitialisedNow(f: Frames, d: nat, high: nat, low: nat, kernel: nat, w: P.View, blocks: Blocks, shape: Shape,
                       p: Word)
    requires FirstBlock(VM.BootedView(f, d, high, low, kernel), w, blocks, shape, p)
    ensures Initialised(kernel, f.free, w, blocks, shape, p)
  {
    var v := VM.BootedView(f, d, high, low, kernel);
    assert v.tables.Keys == {0, 768} && v.frames.free <= f.free;
    if p != 0 { WithHeapPageKeys(v, w); }
    hide BootPages, WithHeapPage;
  }

  lemma NoTable960(f: Frames, d: nat, high: nat, low: nat, kernel: nat)
    ensures 960 !in VM.BootedView(f, d, high, low, kernel).tables
  {
  }

  /** The directory and the tables lie in the first 4 MiB. */
  ghost predicate InFirstTable(w: P.View) {
    w.dir + 3 <= 1024 && forall i | i in w.tables :: w.tables[i] < 1024
  }

  lemma InitialisedReachable(f: Frames, d: nat, high: nat, low: nat, kernel: nat, w: P.View, blocks: Blocks,
                             shape: Shape, p: Word)
    requires FirstBlock(VM.BootedView(f, d, high, low, kernel), w, blocks, shape, p)
    requires w.dir + 3 <= 0x8_0000 && forall i | i in w.tables :: w.tables[i] < 0x8_0000
    ensures I.TablesReachable(w) <==> InFirstTable(w)
  {
    LowPagesMapped(f, d, high, low, kernel, w);
    hide FirstBlock, BootPages, WithHeapPage, VM.BootFrames;
    I.ReachableBelow(w, 1024, 0x8_0000);
  }

  lemma LowPagesMapped(f: Frames, d: nat, high: nat, low: nat, kernel: nat, w: P.View)
    requires var v := VM.BootedView(f, d, high, low, kernel); w == v || WithHeapPage(v, w)
    ensures forall p: nat | p < 0x8_0000 :: I.Itself(w, p) <==> p < 1024
  {
    hide VM.BootFrames;
  }

  /**
   * init_virtual_memory_manager, with the heap it has made, the block page_dir_vec points to, and
   * the one request for pages that took.
   */
  method InitVirtualMemoryManager(space: VM.Space, kernelAddress: Word)
    returns (ok: bool, heap: H.Heap?, pageDirVec: Word, ghost v: P.View, ghost e: P.Event)
    requires space.mem != space.pmm.memoryMap && space.pmm.Valid() && VM.InMemory(space.pmm.State(), space.mem.Length)
    requires kernelAddress % 4096 == 0 && kernelAddress + 0x40_0000 <= 0x8000_0000
    modifies space, space.mem, space.pmm`usedBlocks, space.pmm`live, space.pmm.memoryMap
    ensures !ok ==> space.currentPageDir == old(space.currentPageDir) && (space.pmm.Refuses(3) || space.pmm.Refuses(1))
    ensures !ok ==> exists d, high :: VM.BootRefused(old(space.pmm.State()), space.pmm.maxBlocks, d, high)
    ensures ok ==> heap != null && heap.vm == space && heap.Valid()
    ensures ok ==> Initialised(kernelAddress / 4096, old(space.pmm.State()).free, space.View(), heap.blocks, heap.shape,
                               pageDirVec)
    ensures ok ==> (I.TablesReachable(space.View()) <==> InFirstTable(space.View()))
    ensures ok ==> BootedFrom(old(space.pmm.State()), space.pmm.maxBlocks, kernelAddress / 4096, v)
    ensures ok ==> FirstRequest(v, space.View(), space.pmm.maxBlocks, e, pageDirVec)
    ensures ok ==> FirstHeap(heap.shape, heap.End(), pageDirVec)
  {
    hide *;
    ghost var f := space.pmm.State();
    e := P.Scan([]);
    var booted, d, high, low := space.BuildAddressSpace(kernelAddress);
    v := space.View();
    if !booted {
      return false, null, 0, v, e;
    }
    BootedNow(f, space.pmm.maxBlocks, d, high, low, kernelAddress / 4096);
    NoTable960(f, d, high, low, kernelAddress / 4096);
    EmptyBlocks();
    var kernelHeap := new H.Heap(space);
    pageDirVec, e := FirstCalloc(kernelHeap);
    InitialisedNow(f, d, high, low, kernelAddress / 4096, space.View(), kernelHeap.blocks, kernelHeap.shape,
                   pageDirVec);
    TablesInMemory(kernelHeap);
    InitialisedReachable(f, d, high, low, kernelAddress / 4096, space.View(), kernelHeap.blocks, kernelHeap.shape,
                         pageDirVec);
    return true, kernelHeap, pageDirVec, v, e;
  }

  /** The address space at the switch of the directory. */
  ghost predicate BootedFrom(f: Frames, max: Word, kernel: nat, v: P.View) {
    exists d, high, low :: VM.BootRuns(f, max, d, high, low) && v == VM.BootedView(f, d, high, low, kernel)
  }

  lemma BootedNow(f: Frames, max: Word, d: nat, high: nat, low: nat, kernel: nat)
    requires VM.BootRuns(f, max, d, high, low)
    ensures BootedFrom(f, max, kernel, VM.BootedView(f, d, high, low, kernel))
  {
    hide VM.BootRuns, VM.BootedView;
  }

  lemma TablesInMemory(heap: H.Heap)
    requires heap.Valid()
    ensures var w := heap.vm.View(); w.dir + 3 <= 0x8_0000 && forall i | i in w.tables :: w.tables[i] < 0x8_0000
  {
    hide HeapOk, Backed;
  }

  lemma EmptyBlocks()
    ensures H.EMPTY_SHAPE.live == {}
  {
  }
}
