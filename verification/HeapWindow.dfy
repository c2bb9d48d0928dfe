// A heap that fills its window to 4 GiB: the next pages it asks for are those at address 0.
module HeapWindow {
  import opened Bits
  import opened FrameOwnership
  import opened HeapBacking
  import opened HeapLayout
  import opened HeapSteps
  import opened TableSupply
  import H = Heap
  import I = PagingIdentity
  import K = KernelBoot
  import P = PagingSpec
  import R = PagingRollback

  // ---- pages granted at address 0 -----------------------------------------------------------------

  /** No frame below 32 is a table's. */
  lemma TablesFrom32(v: P.View, f: nat)
    requires P.VInv(v) && P.TableFrame(v, f)
    ensures 32 <= f
  {
  }

  /** Up to 32 pages at address 0, for which there is a run: they are granted, and no table is lost. */
  lemma ZeroGrant(v: P.View, e: P.Event, max: Word, n: nat, c: nat)
    requires P.VInv(v) && P.Legal(v, e) && R.Answers(v, e, max, n)
    requires 1 <= n <= 32 && Offers(v.frames, max, c, n) && 0 in v.tables && I.TablesReachable(v)
    requires e == P.Scan([]) || ((e.NewPages? || e.NewPagesFailed?) && e.page == 0)
    ensures e.NewPages? && e.count == n && I.TablesReachable(P.Apply(v, e))
    ensures forall j: nat | j < n :: j in P.Apply(v, e).pages && P.Apply(v, e).pages[j] == e.base + j
    ensures 32 <= e.base && Run(e.base, n) <= v.frames.free
  {
    ZeroGranted(v, e, max, n, c);
    forall j: nat | j < n ensures j in P.Apply(v, e).pages && P.Apply(v, e).pages[j] == e.base + j {
      P.PageAtPlain(0, j);
      P.SuccessfulAllocation(v, e, j);
    }
    hide P.VInv, P.Legal, P.Apply, R.Answers, P.TableFrame, I.NewTable, I.Displaces, I.Restores, I.Itself, Offers;
    forall f | P.TableFrame(v, f) || I.NewTable(e, f) ensures !I.Displaces(e, f) && !I.NewTable(e, f) {
      NoNewTable(e, f);
      if P.TableFrame(v, f) { TablesFrom32(v, f); }
      NotDisplaced(e, n, f);
    }
    I.ReachableExact(v, e);
  }

  /** Table 0 is there, so the call cannot fail, and adds no table. */
  lemma ZeroGranted(v: P.View, e: P.Event, max: Word, n: nat, c: nat)
    requires P.Legal(v, e) && R.Answers(v, e, max, n)
    requires 1 <= n <= 32 && Offers(v.frames, max, c, n) && 0 in v.tables
    requires e == P.Scan([]) || ((e.NewPages? || e.NewPagesFailed?) && e.page == 0)
    ensures e.NewPages? && e.count == n && e.news == [] && 32 <= e.base && Run(e.base, n) <= v.frames.free
  {
    NotBoth(v.frames, max, c, n);
    hide R.TakenInOrder, FirstOffer, NoOffer, Offers, P.InstallAll, P.CanInstallAll;
    if e.NewPagesFailed? {
      FailedAtZero(v, e, max, n);
    } else if e.NewPages? {
      GrantedParts(v, e, max, n);
      if e.news != [] { FirstNews(P.WithRun(v, e.base, n), e.news, n); }
    }
  }

  lemma FailedAtZero(v: P.View, e: P.Event, max: Word, n: nat)
    requires P.Legal(v, e) && R.Answers(v, e, max, n) && e.NewPagesFailed? && e.page == 0 && n <= 32
    ensures 0 !in v.tables
  {
    FailedParts(v, e, max, n);
    P.PageAtPlain(0, e.mapped);
    hide P.Legal, R.Answers, P.PageAt, R.TakenInOrder, NoOffer;
    P.InstallKeeps(P.WithRun(v, e.base, n), e.news);
  }

  lemma FirstNews(v: P.View, news: seq<P.Install>, n: nat)
    requires P.CanInstallAll(v, news) && news != [] && P.NewsWithin(news, 0, n) && n <= 32
    ensures 0 !in v.tables
  {
    NewsOfRange(news, 0, n, n);
    InstalledIndices(v, news);
    LastInstall(v, news);
    assert news[|news| - 1] in news && news[|news| - 1].index in Indices(news);
  }

  lemma NoNewTable(e: P.Event, f: nat)
    requires e.NewPages? && e.news == []
    ensures !I.NewTable(e, f)
  {
  }

  lemma NotDisplaced(e: P.Event, n: nat, f: nat)
    requires e.NewPages? && e.page == 0 && e.count == n <= 32 && 32 <= f
    ensures !I.Displaces(e, f)
  {
    if f in P.Range(0, n) {
      var j := I.RangeIndex(0, n, f);
      P.PageAtPlain(0, j);
    }
  }

  // ---- malloc behind the window ---------------------------------------------------------------------

  /** How many bytes of pages malloc(n) asks for when it has no block and no room. */
  function PageBytes(n: Word): Word {
    H.Align(Wrap(H.Align(n, 16) as int + 28), 4096)
  }

  /** Neither the free list nor a page has room for n bytes. */
  ghost predicate Spent(pages: Pages, blocks: Blocks, s: Shape, n: Word) {
    NoneSuits(blocks, s.frees, H.Align(n, 16)) && H.AllFull(pages, s.pages, H.Align(n, 16))
  }

  /** A heap that is spent makes one request for pages, behind its end. */
  lemma OneMoreRequest(v: P.View, grown: seq<P.Event>, w: P.View, max: Word, n: Word, end: nat)
    requires H.AskedWhen(grown, false, H.Align(n, 16), true) && H.Asked(grown, false, end, H.Align(n, 16))
    requires Replies(v, grown, max, H.Sizes(false, H.Align(n, 16))) && Runs(v, grown, w)
    ensures |grown| == 1 && P.Legal(v, grown[0]) && w == P.Apply(v, grown[0])
    ensures R.Answers(v, grown[0], max, PageBytes(n) / 4096)
    ensures Attempt(grown[0], end, PageBytes(n))
    ensures grown[0] == P.Scan([])
      || ((grown[0].NewPages? || grown[0].NewPagesFailed?) && grown[0].page == Wrap(end) / 4096)
  {
    H.AskedParts(grown, false, end, H.Align(n, 16));
    H.SizesAre(H.Align(n, 16));
    hide P.Legal, P.Apply, R.Answers, H.Align;
    assert grown == [grown[0]];
    K.RunsOnly(v, grown, w);
  }

  /** malloc(n) on a heap that is spent: the one request it makes, and what comes of it. */
  method MallocSpent(heap: H.Heap, n: Word) returns (p: Word, ghost e: P.Event, ghost mid: Shape)
    requires heap.Valid() && heap.shape.pages != [] && 1 <= n <= 0xFFFF_FFE0
    requires Spent(heap.pages, heap.blocks, heap.shape, n)
    modifies heap`pageList, heap`freeList, heap`pages, heap`blocks, heap`shape
    modifies heap.vm.mem, heap.vm.pmm`usedBlocks, heap.vm.pmm`live, heap.vm.pmm.memoryMap
    ensures P.Legal(old(heap.vm.View()), e) && heap.vm.View() == P.Apply(old(heap.vm.View()), e)
    ensures R.Answers(old(heap.vm.View()), e, heap.vm.pmm.maxBlocks, PageBytes(n) / 4096)
    ensures Attempt(e, old(heap.End()), PageBytes(n))
    ensures e == P.Scan([]) || ((e.NewPages? || e.NewPagesFailed?) && e.page == Wrap(old(heap.End())) / 4096)
    ensures heap.Settled(old(heap.blocks), old(heap.shape), mid, p, n, H.Align(n, 16), [e])
    ensures H.AllKept([e]) ==>
      && heap.Valid() && Outcome(old(heap.blocks), old(heap.shape), mid, heap.blocks, heap.shape, p, n, H.Align(n, 16))
      && (p == 0 <==> H.Refused([e]))
      && Grew(old(heap.shape.pages), old(heap.End()), heap.shape.pages, heap.End(), [e])
  {
    hide *;
    heap.GrowFacts();
    heap.EndFacts();
    ghost var v, max := heap.vm.View(), heap.vm.pmm.maxBlocks;
    SpentParts(heap.pages, heap.blocks, heap.shape, n);
    ghost var grown, end := [], heap.End();
    p, grown, mid := heap.Malloc(n);
    OneMoreRequest(v, grown, heap.vm.View(), max, n, end);
    e := grown[0];
    assert grown == [e];
  }

  lemma WindowEnd()
    ensures Wrap(0x1_0000_0000) / 4096 == 0
  {
  }

  lemma ZeroNotKept(e: P.Event)
    requires e.NewPages? && e.page == 0
    ensures !H.AllKept([e]) && H.AtZero([e])
  {
    H.KeptOne(e);
  }

  /**
   * malloc(n) on a heap that has filled its window and has neither a block nor room for n bytes.
   * As long as it needs at most 32 pages and there is a run for them, they are granted at address
   * 0, which malloc takes for a refusal: it returns NULL, and page 0 and those behind it have
   * moved onto the run.  The tables stay where the code reaches them.
   */
  method MallocAtEnd(heap: H.Heap, n: Word, ghost c: nat) returns (p: Word, ghost e: P.Event)
    requires heap.Valid() && heap.shape.pages != [] && heap.End() == 0x1_0000_0000
    requires 1 <= n <= 0xFFFF_FFE0 && Spent(heap.pages, heap.blocks, heap.shape, n) && 1 <= PageBytes(n) / 4096 <= 32
    requires I.TablesReachable(heap.vm.View()) && 0 in heap.vm.View().tables
    requires Offers(heap.vm.View().frames, heap.vm.pmm.maxBlocks, c, PageBytes(n) / 4096)
    modifies heap`pageList, heap`freeList, heap`pages, heap`blocks, heap`shape
    modifies heap.vm.mem, heap.vm.pmm`usedBlocks, heap.vm.pmm`live, heap.vm.pmm.memoryMap
    ensures p == 0 && heap.Valid() && I.TablesReachable(heap.vm.View())
    ensures e.NewPages? && e.page == 0 && e.count == PageBytes(n) / 4096
    ensures P.Legal(old(heap.vm.View()), e) && heap.vm.View() == P.Apply(old(heap.vm.View()), e)
    ensures 32 <= e.base && forall j: nat | j < e.count ::
      j in heap.vm.View().pages && heap.vm.View().pages[j] == e.base + j
  {
    hide *;
    heap.GrowFacts();
    WindowEnd();
    ghost var v, b, s, max, mid := heap.vm.View(), heap.blocks, heap.shape, heap.vm.pmm.maxBlocks, heap.shape;
    p, e, mid := MallocSpent(heap, n);
    ZeroGrant(v, e, max, PageBytes(n) / 4096, c);
    ZeroNotKept(e);
    heap.SettledAtZero(b, s, mid, p, n, H.Align(n, 16), [e]);
  }

  lemma SpentParts(pages: Pages, blocks: Blocks, s: Shape, n: Word)
    requires Spent(pages, blocks, s, n)
    ensures NoneSuits(blocks, s.frees, H.Align(n, 16)) && H.AllFull(pages, s.pages, H.Align(n, 16))
  {
  }
}
