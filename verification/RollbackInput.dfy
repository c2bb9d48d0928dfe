// allocate_new_page takes a mapping away when it fails: a run from an empty memory in which it does.
module RollbackInput {
  import opened Bits
  import opened FrameOwnership
  import opened PagingBoot
  import opened SampleMemory
  import P = PagingSpec
  import R = PagingRollback
  import VM = AddressSpace

  ghost function FewFrames(): Frames {
    Frames(Run(32, 3) + Run(64, 1) + Run(96, 1) + Run(128, 2), map[], 149)
  }

  const FEW_RANGES: Ranges := [(32, 3), (64, 1), (96, 1), (128, 2)]

  lemma FewRanges()
    ensures Usable(FEW_RANGES, 160) && Frames(BlocksOf(FEW_RANGES), map[], 160 - Regained(FEW_RANGES)) == FewFrames()
  {
    FewSums();
    hide Run, BlocksOf, Regained;
  }

  lemma FewSums()
    ensures BlocksOf(FEW_RANGES) == Run(32, 3) + Run(64, 1) + Run(96, 1) + Run(128, 2) && Regained(FEW_RANGES) == 11
  {
    var r1: Ranges, r2: Ranges, r3: Ranges := [(32, 3)], [(32, 3), (64, 1)], [(32, 3), (64, 1), (96, 1)];
    assert r1 == [] + [(32, 3)] && r2 == r1 + [(64, 1)] && r3 == r2 + [(96, 1)] && FEW_RANGES == r3 + [(128, 2)];
    hide *;
    NoRanges();
    RangeAdded([], 32, 3);
    RangeAdded(r1, 64, 1);
    RangeAdded(r2, 96, 1);
    RangeAdded(r3, 128, 2);
    assert {} + Run(32, 3) == Run(32, 3);
  }

  method FewBlocks() returns (space: VM.Space)
    ensures fresh(space) && fresh(space.mem) && fresh(space.pmm) && fresh(space.pmm.memoryMap)
    ensures space.mem != space.pmm.memoryMap && space.pmm.Valid() && space.pmm.maxBlocks == 160
    ensures space.pmm.State() == FewFrames() && VM.InMemory(space.pmm.State(), space.mem.Length)
  {
    FewRanges();
    hide *;
    space := MemoryOf(160, FEW_RANGES);
  }

  /** What is left after the directory, after one table, and after both. */
  lemma FewLeft()
    ensures var g := P.AllocRun(FewFrames(), 32, 3);
      var h := P.AllocRun(g, 64, 1);
      var k := P.AllocRun(h, 96, 1);
      && g.free == Run(64, 1) + Run(96, 1) + Run(128, 2) && g.used == 152
      && h.free == Run(96, 1) + Run(128, 2) && h.used == 153
      && k.free == Run(128, 2) && k.used == 154
      && P.AllocRun(k, 128, 2).free == {}
  {
  }

  /** The runs boot takes there, and the one a request for two pages takes then. */
  lemma FewRuns()
    ensures var g := P.AllocRun(FewFrames(), 32, 3);
      var h := P.AllocRun(g, 64, 1);
      && Lowest(FewFrames(), 160, 32, 3) && Lowest(g, 160, 64, 1) && Lowest(h, 160, 96, 1)
      && Lowest(P.AllocRun(h, 96, 1), 160, 128, 2)
  {
    FewLeft();
    hide P.AllocRun;
    var g := P.AllocRun(FewFrames(), 32, 3);
    var h := P.AllocRun(g, 64, 1);
    LowestOfAll(FewFrames(), 160, 32, 3);
    LowestOfAll(g, 160, 64, 1);
    LowestOfAll(h, 160, 96, 1);
    LowestOfAll(P.AllocRun(h, 96, 1), 160, 128, 2);
  }

  lemma FewBoot(d: nat, high: nat, low: nat)
    requires VM.BootRuns(FewFrames(), 160, d, high, low)
    ensures d == 32 && high == 64 && low == 96
    ensures var k := VM.BootFrames(FewFrames(), d, high, low);
      Lowest(k, 160, 128, 2) && P.AllocRun(k, 128, 2).free == {}
  {
    FewRuns();
    FewLeft();
    hide P.AllocRun, Lowest, FewFrames;
    P.LowestReserved(FewFrames(), 160, 32, 3, d);
    P.LowestReserved(P.AllocRun(FewFrames(), 32, 3), 160, 64, 1, high);
    P.LowestReserved(P.AllocRun(P.AllocRun(FewFrames(), 32, 3), 64, 1), 160, 96, 1, low);
  }

  lemma FewGranted(d: nat, high: nat)
    ensures !VM.BootRefused(FewFrames(), 160, d, high)
  {
    FewRuns();
    hide P.AllocRun, Lowest, FewFrames;
    var f := FewFrames();
    var g := P.AllocRun(f, 32, 3);
    NotRefused(f, 160, 32, 3);
    NotRefused(g, 160, 64, 1);
    NotRefused(P.AllocRun(g, 64, 1), 160, 96, 1);
    if VM.BootRefused(f, 160, d, high) {
      P.LowestReserved(f, 160, 32, 3, d);
      if VM.Reserved(g, 160, high, 1) { P.LowestReserved(g, 160, 64, 1, high); }
    }
  }

  lemma TableNeedsFrame(v: P.View, news: seq<P.Install>)
    requires P.CanInstallAll(v, news) && news != []
    ensures v.frames.free != {}
  {
    var t := news[|news| - 1];
    P.InstallKeeps(v, news[..|news| - 1]);
    assert t.frame in Run(t.frame, 1);
  }

  lemma SecondTable(v: P.View, e: P.Event)
    requires P.Legal(v, e) && e.NewPages? && e.page == 1023 && e.count == 2
    ensures 1 in P.InstallAll(P.WithRun(v, e.base, 2), e.news).tables
    ensures P.CanInstallAll(P.WithRun(v, e.base, 2), e.news) && P.CanAlloc(v.frames, e.base, 2)
  {
    assert P.PageAt(1023, 1) == 1024 && P.PageAt(1023, 1) in P.Range(1023, 2);
  }

  /** Two pages across the end of table 0, with frames for them and none for another table. */
  lemma NoTableLeft(v: P.View, e: P.Event, max: Word)
    requires P.Legal(v, e) && R.Answers(v, e, max, 2)
    requires e == P.Scan([]) || ((e.NewPages? || e.NewPagesFailed?) && e.page == 1023)
    requires 1 !in v.tables && Lowest(v.frames, max, 128, 2) && P.AllocRun(v.frames, 128, 2).free == {}
    ensures e.NewPagesFailed?
  {
    NotRefused(v.frames, max, 128, 2);
    if e.NewPages? {
      var u := P.WithRun(v, e.base, 2);
      P.InstallNone(u);
      SecondTable(v, e);
      P.LowestReserved(v.frames, max, 128, 2, e.base);
      hide P.Legal, P.InstallAll, P.CanInstallAll, P.AllocRun, Lowest, FirstOffer;
      if e.news != [] { TableNeedsFrame(u, e.news); }
    }
  }

  /** Of two pages across the end of table 0 the rollback removes the first. */
  lemma FirstPageGone(v: P.View, w: P.View)
    requires R.RolledBackPages(v, w, 1023, 2) && v.tables.Keys == {0, 768}
    ensures w.pages == v.pages - {1023}
  {
    assert P.PageAt(1023, 0) == 1023 && P.PageAt(1023, 1) == 1024;
    assert R.FirstAbsent(v, 1023, 2, 1) && R.OnlyAbsent(v, 1023, 2, 1);
    assert P.Range(1023, 1) == {1023};
  }

  /**
   * The boot address space, then allocate_new_page(0x3FF000, 2): the second page needs a table for which no block
   * is left, so the call fails, and page 0x3FF, which boot had mapped onto itself, is gone.
   */
  method RollbackRemovesPage(kernelAddress: Word) returns (space: VM.Space, r: Word)
    requires kernelAddress % 4096 == 0 && kernelAddress + 0x40_0000 <= 0x8000_0000
    ensures space.Valid() && r == 0
    ensures space.View().pages == BootPages(kernelAddress / 4096) - {1023}
    ensures 1023 in BootPages(kernelAddress / 4096)
  {
    var address: Word := 0x3F_F000;
    assert address / 4096 == 1023;
    hide *;
    space := FewBlocks();
    ghost var e;
    var ok, d, high, low := space.BuildAddressSpace(kernelAddress);
    FewGranted(d, high);
    FewBoot(d, high, low);
    ghost var v := space.View();
    FewBooted(d, high, low, kernelAddress / 4096);
    assert v == VM.BootedView(FewFrames(), d, high, low, kernelAddress / 4096);
    r, e := space.AllocateNewPage(address, 2);
    NoTableLeft(v, e, 160);
    FirstPageGone(v, space.View());
  }

  lemma FewBooted(d: nat, high: nat, low: nat, kernel: nat)
    ensures var v := VM.BootedView(FewFrames(), d, high, low, kernel);
      && v.tables.Keys == {0, 768} && 1 !in v.tables && v.pages == BootPages(kernel) && 1023 in BootPages(kernel)
      && v.frames == VM.BootFrames(FewFrames(), d, high, low)
  {
  }
}
