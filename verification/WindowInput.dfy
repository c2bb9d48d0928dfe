// A run from an empty memory to a malloc that takes page 0: boot with its first calloc, the pages
// 1024 to 4095 mapped onto themselves, a malloc that fills the window to 4 GiB, and one more.
module WindowInput {
  import opened Bits
  import opened FrameOwnership
  import opened HeapBacking
  import opened HeapLayout
  import opened HeapSteps
  import opened HeapWindow
  import opened PageEntry
  import opened SampleMemory
  import opened TableSupply
  import H = Heap
  import I = PagingIdentity
  import K = KernelBoot
  import P = PagingSpec
  import R = PagingRollback
  import VM = AddressSpace

  // ---- frames --------------------------------------------------------------------------------------

  /**
   * Spare blocks in the words from u on, behind them a gap, and from block c on 65535 free blocks
   * and two more; the counter leaves room for all of these.
   */
  ghost predicate Wide(f: Frames, max: Word, u: nat, k: nat, c: nat) {
    && Spare(f, max, u, k) && 32 * (u + k) + 32 <= c < 65535 && c % 32 == 0 && c + 65568 <= max / 32 * 32
    && Run(c, 65535) <= f.free && Run(c + 65536, 2) <= f.free
    && (forall b: nat | c - 32 <= b < c :: b !in f.free)
    && 65537 + k < Wrap(max - f.used)
  }

  lemma WideSpare(f: Frames, max: Word, u: nat, k: nat, c: nat)
    requires Wide(f, max, u, k, c)
    ensures Spare(f, max, u, k) && (1 <= k ==> Offers(f, max, 32 * u, 1))
  {
  }

  /** A single block leaves all of that but one word. */
  lemma WideStep(f: Frames, max: Word, u: nat, k: nat, c: nat, s: nat)
    requires Wide(f, max, u, k, c) && 1 <= k && P.CanAlloc(f, s, 1) && FirstOffer(f, max, s, 1)
    ensures s <= 32 * u && Wide(P.AllocRun(f, s, 1), max, u + 1, k - 1, c)
  {
    SpareStep(f, max, u, k, s);
    CounterStep(max, f.used);
    hide Spare;
  }

  lemma {:induction false} WideAll(v: P.View, news: seq<P.Install>, max: Word, u: nat, k: nat, c: nat)
    requires P.CanInstallAll(v, news) && R.TakenInOrder(v, news, max) && |news| <= k && Wide(v.frames, max, u, k, c)
    ensures Wide(P.InstallAll(v, news).frames, max, u + |news|, k - |news|, c)
    decreases |news|
  {
    if news == [] {
    } else {
      var init, last := news[..|news| - 1], news[|news| - 1];
      WideAll(v, init, max, u, k, c);
      hide Wide, FirstOffer;
      WideStep(P.InstallAll(v, init).frames, max, u + |init|, k - |init|, c, last.frame);
    }
  }

  lemma WideFewer(f: Frames, max: Word, u: nat, k: nat, c: nat, u': nat)
    requires Wide(f, max, u, k, c) && u <= u' <= u + k
    ensures Wide(f, max, u', u + k - u', c)
  {
  }

  /** The long run is the lowest of its length, and taking it leaves the spare blocks. */
  lemma WideLongRun(f: Frames, max: Word, u: nat, k: nat, c: nat)
    requires Wide(f, max, u, k, c)
    ensures Offers(f, max, c, 65535) && Leaves(f, max, 65535, u, k)
  {
    WideLowest(f, max, u, k, c);
    hide Wide, Spare, Lowest, Leaves, Offers;
    WideSpare(f, max, u, k, c);
    WideCounter(f, max, u, k, c);
    LeavesBehindLowest(f, max, c, 65535, u, k);
  }

  lemma WideLowest(f: Frames, max: Word, u: nat, k: nat, c: nat)
    requires Wide(f, max, u, k, c)
    ensures Lowest(f, max, c, 65535)
  {
    forall b: nat | b < c ensures !(Run(b, 65535) <= f.free) {
      if b < c - 32 { assert c - 32 in Run(b, 65535); } else { assert b in Run(b, 65535); }
    }
  }

  lemma WideCounter(f: Frames, max: Word, u: nat, k: nat, c: nat)
    requires Wide(f, max, u, k, c)
    ensures 32 * (u + k) <= c && 65535 + k < Wrap(max - f.used)
  {
    hide Spare;
  }

  // ---- boot -----------------------------------------------------------------------------------------

  /** m blocks from block 32 on, and 65568 more a bitmap word behind them. */
  ghost predicate Start(f: Frames, max: Word, m: nat) {
    && f.free == Run(32, m) + Run(m + 64, 65568) && m % 32 == 0 && 32 * 8 <= m < 65000 && m + 65632 <= max
       && max % 32 == 0
    && m + 65537 < Wrap(max - f.used)
  }

  lemma StartOffers(f: Frames, max: Word, m: nat)
    requires Start(f, max, m)
    ensures Offers(f, max, 32, 3)
  {
  }

  /** The directory takes blocks 32 to 34. */
  lemma StartBoots(f: Frames, max: Word, m: nat, d: nat)
    requires Start(f, max, m) && VM.Reserved(f, max, d, 3)
    ensures d == 32 && Wide(P.AllocRun(f, d, 3), max, 2, m / 32 - 1, m + 64)
  {
    StartOffers(f, max, m);
    CounterRun(max, f.used, 3);
    assert d in Run(d, 3);
    assert m == 32 * (m / 32);
  }

  lemma WideBoots(f: Frames, max: Word, m: nat, d: nat, high: nat, low: nat)
    requires Start(f, max, m) && VM.BootRuns(f, max, d, high, low)
    ensures Wide(VM.BootFrames(f, d, high, low), max, 4, m / 32 - 3, m + 64)
    ensures d == 32 && high <= 64 && low <= 96
  {
    StartBoots(f, max, m, d);
    var g := P.AllocRun(f, d, 3);
    assert 7 <= m / 32 - 1;
    hide Wide, P.AllocRun, Start, FirstOffer, P.CanAlloc;
    WideStep(g, max, 2, m / 32 - 1, m + 64, high);
    WideStep(P.AllocRun(g, high, 1), max, 3, m / 32 - 2, m + 64, low);
  }

  lemma BootGranted(f: Frames, max: Word, m: nat, d: nat, high: nat)
    requires Start(f, max, m)
    ensures !VM.BootRefused(f, max, d, high)
  {
    StartOffers(f, max, m);
    assert 7 <= m / 32 - 1;
    if VM.Reserved(f, max, d, 3) {
      StartBoots(f, max, m, d);
      var g := P.AllocRun(f, d, 3);
      WideSpare(g, max, 2, m / 32 - 1, m + 64);
      if VM.Reserved(g, max, high, 1) {
        WideStep(g, max, 2, m / 32 - 1, m + 64, high);
        WideSpare(P.AllocRun(g, high, 1), max, 3, m / 32 - 2, m + 64);
      }
    }
    hide Wide, Start, P.AllocRun, Offers;
  }

  /** The tables so far lie in the first 4 MiB, and page 0 has one. */
  lemma BootLow(f: Frames, max: Word, m: nat, kernel: nat, v: P.View)
    requires Start(f, max, m) && K.BootedFrom(f, max, kernel, v)
    ensures I.TablesLow(v, 1024) && 0 in v.tables && v.tables.Keys == {0, 768}
    ensures Wide(v.frames, max, 4, m / 32 - 3, m + 64)
  {
    var d, high, low :| VM.BootRuns(f, max, d, high, low) && v == VM.BootedView(f, d, high, low, kernel);
    hide VM.BootRuns, Start, Wide, VM.BootFrames, I.TablesLow;
    WideBoots(f, max, m, d, high, low);
    I.BootReachable(f, d, high, low, kernel);
  }

  lemma RequestParts(v: P.View, w: P.View, max: Word, e: P.Event, p: Word)
    requires K.FirstRequest(v, w, max, e, p)
    ensures P.VInv(v) && P.Legal(v, e) && R.Answers(v, e, max, 1) && w == P.Apply(v, e) && (p == 0 <==> !e.NewPages?)
    ensures e == P.Scan([]) || ((e.NewPages? || e.NewPagesFailed?) && e.page == 0xF_0000)
  {
    assert Wrap(0xF000_0000) / 4096 == 0xF_0000;
    hide P.VInv, P.Legal, P.Apply, R.Answers;
  }

  lemma CallocSupplied(v: P.View, max: Word, k: nat, c: nat)
    requires I.TablesLow(v, 1024) && Wide(v.frames, max, 4, k, c) && 4 <= k
    ensures Supplied(v, max, 0xF_0000, 1, 128, 5, 1, 1024)
  {
    NeededOne(v);
    hide I.TablesLow, Needed, Leaves, Spare;
    WideSpare(v.frames, max, 4, k, c);
    SpareFewer(v.frames, max, 4, k, 2);
    LeavesBehindOne(v.frames, max, 4, 2);
  }

  lemma NeededOne(v: P.View)
    ensures |Needed(v, 0xF_0000, 1)| <= 1
  {
    EntriesBound(v, 960, 961);
  }

  lemma TableStays(v: P.View, e: P.Event, i: nat)
    requires P.Legal(v, e) && (e.NewPages? || e.MapPage?) && i in v.tables
    ensures i in P.Apply(v, e).tables
  {
    P.InstallKeeps(if e.NewPages? then P.WithRun(v, e.base, e.count) else v, e.news);
    hide P.InstallAll, P.CanInstallAll;
  }

  lemma HasTable0(v: P.View)
    requires v.tables.Keys == {0, 768}
    ensures 0 in v.tables
  {
  }

  /** One page granted takes one block, and one for its table if that is new. */
  lemma WideGrant(v: P.View, e: P.Event, max: Word, u: nat, k: nat, c: nat)
    requires P.Legal(v, e) && R.Answers(v, e, max, 1) && e.NewPages? && |e.news| + 1 <= k
      && Wide(v.frames, max, u, k, c)
    ensures Wide(P.Apply(v, e).frames, max, u + 1 + |e.news|, k - 1 - |e.news|, c)
  {
    GrantedFrames(v, e, max);
    hide *;
    GrantedParts(v, e, max, 1);
    WideStep(v.frames, max, u, k, c, e.base);
    WideAll(P.WithRun(v, e.base, 1), e.news, max, u + 1, k - 1, c);
  }

  lemma GrantedFrames(v: P.View, e: P.Event, max: Word)
    requires P.Legal(v, e) && R.Answers(v, e, max, 1) && e.NewPages?
    ensures P.CanAlloc(v.frames, e.base, 1) && FirstOffer(v.frames, max, e.base, 1)
  {
    hide P.CanAlloc, FirstOffer, R.TakenInOrder;
  }

  /** calloc's request is granted, with table 960 in the first 4 MiB too. */
  lemma CallocGranted(v: P.View, w: P.View, max: Word, e: P.Event, p: Word, k: nat, c: nat)
    requires K.FirstRequest(v, w, max, e, p) && I.TablesLow(v, 1024) && v.tables.Keys == {0, 768}
    requires Wide(v.frames, max, 4, k, c) && 4 <= k
    ensures p != 0 && I.TablesLow(w, 1024) && 0 in w.tables && Wide(w.frames, max, 6, k - 2, c)
  {
    RequestParts(v, w, max, e, p);
    hide *;
    CallocSupplied(v, max, k, c);
    SuppliedGrant(v, e, max, 0xF_0000, 1, 128, 5, 1, 1024);
    NeededOne(v);
    WideGrant(v, e, max, 4, k, c);
    WideFewer(w.frames, max, 5 + |e.news|, k - 1 - |e.news|, c, 6);
    HasTable0(v);
    TableStays(v, e, 0);
  }

  // ---- the pages 1024 to 4095 onto themselves --------------------------------------------------------

  /** Pages below p are mapped onto themselves, tables lie in the first 4 MiB, and the heap is intact. */
  ghost predicate ItselfTo(v: P.View, p: nat, end: nat) {
    && I.TablesLow(v, 1024) && (forall q: nat | q < p :: I.Itself(v, q)) && 0 in v.tables && Backed(v, end)
  }

  lemma MapParts(v: P.View, news: seq<P.Install>, p: nat)
    requires P.Legal(v, P.MapPage(p, p, news))
    ensures var w := P.Apply(v, P.MapPage(p, p, news));
      && P.CanInstallAll(v, news) && w.frames == P.InstallAll(v, news).frames && p / 1024 in w.tables
      && w.tables == P.InstallAll(v, news).tables && w.pages == v.pages[p := p]
  {
    hide P.CanInstallAll, P.InstallAll;
  }

  /** The table of a page is new at most when the page had none, and then takes a block. */
  lemma TableTaken(v: P.View, news: seq<P.Install>, i: nat, max: Word, u: nat, k: nat, c: nat)
    requires P.CanInstallAll(v, news) && i in P.InstallAll(v, news).tables && Wide(v.frames, max, u, k, c) && 1 <= k
    requires |news| <= 1 && forall t | t in news :: t.index == i && FirstOffer(v.frames, max, t.frame, 1)
    ensures forall t | t in news :: t.frame <= 32 * u
    ensures Wide(P.InstallAll(v, news).frames, max,
                 if i in v.tables then u else u + 1, if i in v.tables then k else k - 1, c)
  {
    P.InstallNone(v);
    if news != [] {
      var t := news[0];
      assert news == [t] && news[..0] == [];
      assert t.index !in v.tables && P.InstallAll(v, news).frames == P.AllocRun(v.frames, t.frame, 1);
      hide Wide, FirstOffer, P.AllocRun, P.InstallAll;
      WideStep(v.frames, max, u, k, c, t.frame);
    }
  }

  lemma MapsLow(news: seq<P.Install>, p: nat, u: nat)
    requires u < 32 && forall t | t in news :: t.frame <= 32 * u
    ensures I.StaysLow(P.MapPage(p, p, news), 1024)
  {
  }

  lemma ItselfMore(v: P.View, e: P.Event, p: nat)
    requires P.Legal(v, e) && e.MapPage? && e.page == e.frame == p && forall q: nat | q < p :: I.Itself(v, q)
    ensures forall q: nat | q < p + 1 :: I.Itself(P.Apply(v, e), q)
  {
    forall q: nat | q < p + 1 ensures I.Itself(P.Apply(v, e), q) {
      if q < p { I.LowPage(v, e, q); }
    }
  }

  /** map_page of page p onto itself takes a block at most when its table is new. */
  lemma PageItself(v: P.View, news: seq<P.Install>, p: nat, end: nat, max: Word, u: nat, k: nat, c: nat)
    requires P.VInv(v) && ItselfTo(v, p, end) && 1024 <= p < 4096 && Wide(v.frames, max, u, k, c) && 1 <= k && u < 32
    requires P.Legal(v, P.MapPage(p, p, news))
    requires |news| <= 1 && forall t | t in news :: t.index == p / 1024 && FirstOffer(v.frames, max, t.frame, 1)
    ensures var w, i := P.Apply(v, P.MapPage(p, p, news)), p / 1024;
      && ItselfTo(w, p + 1, end) && i in w.tables
      && Wide(w.frames, max, if i in v.tables then u else u + 1, if i in v.tables then k else k - 1, c)
  {
    var e := P.MapPage(p, p, news);
    MapParts(v, news, p);
    ItselfParts(v, p, end);
    hide *;
    TableTaken(v, news, p / 1024, max, u, k, c);
    MapsLow(news, p, u);
    I.LowKept(v, e, 1024);
    ItselfMore(v, e, p);
    TableStays(v, e, 0);
    MapKeepsBacked(v, e, end);
    ItselfNow(P.Apply(v, e), p + 1, end);
  }

  lemma ItselfParts(v: P.View, p: nat, end: nat)
    requires ItselfTo(v, p, end)
    ensures I.TablesLow(v, 1024) && (forall q: nat | q < p :: I.Itself(v, q)) && 0 in v.tables && Backed(v, end)
  {
  }

  lemma ItselfNow(v: P.View, p: nat, end: nat)
    requires I.TablesLow(v, 1024) && (forall q: nat | q < p :: I.Itself(v, q)) && 0 in v.tables && Backed(v, end)
    ensures ItselfTo(v, p, end)
  {
  }

  /** map_page of page p onto itself. */
  method MapItself(space: VM.Space, p: nat, ghost end: nat, ghost u: nat, ghost k: nat, ghost c: nat)
    requires space.Valid() && ItselfTo(space.View(), p, end) && 1024 <= p < 4096
    requires Wide(space.View().frames, space.pmm.maxBlocks, u, k, c) && 1 <= k && u < 32
    modifies space.mem, space.pmm`usedBlocks, space.pmm`live, space.pmm.memoryMap
    ensures space.Valid() && ItselfTo(space.View(), p + 1, end) && p / 1024 in space.View().tables
    ensures var i := p / 1024;
      if i in old(space.View()).tables then Wide(space.View().frames, space.pmm.maxBlocks, u, k, c)
      else Wide(space.View().frames, space.pmm.maxBlocks, u + 1, k - 1, c)
  {
    PageAddress(p);
    hide *;
    ghost var v, max := space.View(), space.pmm.maxBlocks;
    WideSpare(v.frames, max, u, k, c);
    I.FrameBelow(space, 32 * u);
    var ok, news := space.MapPage(4096 * p, 4096 * p);
    PageItself(v, news, p, end, max, u, k, c);
  }

  lemma PageAddress(p: nat)
    requires p < 4096
    ensures 4096 * p < 0x100_0000 && 4096 * p / 4096 == p && 4096 * p % 4096 == 0
      && 4096 * p / 4096 / ENTRIES == p / 1024
  {
  }

  /** The pages of directory entry i onto themselves. */
  method MapTableItself(space: VM.Space, i: nat, ghost end: nat, ghost u: nat, ghost k: nat, ghost c: nat)
    requires space.Valid() && ItselfTo(space.View(), 1024 * i, end) && 1 <= i < 4
    requires Wide(space.View().frames, space.pmm.maxBlocks, u, k, c) && 2 <= k && u < 31
    modifies space.mem, space.pmm`usedBlocks, space.pmm`live, space.pmm.memoryMap
    ensures space.Valid() && ItselfTo(space.View(), 1024 * i + 1024, end)
    ensures Wide(space.View().frames, space.pmm.maxBlocks, u + 1, k - 1, c)
  {
    hide *;
    ghost var v, max := space.View(), space.pmm.maxBlocks;
    MapItself(space, 1024 * i, end, u, k, c);
    if i in v.tables { WideFewer(space.View().frames, max, u, k, c, u + 1); }
    var j := 1;
    while j < 1024
      invariant 1 <= j <= 1024 && space.Valid() && ItselfTo(space.View(), 1024 * i + j, end)
      invariant i in space.View().tables && Wide(space.View().frames, max, u + 1, k - 1, c)
    {
      MapItself(space, 1024 * i + j, end, u + 1, k - 1, c);
      j := j + 1;
    }
  }

  /** The pages 1024 to 4095 onto themselves. */
  method MapMoreItself(space: VM.Space, ghost end: nat, ghost k: nat, ghost c: nat)
    requires space.Valid() && ItselfTo(space.View(), 1024, end) && 5 <= k
    requires Wide(space.View().frames, space.pmm.maxBlocks, 6, k, c)
    modifies space.mem, space.pmm`usedBlocks, space.pmm`live, space.pmm.memoryMap
    ensures space.Valid() && ItselfTo(space.View(), 4096, end)
    ensures Wide(space.View().frames, space.pmm.maxBlocks, 9, k - 3, c)
  {
    hide *;
    MapTableItself(space, 1, end, 6, k, c);
    MapTableItself(space, 2, end, 7, k - 1, c);
    MapTableItself(space, 3, end, 8, k - 2, c);
  }

  // ---- filling the window ----------------------------------------------------------------------------

  lemma NeededAtHeap(v: P.View)
    ensures |Needed(v, 0xF_0001, 65535)| <= 64
  {
    EntriesBound(v, 960, 1024);
  }

  lemma WideLess(f: Frames, max: Word, u: nat, k: nat, c: nat, k': nat)
    requires Wide(f, max, u, k, c) && k' <= k
    ensures Wide(f, max, u, k', c)
  {
  }

  lemma FillSupplied(v: P.View, max: Word, u: nat, k: nat, c: nat)
    requires I.TablesLow(v, 4096) && Wide(v.frames, max, u, k, c) && 70 <= k && u <= 12
    ensures Supplied(v, max, 0xF_0001, 65535, c, u, 70, 4096)
  {
    NeededAtHeap(v);
    hide I.TablesLow, Needed, Leaves, Offers, Wide;
    WideLess(v.frames, max, u, k, c, 70);
    WideLongRun(v.frames, max, u, 70, c);
  }

  /** Blocks behind the new tables stay free. */
  lemma {:induction false} InstallsBefore(v: P.View, news: seq<P.Install>, c: nat, n: nat)
    requires P.CanInstallAll(v, news) && Run(c, n) <= v.frames.free && forall t | t in news :: t.frame < c
    ensures Run(c, n) <= P.InstallAll(v, news).frames.free
    decreases |news|
  {
    if news == [] {
    } else {
      var init, last := news[..|news| - 1], news[|news| - 1];
      assert last in news && forall t | t in init :: t in news;
      InstallsBefore(v, init, c, n);
    }
  }

  /** With the long run taken, two blocks behind it are still to be had. */
  lemma RestOffered(v: P.View, e: P.Event, max: Word, u: nat, k: nat, c: nat)
    requires P.Legal(v, e) && R.Answers(v, e, max, 65535) && e.NewPages? && Wide(v.frames, max, u, k, c)
    requires 32 * (u + |e.news|) <= c && forall t | t in e.news :: t.frame + 32 <= 32 * (u + |e.news|)
    requires 2 < Wrap(max - P.Apply(v, e).frames.used)
    ensures Offers(P.Apply(v, e).frames, max, c + 65536, 2)
  {
    hide *;
    GrantedParts(v, e, max, 65535);
    LongRunTaken(v, e, max, u, k, c);
    RestFree(v, e.news, max, u, k, c, 32 * (u + |e.news|));
    OffersTwo(v.frames, P.Apply(v, e).frames, max, u, k, c);
  }

  lemma WideRest(f: Frames, max: Word, u: nat, k: nat, c: nat)
    requires Wide(f, max, u, k, c)
    ensures c % 32 == 0 && 32 <= c && c + 65536 < max / 32 * 32 && (c + 65536) % 32 == 0
    ensures Run(c + 65536, 2) <= f.free
  {
    hide Spare, Run;
  }

  lemma RestFree(v: P.View, news: seq<P.Install>, max: Word, u: nat, k: nat, c: nat, limit: nat)
    requires P.CanInstallAll(P.WithRun(v, c, 65535), news) && Wide(v.frames, max, u, k, c) && limit <= c
    requires forall t | t in news :: t.frame + 32 <= limit
    ensures Run(c + 65536, 2) <= P.InstallAll(P.WithRun(v, c, 65535), news).frames.free
  {
    var w := P.WithRun(v, c, 65535);
    WideRest(v.frames, max, u, k, c);
    assert Run(c + 65536, 2) <= w.frames.free;
    hide P.InstallAll, P.CanInstallAll, P.WithRun;
    InstallsBefore(w, news, c + 65536, 2);
  }

  lemma OffersTwo(f: Frames, g: Frames, max: Word, u: nat, k: nat, c: nat)
    requires Wide(f, max, u, k, c) && Run(c + 65536, 2) <= g.free && 2 < Wrap(max - g.used)
    ensures Offers(g, max, c + 65536, 2)
  {
    WideRest(f, max, u, k, c);
    hide Wide, Run;
  }

  lemma LongRunTaken(v: P.View, e: P.Event, max: Word, u: nat, k: nat, c: nat)
    requires P.Legal(v, e) && R.Answers(v, e, max, 65535) && e.NewPages? && Wide(v.frames, max, u, k, c)
    ensures e.base == c
  {
    WideLowest(v.frames, max, u, k, c);
    hide Lowest, Wide, P.NewsWithin, R.TakenInOrder;
    P.LowestReserved(v.frames, max, c, 65535, e.base);
  }

  /** The request that fills the window is granted; all tables stay in the first 16 MiB. */
  lemma FillGranted(v: P.View, w: P.View, e: P.Event, max: Word, u: nat, k: nat, c: nat)
    requires P.VInv(v) && P.Legal(v, e) && w == P.Apply(v, e) && R.Answers(v, e, max, 65535)
    requires e == P.Scan([]) || ((e.NewPages? || e.NewPagesFailed?) && e.page == 0xF_0001)
    requires I.TablesLow(v, 4096) && 0 in v.tables && Wide(v.frames, max, u, k, c) && 70 <= k && u <= 12
    ensures e.NewPages? && e.count == 65535 && I.TablesLow(w, 4096) && 0 in w.tables
    ensures Offers(w.frames, max, c + 65536, 2)
  {
    hide *;
    FillSupplied(v, max, u, k, c);
    SuppliedGrant(v, e, max, 0xF_0001, 65535, c, u, 70, 4096);
    NeededAtHeap(v);
    TableStays(v, e, 0);
    SupplyLeft(v, e, max, u, k, c);
    RestOffered(v, e, max, u, k, c);
  }

  lemma SupplyLeft(v: P.View, e: P.Event, max: Word, u: nat, k: nat, c: nat)
    requires P.Legal(v, e) && R.Answers(v, e, max, 65535) && e.NewPages? && e.page == 0xF_0001
    requires Wide(v.frames, max, u, k, c) && 70 <= k && u <= 12
    ensures 32 * (u + |e.news|) <= c && forall t | t in e.news :: t.frame + 32 <= 32 * (u + |e.news|)
    ensures 2 < Wrap(max - P.Apply(v, e).frames.used)
  {
    WideLess(v.frames, max, u, k, c, 70);
    WideCounter(v.frames, max, u, 70, c);
    ReservedNow(v, e, max);
    hide *;
    NeededAtHeap(v);
    WideLongRun(v.frames, max, u, 70, c);
    LeftOver(v.frames, max, u, e.base);
    NewTablesFit(v, e, max, 65535, u, 70);
    SpareCounter(P.Apply(v, e).frames, max, u + |e.news|, 70 - |e.news|);
  }

  lemma ReservedNow(v: P.View, e: P.Event, max: Word)
    requires P.Legal(v, e) && R.Answers(v, e, max, 65535) && e.NewPages?
    ensures VM.Reserved(v.frames, max, e.base, 65535)
  {
    hide P.CanAlloc, FirstOffer, R.TakenInOrder;
  }

  lemma LeftOver(f: Frames, max: Word, u: nat, base: nat)
    requires Leaves(f, max, 65535, u, 70) && VM.Reserved(f, max, base, 65535)
    ensures Spare(P.AllocRun(f, base, 65535), max, u, 70)
  {
  }

  lemma SpareCounter(f: Frames, max: Word, u: nat, k: nat)
    requires Spare(f, max, u, k)
    ensures k < Wrap(max - f.used)
  {
  }

  // ---- the heap, before and after -----------------------------------------------------------------------

  lemma FillSizes()
    ensures H.Align(0x0FFF_EFE0, 16) == 0x0FFF_EFE0 && PageBytes(0x0FFF_EFE0) == 0x0FFF_F000
    ensures PageBytes(0x0FFF_EFE0) / 4096 == 65535
    ensures H.Align(4096, 16) == 4096 && PageBytes(4096) / 4096 == 2
    ensures Wrap(0xF000_1000) / 4096 == 0xF_0001
  {
  }

  /** A heap of one page has no room for what a page cannot hold. */
  lemma OnePageSpent(pl: Word, fl: Word, pages: Pages, blocks: Blocks, s: Shape, n: Word)
    requires HeapOk(pl, fl, pages, blocks, s) && s.frees == [] && s.pages == [0xF000_0000]
    requires PagesPresent(pages, s.pages) && HeapEnd(pages, s.pages) == 0xF000_1000 && 4096 <= H.Align(n, 16)
    ensures Spent(pages, blocks, s, n)
  {
    hide FreeChain, LayoutOk, Partitioned, H.Align;
  }

  /** Two pages that fill the window, the second of them with one large block: no room for a page more. */
  lemma WindowSpent(pl: Word, fl: Word, pages: Pages, blocks: Blocks, s: Shape, h: Word)
    requires HeapOk(pl, fl, pages, blocks, s) && s.frees == [] && s.pages == [0xF000_0000, 0xF000_1000]
    requires PagesPresent(pages, s.pages) && HeapEnd(pages, s.pages) == 0x1_0000_0000
    requires h in blocks && 0x0FFF_EFE0 <= blocks[h].actualSize
    ensures Spent(pages, blocks, s, 4096)
  {
    FillSizes();
    WindowPages(pl, pages, s.pages);
    var p := BlockInPage(pl, fl, pages, blocks, s, h);
    hide HeapOk, PageChain, H.Align, PageBytes, HeapEnd, NoneSuits;
    TwoFull(pages, s.pages, blocks, h, p);
    NoFrees(blocks, 4096);
  }

  lemma WindowPages(head: Word, pages: Pages, ps: seq<Word>)
    requires PageChain(head, pages, ps) && ps == [0xF000_0000, 0xF000_1000]
    requires PagesPresent(pages, ps) && HeapEnd(pages, ps) == 0x1_0000_0000
    ensures forall p | p in pages :: p == 0xF000_0000 || p == 0xF000_1000
    ensures pages[0xF000_0000].size == 4096 && pages[0xF000_1000].size == 0x0FFF_F000
    ensures 16 <= pages[0xF000_0000].usedSize <= 4096 && pages[0xF000_1000].usedSize <= 0x0FFF_F000
  {
    assert PageOk(pages, ps, 0) && PageOk(pages, ps, 1);
  }

  lemma TwoFull(pages: Pages, ps: seq<Word>, blocks: Blocks, h: Word, p: Word)
    requires ps == [0xF000_0000, 0xF000_1000] && ps[0] in pages && ps[1] in pages
    requires pages[0xF000_0000].size == 4096 && pages[0xF000_1000].size == 0x0FFF_F000
    requires 16 <= pages[0xF000_0000].usedSize <= 4096
    requires h in blocks && InPage(pages, blocks, h, p) && (p == ps[0] || p == ps[1])
      && 0x0FFF_EFE0 <= blocks[h].actualSize
    ensures H.AllFull(pages, ps, 4096)
  {
  }

  lemma NoFrees(blocks: Blocks, a: Word)
    ensures NoneSuits(blocks, [], a)
  {
  }

  /** A new block that was not refused, on a heap without free blocks. */
  lemma NewBlock(b: Blocks, s: Shape, mid: Shape, blocks: Blocks, shape: Shape, p: Word, n: Word, a: Word)
    requires Outcome(b, s, mid, blocks, shape, p, n, a) && p != 0 && s.frees == []
    ensures p >= 12 && p - 12 in blocks && n <= blocks[p - 12].actualSize && shape.frees == []
  {
  }

  lemma FillKept(e: P.Event)
    requires e.NewPages? && Attempt(e, 0xF000_1000, 0x0FFF_F000)
    ensures H.AllKept([e]) && !H.Refused([e])
    ensures e.page == 0xF_0001 && e.count == 65535
  {
    KeptExact(e, 0xF000_1000, 0x0FFF_F000);
    H.KeptOne(e);
  }

  lemma FillGrew(ps0: seq<Word>, ps: seq<Word>, end: nat, e: P.Event)
    requires e.NewPages? && e.page == 0xF_0001 && e.count == 65535 && ps0 == [0xF000_0000]
    requires Grew(ps0, 0xF000_1000, ps, end, [e])
    ensures ps == [0xF000_0000, 0xF000_1000] && end == 0x1_0000_0000
  {
    assert [e][1..] == [];
    assert PagesAt([e]) == [0xF000_1000] && BytesOf([e]) == 0x0FFF_F000;
  }

  lemma EventOf(e: P.Event)
    requires Attempt(e, 0xF000_1000, 0x0FFF_F000)
    ensures e == P.Scan([]) || ((e.NewPages? || e.NewPagesFailed?) && e.page == 0xF_0001)
  {
  }

  /** malloc(0x0FFFEFE0) behind the first page: its pages fill the window, and the heap is spent. */
  method FillWindow(heap: H.Heap, ghost u: nat, ghost k: nat, ghost c: nat)
    requires heap.Valid() && heap.shape.frees == [] && heap.shape.pages == [0xF000_0000] && heap.End() == 0xF000_1000
    requires I.TablesLow(heap.vm.View(), 4096) && 0 in heap.vm.View().tables
    requires Wide(heap.vm.View().frames, heap.vm.pmm.maxBlocks, u, k, c) && 70 <= k && u <= 12
    modifies heap`pageList, heap`freeList, heap`pages, heap`blocks, heap`shape
    modifies heap.vm.mem, heap.vm.pmm`usedBlocks, heap.vm.pmm`live, heap.vm.pmm.memoryMap
    ensures heap.Valid() && heap.shape.pages != [] && heap.End() == 0x1_0000_0000
    ensures Spent(heap.pages, heap.blocks, heap.shape, 4096)
    ensures I.TablesLow(heap.vm.View(), 4096) && 0 in heap.vm.View().tables
    ensures Offers(heap.vm.View().frames, heap.vm.pmm.maxBlocks, c + 65536, 2)
  {
    var n: Word := 0x0FFF_EFE0;
    hide *;
    FillSizes();
    heap.GrowFacts();
    heap.EndFacts();
    ghost var v, b, s, max, mid := heap.vm.View(), heap.blocks, heap.shape, heap.vm.pmm.maxBlocks, heap.shape;
    OnePageSpent(heap.pageList, heap.freeList, heap.pages, b, s, n);
    ghost var e, p := P.Scan([]), n;
    p, e, mid := MallocSpent(heap, n);
    EventOf(e);
    FillGranted(v, heap.vm.View(), e, max, u, k, c);
    FillKept(e);
    heap.GrowFacts();
    WindowFilled(heap.pageList, heap.freeList, b, s, mid, heap.pages, heap.blocks, heap.shape, heap.End(), p, n, e);
  }

  /** Two pages up to 4 GiB, no free block, and a block that leaves no room in the second page. */
  ghost predicate Filled(blocks: Blocks, shape: Shape, end: nat, h: Word) {
    && shape.frees == [] && shape.pages == [0xF000_0000, 0xF000_1000] && end == 0x1_0000_0000
    && h in blocks && 0x0FFF_EFE0 <= blocks[h].actualSize
  }

  lemma FilledNow(b: Blocks, s: Shape, mid: Shape, blocks: Blocks, shape: Shape, end: nat, p: Word, n: Word, e: P.Event)
    requires Outcome(b, s, mid, blocks, shape, p, n, n) && n == 0x0FFF_EFE0 && p != 0 && s.frees == []
    requires e.NewPages? && e.page == 0xF_0001 && e.count == 65535
    requires s.pages == [0xF000_0000] && Grew(s.pages, 0xF000_1000, shape.pages, end, [e])
    ensures p >= 12 && Filled(blocks, shape, end, p - 12)
  {
    NewBlock(b, s, mid, blocks, shape, p, n, n);
    FillGrew(s.pages, shape.pages, end, e);
    hide Outcome, Grew;
  }

  lemma FilledSpent(pl: Word, fl: Word, pages: Pages, blocks: Blocks, shape: Shape, end: nat, h: Word)
    requires HeapOk(pl, fl, pages, blocks, shape) && PagesPresent(pages, shape.pages)
      && end == HeapEnd(pages, shape.pages)
    requires Filled(blocks, shape, end, h)
    ensures Spent(pages, blocks, shape, 4096) && shape.pages != [] && end == 0x1_0000_0000
  {
    WindowSpent(pl, fl, pages, blocks, shape, h);
    hide HeapOk, PagesPresent, HeapEnd, Spent;
  }

  lemma WindowFilled(pl: Word, fl: Word, b: Blocks, s: Shape, mid: Shape, pages: Pages, blocks: Blocks, shape: Shape,
                     end: nat, p: Word, n: Word, e: P.Event)
    requires HeapOk(pl, fl, pages, blocks, shape) && PagesPresent(pages, shape.pages)
      && end == HeapEnd(pages, shape.pages)
    requires Outcome(b, s, mid, blocks, shape, p, n, n) && n == 0x0FFF_EFE0 && p != 0 && s.frees == []
    requires e.NewPages? && e.page == 0xF_0001 && e.count == 65535
    requires s.pages == [0xF000_0000] && Grew(s.pages, 0xF000_1000, shape.pages, end, [e])
    ensures Spent(pages, blocks, shape, 4096) && shape.pages != [] && end == 0x1_0000_0000
  {
    hide *;
    FilledNow(b, s, mid, blocks, shape, end, p, n, e);
    FilledSpent(pl, fl, pages, blocks, shape, end, p - 12);
  }

  // ---- the run ---------------------------------------------------------------------------------------------

  /** 288 MiB of memory in two ranges. */
  function MemoryRanges(m: nat): Ranges {
    [(32, m), (m + 64, 65568)]
  }

  lemma MemorySums(m: nat)
    ensures BlocksOf(MemoryRanges(m)) == Run(32, m) + Run(m + 64, 65568) && Regained(MemoryRanges(m)) == m + 65570
  {
    NoRanges();
    RangeAdded([], 32, m);
    RangeAdded([(32, m)], m + 64, 65568);
    hide Run, BlocksOf, Regained;
    assert [] + [(32, m)] == [(32, m)];
    assert [(32, m)] + [(m + 64, 65568)] == MemoryRanges(m);
    assert {} + Run(32, m) == Run(32, m);
  }

  lemma MemoryStarts(m: nat, max: nat)
    requires m == 4064 && max == 73728
    ensures Usable(MemoryRanges(m), max)
    ensures Start(Frames(BlocksOf(MemoryRanges(m)), map[], max - Regained(MemoryRanges(m))), max, m)
  {
    MemorySums(m);
    hide Run, BlocksOf, Regained;
  }

  /** Boot there succeeds, calloc included, with every table mapped onto itself. */
  method Boot(space: VM.Space, kernelAddress: Word, ghost m: nat) returns (heap: H.Heap)
    requires space.mem != space.pmm.memoryMap && space.pmm.Valid() && VM.InMemory(space.pmm.State(), space.mem.Length)
    requires kernelAddress % 4096 == 0 && kernelAddress + 0x40_0000 <= 0x8000_0000
    requires Start(space.pmm.State(), space.pmm.maxBlocks, m) && 320 <= m
    modifies space, space.mem, space.pmm`usedBlocks, space.pmm`live, space.pmm.memoryMap
    ensures heap.vm == space && heap.Valid() && K.FirstHeap(heap.shape, heap.End(), 1)
    ensures I.TablesLow(space.View(), 1024) && 0 in space.View().tables
    ensures Wide(space.View().frames, space.pmm.maxBlocks, 6, m / 32 - 5, m + 64)
  {
    hide *;
    ghost var f, max := space.pmm.State(), space.pmm.maxBlocks;
    var ok, kernelHeap, p, v, e := K.InitVirtualMemoryManager(space, kernelAddress);
    NeverRefused(f, max, m);
    BootLow(f, max, m, kernelAddress / 4096, v);
    EnoughWords(m);
    CallocGranted(v, space.View(), max, e, p, m / 32 - 3, m + 64);
    SameFirstHeap(kernelHeap.shape, kernelHeap.End(), p);
    return kernelHeap;
  }

  lemma EnoughWords(m: nat)
    requires 320 <= m
    ensures 10 <= m / 32
  {
  }

  lemma SameFirstHeap(shape: Shape, end: nat, p: Word)
    requires K.FirstHeap(shape, end, p) && p != 0
    ensures K.FirstHeap(shape, end, 1)
  {
  }

  lemma NeverRefused(f: Frames, max: Word, m: nat)
    requires Start(f, max, m)
    ensures !exists d, high :: VM.BootRefused(f, max, d, high)
  {
    hide Start, VM.BootRefused;
    forall d, high ensures !VM.BootRefused(f, max, d, high) {
      BootGranted(f, max, m, d, high);
    }
  }

  /** map_page of the pages 1024 to 4095 onto themselves, beside a heap. */
  method MapBesideHeap(heap: H.Heap, ghost k: nat, ghost c: nat)
    requires heap.Valid() && I.TablesLow(heap.vm.View(), 1024) && 0 in heap.vm.View().tables && 5 <= k
    requires Wide(heap.vm.View().frames, heap.vm.pmm.maxBlocks, 6, k, c)
    modifies heap.vm.mem, heap.vm.pmm`usedBlocks, heap.vm.pmm`live, heap.vm.pmm.memoryMap
    ensures heap.Valid() && I.TablesLow(heap.vm.View(), 4096) && 0 in heap.vm.View().tables
    ensures Wide(heap.vm.View().frames, heap.vm.pmm.maxBlocks, 9, k - 3, c)
  {
    hide *;
    heap.ValidParts();
    ghost var end := heap.End();
    LowItself(heap.vm.View(), end);
    MapMoreItself(heap.vm, end, k, c);
    ItselfParts(heap.vm.View(), 4096, end);
    heap.HeapValid(end);
    LowTo4096(heap.vm.View());
  }

  lemma LowItself(v: P.View, end: nat)
    requires I.TablesLow(v, 1024) && 0 in v.tables && Backed(v, end)
    ensures ItselfTo(v, 1024, end)
  {
    hide Backed, P.TableFrame, I.Itself;
  }

  lemma LowTo4096(v: P.View)
    requires I.TablesLow(v, 1024) && forall q: nat | q < 4096 :: I.Itself(v, q)
    ensures I.TablesLow(v, 4096)
  {
    hide P.TableFrame, I.Itself;
  }

  lemma ZeroItself(v: P.View)
    requires I.TablesLow(v, 4096)
    ensures 0 in v.pages && v.pages[0] == 0 && I.TablesReachable(v)
  {
    LowReachable(v, 4096);
    assert I.Itself(v, 0);
    hide I.TablesLow, I.TablesReachable;
  }

  lemma OnePage(shape: Shape, end: nat)
    requires K.FirstHeap(shape, end, 1)
    ensures shape.frees == [] && shape.pages == [0xF000_0000] && end == 0xF000_1000
  {
  }

  /**
   * The run: boot, the pages 1024 to 4095 onto themselves, malloc(0x0FFFEFE0), malloc(4096).  The
   * first malloc fills the window; the second is granted two pages at address 0, answers NULL, and
   * has moved page 0 off frame 0.  Before and after it every table is mapped onto itself.
   */
  method PageZeroTaken(kernelAddress: Word) returns (heap: H.Heap, p: Word, ghost before: P.View, ghost e: P.Event)
    requires kernelAddress % 4096 == 0 && kernelAddress + 0x40_0000 <= 0x8000_0000
    ensures heap.Valid() && p == 0 && P.Legal(before, e) && heap.vm.View() == P.Apply(before, e)
    ensures I.TablesReachable(before) && I.TablesReachable(heap.vm.View())
    ensures e.NewPages? && e.page == 0 && e.count == 2
    ensures 0 in before.pages && before.pages[0] == 0
    ensures 0 in heap.vm.View().pages && 32 <= heap.vm.View().pages[0]
  {
    hide *;
    var m, max := 4064, 73728;
    MemoryStarts(m, max);
    var space := MemoryOf(max, MemoryRanges(m));
    heap := Boot(space, kernelAddress, m);
    MapBesideHeap(heap, 122, 4128);
    OnePage(heap.shape, heap.End());
    FillWindow(heap, 9, 119, 4128);
    before := heap.vm.View();
    ZeroItself(before);
    FillSizes();
    p, e := MallocAtEnd(heap, 4096, 4128 + 65536);
  }
}
