// The code reads and writes the directory and the tables at their physical addresses, taken as
// virtual ones.  That reaches them as long as each of their frames is mapped onto itself.
module PagingIdentity {
  import opened Bits
  import opened FrameOwnership
  import opened PagingSpec
  import VM = AddressSpace

  /** Page f translates to frame f. */
  ghost predicate Itself(v: View, f: nat) {
    f in v.pages && v.pages[f] == f
  }

  /** Every frame of the directory and of the tables is mapped onto itself. */
  ghost predicate TablesReachable(v: View) {
    forall f | TableFrame(v, f) :: Itself(v, f)
  }

  function NewsOf(e: PagingSpec.Event): seq<Install> {
    match e
    case MapPage(_, _, news) => news
    case Scan(news) => news
    case NewPages(_, _, _, news) => news
    case NewPagesFailed(_, _, _, news, _) => news
    case _ => []
  }

  /** The step makes a table of frame f. */
  ghost predicate NewTable(e: PagingSpec.Event, f: nat) {
    exists t :: t in NewsOf(e) && t.frame == f
  }

  /** The step takes page p away or maps it onto another frame. */
  ghost predicate Displaces(e: PagingSpec.Event, p: nat) {
    match e
    case MapPage(page, frame, _) => p == page && p != frame
    case UnmapPage(page) => p == page
    case NewPages(page, n, base, _) => p in Range(page, n)
    case NewPagesFailed(page, _, _, _, mapped) => p in Range(page, mapped)
    case _ => false
  }

  /** The step maps page p onto itself. */
  ghost predicate Restores(e: PagingSpec.Event, p: nat) {
    e.MapPage? && p == e.page == e.frame
  }

  /** No page of a table is displaced, and new tables lie where they can be reached already. */
  ghost predicate Undisturbed(v: View, e: PagingSpec.Event) {
    && (forall f | TableFrame(v, f) || NewTable(e, f) :: !Displaces(e, f))
    && (forall f | NewTable(e, f) :: Itself(v, f) || Restores(e, f))
  }

  // ---- one step ---------------------------------------------------------------------------------

  ghost predicate TableOf(v: View, f: nat) {
    exists i :: i in v.tables && v.tables[i] == f
  }

  lemma {:induction false} InstalledFrames(v: View, news: seq<Install>, f: nat)
    requires CanInstallAll(v, news)
    ensures TableOf(InstallAll(v, news), f) <==> TableOf(v, f) || exists t :: t in news && t.frame == f
    decreases |news|
  {
    if news == [] {
    } else {
      var init, last := news[..|news| - 1], news[|news| - 1];
      InstalledFrames(v, init, f);
      InstalledOne(InstallAll(v, init), last, f);
      assert news == init + [last];
      hide InstallOne, TableOf, CanInstall;
    }
  }

  lemma InstalledOne(v: View, t: Install, f: nat)
    requires CanInstall(v, t)
    ensures TableOf(InstallOne(v, t), f) <==> TableOf(v, f) || t.frame == f
  {
    var w := InstallOne(v, t);
    assert t.index in w.tables && w.tables[t.index] == t.frame;
    if TableOf(v, f) {
      var i :| i in v.tables && v.tables[i] == f;
      assert i in w.tables && w.tables[i] == f;
    }
  }

  /** The table frames after a step are those before it and the new ones. */
  lemma TableFramesAfter(v: View, e: PagingSpec.Event, f: nat)
    requires Legal(v, e)
    ensures TableFrame(Apply(v, e), f) <==> TableFrame(v, f) || NewTable(e, f)
  {
    var u := if e.NewPages? || e.NewPagesFailed? then WithRun(v, e.base, e.count) else v;
    InstallNone(u);
    InstalledFrames(u, NewsOf(e), f);
    TablesAfter(v, e, u);
    hide Legal, Apply, NewsOf, InstallAll, CanInstallAll;
    assert TableOf(u, f) == TableOf(v, f);
  }

  lemma TablesAfter(v: View, e: PagingSpec.Event, u: View)
    requires Legal(v, e) && u == if e.NewPages? || e.NewPagesFailed? then WithRun(v, e.base, e.count) else v
    ensures CanInstallAll(u, NewsOf(e)) && Apply(v, e).tables == InstallAll(u, NewsOf(e)).tables
    ensures Apply(v, e).dir == v.dir && u.tables == v.tables
  {
    InstallNone(u);
    if CanInstallAll(u, NewsOf(e)) { InstallKeeps(u, NewsOf(e)); }
  }

  /** A page of a new range lies on a frame of the run, which is no table's frame. */
  lemma NewPageElsewhere(v: View, e: PagingSpec.Event, f: nat)
    requires VInv(v) && Legal(v, e) && e.NewPages? && TableFrame(Apply(v, e), f) && f in Range(e.page, e.count)
    ensures !Itself(Apply(v, e), f)
  {
    hide Legal, Apply, VInv, TableFrame, DataRun;
    var j := RangeIndex(e.page, e.count, f);
    SuccessfulAllocation(v, e, j);
    StepKeepsInvariant(v, e);
    TableFrameOwned(Apply(v, e), f);
    assert e.base + j in Run(e.base, e.count);
  }

  lemma {:induction false} RangeIndex(page: nat, n: nat, p: nat) returns (j: nat)
    requires p in Range(page, n)
    ensures j < n && PageAt(page, j) == p
  {
    if p == PageAt(page, n - 1) {
      j := n - 1;
    } else {
      j := RangeIndex(page, n - 1, p);
    }
  }

  lemma ItselfAfter(v: View, e: PagingSpec.Event, f: nat)
    requires VInv(v) && Legal(v, e) && TableFrame(Apply(v, e), f)
    ensures Itself(Apply(v, e), f) <==> !Displaces(e, f) && (Itself(v, f) || Restores(e, f))
  {
    hide TableFrame, VInv;
    match e
    case MapPage(_, _, news) => InstallKeeps(v, news);
    case UnmapPage(_) =>
    case Scan(news) => InstallKeeps(v, news);
    case NewPages(page, n, base, news) =>
      if f in Range(page, n) { NewPageElsewhere(v, e, f); }
    case NewPagesFailed(page, n, base, news, mapped) =>
    case Reserve(_, _) =>
    case Release(_) =>
  }

  /** A step keeps the directory and the tables reachable exactly when it is undisturbed. */
  lemma ReachableExact(v: View, e: PagingSpec.Event)
    requires VInv(v) && Legal(v, e) && TablesReachable(v)
    ensures TablesReachable(Apply(v, e)) <==> Undisturbed(v, e)
  {
    hide VInv, Legal, Apply, TableFrame, NewTable, Displaces, Restores, Itself;
    forall f
      ensures TableFrame(Apply(v, e), f) <==> TableFrame(v, f) || NewTable(e, f)
      ensures TableFrame(Apply(v, e), f)
        ==> (Itself(Apply(v, e), f) <==> !Displaces(e, f) && (Itself(v, f) || Restores(e, f)))
    {
      TableFramesAfter(v, e, f);
      if TableFrame(Apply(v, e), f) { ItselfAfter(v, e, f); }
    }
  }

  /** A frame of a table, or of one of the new tables. */
  ghost predicate TableSoFar(v: View, news: seq<Install>, f: nat) {
    TableFrame(v, f) || exists t :: t in news && t.frame == f
  }

  /**
   * The same inside allocate_new_page, after any number of pages: when no table, old or new, lies
   * in the range and all were mapped onto themselves before, all are after each map_page.
   */
  lemma ReachableMeanwhile(v: View, w: View, page: nat, n: nat, base: nat, news: seq<Install>, i: nat)
    requires MappedSoFar(v, w, page, n, base, news, i) && i <= n
    requires forall f | TableSoFar(v, news, f) :: f !in Range(page, n) && Itself(v, f)
    ensures TablesReachable(w)
  {
    RangeSub(page, i, n);
    InstallNone(WithRun(v, base, n));
    InstallKeeps(WithRun(v, base, n), news);
    forall f | TableFrame(w, f) ensures Itself(w, f) {
      InstalledFrames(WithRun(v, base, n), news, f);
      hide InstallAll, CanInstallAll, NewsWithin;
      assert TableOf(w, f) == TableOf(InstallAll(WithRun(v, base, n), news), f);
      assert TableOf(WithRun(v, base, n), f) == TableOf(v, f);
      assert TableSoFar(v, news, f);
    }
  }

  // ---- runs of steps ----------------------------------------------------------------------------

  /** The pages below this one are mapped onto themselves, and the tables lie there. */
  ghost predicate TablesLow(v: View, bound: nat) {
    (forall p: nat | p < bound :: Itself(v, p)) && forall f: nat | TableFrame(v, f) :: f < bound
  }

  ghost predicate StaysLow(e: PagingSpec.Event, bound: nat) {
    (forall p: nat | p < bound :: !Displaces(e, p)) && forall f: nat | NewTable(e, f) :: f < bound
  }

  lemma LowKept(v: View, e: PagingSpec.Event, bound: nat)
    requires VInv(v) && Legal(v, e) && TablesLow(v, bound) && StaysLow(e, bound)
    ensures TablesLow(Apply(v, e), bound)
  {
    forall p: nat | p < bound ensures Itself(Apply(v, e), p) {
      LowPage(v, e, p);
    }
    forall f: nat | TableFrame(Apply(v, e), f) ensures f < bound {
      TableFramesAfter(v, e, f);
    }
    hide VInv, Legal, Apply, TableFrame, NewTable, Displaces, Itself;
  }

  lemma LowPage(v: View, e: PagingSpec.Event, p: nat)
    requires Legal(v, e) && Itself(v, p) && !Displaces(e, p)
    ensures Itself(Apply(v, e), p)
  {
    match e
    case MapPage(_, _, news) => InstallKeeps(v, news);
    case UnmapPage(_) =>
    case Scan(news) => InstallKeeps(v, news);
    case NewPages(_, _, _, _) =>
    case NewPagesFailed(_, _, _, _, _) =>
    case Reserve(_, _) =>
    case Release(_) =>
  }

  /**
   * Over every run whose steps leave the pages below the bound alone and put new tables below it,
   * the directory and the tables stay reachable.
   */
  lemma {:induction false} ReachableOverTraces(states: seq<View>, events: seq<PagingSpec.Event>, bound: nat, k: nat)
    requires PagingSpec.Trace(states, events) && VInv(states[0]) && TablesLow(states[0], bound) && k < |states|
    requires forall i | 0 <= i < |events| :: StaysLow(events[i], bound)
    ensures TablesLow(states[k], bound) && TablesReachable(states[k])
  {
    hide VInv, Legal, Apply, TableFrame, StaysLow, Itself;
    if k == 0 {
    } else {
      ReachableOverTraces(states, events, bound, k - 1);
      InvariantOverTraces(states, events, k - 1);
      LowKept(states[k - 1], events[k - 1], bound);
    }
  }

  /**
   * map_page of a page from the bound on, while a block below it is sure to be found: it succeeds
   * and keeps the tables below the bound, where they are mapped onto themselves.
   */
  method MapReachable(space: VM.Space, physicalAddress: Word, virtualAddress: Word, ghost bound: nat, ghost c: nat)
    returns (ok: bool)
    requires space.Valid() && physicalAddress % 4096 == 0 && physicalAddress < 0x8000_0000
    requires TablesLow(space.View(), bound) && bound <= virtualAddress / 4096
    requires Offers(space.View().frames, space.pmm.maxBlocks, c, 1) && c < bound
    modifies space.mem, space.pmm`usedBlocks, space.pmm`live, space.pmm.memoryMap
    ensures ok && space.Valid() && TablesLow(space.View(), bound) && TablesReachable(space.View())
  {
    ghost var page, frame := virtualAddress / 4096, physicalAddress / 4096;
    hide *;
    ghost var v, max := space.View(), space.pmm.maxBlocks;
    FrameBelow(space, c);
    ghost var news := [];
    ok, news := space.MapPage(physicalAddress, virtualAddress);
    MappedLow(v, MapPage(page, frame, news), max, bound, c);
  }

  lemma FrameBelow(space: VM.Space, c: nat)
    requires space.Valid() && Offers(space.View().frames, space.pmm.maxBlocks, c, 1)
    ensures !space.pmm.Refuses(1) && VInv(space.View())
  {
    space.pmm.OfferFound(c, 1);
    hide VInv;
  }

  lemma MappedLow(v: View, e: PagingSpec.Event, max: Word, bound: nat, c: nat)
    requires VInv(v) && Legal(v, e) && TablesLow(v, bound) && e.MapPage? && bound <= e.page
    requires Offers(v.frames, max, c, 1) && c < bound
    requires forall t | t in e.news :: FirstOffer(v.frames, max, t.frame, 1)
    ensures TablesLow(Apply(v, e), bound) && TablesReachable(Apply(v, e))
  {
    assert StaysLow(e, bound);
    hide VInv, Legal, Apply, TableFrame, StaysLow, Itself;
    LowKept(v, e, bound);
  }

  // ---- boot, and pages granted at address 0 ------------------------------------------------------------

  /** Where exactly the pages below a bound are mapped onto themselves, the tables have to lie there. */
  lemma ReachableBelow(v: View, bound: nat, limit: nat)
    requires bound <= limit && forall p: nat | p < limit :: Itself(v, p) <==> p < bound
    requires v.dir + 3 <= limit && forall i | i in v.tables :: v.tables[i] < limit
    ensures TablesReachable(v) <==> v.dir + 3 <= bound && forall i | i in v.tables :: v.tables[i] < bound
  {
    hide Itself;
    assert TableFrame(v, v.dir + 2);
    forall i | i in v.tables ensures TableFrame(v, v.tables[i]) {
    }
  }

  /** After boot they are reachable exactly when all five frames lie in the first 4 MiB. */
  lemma BootReachable(f: Frames, d: nat, high: nat, low: nat, kernel: nat)
    requires d + 3 <= 0x8_0000 && high < 0x8_0000 && low < 0x8_0000
    ensures var v := VM.BootedView(f, d, high, low, kernel);
      && (TablesReachable(v) <==> d + 3 <= 1024 && high < 1024 && low < 1024)
      && (TablesReachable(v) ==> TablesLow(v, 1024))
  {
    var v := VM.BootedView(f, d, high, low, kernel);
    assert v.tables[0] == low && v.tables[768] == high;
    assert TableFrame(v, d + 2) && TableFrame(v, high) && TableFrame(v, low);
    assert forall p: nat | p < 0x8_0000 :: Itself(v, p) <==> p < 1024;
    assert forall t: nat | TableFrame(v, t) :: t == low || t == high || d <= t < d + 3;
  }

  /** Pages granted from address 0 on take every table away whose frame they reach. */
  lemma LostAtZero(v: View, e: PagingSpec.Event, f: nat)
    requires VInv(v) && Legal(v, e) && TablesReachable(v)
    requires e.NewPages? && e.page == 0 && TableFrame(v, f) && f < e.count
    ensures !TablesReachable(Apply(v, e))
  {
    AtZeroDisplaces(v, e, f);
    ReachableExact(v, e);
    hide VInv, Legal, Apply, TableFrame, NewTable, Displaces, Restores, Itself, TablesReachable;
  }

  lemma AtZeroDisplaces(v: View, e: PagingSpec.Event, f: nat)
    requires Legal(v, e) && e.NewPages? && e.page == 0 && f < e.count
    ensures Displaces(e, f)
  {
    assert f < 0x10_0000;
    PageAtPlain(0, f);
    hide PageAt, Range;
    RangeMember(0, e.count, f);
  }
}
