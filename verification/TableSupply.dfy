// Enough blocks for the page tables a call needs, below a bound: conditions a caller can check
// beforehand, under which allocate_new_page and find_free_page succeed and keep every table
// where the code reaches it.
module TableSupply {
  import opened Bits
  import opened FrameOwnership
  import opened PageEntry
  import opened PagingIdentity
  import opened PagingRollback
  import opened PagingSpec
  import S = PageScan
  import VM = AddressSpace

  // ---- blocks -------------------------------------------------------------------------------------

  /** From bitmap word u on, k words have their first block free, and the counter leaves room. */
  ghost predicate Spare(f: Frames, max: Word, u: nat, k: nat) {
    && 1 <= u && 32 * (u + k) <= max / 32 * 32 && k < Wrap(max - f.used)
    && forall w: nat | u <= w < u + k :: 32 * w in f.free
  }

  lemma SpareOffers(f: Frames, max: Word, u: nat, k: nat)
    requires Spare(f, max, u, k) && 1 <= k
    ensures Offers(f, max, 32 * u, 1)
  {
  }

  lemma SpareFewer(f: Frames, max: Word, u: nat, k: nat, k': nat)
    requires Spare(f, max, u, k) && k' <= k
    ensures Spare(f, max, u, k')
  {
  }

  /** A single block comes from word u or before it, and leaves the words behind it. */
  lemma SpareStep(f: Frames, max: Word, u: nat, k: nat, s: nat)
    requires Spare(f, max, u, k) && 1 <= k && CanAlloc(f, s, 1) && FirstOffer(f, max, s, 1)
    ensures s <= 32 * u && Spare(AllocRun(f, s, 1), max, u + 1, k - 1)
  {
    SpareOffers(f, max, u, k);
    CounterStep(max, f.used);
  }

  lemma CounterStep(max: Word, used: Word)
    requires 1 <= Wrap(max - used)
    ensures Wrap(max - Wrap(used + 1)) == Wrap(max - used) - 1
  {
  }

  lemma {:induction false} SpareAll(v: View, news: seq<Install>, max: Word, u: nat, k: nat)
    requires CanInstallAll(v, news) && TakenInOrder(v, news, max) && |news| <= k && Spare(v.frames, max, u, k)
    ensures Spare(InstallAll(v, news).frames, max, u + |news|, k - |news|)
    ensures forall t | t in news :: t.frame + 32 <= 32 * (u + |news|)
    decreases |news|
  {
    if news == [] {
    } else {
      var init, last := news[..|news| - 1], news[|news| - 1];
      SpareAll(v, init, max, u, k);
      hide Spare, FirstOffer;
      SpareStep(InstallAll(v, init).frames, max, u + |init|, k - |init|, last.frame);
      assert news == init + [last];
    }
  }

  // ---- how many tables are new ----------------------------------------------------------------------

  ghost function Indices(news: seq<Install>): (r: set<nat>)
    ensures forall i | i in r :: exists t :: t in news && t.index == i
    decreases |news|
  {
    if news == [] then {} else
      var last := news[|news| - 1];
      assert last in news && forall t | t in news[..|news| - 1] :: t in news;
      Indices(news[..|news| - 1]) + {last.index}
  }

  lemma LastInstall(v: View, news: seq<Install>)
    requires CanInstallAll(v, news) && news != []
    ensures var init, last := news[..|news| - 1], news[|news| - 1];
      && CanInstallAll(v, init) && last.index !in InstallAll(v, init).tables
      && InstallAll(v, news) == InstallOne(InstallAll(v, init), last)
      && Indices(news) == Indices(init) + {last.index}
  {
    hide InstallOne, AllocRun, CanAlloc;
  }

  lemma NoIndices(v: View)
    ensures InstallAll(v, []) == v && Indices([]) == {}
  {
  }

  lemma {:induction false} InstalledIndices(v: View, news: seq<Install>)
    requires CanInstallAll(v, news)
    ensures InstallAll(v, news).tables.Keys == v.tables.Keys + Indices(news)
    ensures Indices(news) !! v.tables.Keys && |Indices(news)| == |news|
    decreases |news|
  {
    hide *;
    if news == [] {
      NoIndices(v);
    } else {
      var init, last := news[..|news| - 1], news[|news| - 1];
      LastInstall(v, news);
      InstalledIndices(v, init);
      InstalledKeys(InstallAll(v, init), last);
      OneMore(v.tables.Keys, Indices(init), InstallAll(v, init).tables.Keys, last.index);
    }
  }

  lemma OneMore(a: set<nat>, b: set<nat>, c: set<nat>, x: nat)
    requires b !! a && c == a + b && x !in c
    ensures b + {x} !! a && |b + {x}| == |b| + 1 && c + {x} == a + (b + {x})
  {
  }

  lemma InstalledKeys(v: View, t: Install)
    ensures InstallOne(v, t).tables.Keys == v.tables.Keys + {t.index}
  {
    hide AllocRun;
  }

  lemma SubsetSize(a: set<nat>, b: set<nat>)
    requires a <= b
    ensures |a| <= |b|
  {
    assert b == a + (b - a);
  }

  /** The directory entries from lo on, below hi, that have no table. */
  ghost function AbsentEntries(v: View, lo: nat, hi: nat): set<nat> {
    set i: nat | lo <= i < hi && i !in v.tables
  }

  lemma EntriesBound(v: View, lo: nat, hi: nat)
    requires lo <= hi
    ensures |AbsentEntries(v, lo, hi)| <= hi - lo
  {
    SubsetSize(AbsentEntries(v, lo, hi), Run(lo, hi - lo));
    RunSize(lo, hi - lo);
  }

  /** New tables for absent entries are at most as many, and fewer while one is still absent. */
  lemma NewsFit(v: View, news: seq<Install>, lo: nat, hi: nat)
    requires CanInstallAll(v, news) && forall t | t in news :: lo <= t.index < hi
    ensures |news| <= |AbsentEntries(v, lo, hi)|
    ensures (exists i: nat :: lo <= i < hi && i !in InstallAll(v, news).tables) ==> |news| < |AbsentEntries(v, lo, hi)|
  {
    InstalledIndices(v, news);
    hide CanInstallAll, InstallAll;
    var absent := AbsentEntries(v, lo, hi);
    hide Indices;
    assert Indices(news) <= absent;
    SubsetSize(Indices(news), absent);
    if i: nat :| lo <= i < hi && i !in InstallAll(v, news).tables {
      assert i !in Indices(news) && Indices(news) + {i} <= absent;
      SubsetSize(Indices(news) + {i}, absent);
    }
  }

  // ---- allocate_new_page ------------------------------------------------------------------------------

  /** Whatever run of n blocks is handed out, k words from u on still have their first block free. */
  ghost predicate Leaves(f: Frames, max: Word, n: nat, u: nat, k: nat) {
    forall base: nat | VM.Reserved(f, max, base, n) :: Spare(AllocRun(f, base, n), max, u, k)
  }

  /** That is so for a single block, */
  lemma LeavesBehindOne(f: Frames, max: Word, u: nat, k: nat)
    requires Spare(f, max, u, k) && 1 <= k
    ensures Leaves(f, max, 1, u + 1, k - 1)
  {
    hide Spare, FirstOffer;
    forall base: nat | VM.Reserved(f, max, base, 1) ensures Spare(AllocRun(f, base, 1), max, u + 1, k - 1) {
      SpareStep(f, max, u, k, base);
    }
  }

  /** and for a run that is the lowest there is and lies behind the words. */
  lemma LeavesBehindLowest(f: Frames, max: Word, c: nat, n: nat, u: nat, k: nat)
    requires Lowest(f, max, c, n) && Spare(f, max, u, k) && 32 * (u + k) <= c && n + k < Wrap(max - f.used)
    ensures Leaves(f, max, n, u, k)
  {
    CounterRun(max, f.used, n);
    forall base: nat | VM.Reserved(f, max, base, n) ensures Spare(AllocRun(f, base, n), max, u, k) {
      LowestReserved(f, max, c, n, base);
    }
  }

  lemma CounterRun(max: Word, used: Word, n: nat)
    requires n <= Wrap(max - used)
    ensures Wrap(max - Wrap(used + n)) == Wrap(max - used) - n
  {
  }

  /** The pages from page on are n pages in front of 4 GiB, none below the bound. */
  ghost predicate Above(page: nat, n: nat, bound: nat) {
    1 <= n && bound <= page && page + n <= 0x10_0000
  }

  /** The directory entries these pages need and do not have. */
  ghost function Needed(v: View, page: nat, n: nat): set<nat> {
    if n == 0 then {} else AbsentEntries(v, page / 1024, (page + n - 1) / 1024 + 1)
  }

  lemma RangeEntry(page: nat, n: nat, p: nat)
    requires page + n <= 0x10_0000 && p in Range(page, n)
    ensures page <= p < page + n && page / 1024 <= p / 1024 < (page + n - 1) / 1024 + 1
  {
    var j := RangeIndex(page, n, p);
    PageAtPlain(page, j);
  }

  /**
   * What allocate_new_page needs to succeed with all tables below the bound: a run sure to be
   * found, and behind it as many blocks below the bound as tables are missing.
   */
  ghost predicate Supplied(v: View, max: Word, page: nat, n: nat, c: nat, u: nat, k: nat, bound: nat) {
    && Above(page, n, bound) && TablesLow(v, bound)
    && Offers(v.frames, max, c, n) && Leaves(v.frames, max, n, u, k)
    && |Needed(v, page, n)| <= k && 32 * (u + k) <= bound + 31
  }

  /** A call fails only when the spare blocks are fewer than the tables it needs. */
  lemma FailedMeansShort(v: View, e: PagingSpec.Event, max: Word, n: nat, u: nat, k: nat)
    requires Legal(v, e) && Answers(v, e, max, n) && e.NewPagesFailed?
    requires 1 <= n && e.page + n <= 0x10_0000 && Spare(AllocRun(v.frames, e.base, n), max, u, k)
    ensures k < |Needed(v, e.page, n)|
  {
    var w := WithRun(v, e.base, n);
    FailedParts(v, e, max, n);
    MissingEntry(e.page, n, e.mapped);
    hide *;
    NewsOfRange(e.news, e.page, e.mapped, n);
    NeededOf(v, w, e.page, n);
    NewsFit(w, e.news, e.page / 1024, (e.page + n - 1) / 1024 + 1);
    if |e.news| < k {
      NoneOffered(InstallAll(w, e.news).frames, max, 32 * (u + |e.news|), 1);
      SpareAll(w, e.news, max, u, k);
      SpareOffers(InstallAll(w, e.news).frames, max, u + |e.news|, k - |e.news|);
    }
  }

  lemma FailedParts(v: View, e: PagingSpec.Event, max: Word, n: nat)
    requires Legal(v, e) && Answers(v, e, max, n) && e.NewPagesFailed?
    ensures var w := WithRun(v, e.base, n);
      && e.count == n && e.mapped < n && CanInstallAll(w, e.news) && NewsWithin(e.news, e.page, e.mapped)
      && TakenInOrder(w, e.news, max) && NoOffer(InstallAll(w, e.news).frames, max, 1)
      && w.frames == AllocRun(v.frames, e.base, n) && w.tables == v.tables
      && PageAt(e.page, e.mapped) / 1024 !in InstallAll(w, e.news).tables
  {
    hide CanInstallAll, InstallAll, AllocRun, TakenInOrder, NoOffer, NewsWithin;
  }

  lemma NeededOf(v: View, w: View, page: nat, n: nat)
    requires w.tables == v.tables && 1 <= n
    ensures Needed(v, page, n) == AbsentEntries(w, page / 1024, (page + n - 1) / 1024 + 1)
  {
  }

  lemma NoneOffered(f: Frames, max: Word, c: nat, n: nat)
    requires NoOffer(f, max, n)
    ensures !Offers(f, max, c, n)
  {
  }

  /** When it succeeds, its new tables come out of the spare blocks. */
  lemma NewTablesFit(v: View, e: PagingSpec.Event, max: Word, n: nat, u: nat, k: nat)
    requires Legal(v, e) && Answers(v, e, max, n) && e.NewPages?
    requires 1 <= n && e.page + n <= 0x10_0000 && Spare(AllocRun(v.frames, e.base, n), max, u, k)
    requires |Needed(v, e.page, n)| <= k
    ensures |e.news| <= |Needed(v, e.page, n)|
    ensures Spare(Apply(v, e).frames, max, u + |e.news|, k - |e.news|)
    ensures forall t | t in e.news :: t.frame + 32 <= 32 * (u + |e.news|)
  {
    var w := WithRun(v, e.base, n);
    GrantedParts(v, e, max, n);
    hide *;
    NewsOfRange(e.news, e.page, n, n);
    NeededOf(v, w, e.page, n);
    NewsFit(w, e.news, e.page / 1024, (e.page + n - 1) / 1024 + 1);
    SpareAll(w, e.news, max, u, k);
  }

  lemma GrantedParts(v: View, e: PagingSpec.Event, max: Word, n: nat)
    requires Legal(v, e) && Answers(v, e, max, n) && e.NewPages?
    ensures var w := WithRun(v, e.base, n);
      && e.count == n && CanInstallAll(w, e.news) && NewsWithin(e.news, e.page, n) && TakenInOrder(w, e.news, max)
      && w.frames == AllocRun(v.frames, e.base, n) && w.tables == v.tables
      && Apply(v, e).frames == InstallAll(w, e.news).frames
  {
    hide CanInstallAll, InstallAll, AllocRun, TakenInOrder, NoOffer, NewsWithin;
  }

  lemma MissingEntry(page: nat, n: nat, m: nat)
    requires page + n <= 0x10_0000 && m < n
    ensures page / 1024 <= PageAt(page, m) / 1024 < (page + n - 1) / 1024 + 1
  {
    PageAtPlain(page, m);
  }

  lemma NewsOfRange(news: seq<Install>, page: nat, m: nat, n: nat)
    requires NewsWithin(news, page, m) && m <= n && page + n <= 0x10_0000
    ensures forall t | t in news :: page / 1024 <= t.index < (page + n - 1) / 1024 + 1
  {
    RangeSub(page, m, n);
    forall t | t in news ensures page / 1024 <= t.index < (page + n - 1) / 1024 + 1 {
      var p :| p in Range(page, m) && p / ENTRIES == t.index;
      RangeEntry(page, n, p);
    }
  }

  lemma SuppliedParts(v: View, e: PagingSpec.Event, max: Word, page: nat, n: nat, c: nat, u: nat, k: nat, bound: nat)
    requires Supplied(v, max, page, n, c, u, k, bound) && Legal(v, e) && Answers(v, e, max, n)
    ensures TablesLow(v, bound) && 1 <= n && bound <= page && page + n <= 0x10_0000
    ensures |Needed(v, page, n)| <= k && 32 * (u + k) <= bound + 31
    ensures e.NewPages? || e.NewPagesFailed?
    ensures Spare(AllocRun(v.frames, e.base, n), max, u, k)
  {
    NotBoth(v.frames, max, c, n);
    hide TablesLow, Spare, FirstOffer, TakenInOrder, NewsWithin, NoOffer, Offers;
    if e.NewPages? || e.NewPagesFailed? { assert VM.Reserved(v.frames, max, e.base, n); }
  }

  lemma NotBoth(f: Frames, max: Word, c: nat, n: nat)
    requires Offers(f, max, c, n)
    ensures !NoOffer(f, max, n)
  {
  }

  /** Such a call succeeds, and all tables stay below the bound. */
  lemma SuppliedGrant(v: View, e: PagingSpec.Event, max: Word, page: nat, n: nat, c: nat, u: nat, k: nat, bound: nat)
    requires VInv(v) && Legal(v, e) && Answers(v, e, max, n) && Supplied(v, max, page, n, c, u, k, bound)
    requires e == Scan([]) || ((e.NewPages? || e.NewPagesFailed?) && e.page == page)
    ensures e.NewPages? && e.count == n && TablesLow(Apply(v, e), bound) && TablesReachable(Apply(v, e))
    ensures |e.news| <= |Needed(v, page, n)| <= k
    ensures Spare(Apply(v, e).frames, max, u + |e.news|, k - |e.news|)
  {
    SuppliedParts(v, e, max, page, n, c, u, k, bound);
    hide *;
    if e.NewPagesFailed? {
      FailedMeansShort(v, e, max, n, u, k);
    } else {
      NewTablesFit(v, e, max, n, u, k);
      GrantedParts(v, e, max, n);
      GrantLow(e, page, n, bound, u + |e.news|);
      LowKept(v, e, bound);
      LowReachable(Apply(v, e), bound);
    }
  }

  lemma GrantLow(e: PagingSpec.Event, page: nat, n: nat, bound: nat, u: nat)
    requires e.NewPages? && e.page == page && e.count == n && bound <= page && page + n <= 0x10_0000
    requires forall t | t in e.news :: t.frame + 32 <= 32 * u
    requires 32 * u <= bound + 31
    ensures StaysLow(e, bound)
  {
    forall p: nat | p < bound ensures !Displaces(e, p) {
      RangeBefore(page, n, p);
    }
  }

  lemma LowReachable(v: View, bound: nat)
    requires TablesLow(v, bound)
    ensures TablesReachable(v)
  {
    hide TableFrame;
  }

  /** allocate_new_page, supplied like that. */
  method AllocateReachable(space: VM.Space, address: Word, n: nat, ghost c: nat, ghost u: nat, ghost k: nat,
                           ghost bound: nat)
    returns (r: Word)
    requires space.Valid() && Supplied(space.View(), space.pmm.maxBlocks, address / 4096, n, c, u, k, bound)
    modifies space.mem, space.pmm`usedBlocks, space.pmm`live, space.pmm.memoryMap
    ensures r == address && space.Valid() && TablesLow(space.View(), bound) && TablesReachable(space.View())
  {
    ghost var page := address / 4096;
    hide *;
    ghost var v, max := space.View(), space.pmm.maxBlocks;
    SpaceInvariant(space);
    ghost var e := Scan([]);
    r, e := space.AllocateNewPage(address, n);
    SuppliedGrant(v, e, max, page, n, c, u, k, bound);
  }

  lemma SpaceInvariant(space: VM.Space)
    requires space.Valid()
    ensures VInv(space.View())
  {
    hide VInv;
  }

  // ---- find_free_page ------------------------------------------------------------------------------------

  lemma ReachedEntry(pages: map<nat, nat>, nb: nat, t: nat, i: nat)
    requires S.AbsentRun(pages, t, nb) && S.Reached(pages, nb, i)
    ensures 0 <= i < (t + nb) / 1024 + 1
  {
  }

  /** find_free_page with spare blocks below the bound for the tables up to the end of a run. */
  method FindReachable(space: VM.Space, nb: nat, ghost t: nat, ghost u: nat, ghost k: nat, ghost bound: nat)
    returns (address: nat, ghost s: nat)
    requires space.Valid() && S.AbsentRun(space.View().pages, t, nb) && TablesLow(space.View(), bound)
    requires Spare(space.View().frames, space.pmm.maxBlocks, u, k) && 32 * (u + k) <= bound + 31
    requires |AbsentEntries(space.View(), 0, (t + nb) / 1024 + 1)| <= k
    modifies space.mem, space.pmm`usedBlocks, space.pmm`live, space.pmm.memoryMap
    ensures space.Valid() && TablesLow(space.View(), bound) && TablesReachable(space.View())
    ensures space.View().pages == old(space.View()).pages
    ensures S.LowestAbsentRun(space.View().pages, s, nb) && address == S.FoundAddress(s, nb)
  {
    ghost var hi := (t + nb) / 1024 + 1;
    hide *;
    ghost var v, max := space.View(), space.pmm.maxBlocks;
    SpaceInvariant(space);
    ghost var found, news;
    address, found, s, news := space.FindFreePage(nb);
    ScanDone(v, space.View(), news, found, nb, t, hi, max, u, k, bound);
  }

  lemma ScanDone(v: View, w: View, news: seq<Install>, found: bool, nb: nat, t: nat, hi: nat, max: Word, u: nat, k: nat,
                 bound: nat)
    requires VInv(v) && TablesLow(v, bound) && Spare(v.frames, max, u, k) && 32 * (u + k) <= bound + 31
    requires Legal(v, Scan(news)) && w == Apply(v, Scan(news)) && TakenInOrder(v, news, max)
    requires S.AbsentRun(w.pages, t, nb) && hi == (t + nb) / 1024 + 1 && |AbsentEntries(v, 0, hi)| <= k
    requires forall x | x in news :: S.Reached(w.pages, nb, x.index)
    requires !found ==>
      NoOffer(w.frames, max, 1) && exists i: nat :: i < 1024 && i !in w.tables && S.Reached(w.pages, nb, i)
    ensures found && TablesLow(w, bound) && TablesReachable(w)
  {
    hide *;
    forall x | x in news ensures 0 <= x.index < hi { ReachedEntry(w.pages, nb, t, x.index); }
    if !found { EntryLeft(w, nb, t, hi); }
    ScanSupplied(v, w, news, found, hi, max, u, k, bound);
  }

  lemma EntryLeft(w: View, nb: nat, t: nat, hi: nat)
    requires S.AbsentRun(w.pages, t, nb) && hi == (t + nb) / 1024 + 1
    requires exists i: nat :: i < 1024 && i !in w.tables && S.Reached(w.pages, nb, i)
    ensures exists i: nat :: 0 <= i < hi && i !in w.tables
  {
    var i: nat :| i < 1024 && i !in w.tables && S.Reached(w.pages, nb, i);
    ReachedEntry(w.pages, nb, t, i);
  }

  lemma ScanSupplied(v: View, w: View, news: seq<Install>, found: bool, hi: nat, max: Word, u: nat, k: nat, bound: nat)
    requires VInv(v) && TablesLow(v, bound) && Spare(v.frames, max, u, k) && 32 * (u + k) <= bound + 31
    requires Legal(v, Scan(news)) && w == Apply(v, Scan(news)) && TakenInOrder(v, news, max)
    requires (forall x | x in news :: 0 <= x.index < hi) && |AbsentEntries(v, 0, hi)| <= k
    requires !found ==> NoOffer(w.frames, max, 1) && exists i: nat :: 0 <= i < hi && i !in w.tables
    ensures found && TablesLow(w, bound) && TablesReachable(w)
  {
    ScanParts(v, w, news);
    hide *;
    NewsFit(v, news, 0, hi);
    SpareAll(v, news, max, u, k);
    if !found {
      NoneOffered(w.frames, max, 32 * (u + |news|), 1);
      SpareOffers(w.frames, max, u + |news|, k - |news|);
    } else {
      ScanLow(news, bound, u + |news|);
      LowKept(v, Scan(news), bound);
      LowReachable(w, bound);
    }
  }

  lemma ScanParts(v: View, w: View, news: seq<Install>)
    requires Legal(v, Scan(news)) && w == Apply(v, Scan(news))
    ensures CanInstallAll(v, news) && w == InstallAll(v, news)
  {
  }

  lemma ScanLow(news: seq<Install>, bound: nat, u: nat)
    requires (forall t | t in news :: t.frame + 32 <= 32 * u) && 32 * u <= bound + 31
    ensures StaysLow(Scan(news), bound)
  {
  }
}
