// The address space as its callers see it: who owns which frame, which directory entries hold
// a table and what every virtual page translates to.  Operations are functions on this view;
// the lemmas say what every run of them keeps.
module PagingSpec {
  import opened Bits
  import opened FrameOwnership
  import opened PageEntry

  /** tables: frame of each page table by directory index; pages: frame by virtual page. */
  datatype View = View(frames: Frames, dir: nat, tables: map<nat, nat>, pages: map<nat, nat>)

  datatype Install = Install(index: nat, frame: nat)

  // ---- frames ----------------------------------------------------------------------------

  ghost predicate CanAlloc(f: Frames, s: nat, n: nat) {
    1 <= n && 32 <= s && Run(s, n) <= f.free
  }

  ghost function AllocRun(f: Frames, s: nat, n: nat): (g: Frames)
    ensures CanAlloc(f, s, n) ==> AllocStep(f, g, s, n)
  {
    Frames(f.free - Run(s, n), f.live[s := n], Wrap(f.used + n))
  }

  ghost function FreeRun(f: Frames, s: nat): (g: Frames)
    ensures s in f.live ==> FreeStep(f, g, s)
  {
    if s !in f.live then f else Frames(f.free + Run(s, f.live[s]), f.live - {s}, Wrap(f.used - f.live[s]))
  }

  /** The lowest run there is, when it is sure to be found, is the one handed out. */
  lemma LowestReserved(f: Frames, max: Word, c: nat, n: nat, base: nat)
    requires Lowest(f, max, c, n) && CanAlloc(f, base, n) && FirstOffer(f, max, base, n)
    ensures base == c
  {
  }

  // ---- installing page tables --------------------------------------------------------------

  ghost predicate CanInstall(v: View, t: Install) {
    t.index < ENTRIES && t.index !in v.tables && CanAlloc(v.frames, t.frame, 1)
  }

  ghost function InstallOne(v: View, t: Install): View {
    v.(frames := AllocRun(v.frames, t.frame, 1), tables := v.tables[t.index := t.frame])
  }

  ghost predicate CanInstallAll(v: View, news: seq<Install>)
    decreases |news|
  {
    news == []
    || (CanInstallAll(v, news[..|news| - 1])
        && CanInstall(InstallAll(v, news[..|news| - 1]), news[|news| - 1]))
  }

  ghost function InstallAll(v: View, news: seq<Install>): View
    decreases |news|
  {
    if news == [] then v else InstallOne(InstallAll(v, news[..|news| - 1]), news[|news| - 1])
  }

  lemma InstallNext(v: View, news: seq<Install>, t: Install)
    requires CanInstallAll(v, news) && CanInstall(InstallAll(v, news), t)
    ensures CanInstallAll(v, news + [t])
    ensures InstallAll(v, news + [t]) == InstallOne(InstallAll(v, news), t)
  {
    assert (news + [t])[..|news|] == news;
  }

  /** Installing at most one more table, seen from a view with another translation. */
  lemma ExtendInstalls(v: View, news: seq<Install>, u: View, more: seq<Install>)
    requires CanInstallAll(v, news) && u == InstallAll(v, news).(pages := u.pages)
    requires |more| <= 1 && CanInstallAll(u, more)
    ensures CanInstallAll(v, news + more)
    ensures InstallAll(u, more) == InstallAll(v, news + more).(pages := u.pages)
  {
    if more == [] {
      assert news + more == news;
    } else {
      assert more == [more[0]] && more[..0] == [];
      assert CanInstall(InstallAll(u, []), more[0]);
      InstallNext(v, news, more[0]);
    }
  }

  // ---- translation ---------------------------------------------------------------------------

  function PageAt(page: nat, j: nat): nat {
    (page + j) % PAGE_COUNT
  }

  /** The n virtual pages from page on, wrapping at 4 GiB. */
  ghost function Range(page: nat, n: nat): (r: set<nat>)
    ensures forall p :: p in r ==> p < PAGE_COUNT
  {
    if n == 0 then {} else Range(page, n - 1) + {PageAt(page, n - 1)}
  }

  ghost function MapRange(pages: map<nat, nat>, page: nat, base: nat, n: nat): (r: map<nat, nat>)
    ensures r.Keys == pages.Keys + Range(page, n)
    ensures forall p | p in pages && p !in Range(page, n) :: r[p] == pages[p]
  {
    if n == 0 then pages else MapRange(pages, page, base, n - 1)[PageAt(page, n - 1) := base + (n - 1)]
  }

  lemma PageAtStart(page: nat)
    requires page < 0x10_0000
    ensures PageAt(page, 0) == page
  {
  }

  lemma PageAtNext(page: nat, i: nat)
    ensures PageAt(page, i + 1) == (PageAt(page, i) + 1) % PAGE_COUNT
  {
  }

  lemma PageAtInjective(page: nat, i: nat, j: nat)
    requires i < j < i + PAGE_COUNT
    ensures PageAt(page, i) != PageAt(page, j)
  {
    var a, b := (page + i) / PAGE_COUNT, (page + j) / PAGE_COUNT;
    assert j - i == PAGE_COUNT * (b - a) + PageAt(page, j) - PageAt(page, i);
  }

  lemma {:induction false} RangeMember(page: nat, n: nat, j: nat)
    requires j < PAGE_COUNT && n <= PAGE_COUNT
    ensures PageAt(page, j) in Range(page, n) <==> j < n
  {
    if n == 0 {
    } else {
      RangeMember(page, n - 1, j);
      if j < n - 1 { PageAtInjective(page, j, n - 1); }
      if n - 1 < j { PageAtInjective(page, n - 1, j); }
    }
  }

  /** The j-th page of a mapped range translates to the j-th frame of the run. */
  lemma {:induction false} MapRangeContents(pages: map<nat, nat>, page: nat, base: nat, n: nat, j: nat)
    requires j < n <= PAGE_COUNT
    ensures PageAt(page, j) in MapRange(pages, page, base, n)
    ensures MapRange(pages, page, base, n)[PageAt(page, j)] == base + j
  {
    if j < n - 1 {
      MapRangeContents(pages, page, base, n - 1, j);
      RangeMember(page, n - 1, n - 1);
      RangeMember(page, n - 1, j);
    }
  }

  /** Rolling back a mapped range restores the old pages exactly when the range was absent. */
  lemma RollbackPages(pages: map<nat, nat>, page: nat, base: nat, n: nat)
    ensures MapRange(pages, page, base, n) - Range(page, n) == pages - Range(page, n)
    ensures pages - Range(page, n) == pages <==> pages.Keys !! Range(page, n)
  {
    if pages - Range(page, n) == pages {
      assert forall p | p in pages :: p in pages - Range(page, n);
    }
  }

  // ---- operations ------------------------------------------------------------------------------

  datatype Event =
    | MapPage(page: nat, frame: nat, news: seq<Install>)
    | UnmapPage(page: nat)
    | Scan(news: seq<Install>)                                            // find_free_page
    | NewPages(page: nat, count: nat, base: nat, news: seq<Install>)      // allocate_new_page, mapped
    | NewPagesFailed(page: nat, count: nat, base: nat, news: seq<Install>, mapped: nat)
    | Reserve(base: nat, count: nat)                                      // allocate_blocks
    | Release(base: nat)                                                  // free_blocks

  /** A run handed out for data: live, but neither the directory nor a page table. */
  ghost predicate DataRun(v: View, s: nat) {
    s in v.frames.live && s != v.dir && forall i | i in v.tables :: v.tables[i] != s
  }

  ghost function WithRun(v: View, base: nat, n: nat): View {
    v.(frames := AllocRun(v.frames, base, n))
  }

  ghost predicate Legal(v: View, e: Event) {
    match e
    case MapPage(page, _, news) =>
      page < PAGE_COUNT && CanInstallAll(v, news) && page / ENTRIES in InstallAll(v, news).tables
    case UnmapPage(page) => page < PAGE_COUNT
    case Scan(news) => CanInstallAll(v, news)
    case NewPages(page, n, base, news) =>
      && page < PAGE_COUNT && n <= PAGE_COUNT && CanAlloc(v.frames, base, n)
      && CanInstallAll(WithRun(v, base, n), news)
      && forall p | p in Range(page, n) :: p / ENTRIES in InstallAll(WithRun(v, base, n), news).tables
    case NewPagesFailed(page, n, base, news, mapped) =>
      && page < PAGE_COUNT && mapped < n <= PAGE_COUNT && CanAlloc(v.frames, base, n)
      && CanInstallAll(WithRun(v, base, n), news)
    case Reserve(base, n) => CanAlloc(v.frames, base, n)
    case Release(base) => DataRun(v, base)
  }

  ghost function Apply(v: View, e: Event): View
    requires Legal(v, e)
  {
    match e
    case MapPage(page, frame, news) => InstallAll(v, news).(pages := v.pages[page := frame])
    case UnmapPage(page) => v.(pages := v.pages - {page})
    case Scan(news) => InstallAll(v, news)
    case NewPages(page, n, base, news) =>
      InstallAll(WithRun(v, base, n), news).(pages := MapRange(v.pages, page, base, n))
    case NewPagesFailed(page, n, base, news, mapped) =>
      var u := InstallAll(WithRun(v, base, n), news);
      u.(frames := FreeRun(u.frames, base), pages := v.pages - Range(page, mapped))
    case Reserve(base, n) => WithRun(v, base, n)
    case Release(base) => v.(frames := FreeRun(v.frames, base))
  }

  // ---- the invariant -------------------------------------------------------------------------

  /**
   * Every frame has one owner: live runs are disjoint and used, the directory run and every
   * page table are live runs, page tables are distinct, and mapped pages have a table.
   */
  ghost predicate VInv(v: View) {
    && Inv(v.frames)
    && v.dir in v.frames.live && v.frames.live[v.dir] == 3
    && (forall i | i in v.tables :: i < ENTRIES && v.tables[i] in v.frames.live && v.frames.live[v.tables[i]] == 1)
    && (forall i, j | i in v.tables && j in v.tables && i != j :: v.tables[i] != v.tables[j])
    && (forall p | p in v.pages :: p < PAGE_COUNT && p / ENTRIES in v.tables)
  }

  ghost predicate SubMap(a: map<nat, nat>, b: map<nat, nat>) {
    forall i | i in a :: i in b && b[i] == a[i]
  }

  /** Installing tables keeps everything that was there and leaves the translation alone. */
  lemma {:induction false} InstallKeeps(v: View, news: seq<Install>)
    requires CanInstallAll(v, news)
    ensures var w := InstallAll(v, news);
      && w.dir == v.dir && w.pages == v.pages
      && (Inv(v.frames) ==>
            Inv(w.frames) && SubMap(v.frames.live, w.frames.live) && Balance(w.frames) == Balance(v.frames))
      && SubMap(v.tables, w.tables)
      && w.frames.free <= v.frames.free
    decreases |news|
  {
    if news == [] {
    } else {
      var init, t := news[..|news| - 1], news[|news| - 1];
      InstallKeeps(v, init);
      var u := InstallAll(v, init);
      if Inv(v.frames) {
        AllocKeepsOwned(u.frames, InstallOne(u, t).frames, t.frame, 1);
        AllocKeepsBalance(u.frames, InstallOne(u, t).frames, t.frame, 1);
      }
    }
  }

  lemma InstallOneKeepsInvariant(v: View, t: Install)
    requires VInv(v) && CanInstall(v, t)
    ensures VInv(InstallOne(v, t))
  {
    AllocKeepsOwned(v.frames, InstallOne(v, t).frames, t.frame, 1);
    assert t.frame in Run(t.frame, 1);
  }

  lemma {:induction false} InstallKeepsInvariant(v: View, news: seq<Install>)
    requires VInv(v) && CanInstallAll(v, news)
    ensures VInv(InstallAll(v, news))
    decreases |news|
  {
    if news == [] {
    } else {
      InstallKeepsInvariant(v, news[..|news| - 1]);
      InstallOneKeepsInvariant(InstallAll(v, news[..|news| - 1]), news[|news| - 1]);
    }
  }

  lemma WithRunKeepsInvariant(v: View, base: nat, n: nat)
    requires VInv(v) && CanAlloc(v.frames, base, n)
    ensures VInv(WithRun(v, base, n)) && base !in v.frames.live
    ensures DataRun(WithRun(v, base, n), base)
  {
    AllocKeepsOwned(v.frames, WithRun(v, base, n).frames, base, n);
  }

  lemma ReleaseKeepsInvariant(v: View, base: nat)
    requires VInv(v) && DataRun(v, base)
    ensures VInv(v.(frames := FreeRun(v.frames, base)))
  {
    FreeKeepsOwned(v.frames, FreeRun(v.frames, base), base);
  }

  /** A data run stays one when page tables are installed. */
  lemma {:induction false} InstallKeepsDataRun(v: View, news: seq<Install>, s: nat)
    requires VInv(v) && CanInstallAll(v, news) && DataRun(v, s)
    ensures DataRun(InstallAll(v, news), s)
    ensures InstallAll(v, news).frames.live[s] == v.frames.live[s]
    decreases |news|
  {
    if news == [] {
    } else {
      var u, t := InstallAll(v, news[..|news| - 1]), news[|news| - 1];
      InstallKeepsDataRun(v, news[..|news| - 1], s);
      InstallKeepsInvariant(v, news[..|news| - 1]);
      AllocKeepsOwned(u.frames, InstallOne(u, t).frames, t.frame, 1);
    }
  }

  lemma RemapKeepsInvariant(v: View, page: nat, frame: nat)
    requires VInv(v) && page < 0x10_0000 && page / ENTRIES in v.tables
    ensures VInv(v.(pages := v.pages[page := frame]))
  {
  }

  lemma UnmapKeepsInvariant(v: View, page: nat)
    requires VInv(v)
    ensures VInv(v.(pages := v.pages - {page}))
  {
  }

  lemma NewPagesKeepsInvariant(v: View, e: Event)
    requires VInv(v) && e.NewPages? && Legal(v, e)
    ensures VInv(Apply(v, e))
  {
    var u := WithRun(v, e.base, e.count);
    WithRunKeepsInvariant(v, e.base, e.count);
    InstallKeepsInvariant(u, e.news);
    InstallKeeps(u, e.news);
  }

  lemma NewPagesFailedKeepsInvariant(v: View, e: Event)
    requires VInv(v) && e.NewPagesFailed? && Legal(v, e)
    ensures VInv(Apply(v, e))
  {
    var u := WithRun(v, e.base, e.count);
    WithRunKeepsInvariant(v, e.base, e.count);
    InstallKeepsInvariant(u, e.news);
    InstallKeeps(u, e.news);
    InstallKeepsDataRun(u, e.news, e.base);
    ReleaseKeepsInvariant(InstallAll(u, e.news), e.base);
  }

  lemma MapPageKeepsInvariant(v: View, e: Event)
    requires VInv(v) && e.MapPage? && Legal(v, e)
    ensures VInv(Apply(v, e))
  {
    InstallKeepsInvariant(v, e.news);
    InstallKeeps(v, e.news);
  }

  lemma StepKeepsInvariant(v: View, e: Event)
    requires VInv(v) && Legal(v, e)
    ensures VInv(Apply(v, e))
  {
    match e
    case MapPage(_, _, _) => MapPageKeepsInvariant(v, e);
    case UnmapPage(_) =>
    case Scan(news) => InstallKeepsInvariant(v, news);
    case NewPages(_, _, _, _) => NewPagesKeepsInvariant(v, e);
    case NewPagesFailed(_, _, _, _, _) => NewPagesFailedKeepsInvariant(v, e);
    case Reserve(base, n) => WithRunKeepsInvariant(v, base, n);
    case Release(base) => ReleaseKeepsInvariant(v, base);
  }

  // ---- the theorems ----------------------------------------------------------------------------

  /** f is g with the run base, n handed out as well. */
  ghost predicate Besides(f: Frames, g: Frames, base: nat, n: nat) {
    && CanAlloc(g, base, n) && base !in g.live
    && f == AllocRun(g, base, n)
  }

  lemma AllocBesides(f: Frames, g: Frames, base: nat, n: nat, x: nat)
    requires Besides(f, g, base, n) && CanAlloc(f, x, 1)
    ensures CanAlloc(g, x, 1) && Besides(AllocRun(f, x, 1), AllocRun(g, x, 1), base, n)
  {
    assert x in Run(x, 1) && base in Run(base, n);
    var h := AllocRun(g, x, 1);
    assert Run(base, n) <= h.free;
    WrapAdd(g.used + n, 1);
    WrapAdd(g.used + 1, n);
    assert f.free - Run(x, 1) == h.free - Run(base, n);
    assert f.live[x := 1] == h.live[base := n];
  }

  lemma FreeBesides(f: Frames, g: Frames, base: nat, n: nat)
    requires Besides(f, g, base, n)
    ensures FreeRun(f, base) == g
  {
    WrapAdd(g.used + n, 0 - n);
    assert f.free + Run(base, n) == g.free;
    assert f.live - {base} == g.live;
  }

  lemma {:induction false} InstallWithoutRun(v: View, base: nat, n: nat, news: seq<Install>)
    requires VInv(v) && CanAlloc(v.frames, base, n) && CanInstallAll(WithRun(v, base, n), news)
    ensures CanInstallAll(v, news)
    ensures var w, u := InstallAll(v, news), InstallAll(WithRun(v, base, n), news);
      w.tables == u.tables && Besides(u.frames, w.frames, base, n)
    decreases |news|
  {
    WithRunKeepsInvariant(v, base, n);
    if news == [] {
    } else {
      var init, t := news[..|news| - 1], news[|news| - 1];
      InstallWithoutRun(v, base, n, init);
      AllocBesides(InstallAll(WithRun(v, base, n), init).frames, InstallAll(v, init).frames, base, n, t.frame);
    }
  }

  /**
   * allocate_new_page is all-or-nothing: when it fails, the view is the one reached by
   * installing empty page tables alone, minus the translations of the pages it had already
   * mapped; so the translation is unchanged exactly when none of those was mapped before.
   */
  lemma FailedAllocation(v: View, e: Event)
    requires VInv(v) && e.NewPagesFailed? && Legal(v, e)
    ensures CanInstallAll(v, e.news)
    ensures Apply(v, e) == InstallAll(v, e.news).(pages := v.pages - Range(e.page, e.mapped))
    ensures Apply(v, e).pages == v.pages <==> v.pages.Keys !! Range(e.page, e.mapped)
  {
    InstallWithoutRun(v, e.base, e.count, e.news);
    InstallKeeps(v, e.news);
    RollbackPages(v.pages, e.page, e.base, e.mapped);
    FreeBesides(InstallAll(WithRun(v, e.base, e.count), e.news).frames, InstallAll(v, e.news).frames, e.base, e.count);
    WithRunKeepsInvariant(v, e.base, e.count);
    InstallKeeps(WithRun(v, e.base, e.count), e.news);
  }

  /** A successful allocation reserves one fresh run and maps the whole range onto it in order. */
  lemma SuccessfulAllocation(v: View, e: Event, j: nat)
    requires VInv(v) && e.NewPages? && Legal(v, e) && j < e.count
    ensures var w := Apply(v, e);
      && Run(e.base, e.count) <= v.frames.free
      && DataRun(w, e.base) && w.frames.live[e.base] == e.count
      && PageAt(e.page, j) in w.pages && w.pages[PageAt(e.page, j)] == e.base + j
      && (forall p | p !in Range(e.page, e.count) :: p in w.pages <==> p in v.pages)
      && (forall p | p !in Range(e.page, e.count) && p in v.pages :: w.pages[p] == v.pages[p])
  {
    MapRangeContents(v.pages, e.page, e.base, e.count, j);
    WithRunKeepsInvariant(v, e.base, e.count);
    InstallKeepsDataRun(WithRun(v, e.base, e.count), e.news, e.base);
  }

  ghost predicate Trace(states: seq<View>, events: seq<Event>) {
    && |states| == |events| + 1
    && forall i | 0 <= i < |events| :: Legal(states[i], events[i]) && states[i + 1] == Apply(states[i], events[i])
  }

  lemma {:induction false} InvariantOverTraces(states: seq<View>, events: seq<Event>, k: nat)
    requires Trace(states, events) && VInv(states[0]) && k < |states|
    ensures VInv(states[k])
  {
    if k == 0 {
    } else {
      InvariantOverTraces(states, events, k - 1);
      StepKeepsInvariant(states[k - 1], events[k - 1]);
    }
  }

  /** Frames the kernel's own structures occupy. */
  ghost predicate TableFrame(v: View, f: nat) {
    f in Run(v.dir, 3) || exists i :: i in v.tables && v.tables[i] == f
  }

  lemma TableFrameOwned(v: View, f: nat)
    requires VInv(v) && TableFrame(v, f)
    ensures f !in v.frames.free
    ensures forall s | DataRun(v, s) :: f !in Run(s, v.frames.live[s])
  {
    if t :| t in v.tables && v.tables[t] == f { assert f in v.frames.live; }
  }

  /** No step hands out a frame of the directory or of a page table. */
  lemma StepAvoidsTables(v: View, e: Event, f: nat)
    requires VInv(v) && Legal(v, e) && TableFrame(v, f)
    ensures f !in v.frames.free
    ensures TableFrame(Apply(v, e), f)
  {
    match e
    case MapPage(_, _, news) => InstallKeeps(v, news);
    case UnmapPage(_) =>
    case Scan(news) => InstallKeeps(v, news);
    case NewPages(_, n, base, news) =>
      WithRunKeepsInvariant(v, base, n);
      InstallKeeps(WithRun(v, base, n), news);
    case NewPagesFailed(_, n, base, news, _) =>
      WithRunKeepsInvariant(v, base, n);
      InstallKeeps(WithRun(v, base, n), news);
    case Reserve(_, _) =>
    case Release(_) =>
  }

  /** The blocks a step hands out to its caller. */
  ghost function HandedOut(e: Event): set<nat> {
    match e
    case NewPages(_, n, base, _) => Run(base, n)
    case Reserve(base, n) => Run(base, n)
    case _ => {}
  }

  lemma HandedOutWasFree(v: View, e: Event)
    requires Legal(v, e)
    ensures HandedOut(e) <= v.frames.free
  {
  }

  lemma {:induction false} TableFramePersists(states: seq<View>, events: seq<Event>, i: nat, k: nat, f: nat)
    requires Trace(states, events) && VInv(states[0])
    requires i <= k < |states| && TableFrame(states[i], f)
    ensures TableFrame(states[k], f)
    decreases k - i
  {
    hide Legal, Apply, VInv, TableFrame, InstallAll;
    if i == k {
    } else {
      TableFramePersists(states, events, i, k - 1, f);
      InvariantOverTraces(states, events, k - 1);
      StepAvoidsTables(states[k - 1], events[k - 1], f);
    }
  }

  /**
   * The global paging invariant over every run of the operations: once a frame holds the
   * directory or a page table it does so for ever, stays marked used and is never handed out;
   * and no frame of a data run is ever a table frame.
   */
  lemma TablesOverTraces(states: seq<View>, events: seq<Event>, i: nat, k: nat, f: nat)
    requires Trace(states, events) && VInv(states[0])
    requires i <= k < |states| && TableFrame(states[i], f)
    ensures VInv(states[k]) && TableFrame(states[k], f) && f !in states[k].frames.free
    ensures k < |events| ==> f !in HandedOut(events[k])
    ensures forall s | DataRun(states[k], s) :: f !in Run(s, states[k].frames.live[s])
  {
    InvariantOverTraces(states, events, k);
    TableFramePersists(states, events, i, k, f);
    TableFrameOwned(states[k], f);
    if k < |events| { HandedOutWasFree(states[k], events[k]); }
  }

  /** The frames of two data runs, live at the same time, are disjoint. */
  lemma DataRunsDisjoint(states: seq<View>, events: seq<Event>, k: nat, s: nat, t: nat)
    requires Trace(states, events) && VInv(states[0]) && k < |states|
    requires s != t && DataRun(states[k], s) && DataRun(states[k], t)
    ensures Run(s, states[k].frames.live[s]) !! Run(t, states[k].frames.live[t])
    ensures Run(s, states[k].frames.live[s]) !! states[k].frames.free
  {
    InvariantOverTraces(states, events, k);
  }

  // ---- the steps of allocate_new_page ----------------------------------------------------------

  /** The view after i pages of a new run have been mapped. */
  ghost predicate MappedSoFar(v: View, w: View, page: nat, n: nat, base: nat, news: seq<Install>, i: nat) {
    && CanAlloc(v.frames, base, n)
    && CanInstallAll(WithRun(v, base, n), news)
    && w == InstallAll(WithRun(v, base, n), news).(pages := MapRange(v.pages, page, base, i))
    && (forall p | p in Range(page, i) :: p / ENTRIES in w.tables)
    && NewsWithin(news, page, i)
  }

  /** The new tables are for pages of the range. */
  ghost predicate NewsWithin(news: seq<Install>, page: nat, i: nat) {
    forall t | t in news :: exists p :: p in Range(page, i) && p / ENTRIES == t.index
  }

  lemma NewsNext(news: seq<Install>, page: nat, i: nat, more: seq<Install>)
    requires NewsWithin(news, page, i) && forall t | t in more :: t.index == PageAt(page, i) / ENTRIES
    ensures NewsWithin(news + more, page, i + 1)
  {
    assert Range(page, i + 1) == Range(page, i) + {PageAt(page, i)};
    forall t | t in news + more ensures exists p :: p in Range(page, i + 1) && p / ENTRIES == t.index {
      if t in news {
        var p :| p in Range(page, i) && p / ENTRIES == t.index;
        assert p in Range(page, i + 1);
      } else {
        assert PageAt(page, i) in Range(page, i + 1);
      }
    }
  }

  lemma MapNext(v: View, w: View, page: nat, n: nat, base: nat, news: seq<Install>, i: nat, more: seq<Install>, x: View)
    requires MappedSoFar(v, w, page, n, base, news, i)
    requires |more| <= 1 && CanInstallAll(w, more)
    requires x == InstallAll(w, more).(pages := w.pages[PageAt(page, i) := base + i])
    requires PageAt(page, i) / ENTRIES in x.tables && forall t | t in more :: t.index == PageAt(page, i) / ENTRIES
    ensures MappedSoFar(v, x, page, n, base, news + more, i + 1)
  {
    MapNextPages(v.pages, page, base, i);
    MapNextTables(w, page, i, more);
    NewsNext(news, page, i, more);
    hide NewsWithin, InstallAll, CanInstallAll, MapRange, Range, WithRun, PageAt;
    var u := WithRun(v, base, n);
    ExtendInstalls(u, news, w, more);
    assert x == InstallAll(u, news + more).(pages := MapRange(v.pages, page, base, i + 1));
  }

  lemma MappedFrames(v: View, w: View, page: nat, n: nat, base: nat, news: seq<Install>, i: nat)
    requires MappedSoFar(v, w, page, n, base, news, i)
    ensures w.frames == InstallAll(WithRun(v, base, n), news).frames
  {
    hide NewsWithin, CanInstallAll;
  }

  lemma MapNextPages(pages: map<nat, nat>, page: nat, base: nat, i: nat)
    ensures MapRange(pages, page, base, i + 1) == MapRange(pages, page, base, i)[PageAt(page, i) := base + i]
  {
  }

  lemma MapNextTables(w: View, page: nat, i: nat, more: seq<Install>)
    requires CanInstallAll(w, more)
    requires forall p | p in Range(page, i) :: p / ENTRIES in w.tables
    requires PageAt(page, i) / ENTRIES in InstallAll(w, more).tables
    ensures forall p | p in Range(page, i + 1) :: p / ENTRIES in InstallAll(w, more).tables
  {
    InstallKeeps(w, more);
    assert Range(page, i + 1) == Range(page, i) + {PageAt(page, i)};
  }

  lemma NothingMapped(v: View, page: nat, n: nat, base: nat)
    requires CanAlloc(v.frames, base, n)
    ensures MappedSoFar(v, WithRun(v, base, n), page, n, base, [], 0)
  {
  }

  lemma ScanStep(v: View, news: seq<Install>)
    requires CanInstallAll(v, news)
    ensures Legal(v, Scan(news)) && Apply(v, Scan(news)) == InstallAll(v, news)
    ensures InstallAll(v, news).pages == v.pages
  {
    InstallKeeps(v, news);
  }

  lemma MapStep(v: View, news: seq<Install>, page: nat, frame: nat)
    requires CanInstallAll(v, news) && page < 0x10_0000 && page / ENTRIES in InstallAll(v, news).tables
    ensures Legal(v, MapPage(page, frame, news))
    ensures Apply(v, MapPage(page, frame, news)) == InstallAll(v, news).(pages := v.pages[page := frame])
  {
  }

  lemma InstallNone(v: View)
    ensures CanInstallAll(v, []) && InstallAll(v, []) == v
  {
  }

  lemma InstalledIsPresent(v: View, t: Install)
    ensures InstallOne(v, t).tables == v.tables[t.index := t.frame] && InstallOne(v, t).pages == v.pages
  {
  }

  lemma NoStep(v: View)
    ensures Legal(v, Scan([])) && Apply(v, Scan([])) == v
  {
  }

  lemma AllMapped(v: View, w: View, page: nat, n: nat, base: nat, news: seq<Install>)
    requires MappedSoFar(v, w, page, n, base, news, n) && page < 0x10_0000 && n <= 0x10_0000
    ensures Legal(v, NewPages(page, n, base, news)) && Apply(v, NewPages(page, n, base, news)) == w
  {
  }

  lemma RunStillLive(v: View, w: View, page: nat, n: nat, base: nat, news: seq<Install>, i: nat)
    requires VInv(v) && MappedSoFar(v, w, page, n, base, news, i)
    ensures DataRun(w, base) && w.frames.live[base] == n
  {
    WithRunKeepsInvariant(v, base, n);
    InstallKeepsDataRun(WithRun(v, base, n), news, base);
  }

  lemma RolledBack(v: View, w: View, page: nat, n: nat, base: nat, news: seq<Install>, i: nat)
    requires MappedSoFar(v, w, page, n, base, news, i) && page < 0x10_0000 && i < n <= 0x10_0000
    ensures Legal(v, NewPagesFailed(page, n, base, news, i))
    ensures Apply(v, NewPagesFailed(page, n, base, news, i)) ==
      w.(frames := FreeRun(w.frames, base), pages := w.pages - Range(page, i))
  {
    RollbackPages(v.pages, page, base, i);
  }

  lemma PageAtPlain(page: nat, j: nat)
    requires page + j < 0x10_0000
    ensures PageAt(page, j) == page + j
  {
  }

  lemma {:induction false} RangeBefore(page: nat, n: nat, p: nat)
    requires page + n <= 0x10_0000 && p < page
    ensures p !in Range(page, n)
  {
    if n == 0 {
    } else {
      RangeBefore(page, n - 1, p);
      PageAtPlain(page, n - 1);
    }
  }

  lemma {:induction false} RangeSub(page: nat, m: nat, n: nat)
    requires m <= n
    ensures Range(page, m) <= Range(page, n)
  {
    if m == n {
    } else {
      RangeSub(page, m, n - 1);
    }
  }

  lemma RangeStart(pages: map<nat, nat>, page: nat)
    ensures pages - Range(page, 0) == pages
  {
  }

  lemma RangeStep(pages: map<nat, nat>, page: nat, j: nat)
    ensures pages - Range(page, j) - {PageAt(page, j)} == pages - Range(page, j + 1)
  {
  }
}
