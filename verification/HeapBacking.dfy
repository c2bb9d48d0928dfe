// The heap's pages are virtual pages on frames of data runs, so its headers and payloads are
// memory of their own (AddressSpace.StoreThroughMapping).
module HeapBacking {
  import opened Bits
  import opened FrameOwnership
  import P = PagingSpec
  import R = PagingRollback

  /** Page p is mapped to a frame of a data run. */
  ghost predicate BackedPage(v: P.View, p: nat) {
    p in v.pages && exists s :: P.DataRun(v, s) && v.pages[p] in Run(s, v.frames.live[s])
  }

  /** Every page from the start of the heap up to address end is backed, on a frame of its own. */
  ghost predicate Backed(v: P.View, end: nat) {
    && (forall p: nat | 0xF_0000 <= p && 4096 * p < end :: BackedPage(v, p))
    && forall p: nat, q: nat | 0xF_0000 <= p < q && 4096 * q < end :: Apart(v, p, q)
  }

  ghost predicate Apart(v: P.View, p: nat, q: nat) {
    p in v.pages && q in v.pages && v.pages[p] != v.pages[q]
  }

  ghost predicate Runs(v: P.View, events: seq<P.Event>, w: P.View)
    decreases |events|
  {
    if events == [] then w == v else
      P.Legal(v, events[0]) && Runs(P.Apply(v, events[0]), events[1..], w)
  }

  lemma RunsNone(v: P.View)
    ensures Runs(v, [], v)
  {
  }

  lemma RunsOne(v: P.View, e: P.Event)
    requires P.Legal(v, e)
    ensures Runs(v, [e], P.Apply(v, e))
  {
    assert [e][1..] == [];
  }

  lemma RunsMore(u: P.View, e: P.Event, v: P.View, events: seq<P.Event>, w: P.View)
    requires Runs(u, [e], v) && Runs(v, events, w)
    ensures Runs(u, [e] + events, w)
  {
    assert ([e] + events)[1..] == events && [e][1..] == [];
  }

  /** Each request, for that many bytes, was answered as allocate_new_page answers. */
  ghost predicate Replies(v: P.View, events: seq<P.Event>, max: Word, sizes: seq<Word>)
    decreases |events|
  {
    events == [] ||
      (sizes != [] && P.Legal(v, events[0]) && R.Answers(v, events[0], max, sizes[0] / 4096) &&
       Replies(P.Apply(v, events[0]), events[1..], max, sizes[1..]))
  }

  lemma RepliesNone(v: P.View, max: Word, sizes: seq<Word>)
    ensures Replies(v, [], max, sizes)
  {
  }

  lemma RepliesOne(v: P.View, e: P.Event, max: Word, size: Word, sizes: seq<Word>)
    requires P.Legal(v, e) && R.Answers(v, e, max, size / 4096)
    ensures Replies(v, [e], max, [size] + sizes)
  {
    assert [e][1..] == [];
  }

  lemma RepliesMore(u: P.View, e: P.Event, events: seq<P.Event>, max: Word, size: Word, sizes: seq<Word>)
    requires P.Legal(u, e) && R.Answers(u, e, max, size / 4096) && Replies(P.Apply(u, e), events, max, sizes)
    ensures Replies(u, [e] + events, max, [size] + sizes)
  {
    assert ([e] + events)[1..] == events && ([size] + sizes)[1..] == sizes;
  }

  // ---- asking for pages behind the heap ---------------------------------------------------------

  /** What asking for size bytes of pages at this address, modulo 2^32, can amount to. */
  ghost predicate Attempt(e: P.Event, end: nat, size: Word) {
    || e == P.Scan([])
    || ((e.NewPages? || e.NewPagesFailed?) && e.page == Wrap(end) / 4096 && e.count == size / 4096)
  }

  /** Pages that were granted start in the heap's window and end at or below 4 GiB. */
  ghost predicate Kept(e: P.Event) {
    e.NewPages? ==> 0xF_0000 <= e.page && e.page + e.count <= 0x10_0000
  }

  /** For a heap that ends at end, that is a matter of its end and of the size. */
  lemma KeptExact(e: P.Event, end: nat, size: Word)
    requires Attempt(e, end, size) && e.NewPages?
    requires 0xF000_0000 <= end <= 0x1_0000_0000 && end % 4096 == 0 && size % 4096 == 0
    ensures Kept(e) <==> end < 0x1_0000_0000 && end + size <= 0x1_0000_0000
  {
  }

  /** Where granted pages start, and how many bytes they have. */
  ghost function PagesAt(grown: seq<P.Event>): seq<nat> {
    if grown == [] then [] else
      (if grown[0].NewPages? then [4096 * grown[0].page] else []) + PagesAt(grown[1..])
  }

  ghost function BytesOf(grown: seq<P.Event>): nat {
    if grown == [] then 0 else (if grown[0].NewPages? then 4096 * grown[0].count else 0) + BytesOf(grown[1..])
  }

  /** The pages granted follow those of the heap, in this order, and move its end. */
  ghost predicate Grew(ps: seq<Word>, end: nat, ps': seq<Word>, end': nat, grown: seq<P.Event>) {
    ps' == ps + PagesAt(grown) && end' == end + BytesOf(grown)
  }

  lemma GrewNone(ps: seq<Word>, end: nat)
    ensures Grew(ps, end, ps, end, [])
  {
  }

  lemma OfOne(e: P.Event)
    ensures e.NewPages? ==> PagesAt([e]) == [4096 * e.page] && BytesOf([e]) == 4096 * e.count
    ensures !e.NewPages? ==> PagesAt([e]) == [] && BytesOf([e]) == 0
  {
    var rest := [e][1..];
    assert rest == [];
    assert PagesAt(rest) == [] && BytesOf(rest) == 0;
  }

  lemma AttemptPlaces(e: P.Event, end: nat, size: Word)
    requires Attempt(e, end, size) && end % 4096 == 0 && size % 4096 == 0 && e.NewPages?
    ensures 4096 * e.page == Wrap(end) && 4096 * e.count == size
  {
    assert Wrap(end) % 4096 == 0;
  }

  lemma GrewOne(ps: seq<Word>, end: nat, e: P.Event, size: Word)
    requires Attempt(e, end, size) && end % 4096 == 0 && size % 4096 == 0
    ensures e.NewPages? ==> Grew(ps, end, ps + [Wrap(end)], end + size, [e])
    ensures !e.NewPages? ==> Grew(ps, end, ps, end, [e])
  {
    OfOne(e);
    if e.NewPages? { AttemptPlaces(e, end, size); }
    hide PagesAt, BytesOf, Attempt, Wrap;
  }

  lemma OfMore(e: P.Event, grown: seq<P.Event>)
    ensures PagesAt([e] + grown) == PagesAt([e]) + PagesAt(grown)
      && BytesOf([e] + grown) == BytesOf([e]) + BytesOf(grown)
  {
    OfOne(e);
    var all := [e] + grown;
    assert all[0] == e && all[1..] == grown;
    assert PagesAt(all) == PagesAt([e]) + PagesAt(grown);
  }

  lemma GrewMore(ps: seq<Word>, end: nat, ps1: seq<Word>, end1: nat, ps2: seq<Word>, end2: nat,
                 e: P.Event, grown: seq<P.Event>)
    requires Grew(ps, end, ps1, end1, [e]) && Grew(ps1, end1, ps2, end2, grown)
    ensures Grew(ps, end, ps2, end2, [e] + grown)
  {
    OfMore(e, grown);
    hide PagesAt, BytesOf;
  }

  ghost predicate FramesBelow(f: Frames) {
    forall b | b in f.free :: b < 0x8_0000
  }

  /** A run has fewer frames than it takes to come round to the heap again. */
  lemma AttemptIsShort(v: P.View, e: P.Event)
    requires P.Legal(v, e) && (e.NewPages? || e.NewPagesFailed?) && FramesBelow(v.frames)
    ensures 1 <= e.count <= 0x8_0000
  {
    assert e.base + e.count - 1 in Run(e.base, e.count);
  }

  /** So the pages asked for, even past 4 GiB, are never pages of the heap. */
  lemma HeapPageOutside(page: nat, n: nat, p: nat)
    requires n <= 0x8_0000 && 0xF_0000 <= p < 0x10_0000
    requires page == 0 || p < page < 0x10_0000
    ensures p !in P.Range(page, n)
  {
    var j := if page == 0 then p else p + 0x10_0000 - page;
    P.RangeMember(page, n, j);
  }

  /**
   * Pages granted behind the heap but not kept are those that come round to page 0, which then
   * lies on a frame of the new run.
   */
  lemma PastWindow(v: P.View, e: P.Event, end: nat, size: Word)
    requires P.VInv(v) && P.Legal(v, e) && FramesBelow(v.frames) && e.NewPages? && Attempt(e, end, size)
    requires end % 4096 == 0 && 0xF000_0000 <= end <= 0x1_0000_0000
    ensures !Kept(e) <==> 0 in P.Range(e.page, e.count)
    ensures !Kept(e) ==> 0 in P.Apply(v, e).pages && P.Apply(v, e).pages[0] in Run(e.base, e.count)
  {
    AttemptIsShort(v, e);
    AttemptPlace(e, end, size);
    hide P.VInv, P.Legal, P.Apply, P.Range, P.PageAt, Attempt, FramesBelow;
    var j := RangeToZero(e.page, e.count);
    if !Kept(e) { P.SuccessfulAllocation(v, e, j); }
  }

  lemma RangeToZero(page: nat, n: nat) returns (j: nat)
    requires 1 <= n <= 0x8_0000 && (page == 0 || 0xF_0000 <= page < 0x10_0000)
    ensures 0 in P.Range(page, n) <==> j < n
    ensures P.PageAt(page, j) == 0 && (j < n <==> page == 0 || page + n > 0x10_0000)
  {
    j := if page == 0 then 0 else 0x10_0000 - page;
    P.RangeMember(page, n, j);
  }

  lemma AttemptPlace(e: P.Event, end: nat, size: Word)
    requires Attempt(e, end, size) && e.NewPages? && end % 4096 == 0 && 0xF000_0000 <= end <= 0x1_0000_0000
    ensures e.page == 0 || 0xF_0000 <= e.page < 0x10_0000
  {
  }

  /** A page outside the range of an allocation stays backed whether it succeeds or not. */
  lemma OtherPageKept(v: P.View, e: P.Event, p: nat)
    requires P.VInv(v) && P.Legal(v, e) && BackedPage(v, p)
    requires e == P.Scan([]) || ((e.NewPages? || e.NewPagesFailed?) && p !in P.Range(e.page, e.count))
    ensures BackedPage(P.Apply(v, e), p) && P.Apply(v, e).pages[p] == v.pages[p]
  {
    var s :| P.DataRun(v, s) && v.pages[p] in Run(s, v.frames.live[s]);
    match e
    case Scan(_) => P.NoStep(v);
    case NewPages(page, n, base, news) => GrantedKeeps(v, e, p, s);
    case NewPagesFailed(page, n, base, news, mapped) => RolledBackKeeps(v, e, p, s);
  }

  lemma GrantedKeeps(v: P.View, e: P.Event, p: nat, s: nat)
    requires P.VInv(v) && P.Legal(v, e) && e.NewPages? && p !in P.Range(e.page, e.count)
    requires p in v.pages && P.DataRun(v, s) && v.pages[p] in Run(s, v.frames.live[s])
    ensures BackedPage(P.Apply(v, e), p) && P.Apply(v, e).pages[p] == v.pages[p]
  {
    P.WithRunKeepsInvariant(v, e.base, e.count);
    assert P.DataRun(P.WithRun(v, e.base, e.count), s);
    P.InstallKeepsDataRun(P.WithRun(v, e.base, e.count), e.news, s);
    hide P.VInv, P.InstallAll, P.CanInstallAll;
  }

  lemma RolledBackKeeps(v: P.View, e: P.Event, p: nat, s: nat)
    requires P.VInv(v) && P.Legal(v, e) && e.NewPagesFailed? && p !in P.Range(e.page, e.count)
    requires p in v.pages && P.DataRun(v, s) && v.pages[p] in Run(s, v.frames.live[s])
    ensures BackedPage(P.Apply(v, e), p) && P.Apply(v, e).pages[p] == v.pages[p]
  {
    P.FailedAllocation(v, e);
    P.InstallKeepsDataRun(v, e.news, s);
    P.RangeSub(e.page, e.mapped, e.count);
    hide P.VInv, P.InstallAll, P.CanInstallAll;
  }

  /** Page p is backed in w, on the frame it has in v. */
  ghost predicate Carried(v: P.View, w: P.View, p: nat) {
    p in v.pages && BackedPage(w, p) && w.pages[p] == v.pages[p]
  }

  lemma OldPageCarried(v: P.View, e: P.Event, end: nat, size: Word, p: nat)
    requires P.VInv(v) && P.Legal(v, e) && FramesBelow(v.frames) && BackedPage(v, p) && Attempt(e, end, size)
    requires end % 4096 == 0 && 0xF000_0000 <= end <= 0x1_0000_0000 && 0xF_0000 <= p && 4096 * p < end
    ensures Carried(v, P.Apply(v, e), p)
  {
    if e != P.Scan([]) { AttemptBeyond(e, end, size, p); }
    hide *;
    if e != P.Scan([]) {
      AttemptIsShort(v, e);
      HeapPageOutside(e.page, e.count, p);
    }
    OtherPageKept(v, e, p);
  }

  lemma AttemptBeyond(e: P.Event, end: nat, size: Word, p: nat)
    requires Attempt(e, end, size) && e != P.Scan([])
    requires end % 4096 == 0 && 0xF000_0000 <= end <= 0x1_0000_0000 && 4096 * p < end
    ensures (e.NewPages? || e.NewPagesFailed?) && (e.page == 0 || p < e.page < 0x10_0000) && p < 0x10_0000
  {
  }

  lemma CarriedBacked(v: P.View, w: P.View, end: nat)
    requires Backed(v, end) && forall p: nat | 0xF_0000 <= p && 4096 * p < end :: Carried(v, w, p)
    ensures Backed(w, end)
  {
    hide BackedPage;
    forall p: nat | 0xF_0000 <= p && 4096 * p < end ensures BackedPage(w, p) {
      assert Carried(v, w, p);
    }
    forall p: nat, q: nat | 0xF_0000 <= p < q && 4096 * q < end ensures Apart(w, p, q) {
      assert Apart(v, p, q) && Carried(v, w, p) && Carried(v, w, q);
      InPages(w, p);
      InPages(w, q);
    }
  }

  /** Whatever becomes of it, asking for more pages at the end of the heap keeps the heap backed. */
  lemma OldPagesBacked(v: P.View, e: P.Event, end: nat, size: Word)
    requires P.VInv(v) && P.Legal(v, e) && FramesBelow(v.frames) && Backed(v, end) && Attempt(e, end, size)
    requires end % 4096 == 0 && 0xF000_0000 <= end <= 0x1_0000_0000
    ensures Backed(P.Apply(v, e), end)
    ensures forall p: nat | 0xF_0000 <= p && 4096 * p < end :: Carried(v, P.Apply(v, e), p)
  {
    BackedPages(v, end);
    hide *;
    forall p: nat | 0xF_0000 <= p && 4096 * p < end ensures Carried(v, P.Apply(v, e), p) {
      OldPageCarried(v, e, end, size, p);
    }
    CarriedBacked(v, P.Apply(v, e), end);
  }

  lemma BackedPages(v: P.View, end: nat)
    requires Backed(v, end)
    ensures forall p: nat | 0xF_0000 <= p && 4096 * p < end :: BackedPage(v, p)
  {
    hide BackedPage;
  }

  /** map_page of a page below the heap's window does not touch the heap. */
  lemma MapKeepsBacked(v: P.View, e: P.Event, end: nat)
    requires P.VInv(v) && P.Legal(v, e) && e.MapPage? && e.page < 0xF_0000 && Backed(v, end)
    ensures Backed(P.Apply(v, e), end)
  {
    BackedPages(v, end);
    hide *;
    forall p: nat | 0xF_0000 <= p && 4096 * p < end ensures Carried(v, P.Apply(v, e), p) {
      MapCarries(v, e, p);
    }
    CarriedBacked(v, P.Apply(v, e), end);
  }

  lemma MapCarries(v: P.View, e: P.Event, p: nat)
    requires P.VInv(v) && P.Legal(v, e) && e.MapPage? && e.page != p && BackedPage(v, p)
    ensures Carried(v, P.Apply(v, e), p)
  {
    var s :| P.DataRun(v, s) && v.pages[p] in Run(s, v.frames.live[s]);
    MapStepParts(v, e);
    hide P.VInv, P.InstallAll, P.CanInstallAll, P.Legal, P.Apply;
    P.InstallKeepsDataRun(v, e.news, s);
    RunStays(v, P.Apply(v, e), P.InstallAll(v, e.news), s);
  }

  lemma MapStepParts(v: P.View, e: P.Event)
    requires P.Legal(v, e) && e.MapPage?
    ensures var w, u := P.Apply(v, e), P.InstallAll(v, e.news);
      P.CanInstallAll(v, e.news) && w == u.(pages := v.pages[e.page := e.frame])
  {
    hide P.InstallAll, P.CanInstallAll;
  }

  lemma RunStays(v: P.View, w: P.View, u: P.View, s: nat)
    requires P.DataRun(u, s) && w == u.(pages := w.pages)
    ensures P.DataRun(w, s) && w.frames.live[s] == u.frames.live[s]
  {
  }

  /** Pages that were granted and kept extend the backed heap. */
  lemma NewPagesBacked(v: P.View, e: P.Event, end: nat, size: Word)
    requires P.VInv(v) && P.Legal(v, e) && FramesBelow(v.frames) && e.NewPages? && Attempt(e, end, size)
      && Backed(v, end)
    requires end % 4096 == 0 && size % 4096 == 0 && 0xF000_0000 <= end < 0x1_0000_0000 && end + size <= 0x1_0000_0000
    ensures Backed(P.Apply(v, e), end + size)
  {
    BackedPages(v, end);
    AttemptPages(e, end, size);
    hide *;
    OldPagesBacked(v, e, end, size);
    forall p: nat | e.page <= p < e.page + e.count ensures OnNewFrame(v, P.Apply(v, e), e.page, e.base, p) {
      P.PageAtPlain(e.page, p - e.page);
      NewPageBacked(v, e, p - e.page, p);
    }
    MorePages(v, P.Apply(v, e), e.page, e.count, e.base, end, size);
  }

  lemma AttemptPages(e: P.Event, end: nat, size: Word)
    requires Attempt(e, end, size) && e.NewPages?
    requires end % 4096 == 0 && size % 4096 == 0 && 0xF000_0000 <= end < 0x1_0000_0000 && end + size <= 0x1_0000_0000
    ensures end == 4096 * e.page && size == 4096 * e.count && e.page + e.count <= 0x10_0000
  {
  }

  /** Page p of the new range is backed by its frame of the run, which was free. */
  ghost predicate OnNewFrame(v: P.View, w: P.View, page: nat, base: nat, p: nat) {
    BackedPage(w, p) && w.pages[p] + page == base + p && w.pages[p] in v.frames.free
  }

  lemma MorePages(v: P.View, w: P.View, page: nat, n: nat, base: nat, end: nat, size: Word)
    requires P.VInv(v) && Backed(v, end) && Backed(w, end) && end == 4096 * page && size == 4096 * n
    requires forall p: nat | 0xF_0000 <= p && 4096 * p < end :: Carried(v, w, p)
    requires forall p: nat | page <= p < page + n :: OnNewFrame(v, w, page, base, p)
    ensures Backed(w, end + size)
  {
    BackedPages(v, end);
    hide BackedPage, P.VInv;
    forall p: nat | 0xF_0000 <= p && 4096 * p < end + size ensures BackedPage(w, p) {
      if p >= page { assert OnNewFrame(v, w, page, base, p); }
    }
    forall p: nat, q: nat | 0xF_0000 <= p < q && 4096 * q < end + size ensures Apart(w, p, q) {
      if q < page {
        assert Apart(w, p, q);
      } else {
        assert OnNewFrame(v, w, page, base, q);
        if p >= page {
          assert OnNewFrame(v, w, page, base, p);
        } else {
          assert Carried(v, w, p);
          BackedUsed(v, p);
        }
        InPages(w, p);
        InPages(w, q);
      }
    }
  }

  lemma InPages(v: P.View, p: nat)
    requires BackedPage(v, p)
    ensures p in v.pages
  {
  }

  /** A backed page does not lie on a free frame. */
  lemma BackedUsed(v: P.View, p: nat)
    requires P.VInv(v) && BackedPage(v, p)
    ensures v.pages[p] !in v.frames.free
  {
  }

  /** The pages of a successful allocation are backed by the new run. */
  lemma NewPageBacked(v: P.View, e: P.Event, j: nat, p: nat)
    requires P.VInv(v) && P.Legal(v, e) && e.NewPages? && j < e.count && p == P.PageAt(e.page, j) == e.page + j
    ensures OnNewFrame(v, P.Apply(v, e), e.page, e.base, p)
  {
    P.SuccessfulAllocation(v, e, j);
    hide P.VInv, P.Legal, P.Apply;
    assert e.base + j in Run(e.base, e.count);
  }
}
