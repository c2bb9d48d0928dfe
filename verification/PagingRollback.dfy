// What a call of allocate_new_page answers, and what its rollback leaves behind, in terms of the
// state before the call.
module PagingRollback {
  import opened Bits
  import opened FrameOwnership
  import opened PageEntry
  import opened PagingSpec

  /** Each new table, when it was installed, lay no higher than any block sure to be found then. */
  ghost predicate TakenInOrder(v: View, news: seq<Install>, max: Word)
    decreases |news|
  {
    news == [] ||
      var init := news[..|news| - 1];
      TakenInOrder(v, init, max) && FirstOffer(InstallAll(v, init).frames, max, news[|news| - 1].frame, 1)
  }

  lemma TakenNone(v: View, max: Word)
    ensures TakenInOrder(v, [], max)
  {
  }

  lemma TakenNext(v: View, news: seq<Install>, w: View, more: seq<Install>, max: Word)
    requires TakenInOrder(v, news, max) && w.frames == InstallAll(v, news).frames
    requires |more| <= 1 && forall t | t in more :: FirstOffer(w.frames, max, t.frame, 1)
    ensures TakenInOrder(v, news + more, max)
  {
    if more == [] {
      assert news + more == news;
    } else {
      assert more[0] in more && (news + more)[..|news|] == news;
    }
  }

  /**
   * The answer to a request for n frames: refused only when no run is sure to be found; otherwise
   * the run reserved lies no higher than any such run, tables are added for pages of the range
   * alone, and the call fails only at a page whose table cannot be had, with tables for all
   * pages in front of it and no block left that is sure to be found.
   */
  ghost predicate Answers(v: View, e: PagingSpec.Event, max: Word, n: nat)
    requires Legal(v, e)
  {
    match e
    case Scan(news) => news == [] && NoOffer(v.frames, max, n)
    case NewPages(page, count, base, news) =>
      && count == n && FirstOffer(v.frames, max, base, n) && NewsWithin(news, page, n)
      && TakenInOrder(WithRun(v, base, n), news, max)
    case NewPagesFailed(page, count, base, news, mapped) =>
      && count == n && FirstOffer(v.frames, max, base, n) && NewsWithin(news, page, mapped)
      && TakenInOrder(WithRun(v, base, n), news, max)
      && NoOffer(InstallAll(WithRun(v, base, n), news).frames, max, 1)
      && PageAt(page, mapped) / ENTRIES !in Apply(v, e).tables
      && forall p | p in Range(page, mapped) :: p / ENTRIES in Apply(v, e).tables
    case _ => false
  }

  lemma AnswerRefused(v: View, max: Word, n: nat)
    requires NoOffer(v.frames, max, n)
    ensures Legal(v, Scan([])) && Answers(v, Scan([]), max, n)
  {
    hide NoOffer;
  }

  lemma AnswerGranted(v: View, w: View, page: nat, n: nat, base: nat, news: seq<Install>, max: Word)
    requires MappedSoFar(v, w, page, n, base, news, n) && FirstOffer(v.frames, max, base, n)
    requires Legal(v, NewPages(page, n, base, news)) && TakenInOrder(WithRun(v, base, n), news, max)
    ensures Answers(v, NewPages(page, n, base, news), max, n)
  {
    hide Legal, FirstOffer, NewsWithin, TakenInOrder;
  }

  lemma AnswerFailed(v: View, w: View, page: nat, n: nat, base: nat, news: seq<Install>, mapped: nat, max: Word)
    requires MappedSoFar(v, w, page, n, base, news, mapped) && FirstOffer(v.frames, max, base, n)
    requires PageAt(page, mapped) / ENTRIES !in w.tables
    requires Legal(v, NewPagesFailed(page, n, base, news, mapped)) && TakenInOrder(WithRun(v, base, n), news, max)
    requires NoOffer(w.frames, max, 1)
    ensures Answers(v, NewPagesFailed(page, n, base, news, mapped), max, n)
  {
    var e := NewPagesFailed(page, n, base, news, mapped);
    assert Apply(v, e).tables == w.tables;
    hide Legal, Apply, FirstOffer, NewsWithin, TakenInOrder, NoOffer;
  }

  /** Page k of the range is the first one without a table. */
  ghost predicate FirstAbsent(v: View, page: nat, n: nat, k: nat) {
    k < n && PageAt(page, k) / ENTRIES !in v.tables && forall j | 0 <= j < k :: PageAt(page, j) / ENTRIES in v.tables
  }

  /** Page m of the range is the first of its pages for some absent directory entry. */
  ghost predicate FirstOfEntry(v: View, page: nat, n: nat, m: nat) {
    && m < n && PageAt(page, m) / ENTRIES !in v.tables
    && forall j | 0 <= j < m :: PageAt(page, j) / ENTRIES != PageAt(page, m) / ENTRIES
  }

  /** The range meets no absent directory entry but this one. */
  ghost predicate OnlyAbsent(v: View, page: nat, n: nat, index: nat) {
    forall j | 0 <= j < n :: PageAt(page, j) / ENTRIES in v.tables || PageAt(page, j) / ENTRIES == index
  }

  /**
   * What a call that fails after reserving its run does to the translation: it removes the pages
   * of the range in front of some absent directory entry.  That is nothing, when the whole range
   * was absent; all pages in front of the first absent entry at least; and when the range meets
   * one such entry alone, nothing else, so that the translation is kept exactly when none of
   * these pages was present.
   */
  ghost predicate RolledBackPages(v: View, w: View, page: nat, n: nat) {
    && (exists m: nat :: FirstOfEntry(v, page, n, m) && w.pages == v.pages - Range(page, m))
    && (v.pages.Keys !! Range(page, n) ==> w.pages == v.pages)
    && (exists k: nat :: FirstAbsent(v, page, n, k))
    && forall k: nat | FirstAbsent(v, page, n, k) ::
         && (forall j | 0 <= j < k :: PageAt(page, j) !in w.pages)
         && (OnlyAbsent(v, page, n, PageAt(page, k) / ENTRIES) ==>
               w.pages == v.pages - Range(page, k) && (w.pages == v.pages <==> v.pages.Keys !! Range(page, k)))
  }

  lemma {:induction false} FindAbsent(v: View, page: nat, n: nat, m: nat) returns (k: nat)
    requires m < n && PageAt(page, m) / ENTRIES !in v.tables
    ensures k <= m && FirstAbsent(v, page, n, k)
  {
    if j: nat :| j < m && PageAt(page, j) / ENTRIES !in v.tables {
      k := FindAbsent(v, page, n, j);
    } else {
      k := m;
    }
  }

  lemma InstalledTables(v: View, e: PagingSpec.Event)
    requires VInv(v) && Legal(v, e) && e.NewPagesFailed?
    ensures forall i | i in v.tables :: i in Apply(v, e).tables
    ensures Apply(v, e).pages == v.pages - Range(e.page, e.mapped)
  {
    FailedAllocation(v, e);
    InstallKeeps(v, e.news);
  }

  /** The call stops at the first absent entry or later; with only one, there. */
  lemma StopsAt(v: View, e: PagingSpec.Event, max: Word, n: nat, k: nat)
    requires VInv(v) && Legal(v, e) && e.NewPagesFailed? && Answers(v, e, max, n) && FirstAbsent(v, e.page, n, k)
    ensures k <= e.mapped
    ensures OnlyAbsent(v, e.page, n, PageAt(e.page, k) / ENTRIES) ==> e.mapped == k
  {
    InstalledTables(v, e);
    RangeMember(e.page, e.mapped, k);
    hide VInv, Apply;
  }

  lemma FailsAtEntry(v: View, e: PagingSpec.Event, max: Word, n: nat)
    requires VInv(v) && Legal(v, e) && e.NewPagesFailed? && Answers(v, e, max, n)
    ensures FirstOfEntry(v, e.page, n, e.mapped)
  {
    InstalledTables(v, e);
    forall j | 0 <= j < e.mapped ensures PageAt(e.page, j) / ENTRIES != PageAt(e.page, e.mapped) / ENTRIES {
      RangeMember(e.page, e.mapped, j);
    }
    hide VInv, Apply;
  }

  lemma RollbackOutcome(v: View, e: PagingSpec.Event, max: Word, n: nat)
    requires VInv(v) && Legal(v, e) && e.NewPagesFailed? && Answers(v, e, max, n)
    ensures RolledBackPages(v, Apply(v, e), e.page, n)
  {
    InstalledTables(v, e);
    RangeSub(e.page, e.mapped, n);
    RollbackPages(v.pages, e.page, 0, e.mapped);
    var k0 := FindAbsent(v, e.page, n, e.mapped);
    FailsAtEntry(v, e, max, n);
    forall k: nat | FirstAbsent(v, e.page, n, k)
      ensures forall j | 0 <= j < k :: PageAt(e.page, j) !in Apply(v, e).pages
      ensures OnlyAbsent(v, e.page, n, PageAt(e.page, k) / ENTRIES) ==>
        && Apply(v, e).pages == v.pages - Range(e.page, k)
        && (Apply(v, e).pages == v.pages <==> v.pages.Keys !! Range(e.page, k))
    {
      StopsAt(v, e, max, n, k);
      forall j | 0 <= j < k ensures PageAt(e.page, j) in Range(e.page, e.mapped) {
        RangeMember(e.page, e.mapped, j);
      }
    }
  }
}
