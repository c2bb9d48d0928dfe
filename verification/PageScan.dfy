// The search of find_free_page over the virtual pages, apart from the tables it walks through.
module PageScan {
  import opened PageEntry

  /** nb + 1 consecutive absent pages from s on. */
  ghost predicate AbsentRun(pages: map<nat, nat>, s: nat, nb: nat) {
    s + nb < PAGE_COUNT && forall p: nat | s <= p <= s + nb :: p !in pages
  }

  ghost predicate LowestAbsentRun(pages: map<nat, nat>, s: nat, nb: nat) {
    AbsentRun(pages, s, nb) && forall t: nat | AbsentRun(pages, t, nb) :: s <= t
  }

  /**
   * The address the scan reports for a run of nb + 1 pages from s on.  Address 0 doubles as
   * "no run yet", so a run starting at page 0 is reported as NULL or from page 1.
   */
  function FoundAddress(s: nat, nb: nat): nat {
    if s > 0 then 4096 * s else if nb == 0 then 0 else 4096
  }

  /** The variables of the scan before page p: count absent pages end at p, from base on. */
  ghost predicate ScanState(pages: map<nat, nat>, p: nat, count: nat, base: nat, nb: nat) {
    && count <= nb && count <= p
    && (forall q: nat | p - count <= q < p :: q !in pages)
    && (p > count ==> p - count - 1 in pages)
    && base == (if count == 0 then 0 else FoundAddress(p - count, count - 1))
    && (forall t: nat | AbsentRun(pages, t, nb) :: p <= t + nb)
  }

  /** The scan reaches the pages of directory entry i before it has seen any run to its end. */
  ghost predicate Reached(pages: map<nat, nat>, nb: nat, i: nat) {
    forall t: nat | AbsentRun(pages, t, nb) :: 1024 * i <= t + nb
  }

  lemma ScanReaches(pages: map<nat, nat>, i: nat, count: nat, base: nat, nb: nat)
    requires ScanState(pages, 1024 * i, count, base, nb)
    ensures Reached(pages, nb, i)
  {
  }

  lemma ScanStart(pages: map<nat, nat>, nb: nat)
    ensures ScanState(pages, 0, 0, 0, nb)
  {
  }

  lemma ScanInRange(pages: map<nat, nat>, p: nat, count: nat, base: nat, nb: nat)
    requires ScanState(pages, p, count, base, nb)
    requires exists s: nat :: AbsentRun(pages, s, nb)
    ensures p < 0x10_0000
  {
  }

  lemma ScanBound(pages: map<nat, nat>, p: nat, count: nat, base: nat, nb: nat)
    requires ScanState(pages, p, count, base, nb)
    ensures count <= nb && count <= p
  {
  }

  lemma ScanPresent(pages: map<nat, nat>, p: nat, count: nat, base: nat, nb: nat)
    requires ScanState(pages, p, count, base, nb) && p in pages
    ensures ScanState(pages, p + 1, 0, 0, nb)
  {
    forall t: nat | AbsentRun(pages, t, nb) ensures p + 1 <= t + nb {
      assert p <= t + nb;
      assert t <= p <= t + nb ==> p !in pages;
    }
  }

  lemma ScanAbsent(pages: map<nat, nat>, p: nat, count: nat, base: nat, nb: nat)
    requires ScanState(pages, p, count, base, nb) && p !in pages && p < 0x10_0000 && count < nb
    ensures ScanState(pages, p + 1, count + 1, if base == 0 then 4096 * p else base, nb)
  {
    forall t: nat | AbsentRun(pages, t, nb) ensures p + 1 <= t + nb {
      StartOrLater(pages, p, count, t, nb);
    }
  }

  lemma ScanFound(pages: map<nat, nat>, p: nat, base: nat, nb: nat)
    requires ScanState(pages, p, nb, base, nb) && p !in pages && p < 0x10_0000
    ensures LowestAbsentRun(pages, p - nb, nb)
    ensures (if base == 0 then 4096 * p else base) == FoundAddress(p - nb, nb)
  {
    forall t: nat | AbsentRun(pages, t, nb) ensures p - nb <= t {
      StartOrLater(pages, p, nb, t, nb);
    }
  }

  /** No run long enough starts before the current stretch of absent pages. */
  lemma StartOrLater(pages: map<nat, nat>, p: nat, count: nat, t: nat, nb: nat)
    requires count <= nb && count <= p && (p > count ==> p - count - 1 in pages)
    requires AbsentRun(pages, t, nb) && p <= t + nb
    ensures p - count <= t
  {
    assert t <= p - count - 1 <= t + nb ==> p - count - 1 !in pages;
  }

  /**
   * The scan reports the start of the lowest run, as a non-null address, exactly when that
   * run does not start at page 0, that is when one of the pages 0 .. nb is mapped.
   */
  lemma FoundAddressExact(pages: map<nat, nat>, s: nat, nb: nat)
    requires LowestAbsentRun(pages, s, nb)
    ensures FoundAddress(s, nb) == 4096 * s && FoundAddress(s, nb) != 0 <==> s != 0
    ensures s != 0 <==> exists p: nat :: p <= nb && p in pages
  {
    if forall p: nat | p <= nb :: p !in pages {
      assert AbsentRun(pages, 0, nb);
    }
  }
}
