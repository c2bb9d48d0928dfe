// Cluster chains: what a file allocation table means, and how a file grows.
module FatChains {
  import opened Bits
  import opened FatTable

  /** The end mark as read back from a table; links[c] is what the entry of cluster c reads. */
  const END: nat := 0xFFFF_FFF8

  type Links = l: seq<nat> | |l| < 0xFFFF_FFF8

  ghost predicate LinkAt(links: Links, cs: seq<nat>, i: nat)
    requires i < |cs|
  {
    && 2 <= cs[i] < |links|
    && if i + 1 < |cs| then links[cs[i]] == cs[i + 1] else links[cs[i]] >= END
  }

  /** cs are the clusters of a file, in order, up to an end mark. */
  ghost predicate IsChain(links: Links, cs: seq<nat>) {
    cs != [] && forall i | 0 <= i < |cs| :: LinkAt(links, cs, i)
  }

  ghost predicate Disjoint(cs: seq<nat>, ds: seq<nat>) {
    forall c | c in cs :: c !in ds
  }

  /** Every file has a chain, and no cluster belongs to two files. */
  ghost predicate WellFormed(links: Links, chains: seq<seq<nat>>) {
    && (forall k | 0 <= k < |chains| :: IsChain(links, chains[k]))
    && (forall j, k | 0 <= j < |chains| && 0 <= k < |chains| && j != k :: Disjoint(chains[j], chains[k]))
  }

  // ---- chains ---------------------------------------------------------------------------------

  /** The entry of a cluster tells whether it is the last one of its chain. */
  lemma LinkKind(links: Links, cs: seq<nat>, i: nat)
    requires IsChain(links, cs) && i < |cs|
    ensures 2 <= cs[i] < |links|
    ensures if i + 1 < |cs| then links[cs[i]] == cs[i + 1] && cs[i + 1] < |links| else links[cs[i]] >= END
  {
    assert LinkAt(links, cs, i);
    if i + 1 < |cs| { assert LinkAt(links, cs, i + 1); }
  }

  /** Two chains that share a cluster are equal from there on. */
  lemma {:induction false} SharedTail(links: Links, cs: seq<nat>, ds: seq<nat>, i: nat, j: nat)
    requires IsChain(links, cs) && IsChain(links, ds)
    requires i < |cs| && j < |ds| && cs[i] == ds[j]
    ensures |cs| - i == |ds| - j && cs[i..] == ds[j..]
    decreases |cs| - i
  {
    LinkKind(links, cs, i);
    LinkKind(links, ds, j);
    if i + 1 < |cs| {
      SharedTail(links, cs, ds, i + 1, j + 1);
      assert cs[i..] == [cs[i]] + cs[i + 1..] && ds[j..] == [ds[j]] + ds[j + 1..];
    }
  }

  /** A chain visits no cluster twice: following it never loops. */
  lemma ChainDistinct(links: Links, cs: seq<nat>, i: nat, j: nat)
    requires IsChain(links, cs) && i < j < |cs|
    ensures cs[i] != cs[j]
  {
    if cs[i] == cs[j] { SharedTail(links, cs, cs, i, j); }
  }

  /** Two files are disjoint exactly when they end in different clusters. */
  lemma ChainsDisjointExact(links: Links, cs: seq<nat>, ds: seq<nat>)
    requires IsChain(links, cs) && IsChain(links, ds)
    ensures Disjoint(cs, ds) <==> cs[|cs| - 1] != ds[|ds| - 1]
  {
    if Disjoint(cs, ds) {
      assert cs[|cs| - 1] in cs && ds[|ds| - 1] in ds;
    } else {
      var c :| c in cs && c in ds;
      var i :| 0 <= i < |cs| && cs[i] == c;
      var j :| 0 <= j < |ds| && ds[j] == c;
      SharedTail(links, cs, ds, i, j);
      assert cs[i..][|cs| - 1 - i] == cs[|cs| - 1] && ds[j..][|ds| - 1 - j] == ds[|ds| - 1];
    }
  }

  lemma LinkValue(links: Links, cs: seq<nat>, i: nat)
    requires IsChain(links, cs) && i < |cs|
    ensures cs[i] < |links| && links[cs[i]] >= 2
  {
    assert LinkAt(links, cs, i);
    if i + 1 < |cs| { assert LinkAt(links, cs, i + 1); }
  }

  /** A free cluster is on no chain. */
  lemma FreeOnNoChain(links: Links, cs: seq<nat>, f: nat)
    requires IsChain(links, cs) && f < |links| && links[f] == 0
    ensures f !in cs
  {
    forall i | 0 <= i < |cs| ensures cs[i] != f {
      LinkValue(links, cs, i);
    }
  }

  /** Entries off a chain do not matter to it. */
  lemma ChainFrame(links: Links, links': Links, cs: seq<nat>)
    requires IsChain(links, cs) && |links'| == |links|
    requires forall c | c in cs && c < |links| :: links'[c] == links[c]
    ensures IsChain(links', cs)
  {
    forall i | 0 <= i < |cs| ensures LinkAt(links', cs, i) {
      assert LinkAt(links, cs, i);
    }
  }

  // ---- growth -----------------------------------------------------------------------------------

  /** What find_free_cluster looks for among the clusters 2 .. limit - 1. */
  ghost predicate LowestFree(links: Links, limit: nat, f: nat)
    requires limit <= |links|
  {
    if f == 0 then NoneFree(links, limit) else 2 <= f < limit && links[f] == 0 && NoneFree(links, f)
  }

  ghost predicate NoneFree(links: Links, limit: nat)
    requires limit <= |links|
  {
    forall c | 2 <= c < limit :: links[c] != 0
  }

  /** The links after cluster f is appended behind cluster last. */
  function Linked(links: Links, last: nat, f: nat): Links
    requires last < |links| && f < |links|
  {
    links[last := f][f := END]
  }

  lemma WriterGrows(links: Links, cs: seq<nat>, f: nat)
    requires IsChain(links, cs) && 2 <= f < |links| && links[f] == 0
    ensures cs[|cs| - 1] < |links|
    ensures IsChain(Linked(links, cs[|cs| - 1], f), cs + [f])
  {
    assert LinkAt(links, cs, |cs| - 1);
    var links', ds := Linked(links, cs[|cs| - 1], f), cs + [f];
    FreeOnNoChain(links, cs, f);
    forall i | 0 <= i < |ds| ensures LinkAt(links', ds, i) {
      if i < |cs| {
        assert LinkAt(links, cs, i) && cs[i] in cs;
        if i + 1 < |cs| { ChainDistinct(links, cs, i, |cs| - 1); }
      }
    }
  }

  /**
   * Appending a free cluster to one file keeps the table well formed: that file's chain gains
   * the cluster at its end, every other chain is unchanged.
   */
  lemma GrowKeepsChains(links: Links, chains: seq<seq<nat>>, w: nat, f: nat)
    requires WellFormed(links, chains) && w < |chains|
    requires 2 <= f < |links| && links[f] == 0
    ensures chains[w] != [] && chains[w][|chains[w]| - 1] < |links|
    ensures WellFormed(Linked(links, chains[w][|chains[w]| - 1], f), chains[w := chains[w] + [f]])
  {
    var cs := chains[w];
    WriterGrows(links, cs, f);
    var last := cs[|cs| - 1];
    var links', chains' := Linked(links, last, f), chains[w := cs + [f]];
    forall k | 0 <= k < |chains| ensures IsChain(links', chains'[k]) {
      FreeOnNoChain(links, chains[k], f);
      if k != w {
        assert last in cs;
        assert Disjoint(cs, chains[k]);
        ChainFrame(links, links', chains[k]);
      }
    }
    hide IsChain;
    forall j, k | 0 <= j < |chains| && 0 <= k < |chains| && j != k ensures Disjoint(chains'[j], chains'[k]) {
      assert Disjoint(chains[j], chains[k]) && Disjoint(chains[k], chains[j]);
      FreeOnNoChain(links, chains[j], f);
      FreeOnNoChain(links, chains[k], f);
    }
  }

  lemma {:induction false} SameStart(links: Links, links': Links, cs: seq<nat>, ds: seq<nat>, i: nat)
    requires IsChain(links, cs) && IsChain(links', ds) && |links'| == |links|
    requires cs[0] == ds[0] && i < |cs|
    requires forall k | 0 <= k < |cs| - 1 && cs[k] < |links| :: links'[cs[k]] == links[cs[k]]
    ensures i < |ds| && ds[i] == cs[i]
  {
    if i == 0 {
    } else {
      SameStart(links, links', cs, ds, i - 1);
      assert LinkAt(links, cs, i - 1) && LinkAt(links, cs, i) && LinkAt(links', ds, i - 1);
    }
  }

  /** When no cluster is free the search yields 0, and linking it leaves the file without a chain. */
  lemma GrowWithoutRoom(links: Links, cs: seq<nat>, ds: seq<nat>)
    requires IsChain(links, cs) && ds != [] && ds[0] == cs[0] && 0 < |links|
    ensures cs[|cs| - 1] < |links|
    ensures !IsChain(Linked(links, cs[|cs| - 1], 0), ds)
  {
    var n := |cs|;
    assert LinkAt(links, cs, n - 1);
    var links' := Linked(links, cs[n - 1], 0);
    if IsChain(links', ds) {
      forall k | 0 <= k < n - 1 && cs[k] < |links| ensures links'[cs[k]] == links[cs[k]] {
        assert LinkAt(links, cs, k);
        ChainDistinct(links, cs, k, n - 1);
      }
      SameStart(links, links', cs, ds, n - 1);
      LinkValue(links', ds, n - 1);
    }
  }

  /** Growing a chain succeeds exactly when the search found a cluster. */
  lemma GrowExact(links: Links, chains: seq<seq<nat>>, w: nat, limit: nat, f: nat)
    requires WellFormed(links, chains) && w < |chains| && 0 < limit <= |links| && LowestFree(links, limit, f)
    ensures chains[w] != [] && chains[w][|chains[w]| - 1] < |links|
    ensures f != 0 <==> IsChain(Linked(links, chains[w][|chains[w]| - 1], f), chains[w] + [f])
  {
    if f != 0 {
      WriterGrows(links, chains[w], f);
    } else {
      assert IsChain(links, chains[w]);
      GrowWithoutRoom(links, chains[w], chains[w] + [f]);
    }
  }

  // ---- tables -------------------------------------------------------------------------------------

  /** The links of the first n clusters of a table. */
  function LinksOf(ty: FatType, t: seq<Byte>, n: nat): (l: Links)
    requires n < 0xFFFF_FFF8 && (n > 0 ==> InTable(ty, t, n - 1))
    ensures |l| == n
    ensures forall c | 0 <= c < n :: InTable(ty, t, c) && l[c] == Read(ty, t, c)
  {
    AllInTable(ty, t, n);
    seq(n, c requires 0 <= c < n => Read(ty, t, c))
  }

  lemma AllInTable(ty: FatType, t: seq<Byte>, n: nat)
    requires n > 0 ==> InTable(ty, t, n - 1)
    ensures forall c | 0 <= c < n :: InTable(ty, t, c)
  {
    forall c | 0 <= c < n ensures InTable(ty, t, c) { InTableBelow(ty, t, n - 1, c); }
  }

  lemma UpdateLinks(ty: FatType, t: seq<Byte>, n: nat, c: nat, next: Word)
    requires n < 0xFFFF_FFF8 && c < n && InTable(ty, t, n - 1) && InTable(ty, t, c)
    ensures |Update(ty, t, c, next)| == |t|
    ensures LinksOf(ty, Update(ty, t, c, next), n) == LinksOf(ty, t, n)[c := Widened(ty, next % Modulus(ty))]
  {
    var u := Update(ty, t, c, next);
    UpdateLength(ty, t, c, next);
    var l, l' := LinksOf(ty, t, n), LinksOf(ty, u, n);
    hide Update, Read, Widened;
    forall d | 0 <= d < n ensures l'[d] == l[c := Widened(ty, next % Modulus(ty))][d] {
      UpdateReads(ty, t, c, next, d);
    }
  }

  /** Cluster numbers a table of this type can store without them looking like an end mark. */
  predicate Storable(ty: FatType, c: nat) {
    match ty
    case Fat12 => c < 0x0FF8
    case Fat16 => c < 0xFFF8
    case Fat32 => c < 0xFFFF_FFF8
  }

  lemma MarksRead(ty: FatType, f: Word, mark: Word)
    requires Storable(ty, f) && (mark == 0xFFFF_FFF8 || (ty.Fat12? && mark == 0x0FF8))
    ensures Widened(ty, f % Modulus(ty)) == f && Widened(ty, mark % Modulus(ty)) == END
  {
  }
}
