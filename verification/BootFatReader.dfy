// Reading files in the boot loader: a sector buffer walked along a cluster chain.
module BootFatReader {
  import opened Bits
  import opened BootFatCache
  import opened ClusterArea
  import opened FatTable

  /**
   * Where the sectors of an open file are: the root directory's in a row, others in a chain - or
   * in the first sector alone, of a cluster the reader takes for an end mark when it goes on.
   */
  datatype Source = Root(first: nat, count: nat) | Chain(clusters: seq<nat>) | Head(cluster: nat)

  class FileData {
    const buffer: array<Byte>
    var handle: int
    var isDirectory: bool
    var position: Word
    var size: Word
    var isOpen: bool
    var firstCluster: nat
    var currentCluster: nat
    var currentSectorInCluster: nat

    constructor ()
      ensures buffer.Length == 512 && fresh(buffer) && !isOpen
    {
      buffer := new Byte[512];
      handle, isDirectory, isOpen := 0, false, false;
      position, size := 0, 0;
      firstCluster, currentCluster, currentSectorInCluster := 0, 0, 0;
    }
  }

  /** No lookup along these clusters, from this window on, meets a split entry. */
  ghost predicate Clear(ty: FatType, position: nat, cs: seq<nat>)
    decreases |cs|
  {
    cs == [] ||
    var p := Slide(position, Offset(ty, cs[0]) / 512);
    !Split(ty, p, cs[0]) && Clear(ty, p, cs[1..])
  }

  /** Where the window is after these lookups. */
  ghost function WindowAfter(ty: FatType, position: nat, cs: seq<nat>): nat
    decreases |cs|
  {
    if cs == [] then position else WindowAfter(ty, Slide(position, Offset(ty, cs[0]) / 512), cs[1..])
  }

  lemma {:induction false} LookupsInTurn(ty: FatType, position: nat, cs: seq<nat>, ds: seq<nat>)
    ensures Clear(ty, position, cs + ds) <==>
      Clear(ty, position, cs) && Clear(ty, WindowAfter(ty, position, cs), ds)
    ensures WindowAfter(ty, position, cs + ds) == WindowAfter(ty, WindowAfter(ty, position, cs), ds)
    decreases |cs|
  {
    if cs == [] {
      assert cs + ds == ds;
    } else {
      assert (cs + ds)[1..] == cs[1..] + ds;
      hide Slide, Offset, Split;
      LookupsInTurn(ty, Slide(position, Offset(ty, cs[0]) / 512), cs[1..], ds);
    }
  }

  // ---- sectors of a cluster chain --------------------------------------------------------------------

  /** Sector k of a chain is sector k % spc of cluster k / spc. */
  lemma DivUnique(k: nat, q: nat, r: nat, spc: nat)
    requires k == q * spc + r && r < spc
    ensures k / spc == q && k % spc == r
  {
    if k / spc < q {
      assert (k / spc + 1) * spc <= q * spc by { Monotone(k / spc + 1, q, spc); }
    } else if q < k / spc {
      assert (q + 1) * spc <= k / spc * spc by { Monotone(q + 1, k / spc, spc); }
    }
  }

  lemma DivParts(k: nat, spc: nat)
    requires spc > 0
    ensures k == k / spc * spc + k % spc && k % spc < spc
  {
  }

  lemma DivOrder(a: nat, b: nat, spc: nat)
    requires a <= b && spc > 0
    ensures a / spc <= b / spc
  {
    DivParts(a, spc);
    DivParts(b, spc);
    if b / spc < a / spc { Monotone(b / spc + 1, a / spc, spc); }
  }

  lemma InsideChain(k: nat, n: nat, spc: nat)
    requires spc > 0
    ensures k < n * spc <==> k / spc < n
  {
    DivParts(k, spc);
    if k / spc < n { Monotone(k / spc + 1, n, spc); } else { Monotone(n, k / spc, spc); }
  }

  lemma OffsetOrder(ty: FatType, c: nat, d: nat)
    requires c <= d
    ensures Offset(ty, c) / 512 <= Offset(ty, d) / 512
  {
    assert c / 2 <= d / 2;
  }

  /** The sector behind sector k - 1: in the same cluster, or the first of the next one. */
  lemma NextSectorIndex(k: nat, spc: nat)
    requires spc > 0 && k > 0
    ensures var q, r := (k - 1) / spc, (k - 1) % spc;
      if r + 1 < spc then k / spc == q && k % spc == r + 1 else k / spc == q + 1 && k % spc == 0
  {
    var q, r := (k - 1) / spc, (k - 1) % spc;
    DivParts(k - 1, spc);
    if r + 1 < spc { DivUnique(k, q, r + 1, spc); } else { DivUnique(k, q + 1, 0, spc); }
  }

  class Reader {
    const fat: Window
    const sectorsPerCluster: nat
    const dataSectionLba: nat
    const clusters: nat

    constructor (fat: Window, sectorsPerCluster: nat, dataSectionLba: nat, clusters: nat)
      ensures this.fat == fat && this.sectorsPerCluster == sectorsPerCluster
      ensures this.dataSectionLba == dataSectionLba && this.clusters == clusters
    {
      this.fat, this.sectorsPerCluster := fat, sectorsPerCluster;
      this.dataSectionLba, this.clusters := dataSectionLba, clusters;
    }

    /** Clusters 2 .. clusters - 1 and their FAT entries lie on the disk. */
    ghost predicate Layout() {
      && 1 <= sectorsPerCluster && 2 <= clusters <= 0x1000_0000
      && Sectors(fat.disk) && |fat.disk| < 0x1_0000_0000
      && dataSectionLba + (clusters - 2) * sectorsPerCluster <= |fat.disk|
      && fat.reservedSectors + Offset(fat.ty, clusters - 1) / 512 + 5 <= |fat.disk|
    }

    ghost predicate Valid()
      reads fat, fat.cache
    {
      fat.Valid() && Layout()
    }

    /** FAT_ClusterToLba. */
    function ClusterToLba(c: nat): Word {
      Cluster2Lba(c, sectorsPerCluster, dataSectionLba)
    }

    /** What the entry of cluster c reads on disk. */
    ghost function Next(c: nat): nat
      requires Layout()
    {
      if InTable(fat.ty, fat.Fat(), c) then Read(fat.ty, fat.Fat(), c) else 0
    }

    ghost predicate WalkAt(cs: seq<nat>, i: nat)
      requires Layout() && i < |cs|
    {
      && 2 <= cs[i] < clusters && (cs[i] < 0x0FF8 || (i == 0 && sectorsPerCluster == 1))
      && if i + 1 < |cs| then Next(cs[i]) == cs[i + 1] else Next(cs[i]) >= 0x0FF8
    }

    /**
     * The clusters a reader visits: it takes any number from 0xFF8 on for the end - but only when
     * it has moved on, so not the first cluster when its one sector is all there is of it.
     */
    ghost predicate IsWalk(cs: seq<nat>)
      requires Layout()
    {
      forall i | 0 <= i < |cs| :: WalkAt(cs, i)
    }

    /** The clusters of a file as the format defines them, up to a real end mark. */
    ghost predicate IsFile(cs: seq<nat>)
      requires Layout()
    {
      cs != [] && forall i | 0 <= i < |cs| :: FileLink(cs, i)
    }

    ghost predicate FileLink(cs: seq<nat>, i: nat)
      requires Layout() && i < |cs|
    {
      && 2 <= cs[i] < clusters
      && if i + 1 < |cs| then Next(cs[i]) == cs[i + 1] else Next(cs[i]) >= 0x0FFF_FFF8
    }

    ghost function SectorCount(src: Source): nat {
      match src
      case Root(_, count) => count
      case Chain(cs) => |cs| * sectorsPerCluster
      case Head(_) => 1
    }

    /** The clusters from 2 on lie one after the other from the data section on. */
    ghost function FirstSector(c: nat): nat {
      if c < 2 then 0 else dataSectionLba + (c - 2) * sectorsPerCluster
    }

    lemma ClusterPlace(c: nat)
      requires Layout() && 2 <= c < clusters
      ensures ClusterToLba(c) == FirstSector(c) == dataSectionLba + (c - 2) * sectorsPerCluster
      ensures dataSectionLba <= FirstSector(c) && FirstSector(c) + sectorsPerCluster <= |fat.disk|
    {
      LbaValue(c, clusters, sectorsPerCluster, dataSectionLba, |fat.disk|);
    }

    ghost function LbaAt(src: Source, k: nat): nat {
      match src
      case Root(first, _) => first + k
      case Chain(cs) =>
        if sectorsPerCluster > 0 && k / sectorsPerCluster < |cs|
        then FirstSector(cs[k / sectorsPerCluster]) + k % sectorsPerCluster else 0
      case Head(c) => FirstSector(c) + k
    }

    ghost predicate SourceOk(src: Source) {
      && Layout() && 512 * SectorCount(src) < 0x1_0000_0000
      && match src
         case Root(first, count) => first + count <= |fat.disk|
         case Chain(cs) => IsWalk(cs)
         case Head(c) => 0x0FF8 <= c < clusters && 1 < sectorsPerCluster
    }

    lemma SectorOnDisk(src: Source, k: nat)
      requires SourceOk(src) && k < SectorCount(src)
      ensures LbaAt(src, k) < |fat.disk| && |fat.disk[LbaAt(src, k)]| == 512
    {
      match src
      case Root(_, _) =>
      case Chain(cs) =>
        var q := k / sectorsPerCluster;
        InsideChain(k, |cs|, sectorsPerCluster);
        assert WalkAt(cs, q);
        ClusterPlace(cs[q]);
        DivParts(k, sectorsPerCluster);
        hide ClusterToLba, FirstSector;
      case Head(c) =>
        ClusterPlace(c);
        hide ClusterToLba, FirstSector;
    }

    ghost function ByteAt(src: Source, x: nat): Byte {
      var lba := LbaAt(src, x / 512);
      if lba < |fat.disk| && |fat.disk[lba]| == 512 then fat.disk[lba][x % 512] else 0
    }

    /** The bytes of the whole chain, or of the whole root directory and what follows it. */
    ghost function Content(src: Source): (b: seq<Byte>)
      ensures |b| == 512 * SectorCount(src)
    {
      seq(512 * SectorCount(src), x requires 0 <= x => ByteAt(src, x))
    }

    /** Byte y of this sector of the disk. */
    ghost predicate DiskHas(lba: int, y: nat, b: Byte) {
      0 <= lba < |fat.disk| && |fat.disk[lba]| == 512 && y < 512 && fat.disk[lba][y] == b
    }

    /** Byte x of a chain is byte x % 512 of sector r of its q-th cluster. */
    lemma ContentByte(cs: seq<nat>, x: nat, q: nat, r: nat)
      requires SourceOk(Chain(cs)) && x < |Content(Chain(cs))| && 0 < sectorsPerCluster
      requires q == x / 512 / sectorsPerCluster && r == x / 512 % sectorsPerCluster
      ensures q < |cs| && DiskHas(dataSectionLba + (cs[q] - 2) * sectorsPerCluster + r, x % 512, Content(Chain(cs))[x])
    {
      hide *;
      ChainParts(cs);
      ContentAt(Chain(cs), x);
      SectorOnDisk(Chain(cs), x / 512);
      LbaOf(cs, x / 512, q, r);
      WalkStep(cs, q);
      DiskByte(cs, x, q, r);
    }

    lemma ContentAt(src: Source, x: nat)
      requires x < |Content(src)|
      ensures x / 512 < SectorCount(src) && Content(src)[x] == ByteAt(src, x)
    {
      hide SectorCount, ByteAt;
    }

    lemma LbaOf(cs: seq<nat>, k: nat, q: nat, r: nat)
      requires 0 < sectorsPerCluster && q == k / sectorsPerCluster && r == k % sectorsPerCluster
      requires k < SectorCount(Chain(cs))
      ensures q < |cs| && LbaAt(Chain(cs), k) == FirstSector(cs[q]) + r
    {
      InsideChain(k, |cs|, sectorsPerCluster);
      hide FirstSector;
    }

    lemma DiskByte(cs: seq<nat>, x: nat, q: nat, r: nat)
      requires q < |cs| && 2 <= cs[q] && LbaAt(Chain(cs), x / 512) == FirstSector(cs[q]) + r
      requires LbaAt(Chain(cs), x / 512) < |fat.disk| && |fat.disk[LbaAt(Chain(cs), x / 512)]| == 512
      ensures DiskHas(dataSectionLba + (cs[q] - 2) * sectorsPerCluster + r, x % 512, ByteAt(Chain(cs), x))
    {
      hide LbaAt;
    }

    // ---- open files -------------------------------------------------------------------------------------

    /** This cluster and sector in cluster are sector k of the source. */
    ghost predicate IsSector(src: Source, cluster: nat, sector: nat, k: nat) {
      match src
      case Root(first, _) => cluster == first + k
      case Chain(cs) =>
        && sectorsPerCluster > 0 && k / sectorsPerCluster < |cs|
        && cluster == cs[k / sectorsPerCluster] && sector == k % sectorsPerCluster
      case Head(c) => cluster == c && sector == k
    }

    ghost predicate CursorAt(fd: FileData, src: Source, k: nat)
      reads fd`currentCluster, fd`currentSectorInCluster
    {
      IsSector(src, fd.currentCluster, fd.currentSectorInCluster, k)
    }

    ghost predicate Buffered(fd: FileData, src: Source, k: nat)
      reads fd.buffer
    {
      LbaAt(src, k) < |fat.disk| && fd.buffer[..] == fat.disk[LbaAt(src, k)]
    }

    /**
     * Buffer, cluster and sector in cluster belong to the position; at the end of the chain the
     * position is the size, so nothing more is read.
     */
    ghost predicate FileOk(fd: FileData, src: Source)
      reads fd, fd.buffer
    {
      && SourceOk(src) && (fd.handle == -1 <==> src.Root?) && fd.buffer.Length == 512
      && (fd.position <= fd.size || (fd.isDirectory && fd.size == 0))
      && fd.position <= 512 * SectorCount(src)
      && if fd.position < 512 * SectorCount(src) then
           var k := fd.position / 512;
           CursorAt(fd, src, k) && Buffered(fd, src, k)
         else
           fd.size == fd.position && (fd.isDirectory ==> fd.size != 0)
    }

    /** The clusters whose entries are looked up on the way from position p to position q. */
    ghost function LookedUp(src: Source, p: nat, q: nat): seq<nat> {
      if !src.Chain? || sectorsPerCluster == 0 then [] else
        var i, j := p / 512 / sectorsPerCluster, q / 512 / sectorsPerCluster;
        if i <= j <= |src.clusters| then src.clusters[i..j] else []
    }

    /** From this window on, none of these lookups meets a split entry. */
    ghost predicate Passes(src: Source, window: nat, p: nat, q: nat) {
      Clear(fat.ty, window, LookedUp(src, p, q))
    }

    ghost function After(src: Source, window: nat, p: nat, q: nat): nat {
      WindowAfter(fat.ty, window, LookedUp(src, p, q))
    }

    lemma PassesInTurn(src: Source, window: nat, p: nat, m: nat, q: nat)
      requires SourceOk(src) && p <= m <= q <= 512 * SectorCount(src)
      ensures Passes(src, window, p, q) <==>
        Passes(src, window, p, m) && Passes(src, After(src, window, p, m), m, q)
      ensures After(src, window, p, q) == After(src, After(src, window, p, m), m, q)
    {
      LookedUpInTurn(src, p, m, q);
      LookupsInTurn(fat.ty, window, LookedUp(src, p, m), LookedUp(src, m, q));
    }

    lemma LookedUpInTurn(src: Source, p: nat, m: nat, q: nat)
      requires SourceOk(src) && p <= m <= q <= 512 * SectorCount(src)
      ensures LookedUp(src, p, q) == LookedUp(src, p, m) + LookedUp(src, m, q)
    {
      if src.Chain? {
        var spc := sectorsPerCluster;
        DivOrder(p / 512, m / 512, spc);
        DivOrder(m / 512, q / 512, spc);
        DivOrder(q / 512, |src.clusters| * spc, spc);
        DivUnique(|src.clusters| * spc, |src.clusters|, 0, spc);
      }
      hide IsWalk;
    }

    /** Within a sector nothing is looked up; from its start or from inside it, the same. */
    lemma SameSector(src: Source, window: nat, p: nat, q: nat)
      ensures p / 512 == q / 512 ==> Passes(src, window, p, q) && After(src, window, p, q) == window
      ensures LookedUp(src, p, q) == LookedUp(src, 512 * (p / 512), q)
    {
      assert 512 * (p / 512) / 512 == p / 512;
    }

    /** How many bytes a read of n bytes asks for: a directory of size 0 is unbounded. */
    function Wanted(fd: FileData, n: Word): Word
      reads fd
    {
      if !fd.isDirectory || fd.size != 0 then Min(n, Wrap(fd.size as int - fd.position)) else n
    }

    method ReadSector(lba: nat, out: array<Byte>) returns (ok: bool)
      requires Sectors(fat.disk) && out.Length == 512
      modifies out
      ensures ok <==> lba < |fat.disk|
      ensures ok ==> out[..] == fat.disk[lba]
      ensures !ok ==> out[..] == old(out[..])
    {
      if lba >= |fat.disk| {
        return false;
      }
      for i := 0 to 512
        invariant out[..i] == fat.disk[lba][..i]
      {
        out[i] := fat.disk[lba][i];
      }
      return true;
    }

    // ---- moving to the next sector ----------------------------------------------------------------------

    /** Where the cursor goes from sector k - 1 of a chain. */
    lemma ChainPlace(cs: seq<nat>, cluster: nat, sector: nat, k: nat)
      requires SourceOk(Chain(cs)) && 1 <= k <= SectorCount(Chain(cs)) && IsSector(Chain(cs), cluster, sector, k - 1)
      ensures sector + 1 < sectorsPerCluster ==>
        && (cluster >= 0x0FF8 <==> k == SectorCount(Chain(cs)))
        && (k < SectorCount(Chain(cs)) ==> IsSector(Chain(cs), cluster, sector + 1, k))
      ensures sector + 1 >= sectorsPerCluster ==>
        && cluster < clusters && (Next(cluster) >= 0x0FF8 <==> k == SectorCount(Chain(cs)))
        && (k < SectorCount(Chain(cs)) ==> IsSector(Chain(cs), Next(cluster), 0, k))
    {
      ChainParts(cs);
      hide *;
      var q := SectorPlaces(cs, cluster, sector, k);
      WalkStep(cs, q);
    }

    lemma ChainParts(cs: seq<nat>)
      requires SourceOk(Chain(cs))
      ensures Layout() && IsWalk(cs) && 0 < sectorsPerCluster
    {
      hide IsWalk;
    }

    lemma SectorPlaces(cs: seq<nat>, cluster: nat, sector: nat, k: nat) returns (q: nat)
      requires 0 < sectorsPerCluster && 1 <= k <= SectorCount(Chain(cs)) && IsSector(Chain(cs), cluster, sector, k - 1)
      ensures q < |cs| && cluster == cs[q]
      ensures sector + 1 < sectorsPerCluster ==>
        k < SectorCount(Chain(cs)) && IsSector(Chain(cs), cluster, sector + 1, k)
      ensures sector + 1 >= sectorsPerCluster ==>
        if q + 1 < |cs| then k < SectorCount(Chain(cs)) && IsSector(Chain(cs), cs[q + 1], 0, k)
        else k == SectorCount(Chain(cs))
    {
      var spc := sectorsPerCluster;
      q := (k - 1) / spc;
      NextSectorIndex(k, spc);
      InsideChain(k - 1, |cs|, spc);
      InsideChain(k, |cs|, spc);
    }

    /** Which lookup that takes. */
    lemma ChainLookup(cs: seq<nat>, cluster: nat, sector: nat, w: nat, k: nat)
      requires SourceOk(Chain(cs)) && 1 <= k <= SectorCount(Chain(cs)) && IsSector(Chain(cs), cluster, sector, k - 1)
      requires Passes(Chain(cs), w, 512 * (k - 1), 512 * k)
      ensures sector + 1 < sectorsPerCluster ==> After(Chain(cs), w, 512 * (k - 1), 512 * k) == w
      ensures sector + 1 >= sectorsPerCluster ==>
        var p := Slide(w, Offset(fat.ty, cluster) / 512);
        !Split(fat.ty, p, cluster) && After(Chain(cs), w, 512 * (k - 1), 512 * k) == p
    {
      var spc := sectorsPerCluster;
      NextSectorIndex(k, spc);
      InsideChain(k - 1, |cs|, spc);
      hide Layout, IsWalk, Slide, Split, Offset, Passes, After;
      OneLookup(cs, w, (k - 1) / spc, k / spc, k);
    }

    lemma OneLookup(cs: seq<nat>, w: nat, q: nat, q': nat, k: nat)
      requires 1 <= k && 0 < sectorsPerCluster && q == (k - 1) / sectorsPerCluster && q' == k / sectorsPerCluster
      requires q < |cs| && (q' == q || q' == q + 1) && Passes(Chain(cs), w, 512 * (k - 1), 512 * k)
      ensures q' == q ==> After(Chain(cs), w, 512 * (k - 1), 512 * k) == w
      ensures q' == q + 1 ==>
        var p := Slide(w, Offset(fat.ty, cs[q]) / 512);
        !Split(fat.ty, p, cs[q]) && After(Chain(cs), w, 512 * (k - 1), 512 * k) == p
    {
      var l := LookedUp(Chain(cs), 512 * (k - 1), 512 * k);
      assert 512 * (k - 1) / 512 == k - 1 && 512 * k / 512 == k;
      hide Slide, Offset, Split;
      if q' == q {
        assert l == [];
      } else {
        var p := Slide(w, Offset(fat.ty, cs[q]) / 512);
        assert l == [cs[q]] && l[1..] == [] && WindowAfter(fat.ty, p, []) == p;
      }
    }

    lemma WalkStep(cs: seq<nat>, q: nat)
      requires Layout() && IsWalk(cs) && q < |cs|
      ensures 2 <= cs[q] < clusters && (cs[q] < 0x0FF8 || sectorsPerCluster == 1)
      ensures if q + 1 < |cs| then Next(cs[q]) == cs[q + 1] < 0x0FF8 else Next(cs[q]) >= 0x0FF8
    {
      assert WalkAt(cs, q);
      if q + 1 < |cs| { assert WalkAt(cs, q + 1); }
    }

    lemma EntryReachable(c: nat)
      requires Layout()
      ensures c < clusters ==> c < 0x1000_0000 && fat.reservedSectors + Offset(fat.ty, c) / 512 + 5 <= |fat.disk|
      ensures InTable(fat.ty, fat.Fat(), c) ==> Next(c) == Read(fat.ty, fat.Fat(), c)
    {
      if c < clusters { OffsetOrder(fat.ty, c, clusters - 1); }
    }

    /** What the next sector of a file is, within the cluster and behind it. */
    lemma FileStep(src: Source, cluster: nat, sector: nat, w: nat, k: nat)
      requires SourceOk(src) && !src.Root? && 1 <= k <= SectorCount(src)
      requires IsSector(src, cluster, sector, k - 1) && Passes(src, w, 512 * (k - 1), 512 * k)
      ensures sector + 1 < sectorsPerCluster ==>
        && (cluster >= 0x0FF8 <==> k == SectorCount(src))
        && (k < SectorCount(src) ==> IsSector(src, cluster, sector + 1, k))
        && After(src, w, 512 * (k - 1), 512 * k) == w
      ensures sector + 1 >= sectorsPerCluster ==>
        && cluster < clusters && (Next(cluster) >= 0x0FF8 <==> k == SectorCount(src))
        && (var p := Slide(w, Offset(fat.ty, cluster) / 512);
            !Split(fat.ty, p, cluster) && After(src, w, 512 * (k - 1), 512 * k) == p)
        && (k < SectorCount(src) ==> IsSector(src, Next(cluster), 0, k))
    {
      hide *;
      if src.Chain? {
        ChainSource(src);
        ChainPlace(src.clusters, cluster, sector, k);
        ChainLookup(src.clusters, cluster, sector, w, k);
      } else {
        HeadStep(src, cluster, sector, w, k);
      }
    }

    lemma ChainSource(src: Source)
      requires src.Chain?
      ensures src == Chain(src.clusters)
    {
    }

    lemma HeadStep(src: Source, cluster: nat, sector: nat, w: nat, k: nat)
      requires SourceOk(src) && src.Head? && 1 <= k <= SectorCount(src) && IsSector(src, cluster, sector, k - 1)
      ensures 0x0FF8 <= cluster && sector + 1 < sectorsPerCluster && k == SectorCount(src)
      ensures After(src, w, 512 * (k - 1), 512 * k) == w
    {
      hide Layout, Slide, Offset;
    }

    /** The part of FAT_Read behind a used-up buffer; true at the end of the chain. */
    method NextSector(fd: FileData, ghost src: Source, ghost k: nat) returns (end: bool)
      requires Valid() && SourceOk(src) && (fd.handle == -1 <==> src.Root?)
      requires fd.buffer.Length == 512 && fd.buffer != fat.cache
      requires 1 <= k <= SectorCount(src) && CursorAt(fd, src, k - 1)
      requires Passes(src, fat.position, 512 * (k - 1), 512 * k)
      requires src.Root? ==> k < SectorCount(src)
      modifies fd`currentCluster, fd`currentSectorInCluster, fd`size, fd.buffer, fat`position, fat.cache
      ensures Valid() && (end <==> k == SectorCount(src))
      ensures !end ==> CursorAt(fd, src, k) && Buffered(fd, src, k) && fd.size == old(fd.size)
      ensures end ==> fd.size == fd.position
      ensures fat.position == After(src, old(fat.position), 512 * (k - 1), 512 * k)
    {
      SectorReadable(src, k);
      hide ClusterToLba, FirstSector;
      if fd.handle == -1 {
        fd.currentCluster := fd.currentCluster + 1;
        var ok := ReadSector(fd.currentCluster, fd.buffer);
        return false;
      }
      FileStep(src, fd.currentCluster, fd.currentSectorInCluster, fat.position, k);
      EntryReachable(fd.currentCluster);
      hide SourceOk, Layout, IsWalk, Next, Slide, Split, Offset, Read, InTable, IsSector, LbaAt, Sectors, Passes, After;
      hide Window.Fat, Window.Valid;
      fd.currentSectorInCluster := fd.currentSectorInCluster + 1;
      if fd.currentSectorInCluster >= sectorsPerCluster {
        fd.currentSectorInCluster := 0;
        fd.currentCluster := fat.NextCluster(fd.currentCluster);
      }
      if fd.currentCluster >= 0x0FF8 {
        fd.size := fd.position;
        return true;
      }
      SectorAddress(src, fd.currentCluster, fd.currentSectorInCluster, k);
      var ok := ReadSector(ClusterToLba(fd.currentCluster) + fd.currentSectorInCluster, fd.buffer);
      return false;
    }

    lemma SectorReadable(src: Source, k: nat)
      requires SourceOk(src)
      ensures Sectors(fat.disk) && (k < SectorCount(src) ==> LbaAt(src, k) < |fat.disk|)
    {
      if k < SectorCount(src) { SectorOnDisk(src, k); }
    }

    lemma SectorAddress(src: Source, cluster: nat, sector: nat, k: nat)
      requires SourceOk(src) && !src.Root? && IsSector(src, cluster, sector, k)
      ensures LbaAt(src, k) == ClusterToLba(cluster) + sector
    {
      if src.Chain? { assert WalkAt(src.clusters, k / sectorsPerCluster); }
      ClusterPlace(cluster);
      hide ClusterToLba, FirstSector, Next;
    }

    // ---- FAT_Read ---------------------------------------------------------------------------------------

    /** The bytes asked for do not go past the size, unless a directory has none. */
    ghost predicate InSize(fd: FileData, byteCount: nat)
      reads fd
    {
      fd.position + byteCount <= fd.size || (fd.isDirectory && fd.size == 0)
    }

    /** The buffered sector holds the next bytes of the content. */
    lemma TakeBytes(fd: FileData, src: Source, take: nat)
      requires FileOk(fd, src) && fd.position < 512 * SectorCount(src) && fd.position % 512 + take <= 512
      ensures fd.position + take <= 512 * SectorCount(src) && fd.position / 512 < SectorCount(src)
      ensures fd.buffer[fd.position % 512..fd.position % 512 + take] == Content(src)[fd.position..fd.position + take]
    {
      var p, k, off := fd.position, fd.position / 512, fd.position % 512;
      SectorOnDisk(src, k);
      hide SourceOk, LbaAt, CursorAt;
      var b, c := fd.buffer[off..off + take], Content(src)[p..p + take];
      forall j | 0 <= j < take ensures b[j] == c[j] {
        assert (p + j) / 512 == k && (p + j) % 512 == off + j;
        assert c[j] == ByteAt(src, p + j);
      }
    }

    /** One round of FAT_Read's loop: the rest of the buffer, or as much of it as is asked for. */
    method Chunk(fd: FileData, byteCount: Word, ghost src: Source, ghost goal: nat)
      returns (taken: seq<Byte>, end: bool)
      requires Valid() && FileOk(fd, src) && fd.buffer != fat.cache
      requires 0 < byteCount && fd.position < 512 * SectorCount(src) && InSize(fd, byteCount)
      requires goal == Min(fd.position + byteCount, 512 * SectorCount(src))
      requires Passes(src, fat.position, fd.position, goal)
      requires src.Root? ==> fd.position + byteCount < 512 * SectorCount(src)
      modifies fd`position, fd`size, fd`currentCluster, fd`currentSectorInCluster, fd.buffer, fat`position, fat.cache
      ensures Valid() && FileOk(fd, src)
      ensures 0 < |taken| <= byteCount && fd.position == old(fd.position) + |taken| <= 512 * SectorCount(src)
      ensures taken == Content(src)[old(fd.position)..fd.position]
      ensures end <==> fd.position == 512 * SectorCount(src)
      ensures if end then fd.size == fd.position else fd.size == old(fd.size)
      ensures !end ==> InSize(fd, byteCount - |taken|)
      ensures fat.position == After(src, old(fat.position), old(fd.position), fd.position)
      ensures fd.position <= goal
    {
      hide *;
      ghost var p, k, s, w := fd.position, fd.position / 512, fd.size, fat.position;
      FileParts(fd, src, byteCount);
      var offset := fd.position % 512;
      var leftInBuffer := 512 - offset;
      var take := Min(byteCount, leftInBuffer);
      MinParts(byteCount, leftInBuffer);
      TakeBytes(fd, src, take);
      FilePosition(fd, src, take);
      GoalAhead(p, byteCount, take, goal, 512 * SectorCount(src));
      PassesInTurn(src, w, p, p + take, goal);
      SameSector(src, w, p, p + take);
      WholeSector(src, w, p, k);
      taken := fd.buffer[offset..offset + take];
      fd.position := Wrap(fd.position as int + take);
      end := false;
      if leftInBuffer == take {
        end := NextSector(fd, src, k + 1);
        NextBoundary(k, fd.position);
      }
      FileOkNow(fd, src, byteCount - take, s);
    }

    lemma MinParts(a: nat, b: nat)
      ensures Min(a, b) <= a && Min(a, b) <= b && (Min(a, b) == a || Min(a, b) == b)
    {
    }

    lemma NextBoundary(k: nat, position: nat)
      ensures position == 512 * (k + 1) ==> position / 512 == k + 1
    {
    }

    lemma FileParts(fd: FileData, src: Source, byteCount: nat)
      requires FileOk(fd, src) && fd.position < 512 * SectorCount(src) && InSize(fd, byteCount)
      ensures SourceOk(src) && (fd.handle == -1 <==> src.Root?) && fd.buffer.Length == 512
      ensures fd.position + byteCount <= fd.size || (fd.isDirectory && fd.size == 0)
      ensures CursorAt(fd, src, fd.position / 512) && Buffered(fd, src, fd.position / 512)
      ensures 0 <= fd.position % 512 < 512 && fd.position / 512 < SectorCount(src)
    {
      hide SourceOk, CursorAt, Buffered;
    }

    /** The state behind a round, put together again. */
    lemma FileOkNow(fd: FileData, src: Source, left: nat, before: Word)
      requires SourceOk(src) && (fd.handle == -1 <==> src.Root?) && fd.buffer.Length == 512 && 0 < fd.position
      requires fd.position + left <= before || (fd.isDirectory && before == 0)
      requires fd.position < 512 * SectorCount(src) ==>
        && fd.size == before
        && CursorAt(fd, src, fd.position / 512) && Buffered(fd, src, fd.position / 512)
      requires fd.position >= 512 * SectorCount(src) ==> fd.position == 512 * SectorCount(src) == fd.size
      ensures FileOk(fd, src) && (fd.position < 512 * SectorCount(src) ==> InSize(fd, left))
    {
      hide SourceOk, CursorAt, Buffered;
    }

    lemma FilePosition(fd: FileData, src: Source, take: nat)
      requires FileOk(fd, src) && fd.position < 512 * SectorCount(src) && take <= 512 - fd.position % 512
      requires fd.position + take <= 512 * SectorCount(src)
      ensures Wrap(fd.position as int + take) == fd.position + take
      ensures fd.position % 512 + take <= 512
      ensures take == 512 - fd.position % 512 ==> fd.position + take == 512 * (fd.position / 512 + 1)
      ensures take < 512 - fd.position % 512 ==>
        (fd.position + take) / 512 == fd.position / 512 && fd.position + take < 512 * SectorCount(src)
    {
      hide CursorAt, Buffered, SourceOk;
      SourceSmall(src);
    }

    lemma GoalAhead(p: nat, byteCount: nat, take: nat, goal: nat, end: nat)
      requires take <= byteCount && p + take <= end && goal == Min(p + byteCount, end)
      ensures p + take <= goal <= end
    {
    }

    /** What is looked up behind sector k, from any position in it. */
    lemma WholeSector(src: Source, window: nat, p: nat, k: nat)
      requires k == p / 512
      ensures Passes(src, window, p, 512 * (k + 1)) <==> Passes(src, window, 512 * k, 512 * (k + 1))
      ensures After(src, window, p, 512 * (k + 1)) == After(src, window, 512 * k, 512 * (k + 1))
    {
      SameSector(src, window, p, 512 * (k + 1));
    }

    lemma SourceSmall(src: Source)
      requires SourceOk(src)
      ensures 512 * SectorCount(src) < 0x1_0000_0000
    {
      hide Layout, IsWalk;
    }

    /**
     * FAT_Read: the next bytes of the content, as far as the request, the size and the chain
     * reach; a chain that ends first cuts the size down to what there is.
     */
    method ReadFile(fd: FileData, n: Word, ghost src: Source) returns (out: seq<Byte>)
      requires Valid() && FileOk(fd, src) && fd.buffer != fat.cache
      requires src.Root? ==> Min(fd.position + n, ReadEnd(fd.size, fd.isDirectory, src)) < 512 * SectorCount(src)
      requires Passes(src, fat.position, fd.position, Min(fd.position + n, ReadEnd(fd.size, fd.isDirectory, src)))
      modifies fd`position, fd`size, fd`currentCluster, fd`currentSectorInCluster, fd.buffer, fat`position, fat.cache
      ensures Valid() && FileOk(fd, src)
      ensures FileRead(Content(src), old(fd.position), n, old(fd.size), fd.isDirectory, fd.position, fd.size, out)
      ensures fat.position == After(src, old(fat.position), old(fd.position), fd.position)
    {
      ghost var p0, size0, content, want := fd.position, fd.size, Content(src), Wanted(fd, n);
      ghost var goal, w0 := Min(fd.position + n, ReadEnd(fd.size, fd.isDirectory, src)), fat.position;
      ReadStart(fd, src, n, want, goal);
      hide *;
      Setting(src, w0, p0, goal);
      out := ReadBytes(fd, Wanted(fd, n), src, goal);
      ReadWhole(content, p0, n, want, size0, fd.isDirectory, fd.position, fd.size, out);
    }

    /** The loop of FAT_Read, for a count that the size allows. */
    method ReadBytes(fd: FileData, want: Word, ghost src: Source, ghost goal: nat) returns (out: seq<Byte>)
      requires Valid() && FileOk(fd, src) && fd.buffer != fat.cache && InSize(fd, want)
      requires fd.position == |Content(src)| ==> want == 0 && fd.size == fd.position
      requires goal == Min(fd.position + want, |Content(src)|)
      requires OnTheWay(src, fat.position, fd.position, fat.position, fd.position, goal)
      requires src.Root? ==> fd.position + want < |Content(src)|
      modifies fd`position, fd`size, fd`currentCluster, fd`currentSectorInCluster, fd.buffer, fat`position, fat.cache
      ensures Valid() && FileOk(fd, src) && fat.position == After(src, old(fat.position), old(fd.position), fd.position)
      ensures Reply(Content(src), old(fd.position), want, old(fd.size), fd.position, fd.size, out)
    {
      hide *;
      ghost var p0, size0, content, w0 := fd.position, fd.size, Content(src), fat.position;
      OnTheWayParts(src, w0, p0, w0, p0, goal);
      MinParts(p0 as int + want, |content|);
      var byteCount: Word := want;
      out := [];
      GotNone(content, p0, want);
      UnderWayNow(fd, src, w0, w0, p0, goal, content, size0, want, [], byteCount);
      while byteCount > 0
        invariant Valid() && UnderWay(fd, src, w0, fat.position, p0, goal, content, size0, want, out, byteCount)
        decreases byteCount
      {
        ghost var before := out;
        var taken, end := NextBytes(fd, byteCount, src, w0, p0, goal, content, size0, want, before);
        out := out + taken;
        byteCount := byteCount - |taken|;
        if end {
          return;
        }
      }
      ReadDone(fd, src, w0, fat.position, p0, goal, content, size0, want, out);
    }

    /** How far a read can go: to the size or the last sector, in a directory of size 0 to the latter. */
    ghost function ReadEnd(size: Word, isDirectory: bool, src: Source): nat {
      if isDirectory && size == 0 then 512 * SectorCount(src) else Min(size, 512 * SectorCount(src))
    }

    /** A read under way: the file as it stands, the bytes got, and the lookups so far and ahead. */
    ghost predicate UnderWay(fd: FileData, src: Source, w0: nat, w: nat, p0: nat, goal: nat, content: seq<Byte>,
                             size0: Word, want: nat, out: seq<Byte>, byteCount: nat)
      reads fd, fd.buffer
    {
      && FileOk(fd, src) && fd.size == size0 && InSize(fd, byteCount)
      && content == Content(src) && goal == Min(p0 + want, |content|) && OnTheWay(src, w0, p0, w, fd.position, goal)
      && Got(content, p0, fd.position, out, byteCount, want)
      && (fd.position == |content| ==> byteCount == 0 && fd.size == fd.position)
      && (src.Root? ==> fd.position + byteCount < |content|)
    }

    lemma UnderWayNow(fd: FileData, src: Source, w0: nat, w: nat, p0: nat, goal: nat, content: seq<Byte>,
                      size0: Word, want: nat, out: seq<Byte>, byteCount: nat)
      requires FileOk(fd, src) && fd.size == size0 && (fd.position < |content| ==> InSize(fd, byteCount))
      requires content == Content(src) && goal == Min(p0 + want, |content|)
      requires OnTheWay(src, w0, p0, w, fd.position, goal)
      requires Got(content, p0, fd.position, out, byteCount, want)
      requires fd.position == |content| ==> byteCount == 0 && fd.size == fd.position
      requires src.Root? ==> fd.position + byteCount < |content|
      ensures UnderWay(fd, src, w0, w, p0, goal, content, size0, want, out, byteCount)
    {
      GotFacts(content, p0, fd.position, out, byteCount, want);
      hide FileOk, Got, OnTheWay, Content;
    }

    lemma UnderWayParts(fd: FileData, src: Source, w0: nat, w: nat, p0: nat, goal: nat, content: seq<Byte>,
                        size0: Word, want: nat, out: seq<Byte>, byteCount: nat)
      requires UnderWay(fd, src, w0, w, p0, goal, content, size0, want, out, byteCount)
      ensures FileOk(fd, src) && fd.size == size0 && InSize(fd, byteCount) && content == Content(src)
      ensures OnTheWay(src, w0, p0, w, fd.position, goal) && Got(content, p0, fd.position, out, byteCount, want)
      ensures goal == Min(fd.position + byteCount, 512 * SectorCount(src)) && |content| == 512 * SectorCount(src)
      ensures byteCount > 0 ==> fd.position < |content|
      ensures p0 <= fd.position <= |content| && fd.position == p0 + |out| && goal == Min(p0 + want, |content|)
      ensures src.Root? ==> fd.position + byteCount < 512 * SectorCount(src)
    {
      GotFacts(content, p0, fd.position, out, byteCount, want);
      hide FileOk, OnTheWay, Got;
    }

    /** A read that has got all it asked for. */
    lemma ReadDone(fd: FileData, src: Source, w0: nat, w: nat, p0: nat, goal: nat, content: seq<Byte>,
                   size0: Word, want: nat, out: seq<Byte>)
      requires UnderWay(fd, src, w0, w, p0, goal, content, size0, want, out, 0)
      ensures FileOk(fd, src) && w == After(src, w0, p0, fd.position)
      ensures Reply(content, p0, want, size0, fd.position, fd.size, out)
    {
      OnTheWayParts(src, w0, p0, w, fd.position, goal);
      hide FileOk, OnTheWay, After, Content;
      GotAll(content, p0, fd.position, out, 0, want, size0, fd.size);
    }

    /** One round, with what it does to a read under way; at the end of the chain the read is over. */
    method NextBytes(fd: FileData, byteCount: Word, ghost src: Source, ghost w0: nat, ghost p0: nat, ghost goal: nat,
                     ghost content: seq<Byte>, ghost size0: Word, ghost want: nat, ghost before: seq<Byte>)
      returns (taken: seq<Byte>, end: bool)
      requires Valid() && fd.buffer != fat.cache && 0 < byteCount
      requires UnderWay(fd, src, w0, fat.position, p0, goal, content, size0, want, before, byteCount)
      modifies fd`position, fd`size, fd`currentCluster, fd`currentSectorInCluster, fd.buffer, fat`position, fat.cache
      ensures Valid() && 0 < |taken| <= byteCount
      ensures !end ==>
        UnderWay(fd, src, w0, fat.position, p0, goal, content, size0, want, before + taken, byteCount - |taken|)
      ensures end ==>
        && FileOk(fd, src) && fat.position == After(src, w0, p0, fd.position)
        && Reply(content, p0, want, size0, fd.position, fd.size, before + taken)
    {
      hide *;
      UnderWayParts(fd, src, w0, fat.position, p0, goal, content, size0, want, before, byteCount);
      ghost var p, w := fd.position, fat.position;
      OnTheWayParts(src, w0, p0, w, p, goal);
      taken, end := Chunk(fd, byteCount, src, goal);
      StillOnTheWay(src, w0, p0, w, p, fat.position, fd.position, goal);
      OnTheWayParts(src, w0, p0, fat.position, fd.position, goal);
      GotMore(content, p0, p, before, byteCount, want, taken);
      if end {
        GotAll(content, p0, fd.position, before + taken, byteCount - |taken|, want, size0, fd.size);
      } else {
        UnderWayNow(fd, src, w0, fat.position, p0, goal, content, size0, want, before + taken, byteCount - |taken|);
      }
    }

    /** The window is where the lookups so far leave it, and those left meet no split entry. */
    ghost predicate OnTheWay(src: Source, w0: nat, p0: nat, w: nat, p: nat, goal: nat) {
      && SourceOk(src) && p0 <= p <= goal <= 512 * SectorCount(src)
      && w == After(src, w0, p0, p) && Passes(src, w, p, goal)
    }

    lemma Setting(src: Source, w0: nat, p0: nat, goal: nat)
      requires SourceOk(src) && p0 <= goal <= 512 * SectorCount(src) && Passes(src, w0, p0, goal)
      ensures OnTheWay(src, w0, p0, w0, p0, goal)
    {
      SameSector(src, w0, p0, p0);
      hide SourceOk, Passes, After;
    }

    lemma OnTheWayParts(src: Source, w0: nat, p0: nat, w: nat, p: nat, goal: nat)
      requires OnTheWay(src, w0, p0, w, p, goal)
      ensures SourceOk(src) && p0 <= p <= goal <= 512 * SectorCount(src)
      ensures w == After(src, w0, p0, p) && Passes(src, w, p, goal)
    {
    }

    lemma StillOnTheWay(src: Source, w0: nat, p0: nat, w: nat, p: nat, w': nat, p': nat, goal: nat)
      requires OnTheWay(src, w0, p0, w, p, goal) && p <= p' <= goal && w' == After(src, w, p, p')
      ensures OnTheWay(src, w0, p0, w', p', goal)
    {
      PassesInTurn(src, w0, p0, p, p');
      PassesInTurn(src, w, p, p', goal);
      hide SourceOk, Passes, After;
    }

    lemma ReadStart(fd: FileData, src: Source, n: Word, want: nat, goal: nat)
      requires FileOk(fd, src) && want == Wanted(fd, n)
      requires goal == Min(fd.position + n, ReadEnd(fd.size, fd.isDirectory, src))
      ensures InSize(fd, want) && fd.position <= goal <= 512 * SectorCount(src) == |Content(src)|
      ensures fd.position == 512 * SectorCount(src) ==> want == 0 && fd.size == fd.position
      ensures SourceOk(src) && goal == Min(fd.position + want, |Content(src)|)
      ensures goal < 512 * SectorCount(src) ==> fd.position + want < |Content(src)|
      ensures WantedOf(fd.position, n, fd.size, fd.isDirectory, want)
    {
      hide CursorAt, Buffered, SourceOk;
    }

    // ---- opening files ------------------------------------------------------------------------------------

    /** The ten file slots are separate objects with separate sector buffers. */
    ghost predicate Slots(files: seq<FileData>) {
      && (forall i | 0 <= i < |files| :: files[i].buffer.Length == 512 && files[i].buffer != fat.cache)
      && (forall i, j | 0 <= i < j < |files| :: files[i] != files[j] && files[i].buffer != files[j].buffer)
    }

    /** The first slot not in use, or -1. */
    method FreeHandle(files: seq<FileData>) returns (handle: int)
      ensures handle == -1 ==> forall i | 0 <= i < |files| :: files[i].isOpen
      ensures handle != -1 ==>
        0 <= handle < |files| && !files[handle].isOpen && forall i | 0 <= i < handle :: files[i].isOpen
    {
      handle := -1;
      var i := 0;
      while i < |files| && handle < 0
        invariant 0 <= i <= |files|
        invariant handle == -1 ==> forall j | 0 <= j < i :: files[j].isOpen
        invariant handle != -1 ==>
          0 <= handle < |files| && !files[handle].isOpen && forall j | 0 <= j < handle :: files[j].isOpen
      {
        if !files[i].isOpen {
          handle := i;
        }
        i := i + 1;
      }
    }

    /** What a directory entry says of a file read from this source. */
    ghost predicate Describes(src: Source, first: nat, size: Word, isDirectory: bool) {
      && SourceOk(src)
      && match src
         case Root(_, _) => false
         case Chain(cs) => if cs == [] then size == 0 && !isDirectory else cs[0] == first
         case Head(c) => c == first
    }

    /**
     * FAT_OpenEntry: the first free slot holds the file at position 0 with its first sector
     * buffered; without a free slot, or when the first sector cannot be read, nothing is opened.
     */
    method OpenEntry(files: seq<FileData>, first: nat, size: Word, isDirectory: bool, ghost src: Source)
      returns (handle: int)
      requires Valid() && Slots(files) && Describes(src, first, size, isDirectory)
      modifies set f | f in files
      modifies set f | f in files :: f.buffer
      ensures Valid()
      ensures handle == -1 <==>
        || (forall i | 0 <= i < |files| :: old(files[i].isOpen))
        || FirstLba(first) >= |fat.disk|
      ensures handle == -1 ==> forall i | 0 <= i < |files| :: files[i].isOpen == old(files[i].isOpen)
      ensures handle != -1 ==>
        && 0 <= handle < |files| && !old(files[handle].isOpen) && files[handle].isOpen
        && FileOk(files[handle], src) && files[handle].position == 0 && files[handle].size == size
        && files[handle].isDirectory == isDirectory && files[handle].handle == handle
        && files[handle].firstCluster == first && HoldsFirst(files[handle], first)
      ensures forall i | 0 <= i < |files| && i != handle && old(files[i].isOpen) ::
        unchanged(files[i]) && unchanged(files[i].buffer)
    {
      FirstIs(first);
      hide ClusterToLba, FirstLba;
      handle := FreeHandle(files);
      if handle < 0 {
        return;
      }
      var ok := StartFile(files[handle], handle, first, size, isDirectory, src);
      if !ok {
        return -1;
      }
      files[handle].isOpen := true;
    }

    method StartFile(fd: FileData, handle: nat, first: nat, size: Word, isDirectory: bool, ghost src: Source)
      returns (ok: bool)
      requires Valid() && Describes(src, first, size, isDirectory) && fd.buffer.Length == 512 && fd.buffer != fat.cache
      modifies fd`handle, fd`isDirectory, fd`position, fd`size, fd`firstCluster, fd`currentCluster,
        fd`currentSectorInCluster, fd.buffer
      ensures Valid() && (ok <==> ClusterToLba(first) < |fat.disk|)
      ensures ok ==> FileOk(fd, src) && fd.position == 0 && fd.size == size && fd.isDirectory == isDirectory
      ensures ok ==> fd.handle == handle && fd.firstCluster == first && fd.buffer[..] == fat.disk[ClusterToLba(first)]
    {
      fd.handle, fd.isDirectory := handle, isDirectory;
      fd.position, fd.size := 0, size;
      fd.firstCluster, fd.currentCluster, fd.currentSectorInCluster := first, first, 0;
      ok := ReadSector(ClusterToLba(fd.currentCluster), fd.buffer);
      if ok { Started(fd, src, first); }
    }

    /** Where the first sector of a file is looked for, whatever its first cluster. */
    ghost function FirstLba(first: nat): nat {
      ((first - 2) * sectorsPerCluster + dataSectionLba) % 0x1_0000_0000
    }

    ghost predicate HoldsFirst(fd: FileData, first: nat)
      reads fd.buffer
    {
      FirstLba(first) < |fat.disk| && fd.buffer[..] == fat.disk[FirstLba(first)]
    }

    lemma FirstIs(first: nat)
      ensures ClusterToLba(first) == FirstLba(first)
    {
      LbaModulo(first, sectorsPerCluster, dataSectionLba);
    }

    lemma FirstPlace(first: nat)
      requires Layout() && 2 <= first < clusters
      ensures FirstLba(first) == dataSectionLba + (first - 2) * sectorsPerCluster < |fat.disk|
    {
      FirstIs(first);
      ClusterPlace(first);
      hide FirstLba, ClusterToLba;
    }

    lemma Started(fd: FileData, src: Source, first: nat)
      requires Describes(src, first, fd.size, fd.isDirectory) && fd.buffer.Length == 512 && fd.handle != -1
      requires fd.position == 0 && fd.currentCluster == first && fd.currentSectorInCluster == 0
      requires ClusterToLba(first) < |fat.disk| && fd.buffer[..] == fat.disk[ClusterToLba(first)]
      ensures FileOk(fd, src)
    {
      DivUnique(0, 0, 0, sectorsPerCluster);
      if src.Chain? { InsideChain(0, |src.clusters|, sectorsPerCluster); }
      if SectorCount(src) > 0 { SectorAddress(src, first, 0, 0); }
      hide ClusterToLba, FirstSector, LbaAt, IsWalk;
    }

    /** The root directory as FAT_Initialize opens it: sectors in a row, size from the entry count. */
    method OpenRoot(fd: FileData, rootLba: nat, dirEntryCount: nat, ghost count: nat) returns (ok: bool)
      requires Valid() && fd.buffer.Length == 512 && fd.buffer != fat.cache && dirEntryCount < 0x1_0000
      requires 0 < count && rootLba + count <= |fat.disk| && 512 * count < 0x1_0000_0000
      modifies fd, fd.buffer
      ensures Valid() && ok && fd.isOpen
      ensures 32 * dirEntryCount <= 512 * count ==> FileOk(fd, Root(rootLba, count))
      ensures fd.position == 0 && fd.size == 32 * dirEntryCount && fd.isDirectory
    {
      fd.handle, fd.isDirectory, fd.isOpen := -1, true, true;
      fd.position, fd.size := 0, 32 * dirEntryCount;
      fd.firstCluster, fd.currentCluster, fd.currentSectorInCluster := rootLba, rootLba, 0;
      ok := ReadSector(rootLba, fd.buffer);
    }

    // ---- any series of reads ---------------------------------------------------------------------------

    /** Where reading a file ends: at its size, or where its source does. */
    ghost function Limit(size: Word, src: Source): nat {
      Min(size, 512 * SectorCount(src))
    }

    /** The size is as it was, or has been cut down to the end of the source. */
    ghost predicate SizeKnown(fd: FileData, size: Word, src: Source)
      reads fd`position, fd`size
    {
      fd.size == size || (fd.position == fd.size == 512 * SectorCount(src) <= size)
    }

    /**
     * Whatever the sizes asked for, successive reads of a file yield its next bytes, each as many
     * as are asked for and left up to the size or the end of the source.
     */
    method ReadSeries(fd: FileData, counts: seq<Word>, ghost src: Source) returns (outs: seq<seq<Byte>>)
      requires Valid() && FileOk(fd, src) && fd.buffer != fat.cache && !src.Root? && !fd.isDirectory
      requires Passes(src, fat.position, fd.position, Min(fd.position + Sum(counts), Limit(fd.size, src)))
      modifies fd`position, fd`size, fd`currentCluster, fd`currentSectorInCluster, fd.buffer, fat`position, fat.cache
      ensures Valid() && FileOk(fd, src) && SizeKnown(fd, old(fd.size), src)
      ensures SeriesGot(Content(src), old(fd.position), Limit(old(fd.size), src), fd.position, outs, counts)
    {
      ghost var p0, size0, w0 := fd.position, fd.size, fat.position;
      outs := [];
      SeriesStart(fd, src, counts, w0);
      hide *;
      for i := 0 to |counts|
        invariant Valid() && InSeries(fd, src, w0, fat.position, p0, size0, counts, i, outs)
      {
        var out := NextSlice(fd, counts, i, src, w0, p0, size0, outs);
        outs := outs + [out];
      }
      SeriesDone(fd, src, w0, fat.position, p0, size0, counts, outs);
    }

    /** The first i reads of a series done: the file, the replies, and the lookups so far and ahead. */
    ghost predicate InSeries(fd: FileData, src: Source, w0: nat, w: nat, p0: nat, size0: Word, counts: seq<Word>,
                             i: nat, outs: seq<seq<Byte>>)
      requires i <= |counts|
      reads fd, fd.buffer
    {
      && FileOk(fd, src) && SizeKnown(fd, size0, src) && !fd.isDirectory && !src.Root?
      && SeriesGot(Content(src), p0, Limit(size0, src), fd.position, outs, counts[..i])
      && OnTheWay(src, w0, p0, w, fd.position, Min(p0 + Sum(counts), Limit(size0, src)))
    }

    lemma SeriesStart(fd: FileData, src: Source, counts: seq<Word>, w: nat)
      requires FileOk(fd, src) && !fd.isDirectory && !src.Root?
      requires Passes(src, w, fd.position, Min(fd.position + Sum(counts), Limit(fd.size, src)))
      ensures InSeries(fd, src, w, w, fd.position, fd.size, counts, 0, [])
    {
      var goal := Min(fd.position + Sum(counts), Limit(fd.size, src));
      FilePlace(fd, src);
      hide FileOk, SourceOk, Passes, OnTheWay;
      Setting(src, w, fd.position, goal);
    }

    lemma FilePlace(fd: FileData, src: Source)
      requires FileOk(fd, src) && !fd.isDirectory
      ensures SourceOk(src) && fd.position <= Limit(fd.size, src) <= 512 * SectorCount(src) == |Content(src)|
    {
      hide CursorAt, Buffered, SourceOk;
    }

    lemma SeriesDone(fd: FileData, src: Source, w0: nat, w: nat, p0: nat, size0: Word, counts: seq<Word>,
                     outs: seq<seq<Byte>>)
      requires InSeries(fd, src, w0, w, p0, size0, counts, |counts|, outs)
      ensures FileOk(fd, src) && SizeKnown(fd, size0, src)
      ensures SeriesGot(Content(src), p0, Limit(size0, src), fd.position, outs, counts)
    {
      WholeSeries(counts);
      hide FileOk, SizeKnown, SeriesGot, OnTheWay, Content, Limit;
    }

    /** One read of a series. */
    method NextSlice(fd: FileData, counts: seq<Word>, i: nat, ghost src: Source, ghost w0: nat, ghost p0: nat,
                     ghost size0: Word, ghost outs: seq<seq<Byte>>)
      returns (out: seq<Byte>)
      requires Valid() && fd.buffer != fat.cache && i < |counts|
      requires InSeries(fd, src, w0, fat.position, p0, size0, counts, i, outs)
      modifies fd`position, fd`size, fd`currentCluster, fd`currentSectorInCluster, fd.buffer, fat`position, fat.cache
      ensures Valid() && InSeries(fd, src, w0, fat.position, p0, size0, counts, i + 1, outs + [out])
    {
      hide *;
      ghost var p, w := fd.position, fat.position;
      InSeriesParts(fd, src, w0, w, p0, size0, counts, i, outs);
      out := ReadSlice(fd, counts[i], src, size0);
      InSeriesNext(fd, src, w0, w, p0, size0, counts, i, outs, p, fat.position, out);
    }

    lemma InSeriesParts(fd: FileData, src: Source, w0: nat, w: nat, p0: nat, size0: Word, counts: seq<Word>,
                        i: nat, outs: seq<seq<Byte>>)
      requires i < |counts| && InSeries(fd, src, w0, w, p0, size0, counts, i, outs)
      ensures FileOk(fd, src) && SizeKnown(fd, size0, src) && !fd.isDirectory && !src.Root?
      ensures Passes(src, w, fd.position, Min(fd.position + counts[i], Limit(size0, src)))
      ensures SeriesGot(Content(src), p0, Limit(size0, src), fd.position, outs, counts[..i])
      ensures OnTheWay(src, w0, p0, w, fd.position, Min(p0 + Sum(counts), Limit(size0, src)))
    {
      hide FileOk, SizeKnown, SeriesGot, OnTheWay, Passes, Content, Limit, Min, Sum;
      SliceAhead(src, w0, w, Content(src), p0, Limit(size0, src), fd.position, outs, counts, i,
                 Min(p0 + Sum(counts), Limit(size0, src)));
    }

    lemma InSeriesNext(fd: FileData, src: Source, w0: nat, w: nat, p0: nat, size0: Word, counts: seq<Word>,
                       i: nat, outs: seq<seq<Byte>>, p: nat, w': nat, out: seq<Byte>)
      requires FileOk(fd, src) && SizeKnown(fd, size0, src) && !fd.isDirectory && !src.Root? && i < |counts|
      requires SeriesGot(Content(src), p0, Limit(size0, src), p, outs, counts[..i])
      requires OnTheWay(src, w0, p0, w, p, Min(p0 + Sum(counts), Limit(size0, src)))
      requires p <= Limit(size0, src) <= |Content(src)| && |out| == Min(counts[i], Limit(size0, src) - p)
      requires fd.position == p + |out| && out == Content(src)[p..fd.position]
      requires w' == After(src, w, p, fd.position)
      ensures InSeries(fd, src, w0, w', p0, size0, counts, i + 1, outs + [out])
    {
      hide FileOk, SizeKnown, SeriesGot, OnTheWay, After, Content, Limit, Min, Sum;
      var limit, goal := Limit(size0, src), Min(p0 + Sum(counts), Limit(size0, src));
      SliceAhead(src, w0, w, Content(src), p0, limit, p, outs, counts, i, goal);
      SeriesMore(Content(src), p0, limit, p, outs, counts[..i], counts[i], out);
      StillOnTheWay(src, w0, p0, w, p, w', fd.position, goal);
      SeriesStep(counts, i);
    }

    /** One read: the next bytes up to the limit, which does not move. */
    method ReadSlice(fd: FileData, n: Word, ghost src: Source, ghost size: Word) returns (out: seq<Byte>)
      requires Valid() && FileOk(fd, src) && fd.buffer != fat.cache && !src.Root? && !fd.isDirectory
      requires SizeKnown(fd, size, src)
      requires Passes(src, fat.position, fd.position, Min(fd.position + n, Limit(size, src)))
      modifies fd`position, fd`size, fd`currentCluster, fd`currentSectorInCluster, fd.buffer, fat`position, fat.cache
      ensures Valid() && FileOk(fd, src) && SizeKnown(fd, size, src)
      ensures old(fd.position) <= Limit(size, src) <= |Content(src)|
      ensures |out| == Min(n, Limit(size, src) - old(fd.position)) && fd.position == old(fd.position) + |out|
      ensures out == Content(src)[old(fd.position)..fd.position]
      ensures fat.position == After(src, old(fat.position), old(fd.position), fd.position)
    {
      hide *;
      SliceFacts(fd, src, size, n);
      ghost var p, s := fd.position, fd.size;
      out := ReadFile(fd, n, src);
      FileReadParts(Content(src), p, n, s, fd.position, fd.size, out);
      SliceSize(fd, src, size, p, s, n, |out|);
    }

    lemma SliceFacts(fd: FileData, src: Source, size: Word, n: Word)
      requires FileOk(fd, src) && !fd.isDirectory && SizeKnown(fd, size, src)
      ensures fd.position <= Limit(size, src) <= |Content(src)| == 512 * SectorCount(src)
      ensures fd.size == size || (fd.position == fd.size == 512 * SectorCount(src) <= size)
      ensures ReadEnd(fd.size, fd.isDirectory, src) == Min(fd.size, |Content(src)|) == Limit(size, src)
    {
      hide CursorAt, Buffered, SourceOk;
    }

    lemma SliceSize(fd: FileData, src: Source, size: Word, p: nat, before: Word, n: Word, got: nat)
      requires before == size || (p == before == 512 * SectorCount(src) <= size)
      requires p <= Limit(size, src) && got == Min(n, Limit(size, src) - p) && fd.position == p + got
      requires fd.size == if got > 0 && fd.position == 512 * SectorCount(src) then fd.position else before
      ensures SizeKnown(fd, size, src)
    {
    }

    lemma SliceAhead(src: Source, w0: nat, w: nat, content: seq<Byte>, p0: nat, limit: nat, p: nat,
                     outs: seq<seq<Byte>>, counts: seq<Word>, i: nat, goal: nat)
      requires i < |counts| && SeriesGot(content, p0, limit, p, outs, counts[..i])
      requires goal == Min(p0 + Sum(counts), limit) && OnTheWay(src, w0, p0, w, p, goal)
      ensures Passes(src, w, p, Min(p + counts[i], limit)) && p <= p + Min(counts[i], limit - p) <= goal
    {
      SeriesGoal(content, p0, limit, p, outs, counts, i);
      OnTheWayParts(src, w0, p0, w, p, goal);
      hide SeriesGot, OnTheWay, Passes, Sum, SourceOk, Min;
      PassesInTurn(src, w, p, Min(p + counts[i], limit), goal);
    }

    lemma SeriesStep(counts: seq<Word>, i: nat)
      requires i < |counts|
      ensures counts[..i] + [counts[i]] == counts[..i + 1]
    {
    }

    lemma WholeSeries(counts: seq<Word>)
      ensures counts[..|counts|] == counts
    {
    }

    // ---- reads of several files in turn ----------------------------------------------------------------------

    /**
     * Reads in this order, from these positions and this window on, meet no split entry: the
     * window each of them starts from is the one the reads before it leave behind.
     */
    ghost predicate TurnsPass(srcs: seq<Source>, ps: seq<nat>, sizes: seq<Word>, window: nat, schedule: seq<Request>)
      requires |srcs| == |ps| == |sizes| && forall r | r in schedule :: r.slot < |srcs|
      decreases |schedule|
    {
      schedule == [] ||
      var s, p := schedule[0].slot, ps[schedule[0].slot];
      var q := Min(p + schedule[0].count, Limit(sizes[s], srcs[s]));
      && Passes(srcs[s], window, p, q)
      && TurnsPass(srcs, ps[s := q], sizes, After(srcs[s], window, p, q), schedule[1..])
    }

    /** Entries of FAT16 and FAT32 are never split, so any order will do. */
    lemma {:induction false} WideTurnsPass(srcs: seq<Source>, ps: seq<nat>, sizes: seq<Word>, window: nat,
                                           schedule: seq<Request>)
      requires |srcs| == |ps| == |sizes| && forall r | r in schedule :: r.slot < |srcs|
      requires !fat.ty.Fat12?
      ensures TurnsPass(srcs, ps, sizes, window, schedule)
      decreases |schedule|
    {
      if schedule == [] {
      } else {
        var s, p := schedule[0].slot, ps[schedule[0].slot];
        var q := Min(p + schedule[0].count, Limit(sizes[s], srcs[s]));
        WideClear(fat.ty, window, LookedUp(srcs[s], p, q));
        WideTurnsPass(srcs, ps[s := q], sizes, After(srcs[s], window, p, q), schedule[1..]);
      }
    }

    /** Nor does the order matter where no window at a sector that is looked up splits an entry looked up. */
    lemma {:induction false} SteadyTurnsPass(srcs: seq<Source>, ps: seq<nat>, sizes: seq<Word>, window: nat,
                                             schedule: seq<Request>, starts: set<nat>)
      requires |srcs| == |ps| == |sizes| && forall r | r in schedule :: r.slot < |srcs|
      requires window in starts && forall src | src in srcs :: Steady(src, starts)
      ensures TurnsPass(srcs, ps, sizes, window, schedule)
      decreases |schedule|
    {
      if schedule == [] {
      } else {
        var s, p := schedule[0].slot, ps[schedule[0].slot];
        var q := Min(p + schedule[0].count, Limit(sizes[s], srcs[s]));
        assert Steady(srcs[s], starts);
        SteadyClear(fat.ty, window, LookedUp(srcs[s], p, q), starts);
        SteadyTurnsPass(srcs, ps[s := q], sizes, After(srcs[s], window, p, q), schedule[1..], starts);
      }
    }

    /** The window stays at these sectors, and none of them splits an entry of the source. */
    ghost predicate Steady(src: Source, starts: set<nat>) {
      src.Chain? ==> forall c | c in src.clusters ::
        Offset(fat.ty, c) / 512 in starts && forall p | p in starts :: !Split(fat.ty, p, c)
    }

    /** A file in use in turn with others, and the replies to its requests so far. */
    ghost predicate InTurn(fd: FileData, src: Source, p0: Word, size0: Word, counts: seq<Word>, outs: seq<seq<Byte>>)
      reads fd, fd.buffer
    {
      && FileOk(fd, src) && !src.Root? && !fd.isDirectory && SizeKnown(fd, size0, src)
      && SeriesGot(Content(src), p0, Limit(size0, src), fd.position, outs, counts)
    }

    ghost predicate AllInTurn(files: seq<FileData>, srcs: seq<Source>, p0s: seq<Word>, sizes: seq<Word>,
                              schedule: seq<Request>, outs: seq<seq<Byte>>)
      requires |files| == |srcs| == |p0s| == |sizes| && |outs| == |schedule|
      reads files, set f | f in files :: f.buffer
    {
      forall i | 0 <= i < |files| ::
        InTurn(files[i], srcs[i], p0s[i], sizes[i], CountsOf(i, schedule), RepliesTo(i, schedule, outs))
    }

    /**
     * Reads of any open files in any order, through the one shared window: every file delivers its
     * own bytes in turn, as if it were read alone - for FAT16 and FAT32 in any order, and for FAT12
     * in any that meets no split entry.
     */
    method ReadInterleaved(files: seq<FileData>, schedule: seq<Request>, ghost srcs: seq<Source>, ghost p0s: seq<Word>,
                           ghost sizes: seq<Word>)
      returns (outs: seq<seq<Byte>>)
      requires Valid() && Slots(files) && |files| == |srcs| == |p0s| == |sizes|
      requires forall r | r in schedule :: r.slot < |files|
      requires forall i | 0 <= i < |files| :: p0s[i] == files[i].position && sizes[i] == files[i].size
      requires forall i | 0 <= i < |files| :: FileOk(files[i], srcs[i]) && !srcs[i].Root? && !files[i].isDirectory
      requires TurnsPass(srcs, p0s, sizes, fat.position, schedule)
      modifies files, (set f | f in files :: f.buffer), fat`position, fat.cache
      ensures Valid() && |outs| == |schedule| && AllInTurn(files, srcs, p0s, sizes, schedule, outs)
    {
      ghost var ps: seq<nat> := p0s;
      outs := [];
      TurnsStart(files, srcs, p0s, sizes, schedule);
      NoRequest(schedule);
      hide *;
      for n := 0 to |schedule|
        invariant Valid() && |outs| == n && PositionsAre(files, ps)
        invariant (forall r | r in schedule[n..] :: r.slot < |files|)
        invariant |ps| == |srcs| && TurnsPass(srcs, ps, sizes, fat.position, schedule[n..])
        invariant AllInTurn(files, srcs, p0s, sizes, schedule[..n], outs)
      {
        NextRequest(schedule, n);
        var out;
        out, ps := ReadTurn(files, schedule[n], srcs, p0s, sizes, schedule[..n], outs, ps, schedule[n..]);
        outs := outs + [out];
      }
      WholeSchedule(schedule);
    }

    ghost predicate PositionsAre(files: seq<FileData>, ps: seq<nat>)
      reads files
    {
      |ps| == |files| && forall i | 0 <= i < |files| :: files[i].position == ps[i]
    }

    /** One read of one file, the others standing by. */
    method ReadTurn(files: seq<FileData>, r: Request,
                    ghost srcs: seq<Source>, ghost p0s: seq<Word>, ghost sizes: seq<Word>,
                    ghost before: seq<Request>, ghost outs: seq<seq<Byte>>,
                    ghost ps: seq<nat>, ghost left: seq<Request>)
      returns (out: seq<Byte>, ghost ps': seq<nat>)
      requires Valid() && Slots(files) && |files| == |srcs| == |p0s| == |sizes| && |outs| == |before|
      requires r.slot < |files| && left != [] && left[0] == r && forall r | r in left :: r.slot < |files|
      requires PositionsAre(files, ps) && TurnsPass(srcs, ps, sizes, fat.position, left)
      requires AllInTurn(files, srcs, p0s, sizes, before, outs)
      modifies files, (set f | f in files :: f.buffer), fat`position, fat.cache
      ensures Valid() && AllInTurn(files, srcs, p0s, sizes, before + [r], outs + [out])
      ensures PositionsAre(files, ps') && TurnsPass(srcs, ps', sizes, fat.position, left[1..])
    {
      ghost var s, w := r.slot, fat.position;
      ghost var p, q := ps[s], Min(ps[s] + r.count, Limit(sizes[s], srcs[s]));
      ps' := ps[s := q];
      PositionIs(files, ps, s);
      hide *;
      TurnPasses(srcs, ps, sizes, w, left, p, q);
      out := TakeTurn(files, r, srcs, p0s, sizes, before, outs, q);
      PositionsNow(files, ps, s, q);
    }

    method TakeTurn(files: seq<FileData>, r: Request,
                    ghost srcs: seq<Source>, ghost p0s: seq<Word>, ghost sizes: seq<Word>,
                    ghost before: seq<Request>, ghost outs: seq<seq<Byte>>, ghost q: nat)
      returns (out: seq<Byte>)
      requires Valid() && Slots(files) && |files| == |srcs| == |p0s| == |sizes| && |outs| == |before|
      requires r.slot < |files| && AllInTurn(files, srcs, p0s, sizes, before, outs)
      requires q == Min(files[r.slot].position + r.count, Limit(sizes[r.slot], srcs[r.slot]))
      requires Passes(srcs[r.slot], fat.position, files[r.slot].position, q)
      modifies files, (set f | f in files :: f.buffer), fat`position, fat.cache
      ensures Valid() && AllInTurn(files, srcs, p0s, sizes, before + [r], outs + [out])
      ensures files[r.slot].position == q
      ensures forall i | 0 <= i < |files| && i != r.slot :: files[i].position == old(files[i].position)
      ensures fat.position == After(srcs[r.slot], old(fat.position), old(files[r.slot].position), q)
    {
      var s := r.slot;
      ghost var p := files[s].position;
      TurnParts(files[s], srcs[s], p0s[s], sizes[s], CountsOf(s, before), RepliesTo(s, before, outs));
      Separate(files, s);
      hide *;
      AllTurns(files, srcs, p0s, sizes, before, outs);
      out := ReadSlice(files[s], r.count, srcs[s], sizes[s]);
      forall i | 0 <= i < |files| && i != s
        ensures InTurn(files[i], srcs[i], p0s[i], sizes[i], CountsOf(i, before), RepliesTo(i, before, outs))
      {
      }
      MinSum(p, r.count, Limit(sizes[s], srcs[s]));
      TurnDone(files[s], srcs[s], p0s[s], sizes[s], p, CountsOf(s, before), RepliesTo(s, before, outs), r.count, out);
      AllTurnsNow(files, srcs, p0s, sizes, before, outs, r, out);
    }

    lemma Separate(files: seq<FileData>, s: nat)
      requires Slots(files) && s < |files|
      ensures files[s].buffer != fat.cache
      ensures forall i | 0 <= i < |files| && i != s ::
        files[i] != files[s] && files[i].buffer != files[s].buffer && files[i].buffer != fat.cache
    {
    }

    lemma AllTurns(files: seq<FileData>, srcs: seq<Source>, p0s: seq<Word>, sizes: seq<Word>,
                   before: seq<Request>, outs: seq<seq<Byte>>)
      requires |files| == |srcs| == |p0s| == |sizes| && |outs| == |before|
      requires AllInTurn(files, srcs, p0s, sizes, before, outs)
      ensures forall i | 0 <= i < |files| ::
        InTurn(files[i], srcs[i], p0s[i], sizes[i], CountsOf(i, before), RepliesTo(i, before, outs))
    {
      hide InTurn, CountsOf, RepliesTo;
    }

    lemma AllTurnsNow(files: seq<FileData>, srcs: seq<Source>, p0s: seq<Word>, sizes: seq<Word>,
                      before: seq<Request>, outs: seq<seq<Byte>>, r: Request, out: seq<Byte>)
      requires |files| == |srcs| == |p0s| == |sizes| && |outs| == |before| && r.slot < |files|
      requires forall i | 0 <= i < |files| && i != r.slot ::
        InTurn(files[i], srcs[i], p0s[i], sizes[i], CountsOf(i, before), RepliesTo(i, before, outs))
      requires var s := r.slot;
        InTurn(files[s], srcs[s], p0s[s], sizes[s], CountsOf(s, before) + [r.count], RepliesTo(s, before, outs) + [out])
      ensures AllInTurn(files, srcs, p0s, sizes, before + [r], outs + [out])
    {
      hide InTurn, CountsOf, RepliesTo;
      forall i | 0 <= i < |files|
        ensures InTurn(files[i], srcs[i], p0s[i], sizes[i], CountsOf(i, before + [r]),
                       RepliesTo(i, before + [r], outs + [out]))
      {
        RequestOf(i, before, r, outs, out);
      }
    }

    lemma PositionsNow(files: seq<FileData>, ps: seq<nat>, s: nat, q: nat)
      requires s < |files| == |ps| && files[s].position == q
      requires forall i | 0 <= i < |files| && i != s :: files[i].position == ps[i]
      ensures PositionsAre(files, ps[s := q])
    {
    }

    lemma PositionIs(files: seq<FileData>, ps: seq<nat>, s: nat)
      requires PositionsAre(files, ps) && s < |files|
      ensures |ps| == |files| && ps[s] == files[s].position
      ensures forall i | 0 <= i < |files| :: files[i].position == ps[i]
    {
    }

    lemma TurnPasses(srcs: seq<Source>, ps: seq<nat>, sizes: seq<Word>, w: nat, left: seq<Request>, p: nat, q: nat)
      requires |srcs| == |ps| == |sizes| && left != [] && forall r | r in left :: r.slot < |srcs|
      requires TurnsPass(srcs, ps, sizes, w, left) && p == ps[left[0].slot]
      requires q == Min(p + left[0].count, Limit(sizes[left[0].slot], srcs[left[0].slot]))
      ensures var s := left[0].slot;
        Passes(srcs[s], w, p, q) && TurnsPass(srcs, ps[s := q], sizes, After(srcs[s], w, p, q), left[1..])
    {
      hide Passes, After, Limit;
    }

    lemma MinSum(p: nat, n: nat, limit: nat)
      requires p <= limit
      ensures Min(p + n, limit) == p + Min(n, limit - p)
    {
    }

    lemma TurnParts(fd: FileData, src: Source, p0: Word, size0: Word, counts: seq<Word>, outs: seq<seq<Byte>>)
      requires InTurn(fd, src, p0, size0, counts, outs)
      ensures FileOk(fd, src) && !src.Root? && !fd.isDirectory && SizeKnown(fd, size0, src)
      ensures SeriesGot(Content(src), p0, Limit(size0, src), fd.position, outs, counts)
    {
      hide FileOk, SeriesGot, SizeKnown;
    }

    lemma TurnDone(fd: FileData, src: Source, p0: Word, size0: Word, p: nat, counts: seq<Word>, outs: seq<seq<Byte>>,
                   n: Word, out: seq<Byte>)
      requires FileOk(fd, src) && !src.Root? && !fd.isDirectory && SizeKnown(fd, size0, src)
      requires SeriesGot(Content(src), p0, Limit(size0, src), p, outs, counts)
      requires p <= Limit(size0, src) <= |Content(src)| && fd.position == p + |out|
        && |out| == Min(n, Limit(size0, src) - p)
      requires p + |out| <= |Content(src)| && out == Content(src)[p..fd.position]
      ensures InTurn(fd, src, p0, size0, counts + [n], outs + [out])
    {
      SeriesMore(Content(src), p0, Limit(size0, src), p, outs, counts, n, out);
      hide FileOk, SeriesGot, SizeKnown, Content, Limit;
    }

    lemma TurnsStart(files: seq<FileData>, srcs: seq<Source>, p0s: seq<Word>, sizes: seq<Word>, schedule: seq<Request>)
      requires |files| == |srcs| == |p0s| == |sizes|
      requires forall i | 0 <= i < |files| :: p0s[i] == files[i].position && sizes[i] == files[i].size
      requires forall i | 0 <= i < |files| :: FileOk(files[i], srcs[i]) && !srcs[i].Root? && !files[i].isDirectory
      ensures AllInTurn(files, srcs, p0s, sizes, schedule[..0], [])
    {
      forall i | 0 <= i < |files|
        ensures InTurn(files[i], srcs[i], p0s[i], sizes[i], CountsOf(i, schedule[..0]), RepliesTo(i, schedule[..0], []))
      {
        TurnStart(files[i], srcs[i]);
      }
    }

    lemma TurnStart(fd: FileData, src: Source)
      requires FileOk(fd, src) && !src.Root? && !fd.isDirectory
      ensures InTurn(fd, src, fd.position, fd.size, [], [])
    {
      hide CursorAt, Buffered, SourceOk;
    }

    // ---- what of a file is delivered ------------------------------------------------------------------------

    /** The first cluster past the first one that the reader takes for an end mark, from the i-th on. */
    ghost function CutFrom(cs: seq<nat>, i: nat): (j: nat)
      requires i <= |cs|
      ensures i <= j <= |cs| && (j < |cs| ==> cs[j] >= 0x0FF8) && forall k | i <= k < j :: cs[k] < 0x0FF8
      decreases |cs| - i
    {
      if i == |cs| || cs[i] >= 0x0FF8 then i else CutFrom(cs, i + 1)
    }

    /** The part of a file the reader sees, whatever the format says of its clusters. */
    ghost function Seen(cs: seq<nat>): Source
      requires cs != []
    {
      if cs[0] >= 0x0FF8 && sectorsPerCluster > 1 then Head(cs[0]) else Chain(cs[..CutFrom(cs, 1)])
    }

    /** How many bytes that are. */
    ghost function Bound(cs: seq<nat>): nat
      requires cs != []
    {
      512 * SectorCount(Seen(cs))
    }

    /** One sector when the first cluster is such a one of several sectors, else all clusters in front of the cut. */
    lemma BoundValue(cs: seq<nat>)
      requires cs != []
      ensures Bound(cs) ==
        if cs[0] >= 0x0FF8 && sectorsPerCluster > 1 then 512 else 512 * (CutFrom(cs, 1) * sectorsPerCluster)
    {
    }

    /** A file in one cluster: its first sector arrives even from cluster 5000. */
    lemma BoundOfSmallFile()
      requires 1 <= sectorsPerCluster
      ensures Bound([5000]) == 512
      ensures Bound([5000, 100]) == if sectorsPerCluster == 1 then 1024 else 512
    {
      assert CutFrom([5000], 1) == 1;
      assert CutFrom([5000, 100], 2) == 2;
      assert CutFrom([5000, 100], 1) == 2;
    }

    /** What the reader sees is a source it reads well, and its content a prefix of the file's. */
    lemma SeenPrefix(cs: seq<nat>)
      requires Layout() && IsFile(cs) && 512 * (|cs| * sectorsPerCluster) < 0x1_0000_0000
      ensures SourceOk(Seen(cs)) && Bound(cs) <= |Content(Chain(cs))|
      ensures Content(Seen(cs)) == Content(Chain(cs))[..Bound(cs)]
    {
      FileStart(cs);
      var j := CutFrom(cs, 1);
      Monotone(j, |cs|, sectorsPerCluster);
      Monotone(1, |cs|, sectorsPerCluster);
      if cs[0] >= 0x0FF8 && sectorsPerCluster > 1 {
        SeenHead(cs);
      } else {
        SeenWalk(cs, j);
        SeenChain(cs, j);
      }
    }

    /** The reader sees all of a file exactly when no cluster is one it takes for an end mark when it gets there. */
    lemma WholeSeen(cs: seq<nat>)
      requires Layout() && IsFile(cs)
      ensures Bound(cs) == |Content(Chain(cs))| <==>
        (cs[0] < 0x0FF8 || sectorsPerCluster == 1) && forall i | 1 <= i < |cs| :: cs[i] < 0x0FF8
    {
      var j := CutFrom(cs, 1);
      BoundValue(cs);
      Monotone(1, |cs|, sectorsPerCluster);
      if j < |cs| { Monotone(j + 1, |cs|, sectorsPerCluster); }
      hide Bound, Layout, IsFile;
    }

    lemma FileStart(cs: seq<nat>)
      requires Layout() && IsFile(cs)
      ensures cs != [] && 2 <= cs[0] < clusters
    {
      assert FileLink(cs, 0);
    }

    lemma SeenWalk(cs: seq<nat>, j: nat)
      requires Layout() && IsFile(cs) && j == CutFrom(cs, 1) && (cs[0] < 0x0FF8 || sectorsPerCluster == 1)
      ensures IsWalk(cs[..j])
    {
      hide Next, Layout;
      forall i | 0 <= i < j ensures WalkAt(cs[..j], i) {
        assert FileLink(cs, i);
      }
    }

    lemma SeenChain(cs: seq<nat>, j: nat)
      requires j <= |cs| && sectorsPerCluster > 0 && j * sectorsPerCluster <= |cs| * sectorsPerCluster
      ensures Content(Chain(cs[..j])) == Content(Chain(cs))[..512 * (j * sectorsPerCluster)]
    {
      var small, whole := Content(Chain(cs[..j])), Content(Chain(cs));
      forall x | 0 <= x < |small| ensures small[x] == whole[x] {
        InsideChain(x / 512, j, sectorsPerCluster);
        SectorBelow(x, j * sectorsPerCluster);
        assert LbaAt(Chain(cs[..j]), x / 512) == LbaAt(Chain(cs), x / 512);
      }
    }

    lemma SeenHead(cs: seq<nat>)
      requires cs != [] && sectorsPerCluster > 1 && 1 <= |cs| * sectorsPerCluster
      ensures Content(Head(cs[0])) == Content(Chain(cs))[..512]
    {
      var small, whole := Content(Head(cs[0])), Content(Chain(cs));
      DivUnique(0, 0, 0, sectorsPerCluster);
      forall x | 0 <= x < |small| ensures small[x] == whole[x] {
        assert x / 512 == 0;
        assert LbaAt(Head(cs[0]), 0) == LbaAt(Chain(cs), 0);
      }
    }

    /**
     * A file opened and read from its start: the replies, put together, are the file's bytes up to
     * the bytes asked for, the recorded size and the bound - so, with enough asked for, the whole
     * file arrives exactly when its size is at most the bound.
     */
    method OpenAndRead(fd: FileData, handle: nat, size: Word, counts: seq<Word>, ghost cs: seq<nat>, first: nat)
      returns (outs: seq<seq<Byte>>)
      requires Valid() && IsFile(cs) && 512 * (|cs| * sectorsPerCluster) < 0x1_0000_0000 && first == cs[0]
      requires Passes(Seen(cs), fat.position, 0, Min(Sum(counts), Min(size, Bound(cs))))
      requires fd.buffer.Length == 512 && fd.buffer != fat.cache
      modifies fd, fd.buffer, fat`position, fat.cache
      ensures Valid() && Bound(cs) <= |Content(Chain(cs))|
      ensures Concat(outs) == Content(Chain(cs))[..Min(Sum(counts), Min(size, Bound(cs)))]
      ensures Sum(counts) >= size ==> (|Concat(outs)| == size <==> size <= Bound(cs))
    {
      SeenPrefix(cs);
      FirstDescribed(cs, first, size);
      hide *;
      var ok := StartFile(fd, handle, first, size, false, Seen(cs));
      outs := ReadSeries(fd, counts, Seen(cs));
      Delivered(outs, counts, size, Content(Chain(cs)), Content(Seen(cs)), Bound(cs), fd.position,
                Limit(size, Seen(cs)), Seen(cs));
    }

    lemma FirstDescribed(cs: seq<nat>, first: nat, size: Word)
      requires Layout() && IsFile(cs) && first == cs[0] && SourceOk(Seen(cs))
      ensures Describes(Seen(cs), first, size, false) && ClusterToLba(first) < |fat.disk| && !Seen(cs).Root?
      ensures Bound(cs) == 512 * SectorCount(Seen(cs)) && Limit(size, Seen(cs)) == Min(size, Bound(cs))
    {
      FileStart(cs);
      ClusterPlace(first);
      hide ClusterToLba, IsFile;
    }

    lemma Delivered(outs: seq<seq<Byte>>, counts: seq<Word>, size: Word, whole: seq<Byte>, seen: seq<Byte>, bound: nat,
                    position: nat, limit: nat, src: Source)
      requires bound <= |whole| && seen == whole[..bound] && bound == 512 * SectorCount(src)
        && limit == Limit(size, src)
      requires SeriesGot(seen, 0, limit, position, outs, counts)
      ensures Concat(outs) == whole[..Min(Sum(counts), Min(size, bound))]
      ensures Sum(counts) >= size ==> (|Concat(outs)| == size <==> size <= bound)
    {
    }
  }

  lemma SectorBelow(x: nat, n: nat)
    requires x < 512 * n
    ensures x / 512 < n
  {
  }

  function Sum(counts: seq<Word>): nat {
    if counts == [] then 0 else Sum(counts[..|counts| - 1]) + counts[|counts| - 1]
  }

  /** A read of so many bytes of the file in this slot. */
  datatype Request = Request(slot: nat, count: Word)

  /** The counts asked of slot i, and the replies to it, in order. */
  function CountsOf(i: nat, schedule: seq<Request>): seq<Word> {
    if schedule == [] then [] else
      var r := schedule[|schedule| - 1];
      CountsOf(i, schedule[..|schedule| - 1]) + if r.slot == i then [r.count] else []
  }

  function RepliesTo(i: nat, schedule: seq<Request>, outs: seq<seq<Byte>>): seq<seq<Byte>>
    requires |outs| == |schedule|
  {
    if schedule == [] then [] else
      var n := |schedule| - 1;
      RepliesTo(i, schedule[..n], outs[..n]) + if schedule[n].slot == i then [outs[n]] else []
  }

  lemma RequestOf(i: nat, before: seq<Request>, r: Request, outs: seq<seq<Byte>>, out: seq<Byte>)
    requires |outs| == |before|
    ensures CountsOf(i, before + [r]) == if r.slot == i then CountsOf(i, before) + [r.count] else CountsOf(i, before)
    ensures RepliesTo(i, before + [r], outs + [out]) ==
      if r.slot == i then RepliesTo(i, before, outs) + [out] else RepliesTo(i, before, outs)
  {
    assert (before + [r])[..|before|] == before && (outs + [out])[..|outs|] == outs;
  }

  lemma NextRequest(schedule: seq<Request>, n: nat)
    requires n < |schedule|
    ensures schedule[..n] + [schedule[n]] == schedule[..n + 1] && schedule[n] in schedule
    ensures schedule[n..] != [] && schedule[n..][0] == schedule[n] && schedule[n..][1..] == schedule[n + 1..]
  {
  }

  lemma NoRequest(schedule: seq<Request>)
    ensures schedule[0..] == schedule
  {
  }

  lemma WholeSchedule(schedule: seq<Request>)
    ensures schedule[..|schedule|] == schedule
  {
  }

  /** Window positions and lookups among these sectors stay among them. */
  lemma {:induction false} SteadyClear(ty: FatType, position: nat, cs: seq<nat>, starts: set<nat>)
    requires position in starts
    requires forall c | c in cs ::
      Offset(ty, c) / 512 in starts && forall p | p in starts :: !Split(ty, p, c)
    ensures Clear(ty, position, cs) && WindowAfter(ty, position, cs) in starts
    decreases |cs|
  {
    if cs == [] {
    } else {
      var c, p := cs[0], Slide(position, Offset(ty, cs[0]) / 512);
      assert c in cs;
      SlideMoves(position, Offset(ty, c) / 512);
      hide Offset, Split, Slide;
      SteadyClear(ty, p, cs[1..], starts);
    }
  }

  lemma {:induction false} WideClear(ty: FatType, position: nat, cs: seq<nat>)
    requires !ty.Fat12?
    ensures Clear(ty, position, cs)
    decreases |cs|
  {
    if cs == [] {
    } else {
      NeverSplit(ty, Slide(position, Offset(ty, cs[0]) / 512), cs[0]);
      hide Offset, Split, Slide;
      WideClear(ty, Slide(position, Offset(ty, cs[0]) / 512), cs[1..]);
    }
  }

  lemma NeverSplit(ty: FatType, position: nat, c: nat)
    requires !ty.Fat12?
    ensures !Split(ty, position, c)
  {
  }

  lemma SlideMoves(position: nat, sector: nat)
    ensures Slide(position, sector) == position || Slide(position, sector) == sector
  {
  }

  lemma {:induction false} SumPrefix(counts: seq<Word>, i: nat)
    requires i < |counts|
    ensures Sum(counts[..i]) + counts[i] <= Sum(counts)
    decreases |counts|
  {
    var n := |counts| - 1;
    if i < n {
      SumPrefix(counts[..n], i);
      assert counts[..n][..i] == counts[..i];
    }
  }

  /** The next read of a series does not go past its end. */
  lemma SeriesGoal(content: seq<Byte>, p0: nat, limit: nat, p: nat, outs: seq<seq<Byte>>, counts: seq<Word>, i: nat)
    requires i < |counts| && SeriesGot(content, p0, limit, p, outs, counts[..i])
    ensures p <= Min(p + counts[i], limit) <= Min(p0 + Sum(counts), limit) && limit <= |content|
    ensures Min(p + counts[i], limit) == p + Min(counts[i], limit - p)
  {
    SumPrefix(counts, i);
    hide SliceLength, Concat;
  }

  function Concat(outs: seq<seq<Byte>>): seq<Byte> {
    if outs == [] then [] else Concat(outs[..|outs| - 1]) + outs[|outs| - 1]
  }

  /** How long the i-th reply is, of a series of requests for bytes of which room are left at first. */
  function SliceLength(counts: seq<Word>, i: nat, room: nat): nat
    requires i < |counts|
  {
    Min(counts[i], room - Min(Sum(counts[..i]), room))
  }

  /** The replies so far, put together, are the bytes from p0 to the position; each has its length. */
  ghost predicate SeriesGot(content: seq<Byte>, p0: nat, limit: nat, position: nat, outs: seq<seq<Byte>>,
                            counts: seq<Word>) {
    && p0 <= position <= limit <= |content|
    && position == p0 + Min(Sum(counts), limit - p0) && Concat(outs) == content[p0..position]
    && |outs| == |counts| && forall i | 0 <= i < |counts| :: |outs[i]| == SliceLength(counts, i, limit - p0)
  }

  lemma SeriesMore(content: seq<Byte>, p0: nat, limit: nat, p: nat, outs: seq<seq<Byte>>, counts: seq<Word>, n: Word,
                   out: seq<Byte>)
    requires SeriesGot(content, p0, limit, p, outs, counts)
    requires |out| == Min(n, limit - p) && out == content[p..p + |out|]
    ensures SeriesGot(content, p0, limit, p + |out|, outs + [out], counts + [n])
  {
    var outs', counts' := outs + [out], counts + [n];
    assert outs'[..|outs|] == outs && counts'[..|counts|] == counts;
    assert content[p0..p] + content[p..p + |out|] == content[p0..p + |out|];
    forall i | 0 <= i < |counts'| ensures |outs'[i]| == SliceLength(counts', i, limit - p0) {
      assert i < |counts| ==> counts'[..i] == counts[..i];
    }
  }

  /**
   * What a read leaves behind: from position p0, as many bytes as wanted and there are; the size
   * becomes the position when the end of the content is reached.
   */
  ghost predicate Reply(content: seq<Byte>, p0: nat, want: nat, size0: nat, position: nat, size: nat, out: seq<Byte>) {
    && p0 <= position <= |content| && |out| == Min(want, |content| - p0)
    && position == p0 + |out| && out == content[p0..position]
    && size == if |out| > 0 && position == |content| then position else size0
  }

  /** So far out is the content from p0 up to position, with byteCount bytes to go. */
  ghost predicate Got(content: seq<Byte>, p0: nat, position: nat, out: seq<Byte>, byteCount: nat, want: nat) {
    p0 <= position <= |content| && out == content[p0..position] && |out| + byteCount == want
  }

  lemma GotNone(content: seq<Byte>, p0: nat, want: nat)
    requires p0 <= |content|
    ensures Got(content, p0, p0, [], want, want)
  {
  }

  lemma GotFacts(content: seq<Byte>, p0: nat, position: nat, out: seq<Byte>, byteCount: nat, want: nat)
    requires Got(content, p0, position, out, byteCount, want)
    ensures p0 <= position <= |content| && position == p0 + |out| && out == content[p0..position]
    ensures position + byteCount == p0 + want
  {
  }

  lemma GotMore(content: seq<Byte>, p0: nat, p: nat, out: seq<Byte>, byteCount: nat, want: nat, taken: seq<Byte>)
    requires Got(content, p0, p, out, byteCount, want) && |taken| <= byteCount
    requires p + |taken| <= |content| && taken == content[p..p + |taken|]
    ensures Got(content, p0, p + |taken|, out + taken, byteCount - |taken|, want)
  {
  }

  lemma GotAll(content: seq<Byte>, p0: nat, position: nat, out: seq<Byte>, byteCount: nat, want: nat, size0: nat,
               size: nat)
    requires Got(content, p0, position, out, byteCount, want) && (byteCount == 0 || position == |content|)
    requires if position == |content| then size == position else size == size0
    requires out == [] ==> size == size0
    ensures Reply(content, p0, want, size0, position, size, out)
  {
  }

  /** What a read of n bytes asks for. */
  ghost predicate WantedOf(p0: nat, n: Word, size0: Word, isDirectory: bool, want: nat) {
    if isDirectory && size0 == 0 then want == n else p0 <= size0 && want == Min(n, size0 - p0)
  }

  /**
   * A read of n bytes: from a directory of size 0 the next bytes there are, from anything else
   * those up to the size; the size becomes the position when the end of the content is reached.
   */
  ghost predicate FileRead(content: seq<Byte>, p0: nat, n: nat, size0: nat, isDirectory: bool,
                           position: nat, size: nat, out: seq<Byte>) {
    && p0 <= |content| && (p0 <= size0 || (isDirectory && size0 == 0))
    && |out| == Min(n, (if isDirectory && size0 == 0 then |content| else Min(size0, |content|)) - p0)
    && position == p0 + |out| && out == content[p0..position]
    && size == if |out| > 0 && position == |content| then position else size0
  }

  lemma ReadWhole(content: seq<Byte>, p0: nat, n: Word, want: nat, size0: Word, isDirectory: bool,
                  position: nat, size: nat, out: seq<Byte>)
    requires WantedOf(p0, n, size0, isDirectory, want) && Reply(content, p0, want, size0, position, size, out)
    ensures FileRead(content, p0, n, size0, isDirectory, position, size, out)
  {
  }

  lemma FileReadParts(content: seq<Byte>, p0: nat, n: nat, size0: nat, position: nat, size: nat, out: seq<Byte>)
    requires FileRead(content, p0, n, size0, false, position, size, out)
    ensures p0 <= Min(size0, |content|) && |out| == Min(n, Min(size0, |content|) - p0)
    ensures position == p0 + |out| && out == content[p0..position]
    ensures size == if |out| > 0 && position == |content| then position else size0
  {
  }
}
