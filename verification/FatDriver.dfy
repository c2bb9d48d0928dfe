// The standalone FAT12 driver of test/fat.c: writing a file along its chain, seeking back and
// reading it again, with the cached FAT sector written through to the disk.
module FatDriver {
  import opened Bits
  import opened ClusterArea
  import opened FatCache
  import opened FatChains
  import opened FatTable

  // ---- free clusters ---------------------------------------------------------------------------------

  ghost function FreeCount(links: Links, limit: nat): nat
    requires limit <= |links|
  {
    if limit <= 2 then 0 else FreeCount(links, limit - 1) + if links[limit - 1] == 0 then 1 else 0
  }

  lemma {:induction false} NoneFreeCount(links: Links, limit: nat)
    requires limit <= |links|
    ensures NoneFree(links, limit) <==> FreeCount(links, limit) == 0
    decreases limit
  {
    if limit <= 2 {
    } else {
      NoneFreeCount(links, limit - 1);
    }
  }

  /** Appending a cluster takes exactly one free cluster. */
  lemma {:induction false} FreeCountLinked(links: Links, limit: nat, last: nat, f: nat)
    requires limit <= |links| && last < |links| && 2 <= f < |links| && links[f] == 0 && links[last] != 0
    ensures FreeCount(Linked(links, last, f), limit) == FreeCount(links, limit) - if f < limit then 1 else 0
    decreases limit
  {
    if limit <= 2 {
    } else {
      FreeCountLinked(links, limit - 1, last, f);
    }
  }

  // ---- the blocks of a file -----------------------------------------------------------------------------

  /** The j-th 512-byte block of the data, the last one padded with zeros. */
  function Block(data: seq<Byte>, j: nat): (b: seq<Byte>)
    requires 512 * j <= |data|
    ensures |b| == 512
  {
    if |data| - 512 * j >= 512 then data[512 * j..512 * j + 512]
    else data[512 * j..] + seq(512 - (|data| - 512 * j), i => 0)
  }

  /** Blocks written for n bytes. */
  function BlockCount(n: nat): nat { (n + 511) / 512 }

  lemma BlocksOf(n: nat)
    ensures BlockCount(n) == (n + 511) / 512
  {
  }

  lemma BlockByte(data: seq<Byte>, x: nat)
    requires x < |data|
    ensures x / 512 < BlockCount(|data|) && 512 * (x / 512) <= |data|
    ensures Block(data, x / 512)[x % 512] == data[x]
  {
  }

  /** A block is the data from 512 * j on, and zeros behind its end. */
  lemma BlockBytes(data: seq<Byte>, j: nat)
    requires 512 * j <= |data|
    ensures forall x | 0 <= x < 512 :: Block(data, j)[x] == if 512 * j + x < |data| then data[512 * j + x] else 0
  {
  }

  // ---- the driver -----------------------------------------------------------------------------------------

  class File {
    var position: Word
    var size: Word
    const firstCluster: nat
    var currentCluster: nat
    const buffer: array<Byte>

    constructor (firstCluster: nat, size: Word)
      ensures position == 0 && this.size == size
      ensures this.firstCluster == firstCluster && currentCluster == firstCluster
      ensures buffer.Length == 512 && fresh(buffer)
    {
      position, this.size := 0, size;
      this.firstCluster, currentCluster := firstCluster, firstCluster;
      buffer := new Byte[512];
    }
  }

  /** One 512-byte sector holds the 12-bit entries of the clusters below 341. */
  lemma SectorHolds(disk: seq<seq<Byte>>, clusters: nat, spc: nat, first: nat, fatSector: nat)
    requires Sectors(disk) && 2 <= clusters <= 341 && fatSector < first && first + (clusters - 2) * spc <= |disk|
    ensures first <= |disk| && |disk[fatSector]| == 512
    ensures InTable(Fat12, disk[fatSector], clusters - 1) && Storable(Fat12, clusters - 1)
  {
  }

  /** Where the driver looks for the entry of a cluster: the offset within one sector. */
  function CachedOffset(c: nat): nat { Offset(Fat12, c) % 512 }

  /** The cached first sector holds the entry of a cluster exactly up to number 340. */
  lemma HeldExact(c: nat)
    ensures CachedOffset(c) == Offset(Fat12, c) && CachedOffset(c) + 2 <= 512 <==> c <= 340
  {
  }

  /** What next_cluster decodes from the cached sector, and what update_fat leaves in it. */
  function CachedEntry(t: seq<Byte>, c: nat): nat
    requires |t| == 512 && CachedOffset(c) + 2 <= 512
  {
    Decode12(Get16(t, CachedOffset(c)), c)
  }

  function CachedUpdate(t: seq<Byte>, c: nat, next: Word): (u: seq<Byte>)
    requires |t| == 512 && CachedOffset(c) + 2 <= 512
    ensures |u| == 512
  {
    var val := Get16(t, CachedOffset(c));
    EncodeFits(val, c, next);
    Put16(t, CachedOffset(c), Encode12(val, c, next))
  }

  /** Every 1024 clusters share an entry there: linking one links the others. */
  lemma SharedEntry(t: seq<Byte>, c: nat, next: Word)
    requires |t| == 512 && CachedOffset(c) + 2 <= 512
    ensures CachedOffset(c + 1024) == CachedOffset(c)
    ensures CachedEntry(CachedUpdate(t, c, next), c + 1024) == next % 4096
  {
    SameOffset(c);
    var o, val := CachedOffset(c), Get16(t, CachedOffset(c));
    EncodeFits(val, c, next);
    Decode12Value(Encode12(val, c, next), c + 1024);
    StoredThere(t, o, Encode12(val, c, next));
    hide Encode12, Decode12, Get16, Put16, CachedOffset;
    EncodedPart(c % 2 == 1, val, next % 4096);
  }

  lemma StoredThere(t: seq<Byte>, o: nat, v: nat)
    requires o + 2 <= |t| && v < 0x1_0000
    ensures Get16(t, o) < 0x1_0000 && Get16(Put16(t, o, v), o) == v
  {
  }

  lemma SameOffset(c: nat)
    ensures CachedOffset(c + 1024) == CachedOffset(c) && (c + 1024) % 2 == c % 2
  {
    assert Offset(Fat12, c + 1024) == Offset(Fat12, c) + 1536;
    hide Offset;
    SameRemainder(Offset(Fat12, c));
  }

  lemma SameRemainder(x: nat)
    ensures (x + 1536) % 512 == x % 512
  {
  }

  /** The lowest free cluster has been appended to file w; nothing else changed. */
  ghost predicate Appends(links: Links, links': Links, limit: nat, chains: seq<seq<nat>>, w: nat, cur: nat) {
    && w < |chains| && chains[w] != [] && 2 <= cur < limit <= |links|
    && var last := chains[w][|chains[w]| - 1];
      && last < |links| && LowestFree(links, limit, cur)
      && links' == Linked(links, last, cur)
      && WellFormed(links', chains[w := chains[w] + [cur]])
  }

  lemma AppendsNow(links: Links, limit: nat, chains: seq<seq<nat>>, w: nat, cur: nat)
    requires WellFormed(links, chains) && w < |chains| && limit <= |links|
    requires LowestFree(links, limit, cur) && !NoneFree(links, limit)
    ensures 2 <= cur < limit && chains[w] != [] && chains[w][|chains[w]| - 1] < |links|
    ensures var last := chains[w][|chains[w]| - 1];
      Appends(links, links[last := cur][cur := END], limit, chains, w, cur)
  {
    GrowKeepsChains(links, chains, w, cur);
  }

  class Driver {
    const fat: Cache
    const sectorPerCluster: nat
    const firstDataSector: nat
    const firstFatSector: nat
    var disk: seq<seq<Byte>>

    /** FAT_init once the geometry is known: the first FAT sector is cached. */
    constructor (disk: seq<seq<Byte>>, sectorPerCluster: nat, firstFatSector: nat, firstDataSector: nat,
                 totalClusters: nat, ghost clusters: nat)
      requires 2 <= totalClusters && 2 <= clusters <= 341 && 1 <= sectorPerCluster
      requires |disk| < 0x1_0000_0000 && Sectors(disk)
      requires firstFatSector < firstDataSector && firstDataSector + (clusters - 2) * sectorPerCluster <= |disk|
      ensures Valid() && fresh(fat) && fresh(fat.table) && this.disk == disk
      ensures fat.ty == Fat12 && fat.clusters == clusters && fat.totalClusters == totalClusters
      ensures this.sectorPerCluster == sectorPerCluster
      ensures this.firstFatSector == firstFatSector && this.firstDataSector == firstDataSector
    {
      this.disk, this.sectorPerCluster := disk, sectorPerCluster;
      this.firstFatSector, this.firstDataSector := firstFatSector, firstDataSector;
      SectorHolds(disk, clusters, sectorPerCluster, firstDataSector, firstFatSector);
      fat := new Cache(Fat12, clusters, totalClusters, disk[firstFatSector]);
      new;
      hide Cache.Valid;
      LayoutNow();
    }

    lemma LayoutNow()
      requires fat.Valid() && fat.ty == Fat12 && fat.table.Length == 512 && 1 <= sectorPerCluster
      requires firstFatSector < firstDataSector <= |disk| < 0x1_0000_0000 && 2 <= fat.clusters
      requires firstDataSector + (fat.clusters - 2) * sectorPerCluster <= |disk|
      requires Sectors(disk) && disk[firstFatSector] == fat.table[..]
      ensures Valid()
    {
    }

    ghost predicate Layout(sectors: nat) {
      && fat.ty == Fat12 && fat.table.Length == 512 && 1 <= sectorPerCluster
      && firstFatSector < firstDataSector <= sectors < 0x1_0000_0000
      && 2 <= fat.clusters && firstDataSector + (fat.clusters - 2) * sectorPerCluster <= sectors
    }

    /** The cached FAT sector is the one on disk; all clusters lie on the disk, behind the FAT. */
    ghost predicate Valid()
      reads this, fat.table
    {
      && fat.Valid() && Layout(|disk|) && Sectors(disk)
      && firstFatSector < |disk| && disk[firstFatSector] == fat.table[..]
    }

    lemma Parts()
      requires Valid()
      ensures fat.Valid() && Layout(|disk|) && Sectors(disk)
      ensures firstFatSector < |disk| && fat.ty == Fat12 && fat.clusters <= 342 && fat.Limit() <= fat.clusters
    {
      fat.SmallSector();
    }

    lemma WrittenThrough(before: seq<seq<Byte>>)
      requires fat.Valid() && Layout(|before|) && Sectors(before)
      requires firstFatSector < |before| && disk == before[firstFatSector := fat.table[..]]
      ensures Valid()
    {
    }

    function Lba(c: nat): Word {
      Cluster2Lba(c, sectorPerCluster, firstDataSector)
    }

    /** The clusters from 2 on lie one after the other from the first data sector on. */
    lemma LbaPlace(c: nat, sectors: nat)
      requires Layout(sectors) && 2 <= c < fat.clusters < 0x1_0000_0000
      ensures Lba(c) == firstDataSector + (c - 2) * sectorPerCluster
      ensures firstDataSector <= Lba(c) && Lba(c) + sectorPerCluster <= sectors
    {
      LbaValue(c, fat.clusters, sectorPerCluster, firstDataSector, sectors);
    }

    lemma LbaInside(c: nat)
      requires Valid() && 2 <= c < fat.clusters
      ensures firstFatSector < Lba(c) && Lba(c) + sectorPerCluster <= |disk| && Lba(c) < |disk| && |disk[Lba(c)]| == 512
    {
      fat.SmallSector();
      LbaValue(c, fat.clusters, sectorPerCluster, firstDataSector, |disk|);
    }

    method ReadSector(lba: nat, out: array<Byte>)
      requires lba < |disk| && |disk[lba]| == 512 && out.Length == 512
      modifies out
      ensures out[..] == disk[lba]
    {
      for i := 0 to 512
        invariant out[..i] == disk[lba][..i]
      {
        out[i] := disk[lba][i];
      }
    }

    method WriteSector(lba: nat, input: array<Byte>)
      requires lba < |disk|
      modifies this`disk
      ensures disk == old(disk)[lba := input[..]]
    {
      disk := disk[lba := input[..]];
    }

    /** update_fat: the cached sector goes to the disk after every change. */
    method UpdateFat(c: nat, next: Word)
      requires Valid() && c < fat.clusters
      modifies this`disk, fat.table
      ensures Valid() && fat.Next() == old(fat.Next())[c := Widened(Fat12, next % 4096)]
      ensures disk == old(disk)[firstFatSector := fat.table[..]]
    {
      Parts();
      hide Valid, Layout, Sectors, Cache.Valid, Cache.Next, InTable, Update, Widened;
      fat.UpdateFat(c, next);
      WriteSector(firstFatSector, fat.table);
      WrittenThrough(old(disk));
    }

    /** The memcpy and memset into the sector buffer: the j-th block of the data. */
    method FillBuffer(buffer: array<Byte>, data: seq<Byte>, ghost j: nat, input: nat, count: nat, writeSize: nat)
      requires buffer.Length == 512 && input == 512 * j && input + count == |data| && count > 0
      requires writeSize == if count < 512 then count else 512
      modifies buffer
      ensures buffer[..] == Block(data, j)
    {
      for i := 0 to writeSize
        invariant forall k | 0 <= k < i :: buffer[k] == data[input + k]
      {
        buffer[i] := data[input + i];
      }
      if count != 512 {
        for i := writeSize to 512
          invariant forall k | 0 <= k < writeSize :: buffer[k] == data[input + k]
          invariant forall k | writeSize <= k < i :: buffer[k] == 0
        {
          buffer[i] := 0;
        }
      }
    }

    /** The step of write_file behind a block: to the next cluster, appending one at the end. */
    method Advance(current: nat, ghost chains: seq<seq<nat>>, ghost w: nat, ghost i: nat) returns (cur: nat)
      requires Valid() && WellFormed(fat.Next(), chains) && w < |chains| && i < |chains[w]| && current == chains[w][i]
      requires i + 1 == |chains[w]| ==> !NoneFree(fat.Next(), fat.Limit())
      modifies this`disk, fat.table
      ensures Valid()
      ensures i + 1 < |chains[w]|
        ==> cur == chains[w][i + 1] && fat.table[..] == old(fat.table[..]) && disk == old(disk)
      ensures i + 1 == |chains[w]| ==>
        Appends(old(fat.Next()), fat.Next(), fat.Limit(), chains, w, cur)
          && disk == old(disk)[firstFatSector := fat.table[..]]
    {
      Parts();
      LinkKind(fat.Next(), chains[w], i);
      hide Valid, Layout, Sectors, Cache.Valid, Cache.Next, InTable, Update, WellFormed, Linked, Appends;
      cur := fat.NextCluster(current);
      if cur >= 0x0FF8 {
        ghost var links := fat.Next();
        cur := fat.FindFreeCluster();
        MarksRead(Fat12, cur, 0x0FF8);
        AppendsNow(links, fat.Limit(), chains, w, cur);
        UpdateFat(current, cur);
        UpdateFat(cur, 0x0FF8);
      }
    }

    ghost predicate SameButFat(d0: seq<seq<Byte>>, d: seq<seq<Byte>>) {
      |d| == |d0| && forall lba | 0 <= lba < |d| && lba != firstFatSector :: d[lba] == d0[lba]
    }

    /** Advance, with what it does to the chains and to the number of free clusters. */
    method StepOn(current: nat, ghost chains: seq<seq<nat>>, ghost w: nat, ghost i: nat)
      returns (cur: nat, ghost chains': seq<seq<nat>>)
      requires Valid() && WellFormed(fat.Next(), chains) && w < |chains| && i < |chains[w]| && current == chains[w][i]
      requires FreeClusters() + |chains[w]| >= i + 2
      modifies this`disk, fat.table
      ensures Valid() && WellFormed(fat.Next(), chains') && Grew(chains, chains', w)
      ensures i + 1 < |chains'[w]| == Max(|chains[w]|, i + 2) && cur == chains'[w][i + 1]
      ensures FreeClusters() + |chains'[w]| == old(FreeClusters()) + |chains[w]|
      ensures SameButFat(old(disk), disk)
    {
      Parts();
      NoneFreeCount(fat.Next(), fat.Limit());
      ghost var links := fat.Next();
      LinkValue(links, chains[w], i);
      chains' := chains;
      hide Valid, Layout, Sectors, Cache.Valid, Cache.Next, WellFormed, IsChain, NoneFree, Appends;
      cur := Advance(current, chains, w, i);
      if i + 1 == |chains[w]| {
        chains' := chains[w := chains[w] + [cur]];
        AppendsFacts(links, fat.Next(), fat.Limit(), chains, w, cur);
      }
    }

    // ---- what is on the disk -------------------------------------------------------------------------

    ghost predicate StoredAt(d: seq<seq<Byte>>, used: seq<nat>, data: seq<Byte>, j: nat)
      requires j < |used|
    {
      Lba(used[j]) < |d| && 512 * j <= |data| && d[Lba(used[j])] == Block(data, j)
    }

    /** The clusters used hold the first blocks of the data, one each. */
    ghost predicate Stored(d: seq<seq<Byte>>, used: seq<nat>, data: seq<Byte>) {
      forall j | 0 <= j < |used| :: StoredAt(d, used, data, j)
    }

    ghost predicate Touched(lba: nat, used: seq<nat>) {
      exists c | c in used :: lba == Lba(c)
    }

    /** Apart from the FAT sector, only the first sector of each of these clusters differs. */
    ghost predicate OnlyThese(d0: seq<seq<Byte>>, d: seq<seq<Byte>>, used: seq<nat>) {
      |d| == |d0| && forall lba | 0 <= lba < |d| && lba != firstFatSector && !Touched(lba, used) :: d[lba] == d0[lba]
    }

    ghost predicate ClustersOf(used: seq<nat>) {
      forall c | c in used :: 2 <= c < fat.clusters
    }

    lemma LbaApart(c: nat, d: nat, sectors: nat)
      requires Layout(sectors) && 2 <= c < fat.clusters && 2 <= d < fat.clusters < 0x1_0000_0000 && c != d
      ensures Lba(c) != Lba(d)
    {
      LbasApart(c, d, fat.clusters, sectorPerCluster, firstDataSector, sectors);
    }

    lemma StoredNext(d0: seq<seq<Byte>>, d: seq<seq<Byte>>, used: seq<nat>, c: nat, data: seq<Byte>)
      requires Layout(|d|) && fat.clusters < 0x1_0000_0000 && ClustersOf(used) && 2 <= c < fat.clusters && c !in used
      requires Stored(d, used, data) && OnlyThese(d0, d, used)
      requires 512 * |used| <= |data| && Lba(c) < |d|
      ensures ClustersOf(used + [c])
      ensures Stored(d[Lba(c) := Block(data, |used|)], used + [c], data)
      ensures OnlyThese(d0, d[Lba(c) := Block(data, |used|)], used + [c])
    {
      var d', us := d[Lba(c) := Block(data, |used|)], used + [c];
      forall j | 0 <= j < |us| ensures StoredAt(d', us, data, j) {
        if j < |used| {
          assert StoredAt(d, used, data, j) && used[j] in used;
          LbaApart(used[j], c, |d|);
        }
      }
      hide Block, Cluster2Lba, Stored, Layout;
      forall lba | 0 <= lba < |d'| && lba != firstFatSector && !Touched(lba, us) ensures d'[lba] == d0[lba] {
        assert c in us && lba != Lba(c);
        assert !Touched(lba, used);
      }
    }

    /** Writing the FAT sector alone disturbs none of this. */
    lemma StoredBesideFat(d0: seq<seq<Byte>>, d: seq<seq<Byte>>, d': seq<seq<Byte>>, used: seq<nat>, data: seq<Byte>)
      requires Stored(d, used, data) && OnlyThese(d0, d, used) && SameButFat(d, d')
      requires Layout(|d|) && fat.clusters < 0x1_0000_0000 && ClustersOf(used)
      ensures Stored(d', used, data) && OnlyThese(d0, d', used)
    {
      forall j | 0 <= j < |used| ensures StoredAt(d', used, data, j) {
        assert StoredAt(d, used, data, j) && used[j] in used;
        LbaValue(used[j], fat.clusters, sectorPerCluster, firstDataSector, |d|);
      }
    }

    /** This sector holds the data from this byte on, and zeros behind its end. */
    ghost predicate SectorHas(d: seq<seq<Byte>>, lba: int, data: seq<Byte>, from: nat) {
      && 0 <= lba < |d| && |d[lba]| == 512
      && forall x | 0 <= x < 512 :: d[lba][x] == if from + x < |data| then data[from + x] else 0
    }

    /** The j-th of these clusters holds the data from byte 512 * j on, in the first of its sectors. */
    ghost predicate Written(d: seq<seq<Byte>>, cs: seq<nat>, data: seq<Byte>) {
      forall j | 0 <= j < |cs| :: SectorHas(d, firstDataSector + (cs[j] - 2) * sectorPerCluster, data, 512 * j)
    }

    /** In front of the data area, no sector but the first of the FAT has changed. */
    ghost predicate FrontKept(d0: seq<seq<Byte>>, d: seq<seq<Byte>>) {
      |d| == |d0| && forall lba | 0 <= lba < firstDataSector && lba < |d| && lba != firstFatSector :: d[lba] == d0[lba]
    }

    lemma WrittenNow(d0: seq<seq<Byte>>, d: seq<seq<Byte>>, used: seq<nat>, data: seq<Byte>)
      requires Stored(d, used, data) && OnlyThese(d0, d, used) && ClustersOf(used)
      requires Layout(|d|) && fat.clusters < 0x1_0000_0000
      ensures Written(d, used, data) && FrontKept(d0, d)
    {
      forall j | 0 <= j < |used|
        ensures SectorHas(d, firstDataSector + (used[j] - 2) * sectorPerCluster, data, 512 * j)
      {
        assert StoredAt(d, used, data, j) && used[j] in used;
        LbaPlace(used[j], |d|);
        BlockBytes(data, j);
        hide Block, Lba, Layout;
      }
      forall lba | 0 <= lba < firstDataSector && lba < |d| && lba != firstFatSector ensures d[lba] == d0[lba] {
        forall c | c in used ensures lba != Lba(c) { LbaPlace(c, |d|); }
      }
    }

    // ---- write_file -------------------------------------------------------------------------------------

    /** One round of write_file's loop: a block goes to the current cluster, then on to the next. */
    method WriteBlock(file: File, data: seq<Byte>, input: nat, count: nat, ghost d0: seq<seq<Byte>>,
                      ghost chains: seq<seq<nat>>, ghost w: nat, ghost i: nat, ghost used: seq<nat>)
      returns (cur: nat, ghost chains': seq<seq<nat>>)
      requires Valid() && WellFormed(fat.Next(), chains) && w < |chains| && i + |used| < |chains[w]|
      requires file.currentCluster == chains[w][i + |used|] && used == chains[w][i..i + |used|]
      requires FreeClusters() + |chains[w]| >= i + |used| + 2
      requires file.buffer.Length == 512 && file.buffer != fat.table
      requires input == 512 * |used| && input + count == |data| && count > 0
      requires Stored(disk, used, data) && OnlyThese(d0, disk, used)
      modifies this`disk, fat.table, file.buffer
      ensures Valid() && WellFormed(fat.Next(), chains') && Grew(chains, chains', w)
      ensures i + |used| + 1 < |chains'[w]| == Max(|chains[w]|, i + |used| + 2) && cur == chains'[w][i + |used| + 1]
      ensures FreeClusters() + |chains'[w]| == old(FreeClusters()) + |chains[w]|
      ensures Stored(disk, used + [file.currentCluster], data) && OnlyThese(d0, disk, used + [file.currentCluster])
    {
      ghost var c, links := file.currentCluster, fat.Next();
      Parts();
      ChainFacts(links, chains, w, i, used);
      LbaInside(c);
      hide *;
      var writeSize := if count < 512 then count else 512;
      FillBuffer(file.buffer, data, |used|, input, count, writeSize);
      ghost var d1 := disk;
      WriteSector(Lba(file.currentCluster), file.buffer);
      StoredNext(d0, d1, used, c, data);
      DataWritten(d1, Lba(c), file.buffer[..]);
      ghost var d2 := disk;
      Parts();
      cur, chains' := StepOn(file.currentCluster, chains, w, i + |used|);
      StoredBesideFat(d0, d2, disk, used + [c], data);
    }

    lemma DataWritten(before: seq<seq<Byte>>, lba: nat, b: seq<Byte>)
      requires fat.Valid() && Layout(|before|) && Sectors(before) && firstFatSector < |before|
      requires before[firstFatSector] == fat.table[..]
      requires firstFatSector < lba < |before| && |b| == 512 && disk == before[lba := b]
      ensures Valid()
    {
    }

    lemma ChainFacts(links: Links, chains: seq<seq<nat>>, w: nat, i: nat, used: seq<nat>)
      requires fat.Valid() && WellFormed(links, chains) && |links| == fat.clusters
      requires w < |chains| && i + |used| < |chains[w]| && used == chains[w][i..i + |used|]
      ensures ClustersOf(used) && 2 <= chains[w][i + |used|] < fat.clusters && chains[w][i + |used|] !in used
    {
      var cs := chains[w];
      LinkKind(links, cs, i + |used|);
      forall j | 0 <= j < |used| ensures 2 <= used[j] < fat.clusters && used[j] != cs[i + |used|] {
        LinkKind(links, cs, i + j);
        ChainDistinct(links, cs, i + j, i + |used|);
      }
    }

    /**
     * write_file, from the i-th cluster of file w on: block after block goes to the successive
     * clusters of the file, whose chain is extended by free clusters - one past the last block
     * written.  No other chain changes, and no other sector of the disk apart from the FAT.
     */
    method WriteFile(file: File, data: seq<Byte>, ghost chains: seq<seq<nat>>, ghost w: nat, ghost i: nat)
      returns (ghost chains': seq<seq<nat>>)
      requires Valid() && WellFormed(fat.Next(), chains) && w < |chains| && i < |chains[w]|
      requires file.currentCluster == chains[w][i] && |data| < 0x1_0000_0000
      requires file.buffer.Length == 512 && file.buffer != fat.table
      requires FreeClusters() + |chains[w]| >= i + BlockCount(|data|) + 1
      modifies this`disk, fat.table, file`position, file`currentCluster, file.buffer
      ensures Valid() && WellFormed(fat.Next(), chains') && Grew(chains, chains', w)
      ensures i + BlockCount(|data|) < |chains'[w]| == Max(|chains[w]|, i + BlockCount(|data|) + 1)
      ensures FreeClusters() + |chains'[w]| == old(FreeClusters()) + |chains[w]|
      ensures file.currentCluster == chains'[w][i + BlockCount(|data|)]
      ensures Moved(old(file.position), |data|, file.position)
      ensures Stored(disk, chains'[w][i..i + BlockCount(|data|)], data)
      ensures OnlyThese(old(disk), disk, chains'[w][i..i + BlockCount(|data|)])
      ensures Written(disk, chains'[w][i..i + (|data| + 511) / 512], data) && FrontKept(old(disk), disk)
    {
      hide *;
      ghost var d0, used: seq<nat> := disk, [];
      var count: nat, input: nat := |data|, 0;
      chains' := chains;
      Parts();
      Start(d0, data, chains, w, i, file.position);
      while count > 0
        invariant input + count == |data| && Blocks(|used|, input, count)
        invariant Valid() && fat.Valid() && WellFormed(fat.Next(), chains') && Grew(chains, chains', w)
          && |chains'| == |chains|
        invariant i + |used| < |chains'[w]| == Max(|chains[w]|, i + |used| + 1)
        invariant used == chains'[w][i..i + |used|] && file.currentCluster == chains'[w][i + |used|]
        invariant FreeClusters() + |chains'[w]| == old(FreeClusters()) + |chains[w]|
        invariant Stored(disk, used, data) && OnlyThese(d0, disk, used)
        invariant Moved(old(file.position), input, file.position)
      {
        BlocksLeft(|used|, input, count, |data|);
        var writeSize := if count < 512 then count else 512;
        ghost var before, c := chains', file.currentCluster;
        var cur;
        cur, chains' := WriteBlock(file, data, input, count, d0, before, w, i, used);
        Parts();
        GrewTwice(chains, before, chains', w);
        BlockDone(|used|, input, count, before[w], chains'[w], i, c, used);
        MaxStep(|chains[w]|, i + |used|);
        MovedOn(old(file.position), input, file.position, writeSize);
        count, input := count - writeSize, input + writeSize;
        file.position := Wrap(file.position as int + writeSize);
        file.currentCluster := cur;
        used := used + [c];
      }
      BlocksDone(|used|, input, |data|);
      Parts();
      BlocksOf(|data|);
      ChainFacts(fat.Next(), chains', w, i, used);
      WrittenNow(d0, disk, used, data);
    }

    lemma Start(d0: seq<seq<Byte>>, data: seq<Byte>, chains: seq<seq<nat>>, w: nat, i: nat, p: Word)
      requires w < |chains| && i < |chains[w]|
      ensures Stored(d0, [], data) && OnlyThese(d0, d0, []) && Grew(chains, chains, w)
      ensures Blocks(0, 0, |data|) && |chains[w]| == Max(|chains[w]|, i + 1)
      ensures Moved(p, 0, p)
    {
    }

    /** The cluster a seek to this position stops at: the one before, at positive multiples of 512. */
    function SeekIndex(position: Word): nat { if position == 0 then 0 else (position - 1) / 512 }

    method SeekFile(file: File, position: Word, ghost cs: seq<nat>)
      requires fat.Valid() && IsChain(fat.Next(), cs) && file.firstCluster == cs[0] && fat.clusters <= 0x0FF8
      modifies file`position, file`currentCluster
      ensures file.position == position
      ensures SeekIndex(position) < |cs| ==> file.currentCluster == cs[SeekIndex(position)]
      ensures SeekIndex(position) >= |cs| ==> file.currentCluster >= 0x0FF8
    {
      file.position := position;
      file.currentCluster := file.firstCluster;
      var left: Word := position;
      ghost var k := 0;
      LinkKind(fat.Next(), cs, 0);
      hide IsChain;
      while left > 512 && file.currentCluster < 0x0FF8
        invariant file.position == position
        invariant k <= |cs| && left + 512 * k == position && (position > 0 ==> left > 0)
        invariant if k < |cs| then file.currentCluster == cs[k] < fat.clusters else file.currentCluster >= 0x0FF8
      {
        LinkKind(fat.Next(), cs, k);
        file.currentCluster := fat.NextCluster(file.currentCluster);
        left := left - 512;
        k := k + 1;
      }
      SeekEnd(position, left, k);
    }

    lemma SeekEnd(position: Word, left: Word, k: nat)
      requires left + 512 * k == position && (position > 0 ==> left > 0)
      ensures left <= 512 ==> k == SeekIndex(position)
      ensures k <= SeekIndex(position)
    {
    }

    /** So a seek finds the cluster of the position unless it is a positive multiple of 512. */
    lemma SeekExact(position: Word)
      ensures SeekIndex(position) == position / 512 <==> position == 0 || position % 512 != 0
    {
    }

    // ---- read_file ---------------------------------------------------------------------------------------

    /** Byte x of a file from its i-th cluster on. */
    ghost function ByteAt(d: seq<seq<Byte>>, cs: seq<nat>, i: nat, x: nat): Byte {
      if i + x / 512 < |cs| && Lba(cs[i + x / 512]) < |d| && |d[Lba(cs[i + x / 512])]| == 512
      then d[Lba(cs[i + x / 512])][x % 512] else 0
    }

    ghost predicate Prefix(d: seq<seq<Byte>>, cs: seq<nat>, i: nat, out: seq<Byte>) {
      forall x | 0 <= x < |out| :: out[x] == ByteAt(d, cs, i, x)
    }

    lemma ReadStart(d: seq<seq<Byte>>, cs: seq<nat>, i: nat, want: nat, p: Word)
      requires i < |cs|
      ensures AtBlock(cs, i + 0, cs[i])
      ensures Prefix(d, cs, i, []) && ReadSoFar(0, want, want, 0)
      ensures Moved(p, 0, p)
    {
    }

    /** The current cluster of a chain lies on the disk, and its entry leads to the next one. */
    lemma BlockReadable(cs: seq<nat>, k: nat, cur: nat)
      requires Valid() && IsChain(fat.Next(), cs) && AtBlock(cs, k, cur) && cur < 0x0FF8
      ensures fat.Valid() && k < |cs| && cur == cs[k] && cur < fat.clusters
      ensures Lba(cur) < |disk| && |disk[Lba(cur)]| == 512
      ensures AtBlock(cs, k + 1, fat.Next()[cur])
    {
      LinkKind(fat.Next(), cs, k);
      LbaInside(cur);
    }

    /** One round of read_file's loop: the sector of the current cluster, then on to the next. */
    method ReadBlock(file: File, nbRead: nat, ghost cs: seq<nat>, ghost k: nat) returns (bytes: seq<Byte>)
      requires Valid() && IsChain(fat.Next(), cs) && AtBlock(cs, k, file.currentCluster) && file.currentCluster < 0x0FF8
      requires nbRead <= 512 && file.buffer.Length == 512 && file.buffer != fat.table
      modifies file`currentCluster, file.buffer
      ensures Valid() && AtBlock(cs, k + 1, file.currentCluster)
      ensures k < |cs| && Lba(cs[k]) < |disk| && |disk[Lba(cs[k])]| == 512 && bytes == disk[Lba(cs[k])][..nbRead]
    {
      BlockReadable(cs, k, file.currentCluster);
      hide *;
      ReadSector(Lba(file.currentCluster), file.buffer);
      bytes := file.buffer[..nbRead];
      file.currentCluster := fat.NextCluster(file.currentCluster);
    }

    lemma ReadStep(got: nat, count: nat, want: nat, k: nat)
      requires ReadSoFar(got, count, want, k) && count > 0
      ensures got == 512 * k
      ensures var nb := if count < 512 then count else 512; ReadSoFar(got + nb, count - nb, want, k + 1)
    {
    }

    lemma PrefixNext(d: seq<seq<Byte>>, cs: seq<nat>, i: nat, k: nat, out: seq<Byte>, nb: nat)
      requires Prefix(d, cs, i, out) && |out| == 512 * k && nb <= 512 && i + k < |cs|
      requires Lba(cs[i + k]) < |d| && |d[Lba(cs[i + k])]| == 512
      ensures Prefix(d, cs, i, out + d[Lba(cs[i + k])][..nb])
    {
      hide Cluster2Lba;
      var s := d[Lba(cs[i + k])];
      forall x | 512 * k <= x < 512 * k + nb ensures s[x - 512 * k] == ByteAt(d, cs, i, x) {
        assert x / 512 == k && x % 512 == x - 512 * k;
      }
    }

    lemma ReadEnd(cs: seq<nat>, i: nat, got: nat, count: nat, want: nat, k: nat, cur: nat)
      requires Valid() && IsChain(fat.Next(), cs) && AtBlock(cs, i + k, cur) && ReadSoFar(got, count, want, k)
        && i < |cs|
      requires count == 0 || cur >= 0x0FF8
      ensures got == Min(want, 512 * (|cs| - i)) && k == BlockCount(got)
    {
      Parts();
      if i + k < |cs| { LinkKind(fat.Next(), cs, i + k); }
    }

    /** read_file at a block boundary: the next bytes of the file, as far as size and chain reach. */
    method ReadFile(file: File, n: Word, ghost cs: seq<nat>, ghost i: nat) returns (out: seq<Byte>)
      requires Valid() && IsChain(fat.Next(), cs) && i < |cs| && file.currentCluster == cs[i]
      requires file.position % 512 == 0 && file.buffer.Length == 512 && file.buffer != fat.table
      modifies file`position, file`currentCluster, file.buffer
      ensures var want := Min(n, Wrap(file.size - old(file.position)));
        |out| == Min(want, 512 * (|cs| - i)) && Prefix(disk, cs, i, out)
      ensures Moved(old(file.position), |out|, file.position)
      ensures AtBlock(cs, i + BlockCount(|out|), file.currentCluster)
    {
      Parts();
      hide *;
      var want := Min(n, Wrap(file.size as int - file.position));
      var count := want;
      out := [];
      ghost var k, p0 := 0, file.position;
      ReadStart(disk, cs, i, want, file.position);
      while count > 0 && file.currentCluster < 0x0FF8
        invariant Valid() && ReadSoFar(|out|, count, want, k) && AtBlock(cs, i + k, file.currentCluster)
        invariant Prefix(disk, cs, i, out)
        invariant Moved(p0, |out|, file.position)
      {
        ReadStep(|out|, count, want, k);
        var nbRead := if count < 512 then count else 512;
        var bytes := ReadBlock(file, nbRead, cs, i + k);
        PrefixNext(disk, cs, i, k, out, nbRead);
        MovedOn(p0, |out|, file.position, nbRead);
        out := out + bytes;
        file.position := Wrap(file.position as int + nbRead);
        count := count - nbRead;
        k := k + 1;
      }
      ReadEnd(cs, i, |out|, count, want, k, file.currentCluster);
    }

    // ---- round trip ----------------------------------------------------------------------------------------

    lemma ReadBack(d: seq<seq<Byte>>, cs: seq<nat>, data: seq<Byte>, out: seq<Byte>)
      requires Sectors(d) && BlockCount(|data|) <= |cs| && |out| <= |data|
      requires Stored(d, cs[0..BlockCount(|data|)], data) && Prefix(d, cs, 0, out)
      ensures out == data[..|out|]
    {
      var used := cs[0..BlockCount(|data|)];
      hide Cluster2Lba, Block;
      forall x | 0 <= x < |out| ensures out[x] == data[x] {
        BlockByte(data, x);
        assert StoredAt(d, used, data, x / 512) && used[x / 512] == cs[0 + x / 512];
        assert out[x] == ByteAt(d, cs, 0, x);
      }
    }

    /** Sector s of cluster c is not one the writer of other clusters wrote. */
    lemma ClusterKept(d0: seq<seq<Byte>>, d: seq<seq<Byte>>, used: seq<nat>, c: nat, s: nat)
      requires Layout(|d|) && OnlyThese(d0, d, used) && ClustersOf(used) && fat.clusters < 0x1_0000_0000
      requires 2 <= c < fat.clusters && c !in used && s < sectorPerCluster
      ensures Lba(c) + s < |d| == |d0| && d[Lba(c) + s] == d0[Lba(c) + s]
    {
      LbaValue(c, fat.clusters, sectorPerCluster, firstDataSector, |d|);
      forall u | u in used ensures Lba(c) + s != Lba(u) {
        LbasApart(c, u, fat.clusters, sectorPerCluster, firstDataSector, |d|);
      }
    }

    /** Every sector of a cluster of another file is as before. */
    ghost predicate OthersKept(d0: seq<seq<Byte>>, d: seq<seq<Byte>>, chains: seq<seq<nat>>, w: nat) {
      forall j, c, s | 0 <= j < |chains| && j != w && c in chains[j] && 0 <= s < sectorPerCluster ::
        SectorKept(d0, d, Lba(c), s)
    }

    ghost predicate SectorKept(d0: seq<seq<Byte>>, d: seq<seq<Byte>>, lba: nat, s: nat) {
      lba + s < |d| == |d0| && d[lba + s] == d0[lba + s]
    }

    lemma OthersKeptNow(d0: seq<seq<Byte>>, chains: seq<seq<nat>>, w: nat, k: nat)
      requires Valid() && WellFormed(fat.Next(), chains) && w < |chains| && k <= |chains[w]|
      requires OnlyThese(d0, disk, chains[w][0..k])
      ensures OthersKept(d0, disk, chains, w)
    {
      Parts();
      var used := chains[w][0..k];
      ClusterFacts(chains, w);
      assert ClustersOf(used) by { assert forall u | u in used :: u in chains[w]; }
      hide Valid, OnlyThese, Layout, Cluster2Lba, WellFormed, IsChain;
      forall j, c, s | 0 <= j < |chains| && j != w && c in chains[j] && 0 <= s < sectorPerCluster
        ensures SectorKept(d0, disk, Lba(c), s)
      {
        ClusterFacts(chains, j);
        FilesApart(fat.Next(), chains, j, w, c);
        ClusterKept(d0, disk, used, c, s);
      }
    }

    lemma FilesApart(links: Links, chains: seq<seq<nat>>, j: nat, w: nat, c: nat)
      requires WellFormed(links, chains) && j < |chains| && w < |chains| && j != w && c in chains[j]
      ensures c !in chains[w]
    {
      assert Disjoint(chains[j], chains[w]);
    }

    lemma ClusterFacts(chains: seq<seq<nat>>, j: nat)
      requires fat.Valid() && WellFormed(fat.Next(), chains) && j < |chains|
      ensures ClustersOf(chains[j])
    {
      forall i | 0 <= i < |chains[j]| ensures 2 <= chains[j][i] < fat.clusters {
        LinkKind(fat.Next(), chains[j], i);
      }
    }

    /**
     * The round trip: data written to a file from its start, read back after a seek to 0, is
     * the data, cut off at the recorded size; no other chain and no sector of another file
     * changes, whatever the file and the disk held, as long as enough clusters are free.
     */
    method WriteSeekRead(file: File, data: seq<Byte>, ghost chains: seq<seq<nat>>, ghost w: nat)
      returns (out: seq<Byte>, ghost chains': seq<seq<nat>>)
      requires Valid() && WellFormed(fat.Next(), chains) && w < |chains| && chains[w] != []
      requires file.position == 0 && file.currentCluster == file.firstCluster == chains[w][0] && |data| < 0x1_0000_0000
      requires file.buffer.Length == 512 && file.buffer != fat.table
      requires FreeClusters() + |chains[w]| >= BlockCount(|data|) + 1
      modifies this`disk, fat.table, file`position, file`currentCluster, file.buffer
      ensures out == data[..Min(|data|, file.size)]
      ensures Valid() && WellFormed(fat.Next(), chains') && Grew(chains, chains', w)
      ensures OthersKept(old(disk), disk, chains, w) && FrontKept(old(disk), disk)
    {
      ghost var d0, k := disk, BlockCount(|data|);
      hide *;
      Parts();
      chains' := WriteFile(file, data, chains, w, 0);
      Parts();
      Grown(chains, chains', w, fat.Next());
      OthersKeptNow(d0, chains', w, k);
      SeekFile(file, 0, chains'[w]);
      out := ReadFile(file, |data|, chains'[w], 0);
      ReadsAll(|data|, file.size, |chains'[w]|);
      ReadBack(disk, chains'[w], data, out);
      OthersSame(d0, disk, chains, chains', w);
    }

    lemma OthersSame(d0: seq<seq<Byte>>, d: seq<seq<Byte>>, chains: seq<seq<nat>>, chains': seq<seq<nat>>, w: nat)
      requires Grew(chains, chains', w) && OthersKept(d0, d, chains', w)
      ensures OthersKept(d0, d, chains, w)
    {
      hide SectorKept, Cluster2Lba;
      forall j, c, s | 0 <= j < |chains| && j != w && c in chains[j] && 0 <= s < sectorPerCluster
        ensures SectorKept(d0, d, Lba(c), s)
      {
        assert c in chains'[j];
      }
    }

    ghost function FreeClusters(): nat
      requires fat.Valid()
      reads fat.table
    {
      FreeCount(fat.Next(), fat.Limit())
    }
  }

  lemma ReadsAll(n: nat, size: Word, clusters: nat)
    requires BlockCount(n) + 1 <= clusters
    ensures Min(Min(n, Wrap(size - 0)), 512 * (clusters - 0)) == Min(n, size) <= n
  {
  }

  lemma Grown(chains: seq<seq<nat>>, chains': seq<seq<nat>>, w: nat, links: Links)
    requires Grew(chains, chains', w) && chains[w] != [] && WellFormed(links, chains')
    ensures w < |chains'| && chains'[w] != [] && chains'[w][0] == chains[w][0] && IsChain(links, chains'[w])
  {
  }

  /** The position has moved by n bytes, in 32-bit arithmetic. */
  ghost predicate Moved(from: Word, n: nat, position: Word) {
    position == Wrap(from + n)
  }

  lemma MovedOn(from: Word, n: nat, position: Word, m: nat)
    requires Moved(from, n, position)
    ensures Moved(from, n + m, Wrap(position as int + m))
  {
    WrapAdd(from + n, m);
  }

  // ---- counting blocks -------------------------------------------------------------------------------------

  /** k blocks have been written: input bytes, with count bytes to go. */
  ghost predicate Blocks(k: nat, input: nat, count: nat) {
    if count > 0 then input == 512 * k else k == BlockCount(input)
  }

  lemma BlocksLeft(k: nat, input: nat, count: nat, n: nat)
    requires Blocks(k, input, count) && count > 0 && input + count == n
    ensures input == 512 * k && k + 1 <= BlockCount(n)
  {
  }

  lemma BlockDone(k: nat, input: nat, count: nat, cs: seq<nat>, cs': seq<nat>, i: nat, c: nat, used: seq<nat>)
    requires Blocks(k, input, count) && count > 0 && cs <= cs' && i + k < |cs| && i + k + 1 < |cs'|
    requires |used| == k && used == cs[i..i + k] && c == cs[i + k]
    ensures var size := if count < 512 then count else 512; Blocks(k + 1, input + size, count - size)
    ensures used + [c] == cs'[i..i + k + 1]
  {
  }

  lemma BlocksDone(k: nat, input: nat, n: nat)
    requires Blocks(k, input, 0) && input == n
    ensures k == BlockCount(n)
  {
  }

  lemma MaxStep(a: nat, b: nat)
    ensures Max(Max(a, b + 1), b + 2) == Max(a, b + 2)
  {
  }

  /** The current cluster is the k-th of the chain, or an end mark behind the last one. */
  ghost predicate AtBlock(cs: seq<nat>, k: nat, cur: nat) {
    k <= |cs| && if k < |cs| then cur == cs[k] else cur >= 0x0FF8
  }

  ghost predicate ReadSoFar(got: nat, count: nat, want: nat, k: nat) {
    got + count == want && (if count > 0 then got == 512 * k else k == BlockCount(got))
  }

  ghost predicate Grew(chains: seq<seq<nat>>, chains': seq<seq<nat>>, w: nat) {
    && w < |chains| == |chains'| && chains[w] <= chains'[w]
    && forall j | 0 <= j < |chains| && j != w :: chains'[j] == chains[j]
  }

  function Max(a: nat, b: nat): nat { if a < b then b else a }

  lemma AppendsFacts(links: Links, links': Links, limit: nat, chains: seq<seq<nat>>, w: nat, cur: nat)
    requires Appends(links, links', limit, chains, w, cur) && links[chains[w][|chains[w]| - 1]] >= 2
    ensures limit <= |links| == |links'| && WellFormed(links', chains[w := chains[w] + [cur]])
    ensures FreeCount(links', limit) == FreeCount(links, limit) - 1
  {
    FreeCountLinked(links, limit, chains[w][|chains[w]| - 1], cur);
  }

  lemma GrewTwice(a: seq<seq<nat>>, b: seq<seq<nat>>, c: seq<seq<nat>>, w: nat)
    requires Grew(a, b, w) && Grew(b, c, w)
    ensures Grew(a, c, w) && |c| == |a| && b[w] <= c[w]
  {
  }
}
