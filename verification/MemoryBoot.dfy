// The boot sequence of region calls in init_memory_management: which blocks end up free.
module MemoryBoot {
  import opened Bits
  import opened FrameOwnership
  import PMM = PhysicalMemoryManager

  const MEMORY_MAP_LOCATION: Word := 0x30000
  const ARBITRARY_KERNEL_SIZE: Word := 0x9000
  const USABLE: nat := 1

  datatype Region = Region(begin: nat, length: nat, kind: nat)

  /** The blocks a region call touches: base and size are both rounded down to blocks. */
  ghost predicate Covers(base: Word, size: Word, b: nat) {
    base / 4096 <= b < base / 4096 + size / 4096
  }

  /** Some region of type 1 among the first n covers block b. */
  ghost predicate Available(regions: seq<Region>, n: nat, b: nat) {
    exists i: nat :: i < n && i < |regions| && regions[i].kind == 1
      && Covers(Wrap(regions[i].begin), Wrap(regions[i].length), b)
  }

  function TotalMemory(regions: seq<Region>): Word
    requires |regions| > 0
  {
    var last := regions[|regions| - 1];
    Wrap(last.begin + last.length - 1)
  }

  function MapSize(total: Word): Word {
    total / 4096 / 8
  }

  /**
   * The blocks boot keeps from use: block 0, nine blocks for the kernel, and from 0x30000 on the
   * whole blocks of a bitmap with one bit for each of max blocks.
   */
  ghost predicate Reserved(kernel: Word, max: nat, b: nat) {
    b == 0 || kernel / 4096 <= b < kernel / 4096 + 9 || 48 <= b < 48 + max / 8 / 4096
  }

  lemma ReservedRanges(kernel: Word, total: Word, b: nat)
    ensures Reserved(kernel, total / 4096, b) <==>
      Covers(kernel, ARBITRARY_KERNEL_SIZE, b) || Covers(MEMORY_MAP_LOCATION, MapSize(total), b) || b == 0
  {
  }

  /**
   * The manager is told of as many blocks as lie in front of the last byte of the last region,
   * the one that holds it not among them.
   */
  lemma TotalBlocks(regions: seq<Region>)
    requires |regions| > 0
    ensures var last := regions[|regions| - 1];
      && TotalMemory(regions) == (last.begin + last.length - 1) % 0x1_0000_0000
      && (0 < last.length && last.begin + last.length <= 0x1_0000_0000 ==>
            4096 * (TotalMemory(regions) / 4096) < last.begin + last.length <= 4096 * (TotalMemory(regions) / 4096 + 1))
  {
  }

  /**
   * By how much the counter goes down for the first n regions: by the blocks of every one of type
   * 1, and by one each time block 0 is set again.
   */
  ghost function Returned(regions: seq<Region>, n: nat): nat
    requires n <= |regions|
  {
    if n == 0 then 0
    else Returned(regions, n - 1) + if regions[n - 1].kind == 1 then Wrap(regions[n - 1].length) / 4096 + 1 else 0
  }

  /** The counter goes down once more for the ranges that are deleted. */
  lemma CountedDown(u0: Word, u1: Word, u2: Word, u3: Word, total: Word)
    requires u1 == Wrap(u0 - ARBITRARY_KERNEL_SIZE / 4096) && u2 == Wrap(u1 - MapSize(total) / 4096)
    requires u3 == Wrap(u2 - 0x1000 / 4096)
    ensures u3 == Wrap(u0 - (10 + MapSize(total) / 4096))
  {
    var a: int, m: int := u0, MapSize(total) / 4096;
    WrapAdd(a - 9, -m);
    WrapAdd(a - 9 - m, -1);
  }

  lemma AvailableStep(regions: seq<Region>, n: nat, b: nat)
    requires n < |regions|
    ensures Available(regions, n + 1, b) <==>
      Available(regions, n, b)
        || (regions[n].kind == 1 && Covers(Wrap(regions[n].begin), Wrap(regions[n].length), b))
  {
  }

  /**
   * The region calls of init_memory_management.  A block is free afterwards exactly when some
   * usable region covers it (or it lies past the bytes the manager cleared and was free before),
   * and it is neither reserved nor block 0.
   */
  method InitRegions(pmm: PMM.Manager, regions: seq<Region>, kernelLocation: Word)
    requires |regions| > 0 && TotalMemory(regions) / 4096 < 32 * pmm.memoryMap.Length
    requires forall r | r in regions && r.kind == USABLE ::
      Wrap(r.begin) / 4096 + Wrap(r.length) / 4096 <= 32 * pmm.memoryMap.Length
    requires kernelLocation / 4096 + 9 <= 32 * pmm.memoryMap.Length
    requires 48 + MapSize(TotalMemory(regions)) / 4096 <= 32 * pmm.memoryMap.Length
    modifies pmm, pmm.memoryMap
    ensures var last := regions[|regions| - 1];
      && pmm.maxBlocks == (last.begin + last.length - 1) % 0x1_0000_0000 / 4096 && pmm.live == map[]
      && (0 < last.length && last.begin + last.length <= 0x1_0000_0000 ==>
            4096 * pmm.maxBlocks <= last.begin + last.length - 1 < 4096 * (pmm.maxBlocks + 1))
    ensures forall b: nat | b < 32 * pmm.memoryMap.Length ::
      b in pmm.Free() <==>
        && !Reserved(kernelLocation, pmm.maxBlocks, b)
        && (Available(regions, |regions|, b) || (b >= pmm.maxBlocks / 8 * 8 && b in old(pmm.Free())))
    ensures pmm.Valid() <==>
      forall b: nat | pmm.maxBlocks <= b < 32 * pmm.memoryMap.Length ::
        Reserved(kernelLocation, pmm.maxBlocks, b)
          || (!Available(regions, |regions|, b) && b !in old(pmm.Free()))
    ensures pmm.usedBlocks ==
      (pmm.maxBlocks - Returned(regions, |regions|) - 9 - pmm.maxBlocks / 8 / 4096 - 1) % 0x1_0000_0000
  {
    var total := TotalMemory(regions);
    pmm.InitPhysicalMemoryManager(total);
    ghost var cleared := pmm.Free();
    assert forall b: nat | b < 32 * pmm.memoryMap.Length ::
      b in cleared <==> b >= pmm.maxBlocks / 8 * 8 && b in old(pmm.Free());
    InitUsableRegions(pmm, regions);
    TotalBlocks(regions);
    hide Available, Reserved, PMM.FreeBlocksOf, PMM.Used, TotalMemory, MapSize, Returned;
    DeleteRegions(pmm, kernelLocation, total);
    WrapAdd(pmm.maxBlocks - Returned(regions, |regions|), -(10 + pmm.maxBlocks / 8 / 4096));
    FreeMeansUnused(pmm);
  }

  /** The calls that reserve the kernel, the bitmap and block 0. */
  method DeleteRegions(pmm: PMM.Manager, kernelLocation: Word, total: Word)
    requires pmm.memoryMap.Length >= 1 && kernelLocation / 4096 + 9 <= 32 * pmm.memoryMap.Length
    requires 48 + MapSize(total) / 4096 <= 32 * pmm.memoryMap.Length
    modifies pmm`usedBlocks, pmm.memoryMap
    ensures forall b: nat :: b in pmm.Free() <==> b in old(pmm.Free()) && !Reserved(kernelLocation, total / 4096, b)
    ensures pmm.usedBlocks == Wrap(old(pmm.usedBlocks) - (10 + total / 4096 / 8 / 4096))
  {
    ghost var f0, u0 := pmm.Free(), pmm.usedBlocks;
    MapBlocks(total);
    hide *;
    pmm.DeletePhysicalMemoryRegion(kernelLocation, ARBITRARY_KERNEL_SIZE);
    ghost var f1, u1 := pmm.Free(), pmm.usedBlocks;
    pmm.DeletePhysicalMemoryRegion(MEMORY_MAP_LOCATION, MapSize(total));
    ghost var f2, u2 := pmm.Free(), pmm.usedBlocks;
    pmm.DeletePhysicalMemoryRegion(0, 0x1000);
    Deleted(f0, f1, f2, pmm.Free(), kernelLocation, total);
    CountedDown(u0, u1, u2, pmm.usedBlocks, total);
  }

  /** What the three ranges take from the free blocks. */
  lemma Deleted(f0: set<nat>, f1: set<nat>, f2: set<nat>, f3: set<nat>, kernel: Word, total: Word)
    requires f1 == f0 - Run(kernel / 4096, ARBITRARY_KERNEL_SIZE / 4096) - {0}
    requires f2 == f1 - Run(MEMORY_MAP_LOCATION / 4096, MapSize(total) / 4096) - {0}
    requires f3 == f2 - Run(0 / 4096, 0x1000 / 4096) - {0}
    ensures forall b: nat :: b in f3 <==> b in f0 && !Reserved(kernel, total / 4096, b)
  {
    forall b: nat ensures b in f3 <==> b in f0 && !Reserved(kernel, total / 4096, b) {
      ReservedRanges(kernel, total, b);
      CoversRun(kernel, ARBITRARY_KERNEL_SIZE, b);
      CoversRun(MEMORY_MAP_LOCATION, MapSize(total), b);
      CoversRun(0, 0x1000, b);
      hide Run, Reserved, MapSize;
    }
  }

  lemma MapBlocks(total: Word)
    ensures MapSize(total) / 4096 == total / 4096 / 8 / 4096
  {
  }

  lemma FreeMeansUnused(pmm: PMM.Manager)
    ensures forall b: nat | b < 32 * pmm.memoryMap.Length :: b in pmm.Free() <==> !PMM.Used(pmm.memoryMap[..], b)
    ensures forall b | b in pmm.Free() :: b < 32 * pmm.memoryMap.Length
  {
  }

  /** The loop over the memory map handed over by the boot loader. */
  method InitUsableRegions(pmm: PMM.Manager, regions: seq<Region>)
    requires pmm.memoryMap.Length >= 1
    requires forall r | r in regions && r.kind == USABLE ::
      Wrap(r.begin) / 4096 + Wrap(r.length) / 4096 <= 32 * pmm.memoryMap.Length
    modifies pmm`usedBlocks, pmm.memoryMap
    ensures forall b: nat | b != 0 :: b in pmm.Free() <==> Available(regions, |regions|, b) || b in old(pmm.Free())
    ensures pmm.usedBlocks == Wrap(old(pmm.usedBlocks) - Returned(regions, |regions|))
  {
    hide Available, Covers, PMM.FreeBlocksOf;
    var i := 0;
    NoneAvailable(regions);
    while i < |regions|
      invariant 0 <= i <= |regions|
      invariant forall b: nat | b != 0 :: b in pmm.Free() <==> Available(regions, i, b) || b in old(pmm.Free())
      invariant pmm.usedBlocks == Wrap(old(pmm.usedBlocks) - Returned(regions, i))
    {
      ghost var before := pmm.Free();
      if regions[i].kind == USABLE {
        assert regions[i] in regions;
        var length: int := Wrap(regions[i].length);
        WrapAdd(old(pmm.usedBlocks) - Returned(regions, i), -(length / 4096 + 1));
        pmm.InitPhysicalMemoryRegion(Wrap(regions[i].begin), Wrap(regions[i].length));
      }
      forall b: nat | b != 0
        ensures b in pmm.Free() <==> Available(regions, i + 1, b) || b in old(pmm.Free())
      {
        AvailableStep(regions, i, b);
        CoversRun(Wrap(regions[i].begin), Wrap(regions[i].length), b);
        assert b in before <==> Available(regions, i, b) || b in old(pmm.Free());
      }
      i := i + 1;
    }
  }

  lemma NoneAvailable(regions: seq<Region>)
    ensures forall b: nat :: !Available(regions, 0, b)
  {
  }

  lemma CoversRun(base: Word, size: Word, b: nat)
    ensures Covers(base, size, b) <==> b in Run(base / 4096, size / 4096)
  {
  }

  /**
   * The bitmap's own bytes are all inside reserved blocks exactly when its size is a whole
   * number of blocks: the size of a deleted region is rounded down.
   */
  lemma BitmapReserved(total: Word)
    ensures (forall a: nat | MEMORY_MAP_LOCATION <= a < MEMORY_MAP_LOCATION + MapSize(total) ::
               Covers(MEMORY_MAP_LOCATION, MapSize(total), a / 4096))
      <==> MapSize(total) % 4096 == 0
  {
    var size := MapSize(total);
    if size % 4096 != 0 {
      assert !Covers(MEMORY_MAP_LOCATION, size, (MEMORY_MAP_LOCATION + size - 1) / 4096);
    }
  }

  /** The last region is usable, block-aligned, and does not wrap around. */
  ghost predicate WholeLastRegion(regions: seq<Region>)
    requires |regions| > 0
  {
    var r := regions[|regions| - 1];
    r.kind == 1 && r.begin % 4096 == 0 && r.length % 4096 == 0 && 0 < r.length
      && r.begin + r.length < 0x1_0000_0000
  }

  lemma WholeParts(regions: seq<Region>)
    requires |regions| > 0 && WholeLastRegion(regions)
    ensures var r := regions[|regions| - 1]; 0 < r.length && r.begin + r.length < 0x1_0000_0000
  {
  }

  lemma LastRegionCovers(regions: seq<Region>)
    requires |regions| > 0 && WholeLastRegion(regions)
    ensures Available(regions, |regions|, TotalMemory(regions) / 4096)
  {
    var r := regions[|regions| - 1];
    assert Wrap(r.begin) == r.begin && Wrap(r.length) == r.length;
    assert Covers(Wrap(r.begin), Wrap(r.length), TotalMemory(regions) / 4096);
  }

  /**
   * When the last region is usable and block-aligned, the block of its last byte has number
   * max_blocks, so boot leaves a block free that the manager counts as past the end of memory -
   * unless one of the deleted ranges happens to cover it.
   */
  method BootPastEnd(pmm: PMM.Manager, regions: seq<Region>, kernelLocation: Word)
    requires |regions| > 0 && TotalMemory(regions) / 4096 < 32 * pmm.memoryMap.Length
    requires forall r | r in regions && r.kind == USABLE ::
      Wrap(r.begin) / 4096 + Wrap(r.length) / 4096 <= 32 * pmm.memoryMap.Length
    requires kernelLocation / 4096 + 9 <= 32 * pmm.memoryMap.Length
    requires 48 + MapSize(TotalMemory(regions)) / 4096 <= 32 * pmm.memoryMap.Length
    requires WholeLastRegion(regions)
    modifies pmm, pmm.memoryMap
    ensures var last := regions[|regions| - 1];
      var b := (last.begin + last.length - 1) / 4096;
      && b == pmm.maxBlocks && (b in pmm.Free() <==> !Reserved(kernelLocation, b, b))
      && (b in pmm.Free() ==> !pmm.Valid())
  {
    hide Available, WholeLastRegion, Reserved, TotalMemory, MapSize, PMM.FreeBlocksOf, PMM.Used, PMM.Manager.Valid;
    LastRegionCovers(regions);
    TotalBlocks(regions);
    WholeParts(regions);
    InitRegions(pmm, regions, kernelLocation);
  }
}
