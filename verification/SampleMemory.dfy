// Memories for inputs: a frame allocator over a few ranges of usable blocks, built by the calls the
// boot code makes, and which runs of blocks it hands out.
module SampleMemory {
  import opened Bits
  import opened FrameOwnership
  import PMM = PhysicalMemoryManager
  import VM = AddressSpace

  /** Memory as the boot code finds it: ranges of usable blocks, by first block and number. */
  type Ranges = seq<(nat, nat)>

  ghost function BlocksOf(ranges: Ranges): set<nat> {
    if ranges == [] then {} else
      var r := ranges[|ranges| - 1];
      BlocksOf(ranges[..|ranges| - 1]) + Run(r.0, r.1)
  }

  /** What the region calls take off the counter: a block each, and one for block 0 every time. */
  function Regained(ranges: Ranges): nat {
    if ranges == [] then 0 else Regained(ranges[..|ranges| - 1]) + ranges[|ranges| - 1].1 + 1
  }

  /** One range more. */
  lemma RangeAdded(ranges: Ranges, start: nat, n: nat)
    ensures BlocksOf(ranges + [(start, n)]) == BlocksOf(ranges) + Run(start, n)
    ensures Regained(ranges + [(start, n)]) == Regained(ranges) + n + 1
  {
    assert (ranges + [(start, n)])[..|ranges|] == ranges;
    hide Run;
  }

  lemma NoRanges()
    ensures BlocksOf([]) == {} && Regained([]) == 0
  {
  }

  ghost predicate Usable(ranges: Ranges, max: nat) {
    (forall r | r in ranges :: 0 < r.0 && r.0 + r.1 <= max) && Regained(ranges) <= max
  }

  /** No run is handed out yet, and these blocks are free. */
  ghost predicate Offering(pmm: PMM.Manager, free: set<nat>, used: int)
    reads pmm, pmm.memoryMap
  {
    pmm.live == map[] && pmm.Free() == free && 0 !in free && pmm.usedBlocks == used
  }

  /** init_physical_memory_region on n blocks from start on. */
  method MakeAvailable(pmm: PMM.Manager, start: nat, n: nat, ghost free: set<nat>, ghost used: int)
    requires 0 < start && start + n < 0x10_0000 && start + n <= 32 * pmm.memoryMap.Length
    requires Offering(pmm, free, used) && n < used
    modifies pmm`usedBlocks, pmm.memoryMap
    ensures Offering(pmm, free + Run(start, n), used - n - 1)
  {
    hide PMM.FreeBlocksOf;
    assert 4096 * start / 4096 == start && 4096 * n / 4096 == n;
    pmm.InitPhysicalMemoryRegion(4096 * start, 4096 * n);
    assert pmm.Free() == free + Run(start, n);
  }

  /**
   * A memory of max blocks and no address space yet, after init_physical_memory_manager on a
   * bitmap that is all set and a call of init_physical_memory_region for each range.
   */
  method MemoryOf(max: nat, ranges: Ranges) returns (space: VM.Space)
    requires max < 0x8_0000 && Usable(ranges, max)
    ensures fresh(space) && fresh(space.mem) && fresh(space.pmm) && fresh(space.pmm.memoryMap)
    ensures space.mem != space.pmm.memoryMap && space.pmm.Valid() && space.pmm.maxBlocks == max
    ensures space.pmm.State() == Frames(BlocksOf(ranges), map[], max - Regained(ranges))
    ensures VM.InMemory(space.pmm.State(), space.mem.Length)
  {
    hide *;
    assert max < 32 * (max / 32 + 1);
    var pmm := ManagerOf(max / 32 + 1, max, ranges);
    var mem := new Word[1024 * max](_ => 0);
    space := new VM.Space(pmm, mem);
    RangesInMemory(ranges, max);
  }

  method ManagerOf(words: nat, max: nat, ranges: Ranges) returns (pmm: PMM.Manager)
    requires max < 0x10_0000 && max < 32 * words && Usable(ranges, max)
    ensures fresh(pmm) && fresh(pmm.memoryMap)
    ensures pmm.Valid() && pmm.maxBlocks == max
    ensures pmm.State() == Frames(BlocksOf(ranges), map[], max - Regained(ranges))
  {
    FirstRanges(ranges, max);
    assert 4096 * max < 0x1_0000_0000 && 4096 * max / 4096 == max;
    hide *;
    pmm := NoMemory(words, 4096 * max);
    MakeAllAvailable(pmm, ranges, max);
    ManagerReady(pmm, ranges, max);
  }

  method MakeAllAvailable(pmm: PMM.Manager, ranges: Ranges, max: nat)
    requires max < 0x10_0000 && max < 32 * pmm.memoryMap.Length && Usable(ranges, max)
    requires Offering(pmm, BlocksOf(ranges[..0]), max - Regained(ranges[..0]))
    modifies pmm`usedBlocks, pmm.memoryMap
    ensures Offering(pmm, BlocksOf(ranges), max - Regained(ranges))
  {
    hide *;
    var i := 0;
    while i < |ranges|
      invariant 0 <= i <= |ranges|
      invariant Offering(pmm, BlocksOf(ranges[..i]), max - Regained(ranges[..i]))
    {
      NextRange(ranges, i, max);
      MakeAvailable(pmm, ranges[i].0, ranges[i].1, BlocksOf(ranges[..i]), max - Regained(ranges[..i]));
      i := i + 1;
    }
    assert ranges[..i] == ranges;
  }

  lemma FirstRanges(ranges: Ranges, max: nat)
    ensures ranges[..0] == [] && BlocksOf([]) == {} && Regained([]) == 0
  {
  }

  lemma NextRange(ranges: Ranges, i: nat, max: nat)
    requires i < |ranges| && Usable(ranges, max)
    ensures 0 < ranges[i].0 && ranges[i].0 + ranges[i].1 <= max && ranges[i].1 < max - Regained(ranges[..i])
    ensures BlocksOf(ranges[..i + 1]) == BlocksOf(ranges[..i]) + Run(ranges[i].0, ranges[i].1)
    ensures Regained(ranges[..i]) + ranges[i].1 + 1 == Regained(ranges[..i + 1]) <= max
  {
    assert ranges[i] in ranges && ranges[..i + 1][..i] == ranges[..i];
    RegainedMore(ranges, i);
  }

  lemma {:induction false} RegainedMore(ranges: Ranges, i: nat)
    requires i < |ranges|
    ensures Regained(ranges[..i]) + ranges[i].1 + 1 == Regained(ranges[..i + 1]) <= Regained(ranges)
    decreases |ranges|
  {
    if i + 1 == |ranges| {
      assert ranges[..i + 1] == ranges;
    } else {
      var init := ranges[..|ranges| - 1];
      assert init[..i] == ranges[..i] && init[..i + 1] == ranges[..i + 1];
      RegainedMore(init, i);
    }
  }

  lemma {:induction false} BlocksBelow(ranges: Ranges, max: nat)
    requires forall r | r in ranges :: 0 < r.0 && r.0 + r.1 <= max
    ensures forall b | b in BlocksOf(ranges) :: 0 < b < max
    decreases |ranges|
  {
    if ranges == [] {
    } else {
      BlocksBelow(ranges[..|ranges| - 1], max);
      assert ranges[|ranges| - 1] in ranges;
    }
  }

  lemma RangesInMemory(ranges: Ranges, max: nat)
    requires max < 0x8_0000 && Usable(ranges, max)
    ensures VM.InMemory(Frames(BlocksOf(ranges), map[], max - Regained(ranges)), 1024 * max)
  {
    BlocksBelow(ranges, max);
    hide BlocksOf, Regained;
  }

  lemma ManagerReady(pmm: PMM.Manager, ranges: Ranges, max: nat)
    requires pmm.maxBlocks == max < 0x10_0000 && max < 32 * pmm.memoryMap.Length
    requires Usable(ranges, max) && Offering(pmm, BlocksOf(ranges), max - Regained(ranges))
    ensures pmm.Valid() && pmm.State() == Frames(BlocksOf(ranges), map[], max - Regained(ranges))
  {
    BlocksBelow(ranges, max);
    forall b: nat | max <= b < 32 * pmm.memoryMap.Length ensures PMM.Used(pmm.memoryMap[..], b) {
      assert b !in pmm.Free();
    }
  }

  /** A manager that knows of no free block. */
  method NoMemory(words: nat, size: Word) returns (pmm: PMM.Manager)
    requires size / 4096 < 32 * words
    ensures fresh(pmm) && fresh(pmm.memoryMap) && pmm.memoryMap.Length == words
    ensures pmm.maxBlocks == size / 4096 && Offering(pmm, {}, pmm.maxBlocks)
  {
    var bitmap := new Word[words](_ => 0xFFFF_FFFF);
    pmm := new PMM.Manager(bitmap);
    forall b: nat | b < 32 * words ensures PMM.Used(bitmap[..], b) {
      if !PMM.Used(bitmap[..], b) { PMM.AllOnes(bitmap[b / 32], b % 32); }
    }
    pmm.InitPhysicalMemoryManager(size);
    assert pmm.Free() == {};
  }
}
