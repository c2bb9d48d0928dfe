// The bitmap frame allocator of physical_memory_manager.c.
module PhysicalMemoryManager {
  import opened Bits
  import opened FrameOwnership

  const ALL_USED: Word := 0xFFFF_FFFF
  const BLOCK_SIZE: nat := 4096

  /** The bit of block b is set. */
  predicate Used(words: seq<Word>, b: nat)
    requires b < 32 * |words|
  {
    Bit(words[b / 32], b % 32)
  }

  ghost function FreeBlocksOf(words: seq<Word>): set<nat> {
    set b: nat | b < 32 * |words| && !Used(words, b)
  }

  /** n consecutive clear bits starting at s. */
  ghost predicate ClearRun(words: seq<Word>, s: nat, n: nat) {
    s + n <= 32 * |words| && forall b: nat | s <= b < s + n :: !Used(words, b)
  }

  /**
   * The filter the search really applies to bit c % 32 of a word: it masks the word with the
   * bit index instead of with the bit.
   */
  predicate PassesFilter(words: seq<Word>, c: nat)
    requires c < 32 * |words|
  {
    And(words[c / 32], c % 32) == 0
  }

  ghost predicate Candidate(words: seq<Word>, c: nat, n: nat) {
    c < 32 * |words| && PassesFilter(words, c) && ClearRun(words, c, n)
  }

  /** The candidate the scan meets first. */
  ghost predicate FirstCandidate(words: seq<Word>, s: nat, n: nat) {
    && 32 <= s && Candidate(words, s, n)
    && forall c: nat | 32 <= c < s :: !Candidate(words, c, n)
  }

  lemma {:induction false} AndPow2(w: nat, k: nat)
    ensures And(w, Pow2(k)) == if Bit(w, k) then Pow2(k) else 0
  {
    AndStep(w, Pow2(k));
    if k == 0 {
      AndNone(w / 2);
    } else {
      AndPow2(w / 2, k - 1);
    }
  }

  lemma SetBitWord(w: Word, k: nat)
    requires k < 32
    ensures Or(w, Pow2(k)) < WORD_LIMIT
    ensures forall j: nat :: Bit(Or(w, Pow2(k)), j) <==> Bit(w, j) || j == k
  {
    Pow2Is32();
    Pow2Bound(k + 1, 32);
    OrBound(w, Pow2(k), 32);
    forall j: nat ensures Bit(Or(w, Pow2(k)), j) <==> Bit(w, j) || j == k {
      BitOr(w, Pow2(k), j);
      BitPow2(j, k);
    }
  }

  lemma UnsetBitWord(w: Word, k: nat)
    requires k < 32
    ensures Pow2(k) < WORD_LIMIT && And(w, Not(Pow2(k))) < WORD_LIMIT
    ensures forall j: nat | j < 32 :: Bit(And(w, Not(Pow2(k))), j) <==> Bit(w, j) && j != k
  {
    Pow2Is32();
    Pow2Bound(k + 1, 32);
    AndBound(w, Not(Pow2(k)));
    forall j: nat | j < 32 ensures Bit(And(w, Not(Pow2(k))), j) <==> Bit(w, j) && j != k {
      BitAnd(w, Not(Pow2(k)), j);
      BitComplement(32, Pow2(k), j);
      BitPow2(j, k);
    }
  }

  lemma {:induction false} AllOnes(w: Word, k: nat)
    requires k < 32 && !Bit(w, k)
    ensures w != ALL_USED
  {
    Pow2Is32();
    BitOnes(32, k);
  }

  /** Setting a whole byte of a word, as memset does. */
  function ByteOfOnes(k: nat): nat {
    Join(255, 0, 8 * k)
  }

  lemma SetByteWord(w: Word, k: nat)
    requires k < 4
    ensures Or(w, ByteOfOnes(k)) < WORD_LIMIT
    ensures forall j: nat :: Bit(Or(w, ByteOfOnes(k)), j) <==> Bit(w, j) || 8 * k <= j < 8 * k + 8
  {
    assert Pow2(8) == 256;
    Pow2Is32();
    JoinBound(255, 0, 8 * k, 8);
    Pow2Bound(8 + 8 * k, 32);
    OrBound(w, ByteOfOnes(k), 32);
    forall j: nat ensures Bit(Or(w, ByteOfOnes(k)), j) <==> Bit(w, j) || 8 * k <= j < 8 * k + 8 {
      BitOr(w, ByteOfOnes(k), j);
      BitJoin(255, 0, 8 * k, j);
      BitZero(j);
      if j >= 8 * k { BitOnes(8, j - 8 * k); }
    }
  }

  /**
   * The lowest free run is the one the search returns exactly when the mask test lets its
   * first bit through.
   */
  lemma LowestRunReturned(words: seq<Word>, s: nat, n: nat)
    requires 1 <= n && 32 <= s && ClearRun(words, s, n)
    requires forall c: nat | 32 <= c < s :: !ClearRun(words, c, n)
    ensures FirstCandidate(words, s, n) <==> And(words[s / 32], s % 32) == 0
  {
  }

  const SKIPPED_BITMAP: seq<Word> := [0xFFFF_FFFF, 0xFFFF_FFFD, 0xFFFF_FFFF]

  /** A block can be free in a searched word and still not be found: the mask test skips it. */
  lemma SearchSkipsFreeBlock()
    ensures ClearRun(SKIPPED_BITMAP, 33, 1)
    ensures forall c: nat | 32 <= c < 64 :: !Candidate(SKIPPED_BITMAP, c, 1)
  {
    forall c: nat | 32 <= c < 64
      ensures Used(SKIPPED_BITMAP, c) <==> c != 33
    {
      SkippedBit(c - 32);
      assert c / 32 == 1 && c % 32 == c - 32;
    }
    LowPart(0xFFFF_FFFD, 0x7FFF_FFFE, 1, 1, 2);
    assert !PassesFilter(SKIPPED_BITMAP, 33);
    forall c: nat | 32 <= c < 64
      ensures !Candidate(SKIPPED_BITMAP, c, 1)
    {
      if c != 33 { assert Used(SKIPPED_BITMAP, c) && !ClearRun(SKIPPED_BITMAP, c, 1); }
    }
  }

  lemma SkippedBit(k: nat)
    requires k < 32
    ensures Bit(0xFFFF_FFFD, k) <==> k != 1
  {
    Pow2Is32();
    assert Pow2(1) == 2;
    BitComplement(32, 2, k);
    BitPow2(k, 1);
  }

  /** A free run with 31 blocks to spare holds a word boundary, where the test always passes. */
  lemma PaddedRunIsFound(words: seq<Word>, s: nat, n: nat, maxBlocks: nat)
    requires 1 <= n && 32 <= s && ClearRun(words, s, n + 31) && s + 31 < maxBlocks / 32 * 32
    ensures exists c: nat :: 32 <= c < maxBlocks / 32 * 32 && Candidate(words, c, n)
  {
    var c := (s + 31) / 32 * 32;
    assert s <= c <= s + 31 && c % 32 == 0;
    AndNone(words[c / 32]);
    assert ClearRun(words, c, n);
    assert Candidate(words, c, n);
  }

  lemma CandidateAt(words: seq<Word>, i: nat, j: nat, n: nat)
    requires i < |words| && j < 32
    ensures Candidate(words, 32 * i + j, n) <==> And(words[i], j) == 0 && ClearRun(words, 32 * i + j, n)
  {
    assert (32 * i + j) / 32 == i && (32 * i + j) % 32 == j;
  }

  lemma NoneInFullWord(words: seq<Word>, i: nat, n: nat)
    requires i < |words| && words[i] == ALL_USED && 1 <= n
    ensures forall c: nat | 32 * i <= c < 32 * i + 32 :: !Candidate(words, c, n)
  {
    forall c: nat | 32 * i <= c < 32 * i + 32
      ensures !Candidate(words, c, n)
    {
      assert c / 32 == i;
      if !Used(words, c) { AllOnes(words[i], c % 32); }
    }
  }

  class Manager {
    const memoryMap: array<Word>
    var maxBlocks: Word
    var usedBlocks: Word
    ghost var live: map<nat, nat>

    /** An uninitialised manager over a bitmap in memory. */
    constructor (map_: array<Word>)
      ensures memoryMap == map_
    {
      memoryMap := map_;
    }

    ghost function Free(): set<nat>
      reads this, memoryMap
    {
      FreeBlocksOf(memoryMap[..])
    }

    ghost function State(): Frames
      reads this, memoryMap
    {
      Frames(Free(), live, usedBlocks)
    }

    /** Blocks at and past max_blocks read as used; every live run is owned. */
    ghost predicate Valid()
      reads this, memoryMap
    {
      && maxBlocks <= 0x10_0000
      && maxBlocks < 32 * memoryMap.Length
      && (forall b: nat | maxBlocks <= b < 32 * memoryMap.Length :: Used(memoryMap[..], b))
      && (forall s | s in live :: s + live[s] <= maxBlocks)
      && Inv(State())
    }

    method SetBlock(bit: nat)
      requires bit < 32 * memoryMap.Length
      modifies memoryMap
      ensures forall b: nat | b < 32 * memoryMap.Length ::
        Used(memoryMap[..], b) <==> old(Used(memoryMap[..], b)) || b == bit
      ensures Free() == old(Free()) - {bit}
    {
      SetBitWord(memoryMap[bit / 32], bit % 32);
      memoryMap[bit / 32] := Or(memoryMap[bit / 32], Pow2(bit % 32));
    }

    method UnsetBlock(bit: nat)
      requires bit < 32 * memoryMap.Length
      modifies memoryMap
      ensures forall b: nat | b < 32 * memoryMap.Length ::
        Used(memoryMap[..], b) <==> old(Used(memoryMap[..], b)) && b != bit
      ensures Free() == old(Free()) + {bit}
    {
      UnsetBitWord(memoryMap[bit / 32], bit % 32);
      memoryMap[bit / 32] := And(memoryMap[bit / 32], Not(Pow2(bit % 32)));
    }

    method TestBlock(bit: nat) returns (set_: bool)
      requires bit < 32 * memoryMap.Length
      ensures set_ <==> Used(memoryMap[..], bit)
    {
      AndPow2(memoryMap[bit / 32], bit % 32);
      set_ := And(memoryMap[bit / 32], Pow2(bit % 32)) != 0;
    }

    /** The innermost loop of the search: are the num blocks from start all clear? */
    method RunIsClear(start: nat, num: nat) returns (clear: bool)
      requires Valid() && 1 <= num && start < maxBlocks
      ensures clear <==> ClearRun(memoryMap[..], start, num)
    {
      var freeBlocks := 0;
      var count := 0;
      while count <= num
        invariant count == freeBlocks < num
        invariant start + count <= maxBlocks
        invariant ClearRun(memoryMap[..], start, count)
      {
        var used := TestBlock(start + count);
        if !used {
          freeBlocks := freeBlocks + 1;
        } else {
          return false;
        }
        if freeBlocks == num {
          return true;
        }
        count := count + 1;
      }
      assert false;
    }

    /**
     * The first candidate in the order of the scan, or -1 when there is none in the words
     * 1 .. max_blocks / 32 - 1.
     */
    method FindFirstFreeBlocks(num: nat) returns (start: int)
      requires Valid()
      ensures start >= 0 ==>
        && 1 <= num && 32 <= start < maxBlocks / 32 * 32
        && Candidate(memoryMap[..], start, num)
        && (forall c: nat | 32 <= c < start :: !Candidate(memoryMap[..], c, num))
      ensures start < 0 ==>
        && start == -1
        && (num == 0 || forall c: nat | 32 <= c < maxBlocks / 32 * 32 :: !Candidate(memoryMap[..], c, num))
    {
      if num == 0 {
        return -1;
      }
      hide Candidate, ClearRun, Used, PassesFilter, And;
      var i := 1;
      while i < maxBlocks / 32
        invariant 1 <= i
        invariant maxBlocks / 32 >= 1 ==> i <= maxBlocks / 32
        invariant forall c: nat | 32 <= c < 32 * i :: !Candidate(memoryMap[..], c, num)
      {
        if memoryMap[i] != ALL_USED {
          var j := 0;
          while j < 32
            invariant 0 <= j <= 32
            invariant forall c: nat | 32 <= c < 32 * i + j :: !Candidate(memoryMap[..], c, num)
          {
            CandidateAt(memoryMap[..], i, j, num);
            if And(memoryMap[i], j) == 0 {
              var clear := RunIsClear(i * 32 + j, num);
              if clear {
                return i * 32 + j;
              }
            }
            j := j + 1;
          }
        } else {
          NoneInFullWord(memoryMap[..], i, num);
        }
        i := i + 1;
      }
      return -1;
    }

    method AllocateBlocks(num: nat) returns (addr: Word)
      requires Valid()
      modifies this`usedBlocks, this`live, memoryMap
      ensures Valid()
      ensures addr == 0 <==> old(Refuses(num))
      ensures addr == 0 ==> State() == old(State()) && memoryMap[..] == old(memoryMap[..]) && Refuses(num)
      ensures addr != 0 ==>
        && addr % BLOCK_SIZE == 0
        && AllocStep(old(State()), State(), addr / BLOCK_SIZE, num)
        && old(FirstCandidate(memoryMap[..], addr / BLOCK_SIZE, num))
    {
      hide FreeBlocksOf, Used, Candidate, Inv, AllocStep;
      if Wrap(maxBlocks - usedBlocks) <= num {
        return 0;
      }
      var start := FindFirstFreeBlocks(num);
      if start < 0 {
        return 0;
      }
      CandidateIsFree(start, num);
      FirstAddress(start);
      TakeRun(start, num);
      return start * BLOCK_SIZE;
    }

    /** Mark a free run and account for it. */
    method TakeRun(start: nat, num: nat)
      requires Valid() && 1 <= num && 32 <= start && start + num <= maxBlocks && Run(start, num) <= Free()
      modifies this`usedBlocks, this`live, memoryMap
      ensures Valid()
      ensures AllocStep(old(State()), State(), start, num)
    {
      ghost var before := State();
      MarkRun(start, num);
      hide FreeBlocksOf, Used;
      usedBlocks := Wrap(usedBlocks + num);
      live := live[start := num];
      assert State() == Frames(before.free - Run(start, num), before.live[start := num], Wrap(before.used + num));
      AllocKeepsOwned(before, State(), start, num);
    }

    lemma CandidateIsFree(start: nat, num: nat)
      requires Valid() && Candidate(memoryMap[..], start, num) && 1 <= num && start < maxBlocks
      ensures start + num <= maxBlocks
      ensures Run(start, num) <= Free()
    {
      assert !Used(memoryMap[..], start + num - 1);
    }

    lemma FirstAddress(start: nat)
      requires start < 0x10_0000
      ensures start * BLOCK_SIZE < 0x1_0000_0000
      ensures start * BLOCK_SIZE % BLOCK_SIZE == 0 && start * BLOCK_SIZE / BLOCK_SIZE == start
    {
    }

    /** The marking loop of allocate_blocks. */
    method MarkRun(start: nat, num: nat)
      requires start + num <= 32 * memoryMap.Length
      modifies memoryMap
      ensures Free() == old(Free()) - Run(start, num)
      ensures forall b: nat | b < 32 * memoryMap.Length ::
        Used(memoryMap[..], b) <==> old(Used(memoryMap[..], b)) || start <= b < start + num
    {
      var i := 0;
      while i < num
        invariant 0 <= i <= num
        invariant Free() == old(Free()) - Run(start, i)
        invariant forall b: nat | b < 32 * memoryMap.Length ::
          Used(memoryMap[..], b) <==> old(Used(memoryMap[..], b)) || start <= b < start + i
      {
        SetBlock(start + i);
        i := i + 1;
      }
    }

    /** When the manager returns NULL: its counter leaves no room, or the search finds nothing. */
    ghost predicate Refuses(num: nat)
      reads this, memoryMap
    {
      || Wrap(maxBlocks - usedBlocks) <= num
      || num == 0
      || forall c: nat | 32 <= c < maxBlocks / 32 * 32 :: !Candidate(memoryMap[..], c, num)
    }

    /** At a word boundary the mask test always passes. */
    lemma OfferFound(c: nat, num: nat)
      requires Valid() && Offers(State(), maxBlocks, c, num)
      ensures 32 <= c < maxBlocks / 32 * 32 && Candidate(memoryMap[..], c, num) && !Refuses(num)
    {
      forall b: nat | c <= b < c + num ensures b < 32 * memoryMap.Length && !Used(memoryMap[..], b) {
        assert b in Run(c, num) && b in Free();
      }
      assert c + num - 1 < 32 * memoryMap.Length;
      AndNone(memoryMap[c / 32]);
      assert Candidate(memoryMap[..], c, num);
    }

    lemma OffersFound(num: nat)
      requires Valid()
      ensures forall c: nat | Offers(State(), maxBlocks, c, num) :: !Refuses(num)
      ensures forall s: nat | FirstCandidate(memoryMap[..], s, num) :: FirstOffer(State(), maxBlocks, s, num)
    {
      hide Refuses, Candidate;
      forall c: nat | Offers(State(), maxBlocks, c, num)
        ensures 32 <= c && Candidate(memoryMap[..], c, num) && !Refuses(num)
      {
        OfferFound(c, num);
      }
    }

    method FreeBlocks(address: Word, num: nat)
      requires Valid()
      requires address / BLOCK_SIZE in live && live[address / BLOCK_SIZE] == num
      modifies this`usedBlocks, this`live, memoryMap
      ensures Valid()
      ensures FreeStep(old(State()), State(), address / BLOCK_SIZE)
    {
      var start := address / BLOCK_SIZE;
      ghost var before := State();
      UnmarkRun(start, num);
      usedBlocks := Wrap(usedBlocks - num);
      SetBlock(0);
      live := live - {start};
      FreeKeepsOwned(before, State(), start);
    }

    /** The clearing loop of free_blocks. */
    method UnmarkRun(start: nat, num: nat)
      requires start + num <= 32 * memoryMap.Length
      modifies memoryMap
      ensures Free() == old(Free()) + Run(start, num)
      ensures forall b: nat | b < 32 * memoryMap.Length ::
        Used(memoryMap[..], b) <==> old(Used(memoryMap[..], b)) && !(start <= b < start + num)
    {
      var i := 0;
      while i < num
        invariant 0 <= i <= num
        invariant Free() == old(Free()) + Run(start, i)
        invariant forall b: nat | b < 32 * memoryMap.Length ::
          Used(memoryMap[..], b) <==> old(Used(memoryMap[..], b)) && !(start <= b < start + i)
      {
        UnsetBlock(start + i);
        i := i + 1;
      }
    }

    method InitPhysicalMemoryManager(size: Word)
      requires size / BLOCK_SIZE < 32 * memoryMap.Length
      modifies this, memoryMap
      ensures maxBlocks == size / BLOCK_SIZE == usedBlocks
      ensures live == map[]
      ensures forall b: nat | b < 32 * memoryMap.Length ::
        Used(memoryMap[..], b) <==> b < maxBlocks / 8 * 8 || old(Used(memoryMap[..], b))
    {
      maxBlocks := size / BLOCK_SIZE;
      usedBlocks := maxBlocks;
      live := map[];
      var m := 0;
      while m < maxBlocks / 8
        modifies memoryMap
        invariant 0 <= m <= maxBlocks / 8
        invariant forall b: nat | b < 32 * memoryMap.Length ::
          Used(memoryMap[..], b) <==> b < 8 * m || old(Used(memoryMap[..], b))
      {
        ghost var before := memoryMap[..];
        SetByteWord(memoryMap[m / 4], m % 4);
        memoryMap[m / 4] := Or(memoryMap[m / 4], ByteOfOnes(m % 4));
        forall b: nat | b < 32 * memoryMap.Length
          ensures Used(memoryMap[..], b) <==> Used(before, b) || 8 * m <= b < 8 * m + 8
        {
          if b / 32 == m / 4 { assert 8 * (m % 4) <= b % 32 < 8 * (m % 4) + 8 <==> 8 * m <= b < 8 * m + 8; }
        }
        m := m + 1;
      }
    }

    method InitPhysicalMemoryRegion(base: Word, size: Word)
      requires base / BLOCK_SIZE + size / BLOCK_SIZE <= 32 * memoryMap.Length
      requires memoryMap.Length >= 1
      modifies this`usedBlocks, memoryMap
      ensures Free() == old(Free()) + Run(base / BLOCK_SIZE, size / BLOCK_SIZE) - {0}
      ensures usedBlocks == Wrap(old(usedBlocks) - size / BLOCK_SIZE - 1)
    {
      hide Wrap, FreeBlocksOf, Used;
      var align := base / BLOCK_SIZE;
      var num: nat := size / BLOCK_SIZE;
      ghost var n := 0;
      WrapDown(usedBlocks, 0);
      WrapWord(usedBlocks);
      while num > 0
        invariant n + num == size / BLOCK_SIZE && align == base / BLOCK_SIZE + n
        invariant Free() == old(Free()) + Run(base / BLOCK_SIZE, n)
        invariant usedBlocks == Wrap(old(usedBlocks) - n)
      {
        UnsetBlock(align);
        align := align + 1;
        WrapDown(old(usedBlocks), n);
        usedBlocks := Wrap(usedBlocks - 1);
        num, n := num - 1, n + 1;
      }
      WrapDown(old(usedBlocks), n);
      DeletePhysicalMemoryRegion(0, 0x1000);
    }

    method DeletePhysicalMemoryRegion(base: Word, size: Word)
      requires base / BLOCK_SIZE + size / BLOCK_SIZE <= 32 * memoryMap.Length
      requires memoryMap.Length >= 1
      modifies this`usedBlocks, memoryMap
      ensures Free() == old(Free()) - Run(base / BLOCK_SIZE, size / BLOCK_SIZE) - {0}
      ensures usedBlocks == Wrap(old(usedBlocks) - size / BLOCK_SIZE)
    {
      hide Wrap, FreeBlocksOf, Used;
      var align := base / BLOCK_SIZE;
      var num: nat := size / BLOCK_SIZE;
      ghost var n := 0;
      WrapDown(usedBlocks, 0);
      WrapWord(usedBlocks);
      while num > 0
        invariant n + num == size / BLOCK_SIZE && align == base / BLOCK_SIZE + n
        invariant Free() == old(Free()) - Run(base / BLOCK_SIZE, n)
        invariant usedBlocks == Wrap(old(usedBlocks) - n)
      {
        SetBlock(align);
        align := align + 1;
        WrapDown(old(usedBlocks), n);
        usedBlocks := Wrap(usedBlocks - 1);
        num, n := num - 1, n + 1;
      }
      SetBlock(0);
    }
  }
}
