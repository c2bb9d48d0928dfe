// The boot loader's sliding window over the FAT: lookups through a five-sector cache.
module BootFatCache {
  import opened Bits
  import opened ClusterArea
  import opened FatTable

  /** The bytes of consecutive 512-byte sectors. */
  ghost function Flat(sectors: seq<seq<Byte>>): (b: seq<Byte>)
    requires Sectors(sectors)
    ensures |b| == 512 * |sectors|
  {
    seq(512 * |sectors|, i requires 0 <= i < 512 * |sectors| => sectors[i / 512][i % 512])
  }

  /** Byte index of an entry, in 32-bit arithmetic. */
  function FatIndex(ty: FatType, c: Word): Word {
    match ty
    case Fat12 => Wrap(c as int * 3) / 2
    case Fat16 => Wrap(c as int * 2)
    case Fat32 => Wrap(c as int * 4)
  }

  lemma FatIndexValue(ty: FatType, c: Word)
    requires c < 0x1000_0000
    ensures FatIndex(ty, c) == Offset(ty, c)
  {
  }

  /** The window start after a lookup in this sector. */
  function Slide(position: nat, sector: nat): nat {
    if sector < position || sector >= position + 5 then sector else position
  }

  lemma SlideIs(position: nat, sector: nat)
    ensures Slide(position, sector) == if position <= sector < position + 5 then position else sector
  {
  }

  /** A 12-bit entry whose second byte lies just behind the window. */
  ghost predicate Split(ty: FatType, position: nat, c: nat) {
    ty.Fat12? && Offset(ty, c) == 512 * position + 2559
  }

  /** What the load of a split entry yields: its high byte is the low byte of the window start. */
  function SplitValue(low: Byte, position: nat, c: nat): nat {
    Widen(Fat12, Decode12(low as int + 256 * (position % 256), c))
  }

  class Window {
    const disk: seq<seq<Byte>>
    const reservedSectors: nat
    const ty: FatType
    const cache: array<Byte>
    var position: Word

    /** FAT_Initialize: no sector is cached yet. */
    constructor (disk: seq<seq<Byte>>, reservedSectors: nat, ty: FatType)
      requires Sectors(disk) && reservedSectors + 5 <= |disk| < 0x1_0000_0000
      ensures Valid() && fresh(cache) && position == 0xFFFF_FFFF
      ensures this.disk == disk && this.reservedSectors == reservedSectors && this.ty == ty
    {
      this.disk, this.reservedSectors, this.ty := disk, reservedSectors, ty;
      cache := new Byte[2560];
      position := 0xFFFF_FFFF;
    }

    /** The FAT on disk, from its first byte on. */
    ghost function Fat(): seq<Byte>
      requires Sectors(disk) && reservedSectors <= |disk|
    {
      Flat(disk[reservedSectors..])
    }

    ghost predicate Valid()
      reads this, cache
    {
      && Sectors(disk) && reservedSectors + 5 <= |disk| < 0x1_0000_0000
      && cache.Length == 2560
      && (position == 0xFFFF_FFFF || Cached(position))
    }

    /** The window holds the five sectors from this one on. */
    ghost predicate Cached(start: nat)
      requires Sectors(disk) && reservedSectors <= |disk|
      reads cache
    {
      reservedSectors + start + 5 <= |disk| && cache[..] == Fat()[512 * start..512 * start + 2560]
    }

    /** FAT_ReadFat. */
    method ReadFat(sector: nat)
      requires Sectors(disk) && reservedSectors + sector + 5 <= |disk| && cache.Length == 2560
      modifies cache
      ensures Cached(sector)
    {
      ghost var fat := Fat();
      for i := 0 to 2560
        invariant forall k | 0 <= k < i :: cache[k] == fat[512 * sector + k]
      {
        SectorByte(sector, i);
        cache[i] := disk[reservedSectors + sector + i / 512][i % 512];
      }
    }

    lemma SectorByte(sector: nat, i: nat)
      requires Sectors(disk) && reservedSectors + sector + 5 <= |disk| && i < 2560
      ensures Fat()[512 * sector + i] == disk[reservedSectors + sector + i / 512][i % 512]
    {
      assert (512 * sector + i) / 512 == sector + i / 512 && (512 * sector + i) % 512 == i % 512;
    }

    /** The cache as it lies in memory, followed by the word that holds its position. */
    function Memory(): (m: seq<Byte>)
      reads this, cache
      ensures |m| == cache.Length + 4
    {
      cache[..] + [position % 256, position / 0x100 % 256, position / 0x1_0000 % 256, position / 0x100_0000]
    }

    /**
     * FAT_NextCluster: from any window, the on-disk entry - except for a 12-bit entry split by
     * the end of the window, whose second byte is taken from the window's position.
     */
    method NextCluster(c: Word) returns (next: nat)
      requires Valid() && c < 0x1000_0000 && reservedSectors + Offset(ty, c) / 512 + 5 <= |disk|
      modifies this`position, cache
      ensures Valid() && position == Slide(old(position), Offset(ty, c) / 512)
      ensures var sector := Offset(ty, c) / 512;
        position == if old(position) <= sector < old(position) + 5 then old(position) else sector
      ensures InTable(ty, Fat(), c)
      ensures !Split(ty, position, c) ==> next == Read(ty, Fat(), c)
      ensures Split(ty, position, c) ==> next == SplitValue(Fat()[Offset(ty, c)], position, c)
    {
      FatIndexValue(ty, c);
      hide *;
      var fatIndex := FatIndex(ty, c);
      SlideIs(position, fatIndex / 512);
      Load(fatIndex / 512);
      InWindow(c, fatIndex);
      next := Decode(c, Wrap(fatIndex as int - position as int * 512));
    }

    /** Slide the window if the sector lies outside it. */
    method Load(sector: nat)
      requires Valid() && reservedSectors + sector + 5 <= |disk|
      modifies this`position, cache
      ensures Valid() && position == Slide(old(position), sector)
      ensures Cached(position) && position <= sector < position + 5
    {
      hide Flat;
      if sector < position || sector >= Wrap(position as int + 5) {
        ReadFat(sector);
        position := sector;
      }
    }

    /** The load of the entry at this index of the window, by type. */
    method Decode(c: Word, index: nat) returns (next: nat)
      requires Valid() && Cached(position) && InTable(ty, Fat(), c)
      requires Offset(ty, c) == 512 * position + index
        && index + (if ty.Fat32? then 4 else if ty.Fat16? then 2 else 1) <= 2560
      ensures !Split(ty, position, c) ==> next == Read(ty, Fat(), c)
      ensures Split(ty, position, c) ==> next == SplitValue(Fat()[Offset(ty, c)], position, c)
    {
      hide *;
      match ty {
        case Fat12 =>
          if index == 2559 { WindowEnd(c); } else { Window16(c, index); }
          next := Widen(ty, Decode12(Get16(Memory(), index), c));
        case Fat16 =>
          Window16(c, index);
          next := Widen(ty, Get16(Memory(), index));
        case Fat32 =>
          Window32(c, index);
          next := Get32(Memory(), index);
      }
    }

    lemma MemoryByte(i: nat)
      requires Valid() && Cached(position) && i < 2560
      ensures |Memory()| == 2564 && 512 * position + i < |Fat()| && Memory()[i] == Fat()[512 * position + i]
    {
      assert Memory()[i] == cache[..][i];
    }

    /** Inside the window a load is a load from the FAT. */
    lemma Load16(index: nat)
      requires Valid() && Cached(position) && index + 2 <= 2560
      ensures |Memory()| == 2564 && 512 * position + index + 2 <= |Fat()|
      ensures Get16(Memory(), index) == Get16(Fat(), 512 * position + index)
    {
      MemoryByte(index);
      MemoryByte(index + 1);
      hide Valid, Cached, Memory, Fat;
    }

    lemma Window16(c: Word, index: nat)
      requires Valid() && Cached(position) && index + 2 <= 2560 && Offset(ty, c) == 512 * position + index
      requires !ty.Fat32?
      ensures |Memory()| == 2564 && InTable(ty, Fat(), c) && !Split(ty, position, c)
      ensures ty.Fat12? ==> Read(ty, Fat(), c) == Widen(ty, Decode12(Get16(Memory(), index), c))
      ensures ty.Fat16? ==> Read(ty, Fat(), c) == Widen(ty, Get16(Memory(), index))
    {
      Load16(index);
      hide Valid, Cached, Memory, Fat, Widen, Decode12, Offset, Get16;
    }

    lemma Window32(c: Word, index: nat)
      requires Valid() && Cached(position) && index + 4 <= 2560 && Offset(ty, c) == 512 * position + index && ty.Fat32?
      ensures |Memory()| == 2564 && InTable(ty, Fat(), c) && !Split(ty, position, c)
      ensures Read(ty, Fat(), c) == Get32(Memory(), index)
    {
      MemoryByte(index);
      MemoryByte(index + 1);
      MemoryByte(index + 2);
      MemoryByte(index + 3);
      hide Valid, Cached, Memory, Fat, Offset;
    }

    /** At its last byte a load takes its high byte from the position behind the cache. */
    lemma LoadEnd()
      requires Valid() && Cached(position)
      ensures |Memory()| == 2564 && 512 * position + 2559 < |Fat()|
      ensures Get16(Memory(), 2559) == Fat()[512 * position + 2559] as int + 256 * (position % 256)
    {
      MemoryByte(2559);
      assert Memory()[2560] == position % 256;
      hide Valid, Cached, Memory, Fat;
    }

    lemma WindowEnd(c: Word)
      requires Valid() && Cached(position) && Offset(ty, c) == 512 * position + 2559 && InTable(ty, Fat(), c)
        && ty.Fat12?
      ensures |Memory()| == 2564 && Split(ty, position, c)
      ensures SplitValue(Fat()[Offset(ty, c)], position, c) == Widen(ty, Decode12(Get16(Memory(), 2559), c))
    {
      LoadEnd();
      hide Valid, Cached, Memory, Fat, Widen, Decode12, Offset, Get16;
    }

    /** The entry starts inside the window, and only a 12-bit one can end outside. */
    lemma InWindow(c: Word, fatIndex: Word)
      requires Valid() && Cached(position) && fatIndex == Offset(ty, c) && position <= fatIndex / 512 < position + 5
      requires reservedSectors + fatIndex / 512 + 5 <= |disk|
      ensures InTable(ty, Fat(), c)
      ensures Wrap(fatIndex as int - position as int * 512) == fatIndex - 512 * position
      ensures fatIndex - 512 * position + (if ty.Fat32? then 4 else if ty.Fat16? then 2 else 1) <= 2560
    {
      assert |Fat()| == 512 * (|disk| - reservedSectors);
      hide Valid, Cached, Fat, Offset;
      SectorBounds(fatIndex, position);
      if ty.Fat16? { assert fatIndex == 2 * c by { AlignedOffset(ty, c); } Fits2(c, position); }
      if ty.Fat32? { assert fatIndex == 4 * c by { AlignedOffset(ty, c); } Fits4(c, position); }
    }
  }

  lemma AlignedOffset(ty: FatType, c: nat)
    ensures ty.Fat16? ==> Offset(ty, c) == 2 * c
    ensures ty.Fat32? ==> Offset(ty, c) == 4 * c
  {
  }

  /** Entries of two and four bytes are aligned, so one that starts in the window ends in it. */
  lemma Fits2(c: nat, start: nat)
    requires 2 * c < 512 * start + 2560
    ensures 2 * c - 512 * start + 2 <= 2560
  {
    assert c < 256 * start + 1280;
  }

  lemma Fits4(c: nat, start: nat)
    requires 4 * c < 512 * start + 2560
    ensures 4 * c - 512 * start + 4 <= 2560
  {
    assert c < 128 * start + 640;
  }

  lemma SectorBounds(o: nat, start: nat)
    requires start <= o / 512 < start + 5
    ensures 512 * start <= o < 512 * start + 2560
  {
  }

  // ---- split entries --------------------------------------------------------------------------------

  /** A split entry reads correctly exactly when the position supplies the digits of the next sector. */
  lemma SplitExact(t: seq<Byte>, position: nat, c: nat)
    requires Split(Fat12, position, c) && InTable(Fat12, t, c)
    ensures var o := Offset(Fat12, c);
      SplitValue(t[o], position, c) == Read(Fat12, t, c) <==>
        if c % 2 == 1 then t[o + 1] == position % 256 else t[o + 1] % 16 == position % 256 % 16
  {
    var o := Offset(Fat12, c);
    var low: nat, high: nat, found: nat := t[o], t[o + 1], position % 256;
    assert Get16(t, o) == low + 256 * high;
    HighDigits(low, high, found);
    var a, b := Decode12(low + 256 * high, c), Decode12(low + 256 * found, c);
    assert SplitValue(t[o], position, c) == Widen(Fat12, b) && Read(Fat12, t, c) == Widen(Fat12, a);
    Decode12Value(low + 256 * high, c);
    Decode12Value(low + 256 * found, c);
    hide *;
    BelowModulus(low + 256 * high);
    BelowModulus(low + 256 * found);
    WidenInjective(a, b);
  }

  lemma BelowModulus(v: nat)
    ensures v % 4096 < 4096
  {
  }

  lemma HighDigits(low: nat, a: nat, b: nat)
    requires low < 256 && a < 256 && b < 256
    ensures (low + 256 * a) / 16 == (low + 256 * b) / 16 <==> a == b
    ensures (low + 256 * a) % 4096 == (low + 256 * b) % 4096 <==> a % 16 == b % 16
    ensures (low + 256 * a) / 16 < 4096 && (low + 256 * b) / 16 < 4096
  {
    TwoBytes(low, a);
    TwoBytes(low, b);
  }

  lemma WidenInjective(a: nat, b: nat)
    requires a < 4096 && b < 4096
    ensures Widen(Fat12, a) == Widen(Fat12, b) <==> a == b
  {
    WidenValue(Fat12, a);
    WidenValue(Fat12, b);
    hide Or;
  }

  /** Cluster 1706 looked up in the window at sector 0 of a FAT whose sector 5 starts with 1. */
  lemma SplitCounterexample(t: seq<Byte>)
    requires |t| == 3072 && t[2560] == 1
    ensures Split(Fat12, 0, 1706) && InTable(Fat12, t, 1706)
    ensures SplitValue(t[2559], 0, 1706) != Read(Fat12, t, 1706)
  {
    SplitExact(t, 0, 1706);
  }
}
