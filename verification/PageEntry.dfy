// The macros of virtual_memory_manager.h on 32-bit page-directory and page-table entries.
module PageEntry {
  import opened Bits

  /** Entries of a directory or a table, and pages of the whole address space. */
  const ENTRIES: nat := 1024
  const PAGE_COUNT: nat := 0x10_0000

  const PRESENT: Word := 0x01
  const READ_WRITE: Word := 0x02
  const FRAME_MASK: Word := 0x7FFF_F000

  function PdIndex(v: Word): nat { v / 0x40_0000 }

  function PtIndex(v: Word): nat { And(v / 0x1000, 0x3FF) }

  function PagePhysAddr(e: Word): nat { And(e, Not(0xFFF)) }

  function SetAttribute(e: Word, attr: Word): nat { Or(e, attr) }

  function UnsetAttribute(e: Word, attr: Word): nat { And(e, Not(attr)) }

  predicate TstAttribute(e: Word, attr: Word) { And(e, attr) != 0 }

  function SetFrame(e: Word, addr: Word): nat { Or(And(e, Not(FRAME_MASK)), addr) }

  lemma PtIndexValue(v: Word)
    ensures PtIndex(v) == v / 4096 % 1024
  {
    Powers();
    hide And, Pow2;
    LowPart(v / 4096, v / 4096 / 1024, v / 4096 % 1024, 10, 1024);
  }

  lemma PagePhysAddrValue(e: Word)
    ensures PagePhysAddr(e) == 4096 * (e / 4096)
  {
    Powers();
    hide And, Pow2;
    AndParts(e, 0xFFFF_F000, e / 4096, e % 4096, 0xF_FFFF, 0, 12, 4096);
    AndFull(e / 4096, 20, 0xF_FFFF);
    AndNone(e % 4096);
  }

  lemma PresentValue(e: Word)
    ensures TstAttribute(e, PRESENT) <==> e % 2 == 1
  {
    Powers();
    hide And, Pow2;
    LowPart(e, e / 2, e % 2, 1, 2);
  }

  lemma OffsetValue(v: Word)
    ensures And(v, 0xFFF) == v % 4096
  {
    Powers();
    hide And, Pow2;
    LowPart(v, v / 4096, v % 4096, 12, 4096);
  }

  /** Setting an attribute of the low twelve bits does not touch the frame. */
  lemma SetAttributeValue(e: Word, attr: Word)
    requires attr < 4096
    ensures SetAttribute(e, attr) < WORD_LIMIT
    ensures SetAttribute(e, attr) / 4096 == e / 4096
    ensures attr % 2 == 1 || e % 2 == 1 <==> SetAttribute(e, attr) % 2 == 1
  {
    Powers();
    BitOr(e, attr, 0);
    hide Or, Pow2;
    OrBound(e, attr, 32);
    OrBound(e % 4096, attr, 12);
    OrParts(e, attr, e / 4096, e % 4096, 0, attr, 12, 4096);
    OrNone(e / 4096);
  }

  lemma UnsetPresentValue(e: Word)
    ensures UnsetAttribute(e, PRESENT) == 2 * (e / 2)
  {
    Powers();
    hide And, Pow2;
    AndParts(e, 0xFFFF_FFFE, e / 2, e % 2, 0x7FFF_FFFF, 0, 1, 2);
    AndFull(e / 2, 31, 0x7FFF_FFFF);
    AndNone(e % 2);
  }

  /** What SET_FRAME keeps of the old entry: the twelve attribute bits and bit 31. */
  lemma ClearFrameValue(e: Word)
    ensures And(e, Not(FRAME_MASK)) == e % 4096 + (if e >= 0x8000_0000 then 0x8000_0000 else 0)
  {
    Powers();
    hide And, Pow2;
    AndParts(e, 0x8000_0FFF, e / 4096, e % 4096, 0x8_0000, 0xFFF, 12, 4096);
    AndFull(e % 4096, 12, 0xFFF);
    TopBit(e / 4096);
  }

  lemma TopBit(page: nat)
    requires page < 0x10_0000
    ensures And(page, 0x8_0000) == if page >= 0x8_0000 then 0x8_0000 else 0
  {
    Powers();
    hide And, Pow2;
    AndParts(page, 0x8_0000, page / 0x8_0000, page % 0x8_0000, 1, 0, 19, 0x8_0000);
    AndFull(page / 0x8_0000, 1, 1);
    AndNone(page % 0x8_0000);
  }

  lemma OrTopBit(page: nat)
    requires page < 0x10_0000
    ensures Or(0x8_0000, page) == if page >= 0x8_0000 then page else page + 0x8_0000
  {
    Powers();
    OrStep(1, page / 0x8_0000);
    OrNone(0);
    assert Or(1, page / 0x8_0000) == 1;
    hide Or, Pow2;
    OrParts(0x8_0000, page, 1, 0, page / 0x8_0000, page % 0x8_0000, 19, 0x8_0000);
    OrNone(page % 0x8_0000);
  }

  /** SET_FRAME with a page-aligned address. */
  lemma SetFrameValue(e: Word, addr: Word)
    requires addr % 4096 == 0
    ensures SetFrame(e, addr) == e % 4096 + addr + (if e >= 0x8000_0000 && addr < 0x8000_0000 then 0x8000_0000 else 0)
    ensures SetFrame(e, addr) < WORD_LIMIT
  {
    Powers();
    hide And, Or, Pow2;
    ClearFrameValue(e);
    var high := if e >= 0x8000_0000 then 0x8_0000 else 0;
    var page := addr / 4096;
    OrParts(And(e, Not(FRAME_MASK)), addr, high, e % 4096, page, 0, 12, 4096);
    OrNone(e % 4096);
    OrNone(page);
    OrTopBit(page);
  }

  /**
   * An entry holds the address given to SET_FRAME exactly when that address is page-aligned
   * and bit 31 of the old entry is not left over.
   */
  lemma SetFrameExact(e: Word, addr: Word)
    ensures SetFrame(e, addr) < WORD_LIMIT
    ensures PagePhysAddr(SetFrame(e, addr)) == addr <==> addr % 4096 == 0 && (e < 0x8000_0000 || addr >= 0x8000_0000)
  {
    SetFrameBound(e, addr);
    hide SetFrame, PagePhysAddr;
    PagePhysAddrValue(SetFrame(e, addr));
    if addr % 4096 == 0 { SetFrameValue(e, addr); }
  }

  lemma SetFrameBound(e: Word, addr: Word)
    ensures SetFrame(e, addr) < WORD_LIMIT
  {
    Powers();
    hide And, Or, Pow2;
    AndBound(e, Not(FRAME_MASK));
    OrBound(And(e, Not(FRAME_MASK)), addr, 32);
  }
}
