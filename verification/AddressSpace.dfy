// virtual_memory_manager.c and allocate_new_page: the page directory and the page tables are
// words of physical memory, in frames taken from the same bitmap as the data they map.
module AddressSpace {
  import opened Bits
  import opened FrameOwnership
  import opened PageEntry
  import opened PagingBoot
  import opened PagingMemory
  import P = PagingSpec
  import R = PagingRollback
  import PMM = PhysicalMemoryManager
  import S = PageScan

  /** Free blocks and live runs lie in physical memory, below 2 GiB. */
  ghost predicate InMemory(f: Frames, words: nat) {
    && (forall b | b in f.free :: ENTRIES * (b + 1) <= words && b < 0x8_0000)
    && (forall s | s in f.live :: ENTRIES * (s + f.live[s]) <= words && s + f.live[s] <= 0x8_0000)
  }

  lemma InMemoryAlloc(f: Frames, g: Frames, s: nat, n: nat, words: nat)
    requires InMemory(f, words) && AllocStep(f, g, s, n)
    ensures InMemory(g, words)
    ensures ENTRIES * (s + n) <= words && s + n <= 0x8_0000
  {
    assert s + n - 1 in Run(s, n);
  }

  /**
   * Pages on frames of data runs are memory of their own: storing a word through one changes
   * no translation and no word read through a page on another frame.
   */
  lemma StoreThroughMapping(m: seq<Word>, v: P.View, s: nat, p: nat, o: nat, w: Word, q: nat, j: nat, f: nat, g: nat)
    requires P.VInv(v) && Structured(m, v.dir) && v.tables == TablesOf(m, v.dir) && v.pages == PagesOf(m, v.dir)
    requires P.DataRun(v, s) && f in Run(s, v.frames.live[s])
    requires p in v.pages && v.pages[p] == f && q in v.pages && v.pages[q] == g
    requires o < 1024 && 1024 * (f + 1) <= |m| && j < 1024 && 1024 * (g + 1) <= |m|
    ensures Structured(m[1024 * f + o := w], v.dir)
    ensures TablesOf(m[1024 * f + o := w], v.dir) == v.tables && PagesOf(m[1024 * f + o := w], v.dir) == v.pages
    ensures Entry(m[1024 * f + o := w], g, j) == if g == f && j == o then w else Entry(m, g, j)
  {
    hide *;
    DataFrameOutside(m, v, s, f);
    StoreOutsideEntry(m, v.dir, f, o, w, g, j);
  }

  /** The frame of the directory, or of a table. */
  ghost predicate OfTables(v: P.View, f: nat) {
    f == v.dir || exists i :: i in v.tables && v.tables[i] == f
  }

  /** No word has changed but of the directory and of the tables as they are now. */
  ghost predicate DataKept(m0: seq<Word>, m: seq<Word>, v: P.View) {
    |m| == |m0| && forall a: nat | a < |m| && !OfTables(v, a / 1024) :: m[a] == m0[a]
  }

  lemma DataSame(m: seq<Word>, v: P.View)
    ensures DataKept(m, m, v)
  {
  }

  lemma DataFrom(m0: seq<Word>, m: seq<Word>, f: nat, v: P.View)
    requires SameOutside(m0, m, f) && OfTables(v, f)
    ensures DataKept(m0, m, v)
  {
    hide OfTables;
  }

  /** The directory stays, and no table goes. */
  ghost predicate TablesStay(v: P.View, w: P.View) {
    v.dir == w.dir && P.SubMap(v.tables, w.tables)
  }

  lemma DataTwice(m0: seq<Word>, m1: seq<Word>, m2: seq<Word>, v: P.View, w: P.View)
    requires DataKept(m0, m1, v) && DataKept(m1, m2, w) && TablesStay(v, w)
    ensures DataKept(m0, m2, w)
  {
    forall f: nat | OfTables(v, f) ensures OfTables(w, f) {
    }
    hide OfTables;
  }

  lemma StayInstalled(v: P.View, news: seq<P.Install>, pages: map<nat, nat>)
    requires P.CanInstallAll(v, news)
    ensures TablesStay(v, P.InstallAll(v, news)) && TablesStay(v, P.InstallAll(v, news).(pages := pages))
  {
    P.InstallKeeps(v, news);
    hide P.InstallAll;
  }

  lemma StayInstalledOne(v: P.View, t: P.Install)
    requires P.CanInstall(v, t)
    ensures TablesStay(v, P.InstallOne(v, t))
  {
  }

  lemma StaySame(v: P.View)
    ensures TablesStay(v, v)
  {
  }

  lemma SameTablesStay(v: P.View, w: P.View)
    requires w.dir == v.dir && w.tables == v.tables
    ensures TablesStay(v, w)
  {
  }

  /** Every page of the range has a table. */
  ghost predicate TablesThere(v: P.View, page: nat, n: nat) {
    forall p | p in P.Range(page, n) :: p / ENTRIES in v.tables
  }

  lemma RangeTablesStay(v: P.View, w: P.View, page: nat, n: nat)
    requires TablesThere(v, page, n) && w.tables == v.tables
    ensures TablesThere(w, page, n)
  {
  }

  /** The directory entry of an address. */
  ghost function EntryOf(a: Word): nat {
    a / 4096 / ENTRIES
  }

  lemma EntryOfPage(a: Word)
    ensures EntryOf(a) == a / 4096 / ENTRIES
  {
  }

  /** Tables as they were, then a store into one of them. */
  lemma DataMapped(m0: seq<Word>, m1: seq<Word>, m2: seq<Word>, v: P.View, w: P.View, i: nat)
    requires DataKept(m0, m1, v) && w.dir == v.dir && w.tables == v.tables && i in w.tables
    requires SameOutside(m1, m2, w.tables[i])
    ensures DataKept(m0, m2, w)
  {
    TableOfEntry(w, i);
    assert TablesStay(v, w);
    hide SameOutside, OfTables, TablesStay;
    DataFrom(m1, m2, w.tables[i], w);
    hide DataKept;
    DataTwice(m0, m1, m2, v, w);
  }

  lemma TableOfEntry(v: P.View, i: nat)
    requires i in v.tables
    ensures OfTables(v, v.tables[i])
  {
  }

  lemma StoreOutsideEntry(m: seq<Word>, d: nat, f: nat, o: nat, w: Word, g: nat, j: nat)
    requires Structured(m, d) && OutsideTables(m, d, f)
    requires o < 1024 && 1024 * (f + 1) <= |m| && j < 1024 && 1024 * (g + 1) <= |m|
    ensures Structured(m[1024 * f + o := w], d)
    ensures TablesOf(m[1024 * f + o := w], d) == TablesOf(m, d) && PagesOf(m[1024 * f + o := w], d) == PagesOf(m, d)
    ensures Entry(m[1024 * f + o := w], g, j) == if g == f && j == o then w else Entry(m, g, j)
  {
    assert (1024 * f + o) / 1024 == f;
    StoreOutside(m, d, 1024 * f + o, w);
    StoreEntry(m, f, o, w);
    if g != f { EntryOutside(m, m[1024 * f + o := w], f, g, j); }
  }

  lemma DataFrameOutside(m: seq<Word>, v: P.View, s: nat, f: nat)
    requires P.VInv(v) && Structured(m, v.dir) && v.tables == TablesOf(m, v.dir)
    requires P.DataRun(v, s) && f in Run(s, v.frames.live[s])
    ensures OutsideTables(m, v.dir, f)
  {
    forall i: nat | i < 1024 && Present(Entry(m, v.dir, i))
      ensures Entry(m, v.dir, i) / 4096 != f
    {
      assert i in v.tables && v.tables[i] in v.frames.live;
    }
  }

  ghost predicate OtherPagesSame(before: map<nat, nat>, after: map<nat, nat>, page: nat) {
    forall q | q != page :: (q in after <==> q in before) && (q in after ==> after[q] == before[q])
  }

  lemma PageMapped(v: P.View, w: P.View, news: seq<P.Install>, page: nat, frame: nat)
    requires P.CanInstallAll(v, news) && w == P.InstallAll(v, news).(pages := v.pages[page := frame])
    ensures page in w.pages && w.pages[page] == frame && OtherPagesSame(v.pages, w.pages, page)
  {
    hide P.CanInstallAll, P.InstallAll;
  }

  lemma PageStart(p: Word)
    requires p % 4096 == 0
    ensures 4096 * (p / 4096) == p
  {
  }

  lemma InMemoryFree(f: Frames, g: Frames, s: nat, words: nat)
    requires InMemory(f, words) && FreeStep(f, g, s)
    ensures InMemory(g, words)
  {
  }

  /** A frame of a live run that is not a table is outside the tables in memory. */
  lemma UnownedOutside(m: seq<Word>, v: P.View, f: nat)
    requires P.VInv(v) && Structured(m, v.dir) && v.tables == TablesOf(m, v.dir)
    requires f !in v.frames.live
    ensures OutsideTables(m, v.dir, f)
  {
    forall i: nat | i < ENTRIES && Present(Entry(m, v.dir, i))
      ensures Entry(m, v.dir, i) / 4096 != f
    {
      assert i in v.tables;
    }
  }

  /** The entry the three macros build from an absent one. */
  ghost function DirectoryEntry(e: Word, table: Word): Word
    requires e < 4096 && table % 4096 == 0
  {
    DirectoryEntryValue(e, table);
    SetFrame(SetAttribute(SetAttribute(e, PRESENT), READ_WRITE), table)
  }

  lemma DirectoryEntryValue(e: Word, table: Word)
    requires e < 4096 && table % 4096 == 0
    ensures SetAttribute(e, PRESENT) < WORD_LIMIT
    ensures SetAttribute(SetAttribute(e, PRESENT), READ_WRITE) < WORD_LIMIT
    ensures var w := SetFrame(SetAttribute(SetAttribute(e, PRESENT), READ_WRITE), table);
      w < WORD_LIMIT && Present(w) && w / 4096 == table / 4096 && (table < 0x8000_0000 ==> w < 0x8000_0000)
  {
    hide SetAttribute, SetFrame;
    SetAttributeValue(e, PRESENT);
    LowEntry(e, SetAttribute(e, PRESENT));
    SetAttributeValue(SetAttribute(e, PRESENT), READ_WRITE);
    LowEntry(e, SetAttribute(SetAttribute(e, PRESENT), READ_WRITE));
    SetFrameValue(SetAttribute(SetAttribute(e, PRESENT), READ_WRITE), table);
    EntryValue(SetAttribute(SetAttribute(e, PRESENT), READ_WRITE), table);
  }

  lemma LowEntry(e: nat, f: nat)
    requires e < 4096 && f / 4096 == e / 4096
    ensures f < 4096
  {
  }

  lemma EntryValue(g: nat, table: nat)
    requires g < 4096 && g % 2 == 1 && table % 4096 == 0
    ensures (g % 4096 + table) % 2 == 1 && (g % 4096 + table) / 4096 == table / 4096
    ensures table < 0x8000_0000 ==> g % 4096 + table < 0x8000_0000
  {
  }

  /** A 32-bit pointer moved on by one page. */
  function NextPage(a: Word): Word {
    (a + 4096) % WORD_LIMIT
  }

  ghost function AddressAt(a: Word, i: nat): Word {
    if i == 0 then a else NextPage(AddressAt(a, i - 1))
  }

  lemma {:induction false} AddressAtPage(a: Word, i: nat)
    ensures AddressAt(a, i) / 4096 == P.PageAt(a / 4096, i)
  {
    if i == 0 {
      P.PageAtStart(a / 4096);
    } else {
      hide P.PageAt, NextPage;
      AddressAtPage(a, i - 1);
      NextPagePage(AddressAt(a, i - 1));
      P.PageAtNext(a / 4096, i - 1);
    }
  }

  lemma AddressAtSteps(a: Word, i: nat)
    ensures AddressAt(a, 0) == a
    ensures AddressAt(a, i + 1) == NextPage(AddressAt(a, i))
  {
  }

  lemma NextPagePage(a: Word)
    ensures NextPage(a) / 4096 == (a / 4096 + 1) % PAGE_COUNT
  {
  }

  lemma FrameAddress(f: nat)
    ensures 4096 * f % 4096 == 0 && 4096 * f / 4096 == f
    ensures f < 0x8_0000 ==> 4096 * f < 0x8000_0000 && NextPage(4096 * f) == 4096 * (f + 1)
  {
  }

  ghost function TableEntry(e: Word, address: Word): Word
    requires address % 4096 == 0
  {
    TableValue(e, address);
    SetAttribute(SetFrame(e, address), PRESENT)
  }

  lemma TableValue(e: Word, address: Word)
    requires address % 4096 == 0
    ensures SetFrame(e, address) < WORD_LIMIT
    ensures var w := SetAttribute(SetFrame(e, address), PRESENT);
      && w < WORD_LIMIT && Present(w)
      && (e < 0x8000_0000 && address < 0x8000_0000 ==> w < 0x8000_0000 && w / 4096 == address / 4096)
  {
    hide SetAttribute, SetFrame;
    SetFrameValue(e, address);
    SetAttributeValue(SetFrame(e, address), PRESENT);
  }

  lemma OrOne(x: nat)
    ensures Or(x, 1) == x / 2 * 2 + 1
  {
    OrStep(x, 1);
    OrNone(x / 2);
    hide Or;
  }

  lemma OrTwo(y: nat)
    ensures Or(2 * y + 1, 2) == 4 * (y / 2) + 3
  {
    OrStep(2 * y + 1, 2);
    OrOne(y);
    hide Or;
    assert (2 * y + 1) / 2 == y && (2 * y + 1) % 2 == 1;
  }

  lemma LowBits(e: nat, address: nat)
    requires address % 4096 == 0
    ensures (e % 4096 + address) / 2 * 2 + 1 == address + e % 4096 / 2 * 2 + 1
  {
    assert address == 2 * (address / 2);
  }

  /** Of the old entry the attributes stay, and the present bit is set - no other. */
  lemma TableEntryExact(e: Word, address: Word)
    requires address % 4096 == 0 && e < 0x8000_0000 && address < 0x8000_0000
    ensures TableEntry(e, address) == address + e % 4096 / 2 * 2 + 1
  {
    SetFrameValue(e, address);
    OrOne(SetFrame(e, address));
    LowBits(e, address);
    hide Or, SetFrame;
  }

  /** A directory entry becomes present and writable. */
  lemma DirectoryEntryExact(e: Word, table: Word)
    requires e < 4096 && table % 4096 == 0 && table < 0x8000_0000
    ensures DirectoryEntry(e, table) == table + e / 4 * 4 + 3
  {
    var y: nat := e / 2;
    OrOne(e);
    OrTwo(y);
    TwoBits(e);
    SetFrameValue(4 * (y / 2) + 3, table);
    hide Or, SetFrame;
  }

  lemma TwoBits(e: nat)
    requires e < 4096
    ensures e / 2 * 2 == 2 * (e / 2) && e / 4 * 4 == 4 * (e / 2 / 2) && 4 * (e / 2 / 2) + 3 < 4096
  {
  }

  ghost function ClearedEntry(e: Word): Word {
    ClearedValue(e);
    UnsetAttribute(SetFrame(e, 0), PRESENT)
  }

  lemma ClearedEntryExact(e: Word)
    ensures e < 0x8000_0000 ==> ClearedEntry(e) == e % 4096 / 2 * 2
  {
    SetFrameValue(e, 0);
    UnsetPresentValue(SetFrame(e, 0));
    hide SetFrame, UnsetAttribute;
  }

  lemma ClearedValue(e: Word)
    ensures SetFrame(e, 0) < WORD_LIMIT
    ensures var w := UnsetAttribute(SetFrame(e, 0), PRESENT);
      0 <= w < WORD_LIMIT && !Present(w) && (e < 0x8000_0000 ==> w < 4096)
  {
    hide UnsetAttribute, SetFrame;
    SetFrameValue(e, 0);
    UnsetPresentValue(SetFrame(e, 0));
  }

  lemma ScanAddress(i: nat, j: nat)
    requires i < 1024 && j < 1024
    ensures Or(Wrap(i * 0x40_0000), j * 0x1000) == 4096 * (1024 * i + j)
  {
    Powers();
    hide Or, Pow2;
    var high, low := i * 0x40_0000, j * 0x1000;
    OrParts(high, low, i, 0, 0, low, 22, 0x40_0000);
    OrNone(i);
    OrNone(low);
    assert Wrap(high) == high;
  }

  /** The three boot allocations are distinct from each other. */
  lemma BootOwnership(s0: Frames, s1: Frames, s2: Frames, s3: Frames, d: nat, high: nat, low: nat)
    requires AllocStep(s0, s1, d, 3) && AllocStep(s1, s2, high, 1) && AllocStep(s2, s3, low, 1)
    requires Inv(s0) && Inv(s1) && Inv(s2) && Inv(s3)
    ensures d != high && d != low && high != low
    ensures d in s3.live && s3.live[d] == 3 && high in s3.live && s3.live[high] == 1
      && low in s3.live && s3.live[low] == 1
  {
    assert high in Run(high, 1) && low in Run(low, 1);
    assert d in Run(d, 3);
  }

  /** The runs of the directory and of the two boot tables, each taken as allocate_blocks does. */
  ghost predicate BootRuns(f: Frames, max: Word, d: nat, high: nat, low: nat) {
    var g := P.AllocRun(f, d, 3);
    var h := P.AllocRun(g, high, 1);
    && Reserved(f, max, d, 3) && Reserved(g, max, high, 1) && Reserved(h, max, low, 1)
  }

  /** This run can be handed out, and no run the search is sure to find starts below it. */
  ghost predicate Reserved(f: Frames, max: Word, base: nat, n: nat) {
    P.CanAlloc(f, base, n) && FirstOffer(f, max, base, n)
  }

  /** One of the three runs was refused. */
  ghost predicate BootRefused(f: Frames, max: Word, d: nat, high: nat) {
    var g := P.AllocRun(f, d, 3);
    || NoOffer(f, max, 3)
    || (Reserved(f, max, d, 3)
        && (NoOffer(g, max, 1) || (Reserved(g, max, high, 1) && NoOffer(P.AllocRun(g, high, 1), max, 1))))
  }

  lemma BootRefusal(f: Frames, g: Frames, h: Frames, max: Word, d: nat, high: nat)
    requires g == P.AllocRun(f, d, 3) && h == P.AllocRun(g, high, 1)
    requires
      || NoOffer(f, max, 3)
      || (Reserved(f, max, d, 3) && NoOffer(g, max, 1))
      || (Reserved(f, max, d, 3) && Reserved(g, max, high, 1) && NoOffer(h, max, 1))
    ensures BootRefused(f, max, d, high)
  {
    hide Reserved, NoOffer, P.AllocRun;
  }

  ghost function BootFrames(f: Frames, d: nat, high: nat, low: nat): Frames {
    P.AllocRun(P.AllocRun(P.AllocRun(f, d, 3), high, 1), low, 1)
  }

  ghost function BootedView(f: Frames, d: nat, high: nat, low: nat, kernel: nat): P.View {
    P.View(BootFrames(f, d, high, low), d, map[0 := low, 768 := high], BootPages(kernel))
  }

  lemma BootRunsTaken(s0: Frames, s1: Frames, s2: Frames, s3: Frames, max: Word, d: nat, high: nat, low: nat)
    requires Reserved(s0, max, d, 3) && s1 == P.AllocRun(s0, d, 3)
    requires Reserved(s1, max, high, 1) && s2 == P.AllocRun(s1, high, 1)
    requires Reserved(s2, max, low, 1) && s3 == P.AllocRun(s2, low, 1)
    ensures BootRuns(s0, max, d, high, low) && s3 == BootFrames(s0, d, high, low)
  {
    hide Reserved, P.AllocRun;
  }

  lemma BootView(s: Frames, d: nat, low: nat, high: nat, kernel: nat)
    requires Inv(s) && low != high
    requires d in s.live && s.live[d] == 3 && high in s.live && s.live[high] == 1 && low in s.live && s.live[low] == 1
    ensures P.VInv(P.View(s, d, map[0 := low, 768 := high], BootPages(kernel)))
  {
  }

  /** The word the boot code builds for a frame: present and writable. */
  lemma BootEntryValue(frame: Word)
    requires frame % 4096 == 0
    ensures SetAttribute(0, PRESENT) == 1 && SetAttribute(1, READ_WRITE) == 3 && SetFrame(3, frame) == frame + 3
  {
    OrNone(1);
    OrStep(1, 2);
    OrNone(0);
    assert Or(1, 2) == 3;
    hide Or, SetFrame;
    SetFrameValue(3, frame);
  }

  lemma LoopIndex(virt: nat, i: nat)
    requires virt % 0x40_0000 == 0 && i < 1024
    ensures (virt + 4096 * i) / 4096 % 1024 == i
  {
    var q := virt / 0x40_0000;
    assert virt + 4096 * i == 4096 * (1024 * q + i);
    assert (virt + 4096 * i) / 4096 == 1024 * q + i;
  }

  lemma DirectoryIndex(virtualAddress: Word)
    ensures PdIndex(virtualAddress) == virtualAddress / 4096 / ENTRIES && PdIndex(virtualAddress) < 1024
    ensures virtualAddress / 4096 < 0x10_0000
  {
  }

  /** Every word outside these frames is the same. */
  ghost predicate KeptBut(m: seq<Word>, n: seq<Word>, fs: set<nat>) {
    |n| == |m| && forall a: nat | a < |m| && a / 1024 !in fs :: n[a] == m[a]
  }

  lemma TablesKept(m0: seq<Word>, m1: seq<Word>, m2: seq<Word>, m3: seq<Word>, m4: seq<Word>, m5: seq<Word>,
                   m6: seq<Word>, d: nat, high: nat, low: nat)
    requires SameOutside(m0, m1, high) && SameOutside(m1, m2, low) && SameOutside(m2, m3, low)
    requires SameOutside(m3, m4, high) && SameOutside(m4, m5, d) && SameOutside(m5, m6, d)
    ensures KeptBut(m0, m6, {d, high, low})
  {
    KeptTwice(m0, m1, m2, high, low);
    KeptTwice(m2, m3, m4, low, high);
    KeptTwice(m4, m5, m6, d, d);
  }

  lemma KeptTwice(m0: seq<Word>, m1: seq<Word>, m2: seq<Word>, f: nat, g: nat)
    requires SameOutside(m0, m1, f) && SameOutside(m1, m2, g)
    ensures KeptBut(m0, m2, {f, g})
  {
  }

  lemma BootKept(m0: seq<Word>, m1: seq<Word>, m2: seq<Word>, m3: seq<Word>, d: nat, high: nat, low: nat)
    requires SameOutside(m0, m1, d) && SameOutside(m1, m2, d) && KeptBut(m2, m3, {d, high, low})
    ensures KeptBut(m0, m3, {d, high, low})
  {
    KeptTwice(m0, m1, m2, d, d);
  }

  lemma BootTables(f: Frames, m0: seq<Word>, m: seq<Word>, d: nat, high: nat, low: nat, kernel: nat)
    requires KeptBut(m0, m, {d, high, low})
    ensures DataKept(m0, m, BootedView(f, d, high, low, kernel))
  {
    var v := BootedView(f, d, high, low, kernel);
    assert v.dir == d && v.tables[0] == low && v.tables[768] == high;
    TableOfEntry(v, 0);
    TableOfEntry(v, 768);
    assert OfTables(v, d);
    hide BootedView, OfTables;
  }

  /** With the same tables, the entry of a page is in the same place. */
  lemma PteThere(m: seq<Word>, n: seq<Word>, d: nat, v: nat)
    requires Structured(m, d) && Structured(n, d) && v < PAGE_COUNT
    requires TablesOf(m, d) == TablesOf(n, d) && v / ENTRIES in TablesOf(m, d)
    ensures PteIndex(n, d, v) == PteIndex(m, d, v)
  {
    assert TablesOf(m, d)[v / ENTRIES] == Entry(m, d, v / ENTRIES) / 4096;
    assert TablesOf(n, d)[v / ENTRIES] == Entry(n, d, v / ENTRIES) / 4096;
  }

  lemma PteLow(m: seq<Word>, d: nat, v: nat)
    requires Structured(m, d) && v < PAGE_COUNT && v / ENTRIES in TablesOf(m, d)
    ensures m[PteIndex(m, d, v)] < 0x8000_0000
  {
    assert m[PteIndex(m, d, v)] == Entry(m, Entry(m, d, v / ENTRIES) / 4096, v % ENTRIES);
  }

  /** A table just hung into the directory is as empty as its frame was. */
  lemma FreshEntries(m: seq<Word>, n: seq<Word>, d: nat, i: nat, f: nat)
    requires Structured(n, d) && SameOutside(m, n, d) && i < ENTRIES && f != d && ENTRIES * (f + 1) <= |m|
    requires i in TablesOf(n, d) && TablesOf(n, d)[i] == f
    requires forall k: nat | k < 1024 :: Entry(m, f, k) == 0
    ensures forall v: nat | v < PAGE_COUNT && v / ENTRIES == i :: n[PteIndex(n, d, v)] == 0
  {
    forall v: nat | v < PAGE_COUNT && v / ENTRIES == i ensures n[PteIndex(n, d, v)] == 0 {
      assert TablesOf(n, d)[i] == Entry(n, d, i) / 4096;
      EntryOutside(m, n, d, f, v % ENTRIES);
      assert n[PteIndex(n, d, v)] == Entry(n, f, v % ENTRIES);
    }
  }

  lemma DirectoryKept(m: seq<Word>, n: seq<Word>, d: nat, i: nat, f: nat)
    requires SameOutside(m, n, f) && f != d && i < ENTRIES && ENTRIES * (d + 1) <= |m|
    ensures Entry(n, d, i) == Entry(m, d, i)
  {
    EntryOutside(m, n, f, d, i);
  }

  /** A store to the entry of page n stays in its table, or in frame 0 when it has none. */
  lemma PteStored(m: seq<Word>, d: nat, n: nat, w: Word)
    requires Structured(m, d) && n < PAGE_COUNT
    ensures var ts, i := TablesOf(m, d), n / ENTRIES;
      SameOutside(m, m[PteIndex(m, d, n) := w], if i in ts then ts[i] else 0)
  {
    var e := Entry(m, d, n / ENTRIES);
    assert TableEntryOk(m, d, e);
    assert Present(e) ==> e / 4096 == TablesOf(m, d)[n / ENTRIES];
    assert (ENTRIES * (e / 4096) + n % ENTRIES) / 1024 == e / 4096;
  }

  lemma SameOutsideTrans(l: seq<Word>, m: seq<Word>, n: seq<Word>, f: nat)
    ensures SameOutside(l, l, f)
    ensures SameOutside(l, m, f) && SameOutside(m, n, f) ==> SameOutside(l, n, f)
  {
  }

  class Space {
    const pmm: PMM.Manager
    const mem: array<Word>
    var currentPageDir: Word

    constructor (manager: PMM.Manager, memory: array<Word>)
      ensures pmm == manager && mem == memory && currentPageDir == 0
    {
      pmm, mem, currentPageDir := manager, memory, 0;
    }

    ghost function Dir(): nat
      reads this
    {
      currentPageDir / 4096
    }

    ghost predicate Valid()
      reads this, pmm, pmm.memoryMap, mem
    {
      && mem != pmm.memoryMap
      && pmm.Valid()
      && InMemory(pmm.State(), mem.Length)
      && currentPageDir % 4096 == 0
      && Structured(mem[..], Dir())
      && P.VInv(View())
    }

    ghost function View(): P.View
      reads this, pmm, pmm.memoryMap, mem
    {
      if Structured(mem[..], Dir()) then
        P.View(pmm.State(), Dir(), TablesOf(mem[..], Dir()), PagesOf(mem[..], Dir()))
      else
        P.View(pmm.State(), Dir(), map[], map[])
    }

    /** The word that get_page finds for page n. */
    ghost function Pte(n: nat): Word
      requires Structured(mem[..], Dir()) && n < PAGE_COUNT
      reads this, mem
    {
      mem[PteIndex(mem[..], Dir(), n)]
    }

    /** The entry of page n, all zero when its table is yet to be made. */
    ghost function EntryBefore(n: nat): Word
      requires Valid() && n < PAGE_COUNT
      reads this, pmm, pmm.memoryMap, mem
    {
      if n / ENTRIES in View().tables then Pte(n) else 0
    }

    /** The pages of this directory entry have all-zero entries. */
    ghost predicate FreshTable(i: nat)
      reads this, mem
    {
      Structured(mem[..], Dir()) && forall n: nat | n < PAGE_COUNT && n / ENTRIES == i :: Pte(n) == 0
    }

    /** Page n is present on this frame; of the attributes of its entry before, e, none has changed. */
    ghost predicate PteMaps(n: nat, address: Word, e: Word)
      reads this, mem
    {
      Structured(mem[..], Dir()) && n < PAGE_COUNT && Pte(n) == address + e % 4096 / 2 * 2 + 1
    }

    /** Page n is absent and its frame gone; of the attributes of its entry before no other has changed. */
    ghost predicate PteCleared(n: nat, e: Word)
      reads this, mem
    {
      Structured(mem[..], Dir()) && n < PAGE_COUNT && Pte(n) == e % 4096 / 2 * 2
    }

    /** The address of the page-table entry of a virtual address. */
    method GetPage(virtualAddress: Word) returns (page: nat)
      requires Valid()
      ensures page % 4 == 0 && page / 4 == PteIndex(mem[..], Dir(), virtualAddress / 4096) < mem.Length
    {
      var entry := currentPageDir / 4 + PdIndex(virtualAddress);
      assert entry == ENTRIES * Dir() + virtualAddress / 4096 / ENTRIES;
      var table := PagePhysAddr(mem[entry]);
      page := table + 4 * PtIndex(virtualAddress);
      PagePhysAddrValue(mem[entry]);
      PtIndexValue(virtualAddress);
      assert table == 4096 * (mem[entry] / 4096);
      assert mem[entry] == Entry(mem[..], Dir(), virtualAddress / 4096 / ENTRIES);
      assert page / 4 == ENTRIES * (mem[entry] / 4096) + virtualAddress / 4096 % ENTRIES;
    }

    method GetPhysAddr(virtualAddress: Word) returns (address: nat)
      requires Valid()
      ensures virtualAddress / 4096 in View().pages ==>
        address == 4096 * View().pages[virtualAddress / 4096] + virtualAddress % 4096
    {
      var page := GetPage(virtualAddress);
      PagePhysAddrValue(mem[page / 4]);
      OffsetValue(virtualAddress);
      PageFrame(virtualAddress / 4096);
      hide Structured, PteIndex, And, PagePhysAddr, Valid, View;
      address := PagePhysAddr(mem[page / 4]) + And(virtualAddress, 0xFFF);
    }

    /** The entry of a present page names its frame. */
    lemma PageFrame(p: nat)
      requires Valid() && p < PAGE_COUNT
      ensures p in View().pages ==> mem[PteIndex(mem[..], Dir(), p)] / 4096 == View().pages[p]
    {
      hide Structured, PteIndex, TablesOf, InMemory, P.VInv;
    }

    /** memset(table, 0, sizeof(page_table)). */
    method ClearFrame(table: Word)
      requires table % 4096 == 0 && table / 4 + 1024 <= mem.Length
      modifies mem
      ensures SameOutside(old(mem[..]), mem[..], table / 4096)
      ensures forall k: nat | k < 1024 :: Entry(mem[..], table / 4096, k) == 0
    {
      assert table / 4 == 1024 * (table / 4096);
      hide SameOutside;
      SameOutsideTrans(mem[..], mem[..], mem[..], table / 4096);
      var k := 0;
      while k < 1024
        invariant 0 <= k <= 1024
        invariant SameOutside(old(mem[..]), mem[..], table / 4096)
        invariant forall j: nat | j < k :: Entry(mem[..], table / 4096, j) == 0
      {
        ghost var m := mem[..];
        ghost var n := m[1024 * (table / 4096) + k := 0];
        StoreEntry(m, table / 4096, k, 0);
        SameOutsideTrans(old(mem[..]), m, n, table / 4096);
        forall j: nat | j < k + 1 ensures Entry(n, table / 4096, j) == 0 {
          assert j < k ==> Entry(m, table / 4096, j) == 0;
        }
        mem[table / 4 + k] := 0;
        assert mem[..] == n;
        k := k + 1;
      }
    }

    /** Clearing a frame outside the tables. */
    method ZeroFrame(table: Word)
      requires Structured(mem[..], Dir()) && table % 4096 == 0 && table / 4 + 1024 <= mem.Length
      requires OutsideTables(mem[..], Dir(), table / 4096)
      modifies mem
      ensures Structured(mem[..], Dir())
      ensures TablesOf(mem[..], Dir()) == old(TablesOf(mem[..], Dir()))
      ensures PagesOf(mem[..], Dir()) == old(PagesOf(mem[..], Dir()))
      ensures OutsideTables(mem[..], Dir(), table / 4096) && SameOutside(old(mem[..]), mem[..], table / 4096)
      ensures forall k: nat | k < 1024 :: Entry(mem[..], table / 4096, k) == 0
    {
      ClearFrame(table);
      FrameOutside(old(mem[..]), mem[..], Dir(), table / 4096);
    }

    /** Point the absent directory entry i at an all-zero frame. */
    method HangTable(i: nat, table: Word)
      requires Structured(mem[..], Dir()) && currentPageDir % 4096 == 0
      requires i < ENTRIES && !Present(Entry(mem[..], Dir(), i))
      requires table % 4096 == 0 && 0 < table < 0x8000_0000 && ENTRIES * (table / 4096 + 1) <= mem.Length
      requires OutsideTables(mem[..], Dir(), table / 4096)
      requires forall k: nat | k < ENTRIES :: Entry(mem[..], table / 4096, k) == 0
      modifies mem
      ensures Structured(mem[..], Dir())
      ensures TablesOf(mem[..], Dir()) == old(TablesOf(mem[..], Dir()))[i := table / 4096]
      ensures PagesOf(mem[..], Dir()) == old(PagesOf(mem[..], Dir()))
      ensures SameOutside(old(mem[..]), mem[..], Dir())
      ensures Entry(mem[..], Dir(), i) == table + old(Entry(mem[..], Dir(), i)) / 4 * 4 + 3
    {
      var entry := currentPageDir / 4 + i;
      ghost var m := mem[..];
      assert entry == ENTRIES * Dir() + i && m[entry] == Entry(m, Dir(), i);
      Hung(m, Dir(), i, table);
      hide *;
      mem[entry] := SetAttribute(mem[entry], PRESENT);
      mem[entry] := SetAttribute(mem[entry], READ_WRITE);
      mem[entry] := SetFrame(mem[entry], table);
      assert mem[..] == m[entry := DirectoryEntry(m[entry], table)];
    }

    /** What the three stores into the directory entry make of it, and of the translation. */
    lemma Hung(m: seq<Word>, d: nat, i: nat, table: Word)
      requires Structured(m, d) && i < ENTRIES && !Present(Entry(m, d, i))
      requires table % 4096 == 0 && 0 < table < 0x8000_0000 && ENTRIES * (table / 4096 + 1) <= |m|
      requires OutsideTables(m, d, table / 4096)
      requires forall k: nat | k < ENTRIES :: Entry(m, table / 4096, k) == 0
      ensures var e := Entry(m, d, i);
        && e < 4096 && SetAttribute(e, PRESENT) < WORD_LIMIT
        && SetAttribute(SetAttribute(e, PRESENT), READ_WRITE) < WORD_LIMIT
        && SetFrame(SetAttribute(SetAttribute(e, PRESENT), READ_WRITE), table) == DirectoryEntry(e, table)
      ensures var n := m[ENTRIES * d + i := DirectoryEntry(Entry(m, d, i), table)];
        && Structured(n, d) && TablesOf(n, d) == TablesOf(m, d)[i := table / 4096] && PagesOf(n, d) == PagesOf(m, d)
        && SameOutside(m, n, d) && Entry(n, d, i) == table + Entry(m, d, i) / 4 * 4 + 3
    {
      var e := Entry(m, d, i);
      assert TableEntryOk(m, d, e);
      DirectoryEntryValue(e, table);
      DirectoryEntryExact(e, table);
      InstallTable(m, d, i, DirectoryEntry(e, table));
      StoreEntry(m, d, i, DirectoryEntry(e, table));
      hide Structured, TablesOf, PagesOf, SameOutside, OutsideTables, SetAttribute, SetFrame;
    }

    /** The branch map_page and find_free_page share: give directory entry i an empty table. */
    method AddTable(i: nat) returns (ok: bool, ghost t: P.Install)
      requires Valid() && i < 1024 && i !in View().tables
      modifies mem, pmm`usedBlocks, pmm`live, pmm.memoryMap
      ensures Valid()
      ensures !ok ==> View() == old(View()) && mem[..] == old(mem[..]) && old(pmm.Refuses(1)) && pmm.Refuses(1)
      ensures !ok ==> NoOffer(old(View()).frames, pmm.maxBlocks, 1)
      ensures ok ==> t.index == i && P.CanInstall(old(View()), t) && View() == P.InstallOne(old(View()), t)
      ensures ok ==>
        && FreshTable(i)
        && Entry(mem[..], Dir(), i) == 4096 * t.frame + old(Entry(mem[..], Dir(), i)) / 4 * 4 + 3
      ensures DataKept(old(mem[..]), mem[..], View())
      ensures ok ==> FirstOffer(old(View()).frames, pmm.maxBlocks, t.frame, 1)
    {
      ghost var v := View();
      t := P.Install(i, 0);
      pmm.OffersFound(1);
      var table := pmm.AllocateBlocks(1);
      if table == 0 {
        DataSame(mem[..], View());
        return false, t;
      }
      t := P.Install(i, table / 4096);
      InMemoryAlloc(v.frames, pmm.State(), t.frame, 1, mem.Length);
      FillTable(i, table, v, t);
      return true, t;
    }

    /** Clear the frame just allocated and hang it into directory entry i. */
    method FillTable(i: nat, table: Word, ghost v: P.View, ghost t: P.Install)
      requires mem != pmm.memoryMap && pmm.Valid() && InMemory(pmm.State(), mem.Length)
      requires currentPageDir % 4096 == 0 && Structured(mem[..], Dir())
      requires P.VInv(v) && View() == v.(frames := P.AllocRun(v.frames, t.frame, 1))
      requires t == P.Install(i, table / 4096) && P.CanInstall(v, t)
      requires table % 4096 == 0 && 0 < table < 0x8000_0000 && ENTRIES * (table / 4096 + 1) <= mem.Length
      modifies mem
      ensures Valid()
      ensures View() == P.InstallOne(v, t) && DataKept(old(mem[..]), mem[..], View()) && FreshTable(i)
      ensures Entry(mem[..], Dir(), i) == table + old(Entry(mem[..], Dir(), i)) / 4 * 4 + 3
    {
      FillFacts(i, table, v, t);
      hide *;
      ghost var m0 := mem[..];
      ZeroFrame(table);
      ghost var m1 := mem[..];
      HangTable(i, table);
      FreshEntries(m1, mem[..], v.dir, i, table / 4096);
      Fresh(i);
      DirectoryKept(m0, m1, v.dir, i, table / 4096);
      Filled(i, table, v, t);
      FilledData(m0, m1, mem[..], v, t);
    }

    /** A frame just allocated is outside the tables. */
    lemma FillFacts(i: nat, table: Word, v: P.View, t: P.Install)
      requires currentPageDir % 4096 == 0 && Structured(mem[..], Dir())
      requires P.VInv(v) && View() == v.(frames := P.AllocRun(v.frames, t.frame, 1))
      requires t == P.Install(i, table / 4096) && P.CanInstall(v, t)
      requires table % 4096 == 0 && ENTRIES * (table / 4096 + 1) <= mem.Length
      ensures OutsideTables(mem[..], Dir(), table / 4096) && table / 4 + 1024 <= mem.Length
      ensures i < ENTRIES && 1024 * (Dir() + 1) <= mem.Length && i !in TablesOf(mem[..], Dir())
      ensures TablesOf(mem[..], Dir()) == v.tables && PagesOf(mem[..], Dir()) == v.pages && Dir() == v.dir
      ensures pmm.State() == P.AllocRun(v.frames, t.frame, 1)
    {
      assert t.frame in Run(t.frame, 1);
      UnownedOutside(mem[..], v, t.frame);
      hide Structured, PagesOf, OutsideTables, P.VInv;
    }

    lemma Fresh(i: nat)
      requires Structured(mem[..], Dir())
      requires forall n: nat | n < PAGE_COUNT && n / ENTRIES == i :: mem[PteIndex(mem[..], Dir(), n)] == 0
      ensures FreshTable(i)
    {
      hide Structured, PteIndex;
    }

    lemma FilledData(m0: seq<Word>, m1: seq<Word>, m2: seq<Word>, v: P.View, t: P.Install)
      requires SameOutside(m0, m1, t.frame) && SameOutside(m1, m2, v.dir)
      ensures DataKept(m0, m2, P.InstallOne(v, t))
    {
      var w := P.InstallOne(v, t);
      assert t.index in w.tables && w.tables[t.index] == t.frame && w.dir == v.dir;
      TableOfEntry(w, t.index);
      assert OfTables(w, v.dir);
      hide P.InstallOne, OfTables;
    }

    lemma Filled(i: nat, table: Word, v: P.View, t: P.Install)
      requires mem != pmm.memoryMap && pmm.Valid() && InMemory(pmm.State(), mem.Length)
      requires currentPageDir % 4096 == 0 && Structured(mem[..], Dir()) && Dir() == v.dir
      requires P.VInv(v) && t == P.Install(i, table / 4096) && P.CanInstall(v, t)
      requires pmm.State() == P.AllocRun(v.frames, t.frame, 1)
      requires TablesOf(mem[..], Dir()) == v.tables[i := table / 4096] && PagesOf(mem[..], Dir()) == v.pages
      ensures Valid() && View() == P.InstallOne(v, t)
    {
      P.InstallOneKeepsInvariant(v, t);
      hide Structured, TablesOf, PagesOf, InMemory, P.VInv, P.CanInstall, P.AllocRun;
      assert View() == P.InstallOne(v, t);
    }

    /** Store a frame and the present bit into the entry of a page that has a table. */
    method WriteMapping(physicalAddress: Word, virtualAddress: Word)
      requires Valid() && virtualAddress / 4096 / ENTRIES in View().tables
      requires physicalAddress % 4096 == 0 && physicalAddress < 0x8000_0000
      modifies mem
      ensures Valid()
      ensures View() == old(View()).(pages := old(View()).pages[virtualAddress / 4096 := physicalAddress / 4096])
      ensures SameOutside(old(mem[..]), mem[..], View().tables[virtualAddress / 4096 / ENTRIES])
      ensures PteMaps(virtualAddress / 4096, physicalAddress, old(Pte(virtualAddress / 4096)))
    {
      ghost var v, m, n := View(), mem[..], virtualAddress / 4096;
      assert Present(Entry(m, Dir(), n / ENTRIES));
      assert TableEntryOk(m, Dir(), Entry(m, Dir(), n / ENTRIES));
      var pointer := GetPage(virtualAddress);
      var page := pointer / 4;
      assert m[page] == Entry(m, Entry(m, Dir(), n / ENTRIES) / 4096, n % ENTRIES);
      TableValue(m[page], physicalAddress);
      StorePte(m, Dir(), n, TableEntry(m[page], physicalAddress));
      PteStored(m, Dir(), n, TableEntry(m[page], physicalAddress));
      PteLow(m, Dir(), n);
      TableEntryExact(m[page], physicalAddress);
      ghost var w := TableEntry(m[page], physicalAddress);
      assert w / 4096 == physicalAddress / 4096;
      assert pmm.Valid() && InMemory(pmm.State(), mem.Length);
      P.RemapKeepsInvariant(v, n, physicalAddress / 4096);
      assert Structured(m[page := w], Dir()) && TablesOf(m[page := w], Dir()) == v.tables;
      assert PagesOf(m[page := w], Dir()) == v.pages[n := physicalAddress / 4096];
      hide Structured, PagesOf, TablesOf, PteIndex, Present, InMemory, P.VInv, SameOutside;
      mem[page] := SetFrame(mem[page], physicalAddress);
      mem[page] := SetAttribute(mem[page], PRESENT);
      assert mem[..] == m[page := w];
      assert View() == v.(pages := v.pages[n := physicalAddress / 4096]);
      PteThere(m, mem[..], Dir(), n);
    }

    lemma EntryBeforeIs(n: nat, i: nat)
      requires Valid() && n < PAGE_COUNT && i == n / ENTRIES
      ensures i < 1024 && Structured(mem[..], Dir()) && EntryBefore(n) == if i in View().tables then Pte(n) else 0
    {
      hide Structured, PteIndex, TablesOf, PagesOf, InMemory, P.VInv;
    }

    lemma FreshPte(i: nat, n: nat)
      requires FreshTable(i) && n < PAGE_COUNT && n / ENTRIES == i
      ensures Structured(mem[..], Dir()) && Pte(n) == 0
    {
      hide Structured, PteIndex;
    }

    /** The first half of map_page: see that directory entry i has a table. */
    method NeedTable(i: nat) returns (ok: bool, ghost news: seq<P.Install>)
      requires Valid() && i < 1024
      modifies mem, pmm`usedBlocks, pmm`live, pmm.memoryMap
      ensures Valid()
      ensures |news| <= 1 && forall t | t in news :: t.index == i
      ensures forall t | t in news :: FirstOffer(old(View()).frames, pmm.maxBlocks, t.frame, 1)
      ensures !ok ==> news == [] && View() == old(View()) && mem[..] == old(mem[..])
      ensures !ok ==> i !in View().tables && old(pmm.Refuses(1)) && NoOffer(View().frames, pmm.maxBlocks, 1)
      ensures P.CanInstallAll(old(View()), news) && View() == P.InstallAll(old(View()), news)
      ensures ok ==> i in View().tables && if i in old(View()).tables then mem[..] == old(mem[..]) else FreshTable(i)
      ensures DataKept(old(mem[..]), mem[..], View())
    {
      hide *;
      ghost var v := View();
      news := [];
      P.InstallNone(v);
      DataSame(mem[..], v);
      var present := TestTable(i);
      if !present {
        var added, t := AddTable(i);
        if !added {
          return false, news;
        }
        news := [t];
        P.InstallNext(v, [], t);
        assert [] + [t] == [t];
        P.InstalledIsPresent(v, t);
      }
      return true, news;
    }

    method MapPage(physicalAddress: Word, virtualAddress: Word) returns (ok: bool, ghost news: seq<P.Install>)
      requires Valid()
      requires physicalAddress % 4096 == 0 && physicalAddress < 0x8000_0000
      modifies mem, pmm`usedBlocks, pmm`live, pmm.memoryMap
      ensures Valid()
      ensures |news| <= 1 && forall t | t in news :: t.index == virtualAddress / 4096 / ENTRIES
      ensures forall t | t in news :: FirstOffer(old(View()).frames, pmm.maxBlocks, t.frame, 1)
      ensures !ok ==> View() == old(View()) && mem[..] == old(mem[..])
      ensures !ok ==> virtualAddress / 4096 / ENTRIES !in View().tables && old(pmm.Refuses(1))
      ensures !ok ==> NoOffer(View().frames, pmm.maxBlocks, 1)
      ensures ok ==>
        && P.CanInstallAll(old(View()), news)
        && View() == P.InstallAll(old(View()), news)
                     .(pages := old(View()).pages[virtualAddress / 4096 := physicalAddress / 4096])
        && virtualAddress / 4096 / ENTRIES in View().tables
      ensures ok ==>
        var e := P.MapPage(virtualAddress / 4096, physicalAddress / 4096, news);
        P.Legal(old(View()), e) && View() == P.Apply(old(View()), e)
      ensures DataKept(old(mem[..]), mem[..], View()) && TablesStay(old(View()), View())
      ensures ok ==>
        PteMaps(virtualAddress / 4096, physicalAddress, old(EntryBefore(virtualAddress / 4096)))
    {
      ghost var n, i := virtualAddress / 4096, virtualAddress / 4096 / ENTRIES;
      DirectoryIndex(virtualAddress);
      hide *;
      EntryBeforeIs(n, i);
      ghost var v, m0 := View(), mem[..];
      StaySame(v);
      ok, news := NeedTable(PdIndex(virtualAddress));
      if ok {
        ghost var w, m1 := View(), mem[..];
        if i !in v.tables { FreshPte(i, n); }
        WriteMapping(physicalAddress, virtualAddress);
        MapDone(m0, m1, mem[..], v, w, View(), n, i, physicalAddress / 4096, news);
      }
    }

    /** A table if need be, then the entry: one step, within the directory and the tables. */
    lemma MapDone(m0: seq<Word>, m1: seq<Word>, m2: seq<Word>, v: P.View, w: P.View, x: P.View, n: nat, i: nat,
                  frame: nat, news: seq<P.Install>)
      requires P.CanInstallAll(v, news) && w == P.InstallAll(v, news) && x == w.(pages := w.pages[n := frame])
      requires n < 0x10_0000 && i == n / ENTRIES && i in w.tables
      requires DataKept(m0, m1, w) && SameOutside(m1, m2, x.tables[i])
      ensures x == P.InstallAll(v, news).(pages := v.pages[n := frame]) && w.pages == v.pages
      ensures P.Legal(v, P.MapPage(n, frame, news)) && x == P.Apply(v, P.MapPage(n, frame, news))
      ensures DataKept(m0, m2, x) && TablesStay(v, x)
    {
      P.ScanStep(v, news);
      P.MapStep(v, news, n, frame);
      StayInstalled(v, news, x.pages);
      hide *;
      DataMapped(m0, m1, m2, w, x, i);
    }

    /**
     * map_page(p, v), then get_phys_addr of any address in the page of v: on success that is p and
     * the offset in the page, and every other page is present and translated as before.
     */
    method MapThenTranslate(physicalAddress: Word, virtualAddress: Word, address: Word)
      returns (ok: bool, translated: nat)
      requires Valid() && address / 4096 == virtualAddress / 4096
      requires physicalAddress % 4096 == 0 && physicalAddress < 0x8000_0000
      modifies mem, pmm`usedBlocks, pmm`live, pmm.memoryMap
      ensures Valid()
      ensures ok ==> translated == physicalAddress + address % 4096
      ensures ok ==> OtherPagesSame(old(View()).pages, View().pages, virtualAddress / 4096)
      ensures !ok ==> View() == old(View())
    {
      hide *;
      PageStart(physicalAddress);
      ghost var v, news := View(), [];
      ok, news := MapPage(physicalAddress, virtualAddress);
      translated := 0;
      if ok {
        PageMapped(v, View(), news, virtualAddress / 4096, physicalAddress / 4096);
        translated := GetPhysAddr(address);
      }
    }

    method UnmapPage(virtualAddress: Word)
      requires Valid()
      modifies mem
      ensures Valid()
      ensures View() == old(View()).(pages := old(View()).pages - {virtualAddress / 4096})
      ensures View() == P.Apply(old(View()), P.UnmapPage(virtualAddress / 4096))
      ensures var i := virtualAddress / 4096 / ENTRIES;
        && SameOutside(old(mem[..]), mem[..], if i in View().tables then View().tables[i] else 0)
        && (i in View().tables ==> PteCleared(virtualAddress / 4096, old(Pte(virtualAddress / 4096))))
    {
      ghost var v, m, n := View(), mem[..], virtualAddress / 4096;
      var pointer := GetPage(virtualAddress);
      var page := pointer / 4;
      ClearedValue(m[page]);
      ghost var w := ClearedEntry(m[page]);
      ClearPte(m, Dir(), n, w);
      PteStored(m, Dir(), n, w);
      ClearedEntryExact(m[page]);
      if n / ENTRIES in v.tables { PteLow(m, Dir(), n); }
      assert pmm.Valid() && InMemory(pmm.State(), mem.Length);
      P.UnmapKeepsInvariant(v, n);
      hide Structured, PagesOf, TablesOf, PteIndex, Present, InMemory, P.VInv, SameOutside;
      mem[page] := SetFrame(mem[page], 0);
      mem[page] := UnsetAttribute(mem[page], PRESENT);
      assert mem[..] == m[page := w];
      assert View() == v.(pages := v.pages - {n});
      if n / ENTRIES in v.tables { PteThere(m, mem[..], Dir(), n); }
    }

    /** allocate_blocks, called for a run of data frames. */
    method ReserveRun(n: nat) returns (address: Word)
      requires Valid()
      modifies pmm`usedBlocks, pmm`live, pmm.memoryMap
      ensures Valid()
      ensures address == 0 <==> old(pmm.Refuses(n))
      ensures address == 0 ==> View() == old(View())
      ensures address != 0 ==>
        && address % 4096 == 0 && ENTRIES * (address / 4096 + n) <= mem.Length
        && address / 4096 + n <= 0x8_0000
      ensures address != 0 ==>
        && P.CanAlloc(old(View()).frames, address / 4096, n)
        && View() == P.WithRun(old(View()), address / 4096, n)
      ensures address != 0 ==>
        var e := P.Reserve(address / 4096, n);
        P.Legal(old(View()), e) && View() == P.Apply(old(View()), e)
      ensures address == 0 ==> NoOffer(old(View()).frames, pmm.maxBlocks, n)
      ensures address != 0 ==> FirstOffer(old(View()).frames, pmm.maxBlocks, address / 4096, n)
    {
      ghost var v := View();
      pmm.OffersFound(n);
      address := pmm.AllocateBlocks(n);
      if address != 0 {
        InMemoryAlloc(v.frames, pmm.State(), address / 4096, n, mem.Length);
        P.WithRunKeepsInvariant(v, address / 4096, n);
        assert View() == P.WithRun(v, address / 4096, n);
      }
    }

    /** free_blocks on a run of data frames. */
    method ReleaseRun(address: Word, n: nat)
      requires Valid() && P.DataRun(View(), address / 4096) && pmm.live[address / 4096] == n
      modifies pmm`usedBlocks, pmm`live, pmm.memoryMap
      ensures Valid()
      ensures View() == old(View()).(frames := P.FreeRun(old(View()).frames, address / 4096))
      ensures View() == P.Apply(old(View()), P.Release(address / 4096))
    {
      ghost var v := View();
      pmm.FreeBlocks(address, n);
      InMemoryFree(v.frames, pmm.State(), address / 4096, mem.Length);
      P.ReleaseKeepsInvariant(v, address / 4096);
      assert View() == v.(frames := P.FreeRun(v.frames, address / 4096));
    }

    lemma TableThere(v: P.View, page: nat, j: nat, n: nat)
      requires j < n && TablesThere(v, page, n)
      ensures P.PageAt(page, j) / ENTRIES in v.tables
    {
      InRange(page, j, n);
    }

    lemma {:induction false} InRange(page: nat, j: nat, n: nat)
      requires j < n
      ensures P.PageAt(page, j) in P.Range(page, n)
      decreases n
    {
      if j < n - 1 { InRange(page, j, n - 1); }
    }

    /** The rollback loop: unmap the first n pages of a range. */
    method UnmapRange(address: Word, n: nat)
      requires Valid()
      modifies mem
      ensures Valid()
      ensures View() == old(View()).(pages := old(View()).pages - P.Range(address / 4096, n))
      ensures TablesThere(old(View()), address / 4096, n) ==> DataKept(old(mem[..]), mem[..], View())
    {
      hide *;
      ghost var v, m0 := View(), mem[..];
      ghost var inside := TablesThere(v, address / 4096, n);
      DataSame(m0, v);
      var tmp := address;
      var j := 0;
      P.RangeStart(v.pages, address / 4096);
      AddressAtSteps(address, 0);
      while j < n
        invariant 0 <= j <= n && tmp == AddressAt(address, j)
        invariant Valid()
        invariant View() == v.(pages := v.pages - P.Range(address / 4096, j))
        invariant inside ==> DataKept(m0, mem[..], View())
      {
        AddressAtPage(address, j);
        AddressAtSteps(address, j);
        ghost var u, m1 := View(), mem[..];
        UnmapPage(tmp);
        if inside {
          TableThere(v, address / 4096, j, n);
          EntryOfPage(tmp);
          DataMapped(m0, m1, mem[..], u, View(), EntryOf(tmp));
        }
        P.RangeStep(v.pages, address / 4096, j);
        tmp := NextPage(tmp);
        j := j + 1;
      }
    }

    /** One turn of the mapping loop of allocate_new_page. */
    method MapNext(physical: Word, virtualAddress: Word,
                   ghost v: P.View, ghost page: nat, ghost n: nat, ghost start: nat,
                   ghost news: seq<P.Install>, ghost i: nat)
      returns (ok: bool, ghost more: seq<P.Install>)
      requires Valid() && P.MappedSoFar(v, View(), page, n, start, news, i)
      requires physical % 4096 == 0 && physical / 4096 == start + i && physical < 0x8000_0000
      requires virtualAddress / 4096 == P.PageAt(page, i) && R.TakenInOrder(P.WithRun(v, start, n), news, pmm.maxBlocks)
      modifies mem, pmm`usedBlocks, pmm`live, pmm.memoryMap
      ensures Valid()
      ensures ok ==> P.MappedSoFar(v, View(), page, n, start, news + more, i + 1)
      ensures ok ==> R.TakenInOrder(P.WithRun(v, start, n), news + more, pmm.maxBlocks)
      ensures !ok ==>
        && View() == old(View()) && P.PageAt(page, i) / ENTRIES !in View().tables
        && NoOffer(View().frames, pmm.maxBlocks, 1)
      ensures DataKept(old(mem[..]), mem[..], View()) && TablesStay(old(View()), View())
    {
      hide *;
      ghost var w := View();
      ok, more := MapPage(physical, virtualAddress);
      if ok {
        P.MappedFrames(v, w, page, n, start, news, i);
        R.TakenNext(P.WithRun(v, start, n), news, w, more, pmm.maxBlocks);
        P.MapNext(v, w, page, n, start, news, i, more, View());
      }
    }

    /** The mapping loop of allocate_new_page; i is the number of pages mapped when it stops. */
    method MapRun(address: Word, base: Word, n: nat, ghost v: P.View)
      returns (ok: bool, i: nat, ghost news: seq<P.Install>)
      requires Valid() && base % 4096 == 0 && base / 4096 + n <= 0x8_0000
      requires P.MappedSoFar(v, View(), address / 4096, n, base / 4096, [], 0)
      modifies mem, pmm`usedBlocks, pmm`live, pmm.memoryMap
      ensures Valid()
      ensures P.MappedSoFar(v, View(), address / 4096, n, base / 4096, news, i)
      ensures R.TakenInOrder(P.WithRun(v, base / 4096, n), news, pmm.maxBlocks)
      ensures if ok then i == n else i < n && P.PageAt(address / 4096, i) / ENTRIES !in View().tables
      ensures !ok ==> NoOffer(View().frames, pmm.maxBlocks, 1)
      ensures DataKept(old(mem[..]), mem[..], View())
    {
      hide *;
      ghost var m0 := mem[..];
      DataSame(m0, View());
      news := [];
      R.TakenNone(P.WithRun(v, base / 4096, n), pmm.maxBlocks);
      AddressAtSteps(address, 0);
      ghost var start, page := base / 4096, address / 4096;
      var tmpBase, tmp := base, address;
      i := 0;
      while i < n
        invariant 0 <= i <= n
        invariant tmpBase == 4096 * (start + i) && tmp == AddressAt(address, i)
        invariant Valid()
        invariant P.MappedSoFar(v, View(), page, n, start, news, i)
        invariant R.TakenInOrder(P.WithRun(v, start, n), news, pmm.maxBlocks)
        invariant DataKept(m0, mem[..], View())
      {
        ghost var w, m1 := View(), mem[..];
        AddressAtPage(address, i);
        AddressAtSteps(address, i);
        FrameAddress(start + i);
        var mapped, more := MapNext(tmpBase, tmp, v, page, n, start, news, i);
        DataTwice(m0, m1, mem[..], w, View());
        if !mapped {
          return false, i, news;
        }
        news := news + more;
        tmpBase, tmp := NextPage(tmpBase), NextPage(tmp);
        i := i + 1;
      }
      return true, i, news;
    }

    /**
     * allocate_new_page: reserve a run of n frames and map it at address, or undo everything.
     * Event Scan([]) stands for a refused reservation, which changes nothing.  Which run is taken
     * and what a failure does to pages that were mapped is known from the state before.
     */
    method AllocateNewPage(address: Word, n: nat) returns (r: Word, ghost e: P.Event)
      requires Valid()
      modifies mem, pmm`usedBlocks, pmm`live, pmm.memoryMap
      ensures Valid()
      ensures P.Legal(old(View()), e) && View() == P.Apply(old(View()), e)
      ensures
        || (e == P.Scan([]) && r == 0 && old(pmm.Refuses(n)))
        || (e.NewPages? && r == address && e.page == address / 4096 && e.count == n)
        || (e.NewPagesFailed? && r == 0 && e.page == address / 4096 && e.count == n &&
            P.PageAt(e.page, e.mapped) / ENTRIES !in View().tables)
      ensures R.Answers(old(View()), e, pmm.maxBlocks, n)
      ensures e.NewPagesFailed? ==> R.RolledBackPages(old(View()), View(), address / 4096, n)
      ensures DataKept(old(mem[..]), mem[..], View())
    {
      ghost var v, page, m0 := View(), address / 4096, mem[..];
      DataSame(m0, v);
      assert page < 0x10_0000 && P.VInv(v);
      hide *;
      e := P.Scan([]);
      P.NoStep(v);
      var base := ReserveRun(n);
      if base == 0 {
        R.AnswerRefused(v, pmm.maxBlocks, n);
        return 0, e;
      }
      P.NothingMapped(v, page, n, base / 4096);
      var ok, i, news := MapRun(address, base, n, v);
      if !ok {
        ghost var w, m1 := View(), mem[..];
        Rollback(address, base, n, i, v, news);
        DataTwice(m0, m1, mem[..], w, View());
        return 0, P.NewPagesFailed(page, n, base / 4096, news, i);
      }
      P.AllMapped(v, View(), page, n, base / 4096, news);
      R.AnswerGranted(v, View(), page, n, base / 4096, news, pmm.maxBlocks);
      return address, P.NewPages(page, n, base / 4096, news);
    }

    lemma LiveRuns()
      ensures View().frames.live == pmm.live
    {
    }

    /** The error path: give the run back, then unmap what was mapped. */
    method Rollback(address: Word, base: Word, n: nat, i: nat, ghost v: P.View, ghost news: seq<P.Install>)
      requires Valid() && P.VInv(v) && P.MappedSoFar(v, View(), address / 4096, n, base / 4096, news, i)
      requires i < n <= 0x10_0000 && P.PageAt(address / 4096, i) / ENTRIES !in View().tables
      requires FirstOffer(v.frames, pmm.maxBlocks, base / 4096, n) && NoOffer(View().frames, pmm.maxBlocks, 1)
      requires R.TakenInOrder(P.WithRun(v, base / 4096, n), news, pmm.maxBlocks)
      modifies mem, pmm`usedBlocks, pmm`live, pmm.memoryMap
      ensures Valid()
      ensures var e := P.NewPagesFailed(address / 4096, n, base / 4096, news, i);
        && P.Legal(v, e) && View() == P.Apply(v, e) && View().tables == old(View()).tables
        && R.Answers(v, e, pmm.maxBlocks, n) && R.RolledBackPages(v, View(), address / 4096, n)
      ensures DataKept(old(mem[..]), mem[..], View()) && TablesStay(old(View()), View())
    {
      DirectoryIndex(address);
      LiveRuns();
      hide *;
      ghost var w, page, start := View(), address / 4096, base / 4096;
      PagesHaveTables(v, w, page, n, start, news, i);
      P.RunStillLive(v, w, page, n, start, news, i);
      ReleaseRun(base, n);
      RangeTablesStay(w, View(), page, i);
      UnmapRange(address, i);
      RollbackDone(v, w, View(), page, n, start, news, i, pmm.maxBlocks);
    }

    lemma RollbackDone(v: P.View, w: P.View, x: P.View, page: nat, n: nat, base: nat, news: seq<P.Install>, i: nat,
                       max: Word)
      requires P.VInv(v) && P.MappedSoFar(v, w, page, n, base, news, i) && page < 0x10_0000
      requires i < n <= 0x10_0000 && P.PageAt(page, i) / ENTRIES !in w.tables
      requires FirstOffer(v.frames, max, base, n) && NoOffer(w.frames, max, 1)
      requires R.TakenInOrder(P.WithRun(v, base, n), news, max)
      requires x == w.(frames := P.FreeRun(w.frames, base), pages := w.pages - P.Range(page, i))
      ensures var e := P.NewPagesFailed(page, n, base, news, i);
        && P.Legal(v, e) && x == P.Apply(v, e) && R.Answers(v, e, max, n) && R.RolledBackPages(v, x, page, n)
      ensures x.tables == w.tables && TablesStay(w, x)
    {
      hide *;
      P.RolledBack(v, w, page, n, base, news, i);
      R.AnswerFailed(v, w, page, n, base, news, i, max);
      R.RollbackOutcome(v, P.NewPagesFailed(page, n, base, news, i), max, n);
      SameTablesStay(w, x);
    }

    lemma PagesHaveTables(v: P.View, w: P.View, page: nat, n: nat, base: nat, news: seq<P.Install>, i: nat)
      requires P.MappedSoFar(v, w, page, n, base, news, i)
      ensures TablesThere(w, page, i)
    {
      hide P.CanInstallAll, P.InstallAll, P.MapRange, P.NewsWithin;
    }

    /** Does the entry at this index of a present table map its page? */
    method TestEntry(i: nat, j: nat) returns (present: bool)
      requires Valid() && i < 1024 && j < 1024 && i in View().tables
      ensures present <==> 1024 * i + j in View().pages
    {
      MappedPage(mem[..], Dir(), i, j);
      hide Structured, PagesOf, TablesOf, InMemory, P.VInv;
      var entry := currentPageDir / 4 + i;
      assert entry == 1024 * Dir() + i;
      var table := PagePhysAddr(mem[entry]);
      PagePhysAddrValue(mem[entry]);
      assert table / 4 + j == 1024 * (mem[entry] / 4096) + j;
      PresentValue(mem[table / 4 + j]);
      present := TstAttribute(mem[table / 4 + j], PRESENT);
    }

    /** The inner loop of find_free_page: the pages of table i. */
    method ScanTable(i: nat, nb: nat, base: nat, count: nat)
      returns (found: bool, base': nat, count': nat, ghost s: nat)
      requires Valid() && i < 1024 && i in View().tables
      requires exists s: nat :: S.AbsentRun(View().pages, s, nb)
      requires S.ScanState(View().pages, 1024 * i, count, base, nb)
      ensures found ==> S.LowestAbsentRun(View().pages, s, nb) && base' == S.FoundAddress(s, nb)
      ensures !found ==> S.ScanState(View().pages, 1024 * i + 1024, count', base', nb)
    {
      hide *;
      ghost var pages := View().pages;
      base', count', s := base, count, 0;
      var j := 0;
      while j < 1024
        invariant 0 <= j <= 1024
        invariant S.ScanState(pages, 1024 * i + j, count', base', nb)
      {
        S.ScanInRange(pages, 1024 * i + j, count', base', nb);
        var present := TestEntry(i, j);
        if !present {
          ScanAddress(i, j);
          S.ScanBound(pages, 1024 * i + j, count', base', nb);
          var start := base';
          if base' == 0 {
            base' := Or(Wrap(i * 0x40_0000), j * 0x1000);
          }
          if count' == nb {
            S.ScanFound(pages, 1024 * i + j, start, nb);
            return true, base', count', 1024 * i + j - nb;
          }
          S.ScanAbsent(pages, 1024 * i + j, count', start, nb);
          count' := count' + 1;
        } else {
          S.ScanPresent(pages, 1024 * i + j, count', base', nb);
          base', count' := 0, 0;
        }
        j := j + 1;
      }
      return false, base', count', 0;
    }

    /** Is directory entry i present? */
    method TestTable(i: nat) returns (present: bool)
      requires Valid() && i < 1024
      ensures present <==> i in View().tables
    {
      var entry := currentPageDir / 4 + i;
      assert mem[entry] == Entry(mem[..], Dir(), i);
      PresentValue(mem[entry]);
      present := TstAttribute(mem[entry], PRESENT);
    }

    /**
     * find_free_page: the address of the lowest run of nb + 1 absent pages, given that there
     * is one.  Tables it had to install on the way are empty, so no translation changes.
     */
    method FindFreePage(nb: nat) returns (address: nat, ghost found: bool, ghost s: nat, ghost news: seq<P.Install>)
      requires Valid()
      requires exists t: nat :: S.AbsentRun(View().pages, t, nb)
      modifies mem, pmm`usedBlocks, pmm`live, pmm.memoryMap
      ensures Valid()
      ensures P.Legal(old(View()), P.Scan(news)) && View() == P.Apply(old(View()), P.Scan(news))
      ensures View().pages == old(View()).pages
      ensures found ==> S.LowestAbsentRun(View().pages, s, nb) && address == S.FoundAddress(s, nb)
      ensures !found ==> address == 0 && pmm.Refuses(1) && NoOffer(View().frames, pmm.maxBlocks, 1)
      ensures R.TakenInOrder(old(View()), news, pmm.maxBlocks)
      ensures forall t | t in news :: S.Reached(View().pages, nb, t.index)
      ensures !found ==> exists i: nat :: i < 1024 && i !in View().tables && S.Reached(View().pages, nb, i)
      ensures DataKept(old(mem[..]), mem[..], View())
    {
      hide *;
      ghost var v, pages, m0 := View(), View().pages, mem[..];
      DataSame(m0, v);
      news, s := [], 0;
      P.InstallNone(v);
      R.TakenNone(v, pmm.maxBlocks);
      S.ScanStart(pages, nb);
      var base, count, i := 0, 0, 0;
      while i < 3072
        invariant Valid() && P.CanInstallAll(v, news) && View() == P.InstallAll(v, news)
        invariant View().pages == pages && R.TakenInOrder(v, news, pmm.maxBlocks)
        invariant forall t | t in news :: S.Reached(pages, nb, t.index)
        invariant 0 <= i && S.ScanState(pages, 1024 * i, count, base, nb)
        invariant DataKept(m0, mem[..], View())
      {
        S.ScanInRange(pages, 1024 * i, count, base, nb);
        S.ScanReaches(pages, i, count, base, nb);
        P.ScanStep(v, news);
        var present := TestTable(i);
        if !present {
          ghost var u, m1 := View(), mem[..];
          var ok, t := AddTable(i);
          if !ok {
            return 0, false, 0, news;
          }
          StayInstalledOne(u, t);
          DataTwice(m0, m1, mem[..], u, View());
          P.InstallNext(v, news, t);
          P.InstalledIsPresent(u, t);
          R.TakenNext(v, news, u, [t], pmm.maxBlocks);
          news := news + [t];
        }
        P.ScanStep(v, news);
        var done, base', count', start := ScanTable(i, nb, base, count);
        if done {
          return base', true, start, news;
        }
        base, count := base', count';
        i := i + 1;
      }
      S.ScanInRange(pages, 1024 * i, count, base, nb);
      assert false;
    }

    /** The attribute loop of init_virtual_memory_manager. */
    method MakeWritable(dir: Word)
      requires dir % 4096 == 0 && dir / 4 + 1024 <= mem.Length
      requires forall k: nat | k < 1024 :: Entry(mem[..], dir / 4096, k) == 0
      modifies mem
      ensures SameOutside(old(mem[..]), mem[..], dir / 4096)
      ensures EmptyDirectory(mem[..], dir / 4096)
    {
      assert dir / 4 == 1024 * (dir / 4096);
      OrNone(READ_WRITE);
      hide SameOutside;
      SameOutsideTrans(mem[..], mem[..], mem[..], dir / 4096);
      var i := 0;
      while i < 1024
        invariant 0 <= i <= 1024
        invariant SameOutside(old(mem[..]), mem[..], dir / 4096)
        invariant forall j: nat | j < 1024 :: Entry(mem[..], dir / 4096, j) == if j < i then 2 else 0
      {
        ghost var m := mem[..];
        assert Entry(m, dir / 4096, i) == 0;
        ghost var n := m[1024 * (dir / 4096) + i := 2];
        StoreEntry(m, dir / 4096, i, 2);
        SameOutsideTrans(old(mem[..]), m, n, dir / 4096);
        forall j: nat | j < 1024 ensures Entry(n, dir / 4096, j) == if j < i + 1 then 2 else 0 {
          assert Entry(m, dir / 4096, j) == if j < i then 2 else 0;
        }
        mem[dir / 4 + i] := SetAttribute(mem[dir / 4 + i], READ_WRITE);
        assert mem[..] == n;
        i := i + 1;
      }
    }

    /** A page-mapping loop of init_virtual_memory_manager: 1024 pages from virt onto frames from first. */
    method MapLinear(table: Word, first: Word, virt: Word)
      requires table % 4096 == 0 && table / 4 + 1024 <= mem.Length
      requires first % 4096 == 0 && first + 0x40_0000 <= 0x8000_0000 && virt % 0x40_0000 == 0
      modifies mem
      ensures SameOutside(old(mem[..]), mem[..], table / 4096)
      ensures LinearTable(mem[..], table / 4096, first / 4096)
    {
      assert table / 4 == 1024 * (table / 4096);
      hide SameOutside, SetAttribute, SetFrame, PtIndex;
      SameOutsideTrans(mem[..], mem[..], mem[..], table / 4096);
      var i: nat, frame: int, v: int := 0, first, virt;
      while i < 1024
        invariant 0 <= i <= 1024
        invariant frame == first + 4096 * i && v == virt + 4096 * i
        invariant SameOutside(old(mem[..]), mem[..], table / 4096)
        invariant forall j: nat | j < i :: Entry(mem[..], table / 4096, j) == 4096 * (first / 4096 + j) + 3
      {
        BootEntryValue(frame);
        var page := 0;
        page := SetAttribute(page, PRESENT);
        page := SetAttribute(page, READ_WRITE);
        page := SetFrame(page, frame);
        PtIndexValue(v);
        LoopIndex(virt, i);
        ghost var m := mem[..];
        StoreEntry(m, table / 4096, i, page);
        SameOutsideTrans(old(mem[..]), m, m[1024 * (table / 4096) + i := page], table / 4096);
        mem[table / 4 + PtIndex(v)] := page;
        assert mem[..] == m[1024 * (table / 4096) + i := page];
        i, frame, v := i + 1, frame + 4096, v + 4096;
      }
    }

    /**
     * init_virtual_memory_manager up to the switch to the new directory: three blocks for it and
     * two tables, mapping 4 MiB at 0 onto itself and 4 MiB at 0xC0000000 onto the kernel.
     */
    method BuildAddressSpace(kernelAddress: Word) returns (ok: bool, ghost d: nat, ghost high: nat, ghost low: nat)
      requires mem != pmm.memoryMap && pmm.Valid() && InMemory(pmm.State(), mem.Length)
      requires kernelAddress % 4096 == 0 && kernelAddress + 0x40_0000 <= 0x8000_0000
      modifies this, mem, pmm`usedBlocks, pmm`live, pmm.memoryMap
      ensures pmm.Valid() && InMemory(pmm.State(), mem.Length)
      ensures !ok ==> currentPageDir == old(currentPageDir) && (pmm.Refuses(3) || pmm.Refuses(1))
      ensures !ok ==> BootRefused(old(pmm.State()), pmm.maxBlocks, d, high)
      ensures ok ==> BootRuns(old(pmm.State()), pmm.maxBlocks, d, high, low)
      ensures ok ==> Valid() && View() == BootedView(old(pmm.State()), d, high, low, kernelAddress / 4096)
      ensures ok ==> DataKept(old(mem[..]), mem[..], View())
    {
      hide *;
      ghost var m0 := mem[..];
      d, high, low := 0, 0, 0;
      ghost var s0 := pmm.State();
      var dir := AllocateBootRun(3);
      if dir == 0 {
        ghost var s := P.AllocRun(s0, 0, 3);
        BootRefusal(s0, s, P.AllocRun(s, 0, 1), pmm.maxBlocks, 0, 0);
        return false, 0, 0, 0;
      }
      d := dir / 4096;
      ghost var s1 := pmm.State();
      ClearFrame(dir);
      ghost var m1 := mem[..];
      MakeWritable(dir);
      ghost var m2 := mem[..];
      var table := AllocateBootRun(1);
      if table == 0 {
        BootRefusal(s0, s1, P.AllocRun(s1, 0, 1), pmm.maxBlocks, d, 0);
        return false, d, 0, 0;
      }
      high := table / 4096;
      ghost var s2 := pmm.State();
      var tableHigherHalf := AllocateBootRun(1);
      if tableHigherHalf == 0 {
        BootRefusal(s0, s1, s2, pmm.maxBlocks, d, high);
        return false, d, high, 0;
      }
      low := tableHigherHalf / 4096;
      ghost var s3 := pmm.State();
      BootRunsTaken(s0, s1, s2, s3, pmm.maxBlocks, d, high, low);
      BootOwnership(s0, s1, s2, s3, d, high, low);
      BuildTables(dir, table, tableHigherHalf, kernelAddress);
      currentPageDir := dir;
      BootImageStructured(mem[..], d, low, high, kernelAddress / 4096);
      BootImagePages(mem[..], d, low, high, kernelAddress / 4096);
      BootView(s3, d, low, high, kernelAddress / 4096);
      BootValid(s0, d, low, high, kernelAddress / 4096);
      BootKept(m0, m1, m2, mem[..], d, high, low);
      BootTables(s0, m0, mem[..], d, high, low, kernelAddress / 4096);
      return true, d, high, low;
    }

    lemma BootValid(f: Frames, d: nat, low: nat, high: nat, kernel: nat)
      requires mem != pmm.memoryMap && pmm.Valid() && InMemory(pmm.State(), mem.Length)
      requires currentPageDir % 4096 == 0 && currentPageDir / 4096 == d
      requires Structured(mem[..], d)
      requires TablesOf(mem[..], d) == map[0 := low, 768 := high] && PagesOf(mem[..], d) == BootPages(kernel)
      requires P.VInv(P.View(pmm.State(), d, map[0 := low, 768 := high], BootPages(kernel)))
      requires pmm.State() == BootFrames(f, d, high, low)
      ensures Valid() && View() == BootedView(f, d, high, low, kernel)
    {
      hide TablesOf, PagesOf, Structured, BootPages, InMemory, P.VInv, BootFrames;
    }

    /** allocate_blocks during boot, before there is an address space. */
    method AllocateBootRun(n: nat) returns (address: Word)
      requires pmm.Valid() && InMemory(pmm.State(), mem.Length) && 1 <= n
      modifies pmm`usedBlocks, pmm`live, pmm.memoryMap
      ensures pmm.Valid() && InMemory(pmm.State(), mem.Length)
      ensures address == 0 ==> pmm.Refuses(n) && NoOffer(old(pmm.State()), pmm.maxBlocks, n)
      ensures address != 0 ==>
        && Reserved(old(pmm.State()), pmm.maxBlocks, address / 4096, n)
           && pmm.State() == P.AllocRun(old(pmm.State()), address / 4096, n)
        && AllocStep(old(pmm.State()), pmm.State(), address / 4096, n)
        && Inv(old(pmm.State())) && Inv(pmm.State())
        && address % 4096 == 0 && 0 < address < 0x8000_0000 && address / 4 + 1024 <= mem.Length
        && ENTRIES * (address / 4096 + 1) <= mem.Length
    {
      ghost var s := pmm.State();
      pmm.OffersFound(n);
      address := pmm.AllocateBlocks(n);
      if address != 0 {
        InMemoryAlloc(s, pmm.State(), address / 4096, n, mem.Length);
      }
    }

    /** Clear, fill and hang the two boot tables. */
    method BuildTables(dir: Word, table: Word, tableHigherHalf: Word, kernelAddress: Word)
      requires dir % 4096 == 0 && table % 4096 == 0 && tableHigherHalf % 4096 == 0
      requires dir / 4 + 1024 <= mem.Length && table / 4 + 1024 <= mem.Length
        && tableHigherHalf / 4 + 1024 <= mem.Length
      requires kernelAddress % 4096 == 0 && kernelAddress + 0x40_0000 <= 0x8000_0000
      requires 0 < dir && 0 < table < 0x8000_0000 && 0 < tableHigherHalf < 0x8000_0000
      requires dir != table && dir != tableHigherHalf && table != tableHigherHalf
      requires EmptyDirectory(mem[..], dir / 4096)
      modifies mem
      ensures BootImage(mem[..], dir / 4096, tableHigherHalf / 4096, table / 4096, kernelAddress / 4096)
      ensures KeptBut(old(mem[..]), mem[..], {dir / 4096, table / 4096, tableHigherHalf / 4096})
    {
      ghost var d, high, low := dir / 4096, table / 4096, tableHigherHalf / 4096;
      ghost var m0 := mem[..];
      ClearFrame(table);
      ghost var m1 := mem[..];
      ClearFrame(tableHigherHalf);
      ghost var m2 := mem[..];
      MapLinear(tableHigherHalf, 0, 0);
      ghost var m3 := mem[..];
      MapLinear(table, kernelAddress, 0xC000_0000);
      ghost var m4 := mem[..];
      BootDirectoryKept(m0, m1, m2, m3, m4, d, high, low);
      LinearTableKept(m3, m4, high, low, 0);
      HangBootTable(dir, PdIndex(0xC000_0000), table);
      ghost var m5 := mem[..];
      StoreEntry(m4, d, 768, table + 3);
      assert Entry(m4, d, 0) == 2 && Entry(m5, d, 0) == 2;
      HangBootTable(dir, PdIndex(0), tableHigherHalf);
      StoreEntry(m5, d, 0, tableHigherHalf + 3);
      TablesKept(m0, m1, m2, m3, m4, m5, mem[..], d, high, low);
      BootImageDone(m4, m5, mem[..], d, high, low, kernelAddress / 4096);
    }

    /** Point entry i of an empty directory at a table. */
    method HangBootTable(dir: Word, i: nat, table: Word)
      requires dir % 4096 == 0 && dir / 4 + 1024 <= mem.Length && i < 1024
      requires table % 4096 == 0 && table < 0x8000_0000
      requires Entry(mem[..], dir / 4096, i) == 2
      modifies mem
      ensures mem[..] == old(mem[..])[1024 * (dir / 4096) + i := table + 3]
    {
      var entry := dir / 4 + i;
      assert entry == 1024 * (dir / 4096) + i;
      assert mem[entry] == 2;
      BootEntryValue(table);
      OrNone(1);
      OrStep(2, 1);
      OrStep(3, 2);
      mem[entry] := SetAttribute(mem[entry], PRESENT);
      mem[entry] := SetAttribute(mem[entry], READ_WRITE);
      mem[entry] := SetFrame(mem[entry], table);
    }
  }
}
