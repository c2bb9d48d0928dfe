// Page directory and page tables as they lie in physical memory, one word per entry, and
// what a single store does to the translation they encode.
module PagingMemory {
  import opened Bits
  import opened PageEntry

  predicate Present(e: Word) { e % 2 == 1 }

  /** Entry i of the table in frame f. */
  function Entry(m: seq<Word>, f: nat, i: nat): Word
    requires i < ENTRIES && ENTRIES * (f + 1) <= |m|
  {
    m[ENTRIES * f + i]
  }

  /** The directory entries that hold a page table, by index. */
  ghost function TablesOf(m: seq<Word>, d: nat): map<nat, nat>
    requires ENTRIES * (d + 1) <= |m|
  {
    map i: nat | i < ENTRIES && Present(Entry(m, d, i)) :: Entry(m, d, i) / 4096
  }

  /**
   * The shape of a directory in frame d over a memory of whole frames below 2 GiB: table
   * frames lie in memory, are distinct from each other and from d, absent directory entries
   * name frame 0, and no entry has bit 31 set.
   */
  ghost predicate Structured(m: seq<Word>, d: nat) {
    && 0 < d && ENTRIES * (d + 1) <= |m|
    && (forall i: nat | i < ENTRIES :: TableEntryOk(m, d, Entry(m, d, i)))
    && (forall i: nat, j: nat | i < j < ENTRIES && Present(Entry(m, d, i)) && Present(Entry(m, d, j)) ::
          Entry(m, d, i) / 4096 != Entry(m, d, j) / 4096)
    && (forall i: nat, k: nat | i < ENTRIES && k < ENTRIES && Present(Entry(m, d, i)) ::
          Entry(m, Entry(m, d, i) / 4096, k) < 0x8000_0000)
  }

  ghost predicate TableEntryOk(m: seq<Word>, d: nat, e: Word) {
    && (Present(e) ==> 0 < e / 4096 && e / 4096 != d && ENTRIES * (e / 4096 + 1) <= |m| && e < 0x8000_0000)
    && (!Present(e) ==> e < 4096)
  }

  /** The page-table entry of virtual page v; frame 0 plays the table when there is none. */
  ghost function PteIndex(m: seq<Word>, d: nat, v: nat): (r: nat)
    requires Structured(m, d) && v < PAGE_COUNT
    ensures r < |m|
  {
    assert TableEntryOk(m, d, Entry(m, d, v / ENTRIES));
    ENTRIES * (Entry(m, d, v / ENTRIES) / 4096) + v % ENTRIES
  }

  /** The frame an entry names, or -1. */
  function FrameOf(e: Word): int {
    if Present(e) then e / 4096 else -1
  }

  /** The frame page v translates to, or -1. */
  ghost function Translate(m: seq<Word>, d: nat, v: nat): int
    requires Structured(m, d) && v < PAGE_COUNT
  {
    if Present(Entry(m, d, v / ENTRIES)) then FrameOf(m[PteIndex(m, d, v)]) else -1
  }

  /** The translation: frame number by virtual page number. */
  ghost function PagesOf(m: seq<Word>, d: nat): map<nat, nat>
    requires Structured(m, d)
  {
    map v: nat | v < PAGE_COUNT && Translate(m, d, v) >= 0 :: Translate(m, d, v)
  }

  lemma PagesAgree(m: seq<Word>, n: seq<Word>, d: nat)
    requires Structured(m, d) && Structured(n, d)
    requires forall v: nat | v < PAGE_COUNT :: Translate(n, d, v) == Translate(m, d, v)
    ensures PagesOf(n, d) == PagesOf(m, d)
  {
    hide Translate, Structured;
  }

  lemma PagesDiffer(m: seq<Word>, n: seq<Word>, d: nat, v: nat)
    requires Structured(m, d) && Structured(n, d) && v < PAGE_COUNT
    requires forall u: nat | u < PAGE_COUNT && u != v :: Translate(n, d, u) == Translate(m, d, u)
    ensures PagesOf(n, d) ==
      if Translate(n, d, v) >= 0 then PagesOf(m, d)[v := Translate(n, d, v)] else PagesOf(m, d) - {v}
  {
    hide Translate, Structured;
  }

  /** Frame f holds neither the directory nor a page table. */
  ghost predicate OutsideTables(m: seq<Word>, d: nat, f: nat)
    requires ENTRIES * (d + 1) <= |m|
  {
    f != d && forall i: nat | i < ENTRIES && Present(Entry(m, d, i)) :: Entry(m, d, i) / 4096 != f
  }

  /** Every word outside frame f is the same. */
  ghost predicate SameOutside(m: seq<Word>, n: seq<Word>, f: nat) {
    |n| == |m| && forall a: nat | a < |m| && a / 1024 != f :: n[a] == m[a]
  }

  lemma EntryOutside(m: seq<Word>, n: seq<Word>, f: nat, g: nat, i: nat)
    requires SameOutside(m, n, f) && g != f && i < 1024 && 1024 * (g + 1) <= |m|
    ensures Entry(n, g, i) == Entry(m, g, i)
  {
    assert (1024 * g + i) / 1024 == g;
  }

  /** A store to entry i of frame f. */
  lemma StoreEntry(m: seq<Word>, f: nat, i: nat, w: Word)
    requires i < 1024 && 1024 * (f + 1) <= |m|
    ensures SameOutside(m, m[1024 * f + i := w], f)
    ensures forall j: nat | j < 1024 :: Entry(m[1024 * f + i := w], f, j) == if j == i then w else Entry(m, f, j)
  {
    assert (1024 * f + i) / 1024 == f;
    forall j: nat | j < 1024 ensures Entry(m[1024 * f + i := w], f, j) == if j == i then w else Entry(m, f, j) {
    }
  }

  /** The entries of the directory and of the tables lie outside a frame that is neither. */
  lemma EntriesOutside(m: seq<Word>, n: seq<Word>, d: nat, f: nat)
    requires Structured(m, d) && OutsideTables(m, d, f) && SameOutside(m, n, f)
    ensures Structured(n, d) && OutsideTables(n, d, f)
    ensures forall i: nat | i < 1024 :: Entry(n, d, i) == Entry(m, d, i)
    ensures forall i: nat, k: nat | i < 1024 && k < 1024 && Present(Entry(m, d, i)) ::
      TableEntryOk(m, d, Entry(m, d, i)) && Entry(n, Entry(m, d, i) / 4096, k) == Entry(m, Entry(m, d, i) / 4096, k)
  {
    forall i: nat | i < 1024
      ensures Entry(n, d, i) == Entry(m, d, i) && TableEntryOk(n, d, Entry(n, d, i))
    {
      EntryOutside(m, n, f, d, i);
      assert TableEntryOk(m, d, Entry(m, d, i));
    }
    forall i: nat, k: nat | i < 1024 && k < 1024 && Present(Entry(m, d, i))
      ensures TableEntryOk(m, d, Entry(m, d, i))
      ensures Entry(n, Entry(m, d, i) / 4096, k) == Entry(m, Entry(m, d, i) / 4096, k)
    {
      assert TableEntryOk(m, d, Entry(m, d, i));
      EntryOutside(m, n, f, Entry(m, d, i) / 4096, k);
    }
  }

  /** Rewriting a frame that is neither the directory nor a table changes no translation. */
  lemma FrameOutside(m: seq<Word>, n: seq<Word>, d: nat, f: nat)
    requires Structured(m, d) && OutsideTables(m, d, f) && SameOutside(m, n, f)
    ensures Structured(n, d) && OutsideTables(n, d, f)
    ensures TablesOf(n, d) == TablesOf(m, d)
    ensures PagesOf(n, d) == PagesOf(m, d)
  {
    EntriesOutside(m, n, d, f);
    assert TablesOf(n, d) == TablesOf(m, d);
    forall v: nat | v < PAGE_COUNT
      ensures Translate(n, d, v) == Translate(m, d, v)
    {
      SameEntry(m, n, d, v);
    }
    hide Structured, Translate, TablesOf, OutsideTables, SameOutside;
    PagesAgree(m, n, d);
  }

  /** A store outside the directory and the tables changes no translation. */
  lemma StoreOutside(m: seq<Word>, d: nat, a: nat, w: Word)
    requires Structured(m, d) && a < |m| && OutsideTables(m, d, a / ENTRIES)
    ensures Structured(m[a := w], d)
    ensures TablesOf(m[a := w], d) == TablesOf(m, d)
    ensures PagesOf(m[a := w], d) == PagesOf(m, d)
  {
    FrameOutside(m, m[a := w], d, a / ENTRIES);
  }

  /** Page v reads the same entry in m and n when the tables agree. */
  lemma SameEntry(m: seq<Word>, n: seq<Word>, d: nat, v: nat)
    requires Structured(m, d) && Structured(n, d) && v < PAGE_COUNT
    requires Entry(n, d, v / ENTRIES) == Entry(m, d, v / ENTRIES)
    requires Present(Entry(m, d, v / ENTRIES)) ==>
      var f := Entry(m, d, v / ENTRIES) / 4096;
      ENTRIES * (f + 1) <= |m| && ENTRIES * (f + 1) <= |n| && Entry(n, f, v % ENTRIES) == Entry(m, f, v % ENTRIES)
    ensures Translate(n, d, v) == Translate(m, d, v)
  {
  }

  /** A store to the entry of page v leaves every other word of the directory and the tables. */
  lemma StorePteShape(m: seq<Word>, d: nat, v: nat, w: Word)
    requires Structured(m, d) && v < PAGE_COUNT && w < 0x8000_0000
    requires Present(Entry(m, d, v / ENTRIES))
    ensures var n := m[PteIndex(m, d, v) := w];
      && Structured(n, d)
      && (forall i: nat | i < ENTRIES :: Entry(n, d, i) == Entry(m, d, i))
      && (forall i: nat, k: nat | i < ENTRIES && k < ENTRIES && Present(Entry(m, d, i))
          && (i != v / ENTRIES || k != v % ENTRIES) ::
            ENTRIES * (Entry(m, d, i) / 4096 + 1) <= |m| &&
            Entry(n, Entry(m, d, i) / 4096, k) == Entry(m, Entry(m, d, i) / 4096, k))
  {
    var n := m[PteIndex(m, d, v) := w];
    var t := Entry(m, d, v / ENTRIES) / 4096;
    assert TableEntryOk(m, d, Entry(m, d, v / ENTRIES));
    assert PteIndex(m, d, v) / ENTRIES == t;
    forall i: nat | i < ENTRIES
      ensures Entry(n, d, i) == Entry(m, d, i) && TableEntryOk(n, d, Entry(n, d, i))
    {
      assert TableEntryOk(m, d, Entry(m, d, i));
      assert (ENTRIES * d + i) / ENTRIES == d;
    }
    forall i: nat, k: nat | i < ENTRIES && k < ENTRIES && Present(Entry(m, d, i))
      && (i != v / ENTRIES || k != v % ENTRIES)
      ensures ENTRIES * (Entry(m, d, i) / 4096 + 1) <= |m|
      ensures Entry(n, Entry(m, d, i) / 4096, k) == Entry(m, Entry(m, d, i) / 4096, k)
    {
      assert TableEntryOk(m, d, Entry(m, d, i));
      DistinctTables(m, d, i, v / ENTRIES);
      assert (ENTRIES * (Entry(m, d, i) / 4096) + k) / ENTRIES == Entry(m, d, i) / 4096;
    }
  }

  /** A store to the entry of page v in a present table changes the translation of v alone. */
  lemma StorePte(m: seq<Word>, d: nat, v: nat, w: Word)
    requires Structured(m, d) && v < PAGE_COUNT && w < 0x8000_0000
    requires Present(Entry(m, d, v / ENTRIES))
    ensures Structured(m[PteIndex(m, d, v) := w], d)
    ensures TablesOf(m[PteIndex(m, d, v) := w], d) == TablesOf(m, d)
    ensures PagesOf(m[PteIndex(m, d, v) := w], d) ==
      if Present(w) then PagesOf(m, d)[v := w / 4096] else PagesOf(m, d) - {v}
  {
    var n := m[PteIndex(m, d, v) := w];
    StorePteShape(m, d, v, w);
    forall u: nat | u < PAGE_COUNT && u != v
      ensures Translate(n, d, u) == Translate(m, d, u)
    {
      assert u / ENTRIES != v / ENTRIES || u % ENTRIES != v % ENTRIES;
      SameEntry(m, n, d, u);
    }
    assert PteIndex(n, d, v) == PteIndex(m, d, v);
    PagesDiffer(m, n, d, v);
  }

  /**
   * Clearing the entry unmap_page reaches: of page v when it has a table, else a word of
   * physical frame 0, which holds no table.
   */
  lemma ClearPte(m: seq<Word>, d: nat, v: nat, w: Word)
    requires Structured(m, d) && v < PAGE_COUNT && !Present(w)
    requires m[PteIndex(m, d, v)] < 0x8000_0000 ==> w < 4096
    ensures Structured(m[PteIndex(m, d, v) := w], d)
    ensures TablesOf(m[PteIndex(m, d, v) := w], d) == TablesOf(m, d)
    ensures PagesOf(m[PteIndex(m, d, v) := w], d) == PagesOf(m, d) - {v}
  {
    var e := Entry(m, d, v / ENTRIES);
    assert TableEntryOk(m, d, e);
    if Present(e) {
      assert m[PteIndex(m, d, v)] == Entry(m, e / 4096, v % ENTRIES);
      StorePte(m, d, v, w);
    } else {
      ZeroFrameOutside(m, d);
      StoreOutside(m, d, PteIndex(m, d, v), w);
      assert Translate(m, d, v) == -1;
      PagesAgree(m, m, d);
      assert v !in PagesOf(m, d);
    }
  }

  lemma ZeroFrameOutside(m: seq<Word>, d: nat)
    requires Structured(m, d)
    ensures OutsideTables(m, d, 0)
  {
    forall i: nat | i < ENTRIES && Present(Entry(m, d, i)) ensures Entry(m, d, i) / 4096 != 0 {
      assert TableEntryOk(m, d, Entry(m, d, i));
    }
  }

  /** What page 1024 i + j translates to, by entry j of table i. */
  lemma TranslateEntry(m: seq<Word>, d: nat, i: nat, j: nat)
    requires Structured(m, d) && i < 1024 && j < 1024
    ensures var e := Entry(m, d, i);
      && (!Present(e) ==> Translate(m, d, 1024 * i + j) == -1)
      && (Present(e) ==> 1024 * (e / 4096 + 1) <= |m|)
      && (Present(e) ==> Translate(m, d, 1024 * i + j) == FrameOf(Entry(m, e / 4096, j)))
  {
    var p := 1024 * i + j;
    assert p / ENTRIES == i && p % ENTRIES == j;
    assert TableEntryOk(m, d, Entry(m, d, i));
  }

  /** Entry j of table i decides whether page 1024 i + j is mapped. */
  lemma MappedPage(m: seq<Word>, d: nat, i: nat, j: nat)
    requires Structured(m, d) && i < 1024 && j < 1024 && i in TablesOf(m, d)
    ensures var e := Entry(m, d, i);
      && m[1024 * d + i] == e && Present(e)
      && 1024 * (e / 4096) + j < |m|
      && (Present(m[1024 * (e / 4096) + j]) <==> 1024 * i + j in PagesOf(m, d))
  {
    var e, p := Entry(m, d, i), 1024 * i + j;
    assert p / ENTRIES == i && p % ENTRIES == j;
    assert TableEntryOk(m, d, e);
    assert PteIndex(m, d, p) == 1024 * (e / 4096) + j;
  }

  lemma DistinctTables(m: seq<Word>, d: nat, i: nat, j: nat)
    requires Structured(m, d) && i < ENTRIES && j < ENTRIES
    requires Present(Entry(m, d, i)) && Present(Entry(m, d, j))
    ensures i == j <==> Entry(m, d, i) / 4096 == Entry(m, d, j) / 4096
  {
    if i < j {
      assert Entry(m, d, i) / 4096 != Entry(m, d, j) / 4096;
    } else if j < i {
      assert Entry(m, d, j) / 4096 != Entry(m, d, i) / 4096;
    }
  }

  /** What hanging frame e / 4096 into directory entry i does to the words of the tables. */
  lemma InstallTableShape(m: seq<Word>, d: nat, i: nat, e: Word)
    requires Structured(m, d) && i < ENTRIES && !Present(Entry(m, d, i))
    requires Present(e) && e < 0x8000_0000 && 0 < e / 4096 && ENTRIES * (e / 4096 + 1) <= |m|
    requires OutsideTables(m, d, e / 4096)
    requires forall k: nat | k < ENTRIES :: Entry(m, e / 4096, k) == 0
    ensures var n := m[ENTRIES * d + i := e];
      && Structured(n, d)
      && (forall j: nat | j < ENTRIES :: Entry(n, d, j) == if j == i then e else Entry(m, d, j))
      && (forall f: nat, k: nat | k < ENTRIES && f != d && ENTRIES * (f + 1) <= |m| :: Entry(n, f, k) == Entry(m, f, k))
  {
    var n := m[ENTRIES * d + i := e];
    forall f: nat, k: nat | k < ENTRIES && f != d && ENTRIES * (f + 1) <= |m|
      ensures Entry(n, f, k) == Entry(m, f, k)
    {
      assert (ENTRIES * f + k) / ENTRIES == f;
    }
    forall j: nat | j < ENTRIES
      ensures Entry(n, d, j) == if j == i then e else Entry(m, d, j)
      ensures TableEntryOk(n, d, Entry(n, d, j))
    {
      assert TableEntryOk(m, d, Entry(m, d, j));
    }
    forall j: nat, k: nat | j < ENTRIES && k < ENTRIES && Present(Entry(n, d, j))
      ensures Entry(n, Entry(n, d, j) / 4096, k) < 0x8000_0000
    {
      assert TableEntryOk(n, d, Entry(n, d, j));
      if j != i { assert TableEntryOk(m, d, Entry(m, d, j)); }
    }
  }

  /** Hanging an all-zero frame into an absent directory entry maps no page. */
  lemma InstallTable(m: seq<Word>, d: nat, i: nat, e: Word)
    requires Structured(m, d) && i < ENTRIES && !Present(Entry(m, d, i))
    requires Present(e) && e < 0x8000_0000 && 0 < e / 4096 && ENTRIES * (e / 4096 + 1) <= |m|
    requires OutsideTables(m, d, e / 4096)
    requires forall k: nat | k < ENTRIES :: Entry(m, e / 4096, k) == 0
    ensures Structured(m[ENTRIES * d + i := e], d)
    ensures TablesOf(m[ENTRIES * d + i := e], d) == TablesOf(m, d)[i := e / 4096]
    ensures PagesOf(m[ENTRIES * d + i := e], d) == PagesOf(m, d)
  {
    var n := m[ENTRIES * d + i := e];
    InstallTableShape(m, d, i, e);
    forall v: nat | v < PAGE_COUNT
      ensures Translate(n, d, v) == Translate(m, d, v)
    {
      assert TableEntryOk(m, d, Entry(m, d, v / ENTRIES));
      if v / ENTRIES == i {
        assert n[PteIndex(n, d, v)] == Entry(n, e / 4096, v % ENTRIES) == 0;
      } else {
        SameEntry(m, n, d, v);
      }
    }
    PagesAgree(m, n, d);
  }
}
