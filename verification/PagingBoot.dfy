// The memory image init_virtual_memory_manager builds, and the translation it encodes.
module PagingBoot {
  import opened Bits
  import opened PagingMemory

  /** A directory word with the read-write attribute alone. */
  ghost predicate EmptyDirectory(m: seq<Word>, d: nat) {
    1024 * (d + 1) <= |m| && forall i: nat | i < 1024 :: Entry(m, d, i) == 2
  }

  /** A table mapping its 1024 pages onto the frames from base on, present and writable. */
  ghost predicate LinearTable(m: seq<Word>, t: nat, base: nat) {
    1024 * (t + 1) <= |m| && forall i: nat | i < 1024 :: Entry(m, t, i) == 4096 * (base + i) + 3
  }

  /** Two linear tables hung into entries 0 and 768 of an otherwise empty directory. */
  ghost predicate BootImage(m: seq<Word>, d: nat, low: nat, high: nat, kernel: nat) {
    && 0 < d && 0 < low < 0x8_0000 && 0 < high < 0x8_0000 && low != high && d != low && d != high
    && 1024 * (d + 1) <= |m| && kernel + 1024 <= 0x8_0000
    && (forall i: nat | i < 1024 && i != 0 && i != 768 :: Entry(m, d, i) == 2)
    && Entry(m, d, 0) == 4096 * low + 3
    && Entry(m, d, 768) == 4096 * high + 3
    && LinearTable(m, low, 0)
    && LinearTable(m, high, kernel)
  }

  /** The frame of page v after boot, or -1: 4 MiB identity, and 4 MiB at 0xC0000000 onto the kernel. */
  function BootFrame(kernel: nat, v: nat): int {
    if v < 1024 then v else if 0xC_0000 <= v < 0xC_0400 then kernel + (v - 0xC_0000) else -1
  }

  ghost function BootPages(kernel: nat): map<nat, nat> {
    map v: nat | v < 0x10_0000 && BootFrame(kernel, v) >= 0 :: BootFrame(kernel, v)
  }

  /** In terms of addresses: the first 4 MiB, and the 4 MiB of the kernel at 3 GiB, and nothing else. */
  lemma BootAddress(kernel: nat, a: Word)
    ensures a / 4096 in BootPages(kernel) <==> a < 0x40_0000 || 0xC000_0000 <= a < 0xC040_0000
    ensures a < 0x40_0000 ==> 4096 * BootPages(kernel)[a / 4096] + a % 4096 == a
    ensures 0xC000_0000 <= a < 0xC040_0000 ==>
      4096 * BootPages(kernel)[a / 4096] + a % 4096 == 4096 * kernel + (a - 0xC000_0000)
  {
  }

  lemma LinearEntry(f: nat)
    requires f < 0x8_0000
    ensures Present(4096 * f + 3) && (4096 * f + 3) / 4096 == f
  {
  }

  lemma BootDirectory(m: seq<Word>, d: nat, low: nat, high: nat, kernel: nat, i: nat)
    requires BootImage(m, d, low, high, kernel) && i < 1024
    ensures TableEntryOk(m, d, Entry(m, d, i))
    ensures Present(Entry(m, d, i)) <==> i == 0 || i == 768
    ensures Entry(m, d, i) / 4096 == if i == 0 then low else if i == 768 then high else 0
  {
    LinearEntry(low);
    LinearEntry(high);
    if i != 0 && i != 768 { assert Entry(m, d, i) == 2; }
    hide Entry;
  }

  lemma BootImageStructured(m: seq<Word>, d: nat, low: nat, high: nat, kernel: nat)
    requires BootImage(m, d, low, high, kernel)
    ensures Structured(m, d)
    ensures TablesOf(m, d) == map[0 := low, 768 := high]
  {
    forall i: nat | i < 1024
      ensures TableEntryOk(m, d, Entry(m, d, i))
      ensures Present(Entry(m, d, i)) <==> i == 0 || i == 768
      ensures Entry(m, d, i) / 4096 == if i == 0 then low else if i == 768 then high else 0
    {
      BootDirectory(m, d, low, high, kernel, i);
    }
    forall k: nat | k < 1024
      ensures Entry(m, low, k) < 0x8000_0000 && Entry(m, high, k) < 0x8000_0000
    {
      assert Entry(m, low, k) == 4096 * (0 + k) + 3;
    }
    hide TableEntryOk, Entry, Present, BootImage;
  }

  lemma BootTranslation(m: seq<Word>, d: nat, low: nat, high: nat, kernel: nat, v: nat)
    requires BootImage(m, d, low, high, kernel) && Structured(m, d) && v < 0x10_0000
    ensures Translate(m, d, v) == BootFrame(kernel, v)
  {
    var i, j := v / 1024, v % 1024;
    BootDirectory(m, d, low, high, kernel, i);
    LinearEntry(j);
    LinearEntry(kernel + j);
    TranslateEntry(m, d, i, j);
    assert i == 0 ==> Entry(m, low, j) == 4096 * (0 + j) + 3;
    assert i == 768 ==> Entry(m, high, j) == 4096 * (kernel + j) + 3;
    hide Translate, Entry, Structured, BootImage, TableEntryOk;
  }

  /** After boot exactly the two 4 MiB windows are mapped. */
  lemma BootImagePages(m: seq<Word>, d: nat, low: nat, high: nat, kernel: nat)
    requires BootImage(m, d, low, high, kernel) && Structured(m, d)
    ensures PagesOf(m, d) == BootPages(kernel)
  {
    forall v: nat | v < 0x10_0000
      ensures Translate(m, d, v) == BootFrame(kernel, v)
    {
      BootTranslation(m, d, low, high, kernel, v);
    }
  }

  lemma BootDirectoryKept(m0: seq<Word>, m1: seq<Word>, m2: seq<Word>, m3: seq<Word>, m4: seq<Word>, d: nat, high: nat,
                          low: nat)
    requires SameOutside(m0, m1, high) && SameOutside(m1, m2, low) && SameOutside(m2, m3, low)
      && SameOutside(m3, m4, high)
    requires EmptyDirectory(m0, d) && d != high && d != low
    ensures EmptyDirectory(m4, d)
  {
    forall i: nat | i < 1024 ensures Entry(m4, d, i) == 2 {
      assert Entry(m0, d, i) == 2;
      EntryOutside(m0, m1, high, d, i);
      EntryOutside(m1, m2, low, d, i);
      EntryOutside(m2, m3, low, d, i);
      EntryOutside(m3, m4, high, d, i);
    }
  }

  lemma LinearTableKept(m: seq<Word>, n: seq<Word>, f: nat, t: nat, base: nat)
    requires SameOutside(m, n, f) && t != f && LinearTable(m, t, base)
    ensures LinearTable(n, t, base)
  {
    forall i: nat | i < 1024 ensures Entry(n, t, i) == 4096 * (base + i) + 3 {
      assert Entry(m, t, i) == 4096 * (base + i) + 3;
      EntryOutside(m, n, f, t, i);
    }
  }

  lemma BootImageDone(m: seq<Word>, n: seq<Word>, o: seq<Word>, d: nat, high: nat, low: nat, kernel: nat)
    requires EmptyDirectory(m, d) && LinearTable(m, low, 0) && LinearTable(m, high, kernel)
    requires 0 < d && 0 < low < 0x8_0000 && 0 < high < 0x8_0000 && low != high && d != low && d != high
      && kernel + 1024 <= 0x8_0000
    requires n == m[1024 * d + 768 := 4096 * high + 3] && o == n[1024 * d + 0 := 4096 * low + 3]
    ensures BootImage(o, d, low, high, kernel)
  {
    StoreEntry(m, d, 768, 4096 * high + 3);
    StoreEntry(n, d, 0, 4096 * low + 3);
    LinearTableKept(m, n, d, low, 0);
    LinearTableKept(n, o, d, low, 0);
    LinearTableKept(m, n, d, high, kernel);
    LinearTableKept(n, o, d, high, kernel);
    forall i: nat | i < 1024 && i != 0 && i != 768 ensures Entry(o, d, i) == 2 {
      assert Entry(m, d, i) == 2;
    }
  }
}
