// The kernel heap of malloc.c, on pages obtained from allocate_new_page.
module Heap {
  import opened Bits
  import opened FrameOwnership
  import opened HeapBacking
  import opened HeapLayout
  import opened HeapSteps
  import P = PagingSpec
  import R = PagingRollback
  import VM = AddressSpace

  /** The largest request whose rounding and header sizes do not wrap around 32 bits. */
  const MAX_REQUEST: Word := 0xFFFF_FFE0

  function Align(n: Word, base: nat): Word
    requires base > 0
  {
    if n % base == 0 then n else Wrap(base - n % base + n)
  }

  /** Rounding a request up to 16 keeps it large enough exactly when it does not wrap. */
  lemma AlignExact(n: Word)
    ensures Align(n, 16) >= n <==> n <= 0xFFFF_FFF0
    ensures Align(n, 16) >= n && Align(n, 16) + 28 < 0x1_0000_0000 <==> n <= MAX_REQUEST
    ensures Align(n, 16) % 16 == 0 && (n <= 0xFFFF_FFF0 ==> Align(n, 16) < n + 16)
    ensures n > 0xFFFF_FFF0 ==> Align(n, 16) == 0
    ensures MAX_REQUEST < n <= 0xFFFF_FFF0 ==> Align(n, 16) == 0xFFFF_FFF0
  {
  }

  lemma AlignPages(n: Word)
    ensures Align(n, 4096) % 4096 == 0
    ensures n <= 0xFFFF_F000 ==> n <= Align(n, 4096) < n + 4096
    ensures n > 0xFFFF_F000 ==> Align(n, 4096) == 0
  {
  }

  const EMPTY_SHAPE: Shape := Shape([], [], map[], map[], {})

  lemma EmptyHeap()
    ensures HeapOk(0, 0, map[], map[], EMPTY_SHAPE)
  {
  }

  lemma EmptyBacked(v: P.View)
    ensures Backed(v, 0xF000_0000)
  {
  }

  class Heap {
    const vm: VM.Space
    var pageList: Word
    var freeList: Word
    var pages: Pages
    var blocks: Blocks
    ghost var shape: Shape

    constructor (space: VM.Space)
      requires space.Valid()
      ensures Valid() && vm == space && shape == EMPTY_SHAPE
      ensures pageList == 0 && freeList == 0 && pages == map[] && blocks == map[]
    {
      vm := space;
      pageList, freeList := 0, 0;
      pages, blocks := map[], map[];
      shape := EMPTY_SHAPE;
      new;
      hide *;
      EmptyHeap();
      EmptyBacked(vm.View());
      EmptyEnd();
      HeapValid(0xF000_0000);
    }

    lemma EmptyEnd()
      requires shape == EMPTY_SHAPE && pages == map[] && blocks == map[]
      requires pageList == 0 && freeList == 0 && HeapOk(0, 0, map[], map[], EMPTY_SHAPE)
      ensures End() == 0xF000_0000 && Ok()
    {
      hide HeapOk;
      assert shape.pages == [];
    }

    ghost predicate Ok()
      reads this
    {
      HeapOk(pageList, freeList, pages, blocks, shape)
    }

    ghost function End(): nat
      reads this
    {
      if PagesPresent(pages, shape.pages) then HeapEnd(pages, shape.pages) else 0
    }

    ghost predicate Valid()
      reads this, vm, vm.pmm, vm.pmm.memoryMap, vm.mem
    {
      vm.Valid() && Ok() && Backed(vm.View(), End())
    }

    /** The page list can be walked and has a place behind its last page. */
    ghost predicate Walkable()
      reads this
    {
      PageLinks(pageList, pages, shape.pages) && Placeable(pages, shape)
    }

    lemma EndFacts()
      requires Ok()
      ensures PagesPresent(pages, shape.pages)
      ensures End() == HeapEnd(pages, shape.pages) && 0xF000_0000 <= End() <= 0x1_0000_0000 && End() % 4096 == 0
      ensures pageList == 0 <==> shape.pages == []
    {
      ChainMembers(pageList, pages, shape.pages);
      if shape.pages != [] { assert PageOk(pages, shape.pages, 0); }
    }

    lemma WalkableNow()
      requires Ok()
      ensures Walkable()
    {
      HeapPlaceable(pageList, freeList, pages, blocks, shape);
    }

    /** The last page of the list, as the walk in add_page finds it. */
    method LastPage() returns (tmp: Word)
      requires PageLinks(pageList, pages, shape.pages) && pageList != 0
      ensures shape.pages != [] && tmp == shape.pages[|shape.pages| - 1] && tmp in pages
    {
      tmp := pageList;
      ghost var i := 0;
      assert NextOk(pages, shape.pages, 0);
      while pages[tmp].next != 0
        invariant 0 <= i < |shape.pages| && tmp == shape.pages[i] && NextOk(pages, shape.pages, i)
        decreases |shape.pages| - i
      {
        assert i + 1 < |shape.pages|;
        assert NextOk(pages, shape.pages, i + 1);
        tmp := pages[tmp].next;
        i := i + 1;
      }
      LinksEnd(pageList, pages, shape.pages, i);
    }

    /** Where the next page goes: behind the last one, in 32-bit arithmetic. */
    method NextAddress() returns (address: Word)
      requires Walkable()
      ensures address == Wrap(End())
    {
      LinksHead(pageList, pages, shape.pages);
      if pageList == 0 {
        address := HEAP_START;
      } else {
        var tmp := LastPage();
        address := Wrap(tmp as int + pages[tmp].size);
      }
    }

    /**
     * add_page: pages are asked for behind the last one.  When they are granted at an address
     * other than 0, one page of the rounded size follows the last, with only its header in use;
     * otherwise the heap is unchanged.
     */
    method AddPage(size: Word) returns (ok: bool, ghost e: P.Event)
      requires vm.Valid() && Walkable()
      modifies this`pageList, this`pages, this`shape, vm.mem, vm.pmm`usedBlocks, vm.pmm`live, vm.pmm.memoryMap
      ensures vm.Valid()
      ensures P.Legal(old(vm.View()), e) && vm.View() == P.Apply(old(vm.View()), e)
      ensures Attempt(e, old(End()), Align(size, 4096))
      ensures R.Answers(old(vm.View()), e, vm.pmm.maxBlocks, Align(size, 4096) / 4096)
      ensures VM.DataKept(old(vm.mem[..]), vm.mem[..], vm.View())
      ensures ok <==> e.NewPages? && Wrap(old(End())) != 0
      ensures !ok ==> pageList == old(pageList) && pages == old(pages) && shape == old(shape)
      ensures ok ==>
        && Appended(old(pages), old(shape), Wrap(old(End())), Align(size, 4096), pages, shape)
        && PageLinks(pageList, pages, shape.pages)
        && pageList == if old(pageList) == 0 then Wrap(old(End())) else old(pageList)
    {
      hide *;
      AlignPages(size);
      ghost var v, end := vm.View(), End();
      var alignSize := Align(size, 4096);
      var address := NextAddress();
      var r;
      r, e := vm.AllocateNewPage(address, alignSize / 4096);
      AttemptNow(v, e, end, address, alignSize, r);
      if r == 0 {
        return false, e;
      }
      LinkPage(r, alignSize);
      return true, e;
    }

    /** Append the page at r and write its header. */
    method LinkPage(r: Word, size: Word)
      requires Walkable() && r != 0 && r == Wrap(End()) && 16 <= size
      modifies this`pageList, this`pages, this`shape
      ensures Appended(old(pages), old(shape), r, size, pages, shape)
      ensures PageLinks(pageList, pages, shape.pages) && pageList == if old(pageList) == 0 then r else old(pageList)
    {
      ghost var before, s := pages, shape;
      LinksAppended(pageList, pages, s.pages, r, size);
      WithPageCases(pages, s.pages, r, size);
      LinksHead(pageList, pages, s.pages);
      hide HeapEnd, WithPage, PageLinks;
      if pageList == 0 {
        pageList := r;
      } else {
        var tmp := LastPage();
        pages := pages[tmp := pages[tmp].(next := r)];
      }
      pages := pages[r := PageHeader(0, size, 16)];
      shape := PageAdded(s, r);
      assert pages == WithPage(before, s.pages, r, size);
    }

    lemma HeapValid(end: nat)
      requires vm.Valid() && Ok() && Backed(vm.View(), end) && End() == end
      ensures Valid()
    {
    }

    /** The address space has taken step e from view v. */
    ghost predicate Took(v: P.View, e: P.Event)
      reads this, vm, vm.pmm, vm.pmm.memoryMap, vm.mem
    {
      vm.Valid() && P.VInv(v) && FramesBelow(v.frames) && P.Legal(v, e) && vm.View() == P.Apply(v, e)
    }

    /** After pages were asked for in vain, or granted at address 0, the heap is as good as before. */
    lemma NotAdded(v: P.View, e: P.Event, size: Word, pl: Word, before: Pages, s: Shape, end: nat)
      requires Took(v, e) && HeapOk(pl, freeList, before, blocks, s)
      requires pageList == pl && pages == before && shape == s
      requires PagesPresent(before, s.pages) && end == HeapEnd(before, s.pages) && Backed(v, end)
        && Attempt(e, end, size)
      ensures Valid()
    {
      HeapExtent(pl, freeList, before, blocks, s);
      OldPagesBacked(v, e, end, size);
      hide HeapOk, HeapEnd, PagesPresent, Backed, P.VInv, P.Legal, P.Apply, Attempt, FramesBelow;
      HeapValid(end);
    }

    /** Pages granted and kept give a larger heap. */
    lemma Added(v: P.View, e: P.Event, pl: Word, before: Pages, s: Shape, end: nat, size: Word)
      requires Took(v, e) && HeapOk(pl, freeList, before, blocks, s)
      requires PagesPresent(before, s.pages) && end == HeapEnd(before, s.pages) && Backed(v, end)
      requires Attempt(e, end, size) && size % 4096 == 0 && e.NewPages? && Kept(e) && Wrap(end) != 0
      requires Appended(before, s, Wrap(end), size, pages, shape) && pageList == if pl == 0 then Wrap(end) else pl
      ensures Valid() && End() == end + size
    {
      hide HeapOk, HeapEnd, PagesPresent, Backed, P.VInv, P.Legal, P.Apply, Attempt, FramesBelow, Kept, Appended;
      HeapExtent(pl, freeList, before, blocks, s);
      KeptExact(e, end, size);
      AppendedHeap(pl, freeList, before, blocks, s, end, size, pages, shape);
      OldPagesBacked(v, e, end, size);
      NewPagesBacked(v, e, end, size);
      HeapValid(end + size);
    }

    /** Pages granted but not kept, at an address other than 0, lie too far for any heap. */
    lemma AddedTooFar(e: P.Event, before: Pages, s: Shape, end: nat, size: Word)
      requires 0xF000_0000 <= end <= 0x1_0000_0000 && end % 4096 == 0 && size % 4096 == 0 && Attempt(e, end, size)
      requires e.NewPages? && !Kept(e) && Wrap(end) != 0
      requires Appended(before, s, Wrap(end), size, pages, shape)
      ensures TooFar(pages)
    {
      KeptExact(e, end, size);
      AppendedTooFar(before, s, Wrap(end), size, pages, shape);
    }

    /** What a valid heap offers to an allocation behind it. */
    lemma GrowFacts()
      requires Valid()
      ensures vm.Valid() && Ok() && Walkable() && Backed(vm.View(), End())
      ensures P.VInv(vm.View()) && FramesBelow(vm.View().frames)
      ensures HeapOk(pageList, freeList, pages, blocks, shape) && FreeChain(freeList, blocks, shape.frees)
      ensures PagesPresent(pages, shape.pages) && End() == HeapEnd(pages, shape.pages)
      ensures 0xF000_0000 <= End() <= 0x1_0000_0000 && End() % 4096 == 0
    {
      EndFacts();
      WalkableNow();
      FramesInMemory();
      hide Backed, P.VInv;
    }

    lemma FramesInMemory()
      requires vm.Valid()
      ensures FramesBelow(vm.View().frames) && P.VInv(vm.View())
    {
    }

    /** find_free_blk: unlink the first suitable block of the free list, keeping the rest in order. */
    method FindFreeBlk(size: Word) returns (h: Word, ghost k: nat)
      requires FreeChain(freeList, blocks, shape.frees)
      modifies this`freeList, this`blocks
      ensures h == 0 ==> freeList == old(freeList) && blocks == old(blocks) && NoneSuits(blocks, shape.frees, size)
      ensures h != 0 ==>
        && FirstSuited(old(blocks), shape.frees, k, size) && h == shape.frees[k]
        && FreeChain(freeList, blocks, Without(shape.frees, k))
        && SameSizes(old(blocks), blocks)
    {
      ghost var fs := shape.frees;
      ChainInBlocks(freeList, blocks, fs);
      var freeBlk := freeList;
      if freeBlk == 0 {
        return 0, 0;
      }
      assert LinkOk(blocks, fs, 0);
      if blocks[freeBlk].actualSize > size {
        RemoveFirst(freeList, blocks, fs);
        assert Without(fs, 0) == fs[1..];
        freeList := blocks[freeBlk].next;
        return freeBlk, 0;
      }
      ghost var i := 0;
      while blocks[freeBlk].next != 0 && blocks[blocks[freeBlk].next].actualSize < size
        invariant 0 <= i < |fs| && freeBlk == fs[i] && LinkOk(blocks, fs, i)
        invariant forall j | 0 <= j <= i :: !Suits(blocks, fs, j, size)
        decreases |fs| - i
      {
        assert LinkOk(blocks, fs, i + 1);
        freeBlk := blocks[freeBlk].next;
        i := i + 1;
      }
      if blocks[freeBlk].next != 0 {
        var tmp := blocks[freeBlk].next;
        assert LinkOk(blocks, fs, i + 1);
        RemoveLater(freeList, blocks, fs, i + 1);
        WithNextSame(blocks, freeBlk, blocks[tmp].next);
        hide FreeChain, SameSizes;
        blocks := WithNext(blocks, freeBlk, blocks[tmp].next);
        return tmp, i + 1;
      }
      LastLink(freeList, blocks, fs, i);
      assert forall j | 0 <= j < |fs| :: !Suits(blocks, fs, j, size);
      return 0, 0;
    }

    /** free on the headers alone. */
    method PushBlock(header: Word)
      requires Ok() && header in shape.live
      modifies this`freeList, this`blocks, this`shape
      ensures Ok() && shape.pages == old(shape.pages)
      ensures shape == Freed(old(shape), header)
      ensures SameSizes(old(blocks), blocks)
    {
      hide HeapOk, HeapEnd, PagesPresent, SameSizes, SameTiles, WithNext, Freed;
      PushFacts(header);
      blocks := WithNext(blocks, header, freeList);
      freeList := header;
      shape := Freed(shape, header);
    }

    lemma PushFacts(header: Word)
      requires Ok() && header in shape.live
      ensures header in blocks
      ensures HeapOk(pageList, header, pages, WithNext(blocks, header, freeList), Freed(shape, header))
      ensures Freed(shape, header).pages == shape.pages
      ensures SameSizes(blocks, WithNext(blocks, header, freeList))
    {
      LiveBlock(blocks, shape.live, shape.frees, header);
      WithNextSame(blocks, header, freeList);
      FreeKeepsHeap(pageList, freeList, pages, blocks, shape, header);
    }

    lemma ValidParts()
      requires Valid()
      ensures vm.Valid() && Ok() && Backed(vm.View(), End())
    {
    }

    method Free(ptr: Word)
      requires Valid() && ptr >= 12 && ptr - 12 in shape.live
      modifies this`freeList, this`blocks, this`shape
      ensures Valid()
      ensures shape == Freed(old(shape), ptr - 12)
      ensures SameSizes(old(blocks), blocks)
    {
      hide Valid, Ok, HeapOk, Backed, PagesPresent, HeapEnd, Freed, SameSizes;
      ValidParts();
      PushBlock(ptr - 12);
      HeapValid(End());
    }

    /** malloc's first attempt: a block of the free list, or 0. */
    method TryReuse(n: Word, a: Word) returns (h: Word)
      requires FreeChain(freeList, blocks, shape.frees) && 1 <= n && Request(n, a)
      requires shape.frees != [] ==> Ok()
      modifies this`freeList, this`blocks, this`shape
      ensures shape.pages == old(shape.pages) && End() == old(End()) && (old(shape.frees) == [] ==> h == 0)
      ensures h == 0 ==>
        && freeList == old(freeList) && blocks == old(blocks) && shape == old(shape)
        && NoneSuits(blocks, shape.frees, a)
      ensures h != 0 ==> !NoneSuits(old(blocks), old(shape.frees), a)
      ensures h != 0 && n <= a ==>
        && Ok() && h + 12 < 0x1_0000_0000
        && NewLive(old(blocks), old(shape), blocks, shape, h, n) && TookFree(old(blocks), old(shape), shape, h, a)
        && Headers(pages, old(blocks), old(shape).frees, pages, blocks, shape.pages, h + 12, n, a)
      ensures h != 0 ==> h in blocks && h + 12 + blocks[h].actualSize <= 0x1_0000_0000 && 0xF000_0010 <= h
    {
      hide Ok, HeapOk, FreeChain, SameSizes, NewLive, Without, NoneSuits, Reused, TookFree, Headers;
      ghost var b, s, head := blocks, shape, freeList;
      if s.frees != [] { OkParts(); }
      ghost var k;
      h, k := FindFreeBlk(a);
      if h != 0 {
        assert s.frees != [];
        SuitsOne(b, s.frees, k, a);
        ReuseFacts(pageList, head, freeList, pages, b, blocks, s, k, h, n, a);
        if n <= a { ReusedHeaders(head, pages, b, blocks, s.frees, s.pages, k, h, n, a); }
        blocks := blocks[h := blocks[h].(size := n)];
        shape := Reused(shape, k, h);
        if n <= a { OkNow(pageList, freeList, pages, blocks, shape); }
      }
    }

    lemma OkParts()
      requires Ok()
      ensures HeapOk(pageList, freeList, pages, blocks, shape) && FreeChain(freeList, blocks, shape.frees)
    {
    }

    lemma OkNow(pl: Word, fl: Word, pg: Pages, bl: Blocks, s: Shape)
      requires pl == pageList && fl == freeList && pg == pages && bl == blocks && s == shape
      requires HeapOk(pl, fl, pg, bl, s)
      ensures Ok()
    {
    }

    /** The page walk of malloc: the first page with room for a block of a bytes, else the last page. */
    method FindRoom(a: Word) returns (tmp: Word, ghost i: nat)
      requires PageLinks(pageList, pages, shape.pages) && pageList != 0 && a <= 0xFFFF_FFF0
      ensures i < |shape.pages| && tmp == shape.pages[i] && tmp in pages && pages[tmp].usedSize <= pages[tmp].size
      ensures forall j | 0 <= j < i :: NoRoom(pages, shape.pages[j], a)
      ensures i + 1 == |shape.pages| || !NoRoom(pages, tmp, a)
    {
      tmp, i := pageList, 0;
      assert NextOk(pages, shape.pages, 0);
      while pages[tmp].next != 0 && pages[tmp].size - pages[tmp].usedSize < a + 12
        invariant 0 <= i < |shape.pages| && tmp == shape.pages[i] && NextOk(pages, shape.pages, i)
        invariant forall j | 0 <= j < i :: NoRoom(pages, shape.pages[j], a)
        decreases |shape.pages| - i
      {
        assert NextOk(pages, shape.pages, i + 1);
        tmp := pages[tmp].next;
        i := i + 1;
      }
      LinksEnd(pageList, pages, shape.pages, i);
    }

    /** malloc's last step: a block header right behind the used part of page tmp. */
    method Carve(tmp: Word, n: Word, a: Word, ghost good: bool) returns (h: Word)
      requires tmp in pages
      requires good ==> Ok() && NoneSuits(blocks, shape.frees, a)
      requires good ==>
        || (1 <= n <= a && n <= 0xFFFF_FFE0 && pages[tmp].usedSize + 12 + a <= pages[tmp].size)
        || (n > 0xFFFF_FFE0 && (a == 0 || a == 0xFFFF_FFF0) && pages[tmp].usedSize + 12 <= pages[tmp].size)
      modifies this`pages, this`blocks, this`shape
      ensures h == Wrap(tmp as int + old(pages)[tmp].usedSize) && (TooFar(old(pages)) ==> TooFar(pages))
      ensures good ==> 0xF000_0010 <= h && h + 12 <= 0x1_0000_0000
      ensures good && n <= 0xFFFF_FFE0 ==>
        && Ok() && h + 12 + a <= 0x1_0000_0000 && shape.pages == old(shape.pages) && End() == old(End())
        && NewLive(old(blocks), old(shape), blocks, shape, h, n) && TookPage(old(blocks), old(shape), shape, h, a)
        && TookRoom(old(pages), old(blocks), pages, blocks, tmp, h, n, a)
      ensures good && n > 0xFFFF_FFE0 ==> !GoodBlock(pages, blocks, h, n)
    {
      hide HeapOk, HeapEnd, PagesPresent, NewLive, TookPage, GoodBlock, NoneSuits, Carved, TooFar, TookRoom;
      ghost var s := shape;
      if TooFar(pages) { UsedTooFar(pages, tmp, Wrap(pages[tmp].usedSize + 12 + a)); }
      if good { CarvePrepare(tmp, n, a); }
      h := Wrap(tmp as int + pages[tmp].usedSize);
      blocks := blocks[h := BlkHeader(0, n, a)];
      pages := pages[tmp := pages[tmp].(usedSize := Wrap(pages[tmp].usedSize + 12 + a))];
      shape := Carved(s, tmp, h);
    }

    lemma CarvePrepare(tmp: Word, n: Word, a: Word)
      requires tmp in pages && Ok() && NoneSuits(blocks, shape.frees, a)
      requires
        || (1 <= n <= a && n <= 0xFFFF_FFE0 && pages[tmp].usedSize + 12 + a <= pages[tmp].size)
        || (n > 0xFFFF_FFE0 && (a == 0 || a == 0xFFFF_FFF0) && pages[tmp].usedSize + 12 <= pages[tmp].size)
      ensures var h: Word, used := Wrap(tmp as int + pages[tmp].usedSize), Wrap(pages[tmp].usedSize + 12 + a);
        var pages', blocks' := pages[tmp := pages[tmp].(usedSize := used)], blocks[h := BlkHeader(0, n, a)];
        var s' := Carved(shape, tmp, h);
        && h == tmp + pages[tmp].usedSize && 0xF000_0010 <= h && h + 12 <= 0x1_0000_0000
        && (n > 0xFFFF_FFE0 ==> !GoodBlock(pages', blocks', h, n))
        && (n <= 0xFFFF_FFE0 ==>
              && h + 12 + a <= 0x1_0000_0000 && HeapOk(pageList, freeList, pages', blocks', s')
              && NewLive(blocks, shape, blocks', s', h, n) && TookPage(blocks, shape, s', h, a)
              && TookRoom(pages, blocks, pages', blocks', tmp, h, n, a)
              && s'.pages == shape.pages && PagesPresent(pages', s'.pages) && HeapEnd(pages', s'.pages) == End())
    {
      hide HeapOk, HeapEnd, PagesPresent, NewLive, TookPage, GoodBlock, NoneSuits, Carved, TookRoom;
      OkParts();
      if n > 0xFFFF_FFE0 {
        WrappedBlock(pageList, freeList, pages, blocks, shape, tmp, n, a);
      } else {
        CarveRoom(pageList, freeList, pages, blocks, shape, tmp, a);
        CarveFacts(pageList, freeList, pages, blocks, shape, tmp, tmp + pages[tmp].usedSize,
                   pages[tmp].usedSize + 12 + a, n, a);
        RoomTaken(pages, blocks, tmp, n, a);
        EndParts();
        EndKept(pages, shape.pages, tmp, pages[tmp].usedSize + 12 + a);
      }
    }

    // ---- malloc ---------------------------------------------------------------------------------------

    /** A heap, or (not good) what is left of an empty one whose first page went past 4 GiB. */
    ghost predicate Ready(good: bool)
      reads this, vm, vm.pmm, vm.pmm.memoryMap, vm.mem
    {
      && vm.Valid() && Walkable() && FreeChain(freeList, blocks, shape.frees)
      && if good then Valid() else TooFar(pages) && shape.frees == []
    }

    lemma ReadyParts(good: bool)
      requires Ready(good)
      ensures vm.Valid() && Walkable() && PageLinks(pageList, pages, shape.pages)
        && FreeChain(freeList, blocks, shape.frees)
      ensures good ==>
        && Valid() && Ok() && Backed(vm.View(), End()) && 0xF000_0000 <= End() <= 0x1_0000_0000 && End() % 4096 == 0
        && P.VInv(vm.View()) && FramesBelow(vm.View().frames) && HeapOk(pageList, freeList, pages, blocks, shape)
        && PagesPresent(pages, shape.pages) && End() == HeapEnd(pages, shape.pages)
      ensures !good ==> TooFar(pages) && shape.frees == []
    {
      if good { GrowFacts(); }
      hide Valid, Ok, HeapOk, Backed, P.VInv;
    }

    /** No page has room: add one behind the last and go to it. */
    method GrowFor(tmp: Word, a: Word, ghost good: bool) returns (ok: bool, q: Word, ghost e: P.Event)
      requires Ready(good) && a <= 0xFFFF_FFF0
      requires shape.pages != [] && tmp == shape.pages[|shape.pages| - 1]
      modifies this`pageList, this`pages, this`shape, vm.mem, vm.pmm`usedBlocks, vm.pmm`live, vm.pmm.memoryMap
      ensures P.Legal(old(vm.View()), e)
      ensures Runs(old(vm.View()), [e], vm.View()) && Attempt(e, old(End()), Align(Wrap(a + 28), 4096))
      ensures Replies(old(vm.View()), [e], vm.pmm.maxBlocks, [Align(Wrap(a + 28), 4096)])
      ensures ok <==> e.NewPages? && Wrap(old(End())) != 0
      ensures GrownFrom(old(shape), shape) && shape.frees == old(shape.frees)
      ensures !ok ==> shape == old(shape) && pages == old(pages)
      ensures UsedBut(old(pages), pages, -1) && (ok ==> shape.pages == old(shape).pages + [q])
      ensures VM.DataKept(old(vm.mem[..]), vm.mem[..], vm.View())
      ensures good && (!ok || Kept(e)) ==> Valid()
      ensures good && Kept(e) ==> Grew(old(shape.pages), old(End()), shape.pages, End(), [e])
      ensures good && !ok && e.NewPages? ==> !Kept(e) && e.page == 0
      ensures good && ok ==> e.page != 0
      ensures good && ok && !Kept(e) ==> TooFar(pages)
      ensures !good ==> TooFar(pages)
      ensures ok ==> q in pages && pages[q].usedSize == 16 && pages[q].size >= 4096
      ensures ok && a <= 0xFFFF_FFE0 ==> 28 + a <= pages[q].size
    {
      hide *;
      ReadyParts(good);
      ghost var v, pl, before, s, end, size := vm.View(), pageList, pages, shape, End(), Align(Wrap(a + 28), 4096);
      GrowSize(a);
      GrownNone(s);
      UsedSame(pages);
      q := tmp;
      ok, e := AddPage(Wrap(a + 28));
      RunsOne(v, e);
      RepliesOne(v, e, vm.pmm.maxBlocks, size, []);
      assert [size] + [] == [size];
      if good {
        GrewOne(s.pages, end, e, size);
        TookNow(v, e);
        if e.NewPages? {
          KeptExact(e, end, size);
          EndOfWindow(end);
          AttemptPage(e, end, size);
        }
      }
      if ok {
        GrownByPage(before, s, Wrap(end), size, pages, shape);
        UsedAppended(before, s, Wrap(end), size, pages, shape);
        PagesAppended(before, s, Wrap(end), size, pages, shape);
        AppendedTooFar(before, s, Wrap(end), size, pages, shape);
        q := pages[tmp].next;
        if good {
          if Kept(e) {
            Added(v, e, pl, before, s, end, size);
          } else {
            AddedTooFar(e, before, s, end, size);
          }
        }
      } else if good {
        NotAdded(v, e, size, pl, before, s, end);
      }
    }

    lemma TookNow(v: P.View, e: P.Event)
      requires vm.Valid() && P.VInv(v) && FramesBelow(v.frames) && P.Legal(v, e) && vm.View() == P.Apply(v, e)
      ensures Took(v, e)
    {
      hide P.VInv, P.Legal, P.Apply;
    }

    /** malloc past the free list: a block from the first page with room, or from a new page. */
    method MallocFromPages(n: Word, a: Word, ghost good: bool)
      returns (p: Word, ghost grown: seq<P.Event>, ghost mid: Shape)
      requires Ready(good) && pageList != 0 && 1 <= n && Request(n, a)
      requires NoneSuits(blocks, shape.frees, a)
      modifies this`pageList, this`pages, this`blocks, this`shape
      modifies vm.mem, vm.pmm`usedBlocks, vm.pmm`live, vm.pmm.memoryMap
      ensures Runs(old(vm.View()), grown, vm.View()) && AskedOnce(grown, old(End()), a)
      ensures Replies(old(vm.View()), grown, vm.pmm.maxBlocks, [Align(Wrap(a + 28), 4096)])
      ensures VM.DataKept(old(vm.mem[..]), vm.mem[..], vm.View())
      ensures grown != [] <==> old(AllFull(pages, shape.pages, a))
      ensures good && n <= 0xFFFF_FFE0 && AllKept(grown)
        ==> Grew(old(shape.pages), old(End()), shape.pages, End(), grown)
      ensures good && n <= 0xFFFF_FFE0 ==> Settled(old(blocks), old(shape), mid, p, n, a, grown)
      ensures good && n <= 0xFFFF_FFE0 && (AllKept(grown) || AtZero(grown)) ==>
        Headers(old(pages), old(blocks), old(shape).frees, pages, blocks, shape.pages, p, n, a)
      ensures good && n > 0xFFFF_FFE0 ==> p == 0 || (p >= 12 && !GoodBlock(pages, blocks, p - 12, n))
      ensures !good ==> TooFar(pages)
    {
      hide *;
      ReadyParts(good);
      RequestFacts(n, a);
      KeptNone();
      ghost var before := pages;
      VM.DataSame(vm.mem[..], vm.View());
      FitsNone(freeList, blocks, shape.frees, a);
      UsedSame(pages);
      ghost var s, b := shape, blocks;
      grown, mid := [], shape;
      GrownNone(shape);
      RunsNone(vm.View());
      RepliesNone(vm.View(), vm.pmm.maxBlocks, [Align(Wrap(a + 28), 4096)]);
      AskedAlone([], End(), a);
      GrewNone(shape.pages, End());
      var tmp, i := FindRoom(a);
      RoomOf(pages, tmp, a);
      AllFullAt(pages, shape.pages, i, a);
      FullInFront(pages, shape.pages, i, a);
      if pages[tmp].size - pages[tmp].usedSize < a + 12 {
        var ok, q, e := GrowFor(tmp, a, good);
        grown, mid := [e], shape;
        KeptOne(e);
        AskedAlone(grown, old(End()), a);
        if good && ok && n > 0xFFFF_FFE0 { WrappedAsks(old(vm.View()), e, old(End()), a); }
        if !ok {
          if good { SettledNot(b, s, e, n, a); }
          RefusedHeaders(before, b, s.frees, pages, shape.pages, n, a);
          return 0, grown, mid;
        }
        FullBehind(before, s.pages, a, q);
        tmp, i := q, |s.pages|;
      }
      ghost var fine := good && AllKept(grown);
      if fine { ValidParts(); }
      ghost var end := End();
      ghost var far := pages;
      var h := Carve(tmp, n, a, fine);
      p := Wrap(h as int + 12);
      if fine {
        PayloadOf(h);
        if n <= 0xFFFF_FFE0 {
          HeapValid(end);
          SettledCarved(b, s, mid, h, n, a, grown);
          CarvedHeaders(before, far, b, s.frees, pages, blocks, shape.pages, i, h, n, a);
        }
      } else if good && n <= 0xFFFF_FFE0 {
        SettledTooFar(b, s, mid, p, n, a, grown);
      }
    }

    /**
     * After malloc: with all granted pages kept, the heap is valid, one block is new - or, with p
     * NULL, nothing but pages - and NULL means that the last request for pages was refused.  Pages
     * granted at address 0 are taken for a refusal; others past 4 GiB leave no heap.
     */
    ghost predicate Settled(b: Blocks, s: Shape, mid: Shape, p: Word, n: Word, a: Word, grown: seq<P.Event>)
      reads this, vm, vm.pmm, vm.pmm.memoryMap, vm.mem
    {
      if AllKept(grown) then
        Valid() && Outcome(b, s, mid, blocks, shape, p, n, a) && (p == 0 <==> Refused(grown))
      else if AtZero(grown) then
        Valid() && Outcome(b, s, mid, blocks, shape, p, n, a) && p == 0 && !Refused(grown)
      else
        TooFar(pages)
    }

    lemma SettledNot(b: Blocks, s: Shape, e: P.Event, n: Word, a: Word)
      requires Valid() && blocks == b && GrownFrom(s, shape) && (e.NewPages? ==> !Kept(e) && e.page == 0)
      ensures Settled(b, s, shape, 0, n, a, [e])
    {
      KeptOne(e);
      hide Valid, GrownFrom, Kept, AllKept, AtZero, Refused;
    }

    lemma SettledCarved(b: Blocks, s: Shape, mid: Shape, h: Word, n: Word, a: Word, grown: seq<P.Event>)
      requires Valid() && AllKept(grown) && !Refused(grown) && GrownFrom(s, mid) && h + 12 < 0x1_0000_0000
      requires NewLive(b, mid, blocks, shape, h, n) && TookPage(b, mid, shape, h, a)
      ensures Settled(b, s, mid, h + 12, n, a, grown)
    {
      hide Valid, GrownFrom, NewLive, TookPage, AllKept;
    }

    lemma SettledTooFar(b: Blocks, s: Shape, mid: Shape, p: Word, n: Word, a: Word, grown: seq<P.Event>)
      requires TooFar(pages) && !AllKept(grown) && !AtZero(grown)
      ensures Settled(b, s, mid, p, n, a, grown)
    {
      hide TooFar, AllKept, AtZero;
    }

    /** malloc once there is a page list: a block of the free list, or one from the pages. */
    method MallocOnPages(n: Word, a: Word, ghost good: bool)
      returns (p: Word, ghost grown: seq<P.Event>, ghost mid: Shape)
      requires Ready(good) && pageList != 0 && 1 <= n && Request(n, a)
      modifies this`pageList, this`freeList, this`pages, this`blocks, this`shape
      modifies vm.mem, vm.pmm`usedBlocks, vm.pmm`live, vm.pmm.memoryMap
      ensures Runs(old(vm.View()), grown, vm.View()) && AskedOnce(grown, old(End()), a)
      ensures Replies(old(vm.View()), grown, vm.pmm.maxBlocks, [Align(Wrap(a + 28), 4096)])
      ensures VM.DataKept(old(vm.mem[..]), vm.mem[..], vm.View())
      ensures grown != [] <==> old(NoneSuits(blocks, shape.frees, a) && AllFull(pages, shape.pages, a))
      ensures good && n <= 0xFFFF_FFE0 && AllKept(grown)
        ==> Grew(old(shape.pages), old(End()), shape.pages, End(), grown)
      ensures good && n <= 0xFFFF_FFE0 ==> Settled(old(blocks), old(shape), mid, p, n, a, grown)
      ensures good && n <= 0xFFFF_FFE0 && (AllKept(grown) || AtZero(grown)) ==>
        Headers(old(pages), old(blocks), old(shape).frees, pages, blocks, shape.pages, p, n, a)
      ensures good && n > 0xFFFF_FFE0 ==> p == 0 || (p >= 12 && !GoodBlock(pages, blocks, p - 12, n))
      ensures !good ==> TooFar(pages)
    {
      hide *;
      ReadyParts(good);
      RequestFacts(n, a);
      ghost var end, b, s := End(), blocks, shape;
      VM.DataSame(vm.mem[..], vm.View());
      grown, mid := [], shape;
      GrownNone(shape);
      RunsNone(vm.View());
      RepliesNone(vm.View(), vm.pmm.maxBlocks, [Align(Wrap(a + 28), 4096)]);
      AskedAlone([], end, a);
      GrewNone(s.pages, end);
      var h := TryReuse(n, a);
      if h != 0 {
        p := Wrap(h as int + 12);
        PayloadOf(h);
        if n > 0xFFFF_FFE0 {
          SmallBlock(pages, blocks, h, n);
        } else {
          HeapValid(end);
          SettledReused(b, s, h, n, a);
        }
        return;
      }
      p, grown, mid := MallocFromPages(n, a, good);
    }

    lemma SettledReused(b: Blocks, s: Shape, h: Word, n: Word, a: Word)
      requires Valid() && h + 12 < 0x1_0000_0000
      requires NewLive(b, s, blocks, shape, h, n) && TookFree(b, s, shape, h, a)
      ensures Settled(b, s, s, h + 12, n, a, [])
    {
      GrownNone(s);
      KeptNone();
      hide Valid, GrownFrom, NewLive, TookFree;
    }

    /**
     * malloc.  Of a request up to MAX_REQUEST the promise is: the heap stays valid; NULL exactly
     * when the last request for pages was refused; otherwise a new live block of n bytes, the
     * first suitable one of the free list or one carved from a page when none suits.  It is kept
     * exactly when all pages granted on the way lie in the window, where the pages asked for are
     * known before the call, and so is when they are asked for.  A larger request wraps around: it
     * yields NULL or a payload that does not hold n bytes of any page.
     */
    method Malloc(n: Word) returns (p: Word, ghost grown: seq<P.Event>, ghost mid: Shape)
      requires Valid()
      modifies this`pageList, this`freeList, this`pages, this`blocks, this`shape
      modifies vm.mem, vm.pmm`usedBlocks, vm.pmm`live, vm.pmm.memoryMap
      ensures Runs(old(vm.View()), grown, vm.View())
      ensures VM.DataKept(old(vm.mem[..]), vm.mem[..], vm.View())
      ensures Asked(grown, old(pageList) == 0, old(End()), Align(n, 16))
      ensures Replies(old(vm.View()), grown, vm.pmm.maxBlocks, Sizes(old(pageList) == 0, Align(n, 16)))
      ensures n > 0 ==> AskedWhen(grown, old(pageList) == 0, Align(n, 16),
                                  old(NoneSuits(blocks, shape.frees, Align(n, 16))
                                      && AllFull(pages, shape.pages, Align(n, 16))))
      ensures n == 0 ==> p == 0 && grown == [] && Valid() && blocks == old(blocks) && shape == old(shape)
      ensures 1 <= n <= 0xFFFF_FFE0 ==> Settled(old(blocks), old(shape), mid, p, n, Align(n, 16), grown)
      ensures 1 <= n <= 0xFFFF_FFE0 && AllKept(grown) ==>
        Grew(old(shape.pages), old(End()), shape.pages, End(), grown)
      ensures 1 <= n <= 0xFFFF_FFE0 && (AllKept(grown) || AtZero(grown)) ==>
        Headers(old(pages), old(blocks), old(shape.frees), pages, blocks, shape.pages, p, n, 16 * ((n + 15) / 16))
      ensures 1 <= n <= 0xFFFF_FFE0 ==>
        (AllKept(grown) <==>
          Valid() && Outcome(old(blocks), old(shape), mid, blocks, shape, p, n, Align(n, 16))
            && (p == 0 <==> Refused(grown)))
      ensures n > 0xFFFF_FFE0 ==> p == 0 || (p >= 12 && !GoodBlock(pages, blocks, p - 12, n))
    {
      hide *;
      GrowFacts();
      RunsNone(vm.View());
      ghost var first, v, end, s, b, pl, before := pageList == 0, vm.View(), End(), shape, blocks, pageList, pages;
      VM.DataSame(vm.mem[..], v);
      ghost var m0 := vm.mem[..];
      var a := Align(n, 16);
      if n == 0 {
        AskedAlone([], end, a);
        RepliesNone(v, vm.pmm.maxBlocks, Sizes(first, a));
        return 0, [], shape;
      }
      RequestNow(n);
      RoundedUp(n);
      SizesAre(a);
      if pageList == 0 {
        var ok, e := AddPage(a);
        AlignPages(a);
        RunsOne(v, e);
        EmptyFacts(pl, before, s, end);
        GrewOne(s.pages, end, e, Align(a, 4096));
        TookNow(v, e);
        if !ok {
          NotAdded(v, e, Align(a, 4096), pl, before, s, end);
          SettledRefused(b, s, e, n, a);
          SettledExact(b, s, shape, 0, n, a, [e]);
          AskedAlone([], end + Align(a, 4096), a);
          AskedMore(e, end, a, []);
          assert [e] + [] == [e];
          RepliesOne(v, e, vm.pmm.maxBlocks, Align(a, 4096), [Align(Wrap(a as int + 28), 4096)]);
          FirstAsks(e, [], a, false);
          UsedSame(pages);
          NoFreesFit(b, a);
          RefusedHeaders(before, b, s.frees, pages, shape.pages, n, a);
          return 0, [e], shape;
        }
        ghost var w, s1, m1 := vm.View(), shape, vm.mem[..];
        GrownByPage(before, s, Wrap(end), Align(a, 4096), pages, shape);
        ghost var good := Kept(e);
        PagesAppended(before, s, Wrap(end), Align(a, 4096), pages, shape);
        FirstPageReady(v, e, pl, before, s, end, Align(a, 4096), good);
        FirstPageFull(before, s, end, Align(a, 4096), pages, shape, blocks, a);
        UsedAppended(before, s, Wrap(end), Align(a, 4096), pages, shape);
        ghost var first1 := pages;
        p, grown, mid := MallocOnPages(n, a, good);
        RunsMore(v, e, w, grown, vm.View());
        RunsStay(w, grown, vm.View());
        VM.DataTwice(m0, m1, vm.mem[..], w, vm.View());
        RepliesMore(v, e, grown, vm.pmm.maxBlocks, Align(a, 4096), [Align(Wrap(a as int + 28), 4096)]);
        AskedAtMostOnce(grown, end + Align(a, 4096), a);
        FirstAsks(e, grown, a, Align(a, 4096) < a as int + 28);
        AskedMore(e, end, a, grown);
        if good {
          KeptNone();
          KeptMore(e, grown);
          if n <= 0xFFFF_FFE0 {
            SettledGrown(b, s, s1, mid, p, n, a, e, grown);
            if AllKept(grown) || AtZero(grown) {
              HeadersGrown(before, first1, b, pages, blocks, shape.pages, p, n, a);
            }
            if AllKept(grown) {
              GrewMore(s.pages, end, s1.pages, end + Align(a, 4096), shape.pages, End(), e, grown);
            }
          }
        } else {
          RequestFacts(n, a);
          if n > 0xFFFF_FFE0 { WrappedAsks(v, e, end, a); }
          AttemptPage(e, end, Align(a, 4096));
          NotKept(e, grown);
          SettledTooFar(b, s, mid, p, n, a, [e] + grown);
        }
        grown := [e] + grown;
      } else {
        ReadyGood();
        p, grown, mid := MallocOnPages(n, a, true);
        AskedLater(grown, end, a);
        LaterAsks(grown, a);
      }
      if n <= 0xFFFF_FFE0 { SettledExact(b, s, mid, p, n, a, grown); }
    }

    lemma SettledAtZero(b: Blocks, s: Shape, mid: Shape, p: Word, n: Word, a: Word, grown: seq<P.Event>)
      requires Settled(b, s, mid, p, n, a, grown) && !AllKept(grown) && AtZero(grown)
      ensures Valid() && p == 0 && !Refused(grown)
    {
      hide Valid, Outcome, AllKept, AtZero, TooFar;
    }

    lemma ReadyGood()
      requires Valid()
      ensures Ready(true)
    {
      GrowFacts();
      hide Ok, HeapOk, Backed, P.VInv;
    }

    /** The promise is kept exactly when the granted pages are. */
    lemma SettledExact(b: Blocks, s: Shape, mid: Shape, p: Word, n: Word, a: Word, grown: seq<P.Event>)
      requires Settled(b, s, mid, p, n, a, grown)
      ensures Valid() && Outcome(b, s, mid, blocks, shape, p, n, a) && (p == 0 <==> Refused(grown)) <==> AllKept(grown)
    {
      if TooFar(pages) { NoHeap(pageList, freeList, pages, blocks, shape); }
      hide AtZero, Outcome, HeapOk, Backed, TooFar, AllKept;
    }

    lemma SettledRefused(b: Blocks, s: Shape, e: P.Event, n: Word, a: Word)
      requires Valid() && blocks == b && shape == s && !e.NewPages?
      ensures Settled(b, s, s, 0, n, a, [e])
    {
      GrownNone(s);
      KeptOne(e);
      hide Valid, GrownFrom;
    }

    lemma SettledGrown(b: Blocks, s: Shape, s1: Shape, mid: Shape, p: Word, n: Word, a: Word, e: P.Event,
                       grown: seq<P.Event>)
      requires GrownFrom(s, s1) && e.NewPages? && Kept(e) && Settled(b, s1, mid, p, n, a, grown)
      ensures Settled(b, s, mid, p, n, a, [e] + grown)
    {
      RefusedMore(e, grown);
      KeptMore(e, grown);
      if Outcome(b, s1, mid, blocks, shape, p, n, a) { OutcomeGrown(b, s, s1, mid, blocks, shape, p, n, a); }
      hide Valid, Outcome, GrownFrom, Kept, TooFar, AtZero;
    }

    lemma EmptyFacts(pl: Word, before: Pages, s: Shape, end: nat)
      requires pl == 0 && HeapOk(pl, freeList, before, blocks, s) && PagesPresent(before, s.pages)
        && end == HeapEnd(before, s.pages)
      ensures s.pages == [] && before == map[] && s.layout == map[] && s.frees == [] && end == 0xF000_0000
        && Wrap(end) == end
    {
      HeapExtent(pl, freeList, before, blocks, s);
      NoPages(pl, freeList, before, blocks, s);
      hide HeapOk;
    }

    /** The first page of an empty heap: kept, or so large that it passes 4 GiB. */
    lemma FirstPageReady(v: P.View, e: P.Event, pl: Word, before: Pages, s: Shape, end: nat, size: Word, good: bool)
      requires Took(v, e) && pl == 0
      requires HeapOk(pl, freeList, before, blocks, s) && FreeChain(freeList, blocks, s.frees)
      requires s.pages == [] && before == map[] && s.layout == map[] && s.frees == [] && end == 0xF000_0000
      requires PagesPresent(before, s.pages) && end == HeapEnd(before, s.pages) && Backed(v, end)
      requires Attempt(e, end, size) && size % 4096 == 0 && e.NewPages? && good == Kept(e)
      requires Appended(before, s, end, size, pages, shape) && PageLinks(pageList, pages, shape.pages)
        && pageList == end
      ensures Ready(good) && End() == end + size
    {
      hide HeapOk, Backed, P.VInv, P.Legal, P.Apply, Attempt, Kept, FreeChain, PageLinks, FramesBelow;
      EndOfWindow(end);
      if good {
        Added(v, e, pl, before, s, end, size);
        ReadyGood();
      } else {
        KeptExact(e, end, size);
        AddedTooFar(e, before, s, end, size);
        FarPage(before, s, end, size, pages, shape);
      }
    }

    lemma EndParts()
      requires Ok()
      ensures PagesPresent(pages, shape.pages) && End() == HeapEnd(pages, shape.pages)
    {
      EndFacts();
    }
  }

  ghost predicate NoRoom(pages: Pages, p: Word, a: Word) {
    p in pages && pages[p].size < pages[p].usedSize + a + 12
  }

  /** No page of the list has room for a block of a bytes. */
  ghost predicate AllFull(pages: Pages, ps: seq<Word>, a: Word) {
    forall p | p in ps :: NoRoom(pages, p, a)
  }

  lemma AllFullAt(pages: Pages, ps: seq<Word>, i: nat, a: Word)
    requires i < |ps| && (forall j | 0 <= j < i :: NoRoom(pages, ps[j], a))
    requires i + 1 == |ps| || !NoRoom(pages, ps[i], a)
    ensures AllFull(pages, ps, a) <==> NoRoom(pages, ps[i], a)
  {
  }

  /** The first page, once there, is too small exactly when the headers do not fit in as well. */
  lemma FirstPageFull(before: Pages, s: Shape, end: nat, size: Word, pages: Pages, shape: Shape, blocks: Blocks,
                      a: Word)
    requires s.pages == [] && s.frees == [] && before == map[]
    requires Appended(before, s, end, size, pages, shape)
    ensures NoneSuits(blocks, shape.frees, a)
    ensures AllFull(pages, shape.pages, a) <==> size < a + 28
  {
    var p: Word := end;
    assert shape.pages == [p] && p in shape.pages;
    assert pages[p] == PageHeader(0, size, 16);
  }

  /** All pages that were granted lie in the heap's window. */
  ghost predicate AllKept(grown: seq<P.Event>) {
    forall e | e in grown :: Kept(e)
  }

  lemma PagesAppended(before: Pages, s: Shape, e: nat, size: Word, pages: Pages, shape: Shape)
    requires Appended(before, s, e, size, pages, shape)
    ensures shape.pages == s.pages + [e]
  {
  }

  lemma RoomOf(pages: Pages, p: Word, a: Word)
    requires p in pages
    ensures NoRoom(pages, p, a) <==> pages[p].size < pages[p].usedSize + a + 12
  {
  }

  /** The last pages granted, and only those, start at address 0. */
  ghost predicate AtZero(grown: seq<P.Event>) {
    grown != [] && var e := grown[|grown| - 1]; e.NewPages? && e.page == 0 && AllKept(grown[..|grown| - 1])
  }

  /** What malloc rounds a request to: enough room, or a wrapped size. */
  ghost predicate Request(n: Word, a: Word) {
    if n <= 0xFFFF_FFE0 then n <= a <= 0xFFFF_FFE0 else a == 0 || a == 0xFFFF_FFF0
  }

  lemma RequestNow(n: Word)
    ensures Request(n, Align(n, 16))
  {
    AlignExact(n);
    hide Align;
  }

  lemma RoundedUp(n: Word)
    ensures n <= 0xFFFF_FFE0 ==> Align(n, 16) == 16 * ((n + 15) / 16)
  {
  }

  lemma NoFreesFit(blocks: Blocks, size: Word)
    ensures NoneFits(blocks, [], 0, size)
  {
  }

  lemma FullInFront(pages: Pages, ps: seq<Word>, i: nat, a: Word)
    requires i <= |ps| && forall j | 0 <= j < i :: NoRoom(pages, ps[j], a)
    ensures FullTo(pages, ps, i, a)
  {
  }

  lemma FullBehind(pages: Pages, ps: seq<Word>, a: Word, q: Word)
    requires AllFull(pages, ps, a)
    ensures FullTo(pages, ps + [q], |ps|, a)
  {
    forall j | 0 <= j < |ps| ensures NoRoom(pages, ps[j], a) {
      assert ps[j] in ps;
    }
  }

  lemma RoomTaken(pages: Pages, blocks: Blocks, p: Word, n: Word, a: Word)
    requires p in pages && p + pages[p].usedSize < 0x1_0000_0000 && pages[p].usedSize + 12 + a < 0x1_0000_0000
    ensures var h: Word, used: Word := p + pages[p].usedSize, pages[p].usedSize + 12 + a;
      TookRoom(pages, blocks, pages[p := pages[p].(usedSize := used)], blocks[h := BlkHeader(0, n, a)], p, h, n, a)
  {
  }

  /** No step takes a table away. */
  lemma StepStays(v: P.View, e: P.Event)
    requires P.Legal(v, e)
    ensures VM.TablesStay(v, P.Apply(v, e))
  {
    hide P.InstallAll, P.CanInstallAll;
    match e
    case NewPages(_, count, base, news) => P.InstallKeeps(P.WithRun(v, base, count), news);
    case NewPagesFailed(_, count, base, news, _) => P.InstallKeeps(P.WithRun(v, base, count), news);
    case MapPage(_, _, news) => P.InstallKeeps(v, news);
    case UnmapPage(_) =>
    case Scan(news) => P.InstallKeeps(v, news);
    case Reserve(_, _) =>
    case Release(_) =>
  }

  lemma {:induction false} RunsStay(v: P.View, events: seq<P.Event>, w: P.View)
    requires Runs(v, events, w)
    ensures VM.TablesStay(v, w)
    decreases |events|
  {
    if events == [] {
    } else {
      StepStays(v, events[0]);
      hide P.Legal, P.Apply;
      RunsStay(P.Apply(v, events[0]), events[1..], w);
    }
  }

  lemma RequestFacts(n: Word, a: Word)
    requires Request(n, a)
    ensures a <= 0xFFFF_FFF0 && (n <= 0xFFFF_FFE0 ==> n <= a <= 0xFFFF_FFE0)
    ensures n > 0xFFFF_FFE0 ==> a == 0 || a == 0xFFFF_FFF0
  {
  }

  lemma PayloadOf(h: Word)
    requires h + 12 <= 0x1_0000_0000
    ensures Wrap(h + 12) == if h + 12 == 0x1_0000_0000 then 0 else h + 12
  {
  }

  lemma GrowSize(a: Word)
    requires a <= 0xFFFF_FFF0
    ensures Align(Wrap(a + 28), 4096) > 0 ==> Align(Wrap(a + 28), 4096) >= 4096
    ensures Align(Wrap(a + 28), 4096) % 4096 == 0
    ensures a <= 0xFFFF_FFE0 && Align(Wrap(a + 28), 4096) > 0 ==> a + 28 <= Align(Wrap(a + 28), 4096)
  {
    AlignPages(Wrap(a + 28));
  }

  /** The last page allocation of a malloc failed. */
  ghost predicate Refused(grown: seq<P.Event>) {
    grown != [] && !grown[|grown| - 1].NewPages?
  }

  lemma AttemptPage(e: P.Event, end: nat, size: Word)
    requires Attempt(e, end, size) && e.NewPages? && 0xF000_0000 <= end <= 0x1_0000_0000 && end % 4096 == 0
    ensures e.page == 0 <==> end == 0x1_0000_0000
  {
  }

  /** Behind a first page that passes 4 GiB there is a place too. */
  lemma FarPage(before: Pages, s: Shape, end: nat, size: Word, pages: Pages, shape: Shape)
    requires s.pages == [] && before == map[] && s.layout == map[] && end == 0xF000_0000 && end + size > 0x1_0000_0000
    requires Appended(before, s, end, size, pages, shape)
    ensures Placeable(pages, shape) && HeapEnd(pages, shape.pages) == end + size && shape.frees == s.frees
  {
    EndOfAppended(before, s, end, size);
    assert Wrap(end + size) == end + size - 0x1_0000_0000;
  }

  lemma EndOfWindow(end: nat)
    requires 0xF000_0000 <= end <= 0x1_0000_0000
    ensures Wrap(end) == 0 <==> end == 0x1_0000_0000
    ensures end < 0x1_0000_0000 ==> Wrap(end) == end
  {
  }

  lemma KeptOne(e: P.Event)
    ensures AllKept([e]) <==> Kept(e)
    ensures Refused([e]) <==> !e.NewPages?
    ensures !e.NewPages? ==> Kept(e)
    ensures AtZero([e]) <==> e.NewPages? && e.page == 0
  {
    assert e in [e] && [e][..0] == [];
  }

  lemma KeptNone()
    ensures AllKept([]) && !Refused([])
  {
  }

  lemma KeptMore(e: P.Event, grown: seq<P.Event>)
    requires Kept(e)
    ensures AllKept([e] + grown) <==> AllKept(grown)
    ensures grown != [] ==> (AtZero([e] + grown) <==> AtZero(grown))
  {
    assert forall d | d in grown :: d in [e] + grown;
    if grown != [] {
      var init := grown[..|grown| - 1];
      assert ([e] + grown)[..|grown|] == [e] + init;
      assert forall d | d in init :: d in [e] + init;
    }
  }

  lemma NotKept(e: P.Event, grown: seq<P.Event>)
    requires !Kept(e) && e.page != 0
    ensures !AllKept([e] + grown) && !AtZero([e] + grown)
  {
    assert e in [e] + grown;
    if grown != [] { assert ([e] + grown)[..|grown|][0] == e; }
  }

  // ---- which pages malloc asks for -----------------------------------------------------------------------

  /** At most once, for the block with both headers, at this end of the heap. */
  ghost predicate AskedOnce(grown: seq<P.Event>, end: nat, a: Word) {
    |grown| <= 1 && (grown != [] ==> Attempt(grown[0], end, Align(Wrap(a + 28), 4096)))
  }

  /** An empty heap is first given a page of the rounded request alone. */
  ghost predicate Asked(grown: seq<P.Event>, first: bool, end: nat, a: Word) {
    if first then
      grown != [] ==>
        && Attempt(grown[0], end, Align(a, 4096)) && (|grown| > 1 ==> grown[0].NewPages?)
        && AskedOnce(grown[1..], end + Align(a, 4096), a)
    else
      AskedOnce(grown, end, a)
  }

  /** The sizes asked for: on an empty heap the rounded request, then a block with both headers. */
  function Sizes(first: bool, a: Word): seq<Word> {
    if first then [Align(a, 4096), Align(Wrap(a + 28), 4096)] else [Align(Wrap(a + 28), 4096)]
  }

  lemma SizesAre(a: Word)
    ensures Sizes(true, a) == [Align(a, 4096)] + [Align(Wrap(a + 28), 4096)]
    ensures Sizes(false, a) == [Align(Wrap(a + 28), 4096)]
  {
    hide Align;
  }

  /**
   * When pages are asked for: always for an empty heap, and again exactly when they are granted
   * without room for the block; for another heap exactly when it has no block and no room left.
   */
  ghost predicate AskedWhen(grown: seq<P.Event>, first: bool, a: Word, spent: bool) {
    if first then
      grown != [] && (|grown| == 2 <==> grown[0].NewPages? && Align(a, 4096) < a + 28)
    else
      grown != [] <==> spent
  }

  lemma FirstAsks(e: P.Event, grown: seq<P.Event>, a: Word, spent: bool)
    requires |grown| <= 1 && (grown != [] <==> spent) && (spent <==> e.NewPages? && Align(a, 4096) < a + 28)
    ensures forall s :: AskedWhen([e] + grown, true, a, s)
  {
    hide Align;
  }

  lemma LaterAsks(grown: seq<P.Event>, a: Word)
    ensures AskedWhen(grown, false, a, grown != [])
  {
  }

  lemma AskedAtMostOnce(grown: seq<P.Event>, end: nat, a: Word)
    requires AskedOnce(grown, end, a)
    ensures |grown| <= 1
  {
    hide Attempt, Align;
  }

  lemma RefusedMore(e: P.Event, grown: seq<P.Event>)
    requires e.NewPages?
    ensures Refused([e] + grown) <==> Refused(grown)
  {
  }

  lemma AskedAlone(grown: seq<P.Event>, end: nat, a: Word)
    requires |grown| <= 1 && (grown != [] ==> Attempt(grown[0], end, Align(Wrap(a + 28), 4096)))
    ensures AskedOnce(grown, end, a) && Asked(grown, false, end, a)
    ensures grown == [] ==> Asked(grown, true, end, a)
  {
  }

  lemma AskedLater(grown: seq<P.Event>, end: nat, a: Word)
    requires AskedOnce(grown, end, a)
    ensures Asked(grown, false, end, a)
  {
  }

  lemma AskedMore(e: P.Event, end: nat, a: Word, grown: seq<P.Event>)
    requires Attempt(e, end, Align(a, 4096)) && (e.NewPages? || grown == [])
      && AskedOnce(grown, end + Align(a, 4096), a)
    ensures Asked([e] + grown, true, end, a)
  {
    assert ([e] + grown)[1..] == grown;
  }

  /** A wrapped request asks for no page first, and for one page later. */
  lemma WrappedAsks(v: P.View, e: P.Event, end: nat, a: Word)
    requires a == 0 || a == 0xFFFF_FFF0
    requires P.Legal(v, e) && e.NewPages?
    ensures !Attempt(e, end, Align(a, 4096))
    ensures Attempt(e, end, Align(Wrap(a + 28), 4096)) && 0xF000_0000 <= end <= 0x1_0000_0000 && end % 4096 == 0
      && Wrap(end) != 0
      ==> Kept(e)
  {
  }

  /** Pages of this size fit into the window behind a heap that ends here. */
  predicate InWindow(end: nat, size: Word) {
    end < 0x1_0000_0000 && end + size <= 0x1_0000_0000
  }

  /**
   * For a block of a bytes the new page lies in the window exactly when the block does, with both
   * headers in front of it; the first page of a heap exactly when a is at most 256 MiB.
   */
  lemma BlockInWindow(end: nat, a: Word)
    requires end % 4096 == 0 && 0xF000_0000 <= end < 0x1_0000_0000 && a + 28 <= 0xFFFF_F000
    ensures InWindow(end, Align(Wrap(a + 28), 4096)) <==> end + 28 + a <= 0x1_0000_0000
    ensures InWindow(0xF000_0000, Align(a, 4096)) <==> a <= 0x1000_0000
  {
    assert Wrap(a + 28) == a + 28;
    hide Align, Wrap;
    AlignFits(a + 28, 0x1_0000_0000 - end);
    AlignFits(a, 0x1000_0000);
  }

  lemma AlignFits(n: Word, room: nat)
    requires n <= 0xFFFF_F000 && room % 4096 == 0
    ensures Align(n, 4096) <= room <==> n <= room
  {
    AlignPages(n);
    var q, r := Align(n, 4096) / 4096, room / 4096;
    assert Align(n, 4096) == 4096 * q && room == 4096 * r;
    hide Align;
  }

  /** Whether the granted pages are kept is known from the end of the heap and the request. */
  lemma AllKeptExact(grown: seq<P.Event>, first: bool, end: nat, a: Word)
    requires Asked(grown, first, end, a) && 0xF000_0000 <= end <= 0x1_0000_0000 && end % 4096 == 0
    ensures AllKept(grown) <==>
      if grown == [] then true else if !first then grown[0].NewPages? ==> InWindow(end, Align(Wrap(a + 28), 4096))
      else
        && (grown[0].NewPages? ==> InWindow(end, Align(a, 4096)))
        && (|grown| > 1 && grown[1].NewPages? && InWindow(end, Align(a, 4096)) ==>
              InWindow(end + Align(a, 4096), Align(Wrap(a + 28), 4096)))
  {
    AlignPages(a);
    AlignPages(Wrap(a + 28));
    var here, next := Align(a, 4096), Align(Wrap(a + 28), 4096);
    AskedParts(grown, first, end, a);
    hide *;
    if first {
      TwoKept(grown, end, here, next);
    } else {
      OneKept(grown, end, next);
    }
  }

  lemma OneKept(grown: seq<P.Event>, end: nat, size: Word)
    requires |grown| <= 1 && (grown != [] ==> Attempt(grown[0], end, size))
    requires 0xF000_0000 <= end <= 0x1_0000_0000 && end % 4096 == 0 && size % 4096 == 0
    ensures AllKept(grown) <==> grown == [] || (grown[0].NewPages? ==> InWindow(end, size))
  {
    hide *;
    if grown == [] {
      KeptNone();
    } else {
      AllKeptParts(grown);
      KeptWithin(grown[0], end, size);
    }
  }

  lemma TwoKept(grown: seq<P.Event>, end: nat, here: Word, next: Word)
    requires |grown| <= 2 && (grown != [] ==> Attempt(grown[0], end, here))
    requires |grown| > 1 ==> grown[0].NewPages? && Attempt(grown[1], end + here, next)
    requires 0xF000_0000 <= end <= 0x1_0000_0000 && end % 4096 == 0 && here % 4096 == 0 && next % 4096 == 0
    ensures AllKept(grown) <==>
      || grown == []
      || ((grown[0].NewPages? ==> InWindow(end, here)) &&
          (|grown| > 1 && grown[1].NewPages? && InWindow(end, here) ==> InWindow(end + here, next)))
  {
    hide *;
    if |grown| <= 1 {
      OneKept(grown, end, here);
    } else {
      AllKeptParts(grown);
      KeptWithin(grown[0], end, here);
      KeptWithin(grown[1], end + here, next);
      WindowSteps(end, here);
    }
  }

  lemma WindowSteps(end: nat, here: Word)
    ensures InWindow(end, here) ==> end + here <= 0x1_0000_0000
  {
  }

  lemma AskedParts(grown: seq<P.Event>, first: bool, end: nat, a: Word)
    requires Asked(grown, first, end, a)
    ensures |grown| <= if first then 2 else 1
    ensures grown != [] ==> Attempt(grown[0], end, if first then Align(a, 4096) else Align(Wrap(a + 28), 4096))
    ensures |grown| > 1 ==> grown[0].NewPages? && Attempt(grown[1], end + Align(a, 4096), Align(Wrap(a + 28), 4096))
  {
    if |grown| > 1 { assert grown[1..][0] == grown[1]; }
    hide Attempt, Align;
  }

  lemma AllKeptParts(grown: seq<P.Event>)
    requires 1 <= |grown| <= 2
    ensures AllKept(grown) <==> Kept(grown[0]) && (|grown| > 1 ==> Kept(grown[1]))
  {
    hide Kept;
    assert grown[0] in grown && (|grown| > 1 ==> grown[1] in grown);
  }

  lemma KeptWithin(e: P.Event, end: nat, size: Word)
    requires Attempt(e, end, size) && 0xF000_0000 <= end && end % 4096 == 0 && size % 4096 == 0
    ensures end <= 0x1_0000_0000 ==> (Kept(e) <==> (e.NewPages? ==> InWindow(end, size)))
  {
    if e.NewPages? && end <= 0x1_0000_0000 { KeptExact(e, end, size); }
    hide Attempt;
  }

  /** What allocate_new_page did for add_page. */
  lemma AttemptNow(v: P.View, e: P.Event, end: nat, address: Word, size: Word, r: Word)
    requires P.Legal(v, e) && address == Wrap(end) && size % 4096 == 0
    requires
      || (e == P.Scan([]) && r == 0)
      || (e.NewPages? && r == address && e.page == address / 4096 && e.count == size / 4096)
      || (e.NewPagesFailed? && r == 0 && e.page == address / 4096 && e.count == size / 4096)
    ensures Attempt(e, end, size)
    ensures r != 0 <==> e.NewPages? && address != 0
    ensures r != 0 ==> r == address && size >= 4096
  {
  }
}
