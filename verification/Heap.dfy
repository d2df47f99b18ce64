/**
 * libc/arch/i686/malloc.c over the memory manager. The ghost field `blocks` is the
 * block list that memory holds.
 */
module Heap {
  import opened Blocks
  import opened HeapCode
  import opened HeapMemory
  import opened Machine
  import Paging
  import Mem

  const HEAP_START: u32 := 0xd000_0000
  const HEAP_END: u32 := 0xefff_ffff
  /** The first page of the heap, and the page that its last page has to stay below. */
  const FIRST_PAGE := 0xd0000
  const PAGE_MAX := 0xeffff
  const DEFAULT_PAGE_FLAGS := 3

  // ---------------------------------------------------------------- what the heap needs from paging

  /**
   * Pages [FIRST_PAGE, e) are the heap, and can be written to. They and the tables of the heap region
   * have frames of their own, all of them marked; the rest of the region is not mapped.
   */
  ghost predicate Backed(s: Paging.State, e: nat)
    requires s.Valid()
  {
    && FIRST_PAGE <= e <= PAGE_MAX
    && (forall q :: FIRST_PAGE <= q < e ==> s.Mapped(q) && s.FrameOf(q) in s.used)
    && (forall q :: FIRST_PAGE <= q < e ==> s.Writable(q))
    && (forall q :: FIRST_PAGE <= q < PAGE_MAX && s.HasTable(q) ==> s.WritableTable(q))
    && (forall q :: e <= q < PAGE_MAX ==> !s.Mapped(q))
    && (forall q :: FIRST_PAGE <= q < PAGE_MAX && s.HasTable(q) ==> s.TableFrame(q) in s.used)
    && (forall q, r :: FIRST_PAGE <= q < r < e ==> s.FrameOf(q) != s.FrameOf(r))
    && (forall q, r :: FIRST_PAGE <= q < PAGE_MAX && FIRST_PAGE <= r < PAGE_MAX && q / 1024 != r / 1024
          && s.HasTable(q) && s.HasTable(r)
          ==> s.TableFrame(q) != s.TableFrame(r))
    && (forall q, r :: FIRST_PAGE <= q < e && FIRST_PAGE <= r < PAGE_MAX && s.HasTable(r)
          ==> s.FrameOf(q) != s.TableFrame(r))
  }

  /** Growth from a 4 MiB boundary in contiguous steps starts every new table at its first page. */
  lemma GrowthStartsClean(s: Paging.State, e: nat)
    requires s.Valid() && Backed(s, e)
    ensures Paging.StartsClean(s, e)
  {
    if e > FIRST_PAGE && e % 1024 != 0 {
      assert s.Mapped(e - 1) && (e - 1) / 1024 == e / 1024;
    }
  }

  lemma GrowthStaysBacked(s: Paging.State, t: Paging.State, e: nat, n: nat)
    requires s.Valid() && t.Valid() && Backed(s, e) && e + n <= PAGE_MAX
    requires Paging.Allocated(s, t, e, n) && Paging.FlagsGiven(s, t, e, n, DEFAULT_PAGE_FLAGS)
    ensures Backed(t, e + n)
  {
    GrowthStaysWritable(s, t, e, n);
  }

  lemma GrowthStaysWritable(s: Paging.State, t: Paging.State, e: nat, n: nat)
    requires s.Valid() && t.Valid() && Backed(s, e) && e + n <= PAGE_MAX
    requires Paging.Allocated(s, t, e, n) && Paging.FlagsGiven(s, t, e, n, DEFAULT_PAGE_FLAGS)
    ensures forall q :: FIRST_PAGE <= q < e + n ==> t.Writable(q)
    ensures forall q :: FIRST_PAGE <= q < PAGE_MAX && t.HasTable(q) ==> t.WritableTable(q)
  {
    forall q | FIRST_PAGE <= q < PAGE_MAX && t.HasTable(q) ensures t.WritableTable(q) {
      assert s.HasTable(q) || Paging.InNewTable(s, t, q);
    }
    forall q | FIRST_PAGE <= q < e + n ensures t.Writable(q) {
      assert q < e ==> s.Writable(q) && t.tables[q] == s.tables[q];
      assert t.Mapped(q);
    }
  }

  /** Room below the end of the heap region, and a frame for each page and each new table. */
  ghost predicate CanGrow(s: Paging.State, e: nat, n: nat)
    requires s.Valid()
  {
    e + n <= PAGE_MAX && Paging.FramesNeeded(s, e, n) <= |s.Free()|
  }

  /** A frame for each page and each new table, if there is room at all. */
  ghost predicate HasFrames(s: Paging.State, e: nat, n: nat)
    requires s.Valid()
  {
    e + n <= PAGE_MAX ==> CanGrow(s, e, n)
  }

  /** The call of `mem_alloc` that asks for `n` pages behind page `e`. */
  function GrowCall(s: Paging.State, e: nat, n: u32): Option<(Paging.State, u32)>
    requires s.Valid() && e <= PAGE_MAX
  {
    Paging.Alloc(s, 4096 * e, HEAP_END, n, DEFAULT_PAGE_FLAGS)
  }

  lemma RegionBehindIsFree(s: Paging.State, e: nat, n: nat)
    requires s.Valid() && Backed(s, e) && e + n <= PAGE_MAX
    ensures Paging.IsFree(s, e, n) && Paging.ScansFree(s, e, n)
  {
    Paging.ScanIsRight(s, e, n);
  }

  /** With room, the call comes down to its loop. */
  lemma GrowCallIs(s: Paging.State, e: nat, n: nat)
    requires s.Valid() && Backed(s, e) && e + n <= PAGE_MAX
    ensures Paging.IsFree(s, e, n) && Paging.StartsClean(s, e)
    ensures GrowCall(s, e, n) == match Paging.AllocPages(s, e, n, DEFAULT_PAGE_FLAGS)
                                 case None => None
                                 case Some(t) => Some((t, 4096 * e))
  {
    GrowthStartsClean(s, e);
    RegionBehindIsFree(s, e, n);
    hide Backed, Paging.IsFree, Paging.AllocPages, Paging.StartsClean;
    assert (4096 * e) / 4096 == e && HEAP_END / 4096 == PAGE_MAX;
  }

  /** With room and frames, it gives the heap the pages right behind its end, and fresh frames only. */
  lemma GrowthSucceeds(s: Paging.State, e: nat, n: nat)
    requires s.Valid() && Backed(s, e) && CanGrow(s, e, n)
    ensures var r := GrowCall(s, e, n);
            && r.Some? && r.value.1 == 4096 * e
            && Paging.Allocated(s, r.value.0, e, n) && Backed(r.value.0, e + n)
  {
    GrowCallIs(s, e, n);
    hide *;
    Paging.AllocPagesAllocates(s, e, n, DEFAULT_PAGE_FLAGS);
    Paging.AllocPagesGivesFlags(s, e, n, DEFAULT_PAGE_FLAGS);
    GrowthStaysBacked(s, Paging.AllocPages(s, e, n, DEFAULT_PAGE_FLAGS).value, e, n);
  }

  /** Without room the result is null, which `malloc` does not look at. */
  lemma GrowthBeyondTheRegionIsRefused(s: Paging.State, e: nat, n: u32)
    requires s.Valid() && Backed(s, e) && e + n > PAGE_MAX
    ensures GrowCall(s, e, n) == Some((s, 0))
  {
    assert (4096 * e) / 4096 == e && HEAP_END / 4096 == PAGE_MAX;
  }

  /** The call gives the heap the address asked for, with all pages mapped. */
  ghost predicate Grows(s: Paging.State, e: nat, n: u32)
    requires s.Valid() && e <= PAGE_MAX
  {
    var r := GrowCall(s, e, n);
    && r.Some? && r.value.1 == 4096 * e && e + n <= PAGE_MAX
    && forall q :: e <= q < e + n ==> r.value.0.Mapped(q)
  }

  /** `mem_alloc` does what `malloc` needs of it exactly when there are room and frames. */
  lemma GrowthSucceedsExactlyWhen(s: Paging.State, e: nat, n: u32)
    requires s.Valid() && Backed(s, e) && n > 0
    ensures Grows(s, e, n) <==> CanGrow(s, e, n)
    ensures CanGrow(s, e, n) <==> e + n <= 0xeffff && n + Paging.NewTables(s, e, n) <= |s.Free()|
  {
    if e + n <= PAGE_MAX {
      GrowCallIs(s, e, n);
      hide Backed, GrowCall, Paging.AllocPages, Paging.IsFree;
      Paging.AllocMapsAllPagesExactlyWhen(s, e, n, DEFAULT_PAGE_FLAGS);
    }
  }

  /** No two heap addresses share a byte of physical memory. */
  lemma HeapBytesAreDistinct(s: Paging.State, e: nat, v: u32, w: u32)
    requires s.Valid() && Backed(s, e)
    requires 4096 * FIRST_PAGE <= v < w < 4096 * e
    ensures s.Translate(v).Some? && s.Translate(w).Some? && s.Translate(v) != s.Translate(w)
  {
  }

  // ---------------------------------------------------------------- the heap

  lemma FirstFitOfNothing(size: nat)
    ensures FirstFit([], size, 0) == 0
  {
  }

  class Heap {
    var memory: HeapMemory.Memory
    var firstHdr: nat
    const mm: Mem.Memory
    const contents: nat -> Granule
    ghost var blocks: seq<Block>

    /** Memory holds the block list. */
    ghost predicate HoldsBlocks()
      reads this
    {
      HoldsHeap(Now(), blocks)
    }

    ghost function Now(): Image
      reads this
    {
      Image(memory, firstHdr)
    }

    /** The heap is backed by frames up to page `e`. */
    ghost predicate BackedTo(e: nat)
      reads mm, mm.physPageBitmap, mm.pageDirectory, mm.pageTables
    {
      mm.Valid() && Backed(mm.now, e)
    }

    ghost predicate Valid()
      reads this, mm, mm.physPageBitmap, mm.pageDirectory, mm.pageTables
    {
      HoldsBlocks() && BackedTo(End(blocks) / 4096)
    }

    /** The static initial state: no header, and no page of the heap region has a page table. */
    constructor (mm: Mem.Memory, contents: nat -> Granule)
      requires mm.Valid() && forall q :: FIRST_PAGE <= q < PAGE_MAX ==> !mm.now.HasTable(q)
      ensures Valid() && blocks == [] && this.mm == mm
    {
      memory, firstHdr, blocks := map[], 0, [];
      this.mm, this.contents := mm, contents;
    }

    /** Index of the block that the header at `hdr` belongs to. */
    ghost predicate IsHeader(hdr: nat, i: nat)
      reads this
    {
      i < |blocks| && hdr == Addr(blocks, i)
    }

    /** The walk over the headers: it stops at the first block that fits or at the last block. */
    method FindHeader(size: nat) returns (hdr: nat, ghost i: nat)
      requires HoldsBlocks()
      ensures blocks == [] ==> hdr == 0
      ensures blocks != [] ==> IsHeader(hdr, i) && hdr in memory && HeaderOk(memory, blocks, i)
      ensures blocks != [] ==> if Fits(blocks[i], size) then i == FirstFit(blocks, size, 0)
                               else i == |blocks| - 1 && FirstFit(blocks, size, 0) == |blocks|
      ensures blocks != [] ==> Walk(memory, firstHdr, size) == Some(hdr)
      ensures blocks != [] ==> hdr != 0 && (memory[hdr].used || memory[hdr].size < size <==> !Fits(blocks[i], size))
      ensures blocks == [] || !Fits(blocks[i], size) ==> hdr == LastHeader(blocks)
    {
      if blocks != [] {
        WalkStops(memory, blocks, size, 0);
      }
      hdr, i := firstHdr, 0;
      assert blocks != [] ==> HeaderOk(memory, blocks, 0);
      while hdr != 0 && (memory[hdr].used || memory[hdr].size < size) && !memory[hdr].end
        invariant blocks == [] ==> hdr == 0
        invariant blocks != [] ==> IsHeader(hdr, i) && HeaderOk(memory, blocks, i)
        invariant blocks != [] ==> FirstFit(blocks, size, 0) == FirstFit(blocks, size, i)
        decreases End(blocks) - hdr
      {
        AddrMonotone(blocks, i, |blocks|);
        hdr, i := hdr + HEADER + memory[hdr].size, i + 1;
        assert HeaderOk(memory, blocks, i);
      }
    }

    /** `malloc` writes the header of new pages behind block `last`. */
    method WriteNewHeader(newHdr: nat, bytes: nat, last: nat, added: HeapMemory.Memory)
      requires bytes >= HEADER && newHdr in added && (last != 0 ==> last in memory)
      modifies this`memory, this`firstHdr
      ensures memory == GrowMemory(old(memory), newHdr, bytes, last, added)
      ensures firstHdr == if last == 0 then newHdr else old(firstHdr)
    {
      memory := memory + added;
      memory := memory[newHdr := memory[newHdr].(used := false, end := true, rest := 0)];
      memory := memory[newHdr := memory[newHdr].(size := bytes - HEADER)];
      memory := memory[newHdr := memory[newHdr].(prev := last)];
      if last != 0 {
        memory := memory[last := memory[last].(end := false)];
      } else {
        firstHdr := newHdr;
      }
    }

    lemma EndIsInTheRegion()
      requires Valid()
      ensures End(blocks) / 4096 <= PAGE_MAX
    {
    }

    /** The part of `malloc` that maps `n` pages behind the last header. */
    method AllocPages(last: nat, n: u32) returns (newHdr: nat)
      requires Valid() && 0 < n && last == LastHeader(blocks)
      requires HasFrames(mm.now, End(blocks) / 4096, n)
      modifies mm`now, mm.physPageBitmap, mm.pageDirectory, mm.pageTables
      ensures if End(blocks) / 4096 + n <= PAGE_MAX
              then BackedTo(End(blocks) / 4096 + n) && newHdr == End(blocks)
              else Valid() && mm.now == old(mm.now) && newHdr == 0
      ensures End(blocks) / 4096 <= PAGE_MAX && GrowCall(old(mm.now), End(blocks) / 4096, n) == Some((mm.now, newHdr))
    {
      EndIsInTheRegion();
      EndIsBehindLast(memory, blocks);
      assert HEAP_START == BASE;
      hide Backed, HoldsBlocks, BackedTo, Holds, LastHeader, End, CanGrow, GrowCall, Paging.Allocated, Paging.Alloc;
      if End(blocks) / 4096 + n <= PAGE_MAX {
        GrowthSucceeds(mm.now, End(blocks) / 4096, n);
      } else {
        GrowthBeyondTheRegionIsRefused(mm.now, End(blocks) / 4096, n);
      }
      var virt := if last != 0 then last + HEADER + memory[last].size else HEAP_START;
      assert virt == End(blocks) == 4096 * (End(blocks) / 4096);
      newHdr := mm.MemAlloc(virt, HEAP_END, n, DEFAULT_PAGE_FLAGS);
    }

    /** The pages are there, with whatever their frames held, and get their header. */
    method WritePages(last: nat, newHdr: nat, n: nat)
      requires (last != 0 ==> last in memory) && newHdr % 16 == 0 && n > 0
      modifies this`memory, this`firstHdr
      ensures (Now(), newHdr) == NewPages(old(Now()), last, newHdr, n, contents)
    {
      hide GrowMemory;
      PagesAreAligned(n);
      var added := LeftOvers(newHdr, newHdr + PAGE_SIZE * n, contents);
      WriteNewHeader(newHdr, PAGE_SIZE * n, last, added);
    }

    /** The part of `malloc` that turns `n` new pages into a block. */
    method AddBlock(last: nat, newHdr: nat, n: nat)
      requires HoldsBlocks() && 0 < n && last == LastHeader(blocks) && newHdr == End(blocks)
      modifies this`memory, this`firstHdr, this`blocks
      ensures HoldsBlocks() && blocks == Grow(old(blocks), n)
      ensures PayloadsKept(old(memory), memory, old(blocks))
      ensures (last != 0 ==> last in old(memory)) && newHdr % 16 == 0
      ensures (Now(), newHdr) == NewPages(old(Now()), last, newHdr, n, contents)
    {
      PagesAreAligned(n);
      EndIsBehindLast(memory, blocks);
      NewPagesAreGrow(Now(), blocks, n, contents);
      WritePages(last, newHdr, n);
      blocks := Grow(blocks, n);
    }

    /** The stores of the split in `malloc`. */
    method SplitStores(hdr: nat, size: nat)
      requires hdr in memory && memory[hdr].size >= size + 2 * HEADER
      requires hdr + HEADER + size in memory
      requires !memory[hdr].end ==> hdr + HEADER + memory[hdr].size in memory
      modifies this`memory
      ensures memory == SplitMemory(old(memory), hdr, size)
    {
      var remaining := memory[hdr].size - (size + HEADER);
      memory := memory[hdr := memory[hdr].(size := size)];
      var next := hdr + HEADER + size;
      memory := memory[next := memory[next].(used := false, end := false, rest := 0)];
      memory := memory[next := memory[next].(prev := hdr)];
      memory := memory[next := memory[next].(size := remaining)];
      if memory[hdr].end {
        memory := memory[hdr := memory[hdr].(end := false)];
        memory := memory[next := memory[next].(end := true)];
      } else {
        var nextNext := next + HEADER + remaining;
        memory := memory[nextNext := memory[nextNext].(prev := next)];
      }
    }

    /** The split keeps all payloads except that of block `k` itself. */
    method Split(hdr: nat, size: nat, ghost k: nat)
      requires HoldsBlocks() && IsHeader(hdr, k) && Splits(blocks[k], size) && size % 16 == 0
      modifies this`memory, this`blocks
      ensures HoldsBlocks() && blocks == SplitBlocks(old(blocks), k, size)
      ensures PayloadsKept(old(memory), memory, old(blocks)[k := Block(old(blocks)[k].size, false)])
      ensures TakenIsSplittable(old(memory), hdr, size) && memory == SplitMemory(old(memory), hdr, size)
    {
      SplitHolds(memory, blocks, k, size);
      SplitKeepsPayloads(memory, blocks, k, size);
      SplitAddresses(blocks, k, size);
      SplitStores(hdr, size);
      blocks := SplitBlocks(blocks, k, size);
    }

    /** `hdr->status |= USED`, or the same bit cleared. */
    method SetUsed(hdr: nat, ghost k: nat, used: bool)
      requires HoldsBlocks() && IsHeader(hdr, k)
      modifies this`memory, this`blocks
      ensures HoldsBlocks() && blocks == old(blocks)[k := Block(old(blocks)[k].size, used)]
      ensures IsHeader(hdr, k) && hdr in memory && memory[hdr].size == blocks[k].size
      ensures PayloadsKept(old(memory), memory, old(blocks))
      ensures hdr in old(memory) && memory == old(memory)[hdr := old(memory)[hdr].(used := used)]
    {
      SetUsedHolds(memory, blocks, k, used);
      SameAddresses(blocks, blocks[k := Block(blocks[k].size, used)]);
      memory := memory[hdr := memory[hdr].(used := used)];
      blocks := blocks[k := Block(blocks[k].size, used)];
    }

    /** The part of `malloc` that takes block `k` and splits it. */
    method TakeBlock(hdr: nat, size: nat, ghost k: nat)
      requires HoldsBlocks() && IsHeader(hdr, k) && Fits(blocks[k], size) && size % 16 == 0
      modifies this`memory, this`blocks
      ensures HoldsBlocks() && blocks == Place(old(blocks), k, size)
      ensures PayloadsKept(old(memory), memory, old(blocks))
      ensures hdr in old(memory) && TakeCode(old(memory), hdr, size) == Some(memory)
    {
      PlaceIsSplit(blocks, k, size);
      SetUsed(hdr, k, true);
      if memory[hdr].size >= size + 2 * HEADER {
        Split(hdr, size, k);
      }
    }

    /** The pages for the request would reach past the end of the heap region. */
    ghost predicate OutOfRoom(bs: seq<Block>, rounded: nat) {
      End(bs) / 4096 + PagesFor(rounded) > PAGE_MAX
    }

    /** The one call of `mem_alloc` led from `s` to where memory is now, and gave the page behind the heap. */
    ghost predicate GrowthWas(s: Paging.State, bs: seq<Block>, rounded: nat)
      reads mm
    {
      && s.Valid() && End(bs) / 4096 <= PAGE_MAX && PagesFor(rounded) < TWO32
      && GrowCall(s, End(bs) / 4096, PagesFor(rounded)) == Some((mm.now, End(bs)))
    }

    /** Growth: the pages that `mem_alloc` gives become a free block. A fault is a store to a null header. */
    method GrowHeap(last: nat, rounded: nat) returns (fault: bool, newHdr: nat)
      requires Valid() && last == LastHeader(blocks) && rounded + 2 * HEADER < TWO32
      requires HasFrames(mm.now, End(blocks) / 4096, PagesFor(rounded))
      modifies this`memory, this`firstHdr, this`blocks, mm`now, mm.physPageBitmap, mm.pageDirectory, mm.pageTables
      ensures Valid() && fault == OutOfRoom(old(blocks), rounded)
      ensures fault ==> Now() == old(Now()) && blocks == old(blocks) && mm.now == old(mm.now)
      ensures !fault ==> blocks == Grow(old(blocks), PagesFor(rounded)) && newHdr == End(old(blocks))
      ensures !fault ==> PayloadsKept(old(memory), memory, old(blocks))
      ensures !fault ==> IsHeader(newHdr, |old(blocks)|) && Fits(blocks[|old(blocks)|], rounded)
      ensures !fault ==> (last != 0 ==> last in old(memory)) && newHdr % 16 == 0
      ensures !fault ==> (Now(), newHdr) == NewPages(old(Now()), last, newHdr, PagesFor(rounded), contents)
      ensures !fault ==> GrowthWas(old(mm.now), old(blocks), rounded)
    {
      hide HoldsHeap, PayloadsKept, NewPages, Backed, CanGrow, GrowCall, Grow, Addr;
      var n := (rounded + HEADER) % TWO32 / 4096 + 1;
      GrowKeepsLive(blocks, n);
      GrownFits(blocks, rounded);
      newHdr := AllocPages(last, n);
      fault := newHdr == 0;
      if !fault {
        AddBlock(last, newHdr, n);
      }
    }

    /** The search of `malloc`, and growth if it finds nothing. */
    method RoomFor(rounded: nat) returns (fault: bool, hdr: nat, ghost k: nat)
      requires Valid() && rounded % 16 == 0 && rounded + 2 * HEADER < TWO32
      requires FirstFit(blocks, rounded, 0) == |blocks| ==> HasFrames(mm.now, End(blocks) / 4096, PagesFor(rounded))
      modifies this`memory, this`firstHdr, this`blocks, mm`now, mm.physPageBitmap, mm.pageDirectory, mm.pageTables
      ensures Valid() && k == FirstFit(old(blocks), rounded, 0)
      ensures fault <==> k == |old(blocks)| && OutOfRoom(old(blocks), rounded)
      ensures fault ==> Now() == old(Now()) && blocks == old(blocks) && mm.now == old(mm.now)
      ensures !fault ==> IsHeader(hdr, k) && Fits(blocks[k], rounded)
      ensures !fault ==> PayloadsKept(old(memory), memory, old(blocks))
      ensures !fault ==>
                if k == |old(blocks)|
                then blocks == Grow(old(blocks), PagesFor(rounded)) && GrowthWas(old(mm.now), old(blocks), rounded)
                else blocks == old(blocks) && mm.now == old(mm.now)
      ensures !fault ==> RoomCode(old(Now()), rounded, contents) == Some((Now(), hdr))
    {
      RoomIs(Now(), blocks, rounded, contents);
      KeptByNothing(memory, blocks);
      FirstFitOfNothing(rounded);
      hide *;
      hdr, k := FindHeader(rounded);
      fault := false;
      if hdr == 0 || memory[hdr].used || memory[hdr].size < rounded {
        k := |blocks|;
        fault, hdr := GrowHeap(hdr, rounded);
      }
    }

    /**
     * The result is `Malloc` of the block list and a pointer to that block's payload. What
     * was in use keeps its contents. If the heap grows, it grows by fresh frames only. The
     * call faults exactly when it has to grow past the end of the region.
     */
    method Malloc(size: u32) returns (fault: bool, ptr: nat)
      requires Valid() && SumsFit(size)
      requires NeedsGrowth(blocks, size) ==> HasFrames(mm.now, End(blocks) / 4096, PagesFor(RoundUp(size)))
      modifies this`memory, this`firstHdr, this`blocks, mm`now, mm.physPageBitmap, mm.pageDirectory, mm.pageTables
      ensures Valid()
      ensures fault <==> NeedsGrowth(old(blocks), size) && OutOfRoom(old(blocks), RoundUp(size))
      ensures fault ==> Now() == old(Now()) && blocks == old(blocks) && mm.now == old(mm.now)
      ensures var (cs, k) := Blocks.Malloc(old(blocks), size);
              && (!fault ==> blocks == cs && k < |cs| && ptr == Payload(cs, k))
              && (!fault ==> IsGranted(old(blocks), blocks, k, RoundUp(size)))
      ensures !fault ==> PayloadsKept(old(memory), memory, old(blocks))
      ensures !fault ==> MallocCode(old(Now()), size, contents) == Some((Now(), ptr))
      ensures !fault ==>
                if NeedsGrowth(old(blocks), size)
                then GrowthWas(old(mm.now), old(blocks), RoundUp(size))
                else mm.now == old(mm.now)
    {
      hide HoldsHeap, PayloadsKept, RoomCode, TakeCode, Place, Backed, Grow, CanGrow, GrowCall, Live, FirstFit;
      MallocGrants(blocks, size);
      hide OutOfRoom, GrowthWas, IsGranted;
      var rounded := (size + 15) % TWO32 / 16 * 16;
      var hdr;
      ghost var k;
      fault, hdr, k := RoomFor(rounded);
      ptr := hdr + HEADER;
      if !fault {
        ghost var m, bs := memory, blocks;
        if k == |old(blocks)| {
          GrowKeepsLive(old(blocks), PagesFor(rounded));
        }
        PlaceMakesLive(bs, k, rounded);
        TakeBlock(hdr, rounded, k);
        KeptForLive(m, memory, bs, old(blocks));
        KeptThrough(old(memory), m, memory, old(blocks));
      }
    }

    /** The backward merge of `free` as written: the header of the block merged is not counted. */
    method MergeBackward(hdr: nat) returns (fault: bool, h: nat)
      requires hdr in memory
      modifies this`memory
      ensures fault <==> old(memory)[hdr].prev != 0 && old(memory)[hdr].prev !in old(memory)
      ensures var prev := old(memory)[hdr].prev;
              if prev != 0 && prev in old(memory) && !old(memory)[prev].used
              then h == prev && memory == BackMerged(old(memory), prev, hdr)
              else h == hdr && memory == old(memory)
    {
      fault, h := false, hdr;
      var prev := memory[hdr].prev;
      if prev != 0 {
        if prev !in memory {
          return true, hdr;
        }
        if !memory[prev].used {
          var end := memory[hdr].end;
          memory := memory[prev := memory[prev].(size := Word(memory[prev].size + memory[hdr].size))];
          memory := memory[prev := memory[prev].(end := memory[prev].end || end)];
          h := prev;
        }
      }
    }

    /** The forward merge of `free` as written, and the final clearing of the bit. */
    method MergeForward(h: nat) returns (fault: bool)
      requires h in memory
      modifies this`memory
      ensures fault <==> FreeForward(old(memory), h) == None
      ensures !fault ==> FreeForward(old(memory), h) == Some(memory)
    {
      if !IsFreeEnd(memory[h]) {
        var next := Word(h + HEADER + memory[h].size);
        if next !in memory {
          return true;
        }
        if !memory[next].used {
          var g := memory[next];
          memory := memory[h := memory[h].(size := Word(memory[h].size + g.size), end := memory[h].end || g.end)];
          if !g.end {
            var nextNext := Word(next + HEADER + g.size);
            if nextNext !in memory {
              return true;
            }
            memory := memory[nextNext := memory[nextNext].(prev := h)];
          }
        }
      }
      memory := memory[h := memory[h].(used := false)];
      fault := false;
      assert FreeForward(old(memory), h).Some?;
      assert memory == FreeForward(old(memory), h).value;
    }

    /** `free` as written, on whatever memory holds; module HeapMemory says when it works. */
    method Free(ptr: nat) returns (fault: bool)
      requires ptr >= HEADER
      modifies this`memory
      ensures fault <==> FreeMemory(old(memory), ptr) == None
      ensures !fault ==> FreeMemory(old(memory), ptr) == Some(memory)
    {
      var hdr := ptr - HEADER;
      if hdr !in memory {
        return true;
      }
      var h;
      fault, h := MergeBackward(hdr);
      if !fault {
        fault := MergeForward(h);
      }
    }

    /** `free` as written, for a block that is not the last and has no free neighbour. */
    method FreeQuietly(ptr: nat)
      requires Valid()
      requires var k := BlockAt(blocks, ptr, 0); k < |blocks| && blocks[k].used && Quiet(blocks, k)
      modifies this`memory, this`blocks
      ensures Valid() && blocks == Blocks.Free(old(blocks), BlockAt(old(blocks), ptr, 0))
      ensures PayloadsKept(old(memory), memory, blocks)
    {
      ghost var m, bs, k := memory, blocks, BlockAt(blocks, ptr, 0);
      QuietFree(m, bs, k);
      FreeRemovesPayload(bs, k);
      var _ := Free(ptr);
      KeptForLive(m, memory, bs, Blocks.Free(bs, k));
      blocks := Blocks.Free(bs, k);
    }

    /** The merge of the repaired `free`: the block at `h` takes in all of the one behind it. */
    method Absorb(h: nat, ghost k: nat)
      requires HoldsBlocks() && k + 1 < |blocks| && IsHeader(h, k)
      modifies this`memory, this`blocks
      ensures HoldsBlocks() && blocks == Merge(old(blocks), k) && IsHeader(h, k)
      ensures PayloadsKept(old(memory), memory, old(blocks))
    {
      MergeHolds(memory, blocks, k);
      MergeAddresses(blocks, k);
      var next := h + HEADER + memory[h].size;
      var size, end := memory[next].size, memory[next].end;
      memory := memory[h := memory[h].(size := memory[h].size + HEADER + size, end := memory[h].end || end)];
      if !end {
        var nextNext := next + HEADER + size;
        memory := memory[nextNext := memory[nextNext].(prev := h)];
      }
      blocks := Merge(blocks, k);
    }

    /** The backward merge of the repaired `free`. */
    method AbsorbedByPrevious(hdr: nat, ghost k: nat) returns (h: nat, ghost j: nat)
      requires HoldsBlocks() && IsHeader(hdr, k)
      modifies this`memory, this`blocks
      ensures HoldsBlocks() && IsHeader(h, j)
      ensures if PrevFree(old(blocks), k) then j == k - 1 && blocks == Merge(old(blocks), j)
              else j == k && blocks == old(blocks)
      ensures PayloadsKept(old(memory), memory, old(blocks))
    {
      h, j := hdr, k;
      assert HeaderOk(memory, blocks, k);
      var prev := memory[hdr].prev;
      if prev != 0 {
        assert HeaderOk(memory, blocks, k - 1);
        if !memory[prev].used {
          h, j := prev, k - 1;
          Absorb(prev, j);
        }
      }
    }

    /** The forward merge of the repaired `free`. */
    method AbsorbNext(h: nat, ghost j: nat)
      requires HoldsBlocks() && IsHeader(h, j)
      modifies this`memory, this`blocks
      ensures HoldsBlocks() && IsHeader(h, j)
      ensures blocks == if NextFree(old(blocks), j) then Merge(old(blocks), j) else old(blocks)
      ensures PayloadsKept(old(memory), memory, old(blocks))
    {
      assert HeaderOk(memory, blocks, j);
      if !memory[h].end {
        var next := h + HEADER + memory[h].size;
        assert HeaderOk(memory, blocks, j + 1);
        if !memory[next].used {
          Absorb(h, j);
        }
      }
    }

    /**
     * The repaired `free`: merges count the absorbed header, the back link behind is set
     * after either merge, and only the END bit counts in the comparison.
     */
    method FreeRepaired(ptr: nat)
      requires Valid()
      requires var k := BlockAt(blocks, ptr, 0); k < |blocks| && blocks[k].used
      modifies this`memory, this`blocks
      ensures Valid() && blocks == Blocks.Free(old(blocks), BlockAt(old(blocks), ptr, 0))
      ensures PayloadsKept(old(memory), memory, blocks)
    {
      hide Covers, HeadersOk, PayloadsKept, Backed, Merge, NextFree, WholePages;
      ghost var m, bs, k := memory, blocks, BlockAt(blocks, ptr, 0);
      ghost var cs := Blocks.Free(bs, k);
      FreeByMerging(bs, k);
      FreeRemovesPayload(bs, k);
      LiveThroughMerges(bs, k);
      var h;
      ghost var j;
      h, j := AbsorbedByPrevious(ptr - HEADER, k);
      KeptForLive(m, memory, bs, cs);
      ghost var m1, back := memory, blocks;
      AbsorbNext(h, j);
      KeptForLive(m1, memory, back, cs);
      ghost var m2, forward := memory, blocks;
      SetUsed(h, j, false);
      FinalKeeps(m2, memory, forward, j, cs);
      KeptThrough(m, m1, m2, cs);
      KeptThrough(m, m2, memory, cs);
    }
  }

  /** Clearing the bit at the end touches no payload that stays in use. */
  lemma FinalKeeps(m: HeapMemory.Memory, m': HeapMemory.Memory, bs: seq<Block>, j: nat, cs: seq<Block>)
    requires PayloadsKept(m, m', bs) && j < |bs| && cs == bs[j := Block(bs[j].size, false)]
    ensures PayloadsKept(m, m', cs)
  {
    SameAddresses(bs, cs);
    assert forall i, a :: 0 <= i < |cs| && cs[i].used && InPayload(cs, i, a) ==> InPayload(bs, i, a);
  }
}
