/**
 * kernel/arch/i686/mem.c: the memory manager on its own data. The ghost field `now` is
 * the value that the data stands for; every method is tied to the function of module
 * Paging that says what becomes of it.
 */
module Mem {
  import opened FrameBitmap
  import opened Machine
  import opened Paging
  import Strings

  const PROT_PHYS_START: u32 := 0x00100000
  const PROT_PHYS_END: u32 := 0x00f00000
  const HUGE_SKIP := 0x3ff000
  const NO_FRAME: u32 := 0xffff_ffff

  class Memory {
    const physPageBitmap: array<bv8>
    const pageDirectory: array<u32>
    const pageTables: array<u32>
    var lowerBound: u32
    var upperBound: u32
    /** What a frame holds before it is handed out, by frame and word. */
    const stale: (nat, nat) -> u32

    ghost var now: State

    /** The fields stand for `now`; `upperBound` may be any address. */
    ghost predicate Holds()
      reads this, physPageBitmap, pageDirectory, pageTables
    {
      && physPageBitmap.Length == BITMAP_BYTES
      && pageDirectory.Length == TABLE && pageTables.Length == TABLE * TABLE
      && pageDirectory != pageTables
      && lowerBound % PAGE_SIZE == 0
      && now == State(
                  DecodeAll(pageDirectory[..]),
                  DecodeAll(pageTables[..]),
                  Frames(physPageBitmap[..]),
                  lowerBound / PAGE_SIZE,
                  (upperBound + PAGE_SIZE - 1) / PAGE_SIZE,
                  stale)
    }

    /** Moreover the bitmap covers every frame below `upperBound`. */
    ghost predicate Valid()
      reads this, physPageBitmap, pageDirectory, pageTables
      ensures Valid() ==> now.Valid()
    {
      Holds() && upperBound <= PAGE_SIZE * FRAMES
    }

    /** The state after loading the kernel: the static initial values, and whatever the tables hold. */
    constructor (directory: array<u32>, tables: array<u32>, stale: (nat, nat) -> u32)
      requires directory.Length == TABLE && tables.Length == TABLE * TABLE && directory != tables
      ensures Valid() && pageDirectory == directory && pageTables == tables && fresh(physPageBitmap)
      ensures now.used == {} && lowerBound == 0x10_0000 && upperBound == 0xf0_0000
    {
      physPageBitmap := new bv8[BITMAP_BYTES](_ => 0);
      pageDirectory := directory;
      pageTables := tables;
      lowerBound := PROT_PHYS_START;
      upperBound := PROT_PHYS_END;
      this.stale := stale;
      now := State(DecodeAll(directory[..]), DecodeAll(tables[..]), {},
                   PROT_PHYS_START / PAGE_SIZE, PROT_PHYS_END / PAGE_SIZE, stale);
      new;
      assert forall f: nat :: f < FRAMES ==> !Marked(physPageBitmap[..], f);
    }

    // -------------------------------------------------------------- frames

    method IsPhysUsed(phys: u32) returns (used: bool)
      requires Holds() && phys / PAGE_SIZE < FRAMES
      ensures used <==> phys / PAGE_SIZE in now.used
    {
      var byte, bit := phys / PAGE_SIZE / 8, phys / PAGE_SIZE % 8;
      used := TestBit(physPageBitmap[byte], bit);
    }

    method SetPhysUsed(phys: u32, used: bool)
      requires Holds() && phys / PAGE_SIZE < FRAMES
      modifies this`now, physPageBitmap
      ensures Holds()
      ensures now == if used then Take(old(now), phys / PAGE_SIZE)
                     else old(now).(used := old(now).used - {phys / PAGE_SIZE})
    {
      var byte, bit := phys / PAGE_SIZE / 8, phys / PAGE_SIZE % 8;
      ghost var before := physPageBitmap[..];
      physPageBitmap[byte] := MarkBit(physPageBitmap[byte], bit, used);
      assert physPageBitmap[..] == Mark(before, phys / PAGE_SIZE, used);
      MarkRefinesTheSet(before, phys / PAGE_SIZE, used);
      now := now.(used := Frames(physPageBitmap[..]));
    }

    /** A fault is a look past the end of the bitmap. */
    method AllocPhys() returns (fault: bool, ret: u32)
      requires Holds()
      modifies this`now, physPageBitmap
      ensures Holds()
      ensures fault <==> !ScanStaysInside(old(now))
      ensures match LowestFree(old(now))
              case None => ret == 0xffff_ffff && now == old(now)
              case Some(f) => if fault then now == old(now) else ret == PAGE_SIZE * f && now == Take(old(now), f)
    {
      ghost var f := now.lo;
      ret := lowerBound;
      while ret < upperBound
        invariant ret == PAGE_SIZE * f
        invariant ret < upperBound + PAGE_SIZE || ret == lowerBound
        invariant NextFree(now.used, now.lo, now.hi) == NextFree(now.used, f, now.hi)
        invariant Holds() && now == old(now)
        decreases upperBound - ret
      {
        assert ret / PAGE_SIZE == f && f < now.hi;
        if ret / PAGE_SIZE >= FRAMES {
          assert f !in now.used;
          return true, ret;
        }
        var used := IsPhysUsed(ret);
        if !used {
          SetPhysUsed(ret, true);
          return false, ret;
        }
        ret, f := ret + PAGE_SIZE, f + 1;
      }
      assert now.hi <= f;
      fault, ret := false, NO_FRAME;
    }

    /** `lower` is where low memory ends, `upper` the size of the memory above 1 MiB, both in bytes. */
    method MemInitRegions(lower: u32, upper: u32)
      requires Holds()
      modifies this`now, this`lowerBound, this`upperBound, physPageBitmap
      ensures Holds() && lowerBound == 0 && upperBound == (0x100000 + upper) % TWO32
      ensures now.used == old(now).used + FrameRange(lower / PAGE_SIZE, 0x100)
      ensures now.lo == 0 && now.hi == FramesBelow(upper)
      ensures now.dir == old(now).dir && now.tables == old(now).tables
    {
      var page := lower / PAGE_SIZE * PAGE_SIZE;
      ghost var first, f := lower / PAGE_SIZE, lower / PAGE_SIZE;
      while page < 0x100000
        invariant page == PAGE_SIZE * f && first <= f && (f <= 0x100 || f == first)
        invariant Holds() && now == old(now).(used := old(now).used + FrameRange(first, f))
        modifies this`now, physPageBitmap
        decreases 0x100000 - page
      {
        assert page / PAGE_SIZE == f;
        SetPhysUsed(page, true);
        page, f := page + PAGE_SIZE, f + 1;
      }
      assert FrameRange(first, f) == FrameRange(first, 0x100);
      upperBound := (0x100000 + upper) % TWO32;
      lowerBound := 0;
      now := now.(lo := 0, hi := (upperBound + PAGE_SIZE - 1) / PAGE_SIZE);
    }

    /**
     * Marks the frames that the region touches below 4 GiB, and at least that of its start. A fault
     * is a store past the end of the bitmap; the frames before it are marked by then.
     */
    method MemSetUsed(phys: nat, minSize: nat) returns (fault: bool)
      requires Holds()
      modifies this`now, physPageBitmap
      ensures Holds()
      ensures fault <==> phys < TWO32 && (phys >= 0x7fff_8000 || phys + minSize > 0x7fff_8000)
      ensures forall f: nat :: f in now.used <==> f in old(now).used || (f < FRAMES && IsTouched(phys, minSize, f))
      ensures now == old(now).(used := now.used)
    {
      hide IsTouched;
      if phys < TWO32 {
        RangeIsTouched(phys, minSize);
      } else {
        NothingIsTouched(phys, minSize);
      }
      fault := MarkRegion(phys, minSize);
    }

    /** The loop of `mem_set_used`. */
    method MarkRegion(phys: nat, minSize: nat) returns (fault: bool)
      requires Holds()
      modifies this`now, physPageBitmap
      ensures Holds()
      ensures fault <==> phys < TWO32 && PagesUpTo(phys, minSize) > FRAMES
      ensures now == if phys >= TWO32 then old(now)
                     else old(now).(used := old(now).used
                                          + FrameRange(phys / PAGE_SIZE, FramesWithin(phys, minSize)))
    {
      if phys >= TWO32 {
        return false;
      }
      var max, first := RegionEnd(phys, minSize), phys / PAGE_SIZE;
      var page := first * PAGE_SIZE;
      TakeGrows(now, first, first);
      FirstPage(phys, minSize);
      hide FrameRange, RegionEnd, PagesUpTo, FramesWithin, Holds, Take;
      if first >= FRAMES {
        return true;
      }
      SetPhysUsed(page, true);
      page := (page + PAGE_SIZE) % TWO32;
      ghost var f := first + 1;
      while page < max && page != 0
        invariant page == PAGE_SIZE * f && first < f <= PagesUpTo(phys, minSize) && f <= FRAMES
        invariant Holds() && now == old(now).(used := old(now).used + FrameRange(first, f))
        decreases max - page
      {
        PageBeforeEnd(phys, minSize, f);
        if page / PAGE_SIZE >= FRAMES {
          return true;
        }
        TakeGrows(old(now), first, f);
        SetPhysUsed(page, true);
        page, f := (page + PAGE_SIZE) % TWO32, f + 1;
      }
      PageBeforeEnd(phys, minSize, f);
      fault := false;
    }

    // -------------------------------------------------------------- mapping

    /** `next` is where to try next; 0 means that the end of the window overflowed. */
    method IsVirtRegionUsed(start: nat, n: u32) returns (used: bool, next: nat)
      requires Valid() && start < TWO32 && (start + n < TWO32 ==> start + n <= LIMIT)
      ensures start + n >= TWO32 ==> used && next == 0
      ensures start + n < TWO32 ==>
                if used then next > 0 && Scan(now, start, start + n) == Some(next - 1)
                else next == start && Scan(now, start, start + n) == None
    {
      var endPage := (start + n) % TWO32;
      if endPage < start {
        return true, 0;
      }
      var page := start;
      while page < endPage
        invariant start <= page
        invariant page <= endPage ==> Scan(now, start, endPage) == Scan(now, page, endPage)
        invariant endPage < page ==> Scan(now, start, endPage) == None
        decreases endPage - page
      {
        DecodePresent(pageDirectory[page / TABLE]);
        DecodePresent(pageTables[page]);
        if pageDirectory[page / TABLE] % 2 == 0 {
          // `page |= (HUGE_PAGE_SIZE - 1) & ~4095`: sets bits 12 to 21 of a page number
          page := page % 4096 + HUGE_SKIP;
        } else if pageTables[page] % 2 == 1 {
          return true, page + 1;
        }
        page := page + 1;
      }
      return false, start;
    }

    /** Makes frame `f` the page table of page `page` and clears 1024 entries from that page's on. */
    method InstallTable(page: nat, f: nat)
      requires Valid() && page < LIMIT && f < FRAMES && !ClearingFaults(now, page)
      modifies this`now, pageDirectory, pageTables
      ensures Valid()
      ensures now == old(now).(dir := old(now).dir[page / TABLE := Entry(f, DIRECTORY_FLAGS)],
                               tables := ClearFrom(old(now), page, f))
    {
      ghost var words := pageTables[..];
      pageDirectory[page / TABLE] := PAGE_SIZE * f + DIRECTORY_FLAGS;
      assert Decode(PAGE_SIZE * f + DIRECTORY_FLAGS) == Entry(f, DIRECTORY_FLAGS);
      // the directory entry makes the old words of the frame visible as the new table
      forall i | 0 <= i < TABLE {
        pageTables[page / TABLE * TABLE + i] := stale(f, i);
      }
      ghost var filled := pageTables[..];
      Strings.Memset(pageTables, page, 0, TABLE);
      ClearedTables(now, words, filled, pageTables[..], page, f);
      now := now.(dir := now.dir[page / TABLE := Entry(f, DIRECTORY_FLAGS)], tables := ClearFrom(now, page, f));
      assert DecodeAll(pageDirectory[..]) == now.dir;
    }

    /** One round of the mapping loop of `mem_map`. */
    method MapOne(page: nat, frame: nat, flags: nat)
      requires Valid() && page < LIMIT && frame < TABLE * TABLE && flags < PAGE_SIZE
      requires MapPage(now, page, frame, flags).Some?
      modifies this`now, physPageBitmap, pageDirectory, pageTables
      ensures Valid() && MapPage(old(now), page, frame, flags) == Some(now)
    {
      DecodePresent(pageDirectory[page / TABLE]);
      if pageDirectory[page / TABLE] % 2 == 0 {
        var _, table := AllocPhys();
        InstallTable(page, table / PAGE_SIZE);
        ghost var f := table / PAGE_SIZE;
        assert ClearFrom(old(now), page, f) == ClearFrom(Take(old(now), f), page, f);
      }
      ghost var words: seq<int> := pageTables[..];
      pageTables[page] := PAGE_SIZE * frame + flags;
      assert Decode(PAGE_SIZE * frame + flags) == Entry(frame, flags);
      now := now.(tables := now.tables[page := Entry(frame, flags)]);
      assert pageTables[..] == words[page := PAGE_SIZE * frame + flags];
      assert DecodeAll(pageTables[..]) == now.tables;
    }

    /** The search loop of `mem_map`; it gives up when the end of the first window is not an address. */
    method FindRegion(pageMin: nat, n: u32) returns (found: bool, start: nat)
      requires Valid() && pageMin < TWO32
      requires pageMin + n < TWO32 ==> FindWindow(now, pageMin, n).Some?
      ensures found <==> pageMin + n < TWO32
      ensures found ==> FindWindow(now, pageMin, n) == Some(start)
    {
      if pageMin + n < TWO32 {
        SearchStarts(now, pageMin, n);
      }
      hide Valid, Holds, Scan, FindWindow;
      start := pageMin;
      var used, next := IsVirtRegionUsed(start, n);
      if used && next == 0 {
        return false, 0;
      }
      while used
        invariant start + n <= LIMIT && FindWindow(now, start, n) == FindWindow(now, pageMin, n)
        invariant if used then next > 0 && Scan(now, start, start + n) == Some(next - 1)
                  else Scan(now, start, start + n) == None
        decreases LIMIT - start
      {
        SearchGoesOn(now, start, n);
        start := next;
        used, next := IsVirtRegionUsed(start, n);
      }
      found := true;
      SearchEnds(now, start, n);
    }

    /** The mapping loop of `mem_map`. The physical address advances, and wraps, one frame at a time. */
    method MapWindow(pageStart: nat, n: nat, frame: nat, flags: nat)
      requires Valid() && pageStart + n <= LIMIT && frame < TABLE * TABLE && flags < PAGE_SIZE
      requires MapPages(now, pageStart, n, frame, flags).Some?
      modifies this`now, physPageBitmap, pageDirectory, pageTables
      ensures Valid() && MapPages(old(now), pageStart, n, frame, flags) == Some(now)
    {
      hide MapPage, Valid;
      var page, f := pageStart, frame;
      ghost var s, k := now, 0;
      while page < pageStart + n
        invariant page == pageStart + k && k <= n && f == FrameAt(frame, k)
        invariant Valid() && Reached(s, pageStart, k, frame, flags, now)
      {
        NextRound(s, pageStart, k, n, frame, flags, now);
        MapOne(page, f, flags);
        page, f, k := page + 1, NextFrame(f), k + 1;
      }
    }

    method MemMap(virtMin: u32, n: u32, phys: u32, flags: nat) returns (ptr: u32)
      requires Valid() && flags < PAGE_SIZE
      requires MapRegion(now, virtMin, n, phys, flags).Some?
      modifies this`now, physPageBitmap, pageDirectory, pageTables
      ensures Valid() && MapRegion(old(now), virtMin, n, phys, flags) == Some((now, ptr))
    {
      if phys % PAGE_SIZE != 0 {
        return 0;
      }
      var pageMin := virtMin / PAGE_SIZE;
      var found, pageStart := FindRegion(pageMin, n);
      if !found {
        return 0;
      }
      FindWindowIsLowest(now, pageMin, n);
      MapWindow(pageStart, n, phys / PAGE_SIZE, flags);
      ptr := pageStart * PAGE_SIZE;
    }

    /** `mem_map` gives 0 for an error, and the offset is added to that as well. */
    method MemMapRange(virtMin: u32, physStart: u32, physEnd: u32, flags: nat) returns (ptr: u32)
      requires Valid() && flags < PAGE_SIZE
      requires MapRange(now, virtMin, physStart, physEnd, flags).Some?
      modifies this`now, physPageBitmap, pageDirectory, pageTables
      ensures Valid() && MapRange(old(now), virtMin, physStart, physEnd, flags) == Some((now, ptr))
    {
      if physEnd < physStart {
        return 0;
      }
      var pageOffset := physStart % 4096;
      var n := (physEnd - physStart + 4095) % TWO32 / PAGE_SIZE;
      assert n == RangePages(physStart, physEnd);
      ptr := MemMap(virtMin, n, physStart - pageOffset, flags);
      ptr := Advance(ptr, pageOffset);
    }

    // -------------------------------------------------------------- allocating

    /** One round of the loop of `mem_alloc`. */
    method AllocOne(page: nat, flags: nat)
      requires Valid() && page < LIMIT && flags < PAGE_SIZE
      requires AllocPage(now, page, flags).Some?
      modifies this`now, physPageBitmap, pageDirectory, pageTables
      ensures Valid() && AllocPage(old(now), page, flags) == Some(now)
    {
      var _, frame := AllocPhys();
      assert NO_FRAME % PAGE_SIZE != 0;
      var _ := MemMap(page * PAGE_SIZE, 1, frame, flags);
    }

    /** The loop of `mem_alloc`. */
    method AllocWindow(pageStart: nat, n: nat, flags: nat)
      requires Valid() && pageStart + n <= LIMIT && flags < PAGE_SIZE
      requires AllocPages(now, pageStart, n, flags).Some?
      modifies this`now, physPageBitmap, pageDirectory, pageTables
      ensures Valid() && AllocPages(old(now), pageStart, n, flags) == Some(now)
    {
      hide AllocPage, Valid;
      var page := pageStart;
      ghost var s, k := now, 0;
      while page < pageStart + n
        invariant page == pageStart + k && k <= n
        invariant Valid() && Grown(s, pageStart, k, flags, now)
      {
        NextPage(s, pageStart, k, n, flags, now);
        AllocOne(page, flags);
        page, k := page + 1, k + 1;
      }
    }

    method MemAlloc(virt: u32, virtEndMax: u32, n: u32, flags: nat) returns (ptr: u32)
      requires Valid() && flags < PAGE_SIZE
      requires Alloc(now, virt, virtEndMax, n, flags).Some?
      modifies this`now, physPageBitmap, pageDirectory, pageTables
      ensures Valid() && Alloc(old(now), virt, virtEndMax, n, flags) == Some((now, ptr))
    {
      var pageStart, pageMax := virt / PAGE_SIZE, virtEndMax / PAGE_SIZE;
      if (pageStart + n) % TWO32 > pageMax {
        return 0;
      }
      var used, _ := IsVirtRegionUsed(pageStart, n);
      if used {
        return 0;
      }
      AllocWindow(pageStart, n, flags);
      ptr := virt;
    }
  }

  // ---------------------------------------------------------------- arithmetic

  /** Taking frame `f` as well. */
  lemma TakeGrows(s: State, lo: nat, f: nat)
    requires lo <= f
    ensures Take(s.(used := s.used + FrameRange(lo, f)), f) == s.(used := s.used + FrameRange(lo, f + 1))
    ensures s.(used := s.used + FrameRange(lo, lo)) == s
  {
    assert s.used + FrameRange(lo, f) + {f} == s.used + FrameRange(lo, f + 1);
    assert s.used + {} == s.used;
  }

  /** The end of a region, cut off at the last 32-bit address. */
  function RegionEnd(phys: nat, minSize: nat): u32 {
    if phys + minSize > 0xffff_ffff then 0xffff_ffff else phys + minSize
  }

  /** One past the last frame that the region touches, or past its first frame if it is empty. */
  function PagesUpTo(phys: nat, minSize: nat): nat {
    var end := (RegionEnd(phys, minSize) + PAGE_SIZE - 1) / PAGE_SIZE;
    if end <= phys / PAGE_SIZE then phys / PAGE_SIZE + 1 else end
  }

  /** One past the last of these frames that the bitmap has. */
  function FramesWithin(phys: nat, minSize: nat): nat {
    if PagesUpTo(phys, minSize) <= FRAMES then PagesUpTo(phys, minSize) else FRAMES
  }

  /** The frames below the end of upper memory, a last partial one included. */
  function FramesBelow(upper: u32): nat {
    ((0x100000 + upper) % TWO32 + PAGE_SIZE - 1) / PAGE_SIZE
  }

  lemma FirstPage(phys: u32, minSize: nat)
    ensures phys / PAGE_SIZE < PagesUpTo(phys, minSize)
    ensures phys / PAGE_SIZE * PAGE_SIZE / PAGE_SIZE == phys / PAGE_SIZE
    ensures phys / PAGE_SIZE < FRAMES ==>
              (phys / PAGE_SIZE * PAGE_SIZE + PAGE_SIZE) % TWO32 == PAGE_SIZE * (phys / PAGE_SIZE + 1)
  {
  }

  lemma PageBeforeEnd(phys: nat, minSize: nat, f: nat)
    requires phys < TWO32 && phys / PAGE_SIZE < f
    ensures PAGE_SIZE * f < RegionEnd(phys, minSize) <==> f < PagesUpTo(phys, minSize)
    ensures (PAGE_SIZE * f) / PAGE_SIZE == f
    ensures f < FRAMES ==> (PAGE_SIZE * f + PAGE_SIZE) % TWO32 == PAGE_SIZE * (f + 1)
  {
  }

  // ---------------------------------------------------------------- the end of the bitmap

  /** The region has a byte in frame `f`, below 4 GiB, or starts in it. */
  predicate IsTouched(phys: nat, minSize: nat, f: nat) {
    phys < 0x1_0000_0000 && 4096 * f < 0x1_0000_0000 && (f == phys / 4096 || phys < 4096 * f < phys + minSize)
  }

  /** These are the frames from the first on to the rounded end. */
  lemma RangeIsTouched(phys: u32, minSize: nat)
    ensures forall f: nat :: IsTouched(phys, minSize, f) <==> phys / PAGE_SIZE <= f < PagesUpTo(phys, minSize)
    ensures forall f: nat :: f in FrameRange(phys / PAGE_SIZE, FramesWithin(phys, minSize))
                             <==> f < FRAMES && IsTouched(phys, minSize, f)
    ensures PagesUpTo(phys, minSize) <= FRAMES <==> phys < 0x7fff_8000 && phys + minSize <= 0x7fff_8000
  {
    forall f: nat ensures IsTouched(phys, minSize, f) <==> phys / PAGE_SIZE <= f < PagesUpTo(phys, minSize) {
      FrameIsTouched(phys, minSize, f);
    }
  }

  lemma FrameIsTouched(phys: u32, minSize: nat, f: nat)
    ensures IsTouched(phys, minSize, f) <==> phys / PAGE_SIZE <= f < PagesUpTo(phys, minSize)
  {
    FirstPage(phys, minSize);
    if phys / PAGE_SIZE < f {
      PageBeforeEnd(phys, minSize, f);
    }
  }

  lemma NothingIsTouched(phys: nat, minSize: nat)
    requires phys >= TWO32
    ensures forall f: nat :: !IsTouched(phys, minSize, f)
  {
  }

  /** All frames that the region touches are in the bitmap exactly when it starts and ends below 0x7fff8000. */
  lemma RegionIsInTheBitmapExactlyWhen(phys: u32, minSize: nat)
    ensures (forall f: nat :: IsTouched(phys, minSize, f) ==> f < FRAMES)
            <==> phys < 0x7fff_8000 && phys + minSize <= 0x7fff_8000
  {
    RangeIsTouched(phys, minSize);
    FirstPage(phys, minSize);
    assert IsTouched(phys, minSize, PagesUpTo(phys, minSize) - 1);
  }

  /** The region of the BIOS, as memory maps list it, lies past the end of the bitmap. */
  lemma BiosRegionIsPastTheBitmap()
    ensures forall f: nat :: IsTouched(0xfffc_0000, 0x40000, f) <==> 0xfffc0 <= f < 0x100000
    ensures FRAMES == 0x7fff8
  {
    RangeIsTouched(0xfffc_0000, 0x40000);
  }

  /** After `mem_init_regions`: `alloc_phys` stays in the bitmap, whatever that holds, exactly for these sizes. */
  lemma AllocStaysInTheBitmapExactlyWhen(s: State, upper: u32)
    requires s.lo == 0 && s.hi == FramesBelow(upper)
    ensures (forall used: set<nat> :: used <= FrameRange(0, FRAMES) ==> ScanStaysInside(s.(used := used)))
            <==> upper <= PAGE_SIZE * FRAMES - 0x100000 || 0x100000 + upper >= TWO32
  {
    ScanStaysInsideExactlyWhen(s);
  }

  /** 2 GiB of upper memory: once the frames of the bitmap are used up, `alloc_phys` looks past its end. */
  lemma ScanOfTwoGigabytesLeavesTheBitmap(s: State)
    requires s.lo == 0 && s.hi == FramesBelow(0x8000_0000) && s.used == FrameRange(0, FRAMES)
    ensures !ScanStaysInside(s)
  {
    assert FRAMES in s.Free();
  }

  // ---------------------------------------------------------------- rounds

  ghost predicate Reached(s: State, w: nat, k: nat, frame: nat, flags: nat, t: State)
    requires s.Valid() && w + k <= LIMIT
  {
    MapPages(s, w, k, frame, flags) == Some(t)
  }

  lemma NextRound(s: State, w: nat, k: nat, n: nat, frame: nat, flags: nat, t: State)
    requires s.Valid() && k < n && w + n <= LIMIT && MapPages(s, w, n, frame, flags).Some?
    requires Reached(s, w, k, frame, flags, t)
    ensures t.Valid() && MapPage(t, w + k, FrameAt(frame, k), flags).Some?
    ensures Reached(s, w, k + 1, frame, flags, MapPage(t, w + k, FrameAt(frame, k), flags).value)
  {
  }

  ghost predicate Grown(s: State, p: nat, k: nat, flags: nat, t: State)
    requires s.Valid() && p + k <= LIMIT && flags < PAGE_SIZE
  {
    AllocPages(s, p, k, flags) == Some(t)
  }

  lemma NextPage(s: State, p: nat, k: nat, n: nat, flags: nat, t: State)
    requires s.Valid() && k < n && p + n <= LIMIT && flags < PAGE_SIZE && AllocPages(s, p, n, flags).Some?
    requires Grown(s, p, k, flags, t)
    ensures t.Valid() && AllocPage(t, p + k, flags).Some?
    ensures Grown(s, p, k + 1, flags, AllocPage(t, p + k, flags).value)
  {
    AllocPagesNext(s, p, k, n, flags);
  }

  /** Filling one table and then clearing from entry `page`, word by word, is `ClearFrom`. */
  lemma ClearedTables(s: State, words: seq<u32>, filled: seq<u32>, cleared: seq<u32>, page: nat, f: nat)
    requires s.Valid() && page < LIMIT && |words| == |filled| == TABLE * TABLE
    requires s.tables == DecodeAll(words)
    requires forall q :: 0 <= q < TABLE * TABLE ==>
               filled[q] == if q / TABLE == page / TABLE then s.stale(f, q % TABLE) else words[q]
    requires cleared == Strings.Splice(filled, page, seq(TABLE, _ => 0))
    ensures DecodeAll(cleared) == ClearFrom(s, page, f)
  {
  }
}
