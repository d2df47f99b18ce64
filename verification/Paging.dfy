/**
 * The memory manager of kernel/arch/i686/mem.c on values: which page frames are in
 * use, the page directory, and the page tables as seen through the self-mapping
 * directory entry (entry `p` describes virtual page `p`). This is 32-bit paging,
 * section 4.3 of the Intel SDM, Volume 3A.
 */
module Paging {
  import opened FrameBitmap
  import opened Machine

  const TABLE := 1024
  const DIRECTORY_FLAGS := 7
  /** Pages from 0xffc00000 on are the page tables themselves. */
  const LIMIT := 0xffc00

  /** A directory or table entry: bits 31..12 name a frame, the rest are flags. */
  datatype Entry = Entry(frame: nat, flags: nat)

  function Decode(word: u32): Entry {
    Entry(word / PAGE_SIZE, word % PAGE_SIZE)
  }

  lemma DecodePresent(word: u32)
    ensures Present(Decode(word)) <==> word % 2 == 1
  {
  }

  /** A table of words, entry by entry. */
  function DecodeAll(words: seq<u32>): (r: seq<Entry>)
    ensures |r| == |words| && forall i :: 0 <= i < |words| ==> r[i] == Decode(words[i])
  {
    seq(|words|, i requires 0 <= i < |words| => Decode(words[i]))
  }

  /** The all-zero entry. */
  const NOTHING := Entry(0, 0)

  predicate Present(e: Entry) { e.flags % 2 == 1 }

  /**
   * `stale(f, i)` is the word at index `i` of frame `f` before the manager hands the
   * frame out. Nothing is known about it.
   */
  datatype State = State(
    dir: seq<Entry>,
    tables: seq<Entry>,
    used: set<nat>,
    lo: nat,
    hi: nat,
    stale: (nat, nat) -> u32)
  {
    ghost predicate Valid() {
      && |dir| == TABLE
      && |tables| == TABLE * TABLE
      && hi <= FRAMES
    }

    predicate HasTable(p: nat)
      requires |dir| == TABLE && p < TABLE * TABLE
    {
      Present(dir[p / TABLE])
    }

    predicate Mapped(p: nat)
      requires |dir| == TABLE && |tables| == TABLE * TABLE && p < TABLE * TABLE
    {
      HasTable(p) && Present(tables[p])
    }

    /** What the processor does with virtual address `v`. */
    function Translate(v: u32): Option<nat>
      requires |dir| == TABLE && |tables| == TABLE * TABLE
    {
      if Mapped(v / PAGE_SIZE)
      then Some(PAGE_SIZE * tables[v / PAGE_SIZE].frame + v % PAGE_SIZE)
      else None
    }

    /** The R/W bit of the directory entry: pages of this table may be written to. */
    predicate WritableTable(p: nat)
      requires |dir| == TABLE && p < TABLE * TABLE
    {
      dir[p / TABLE].flags / 2 % 2 == 1
    }

    /** The processor lets the kernel write to the page: it is mapped, with the R/W bit in both entries. */
    predicate Writable(p: nat)
      requires |dir| == TABLE && |tables| == TABLE * TABLE && p < TABLE * TABLE
    {
      Mapped(p) && WritableTable(p) && tables[p].flags / 2 % 2 == 1
    }

    /** The frame a mapped page translates to. */
    function FrameOf(p: nat): nat
      requires |tables| == TABLE * TABLE && p < TABLE * TABLE
    {
      tables[p].frame
    }

    /** The frame that holds the page table of page `p`. */
    function TableFrame(p: nat): nat
      requires |dir| == TABLE && p < TABLE * TABLE
    {
      dir[p / TABLE].frame
    }

    /** The frames `alloc_phys` can still hand out. */
    ghost function Free(): set<nat> {
      set f | lo <= f < hi && f !in used
    }
  }

  // ---------------------------------------------------------------- frames

  /** The first frame from `f` on that is not in use, or `end`. */
  function NextFree(used: set<nat>, f: nat, end: nat): (r: nat)
    ensures f <= end ==> f <= r <= end
    ensures forall g :: f <= g < r ==> g in used
    ensures r < end ==> r !in used
    decreases end - f
  {
    if f >= end || f !in used then f else NextFree(used, f + 1, end)
  }

  /** The lowest free frame inside the bounds. */
  function LowestFree(s: State): (r: Option<nat>)
    ensures r.Some? ==> r.value in s.Free() && forall f :: f in s.Free() ==> r.value <= f
    ensures r.None? ==> s.Free() == {}
  {
    var f := NextFree(s.used, s.lo, s.hi);
    if f < s.hi then Some(f) else None
  }

  /** `alloc_phys` does not look past the end of the bitmap. */
  predicate ScanStaysInside(s: State) {
    LowestFree(s).Some? ==> LowestFree(s).value < FRAMES
  }

  /** Whatever the bitmap holds: exactly when the bounds end in it or leave nothing to look at. */
  lemma ScanStaysInsideExactlyWhen(s: State)
    ensures (forall used: set<nat> :: used <= FrameRange(0, FRAMES) ==> ScanStaysInside(s.(used := used)))
            <==> s.hi <= FRAMES || s.hi <= s.lo
  {
    if s.hi > FRAMES && s.hi > s.lo {
      var t := s.(used := FrameRange(0, FRAMES));
      assert s.hi - 1 in t.Free();
      assert !ScanStaysInside(t);
    }
  }

  function Take(s: State, f: nat): State {
    s.(used := s.used + {f})
  }

  lemma TakeShrinksFree(s: State, f: nat)
    requires f in s.Free()
    ensures Take(s, f).Free() == s.Free() - {f}
    ensures |Take(s, f).Free()| == |s.Free()| - 1
  {
  }

  // The callers of the frame allocator, in any order: `alloc_phys`, and `mem_set_used` for one frame.
  datatype FrameOp = Grab | Reserve(frame: nat)

  /** The state after a run, and the frames its successful `Grab`s returned, in order. */
  ghost function FrameRun(s: State, ops: seq<FrameOp>): (State, seq<nat>)
  {
    if ops == [] then (s, [])
    else
      var (t, out) := FrameRun(s, ops[..|ops| - 1]);
      match ops[|ops| - 1]
      case Reserve(f) => (Take(t, f), out)
      case Grab =>
        match LowestFree(t)
        case None => (t, out)
        case Some(f) => (Take(t, f), out + [f])
  }

  ghost predicate Increasing(fs: seq<nat>) {
    forall i, j :: 0 <= i < j < |fs| ==> fs[i] < fs[j]
  }

  function Grabs(ops: seq<FrameOp>): nat {
    if ops == [] then 0 else Grabs(ops[..|ops| - 1]) + if ops[|ops| - 1].Grab? then 1 else 0
  }

  /**
   * Over every run the frames handed out strictly increase and were free at the start;
   * they and the reserved frames are all that is marked; and once a request has failed,
   * every frame in bounds is in use.
   */
  lemma {:induction false} FramesAreHandedOutInOrder(s: State, ops: seq<FrameOp>)
    ensures var (t, out) := FrameRun(s, ops);
            && t.lo == s.lo && t.hi == s.hi
            && Increasing(out)
            && (forall f :: f in out ==> f in s.Free())
            && (forall f :: f in t.used <==> f in s.used || f in out || Reserve(f) in ops)
            && (forall f, i :: 0 <= i < |out| && t.lo <= f <= out[i] ==> f in t.used)
            && |out| <= Grabs(ops)
            && (|out| < Grabs(ops) ==> t.Free() == {})
  {
    if ops != [] {
      var init, op := ops[..|ops| - 1], ops[|ops| - 1];
      FramesAreHandedOutInOrder(s, init);
      assert ops == init + [op];
      var (t, out) := FrameRun(s, init);
      if op.Grab? && LowestFree(t).Some? {
        var f := LowestFree(t).value;
        assert forall g :: t.lo <= g < f ==> g in t.used by {
          assert forall g :: t.lo <= g < f ==> g !in t.Free();
        }
        assert forall g :: g in out ==> g in t.used && g < f;
        assert forall i :: 0 <= i < |out| ==> out[i] in out;
      }
    }
  }

  // ---------------------------------------------------------------- searching

  /**
   * The search over pages [p, end): the first used page, unless the scan meets a page
   * without a page table first. The skip over such a page overshoots the whole
   * address space, so it ends the search.
   */
  function Scan(s: State, p: nat, end: nat): (r: Option<nat>)
    requires s.Valid() && end <= LIMIT
    ensures r.Some? ==> p <= r.value < end && s.Mapped(r.value)
    ensures r.Some? ==> forall q :: p <= q <= r.value ==> s.HasTable(q)
    ensures r.Some? ==> forall q :: p <= q < r.value ==> !s.Mapped(q)
    ensures r.None? ==> forall q :: p <= q < end && s.Mapped(q) ==> exists a :: p <= a < q && !s.HasTable(a)
    decreases end - p
  {
    if p >= end || !s.HasTable(p) then None
    else if s.Mapped(p) then Some(p)
    else Scan(s, p + 1, end)
  }

  /** No page of the window is reported as used. */
  predicate ScansFree(s: State, w: nat, n: nat)
    requires s.Valid() && w + n <= LIMIT
  {
    Scan(s, w, w + n).None?
  }

  /** No page of the window is used. */
  ghost predicate IsFree(s: State, w: nat, n: nat)
    requires s.Valid() && w + n <= LIMIT
  {
    forall q :: w <= q < w + n ==> !s.Mapped(q)
  }

  /** The same directory with other page table entries. */
  ghost function WithTables(s: State, ts: seq<Entry>): State {
    s.(tables := ts)
  }

  /** No page of the window that has a table comes behind one that has none. */
  ghost predicate TablesComeFirst(s: State, w: nat, n: nat)
    requires s.Valid() && w + n <= LIMIT
  {
    forall a, q :: w <= a < q < w + n && s.HasTable(q) ==> s.HasTable(a)
  }

  /** Which pages have a table, and what follows from it alone, depends on the directory only. */
  lemma SameDirectory(s: State, t: State)
    requires s.Valid() && t.Valid() && t.dir == s.dir
    ensures forall b :: 0 <= b < TABLE * TABLE ==> (t.HasTable(b) <==> s.HasTable(b))
  {
  }

  /** Going up from page `w`, a used page of the window is met before a page without a table. */
  ghost predicate MeetsUsed(s: State, w: nat, n: nat)
    requires s.Valid() && w + n <= LIMIT
  {
    exists q :: w <= q < w + n && s.Mapped(q) && forall a :: w <= a < q ==> s.HasTable(a)
  }

  lemma ScansFreeExactlyWhen(s: State, w: nat, n: nat)
    requires s.Valid() && w + n <= LIMIT
    ensures ScansFree(s, w, n) <==> !MeetsUsed(s, w, n)
  {
    var r := Scan(s, w, w + n);
    if r.Some? {
      assert s.Mapped(r.value);
    }
  }

  lemma ScanIsRight(s: State, w: nat, n: nat)
    requires s.Valid() && w + n <= LIMIT
    ensures IsFree(s, w, n) ==> ScansFree(s, w, n)
    ensures TablesComeFirst(s, w, n) && ScansFree(s, w, n) ==> IsFree(s, w, n)
  {
  }

  /** Whatever the tables hold, the scan tells the truth about a window exactly when its tables come first. */
  lemma ScanIsRightExactlyWhen(s: State, w: nat, n: nat)
    requires s.Valid() && w + n <= LIMIT
    ensures (forall ts: seq<Entry> :: |ts| == TABLE * TABLE ==>
               (ScansFree(WithTables(s, ts), w, n) <==> IsFree(WithTables(s, ts), w, n)))
            <==> TablesComeFirst(s, w, n)
  {
    if TablesComeFirst(s, w, n) {
      forall ts: seq<Entry> | |ts| == TABLE * TABLE
        ensures ScansFree(WithTables(s, ts), w, n) <==> IsFree(WithTables(s, ts), w, n)
      {
        SameDirectory(s, WithTables(s, ts));
        assert TablesComeFirst(WithTables(s, ts), w, n);
        ScanIsRight(WithTables(s, ts), w, n);
      }
    } else {
      var a, q :| w <= a < q < w + n && s.HasTable(q) && !s.HasTable(a);
      var ts := OnlyUsed(w, w, q);
      var t := WithTables(s, ts);
      assert t.Mapped(q) && !t.HasTable(a);
    }
  }

  /** Tables in which pages [p, w) and page `q` are in use, if they have a table, and no others. */
  ghost function OnlyUsed(p: nat, w: nat, q: nat): (ts: seq<Entry>)
    ensures |ts| == TABLE * TABLE
  {
    seq(TABLE * TABLE, i => if p <= i < w || i == q then Entry(0, 1) else NOTHING)
  }

  /** The search loop of `mem_map`: after a used page, try the window that starts behind it. */
  function FindWindow(s: State, p: nat, n: nat): (r: Option<nat>)
    requires s.Valid()
    decreases LIMIT - p
  {
    if p + n > LIMIT then None
    else
      match Scan(s, p, p + n)
      case None => Some(p)
      case Some(q) => FindWindow(s, q + 1, n)
  }

  /** The search as a loop: it can start only at a window in range, goes on behind a used page, and ends at none. */
  lemma SearchStarts(s: State, p: nat, n: nat)
    requires s.Valid() && FindWindow(s, p, n).Some?
    ensures p + n <= LIMIT
  {
  }

  lemma SearchGoesOn(s: State, p: nat, n: nat)
    requires s.Valid() && p + n <= LIMIT && Scan(s, p, p + n).Some? && FindWindow(s, p, n).Some?
    ensures FindWindow(s, Scan(s, p, p + n).value + 1, n) == FindWindow(s, p, n)
    ensures p < Scan(s, p, p + n).value + 1 && Scan(s, p, p + n).value + 1 + n <= LIMIT
  {
  }

  lemma SearchEnds(s: State, p: nat, n: nat)
    requires s.Valid() && p + n <= LIMIT && Scan(s, p, p + n).None?
    ensures FindWindow(s, p, n) == Some(p)
  {
  }

  /** Jumping behind the used page never skips a window that would have been accepted. */
  lemma {:induction false} FindWindowIsLowest(s: State, p: nat, n: nat)
    requires s.Valid()
    ensures var r := FindWindow(s, p, n);
            && (r.Some? ==>
                  && p <= r.value && r.value + n <= LIMIT && ScansFree(s, r.value, n)
                  && forall w :: p <= w < r.value ==> !ScansFree(s, w, n))
            && (r.None? ==> forall w :: p <= w && w + n <= LIMIT ==> !ScansFree(s, w, n))
    decreases LIMIT - p
  {
    if p + n <= LIMIT {
      var hit := Scan(s, p, p + n);
      if hit.Some? {
        FindWindowIsLowest(s, hit.value + 1, n);
        forall w | p <= w <= hit.value && w + n <= LIMIT
          ensures !ScansFree(s, w, n)
        {
          assert s.Mapped(hit.value);
        }
      }
    }
  }

  /** With a page table for every page below `e`, the window found below `e` is the lowest one that is free. */
  lemma WithAllTablesTheLowestFreeWindow(s: State, p: nat, n: nat, e: nat)
    requires s.Valid() && p <= e <= LIMIT
    requires forall q :: p <= q < e ==> s.HasTable(q)
    ensures var r := FindWindow(s, p, n);
            && (r.Some? && r.value + n <= e ==>
                  && p <= r.value && IsFree(s, r.value, n)
                  && forall w :: p <= w < r.value ==> !IsFree(s, w, n))
            && (forall w :: p <= w && w + n <= e && IsFree(s, w, n) ==> r.Some? && r.value <= w)
  {
    FindWindowIsLowest(s, p, n);
    forall w | p <= w && w + n <= LIMIT
      ensures IsFree(s, w, n) ==> ScansFree(s, w, n)
      ensures w + n <= e && ScansFree(s, w, n) ==> IsFree(s, w, n)
    {
      ScanIsRight(s, w, n);
    }
  }

  /** The first page from `p` on without a page table. */
  ghost predicate IsFirstGap(s: State, p: nat, a: nat)
    requires s.Valid() && a < LIMIT
  {
    p <= a && !s.HasTable(a) && forall b :: p <= b < a ==> s.HasTable(b)
  }

  /** No page that a window of `n` pages can hold together with the first page without a table has one. */
  ghost predicate NothingBehindTheGap(s: State, p: nat, n: nat)
    requires s.Valid()
  {
    p + n <= LIMIT ==> forall a, q :: p <= a < q < LIMIT && q < a + n && IsFirstGap(s, p, a) ==> !s.HasTable(q)
  }

  lemma SameGap(s: State, t: State, p: nat, n: nat)
    requires s.Valid() && t.Valid() && t.dir == s.dir
    ensures forall a :: 0 <= a < LIMIT ==> (IsFirstGap(t, p, a) <==> IsFirstGap(s, p, a))
    ensures NothingBehindTheGap(t, p, n) <==> NothingBehindTheGap(s, p, n)
  {
    SameDirectory(s, t);
    forall a | 0 <= a < LIMIT ensures IsFirstGap(t, p, a) <==> IsFirstGap(s, p, a) {
      assert forall b :: p <= b < a ==> (t.HasTable(b) <==> s.HasTable(b));
    }
    forall q | 0 <= q < LIMIT ensures t.HasTable(q) <==> s.HasTable(q) {
    }
  }

  /** The search goes on only past pages with a table. */
  lemma {:induction false} SearchStaysBeforeTheGap(s: State, p: nat, n: nat)
    requires s.Valid() && FindWindow(s, p, n).Some?
    ensures forall b :: p <= b < FindWindow(s, p, n).value && b < LIMIT ==> s.HasTable(b)
    ensures p <= FindWindow(s, p, n).value && FindWindow(s, p, n).value + n <= LIMIT
    decreases LIMIT - p
  {
    var hit := Scan(s, p, p + n);
    if hit.Some? {
      SearchStaysBeforeTheGap(s, hit.value + 1, n);
    }
  }

  /** The first page without a table in a range that has one. */
  lemma FirstGap(s: State, p: nat, a: nat) returns (g: nat)
    requires s.Valid() && p <= a < LIMIT && !s.HasTable(a)
    ensures p <= g <= a && IsFirstGap(s, p, g)
  {
    g := p;
    while s.HasTable(g)
      invariant p <= g <= a && forall b :: p <= b < g ==> s.HasTable(b)
      decreases a - g
    {
      g := g + 1;
    }
  }

  lemma SearchIsRight(s: State, p: nat, n: nat)
    requires s.Valid() && NothingBehindTheGap(s, p, n) && FindWindow(s, p, n).Some?
    ensures var w := FindWindow(s, p, n).value; w + n <= LIMIT && IsFree(s, w, n)
  {
    SearchStaysBeforeTheGap(s, p, n);
    FindWindowIsLowest(s, p, n);
    var w := FindWindow(s, p, n).value;
    if q :| w <= q < w + n && s.Mapped(q) {
      var a :| w <= a < q && !s.HasTable(a);
      var g := FirstGap(s, p, a);
      assert false;
    }
  }

  /** Used pages one behind the other push the search on, up to a window that hides a used page. */
  lemma {:induction false} SearchIsMisled(s: State, p: nat, n: nat, w: nat, a: nat, q: nat)
    requires s.Valid() && p <= w <= a < q < w + n <= LIMIT && IsFirstGap(s, p, a)
    requires forall i :: w <= i < w + n ==> (s.Mapped(i) <==> i == q)
    requires forall i :: p <= i < w ==> s.Mapped(i)
    ensures FindWindow(s, p, n) == Some(w) && !IsFree(s, w, n)
    decreases w - p
  {
    if p < w {
      assert Scan(s, p, p + n) == Some(p);
      SearchIsMisled(s, p + 1, n, w, a, q);
    } else {
      assert s.Mapped(q);
      assert Scan(s, w, w + n) == None;
    }
  }

  /** A window that the search can be led to, with the page it hides. */
  lemma MisledWindow(s: State, p: nat, n: nat) returns (w: nat, a: nat, q: nat)
    requires s.Valid() && !NothingBehindTheGap(s, p, n)
    ensures p <= w <= a < q < w + n <= LIMIT && IsFirstGap(s, p, a) && s.HasTable(q)
    ensures var t := WithTables(s, OnlyUsed(p, w, q));
            FindWindow(t, p, n) == Some(w) && !IsFree(t, w, n)
  {
    a, q :| p <= a < q < LIMIT && q < a + n && IsFirstGap(s, p, a) && s.HasTable(q);
    w := if q + 1 <= p + n then p else q + 1 - n;
    var t := WithTables(s, OnlyUsed(p, w, q));
    SameGap(s, t, p, n);
    assert t.Mapped(q);
    SearchIsMisled(t, p, n, w, a, q);
  }

  /** Whatever the tables hold, the search finds free windows only, exactly when nothing lies behind the gap. */
  lemma SearchIsRightExactlyWhen(s: State, p: nat, n: nat)
    requires s.Valid()
    ensures (forall ts: seq<Entry> :: |ts| == TABLE * TABLE ==> FindsFree(WithTables(s, ts), p, n))
            <==> NothingBehindTheGap(s, p, n)
  {
    if NothingBehindTheGap(s, p, n) {
      forall ts: seq<Entry> | |ts| == TABLE * TABLE ensures FindsFree(WithTables(s, ts), p, n) {
        var t := WithTables(s, ts);
        if FindWindow(t, p, n).Some? {
          SameGap(s, t, p, n);
          SearchIsRight(t, p, n);
        }
      }
    } else {
      var w, a, q := MisledWindow(s, p, n);
      assert !FindsFree(WithTables(s, OnlyUsed(p, w, q)), p, n);
    }
  }

  /** A window that is found is free. */
  ghost predicate FindsFree(s: State, p: nat, n: nat)
    requires s.Valid()
  {
    var r := FindWindow(s, p, n);
    r.Some? ==> r.value + n <= LIMIT && IsFree(s, r.value, n)
  }

  /** A used page behind a missing page table is overlooked: the window is reported free, and is not. */
  lemma HiddenPageIsOverlooked(stale: (nat, nat) -> u32)
    ensures var dir := seq(TABLE, d => if d == 1 then Entry(0, 7) else NOTHING);
            var s := State(dir, seq(TABLE * TABLE, _ => Entry(0, 3)), {}, 0, 0, stale);
            s.Valid() && ScansFree(s, 1023, 2) && s.Mapped(1024)
  {
  }

  // ---------------------------------------------------------------- mapping

  /**
   * One round of the mapping loop of `mem_map`. A missing page table is taken from the
   * frame allocator, and then 1024 entries are cleared starting at the entry of page `p`
   * itself, not at the start of the table. None stands for behaviour outside the
   * model: no frame left for the table, or a page fault while clearing.
   */
  function MapPage(s: State, p: nat, frame: nat, flags: nat): (r: Option<State>)
    requires s.Valid() && p < LIMIT
    ensures r.Some? ==> r.value.Valid()
  {
    if s.HasTable(p) then
      Some(s.(tables := s.tables[p := Entry(frame, flags)]))
    else
      match LowestFree(s)
      case None => None
      case Some(f) =>
        if ClearingFaults(s, p) then None
        else
          var dir' := s.dir[p / TABLE := Entry(f, DIRECTORY_FLAGS)];
          var cleared := ClearFrom(s, p, f);
          Some(Take(s, f).(dir := dir', tables := cleared[p := Entry(frame, flags)]))
  }

  /** Clearing runs past the new table into the next one, which has to be there. */
  predicate ClearingFaults(s: State, p: nat)
    requires s.Valid() && p < LIMIT
  {
    p % TABLE != 0 && (p + TABLE >= LIMIT || !s.HasTable(p + TABLE))
  }

  /** The entries after frame `f` became the table of page `p` and 1024 of them were cleared. */
  function ClearFrom(s: State, p: nat, f: nat): (r: seq<Entry>)
    requires s.Valid() && p < LIMIT
    ensures |r| == TABLE * TABLE
  {
    seq(TABLE * TABLE, i requires 0 <= i < TABLE * TABLE =>
      if p <= i < p + TABLE then NOTHING
      else if i / TABLE == p / TABLE then Decode(s.stale(f, i % TABLE))
      else s.tables[i])
  }

  /** What one round does to the directory and to each entry. */
  lemma MapPageEffect(s: State, p: nat, frame: nat, flags: nat)
    requires s.Valid() && p < LIMIT
    requires MapPage(s, p, frame, flags).Some?
    ensures var t := MapPage(s, p, frame, flags).value;
            && (forall q :: 0 <= q < TABLE * TABLE ==> (t.HasTable(q) <==> s.HasTable(q) || q / TABLE == p / TABLE))
            && (forall q :: 0 <= q < TABLE * TABLE && q / TABLE != p / TABLE ==> t.TableFrame(q) == s.TableFrame(q))
            && t.tables[p] == Entry(frame, flags)
            && (s.HasTable(p) ==> t == s.(tables := s.tables[p := Entry(frame, flags)]))
            && (!s.HasTable(p) ==> forall q :: 0 <= q < TABLE * TABLE && q != p ==>
                  t.tables[q] == if p <= q < p + TABLE then NOTHING
                                 else if q / TABLE == p / TABLE then Decode(s.stale(t.TableFrame(p), q % TABLE))
                                 else s.tables[q])
            && (!s.HasTable(p) ==> t.TableFrame(p) in s.Free() && t.used == s.used + {t.TableFrame(p)})
            && (!s.HasTable(p) ==> t.lo == s.lo && t.hi == s.hi)
  {
  }

  /** `phys += PAGE_SIZE`, in frames; the address wraps at 32 bits. */
  function NextFrame(frame: nat): nat {
    if frame + 1 == TABLE * TABLE then 0 else frame + 1
  }

  /** The frame of the `i`-th page of a range. */
  function FrameAt(frame: nat, i: nat): (r: nat)
    ensures frame < TABLE * TABLE ==> r < TABLE * TABLE
    ensures frame + i < TABLE * TABLE ==> r == frame + i
  {
    if i == 0 then frame else NextFrame(FrameAt(frame, i - 1))
  }

  /** The mapping loop of `mem_map` after `n` rounds from page `w`. */
  function MapPages(s: State, w: nat, n: nat, frame: nat, flags: nat): (r: Option<State>)
    requires s.Valid() && w + n <= LIMIT
    ensures r.Some? ==> r.value.Valid()
  {
    if n == 0 then Some(s)
    else
      match MapPages(s, w, n - 1, frame, flags)
      case None => None
      case Some(t) => MapPage(t, w + n - 1, FrameAt(frame, n - 1), flags)
  }

  /** `mem_map`: the state it leaves and the pointer it returns. */
  function MapRegion(s: State, virtMin: u32, n: u32, phys: u32, flags: nat): (r: Option<(State, u32)>)
    requires s.Valid()
    ensures r.Some? ==> r.value.0.Valid()
  {
    if phys % PAGE_SIZE != 0 || virtMin / PAGE_SIZE + n >= TWO32 then Some((s, 0))
    else
      FindWindowIsLowest(s, virtMin / PAGE_SIZE, n);
      match FindWindow(s, virtMin / PAGE_SIZE, n)
      case None => None
      case Some(w) =>
        match MapPages(s, w, n, phys / PAGE_SIZE, flags)
        case None => None
        case Some(t) => Some((t, PAGE_SIZE * w))
  }

  lemma {:induction false} FrameAtWraps(frame: nat, i: nat)
    requires frame < 0x10_0000
    ensures FrameAt(frame, i) == (frame + i) % 0x10_0000
  {
    if i > 0 {
      FrameAtWraps(frame, i - 1);
    }
  }

  /** Every page of the window has a table, and is mapped to the next frame from `frame` on, at 32 bits. */
  ghost predicate IsMappedTo(t: State, w: nat, n: nat, frame: nat, flags: nat)
    requires t.Valid() && w + n <= LIMIT
  {
    forall q :: w <= q < w + n ==> t.HasTable(q) && t.tables[q] == Entry((frame + q - w) % 0x10_0000, flags)
  }

  lemma MapPagesMapsInOrder(s: State, w: nat, n: nat, frame: nat, flags: nat)
    requires s.Valid() && w + n <= LIMIT && frame < 0x10_0000 && MapPages(s, w, n, frame, flags).Some?
    ensures IsMappedTo(MapPages(s, w, n, frame, flags).value, w, n, frame, flags)
  {
    MapPagesMapsTheWindow(s, w, n, frame, flags);
    hide MapPages, FrameAt;
    var t := MapPages(s, w, n, frame, flags).value;
    forall q | w <= q < w + n
      ensures t.HasTable(q) && t.tables[q] == Entry((frame + q - w) % 0x10_0000, flags)
    {
      FrameAtWraps(frame, q - w);
      assert t.tables[w + (q - w)] == Entry(FrameAt(frame, q - w), flags);
    }
  }

  /** The window behind a result that is no error. */
  lemma WindowOf(s: State, virtMin: u32, n: u32, phys: u32, flags: nat) returns (w: nat, t: State)
    requires s.Valid() && MapRegion(s, virtMin, n, phys, flags).Some?
    requires phys % PAGE_SIZE == 0 && virtMin / PAGE_SIZE + n < TWO32
    ensures t.Valid() && FindWindow(s, virtMin / PAGE_SIZE, n) == Some(w) && w + n <= LIMIT
    ensures MapPages(s, w, n, phys / PAGE_SIZE, flags) == Some(t)
    ensures MapRegion(s, virtMin, n, phys, flags) == Some((t, PAGE_SIZE * w))
    ensures PAGE_SIZE * w / 4096 == w && PAGE_SIZE * w % 4096 == 0
  {
    FindWindowIsLowest(s, virtMin / PAGE_SIZE, n);
    w := FindWindow(s, virtMin / PAGE_SIZE, n).value;
    t := MapPages(s, w, n, phys / PAGE_SIZE, flags).value;
  }

  /**
   * `mem_map` in full: null for an address inside a page or a window that ends past 4 GiB; else the
   * lowest window from `virtMin` on in which no used page is met, and its pages are mapped in order.
   */
  lemma MemMapMaps(s: State, virtMin: u32, n: u32, phys: u32, flags: nat)
    requires s.Valid() && MapRegion(s, virtMin, n, phys, flags).Some?
    ensures var (t, virt) := MapRegion(s, virtMin, n, phys, flags).value;
            if phys % 4096 != 0 || virtMin / 4096 + n >= 0x1_0000_0000 then t == s && virt == 0
            else
              var p, w := virtMin / 4096, virt / 4096;
              && virt % 4096 == 0 && p <= w && w + n <= LIMIT && !MeetsUsed(s, w, n)
              && (forall v :: p <= v < w ==> MeetsUsed(s, v, n))
              && IsMappedTo(t, w, n, phys / 4096, flags)
  {
    hide MapRegion, MapPages, FindWindow, MeetsUsed, IsMappedTo, State.Valid;
    if phys % 4096 != 0 || virtMin / 4096 + n >= 0x1_0000_0000 {
      MemMapRefuses(s, virtMin, n, phys, flags);
    } else {
      var w, t := WindowOf(s, virtMin, n, phys, flags);
      LowestWindow(s, virtMin / 4096, n, w);
      MapPagesMapsInOrder(s, w, n, phys / 4096, flags);
    }
  }

  lemma MemMapRefuses(s: State, virtMin: u32, n: u32, phys: u32, flags: nat)
    requires s.Valid() && (phys % 4096 != 0 || virtMin / 4096 + n >= 0x1_0000_0000)
    ensures MapRegion(s, virtMin, n, phys, flags) == Some((s, 0))
  {
  }

  lemma LowestWindow(s: State, p: nat, n: nat, w: nat)
    requires s.Valid() && FindWindow(s, p, n) == Some(w)
    ensures p <= w && w + n <= LIMIT && !MeetsUsed(s, w, n) && forall v :: p <= v < w ==> MeetsUsed(s, v, n)
  {
    FindWindowIsLowest(s, p, n);
    hide FindWindow, MeetsUsed, ScansFree;
    ScansFreeExactlyWhen(s, w, n);
    forall v | p <= v < w ensures MeetsUsed(s, v, n) {
      ScansFreeExactlyWhen(s, v, n);
    }
  }

  /** The first page of the window does not start in the middle of a missing table. */
  predicate StartsClean(s: State, w: nat)
    requires s.Valid() && w <= LIMIT
  {
    s.HasTable(w) || w % TABLE == 0
  }

  /** Page tables that mapping pages [w, w + n) adds. */
  function NewTables(s: State, w: nat, n: nat): nat
    requires s.Valid() && w + n <= LIMIT
  {
    if n == 0 then 0
    else NewTables(s, w, n - 1) +
         if !s.HasTable(w + n - 1) && (n == 1 || (w + n - 1) % TABLE == 0) then 1 else 0
  }

  /** Afterwards page `q` has a table if it had one or lies in a table of the window. */
  predicate TableExpected(s: State, w: nat, n: nat, q: nat)
    requires s.Valid() && q < TABLE * TABLE
  {
    s.HasTable(q) || (n > 0 && w / TABLE <= q / TABLE <= (w + n - 1) / TABLE)
  }

  /** Every page of the window translates to its own piece of the physical range. */
  lemma {:induction false} MapPagesMapsTheWindow(s: State, w: nat, n: nat, frame: nat, flags: nat)
    requires s.Valid() && w + n <= LIMIT
    requires MapPages(s, w, n, frame, flags).Some?
    ensures var t := MapPages(s, w, n, frame, flags).value;
            && (forall q :: 0 <= q < TABLE * TABLE ==> (t.HasTable(q) <==> TableExpected(s, w, n, q)))
            && (forall i :: 0 <= i < n ==> t.tables[w + i] == Entry(FrameAt(frame, i), flags))
  {
    if n > 0 {
      MapPagesMapsTheWindow(s, w, n - 1, frame, flags);
      hide MapPage, FrameAt;
      var t := MapPages(s, w, n - 1, frame, flags).value;
      MapPageEffect(t, w + n - 1, FrameAt(frame, n - 1), flags);
    }
  }

  ghost predicate KeepsOthers(s: State, t: State, p: nat)
    requires s.Valid() && t.Valid()
  {
    forall q :: 0 <= q < TABLE * TABLE && q != p ==>
      (t.Mapped(q) <==> s.Mapped(q)) && (s.Mapped(q) ==> t.tables[q] == s.tables[q])
  }

  /**
   * Exactly when a page mapped first in its table leaves all other translations alone:
   * when it is the first page of the table, or when by luck the words left over in the
   * table's frame before it are not present entries and the entries lost from the
   * next table were not present either.
   */
  lemma ClearingIsHarmlessExactlyWhen(s: State, p: nat, frame: nat, flags: nat)
    requires s.Valid() && p < LIMIT
    requires MapPage(s, p, frame, flags).Some?
    ensures KeepsOthers(s, MapPage(s, p, frame, flags).value, p) <==>
            || StartsClean(s, p)
            || ((forall q :: p - p % TABLE <= q < p ==> !Present(Decode(s.stale(LowestFree(s).value, q % TABLE))))
                && (forall q :: p - p % TABLE + TABLE <= q < p + TABLE ==> !s.Mapped(q)))
  {
    MapPageEffect(s, p, frame, flags);
    var t := MapPage(s, p, frame, flags).value;
    if !StartsClean(s, p) {
      var f := LowestFree(s).value;
      assert t.TableFrame(p) == f;
      forall q | p - p % TABLE <= q < p
        ensures q / TABLE == p / TABLE && t.tables[q] == Decode(s.stale(f, q % TABLE)) && !s.Mapped(q) && t.HasTable(q)
      {
      }
      forall q | p - p % TABLE + TABLE <= q < p + TABLE
        ensures t.tables[q] == NOTHING && s.HasTable(q)
      {
        assert q / TABLE == (p + TABLE) / TABLE;
      }
    }
  }

  /** The same state with other words left over in the frames. */
  ghost function WithLeftOvers(s: State, g: (nat, nat) -> u32): State {
    s.(stale := g)
  }

  /** A page mapped from `s` leaves all other translations alone. */
  ghost predicate MapsHarmlessly(s: State, p: nat, frame: nat, flags: nat)
    requires s.Valid() && p < LIMIT
  {
    var r := MapPage(s, p, frame, flags);
    r.Some? ==> KeepsOthers(s, r.value, p)
  }

  /** Whatever the frames held: exactly when the page is not the first one mapped in the middle of its table. */
  lemma ClearingIsHarmlessForEveryContentExactlyWhen(s: State, p: nat, frame: nat, flags: nat)
    requires s.Valid() && p < LIMIT && MapPage(s, p, frame, flags).Some?
    ensures (forall g: (nat, nat) -> u32 :: MapsHarmlessly(WithLeftOvers(s, g), p, frame, flags)) <==> StartsClean(s, p)
  {
    if StartsClean(s, p) {
      forall g: (nat, nat) -> u32 ensures MapsHarmlessly(WithLeftOvers(s, g), p, frame, flags) {
        var t := WithLeftOvers(s, g);
        if MapPage(t, p, frame, flags).Some? {
          ClearingIsHarmlessExactlyWhen(t, p, frame, flags);
        }
      }
    } else {
      var g: (nat, nat) -> u32 := (f, i) => 1;
      var t := WithLeftOvers(s, g);
      var first := p - p % TABLE;
      assert MapPage(t, p, frame, flags).Some?;
      ClearingIsHarmlessExactlyWhen(t, p, frame, flags);
      assert Present(Decode(t.stale(LowestFree(t).value, first % TABLE)));
      assert !MapsHarmlessly(t, p, frame, flags);
    }
  }

  /** Page 1 mapped first in its table, in a frame full of ones: page 0 is mapped as well. */
  lemma PageBeforeIsMappedToo(dir: seq<Entry>, tables: seq<Entry>)
    requires |dir| == TABLE && |tables| == TABLE * TABLE && !Present(dir[0]) && Present(dir[1])
    ensures var s := State(dir, tables, {}, 0, 1, (f, i) => 1);
            s.Valid() && !s.Mapped(0) && MapPage(s, 1, 5, 3).Some? && MapPage(s, 1, 5, 3).value.Mapped(0)
  {
    var s := State(dir, tables, {}, 0, 1, (f, i) => 1);
    assert LowestFree(s) == Some(0);
    MapPageEffect(s, 1, 5, 3);
  }

  /** No page outside the window changes its translation, if the window starts clean. */
  lemma {:induction false} MapPagesKeepsTheRest(s: State, w: nat, n: nat, frame: nat, flags: nat)
    requires s.Valid() && w + n <= LIMIT
    requires StartsClean(s, w)
    requires MapPages(s, w, n, frame, flags).Some?
    ensures KeepsOutside(s, MapPages(s, w, n, frame, flags).value, w, n)
  {
    if n > 0 {
      LastRound(s, w, n, frame, flags);
      hide MapPages, KeepsOutside, KeepsOthers, StartsClean, MapPage, FrameAt;
      MapPagesKeepsTheRest(s, w, n - 1, frame, flags);
      StaysClean(s, w, n - 1, frame, flags);
      var t := MapPages(s, w, n - 1, frame, flags).value;
      var u := CleanPageKeepsOthers(t, w + n - 1, FrameAt(frame, n - 1), flags);
    } else {
      assert MapPages(s, w, 0, frame, flags) == Some(s);
    }
  }

  lemma CleanPageKeepsOthers(s: State, p: nat, frame: nat, flags: nat) returns (t: State)
    requires s.Valid() && p < LIMIT && StartsClean(s, p)
    requires MapPage(s, p, frame, flags).Some?
    ensures t.Valid() && MapPage(s, p, frame, flags) == Some(t) && KeepsOthers(s, t, p)
  {
    ClearingIsHarmlessExactlyWhen(s, p, frame, flags);
    t := MapPage(s, p, frame, flags).value;
  }

  ghost predicate KeepsOutside(s: State, t: State, w: nat, n: nat)
    requires s.Valid() && t.Valid()
  {
    forall q :: 0 <= q < TABLE * TABLE && !(w <= q < w + n) ==>
      (t.Mapped(q) <==> s.Mapped(q)) && (s.Mapped(q) ==> t.tables[q] == s.tables[q])
  }

  lemma LastRound(s: State, w: nat, n: nat, frame: nat, flags: nat)
    requires s.Valid() && n > 0 && w + n <= LIMIT && MapPages(s, w, n, frame, flags).Some?
    ensures MapPages(s, w, n - 1, frame, flags).Some?
    ensures MapPages(s, w, n, frame, flags)
         == MapPage(MapPages(s, w, n - 1, frame, flags).value, w + n - 1, FrameAt(frame, n - 1), flags)
  {
  }

  /** Once the window has started clean, so does every later round. */
  lemma StaysClean(s: State, w: nat, k: nat, frame: nat, flags: nat)
    requires s.Valid() && w + k < LIMIT && StartsClean(s, w)
    requires MapPages(s, w, k, frame, flags).Some?
    ensures StartsClean(MapPages(s, w, k, frame, flags).value, w + k)
  {
  }

  /** In a window that starts clean, a round needs a new table just when `NewTables` counts one. */
  lemma NewTableExactlyWhen(s: State, w: nat, n: nat)
    requires s.Valid() && 0 < n && w + n <= LIMIT && StartsClean(s, w)
    ensures var p := w + n - 1;
            && (TableExpected(s, w, n - 1, p) <==> NewTables(s, w, n) == NewTables(s, w, n - 1))
            && (!TableExpected(s, w, n - 1, p) ==> p % TABLE == 0 && NewTables(s, w, n) == NewTables(s, w, n - 1) + 1)
  {
  }

  /** One page from a clean start: mapping it takes a frame if its table is missing. */
  lemma MapPageIsDefined(s: State, p: nat, frame: nat, flags: nat)
    requires s.Valid() && p < LIMIT && (s.HasTable(p) || (p % TABLE == 0 && s.Free() != {}))
    ensures var r := MapPage(s, p, frame, flags);
            && r.Some? && s.used <= r.value.used
            && |r.value.Free()| == |s.Free()| - if s.HasTable(p) then 0 else 1
  {
    if !s.HasTable(p) {
      MapPageEffect(s, p, frame, flags);
      var f := LowestFree(s).value;
      TakeShrinksFree(s, f);
      assert MapPage(s, p, frame, flags).value.Free() == Take(s, f).Free();
    } else {
      assert MapPage(s, p, frame, flags).value.Free() == s.Free();
    }
  }

  /** With a clean start and a frame for each new table, mapping cannot fail; it takes just those frames. */
  lemma {:induction false} MapPagesIsDefined(s: State, w: nat, n: nat, frame: nat, flags: nat)
    requires s.Valid() && w + n <= LIMIT
    requires StartsClean(s, w)
    requires NewTables(s, w, n) <= |s.Free()|
    ensures var r := MapPages(s, w, n, frame, flags);
            r.Some? && s.used <= r.value.used && |r.value.Free()| == |s.Free()| - NewTables(s, w, n)
  {
    if n > 0 {
      NewTableExactlyWhen(s, w, n);
      MapPagesIsDefined(s, w, n - 1, frame, flags);
      MapPagesMapsTheWindow(s, w, n - 1, frame, flags);
      hide MapPage, FrameAt, NewTables, StartsClean, TableExpected;
      var t := MapPages(s, w, n - 1, frame, flags).value;
      var p := w + n - 1;
      assert t.HasTable(p) <==> TableExpected(s, w, n - 1, p);
      MapPageIsDefined(t, p, FrameAt(frame, n - 1), flags);
    }
  }

  /** From a clean start, mapping is carried out exactly when there is a frame for each new table. */
  lemma {:induction false} MapPagesIsDefinedExactlyWhen(s: State, w: nat, n: nat, frame: nat, flags: nat)
    requires s.Valid() && w + n <= LIMIT && StartsClean(s, w)
    ensures MapPages(s, w, n, frame, flags).Some? <==> NewTables(s, w, n) <= |s.Free()|
  {
    if NewTables(s, w, n) <= |s.Free()| {
      MapPagesIsDefined(s, w, n, frame, flags);
    } else {
      assert n > 0;
      MapPagesIsDefinedExactlyWhen(s, w, n - 1, frame, flags);
      if NewTables(s, w, n - 1) <= |s.Free()| {
        NewTableExactlyWhen(s, w, n);
        MapPagesIsDefined(s, w, n - 1, frame, flags);
        MapPagesMapsTheWindow(s, w, n - 1, frame, flags);
        hide NewTables, FrameAt, StartsClean, TableExpected;
        var t := MapPages(s, w, n - 1, frame, flags).value;
        assert !TableExpected(s, w, n - 1, w + n - 1);
        assert t.Free() == {} && !t.HasTable(w + n - 1);
        assert LowestFree(t).None?;
      }
    }
  }

  // ---------------------------------------------------------------- taking over used pages

  /** A call of `mem_map` that is carried out on a window with a used page in it. */
  ghost predicate TakesOver(s: State, virtMin: u32, n: u32, phys: u32, flags: nat)
    requires s.Valid()
  {
    && phys % PAGE_SIZE == 0 && virtMin / PAGE_SIZE + n < TWO32
    && var r := MapRegion(s, virtMin, n, phys, flags);
       r.Some? && r.value.1 / PAGE_SIZE + n <= LIMIT && !IsFree(s, r.value.1 / PAGE_SIZE, n)
  }

  /** What such a call does to the used page: its entry is overwritten. */
  lemma TakenOverPageIsRemapped(s: State, virtMin: u32, n: u32, phys: u32, flags: nat) returns (q: nat)
    requires s.Valid() && TakesOver(s, virtMin, n, phys, flags)
    ensures var (t, virt) := MapRegion(s, virtMin, n, phys, flags).value;
            && virt / PAGE_SIZE <= q < virt / PAGE_SIZE + n <= LIMIT && s.Mapped(q)
            && t.tables[q] == Entry(FrameAt(phys / PAGE_SIZE, q - virt / PAGE_SIZE), flags)
  {
    hide MapPages, FrameAt;
    var p := virtMin / PAGE_SIZE;
    FindWindowIsLowest(s, p, n);
    var w := FindWindow(s, p, n).value;
    assert MapRegion(s, virtMin, n, phys, flags).value.1 == PAGE_SIZE * w;
    MapPagesMapsTheWindow(s, w, n, phys / PAGE_SIZE, flags);
    hide MapRegion, FindWindow;
    q :| w <= q < w + n && s.Mapped(q);
  }

  /** A frame for every new table, wherever the window ends up. */
  ghost predicate HasFramesForTables(s: State, p: nat, n: nat)
    requires s.Valid()
  {
    forall w :: p <= w && w + n <= LIMIT ==> NewTables(s, w, n) <= |s.Free()|
  }

  lemma {:induction false} SameNewTables(s: State, t: State, w: nat, n: nat)
    requires s.Valid() && t.Valid() && t.dir == s.dir && w + n <= LIMIT
    ensures NewTables(t, w, n) == NewTables(s, w, n)
  {
    if n > 0 {
      SameNewTables(s, t, w, n - 1);
      assert t.HasTable(w + n - 1) <==> s.HasTable(w + n - 1);
    }
  }

  /**
   * Whatever the tables hold, `mem_map` takes over no used page, exactly when nothing lies
   * behind the first missing table within reach. Tables are to be had, and the search
   * does not start in the middle of a missing one.
   */
  lemma MemMapTakesNothingOverExactlyWhen(s: State, virtMin: u32, n: u32, phys: u32, flags: nat)
    requires s.Valid() && phys % PAGE_SIZE == 0
    requires HasFramesForTables(s, virtMin / PAGE_SIZE, n)
    requires virtMin / PAGE_SIZE <= LIMIT ==> StartsClean(s, virtMin / PAGE_SIZE)
    ensures (forall ts: seq<Entry> :: |ts| == TABLE * TABLE ==> !TakesOver(WithTables(s, ts), virtMin, n, phys, flags))
            <==> NothingBehindTheGap(s, virtMin / PAGE_SIZE, n)
  {
    var p := virtMin / PAGE_SIZE;
    if NothingBehindTheGap(s, p, n) {
      forall ts: seq<Entry> | |ts| == TABLE * TABLE ensures !TakesOver(WithTables(s, ts), virtMin, n, phys, flags) {
        SearchIsRightExactlyWhen(s, p, n);
        FoundIsNotTakenOver(WithTables(s, ts), virtMin, n, phys, flags);
      }
    } else {
      var w, a, q := MisledWindow(s, p, n);
      var t := WithTables(s, OnlyUsed(p, w, q));
      WindowBeforeTheGapStartsClean(s, p, w, a);
      SameDirectory(s, t);
      SameNewTables(s, t, w, n);
      assert t.Free() == s.Free();
      MisledCallTakesOver(t, virtMin, n, phys, flags, w);
    }
  }

  lemma FoundIsNotTakenOver(s: State, virtMin: u32, n: u32, phys: u32, flags: nat)
    requires s.Valid() && FindsFree(s, virtMin / PAGE_SIZE, n)
    ensures !TakesOver(s, virtMin, n, phys, flags)
  {
  }

  lemma WindowBeforeTheGapStartsClean(s: State, p: nat, w: nat, a: nat)
    requires s.Valid() && p <= w <= a < LIMIT && IsFirstGap(s, p, a) && StartsClean(s, p)
    ensures StartsClean(s, w)
  {
    assert w == a && p < a ==> s.HasTable(a - 1);
  }

  lemma MisledCallTakesOver(s: State, virtMin: u32, n: u32, phys: u32, flags: nat, w: nat)
    requires s.Valid() && phys % PAGE_SIZE == 0 && virtMin / PAGE_SIZE + n < TWO32
    requires w + n <= LIMIT && FindWindow(s, virtMin / PAGE_SIZE, n) == Some(w) && !IsFree(s, w, n)
    requires StartsClean(s, w) && NewTables(s, w, n) <= |s.Free()|
    ensures TakesOver(s, virtMin, n, phys, flags)
  {
    MapPagesIsDefined(s, w, n, phys / PAGE_SIZE, flags);
    assert MapRegion(s, virtMin, n, phys, flags).value.1 == PAGE_SIZE * w;
  }

  // ---------------------------------------------------------------- ranges

  /** Pages that `mem_map_range` maps. The offset of the start within its page is not counted. */
  function RangePages(start: u32, end: u32): u32
    requires start <= end
  {
    (end - start + (PAGE_SIZE - 1)) % TWO32 / PAGE_SIZE
  }

  /** Pointer arithmetic at 32 bits. */
  function Advance(ptr: u32, offset: nat): (r: u32)
    ensures ptr + offset < TWO32 ==> r == ptr + offset
  {
    (ptr + offset) % TWO32
  }

  /** `mem_map_range`. */
  function MapRange(s: State, virtMin: u32, start: u32, end: u32, flags: nat): (r: Option<(State, u32)>)
    requires s.Valid()
    ensures r.Some? ==> r.value.0.Valid()
  {
    if end < start then Some((s, 0))
    else
      match MapRegion(s, virtMin, RangePages(start, end), start - start % PAGE_SIZE, flags)
      case None => None
      case Some(result) => Some((result.0, Advance(result.1, start % PAGE_SIZE)))
  }

  /** A range that ends before it starts gives null. For one that does not fit, the offset is added to null. */
  lemma RangeErrorsAreNotAlwaysNull(s: State, virtMin: u32, start: u32, end: u32, flags: nat)
    requires s.Valid()
    ensures end < start ==> MapRange(s, virtMin, start, end, flags) == Some((s, 0))
    ensures start <= end && virtMin / 4096 + RangePages(start, end) >= 0x1_0000_0000 ==>
              MapRange(s, virtMin, start, end, flags) == Some((s, start % 4096))
  {
  }

  /** The mapped window reaches the last byte of the range. */
  predicate RangeIsCovered(start: u32, end: u32)
    requires start <= end
  {
    start % PAGE_SIZE + (end - start) <= PAGE_SIZE * RangePages(start, end)
  }

  /** The rounding does not wrap, and the offset does not push the last byte onto another page. */
  predicate OffsetFits(start: u32, end: u32)
    requires start <= end
  {
    && end - start + (PAGE_SIZE - 1) < TWO32
    && if start == end then start % PAGE_SIZE == 0
       else start % PAGE_SIZE + (end - start - 1) % PAGE_SIZE < PAGE_SIZE
  }

  /** For every range: the pages mapped reach its end exactly under that condition. */
  lemma RangeIsCoveredExactlyWhen(start: u32, end: u32)
    requires start <= end
    ensures RangeIsCovered(start, end) <==> OffsetFits(start, end)
  {
  }

  /** No page too many: without a wrap the last page has a byte of the range, and an empty range gets none. */
  lemma EveryPageIsNeeded(start: u32, end: u32)
    requires start <= end && end - start + 4095 < 0x1_0000_0000
    ensures start == end ==> RangePages(start, end) == 0
    ensures start < end ==> 4096 * (RangePages(start, end) - 1) < end - start <= 4096 * RangePages(start, end)
    ensures start < end && OffsetFits(start, end) ==>
              4096 * (RangePages(start, end) - 1) < start % 4096 + (end - start) <= 4096 * RangePages(start, end)
  {
  }

  /** An aligned start meets the condition unless the rounding wraps. */
  lemma AlignedRangeIsCovered(start: u32, end: u32)
    requires start <= end
    ensures start % PAGE_SIZE == 0 && end - start + (PAGE_SIZE - 1) < TWO32 ==> RangeIsCovered(start, end)
    ensures end - start + (PAGE_SIZE - 1) >= TWO32 ==> !RangeIsCovered(start, end)
  {
  }

  /** Two bytes on either side of a page boundary get one page. */
  lemma UnalignedRangeMayBeCutShort()
    ensures !RangeIsCovered(4095, 4097)
  {
  }

  /** Byte `k` of the range lies in the pages that are mapped for it. */
  predicate IsInside(start: u32, end: u32, k: nat)
    requires start <= end
  {
    start % PAGE_SIZE + k < PAGE_SIZE * RangePages(start, end)
  }

  /** All bytes of a range that is not empty lie inside exactly under that condition. */
  lemma EveryByteIsInsideExactlyWhen(start: u32, end: u32)
    requires start < end
    ensures (forall k :: 0 <= k < end - start ==> IsInside(start, end, k)) <==> OffsetFits(start, end)
  {
    RangeIsCoveredExactlyWhen(start, end);
    if !RangeIsCovered(start, end) {
      assert !IsInside(start, end, end - start - 1);
    }
  }

  /** Byte `k` of the range is found at offset `k` from the pointer returned, as far as the window reaches. */
  lemma MapRangeTranslates(
    s: State, virtMin: u32, start: u32, end: u32, flags: nat, k: nat, t: State, virt: u32)
    requires s.Valid() && flags % 2 == 1 && start <= end
    requires MapRange(s, virtMin, start, end, flags) == Some((t, virt))
    requires k < end - start && IsInside(start, end, k)
    ensures t.Valid() && virt + k < TWO32 && t.Translate(virt + k) == Some(start + k)
  {
    var w, t' := MapRangeResult(s, virtMin, start, end, flags);
    WindowTranslates(s, t, w, start, end, flags, k);
  }

  /** The processor finds byte `k` of a range that starts at `start` behind `virt`. */
  predicate IsFound(t: State, virt: u32, start: u32, k: nat)
    requires |t.dir| == TABLE && |t.tables| == TABLE * TABLE
  {
    virt + k < TWO32 && t.Translate(virt + k) == Some(start + k)
  }

  /** The whole range is found behind the pointer returned, if the condition holds. */
  lemma WholeRangeTranslates(s: State, virtMin: u32, start: u32, end: u32, flags: nat, t: State, virt: u32)
    requires s.Valid() && flags % 2 == 1 && start < end && OffsetFits(start, end)
    requires MapRange(s, virtMin, start, end, flags) == Some((t, virt))
    ensures t.Valid() && forall k :: 0 <= k < end - start ==> IsFound(t, virt, start, k)
  {
    EveryByteIsInsideExactlyWhen(start, end);
    hide MapRange, OffsetFits, IsInside;
    assert t.Valid();
    forall k | 0 <= k < end - start ensures IsFound(t, virt, start, k) {
      assert IsInside(start, end, k);
      MapRangeTranslates(s, virtMin, start, end, flags, k, t, virt);
    }
  }

  lemma WindowTranslates(s: State, t: State, w: nat, start: u32, end: u32, flags: nat, k: nat)
    requires s.Valid() && t.Valid() && flags % 2 == 1 && start <= end && w + RangePages(start, end) <= LIMIT
    requires MapPages(s, w, RangePages(start, end), start / PAGE_SIZE, flags) == Some(t)
    requires k < end - start && start % PAGE_SIZE + k < PAGE_SIZE * RangePages(start, end)
    ensures var virt := PAGE_SIZE * w + start % PAGE_SIZE + k;
            virt < TWO32 && t.Translate(virt) == Some(start + k)
  {
    var off, frame := start % PAGE_SIZE, start / PAGE_SIZE;
    var i, rest := (off + k) / PAGE_SIZE, (off + k) % PAGE_SIZE;
    FrameInRange(start, end, k);
    MapsToFrame(s, t, w, RangePages(start, end), frame, flags, i);
    TranslateAt(t, w + i, frame + i, rest, PAGE_SIZE * w + off + k, start + k);
  }

  lemma MapsToFrame(s: State, t: State, w: nat, n: nat, frame: nat, flags: nat, i: nat)
    requires s.Valid() && t.Valid() && w + n <= LIMIT && i < n && flags % 2 == 1
    requires MapPages(s, w, n, frame, flags) == Some(t)
    ensures t.Mapped(w + i) && t.tables[w + i].frame == FrameAt(frame, i)
  {
    MapPagesMapsTheWindow(s, w, n, frame, flags);
    assert t.tables[w + i] == Entry(FrameAt(frame, i), flags);
  }

  /** The window and the state behind a result of `mem_map_range`. */
  lemma MapRangeResult(s: State, virtMin: u32, start: u32, end: u32, flags: nat) returns (w: nat, t: State)
    requires s.Valid() && start <= end
    requires MapRange(s, virtMin, start, end, flags).Some?
    ensures t.Valid() && w + RangePages(start, end) <= LIMIT
    ensures MapPages(s, w, RangePages(start, end), start / PAGE_SIZE, flags) == Some(t)
    ensures MapRange(s, virtMin, start, end, flags) == Some((t, PAGE_SIZE * w + start % PAGE_SIZE))
  {
    var n, phys := RangePages(start, end), start - start % PAGE_SIZE;
    assert phys / PAGE_SIZE == start / PAGE_SIZE && phys % PAGE_SIZE == 0;
    assert virtMin / PAGE_SIZE + n < TWO32;
    w, t := WindowOf(s, virtMin, n, phys, flags);
    assert Advance(PAGE_SIZE * w, start % PAGE_SIZE) == PAGE_SIZE * w + start % PAGE_SIZE;
  }

  lemma FrameInRange(start: u32, end: u32, k: nat)
    requires start <= end && k < end - start && start % PAGE_SIZE + k < PAGE_SIZE * RangePages(start, end)
    ensures var i := (start % PAGE_SIZE + k) / PAGE_SIZE;
            i < RangePages(start, end) && FrameAt(start / PAGE_SIZE, i) == start / PAGE_SIZE + i
  {
  }

  /** A byte `rest` bytes past the start of a mapped page. */
  lemma TranslateAt(t: State, p: nat, frame: nat, rest: nat, virt: nat, phys: nat)
    requires t.Valid() && p < LIMIT && rest < PAGE_SIZE
    requires t.Mapped(p) && t.tables[p].frame == frame
    requires virt == PAGE_SIZE * p + rest && phys == PAGE_SIZE * frame + rest
    ensures virt < TWO32 && t.Translate(virt) == Some(phys)
  {
  }

  // ---------------------------------------------------------------- allocating

  /**
   * One round of the loop of `mem_alloc`. When no frame is left, `alloc_phys` yields
   * 0xffffffff, `mem_map` refuses it as unaligned, and the loop goes on.
   */
  function AllocPage(s: State, p: nat, flags: nat): (r: Option<State>)
    requires s.Valid() && p < LIMIT
    ensures r.Some? ==> r.value.Valid()
  {
    match LowestFree(s)
    case None => Some(s)
    case Some(f) =>
      match MapRegion(Take(s, f), PAGE_SIZE * p, 1, PAGE_SIZE * f, flags)
      case None => None
      case Some(result) => Some(result.0)
  }

  /** The loop of `mem_alloc` after `n` rounds from page `p`. */
  function AllocPages(s: State, p: nat, n: nat, flags: nat): (r: Option<State>)
    requires s.Valid() && p + n <= LIMIT
    ensures r.Some? ==> r.value.Valid()
  {
    if n == 0 then Some(s)
    else
      match AllocPages(s, p, n - 1, flags)
      case None => None
      case Some(t) => AllocPage(t, p + n - 1, flags)
  }

  /** The rounds before a defined one are defined; round `k` allocates page `p + k`. */
  lemma {:induction false} AllocPagesNext(s: State, p: nat, k: nat, n: nat, flags: nat)
    requires s.Valid() && k < n && p + n <= LIMIT
    requires AllocPages(s, p, n, flags).Some?
    ensures AllocPages(s, p, k, flags).Some? && AllocPages(s, p, k + 1, flags).Some?
    ensures AllocPages(s, p, k + 1, flags) == AllocPage(AllocPages(s, p, k, flags).value, p + k, flags)
  {
    hide AllocPage;
    if k + 1 < n {
      AllocPagesNext(s, p, k, n - 1, flags);
    }
  }

  /** `mem_alloc`. */
  function Alloc(s: State, virt: u32, virtEnd: u32, n: u32, flags: nat): (r: Option<(State, u32)>)
    requires s.Valid()
    ensures r.Some? ==> r.value.0.Valid()
  {
    var p := virt / PAGE_SIZE;
    if (p + n) % TWO32 > virtEnd / PAGE_SIZE || p + n >= TWO32 then Some((s, 0))
    else if p + n > LIMIT then None
    else if !ScansFree(s, p, n) then Some((s, 0))
    else
      match AllocPages(s, p, n, flags)
      case None => None
      case Some(t) => Some((t, virt))
  }

  /** `mem_alloc` does not test the alignment: an address in a page is refused exactly when the page's start is. */
  lemma AlignmentIsNotTested(s: State, virt: u32, virtEnd: u32, n: u32, flags: nat)
    requires s.Valid() && virt >= PAGE_SIZE
    ensures var r, a := Alloc(s, virt, virtEnd, n, flags), Alloc(s, virt - virt % PAGE_SIZE, virtEnd, n, flags);
            && (r.Some? <==> a.Some?)
            && (r.Some? ==> r.value.0 == a.value.0 && (r.value.1 == 0 <==> a.value.1 == 0))
            && (r.Some? && r.value.1 != 0 ==> r.value.1 == virt)
  {
    assert (virt - virt % PAGE_SIZE) / PAGE_SIZE == virt / PAGE_SIZE;
  }

  /** For all bounds: null exactly for a region that ends past the limit or in which a used page is met. */
  lemma AllocIsRefusedExactlyWhen(s: State, virt: u32, virtEnd: u32, n: u32, flags: nat)
    requires s.Valid() && 0 < virt && Alloc(s, virt, virtEnd, n, flags).Some?
    ensures var (t, ptr) := Alloc(s, virt, virtEnd, n, flags).value;
            var p := virt / 4096;
            if p + n > virtEnd / 4096 || (p + n <= LIMIT && MeetsUsed(s, p, n)) then t == s && ptr == 0
            else ptr == virt && p + n <= LIMIT && AllocPages(s, p, n, flags) == Some(t)
  {
    if virt / 4096 + n <= LIMIT {
      ScansFreeExactlyWhen(s, virt / 4096, n);
    }
  }

  /** Frames that allocating pages [p, p + n) takes: one a page and one a new table. */
  function FramesNeeded(s: State, p: nat, n: nat): nat
    requires s.Valid() && p + n <= LIMIT
  {
    n + NewTables(s, p, n)
  }

  /** Page `q` lies in a table that is in `t` and was not in `s`. */
  predicate InNewTable(s: State, t: State, q: nat)
    requires s.Valid() && t.Valid() && q < TABLE * TABLE
  {
    t.HasTable(q) && !s.HasTable(q)
  }

  ghost predicate TablesAdded(s: State, t: State, p: nat, n: nat)
    requires s.Valid() && t.Valid() && p + n <= LIMIT
  {
    && (forall q :: 0 <= q < TABLE * TABLE ==> (t.HasTable(q) <==> TableExpected(s, p, n, q)))
    && (forall q :: 0 <= q < TABLE * TABLE && s.HasTable(q) ==> t.TableFrame(q) == s.TableFrame(q))
  }

  /** The region is mapped and everything else translates as before. */
  ghost predicate RegionMapped(s: State, t: State, p: nat, n: nat)
    requires s.Valid() && t.Valid() && p + n <= LIMIT
  {
    && (forall q :: p <= q < p + n ==> t.Mapped(q))
    && (forall q :: 0 <= q < TABLE * TABLE && !(p <= q < p + n) ==> (t.Mapped(q) <==> s.Mapped(q)))
    && (forall q :: 0 <= q < TABLE * TABLE && !(p <= q < p + n) && s.Mapped(q) ==> t.tables[q] == s.tables[q])
  }

  /** All frames taken, for pages and for tables, were free, are in use now, and are distinct. */
  ghost predicate FramesTaken(s: State, t: State, p: nat, n: nat)
    requires s.Valid() && t.Valid() && p + n <= LIMIT
  {
    && (forall q :: p <= q < p + n ==> t.FrameOf(q) in s.Free() && t.FrameOf(q) in t.used)
    && (forall q :: 0 <= q < TABLE * TABLE && InNewTable(s, t, q)
          ==> t.TableFrame(q) in s.Free() && t.TableFrame(q) in t.used)
    && (forall q, r :: p <= q < r < p + n ==> t.FrameOf(q) != t.FrameOf(r))
    && (forall q, r :: 0 <= q < TABLE * TABLE && 0 <= r < TABLE * TABLE && q / TABLE != r / TABLE
          && InNewTable(s, t, q) && InNewTable(s, t, r)
          ==> t.TableFrame(q) != t.TableFrame(r))
    && (forall q, r :: p <= q < p + n && 0 <= r < TABLE * TABLE && InNewTable(s, t, r)
          ==> t.FrameOf(q) != t.TableFrame(r))
  }

  /** What allocating pages [p, p + n) on the way from `s` to `t` is meant to do. */
  ghost predicate Allocated(s: State, t: State, p: nat, n: nat)
    requires s.Valid() && t.Valid() && p + n <= LIMIT
  {
    && t.lo == s.lo && t.hi == s.hi && t.stale == s.stale && s.used <= t.used
    && TablesAdded(s, t, p, n)
    && RegionMapped(s, t, p, n)
    && FramesTaken(s, t, p, n)
    && |t.Free()| == |s.Free()| - FramesNeeded(s, p, n)
  }

  /** Asked for a page that is not mapped, `mem_map` takes that very page. */
  lemma MapOneFreePage(s: State, p: nat, frame: nat, flags: nat)
    requires s.Valid() && p < LIMIT && frame < FRAMES
    requires !s.Mapped(p) && StartsClean(s, p)
    requires s.HasTable(p) || s.Free() != {}
    ensures var u := MapPage(s, p, frame, flags);
            u.Some? && MapRegion(s, PAGE_SIZE * p, 1, PAGE_SIZE * frame, flags) == Some((u.value, PAGE_SIZE * p))
  {
    assert FindWindow(s, p, 1) == Some(p);
    assert MapPages(s, p, 0, frame, flags) == Some(s);
    assert FrameAt(frame, 0) == frame;
    assert MapPages(s, p, 1, frame, flags) == MapPage(s, p, frame, flags);
  }

  lemma AllocOnePage(s: State, p: nat, flags: nat)
    requires s.Valid() && p < LIMIT && flags % 2 == 1
    requires !s.Mapped(p) && StartsClean(s, p)
    requires FramesNeeded(s, p, 1) <= |s.Free()|
    ensures var r := AllocPage(s, p, flags);
            r.Some? && Allocated(s, r.value, p, 1)
  {
    assert s.Free() != {};
    var f := LowestFree(s).value;
    var t := Take(s, f);
    TakeShrinksFree(s, f);
    assert NewTables(s, p, 0) == 0;
    MapOneFreePage(t, p, f, flags);
    MapPageTakes(s, t, p, f, flags);
  }

  lemma MapPageTakes(s: State, t: State, p: nat, f: nat, flags: nat)
    requires s.Valid() && p < LIMIT && f in s.Free() && t == Take(s, f) && flags % 2 == 1
    requires !s.Mapped(p) && StartsClean(s, p) && MapPage(t, p, f, flags).Some?
    requires |t.Free()| == |s.Free()| - 1
    ensures Allocated(s, MapPage(t, p, f, flags).value, p, 1)
  {
    var u := MapPage(t, p, f, flags).value;
    assert NewTables(s, p, 0) == 0;
    MapPageEffect(t, p, f, flags);
    ClearingIsHarmlessExactlyWhen(t, p, f, flags);
    if t.HasTable(p) {
      assert u.Free() == t.Free();
    } else {
      TakeShrinksFree(t, u.TableFrame(p));
      assert u.Free() == Take(t, u.TableFrame(p)).Free();
    }
  }

  lemma AllocatedExtends(s: State, t: State, u: State, p: nat, n: nat)
    requires s.Valid() && t.Valid() && u.Valid() && 0 < n && p + n <= LIMIT && StartsClean(s, p)
    requires Allocated(s, t, p, n - 1) && Allocated(t, u, p + n - 1, 1)
    ensures Allocated(s, u, p, n)
  {
    var m := p + n - 1;
    NewTableExactlyWhen(s, p, n);
    assert NewTables(t, m, 0) == 0;
    assert NewTables(t, m, 1) == if t.HasTable(m) then 0 else 1;
    assert t.Free() <= s.Free();
    assert TablesAdded(s, u, p, n);
    assert RegionMapped(s, u, p, n);
    FramesTakenExtends(s, t, u, p, n);
  }

  /** Pages [p, p + n) have these flags; new tables are present and allow all access, and old ones stay. */
  ghost predicate FlagsGiven(s: State, t: State, p: nat, n: nat, flags: nat)
    requires s.Valid() && t.Valid() && p + n <= LIMIT
  {
    && (forall q :: p <= q < p + n ==> t.tables[q].flags == flags)
    && (forall q :: 0 <= q < TABLE * TABLE && InNewTable(s, t, q) ==> t.dir[q / TABLE].flags == 7)
    && (forall q :: 0 <= q < TABLE * TABLE && s.HasTable(q) ==> t.dir[q / TABLE] == s.dir[q / TABLE])
  }

  lemma AllocOneGivesFlags(s: State, p: nat, flags: nat)
    requires s.Valid() && p < LIMIT && flags % 2 == 1
    requires !s.Mapped(p) && StartsClean(s, p)
    requires FramesNeeded(s, p, 1) <= |s.Free()|
    ensures var r := AllocPage(s, p, flags);
            r.Some? && FlagsGiven(s, r.value, p, 1, flags)
  {
    assert s.Free() != {};
    var f := LowestFree(s).value;
    TakeShrinksFree(s, f);
    assert NewTables(s, p, 0) == 0;
    MapOneFreePage(Take(s, f), p, f, flags);
  }

  lemma FlagsExtend(s: State, t: State, u: State, p: nat, n: nat, flags: nat)
    requires s.Valid() && t.Valid() && u.Valid() && 0 < n && p + n <= LIMIT
    requires Allocated(s, t, p, n - 1) && Allocated(t, u, p + n - 1, 1)
    requires FlagsGiven(s, t, p, n - 1, flags) && FlagsGiven(t, u, p + n - 1, 1, flags)
    ensures FlagsGiven(s, u, p, n, flags)
  {
    forall q | p <= q < p + n ensures u.tables[q].flags == flags {
      if q < p + n - 1 {
        assert t.Mapped(q) && u.tables[q] == t.tables[q];
      }
    }
    forall q | 0 <= q < TABLE * TABLE && InNewTable(s, u, q) ensures u.dir[q / TABLE].flags == 7 {
      assert InNewTable(s, t, q) || InNewTable(t, u, q);
    }
  }

  /** The pages allocated get the flags asked for, in tables that were there or allow writing. */
  lemma {:induction false} AllocPagesGivesFlags(s: State, p: nat, n: nat, flags: nat)
    requires s.Valid() && p + n <= LIMIT && flags % 2 == 1
    requires IsFree(s, p, n) && StartsClean(s, p)
    requires FramesNeeded(s, p, n) <= |s.Free()|
    ensures AllocPages(s, p, n, flags).Some?
    ensures FlagsGiven(s, AllocPages(s, p, n, flags).value, p, n, flags)
  {
    if n > 0 {
      NewTableExactlyWhen(s, p, n);
      AllocPagesAllocates(s, p, n - 1, flags);
      AllocPagesGivesFlags(s, p, n - 1, flags);
      LastPageGivesFlags(s, AllocPages(s, p, n - 1, flags).value, p, n, flags);
    }
  }

  lemma LastPageGivesFlags(s: State, t: State, p: nat, n: nat, flags: nat)
    requires s.Valid() && t.Valid() && 0 < n && p + n <= LIMIT && flags % 2 == 1
    requires IsFree(s, p, n) && StartsClean(s, p)
    requires FramesNeeded(s, p, n) <= |s.Free()|
    requires Allocated(s, t, p, n - 1) && FlagsGiven(s, t, p, n - 1, flags)
    ensures var r := AllocPage(t, p + n - 1, flags);
            r.Some? && FlagsGiven(s, r.value, p, n, flags)
  {
    var m := p + n - 1;
    NewTableExactlyWhen(s, p, n);
    assert NewTables(t, m, 0) == 0;
    AllocOnePage(t, m, flags);
    AllocOneGivesFlags(t, m, flags);
    FlagsExtend(s, t, AllocPage(t, m, flags).value, p, n, flags);
  }

  /** So with the R/W bit all of them can be written to, if their tables that were there allow it. */
  lemma AllocatedPagesAreWritable(s: State, p: nat, n: nat, flags: nat)
    requires s.Valid() && p + n <= LIMIT && flags % 4 == 3
    requires IsFree(s, p, n) && StartsClean(s, p)
    requires FramesNeeded(s, p, n) <= |s.Free()|
    requires forall q :: p <= q < p + n && s.HasTable(q) ==> s.WritableTable(q)
    ensures AllocPages(s, p, n, flags).Some?
    ensures forall q :: p <= q < p + n ==> AllocPages(s, p, n, flags).value.Writable(q)
  {
    hide *;
    AllocPagesAllocates(s, p, n, flags);
    AllocPagesGivesFlags(s, p, n, flags);
    FlagsMakeWritable(s, AllocPages(s, p, n, flags).value, p, n, flags);
  }

  lemma FlagsMakeWritable(s: State, t: State, p: nat, n: nat, flags: nat)
    requires s.Valid() && t.Valid() && p + n <= LIMIT && flags % 4 == 3
    requires Allocated(s, t, p, n) && FlagsGiven(s, t, p, n, flags)
    requires forall q :: p <= q < p + n && s.HasTable(q) ==> s.WritableTable(q)
    ensures forall q :: p <= q < p + n ==> t.Writable(q)
  {
    forall q | p <= q < p + n ensures t.Writable(q) {
      assert t.Mapped(q);
      assert s.HasTable(q) || InNewTable(s, t, q);
    }
  }

  lemma FramesTakenExtends(s: State, t: State, u: State, p: nat, n: nat)
    requires s.Valid() && t.Valid() && u.Valid() && 0 < n && p + n <= LIMIT
    requires Allocated(s, t, p, n - 1) && Allocated(t, u, p + n - 1, 1)
    ensures FramesTaken(s, u, p, n)
  {
    assert t.Free() <= s.Free();
    assert forall q :: p <= q < p + n - 1 ==> t.Mapped(q) && u.FrameOf(q) == t.FrameOf(q);
    assert forall q :: 0 <= q < TABLE * TABLE && InNewTable(s, u, q) ==>
      (InNewTable(s, t, q) && u.TableFrame(q) == t.TableFrame(q)) || InNewTable(t, u, q);
  }

  lemma AllocateNext(s: State, t: State, p: nat, n: nat, flags: nat)
    requires s.Valid() && t.Valid() && 0 < n && p + n <= LIMIT && flags % 2 == 1
    requires IsFree(s, p, n) && StartsClean(s, p)
    requires FramesNeeded(s, p, n) <= |s.Free()|
    requires Allocated(s, t, p, n - 1)
    ensures var r := AllocPage(t, p + n - 1, flags);
            r.Some? && Allocated(s, r.value, p, n)
  {
    var m := p + n - 1;
    NewTableExactlyWhen(s, p, n);
    assert NewTables(t, m, 0) == 0;
    AllocOnePage(t, m, flags);
    AllocatedExtends(s, t, AllocPage(t, m, flags).value, p, n);
  }

  /** With a free region, a clean start and enough frames, `mem_alloc` does all it is meant to. */
  lemma {:induction false} AllocPagesAllocates(s: State, p: nat, n: nat, flags: nat)
    requires s.Valid() && p + n <= LIMIT && flags % 2 == 1
    requires IsFree(s, p, n) && StartsClean(s, p)
    requires FramesNeeded(s, p, n) <= |s.Free()|
    ensures AllocPages(s, p, n, flags).Some?
    ensures Allocated(s, AllocPages(s, p, n, flags).value, p, n)
  {
    if n > 0 {
      AllocPagesAllocates(s, p, n - 1, flags);
      AllocateNext(s, AllocPages(s, p, n - 1, flags).value, p, n, flags);
    }
  }

  /** One round less or more needs at most two frames. */
  lemma FramesNeededNext(s: State, p: nat, n: nat)
    requires s.Valid() && 0 < n && p + n <= LIMIT && StartsClean(s, p)
    ensures FramesNeeded(s, p, n) == FramesNeeded(s, p, n - 1) + if TableExpected(s, p, n - 1, p + n - 1) then 1 else 2
  {
    NewTableExactlyWhen(s, p, n);
  }

  /** With too few frames, either a table cannot be had, or the frames run out before the pages do. */
  lemma {:induction false} FramesRunOut(s: State, p: nat, n: nat, flags: nat)
    requires s.Valid() && p + n <= LIMIT && flags % 2 == 1
    requires IsFree(s, p, n) && StartsClean(s, p)
    requires FramesNeeded(s, p, n) > |s.Free()|
    ensures var r := AllocPages(s, p, n, flags);
            r.Some? ==> r.value.Free() == {} && exists q :: p <= q < p + n && !r.value.Mapped(q)
  {
    assert n > 0;
    var m := p + n - 1;
    if FramesNeeded(s, p, n - 1) > |s.Free()| {
      FramesRunOut(s, p, n - 1, flags);
    } else {
      AllocPagesAllocates(s, p, n - 1, flags);
      FramesNeededNext(s, p, n);
      LastRoundFails(s, AllocPages(s, p, n - 1, flags).value, p, n, flags);
    }
  }

  lemma LastRoundFails(s: State, t: State, p: nat, n: nat, flags: nat)
    requires s.Valid() && t.Valid() && 0 < n && p + n <= LIMIT && flags % 2 == 1
    requires IsFree(s, p, n) && Allocated(s, t, p, n - 1)
    requires |t.Free()| < if TableExpected(s, p, n - 1, p + n - 1) then 1 else 2
    ensures var r := AllocPage(t, p + n - 1, flags);
            r.Some? ==> r.value.Free() == {} && !r.value.Mapped(p + n - 1)
  {
    var m := p + n - 1;
    assert !s.Mapped(m) && !t.Mapped(m);
    if LowestFree(t).Some? {
      var f := LowestFree(t).value;
      TakeShrinksFree(t, f);
      assert !t.HasTable(m);
      assert FindWindow(Take(t, f), m, 1) == Some(m);
      assert LowestFree(Take(t, f)) == None by {
        assert Take(t, f).Free() == {};
      }
      assert MapPages(Take(t, f), m, 0, f, flags) == Some(Take(t, f));
      assert MapPages(Take(t, f), m, 1, f, flags) == None;
    } else {
      assert t.Free() == {};
    }
  }

  /** For a free region with a clean start, `mem_alloc` maps all its pages exactly when there are enough frames. */
  lemma AllocMapsAllPagesExactlyWhen(s: State, p: nat, n: nat, flags: nat)
    requires s.Valid() && p + n <= LIMIT && flags % 2 == 1
    requires IsFree(s, p, n) && StartsClean(s, p)
    ensures var r := AllocPages(s, p, n, flags);
            (r.Some? && forall q :: p <= q < p + n ==> r.value.Mapped(q)) <==> FramesNeeded(s, p, n) <= |s.Free()|
  {
    if FramesNeeded(s, p, n) <= |s.Free()| {
      AllocPagesAllocates(s, p, n, flags);
    } else {
      FramesRunOut(s, p, n, flags);
    }
  }

  /** One page, no frame: the address is returned all the same, and nothing is mapped there. */
  lemma AddressWithoutMemory(s: State)
    requires s.Valid() && s.Free() == {} && !s.Mapped(0xd0000)
    ensures Alloc(s, 0xd000_0000, 0xefff_ffff, 1, 3) == Some((s, 0xd000_0000))
  {
    assert Scan(s, 0xd0000, 0xd0001) == None;
    assert AllocPages(s, 0xd0000, 0, 3) == Some(s);
    assert LowestFree(s) == None;
  }
}
