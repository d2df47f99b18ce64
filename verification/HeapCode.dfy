/**
 * `malloc` and `free` of libc/arch/i686/malloc.c, both as written, on memory alone, and
 * what runs of them do to it. `mem_alloc` is taken to give the address asked for.
 */
module HeapCode {
  import opened Blocks
  import opened HeapMemory
  import opened Machine

  /** The heap's memory and the static `first_hdr`. */
  datatype Image = Image(memory: Memory, first: nat)

  const NO_HEAP := Image(map[], 0)

  // ---------------------------------------------------------------- malloc, as written

  /** The mapped addresses from `hdr` on. */
  ghost function Ahead(m: Memory, hdr: nat): set<nat> {
    set a | a in m && a >= hdr
  }

  lemma WalkGetsOn(m: Memory, hdr: nat, next: nat)
    requires hdr in m && hdr < next
    ensures Ahead(m, next) < Ahead(m, hdr)
  {
    assert hdr in Ahead(m, hdr) && hdr !in Ahead(m, next);
  }

  /** The header at which the walk stops, from `hdr` on. None is a page fault. */
  function Walk(m: Memory, hdr: nat, size: nat): (r: Option<nat>)
    ensures r.Some? ==> r.value in m
    decreases Ahead(m, hdr)
  {
    if hdr !in m then None
    else if (m[hdr].used || m[hdr].size < size) && !m[hdr].end then
      WalkGetsOn(m, hdr, hdr + HEADER + m[hdr].size);
      Walk(m, hdr + HEADER + m[hdr].size, size)
    else Some(hdr)
  }

  /** New pages behind the header `last`, as one free block; a null `last` starts the heap. */
  function GrowCode(h: Image, last: nat, rounded: nat, contents: nat -> Granule): (r: Option<(Image, nat)>)
    requires last != 0 ==> last in h.memory
  {
    var newHdr := if last == 0 then BASE else last + HEADER + h.memory[last].size;
    if newHdr % 16 != 0 then None else Some(NewPages(h, last, newHdr, PagesFor(rounded), contents))
  }

  function NewPages(h: Image, last: nat, newHdr: nat, n: nat, contents: nat -> Granule): (Image, nat)
    requires (last != 0 ==> last in h.memory) && newHdr % 16 == 0 && n > 0
  {
    PagesAreAligned(n);
    var added := LeftOvers(newHdr, newHdr + PAGE_SIZE * n, contents);
    (Image(GrowMemory(h.memory, newHdr, PAGE_SIZE * n, last, added), if last == 0 then newHdr else h.first), newHdr)
  }

  /** The headers that a split writes are mapped. */
  predicate TakenIsSplittable(m: Memory, hdr: nat, size: nat) {
    && hdr in m && m[hdr].size >= size + 2 * HEADER && hdr + HEADER + size in m
    && (m[hdr].end || hdr + HEADER + m[hdr].size in m)
  }

  /** The block at `hdr` is marked and, if it is much too large, split. */
  function TakeCode(m: Memory, hdr: nat, rounded: nat): Option<Memory>
    requires hdr in m
  {
    var taken := m[hdr := m[hdr].(used := true)];
    if taken[hdr].size < rounded + 2 * HEADER then Some(taken)
    else if !TakenIsSplittable(taken, hdr, rounded) then None
    else Some(SplitMemory(taken, hdr, rounded))
  }

  /** `malloc` up to the test of the header that the walk leads to: the heap and the header to take. */
  function RoomCode(h: Image, rounded: nat, contents: nat -> Granule): Option<(Image, nat)> {
    if h.first == 0 then GrowCode(h, 0, rounded, contents)
    else
      match Walk(h.memory, h.first, rounded)
      case None => None
      case Some(hdr) =>
        var g := h.memory[hdr];
        if hdr == 0 || ((g.used || g.size < rounded) && g.end) then GrowCode(h, hdr, rounded, contents)
        else Some((h, hdr))
  }

  /** `malloc`: the heap afterwards and the pointer. `contents` is what new pages hold. */
  function MallocCode(h: Image, size: nat, contents: nat -> Granule): Option<(Image, nat)> {
    match RoomCode(h, RoundUp(size), contents)
    case None => None
    case Some((g, hdr)) =>
      if hdr !in g.memory then None
      else
        match TakeCode(g.memory, hdr, RoundUp(size))
        case None => None
        case Some(after) => Some((g.(memory := after), hdr + HEADER))
  }

  // ---------------------------------------------------------------- malloc refines the block list

  ghost predicate HoldsHeap(h: Image, bs: seq<Block>) {
    Holds(h.memory, bs) && WholePages(bs) && h.first == if bs == [] then 0 else BASE
  }

  /** The block at which the walk stops: the first that fits, or the last. */
  function Stop(bs: seq<Block>, size: nat, i: nat): (j: nat)
    requires i < |bs|
    ensures i <= j < |bs|
    ensures FirstFit(bs, size, i) == if Fits(bs[j], size) then j else |bs|
    ensures !Fits(bs[j], size) ==> j + 1 == |bs|
    decreases |bs| - i
  {
    if Fits(bs[i], size) || i + 1 == |bs| then i else Stop(bs, size, i + 1)
  }

  lemma {:induction false} WalkStops(m: Memory, bs: seq<Block>, size: nat, i: nat)
    requires Holds(m, bs) && i < |bs|
    ensures Walk(m, Addr(bs, i), size) == Some(Addr(bs, Stop(bs, size, i)))
    decreases |bs| - i
  {
    HeaderIsMapped(m, bs, i);
    if !Fits(bs[i], size) && i + 1 < |bs| {
      WalkStops(m, bs, size, i + 1);
    }
  }

  lemma TakeIsPlace(m: Memory, bs: seq<Block>, k: nat, size: nat)
    requires Holds(m, bs) && k < |bs| && Fits(bs[k], size) && size % 16 == 0
    ensures Addr(bs, k) in m
    ensures var r := TakeCode(m, Addr(bs, k), size);
            r.Some? && Holds(r.value, Place(bs, k, size)) && PayloadsKept(m, r.value, bs)
  {
    HeaderIsMapped(m, bs, k);
    hide Holds, PayloadsKept, Place, SplitMemory, SplitBlocks, Addr;
    var used := bs[k := Block(bs[k].size, true)];
    var taken := m[Addr(bs, k) := m[Addr(bs, k)].(used := true)];
    SetUsedHolds(m, bs, k, true);
    PlaceIsSplit(bs, k, size);
    if Splits(bs[k], size) {
      TakenIsSplit(taken, used, k, size);
      KeptThrough(m, taken, SplitMemory(taken, Addr(bs, k), size), bs);
    }
  }

  lemma TakenIsSplit(m: Memory, bs: seq<Block>, k: nat, size: nat)
    requires Holds(m, bs) && k < |bs| && Splits(bs[k], size) && size % 16 == 0
    ensures Addr(bs, k) in m && m[Addr(bs, k)].size == bs[k].size && Addr(bs, k) + HEADER + size in m
    ensures m[Addr(bs, k)].end || Addr(bs, k) + HEADER + bs[k].size in m
    ensures Holds(SplitMemory(m, Addr(bs, k), size), SplitBlocks(bs, k, size))
    ensures PayloadsKept(m, SplitMemory(m, Addr(bs, k), size), bs[k := Block(bs[k].size, false)])
  {
    hide SplitMemory, SplitBlocks, PayloadsKept, Covers;
    SplitHolds(m, bs, k, size);
    SplitKeepsPayloads(m, bs, k, size);
  }

  /** Behind the last block, or at the base, the heap ends. */
  lemma EndIsBehindLast(m: Memory, bs: seq<Block>)
    requires Holds(m, bs)
    ensures LastHeader(bs) != 0 ==> LastHeader(bs) in m
    ensures End(bs) == if LastHeader(bs) == 0 then BASE else LastHeader(bs) + HEADER + m[LastHeader(bs)].size
    ensures End(bs) % 16 == 0
  {
    AddrAligned(bs, |bs|);
    if bs != [] {
      HeaderIsMapped(m, bs, |bs| - 1);
    }
  }

  /** `GrowCode` behind the last header of a heap in order. */
  lemma GrowIsGrow(h: Image, bs: seq<Block>, rounded: nat, contents: nat -> Granule)
    requires HoldsHeap(h, bs)
    ensures LastHeader(bs) != 0 ==> LastHeader(bs) in h.memory
    ensures var r, cs := GrowCode(h, LastHeader(bs), rounded, contents), Grow(bs, PagesFor(rounded));
            && r.Some? && r.value.1 == Addr(cs, |bs|) && HoldsHeap(r.value.0, cs)
            && PayloadsKept(h.memory, r.value.0.memory, bs)
  {
    EndIsBehindLast(h.memory, bs);
    hide NewPages, HoldsHeap, PayloadsKept, Grow, Addr, End, LastHeader, PagesFor;
    NewPagesAreGrow(h, bs, PagesFor(rounded), contents);
  }

  lemma NewPagesAreGrow(h: Image, bs: seq<Block>, n: nat, contents: nat -> Granule)
    requires HoldsHeap(h, bs) && n > 0 && End(bs) % 16 == 0
    ensures LastHeader(bs) != 0 ==> LastHeader(bs) in h.memory
    ensures var (g, hdr) := NewPages(h, LastHeader(bs), End(bs), n, contents);
            && hdr == Addr(Grow(bs, n), |bs|) && HoldsHeap(g, Grow(bs, n)) && PayloadsKept(h.memory, g.memory, bs)
  {
    hide Covers, HeadersOk, Aligned, GrowMemory, PayloadsKept;
    PagesAreAligned(n);
    GrowHolds(h.memory, bs, n, LeftOvers(End(bs), End(bs) + PAGE_SIZE * n, contents));
    GrowKeepsLive(bs, n);
    assert bs != [] ==> LastHeader(bs) >= BASE;
  }

  /** The header of the first block that fits, or new pages behind the last one. */
  lemma RoomIs(h: Image, bs: seq<Block>, rounded: nat, contents: nat -> Granule)
    requires HoldsHeap(h, bs)
    ensures (LastHeader(bs) != 0 ==> LastHeader(bs) in h.memory) && End(bs) % 16 == 0
    ensures var k := FirstFit(bs, rounded, 0);
            RoomCode(h, rounded, contents)
            == if k == |bs| then Some(NewPages(h, LastHeader(bs), End(bs), PagesFor(rounded), contents))
               else Some((h, Addr(bs, k)))
  {
    hide NewPages;
    EndIsBehindLast(h.memory, bs);
    if bs != [] {
      WalkStops(h.memory, bs, rounded, 0);
      HeaderIsMapped(h.memory, bs, Stop(bs, rounded, 0));
    }
  }

  /** The heap and the header that `malloc` goes on with. */
  lemma RoomIsThere(h: Image, bs: seq<Block>, rounded: nat, contents: nat -> Granule)
    requires HoldsHeap(h, bs) && rounded + 2 * HEADER < TWO32
    ensures var r, k := RoomCode(h, rounded, contents), FirstFit(bs, rounded, 0);
            var cs := if k == |bs| then Grow(bs, PagesFor(rounded)) else bs;
            && r.Some? && k < |cs| && Fits(cs[k], rounded) && r.value.1 == Addr(cs, k)
            && HoldsHeap(r.value.0, cs) && PayloadsKept(h.memory, r.value.0.memory, bs)
  {
    hide Covers, HeadersOk, Aligned, GrowCode, PayloadsKept, Grow;
    KeptByNothing(h.memory, bs);
    GrownFits(bs, rounded);
    GrowIsGrow(h, bs, rounded, contents);
    if bs != [] {
      var j := Stop(bs, rounded, 0);
      WalkStops(h.memory, bs, rounded, 0);
      HeaderIsMapped(h.memory, bs, j);
    }
  }

  lemma KeptByNothing(m: Memory, bs: seq<Block>)
    ensures PayloadsKept(m, m, bs)
  {
  }

  lemma GrownFits(bs: seq<Block>, rounded: nat)
    requires rounded + 2 * HEADER < TWO32
    ensures var cs := Grow(bs, PagesFor(rounded)); |cs| == |bs| + 1 && Fits(cs[|bs|], rounded)
  {
    PagesForIsEnough(rounded);
  }

  /** On a heap in order, `malloc` does not fault, and what it does is `Malloc` of the block list. */
  lemma MallocCodeIsMalloc(h: Image, bs: seq<Block>, size: nat, contents: nat -> Granule)
    requires HoldsHeap(h, bs) && SumsFit(size)
    ensures var r, (cs, k) := MallocCode(h, size, contents), Malloc(bs, size);
            && r.Some? && k < |cs| && r.value.1 == Payload(cs, k) && HoldsHeap(r.value.0, cs)
            && PayloadsKept(h.memory, r.value.0.memory, bs) && IsGranted(bs, cs, k, RoundUp(size))
  {
    MallocGrants(bs, size);
    hide IsGranted;
    var rounded, k := RoundUp(size), FirstFit(bs, RoundUp(size), 0);
    var grown := if k == |bs| then Grow(bs, PagesFor(rounded)) else bs;
    RoomIsThere(h, bs, rounded, contents);
    var g := RoomCode(h, rounded, contents).value.0;
    hide RoomCode, TakeCode, Holds, PayloadsKept, Place;
    assert Holds(g.memory, grown);
    TakeIsPlace(g.memory, grown, k, rounded);
    PlaceMakesLive(grown, k, rounded);
    var after := TakeCode(g.memory, Addr(grown, k), rounded).value;
    assert PayloadsKept(g.memory, after, bs) by {
      if k == |bs| {
        GrowKeepsLive(bs, PagesFor(rounded));
      }
      KeptForLive(g.memory, after, grown, bs);
    }
    KeptThrough(h.memory, g.memory, after, bs);
  }

  // ---------------------------------------------------------------- runs of the code as written

  /** A call, or a program that stores into its memory. */
  datatype Op =
    | Alloc(size: nat, contents: nat -> Granule)
    | Release(ptr: nat)
    | Store(a: nat, g: Granule)

  /** What the operation does to the heap. None is a page fault. */
  function Exec(h: Image, op: Op): Option<Image> {
    match op
    case Alloc(size, contents) =>
      (match MallocCode(h, size, contents)
       case None => None
       case Some((g, ptr)) => Some(g))
    case Release(ptr) =>
      if ptr < HEADER then None
      else
        (match FreeMemory(h.memory, ptr)
         case None => None
         case Some(m) => Some(h.(memory := m)))
    case Store(a, g) => if a in h.memory then Some(h.(memory := h.memory[a := g])) else None
  }

  function ExecAll(ops: seq<Op>): Option<Image> {
    if ops == [] then Some(NO_HEAP)
    else
      match ExecAll(ops[..|ops| - 1])
      case None => None
      case Some(h) => Exec(h, ops[|ops| - 1])
  }

  /** The block list that the operation is meant to leave. */
  function ListAfter(bs: seq<Block>, op: Op): seq<Block> {
    match op
    case Alloc(size, _) => Malloc(bs, size).0
    case Release(ptr) => var k := BlockAt(bs, ptr, 0); if k < |bs| then Free(bs, k) else bs
    case Store(_, _) => bs
  }

  function Lists(ops: seq<Op>): seq<Block> {
    if ops == [] then [] else ListAfter(Lists(ops[..|ops| - 1]), ops[|ops| - 1])
  }

  /** Address `a` lies in a payload in use. */
  ghost predicate IsHeld(bs: seq<Block>, a: nat) {
    exists i :: 0 <= i < |bs| && bs[i].used && InPayload(bs, i, a)
  }

  /** The sums of a request fit, a block freed is in use and quiet, and programs store into what they hold. */
  ghost predicate Allowed(bs: seq<Block>, op: Op) {
    match op
    case Alloc(size, _) => SumsFit(size) && End(Malloc(bs, size).0) < TWO32
    case Release(ptr) => var k := BlockAt(bs, ptr, 0); k < |bs| && bs[k].used && Quiet(bs, k)
    case Store(a, _) => a % 16 == 0 && IsHeld(bs, a)
  }

  ghost predicate AllowedRun(ops: seq<Op>) {
    ops == [] || (AllowedRun(ops[..|ops| - 1]) && Allowed(Lists(ops[..|ops| - 1]), ops[|ops| - 1]))
  }

  /** What programs have stored in memory that they still hold. */
  function StoredAfter(e: map<nat, Granule>, bs: seq<Block>, op: Op): map<nat, Granule> {
    match op
    case Alloc(_, _) => e
    case Release(ptr) =>
      var k := BlockAt(bs, ptr, 0);
      if k < |bs| then map a | a in e && !InPayload(bs, k, a) :: e[a] else e
    case Store(a, g) => e[a := g]
  }

  function Stored(ops: seq<Op>): map<nat, Granule> {
    if ops == [] then map[]
    else StoredAfter(Stored(ops[..|ops| - 1]), Lists(ops[..|ops| - 1]), ops[|ops| - 1])
  }

  /** Memory holds the block list, and everything stored in payloads in use. */
  ghost predicate InOrder(h: Image, bs: seq<Block>, e: map<nat, Granule>) {
    && HoldsHeap(h, bs) && End(bs) < TWO32
    && forall a :: a in e ==> IsHeld(bs, a) && a in h.memory && h.memory[a] == e[a]
  }

  /** What is kept of payloads keeps what is stored in them. */
  lemma StoredIsKept(m: Memory, m': Memory, bs: seq<Block>, cs: seq<Block>, e: map<nat, Granule>)
    requires PayloadsKept(m, m', bs)
    requires forall a :: a in e ==> IsHeld(bs, a) && IsHeld(cs, a) && a in m && m[a] == e[a]
    ensures forall a :: a in e ==> IsHeld(cs, a) && a in m' && m'[a] == e[a]
  {
  }

  /** More live payloads hold more. */
  lemma LiveIsHeld(bs: seq<Block>, cs: seq<Block>, a: nat)
    requires IsHeld(bs, a) && Live(bs) <= Live(cs)
    ensures IsHeld(cs, a)
  {
    var i :| 0 <= i < |bs| && bs[i].used && InPayload(bs, i, a);
    assert (Payload(bs, i), bs[i].size) in Live(cs);
    var j :| 0 <= j < |cs| && cs[j].used && Payload(cs, j) == Payload(bs, i) && cs[j].size == bs[i].size;
    assert InPayload(cs, j, a);
  }

  lemma AllocKeepsOrder(h: Image, bs: seq<Block>, e: map<nat, Granule>, size: nat, contents: nat -> Granule)
    requires InOrder(h, bs, e) && SumsFit(size) && End(Malloc(bs, size).0) < TWO32
    ensures var r := MallocCode(h, size, contents); r.Some? && InOrder(r.value.0, Malloc(bs, size).0, e)
  {
    MallocCodeIsMalloc(h, bs, size, contents);
    MallocGivesNewPayload(bs, size);
    hide MallocCode, Malloc, PayloadsKept, HoldsHeap, IsHeld, Live;
    var cs := Malloc(bs, size).0;
    forall a | a in e ensures IsHeld(cs, a) {
      LiveIsHeld(bs, cs, a);
    }
    StoredIsKept(h.memory, MallocCode(h, size, contents).value.0.memory, bs, cs, e);
  }

  /** What is held apart from the freed block stays held. */
  lemma OthersStayHeld(bs: seq<Block>, k: nat, a: nat)
    requires Sound(bs) && k < |bs| && bs[k].used && IsHeld(bs, a) && !InPayload(bs, k, a)
    ensures IsHeld(Free(bs, k), a)
  {
    FreeRemovesPayload(bs, k);
    hide Free;
    var i :| 0 <= i < |bs| && bs[i].used && InPayload(bs, i, a);
    assert (Payload(bs, i), bs[i].size) in Live(bs);
    if i != k {
      PayloadsAreDisjoint(bs, i, k);
    }
    var cs := Free(bs, k);
    assert (Payload(bs, i), bs[i].size) in Live(cs);
    var j :| 0 <= j < |cs| && cs[j].used && Payload(cs, j) == Payload(bs, i) && cs[j].size == bs[i].size;
    assert InPayload(cs, j, a);
  }

  lemma ReleaseKeepsOrder(h: Image, bs: seq<Block>, e: map<nat, Granule>, k: nat)
    requires InOrder(h, bs, e) && k < |bs| && bs[k].used && Quiet(bs, k)
    ensures var r := FreeMemory(h.memory, Payload(bs, k));
            && r.Some?
            && InOrder(h.(memory := r.value), Free(bs, k), map a | a in e && !InPayload(bs, k, a) :: e[a])
  {
    QuietFree(h.memory, bs, k);
    FreeRemovesPayload(bs, k);
    var left := map a | a in e && !InPayload(bs, k, a) :: e[a];
    forall a | a in left ensures IsHeld(Free(bs, k), a) {
      OthersStayHeld(bs, k, a);
    }
    FreeLeavesBlocks(bs, k);
    hide FreeMemory, Free, PayloadsKept, Holds, IsHeld, Quiet, InPayload;
    StoredIsKept(h.memory, FreeMemory(h.memory, Payload(bs, k)).value, bs, Free(bs, k), left);
  }

  lemma FreeLeavesBlocks(bs: seq<Block>, k: nat)
    requires k < |bs|
    ensures Free(bs, k) != []
  {
  }

  lemma StoreKeepsOrder(h: Image, bs: seq<Block>, e: map<nat, Granule>, a: nat, g: Granule)
    requires InOrder(h, bs, e) && a % 16 == 0 && IsHeld(bs, a)
    ensures a in h.memory && InOrder(h.(memory := h.memory[a := g]), bs, e[a := g])
  {
    var i :| 0 <= i < |bs| && bs[i].used && InPayload(bs, i, a);
    AddrMonotone(bs, i, |bs|);
    assert a in h.memory;
    var m' := h.memory[a := g];
    forall j | 0 <= j < |bs| ensures HeaderOk(m', bs, j) {
      HeaderIsMapped(h.memory, bs, j);
      HeaderOutsidePayloads(bs, j, i);
    }
  }

  /**
   * Over every run of `malloc` and `free` as written in which each free is quiet, nothing
   * faults, memory holds the block list, and what programs store in their memory stays
   * there until they overwrite or free it.
   */
  lemma {:induction false} CodeRunsKeepTheHeap(ops: seq<Op>)
    requires AllowedRun(ops)
    ensures ExecAll(ops).Some? && InOrder(ExecAll(ops).value, Lists(ops), Stored(ops))
  {
    if ops == [] {
    } else {
      var init, op := ops[..|ops| - 1], ops[|ops| - 1];
      CodeRunsKeepTheHeap(init);
      var h, bs, e := ExecAll(init).value, Lists(init), Stored(init);
      hide InOrder, MallocCode, FreeMemory, Malloc, Free, Quiet, IsHeld;
      match op
      case Alloc(size, contents) => AllocKeepsOrder(h, bs, e, size, contents);
      case Release(ptr) => ReleaseKeepsOrder(h, bs, e, BlockAt(bs, ptr, 0));
      case Store(a, g) => StoreKeepsOrder(h, bs, e, a, g);
    }
  }
}
