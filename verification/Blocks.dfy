/**
 * The heap of libc/arch/i686/malloc.c as a list of blocks in address order. A block is
 * a header of 16 bytes and a payload; the blocks tile the heap from its first byte on.
 */
module Blocks {
  import opened Machine

  const BASE := 0xd000_0000
  const HEADER := 16

  datatype Block = Block(size: nat, used: bool)

  /** The address of the header of block `i`; for `i == |bs|`, the end of the heap. */
  function Addr(bs: seq<Block>, i: nat): (a: nat)
    requires i <= |bs|
    ensures a >= BASE
  {
    if i == 0 then BASE else Addr(bs, i - 1) + HEADER + bs[i - 1].size
  }

  function End(bs: seq<Block>): nat { Addr(bs, |bs|) }

  function Payload(bs: seq<Block>, i: nat): nat
    requires i < |bs|
  {
    Addr(bs, i) + HEADER
  }

  lemma {:induction false} AddrMonotone(bs: seq<Block>, i: nat, j: nat)
    requires i < j <= |bs|
    ensures Addr(bs, i) + HEADER + bs[i].size <= Addr(bs, j)
  {
    if i + 1 < j {
      AddrMonotone(bs, i, j - 1);
    }
  }

  /** Lists that agree on their first `i` blocks place block `i` at the same address. */
  lemma {:induction false} AddrPrefix(bs: seq<Block>, cs: seq<Block>, i: nat)
    requires i <= |bs| && i <= |cs|
    requires forall j :: 0 <= j < i ==> bs[j].size == cs[j].size
    ensures Addr(bs, i) == Addr(cs, i)
  {
    if i > 0 {
      AddrPrefix(bs, cs, i - 1);
    }
  }

  /** From a common address on, equal blocks keep equal addresses. */
  lemma {:induction false} AddrSuffix(bs: seq<Block>, i: nat, cs: seq<Block>, j: nat, n: nat)
    requires i + n <= |bs| && j + n <= |cs| && Addr(bs, i) == Addr(cs, j)
    requires bs[i..i + n] == cs[j..j + n]
    ensures Addr(bs, i + n) == Addr(cs, j + n)
  {
    if n > 0 {
      var s, t, last := bs[i..i + n - 1], cs[j..j + n - 1], n - 1;
      forall x | 0 <= x < n - 1 ensures s[x] == t[x] {
        assert s[x] == bs[i..i + n][x] == cs[j..j + n][x];
      }
      AddrSuffix(bs, i, cs, j, n - 1);
      assert bs[i + last] == bs[i..i + n][last] == cs[j..j + n][last] == cs[j + last];
    }
  }

  ghost predicate Aligned(bs: seq<Block>) {
    forall i :: 0 <= i < |bs| ==> bs[i].size % 16 == 0
  }

  lemma {:induction false} AddrAligned(bs: seq<Block>, i: nat)
    requires Aligned(bs) && i <= |bs|
    ensures Addr(bs, i) % 16 == 0
  {
    if i > 0 {
      AddrAligned(bs, i - 1);
      var a, b := Addr(bs, i - 1), bs[i - 1].size;
      assert b % 16 == 0;
      assert a == 16 * (a / 16) && b == 16 * (b / 16);
      assert Addr(bs, i) == 16 * (a / 16 + 1 + b / 16);
    }
  }

  // ---------------------------------------------------------------- requests

  /** `(size + 15) & ~15`, in 32 bits. */
  function RoundUp(size: nat): (r: nat)
    ensures r % 16 == 0 && r < TWO32
  {
    (size + 15) % TWO32 / 16 * 16
  }

  /** `(size + sizeof header) / PAGE_SIZE + 1`, in 32 bits. */
  function PagesFor(rounded: nat): (n: nat)
    ensures 1 <= n <= 0x10_0000
  {
    (rounded + HEADER) % TWO32 / PAGE_SIZE + 1
  }

  /** No 32-bit sum that `malloc` forms from the rounded size wraps. */
  predicate SumsFit(size: nat) {
    RoundUp(size) + 2 * HEADER < TWO32
  }

  /** A request is rounded up to the next multiple of 16 just when that is a 32-bit number. */
  lemma RoundUpIsEnoughExactlyWhen(size: nat)
    requires size < TWO32
    ensures size <= RoundUp(size) <==> size <= 0xffff_fff0
    ensures size <= 0xffff_fff0 ==> RoundUp(size) < size + HEADER
    ensures size > 0xffff_fff0 ==> RoundUp(size) == 0
    ensures SumsFit(size) <==> size <= 0xffff_ffd0 || size > 0xffff_fff0
  {
  }

  /** New pages hold the header and the request. */
  lemma PagesForIsEnough(rounded: nat)
    requires rounded + HEADER < TWO32
    ensures HEADER + rounded <= PAGE_SIZE * PagesFor(rounded)
    ensures rounded % 16 == 0 ==> (PAGE_SIZE * PagesFor(rounded) - HEADER) % 16 == 0
    ensures 4096 * (PagesFor(rounded) - 1) <= rounded + 16 < 4096 * PagesFor(rounded)
  {
  }

  /** For sizes just below 2^32 one page is requested, and the split puts the second header on the first. */
  lemma LargestRequestsSplitOntoThemselves(size: nat, hdr: nat)
    requires 0xffff_ffe0 < size <= 0xffff_fff0 && hdr < TWO32
    ensures PagesFor(RoundUp(size)) == 1
    ensures (hdr + HEADER + RoundUp(size)) % TWO32 == hdr
  {
  }

  // ---------------------------------------------------------------- malloc

  predicate Fits(b: Block, size: nat) {
    !b.used && size <= b.size
  }

  /** The lowest block from `i` on that fits, or the number of blocks. */
  function FirstFit(bs: seq<Block>, size: nat, i: nat): (k: nat)
    requires i <= |bs|
    ensures i <= k <= |bs|
    ensures k < |bs| ==> Fits(bs[k], size)
    ensures forall j :: i <= j < k ==> !Fits(bs[j], size)
    decreases |bs| - i
  {
    if i == |bs| || Fits(bs[i], size) then i else FirstFit(bs, size, i + 1)
  }

  predicate NeedsGrowth(bs: seq<Block>, size: nat) {
    FirstFit(bs, RoundUp(size), 0) == |bs|
  }

  /** The block list with `n` more pages as one free block at the end. */
  function Grow(bs: seq<Block>, n: nat): seq<Block>
    requires n > 0
  {
    bs + [Block(PAGE_SIZE * n - HEADER, false)]
  }

  predicate Splits(b: Block, size: nat) {
    b.size >= size + 2 * HEADER
  }

  /** Block `k` becomes a used block for `size` bytes, and what is left of it a free one if that is large enough. */
  function Place(bs: seq<Block>, k: nat, size: nat): seq<Block>
    requires k < |bs|
  {
    if Splits(bs[k], size)
    then bs[..k] + [Block(size, true), Block(bs[k].size - size - HEADER, false)] + bs[k + 1..]
    else bs[k := Block(bs[k].size, true)]
  }

  /** Bytes by which `malloc(size)` extends the heap. */
  function Growth(bs: seq<Block>, size: nat): nat {
    if NeedsGrowth(bs, size) then PAGE_SIZE * PagesFor(RoundUp(size)) else 0
  }

  /** The list after `malloc(size)`, and the index of the block whose payload it returns. */
  function Malloc(bs: seq<Block>, size: nat): (seq<Block>, nat) {
    var k := FirstFit(bs, RoundUp(size), 0);
    var grown := if k == |bs| then Grow(bs, PagesFor(RoundUp(size))) else bs;
    (Place(grown, k, RoundUp(size)), k)
  }

  // ---------------------------------------------------------------- free

  /** Blocks `k` and `k + 1` become one block that starts at the first and ends with the second. */
  function Merge(bs: seq<Block>, k: nat): seq<Block>
    requires k + 1 < |bs|
  {
    bs[..k] + [Block(bs[k].size + HEADER + bs[k + 1].size, bs[k].used)] + bs[k + 2..]
  }

  predicate PrevFree(bs: seq<Block>, k: nat)
    requires k < |bs|
  {
    k > 0 && !bs[k - 1].used
  }

  predicate NextFree(bs: seq<Block>, k: nat)
    requires k < |bs|
  {
    k + 1 < |bs| && !bs[k + 1].used
  }

  /** What `free` is for: block `k` becomes free and is merged with its free neighbours. */
  function Free(bs: seq<Block>, k: nat): seq<Block>
    requires k < |bs|
  {
    var freed := bs[k := Block(bs[k].size, false)];
    var right := if NextFree(bs, k) then Merge(freed, k) else freed;
    if PrevFree(bs, k) then Merge(right, k - 1) else right
  }

  // ---------------------------------------------------------------- what users see

  /** Address and size of every payload handed out and not freed. */
  ghost function Live(bs: seq<Block>): set<(nat, nat)> {
    set i | 0 <= i < |bs| && bs[i].used :: (Payload(bs, i), bs[i].size)
  }

  /** Payloads never overlap each other or a header, and lie inside the heap. */
  lemma PayloadsAreDisjoint(bs: seq<Block>, i: nat, j: nat)
    requires i < |bs| && j < |bs| && i != j
    ensures Payload(bs, i) + bs[i].size <= Addr(bs, j) || Payload(bs, j) + bs[j].size <= Addr(bs, i)
    ensures BASE + HEADER <= Payload(bs, i) && Payload(bs, i) + bs[i].size <= End(bs)
  {
    if i < j {
      AddrMonotone(bs, i, j);
    } else {
      AddrMonotone(bs, j, i);
    }
    AddrMonotone(bs, i, |bs|);
  }

  ghost predicate NoFreeNeighbours(bs: seq<Block>) {
    forall i :: 0 <= i && i + 1 < |bs| ==> bs[i].used || bs[i + 1].used
  }

  /** The heap is made of whole pages. */
  predicate WholePages(bs: seq<Block>) {
    End(bs) % PAGE_SIZE == 0
  }

  ghost predicate Sound(bs: seq<Block>) {
    Aligned(bs) && WholePages(bs)
  }

  // -- malloc

  lemma PlaceAddresses(bs: seq<Block>, k: nat, size: nat)
    requires k < |bs| && Splits(bs[k], size)
    ensures var cs := Place(bs, k, size);
            && |cs| == |bs| + 1
            && (forall i :: 0 <= i <= k ==> Addr(cs, i) == Addr(bs, i))
            && (forall i :: k < i <= |bs| ==> Addr(cs, i + 1) == Addr(bs, i))
  {
    var cs := Place(bs, k, size);
    forall i | 0 <= i <= k ensures Addr(cs, i) == Addr(bs, i) {
      AddrPrefix(cs, bs, i);
    }
    forall i | k < i <= |bs| ensures Addr(cs, i + 1) == Addr(bs, i) {
      assert Addr(cs, k + 2) == Addr(bs, k + 1);
      AddrSuffix(cs, k + 2, bs, k + 1, i - k - 1);
    }
  }

  lemma SameAddresses(bs: seq<Block>, cs: seq<Block>)
    requires |bs| == |cs| && forall i :: 0 <= i < |bs| ==> bs[i].size == cs[i].size
    ensures forall i :: 0 <= i <= |bs| ==> Addr(cs, i) == Addr(bs, i)
  {
    forall i | 0 <= i <= |bs| ensures Addr(cs, i) == Addr(bs, i) {
      AddrPrefix(cs, bs, i);
    }
  }

  /** Placing takes one free payload and makes it, or its front part, live. */
  lemma PlaceMakesLive(bs: seq<Block>, k: nat, size: nat)
    requires k < |bs| && Fits(bs[k], size)
    ensures var cs := Place(bs, k, size);
            && k < |cs| && cs[k].used && cs[k].size >= size
            && Payload(cs, k) == Payload(bs, k) && End(cs) == End(bs)
            && Live(cs) == Live(bs) + {(Payload(cs, k), cs[k].size)}
  {
    var cs := Place(bs, k, size);
    if Splits(bs[k], size) {
      PlaceAddresses(bs, k, size);
      forall i | 0 <= i < |bs| && bs[i].used
        ensures (Payload(bs, i), bs[i].size) in Live(cs)
      {
        var j := if i < k then i else i + 1;
        assert cs[j] == bs[i] && Payload(cs, j) == Payload(bs, i);
      }
      forall j | 0 <= j < |cs| && cs[j].used && j != k
        ensures (Payload(cs, j), cs[j].size) in Live(bs)
      {
        var i := if j < k then j else j - 1;
        assert cs[j] == bs[i] && Payload(cs, j) == Payload(bs, i);
      }
    } else {
      SameAddresses(bs, cs);
      forall i | 0 <= i < |bs| && i != k
        ensures cs[i] == bs[i] && Payload(cs, i) == Payload(bs, i)
      {
      }
    }
  }

  lemma GrowKeepsLive(bs: seq<Block>, n: nat)
    requires n > 0
    ensures var cs := Grow(bs, n);
            && Live(cs) == Live(bs) && End(cs) == End(bs) + PAGE_SIZE * n
            && forall i :: 0 <= i <= |bs| ==> Addr(cs, i) == Addr(bs, i)
  {
    var cs := Grow(bs, n);
    forall i | 0 <= i <= |bs| ensures Addr(cs, i) == Addr(bs, i) {
      AddrPrefix(cs, bs, i);
    }
    forall i | 0 <= i < |bs| ensures cs[i] == bs[i] && Payload(cs, i) == Payload(bs, i) {
    }
  }

  /**
   * What a caller of `malloc` gets: a new payload, aligned to 16 bytes and large enough,
   * besides all payloads there were; the heap ends where it did, or the requested
   * number of pages later.
   */
  lemma MallocGivesNewPayload(bs: seq<Block>, size: nat)
    requires Sound(bs) && SumsFit(size)
    ensures var (cs, k) := Malloc(bs, size);
            && k < |cs| && cs[k].used
            && Payload(cs, k) % 16 == 0 && RoundUp(size) <= cs[k].size < RoundUp(size) + 32
            && Live(cs) == Live(bs) + {(Payload(cs, k), cs[k].size)}
            && (forall z :: (Payload(cs, k), z) !in Live(bs))
            && End(cs) == End(bs) + Growth(bs, size)
            && Sound(cs)
  {
    MallocGrants(bs, size);
    PagesForIsEnough(RoundUp(size));
    hide Live, Place, IsGranted;
    var rounded := RoundUp(size);
    var k := FirstFit(bs, rounded, 0);
    var n := PagesFor(rounded);
    hide RoundUp, PagesFor, Aligned;
    GrowIsAligned(bs, n);
    var grown := if k == |bs| then Grow(bs, n) else bs;
    if k == |bs| {
      GrowKeepsLive(bs, n);
    }
    PlaceGivesNewPayload(grown, k, rounded);
  }

  lemma GrowIsAligned(bs: seq<Block>, n: nat)
    requires Aligned(bs) && n > 0
    ensures Aligned(Grow(bs, n))
  {
    assert PAGE_SIZE * n - HEADER == 16 * (256 * n - 1);
    var cs := Grow(bs, n);
    forall i | 0 <= i < |cs| ensures cs[i].size % 16 == 0 {
      assert i < |bs| ==> cs[i] == bs[i];
    }
  }

  lemma PlaceIsAligned(bs: seq<Block>, k: nat, size: nat)
    requires Aligned(bs) && k < |bs| && Fits(bs[k], size) && size % 16 == 0
    ensures var cs := Place(bs, k, size); Aligned(cs) && k < |cs| && cs[k].used && size <= cs[k].size
  {
    var cs, a := Place(bs, k, size), bs[k].size;
    assert a % 16 == 0;
    if Splits(bs[k], size) {
      assert a - size - HEADER == 16 * (a / 16 - size / 16 - 1);
    }
    forall i | 0 <= i < |cs| ensures cs[i].size % 16 == 0 {
      if Splits(bs[k], size) {
        assert i > k + 1 ==> cs[i] == bs[i - 1];
      }
    }
  }

  lemma PlaceGivesNewPayload(bs: seq<Block>, k: nat, size: nat)
    requires Aligned(bs) && k < |bs| && Fits(bs[k], size) && size % 16 == 0
    ensures var cs := Place(bs, k, size);
            && k < |cs| && cs[k].used && Aligned(cs)
            && Payload(cs, k) % 16 == 0 && size <= cs[k].size && End(cs) == End(bs)
            && Live(cs) == Live(bs) + {(Payload(cs, k), cs[k].size)}
            && (forall z :: (Payload(cs, k), z) !in Live(bs))
  {
    PlaceIsAligned(bs, k, size);
    PlaceMakesLive(bs, k, size);
    hide Aligned, Place;
    var cs := Place(bs, k, size);
    AddrAligned(cs, k);
    forall z | (Payload(cs, k), z) in Live(bs) ensures false {
      var i :| 0 <= i < |bs| && bs[i].used && Payload(bs, i) == Payload(cs, k);
      PayloadsAreDisjoint(bs, i, k);
    }
  }

  /** Block `k` is the first that is free and has room for `size` bytes; there may be none before the end. */
  predicate IsFirstWithRoom(bs: seq<Block>, k: nat, size: nat) {
    && k <= |bs|
    && (forall j :: 0 <= j < k ==> bs[j].used || bs[j].size < size)
    && (k < |bs| ==> !bs[k].used && bs[k].size >= size)
  }

  /**
   * The blocks before and behind block `k` stay. Of the `was` bytes it had it keeps `size`, and a free
   * block holds the rest, if that leaves 16 bytes for a header and 16 more; else it keeps them all.
   */
  predicate IsCarved(bs: seq<Block>, cs: seq<Block>, k: nat, was: nat, size: nat) {
    && k <= |bs| && k < |cs| && cs[..k] == bs[..k]
    && if was >= size + 32
       then k + 1 < |cs| && cs[k] == Block(size, true) && cs[k + 1] == Block(was - size - 16, false)
            && cs[k + 2..] == bs[if k < |bs| then k + 1 else k..]
       else cs[k] == Block(was, true) && cs[k + 1..] == bs[if k < |bs| then k + 1 else k..]
  }

  /** Where the payload comes from: the first block with room or whole new pages, and no more of it than asked for. */
  ghost predicate IsGranted(bs: seq<Block>, cs: seq<Block>, k: nat, size: nat) {
    && IsFirstWithRoom(bs, k, size)
    && if k < |bs| then IsCarved(bs, cs, k, bs[k].size, size)
       else exists n: nat :: 4096 * n <= size + 16 < 4096 * (n + 1) && IsCarved(bs, cs, k, 4096 * (n + 1) - 16, size)
  }

  /** `malloc` takes the first block with room, or just the pages it needs, and cuts the block to size. */
  lemma MallocGrants(bs: seq<Block>, size: nat)
    requires SumsFit(size)
    ensures var (cs, k) := Malloc(bs, size); IsGranted(bs, cs, k, RoundUp(size)) && cs[k].size < RoundUp(size) + 32
  {
    var rounded := RoundUp(size);
    var (cs, k) := Malloc(bs, size);
    if k == |bs| {
      PagesForIsEnough(rounded);
      var n := PagesFor(rounded) - 1;
      PlaceCarves(bs, Grow(bs, n + 1), k, rounded);
      assert IsCarved(bs, cs, k, 4096 * (n + 1) - 16, rounded);
    } else {
      PlaceCarves(bs, bs, k, rounded);
    }
  }

  lemma PlaceCarves(bs: seq<Block>, grown: seq<Block>, k: nat, size: nat)
    requires k < |grown| && Fits(grown[k], size)
    requires if k < |bs| then grown == bs else k == |bs| && grown == bs + [grown[k]]
    ensures IsCarved(bs, Place(grown, k, size), k, grown[k].size, size)
  {
    var cs := Place(grown, k, size);
    assert cs[..k] == grown[..k] == bs[..k];
    var rest := bs[if k < |bs| then k + 1 else k..];
    assert grown[k + 1..] == rest;
    if grown[k].size >= size + 32 {
      assert cs[k + 2..] == grown[k + 1..];
    } else {
      assert cs[k + 1..] == grown[k + 1..];
    }
  }

  /** 2048 bytes and then 1024: both come from the first page, the second header right behind the first payload. */
  lemma TwoRequestsShareAPage()
    ensures var bs := [Block(2048, true), Block(2016, false)];
            && Malloc([], 2048) == (bs, 0) && Payload(bs, 0) == 0xd000_0010
            && Malloc(bs, 1024) == ([Block(2048, true), Block(1024, true), Block(976, false)], 1)
            && Payload(Malloc(bs, 1024).0, 1) == 0xd000_0820
  {
    var bs, cs := [Block(2048, true), Block(2016, false)], [Block(2048, true), Block(1024, true), Block(976, false)];
    var page := [Block(4080, false)];
    assert Grow([], 1) == page && Place(page, 0, 2048) == bs;
    assert FirstFit(bs, 1024, 1) == 1 && Place(bs, 1, 1024) == cs;
    assert Addr(bs, 0) == 0xd000_0000 && Addr(cs, 1) == Addr(cs, 0) + 16 + 2048;
  }

  /** The payload is at least as large as requested exactly when the rounding does not wrap to nothing. */
  lemma RequestIsMetExactlyWhen(bs: seq<Block>, size: nat)
    requires Sound(bs) && SumsFit(size) && size < TWO32
    ensures var (cs, k) := Malloc(bs, size);
            k < |cs| && (size <= cs[k].size <==> size <= 0xffff_ffd0)
  {
    MallocGivesNewPayload(bs, size);
    if RoundUp(size) == 0 && size > 0 {
      PlacedSize(bs, FirstFit(bs, 0, 0), size);
    }
  }

  /** Nothing is requested of block `k`: its payload is left smaller than two headers. */
  lemma PlacedSize(bs: seq<Block>, k: nat, size: nat)
    requires RoundUp(size) == 0 && k == FirstFit(bs, 0, 0)
    ensures var (cs, j) := Malloc(bs, size); j == k < |cs| && cs[j].size < 2 * HEADER
  {
  }

  /** A request for all of memory is granted, with no memory. */
  lemma LargestRequestGetsNothing()
    ensures SumsFit(0xffff_ffff) && Malloc([], 0xffff_ffff).0[0] == Block(0, true)
  {
  }

  /** Unless it grows the heap, `malloc` takes the fitting block with the lowest address. */
  lemma MallocTakesLowestFit(bs: seq<Block>, size: nat)
    requires !NeedsGrowth(bs, size)
    ensures var k := Malloc(bs, size).1;
            && k < |bs| && Fits(bs[k], RoundUp(size))
            && forall j :: 0 <= j < |bs| && Fits(bs[j], RoundUp(size)) ==> Addr(bs, k) <= Addr(bs, j)
  {
    var k := FirstFit(bs, RoundUp(size), 0);
    forall j | 0 <= j < |bs| && Fits(bs[j], RoundUp(size)) ensures Addr(bs, k) <= Addr(bs, j) {
      if k < j {
        AddrMonotone(bs, k, j);
      }
    }
  }

  lemma MallocKeepsNoFreeNeighbours(bs: seq<Block>, size: nat)
    requires NoFreeNeighbours(bs)
    ensures NoFreeNeighbours(Malloc(bs, size).0)
  {
  }

  // -- free

  lemma MergeAddresses(bs: seq<Block>, k: nat)
    requires k + 1 < |bs|
    ensures var cs := Merge(bs, k);
            && |cs| == |bs| - 1
            && (forall i :: 0 <= i <= k ==> Addr(cs, i) == Addr(bs, i))
            && (forall i :: k < i <= |cs| ==> Addr(cs, i) == Addr(bs, i + 1))
  {
    var cs := Merge(bs, k);
    forall i | 0 <= i <= k ensures Addr(cs, i) == Addr(bs, i) {
      AddrPrefix(cs, bs, i);
    }
    forall i | k < i <= |cs| ensures Addr(cs, i) == Addr(bs, i + 1) {
      assert Addr(bs, k + 2) == Addr(bs, k + 1) + HEADER + bs[k + 1].size;
      assert Addr(cs, k + 1) == Addr(bs, k + 2);
      AddrSuffix(cs, k + 1, bs, k + 2, i - k - 1);
    }
  }

  /** Merging two free blocks is invisible to users. */
  lemma MergeKeepsLive(bs: seq<Block>, k: nat)
    requires k + 1 < |bs| && !bs[k].used && !bs[k + 1].used
    ensures Live(Merge(bs, k)) == Live(bs) && End(Merge(bs, k)) == End(bs)
    ensures Aligned(bs) ==> Aligned(Merge(bs, k))
  {
    var cs := Merge(bs, k);
    MergeAddresses(bs, k);
    if Aligned(bs) {
      MergeIsAligned(bs, k);
    }
    hide Aligned;
    forall i | 0 <= i < |bs| && bs[i].used
      ensures (Payload(bs, i), bs[i].size) in Live(cs)
    {
      var j := if i < k then i else i - 1;
      assert cs[j] == bs[i] && Payload(cs, j) == Payload(bs, i);
    }
    forall j | 0 <= j < |cs| && cs[j].used
      ensures (Payload(cs, j), cs[j].size) in Live(bs)
    {
      var i := if j < k then j else j + 1;
      assert cs[j] == bs[i] && Payload(cs, j) == Payload(bs, i);
    }
  }

  lemma MergeIsAligned(bs: seq<Block>, k: nat)
    requires Aligned(bs) && k + 1 < |bs|
    ensures Aligned(Merge(bs, k))
  {
    var cs, a, b := Merge(bs, k), bs[k].size, bs[k + 1].size;
    assert a % 16 == 0 && b % 16 == 0;
    assert a + HEADER + b == 16 * (a / 16 + 1 + b / 16);
    forall i | 0 <= i < |cs| ensures cs[i].size % 16 == 0 {
      assert cs[i] == if i < k then bs[i] else if i == k then Block(a + HEADER + b, bs[k].used) else bs[i + 1];
    }
  }

  /** What a caller of a working `free` sees: exactly that payload is gone. */
  lemma FreeRemovesPayload(bs: seq<Block>, k: nat)
    requires Sound(bs) && k < |bs| && bs[k].used
    ensures var cs := Free(bs, k);
            && Live(cs) == Live(bs) - {(Payload(bs, k), bs[k].size)}
            && End(cs) == End(bs) && Sound(cs)
  {
    var freed := bs[k := Block(bs[k].size, false)];
    MarkingFreeRemoves(bs, k);
    var right := if NextFree(bs, k) then Merge(freed, k) else freed;
    if NextFree(bs, k) {
      MergeKeepsLive(freed, k);
    }
    if PrevFree(bs, k) {
      MergeKeepsLive(right, k - 1);
    }
  }

  lemma MarkingFreeRemoves(bs: seq<Block>, k: nat)
    requires k < |bs| && bs[k].used
    ensures var freed := bs[k := Block(bs[k].size, false)];
            && Live(freed) == Live(bs) - {(Payload(bs, k), bs[k].size)}
            && End(freed) == End(bs) && (Aligned(bs) ==> Aligned(freed))
  {
    var freed := bs[k := Block(bs[k].size, false)];
    SameAddresses(bs, freed);
    forall i | 0 <= i < |bs| && i != k
      ensures freed[i] == bs[i] && Payload(freed, i) == Payload(bs, i) && Payload(bs, i) != Payload(bs, k)
    {
      PayloadsAreDisjoint(bs, i, k);
    }
  }

  lemma FreeKeepsNoFreeNeighbours(bs: seq<Block>, k: nat)
    requires NoFreeNeighbours(bs) && k < |bs| && bs[k].used
    ensures NoFreeNeighbours(Free(bs, k))
  {
  }

  // ---------------------------------------------------------------- runs

  datatype Op = Alloc(size: nat) | Release(ptr: nat)

  /** The block whose payload starts at `ptr`, searching from block `i`. */
  function BlockAt(bs: seq<Block>, ptr: nat, i: nat): (k: nat)
    requires i <= |bs|
    ensures i <= k <= |bs| && (k < |bs| ==> Payload(bs, k) == ptr)
    ensures forall j :: i <= j < k ==> Payload(bs, j) != ptr
    decreases |bs| - i
  {
    if i == |bs| || Payload(bs, i) == ptr then i else BlockAt(bs, ptr, i + 1)
  }

  /** A request whose sums fit, or a pointer that is live. */
  predicate Legal(bs: seq<Block>, op: Op) {
    match op
    case Alloc(size) => SumsFit(size)
    case Release(ptr) => var k := BlockAt(bs, ptr, 0); k < |bs| && bs[k].used
  }

  /**
   * A run of the heap. `held` is kept from the callers' side: what calls returned and
   * have not given back. `pages` counts growth.
   */
  datatype Trace = Trace(bs: seq<Block>, held: set<(nat, nat)>, pages: nat)

  ghost function Next(t: Trace, op: Op): Trace
    requires Legal(t.bs, op)
  {
    match op
    case Alloc(size) =>
      var (bs, k) := Malloc(t.bs, size);
      Trace(bs, t.held + {(Payload(bs, k), bs[k].size)}, t.pages + Growth(t.bs, size) / PAGE_SIZE)
    case Release(ptr) =>
      Trace(Free(t.bs, BlockAt(t.bs, ptr, 0)), (set h | h in t.held && h.0 != ptr), t.pages)
  }

  /** Every operation of the run is legal when its turn comes. */
  ghost predicate LegalRun(ops: seq<Op>)
    decreases |ops|, 0
  {
    ops == [] || (LegalRun(ops[..|ops| - 1]) && Legal(Run(ops[..|ops| - 1]).bs, ops[|ops| - 1]))
  }

  /** A legal run from the empty heap. */
  ghost function Run(ops: seq<Op>): Trace
    requires LegalRun(ops)
    decreases |ops|, 1
  {
    if ops == [] then Trace([], {}, 0) else Next(Run(ops[..|ops| - 1]), ops[|ops| - 1])
  }

  ghost predicate HeapInvariant(t: Trace) {
    && t.held == Live(t.bs)
    && Sound(t.bs) && NoFreeNeighbours(t.bs)
    && End(t.bs) == BASE + PAGE_SIZE * t.pages
  }

  lemma NextKeepsInvariant(t: Trace, op: Op)
    requires HeapInvariant(t) && Legal(t.bs, op)
    ensures HeapInvariant(Next(t, op))
  {
    match op
    case Alloc(size) =>
      MallocGivesNewPayload(t.bs, size);
      MallocKeepsNoFreeNeighbours(t.bs, size);
    case Release(ptr) =>
      var k := BlockAt(t.bs, ptr, 0);
      FreeRemovesPayload(t.bs, k);
      FreeKeepsNoFreeNeighbours(t.bs, k);
      OneBlockPerPointer(t.bs, k);
  }

  /**
   * Over every legal run: the payloads the callers hold are exactly the live ones, the
   * blocks tile the pages grown, sizes are multiples of 16, and no two neighbours are free.
   */
  lemma {:induction false} RunsKeepTheHeap(ops: seq<Op>)
    requires LegalRun(ops)
    ensures HeapInvariant(Run(ops))
  {
    if ops != [] {
      RunsKeepTheHeap(ops[..|ops| - 1]);
      NextKeepsInvariant(Run(ops[..|ops| - 1]), ops[|ops| - 1]);
    }
  }

  lemma OneBlockPerPointer(bs: seq<Block>, k: nat)
    requires k < |bs| && bs[k].used
    ensures (set h | h in Live(bs) && h.0 != Payload(bs, k)) == Live(bs) - {(Payload(bs, k), bs[k].size)}
  {
    forall h | h in Live(bs) && h.0 == Payload(bs, k) ensures h == (Payload(bs, k), bs[k].size) {
      var i :| 0 <= i < |bs| && bs[i].used && h == (Payload(bs, i), bs[i].size);
      if i != k {
        PayloadsAreDisjoint(bs, i, k);
      }
    }
  }

  lemma LivePayloadsAreDisjoint(bs: seq<Block>, a: (nat, nat), b: (nat, nat))
    requires Aligned(bs) && a in Live(bs) && b in Live(bs) && a != b
    ensures a.0 + a.1 + HEADER <= b.0 || b.0 + b.1 + HEADER <= a.0
    ensures a.0 % 16 == 0 && BASE <= a.0 && a.0 + a.1 <= End(bs)
  {
    var i :| 0 <= i < |bs| && bs[i].used && a == (Payload(bs, i), bs[i].size);
    var j :| 0 <= j < |bs| && bs[j].used && b == (Payload(bs, j), bs[j].size);
    PayloadsAreDisjoint(bs, i, j);
    AddrAligned(bs, i);
  }

  /** What callers hold never overlaps, with room for a header between any two. */
  lemma HeldPayloadsAreDisjoint(ops: seq<Op>, a: (nat, nat), b: (nat, nat))
    requires LegalRun(ops) && a in Run(ops).held && b in Run(ops).held && a != b
    ensures a.0 + a.1 + HEADER <= b.0 || b.0 + b.1 + HEADER <= a.0
    ensures a.0 % 16 == 0 && BASE <= a.0 && a.0 + a.1 <= BASE + PAGE_SIZE * Run(ops).pages
  {
    RunsKeepTheHeap(ops);
    LivePayloadsAreDisjoint(Run(ops).bs, a, b);
  }
}
