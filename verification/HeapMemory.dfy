/**
 * The heap as memory: headers lie in band, between the payloads. Headers and payloads
 * are multiples of 16 bytes at multiples of 16, so memory is a map from such addresses to
 * 16 bytes each, read with the layout of `struct alloc_header`. An address that is
 * not mapped is not in the map.
 */
module HeapMemory {
  import opened Blocks
  import opened Machine

  /**
   * Sixteen bytes: the USED and END_OF_MEMORY bits of `status`, its other six bits, the
   * words `size` and `prev_header`, and in `pad` the bytes that belong to no field.
   */
  datatype Granule = Granule(used: bool, end: bool, rest: nat, size: nat, prev: nat, pad: nat)

  type Memory = map<nat, Granule>

  function PrevOf(bs: seq<Block>, i: nat): nat
    requires i < |bs|
  {
    if i == 0 then 0 else Addr(bs, i - 1)
  }

  /** The header of block `i` is at its address and says what it should. */
  predicate HeaderOk(m: Memory, bs: seq<Block>, i: nat)
    requires i < |bs|
  {
    var h := Addr(bs, i);
    h in m && m[h].used == bs[i].used && m[h].end == (i == |bs| - 1) && m[h].rest == 0
    && m[h].size == bs[i].size && m[h].prev == PrevOf(bs, i)
  }

  ghost predicate HeadersOk(m: Memory, bs: seq<Block>) {
    forall i :: 0 <= i < |bs| ==> HeaderOk(m, bs, i)
  }

  /** Exactly the heap up to `end` is mapped. */
  ghost predicate Covers(m: Memory, end: nat) {
    forall a :: a in m <==> BASE <= a < end && a % 16 == 0
  }

  /** Memory holds the block list: every header names its block and the block before it. */
  ghost predicate Holds(m: Memory, bs: seq<Block>) {
    Aligned(bs) && Covers(m, End(bs)) && HeadersOk(m, bs)
  }

  lemma HeaderIsMapped(m: Memory, bs: seq<Block>, i: nat)
    requires HeadersOk(m, bs) && i < |bs|
    ensures HeaderOk(m, bs, i) && Addr(bs, i) in m
  {
  }

  /** Address `a` lies in the payload of block `i`. */
  predicate InPayload(bs: seq<Block>, i: nat, a: nat)
    requires i < |bs|
  {
    Payload(bs, i) <= a < Payload(bs, i) + bs[i].size
  }

  /** Every payload in use is what it was. */
  ghost predicate PayloadsKept(m: Memory, m': Memory, bs: seq<Block>) {
    forall i, a :: 0 <= i < |bs| && bs[i].used && InPayload(bs, i, a) && a in m ==> a in m' && m'[a] == m[a]
  }

  /** Keeping payloads carries over to any list with no other payloads in use. */
  lemma KeptForLive(m: Memory, m': Memory, bs: seq<Block>, cs: seq<Block>)
    requires PayloadsKept(m, m', bs) && Live(cs) <= Live(bs)
    ensures PayloadsKept(m, m', cs)
  {
    forall i, a | 0 <= i < |cs| && cs[i].used && InPayload(cs, i, a) && a in m
      ensures a in m' && m'[a] == m[a]
    {
      assert (Payload(cs, i), cs[i].size) in Live(cs);
      var j :| 0 <= j < |bs| && bs[j].used && Payload(bs, j) == Payload(cs, i) && bs[j].size == cs[i].size;
      assert InPayload(bs, j, a);
    }
  }

  lemma KeptThrough(m: Memory, m1: Memory, m2: Memory, bs: seq<Block>)
    requires PayloadsKept(m, m1, bs) && PayloadsKept(m1, m2, bs)
    ensures PayloadsKept(m, m2, bs)
  {
  }

  lemma HeadersApart(bs: seq<Block>, i: nat, j: nat)
    requires i < |bs| && j < |bs| && i != j
    ensures Addr(bs, i) != Addr(bs, j)
  {
    PayloadsAreDisjoint(bs, i, j);
  }

  lemma HeaderOutsidePayloads(bs: seq<Block>, k: nat, i: nat)
    requires k < |bs| && i < |bs|
    ensures !InPayload(bs, i, Addr(bs, k))
  {
    if i != k {
      PayloadsAreDisjoint(bs, i, k);
    }
  }

  // ---------------------------------------------------------------- one block

  /** Writing the USED bit of block `k` changes whether it is used, and nothing else. */
  lemma SetUsedHolds(m: Memory, bs: seq<Block>, k: nat, used: bool)
    requires Holds(m, bs) && k < |bs|
    ensures HeaderOk(m, bs, k)
    ensures var h := Addr(bs, k);
            var m' := m[h := m[h].(used := used)];
            Holds(m', bs[k := Block(bs[k].size, used)]) && PayloadsKept(m, m', bs)
  {
    var h, cs := Addr(bs, k), bs[k := Block(bs[k].size, used)];
    assert HeaderOk(m, bs, k);
    var m' := m[h := m[h].(used := used)];
    SameAddresses(bs, cs);
    forall i | 0 <= i < |cs| ensures HeaderOk(m', cs, i) {
      assert HeaderOk(m, bs, i);
      if i != k {
        HeadersApart(bs, i, k);
      }
    }
    forall i, a | 0 <= i < |bs| && bs[i].used && InPayload(bs, i, a) && a in m
      ensures m'[a] == m[a]
    {
      HeaderOutsidePayloads(bs, k, i);
    }
  }

  // ---------------------------------------------------------------- splitting

  /** Memory after the split in `malloc`: `h` is the block, `nx` the new header. */
  function SplitMemory(m: Memory, h: nat, size: nat): Memory
    requires h in m && m[h].size >= size + HEADER
    requires h + HEADER + size in m
    requires !m[h].end ==> h + HEADER + m[h].size in m
  {
    var remaining := m[h].size - (size + HEADER);
    var nx := h + HEADER + size;
    var m1 := m[h := m[h].(size := size)];
    var m2 := m1[nx := m1[nx].(used := false, end := false, rest := 0, prev := h, size := remaining)];
    if m2[h].end then
      var m3 := m2[h := m2[h].(end := false)];
      m3[nx := m3[nx].(end := true)]
    else
      var nn := nx + HEADER + remaining;
      m2[nn := m2[nn].(prev := nx)]
  }

  function SplitBlocks(bs: seq<Block>, k: nat, size: nat): seq<Block>
    requires k < |bs| && Splits(bs[k], size)
  {
    bs[..k] + [Block(size, bs[k].used), Block(bs[k].size - size - HEADER, false)] + bs[k + 1..]
  }

  lemma SplitAddresses(bs: seq<Block>, k: nat, size: nat)
    requires k < |bs| && Splits(bs[k], size)
    ensures var cs := SplitBlocks(bs, k, size);
            && |cs| == |bs| + 1
            && (forall i :: 0 <= i <= k ==> Addr(cs, i) == Addr(bs, i))
            && Addr(cs, k + 1) == Addr(bs, k) + HEADER + size
            && (forall i :: k < i <= |bs| ==> Addr(cs, i + 1) == Addr(bs, i))
  {
    PlaceAddresses(bs, k, size);
    SameAddresses(SplitBlocks(bs, k, size), Place(bs, k, size));
  }

  lemma SplitIsMapped(m: Memory, bs: seq<Block>, k: nat, size: nat)
    requires Holds(m, bs) && k < |bs| && Splits(bs[k], size) && size % 16 == 0
    ensures HeaderOk(m, bs, k) && Addr(bs, k) + HEADER + size in m
    ensures k + 1 < |bs| ==> HeaderOk(m, bs, k + 1)
  {
    AddrAligned(bs, k);
    var a := Addr(bs, k);
    assert a == 16 * (a / 16) && size == 16 * (size / 16);
    assert a + HEADER + size == 16 * (a / 16 + 1 + size / 16);
    AddrMonotone(bs, k, |bs|);
    assert HeaderOk(m, bs, k);
  }

  lemma SplitHolds(m: Memory, bs: seq<Block>, k: nat, size: nat)
    requires Holds(m, bs) && k < |bs| && Splits(bs[k], size) && size % 16 == 0
    ensures HeaderOk(m, bs, k) && Addr(bs, k) + HEADER + size in m
    ensures k + 1 < |bs| ==> HeaderOk(m, bs, k + 1)
    ensures Holds(SplitMemory(m, Addr(bs, k), size), SplitBlocks(bs, k, size))
  {
    SplitIsMapped(m, bs, k, size);
    SplitHeaders(m, bs, k, size);
    SplitShape(bs, k, size);
  }

  lemma SplitShape(bs: seq<Block>, k: nat, size: nat)
    requires Aligned(bs) && k < |bs| && Splits(bs[k], size) && size % 16 == 0
    ensures Aligned(SplitBlocks(bs, k, size)) && End(SplitBlocks(bs, k, size)) == End(bs)
  {
    SplitAddresses(bs, k, size);
    assert (bs[k].size - size - HEADER) % 16 == 0;
  }

  /** Two headers are written in a split, and the back link behind them. */
  lemma SplitHeaders(m: Memory, bs: seq<Block>, k: nat, size: nat)
    requires HeadersOk(m, bs) && k < |bs| && Splits(bs[k], size)
    requires HeaderOk(m, bs, k) && Addr(bs, k) + HEADER + size in m
    requires k + 1 < |bs| ==> HeaderOk(m, bs, k + 1)
    ensures SplitMemory(m, Addr(bs, k), size).Keys == m.Keys
    ensures HeadersOk(SplitMemory(m, Addr(bs, k), size), SplitBlocks(bs, k, size))
  {
    var m', cs := SplitMemory(m, Addr(bs, k), size), SplitBlocks(bs, k, size);
    SplitAddresses(bs, k, size);
    forall i | 0 <= i < |cs| ensures HeaderOk(m', cs, i) {
      if i < k {
        assert HeaderOk(m, bs, i);
      } else if i > k + 1 {
        assert HeaderOk(m, bs, i - 1);
      }
      if i != k {
        HeadersApart(cs, i, k);
      }
      if i != k + 1 {
        HeadersApart(cs, i, k + 1);
      }
      if k + 2 < |cs| && i != k + 2 {
        HeadersApart(cs, i, k + 2);
      }
    }
  }

  /** The split writes only headers and the part it cuts off. */
  lemma SplitKeepsPayloads(m: Memory, bs: seq<Block>, k: nat, size: nat)
    requires HeadersOk(m, bs) && k < |bs| && Splits(bs[k], size)
    requires HeaderOk(m, bs, k) && Addr(bs, k) + HEADER + size in m
    requires k + 1 < |bs| ==> HeaderOk(m, bs, k + 1)
    ensures var unused := bs[k := Block(bs[k].size, false)];
            PayloadsKept(m, SplitMemory(m, Addr(bs, k), size), unused)
  {
    var m', unused := SplitMemory(m, Addr(bs, k), size), bs[k := Block(bs[k].size, false)];
    SameAddresses(bs, unused);
    forall i, a | 0 <= i < |unused| && unused[i].used && InPayload(unused, i, a) && a in m
      ensures m'[a] == m[a]
    {
      PayloadsAreDisjoint(bs, i, k);
      if k + 1 < |bs| {
        HeaderOutsidePayloads(bs, k + 1, i);
      }
    }
  }

  /** Marking block `k` as used and splitting it is placing a request in it. */
  lemma PlaceIsSplit(bs: seq<Block>, k: nat, size: nat)
    requires k < |bs| && Fits(bs[k], size)
    ensures var used := bs[k := Block(bs[k].size, true)];
            && used[k := Block(used[k].size, false)] == bs
            && Addr(used, k) == Addr(bs, k)
            && (Splits(bs[k], size) ==> SplitBlocks(used, k, size) == Place(bs, k, size))
            && (!Splits(bs[k], size) ==> used == Place(bs, k, size))
  {
    var used := bs[k := Block(bs[k].size, true)];
    SameAddresses(bs, used);
    assert used[k := Block(used[k].size, false)] == bs;
  }

  // ---------------------------------------------------------------- growing

  /** What new pages contain from `lo` on: whatever their frames held. */
  function LeftOvers(lo: nat, hi: nat, contents: nat -> Granule): (m: Memory)
    requires lo % 16 == 0 && hi % 16 == 0
    ensures forall a :: a in m <==> lo <= a < hi && a % 16 == 0
    decreases hi
  {
    if hi <= lo then map[] else LeftOvers(lo, hi - 16, contents)[hi - 16 := contents(hi - 16)]
  }

  /** Memory after `malloc` has added `bytes` of it, with contents `added`, behind block `last` (0 if there is none). */
  function GrowMemory(m: Memory, newHdr: nat, bytes: nat, last: nat, added: Memory): Memory
    requires bytes >= HEADER && newHdr in added && (last != 0 ==> last in m)
  {
    var m0 := m + added;
    var m1 := m0[newHdr := m0[newHdr].(used := false, end := true, rest := 0, size := bytes - HEADER, prev := last)];
    if last == 0 then m1 else m1[last := m1[last].(end := false)]
  }

  function LastHeader(bs: seq<Block>): nat {
    if bs == [] then 0 else Addr(bs, |bs| - 1)
  }

  lemma GrowHolds(m: Memory, bs: seq<Block>, n: nat, added: Memory)
    requires Holds(m, bs) && n > 0
    requires forall a :: a in added <==> End(bs) <= a < End(bs) + PAGE_SIZE * n && a % 16 == 0
    ensures bs != [] ==> LastHeader(bs) in m
    ensures End(bs) in added
    ensures var m' := GrowMemory(m, End(bs), PAGE_SIZE * n, LastHeader(bs), added);
            Holds(m', Grow(bs, n)) && PayloadsKept(m, m', bs)
  {
    AddrAligned(bs, |bs|);
    if bs != [] {
      assert HeaderOk(m, bs, |bs| - 1);
    }
    GrowHeaders(m, bs, n, added);
    GrowKeepsLive(bs, n);
    PagesAreAligned(n);
    GrowCovers(m, bs, n, added);
  }

  lemma PagesAreAligned(n: nat)
    ensures PAGE_SIZE * n - HEADER == 16 * (256 * n - 1)
    ensures (PAGE_SIZE * n - HEADER) % 16 == 0
  {
  }

  lemma GrowCovers(m: Memory, bs: seq<Block>, n: nat, added: Memory)
    requires Covers(m, End(bs)) && n > 0 && End(bs) in added
    requires forall a :: a in added <==> End(bs) <= a < End(bs) + PAGE_SIZE * n && a % 16 == 0
    requires bs != [] ==> LastHeader(bs) in m
    ensures Covers(GrowMemory(m, End(bs), PAGE_SIZE * n, LastHeader(bs), added), End(bs) + PAGE_SIZE * n)
  {
  }

  lemma GrowHeaders(m: Memory, bs: seq<Block>, n: nat, added: Memory)
    requires HeadersOk(m, bs) && n > 0 && End(bs) in added
    requires forall a :: a in added ==> a >= End(bs)
    requires bs != [] ==> LastHeader(bs) in m
    ensures var m' := GrowMemory(m, End(bs), PAGE_SIZE * n, LastHeader(bs), added);
            HeadersOk(m', Grow(bs, n)) && PayloadsKept(m, m', bs)
  {
    var m', cs := GrowMemory(m, End(bs), PAGE_SIZE * n, LastHeader(bs), added), Grow(bs, n);
    GrowKeepsLive(bs, n);
    forall i | 0 <= i < |cs| ensures HeaderOk(m', cs, i) {
      if i < |bs| {
        assert HeaderOk(m, bs, i);
        AddrMonotone(bs, i, |bs|);
        if i < |bs| - 1 {
          HeadersApart(bs, i, |bs| - 1);
        }
      }
    }
    forall i, a | 0 <= i < |bs| && bs[i].used && InPayload(bs, i, a) && a in m
      ensures m'[a] == m[a]
    {
      HeaderOutsidePayloads(bs, |bs| - 1, i);
      AddrMonotone(bs, i, |bs|);
    }
  }

  // ---------------------------------------------------------------- merging

  /** Memory after merging the block at `h` with the one behind it, header included. */
  function MergeMemory(m: Memory, h: nat): Memory
    requires h in m
    requires var nx := h + HEADER + m[h].size; nx in m && nx != h && (!m[nx].end ==> nx + HEADER + m[nx].size in m)
  {
    var nx := h + HEADER + m[h].size;
    var m1 := m[h := m[h].(size := m[h].size + HEADER + m[nx].size, end := m[h].end || m[nx].end)];
    if m[nx].end then m1
    else
      var nn := nx + HEADER + m[nx].size;
      m1[nn := m1[nn].(prev := h)]
  }

  lemma MergeHolds(m: Memory, bs: seq<Block>, k: nat)
    requires Holds(m, bs) && k + 1 < |bs|
    ensures HeaderOk(m, bs, k) && HeaderOk(m, bs, k + 1) && (k + 2 < |bs| ==> HeaderOk(m, bs, k + 2))
    ensures var m' := MergeMemory(m, Addr(bs, k));
            Holds(m', Merge(bs, k)) && PayloadsKept(m, m', bs)
  {
    MergeIsMapped(m, bs, k);
    MergeHeaders(m, bs, k);
    MergeShape(bs, k);
  }

  lemma MergeIsMapped(m: Memory, bs: seq<Block>, k: nat)
    requires HeadersOk(m, bs) && k + 1 < |bs|
    ensures HeaderOk(m, bs, k) && HeaderOk(m, bs, k + 1) && (k + 2 < |bs| ==> HeaderOk(m, bs, k + 2))
    ensures MergeMemory(m, Addr(bs, k)).Keys == m.Keys
  {
  }

  lemma MergeShape(bs: seq<Block>, k: nat)
    requires Aligned(bs) && k + 1 < |bs|
    ensures Aligned(Merge(bs, k)) && End(Merge(bs, k)) == End(bs)
  {
    MergeAddresses(bs, k);
    MergeIsAligned(bs, k);
  }

  lemma MergeHeaders(m: Memory, bs: seq<Block>, k: nat)
    requires HeadersOk(m, bs) && k + 1 < |bs|
    requires HeaderOk(m, bs, k) && HeaderOk(m, bs, k + 1) && (k + 2 < |bs| ==> HeaderOk(m, bs, k + 2))
    ensures var m' := MergeMemory(m, Addr(bs, k));
            HeadersOk(m', Merge(bs, k)) && PayloadsKept(m, m', bs)
  {
    var m', cs := MergeMemory(m, Addr(bs, k)), Merge(bs, k);
    MergeAddresses(bs, k);
    forall i | 0 <= i < |cs| ensures HeaderOk(m', cs, i) {
      if i <= k {
        assert HeaderOk(m, bs, i);
      } else {
        assert HeaderOk(m, bs, i + 1);
      }
      if i != k {
        HeadersApart(cs, i, k);
      }
      if k + 1 < |cs| && i != k + 1 {
        HeadersApart(cs, i, k + 1);
      }
    }
    forall i, a | 0 <= i < |bs| && bs[i].used && InPayload(bs, i, a) && a in m
      ensures m'[a] == m[a]
    {
      HeaderOutsidePayloads(bs, k, i);
      if k + 2 < |bs| {
        HeaderOutsidePayloads(bs, k + 2, i);
      }
    }
  }

  // ---------------------------------------------------------------- free, as written

  /** A sum as 32 bits hold it. */
  function Word(x: nat): (r: nat)
    ensures r < TWO32 && (x < TWO32 ==> r == x)
    ensures x < 2 * TWO32 && x >= TWO32 ==> r == x - TWO32
  {
    x % TWO32
  }

  lemma WordCancels(a: nat, b: nat, c: nat)
    requires b < TWO32 && a + c < TWO32 && Word(a + b) == a + c
    ensures b == c
  {
  }

  /** `status == END_OF_MEMORY`: the whole byte is compared. */
  predicate IsFreeEnd(g: Granule) {
    !g.used && g.end && g.rest == 0
  }

  /**
   * `free`, with its 32-bit sums. Both merges add the payload of the absorbed block but
   * not its header. None is a page fault.
   */
  function FreeMemory(m: Memory, ptr: nat): Option<Memory>
    requires ptr >= HEADER
  {
    var hdr := ptr - HEADER;
    if hdr !in m then None
    else if m[hdr].prev != 0 && m[hdr].prev !in m then None
    else if m[hdr].prev != 0 && !m[m[hdr].prev].used then
      var prev := m[hdr].prev;
      FreeForward(m[prev := m[prev].(size := Word(m[prev].size + m[hdr].size), end := m[prev].end || m[hdr].end)], prev)
    else
      FreeForward(m, hdr)
  }

  /** The part of `free` behind the backward merge. */
  function FreeForward(m: Memory, h: nat): Option<Memory>
    requires h in m
  {
    var nx := Word(h + HEADER + m[h].size);
    if IsFreeEnd(m[h]) then Some(m[h := m[h].(used := false)])
    else if nx !in m then None
    else if m[nx].used then Some(m[h := m[h].(used := false)])
    else
      var nn := Word(nx + HEADER + m[nx].size);
      var m1 := m[h := m[h].(size := Word(m[h].size + m[nx].size), end := m[h].end || m[nx].end, used := false)];
      if m[nx].end then Some(m1)
      else if nn !in m1 then None
      else Some(m1[nn := m1[nn].(prev := h)])
  }

  /** Neither neighbour is free and the block is not the last. */
  predicate Quiet(bs: seq<Block>, k: nat)
    requires k < |bs|
  {
    !PrevFree(bs, k) && !NextFree(bs, k) && k + 1 < |bs|
  }

  /**
   * The block before is free, the block behind is free and the last, and the final
   * 16 bytes of the freed payload happen to look like the header of a free last block
   * that is two headers larger than the one behind.
   */
  predicate LooksRight(m: Memory, bs: seq<Block>, k: nat)
    requires k < |bs|
  {
    && PrevFree(bs, k) && NextFree(bs, k) && k + 2 == |bs|
    && var g := Addr(bs, k + 1) - HEADER;
       g in m && !m[g].used && m[g].end && m[g].size == bs[k + 1].size + 2 * HEADER
  }

  /** All sizes are 32-bit words and the heap ends below 2^32. */
  ghost predicate Is32Bit(m: Memory, bs: seq<Block>) {
    End(bs) < TWO32 && forall a :: a in m ==> m[a].size < TWO32
  }

  /** `free` as written does what it is for, on a heap that is in order, exactly in these cases. */
  lemma FreeWorksExactlyWhen(m: Memory, bs: seq<Block>, k: nat)
    requires Holds(m, bs) && Is32Bit(m, bs) && k < |bs| && bs[k].used
    ensures var r := FreeMemory(m, Payload(bs, k));
            (r.Some? && Holds(r.value, Free(bs, k))) <==> Quiet(bs, k) || LooksRight(m, bs, k)
  {
    assert HeaderOk(m, bs, k);
    if k > 0 {
      assert HeaderOk(m, bs, k - 1);
    }
    if PrevFree(bs, k) {
      FreeAfterFreeBlock(m, bs, k);
    } else {
      FreeAfterUsedBlock(m, bs, k);
    }
  }

  /** Freeing the last block without a backward merge reads past the end of the heap. */
  lemma FreeingTheLastBlockFaults(m: Memory, bs: seq<Block>, k: nat)
    requires Holds(m, bs) && Is32Bit(m, bs) && k + 1 == |bs| && bs[k].used && !PrevFree(bs, k)
    ensures FreeMemory(m, Payload(bs, k)) == None
  {
    assert HeaderOk(m, bs, k);
    if k > 0 {
      assert HeaderOk(m, bs, k - 1);
    }
    assert End(bs) !in m;
  }

  lemma FreeAfterUsedBlock(m: Memory, bs: seq<Block>, k: nat)
    requires Holds(m, bs) && Is32Bit(m, bs) && k < |bs| && bs[k].used && !PrevFree(bs, k)
    ensures var r := FreeMemory(m, Payload(bs, k));
            (r.Some? && Holds(r.value, Free(bs, k))) <==> Quiet(bs, k)
  {
    NoBackwardMerge(m, bs, k);
    if k + 1 == |bs| {
      FreeingTheLastBlockFaults(m, bs, k);
    } else if bs[k + 1].used {
      SetUsedHolds(m, bs, k, false);
    } else {
      MergedSizeIsExpected(bs, k);
      var r := FreeMemory(m, Payload(bs, k));
      if r.Some? {
        assert !HeaderOk(r.value, Free(bs, k), k);
      }
    }
  }

  /** Without a backward merge: a block in use behind leaves only a bit to clear, a free one is merged too short. */
  lemma NoBackwardMerge(m: Memory, bs: seq<Block>, k: nat)
    requires HeadersOk(m, bs) && End(bs) < TWO32 && k < |bs| && bs[k].used && !PrevFree(bs, k)
    ensures var r, K := FreeMemory(m, Payload(bs, k)), Addr(bs, k);
            && K in m
            && (k + 1 < |bs| && bs[k + 1].used ==> r == Some(m[K := m[K].(used := false)]))
            && (NextFree(bs, k) && r.Some? ==> K in r.value && r.value[K].size == bs[k].size + bs[k + 1].size)
  {
    assert HeaderOk(m, bs, k);
    if k > 0 {
      assert HeaderOk(m, bs, k - 1);
    }
    if k + 1 < |bs| {
      assert HeaderOk(m, bs, k + 1);
      AddrMonotone(bs, k + 1, |bs|);
    }
  }

  /** What the header in front of the freed block has to say after a working `free`. */
  lemma MergedSizeIsExpected(bs: seq<Block>, k: nat)
    requires k < |bs|
    ensures var lo := if PrevFree(bs, k) then k - 1 else k;
            var cs := Free(bs, k);
            && lo < |cs| && Addr(cs, lo) == Addr(bs, lo)
            && cs[lo].size == (if PrevFree(bs, k) then bs[k - 1].size + HEADER else 0) + bs[k].size
                              + (if NextFree(bs, k) then bs[k + 1].size + HEADER else 0)
            && (lo + 1 == |cs| <==> k + (if NextFree(bs, k) then 2 else 1) == |bs|)
            && (lo + 1 < |cs| ==> Addr(cs, lo + 1) == Addr(bs, k + (if NextFree(bs, k) then 2 else 1)))
  {
    var freed := bs[k := Block(bs[k].size, false)];
    SameAddresses(bs, freed);
    if NextFree(bs, k) {
      MergeAddresses(freed, k);
    }
    var right := if NextFree(bs, k) then Merge(freed, k) else freed;
    if PrevFree(bs, k) {
      MergeAddresses(right, k - 1);
    }
  }

  /** Memory after the backward merge: the size misses one header. */
  function BackMerged(m: Memory, P: nat, K: nat): Memory
    requires P in m && K in m
  {
    m[P := m[P].(size := Word(m[P].size + m[K].size), end := m[P].end || m[K].end)]
  }

  /** The last 16 bytes of the payload of block `k` are mapped. */
  lemma PhantomIsMapped(m: Memory, bs: seq<Block>, k: nat)
    requires Holds(m, bs) && k + 1 < |bs|
    ensures Addr(bs, k + 1) - HEADER in m
  {
    AddrAligned(bs, k + 1);
    AddrMonotone(bs, k + 1, |bs|);
  }

  /** After the backward merge the walk lands at `G`, on the last 16 bytes of the freed payload. */
  lemma BackwardMerge(m: Memory, bs: seq<Block>, k: nat)
    requires HeadersOk(m, bs) && End(bs) < TWO32 && 0 < k < |bs| && bs[k].used && !bs[k - 1].used
    ensures var P, K, G := Addr(bs, k - 1), Addr(bs, k), Addr(bs, k + 1) - HEADER;
            && P in m && K in m && m[P].size == bs[k - 1].size && m[P].rest == 0
            && var m1 := BackMerged(m, P, K);
               && m1[P] == m[P].(size := bs[k - 1].size + bs[k].size, used := false, end := k + 1 == |bs|)
               && FreeMemory(m, Payload(bs, k)) == FreeForward(m1, P)
               && P < G && Word(P + HEADER + m1[P].size) == G
               && G + HEADER == Addr(bs, k + 1) < TWO32
  {
    assert HeaderOk(m, bs, k) && HeaderOk(m, bs, k - 1);
    if k + 1 < |bs| {
      AddrMonotone(bs, k + 1, |bs|);
    }
  }

  lemma FreeAfterFreeBlock(m: Memory, bs: seq<Block>, k: nat)
    requires Holds(m, bs) && Is32Bit(m, bs) && k < |bs| && bs[k].used && PrevFree(bs, k)
    ensures var r := FreeMemory(m, Payload(bs, k));
            (r.Some? && Holds(r.value, Free(bs, k))) <==> LooksRight(m, bs, k)
  {
    hide FreeMemory, HeadersOk, Covers, Free;
    var G := Addr(bs, k + 1) - HEADER;
    if k + 1 < |bs| {
      PhantomIsMapped(m, bs, k);
    }
    if k + 1 == |bs| || m[G].used {
      NoForwardMerge(m, bs, k);
    } else if m[G].end {
      PhantomEnd(m, bs, k);
      if LooksRight(m, bs, k) {
        LastMergeHolds(m, bs, k);
      }
    } else {
      PhantomMiddle(m, bs, k);
    }
  }

  /** If the walk stops, the merged block is 16 bytes short. */
  lemma NoForwardMerge(m: Memory, bs: seq<Block>, k: nat)
    requires HeadersOk(m, bs) && End(bs) < TWO32 && k < |bs| && bs[k].used && PrevFree(bs, k)
    requires var G := Addr(bs, k + 1) - HEADER; k + 1 == |bs| || (G in m && m[G].used)
    ensures var r := FreeMemory(m, Payload(bs, k));
            r.Some? && !HeadersOk(r.value, Free(bs, k))
  {
    BackwardMerge(m, bs, k);
    MergedSizeIsExpected(bs, k);
    var m' := FreeMemory(m, Payload(bs, k)).value;
    assert m'[Addr(bs, k - 1)].size == bs[k - 1].size + bs[k].size;
    assert !HeaderOk(m', Free(bs, k), k - 1);
  }

  /** `free` behind the backward merge: a free block `p`, written at `P`, and what looks like a header at `G`. */
  lemma ForwardLeaves(m: Memory, P: nat, p: Granule, G: nat)
    requires G in m && P != G && !p.used && !p.end && Word(P + HEADER + p.size) == G
    ensures var r, nn := FreeForward(m[P := p], P), Word(G + HEADER + m[G].size);
            var m1 := m[P := p.(size := Word(p.size + m[G].size), end := m[G].end)];
            && (m[G].used ==> r == Some(m[P := p]))
            && (!m[G].used && m[G].end ==> r == Some(m1))
            && (!m[G].used && !m[G].end && nn !in m1 ==> r == None)
            && (!m[G].used && !m[G].end && nn in m1 ==> r == Some(m1[nn := m1[nn].(prev := P)]))
  {
    var q := p.(size := Word(p.size + m[G].size), end := m[G].end);
    assert m[P := p][P := q] == m[P := q] && m[P := p][P := p] == m[P := p] && p.(used := false) == p;
  }

  /** The header at `P` is that of a block of `size` bytes, not the last; otherwise only the one at `nn` has changed. */
  ghost predicate MergedWithMiddle(m: Memory, m': Memory, P: nat, size: nat, nn: nat) {
    && P in m' && m'[P].size == size && !m'[P].end
    && forall a :: a in m && a != P && a != nn ==> a in m' && m'[a] == m[a]
  }

  /** If those 16 bytes look like a free last block, only the size they state decides. */
  lemma PhantomEnd(m: Memory, bs: seq<Block>, k: nat)
    requires HeadersOk(m, bs) && End(bs) < TWO32 && k + 1 < |bs| && bs[k].used && PrevFree(bs, k)
    requires var G := Addr(bs, k + 1) - HEADER; G in m && !m[G].used && m[G].end && m[G].size < TWO32
    ensures HeaderOk(m, bs, k - 1)
    ensures var r, P, G := FreeMemory(m, Payload(bs, k)), Addr(bs, k - 1), Addr(bs, k + 1) - HEADER;
            && r == Some(m[P := m[P].(used := false, end := true,
                                      size := Word(bs[k - 1].size + bs[k].size + m[G].size))])
            && (HeadersOk(r.value, Free(bs, k)) ==> LooksRight(m, bs, k))
            && (LooksRight(m, bs, k) ==> r.value[P].size == bs[k - 1].size + bs[k].size + bs[k + 1].size + 2 * HEADER)
  {
    var P, G, cs := Addr(bs, k - 1), Addr(bs, k + 1) - HEADER, Free(bs, k);
    assert HeaderOk(m, bs, k - 1);
    BackMergedIs(m, bs, k);
    hide FreeMemory, FreeForward, HeadersOk;
    var p := m[P].(size := bs[k - 1].size + bs[k].size, end := false);
    ForwardLeaves(m, P, p, G);
    MergedSizeIsExpected(bs, k);
    PhantomDecides(m, bs, k, cs);
  }

  lemma PhantomDecides(m: Memory, bs: seq<Block>, k: nat, cs: seq<Block>)
    requires End(bs) < TWO32 && k + 1 < |bs| && PrevFree(bs, k) && LooksMerged(bs, cs, k)
    requires var G := Addr(bs, k + 1) - HEADER; G in m && !m[G].used && m[G].end && m[G].size < TWO32
    requires Addr(bs, k - 1) in m
    ensures var P, G := Addr(bs, k - 1), Addr(bs, k + 1) - HEADER;
            var m' := m[P := m[P].(used := false, end := true, size := Word(bs[k - 1].size + bs[k].size + m[G].size))];
            && (HeadersOk(m', cs) ==> LooksRight(m, bs, k))
            && (LooksRight(m, bs, k) ==> m'[P].size == bs[k - 1].size + bs[k].size + bs[k + 1].size + 2 * HEADER)
  {
    var P, G, merged := Addr(bs, k - 1), Addr(bs, k + 1) - HEADER, bs[k - 1].size + bs[k].size;
    var m' := m[P := m[P].(used := false, end := true, size := Word(merged + m[G].size))];
    AddrMonotone(bs, k + 1, |bs|);
    AddrMonotone(bs, k - 1, k);
    if HeaderOk(m', cs, k - 1) {
      WordCancels(merged, m[G].size, cs[k - 1].size - merged);
    }
  }

  /** The memory in which only the header before the freed block has changed, to what it should be. */
  lemma LastMergeHolds(m: Memory, bs: seq<Block>, k: nat)
    requires Holds(m, bs) && 0 < k && k + 2 == |bs| && bs[k].used && PrevFree(bs, k) && NextFree(bs, k)
    requires HeaderOk(m, bs, k - 1)
    ensures var P := Addr(bs, k - 1);
            Holds(m[P := m[P].(used := false, end := true,
                               size := bs[k - 1].size + bs[k].size + bs[k + 1].size + 2 * HEADER)], Free(bs, k))
  {
    var P, cs := Addr(bs, k - 1), Free(bs, k);
    var size := bs[k - 1].size + bs[k].size + bs[k + 1].size + 2 * HEADER;
    var m' := m[P := m[P].(used := false, end := true, size := size)];
    MergedSizeIsExpected(bs, k);
    FreeRemovesPayloadEnd(bs, k);
    assert m'.Keys == m.Keys;
    assert |cs| == k && forall i :: 0 <= i < k - 1 ==> cs[i] == bs[i];
    forall i | 0 <= i < |cs| ensures HeaderOk(m', cs, i) {
      assert HeaderOk(m, bs, i);
      AddrPrefix(bs, cs, i);
      if i > 0 {
        AddrPrefix(bs, cs, i - 1);
      }
      if i != k - 1 {
        HeadersApart(bs, i, k - 1);
      }
    }
  }

  /** What the phantom of a free block that is not the last leads to. */
  lemma PhantomMiddleResult(m: Memory, bs: seq<Block>, k: nat)
    requires HeadersOk(m, bs) && End(bs) < TWO32 && k + 1 < |bs| && bs[k].used && PrevFree(bs, k)
    requires var G := Addr(bs, k + 1) - HEADER; G in m && !m[G].used && !m[G].end
    ensures var r := FreeMemory(m, Payload(bs, k)); r.Some? ==> PhantomLeft(m, r.value, bs, k)
  {
    hide FreeMemory, FreeForward;
    var P, G, r := Addr(bs, k - 1), Addr(bs, k + 1) - HEADER, FreeMemory(m, Payload(bs, k));
    BackMergedIs(m, bs, k);
    var p := m[P].(size := bs[k - 1].size + bs[k].size, end := false);
    ForwardLeaves(m, P, p, G);
    if r.Some? {
      assert MergedWithMiddle(m, r.value, P, Word(p.size + m[G].size), Word(G + HEADER + m[G].size));
    }
  }

  /** If they look like any other free block, some back link or the end mark is left wrong. */
  lemma PhantomMiddle(m: Memory, bs: seq<Block>, k: nat)
    requires HeadersOk(m, bs) && End(bs) < TWO32 && k + 1 < |bs| && bs[k].used && PrevFree(bs, k)
    requires var G := Addr(bs, k + 1) - HEADER; G in m && !m[G].used && !m[G].end && m[G].size < TWO32
    ensures var r := FreeMemory(m, Payload(bs, k));
            r.Some? ==> !HeadersOk(r.value, Free(bs, k))
  {
    var r := FreeMemory(m, Payload(bs, k));
    PhantomMiddleResult(m, bs, k);
    MergedSizeIsExpected(bs, k);
    if r.Some? {
      PhantomBreaksALink(m, r.value, bs, Free(bs, k), k);
    }
  }

  lemma PhantomBreaksALink(m: Memory, m': Memory, bs: seq<Block>, cs: seq<Block>, k: nat)
    requires HeadersOk(m, bs) && End(bs) < TWO32 && 0 < k && k + 1 < |bs|
    requires var G := Addr(bs, k + 1) - HEADER; G in m && m[G].size < TWO32
    requires PhantomLeft(m, m', bs, k) && LooksMerged(bs, cs, k)
    ensures !HeadersOk(m', cs)
  {
    var behind, size := k + (if NextFree(bs, k) then 2 else 1), m[Addr(bs, k + 1) - HEADER].size;
    if HeaderOk(m', cs, k - 1) {
      var merged := bs[k - 1].size + bs[k].size;
      AddrMonotone(bs, k - 1, k);
      AddrMonotone(bs, k, behind);
      AddrMonotone(bs, behind, |bs|);
      WordCancels(merged, size, cs[k - 1].size - merged);
      assert Addr(bs, k + 1) + size == Addr(bs, behind) + HEADER;
      assert HeaderOk(m, bs, behind);
      assert !HeaderOk(m', cs, k);
    }
  }

  /** The outcome of a phantom in the middle. */
  ghost predicate PhantomLeft(m: Memory, m': Memory, bs: seq<Block>, k: nat)
    requires 0 < k && k + 1 < |bs| && Addr(bs, k + 1) - HEADER in m
  {
    var G := Addr(bs, k + 1) - HEADER;
    var size := Word(bs[k - 1].size + bs[k].size + m[G].size);
    MergedWithMiddle(m, m', Addr(bs, k - 1), size, Word(G + HEADER + m[G].size))
  }

  /** The list `cs` with the blocks around `k` merged, as far as the merged block and the one behind it go. */
  ghost predicate LooksMerged(bs: seq<Block>, cs: seq<Block>, k: nat)
    requires 0 < k < |bs|
  {
    var behind := k + (if NextFree(bs, k) then 2 else 1);
    && k - 1 < |cs| && Addr(cs, k - 1) == Addr(bs, k - 1)
    && cs[k - 1].size == bs[k - 1].size + HEADER + bs[k].size + (if NextFree(bs, k) then bs[k + 1].size + HEADER else 0)
    && (k == |cs| <==> behind == |bs|)
    && (k < |cs| ==> Addr(cs, k) == Addr(bs, behind))
  }

  lemma FreeRemovesPayloadEnd(bs: seq<Block>, k: nat)
    requires Aligned(bs) && k < |bs| && bs[k].used
    ensures End(Free(bs, k)) == End(bs) && Aligned(Free(bs, k))
  {
    MarkingFreeRemoves(bs, k);
    var freed := bs[k := Block(bs[k].size, false)];
    var right := if NextFree(bs, k) then Merge(freed, k) else freed;
    if NextFree(bs, k) {
      MergeKeepsLive(freed, k);
    }
    if PrevFree(bs, k) {
      MergeKeepsLive(right, k - 1);
    }
  }

  /** In a quiet case `free` as written only clears one bit. */
  lemma QuietFree(m: Memory, bs: seq<Block>, k: nat)
    requires Holds(m, bs) && End(bs) < TWO32 && k < |bs| && bs[k].used && Quiet(bs, k)
    ensures var r := FreeMemory(m, Payload(bs, k));
            r.Some? && Holds(r.value, Free(bs, k)) && PayloadsKept(m, r.value, bs)
  {
    NoBackwardMerge(m, bs, k);
    SetUsedHolds(m, bs, k, false);
  }

  /**
   * In full, what `free` as written leaves of a heap in order behind a block in use: a page fault for
   * the last block, one bit cleared in front of a block in use, and else a merge that loses 16 bytes.
   */
  lemma FreeLeavesBehindUsed(m: Memory, bs: seq<Block>, k: nat)
    requires Holds(m, bs) && Is32Bit(m, bs) && k < |bs| && bs[k].used && (k == 0 || bs[k - 1].used)
    ensures Addr(bs, k) in m && (k + 2 < |bs| ==> Addr(bs, k + 2) in m)
    ensures var r, h := FreeMemory(m, Payload(bs, k)), Addr(bs, k);
            && (k + 1 == |bs| ==> r == None)
            && (k + 1 < |bs| && bs[k + 1].used ==> r == Some(m[h := m[h].(used := false)]))
            && (k + 1 < |bs| && !bs[k + 1].used ==>
                  var g := m[h].(used := false, size := bs[k].size + bs[k + 1].size, end := k + 2 == |bs|);
                  && (k + 2 == |bs| ==> r == Some(m[h := g]))
                  && (k + 2 < |bs| ==> r == Some(m[h := g][Addr(bs, k + 2) := m[Addr(bs, k + 2)].(prev := h)])))
  {
    if k + 2 < |bs| {
      assert HeaderOk(m, bs, k + 2);
    }
    NoBackwardMerge(m, bs, k);
    if k + 1 == |bs| {
      FreeingTheLastBlockFaults(m, bs, k);
    } else if !bs[k + 1].used {
      BlocksMeet(m, bs, k);
      hide FreeMemory, HeadersOk, Holds, Is32Bit;
    }
  }

  /** A block in use, not to be merged with the one before, and a free block behind it. */
  lemma BlocksMeet(m: Memory, bs: seq<Block>, k: nat)
    requires HeadersOk(m, bs) && End(bs) < TWO32 && k + 1 < |bs| && bs[k].used && !bs[k + 1].used
    requires k == 0 || bs[k - 1].used
    ensures var h, n := Addr(bs, k), Addr(bs, k + 1);
            && h in m && n in m && h < n && m[h].used && !m[h].end
            && m[h].size == bs[k].size && m[n].size == bs[k + 1].size
            && !m[n].used && m[n].end == (k + 2 == |bs|)
            && Word(h + HEADER + m[h].size) == n && Word(n + HEADER + m[n].size) == Addr(bs, k + 2)
            && Word(m[h].size + m[n].size) == bs[k].size + bs[k + 1].size
            && FreeMemory(m, Payload(bs, k)) == FreeForward(m, h)
  {
    assert HeaderOk(m, bs, k) && HeaderOk(m, bs, k + 1);
    if k > 0 {
      assert HeaderOk(m, bs, k - 1);
    }
    if k + 2 < |bs| {
      AddrMonotone(bs, k + 2, |bs|);
    }
  }

  /**
   * And behind a free block: the two are merged 16 bytes too short, so the last 16 bytes of the freed
   * payload are taken for the header behind, and merged as well unless they look like one in use.
   */
  lemma FreeLeavesBehindFree(m: Memory, bs: seq<Block>, k: nat)
    requires Holds(m, bs) && Is32Bit(m, bs) && 0 < k < |bs| && bs[k].used && !bs[k - 1].used
    ensures Addr(bs, k - 1) in m && (k + 1 < |bs| ==> Addr(bs, k + 1) - 16 in m)
    ensures var r, p, g := FreeMemory(m, Payload(bs, k)), Addr(bs, k - 1), Addr(bs, k + 1) - 16;
            var sum := bs[k - 1].size + bs[k].size;
            && (k + 1 == |bs| || m[g].used ==> r == Some(m[p := m[p].(size := sum, end := k + 1 == |bs|)]))
            && (k + 1 < |bs| && !m[g].used ==>
                  var m1 := m[p := m[p].(size := (sum + m[g].size) % 0x1_0000_0000, end := m[g].end)];
                  var behind := (g + 16 + m[g].size) % 0x1_0000_0000;
                  && (m[g].end ==> r == Some(m1))
                  && (!m[g].end && behind !in m1 ==> r == None)
                  && (!m[g].end && behind in m1 ==> r == Some(m1[behind := m1[behind].(prev := p)])))
  {
    BackMergedIs(m, bs, k);
    var P := Addr(bs, k - 1);
    var p := m[P].(size := bs[k - 1].size + bs[k].size, end := k + 1 == |bs|);
    hide FreeMemory, FreeForward, Is32Bit;
    if k + 1 == |bs| {
      FreeEndStops(m[P := p], P);
    } else {
      PhantomIsMapped(m, bs, k);
      hide Holds, Addr;
      ForwardLeaves(m, P, p, Addr(bs, k + 1) - 16);
    }
  }

  lemma BackMergedIs(m: Memory, bs: seq<Block>, k: nat)
    requires HeadersOk(m, bs) && End(bs) < TWO32 && 0 < k < |bs| && bs[k].used && !bs[k - 1].used
    ensures Addr(bs, k - 1) in m && !m[Addr(bs, k - 1)].used && m[Addr(bs, k - 1)].rest == 0
    ensures var P, G, sum := Addr(bs, k - 1), Addr(bs, k + 1) - 16, bs[k - 1].size + bs[k].size;
            && P < G && Word(P + HEADER + sum) == G
            && FreeMemory(m, Payload(bs, k)) == FreeForward(m[P := m[P].(size := sum, end := k + 1 == |bs|)], P)
  {
    BackwardMerge(m, bs, k);
    assert !m[Addr(bs, k - 1)].used by {
      assert HeaderOk(m, bs, k - 1);
    }
    var P := Addr(bs, k - 1);
    var m1 := BackMerged(m, P, Addr(bs, k));
    assert m1 == m[P := m1[P]];
    hide FreeMemory, FreeForward;
  }

  lemma FreeEndStops(m: Memory, h: nat)
    requires h in m && IsFreeEnd(m[h])
    ensures FreeForward(m, h) == Some(m)
  {
    assert m[h].(used := false) == m[h];
    assert m[h := m[h]] == m;
  }

  // ---------------------------------------------------------------- free, repaired

  /** Merging backward first, then forward, then clearing the bit, is what `free` is for. */
  lemma FreeByMerging(bs: seq<Block>, k: nat)
    requires k < |bs|
    ensures var back := if PrevFree(bs, k) then Merge(bs, k - 1) else bs;
            var j := if PrevFree(bs, k) then k - 1 else k;
            && j < |back| && (NextFree(back, j) <==> NextFree(bs, k))
            && var forward := if NextFree(back, j) then Merge(back, j) else back;
               j < |forward| && forward[j := Block(forward[j].size, false)] == Free(bs, k)
  {
    var back := if PrevFree(bs, k) then Merge(bs, k - 1) else bs;
    var j := if PrevFree(bs, k) then k - 1 else k;
    BackShape(bs, k);
    ForwardShape(back, j);
    FreeShape(bs, k);
    hide Merge, Free, PrevFree, NextFree;
  }

  lemma BackShape(bs: seq<Block>, k: nat)
    requires k < |bs|
    ensures var back := if PrevFree(bs, k) then Merge(bs, k - 1) else bs;
            var j := if PrevFree(bs, k) then k - 1 else k;
            && j < |back| && back[..j] == bs[..j] && back[j + 1..] == bs[k + 1..]
            && back[j].size == bs[k].size + (if PrevFree(bs, k) then bs[k - 1].size + HEADER else 0)
            && (NextFree(back, j) <==> NextFree(bs, k))
            && (NextFree(bs, k) ==> back[j + 1] == bs[k + 1] && back[j + 2..] == bs[k + 2..])
  {
  }

  /** The forward merge and the clearing of the bit, as parts of the list. */
  lemma ForwardShape(bs: seq<Block>, j: nat)
    requires j < |bs|
    ensures var forward := if NextFree(bs, j) then Merge(bs, j) else bs;
            j < |forward| && forward[j := Block(forward[j].size, false)]
            == bs[..j] + [Block(bs[j].size + (if NextFree(bs, j) then bs[j + 1].size + HEADER else 0), false)]
               + bs[(if NextFree(bs, j) then j + 2 else j + 1)..]
  {
  }

  /** A block put in the place of some, and then merged with the one before. */
  lemma PutThenMerge(bs: seq<Block>, k: nat, size: nat, n: nat)
    requires 0 < k < n <= |bs| && !bs[k - 1].used
    ensures Merge(bs[..k] + [Block(size, false)] + bs[n..], k - 1)
         == bs[..k - 1] + [Block(bs[k - 1].size + HEADER + size, false)] + bs[n..]
  {
    var right := bs[..k] + [Block(size, false)] + bs[n..];
    assert right[k + 1..] == bs[n..] && right[..k - 1] == bs[..k - 1];
  }

  /** The parts of a list with one block replaced. */
  lemma PutSlices(bs: seq<Block>, k: nat, b: Block)
    requires k < |bs|
    ensures var cs := bs[k := b];
            && cs == bs[..k] + [b] + bs[k + 1..] && cs[..k] == bs[..k] && cs[k + 1..] == bs[k + 1..]
            && (k + 1 < |bs| ==> cs[k + 2..] == bs[k + 2..])
  {
    var cs, parts := bs[k := b], bs[..k] + [b] + bs[k + 1..];
    forall x | 0 <= x < |cs| ensures cs[x] == parts[x] {
    }
    forall x | 0 <= x < k ensures cs[..k][x] == bs[..k][x] {
      assert cs[x] == bs[x];
    }
    forall n, x | k < n <= |bs| && 0 <= x < |bs| - n ensures cs[n..][x] == bs[n..][x] {
      assert cs[n + x] == bs[n + x];
    }
    assert cs[k + 1..] == bs[k + 1..];
  }

  /** The bit is cleared and the block behind is merged, if it is free. */
  lemma FreedForward(bs: seq<Block>, k: nat)
    requires k < |bs|
    ensures var freed := bs[k := Block(bs[k].size, false)];
            (if NextFree(bs, k) then Merge(freed, k) else freed)
            == bs[..k] + [Block(bs[k].size + (if NextFree(bs, k) then HEADER + bs[k + 1].size else 0), false)]
               + bs[(if NextFree(bs, k) then k + 2 else k + 1)..]
  {
    PutSlices(bs, k, Block(bs[k].size, false));
  }

  lemma FreeShape(bs: seq<Block>, k: nat)
    requires k < |bs|
    ensures var j := if PrevFree(bs, k) then k - 1 else k;
            Free(bs, k) == bs[..j]
              + [Block((if PrevFree(bs, k) then bs[k - 1].size + HEADER else 0) + bs[k].size
                       + (if NextFree(bs, k) then bs[k + 1].size + HEADER else 0), false)]
              + bs[(if NextFree(bs, k) then k + 2 else k + 1)..]
  {
    FreedForward(bs, k);
    if PrevFree(bs, k) {
      PutThenMerge(bs, k, bs[k].size + (if NextFree(bs, k) then HEADER + bs[k + 1].size else 0),
                   if NextFree(bs, k) then k + 2 else k + 1);
    }
    hide Merge;
  }

  /** A merge leaves the payloads of all other blocks in use. */
  lemma MergeKeepsOthers(bs: seq<Block>, k: nat)
    requires k + 1 < |bs|
    ensures Live(bs) - {(Payload(bs, k), bs[k].size), (Payload(bs, k + 1), bs[k + 1].size)} <= Live(Merge(bs, k))
  {
    var cs := Merge(bs, k);
    MergeAddresses(bs, k);
    forall i | 0 <= i < |bs| && bs[i].used && i != k && i != k + 1
      ensures (Payload(bs, i), bs[i].size) in Live(cs)
    {
      var j := if i < k then i else i - 1;
      assert cs[j] == bs[i] && Payload(cs, j) == Payload(bs, i);
    }
  }

  /** So all payloads that a free leaves in use were in use between its two merges as well. */
  lemma LiveThroughMerges(bs: seq<Block>, k: nat)
    requires Sound(bs) && k < |bs| && bs[k].used
    ensures Live(Free(bs, k)) <= Live(bs)
    ensures PrevFree(bs, k) ==> Live(Free(bs, k)) <= Live(Merge(bs, k - 1))
  {
    FreeRemovesPayload(bs, k);
    if PrevFree(bs, k) {
      MergeKeepsOthers(bs, k - 1);
      forall p | p in Live(Free(bs, k)) ensures p in Live(Merge(bs, k - 1)) {
        NotLive(bs, k - 1);
      }
    }
  }

  lemma NotLive(bs: seq<Block>, k: nat)
    requires k < |bs| && !bs[k].used
    ensures (Payload(bs, k), bs[k].size) !in Live(bs)
  {
    forall i | 0 <= i < |bs| && bs[i].used ensures Payload(bs, i) != Payload(bs, k) {
      PayloadsAreDisjoint(bs, i, k);
    }
  }
}
