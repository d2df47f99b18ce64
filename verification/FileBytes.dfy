/**
 * The contents of a tmpfs file as values: `flat` is the bytes of all its blocks in order,
 * of which the first `size` are the file.
 */
module FileBytes {
  import opened Machine
  import opened Strings

  function Zeros(n: nat): (z: seq<Byte>)
    ensures |z| == n && forall k :: 0 <= k < n ==> z[k] == 0
  {
    seq(n, _ => 0)
  }

  function Min(a: nat, b: nat): nat { if a < b then a else b }

  function Max(a: nat, b: nat): nat { if a < b then b else a }

  /** One past the last byte of the file that copying `n` bytes at `pos` touches, as written. */
  function CopyEnd(pos: nat, n: nat): (e: nat)
    requires n > 0
    ensures pos + n <= e <= 4096 * BlocksFor(pos, n)
  {
    if pos % 4096 + n <= 4096 then pos + n else 4096 * (BlocksFor(pos, n) - 1) + Min(n, 4096)
  }

  /** Blocks that a file needs to hold bytes [pos, pos + n). */
  function BlocksFor(pos: nat, n: nat): (b: nat)
    requires n > 0
    ensures 4096 * (b - 1) < pos + n <= 4096 * b
  {
    (pos + n - 1) / 4096 + 1
  }

  /** The copy stops where it should if it stays in one block, or is long and ends at a block boundary. */
  lemma CopyEndIsExactlyWhen(pos: nat, n: nat)
    requires n > 0
    ensures CopyEnd(pos, n) == pos + n <==> pos % 4096 + n <= 4096 || (4096 <= n && (pos + n) % 4096 == 0)
  {
  }

  /** In numbers: the last block, if it is not the first, gets min(n, 4096) bytes, whatever is left for it. */
  lemma LastBlockGetsTheTotalLength(pos: nat, n: nat, last: nat)
    requires n > 0 && 4096 * last < pos + n <= 4096 * (last + 1)
    ensures pos >= 4096 * last ==> CopyEnd(pos, n) == pos + n
    ensures pos < 4096 * last ==> CopyEnd(pos, n) - 4096 * last == if n < 4096 then n else 4096
  {
    assert BlocksFor(pos, n) == last + 1;
  }

  /** The copy loop, as written, between rounds: `b` bytes of the buffer are passed and `copied` copied. */
  predicate Copying(pos: nat, n: nat, k: nat, p: nat, b: nat, copied: nat)
    requires n > 0
  {
    && pos / 4096 <= k && pos + copied <= 4096 * (k + 1) && copied <= CopyEnd(pos, n) - pos
    && if p < pos + n then p == 4096 * (k + 1) && b == copied == p - pos
       else k + 1 == BlocksFor(pos, n) && copied == CopyEnd(pos, n) - pos
  }

  lemma CopyingStarts(pos: nat, n: nat)
    requires n > 0
    ensures var cnt := Min(n, 4096 - pos % 4096);
            Copying(pos, n, pos / 4096, pos + cnt, cnt, cnt)
  {
  }

  lemma CopyingGoesOn(pos: nat, n: nat, k: nat, p: nat, b: nat, copied: nat)
    requires n > 0 && Copying(pos, n, k, p, b, copied) && p < pos + n
    ensures Copying(pos, n, k + 1, p + 4096, b + 4096, b + Min(n, 4096))
    ensures b == copied && pos + b == 4096 * (k + 1) && b + Min(n, 4096) <= CopyEnd(pos, n) - pos
  {
  }

  lemma CopyingDone(pos: nat, n: nat, k: nat, p: nat, b: nat, copied: nat)
    requires n > 0 && Copying(pos, n, k, p, b, copied) && p >= pos + n
    ensures k + 1 == BlocksFor(pos, n) && copied == CopyEnd(pos, n) - pos
  {
  }

  /** The repaired loop between rounds: what is passed is what is copied. */
  predicate CopyingRepaired(pos: nat, n: nat, k: nat, p: nat)
    requires n > 0
  {
    && pos / 4096 <= k && pos <= p <= pos + n && p <= 4096 * (k + 1)
    && if p < pos + n then p == 4096 * (k + 1) else k + 1 == BlocksFor(pos, n)
  }

  lemma CopyingRepairedSteps(pos: nat, n: nat, k: nat, p: nat)
    requires n > 0
    ensures CopyingRepaired(pos, n, pos / 4096, pos + Min(n, 4096 - pos % 4096))
    ensures CopyingRepaired(pos, n, k, p) && p < pos + n ==>
              CopyingRepaired(pos, n, k + 1, p + Min(pos + n - p, 4096)) && p == 4096 * (k + 1)
    ensures CopyingRepaired(pos, n, k, p) ==> pos <= p <= pos + n && (p == pos + n ==> k + 1 == BlocksFor(pos, n))
  {
  }

  /** `flat`, lengthened by zeroed blocks to at least `blocks` blocks. */
  function Padded(flat: seq<Byte>, blocks: nat): (r: seq<Byte>)
    ensures |r| == Max(|flat|, 4096 * blocks) && flat <= r
  {
    if |flat| < 4096 * blocks then flat + Zeros(4096 * blocks - |flat|) else flat
  }

  /** `flat` is `base` with `data` at `pos`. */
  predicate IsWritten(flat: seq<Byte>, base: seq<Byte>, pos: nat, data: seq<Byte>) {
    pos + |data| <= |base| && flat == Splice(base, pos, data)
  }

  /** Bytes stored behind bytes stored before, after more bytes `added` were made sure of. */
  lemma WrittenExtends(flat: seq<Byte>, flat': seq<Byte>, base: seq<Byte>, added: seq<Byte>, pos: nat,
                       data: seq<Byte>, more: seq<Byte>)
    requires IsWritten(flat, base, pos, data) && pos + |data| + |more| <= |base + added|
    requires flat' == Splice(flat + added, pos + |data|, more)
    ensures IsWritten(flat', base + added, pos, data + more)
  {
    var b := Splice(base + added, pos, data + more);
    forall i | 0 <= i < |flat'| ensures flat'[i] == b[i] {
      SpliceAt(flat + added, pos + |data|, more, i);
      SpliceAt(base + added, pos, data + more, i);
      if i < |flat| {
        SpliceAt(base, pos, data, i);
      }
    }
  }

  datatype File = File(flat: seq<Byte>, size: nat)
  {
    predicate Valid() {
      |flat| % 4096 == 0 && |flat| > 0 && size <= |flat| && size < TWO32
    }

    /** The file, as its users see it. */
    function Contents(): seq<Byte>
      requires Valid()
    {
      flat[..size]
    }

    /** Behind the end of the file there are zeros up to the end of the last block. */
    ghost predicate ZeroTail()
      requires Valid()
    {
      forall k :: size <= k < |flat| ==> flat[k] == 0
    }
  }

  /** What `tmpfs_create` makes. */
  const EMPTY := File(Zeros(4096), 0)

  /** A file in which bytes from `pos` on were stored and which then reaches at least to `end`. */
  function Stored(f: File, pos: nat, data: seq<Byte>, end: nat): (r: File)
    requires f.Valid() && pos <= |f.flat| && 0 < |data| && pos < end < TWO32
    requires end <= pos + |data| <= 4096 * BlocksFor(pos, end - pos)
    ensures r.Valid()
  {
    var flat := Padded(f.flat, BlocksFor(pos, end - pos));
    File(Splice(flat, pos, data), Max(f.size, end))
  }

  /** The readable bytes that a write of `n` bytes at `pos` may take from its buffer, as written. */
  function Slack(pos: nat, n: nat): nat {
    if n == 0 then 0 else CopyEnd(pos, n) - pos
  }

  /**
   * `tmpfs_write` with the copy loop as written, but with every new block cleared and its link set
   * to null: `buf` is what can be read from the pointer on.
   */
  function WriteZeroed(f: File, pos: nat, buf: seq<Byte>, n: nat): (r: File)
    requires f.Valid() && pos <= |f.flat| && pos + n < TWO32 && Slack(pos, n) <= |buf|
    ensures r.Valid()
  {
    if n == 0 then f else Stored(f, pos, buf[..CopyEnd(pos, n) - pos], pos + n)
  }

  /** `tmpfs_write`, repaired: what is copied is what is left to copy. */
  function WriteRepaired(f: File, pos: nat, buf: seq<Byte>, n: nat): (r: File)
    requires f.Valid() && pos <= |f.flat| && pos + n < TWO32 && n <= |buf|
    ensures r.Valid()
  {
    if n == 0 then f else Stored(f, pos, buf[..n], pos + n)
  }

  lemma WrittenIsWriteRepaired(f: File, pos: nat, buf: seq<Byte>, n: nat, flat: seq<Byte>)
    requires f.Valid() && pos <= |f.flat| && pos + n < TWO32 && 0 < n <= |buf|
    requires IsWritten(flat, Padded(f.flat, BlocksFor(pos, n)), pos, buf[..n])
    ensures File(flat, Max(f.size, pos + n)) == WriteRepaired(f, pos, buf, n)
  {
  }

  /** A read of `n` bytes at `pos` delivers `r`: as many as there are up to the end of the file. */
  predicate IsReadCount(size: nat, pos: nat, n: nat, r: nat) {
    if pos >= size then r == 0 else r <= n && pos + r <= size && (r < n ==> pos + r == size)
  }

  /** Bytes a read of `n` bytes at `pos` delivers. */
  function ReadLength(f: File, pos: nat, n: nat): (r: nat)
    ensures IsReadCount(f.size, pos, n, r)
  {
    if pos >= f.size then 0 else Min(n, f.size - pos)
  }

  /** The bytes [pos, end) of the file at the start of a buffer that held `before`. */
  function Loaded(f: File, pos: nat, before: seq<Byte>, end: nat): (r: seq<Byte>)
    requires pos <= end <= |f.flat| && end - pos <= |before|
    ensures |r| == |before|
  {
    Splice(before, 0, f.flat[pos..end])
  }

  lemma CopyStaysInTheFile(f: File, pos: nat, n: nat)
    requires f.Valid() && 0 < n && pos + n <= f.size
    ensures CopyEnd(pos, n) <= |f.flat| && Slack(pos, n) == CopyEnd(pos, n) - pos
  {
  }

  /** The buffer after `tmpfs_read`, as written: `before` is what can be written from the pointer on. */
  function Read(f: File, pos: nat, before: seq<Byte>, n: nat): (r: seq<Byte>)
    requires f.Valid() && Slack(pos, ReadLength(f, pos, n)) <= |before|
    ensures |r| == |before|
  {
    var len := ReadLength(f, pos, n);
    if len == 0 then before
    else
      CopyStaysInTheFile(f, pos, len);
      Loaded(f, pos, before, CopyEnd(pos, len))
  }

  lemma ReadIsLoaded(f: File, pos: nat, before: seq<Byte>, n: nat)
    requires f.Valid() && ReadLength(f, pos, n) > 0 && Slack(pos, ReadLength(f, pos, n)) <= |before|
    ensures var end := CopyEnd(pos, ReadLength(f, pos, n));
            && pos <= end <= |f.flat| && end - pos <= |before|
            && Read(f, pos, before, n) == Loaded(f, pos, before, end)
  {
    hide Loaded;
    CopyStaysInTheFile(f, pos, ReadLength(f, pos, n));
  }

  /** The `r` bytes read are at the start of the buffer, and behind them `more` further bytes of the blocks. */
  predicate IsDelivered(f: File, pos: nat, before: seq<Byte>, after: seq<Byte>, r: nat, more: nat)
    requires f.Valid()
  {
    && |after| == |before| && r + more <= |before|
    && (r > 0 ==> pos + r <= f.size && pos + r + more <= |f.flat| && after[..r] == f.Contents()[pos..pos + r])
    && (r == 0 ==> after == before)
    && (r > 0 ==> forall i :: r <= i < |before| ==> after[i] == if i < r + more then f.flat[pos + i] else before[i])
  }

  /** For all positions and lengths: the count, the bytes, and how far the copy as written goes. */
  lemma ReadDelivers(f: File, pos: nat, before: seq<Byte>, n: nat, r: nat)
    requires f.Valid() && IsReadCount(f.size, pos, n, r) && Slack(pos, r) <= |before|
    ensures r == ReadLength(f, pos, n) <= Slack(pos, r)
    ensures IsDelivered(f, pos, before, Read(f, pos, before, n), r, Slack(pos, r) - r)
  {
    if r > 0 {
      ReadIsLoaded(f, pos, before, n);
      LoadedIsDelivered(f, pos, before, r, CopyEnd(pos, r));
    }
  }

  /** Repaired, nothing behind those bytes changes. */
  lemma RepairedReadDelivers(f: File, pos: nat, before: seq<Byte>, n: nat, r: nat)
    requires f.Valid() && IsReadCount(f.size, pos, n, r) && r <= |before|
    ensures r == ReadLength(f, pos, n) && IsDelivered(f, pos, before, ReadRepaired(f, pos, before, n), r, 0)
  {
    if r > 0 {
      LoadedIsDelivered(f, pos, before, r, pos + r);
    }
  }

  lemma LoadedIsDelivered(f: File, pos: nat, before: seq<Byte>, r: nat, end: nat)
    requires f.Valid() && 0 < r && pos + r <= f.size && pos + r <= end <= |f.flat| && end - pos <= |before|
    ensures IsDelivered(f, pos, before, Loaded(f, pos, before, end), r, end - pos - r)
  {
    var after := Loaded(f, pos, before, end);
    forall i | 0 <= i < |before| ensures after[i] == if i < end - pos then f.flat[pos + i] else before[i] {
      SpliceAt(before, 0, f.flat[pos..end], i);
    }
    assert after[..r] == f.Contents()[pos..pos + r];
  }

  /** Either nothing is read, or bytes are loaded as far as the copy goes. */
  lemma ReadIs(f: File, pos: nat, before: seq<Byte>, n: nat)
    requires f.Valid() && Slack(pos, ReadLength(f, pos, n)) <= |before|
    ensures var r := ReadLength(f, pos, n);
            if r == 0 then Read(f, pos, before, n) == before
            else && pos <= CopyEnd(pos, r) <= |f.flat| && CopyEnd(pos, r) - pos <= |before|
                 && Read(f, pos, before, n) == Loaded(f, pos, before, CopyEnd(pos, r))
  {
    if ReadLength(f, pos, n) > 0 {
      ReadIsLoaded(f, pos, before, n);
    }
  }

  /** The buffer after `tmpfs_read`, repaired. */
  function ReadRepaired(f: File, pos: nat, before: seq<Byte>, n: nat): (r: seq<Byte>)
    requires f.Valid() && ReadLength(f, pos, n) <= |before|
    ensures |r| == |before|
  {
    var len := ReadLength(f, pos, n);
    if len == 0 then before else Loaded(f, pos, before, pos + len)
  }

  // ---------------------------------------------------------------- a file is a flat string of bytes

  /** `s` with `data` at `pos`, filled up with zeros where it has to grow. */
  function FlatWrite(s: seq<Byte>, pos: nat, data: seq<Byte>): seq<Byte> {
    var end := Max(|s|, pos + |data|);
    Splice(s + Zeros(end - |s|), pos, data)
  }

  /** For all lengths and positions the repaired write is a write to a flat string, and keeps the zeros behind it. */
  lemma RepairedWriteIsFlat(f: File, pos: nat, buf: seq<Byte>, n: nat)
    requires f.Valid() && f.ZeroTail() && pos <= |f.flat| && pos + n < TWO32 && 0 < n <= |buf|
    ensures var r := WriteRepaired(f, pos, buf, n);
            r.Contents() == FlatWrite(f.Contents(), pos, buf[..n]) && r.ZeroTail()
  {
    var r := WriteRepaired(f, pos, buf, n);
    var flat := Padded(f.flat, BlocksFor(pos, n));
    var s := f.Contents() + Zeros(r.size - f.size);
    forall k | 0 <= k < |r.flat|
      ensures r.flat[k] == if pos <= k < pos + n then buf[k - pos] else if k < f.size then f.flat[k] else 0
    {
      SpliceAt(flat, pos, buf[..n], k);
    }
    forall k | 0 <= k < r.size
      ensures r.Contents()[k] == FlatWrite(f.Contents(), pos, buf[..n])[k]
    {
      SpliceAt(s, pos, buf[..n], k);
    }
  }

  /** Byte `k` of the file is already what a write at `pos` from `buf` would make of it. */
  predicate SpillMatches(f: File, pos: nat, buf: seq<Byte>, k: nat)
    requires pos <= k < pos + |buf|
  {
    buf[k - pos] == if k < |f.flat| then f.flat[k] else 0
  }

  /** With cleared blocks, the loop as written does the same exactly when the bytes it copies too many are there. */
  lemma CopyIsRightExactlyWhen(f: File, pos: nat, buf: seq<Byte>, n: nat)
    requires f.Valid() && pos <= |f.flat| && pos + n < TWO32 && 0 < n && Slack(pos, n) <= |buf|
    ensures WriteZeroed(f, pos, buf, n) == WriteRepaired(f, pos, buf, n) <==>
            forall k :: pos + n <= k < CopyEnd(pos, n) ==> SpillMatches(f, pos, buf, k)
  {
    var flat := Padded(f.flat, BlocksFor(pos, n));
    var w, r := WriteZeroed(f, pos, buf, n), WriteRepaired(f, pos, buf, n);
    forall k | 0 <= k < |flat|
      ensures w.flat[k] == if pos <= k < CopyEnd(pos, n) then buf[k - pos] else flat[k]
      ensures r.flat[k] == if pos <= k < pos + n then buf[k - pos] else flat[k]
    {
      SpliceAt(flat, pos, buf[..CopyEnd(pos, n) - pos], k);
      SpliceAt(flat, pos, buf[..n], k);
    }
    forall k | pos + n <= k < CopyEnd(pos, n)
      ensures w.flat[k] == r.flat[k] <==> SpillMatches(f, pos, buf, k)
    {
    }
    if forall k :: pos + n <= k < CopyEnd(pos, n) ==> SpillMatches(f, pos, buf, k) {
      assert w.flat == r.flat;
    }
  }

  /** With this buffer the copy loop as written stores what the repaired one does. */
  predicate CopiesRight(f: File, pos: nat, buf: seq<Byte>, n: nat)
    requires f.Valid() && pos <= |f.flat| && pos + n < TWO32 && Slack(pos, n) <= |buf| && n <= |buf|
  {
    WriteZeroed(f, pos, buf, n) == WriteRepaired(f, pos, buf, n)
  }

  /** Whatever is in the buffer behind the data: the copy is right exactly when it is no longer than it should be. */
  lemma CopyIsRightForEveryBufferExactlyWhen(f: File, pos: nat, n: nat)
    requires f.Valid() && pos <= |f.flat| && pos + n < TWO32 && 0 < n
    ensures (forall buf :: |buf| == Slack(pos, n) ==> CopiesRight(f, pos, buf, n)) <==>
            pos % 4096 + n <= 4096 || (n >= 4096 && (pos + n) % 4096 == 0)
  {
    hide WriteZeroed, WriteRepaired;
    CopyEndIsExactlyWhen(pos, n);
    forall buf: seq<Byte> | |buf| == Slack(pos, n)
      ensures CopiesRight(f, pos, buf, n) <==>
              forall k :: pos + n <= k < CopyEnd(pos, n) ==> SpillMatches(f, pos, buf, k)
    {
      CopyIsRightExactlyWhen(f, pos, buf, n);
    }
    if CopyEnd(pos, n) > pos + n {
      var was: Byte := if pos + n < |f.flat| then f.flat[pos + n] else 0;
      var other: Byte := if was == 0 then 1 else 0;
      var buf: seq<Byte> := seq(Slack(pos, n), _ => other);
      assert !SpillMatches(f, pos, buf, pos + n);
    }
  }

  /** Two bytes across a block boundary, in the middle of a file: the third byte in the buffer lands in the file too. */
  lemma ShortWriteAcrossBlocksSpillsOver()
    ensures var f := File(Zeros(8192), 8192);
            f.Valid() && WriteZeroed(f, 4095, [1, 2, 3], 2).Contents()[4097] == 3
  {
  }

  /** The repaired read delivers a slice of the contents, and leaves the rest of the buffer alone. */
  lemma RepairedReadIsASlice(f: File, pos: nat, before: seq<Byte>, n: nat)
    requires f.Valid() && ReadLength(f, pos, n) <= |before|
    ensures var len, r := ReadLength(f, pos, n), ReadRepaired(f, pos, before, n);
            && r[len..] == before[len..]
            && (len > 0 ==> r[..len] == f.Contents()[pos..pos + len])
  {
  }

  /** Byte `i` of the buffer is already what the read would copy there. */
  predicate HeldAlready(f: File, pos: nat, before: seq<Byte>, i: nat)
    requires pos + i < |f.flat| && i < |before|
  {
    before[i] == f.flat[pos + i]
  }

  /** The read as written does the same exactly when the bytes it copies too many are in the buffer already. */
  lemma ReadIsRightExactlyWhen(f: File, pos: nat, before: seq<Byte>, n: nat)
    requires f.Valid() && ReadLength(f, pos, n) > 0 && Slack(pos, ReadLength(f, pos, n)) <= |before|
    ensures var len := ReadLength(f, pos, n);
            Read(f, pos, before, n) == ReadRepaired(f, pos, before, n) <==>
            forall i :: len <= i < Slack(pos, len) ==> HeldAlready(f, pos, before, i)
  {
    var len := ReadLength(f, pos, n);
    LoadedMore(f, pos, before, pos + len, CopyEnd(pos, len));
  }

  lemma LoadedMore(f: File, pos: nat, before: seq<Byte>, end: nat, end': nat)
    requires pos <= end <= end' <= |f.flat| && end' - pos <= |before|
    ensures Loaded(f, pos, before, end') == Loaded(f, pos, before, end) <==>
            forall i :: end - pos <= i < end' - pos ==> HeldAlready(f, pos, before, i)
  {
    var r, q := Loaded(f, pos, before, end'), Loaded(f, pos, before, end);
    forall i | 0 <= i < |before|
      ensures r[i] == if i < end' - pos then f.flat[pos + i] else before[i]
      ensures q[i] == if i < end - pos then f.flat[pos + i] else before[i]
    {
      SpliceAt(before, 0, f.flat[pos..end'], i);
      SpliceAt(before, 0, f.flat[pos..end], i);
    }
    forall i | end - pos <= i < end' - pos ensures r[i] == q[i] <==> HeldAlready(f, pos, before, i) {
    }
    if forall i :: end - pos <= i < end' - pos ==> HeldAlready(f, pos, before, i) {
      assert r == q;
    }
  }

  /** Loading up to `end'` instead of `end` makes no difference to this buffer. */
  predicate LoadsTheSame(f: File, pos: nat, before: seq<Byte>, end: nat, end': nat)
    requires pos <= end <= end' <= |f.flat| && end' - pos <= |before|
  {
    Loaded(f, pos, before, end') == Loaded(f, pos, before, end)
  }

  lemma LoadsTheSameForEveryBuffer(f: File, pos: nat, end: nat, end': nat)
    requires pos <= end <= end' <= |f.flat|
    ensures (forall before :: |before| == end' - pos ==> LoadsTheSame(f, pos, before, end, end')) <==> end' == end
  {
    if end' > end {
      var other: Byte := if f.flat[end] == 0 then 1 else 0;
      var before: seq<Byte> := seq(end' - pos, _ => other);
      LoadedMore(f, pos, before, end, end');
      assert !HeldAlready(f, pos, before, end - pos);
      assert !LoadsTheSame(f, pos, before, end, end');
    }
  }

  /** The read as written does with this buffer what the repaired one does. */
  predicate ReadsRight(f: File, pos: nat, before: seq<Byte>, n: nat)
    requires f.Valid() && Slack(pos, ReadLength(f, pos, n)) <= |before|
  {
    Read(f, pos, before, n) == ReadRepaired(f, pos, before, n)
  }

  lemma ReadingIsLoading(f: File, pos: nat, before: seq<Byte>, n: nat)
    requires f.Valid() && ReadLength(f, pos, n) > 0 && Slack(pos, ReadLength(f, pos, n)) <= |before|
    ensures var len := ReadLength(f, pos, n);
            && pos + len <= CopyEnd(pos, len) <= |f.flat| && CopyEnd(pos, len) - pos == Slack(pos, len)
            && ReadsRight(f, pos, before, n) == LoadsTheSame(f, pos, before, pos + len, CopyEnd(pos, len))
  {
    hide Loaded, CopyEnd, Slack;
    CopyStaysInTheFile(f, pos, ReadLength(f, pos, n));
    ReadIsLoaded(f, pos, before, n);
  }

  /** Whatever was in the buffer: the read as written is right exactly when it copies no more than it should. */
  lemma ReadIsRightForEveryBufferExactlyWhen(f: File, pos: nat, n: nat)
    requires f.Valid() && ReadLength(f, pos, n) > 0
    ensures var len := ReadLength(f, pos, n);
            (forall before :: |before| == Slack(pos, len) ==> ReadsRight(f, pos, before, n))
            <==> pos % 4096 + len <= 4096 || (len >= 4096 && (pos + len) % 4096 == 0)
  {
    hide *;
    var len := ReadLength(f, pos, n);
    var slack, end' := Slack(pos, len), CopyEnd(pos, len);
    CopyEndIsExactlyWhen(pos, len);
    ReadingIsLoading(f, pos, Zeros(slack), n);
    LoadsTheSameForEveryBuffer(f, pos, pos + len, end');
    forall before: seq<Byte> | |before| == slack
      ensures ReadsRight(f, pos, before, n) == LoadsTheSame(f, pos, before, pos + len, end')
    {
      ReadingIsLoading(f, pos, before, n);
    }
  }

  /** Two bytes across a block boundary: the read writes a third byte of the buffer, the repaired one does not. */
  lemma ShortReadAcrossBlocksOverruns()
    ensures var f := File(Zeros(8192), 8192);
            && f.Valid() && ReadLength(f, 4095, 2) == 2 && Slack(4095, 2) == 3
            && Read(f, 4095, [1, 1, 1], 2)[2] == 0 && ReadRepaired(f, 4095, [1, 1, 1], 2)[2] == 1
  {
    var f := File(Zeros(8192), 8192);
    SpliceAt([1, 1, 1], 0, f.flat[4095..4098], 2);
    SpliceAt([1, 1, 1], 0, f.flat[4095..4097], 2);
  }

  lemma NothingToRead(f: File, pos: nat)
    ensures ReadLength(f, pos, 0) == 0
  {
  }

  // ---------------------------------------------------------------- runs

  /** A write with the buffer it reads from. */
  datatype WriteOp = WriteOp(pos: nat, buf: seq<Byte>, n: nat)

  predicate Writable(f: File, op: WriteOp) {
    op.pos <= |f.flat| && op.pos + op.n < TWO32 && op.n <= |op.buf|
  }

  ghost predicate WritableRun(ops: seq<WriteOp>)
    decreases |ops|, 0
  {
    ops == [] || (WritableRun(ops[..|ops| - 1]) && Writable(Run(ops[..|ops| - 1]), ops[|ops| - 1]))
  }

  /** The file after a run of repaired writes to a new file. */
  ghost function Run(ops: seq<WriteOp>): (f: File)
    requires WritableRun(ops)
    ensures f.Valid()
    decreases |ops|, 1
  {
    if ops == [] then EMPTY
    else
      var op := ops[|ops| - 1];
      WriteRepaired(Run(ops[..|ops| - 1]), op.pos, op.buf, op.n)
  }

  /** The same run on one flat string. */
  ghost function FlatRun(ops: seq<WriteOp>): seq<Byte>
    requires WritableRun(ops)
  {
    if ops == [] then []
    else
      var op, s := ops[|ops| - 1], FlatRun(ops[..|ops| - 1]);
      if op.n == 0 then s else FlatWrite(s, op.pos, op.buf[..op.n])
  }

  /** No write of the run copies more than it should, as written. */
  predicate NoOvershoot(ops: seq<WriteOp>) {
    forall i :: 0 <= i < |ops| && ops[i].n > 0 ==> CopyEnd(ops[i].pos, ops[i].n) == ops[i].pos + ops[i].n
  }

  /** The same run with the copy loops as written, and new blocks cleared. */
  ghost function RunZeroed(ops: seq<WriteOp>): (f: File)
    requires WritableRun(ops) && NoOvershoot(ops)
    ensures f == Run(ops)
  {
    if ops == [] then EMPTY
    else
      var op := ops[|ops| - 1];
      WriteWithoutOvershoot(RunZeroed(ops[..|ops| - 1]), op);
      WriteZeroed(RunZeroed(ops[..|ops| - 1]), op.pos, op.buf, op.n)
  }

  lemma WriteWithoutOvershoot(f: File, op: WriteOp)
    requires f.Valid() && Writable(f, op) && (op.n > 0 ==> CopyEnd(op.pos, op.n) == op.pos + op.n)
    ensures Slack(op.pos, op.n) <= |op.buf|
    ensures WriteZeroed(f, op.pos, op.buf, op.n) == WriteRepaired(f, op.pos, op.buf, op.n)
  {
  }

  /** Over every run, reading the file gives the flat string, and behind it there are zeros. */
  lemma {:induction false} RunsAreFlat(ops: seq<WriteOp>)
    requires WritableRun(ops)
    ensures Run(ops).Contents() == FlatRun(ops) && Run(ops).ZeroTail()
  {
    if ops != [] {
      var init, op := ops[..|ops| - 1], ops[|ops| - 1];
      RunsAreFlat(init);
      if op.n > 0 {
        RepairedWriteIsFlat(Run(init), op.pos, op.buf, op.n);
      }
    }
  }
}
