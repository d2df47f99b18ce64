/**
 * `tmpfs_write` of kernel/fs/tmpfs.c as written, on the chain of blocks: the blocks that its copy
 * loop allocates hold whatever their memory held, in their bytes and in their links.
 */
module FileChain {
  import opened FileBytes
  import opened Machine
  import opened Strings

  /** What the memory of a new block holds: its bytes, and whether its link is other than null. */
  datatype LeftOver = LeftOver(bytes: nat -> Byte, wild: bool)

  const CLEARED := LeftOver(_ => 0, false)

  /** The bytes of a block that nobody has initialised. */
  function Raw(l: LeftOver): (r: seq<Byte>)
    ensures |r| == 4096 && forall i :: 0 <= i < 4096 ==> r[i] == l.bytes(i)
  {
    seq<Byte>(4096, (i: nat) => l.bytes(i))
  }

  /** What is added so that there are at least `blocks` blocks, if one is missing. */
  function Added(flat: seq<Byte>, blocks: nat, l: LeftOver): seq<Byte> {
    if |flat| < 4096 * blocks then Raw(l) else []
  }

  /**
   * The bytes and the last link after the loop has gone on to `blocks` blocks. `left` says, block
   * by block, what new memory holds. None means that a link other than null was followed that
   * no one has set.
   */
  function ExtendTo(flat: seq<Byte>, wild: bool, blocks: nat, left: nat -> LeftOver): (r: Option<(seq<Byte>, bool)>)
    requires |flat| % 4096 == 0
    ensures r.Some? ==> |r.value.0| == Max(|flat|, 4096 * blocks) && flat <= r.value.0
  {
    if 4096 * blocks <= |flat| then Some((flat, wild))
    else
      match ExtendTo(flat, wild, blocks - 1, left)
      case None => None
      case Some((t, w)) => if w then None else Some((t + Raw(left(blocks - 1)), left(blocks - 1).wild))
  }

  /** A file, and whether the link of its last block is other than null. */
  datatype State = State(file: File, wild: bool)

  /** `tmpfs_write`. The block that it makes first, if any, is initialised; those of the loop are not. */
  function Write(s: State, pos: nat, buf: seq<Byte>, n: nat, left: nat -> LeftOver): (r: Option<State>)
    requires s.file.Valid() && pos <= |s.file.flat| && pos + n < TWO32 && Slack(pos, n) <= |buf|
    ensures r.Some? ==> r.value.file.Valid()
  {
    var flat := s.file.flat;
    if n == 0 then Some(s)
    else if pos == |flat| && s.wild then None
    else
      match ExtendTo(Padded(flat, pos / 4096 + 1), pos < |flat| && s.wild, BlocksFor(pos, n), left)
      case None => None
      case Some((t, w)) =>
        Some(State(File(Splice(t, pos, buf[..CopyEnd(pos, n) - pos]), Max(s.file.size, pos + n)), w))
  }

  /** The blocks there are when the loop starts. */
  function BlocksAtStart(f: File, pos: nat): nat {
    Max(|f.flat| / 4096, pos / 4096 + 1)
  }

  /** The loop allocates nothing. */
  predicate AllBlocksThere(f: File, pos: nat, n: nat)
    requires n > 0
  {
    BlocksFor(pos, n) <= BlocksAtStart(f, pos)
  }

  // ---------------------------------------------------------------- what left-over memory does

  /** A link that nobody has set is followed: one of all blocks but the last. */
  ghost predicate Follows(flat: seq<Byte>, wild: bool, blocks: nat, left: nat -> LeftOver) {
    |flat| < 4096 * blocks && (wild || exists j :: |flat| / 4096 <= j < blocks - 1 && left(j).wild)
  }

  lemma {:induction false} ExtendToIs(flat: seq<Byte>, wild: bool, blocks: nat, left: nat -> LeftOver)
    requires |flat| % 4096 == 0
    ensures var r := ExtendTo(flat, wild, blocks, left);
            && (r.None? <==> Follows(flat, wild, blocks, left))
            && (r.Some? ==> r.value.1 == if |flat| < 4096 * blocks then left(blocks - 1).wild else wild)
            && (r.Some? ==> forall k :: |flat| <= k < |r.value.0| ==> r.value.0[k] == left(k / 4096).bytes(k % 4096))
  {
    if |flat| < 4096 * blocks {
      ExtendToIs(flat, wild, blocks - 1, left);
      if 4096 * (blocks - 1) <= |flat| {
        assert |flat| / 4096 == blocks - 1;
      } else {
        assert left(blocks - 2).wild ==> Follows(flat, wild, blocks, left);
      }
    }
  }

  /** The call is carried out, and leaves a chain that ends in null with the bytes of the file `w`. */
  predicate Leaves(f: File, pos: nat, buf: seq<Byte>, n: nat, left: nat -> LeftOver, w: File)
    requires f.Valid() && pos <= |f.flat| && pos + n < TWO32 && Slack(pos, n) <= |buf|
  {
    Write(State(f, false), pos, buf, n, left) == Some(State(w, false))
  }

  /** If the loop allocates nothing, new memory does not matter. */
  lemma NothingAllocated(f: File, pos: nat, buf: seq<Byte>, n: nat, left: nat -> LeftOver)
    requires f.Valid() && pos <= |f.flat| && pos + n < TWO32 && 0 < n && Slack(pos, n) <= |buf|
    requires AllBlocksThere(f, pos, n)
    ensures Leaves(f, pos, buf, n, left, WriteZeroed(f, pos, buf, n))
  {
    var start := Padded(f.flat, pos / 4096 + 1);
    assert start == Padded(f.flat, BlocksFor(pos, n));
    assert ExtendTo(start, false, BlocksFor(pos, n), left) == Some((start, false));
  }

  /** What the write leaves, in terms of new memory, if the loop allocates. */
  lemma SomethingAllocated(f: File, pos: nat, buf: seq<Byte>, n: nat, left: nat -> LeftOver)
    requires f.Valid() && pos <= |f.flat| && pos + n < TWO32 && 0 < n && Slack(pos, n) <= |buf|
    requires !AllBlocksThere(f, pos, n)
    ensures var r, last := Write(State(f, false), pos, buf, n, left), BlocksFor(pos, n) - 1;
            && BlocksAtStart(f, pos) <= last
            && (r.None? <==> exists j :: BlocksAtStart(f, pos) <= j < last && left(j).wild)
            && (r.Some? ==> r.value.wild == left(last).wild)
            && (r.Some? ==> r.value.file.size == WriteZeroed(f, pos, buf, n).size)
            && (r.Some? ==> |r.value.file.flat| == |WriteZeroed(f, pos, buf, n).flat| == 4096 * BlocksFor(pos, n))
            && (r.Some? ==> forall k :: 0 <= k < |r.value.file.flat| ==>
                  r.value.file.flat[k] == if 4096 * BlocksAtStart(f, pos) <= k && CopyEnd(pos, n) <= k
                                          then left(k / 4096).bytes(k % 4096)
                                          else WriteZeroed(f, pos, buf, n).flat[k])
  {
    var start, blocks := Padded(f.flat, pos / 4096 + 1), BlocksFor(pos, n);
    ExtendToIs(start, false, blocks, left);
    assert |start| == 4096 * BlocksAtStart(f, pos);
    var e := ExtendTo(start, false, blocks, left);
    if e.Some? {
      var t, data := e.value.0, buf[..CopyEnd(pos, n) - pos];
      var r, z := Write(State(f, false), pos, buf, n, left).value.file, WriteZeroed(f, pos, buf, n);
      forall k | 0 <= k < |t|
        ensures r.flat[k] == if 4096 * BlocksAtStart(f, pos) <= k && CopyEnd(pos, n) <= k
                             then left(k / 4096).bytes(k % 4096)
                             else z.flat[k]
      {
        SpliceAt(t, pos, data, k);
        SpliceAt(Padded(f.flat, blocks), pos, data, k);
        if k < |start| {
          assert t[k] == start[k];
        }
      }
    }
  }

  /**
   * Whatever new memory holds: the write leaves a chain that ends in null, with the bytes that
   * cleared blocks would give, exactly when its loop allocates nothing.
   */
  lemma LeftOversAreHarmlessExactlyWhen(f: File, pos: nat, buf: seq<Byte>, n: nat)
    requires f.Valid() && pos <= |f.flat| && pos + n < TWO32 && 0 < n && Slack(pos, n) <= |buf|
    ensures (forall left: nat -> LeftOver :: Leaves(f, pos, buf, n, left, WriteZeroed(f, pos, buf, n)))
            <==> AllBlocksThere(f, pos, n)
  {
    if AllBlocksThere(f, pos, n) {
      forall left: nat -> LeftOver ensures Leaves(f, pos, buf, n, left, WriteZeroed(f, pos, buf, n)) {
        NothingAllocated(f, pos, buf, n, left);
      }
    } else {
      var left: nat -> LeftOver := _ => LeftOver(_ => 0, true);
      SomethingAllocated(f, pos, buf, n, left);
      assert !Leaves(f, pos, buf, n, left, WriteZeroed(f, pos, buf, n));
    }
  }

  /** New blocks with null links and any bytes. */
  function Unlinked(bytes: (nat, nat) -> Byte): nat -> LeftOver {
    (j: nat) => LeftOver((i: nat) => bytes(j, i), false)
  }

  /** Even with null links the bytes are right whatever new memory holds only if it is all overwritten. */
  lemma LeftOverBytesAreHarmlessExactlyWhen(f: File, pos: nat, buf: seq<Byte>, n: nat)
    requires f.Valid() && pos <= |f.flat| && pos + n < TWO32 && 0 < n && Slack(pos, n) <= |buf|
    ensures (forall bytes: (nat, nat) -> Byte :: Leaves(f, pos, buf, n, Unlinked(bytes), WriteZeroed(f, pos, buf, n)))
            <==> AllBlocksThere(f, pos, n) || CopyEnd(pos, n) == 4096 * BlocksFor(pos, n)
  {
    var z := WriteZeroed(f, pos, buf, n);
    if AllBlocksThere(f, pos, n) {
      forall bytes: (nat, nat) -> Byte ensures Leaves(f, pos, buf, n, Unlinked(bytes), z) {
        NothingAllocated(f, pos, buf, n, Unlinked(bytes));
      }
    } else if CopyEnd(pos, n) == 4096 * BlocksFor(pos, n) {
      forall bytes: (nat, nat) -> Byte ensures Leaves(f, pos, buf, n, Unlinked(bytes), z) {
        SomethingAllocated(f, pos, buf, n, Unlinked(bytes));
        assert Write(State(f, false), pos, buf, n, Unlinked(bytes)).value.file.flat == z.flat;
      }
    } else {
      LeftOverByteShows(f, pos, buf, n);
    }
  }

  /** A new block that is not overwritten to its end keeps its last byte. */
  lemma LeftOverByteShows(f: File, pos: nat, buf: seq<Byte>, n: nat)
    requires f.Valid() && pos <= |f.flat| && pos + n < TWO32 && 0 < n && Slack(pos, n) <= |buf|
    requires !AllBlocksThere(f, pos, n) && CopyEnd(pos, n) != 4096 * BlocksFor(pos, n)
    ensures exists bytes: (nat, nat) -> Byte :: !Leaves(f, pos, buf, n, Unlinked(bytes), WriteZeroed(f, pos, buf, n))
  {
    var ones: (nat, nat) -> Byte := (j, i) => 1;
    var z, k := WriteZeroed(f, pos, buf, n), 4096 * BlocksFor(pos, n) - 1;
    SomethingAllocated(f, pos, buf, n, Unlinked(ones));
    SpliceAt(Padded(f.flat, BlocksFor(pos, n)), pos, buf[..CopyEnd(pos, n) - pos], k);
    assert z.flat[k] == 0;
    assert !Leaves(f, pos, buf, n, Unlinked(ones), z);
  }

  /** A new file, two blocks and one byte: the link of the second block is followed as it was left. */
  lemma LongWriteFollowsALeftOverLink(buf: seq<Byte>, left: nat -> LeftOver)
    requires |buf| >= 12288 && left(1).wild
    ensures Slack(0, 8193) <= |buf| && Write(State(EMPTY, false), 0, buf, 8193, left) == None
  {
    SomethingAllocated(EMPTY, 0, buf, 8193, left);
  }

  /** A new file, one block and one byte: the write itself goes well, and the next that needs a block does not. */
  lemma NextWriteFollowsALeftOverLink(buf: seq<Byte>, left: nat -> LeftOver)
    requires |buf| >= 8192 && left(1).wild
    ensures var r := Write(State(EMPTY, false), 0, buf, 4097, left);
            r.Some? && r.value.wild && Write(r.value, 4097, buf, 4096, left) == None
  {
    SomethingAllocated(EMPTY, 0, buf, 4097, left);
    var s := Write(State(EMPTY, false), 0, buf, 4097, left).value;
    assert Padded(s.file.flat, 2) == s.file.flat;
    ExtendToIs(s.file.flat, true, 3, left);
  }

  // ---------------------------------------------------------------- writing and reading, as written

  /** The write is carried out whatever new memory holds exactly when its loop allocates one block at most. */
  lemma WriteIsCarriedOutExactlyWhen(f: File, pos: nat, buf: seq<Byte>, n: nat)
    requires f.Valid() && pos <= |f.flat| && pos + n < TWO32 && 0 < n && Slack(pos, n) <= |buf|
    ensures (forall left: nat -> LeftOver :: Write(State(f, false), pos, buf, n, left).Some?)
            <==> BlocksFor(pos, n) <= BlocksAtStart(f, pos) + 1
  {
    if BlocksFor(pos, n) <= BlocksAtStart(f, pos) + 1 {
      forall left: nat -> LeftOver ensures Write(State(f, false), pos, buf, n, left).Some? {
        if AllBlocksThere(f, pos, n) {
          NothingAllocated(f, pos, buf, n, left);
        } else {
          SomethingAllocated(f, pos, buf, n, left);
        }
      }
    } else {
      var left: nat -> LeftOver := _ => LeftOver(_ => 0, true);
      SomethingAllocated(f, pos, buf, n, left);
      assert left(BlocksAtStart(f, pos)).wild;
    }
  }

  /** After every write that is carried out, the bytes written are in their place and can be read. */
  lemma WrittenIsThereWhateverWasLeft(s: State, pos: nat, buf: seq<Byte>, n: nat, left: nat -> LeftOver)
    requires s.file.Valid() && pos <= |s.file.flat| && pos + n < TWO32 && 0 < n && Slack(pos, n) <= |buf|
    requires Write(s, pos, buf, n, left).Some?
    ensures var w := Write(s, pos, buf, n, left).value.file;
            ReadLength(w, pos, n) == n && w.flat[pos..pos + n] == buf[..n]
  {
    var start, w := Padded(s.file.flat, pos / 4096 + 1), Write(s, pos, buf, n, left).value.file;
    var t := ExtendTo(start, pos < |s.file.flat| && s.wild, BlocksFor(pos, n), left).value.0;
    forall k | pos <= k < pos + n ensures w.flat[k] == buf[k - pos] {
      SpliceAt(t, pos, buf[..CopyEnd(pos, n) - pos], k);
    }
  }

  /** As written, a write of any length that is carried out and then a read of as many bytes give the bytes back. */
  lemma WriteThenRead(s: State, pos: nat, buf: seq<Byte>, n: nat, left: nat -> LeftOver, before: seq<Byte>)
    requires s.file.Valid() && pos <= |s.file.flat| && pos + n < TWO32 && Slack(pos, n) <= |buf|
    requires Write(s, pos, buf, n, left).Some?
    requires Slack(pos, ReadLength(Write(s, pos, buf, n, left).value.file, pos, n)) <= |before| && n <= |before|
    ensures Read(Write(s, pos, buf, n, left).value.file, pos, before, n)[..n] == buf[..n]
  {
    if n > 0 {
      WrittenIsThereWhateverWasLeft(s, pos, buf, n, left);
      var w := Write(s, pos, buf, n, left).value.file;
      hide Write;
      ReadIsLoaded(w, pos, before, n);
      assert w.flat[pos..CopyEnd(pos, n)][..n] == w.flat[pos..pos + n];
    }
  }

  /**
   * Whatever is in the buffer behind the data, and whatever new memory holds: the write as
   * written is right exactly when it copies no more than it should and its loop allocates nothing.
   */
  lemma WriteIsRightExactlyWhen(f: File, pos: nat, n: nat)
    requires f.Valid() && pos <= |f.flat| && pos + n < TWO32 && 0 < n
    ensures (forall buf: seq<Byte>, left: nat -> LeftOver :: |buf| == Slack(pos, n) ==>
               Leaves(f, pos, buf, n, left, WriteRepaired(f, pos, buf, n)))
            <==> && AllBlocksThere(f, pos, n)
                 && (pos % 4096 + n <= 4096 || (n >= 4096 && (pos + n) % 4096 == 0))
  {
    hide *;
    var wild: nat -> LeftOver := _ => LeftOver(_ => 0, true);
    CopyIsRightForEveryBufferExactlyWhen(f, pos, n);
    SlackCovers(pos, n);
    if AllBlocksThere(f, pos, n) {
      forall buf: seq<Byte>, left: nat -> LeftOver | |buf| == Slack(pos, n)
        ensures Leaves(f, pos, buf, n, left, WriteRepaired(f, pos, buf, n)) == CopiesRight(f, pos, buf, n)
      {
        LeavesTheCopy(f, pos, buf, n, left);
      }
      if buf: seq<Byte> :| |buf| == Slack(pos, n) && !CopiesRight(f, pos, buf, n) {
        assert !Leaves(f, pos, buf, n, wild, WriteRepaired(f, pos, buf, n));
      }
    } else {
      var buf: seq<Byte> := Zeros(Slack(pos, n));
      WildLinkShows(f, pos, buf, n, wild, WriteRepaired(f, pos, buf, n));
    }
  }

  lemma SlackCovers(pos: nat, n: nat)
    ensures n <= Slack(pos, n)
  {
  }

  lemma LeavesTheCopy(f: File, pos: nat, buf: seq<Byte>, n: nat, left: nat -> LeftOver)
    requires f.Valid() && pos <= |f.flat| && pos + n < TWO32 && 0 < n && Slack(pos, n) <= |buf|
    requires AllBlocksThere(f, pos, n)
    ensures n <= |buf|
    ensures Leaves(f, pos, buf, n, left, WriteRepaired(f, pos, buf, n)) == CopiesRight(f, pos, buf, n)
  {
    NothingAllocated(f, pos, buf, n, left);
  }

  lemma WildLinkShows(f: File, pos: nat, buf: seq<Byte>, n: nat, left: nat -> LeftOver, w: File)
    requires f.Valid() && pos <= |f.flat| && pos + n < TWO32 && 0 < n && Slack(pos, n) <= |buf|
    requires !AllBlocksThere(f, pos, n) && left(BlocksFor(pos, n) - 1).wild
    ensures !Leaves(f, pos, buf, n, left, w)
  {
    SomethingAllocated(f, pos, buf, n, left);
  }

  /** Two bytes across a block boundary, in the middle of a file: the third byte in the buffer lands in the file too. */
  lemma ShortWriteAcrossBlocksSpillsOver(left: nat -> LeftOver)
    ensures var r := Write(State(File(Zeros(8192), 8192), false), 4095, [1, 2, 3], 2, left);
            r.Some? && r.value.file.Valid() && r.value.file.Contents()[4097] == 3
  {
    NothingAllocated(File(Zeros(8192), 8192), 4095, [1, 2, 3], 2, left);
    FileBytes.ShortWriteAcrossBlocksSpillsOver();
  }

  // ---------------------------------------------------------------- runs, as written

  /** A write that copies no more than it should, and for which no block has to be allocated in the loop. */
  predicate Careful(f: File, op: WriteOp) {
    op.n > 0 ==> CopyEnd(op.pos, op.n) == op.pos + op.n && AllBlocksThere(f, op.pos, op.n)
  }

  ghost predicate CarefulRun(ops: seq<WriteOp>)
    requires WritableRun(ops)
  {
    ops == [] || (CarefulRun(ops[..|ops| - 1]) && Careful(Run(ops[..|ops| - 1]), ops[|ops| - 1]))
  }

  /** A run of `tmpfs_write` as written on a new file; `left` says what each call finds in new memory. */
  ghost function RunAsWritten(ops: seq<WriteOp>, left: (nat, nat) -> LeftOver): Option<State>
    requires WritableRun(ops) && CarefulRun(ops)
    ensures RunAsWritten(ops, left) == Some(State(Run(ops), false))
  {
    if ops == [] then Some(State(EMPTY, false))
    else
      var init, op := ops[..|ops| - 1], ops[|ops| - 1];
      var s := RunAsWritten(init, left).value;
      WriteWithoutOvershoot(s.file, op);
      var now := (j: nat) => left(|init|, j);
      CarefulWriteIsRight(s.file, op, now);
      Write(s, op.pos, op.buf, op.n, now)
  }

  lemma CarefulWriteIsRight(f: File, op: WriteOp, left: nat -> LeftOver)
    requires f.Valid() && Writable(f, op) && Careful(f, op)
    ensures Slack(op.pos, op.n) <= |op.buf|
    ensures Leaves(f, op.pos, op.buf, op.n, left, WriteRepaired(f, op.pos, op.buf, op.n))
  {
    WriteWithoutOvershoot(f, op);
    if op.n > 0 {
      NothingAllocated(f, op.pos, op.buf, op.n, left);
    }
  }
}
