/**
 * Regular files of kernel/fs/tmpfs.c: a chain of 4096-byte blocks. The ghost fields
 * `blocks` and `flat` are the chain and its bytes; module FileBytes says what becomes of them.
 */
module TmpfsFile {
  import opened Machine
  import opened Strings
  import opened FileBytes
  import opened FileChain

  /** What a block's link may be: null, another block, or what was left over in memory. */
  datatype Link = Null | To(block: Block) | Wild

  class Block {
    const buf: array<Byte>
    var next: Link

    /** A new block in memory that holds `l`. With `CLEARED` it is a block filled with zeros that leads nowhere. */
    constructor (l: LeftOver)
      ensures fresh(buf) && buf.Length == 4096 && next == (if l.wild then Wild else Null) && buf[..] == Raw(l)
    {
      buf := new Byte[4096]((i: nat) => l.bytes(i));
      next := if l.wild then Wild else Null;
      new;
      assert buf[..] == Raw(l);
    }
  }

  /** An `int` result. */
  function AsInt(n: nat): (r: int)
    requires n < TWO32
    ensures n < 0x8000_0000 ==> r == n
    ensures n >= 0x8000_0000 ==> r == n - 0x1_0000_0000
  {
    if n < 0x8000_0000 then n else n - TWO32
  }

  class RegularFile {
    var size: nat
    const first: Block
    ghost var blocks: seq<Block>
    ghost var flat: seq<Byte>
    /** The link of the last block is other than null. */
    ghost var wild: bool
    /** The blocks and their buffers. */
    ghost var repr: set<object>

    /** The chain: each block leads to the next, and no two share memory. */
    ghost predicate Chained()
      reads this`blocks, this`wild, this`repr, repr
    {
      && this !in repr
      && |blocks| > 0 && blocks[0] == first
      && (forall i :: 0 <= i < |blocks| ==> blocks[i] in repr && blocks[i].buf in repr && blocks[i].buf.Length == 4096)
      && (forall i :: 0 <= i < |blocks| ==> Linked(i))
      && (forall i, j :: 0 <= i < j < |blocks| ==> blocks[i] != blocks[j] && blocks[i].buf != blocks[j].buf)
    }

    ghost predicate Linked(i: nat)
      requires i < |blocks|
      reads this`blocks, this`wild, blocks
    {
      blocks[i].next == if i + 1 < |blocks| then To(blocks[i + 1]) else if wild then Wild else Null
    }

    /** The bytes of the chain are `flat`. */
    ghost predicate HoldsFlat()
      reads this`blocks, this`flat, this`wild, this`repr, repr
    {
      && Chained()
      && |flat| == 4096 * |blocks|
      && forall i :: 0 <= i < |blocks| ==> blocks[i].buf[..] == flat[4096 * i..4096 * (i + 1)]
    }

    /** A chain that holds the file; the link of its last block may be anything. */
    ghost predicate IsFile()
      reads this, repr
    {
      HoldsFlat() && Now().Valid()
    }

    /** A file whose chain ends in null. */
    ghost predicate Valid()
      reads this, repr
    {
      IsFile() && !wild
    }

    ghost function Now(): File
      reads this
    {
      File(flat, size)
    }

    ghost function NowWithLink(): State
      reads this
    {
      State(Now(), wild)
    }

    /** The file that `tmpfs_create` makes: one zeroed block. */
    constructor ()
      ensures Valid() && Now() == EMPTY && fresh(repr)
    {
      size := 0;
      first := new Block(CLEARED);
      new;
      blocks, flat, wild, repr := [first], Zeros(4096), false, {first, first.buf};
    }

    /** The block that holds byte `pos`, or null behind the last one. A fault is a link followed that no one has set. */
    method FindBlk(pos: nat) returns (fault: bool, blk: Block?)
      requires Chained()
      ensures blk == if pos / 4096 < |blocks| then blocks[pos / 4096] else null
      ensures fault <==> pos / 4096 >= |blocks| && wild
    {
      fault, blk := false, first;
      var o := 4096;
      ghost var i := 0;
      while o <= pos
        invariant o == 4096 * (i + 1) && i <= pos / 4096
        invariant i < |blocks| && blk == blocks[i] && !fault
        decreases pos + 4096 - o
      {
        assert Linked(i);
        match blk.next {
          case Null => return false, null;
          case Wild => return true, null;
          case To(next) =>
            blk := next;
            i := i + 1;
        }
        o := o + 4096;
      }
    }

    /** A new block behind the last one, in memory that holds `l`. */
    method Append(last: Block, l: LeftOver) returns (blk: Block)
      requires HoldsFlat() && last == blocks[|blocks| - 1]
      modifies this`blocks, this`flat, this`wild, this`repr, last`next
      ensures HoldsFlat() && fresh(repr - old(repr))
      ensures blocks == old(blocks) + [blk] && flat == old(flat) + Raw(l) && wild == l.wild
    {
      blk := new Block(l);
      last.next := To(blk);
      blocks := blocks + [blk];
      flat := flat + Raw(l);
      wild := l.wild;
      repr := repr + {blk, blk.buf};
      forall i | 0 <= i < |blocks| ensures Linked(i) {
        assert i < |old(blocks)| ==> old(Linked(i));
      }
      forall i | 0 <= i < |blocks| ensures blocks[i].buf[..] == flat[4096 * i..4096 * (i + 1)] {
        if i < |old(blocks)| {
          assert blocks[i].buf[..] == old(flat)[4096 * i..4096 * (i + 1)];
        }
      }
    }

    /** Copies `n` bytes of `src` from offset `s` on into block `k` at offset `d`. */
    method Store(blk: Block, ghost k: nat, d: nat, src: array<Byte>, s: nat, n: nat)
      requires HoldsFlat() && k < |blocks| && blk == blocks[k]
      requires d + n <= 4096 && s + n <= src.Length && src !in repr
      modifies this`flat, blk.buf
      ensures HoldsFlat()
      ensures 4096 * k + d + n <= |old(flat)| && flat == Splice(old(flat), 4096 * k + d, src[s..s + n])
    {
      Memcpy(blk.buf, d, src, s, n);
      assert forall i :: 0 <= i < |blocks| ==> old(Linked(i)) ==> Linked(i);
      flat := Splice(flat, 4096 * k + d, src[s..s + n]);
      forall i | 0 <= i < |blocks|
        ensures blocks[i].buf[..] == flat[4096 * i..4096 * (i + 1)]
      {
        SpliceBlock(old(flat), k, d, src[s..s + n], i);
      }
    }

    /** The block of `pos`, made and initialised if it is missing. */
    method BlockOf(pos: nat) returns (fault: bool, blk: Block)
      requires HoldsFlat() && pos <= |flat|
      modifies repr, this`blocks, this`flat, this`wild, this`repr
      ensures HoldsFlat() && fresh(repr - old(repr))
      ensures fault <==> pos == |old(flat)| && old(wild)
      ensures !fault ==> pos / 4096 < |blocks| && blk == blocks[pos / 4096]
      ensures !fault ==> flat == Padded(old(flat), pos / 4096 + 1) && wild == (pos < |old(flat)| && old(wild))
    {
      var found, last;
      fault, found := FindBlk(pos);
      if fault {
        blk := first;
      } else if found == null {
        fault, last := FindBlk(pos - 1);
        blk := Append(last, CLEARED);
      } else {
        blk := found;
      }
    }

    /** The block behind block `k`, made if it is missing, in memory that holds `l`. */
    method NextBlk(blk: Block, ghost k: nat, l: LeftOver) returns (fault: bool, next: Block)
      requires HoldsFlat() && k < |blocks| && blk == blocks[k]
      modifies this`blocks, this`flat, this`wild, this`repr, blk`next
      ensures HoldsFlat() && fresh(repr - old(repr))
      ensures fault <==> k + 1 == |old(blocks)| && old(wild)
      ensures !fault ==> k + 1 < |blocks| && next == blocks[k + 1]
      ensures !fault ==> flat == old(flat) + Added(old(flat), k + 2, l)
      ensures !fault ==> wild == if k + 1 == |old(blocks)| then l.wild else old(wild)
    {
      assert Linked(k);
      fault, next := false, blk;
      match blk.next {
        case Null => next := Append(blk, l);
        case Wild => fault := true;
        case To(b) => next := b;
      }
    }

    /** The start of a write: the block of `pos` and the first copy. */
    method WriteFirst(pos: nat, buf: array<Byte>, n: nat, ghost data: seq<Byte>) returns (fault: bool, blk: Block)
      requires buf[..] == data
      requires HoldsFlat() && pos <= |flat| && pos % 4096 + n <= 4096 && n <= buf.Length && buf !in repr
      modifies repr, this`blocks, this`flat, this`wild, this`repr
      ensures fresh(repr - old(repr)) && buf[..] == data
      ensures fault <==> pos == |old(flat)| && old(wild)
      ensures !fault ==> wild == (pos < |old(flat)| && old(wild))
      ensures !fault ==> Reached(blk, pos / 4096, Padded(old(flat), pos / 4096 + 1), pos, data, n)
    {
      fault, blk := BlockOf(pos);
      if !fault {
        Store(blk, pos / 4096, pos % 4096, buf, 0, n);
        assert 4096 * (pos / 4096) + pos % 4096 == pos;
        assert buf[0..0 + n] == data[..n];
      }
    }

    /** The file between rounds of the copy loops: block `k` is reached, `copied` bytes are stored over `base`. */
    ghost predicate Reached(blk: Block, k: nat, base: seq<Byte>, pos: nat, data: seq<Byte>, copied: nat)
      reads this`blocks, this`flat, this`wild, this`repr, repr
    {
      && HoldsFlat() && k < |blocks| && blk == blocks[k]
      && copied <= |data| && IsWritten(flat, base, pos, data[..copied])
    }

    lemma ReachedIsWritten(blk: Block, k: nat, base: seq<Byte>, pos: nat, data: seq<Byte>, copied: nat)
      requires Reached(blk, k, base, pos, data, copied)
      ensures HoldsFlat() && copied <= |data| && IsWritten(flat, base, pos, data[..copied])
    {
    }

    /** One round of the copy loops: `m` bytes of the buffer to the start of the block behind block `k`. */
    method WriteNext(blk: Block, ghost k: nat, buf: array<Byte>, b: nat, m: nat, l: LeftOver,
                     ghost base: seq<Byte>, ghost pos: nat, ghost data: seq<Byte>)
        returns (fault: bool, next: Block)
      requires buf[..] == data && m <= 4096 && b + m <= buf.Length && buf !in repr
      requires Reached(blk, k, base, pos, data, b) && pos + b == 4096 * (k + 1)
      modifies repr, this`blocks, this`flat, this`wild, this`repr
      ensures fresh(repr - old(repr)) && buf[..] == data
      ensures fault <==> 4096 * (k + 1) == |base| && old(wild)
      ensures !fault ==> wild == if 4096 * (k + 1) == |base| then l.wild else old(wild)
      ensures !fault ==> Reached(next, k + 1, base + Added(base, k + 2, l), pos, data, b + m)
    {
      hide IsWritten;
      assert |base| == |flat| by {
        WrittenHasLength(flat, base, pos, data[..b]);
      }
      ghost var f := flat;
      fault, next := NextBlk(blk, k, l);
      if !fault {
        Store(next, k + 1, 0, buf, b, m);
        assert buf[b..b + m] == data[b..b + m];
        WrittenExtends(f, flat, base, Added(base, k + 2, l), pos, data[..b], data[b..b + m]);
        assert data[..b] + data[b..b + m] == data[..b + m];
      }
    }

    /** One round of the copy loop as written: min(n, 4096) bytes to the block behind block `k`. */
    method WriteRound(blk: Block, ghost k: nat, buf: array<Byte>, n: nat, p: nat, b: nat, left: nat -> LeftOver,
                      ghost pos: nat, ghost start: seq<Byte>, ghost w: bool, ghost base: seq<Byte>,
                      ghost data: seq<Byte>)
        returns (fault: bool, next: Block, ghost longer: seq<Byte>)
      requires 0 < n && Slack(pos, n) <= buf.Length && buf[..] == data && buf !in repr
      requires Copying(pos, n, k, p, b, b) && p < pos + n
      requires Reached(blk, k, base, pos, data, b) && Extends(start, w, left, k + 1, base, wild)
      modifies repr, this`blocks, this`flat, this`wild, this`repr
      ensures fresh(repr - old(repr)) && buf[..] == data
      ensures fault ==> Ends(start, w, left, BlocksFor(pos, n))
      ensures !fault ==> Reached(next, k + 1, longer, pos, data, b + Min(n, 4096))
      ensures !fault ==> Extends(start, w, left, k + 2, longer, wild)
    {
      CopyingGoesOn(pos, n, k, p, b, b);
      assert k + 1 < BlocksFor(pos, n) && p / 4096 == k + 1;
      hide Reached, Extends, Ends, Added, BlocksFor, CopyEnd, Copying;
      longer := base + Added(base, k + 2, left(k + 1));
      OneFurther(start, w, left, k, base, wild);
      fault, next := WriteNext(blk, k, buf, b, Min(n, 4096), left(p / 4096), base, pos, data);
      if fault {
        NoFurther(start, w, left, k + 2, BlocksFor(pos, n));
      }
    }

    /** The copy loop of `tmpfs_write` as written: every block gets min(n, 4096) bytes. */
    method WriteRest(blk0: Block, buf: array<Byte>, n: nat, end: nat, p0: nat, b0: nat, left: nat -> LeftOver,
                     ghost k0: nat, ghost pos: nat, ghost start: seq<Byte>, ghost data: seq<Byte>)
        returns (fault: bool, ghost base: seq<Byte>)
      requires 0 < n && end == pos + n && Slack(pos, n) <= buf.Length && buf[..] == data && buf !in repr
      requires Copying(pos, n, k0, p0, b0, b0)
      requires Reached(blk0, k0, start, pos, data, b0) && Extends(start, wild, left, k0 + 1, start, wild)
      modifies repr, this`blocks, this`flat, this`wild, this`repr
      ensures fresh(repr - old(repr)) && buf[..] == data
      ensures fault ==> Ends(start, old(wild), left, BlocksFor(pos, n))
      ensures !fault ==> Extends(start, old(wild), left, BlocksFor(pos, n), base, wild)
      ensures !fault ==> HoldsFlat() && IsWritten(flat, base, pos, data[..CopyEnd(pos, n) - pos])
    {
      hide HoldsFlat, Reached, IsWritten, Copying, Extends, Ends, BlocksFor, CopyEnd, Slack;
      var blk, p: nat, b: nat := blk0, p0, b0;
      ghost var copied: nat, k: nat := b0, k0;
      fault, base := false, start;
      while p < end
        invariant fresh(repr - old(repr)) && buf[..] == data && !fault
        invariant Copying(pos, n, k, p, b, copied) && Reached(blk, k, base, pos, data, copied)
        invariant Extends(start, old(wild), left, k + 1, base, wild)
        decreases end - p
      {
        CopyingGoesOn(pos, n, k, p, b, copied);
        fault, blk, base := WriteRound(blk, k, buf, n, p, b, left, pos, start, old(wild), base, data);
        if fault {
          return;
        }
        k, copied := k + 1, b + Min(n, 4096);
        p, b := p + 4096, b + 4096;
      }
      CopyingDone(pos, n, k, p, b, copied);
      ReachedIsWritten(blk, k, base, pos, data, copied);
    }

    /** The first copy and the loop of `tmpfs_write` as written. */
    method WriteBlocks(pos: nat, buf: array<Byte>, n: nat, left: nat -> LeftOver, ghost s: State, ghost data: seq<Byte>)
        returns (fault: bool)
      requires IsFile() && s == NowWithLink() && pos <= |flat| && pos + n < TWO32 && 0 < n
      requires Slack(pos, n) <= buf.Length && buf[..] == data && buf !in repr
      modifies repr, this`blocks, this`flat, this`wild, this`repr
      ensures fresh(repr - old(repr)) && buf[..] == data
      ensures fault ==> FileChain.Write(s, pos, data, n, left) == None
      ensures !fault ==> HoldsFlat()
      ensures !fault ==>
                FileChain.Write(s, pos, data, n, left) == Some(State(File(flat, Max(s.file.size, pos + n)), wild))
    {
      ghost var start := Padded(flat, pos / 4096 + 1);
      CopyingStarts(pos, n);
      SlackCovers(pos, n);
      hide HoldsFlat, Reached, IsWritten, Copying, FileChain.Write, Extends, Ends, BlocksFor, CopyEnd, Padded, Slack;
      var end := pos + n;
      var b := Min(n, 4096 - pos % 4096);
      var blk;
      fault, blk := WriteFirst(pos, buf, b, data);
      if !fault {
        ghost var base;
        fault, base := WriteRest(blk, buf, n, end, pos + b, b, left, pos / 4096, pos, start, data);
        if !fault {
          WrittenIsWrite(s, pos, data, n, left, base, NowWithLink());
        }
      }
    }

    /** `tmpfs_write` as written. `left` says what the memory of new blocks holds. */
    method Write(pos: nat, buf: array<Byte>, n: nat, left: nat -> LeftOver) returns (fault: bool, r: int)
      requires IsFile() && pos <= |flat| && pos + n < TWO32
      requires Slack(pos, n) <= buf.Length && buf !in repr
      modifies this, repr
      ensures fresh(repr - old(repr)) && buf[..] == old(buf[..])
      ensures fault <==> FileChain.Write(old(NowWithLink()), pos, buf[..], n, left) == None
      ensures !fault ==> IsFile() && r == AsInt(n)
      ensures !fault ==> FileChain.Write(old(NowWithLink()), pos, buf[..], n, left) == Some(NowWithLink())
      ensures !fault ==> size == if n > 0 && pos + n > old(size) then pos + n else old(size)
    {
      if n == 0 {
        return false, 0;
      }
      hide HoldsFlat, FileChain.Write;
      r := 0;
      fault := WriteBlocks(pos, buf, n, left, NowWithLink(), buf[..]);
      if !fault {
        size := if pos + n < size then size else pos + n;
        r := AsInt(n);
      }
    }

    /** The copy loop of the repaired `tmpfs_write`: every block gets what is left to write, up to 4096 bytes. */
    method WriteRestRepaired(blk0: Block, buf: array<Byte>, n: nat, end: nat, p0: nat, b0: nat,
                             ghost k0: nat, ghost pos: nat, ghost start: seq<Byte>, ghost data: seq<Byte>)
      requires 0 < n <= buf.Length && end == pos + n && buf[..] == data && buf !in repr && !wild
      requires CopyingRepaired(pos, n, k0, p0) && b0 == p0 - pos && |start| % 4096 == 0
      requires Reached(blk0, k0, Padded(start, k0 + 1), pos, data, b0)
      modifies repr, this`blocks, this`flat, this`wild, this`repr
      ensures HoldsFlat() && fresh(repr - old(repr)) && buf[..] == data && !wild
      ensures IsWritten(flat, Padded(start, BlocksFor(pos, n)), pos, data[..n])
    {
      hide IsWritten, HoldsFlat, CopyingRepaired, Padded;
      var blk, p: nat, b: nat := blk0, p0, b0;
      ghost var k: nat := k0;
      while p < end
        invariant fresh(repr - old(repr)) && buf[..] == data && !wild
        invariant CopyingRepaired(pos, n, k, p) && b == p - pos && Reached(blk, k, Padded(start, k + 1), pos, data, b)
        decreases end - p
      {
        CopyingRepairedSteps(pos, n, k, p);
        PaddedByOne(start, k + 1);
        var m := Min(end - p, 4096);
        var _, next := WriteNext(blk, k, buf, b, m, CLEARED, Padded(start, k + 1), pos, data);
        blk, k, p, b := next, k + 1, p + m, b + m;
      }
      CopyingRepairedSteps(pos, n, k, p);
    }

    /** `tmpfs_write` repaired: what is copied is what is left to copy, and new blocks are initialised. */
    method WriteRepaired(pos: nat, buf: array<Byte>, n: nat) returns (r: int)
      requires Valid() && pos <= |flat| && pos + n < TWO32
      requires n <= buf.Length && buf !in repr
      modifies this, repr
      ensures Valid() && fresh(repr - old(repr))
      ensures buf[..] == old(buf[..]) && Now() == FileBytes.WriteRepaired(old(Now()), pos, buf[..], n) && r == AsInt(n)
      ensures size == if n > 0 && pos + n > old(size) then pos + n else old(size)
    {
      if n == 0 {
        return 0;
      }
      ghost var f, data := Now(), buf[..];
      var end := pos + n;
      var b := Min(n, 4096 - pos % 4096);
      CopyingRepairedSteps(pos, n, 0, 0);
      hide HoldsFlat, IsWritten, CopyingRepaired, FileBytes.WriteRepaired;
      var _, blk := WriteFirst(pos, buf, b, data);
      WriteRestRepaired(blk, buf, n, end, pos + b, b, pos / 4096, pos, f.flat, data);
      WrittenIsWriteRepaired(f, pos, data, n, flat);
      size := if end < size then size else end;
      r := AsInt(n);
    }

    /** Copies `n` bytes of block `k` from offset `s` on to `dst`. */
    method Load(blk: Block, ghost k: nat, s: nat, dst: array<Byte>, d: nat, n: nat)
      requires HoldsFlat() && k < |blocks| && blk == blocks[k]
      requires s + n <= 4096 && d + n <= dst.Length && dst !in repr
      modifies dst
      ensures HoldsFlat()
      ensures 4096 * k + s + n <= |flat| && dst[..] == Splice(old(dst[..]), d, flat[4096 * k + s..4096 * k + s + n])
    {
      Memcpy(dst, d, blk.buf, s, n);
      assert forall i :: 0 <= i < |blocks| ==> old(Linked(i)) ==> Linked(i);
      assert blocks[k].buf[..] == flat[4096 * k..4096 * (k + 1)];
      assert blk.buf[s..s + n] == blk.buf[..][s..s + n];
      SliceOfBlock(flat, k, s, n);
    }

    /** The copy loop of `tmpfs_read` as written: the buffer gets min(n, 4096) bytes of every block. */
    method ReadRest(blk0: Block, buf: array<Byte>, n: nat, pos: nat, ghost start: seq<Byte>)
      requires HoldsFlat() && 0 < n && Slack(pos, n) <= buf.Length && buf !in repr
      requires pos / 4096 < |blocks| && blk0 == blocks[pos / 4096] && BlocksFor(pos, n) <= |blocks|
      requires Delivered(flat, pos, start, buf[..], pos + Min(n, 4096 - pos % 4096))
      modifies buf
      ensures HoldsFlat()
      ensures Delivered(flat, pos, start, buf[..], CopyEnd(pos, n))
    {
      hide Delivered, Copying;
      var blk, b: nat, end := blk0, Min(n, 4096 - pos % 4096), pos + n;
      var p: nat := pos + b;
      ghost var k: nat, copied: nat := pos / 4096, b;
      CopyingStarts(pos, n);
      while p < end
        invariant HoldsFlat() && Copying(pos, n, k, p, b, copied) && k < |blocks| && blk == blocks[k]
        invariant Delivered(flat, pos, start, buf[..], pos + copied)
        decreases end - p
      {
        CopyingGoesOn(pos, n, k, p, b, copied);
        blk := ReadNext(blk, k, buf, b, Min(n, 4096), pos, start);
        k, copied := k + 1, b + Min(n, 4096);
        p, b := p + 4096, b + 4096;
      }
      CopyingDone(pos, n, k, p, b, copied);
    }

    /** One round of that loop. */
    method ReadNext(blk: Block, ghost k: nat, buf: array<Byte>, b: nat, m: nat, ghost pos: nat, ghost start: seq<Byte>)
        returns (next: Block)
      requires HoldsFlat() && k + 1 < |blocks| && blk == blocks[k]
      requires m <= 4096 && b + m <= buf.Length && buf !in repr && pos + b == 4096 * (k + 1)
      requires Delivered(flat, pos, start, buf[..], pos + b)
      modifies buf
      ensures HoldsFlat() && next == blocks[k + 1] && Delivered(flat, pos, start, buf[..], pos + b + m)
    {
      assert Linked(k);
      next := blk.next.block;
      ghost var before := buf[..];
      Load(next, k + 1, 0, buf, b, m);
      DeliveredExtends(flat, pos, start, before, buf[..], pos + b, pos + b + m);
    }

    /** The part of a read that lies in its first block. */
    method LoadFirst(blk: Block, pos: nat, buf: array<Byte>, n: nat)
      requires HoldsFlat() && pos / 4096 < |blocks| && blk == blocks[pos / 4096]
      requires pos % 4096 + n <= 4096 && n <= buf.Length && buf !in repr
      modifies buf
      ensures HoldsFlat() && Delivered(flat, pos, old(buf[..]), buf[..], pos + n)
    {
      Load(blk, pos / 4096, pos % 4096, buf, 0, n);
      assert 4096 * (pos / 4096) + pos % 4096 == pos;
    }

    /** The copies of `tmpfs_read` as written. */
    method ReadBlocks(blk: Block, pos: nat, buf: array<Byte>, n: nat)
      requires IsFile() && 0 < n && pos + n <= size && Slack(pos, n) <= buf.Length && buf !in repr
      requires pos / 4096 < |blocks| && blk == blocks[pos / 4096]
      modifies buf
      ensures IsFile() && CopyEnd(pos, n) <= |flat| && CopyEnd(pos, n) - pos <= buf.Length
      ensures buf[..] == Loaded(Now(), pos, old(buf[..]), CopyEnd(pos, n))
    {
      hide HoldsFlat, Loaded, Splice, Delivered, Chained, BlocksFor;
      LoadFirst(blk, pos, buf, Min(n, 4096 - pos % 4096));
      ReadRest(blk, buf, n, pos, old(buf[..]));
      DeliveredIsLoaded(Now(), pos, old(buf[..]), buf[..], CopyEnd(pos, n));
    }

    /** The copies of the repaired `tmpfs_read`. */
    method ReadBlocksRepaired(blk: Block, pos: nat, buf: array<Byte>, n: nat)
      requires IsFile() && 0 < n && pos + n <= size && n <= buf.Length && buf !in repr
      requires pos / 4096 < |blocks| && blk == blocks[pos / 4096]
      modifies buf
      ensures IsFile() && pos + n <= |flat| && buf[..] == Loaded(Now(), pos, old(buf[..]), pos + n)
    {
      hide HoldsFlat, Loaded, Splice, Delivered, Chained, BlocksFor;
      LoadFirst(blk, pos, buf, Min(n, 4096 - pos % 4096));
      ReadRestRepaired(blk, buf, n, pos, old(buf[..]));
      DeliveredIsLoaded(Now(), pos, old(buf[..]), buf[..], pos + n);
    }

    /** `tmpfs_read` as written. */
    method Read(pos: nat, buf: array<Byte>, n0: nat) returns (r: int)
      requires IsFile() && n0 < TWO32
      requires Slack(pos, ReadLength(Now(), pos, n0)) <= buf.Length && buf !in repr
      modifies buf
      ensures IsFile() && r == AsInt(ReadLength(Now(), pos, n0))
      ensures buf[..] == FileBytes.Read(Now(), pos, old(buf[..]), n0)
      ensures n0 < 0x8000_0000 ==>
                && r >= 0 && IsReadCount(size, pos, n0, r)
                && IsDelivered(Now(), pos, old(buf[..]), buf[..], r, Slack(pos, r) - r)
    {
      ReadDelivers(Now(), pos, buf[..], n0, ReadLength(Now(), pos, n0));
      hide IsReadCount, IsDelivered;
      ReadIs(Now(), pos, buf[..], n0);
      hide FileBytes.Read, Loaded, Splice;
      var n := if pos + n0 >= size then (if pos <= size then size - pos else 0) else n0;
      hide HoldsFlat, Delivered, Chained, BlocksFor;
      if pos >= size || n == 0 {
        return 0;
      }
      var _, blk := FindBlk(pos);
      if blk == null {
        return 0;
      }
      ReadBlocks(blk, pos, buf, n);
      r := AsInt(n);
    }

    /** `tmpfs_write` and then `tmpfs_read` in the same place, both as written: the bytes written come back. */
    method WriteThenRead(pos: nat, buf: array<Byte>, n: nat, left: nat -> LeftOver, out: array<Byte>)
        returns (fault: bool, r: int)
      requires IsFile() && pos <= |flat| && pos + n < TWO32
      requires Slack(pos, n) <= buf.Length && Slack(pos, n) <= out.Length && n <= out.Length
      requires buf !in repr && out !in repr && buf != out
      modifies this, repr, out
      ensures fault <==> FileChain.Write(old(NowWithLink()), pos, old(buf[..]), n, left) == None
      ensures !fault ==> IsFile() && r == AsInt(n) && out[..n] == old(buf[..n])
    {
      ghost var s, data := NowWithLink(), buf[..];
      if n == 0 {
        NothingToRead(Now(), pos);
      } else if FileChain.Write(s, pos, data, n, left).Some? {
        WrittenIsThereWhateverWasLeft(s, pos, data, n, left);
      }
      hide HoldsFlat, FileBytes.Read, ReadLength;
      fault, r := Write(pos, buf, n, left);
      if !fault {
        FileChain.WriteThenRead(s, pos, data, n, left, out[..]);
        r := Read(pos, out, n);
      }
    }

    /** The copy loop of the repaired `tmpfs_read`. */
    method ReadRestRepaired(blk0: Block, buf: array<Byte>, n: nat, pos: nat, ghost start: seq<Byte>)
      requires HoldsFlat() && 0 < n <= buf.Length && buf !in repr
      requires pos / 4096 < |blocks| && blk0 == blocks[pos / 4096] && BlocksFor(pos, n) <= |blocks|
      requires Delivered(flat, pos, start, buf[..], pos + Min(n, 4096 - pos % 4096))
      modifies buf
      ensures HoldsFlat()
      ensures Delivered(flat, pos, start, buf[..], pos + n)
    {
      hide Delivered, CopyingRepaired;
      var blk, p: nat, end := blk0, pos + Min(n, 4096 - pos % 4096), pos + n;
      ghost var k: nat := pos / 4096;
      CopyingRepairedSteps(pos, n, k, p);
      while p < end
        invariant HoldsFlat() && CopyingRepaired(pos, n, k, p) && pos <= p <= end && k < |blocks| && blk == blocks[k]
        invariant Delivered(flat, pos, start, buf[..], p)
        decreases end - p
      {
        CopyingRepairedSteps(pos, n, k, p);
        var m := Min(end - p, 4096);
        blk := ReadNext(blk, k, buf, p - pos, m, pos, start);
        k, p := k + 1, p + m;
      }
    }

    /** `tmpfs_read` repaired: a slice of the contents, and nothing behind it in the buffer is touched. */
    method ReadRepaired(pos: nat, buf: array<Byte>, n0: nat) returns (r: int)
      requires IsFile() && n0 < TWO32
      requires ReadLength(Now(), pos, n0) <= buf.Length && buf !in repr
      modifies buf
      ensures IsFile() && r == AsInt(ReadLength(Now(), pos, n0))
      ensures buf[..] == FileBytes.ReadRepaired(Now(), pos, old(buf[..]), n0)
      ensures n0 < 0x8000_0000 ==>
                r >= 0 && IsReadCount(size, pos, n0, r) && IsDelivered(Now(), pos, old(buf[..]), buf[..], r, 0)
    {
      RepairedReadDelivers(Now(), pos, buf[..], n0, ReadLength(Now(), pos, n0));
      hide IsReadCount, IsDelivered;
      hide Loaded, Splice;
      var n := if pos + n0 >= size then (if pos <= size then size - pos else 0) else n0;
      hide HoldsFlat, Delivered, Chained, BlocksFor;
      if pos >= size || n == 0 {
        return 0;
      }
      var _, blk := FindBlk(pos);
      if blk == null {
        return 0;
      }
      ReadBlocksRepaired(blk, pos, buf, n);
      r := AsInt(n);
    }
  }

  lemma WrittenHasLength(flat: seq<Byte>, base: seq<Byte>, pos: nat, data: seq<Byte>)
    requires IsWritten(flat, base, pos, data)
    ensures |flat| == |base|
  {
  }

  lemma PaddedByOne(start: seq<Byte>, k: nat)
    requires |start| % 4096 == 0
    ensures Padded(start, k + 1) == Padded(start, k) + Added(Padded(start, k), k + 1, CLEARED)
  {
    assert Padded(start, k) + [] == Padded(start, k);
  }

  /** A chain that was `start` has gone on to `blocks` blocks, and is now `base`. */
  ghost predicate Extends(start: seq<Byte>, w: bool, left: nat -> LeftOver, blocks: nat, base: seq<Byte>, wild: bool) {
    |start| % 4096 == 0 && ExtendTo(start, w, blocks, left) == Some((base, wild))
  }

  /** On the way to `blocks` blocks a link is followed that no one has set. */
  ghost predicate Ends(start: seq<Byte>, w: bool, left: nat -> LeftOver, blocks: nat) {
    |start| % 4096 == 0 && ExtendTo(start, w, blocks, left) == None
  }

  /** One block further. */
  lemma OneFurther(start: seq<Byte>, w: bool, left: nat -> LeftOver, k: nat, base: seq<Byte>, wild: bool)
    requires Extends(start, w, left, k + 1, base, wild)
    ensures 4096 * (k + 1) == |base| && wild ==> Ends(start, w, left, k + 2)
    ensures !(4096 * (k + 1) == |base| && wild) ==>
              Extends(start, w, left, k + 2, base + Added(base, k + 2, left(k + 1)),
                      if 4096 * (k + 1) == |base| then left(k + 1).wild else wild)
  {
    assert base + [] == base;
  }

  /** Once a link that no one has set was followed, there is no going on. */
  lemma {:induction false} NoFurther(start: seq<Byte>, w: bool, left: nat -> LeftOver, k: nat, blocks: nat)
    requires k <= blocks && Ends(start, w, left, k)
    ensures Ends(start, w, left, blocks)
  {
    if k < blocks {
      NoFurther(start, w, left, k, blocks - 1);
    }
  }

  /** What the loop leaves, with the new size, is what `Write` says. */
  lemma WrittenIsWrite(s: State, pos: nat, buf: seq<Byte>, n: nat, left: nat -> LeftOver, base: seq<Byte>, now: State)
    requires s.file.Valid() && pos <= |s.file.flat| && pos + n < TWO32 && 0 < n && Slack(pos, n) <= |buf|
    requires !(pos == |s.file.flat| && s.wild)
    requires Extends(Padded(s.file.flat, pos / 4096 + 1), pos < |s.file.flat| && s.wild, left, BlocksFor(pos, n), base,
                     now.wild)
    requires IsWritten(now.file.flat, base, pos, buf[..CopyEnd(pos, n) - pos])
    ensures FileChain.Write(s, pos, buf, n, left)
         == Some(State(File(now.file.flat, Max(s.file.size, pos + n)), now.wild))
  {
  }

  lemma SliceOfBlock(flat: seq<Byte>, k: nat, s: nat, n: nat)
    requires 4096 * (k + 1) <= |flat| && s + n <= 4096
    ensures flat[4096 * k..4096 * (k + 1)][s..s + n] == flat[4096 * k + s..4096 * k + s + n]
  {
    var l, r := flat[4096 * k..4096 * (k + 1)][s..s + n], flat[4096 * k + s..4096 * k + s + n];
    forall i | 0 <= i < n ensures l[i] == r[i] {
    }
  }

  /** The buffer now starts with bytes [pos, end) of the file; behind them it is as it was. */
  predicate Delivered(flat: seq<Byte>, pos: nat, before: seq<Byte>, after: seq<Byte>, end: nat) {
    && pos <= end <= |flat| && end - pos <= |before|
    && after == Splice(before, 0, flat[pos..end])
  }

  lemma DeliveredIsLoaded(f: File, pos: nat, before: seq<Byte>, after: seq<Byte>, end: nat)
    requires Delivered(f.flat, pos, before, after, end)
    ensures pos <= end <= |f.flat| && end - pos <= |before| && after == Loaded(f, pos, before, end)
  {
  }

  lemma DeliveredExtends(flat: seq<Byte>, pos: nat, start: seq<Byte>, before: seq<Byte>, after: seq<Byte>,
                         mid: nat, end: nat)
    requires Delivered(flat, pos, start, before, mid) && mid <= end <= |flat| && end - pos <= |start|
    requires after == Splice(before, mid - pos, flat[mid..end])
    ensures Delivered(flat, pos, start, after, end)
  {
    forall i | 0 <= i < |after| ensures after[i] == Splice(start, 0, flat[pos..end])[i] {
      SpliceAt(start, 0, flat[pos..mid], i);
      SpliceAt(before, mid - pos, flat[mid..end], i);
      SpliceAt(start, 0, flat[pos..end], i);
    }
  }

  /** A splice inside block `k` is a splice of that block, and leaves the others alone. */
  lemma SpliceBlock(flat: seq<Byte>, k: nat, d: nat, data: seq<Byte>, i: nat)
    requires d + |data| <= 4096 && 4096 * (k + 1) <= |flat| && 4096 * (i + 1) <= |flat|
    ensures Splice(flat, 4096 * k + d, data)[4096 * i..4096 * (i + 1)]
            == if i == k then Splice(flat[4096 * k..4096 * (k + 1)], d, data) else flat[4096 * i..4096 * (i + 1)]
  {
    var block := Splice(flat, 4096 * k + d, data)[4096 * i..4096 * (i + 1)];
    forall o | 0 <= o < 4096
      ensures block[o] == if i == k then Splice(flat[4096 * k..4096 * (k + 1)], d, data)[o]
                          else flat[4096 * i..4096 * (i + 1)][o]
    {
      SpliceAt(flat, 4096 * k + d, data, 4096 * i + o);
      if i == k {
        SpliceAt(flat[4096 * k..4096 * (k + 1)], d, data, o);
      }
    }
  }
}
