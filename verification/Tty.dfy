/**
 * The text console of kernel/arch/i686/drivers/tty.c as an object: the video buffer, one
 * 16-bit word per cell, changed in place. Module Screens says what becomes of it.
 */
module Tty {
  import opened Strings
  import opened Screens

  /** Moving the lines up and blanking the last ones, as one change. */
  lemma ScrolledCells(was: seq<Word>, points: nat)
    requires |was| == SIZE && points <= SIZE
    ensures Splice(Splice(was, 0, was[points..SIZE]), SIZE - points, seq(points, _ => 0))
         == was[points..] + Blank(points)
  {
    var moved := Splice(was, 0, was[points..SIZE]);
    forall k | 0 <= k < SIZE
      ensures Splice(moved, SIZE - points, seq(points, _ => 0))[k] == (was[points..] + Blank(points))[k]
    {
      SpliceAt(was, 0, was[points..SIZE], k);
      SpliceAt(moved, SIZE - points, seq(points, _ => 0), k);
    }
  }

  class Console {
    const vgaBuffer: array<Word>
    var pos: nat
    var processingSequence: bool
    /** The two bytes of the cursor position that the video hardware was told. */
    var cursorLo: Byte
    var cursorHi: Byte

    ghost predicate Valid()
      reads this
    {
      vgaBuffer.Length == SIZE && pos < SIZE
    }

    function Now(): Screen
      reads this, vgaBuffer
    {
      Screen(vgaBuffer[..], pos, processingSequence)
    }

    constructor ()
      ensures Valid() && Now() == Screen(Blank(SIZE), 0, false) && fresh(vgaBuffer)
    {
      vgaBuffer := new Word[SIZE](_ => 0);
      pos, processingSequence, cursorLo, cursorHi := 0, false, 0, 0;
      new;
      assert vgaBuffer[..] == Blank(SIZE);
    }

    /** `tty_scroll` */
    method ScrollBy(lines: nat)
      requires vgaBuffer.Length == SIZE && lines * WIDTH <= pos && lines * WIDTH <= SIZE
      modifies this`pos, vgaBuffer
      ensures Now() == Scroll(old(Now()), lines)
    {
      var points := lines * WIDTH;
      ghost var was := vgaBuffer[..];
      assert was[points..points + (SIZE - points)] == was[points..SIZE];
      Memmove(vgaBuffer, 0, points, SIZE - points);
      assert vgaBuffer[..] == Splice(was, 0, was[points..SIZE]);
      Memset(vgaBuffer, SIZE - points, 0, points);
      pos := pos - points;
      ScrolledCells(was, points);
    }

    /** The effect of the character itself. */
    method PlaceChar(ch: Byte)
      requires Valid()
      modifies this`pos, this`processingSequence, vgaBuffer
      ensures Now() == Place(old(Now()), ch)
    {
      match ch {
        case 10 => pos := (pos / WIDTH + 1) * WIDTH;
        case 13 => pos := (pos / WIDTH + 1) * WIDTH;
        case 9 => pos := (pos / TAB + 1) * TAB;
        case 12 =>
          Memset(vgaBuffer, 0, 0, SIZE);
          pos := 0;
          assert vgaBuffer[..] == Blank(SIZE);
        case 27 => processingSequence := true;
        case _ =>
          vgaBuffer[pos] := Cell(ch);
          pos := pos + 1;
      }
    }

    /** `tty_putchar` */
    method PutChar(ch: Byte)
      requires Valid()
      modifies this`pos, this`processingSequence, vgaBuffer
      ensures Valid() && Now() == Put(old(Now()), ch)
    {
      PlaceStaysClose(Now(), ch);
      PlaceChar(ch);
      if pos >= SIZE {
        ScrollBy((pos - SIZE) / WIDTH + 1);
      } else {
        ghost var now := Now();
        assert now.cells[0..] + Blank(0) == now.cells;
      }
    }

    /** `tty_set_cursor` */
    method SetCursor()
      modifies this`cursorLo, this`cursorHi
      ensures pos < 0x1_0000 ==> 256 * cursorHi + cursorLo == pos
    {
      cursorLo := pos % 256;
      cursorHi := pos / 256 % 256;
    }

    /** `vconsole_write`: all characters in turn, then the cursor. */
    method Write(buf: array<Byte>, n: nat) returns (count: nat)
      requires Valid() && n <= buf.Length
      modifies this, vgaBuffer
      ensures Valid() && Now() == PutAll(old(Now()), old(buf[..n]))
      ensures count == n && 256 * cursorHi + cursorLo == pos
    {
      var i := 0;
      while i < n
        invariant Valid() && i <= n && buf[..] == old(buf[..])
        invariant Now() == PutAll(old(Now()), old(buf[..i]))
      {
        PutChar(buf[i]);
        i := i + 1;
        assert old(buf[..i])[..i - 1] == old(buf[..i - 1]);
      }
      SetCursor();
      count := n;
    }
  }
}
