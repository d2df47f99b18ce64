/**
 * The text console of kernel/arch/i686/drivers/tty.c on values: a screen of 25 lines that
 * scrolls, and the unbounded paper that it is a window of.
 */
module Screens {
  import opened Strings

  const WIDTH := 80
  const SIZE := 2000
  const TAB := 8

  type Word = x: int | 0 <= x < 0x1_0000

  datatype Screen = Screen(cells: seq<Word>, pos: nat, escape: bool) {
    predicate Valid() { |cells| == SIZE && pos < SIZE }
  }

  function Blank(n: nat): (r: seq<Word>)
    ensures |r| == n && forall i :: 0 <= i < n ==> r[i] == 0
  {
    seq(n, _ => 0)
  }

  /** Character and colour. A negative `char` is widened first, which sets all the colour bits. */
  function Cell(ch: Byte): Word {
    if ch < 0x80 then 0x0700 + ch else 0xff00 + ch
  }

  /** As the C expression has it: the colour shifted up, or-ed with the character widened with its sign. */
  lemma CellIsTheStoredWord(ch: bv8)
    ensures var widened: bv16 := if ch & 0x80 == 0 then ch as bv16 else 0xff00 | (ch as bv16);
            ((0x07 << 8) | widened) as int == Cell(ch as int)
    ensures Cell(ch as int) / 256 == 0x07 <==> ch < 0x80
  {
  }

  /** `tty_scroll` */
  function Scroll(s: Screen, lines: nat): Screen
    requires |s.cells| == SIZE && lines * WIDTH <= s.pos && lines * WIDTH <= SIZE
  {
    s.(cells := s.cells[lines * WIDTH..] + Blank(lines * WIDTH), pos := s.pos - lines * WIDTH)
  }

  /** `tty_putchar` before it scrolls. */
  function Place(s: Screen, ch: Byte): Screen
    requires s.Valid()
  {
    if ch == 10 || ch == 13 then s.(pos := (s.pos / WIDTH + 1) * WIDTH)
    else if ch == 9 then s.(pos := (s.pos / TAB + 1) * TAB)
    else if ch == 12 then s.(cells := Blank(SIZE), pos := 0)
    else if ch == 27 then s.(escape := true)
    else s.(cells := s.cells[s.pos := Cell(ch)], pos := s.pos + 1)
  }

  function LinesToScroll(pos: nat): nat {
    if pos >= SIZE then (pos - SIZE) / WIDTH + 1 else 0
  }

  lemma PlaceStaysClose(s: Screen, ch: Byte)
    requires s.Valid()
    ensures Place(s, ch).pos <= SIZE && |Place(s, ch).cells| == SIZE
  {
  }

  /** `tty_putchar` */
  function Put(s: Screen, ch: Byte): Screen
    requires s.Valid()
  {
    PlaceStaysClose(s, ch);
    Scroll(Place(s, ch), LinesToScroll(Place(s, ch).pos))
  }

  function PutAll(s: Screen, text: seq<Byte>): (r: Screen)
    requires s.Valid()
    ensures r.Valid()
  {
    if text == [] then s else
      var before := PutAll(s, text[..|text| - 1]);
      PlaceStaysClose(before, text[|text| - 1]);
      Put(before, text[|text| - 1])
  }

  /** Writing in parts is writing the whole. */
  lemma {:induction false} PutAllInParts(s: Screen, a: seq<Byte>, b: seq<Byte>)
    requires s.Valid()
    ensures PutAll(s, a + b) == PutAll(PutAll(s, a), b)
  {
    hide Put, Place;
    if b == [] {
      assert a + b == a;
    } else {
      PutAllInParts(s, a, b[..|b| - 1]);
      assert (a + b)[..|a + b| - 1] == a + b[..|b| - 1];
    }
  }

  // ---------------------------------------------------------------- paper

  /** Everything since the last form feed, on paper 80 cells wide without an end. */
  function Type(paper: seq<Word>, ch: Byte): seq<Word> {
    if ch == 10 || ch == 13 then paper + Blank(WIDTH - |paper| % WIDTH)
    else if ch == 9 then paper + Blank(TAB - |paper| % TAB)
    else if ch == 12 then []
    else if ch == 27 then paper
    else paper + [Cell(ch)]
  }

  function Paper(text: seq<Byte>): seq<Word> {
    if text == [] then [] else Type(Paper(text[..|text| - 1]), text[|text| - 1])
  }

  /** The lines that have left the screen at the top: the last line in use is the last on the screen. */
  function Gone(paper: seq<Word>): nat {
    if |paper| / WIDTH < 25 then 0 else |paper| / WIDTH - 24
  }

  /** The screen shows the paper from line `Gone` on, and blank cells behind it. */
  ghost predicate Shows(s: Screen, paper: seq<Word>) {
    && s.Valid()
    && Gone(paper) * WIDTH + s.pos == |paper|
    && s.cells == paper[Gone(paper) * WIDTH..] + Blank(SIZE - s.pos)
  }

  /** Scrolling moves the window down the paper. */
  lemma ScrollShows(cells: seq<Word>, pos: nat, paper: seq<Word>, top: nat)
    requires pos <= SIZE && top * WIDTH + pos == |paper| && cells == paper[top * WIDTH..] + Blank(SIZE - pos)
    ensures var n := LinesToScroll(pos);
            && n * WIDTH <= pos
            && cells[n * WIDTH..] + Blank(n * WIDTH) == paper[(top + n) * WIDTH..] + Blank(SIZE - (pos - n * WIDTH))
  {
  }

  lemma AnotherCell(cells: seq<Word>, pos: nat, paper: seq<Word>, from: nat, w: Word)
    requires from <= |paper| && from + pos == |paper| && pos < SIZE && cells == paper[from..] + Blank(SIZE - pos)
    ensures cells[pos := w] == (paper + [w])[from..] + Blank(SIZE - (pos + 1))
  {
  }

  lemma AnotherBlank(pos: nat, paper: seq<Word>, from: nat, n: nat)
    requires from <= |paper| && pos + n <= SIZE
    ensures paper[from..] + Blank(SIZE - pos) == (paper + Blank(n))[from..] + Blank(SIZE - (pos + n))
  {
  }

  /** Before it scrolls, the screen shows the same window with the character in it. */
  lemma PlaceShows(s: Screen, paper: seq<Word>, ch: Byte)
    requires Shows(s, paper) && ch != 12
    ensures var after, placed, top := Type(paper, ch), Place(s, ch), Gone(paper);
            && top * WIDTH + placed.pos == |after| && placed.pos <= SIZE
            && placed.cells == after[top * WIDTH..] + Blank(SIZE - placed.pos)
  {
    var top := Gone(paper);
    assert |paper| % WIDTH == s.pos % WIDTH && |paper| % TAB == s.pos % TAB;
    hide Blank, Gone, Cell;
    if ch == 10 || ch == 13 {
      AnotherBlank(s.pos, paper, top * WIDTH, WIDTH - s.pos % WIDTH);
    } else if ch == 9 {
      AnotherBlank(s.pos, paper, top * WIDTH, TAB - s.pos % TAB);
    } else if ch != 27 {
      AnotherCell(s.cells, s.pos, paper, top * WIDTH, Cell(ch));
    }
  }

  lemma PutShows(s: Screen, paper: seq<Word>, ch: Byte)
    requires Shows(s, paper)
    ensures Shows(Put(s, ch), Type(paper, ch))
  {
    PlaceStaysClose(s, ch);
    GoneGrows(s, paper, ch);
    if ch != 12 {
      PlaceShows(s, paper, ch);
      hide Type, Place, Gone;
      ScrollShows(Place(s, ch).cells, Place(s, ch).pos, Type(paper, ch), Gone(paper));
    }
  }

  /** In numbers: tabs go to the next multiple of 8, new lines to the next multiple of 80, and 2000 is never passed. */
  lemma CursorMoves(s: Screen, ch: Byte)
    requires s.Valid()
    ensures var q, r := Place(s, ch).pos, Put(s, ch).pos;
            && (ch == 9 ==> 0 < q - s.pos <= 8 && q % 8 == 0)
            && (ch == 10 || ch == 13 ==> 0 < q - s.pos <= 80 && q % 80 == 0)
            && (ch == 12 ==> q == 0) && (ch == 27 ==> q == s.pos)
            && (ch !in {9, 10, 12, 13, 27} ==> q == s.pos + 1)
            && (if q < 2000 then r == q else 1920 <= r < 2000 && r % 80 == q % 80)
            && Put(s, ch).escape == (s.escape || ch == 27)
  {
    PlaceStaysClose(s, ch);
  }

  lemma GoneGrows(s: Screen, paper: seq<Word>, ch: Byte)
    requires Shows(s, paper)
    ensures Gone(Type(paper, ch)) == if ch == 12 then 0 else Gone(paper) + LinesToScroll(Place(s, ch).pos)
  {
    if ch != 12 {
      PlaceShows(s, paper, ch);
      hide Type, Blank;
      LinesAdd(Gone(paper), s.pos);
      LinesAdd(Gone(paper), Place(s, ch).pos);
      assert Place(s, ch).pos >= s.pos;
    }
  }

  lemma LinesAdd(lines: nat, pos: nat)
    ensures (lines * WIDTH + pos) / WIDTH == lines + pos / WIDTH
  {
  }

  /** A blank screen after a text. */
  function After(text: seq<Byte>): (r: Screen)
    ensures r.Valid()
  {
    PutAll(Screen(Blank(SIZE), 0, false), text)
  }

  /** For every text: the cursor is on the screen, and the screen is a window of the paper. */
  lemma {:induction false} ScreenIsAWindow(text: seq<Byte>)
    ensures Shows(After(text), Paper(text))
  {
    if text == [] {
    } else {
      ScreenIsAWindow(text[..|text| - 1]);
      PutShows(After(text[..|text| - 1]), Paper(text[..|text| - 1]), text[|text| - 1]);
    }
  }

  /** The lines scrolled since the last form feed. */
  function Scrolls(text: seq<Byte>): nat {
    if text == [] then 0
    else
      var before, ch := text[..|text| - 1], text[|text| - 1];
      if ch == 12 then 0 else Scrolls(before) + LinesToScroll(Place(After(before), ch).pos)
  }

  /** The screen starts as many lines down the paper as it was scrolled since the last form feed. */
  lemma {:induction false} WindowStartsAtTheScrolls(text: seq<Byte>)
    ensures Gone(Paper(text)) == Scrolls(text)
  {
    if text == [] {
    } else {
      var before, ch := text[..|text| - 1], text[|text| - 1];
      WindowStartsAtTheScrolls(before);
      ScreenIsAWindow(before);
      hide Gone, Shows, Type, Place, LinesToScroll, After;
      GoneGrows(After(before), Paper(before), ch);
    }
  }
}
