/**
 * Formatted output of libc/stdio.c on values: numerals, the directives of a format, and
 * what they print. Characters are bytes; arguments are 32-bit words.
 */
module Formats {
  import opened Machine
  import opened Strings

  /** A string in memory, without its terminator. */
  type CString = s: seq<Byte> | 0 !in s

  const SPACE: Byte := 32
  const PERCENT: Byte := 37
  const MINUS: Byte := 45
  const ZERO: Byte := 48

  predicate IsDigit(ch: Byte) {
    48 <= ch <= 57
  }

  // ---------------------------------------------------------------- numerals

  /** The radices in use, and the first letter for digits from ten on. */
  predicate IsRadix(r: nat, alpha: Byte) {
    r == 8 || r == 10 || (r == 16 && (alpha == 97 || alpha == 65))
  }

  function Digit(d: nat, alpha: Byte): Byte
    requires d < 10 || (d < 16 && alpha <= 97)
  {
    if d < 10 then ZERO + d else alpha + d - 10
  }

  /** The canonical numeral: highest digit first, no leading zero. */
  function Digits(x: nat, r: nat, alpha: Byte): (s: seq<Byte>)
    requires IsRadix(r, alpha)
    ensures |s| > 0
  {
    if x < r then [Digit(x, alpha)] else Digits(x / r, r, alpha) + [Digit(x % r, alpha)]
  }

  function DigitValue(ch: Byte, alpha: Byte): int {
    if IsDigit(ch) then ch - ZERO else ch - alpha + 10
  }

  /** The number a numeral stands for. */
  function Value(s: seq<Byte>, r: nat, alpha: Byte): int {
    if s == [] then 0 else r * Value(s[..|s| - 1], r, alpha) + DigitValue(s[|s| - 1], alpha)
  }

  lemma DivMod(x: nat, r: nat, alpha: Byte)
    requires IsRadix(r, alpha)
    ensures r * (x / r) + x % r == x && x % r < r
    ensures x >= r ==> 0 < x / r < x
  {
  }

  lemma LowestDigit(x: nat, r: nat, alpha: Byte)
    requires IsRadix(r, alpha)
    ensures x % r < r
    ensures Digits(x, r, alpha) == (if x < r then [] else Digits(x / r, r, alpha)) + [Digit(x % r, alpha)]
  {
  }

  /** `s` stands for `x`, has no leading zero unless it is "0", and up to radix ten has digits only. */
  predicate IsNumeral(s: seq<Byte>, x: nat, r: nat, alpha: Byte) {
    && Value(s, r, alpha) == x
    && (x > 0 ==> s != [] && s[0] != ZERO)
    && (r <= 10 ==> forall i :: 0 <= i < |s| ==> IsDigit(s[i]))
  }

  lemma LongerNumeral(s: seq<Byte>, q: nat, d: nat, x: nat, r: nat, alpha: Byte)
    requires IsRadix(r, alpha) && d < r && r * q + d == x
    requires IsNumeral(s, q, r, alpha) && (q == 0 ==> s == [])
    ensures IsNumeral(s + [Digit(d, alpha)], x, r, alpha)
  {
  }

  /** Every numeral parses back to its number. */
  lemma {:induction false} DigitsParseBack(x: nat, r: nat, alpha: Byte)
    requires IsRadix(r, alpha)
    ensures IsNumeral(Digits(x, r, alpha), x, r, alpha)
  {
    hide Digits, Value, Digit, IsNumeral;
    LowestDigit(x, r, alpha);
    DivMod(x, r, alpha);
    if x >= r {
      DigitsParseBack(x / r, r, alpha);
      LongerNumeral(Digits(x / r, r, alpha), x / r, x % r, x, r, alpha);
    } else {
      EmptyNumeral(r, alpha);
      LongerNumeral([], 0, x, x, r, alpha);
    }
  }

  lemma EmptyNumeral(r: nat, alpha: Byte)
    ensures IsNumeral([], 0, r, alpha)
  {
  }

  /** The one numeral for `x`: "0" for zero, else no leading zero, with digits below `r` and letters from `alpha` on. */
  predicate IsCanonical(s: seq<Byte>, x: nat, r: nat, alpha: Byte) {
    && IsNumeral(s, x, r, alpha) && (x == 0 ==> s == [48])
    && forall i :: 0 <= i < |s| ==> if 48 <= s[i] <= 57 then s[i] - 48 < r else r == 16 && alpha <= s[i] < alpha + 6
  }

  lemma {:induction false} DigitsAreCanonical(x: nat, r: nat, alpha: Byte)
    requires IsRadix(r, alpha)
    ensures IsCanonical(Digits(x, r, alpha), x, r, alpha)
  {
    DigitsParseBack(x, r, alpha);
    hide IsNumeral;
    if x >= r {
      DivMod(x, r, alpha);
      DigitsAreCanonical(x / r, r, alpha);
    }
  }

  function Pow8(k: nat): nat {
    if k == 0 then 1 else 8 * Pow8(k - 1)
  }

  lemma {:induction false} FewDigits(x: nat, r: nat, alpha: Byte, k: nat)
    requires IsRadix(r, alpha) && 0 < k && x < Pow8(k)
    ensures |Digits(x, r, alpha)| <= k
  {
    if x >= r {
      assert k > 1;
      assert x / r <= x / 8 < Pow8(k - 1);
      FewDigits(x / r, r, alpha, k - 1);
    }
  }

  /** Eleven digits are enough for every 32-bit number. */
  lemma ElevenDigits(x: u32, r: nat, alpha: Byte)
    requires IsRadix(r, alpha)
    ensures |Digits(x, r, alpha)| <= 11
  {
    assert Pow8(5) == 32768;
    assert Pow8(11) == 8 * 8 * 8 * 8 * 8 * 8 * Pow8(5);
    FewDigits(x, r, alpha, 11);
  }

  function Repeat(ch: Byte, n: int): (s: seq<Byte>)
    ensures |s| == if n < 0 then 0 else n
  {
    seq(if n < 0 then 0 else n, _ => ch)
  }

  /** The output of `putiradix`: at least `min` characters. */
  function Padded(x: nat, r: nat, alpha: Byte, min: nat, filler: Byte): (s: seq<Byte>)
    requires IsRadix(r, alpha)
    ensures |s| == if min > |Digits(x, r, alpha)| then min else |Digits(x, r, alpha)|
  {
    Repeat(filler, min - |Digits(x, r, alpha)|) + Digits(x, r, alpha)
  }

  lemma {:induction false} LeadingZeros(n: nat, s: seq<Byte>, r: nat, alpha: Byte)
    ensures Value(Repeat(ZERO, n) + s, r, alpha) == Value(s, r, alpha)
    decreases |s|, n
  {
    var z := Repeat(ZERO, n);
    if s != [] {
      assert (z + s)[..|z + s| - 1] == z + s[..|s| - 1];
      LeadingZeros(n, s[..|s| - 1], r, alpha);
    } else if n > 0 {
      assert (z + s)[..n - 1] == Repeat(ZERO, n - 1) + s;
      LeadingZeros(n - 1, s, r, alpha);
    } else {
      assert z + s == s;
    }
  }

  /** Output filled up with zeros still parses back. */
  lemma ZeroPaddedParsesBack(x: nat, r: nat, alpha: Byte, min: nat)
    requires IsRadix(r, alpha)
    ensures Value(Padded(x, r, alpha, min, ZERO), r, alpha) == x
  {
    DigitsParseBack(x, r, alpha);
    var n := min - |Digits(x, r, alpha)|;
    if n >= 0 {
      LeadingZeros(n, Digits(x, r, alpha), r, alpha);
    } else {
      assert Padded(x, r, alpha, min, ZERO) == Digits(x, r, alpha);
    }
  }

  /** What follows the leading spaces. */
  function Unpadded(s: seq<Byte>): seq<Byte> {
    if s != [] && s[0] == SPACE then Unpadded(s[1..]) else s
  }

  lemma {:induction false} NoSpaceInFront(x: nat, r: nat, alpha: Byte)
    requires IsRadix(r, alpha)
    ensures Digits(x, r, alpha)[0] != SPACE
  {
    if x >= r {
      NoSpaceInFront(x / r, r, alpha);
    }
  }

  lemma {:induction false} LeadingSpaces(n: nat, s: seq<Byte>)
    requires s != [] && s[0] != SPACE
    ensures Unpadded(Repeat(SPACE, n) + s) == s
  {
    if n > 0 {
      assert (Repeat(SPACE, n) + s)[1..] == Repeat(SPACE, n - 1) + s;
      LeadingSpaces(n - 1, s);
    } else {
      assert Repeat(SPACE, 0) + s == s;
    }
  }

  /** With either filler, what follows the leading spaces parses back. */
  lemma PaddedParsesBack(x: nat, r: nat, alpha: Byte, min: nat, filler: Byte)
    requires IsRadix(r, alpha) && filler in {ZERO, SPACE}
    ensures Value(Unpadded(Padded(x, r, alpha, min, filler)), r, alpha) == x
  {
    var digits := Digits(x, r, alpha);
    var n := if min > |digits| then min - |digits| else 0;
    NoSpaceInFront(x, r, alpha);
    DigitsParseBack(x, r, alpha);
    hide Digits, Value;
    assert Repeat(filler, min - |digits|) == Repeat(filler, n);
    if filler == SPACE {
      LeadingSpaces(n, digits);
    } else {
      LeadingZeros(n, digits, r, alpha);
      assert Unpadded(Repeat(ZERO, n) + digits) == Repeat(ZERO, n) + digits;
    }
  }

  // ---------------------------------------------------------------- formats

  /** A character that stands for itself, a directive, or a lone % at the end. */
  datatype Item =
    | Literal(ch: Byte)
    | Directive(kind: Byte, width: nat, zero: bool)
    | Trailing

  /** The position behind the digits from `i` on. */
  function SkipDigits(f: seq<Byte>, i: nat): (j: nat)
    requires i <= |f|
    ensures i <= j <= |f|
    ensures j < |f| ==> !IsDigit(f[j])
    ensures forall k :: i <= k < j ==> IsDigit(f[k])
    decreases |f| - i
  {
    if i < |f| && IsDigit(f[i]) then SkipDigits(f, i + 1) else i
  }

  /** The number a run of decimal digits stands for. */
  function Width(s: seq<Byte>): (w: nat)
    requires forall k :: 0 <= k < |s| ==> IsDigit(s[k])
  {
    if s == [] then 0
    else
      assert IsDigit(s[|s| - 1]);
      10 * Width(s[..|s| - 1]) + (s[|s| - 1] - ZERO)
  }

  function AfterFlag(f: seq<Byte>, i: nat): (j: nat)
    requires i < |f|
    ensures i < j <= |f|
  {
    if i + 1 < |f| && f[i + 1] == ZERO then i + 2 else i + 1
  }

  function Parse(f: seq<Byte>, i: nat): seq<Item>
    requires i <= |f|
    decreases |f| - i
  {
    if i == |f| then []
    else if f[i] != PERCENT then [Literal(f[i])] + Parse(f, i + 1)
    else
      var j := AfterFlag(f, i);
      var k := SkipDigits(f, j);
      if k == |f| then [Trailing]
      else [Directive(f[k], Width(f[j..k]), j == i + 2)] + Parse(f, k + 1)
  }

  /** A way to write an item. */
  function Show(item: Item): seq<Byte> {
    match item
    case Literal(ch) => [ch]
    case Directive(kind, width, zero) =>
      [PERCENT] + (if zero then [ZERO] else []) + (if width > 0 then Digits(width, 10, 0) else []) + [kind]
    case Trailing => [PERCENT]
  }

  function ShowAll(items: seq<Item>): seq<Byte> {
    if items == [] then [] else Show(items[0]) + ShowAll(items[1..])
  }

  /** Items that can be written: a lone % only at the end. */
  predicate Writable(items: seq<Item>) {
    forall i :: 0 <= i < |items| ==>
      match items[i]
      case Literal(ch) => ch != PERCENT
      case Directive(kind, _, _) => !IsDigit(kind)
      case Trailing => i == |items| - 1
  }

  lemma {:induction false} WidthIsValue(s: seq<Byte>)
    requires forall k :: 0 <= k < |s| ==> IsDigit(s[k])
    ensures Width(s) == Value(s, 10, 0)
  {
    if s != [] {
      WidthIsValue(s[..|s| - 1]);
    }
  }

  lemma {:induction false} SkipsAll(f: seq<Byte>, i: nat, j: nat)
    requires i <= j <= |f| && (j < |f| ==> !IsDigit(f[j])) && forall k :: i <= k < j ==> IsDigit(f[k])
    ensures SkipDigits(f, i) == j
    decreases j - i
  {
  }

  /** Writing items and parsing what was written gives the items back. */
  lemma {:induction false} ParsingUndoesWriting(f: seq<Byte>, items: seq<Item>)
    requires Writable(items)
    ensures Parse(f + ShowAll(items), |f|) == items
    decreases |items|
  {
    if items == [] {
    } else {
      var shown, rest := Show(items[0]), ShowAll(items[1..]);
      var all := f + ShowAll(items);
      assert all == (f + shown) + rest;
      if items[0].Trailing? {
        assert items[1..] == [];
      } else {
        ParsingUndoesWriting(f + shown, items[1..]);
      }
      if items[0].Directive? {
        ParsesDirective(f, items[0], rest);
      }
    }
  }

  lemma ParseStep(f: seq<Byte>, i: nat, j: nat, k: nat)
    requires i < j <= k < |f| && f[i] == PERCENT && j == AfterFlag(f, i)
    requires !IsDigit(f[k]) && forall p :: j <= p < k ==> IsDigit(f[p])
    ensures Parse(f, i) == [Directive(f[k], Width(f[j..k]), j == i + 2)] + Parse(f, k + 1)
  {
    SkipsAll(f, j, k);
  }

  /** The text at `i` is a directive: a %, perhaps the flag, the digits, and the kind at `k`. */
  predicate IsDirectiveAt(all: seq<Byte>, i: nat, zero: bool, digits: seq<Byte>, kind: Byte) {
    var j := i + if zero then 2 else 1;
    var k := j + |digits|;
    && k < |all| && all[i] == PERCENT && (zero ==> all[i + 1] == ZERO)
    && all[j..k] == digits && all[k] == kind
  }

  lemma DirectiveIsThere(f: seq<Byte>, zero: bool, digits: seq<Byte>, kind: Byte, rest: seq<Byte>)
    ensures var shown := [PERCENT] + (if zero then [ZERO] else []) + digits + [kind];
            IsDirectiveAt(f + shown + rest, |f|, zero, digits, kind)
  {
  }

  /** The flag is told from the digits, and the digits end at the kind. */
  lemma FlagAndDigits(all: seq<Byte>, i: nat, zero: bool, digits: seq<Byte>, kind: Byte)
    requires IsDirectiveAt(all, i, zero, digits, kind) && !IsDigit(kind)
    requires forall p :: 0 <= p < |digits| ==> IsDigit(digits[p])
    requires digits != [] ==> digits[0] != ZERO
    ensures var j := i + if zero then 2 else 1;
            AfterFlag(all, i) == j && forall p :: j <= p < j + |digits| ==> IsDigit(all[p])
  {
    var j := i + if zero then 2 else 1;
    var k := j + |digits|;
    assert forall p :: j <= p < k ==> all[p] == all[j..k][p - j];
    assert j < k ==> all[j] == all[j..k][0];
  }

  lemma ParsesParts(all: seq<Byte>, i: nat, zero: bool, digits: seq<Byte>, kind: Byte)
    requires IsDirectiveAt(all, i, zero, digits, kind) && !IsDigit(kind)
    requires forall p :: 0 <= p < |digits| ==> IsDigit(digits[p])
    requires digits != [] ==> digits[0] != ZERO
    ensures Parse(all, i) == [Directive(kind, Width(digits), zero)]
                           + Parse(all, i + (if zero then 2 else 1) + |digits| + 1)
  {
    hide Parse, Width, AfterFlag, IsDigit;
    FlagAndDigits(all, i, zero, digits, kind);
    var j := i + if zero then 2 else 1;
    ParseStep(all, i, j, j + |digits|);
  }

  lemma ParsesDirective(f: seq<Byte>, item: Item, rest: seq<Byte>)
    requires item.Directive? && !IsDigit(item.kind)
    ensures var all, next := f + Show(item) + rest, |f + Show(item)|;
            Parse(all, |f|) == [item] + Parse(all, next)
  {
    hide Parse, Width, Digits, IsDirectiveAt;
    var digits: seq<Byte> := if item.width > 0 then Digits(item.width, 10, 0) else [];
    NumeralsAreWidths(item.width);
    DirectiveIsThere(f, item.zero, digits, item.kind, rest);
    ParsesParts(f + Show(item) + rest, |f|, item.zero, digits, item.kind);
  }

  /** The width as it is written: no digits for zero, else digits that stand for it and do not look like the flag. */
  lemma NumeralsAreWidths(width: nat)
    ensures var digits: seq<Byte> := if width > 0 then Digits(width, 10, 0) else [];
            && (forall k :: 0 <= k < |digits| ==> IsDigit(digits[k])) && Width(digits) == width
            && (width > 0 ==> digits[0] != ZERO)
    ensures IsDigit(ZERO)
  {
    if width > 0 {
      DigitsParseBack(width, 10, 0);
      WidthIsValue(Digits(width, 10, 0));
    }
  }

  // ---------------------------------------------------------------- printing

  const KIND_S: Byte := 115
  const KIND_C: Byte := 99
  const KIND_D: Byte := 100
  const KIND_I: Byte := 105
  const KIND_U: Byte := 117
  const KIND_P: Byte := 112
  const KIND_X: Byte := 120
  const KIND_XX: Byte := 88
  const KIND_O: Byte := 111
  const KIND_N: Byte := 110

  predicate TakesArg(item: Item) {
    item.Directive? &&
    item.kind in {KIND_S, KIND_C, KIND_D, KIND_I, KIND_U, KIND_P, KIND_X, KIND_XX, KIND_O, KIND_N}
  }

  predicate Unknown(item: Item) {
    item.Directive? && item.kind != PERCENT && !TakesArg(item)
  }

  /** An `int` argument in decimal. The smallest `int` is its own negative. */
  function Signed(arg: u32, min: nat, filler: Byte): seq<Byte> {
    if arg < 0x8000_0000 then Padded(arg, 10, 0, min, filler)
    else [MINUS] + Padded(TWO32 - arg, 10, 0, min, filler)
  }

  /** What an item prints, given its argument and the strings in memory. */
  function Text(item: Item, arg: u32, strings: u32 -> CString): seq<Byte> {
    match item
    case Literal(ch) => [ch]
    case Trailing => [PERCENT]
    case Directive(kind, width, zero) =>
      var filler := if zero then ZERO else SPACE;
      if kind == KIND_S then strings(arg)
      else if kind == KIND_C then [arg % 256]
      else if kind == KIND_D || kind == KIND_I then Signed(arg, width, filler)
      else if kind == KIND_U then Padded(arg, 10, 0, width, filler)
      else if kind == KIND_P then [ZERO, KIND_X] + Padded(arg, 16, 97, width, filler)
      else if kind == KIND_X then Padded(arg, 16, 97, width, filler)
      else if kind == KIND_XX then Padded(arg, 16, 65, width, filler)
      else if kind == KIND_O then Padded(arg, 8, 0, width, filler)
      else if kind == KIND_N then []
      else [kind]
  }

  /** Printed so far, the count returned, the arguments used, and the counts stored through pointers. */
  datatype Out = Out(text: seq<Byte>, n: nat, used: nat, stores: seq<(u32, nat)>)

  const NOTHING := Out([], 0, 0, [])

  function ArgOf(item: Item, args: seq<u32>, used: nat): u32
    requires TakesArg(item) ==> used < |args|
  {
    if TakesArg(item) then args[used] else 0
  }

  function Emit(item: Item, args: seq<u32>, strings: u32 -> CString, o: Out): Out
    requires TakesArg(item) ==> o.used < |args|
  {
    var arg := ArgOf(item, args, o.used);
    var text := Text(item, arg, strings);
    Out(o.text + text,
        o.n + if Unknown(item) then 0 else |text|,
        o.used + if TakesArg(item) then 1 else 0,
        o.stores + if item.Directive? && item.kind == KIND_N then [(arg, o.n)] else [])
  }

  function ArgsOf(items: seq<Item>): nat {
    if items == [] then 0 else (if TakesArg(items[0]) then 1 else 0) + ArgsOf(items[1..])
  }

  function Render(items: seq<Item>, args: seq<u32>, strings: u32 -> CString, o: Out): Out
    requires o.used + ArgsOf(items) <= |args|
  {
    if items == [] then o else Render(items[1..], args, strings, Emit(items[0], args, strings, o))
  }

  function Unknowns(items: seq<Item>): nat {
    if items == [] then 0 else (if Unknown(items[0]) then 1 else 0) + Unknowns(items[1..])
  }

  /** The count returned is short by one for every unknown directive. */
  lemma {:induction false} CountIsShortByUnknowns(items: seq<Item>, args: seq<u32>, strings: u32 -> CString, o: Out)
    requires o.used + ArgsOf(items) <= |args|
    ensures |Render(items, args, strings, o).text| - Render(items, args, strings, o).n
         == |o.text| - o.n + Unknowns(items)
    decreases items
  {
    if items == [] {
    } else {
      CountIsShortByUnknowns(items[1..], args, strings, Emit(items[0], args, strings, o));
      hide Padded, Signed, TakesArg;
    }
  }

  /** For every format: the result is the number of characters printed exactly when every directive is known. */
  lemma CountIsRightExactlyWhen(f: seq<Byte>, args: seq<u32>, strings: u32 -> CString)
    requires ArgsOf(Parse(f, 0)) <= |args|
    ensures var o := Render(Parse(f, 0), args, strings, NOTHING);
            o.n == |o.text| <==> forall i :: 0 <= i < |Parse(f, 0)| ==> !Unknown(Parse(f, 0)[i])
  {
    CountIsShortByUnknowns(Parse(f, 0), args, strings, NOTHING);
    NoUnknowns(Parse(f, 0));
  }

  lemma {:induction false} NoUnknowns(items: seq<Item>)
    ensures Unknowns(items) == 0 <==> forall i :: 0 <= i < |items| ==> !Unknown(items[i])
  {
    if items != [] {
      NoUnknowns(items[1..]);
      assert forall i :: 1 <= i < |items| ==> items[i] == items[1..][i - 1];
      assert forall i :: 0 <= i < |items[1..]| ==> items[1..][i] == items[i + 1];
    }
  }

  /** The output of "%d" is the argument in decimal; the sign stands in front of the padding. */
  lemma SignedParsesBack(arg: u32, min: nat, filler: Byte)
    requires filler in {ZERO, SPACE}
    ensures var s, v := Signed(arg, min, filler), if arg < 0x8000_0000 then arg else arg - TWO32;
            if v < 0 then s != [] && s[0] == MINUS && -Value(Unpadded(s[1..]), 10, 0) == v
            else Value(Unpadded(s), 10, 0) == v
  {
    if arg < 0x8000_0000 {
      PaddedParsesBack(arg, 10, 0, min, filler);
    } else {
      PaddedParsesBack(TWO32 - arg, 10, 0, min, filler);
      var p := Padded(TWO32 - arg, 10, 0, min, filler);
      assert ([MINUS] + p)[1..] == p;
    }
  }

  /** Behind its padding, every unsigned conversion parses back in its own radix and letter case. */
  lemma ConversionsParseBack(kind: Byte, width: nat, zero: bool, arg: u32, strings: u32 -> CString)
    ensures var s := Text(Directive(kind, width, zero), arg, strings);
            && (kind == KIND_U ==> Value(Unpadded(s), 10, 0) == arg)
            && (kind == KIND_O ==> Value(Unpadded(s), 8, 0) == arg)
            && (kind == KIND_X ==> Value(Unpadded(s), 16, 97) == arg)
            && (kind == KIND_XX ==> Value(Unpadded(s), 16, 65) == arg)
            && (kind == KIND_P ==> |s| > 2 && s[..2] == [ZERO, KIND_X] && Value(Unpadded(s[2..]), 16, 97) == arg)
  {
    hide Padded, Value, Unpadded;
    var filler := if zero then ZERO else SPACE;
    PaddedParsesBack(arg, 10, 0, width, filler);
    PaddedParsesBack(arg, 8, 0, width, filler);
    PaddedParsesBack(arg, 16, 97, width, filler);
    PaddedParsesBack(arg, 16, 65, width, filler);
    var p := Padded(arg, 16, 97, width, filler);
    assert ([ZERO, KIND_X] + p)[..2] == [ZERO, KIND_X] && ([ZERO, KIND_X] + p)[2..] == p;
  }

  // ---------------------------------------------------------------- printing, from the characters of the format

  /** Behind the prefix, fillers up to the width of the numeral, and then the numeral. */
  predicate IsFilled(out: seq<Byte>, prefix: seq<Byte>, width: nat, filler: Byte, s: seq<Byte>) {
    var fill := if width > |s| then width - |s| else 0;
    && |out| == |prefix| + fill + |s| && prefix <= out && out[|prefix| + fill..] == s
    && forall i :: |prefix| <= i < |prefix| + fill ==> out[i] == filler
  }

  /** `out` is the numeral for `x`, filled up with '0' if the flag is there and with ' ' if not. */
  ghost predicate IsNumber(out: seq<Byte>, prefix: seq<Byte>, width: nat, zero: bool, x: nat, r: nat, alpha: Byte) {
    exists s: seq<Byte> :: IsCanonical(s, x, r, alpha) && IsFilled(out, prefix, width, if zero then 48 else 32, s)
  }

  /** What a directive with the letter `kind` is to print. */
  ghost predicate Prints(kind: Byte, width: nat, zero: bool, arg: u32, strings: u32 -> CString, out: seq<Byte>) {
    if kind == 's' as int then out == strings(arg)
    else if kind == 'c' as int then out == [arg % 256]
    else if kind == 'd' as int || kind == 'i' as int then
      if arg < 0x8000_0000 then IsNumber(out, [], width, zero, arg, 10, 0)
      else IsNumber(out, ['-' as int], width, zero, 0x1_0000_0000 - arg, 10, 0)
    else if kind == 'u' as int then IsNumber(out, [], width, zero, arg, 10, 0)
    else if kind == 'o' as int then IsNumber(out, [], width, zero, arg, 8, 0)
    else if kind == 'x' as int then IsNumber(out, [], width, zero, arg, 16, 'a' as int)
    else if kind == 'X' as int then IsNumber(out, [], width, zero, arg, 16, 'A' as int)
    else if kind == 'p' as int then IsNumber(out, ['0' as int, 'x' as int], width, zero, arg, 16, 'a' as int)
    else if kind == 'n' as int then out == []
    else out == [kind]
  }

  lemma PaddedIsNumber(prefix: seq<Byte>, x: nat, r: nat, alpha: Byte, width: nat, zero: bool)
    requires IsRadix(r, alpha)
    ensures IsNumber(prefix + Padded(x, r, alpha, width, if zero then 48 else 32), prefix, width, zero, x, r, alpha)
  {
    var s, filler: Byte := Digits(x, r, alpha), if zero then 48 else 32;
    DigitsAreCanonical(x, r, alpha);
    hide Digits, IsCanonical;
    var out := prefix + Padded(x, r, alpha, width, filler);
    assert out == prefix + Repeat(filler, width - |s|) + s;
    assert IsFilled(out, prefix, width, filler, s);
  }

  /** Every directive prints what it is to print. */
  lemma DirectivesPrint(kind: Byte, width: nat, zero: bool, arg: u32, strings: u32 -> CString)
    ensures Prints(kind, width, zero, arg, strings, Text(Directive(kind, width, zero), arg, strings))
  {
    hide Padded, IsNumber;
    var filler: Byte := if zero then 48 else 32;
    PaddedIsNumber([45], TWO32 - arg, 10, 0, width, zero);
    PaddedIsNumber([48, 120], arg, 16, 97, width, zero);
    PlainIsNumber(arg, 10, 0, width, zero);
    PlainIsNumber(arg, 8, 0, width, zero);
    PlainIsNumber(arg, 16, 97, width, zero);
    PlainIsNumber(arg, 16, 65, width, zero);
  }

  lemma PlainIsNumber(x: nat, r: nat, alpha: Byte, width: nat, zero: bool)
    requires IsRadix(r, alpha)
    ensures IsNumber(Padded(x, r, alpha, width, if zero then 48 else 32), [], width, zero, x, r, alpha)
  {
    var out := Padded(x, r, alpha, width, if zero then 48 else 32);
    PaddedIsNumber([], x, r, alpha, width, zero);
    assert [] + out == out;
  }

  /** The directive at `i`: its flag ends at `j`, its digits at `k`, where its letter is, if there is one. */
  predicate IsDirective(f: seq<Byte>, i: nat, j: nat, k: nat) {
    && i < j <= k <= |f| && f[i] == '%' as int
    && j == (if i + 1 < |f| && f[i + 1] == '0' as int then i + 2 else i + 1)
    && (forall p :: j <= p < k ==> '0' as int <= f[p] <= '9' as int)
    && (k < |f| ==> !('0' as int <= f[k] <= '9' as int))
  }

  predicate TakesOne(kind: Byte) {
    kind in ['s' as int, 'c' as int, 'd' as int, 'i' as int, 'u' as int, 'p' as int, 'x' as int, 'X' as int,
             'o' as int, 'n' as int]
  }

  /** One directive: what it prints goes to the end; it is counted unless its letter is unknown; %n stores the count. */
  ghost predicate Converts(kind: Byte, width: nat, zero: bool, args: seq<u32>, strings: u32 -> CString, o: Out, o': Out)
  {
    && (TakesOne(kind) ==> o.used < |args|)
    && var arg := if TakesOne(kind) then args[o.used] else 0;
    exists out: seq<Byte> ::
      && Prints(kind, width, zero, arg, strings, out)
      && o'.text == o.text + out
      && o'.n == o.n + (if TakesOne(kind) || kind == '%' as int then |out| else 0)
      && o'.used == o.used + (if TakesOne(kind) then 1 else 0)
      && o'.stores == o.stores + if kind == 'n' as int then [(arg, o.n)] else []
  }

  /** The directive at `i` of a format. */
  ghost predicate ConvertsAt(f: seq<Byte>, i: nat, j: nat, k: nat, args: seq<u32>, strings: u32 -> CString, o: Out,
                             o': Out)
    requires j <= k < |f|
  {
    var w := Value(f[j..k], 10, 0);
    w >= 0 && Converts(f[k], w, j == i + 2, args, strings, o, o')
  }

  lemma EmitConverts(kind: Byte, width: nat, zero: bool, args: seq<u32>, strings: u32 -> CString, o: Out)
    requires TakesOne(kind) ==> o.used < |args|
    ensures TakesArg(Directive(kind, width, zero)) == TakesOne(kind)
    ensures Converts(kind, width, zero, args, strings, o, Emit(Directive(kind, width, zero), args, strings, o))
  {
    var item := Directive(kind, width, zero);
    var arg := if TakesOne(kind) then args[o.used] else 0;
    assert TakesArg(item) == TakesOne(kind);
    DirectivesPrint(kind, width, zero, arg, strings);
    hide Text, Prints;
    assert Emit(item, args, strings, o).text == o.text + Text(item, arg, strings);
  }

  /** For every format and position: what `vprintf` does at a %, and with what it goes on. */
  lemma DirectiveStep(f: seq<Byte>, i: nat, j: nat, k: nat, args: seq<u32>, strings: u32 -> CString, o: Out)
    returns (o': Out)
    requires IsDirective(f, i, j, k) && o.used + ArgsOf(Parse(f, i)) <= |args|
    ensures k == |f| ==>
              Render(Parse(f, i), args, strings, o) == o' && o' == o.(text := o.text + ['%' as int], n := o.n + 1)
    ensures k < |f| ==>
              && ConvertsAt(f, i, j, k, args, strings, o, o')
              && o'.used + ArgsOf(Parse(f, k + 1)) <= |args|
              && Render(Parse(f, i), args, strings, o) == Render(Parse(f, k + 1), args, strings, o')
  {
    SkipsAll(f, j, k);
    if k == |f| {
      assert Parse(f, i) == [Trailing];
      o' := Emit(Trailing, args, strings, o);
      assert o.stores + [] == o.stores;
      assert [Trailing][1..] == [];
    } else {
      var item, rest := Directive(f[k], Width(f[j..k]), j == i + 2), Parse(f, k + 1);
      WidthIsValue(f[j..k]);
      ParseStep(f, i, j, k);
      hide Parse, Emit;
      assert ([item] + rest)[1..] == rest;
      assert TakesArg(item) ==> o.used < |args|;
      o' := Emit(item, args, strings, o);
      EmitConverts(f[k], item.width, item.zero, args, strings, o);
    }
  }

  /** Any other character is printed and counted. */
  lemma CharacterStep(f: seq<Byte>, i: nat, args: seq<u32>, strings: u32 -> CString, o: Out)
    requires i < |f| && f[i] != '%' as int && o.used + ArgsOf(Parse(f, i)) <= |args|
    ensures o.used + ArgsOf(Parse(f, i + 1)) <= |args|
    ensures Render(Parse(f, i), args, strings, o)
         == Render(Parse(f, i + 1), args, strings, o.(text := o.text + [f[i]], n := o.n + 1))
  {
    assert ([Literal(f[i])] + Parse(f, i + 1))[1..] == Parse(f, i + 1);
    assert o.stores + [] == o.stores;
  }

  /** `goal` is what printing the format from position `i` on makes of `o`, character by character. */
  ghost predicate IsOutcome(f: seq<Byte>, i: nat, args: seq<u32>, strings: u32 -> CString, o: Out, goal: Out)
    requires i <= |f|
    decreases |f| - i
  {
    if i == |f| then goal == o
    else if f[i] != '%' as int then
      IsOutcome(f, i + 1, args, strings, o.(text := o.text + [f[i]], n := o.n + 1), goal)
    else
      exists j: nat, k: nat :: IsDirective(f, i, j, k) &&
        if k == |f| then goal == o.(text := o.text + ['%' as int], n := o.n + 1)
        else
          exists o' :: ConvertsAt(f, i, j, k, args, strings, o, o') && IsOutcome(f, k + 1, args, strings, o', goal)
  }

  lemma OutcomeAtDirective(f: seq<Byte>, i: nat, j: nat, k: nat, args: seq<u32>, strings: u32 -> CString, o: Out,
                           o': Out, goal: Out)
    requires IsDirective(f, i, j, k)
    requires if k == |f| then goal == o.(text := o.text + ['%' as int], n := o.n + 1)
             else ConvertsAt(f, i, j, k, args, strings, o, o') && IsOutcome(f, k + 1, args, strings, o', goal)
    ensures IsOutcome(f, i, args, strings, o, goal)
  {
    hide ConvertsAt;
  }

  lemma OutcomeAtCharacter(f: seq<Byte>, i: nat, args: seq<u32>, strings: u32 -> CString, o: Out, goal: Out)
    requires i < |f| && f[i] != '%' as int
    requires IsOutcome(f, i + 1, args, strings, o.(text := o.text + [f[i]], n := o.n + 1), goal)
    ensures IsOutcome(f, i, args, strings, o, goal)
  {
  }

  lemma OutcomeAtEnd(f: seq<Byte>, args: seq<u32>, strings: u32 -> CString, o: Out)
    requires o.used <= |args|
    ensures ArgsOf(Parse(f, |f|)) == 0
    ensures IsOutcome(f, |f|, args, strings, o, Render(Parse(f, |f|), args, strings, o))
  {
  }

  lemma DirectiveAt(f: seq<Byte>, i: nat) returns (j: nat, k: nat)
    requires i < |f| && f[i] == '%' as int
    ensures IsDirective(f, i, j, k) && i < j <= k <= |f|
  {
    j := AfterFlag(f, i);
    k := SkipDigits(f, j);
  }

  /** For every format: rendering its items is that outcome. */
  lemma {:induction false} RenderIsOutcome(f: seq<Byte>, i: nat, args: seq<u32>, strings: u32 -> CString, o: Out)
    requires i <= |f| && o.used + ArgsOf(Parse(f, i)) <= |args|
    ensures IsOutcome(f, i, args, strings, o, Render(Parse(f, i), args, strings, o))
    decreases |f| - i
  {
    hide Parse, Render, ArgsOf, IsDirective, ConvertsAt, IsOutcome;
    if i == |f| {
      OutcomeAtEnd(f, args, strings, o);
    } else if f[i] != '%' as int {
      CharacterStep(f, i, args, strings, o);
      RenderIsOutcome(f, i + 1, args, strings, o.(text := o.text + [f[i]], n := o.n + 1));
      OutcomeAtCharacter(f, i, args, strings, o, Render(Parse(f, i), args, strings, o));
    } else {
      var j, k := DirectiveAt(f, i);
      var o' := DirectiveStep(f, i, j, k, args, strings, o);
      if k < |f| {
        RenderIsOutcome(f, k + 1, args, strings, o');
      }
      OutcomeAtDirective(f, i, j, k, args, strings, o, o', Render(Parse(f, i), args, strings, o));
    }
  }

  /** "%5u" of 42 and "%08x" of 0x2a. */
  lemma PaddingExamples(strings: u32 -> CString)
    ensures Text(Directive('u' as int, 5, false), 42, strings) == [32, 32, 32, 52, 50]
    ensures Text(Directive('x' as int, 8, true), 0x2a, strings) == [48, 48, 48, 48, 48, 48, 50, 97]
  {
    assert Digits(42, 10, 0) == [52, 50] && Digits(42, 16, 97) == [50, 97];
  }

  /** A format without % is printed as it stands. */
  lemma {:induction false} PlainTextIsCopied(f: seq<Byte>, i: nat, args: seq<u32>, strings: u32 -> CString, o: Out)
    requires i <= |f| && PERCENT !in f && o.used <= |args|
    ensures ArgsOf(Parse(f, i)) == 0
    ensures Render(Parse(f, i), args, strings, o) == o.(text := o.text + f[i..], n := o.n + |f| - i)
    decreases |f| - i
  {
    if i == |f| {
      assert o.text + f[i..] == o.text;
    } else {
      var item := Literal(f[i]);
      assert f[i] in f;
      assert Parse(f, i) == [item] + Parse(f, i + 1);
      assert ([item] + Parse(f, i + 1))[1..] == Parse(f, i + 1);
      var next := Emit(item, args, strings, o);
      assert next == o.(text := o.text + [f[i]], n := o.n + 1) by {
        assert o.stores + [] == o.stores;
      }
      PlainTextIsCopied(f, i + 1, args, strings, next);
      assert o.text + f[i..] == next.text + f[i + 1..];
    }
  }
}
