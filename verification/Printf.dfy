/**
 * libc/stdio.c in the kernel: formatted output to the text console. Module Formats says
 * what a format prints. Pointers to strings are looked up; what %n stores is collected.
 */
module Printf {
  import opened Strings
  import opened Formats
  import opened Machine
  import Screens
  import Tty

  function Reversed(s: seq<Byte>): (r: seq<Byte>)
    ensures |r| == |s|
  {
    if s == [] then [] else [s[|s| - 1]] + Reversed(s[..|s| - 1])
  }

  /** Taking the lowest digit off a number. */
  lemma NextDigit(y: nat, r: nat, alpha: Byte, rest: seq<Byte>)
    requires IsRadix(r, alpha)
    ensures Digits(y, r, alpha) + rest
         == (if y / r != 0 then Digits(y / r, r, alpha) else []) + ([Digit(y % r, alpha)] + rest)
  {
    if y < r {
      assert [] + ([Digit(y % r, alpha)] + rest) == [Digit(y % r, alpha)] + rest;
    }
  }

  lemma ParsesLiteral(f: seq<Byte>, i: nat)
    requires i < |f| && f[i] != PERCENT
    ensures Parse(f, i) == [Literal(f[i])] + Parse(f, i + 1)
  {
  }

  /** `o` is on the way to `goal`: only `items` are left to print, and there are arguments for them. */
  ghost predicate OnTheWay(items: seq<Item>, args: seq<u32>, strings: u32 -> CString, o: Out, goal: Out) {
    o.used + ArgsOf(items) <= |args| && Render(items, args, strings, o) == goal
  }

  lemma Onward(item: Item, rest: seq<Item>, args: seq<u32>, strings: u32 -> CString, o: Out, goal: Out)
    requires OnTheWay([item] + rest, args, strings, o, goal)
    ensures TakesArg(item) ==> o.used < |args|
    ensures OnTheWay(rest, args, strings, Emit(item, args, strings, o), goal)
  {
  }

  lemma Arrived(f: seq<Byte>, args: seq<u32>, strings: u32 -> CString, o: Out, goal: Out)
    ensures Parse(f, |f|) == []
    ensures OnTheWay([], args, strings, o, goal) ==> o == goal
  {
  }

  /** Items other than directives print one character and count it. */
  lemma LoneEmits(item: Item, args: seq<u32>, strings: u32 -> CString, o: Out)
    requires !item.Directive?
    ensures !TakesArg(item)
    ensures Emit(item, args, strings, o)
         == o.(text := o.text + [if item.Literal? then item.ch else PERCENT], n := o.n + 1)
  {
  }

  /** The number in the digits from `first` on, and the position behind them. */
  method ReadDigits(format: seq<Byte>, first: nat) returns (width: nat, j: nat)
    requires first <= |format|
    ensures j == SkipDigits(format, first) && width == Width(format[first..j])
  {
    width, j := 0, first;
    while j < |format| && IsDigit(format[j])
      invariant first <= j <= |format| && SkipDigits(format, first) == SkipDigits(format, j)
      invariant forall k :: 0 <= k < j - first ==> IsDigit(format[first..j][k])
      invariant width == Width(format[first..j])
    {
      assert format[first..j + 1][..j - first] == format[first..j];
      width := width * 10 + (format[j] - ZERO);
      j := j + 1;
    }
  }

  /** The flag and the digits behind the % at `i`, and the position of the kind. */
  method ReadWidth(format: seq<Byte>, i: nat) returns (filler: Byte, width: nat, j: nat)
    requires i < |format| && format[i] == PERCENT
    ensures filler in {ZERO, SPACE} && i < j <= |format|
    ensures Parse(format, i) == if j == |format| then [Trailing]
                                else [Directive(format[j], width, filler == ZERO)] + Parse(format, j + 1)
  {
    hide SkipDigits, Width;
    filler, j := SPACE, i + 1;
    if j < |format| && format[j] == ZERO {
      filler := ZERO;
      j := j + 1;
    }
    width, j := ReadDigits(format, j);
  }

  predicate IsUnsigned(kind: Byte) {
    kind in {KIND_U, KIND_X, KIND_XX, KIND_O, KIND_P}
  }

  class Printer {
    const tty: Tty.Console
    const strings: u32 -> CString
    /** The screen at the start, and all that has been printed since. */
    ghost const start: Screens.Screen
    ghost var printed: seq<Byte>
    ghost var stores: seq<(u32, nat)>

    ghost predicate Valid()
      reads this, tty, tty.vgaBuffer
    {
      tty.Valid() && start.Valid() && tty.Now() == Screens.PutAll(start, printed)
    }

    constructor (tty: Tty.Console, strings: u32 -> CString)
      requires tty.Valid()
      ensures Valid() && this.tty == tty && this.strings == strings && printed == [] && stores == []
    {
      this.tty, this.strings := tty, strings;
      start, printed, stores := tty.Now(), [], [];
    }

    /** `vconsole_write` */
    method WriteAll(buf: array<Byte>, n: nat) returns (count: nat)
      requires Valid() && n <= buf.Length
      modifies this`printed, tty, tty.vgaBuffer
      ensures Valid() && printed == old(printed) + old(buf[..n]) && count == n
    {
      hide Screens.PutAll;
      ghost var s := buf[..n];
      count := tty.Write(buf, n);
      Screens.PutAllInParts(start, printed, s);
      printed := printed + s;
    }

    /** `puts`, which prints no newline here. */
    method Puts(s: CString) returns (count: nat)
      requires Valid()
      modifies this`printed, tty, tty.vgaBuffer
      ensures Valid() && printed == old(printed) + s && count == |s|
    {
      var buf := new Byte[|s| + 1](i requires 0 <= i <= |s| => if i < |s| then s[i] else 0);
      assert buf[|s|] == 0 && buf[..|s|] == s;
      assert forall i :: 0 <= i < |s| ==> s[i] in s;
      var n := Strlen(buf);
      assert n == |s|;
      count := WriteAll(buf, n);
    }

    /** `putchar` */
    method Putchar(ch: Byte)
      requires Valid()
      modifies this`printed, tty, tty.vgaBuffer
      ensures Valid() && printed == old(printed) + [ch]
    {
      var buf := new Byte[1](_ => ch);
      assert buf[..1] == [ch];
      var n := WriteAll(buf, 1);
    }

    /** The digits of `x`, lowest first. */
    method Split(x: u32, r: nat, alpha: Byte, digits: array<Byte>) returns (n: nat)
      requires IsRadix(r, alpha) && digits.Length == 11
      modifies digits
      ensures n <= 11 && Reversed(digits[..n]) == Digits(x, r, alpha)
    {
      ElevenDigits(x, r, alpha);
      var y: u32, more := x, true;
      n := 0;
      while more
        invariant n <= 11
        invariant Digits(x, r, alpha) == (if more then Digits(y, r, alpha) else []) + Reversed(digits[..n])
        decreases more, y
      {
        DivMod(y, r, alpha);
        NextDigit(y, r, alpha, Reversed(digits[..n]));
        ghost var before := digits[..n];
        var d := y % r;
        digits[n] := if d < 10 then ZERO + d else alpha + d - 10;
        assert digits[..n + 1] == before + [Digit(d, alpha)];
        y := y / r;
        n := n + 1;
        more := y != 0;
      }
    }

    method Pad(filler: Byte, n: int)
      requires Valid()
      modifies this`printed, tty, tty.vgaBuffer
      ensures Valid() && printed == old(printed) + Repeat(filler, n)
    {
      var i := 0;
      while i < n
        invariant 0 <= i && (i <= n || i == 0) && Valid()
        invariant printed == old(printed) + Repeat(filler, i)
      {
        Putchar(filler);
        i := i + 1;
        assert Repeat(filler, i) == Repeat(filler, i - 1) + [filler];
      }
    }

    /** The first `n` digits, last first. */
    method PutDigits(digits: array<Byte>, n: nat)
      requires Valid() && n <= digits.Length
      modifies this`printed, tty, tty.vgaBuffer
      ensures Valid() && printed == old(printed) + old(Reversed(digits[..n]))
    {
      hide Screens.PutAll;
      var i: int := n - 1;
      while i >= 0
        invariant -1 <= i < n && Valid() && digits[..] == old(digits[..])
        invariant printed + Reversed(digits[..i + 1]) == old(printed) + Reversed(old(digits[..n]))
      {
        ghost var rest := Reversed(digits[..i]);
        assert digits[..i + 1][..i] == digits[..i];
        assert printed + ([digits[i]] + rest) == printed + [digits[i]] + rest;
        Putchar(digits[i]);
        i := i - 1;
      }
      assert printed + [] == printed;
    }

    /** `putiradix` */
    method PutIRadix(x: u32, r: nat, alpha: Byte, min: nat, filler: Byte) returns (count: nat)
      requires Valid() && IsRadix(r, alpha)
      modifies this`printed, tty, tty.vgaBuffer
      ensures Valid() && printed == old(printed) + Padded(x, r, alpha, min, filler)
      ensures count == |Padded(x, r, alpha, min, filler)|
    {
      hide Digits, Screens.PutAll;
      var digits := new Byte[11](_ => 0);
      var n := Split(x, r, alpha, digits);
      Pad(filler, min - n);
      PutDigits(digits, n);
      count := if min > n then min else n;
    }

    /** "%d": the sign, and the digits of the absolute value. */
    method PutSigned(arg: u32, min: nat, filler: Byte) returns (count: nat)
      requires Valid()
      modifies this`printed, tty, tty.vgaBuffer
      ensures Valid() && printed == old(printed) + Signed(arg, min, filler) && count == |Signed(arg, min, filler)|
    {
      hide Padded, Screens.PutAll;
      count := 0;
      var d := arg;
      if d >= 0x8000_0000 {
        Putchar(MINUS);
        count := count + 1;
        d := TWO32 - d;
      }
      var c := PutIRadix(d, 10, 0, min, filler);
      count := count + c;
    }

    /** The unsigned conversions. */
    method PutUnsigned(kind: Byte, arg: u32, width: nat, filler: Byte) returns (count: nat)
      requires Valid() && IsUnsigned(kind) && filler in {ZERO, SPACE}
      modifies this`printed, tty, tty.vgaBuffer
      ensures Valid()
      ensures printed == old(printed) + Text(Directive(kind, width, filler == ZERO), arg, strings)
      ensures count == |Text(Directive(kind, width, filler == ZERO), arg, strings)|
    {
      hide Padded, Screens.PutAll;
      match kind {
        case 117 => count := PutIRadix(arg, 10, 0, width, filler);
        case 120 => count := PutIRadix(arg, 16, 97, width, filler);
        case 88 => count := PutIRadix(arg, 16, 65, width, filler);
        case 111 => count := PutIRadix(arg, 8, 0, width, filler);
        case _ =>
          var prefix := Puts([ZERO, KIND_X]);
          count := PutIRadix(arg, 16, 97, width, filler);
          count := prefix + count;
      }
    }

    /** One directive: what the `switch` does for it. `n` is the count, `k` the arguments used so far. */
    method Convert(kind: Byte, width: nat, filler: Byte, args: seq<u32>, n: nat, k: nat) returns (n': nat, k': nat)
      requires Valid() && filler in {ZERO, SPACE}
      requires TakesArg(Directive(kind, width, filler == ZERO)) ==> k < |args|
      modifies this`printed, this`stores, tty, tty.vgaBuffer
      ensures Valid()
      ensures Out(printed, n', k', stores)
           == Emit(Directive(kind, width, filler == ZERO), args, strings, Out(old(printed), n, k, old(stores)))
    {
      hide Padded, Signed, Screens.PutAll;
      assert IsUnsigned(kind) ==> TakesArg(Directive(kind, width, filler == ZERO));
      n', k' := n, k;
      var c: nat;
      match kind {
        case 37 =>
          Putchar(PERCENT);
          n' := n' + 1;
        case 115 =>
          c := Puts(strings(args[k]));
          n', k' := n' + c, k + 1;
        case 99 =>
          Putchar(args[k] % 256);
          n', k' := n' + 1, k + 1;
        case 110 =>
          stores := stores + [(args[k], n)];
          k' := k + 1;
        case _ =>
          if kind == KIND_D || kind == KIND_I {
            c := PutSigned(args[k], width, filler);
            n', k' := n' + c, k + 1;
          } else if IsUnsigned(kind) {
            c := PutUnsigned(kind, args[k], width, filler);
            n', k' := n' + c, k + 1;
          } else {
            Putchar(kind);
          }
      }
    }

    /** The branch of `vprintf` for a %. A lone % at the end of the format ends it. */
    method PrintDirective(format: seq<Byte>, i: nat, args: seq<u32>, n: nat, k: nat, ghost goal: Out)
        returns (i': nat, n': nat, k': nat)
      requires Valid() && i < |format| && format[i] == PERCENT
      requires OnTheWay(Parse(format, i), args, strings, Out(printed, n, k, stores), goal)
      modifies this`printed, this`stores, tty, tty.vgaBuffer
      ensures Valid() && i < i' <= |format|
      ensures OnTheWay(Parse(format, i'), args, strings, Out(printed, n', k', stores), goal)
    {
      hide *;
      ghost var o := Out(printed, n, k, stores);
      var filler, width, j := ReadWidth(format, i);
      if j == |format| {
        Arrived(format, args, strings, o, goal);
        assert [Trailing] + [] == [Trailing];
        Onward(Trailing, [], args, strings, o, goal);
        LoneEmits(Trailing, args, strings, o);
        Putchar(PERCENT);
        return j, n + 1, k;
      }
      Onward(Directive(format[j], width, filler == ZERO), Parse(format, j + 1), args, strings, o, goal);
      n', k' := Convert(format[j], width, filler, args, n, k);
      i' := j + 1;
    }

    /** The branch of `vprintf` for any other character. */
    method PrintLiteral(format: seq<Byte>, i: nat, args: seq<u32>, n: nat, k: nat, ghost goal: Out)
      requires Valid() && i < |format| && format[i] != PERCENT
      requires OnTheWay(Parse(format, i), args, strings, Out(printed, n, k, stores), goal)
      modifies this`printed, tty, tty.vgaBuffer
      ensures Valid()
      ensures OnTheWay(Parse(format, i + 1), args, strings, Out(printed, n + 1, k, stores), goal)
    {
      hide *;
      ghost var o := Out(printed, n, k, stores);
      ParsesLiteral(format, i);
      Onward(Literal(format[i]), Parse(format, i + 1), args, strings, o, goal);
      LoneEmits(Literal(format[i]), args, strings, o);
      Putchar(format[i]);
    }

    /** `vprintf`: reads the format once from left to right. */
    method Vprintf(format: seq<Byte>, args: seq<u32>) returns (n: nat)
      requires Valid() && 0 !in format && ArgsOf(Parse(format, 0)) <= |args|
      modifies this`printed, this`stores, tty, tty.vgaBuffer
      ensures Valid()
      ensures var o := Render(Parse(format, 0), args, strings, Out(old(printed), 0, 0, old(stores)));
              n == o.n && printed == o.text && stores == o.stores
      ensures exists used: nat ::
                IsOutcome(format, 0, args, strings, Out(old(printed), 0, 0, old(stores)), Out(printed, n, used, stores))
    {
      RenderIsOutcome(format, 0, args, strings, Out(printed, 0, 0, stores));
      ghost var goal := Render(Parse(format, 0), args, strings, Out(printed, 0, 0, stores));
      var i, k: nat := 0, 0;
      n := 0;
      assert OnTheWay(Parse(format, 0), args, strings, Out(printed, 0, 0, stores), goal);
      hide *;
      while i < |format|
        invariant Valid() && i <= |format|
        invariant OnTheWay(Parse(format, i), args, strings, Out(printed, n, k, stores), goal)
        decreases |format| - i
      {
        if format[i] == PERCENT {
          i, n, k := PrintDirective(format, i, args, n, k, goal);
        } else {
          PrintLiteral(format, i, args, n, k, goal);
          i, n := i + 1, n + 1;
        }
      }
      Arrived(format, args, strings, Out(printed, n, k, stores), goal);
    }
  }
}
