/**
 * The keyboard of kernel/drivers/kb.c as an object: the modifier bits and the queue array
 * with its fill level. Module Keys says what becomes of them. Each call is one step.
 */
module Kb {
  import opened Strings
  import K = Keys

  class Keyboard {
    const chars: seq<seq<Byte>>
    const inputQueue: array<Byte>
    var queueIdx: nat
    var modifiers: bv8

    ghost predicate Valid()
      reads this
    {
      K.IsTable(chars) && inputQueue.Length == K.QUEUE_LEN && queueIdx <= K.QUEUE_LEN
    }

    function Now(): K.State
      requires Valid()
      reads this, inputQueue
    {
      K.State(modifiers, inputQueue[..queueIdx])
    }

    constructor (chars: seq<seq<Byte>>)
      requires K.IsTable(chars)
      ensures Valid() && Now() == K.START && this.chars == chars && fresh(inputQueue)
    {
      this.chars := chars;
      inputQueue := new Byte[K.QUEUE_LEN](_ => 0);
      queueIdx, modifiers := 0, 0;
    }

    /** `kb_get_mod` */
    predicate GetMod(mod: bv8)
      reads this
    {
      modifiers & mod != 0
    }

    /** `kb_set_mod` */
    method SetMod(mod: bv8, value: bool)
      modifies this`modifiers
      ensures modifiers == K.With(old(modifiers), mod, value)
    {
      if value {
        modifiers := modifiers | mod;
      } else {
        modifiers := modifiers & !mod;
      }
    }

    method Enqueue(ch: Byte)
      requires Valid()
      modifies this`queueIdx, inputQueue
      ensures Valid() && Now() == old(Now()).(queue := K.Enqueue(old(Now()).queue, ch))
    {
      if queueIdx >= K.QUEUE_LEN {
        Memmove(inputQueue, 0, 1, queueIdx - 1);
        queueIdx := queueIdx - 1;
      }
      inputQueue[queueIdx] := ch;
      queueIdx := queueIdx + 1;
    }

    method KeyPressed(keycode: Byte)
      requires Valid()
      modifies this, inputQueue
      ensures Valid() && Now() == K.Apply(chars, old(Now()), K.Press(keycode))
      ensures keycode !in {0x80, 0x8b, 0xa0, 0xa7, 0xa2, 0xa4, 0x60} ==>
                var was, m := old(Now()), old(modifiers);
                var c := if (m & 3 != 0) != (m & 64 != 0) then chars[1][keycode] else chars[0][keycode];
                && modifiers == m
                && Now().queue == if c == 0 then was.queue
                                  else (if |was.queue| >= 256 then was.queue[1..] else was.queue)
                                       + [if m & 12 != 0 then c % 32 else c]
    {
      match keycode {
        case 0x80 => SetMod(K.LSHIFT, true);
        case 0x8b => SetMod(K.RSHIFT, true);
        case 0xa0 => SetMod(K.LCTRL, true);
        case 0xa7 => SetMod(K.RCTRL, true);
        case 0xa2 => SetMod(K.LALT, true);
        case 0xa4 => SetMod(K.RALT, true);
        case 0x60 => SetMod(K.CAPS, !GetMod(K.CAPS));
        case _ =>
          var shift := GetMod(K.SHIFT) != GetMod(K.CAPS);
          var ch := chars[if shift then 1 else 0][keycode];
          if ch == 0 {
            return;
          }
          if GetMod(K.CTRL) {
            ch := ch % 32;
          }
          Enqueue(ch);
      }
    }

    method KeyReleased(keycode: Byte)
      requires Valid()
      modifies this
      ensures Valid() && Now() == K.Apply(chars, old(Now()), K.Release(keycode))
    {
      match keycode {
        case 0x80 => SetMod(K.LSHIFT, false);
        case 0x8b => SetMod(K.RSHIFT, false);
        case 0xa0 => SetMod(K.LCTRL, false);
        case 0xa7 => SetMod(K.RCTRL, false);
        case 0xa2 => SetMod(K.LALT, false);
        case 0xa4 => SetMod(K.RALT, false);
        case _ =>
      }
    }

    /** The rest of the queue moves to the front. */
    method TakeOut(count: nat)
      requires Valid() && count <= queueIdx
      modifies this`queueIdx, inputQueue
      ensures Valid() && Now() == old(Now()).(queue := old(Now()).queue[count..])
    {
      Memmove(inputQueue, 0, count, queueIdx - count);
      queueIdx := queueIdx - count;
      hide Splice;
      assert inputQueue[..queueIdx] == inputQueue[..][..queueIdx];
    }

    /** `vconsole_read`: takes the first characters out of the queue. */
    method Read(buf: array<Byte>, n: nat) returns (count: nat)
      requires Valid() && n <= buf.Length && buf != inputQueue
      modifies this`queueIdx, inputQueue, buf
      ensures Valid() && Now() == K.Do(chars, old(Now()), K.Read(n))
      ensures count == K.Count(old(Now()).queue, n)
      ensures buf[..] == Splice(old(buf[..]), 0, old(Now()).queue[..count])
    {
      count := if queueIdx < n then queueIdx else n;
      Memcpy(buf, 0, inputQueue, 0, count);
      hide Splice;
      assert inputQueue[0..0 + count] == Now().queue[..count];
      TakeOut(count);
    }
  }
}
