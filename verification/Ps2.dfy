/**
 * The interrupt handler of kernel/arch/i686/drivers/ps2_kb.c as an object that drives a
 * keyboard. The byte read from the data port is a parameter; warnings and the end-of-interrupt
 * signal are left out.
 */
module Ps2 {
  import opened Strings
  import K = Keys
  import S = Scancodes
  import Kb

  class Decoder {
    const tables: S.Tables
    const scancodeSet: Byte
    const kb: Kb.Keyboard
    var releaseNext: bool
    var ignoreNext: Byte
    var scancodePlane: Byte

    ghost predicate Valid()
      reads this, kb
    {
      tables.Valid() && Now().Valid() && kb.Valid()
    }

    function Now(): S.State
      reads this
    {
      S.State(releaseNext, ignoreNext, scancodePlane)
    }

    constructor (tables: S.Tables, scancodeSet: Byte, kb: Kb.Keyboard)
      requires tables.Valid() && kb.Valid()
      ensures Valid() && Now() == S.IDLE && this.tables == tables && this.scancodeSet == scancodeSet && this.kb == kb
    {
      this.tables, this.scancodeSet, this.kb := tables, scancodeSet, kb;
      releaseNext, ignoreNext, scancodePlane := false, 0, 0;
    }

    method Tell(keycode: Byte)
      requires Valid()
      modifies kb, kb.inputQueue
      ensures Valid() && Now() == old(Now())
      ensures kb.Now() == K.Apply(kb.chars, old(kb.Now()), if releaseNext then K.Release(keycode) else K.Press(keycode))
    {
      if releaseNext {
        kb.KeyReleased(keycode);
      } else {
        kb.KeyPressed(keycode);
      }
    }

    /** One interrupt: the decoder takes one step and tells the keyboard. */
    method KeyPressed(scancode: Byte)
      requires Valid()
      modifies this, kb, kb.inputQueue
      ensures Valid()
      ensures Now() == S.Step(tables, scancodeSet, old(Now()), scancode).0
      ensures kb.Now() == K.ApplyAll(kb.chars, old(kb.Now()), S.Step(tables, scancodeSet, old(Now()), scancode).1)
    {
      hide K.Apply;
      match scancodeSet {
        case 3 =>
          if scancode == 0xf0 {
            releaseNext := true;
          } else {
            var keycode := tables.set3[scancode];
            if keycode != 0xff {
              Tell(keycode);
            }
            releaseNext := false;
          }
        case 2 =>
          if scancode == 0xf0 {
            releaseNext := true;
          } else if scancode == 0xe0 {
            scancodePlane := 1;
          } else if scancode == 0xe1 {
            ignoreNext := 2;
          } else {
            var keycode := tables.set2[scancodePlane][scancode];
            if ignoreNext != 0 {
              keycode := 0xfe;
              ignoreNext := ignoreNext - 1;
              if ignoreNext == 0 {
                keycode := 0x0f;
              }
            }
            if keycode != 0xff && keycode != 0xfe {
              Tell(keycode);
            }
            releaseNext := false;
            scancodePlane := 0;
          }
        case _ =>
      }
    }
  }
}
