/**
 * kernel/drivers/kb.c on values: modifier bits, the queue of typed characters, and what
 * every run of key events and reads makes of them. The character tables are parameters.
 */
module Keys {
  import opened Strings

  const LSHIFT: bv8 := 1
  const RSHIFT: bv8 := 2
  const SHIFT: bv8 := 3
  const LCTRL: bv8 := 4
  const RCTRL: bv8 := 8
  const CTRL: bv8 := 12
  const LALT: bv8 := 16
  const RALT: bv8 := 32
  const CAPS: bv8 := 64

  const CAPS_KEY: Byte := 0x60

  const QUEUE_LEN := 256

  /** `keycode_to_char`: without and with shift, 256 characters each, 0 for none. */
  predicate IsTable(chars: seq<seq<Byte>>) {
    |chars| == 2 && |chars[0]| == 256 && |chars[1]| == 256
  }

  datatype State = State(mods: bv8, queue: seq<Byte>)

  const START := State(0, [])

  datatype Event = Press(key: Byte) | Release(key: Byte)

  predicate Has(mods: bv8, bits: bv8) {
    mods & bits != 0
  }

  function With(mods: bv8, bits: bv8, value: bool): bv8 {
    if value then mods | bits else mods & !bits
  }

  /** The bit of a modifier key that is set while the key is down. */
  function ModOf(key: Byte): (bits: bv8) {
    if key == 0x80 then LSHIFT
    else if key == 0x8b then RSHIFT
    else if key == 0xa0 then LCTRL
    else if key == 0xa7 then RCTRL
    else if key == 0xa2 then LALT
    else if key == 0xa4 then RALT
    else 0
  }

  /** The character of a key, if it has one: a one-element or empty sequence. */
  function Typed(chars: seq<seq<Byte>>, shift: bool, ctrl: bool, key: Byte): seq<Byte>
    requires IsTable(chars)
  {
    var ch := chars[if shift then 1 else 0][key];
    if ch == 0 then [] else if ctrl then [ch % 32] else [ch]
  }

  /** A full queue drops its oldest character. */
  function Enqueue(queue: seq<Byte>, ch: Byte): (r: seq<Byte>)
  {
    (if |queue| >= QUEUE_LEN then queue[1..] else queue) + [ch]
  }

  function Apply(chars: seq<seq<Byte>>, s: State, e: Event): State
    requires IsTable(chars)
  {
    match e
    case Press(key) =>
      if ModOf(key) != 0 then s.(mods := With(s.mods, ModOf(key), true))
      else if key == CAPS_KEY then s.(mods := With(s.mods, CAPS, !Has(s.mods, CAPS)))
      else
        var ch := Typed(chars, Has(s.mods, SHIFT) != Has(s.mods, CAPS), Has(s.mods, CTRL), key);
        if ch == [] then s else s.(queue := Enqueue(s.queue, ch[0]))
    case Release(key) => s.(mods := With(s.mods, ModOf(key), false))
  }

  function ApplyAll(chars: seq<seq<Byte>>, s: State, es: seq<Event>): State
    requires IsTable(chars)
  {
    if es == [] then s else Apply(chars, ApplyAll(chars, s, es[..|es| - 1]), es[|es| - 1])
  }

  lemma {:induction false} ApplyAllInParts(chars: seq<seq<Byte>>, s: State, a: seq<Event>, b: seq<Event>)
    requires IsTable(chars)
    ensures ApplyAll(chars, s, a + b) == ApplyAll(chars, ApplyAll(chars, s, a), b)
  {
    if b == [] {
      assert a + b == a;
    } else {
      ApplyAllInParts(chars, s, a, b[..|b| - 1]);
      assert (a + b)[..|a + b| - 1] == a + b[..|b| - 1];
    }
  }

  // ---------------------------------------------------------------- runs of events and reads

  datatype Op = Key(e: Event) | Read(n: nat)

  function Count(queue: seq<Byte>, n: nat): (c: nat)
    ensures c <= |queue| && c <= n && (c == |queue| || c == n)
  {
    if |queue| < n then |queue| else n
  }

  function Do(chars: seq<seq<Byte>>, s: State, op: Op): State
    requires IsTable(chars)
  {
    match op
    case Key(e) => Apply(chars, s, e)
    case Read(n) => s.(queue := s.queue[Count(s.queue, n)..])
  }

  function Run(chars: seq<seq<Byte>>, ops: seq<Op>): State
    requires IsTable(chars)
  {
    if ops == [] then START else Do(chars, Run(chars, ops[..|ops| - 1]), ops[|ops| - 1])
  }

  // The history alone says which keys are down and which characters are typed.

  /** The last event of the key is a press. */
  predicate Held(ops: seq<Op>, key: Byte) {
    if ops == [] then false
    else
      var last := ops[|ops| - 1];
      if last == Key(Press(key)) then true
      else if last == Key(Release(key)) then false
      else Held(ops[..|ops| - 1], key)
  }

  function Presses(ops: seq<Op>, key: Byte): nat {
    if ops == [] then 0
    else Presses(ops[..|ops| - 1], key) + if ops[|ops| - 1] == Key(Press(key)) then 1 else 0
  }

  predicate CapsOn(ops: seq<Op>) {
    Presses(ops, CAPS_KEY) % 2 == 1
  }

  predicate IsModifier(key: Byte) {
    key in {0x80, 0x8b, 0xa0, 0xa7, 0xa2, 0xa4, CAPS_KEY}
  }

  /** What one more operation types. */
  function TypedBy(chars: seq<seq<Byte>>, before: seq<Op>, op: Op): seq<Byte>
    requires IsTable(chars)
  {
    if op.Key? && op.e.Press? && !IsModifier(op.e.key) then
      Typed(chars, (Held(before, 0x80) || Held(before, 0x8b)) != CapsOn(before),
            Held(before, 0xa0) || Held(before, 0xa7), op.e.key)
    else []
  }

  /** All characters typed, in order. */
  function Stream(chars: seq<seq<Byte>>, ops: seq<Op>): seq<Byte>
    requires IsTable(chars)
  {
    if ops == [] then []
    else Stream(chars, ops[..|ops| - 1]) + TypedBy(chars, ops[..|ops| - 1], ops[|ops| - 1])
  }

  /** What one more operation reads. */
  function ReadBy(chars: seq<seq<Byte>>, before: seq<Op>, op: Op): seq<Byte>
    requires IsTable(chars)
  {
    var queue := Run(chars, before).queue;
    if op.Read? then queue[..Count(queue, op.n)] else []
  }

  /** Whether one more operation throws a character away. */
  predicate DropBy(chars: seq<seq<Byte>>, before: seq<Op>, op: Op)
    requires IsTable(chars)
  {
    TypedBy(chars, before, op) != [] && |Run(chars, before).queue| == QUEUE_LEN
  }

  /** The position in the stream behind everything read or thrown away so far. */
  function Front(chars: seq<seq<Byte>>, ops: seq<Op>): nat
    requires IsTable(chars)
  {
    if ops == [] then 0
    else
      var before, op := ops[..|ops| - 1], ops[|ops| - 1];
      Front(chars, before) + |ReadBy(chars, before, op)| + if DropBy(chars, before, op) then 1 else 0
  }

  // One bit at a time.

  lemma BitsAreIndependent(mods: bv8, a: bv8, b: bv8, value: bool)
    requires a in {1, 2, 4, 8, 16, 32, 64} && b in {1, 2, 4, 8, 16, 32, 64}
    ensures Has(With(mods, a, value), b) == if a == b then value else Has(mods, b)
  {
  }

  /** Each shift, ctrl and alt bit is set exactly when the key's last event was a press. */
  lemma {:induction false} ModifiersFollowTheKeys(chars: seq<seq<Byte>>, ops: seq<Op>, key: Byte)
    requires IsTable(chars) && ModOf(key) != 0
    ensures Has(Run(chars, ops).mods, ModOf(key)) == Held(ops, key)
  {
    if ops == [] {
    } else {
      var before, op := ops[..|ops| - 1], ops[|ops| - 1];
      ModifiersFollowTheKeys(chars, before, key);
    }
  }

  /** The caps bit is the parity of its presses; releases do not matter. */
  lemma {:induction false} CapsIsParity(chars: seq<seq<Byte>>, ops: seq<Op>)
    requires IsTable(chars)
    ensures Has(Run(chars, ops).mods, CAPS) == CapsOn(ops)
  {
    if ops == [] {
    } else {
      var before, op := ops[..|ops| - 1], ops[|ops| - 1];
      CapsIsParity(chars, before);
      CapsStep(chars, Run(chars, before), op);
    }
  }

  lemma CapsStep(chars: seq<seq<Byte>>, s: State, op: Op)
    requires IsTable(chars)
    ensures Has(Do(chars, s, op).mods, CAPS) == (Has(s.mods, CAPS) != (op == Key(Press(CAPS_KEY))))
  {
  }

  /** The character that a key puts into the queue follows from the history of the modifier keys. */
  lemma TypedFollowsTheKeys(chars: seq<seq<Byte>>, before: seq<Op>, op: Op)
    requires IsTable(chars) && op.Key?
    ensures var s, ch := Run(chars, before), TypedBy(chars, before, op);
            Apply(chars, s, op.e).queue == if ch == [] then s.queue else Enqueue(s.queue, ch[0])
  {
    hide Run, Held;
    var mods := Run(chars, before).mods;
    ModifiersFollowTheKeys(chars, before, 0x80);
    ModifiersFollowTheKeys(chars, before, 0x8b);
    ModifiersFollowTheKeys(chars, before, 0xa0);
    ModifiersFollowTheKeys(chars, before, 0xa7);
    CapsIsParity(chars, before);
  }

  /** The state of the seven bits, by number, after every run. */
  lemma ModifierBits(chars: seq<seq<Byte>>, ops: seq<Op>)
    requires IsTable(chars)
    ensures var mods := Run(chars, ops).mods;
            && (mods & 1 != 0 <==> Held(ops, 0x80)) && (mods & 2 != 0 <==> Held(ops, 0x8b))
            && (mods & 4 != 0 <==> Held(ops, 0xa0)) && (mods & 8 != 0 <==> Held(ops, 0xa7))
            && (mods & 16 != 0 <==> Held(ops, 0xa2)) && (mods & 32 != 0 <==> Held(ops, 0xa4))
            && (mods & 64 != 0 <==> Presses(ops, 0x60) % 2 == 1)
  {
    hide Run, Held, Presses;
    ModifiersFollowTheKeys(chars, ops, 0x80);
    ModifiersFollowTheKeys(chars, ops, 0x8b);
    ModifiersFollowTheKeys(chars, ops, 0xa0);
    ModifiersFollowTheKeys(chars, ops, 0xa7);
    ModifiersFollowTheKeys(chars, ops, 0xa2);
    ModifiersFollowTheKeys(chars, ops, 0xa4);
    CapsIsParity(chars, ops);
  }

  /**
   * Over every run, in terms of the keys alone: the press of a key that is no modifier looks its
   * character up with shift if either shift key is held and caps is off, or neither is and caps is on.
   * No character, no change; else it goes to the end, cut to five bits while a ctrl key is held.
   */
  lemma PressQueues(chars: seq<seq<Byte>>, before: seq<Op>, key: Byte)
    requires IsTable(chars) && key !in {0x80, 0x8b, 0xa0, 0xa7, 0xa2, 0xa4, 0x60}
    ensures var was, op := Run(chars, before), Key(Press(key));
            var now := Run(chars, before + [op]);
            var shifted := (Held(before, 0x80) || Held(before, 0x8b)) != (Presses(before, 0x60) % 2 == 1);
            var c := if shifted then chars[1][key] else chars[0][key];
            var typed := if Held(before, 0xa0) || Held(before, 0xa7) then c % 32 else c;
            && now.mods == was.mods
            && now.queue == (if c == 0 then was.queue
                             else (if |was.queue| >= 256 then was.queue[1..] else was.queue) + [typed])
            && TypedBy(chars, before, op) == if c == 0 then [] else [typed]
  {
    RunStep(chars, before, Key(Press(key)));
    TypedFollowsTheKeys(chars, before, Key(Press(key)));
    hide Run, Held, Presses;
  }

  lemma RunStep(chars: seq<seq<Byte>>, before: seq<Op>, op: Op)
    requires IsTable(chars)
    ensures Run(chars, before + [op]) == Do(chars, Run(chars, before), op)
  {
    assert (before + [op])[..|before|] == before;
  }

  /** Modifier keys and releases type nothing and leave the queue alone. */
  lemma OtherEventsQueueNothing(chars: seq<seq<Byte>>, before: seq<Op>, e: Event)
    requires IsTable(chars) && (e.Release? || e.key in {0x80, 0x8b, 0xa0, 0xa7, 0xa2, 0xa4, 0x60})
    ensures Run(chars, before + [Key(e)]).queue == Run(chars, before).queue
    ensures TypedBy(chars, before, Key(e)) == []
  {
    RunStep(chars, before, Key(e));
  }

  lemma OneAtMost(chars: seq<seq<Byte>>, before: seq<Op>, op: Op)
    requires IsTable(chars)
    ensures var typed := TypedBy(chars, before, op); typed == [] || typed == [typed[0]]
    ensures op.Read? ==> TypedBy(chars, before, op) == []
  {
  }

  /** What one operation does to the queue: it reads from the front, types at the end, and may drop one in front. */
  lemma QueueStep(chars: seq<seq<Byte>>, before: seq<Op>, op: Op)
    requires IsTable(chars) && |Run(chars, before).queue| <= QUEUE_LEN
    ensures var s, typed := Run(chars, before), TypedBy(chars, before, op);
            var got := ReadBy(chars, before, op);
            var after := Do(chars, s, op).queue;
            && |got| <= |s.queue| && |typed| <= 1 && |after| <= QUEUE_LEN
            && if DropBy(chars, before, op)
               then got == [] && typed != [] && after == s.queue[1..] + typed && |s.queue| > 0
               else s.queue + typed == got + after
  {
    OneAtMost(chars, before, op);
    match op
    case Read(n) =>
      hide TypedBy;
      var queue := Run(chars, before).queue;
      assert queue == queue[..Count(queue, n)] + queue[Count(queue, n)..];
    case Key(e) =>
      TypedFollowsTheKeys(chars, before, op);
      hide Apply, TypedBy;
  }

  /** The queue is the end of the stream, before and after. */
  lemma EndMovesOn(stream: seq<Byte>, front: nat, queue: seq<Byte>, typed: seq<Byte>,
                   got: seq<Byte>, after: seq<Byte>, dropped: bool)
    requires front <= |stream| && queue == stream[front..] && |got| <= |queue|
    requires if dropped then got == [] && |queue| > 0 && after == queue[1..] + typed else queue + typed == got + after
    ensures var next := front + |got| + if dropped then 1 else 0;
            next <= |stream + typed| && after == (stream + typed)[next..]
  {
    assert (stream + typed)[front..] == queue + typed;
    if dropped {
      assert (stream + typed)[front + 1..] == (queue + typed)[1..];
    } else {
      assert (stream + typed)[front + |got|..] == (got + after)[|got|..];
    }
  }

  /** Over every run, the queue is the stream from `Front` on, of at most 256 characters. */
  lemma {:induction false} QueueIsTheEndOfTheStream(chars: seq<seq<Byte>>, ops: seq<Op>)
    requires IsTable(chars)
    ensures Front(chars, ops) <= |Stream(chars, ops)|
    ensures Run(chars, ops).queue == Stream(chars, ops)[Front(chars, ops)..]
    ensures |Run(chars, ops).queue| <= 256
  {
    if ops == [] {
    } else {
      var before, op := ops[..|ops| - 1], ops[|ops| - 1];
      QueueIsTheEndOfTheStream(chars, before);
      QueueStep(chars, before, op);
      hide Do, TypedBy, ReadBy, DropBy;
      EndMovesOn(Stream(chars, before), Front(chars, before), Run(chars, before).queue, TypedBy(chars, before, op),
                 ReadBy(chars, before, op), Run(chars, ops).queue, DropBy(chars, before, op));
    }
  }

  /**
   * A read returns the next stretch of the stream, no more than asked for, and stops short
   * only at the end of what has been typed.
   */
  lemma ReadsAreSlices(chars: seq<seq<Byte>>, before: seq<Op>, n: nat)
    requires IsTable(chars)
    ensures var got, at := ReadBy(chars, before, Read(n)), Front(chars, before);
            && |got| <= n && at + |got| <= |Stream(chars, before)|
            && got == Stream(chars, before)[at..at + |got|]
            && (|got| < n ==> at + |got| == |Stream(chars, before)|)
            && Front(chars, before + [Read(n)]) == at + |got|
  {
    hide Stream, Run, Delivered, TypedBy;
    QueueIsTheEndOfTheStream(chars, before);
    OneAtMost(chars, before, Read(n));
    assert (before + [Read(n)])[..|before|] == before;
  }

  /** All that was read, in order. */
  function Delivered(chars: seq<seq<Byte>>, ops: seq<Op>): seq<Byte>
    requires IsTable(chars)
  {
    if ops == [] then []
    else Delivered(chars, ops[..|ops| - 1]) + ReadBy(chars, ops[..|ops| - 1], ops[|ops| - 1])
  }

  function Dropped(chars: seq<seq<Byte>>, ops: seq<Op>): nat
    requires IsTable(chars)
  {
    if ops == [] then 0
    else Dropped(chars, ops[..|ops| - 1]) + if DropBy(chars, ops[..|ops| - 1], ops[|ops| - 1]) then 1 else 0
  }

  /**
   * Reads come in order and do not overlap: between the end of one stretch and the start
   * of the next lie exactly the characters thrown away in between.
   */
  lemma {:induction false} GapsAreDrops(chars: seq<seq<Byte>>, a: seq<Op>, b: seq<Op>)
    requires IsTable(chars)
    ensures Front(chars, a + b) - |Delivered(chars, a + b)| - (Front(chars, a) - |Delivered(chars, a)|)
         == Dropped(chars, a + b) - Dropped(chars, a)
    ensures Dropped(chars, a) <= Dropped(chars, a + b)
    ensures Delivered(chars, a) <= Delivered(chars, a + b)
    ensures Stream(chars, a) <= Stream(chars, a + b)
  {
    if b == [] {
      assert a + b == a;
    } else {
      GapsAreDrops(chars, a, b[..|b| - 1]);
      assert (a + b)[..|a + b| - 1] == a + b[..|b| - 1];
    }
  }

  lemma QueueMovesOn(stream: seq<Byte>, read: seq<Byte>, queue: seq<Byte>, typed: seq<Byte>,
                     got: seq<Byte>, after: seq<Byte>)
    requires queue + typed == got + after
    ensures |queue| + |typed| == |got| + |after|
    ensures stream == read + queue ==> stream + typed == read + got + after
  {
    assert |queue + typed| == |got + after|;
    assert read + queue + typed == read + (queue + typed);
    assert read + got + after == read + (got + after);
  }

  /** Every character typed is read, thrown away or still queued; if none was thrown away, nothing is reordered. */
  lemma {:induction false} NothingElseIsLost(chars: seq<seq<Byte>>, ops: seq<Op>)
    requires IsTable(chars)
    ensures |Stream(chars, ops)| == |Delivered(chars, ops)| + Dropped(chars, ops) + |Run(chars, ops).queue|
    ensures Dropped(chars, ops) == 0 ==> Stream(chars, ops) == Delivered(chars, ops) + Run(chars, ops).queue
    decreases |ops|
  {
    if ops == [] {
    } else {
      var before, op := ops[..|ops| - 1], ops[|ops| - 1];
      NothingElseIsLost(chars, before);
      QueueIsTheEndOfTheStream(chars, before);
      var queue, typed := Run(chars, before).queue, TypedBy(chars, before, op);
      var got, dropped := ReadBy(chars, before, op), DropBy(chars, before, op);
      QueueStep(chars, before, op);
      if !dropped {
        QueueMovesOn(Stream(chars, before), Delivered(chars, before), queue, typed, got, Run(chars, ops).queue);
      }
      hide Apply, TypedBy, ReadBy, DropBy;
    }
  }
}
