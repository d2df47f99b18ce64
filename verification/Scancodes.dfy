/**
 * The scancode decoder of kernel/arch/i686/drivers/ps2_kb.c on values: one step per byte,
 * and what keyboards send for their keys. The key code tables are parameters.
 */
module Scancodes {
  import opened Strings
  import K = Keys

  /** The bytes of an unknown scancode, and of one that only continues a sequence. */
  const UNKNOWN: Byte := 0xff
  const CONTINUE: Byte := 0xfe
  const PAUSE: Byte := 0x0f

  /** Two planes for set 2, one for set 3. */
  datatype Tables = Tables(set2: seq<seq<Byte>>, set3: seq<Byte>) {
    predicate Valid() {
      |set2| == 2 && |set2[0]| == 256 && |set2[1]| == 256 && |set3| == 256
    }
  }

  datatype State = State(releaseNext: bool, ignoreNext: Byte, plane: Byte) {
    predicate Valid() { ignoreNext <= 2 && plane <= 1 }
  }

  const IDLE := State(false, 0, 0)

  predicate IsPrefix(b: Byte) {
    b == 0xf0 || b == 0xe0 || b == 0xe1
  }

  /** What a key code is reported as. */
  function Report(keycode: Byte, release: bool): seq<K.Event> {
    if keycode == UNKNOWN || keycode == CONTINUE then []
    else if release then [K.Release(keycode)]
    else [K.Press(keycode)]
  }

  /** One byte of set 2: the new state and the events reported. */
  function Step2(t: Tables, s: State, b: Byte): (r: (State, seq<K.Event>))
    requires t.Valid() && s.Valid()
    ensures r.0.Valid()
  {
    if b == 0xf0 then (s.(releaseNext := true), [])
    else if b == 0xe0 then (s.(plane := 1), [])
    else if b == 0xe1 then (s.(ignoreNext := 2), [])
    else
      var keycode :=
        if s.ignoreNext == 0 then t.set2[s.plane][b] else if s.ignoreNext == 1 then PAUSE else CONTINUE;
      (State(false, if s.ignoreNext == 0 then 0 else s.ignoreNext - 1, 0), Report(keycode, s.releaseNext))
  }

  /** One byte of set 3. In that table only 0xff has a special meaning. */
  function Step3(t: Tables, s: State, b: Byte): (r: (State, seq<K.Event>))
    requires t.Valid() && s.Valid()
    ensures r.0.Valid()
  {
    if b == 0xf0 then (s.(releaseNext := true), [])
    else
      var keycode := t.set3[b];
      (s.(releaseNext := false),
       if keycode == UNKNOWN then [] else if s.releaseNext then [K.Release(keycode)] else [K.Press(keycode)])
  }

  function Step(t: Tables, set_: Byte, s: State, b: Byte): (r: (State, seq<K.Event>))
    requires t.Valid() && s.Valid()
    ensures r.0.Valid()
  {
    if set_ == 3 then Step3(t, s, b) else if set_ == 2 then Step2(t, s, b) else (s, [])
  }

  function Decode(t: Tables, set_: Byte, s: State, bytes: seq<Byte>): (r: (State, seq<K.Event>))
    requires t.Valid() && s.Valid()
    ensures r.0.Valid()
    decreases bytes
  {
    if bytes == [] then (s, [])
    else
      var (s1, now) := Step(t, set_, s, bytes[0]);
      var (s2, later) := Decode(t, set_, s1, bytes[1..]);
      (s2, now + later)
  }

  /** Bytes `a` and then bytes `b`. */
  lemma {:induction false} DecodeInParts(t: Tables, set_: Byte, s: State, a: seq<Byte>, b: seq<Byte>)
    requires t.Valid() && s.Valid()
    ensures Decode(t, set_, s, a + b).0 == Decode(t, set_, Decode(t, set_, s, a).0, b).0
    ensures Decode(t, set_, s, a + b).1 == Decode(t, set_, s, a).1 + Decode(t, set_, Decode(t, set_, s, a).0, b).1
    decreases a
  {
    hide Step;
    if a == [] {
      assert a + b == b;
    } else {
      var (s1, first) := Step(t, set_, s, a[0]);
      DecodeInParts(t, set_, s1, a[1..], b);
      assert (a + b)[1..] == a[1..] + b;
      var now, later := Decode(t, set_, s1, a[1..]).1, Decode(t, set_, Decode(t, set_, s, a).0, b).1;
      assert first + (now + later) == (first + now) + later;
    }
  }

  lemma DecodeOne(t: Tables, set_: Byte, s: State, b: Byte)
    requires t.Valid() && s.Valid()
    ensures Decode(t, set_, s, [b]) == Step(t, set_, s, b)
  {
    assert [b][1..] == [];
    var events := Step(t, set_, s, b).1;
    assert events + [] == events;
  }

  // ---------------------------------------------------------------- what keyboards send

  /** The actions of a set 2 keyboard. `extended` keys are those of the second plane. */
  datatype Action =
    | Down(extended: bool, code: Byte)
    | Up(extended: bool, code: Byte)
    | PrintDown
    | PrintUp
    | Pause

  /** The bytes sent for an action. */
  function Encode(a: Action): seq<Byte> {
    match a
    case Down(extended, code) => (if extended then [0xe0] else []) + [code]
    case Up(extended, code) => (if extended then [0xe0] else []) + [0xf0, code]
    case PrintDown => [0xe0, 0x12, 0xe0, 0x7c]
    case PrintUp => [0xe0, 0xf0, 0x7c, 0xe0, 0xf0, 0x12]
    case Pause => [0xe1, 0x14, 0x77, 0xe1, 0xf0, 0x14, 0xf0, 0x77]
  }

  /** The events an action stands for. */
  function Meaning(t: Tables, a: Action): seq<K.Event>
    requires t.Valid()
  {
    match a
    case Down(extended, code) => Report(t.set2[if extended then 1 else 0][code], false)
    case Up(extended, code) => Report(t.set2[if extended then 1 else 0][code], true)
    case PrintDown => Report(t.set2[1][0x12], false) + Report(t.set2[1][0x7c], false)
    case PrintUp => Report(t.set2[1][0x7c], true) + Report(t.set2[1][0x12], true)
    case Pause => [K.Press(PAUSE), K.Release(PAUSE)]
  }

  predicate Sendable(a: Action) {
    a.Down? || a.Up? ==> !IsPrefix(a.code)
  }

  function EncodeAll(acts: seq<Action>): seq<Byte> {
    if acts == [] then [] else Encode(acts[0]) + EncodeAll(acts[1..])
  }

  function MeaningAll(t: Tables, acts: seq<Action>): seq<K.Event>
    requires t.Valid()
  {
    if acts == [] then [] else Meaning(t, acts[0]) + MeaningAll(t, acts[1..])
  }

  lemma KeyRoundTrip(t: Tables, extended: bool, release: bool, code: Byte)
    requires t.Valid() && !IsPrefix(code)
    ensures Decode(t, 2, IDLE, (if extended then [0xe0] else []) + if release then [0xf0, code] else [code])
         == (IDLE, Report(t.set2[if extended then 1 else 0][code], release))
  {
    var e: seq<Byte> := if extended then [0xe0] else [];
    var s1 := State(false, 0, if extended then 1 else 0);
    DecodeOne(t, 2, IDLE, 0xe0);
    assert Decode(t, 2, IDLE, e) == (s1, []);
    DecodeOne(t, 2, s1, 0xf0);
    DecodeOne(t, 2, s1, code);
    DecodeOne(t, 2, s1.(releaseNext := true), code);
    DecodeInParts(t, 2, s1, [0xf0], [code]);
    assert [0xf0, code] == [0xf0] + [code];
    var r: seq<Byte> := if release then [0xf0, code] else [code];
    var events := Report(t.set2[s1.plane][code], release);
    assert Decode(t, 2, s1, r) == (IDLE, events) by {
      assert [] + events == events;
    }
    DecodeInParts(t, 2, IDLE, e, r);
    assert [] + events == events;
  }

  /** In numbers: the bytes of a key report its key code, pressed or released, unless that is 0xfe or 0xff. */
  lemma OneKeyOneReport(t: Tables, extended: bool, release: bool, code: Byte)
    requires t.Valid() && code !in {0xf0, 0xe0, 0xe1}
    ensures var key := if extended then t.set2[1][code] else t.set2[0][code];
            var bytes := match (extended, release)
                         case (false, false) => [code]
                         case (false, true) => [0xf0, code]
                         case (true, false) => [0xe0, code]
                         case (true, true) => [0xe0, 0xf0, code];
            Decode(t, 2, State(false, 0, 0), bytes)
            == (State(false, 0, 0), if key >= 0xfe then [] else if release then [K.Release(key)] else [K.Press(key)])
  {
    KeyRoundTrip(t, extended, release, code);
    var e: seq<Byte> := if extended then [0xe0] else [];
    assert e + (if release then [0xf0, code] else [code])
        == match (extended, release)
           case (false, false) => [code]
           case (false, true) => [0xf0, code]
           case (true, false) => [0xe0, code]
           case (true, true) => [0xe0, 0xf0, code];
    hide Decode;
  }

  /** A byte that reports nothing. */
  lemma Silent(t: Tables, s: State, b: Byte, rest: seq<Byte>)
    requires t.Valid() && s.Valid() && Step2(t, s, b).1 == []
    ensures Decode(t, 2, s, [b] + rest) == Decode(t, 2, Step2(t, s, b).0, rest)
  {
    assert ([b] + rest)[1..] == rest;
    var later := Decode(t, 2, Step2(t, s, b).0, rest).1;
    assert [] + later == later;
  }

  lemma PauseRoundTrip(t: Tables)
    requires t.Valid()
    ensures Decode(t, 2, IDLE, Encode(Pause)) == (IDLE, Meaning(t, Pause))
  {
    var s2, s1, r2, r1 := State(false, 2, 0), State(false, 1, 0), State(true, 2, 0), State(true, 1, 0);
    DecodeOne(t, 2, s1, 0x77);
    DecodeOne(t, 2, r1, 0x77);
    hide Decode;
    Silent(t, IDLE, 0xe1, [0x14] + [0x77]);
    Silent(t, s2, 0x14, [0x77]);
    Silent(t, IDLE, 0xe1, [0xf0] + ([0x14] + ([0xf0] + [0x77])));
    Silent(t, s2, 0xf0, [0x14] + ([0xf0] + [0x77]));
    Silent(t, r2, 0x14, [0xf0] + [0x77]);
    Silent(t, s1, 0xf0, [0x77]);
    DecodeInParts(t, 2, IDLE, [0xe1] + ([0x14] + [0x77]), [0xe1] + ([0xf0] + ([0x14] + ([0xf0] + [0x77]))));
    assert Meaning(t, Pause) == [K.Press(PAUSE)] + [K.Release(PAUSE)];
    assert Encode(Pause) == ([0xe1] + ([0x14] + [0x77])) + ([0xe1] + ([0xf0] + ([0x14] + ([0xf0] + [0x77]))));
  }

  lemma ActionRoundTrip(t: Tables, a: Action)
    requires t.Valid() && Sendable(a)
    ensures Decode(t, 2, IDLE, Encode(a)) == (IDLE, Meaning(t, a))
  {
    hide Decode, Step, Report;
    match a
    case Down(extended, code) => KeyRoundTrip(t, extended, false, code);
    case Up(extended, code) => KeyRoundTrip(t, extended, true, code);
    case PrintDown =>
      KeyRoundTrip(t, true, false, 0x12);
      KeyRoundTrip(t, true, false, 0x7c);
      DecodeInParts(t, 2, IDLE, [0xe0] + [0x12], [0xe0] + [0x7c]);
      assert Encode(a) == ([0xe0] + [0x12]) + ([0xe0] + [0x7c]);
    case PrintUp =>
      KeyRoundTrip(t, true, true, 0x7c);
      KeyRoundTrip(t, true, true, 0x12);
      DecodeInParts(t, 2, IDLE, [0xe0] + [0xf0, 0x7c], [0xe0] + [0xf0, 0x12]);
      assert Encode(a) == ([0xe0] + [0xf0, 0x7c]) + ([0xe0] + [0xf0, 0x12]);
    case Pause => PauseRoundTrip(t);
  }

  /** For every list of actions, the bytes sent give exactly the events meant, in order, and the decoder ends idle. */
  lemma {:induction false} DecodingUndoesEncoding(t: Tables, acts: seq<Action>)
    requires t.Valid() && forall i :: 0 <= i < |acts| ==> Sendable(acts[i])
    ensures Decode(t, 2, IDLE, EncodeAll(acts)) == (IDLE, MeaningAll(t, acts))
  {
    if acts == [] {
    } else {
      ActionRoundTrip(t, acts[0]);
      DecodingUndoesEncoding(t, acts[1..]);
      DecodeInParts(t, 2, IDLE, Encode(acts[0]), EncodeAll(acts[1..]));
    }
  }

  /** With the first scancode marked as a mere continuation, the Print Screen sequences report the key once. */
  lemma PrintScreenReportsOnce(t: Tables)
    requires t.Valid() && t.set2[1][0x12] == CONTINUE && t.set2[1][0x7c] !in {UNKNOWN, CONTINUE}
    ensures Decode(t, 2, IDLE, Encode(PrintDown)) == (IDLE, [K.Press(t.set2[1][0x7c])])
    ensures Decode(t, 2, IDLE, Encode(PrintUp)) == (IDLE, [K.Release(t.set2[1][0x7c])])
  {
    ActionRoundTrip(t, PrintDown);
    ActionRoundTrip(t, PrintUp);
    assert Meaning(t, PrintDown) == [K.Press(t.set2[1][0x7c])];
    assert Meaning(t, PrintUp) == [K.Release(t.set2[1][0x7c])];
  }

  /** In set 3 a key sends its scancode, after 0xf0 when it is released. */
  function Encode3(code: Byte, release: bool): seq<Byte> {
    if release then [0xf0, code] else [code]
  }

  function EncodeAll3(keys: seq<(Byte, bool)>): seq<Byte> {
    if keys == [] then [] else Encode3(keys[0].0, keys[0].1) + EncodeAll3(keys[1..])
  }

  function MeaningAll3(t: Tables, keys: seq<(Byte, bool)>): seq<K.Event>
    requires t.Valid()
  {
    if keys == [] then []
    else
      var key := t.set3[keys[0].0];
      (if key == UNKNOWN then [] else if keys[0].1 then [K.Release(key)] else [K.Press(key)])
      + MeaningAll3(t, keys[1..])
  }

  lemma {:induction false} DecodingUndoesEncoding3(t: Tables, keys: seq<(Byte, bool)>)
    requires t.Valid() && forall i :: 0 <= i < |keys| ==> keys[i].0 != 0xf0
    ensures Decode(t, 3, IDLE, EncodeAll3(keys)) == (IDLE, MeaningAll3(t, keys))
  {
    if keys == [] {
    } else {
      var code, release := keys[0].0, keys[0].1;
      DecodingUndoesEncoding3(t, keys[1..]);
      DecodeOne(t, 3, IDLE, 0xf0);
      DecodeOne(t, 3, State(release, 0, 0), code);
      DecodeInParts(t, 3, IDLE, [0xf0], [code]);
      assert [0xf0, code] == [0xf0] + [code];
      var events := Step3(t, State(release, 0, 0), code).1;
      assert [] + events == events;
      assert Decode(t, 3, IDLE, Encode3(code, release)) == (IDLE, events);
      DecodeInParts(t, 3, IDLE, Encode3(code, release), EncodeAll3(keys[1..]));
    }
  }

  // ---------------------------------------------------------------- losing track and finding it again

  function PlainBytes(bytes: seq<Byte>): nat {
    if bytes == [] then 0 else PlainBytes(bytes[..|bytes| - 1]) + if IsPrefix(bytes[|bytes| - 1]) then 0 else 1
  }

  /** Without a further 0xe1, every plain byte takes one off the bytes to ignore. */
  lemma {:induction false} IgnoringEnds(t: Tables, s: State, bytes: seq<Byte>)
    requires t.Valid() && s.Valid() && 0xe1 !in bytes
    ensures Decode(t, 2, s, bytes).0.ignoreNext
         == if PlainBytes(bytes) < s.ignoreNext then s.ignoreNext - PlainBytes(bytes) else 0
  {
    if bytes == [] {
    } else {
      var before, last := bytes[..|bytes| - 1], bytes[|bytes| - 1];
      IgnoringEnds(t, s, before);
      DecodeInParts(t, 2, s, before, [last]);
      DecodeOne(t, 2, Decode(t, 2, s, before).0, last);
      assert bytes == before + [last];
    }
  }

  /** From any state the decoder is idle right after the second and every later plain byte, if no 0xe1 comes. */
  lemma FindsTrackAgain(t: Tables, s: State, bytes: seq<Byte>)
    requires t.Valid() && s.Valid() && 0xe1 !in bytes
    requires PlainBytes(bytes) >= 2 && !IsPrefix(bytes[|bytes| - 1])
    ensures Decode(t, 2, s, bytes).0 == IDLE
  {
    var before, last := bytes[..|bytes| - 1], bytes[|bytes| - 1];
    IgnoringEnds(t, s, before);
    DecodeInParts(t, 2, s, before, [last]);
    DecodeOne(t, 2, Decode(t, 2, s, before).0, last);
    assert bytes == before + [last];
  }

  // ---------------------------------------------------------------- scancodes to characters

  /** The decoder drives the keyboard: every byte is decoded and its events applied at once. */
  function Feed(t: Tables, set_: Byte, chars: seq<seq<Byte>>, s: State, kb: K.State, bytes: seq<Byte>): (State, K.State)
    requires t.Valid() && s.Valid() && K.IsTable(chars)
    decreases bytes
  {
    if bytes == [] then (s, kb)
    else
      var (s1, events) := Step(t, set_, s, bytes[0]);
      Feed(t, set_, chars, s1, K.ApplyAll(chars, kb, events), bytes[1..])
  }

  lemma {:induction false} FeedIsDecodeThenApply(
    t: Tables, set_: Byte, chars: seq<seq<Byte>>, s: State, kb: K.State, bytes: seq<Byte>)
    requires t.Valid() && s.Valid() && K.IsTable(chars)
    ensures Feed(t, set_, chars, s, kb, bytes)
         == (Decode(t, set_, s, bytes).0, K.ApplyAll(chars, kb, Decode(t, set_, s, bytes).1))
    decreases bytes
  {
    if bytes == [] {
    } else {
      var (s1, events) := Step(t, set_, s, bytes[0]);
      FeedIsDecodeThenApply(t, set_, chars, s1, K.ApplyAll(chars, kb, events), bytes[1..]);
      K.ApplyAllInParts(chars, kb, events, Decode(t, set_, s1, bytes[1..]).1);
    }
  }

  /** From key actions to typed characters: the keyboard ends up as if told the events themselves. */
  lemma ActionsReachTheKeyboard(t: Tables, chars: seq<seq<Byte>>, kb: K.State, acts: seq<Action>)
    requires t.Valid() && K.IsTable(chars) && forall i :: 0 <= i < |acts| ==> Sendable(acts[i])
    ensures Feed(t, 2, chars, IDLE, kb, EncodeAll(acts)) == (IDLE, K.ApplyAll(chars, kb, MeaningAll(t, acts)))
  {
    DecodingUndoesEncoding(t, acts);
    FeedIsDecodeThenApply(t, 2, chars, IDLE, kb, EncodeAll(acts));
  }
}
