/** The byte-at-a-time scan-code decoder of keyboard_handler (ps2_keyboard.c) as a state machine, the
    encoding it undoes, and the proof that it does. */
module ScanCodes {
  import opened Words

  const ACK: Byte := 0xFA
  const RSD: Byte := 0xFE
  const BREAK: Byte := 0xF0
  const EXTEND_ONE: Byte := 0xE0
  const EXTEND_TWO: Byte := 0xE1

  /** The static variables flags, fullcode and bytes_to_receive. */
  datatype Decoder = Decoder(brk: bool, ext0: bool, ext1: bool, fullcode: Word, toReceive: Byte)

  const IDLE := Decoder(false, false, false, 0, 0)

  /** What one complete sequence denotes: the last byte alone, or the code after E0 or E1. */
  datatype Frame = Single(code: Byte) | Ext0(full: Word) | Ext1(full: Word)

  datatype KeyEvent = KeyEvent(frame: Frame, brk: bool)

  datatype Fed = Fed(next: Decoder, event: Option<KeyEvent>)

  predicate IsReply(b: Byte) { b == ACK || b == RSD }

  /** A byte that is part of a key's code. */
  predicate IsCode(b: Byte) {
    !IsReply(b) && b != BREAK && b != EXTEND_ONE && b != EXTEND_TWO
  }

  /** One byte of keyboard_handler, as far as the decoder is concerned. */
  function Feed(d: Decoder, b: Byte): Fed {
    if IsReply(b) then Fed(d, None)
    else if b == BREAK then Fed(d.(brk := true), None)
    else if b == EXTEND_ONE then Fed(d.(ext0 := true), None)
    else if b == EXTEND_TWO then Fed(d.(ext1 := true, toReceive := 2), None)
    else
      var full := d.fullcode * 256 % WORD_LIMIT + b;
      var left := if d.toReceive > 0 then d.toReceive - 1 else 0;
      if left > 0 then Fed(d.(fullcode := full, toReceive := left), None)
      else if d.ext1 then Fed(IDLE, Some(KeyEvent(Ext1(full), d.brk)))
      else if d.ext0 then
        if full == 0x12 || full == 0x7C then Fed(d.(fullcode := full, toReceive := 0), None)
        else Fed(IDLE, Some(KeyEvent(Ext0(full), d.brk)))
      else Fed(IDLE, Some(KeyEvent(Single(b), d.brk)))
  }

  datatype Decoded = Decoded(last: Decoder, events: seq<KeyEvent>)

  function Decode(d: Decoder, bytes: seq<Byte>): Decoded
    decreases |bytes|
  {
    if bytes == [] then Decoded(d, [])
    else
      var f := Feed(d, bytes[0]);
      var rest := Decode(f.next, bytes[1..]);
      Decoded(rest.last, (if f.event.Some? then [f.event.value] else []) + rest.events)
  }

  // ----- what the keyboard sends -----

  type Code = b: Byte | IsCode(b)
  type ExtendedCode = b: Byte | IsCode(b) && b != 0x12 && b != 0x7C

  datatype Key = Plain(code: Code) | Extended(xcode: ExtendedCode) | PrintScreen | Double(first: Code, second: Code)

  /** The Pause key is the E1 sequence 14 77. */
  const PAUSE := Double(0x14, 0x77)

  /** A key going down, or up. */
  datatype Press = Press(key: Key, up: bool)

  function Encode(p: Press): seq<Byte> {
    match p.key
    case Plain(c) => if p.up then [BREAK, c] else [c]
    case Extended(c) => if p.up then [EXTEND_ONE, BREAK, c] else [EXTEND_ONE, c]
    case PrintScreen =>
      if p.up then [EXTEND_ONE, BREAK, 0x7C, EXTEND_ONE, BREAK, 0x12] else [EXTEND_ONE, 0x12, EXTEND_ONE, 0x7C]
    case Double(a, b) => if p.up then [EXTEND_TWO, BREAK, a, BREAK, b] else [EXTEND_TWO, a, b]
  }

  function EncodeAll(ps: seq<Press>): seq<Byte>
    decreases |ps|
  {
    if ps == [] then [] else Encode(ps[0]) + EncodeAll(ps[1..])
  }

  function EventOf(p: Press): KeyEvent {
    match p.key
    case Plain(c) => KeyEvent(Single(c), p.up)
    case Extended(c) => KeyEvent(Ext0(c), p.up)
    case PrintScreen => KeyEvent(Ext0(if p.up then 0x7C12 else 0x127C), p.up)
    case Double(a, b) => KeyEvent(Ext1(a * 256 + b), p.up)
  }

  function EventsOf(ps: seq<Press>): seq<KeyEvent>
    decreases |ps|
  {
    if ps == [] then [] else [EventOf(ps[0])] + EventsOf(ps[1..])
  }

  /** The bytes that are not replies to commands. */
  function WithoutReplies(bytes: seq<Byte>): seq<Byte>
    decreases |bytes|
  {
    if bytes == [] then []
    else (if IsReply(bytes[0]) then [] else [bytes[0]]) + WithoutReplies(bytes[1..])
  }

  // ----- decoding undoes encoding -----

  lemma {:induction false} DecodeConcat(d: Decoder, a: seq<Byte>, b: seq<Byte>)
    ensures var x := Decode(d, a);
            var y := Decode(x.last, b);
            Decode(d, a + b) == Decoded(y.last, x.events + y.events)
    decreases |a|
  {
    if a == [] {
      assert a + b == b;
      assert [] + Decode(d, b).events == Decode(d, b).events;
    } else {
      assert (a + b)[1..] == a[1..] + b;
      DecodeConcat(Feed(d, a[0]).next, a[1..], b);
    }
  }

  lemma DecodeCons(d: Decoder, b: Byte, rest: seq<Byte>)
    ensures var f := Feed(d, b);
            var r := Decode(f.next, rest);
            Decode(d, [b] + rest) == Decoded(r.last, (if f.event.Some? then [f.event.value] else []) + r.events)
  {
    assert ([b] + rest)[1..] == rest;
  }

  lemma WithoutRepliesCons(b: Byte, rest: seq<Byte>)
    ensures WithoutReplies([b] + rest) == if IsReply(b) then WithoutReplies(rest) else [b] + WithoutReplies(rest)
  {
    assert ([b] + rest)[1..] == rest;
  }

  lemma {:induction false} RepliesAreInvisible(d: Decoder, bytes: seq<Byte>)
    ensures Decode(d, bytes) == Decode(d, WithoutReplies(bytes))
    decreases |bytes|
  {
    if bytes != [] {
      var b, rest := bytes[0], bytes[1..];
      RepliesAreInvisible(Feed(d, b).next, rest);
      assert bytes == [b] + rest;
      WithoutRepliesCons(b, rest);
      DecodeCons(d, b, rest);
      DecodeCons(d, b, WithoutReplies(rest));
      hide Decode, WithoutReplies;
    }
  }

  /** Feeding up to three bytes, the last of which completes a key. */
  lemma DecodeThree(d: Decoder, a: Byte, b: Byte, c: Byte)
    ensures var x := Feed(d, a); var y := Feed(x.next, b); var z := Feed(y.next, c);
            && (x.event.Some? ==> Decode(d, [a]) == Decoded(x.next, [x.event.value]))
            && (x.event.None? && y.event.Some? ==> Decode(d, [a, b]) == Decoded(y.next, [y.event.value]))
            && (x.event.None? && y.event.None? ==>
                  Decode(d, [a, b, c]) == Decoded(z.next, if z.event.Some? then [z.event.value] else []))
  {
    var x := Feed(d, a);
    var y := Feed(x.next, b);
    DecodeCons(y.next, c, []);
    DecodeCons(x.next, b, []);
    DecodeCons(x.next, b, [c]);
    DecodeCons(d, a, []);
    DecodeCons(d, a, [b]);
    DecodeCons(d, a, [b, c]);
    assert [a] + [] == [a] && [b] + [] == [b] && [c] + [] == [c];
    assert [a] + [b] == [a, b] && [b] + [c] == [b, c] && [a] + [b, c] == [a, b, c];
  }

  lemma DecodeTwo(d: Decoder, a: Byte, b: Byte)
    ensures var x := Feed(d, a); var y := Feed(x.next, b);
            x.event.None? ==> Decode(d, [a, b]) == Decoded(y.next, if y.event.Some? then [y.event.value] else [])
  {
    var x := Feed(d, a);
    DecodeCons(x.next, b, []);
    DecodeCons(d, a, [b]);
    assert [b] + [] == [b] && [a] + [b] == [a, b];
  }

  lemma DecodeDouble(a: Code, b: Code)
    ensures Decode(IDLE, [EXTEND_TWO, a, b]) == Decoded(IDLE, [KeyEvent(Ext1(a * 256 + b), false)])
    ensures Decode(IDLE, [EXTEND_TWO, BREAK, a, BREAK, b]) == Decoded(IDLE, [KeyEvent(Ext1(a * 256 + b), true)])
  {
    assert IsCode(a) && IsCode(b);
    DecodeThree(IDLE, EXTEND_TWO, a, b);
    DecodeThree(IDLE, EXTEND_TWO, BREAK, a);
    var e := IDLE.(ext1 := true, toReceive := 2);
    assert Feed(IDLE, EXTEND_TWO) == Fed(e, None);
    assert Feed(e, a) == Fed(e.(fullcode := a, toReceive := 1), None);
    assert a * 256 % WORD_LIMIT == a * 256;
    var d := IDLE.(ext1 := true, brk := true, fullcode := a, toReceive := 1);
    assert Feed(e, BREAK) == Fed(e.(brk := true), None);
    assert Feed(e.(brk := true), a) == Fed(d, None);
    assert Decode(IDLE, [EXTEND_TWO, BREAK, a]) == Decoded(d, []);
    DecodeTwo(d, BREAK, b);
    DecodeConcat(IDLE, [EXTEND_TWO, BREAK, a], [BREAK, b]);
    assert [EXTEND_TWO, BREAK, a] + [BREAK, b] == [EXTEND_TWO, BREAK, a, BREAK, b];
  }

  lemma DecodePrintScreenDown()
    ensures Decode(IDLE, Encode(Press(PrintScreen, false))) == Decoded(IDLE, [KeyEvent(Ext0(0x127C), false)])
  {
    DecodeTwo(IDLE, EXTEND_ONE, 0x12);
    var d := IDLE.(ext0 := true, fullcode := 0x12);
    assert Decode(IDLE, [EXTEND_ONE, 0x12]) == Decoded(d, []);
    DecodeTwo(d, EXTEND_ONE, 0x7C);
    DecodeConcat(IDLE, [EXTEND_ONE, 0x12], [EXTEND_ONE, 0x7C]);
    assert [EXTEND_ONE, 0x12] + [EXTEND_ONE, 0x7C] == Encode(Press(PrintScreen, false));
  }

  lemma DecodePrintScreenUp()
    ensures Decode(IDLE, Encode(Press(PrintScreen, true))) == Decoded(IDLE, [KeyEvent(Ext0(0x7C12), true)])
  {
    DecodeThree(IDLE, EXTEND_ONE, BREAK, 0x7C);
    var d := IDLE.(ext0 := true, brk := true, fullcode := 0x7C);
    assert Decode(IDLE, [EXTEND_ONE, BREAK, 0x7C]) == Decoded(d, []);
    DecodeThree(d, EXTEND_ONE, BREAK, 0x12);
    DecodeConcat(IDLE, [EXTEND_ONE, BREAK, 0x7C], [EXTEND_ONE, BREAK, 0x12]);
    assert [EXTEND_ONE, BREAK, 0x7C] + [EXTEND_ONE, BREAK, 0x12] == Encode(Press(PrintScreen, true));
  }

  lemma DecodePlain(c: Code)
    ensures Decode(IDLE, [c]) == Decoded(IDLE, [KeyEvent(Single(c), false)])
    ensures Decode(IDLE, [BREAK, c]) == Decoded(IDLE, [KeyEvent(Single(c), true)])
  {
    assert IsCode(c);
    DecodeThree(IDLE, c, c, c);
    DecodeTwo(IDLE, BREAK, c);
    hide Decode;
  }

  lemma DecodeExtended(c: ExtendedCode)
    ensures Decode(IDLE, [EXTEND_ONE, c]) == Decoded(IDLE, [KeyEvent(Ext0(c), false)])
    ensures Decode(IDLE, [EXTEND_ONE, BREAK, c]) == Decoded(IDLE, [KeyEvent(Ext0(c), true)])
  {
    assert IsCode(c);
    DecodeTwo(IDLE, EXTEND_ONE, c);
    DecodeThree(IDLE, EXTEND_ONE, BREAK, c);
    hide Decode;
  }

  lemma DecodePress(p: Press)
    ensures Decode(IDLE, Encode(p)) == Decoded(IDLE, [EventOf(p)])
  {
    hide Decode;
    match p.key
    case Plain(c) => DecodePlain(c);
    case Extended(c) => DecodeExtended(c);
    case Double(a, b) => DecodeDouble(a, b);
    case PrintScreen => DecodePrintScreenDown(); DecodePrintScreenUp();
  }

  /** The keys pressed and released come out, in order, and the decoder is idle again, wherever ACK
      and RESEND bytes are interspersed. */
  lemma {:induction false} DecodingUndoesEncoding(ps: seq<Press>, bytes: seq<Byte>)
    requires WithoutReplies(bytes) == EncodeAll(ps)
    ensures Decode(IDLE, bytes) == Decoded(IDLE, EventsOf(ps))
  {
    RepliesAreInvisible(IDLE, bytes);
    DecodeEncoded(ps);
  }

  lemma {:induction false} DecodeEncoded(ps: seq<Press>)
    ensures Decode(IDLE, EncodeAll(ps)) == Decoded(IDLE, EventsOf(ps))
    decreases |ps|
  {
    if ps != [] {
      DecodePress(ps[0]);
      DecodeEncoded(ps[1..]);
      DecodeConcat(IDLE, Encode(ps[0]), EncodeAll(ps[1..]));
    }
  }

  /** Different key sequences are sent as different bytes. */
  lemma {:induction false} EncodingIsInjective(ps: seq<Press>, qs: seq<Press>)
    requires EncodeAll(ps) == EncodeAll(qs)
    ensures ps == qs
  {
    DecodeEncoded(ps);
    DecodeEncoded(qs);
    EventsAreInjective(ps, qs);
  }

  lemma {:induction false} EventsAreInjective(ps: seq<Press>, qs: seq<Press>)
    requires EventsOf(ps) == EventsOf(qs)
    ensures ps == qs
    decreases |ps|
  {
    if ps != [] {
      assert qs != [];
      assert EventsOf(ps)[0] == EventOf(ps[0]) && EventsOf(qs)[0] == EventOf(qs[0]);
      assert EventsOf(ps)[1..] == EventsOf(ps[1..]) && EventsOf(qs)[1..] == EventsOf(qs[1..]);
      EventIsInjective(ps[0], qs[0]);
      EventsAreInjective(ps[1..], qs[1..]);
      assert ps == [ps[0]] + ps[1..] && qs == [qs[0]] + qs[1..];
    }
  }

  lemma EventIsInjective(p: Press, q: Press)
    requires EventOf(p) == EventOf(q)
    ensures p == q
  {
    match p.key
    case Plain(_) =>
    case Extended(_) => assert !q.key.PrintScreen?;
    case PrintScreen => assert !q.key.Extended?;
    case Double(a, b) =>
      assert q.key.Double?;
      assert (a * 256 + b) / 256 == a && (q.key.first * 256 + q.key.second) / 256 == q.key.first;
  }

  /** After E0, a code byte completes a key exactly if it is neither 12 nor 7C, which begin a
      PrintScreen sequence. */
  lemma ExtendedCompletesIff(c: Code, up: bool)
    ensures var d := IDLE.(ext0 := true, brk := up);
            Feed(d, c).next == IDLE <==> c != 0x12 && c != 0x7C
  {
    assert IsCode(c);
  }
}
