/** The bytes of every key the keyboard handler knows, written from the key to its bytes, and what the handler makes
    of them (ps2_keyboard.c). */
module KeyTable {
  import opened Words
  import opened ScanCodes
  import opened CommandLink
  import opened Keyboard

  /** A key that E0 announces. */
  function Announced(code: Byte, up: bool): seq<Byte> { if up then [0xE0, 0xF0, code] else [0xE0, code] }

  /** What the keyboard sends for a key going down, or up. */
  function KeyBytes(k: KeyCode, up: bool): seq<Byte> {
    match k
    case KEY_ALRGR => Announced(0x11, up)
    case KEY_RCTRL => Announced(0x14, up)
    case KEY_LGUI => Announced(0x1F, up)
    case KEY_RGUI => Announced(0x27, up)
    case KEY_APPS => Announced(0x2F, up)
    case KEY_KEYPAD_SLASH => Announced(0x4A, up)
    case KEY_KEYPAD_ENTER => Announced(0x5A, up)
    case KEY_END => Announced(0x69, up)
    case KEY_LEFT_ARROW => Announced(0x6B, up)
    case KEY_HOME => Announced(0x6C, up)
    case KEY_INSERT => Announced(0x70, up)
    case KEY_DELETE => Announced(0x71, up)
    case KEY_DOWN_ARROW => Announced(0x72, up)
    case KEY_RIGHT_ARROW => Announced(0x74, up)
    case KEY_UP_ARROW => Announced(0x75, up)
    case KEY_PAGE_DOWN => Announced(0x7A, up)
    case KEY_PAGE_UP => Announced(0x7D, up)
    case KEY_PRTSCR => if up then [0xE0, 0xF0, 0x7C, 0xE0, 0xF0, 0x12] else [0xE0, 0x12, 0xE0, 0x7C]
    case KEY_PAUSE => if up then [0xE1, 0xF0, 0x14, 0xF0, 0x77] else [0xE1, 0x14, 0x77]
    case TableKey(code) => if up then [0xF0, code] else [code]
    case KEY_NONE => []
  }

  /** The keys there are; the table of single bytes has 128 entries. */
  predicate IsKey(k: KeyCode) { k != KEY_NONE && (k.TableKey? ==> k.code < 128) }

  datatype Stroke = Stroke(key: KeyCode, up: bool)

  function SentFor(strokes: seq<Stroke>): seq<Byte>
    decreases |strokes|
  {
    if strokes == [] then [] else KeyBytes(strokes[0].key, strokes[0].up) + SentFor(strokes[1..])
  }

  function StrokeOf(e: KeyEvent): Stroke { Stroke(KeyOf(e.frame), e.brk) }

  /** The answers to commands are FA and FE. */
  function WithoutAnswers(bytes: seq<Byte>): seq<Byte>
    decreases |bytes|
  {
    if bytes == [] then []
    else if bytes[0] == 0xFA || bytes[0] == 0xFE then WithoutAnswers(bytes[1..])
    else [bytes[0]] + WithoutAnswers(bytes[1..])
  }

  lemma {:induction false} AnswersAreReplies(bytes: seq<Byte>)
    ensures WithoutAnswers(bytes) == WithoutReplies(bytes)
    decreases |bytes|
  {
    if bytes != [] {
      AnswersAreReplies(bytes[1..]);
      assert [] + WithoutReplies(bytes[1..]) == WithoutReplies(bytes[1..]);
    }
  }

  /** FA is the acknowledgement, FE the request to send again, and no other byte is a reply. */
  lemma RepliesAreFaAndFe(b: Byte)
    ensures RepliesIn([b]) == if b == 0xFA then [Acked] else if b == 0xFE then [Resend] else []
  {
    var none: seq<Byte> := [];
    assert [b][1..] == none && RepliesIn(none) == [];
  }

  predicate IsAnnounced(k: KeyCode) { IsKey(k) && k != KEY_PRTSCR && k != KEY_PAUSE && !k.TableKey? }

  lemma AnnouncedCode(k: KeyCode)
    requires IsAnnounced(k)
    ensures KeyBytes(k, false) == [0xE0, KeyBytes(k, false)[1]]
    ensures var c := KeyBytes(k, false)[1]; IsCode(c) && c != 0x12 && c != 0x7C
  {
  }

  function PressOf(k: KeyCode, up: bool): Press
    requires IsKey(k)
  {
    if k == KEY_PRTSCR then Press(PrintScreen, up)
    else if k == KEY_PAUSE then Press(PAUSE, up)
    else if k.TableKey? then (assert IsCode(k.code); Press(Plain(k.code), up))
    else (AnnouncedCode(k); Press(Extended(KeyBytes(k, false)[1]), up))
  }

  lemma PressHasBytes(k: KeyCode, up: bool)
    requires IsKey(k)
    ensures Encode(PressOf(k, up)) == KeyBytes(k, up)
    ensures StrokeOf(EventOf(PressOf(k, up))) == Stroke(k, up)
  {
  }

  /** Every sequence of keys going down and up is recognised from its bytes, wherever answers to commands are
      interspersed, and the handler is then where it began. */
  lemma {:induction false} KeysAreRecognised(strokes: seq<Stroke>, bytes: seq<Byte>)
    requires forall i :: 0 <= i < |strokes| ==> IsKey(strokes[i].key)
    requires WithoutAnswers(bytes) == SentFor(strokes)
    ensures var d := Decode(IDLE, bytes);
            && d.last == IDLE && |d.events| == |strokes|
            && forall i :: 0 <= i < |strokes| ==> StrokeOf(d.events[i]) == strokes[i]
  {
    AnswersAreReplies(bytes);
    RepliesAreInvisible(IDLE, bytes);
    SentIsRecognised(strokes);
  }

  lemma {:induction false} SentIsRecognised(strokes: seq<Stroke>)
    requires forall i :: 0 <= i < |strokes| ==> IsKey(strokes[i].key)
    ensures var d := Decode(IDLE, SentFor(strokes));
            && d.last == IDLE && |d.events| == |strokes|
            && forall i :: 0 <= i < |strokes| ==> StrokeOf(d.events[i]) == strokes[i]
    decreases |strokes|
  {
    if strokes != [] {
      var s := strokes[0];
      hide KeyBytes, PressOf, Encode, EventOf, KeyOf, StrokeOf, Decode, IsKey;
      PressHasBytes(s.key, s.up);
      DecodePress(PressOf(s.key, s.up));
      SentIsRecognised(strokes[1..]);
      DecodeConcat(IDLE, KeyBytes(s.key, s.up), SentFor(strokes[1..]));
    }
  }

  /** Whatever else a keyboard sends is no key: only the bytes of the table stand for one. */
  lemma OtherBytesAreNoKey(p: Press)
    ensures var k := KeyOf(EventOf(p).frame);
            k != KEY_NONE <==> exists k' :: IsKey(k') && Encode(p) == KeyBytes(k', p.up)
  {
    var k := KeyOf(EventOf(p).frame);
    if k != KEY_NONE {
      KeyHasBytes(p);
    } else if k' :| IsKey(k') && Encode(p) == KeyBytes(k', p.up) {
      PressHasBytes(k', p.up);
      SameBytes(p, PressOf(k', p.up));
    }
  }

  lemma SameBytes(p: Press, q: Press)
    requires Encode(p) == Encode(q)
    ensures EventOf(p) == EventOf(q)
  {
    hide *;
    DecodePress(p);
    DecodePress(q);
    assert EventOf(p) == [EventOf(p)][0];
  }

  lemma KeyHasBytes(p: Press)
    requires KeyOf(EventOf(p).frame) != KEY_NONE
    ensures var k := KeyOf(EventOf(p).frame); IsKey(k) && Encode(p) == KeyBytes(k, p.up)
  {
    if p.key.Double? {
      var a: int, b: int := p.key.first, p.key.second;
      assert (a * 256 + b) / 256 == a;
    }
  }
}
