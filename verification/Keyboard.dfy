/** The keyboard interrupt handler (ps2_keyboard.c) and its command ring buffer
    (ps2_device_general.c), proved to follow modules ScanCodes and CommandLink. */
module Keyboard {
  import opened Words
  import opened ScanCodes
  import opened CommandLink

  const COMMAND_QUEUE_SIZE := 32

  /** One of the command_queues: a ring of 32 bytes that holds at most 31 commands. */
  class CommandQueue {
    const buffer: array<Byte>
    var head: nat
    var tail: nat
    ghost var contents: seq<Byte>

    ghost predicate Valid()
      reads this, buffer
    {
      && buffer.Length == COMMAND_QUEUE_SIZE
      && head < COMMAND_QUEUE_SIZE && tail < COMMAND_QUEUE_SIZE
      && |contents| < COMMAND_QUEUE_SIZE
      && tail == Slot(head, |contents|)
      && forall i :: 0 <= i < |contents| ==> buffer[Slot(head, i)] == contents[i]
    }

    /** The buffer index of the i-th queued command. */
    static function Slot(head: nat, i: nat): nat {
      if head + i < COMMAND_QUEUE_SIZE then head + i else head + i - COMMAND_QUEUE_SIZE
    }

    constructor ()
      ensures Valid() && contents == [] && fresh(buffer)
    {
      buffer := new Byte[COMMAND_QUEUE_SIZE](_ => 0);
      head, tail := 0, 0;
      contents := [];
    }

    /** ps2_device_enqueue_command; the caller must not overflow the ring. */
    method Enqueue(cmd: Byte)
      requires Valid() && |contents| < COMMAND_QUEUE_SIZE - 1
      modifies this, buffer
      ensures Valid() && contents == old(contents) + [cmd]
    {
      buffer[tail] := cmd;
      tail := tail + 1;
      tail := tail % COMMAND_QUEUE_SIZE;
      contents := contents + [cmd];
    }

    /** ps2_device_send_topqueue: the byte handed to the device, if any. */
    method SendTopQueue() returns (sent: Option<Byte>)
      requires Valid()
      ensures sent == if contents == [] then None else Some(contents[0])
    {
      if head == tail {
        return None;
      }
      sent := Some(buffer[head]);
    }

    /** The 32 bytes of the ring, from the head on. */
    ghost function Ring(): (r: seq<Byte>)
      reads this, buffer
      requires Valid()
      ensures |r| == COMMAND_QUEUE_SIZE && contents <= r
    {
      seq(COMMAND_QUEUE_SIZE, i requires 0 <= i < COMMAND_QUEUE_SIZE reads this, buffer requires Valid() =>
        buffer[Slot(head, i)])
    }

    /** ps2_device_queue_top. */
    method Top() returns (cmd: Byte)
      requires Valid()
      ensures cmd == Ring()[0]
    {
      cmd := buffer[head];
    }

    /** ps2_device_queue_pop.  An empty queue then holds the other 31 bytes of the ring. */
    method Pop()
      requires Valid()
      modifies this
      ensures Valid() && contents == (if old(contents) == [] then old(Ring()) else old(contents))[1..]
      ensures Ring() == old(Ring())[1..] + [old(Ring())[0]]
    {
      if contents == [] {
        contents := Ring();
      }
      ghost var start := head;
      head := (head + 1) % COMMAND_QUEUE_SIZE;
      contents := contents[1..];
      assert forall i: nat :: i < COMMAND_QUEUE_SIZE - 1 ==> Slot(head, i) == Slot(start, i + 1);
      assert Slot(head, COMMAND_QUEUE_SIZE - 1) == start;
    }
  }

  /** Key codes the handler knows by name; the others come from the byte table. */
  datatype KeyCode =
    | KEY_NONE | KEY_PAUSE | KEY_PRTSCR
    | KEY_ALRGR | KEY_RCTRL | KEY_LGUI | KEY_RGUI | KEY_APPS | KEY_KEYPAD_SLASH | KEY_KEYPAD_ENTER
    | KEY_END | KEY_LEFT_ARROW | KEY_HOME | KEY_INSERT | KEY_DELETE | KEY_DOWN_ARROW | KEY_RIGHT_ARROW
    | KEY_UP_ARROW | KEY_PAGE_DOWN | KEY_PAGE_UP
    | TableKey(code: Byte)

  const BYTE_TO_CODE_SIZE := 128

  /** The key a frame stands for. */
  function KeyOf(f: Frame): KeyCode {
    match f
    case Single(code) => if code < BYTE_TO_CODE_SIZE then TableKey(code) else KEY_NONE
    case Ext1(full) => if full == 0x1477 then KEY_PAUSE else KEY_NONE
    case Ext0(full) =>
      if full == 0x11 then KEY_ALRGR
      else if full == 0x14 then KEY_RCTRL
      else if full == 0x1F then KEY_LGUI
      else if full == 0x27 then KEY_RGUI
      else if full == 0x2F then KEY_APPS
      else if full == 0x4A then KEY_KEYPAD_SLASH
      else if full == 0x5A then KEY_KEYPAD_ENTER
      else if full == 0x69 then KEY_END
      else if full == 0x6B then KEY_LEFT_ARROW
      else if full == 0x6C then KEY_HOME
      else if full == 0x70 then KEY_INSERT
      else if full == 0x71 then KEY_DELETE
      else if full == 0x72 then KEY_DOWN_ARROW
      else if full == 0x74 then KEY_RIGHT_ARROW
      else if full == 0x75 then KEY_UP_ARROW
      else if full == 0x7A then KEY_PAGE_DOWN
      else if full == 0x7D then KEY_PAGE_UP
      else if full == 0x127C || full == 0x7C12 then KEY_PRTSCR
      else KEY_NONE
  }

  /** PrintScreen and Pause are told apart from every other key, going down and coming up. */
  lemma SpecialKeys(p: Press)
    ensures KeyOf(EventOf(p).frame) == KEY_PRTSCR <==> p.key == PrintScreen
    ensures KeyOf(EventOf(p).frame) == KEY_PAUSE <==> p.key == PAUSE
  {
  }

  /** An ACK: a command is taken, and the next one sent. */
  lemma AckSteps(l: Link, ring: seq<Byte>)
    requires ring != []
    ensures var m := Refilled(l, ring).(retired := l.retired + 1);
            ReceiveRinged(Ringed(l, ring), Acked) ==
            Ringed(SendTop(m.(fails := 0, acked := m.acked + [m.retired - 1])), ring[1..] + [ring[0]])
  {
    hide SendTop;
  }

  /** A RESEND: at the threshold a command is taken and nothing sent; before, the same one is sent again. */
  lemma ResendSteps(l: Link, ring: seq<Byte>)
    requires ring != []
    ensures var count := (l.fails + 1) % 256;
            var m := Refilled(l, ring).(retired := l.retired + 1);
            ReceiveRinged(Ringed(l, ring), Resend) ==
            if count == RESEND_THRESHOLD then
              Ringed(m.(fails := count, dropped := m.dropped + [m.retired - 1], outstanding := false),
                     ring[1..] + [ring[0]])
            else Ringed(SendTop(l.(fails := count)), ring)
  {
    hide SendTop;
  }

  /** The handler's statics, its command queue, and the bytes handed to the device so far. */
  class Keyboard {
    const queue: CommandQueue
    var brk: bool
    var ext0: bool
    var ext1: bool
    var fullcode: Word
    var bytesToReceive: Byte
    var failCount: Byte
    ghost var wire: seq<Byte>
    ghost var link: Link

    ghost function Decoder(): ScanCodes.Decoder
      reads this
    {
      ScanCodes.Decoder(brk, ext0, ext1, fullcode, bytesToReceive)
    }

    /** The ring holds the commands not yet retired, and the wire carried the sends of the protocol. */
    ghost predicate Valid()
      reads this, queue, queue.buffer
    {
      LinkInv(link) && Agree()
    }

    /** init_ps2_keyboard: queue the commands, then send the first. */
    constructor (commands: seq<Byte>)
      requires |commands| < COMMAND_QUEUE_SIZE
      ensures Valid() && link == Begin(commands) && Decoder() == IDLE
      ensures fresh(queue) && fresh(queue.buffer)
    {
      queue := new CommandQueue();
      brk, ext0, ext1, fullcode, bytesToReceive, failCount := false, false, false, 0, 0, 0;
      wire := [];
      link := Begin(commands);
      new;
      for i := 0 to |commands|
        invariant queue.Valid() && queue.contents == commands[..i]
        invariant fresh(queue) && fresh(queue.buffer)
        invariant Decoder() == IDLE && failCount == 0 && wire == [] && link == Begin(commands)
      {
        queue.Enqueue(commands[i]);
      }
      assert queue.contents == commands[0..];
      BeginKeeps(commands);
      hide LinkInv;
      link := Link(commands, 0, 0, false, [], [], []);
      SendNext();
    }

    /** keyboard_handler for a byte that is part of the scan-code stream. */
    method HandleCode(code: Byte) returns (event: Option<KeyEvent>)
      requires !IsReply(code)
      modifies this`brk, this`ext0, this`ext1, this`fullcode, this`bytesToReceive
      ensures Fed(Decoder(), event) == Feed(old(Decoder()), code)
    {
      event := None;
      if code == BREAK {
        brk := true;
      } else if code == EXTEND_ONE {
        ext0 := true;
      } else if code == EXTEND_TWO {
        ext1 := true;
        bytesToReceive := 2;
      } else {
        fullcode := fullcode * 256 % WORD_LIMIT + code;
        if bytesToReceive != 0 {
          bytesToReceive := bytesToReceive - 1;
        }
        if bytesToReceive != 0 {
          return;
        }
        var frame;
        if ext1 {
          frame := Ext1(fullcode);
        } else if ext0 {
          if fullcode == 0x12 || fullcode == 0x7C {
            return;
          }
          frame := Ext0(fullcode);
        } else {
          frame := Single(code);
        }
        event := Some(KeyEvent(frame, brk));
        brk, ext0, ext1 := false, false, false;
        fullcode := 0;
      }
    }

    /** keyboard_handler for ACK or RSD, whether or not an answer is due. */
    method HandleReply(code: Byte)
      requires Agree() && IsReply(code)
      modifies this`failCount, this`wire, this`link, queue
      ensures Agree() && Decoder() == old(Decoder())
      ensures Ringing() == ReceiveRinged(old(Ringing()), ReplyOf(code))
    {
      if code == ACK {
        HandleAck();
      } else {
        HandleResend();
      }
    }

    method HandleAck()
      requires Agree()
      modifies this`failCount, this`wire, this`link, queue
      ensures Agree() && Ringing() == ReceiveRinged(old(Ringing()), Acked)
    {
      AckSteps(link, queue.Ring());
      hide ReceiveRinged, Refilled, SendTop;
      Retire();
      failCount := 0;
      link := link.(fails := 0, acked := link.acked + [link.retired - 1]);
      SendNext();
    }

    method HandleResend()
      requires Agree()
      modifies this`failCount, this`wire, this`link, queue
      ensures Agree() && Ringing() == ReceiveRinged(old(Ringing()), Resend)
    {
      ResendSteps(link, queue.Ring());
      hide ReceiveRinged, Refilled, SendTop;
      var count := (failCount + 1) % 256;
      if count == RESEND_THRESHOLD {
        Drop();
      } else {
        failCount := count;
        link := link.(fails := count);
        SendNext();
      }
    }

    /** At the threshold the command is taken from the ring, and nothing is sent. */
    method Drop()
      requires Agree()
      modifies this`failCount, this`link, queue
      ensures Agree() && queue.Ring() == old(queue.Ring())[1..] + [old(queue.Ring())[0]]
      ensures var m := Refilled(old(link), old(queue.Ring())).(retired := old(link.retired) + 1);
              link == m.(fails := RESEND_THRESHOLD, dropped := m.dropped + [m.retired - 1], outstanding := false)
    {
      hide Refilled;
      Retire();
      failCount := RESEND_THRESHOLD;
      link := link.(fails := RESEND_THRESHOLD, dropped := link.dropped + [link.retired - 1], outstanding := false);
    }

    /** The front of the ring is taken, whether or not a command is there. */
    method Retire()
      requires Agree()
      modifies this`link, queue
      ensures Agree() && queue.Ring() == old(queue.Ring())[1..] + [old(queue.Ring())[0]]
      ensures link == Refilled(old(link), old(queue.Ring())).(retired := old(link.retired) + 1)
    {
      link := Refilled(link, queue.Ring());
      queue.Pop();
      link := link.(retired := link.retired + 1);
    }

    /** The ring, the wire and the protocol agree. */
    ghost predicate Agree()
      reads this, queue, queue.buffer
    {
      && queue.Valid() && link.retired <= |link.commands|
      && queue.contents == link.commands[link.retired..]
      && failCount == link.fails
      && |wire| == |link.sends|
      && forall i :: 0 <= i < |wire| ==> link.sends[i] < |link.commands| && wire[i] == link.commands[link.sends[i]]
    }

    /** The protocol, and the bytes of the ring. */
    ghost function Ringing(): (k: Ringed)
      reads this, queue, queue.buffer
      requires queue.Valid()
      ensures k.ring != []
    {
      Ringed(link, queue.Ring())
    }

    method SendNext()
      requires Agree()
      modifies this`wire, this`link
      ensures Agree() && link == SendTop(old(link))
    {
      var sent := queue.SendTopQueue();
      link := SendTop(link);
      if sent.Some? {
        wire := wire + [sent.value];
      }
    }

    /** keyboard_handler for any byte. */
    method HandleByte(code: Byte) returns (event: Option<KeyEvent>)
      requires Agree()
      modifies this, queue
      ensures Agree() && Fed(Decoder(), event) == Feed(old(Decoder()), code)
      ensures Ringing() == if IsReply(code) then ReceiveRinged(old(Ringing()), ReplyOf(code)) else old(Ringing())
    {
      event := None;
      if IsReply(code) {
        HandleReply(code);
      } else {
        event := HandleCode(code);
      }
    }

    /** Any stream of interrupts, with key codes and replies interspersed, due or not: the events are those of
        the decoder, and queue and sends are those of the replies taken one by one.  When the replies are due,
        that is an execution of the protocol. */
    method HandleBytes(bytes: seq<Byte>) returns (events: seq<KeyEvent>)
      requires Agree()
      modifies this, queue
      ensures Agree() && Decoded(Decoder(), events) == Decode(old(Decoder()), bytes)
      ensures Ringing() == ReceiveEach(old(Ringing()), RepliesIn(bytes))
      ensures old(Valid()) && AllDue(old(link), RepliesIn(bytes)) ==>
                Valid() && Answers(old(link), RepliesIn(bytes), link)
    {
      events := [];
      for i := 0 to |bytes|
        invariant Agree()
        invariant Decoded(Decoder(), events) == Decode(old(Decoder()), bytes[..i])
        invariant Ringing() == ReceiveEach(old(Ringing()), RepliesIn(bytes[..i]))
      {
        StreamStep(old(Decoder()), old(Ringing()), bytes, i);
        var event := HandleByte(bytes[i]);
        if event.Some? {
          events := events + [event.value];
        }
      }
      assert bytes[..|bytes|] == bytes;
      if old(Valid()) && AllDue(old(link), RepliesIn(bytes)) {
        DueRepliesAnswer(old(Ringing()), RepliesIn(bytes));
      }
    }
  }

  function ReplyOf(code: Byte): Reply { if code == ACK then Acked else Resend }

  function ReplyIn(b: Byte): seq<Reply> { if IsReply(b) then [ReplyOf(b)] else [] }

  /** The replies in a stream of bytes. */
  function RepliesIn(bytes: seq<Byte>): seq<Reply>
    decreases |bytes|
  {
    if bytes == [] then [] else ReplyIn(bytes[0]) + RepliesIn(bytes[1..])
  }

  lemma RepliesInOne(b: Byte)
    ensures RepliesIn([b]) == ReplyIn(b)
  {
    assert [b][1..] == [] && ReplyIn(b) + [] == ReplyIn(b);
  }

  lemma {:induction false} RepliesInSnoc(bytes: seq<Byte>, b: Byte)
    ensures RepliesIn(bytes + [b]) == RepliesIn(bytes) + ReplyIn(b)
    decreases |bytes|
  {
    hide ReplyIn;
    if bytes == [] {
      assert bytes + [b] == [b];
      RepliesInOne(b);
    } else {
      assert (bytes + [b])[1..] == bytes[1..] + [b];
      RepliesInSnoc(bytes[1..], b);
      Join3(ReplyIn(bytes[0]), RepliesIn(bytes[1..]), ReplyIn(b));
    }
  }

  /** What one byte of a stream does to the decoder and to the protocol. */
  lemma StreamStep(d: ScanCodes.Decoder, k: Ringed, bytes: seq<Byte>, i: nat)
    requires i < |bytes| && k.ring != []
    ensures var x := Decode(d, bytes[..i]);
            var f := Feed(x.last, bytes[i]);
            Decode(d, bytes[..i + 1]) == Decoded(f.next, x.events + if f.event.Some? then [f.event.value] else [])
    ensures var y := ReceiveEach(k, RepliesIn(bytes[..i]));
            && y.ring != []
            && ReceiveEach(k, RepliesIn(bytes[..i + 1])) ==
               if IsReply(bytes[i]) then ReceiveRinged(y, ReplyOf(bytes[i])) else y
  {
    assert bytes[..i + 1] == bytes[..i] + [bytes[i]];
    DecodeSnoc(d, bytes[..i], bytes[i]);
    RepliesInSnoc(bytes[..i], bytes[i]);
    ReceiveEachSnoc(k, RepliesIn(bytes[..i]), ReplyOf(bytes[i]));
    assert RepliesIn(bytes[..i]) + [] == RepliesIn(bytes[..i]);
    hide Decode, Feed, RepliesIn, ReceiveEach, ReceiveRinged;
  }

  /** One more byte at the end of a stream. */
  lemma DecodeSnoc(d: ScanCodes.Decoder, bytes: seq<Byte>, b: Byte)
    ensures var x := Decode(d, bytes);
            var f := Feed(x.last, b);
            Decode(d, bytes + [b]) == Decoded(f.next, x.events + if f.event.Some? then [f.event.value] else [])
  {
    var x := Decode(d, bytes);
    DecodeConcat(d, bytes, [b]);
    DecodeCons(x.last, b, []);
    assert [b] + [] == [b];
  }
}
