/** The delivery of queued commands to a PS/2 device that answers each byte sent with ACK or RESEND
    (ps2_keyboard.c, ps2_device_general.c), as a protocol over the indices of the commands. */
module CommandLink {
  import opened Words

  const RESEND_THRESHOLD := 3

  /** `retired` commands have left the queue; `sends` lists the index of every byte sent. */
  datatype Link = Link(
    commands: seq<Byte>, retired: nat, fails: Byte, outstanding: bool,
    sends: seq<nat>, acked: seq<nat>, dropped: seq<nat>)

  datatype Reply = Acked | Resend

  /** ps2_device_send_topqueue: nothing is sent when the queue is empty. */
  function SendTop(l: Link): Link {
    if l.retired < |l.commands| then l.(sends := l.sends + [l.retired], outstanding := true)
    else l.(outstanding := false)
  }

  /** The commands are queued and the first one is sent. */
  function Begin(commands: seq<Byte>): Link {
    SendTop(Link(commands, 0, 0, false, [], [], []))
  }

  /** The ACK and RSD cases of keyboard_handler, for a queue that is not empty.  At the threshold the command is
      dropped, and the handler returns without sending the next one. */
  function Receive(l: Link, r: Reply): Link {
    match r
    case Acked => SendTop(l.(fails := 0, retired := l.retired + 1, acked := l.acked + [l.retired]))
    case Resend =>
      var fails := (l.fails + 1) % 256;
      if fails == RESEND_THRESHOLD then
        l.(fails := fails, retired := l.retired + 1, dropped := l.dropped + [l.retired], outstanding := false)
      else SendTop(l.(fails := fails))
  }

  /** The reply takes a command from the queue. */
  predicate Pops(l: Link, r: Reply) {
    r.Acked? || (l.fails + 1) % 256 == RESEND_THRESHOLD
  }

  /** Taking a command from an empty ring makes it full of old bytes, as if they all had been queued again. */
  function Refilled(l: Link, ring: seq<Byte>): Link {
    if l.retired >= |l.commands| then l.(commands := l.commands + ring) else l
  }

  /** Any reply at any time, for a queue kept in a ring that holds these bytes from its head on. */
  function ReceiveAny(l: Link, r: Reply, ring: seq<Byte>): Link {
    if Pops(l, r) then Receive(Refilled(l, ring), r)
    else Receive(l, r)
  }

  /** The protocol together with the bytes of the ring, from its head on. */
  datatype Ringed = Ringed(link: Link, ring: seq<Byte>)

  /** A reply that takes a command moves the head of the ring. */
  function ReceiveRinged(k: Ringed, r: Reply): (k': Ringed)
    requires k.ring != []
    ensures |k'.ring| == |k.ring|
  {
    Ringed(ReceiveAny(k.link, r, k.ring), if Pops(k.link, r) then k.ring[1..] + [k.ring[0]] else k.ring)
  }

  /** Any replies at any time, one after the other. */
  function ReceiveEach(k: Ringed, rs: seq<Reply>): Ringed
    requires k.ring != []
    decreases |rs|
  {
    if rs == [] then k else ReceiveEach(ReceiveRinged(k, rs[0]), rs[1..])
  }

  /** l' is reached from l when the device answers its outstanding sends with rs, in this order. */
  ghost predicate Answers(l: Link, rs: seq<Reply>, l': Link)
    decreases |rs|
  {
    if rs == [] then l == l'
    else l.outstanding && Answers(Receive(l, rs[0]), rs[1..], l')
  }

  /** No reply arrives when none is due. */
  predicate AllDue(l: Link, rs: seq<Reply>)
    decreases |rs|
  {
    rs == [] || (l.outstanding && AllDue(Receive(l, rs[0]), rs[1..]))
  }

  lemma {:induction false} AllDueIff(l: Link, rs: seq<Reply>)
    ensures AllDue(l, rs) ==> exists l' :: Answers(l, rs, l')
    ensures (exists l' :: Answers(l, rs, l')) ==> AllDue(l, rs)
    decreases |rs|
  {
    if rs == [] {
      assert Answers(l, rs, l);
    } else {
      AllDueIff(Receive(l, rs[0]), rs[1..]);
      if AllDue(l, rs) {
        var l' :| Answers(Receive(l, rs[0]), rs[1..], l');
        assert Answers(l, rs, l');
      }
      if l' :| Answers(l, rs, l') {
        assert Answers(Receive(l, rs[0]), rs[1..], l');
      }
    }
  }

  function UpTo(n: nat): (s: seq<nat>)
    ensures |s| == n && forall i :: 0 <= i < n ==> s[i] == i
  {
    seq(n, i => i)
  }

  /** How often command k was sent. */
  function Times(sends: seq<nat>, k: nat): nat {
    if sends == [] then 0 else Times(sends[..|sends| - 1], k) + if sends[|sends| - 1] == k then 1 else 0
  }

  lemma TimesSnoc(sends: seq<nat>, x: nat, k: nat)
    ensures Times(sends + [x], k) == Times(sends, k) + if x == k then 1 else 0
  {
    assert (sends + [x])[..|sends|] == sends;
  }

  /** Sends never go back and never skip a command. */
  ghost predicate InOrder(sends: seq<nat>) {
    && (sends != [] ==> sends[0] == 0)
    && forall i :: 0 < i < |sends| ==> sends[i - 1] <= sends[i] <= sends[i - 1] + 1
  }

  ghost predicate LinkInv(l: Link) {
    && l.retired <= |l.commands|
    && InOrder(l.sends)
    && (l.outstanding ==>
          && l.retired < |l.commands| && l.fails < RESEND_THRESHOLD
          && l.sends != [] && l.sends[|l.sends| - 1] == l.retired
          && Times(l.sends, l.retired) == l.fails + 1)
    && (!l.outstanding ==>
          && (if l.retired == 0 then l.sends == [] else l.sends != [] && l.sends[|l.sends| - 1] == l.retired - 1)
          && (l.dropped == [] ==> l.retired == |l.commands|))
    && (forall k: nat :: k < l.retired ==> 1 <= Times(l.sends, k) <= RESEND_THRESHOLD)
    && (forall k: nat :: (if l.outstanding then k > l.retired else k >= l.retired) ==> Times(l.sends, k) == 0)
    && (if l.dropped == [] then l.acked == UpTo(l.retired)
        else
          && l.retired > 0 && l.dropped == [l.retired - 1] && l.acked == UpTo(l.retired - 1)
          && !l.outstanding && Times(l.sends, l.retired - 1) == RESEND_THRESHOLD)
  }

  lemma BeginKeeps(commands: seq<Byte>)
    ensures LinkInv(Begin(commands))
  {
    var l := Begin(commands);
    if commands == [] {
      assert l.sends == [] && forall k: nat :: Times(l.sends, k) == 0;
    } else {
      assert l.sends == [] + [0] == [0];
      forall k: nat ensures Times(l.sends, k) == if k == 0 then 1 else 0 {
        TimesSnoc([], 0, k);
      }
    }
    assert UpTo(0) == [];
    hide Times, UpTo;
  }

  lemma ReceiveKeeps(l: Link, r: Reply)
    requires LinkInv(l) && l.outstanding
    ensures LinkInv(Receive(l, r))
  {
    var l' := Receive(l, r);
    assert UpTo(l.retired) + [l.retired] == UpTo(l.retired + 1);
    SendsStep(l, l');
    hide Times, UpTo;
  }

  /** What one answer does to the log of sends. */
  lemma SendsStep(l: Link, l': Link)
    requires LinkInv(l) && l.outstanding
    requires l'.sends == l.sends || (l'.outstanding && l'.sends == l.sends + [l'.retired])
    requires l'.retired == l.retired || l'.retired == l.retired + 1
    requires l'.outstanding ==> l'.sends != l.sends
    requires !l'.outstanding ==> l'.retired == l.retired + 1
    requires l'.retired == l.retired ==> l.fails + 1 < RESEND_THRESHOLD
    ensures InOrder(l'.sends)
    ensures l'.outstanding ==>
              Times(l'.sends, l'.retired) == if l'.retired == l.retired then Times(l.sends, l.retired) + 1 else 1
    ensures !l'.outstanding ==> Times(l'.sends, l.retired) == Times(l.sends, l.retired)
    ensures forall k: nat :: k < l'.retired ==> 1 <= Times(l'.sends, k) <= RESEND_THRESHOLD
    ensures forall k: nat :: (if l'.outstanding then k > l'.retired else k >= l'.retired) ==> Times(l'.sends, k) == 0
  {
    forall k: nat
      ensures l'.outstanding ==> Times(l'.sends, k) == Times(l.sends, k) + if k == l'.retired then 1 else 0
    {
      TimesSnoc(l.sends, l'.retired, k);
    }
    hide Times;
  }

  lemma {:induction false} AnswersKeep(l: Link, rs: seq<Reply>, l': Link)
    requires LinkInv(l) && Answers(l, rs, l')
    ensures LinkInv(l') && l'.commands == l.commands
    decreases |rs|
  {
    if rs != [] {
      ReceiveKeeps(l, rs[0]);
      AnswersKeep(Receive(l, rs[0]), rs[1..], l');
    }
  }

  /** Over every run of answers: commands are first sent in the order they were queued, none is sent
      more than three times, each ACK retires one, and what is retired was acknowledged, except that
      the last one may have been dropped after exactly three sends. */
  lemma DeliveryIsOrdered(commands: seq<Byte>, rs: seq<Reply>, l: Link)
    requires Answers(Begin(commands), rs, l)
    ensures InOrder(l.sends)
    ensures forall k: nat :: Times(l.sends, k) <= 3
    ensures l.retired == |l.acked| + |l.dropped| && l.retired <= |commands|
    ensures l.acked == UpTo(|l.acked|) && |l.dropped| <= 1
    ensures l.dropped != [] ==>
              && l.dropped == [|l.acked|] && !l.outstanding
              && Times(l.sends, |l.acked|) == 3
  {
    BeginKeeps(commands);
    AnswersKeep(Begin(commands), rs, l);
    assert |UpTo(l.retired)| == l.retired;
    if l.dropped != [] {
      assert |UpTo(l.retired - 1)| == l.retired - 1;
    }
    hide Times, UpTo, Answers, Begin, InOrder;
  }

  function AckCount(rs: seq<Reply>): nat
    decreases |rs|
  {
    if rs == [] then 0 else AckCount(rs[..|rs| - 1]) + if rs[|rs| - 1].Acked? then 1 else 0
  }

  /** The number of RESEND answers since the last ACK. */
  function Trailing(rs: seq<Reply>): nat
    decreases |rs|
  {
    if rs == [] || rs[|rs| - 1].Acked? then 0 else Trailing(rs[..|rs| - 1]) + 1
  }

  lemma {:induction false} AnswersSnoc(l: Link, rs: seq<Reply>, r: Reply, l': Link)
    requires Answers(l, rs + [r], l')
    ensures exists m :: Answers(l, rs, m) && m.outstanding && Receive(m, r) == l'
    decreases |rs|
  {
    if rs == [] {
      assert (rs + [r])[1..] == [];
      assert Answers(l, rs, l);
    } else {
      var l1 := Receive(l, rs[0]);
      assert (rs + [r])[1..] == rs[1..] + [r];
      AnswersSnoc(l1, rs[1..], r, l');
      var m :| Answers(l1, rs[1..], m) && m.outstanding && Receive(m, r) == l';
      assert Answers(l, rs, m);
    }
  }

  lemma RepliesSnoc(rs: seq<Reply>, r: Reply)
    ensures Trailing(rs + [r]) == if r.Acked? then 0 else Trailing(rs) + 1
    ensures AckCount(rs + [r]) == AckCount(rs) + if r.Acked? then 1 else 0
  {
    assert (rs + [r])[..|rs|] == rs;
  }

  lemma WhileOutstanding(l: Link)
    requires LinkInv(l) && l.outstanding
    ensures l.fails < RESEND_THRESHOLD && l.dropped == []
  {
  }

  /** Exactly one command is retired by each ACK, and one is dropped exactly when three RESENDs
      arrive in a row. */
  lemma {:induction false} DropsIffThreeResends(commands: seq<Byte>, rs: seq<Reply>, l: Link)
    requires Answers(Begin(commands), rs, l)
    ensures |l.acked| == AckCount(rs)
    ensures l.dropped != [] <==> Trailing(rs) == 3
    ensures Trailing(rs) <= 3 && l.fails == Trailing(rs)
    decreases |rs|
  {
    if rs == [] {
      return;
    }
    var init, r := rs[..|rs| - 1], rs[|rs| - 1];
    assert rs == init + [r];
    AnswersSnoc(Begin(commands), init, r, l);
    var m :| Answers(Begin(commands), init, m) && m.outstanding && Receive(m, r) == l;
    DropsIffThreeResends(commands, init, m);
    BeginKeeps(commands);
    AnswersKeep(Begin(commands), init, m);
    WhileOutstanding(m);
    DropStep(m, init, r);
  }

  lemma DropStep(m: Link, rs: seq<Reply>, r: Reply)
    requires m.outstanding && m.dropped == [] && m.fails < RESEND_THRESHOLD
    requires m.fails == Trailing(rs) && |m.acked| == AckCount(rs)
    ensures var l := Receive(m, r);
            && |l.acked| == AckCount(rs + [r]) && l.fails == Trailing(rs + [r]) <= RESEND_THRESHOLD
            && (l.dropped != [] <==> Trailing(rs + [r]) == RESEND_THRESHOLD)
  {
    RepliesSnoc(rs, r);
  }

  /** Once no answer is due, either every command was acknowledged, or one was dropped; then the
      commands behind it stay queued and are never sent. */
  lemma QuietMeansDoneOrDropped(commands: seq<Byte>, rs: seq<Reply>, l: Link)
    requires Answers(Begin(commands), rs, l) && !l.outstanding
    ensures l.acked == UpTo(|commands|) <==> Trailing(rs) < 3
    ensures Trailing(rs) == 3 ==>
              && l.dropped == [l.retired - 1]
              && forall k: nat :: l.retired <= k ==> Times(l.sends, k) == 0
    ensures forall rs', l' :: Answers(l, rs', l') ==> rs' == [] && l' == l
  {
    BeginKeeps(commands);
    AnswersKeep(Begin(commands), rs, l);
    DropsIffThreeResends(commands, rs, l);
    if l.dropped != [] {
      assert |UpTo(l.retired - 1)| < |UpTo(|commands|)|;
    }
    hide Times, UpTo, InOrder, Begin;
  }

  /** So delivery of everything is not guaranteed: with two commands queued, three RESENDs drop the
      first and leave the second one unsent. */
  lemma SecondCommandIsStranded(commands: seq<Byte>)
    requires |commands| >= 2
    ensures exists l :: Answers(Begin(commands), [Resend, Resend, Resend], l)
              && !l.outstanding && l.retired == 1 && Times(l.sends, 1) == 0
  {
    var l0 := Begin(commands);
    var l1 := Receive(l0, Resend);
    var l2 := Receive(l1, Resend);
    var l3 := Receive(l2, Resend);
    assert [Resend, Resend, Resend][1..] == [Resend, Resend];
    assert [Resend, Resend][1..] == [Resend];
    assert [Resend][1..] == [];
    assert Answers(l3, [], l3);
    assert Answers(l2, [Resend], l3);
    assert Answers(l1, [Resend, Resend], l3);
    assert Answers(l0, [Resend, Resend, Resend], l3);
    QuietMeansDoneOrDropped(commands, [Resend, Resend, Resend], l3);
    assert Trailing([Resend, Resend, Resend]) == 3 by {
      assert [Resend, Resend, Resend][..2] == [Resend, Resend];
      assert [Resend, Resend][..1] == [Resend];
      assert [Resend][..0] == [];
    }
  }

  lemma AckOnEmpty(l: Link, ring: seq<Byte>)
    requires l.retired == |l.commands| && |ring| >= 2
    ensures var l' := ReceiveAny(l, Acked, ring);
            && l'.commands == l.commands + ring && l'.sends == l.sends + [|l.commands| + 1] && l'.outstanding
  {
  }

  lemma AckOnWaiting(l: Link, ring: seq<Byte>)
    requires l.retired < |l.commands|
    ensures ReceiveAny(l, Acked, ring).acked == l.acked + [l.retired]
    ensures ReceiveAny(l, Acked, ring).commands == l.commands
  {
  }

  /** The device must indeed answer only what was sent.  An ACK that comes after everything was acknowledged
      makes the driver send an old byte of the ring; one that comes after a drop retires a command never sent. */
  lemma UnexpectedAck(commands: seq<Byte>, rs: seq<Reply>, l: Link, ring: seq<Byte>)
    requires Answers(Begin(commands), rs, l) && !l.outstanding && |ring| >= 2
    ensures l.retired == |l.commands| ==>
              var l' := ReceiveAny(l, Acked, ring);
              l'.commands == l.commands + ring && l'.sends == l.sends + [|l.commands| + 1] && l'.outstanding
    ensures l.retired < |l.commands| ==>
              ReceiveAny(l, Acked, ring).acked == l.acked + [l.retired] && Times(l.sends, l.retired) == 0
    ensures l.commands == commands && l.retired <= |l.commands|
  {
    hide *;
    BeginKeeps(commands);
    AnswersKeep(Begin(commands), rs, l);
    BeginCommands(commands);
    Quiet(l);
    if l.retired == |l.commands| {
      AckOnEmpty(l, ring);
    } else {
      AckOnWaiting(l, ring);
    }
  }

  lemma BeginCommands(commands: seq<Byte>)
    ensures Begin(commands).commands == commands
  {
  }

  lemma Quiet(l: Link)
    requires LinkInv(l) && !l.outstanding
    ensures Times(l.sends, l.retired) == 0 && l.retired <= |l.commands|
  {
    hide Times, UpTo, InOrder;
  }

  /** While a reply is due the queue is not empty, and the bytes of the ring do not matter. */
  lemma DueReply(l: Link, r: Reply, ring: seq<Byte>)
    requires LinkInv(l) && l.outstanding
    ensures ReceiveAny(l, r, ring) == Receive(l, r) && LinkInv(Receive(l, r))
  {
    ReceiveKeeps(l, r);
    assert l.retired < |l.commands|;
    hide LinkInv, Receive;
  }

  /** Replies that are all due are an execution of the protocol, whatever the ring holds. */
  lemma {:induction false} DueRepliesAnswer(k: Ringed, rs: seq<Reply>)
    requires LinkInv(k.link) && AllDue(k.link, rs) && k.ring != []
    ensures LinkInv(ReceiveEach(k, rs).link) && Answers(k.link, rs, ReceiveEach(k, rs).link)
    decreases |rs|
  {
    hide LinkInv, Receive, ReceiveAny;
    if rs != [] {
      DueReply(k.link, rs[0], k.ring);
      DueRepliesAnswer(ReceiveRinged(k, rs[0]), rs[1..]);
    }
  }

  lemma {:induction false} ReceiveEachSnoc(k: Ringed, rs: seq<Reply>, r: Reply)
    requires k.ring != []
    ensures ReceiveEach(k, rs).ring != [] && ReceiveEach(k, rs + [r]) == ReceiveRinged(ReceiveEach(k, rs), r)
    decreases |rs|
  {
    hide ReceiveRinged;
    if rs == [] {
      assert rs + [r] == [r] && [r][1..] == [];
    } else {
      assert (rs + [r])[1..] == rs[1..] + [r];
      ReceiveEachSnoc(ReceiveRinged(k, rs[0]), rs[1..], r);
    }
  }
}
