/** One connection end to end: the server's sender, a network that loses,
    duplicates and reorders, and the receiver tcp_recv of src/user/tcp.h. */
module TcpSystem {
  import opened Arith
  import opened Bytes
  import opened Tcp

  /** The fields of a tcp_conn_t that tcp_recv changes, and what it has handed over. */
  datatype Receiver = Receiver(rcvNxt: u32, delivered: seq<byte>, peerClosed: bool)

  /** tcp_recv on one segment from its peer. */
  function Take(r: Receiver, seg: Segment, maxLen: nat): Receiver {
    if r.peerClosed || seg.seqno != r.rcvNxt then r
    else
      var n := Min(|seg.data|, maxLen);
      Receiver(Add32(Add32(r.rcvNxt, n), if seg.fin then 1 else 0), r.delivered + seg.data[..n], seg.fin)
  }

  /** Whether tcp_recv answers the segment with an ACK of its new `rcvNxt`. */
  predicate Answers(r: Receiver, seg: Segment, maxLen: nat) {
    !r.peerClosed && seg.seqno == r.rcvNxt && (Min(|seg.data|, maxLen) > 0 || seg.fin)
  }

  /** A segment that was sent at an offset in the stream; the SYN has offset -1. */
  datatype Sent = Sent(offset: int, seg: Segment)

  /** `accepted` are all bytes taken by tcp_mux_send; `wire` all segments ever
      sent to the receiver, `acks` all acknowledgement numbers it ever sent. */
  datatype System = System(slot: Slot, isn: u32, accepted: seq<byte>, wire: set<Sent>, receiver: Receiver,
        acks: set<u32>)

  /** Steps: calls of the server, a segment for the server from anywhere, and
      the network handing any segment ever sent to the receiver. */
  datatype Step =
    | Send(data: seq<byte>, tick: nat)
    | Close(tick: nat)
    | Timers(now: nat)
    | Arrive(seg: Segment, tick: nat)
    | Deliver(sent: Sent, maxLen: nat)

  function Seqno(isn: u32, offset: int): u32 {
    (isn + 1 + offset) % U32_LIMIT
  }

  ghost function Outcome(sys: System, step: Step): Effect
    requires Fits(sys.slot) && !step.Deliver?
  {
    match step
    case Send(data, tick) => Tcp.Send(sys.slot, data, tick)
    case Close(tick) => Tcp.Close(sys.slot, tick)
    case Timers(now) => Sweep(sys.slot, now)
    case Arrive(seg, tick) => Receive(sys.slot, seg, tick)
  }

  ghost function Record(sys: System, e: Effect, accepted: seq<byte>): System {
    var sys' := sys.(slot := e.slot, accepted := accepted);
    sys'.(wire := sys.wire + set seg | seg in e.sent :: Sent(BaseOf(e.slot, accepted), seg))
  }

  ghost function Apply(sys: System, step: Step): System
    requires Fits(sys.slot)
  {
    if step.Deliver? then
      if step.sent !in sys.wire then sys
      else
        var r := Take(sys.receiver, step.sent.seg, step.maxLen);
        sys.(receiver := r,
             acks := sys.acks + if Answers(sys.receiver, step.sent.seg, step.maxLen) then {r.rcvNxt} else {})
    else
      Record(sys, Outcome(sys, step),
             if step.Send? && Accepts(sys.slot, step.data) then sys.accepted + step.data else sys.accepted)
  }

  // ----- the sender

  function BaseOf(s: Slot, accepted: seq<byte>): int {
    |accepted| - |s.out| + s.acked
  }

  /** The queue is the end of the accepted bytes, numbered from the base. */
  ghost predicate Queued(s: Slot, isn: u32, accepted: seq<byte>) {
    Fits(s) && s.state != SYN_RCVD && s.acked == 0 &&
    |s.out| <= |accepted| && s.out == accepted[|accepted| - |s.out|..] &&
    s.sndNxt == Seqno(isn, BaseOf(s, accepted)) &&
    (s.state == CLOSING ==> s.out == [])
  }

  /** What is queued is always on its way. */
  ghost predicate Sender(s: Slot, isn: u32, accepted: seq<byte>) {
    Queued(s, isn, accepted) && (s.state == ESTABLISHED && s.inflight == 0 ==> s.out == [])
  }

  /** A segment sent at `offset` carries exactly the bytes of the stream there, and
      a FIN comes after the last of them. */
  ghost predicate Genuine(s: Slot, isn: u32, accepted: seq<byte>, offset: int, seg: Segment) {
    seg.seqno == Seqno(isn, offset) && -1 <= offset <= |accepted| &&
    (seg.data != [] ==> 0 <= offset <= offset + |seg.data| <= |accepted| &&
                        seg.data == accepted[offset..offset + |seg.data|]) &&
    (seg.fin ==> offset == |accepted| && seg.data == [] && s.state != ESTABLISHED)
  }

  /** Data is either behind the base or the flight itself. */
  ghost predicate Placed(s: Slot, accepted: seq<byte>, offset: int, seg: Segment) {
    seg.data == [] || offset + |seg.data| <= BaseOf(s, accepted) ||
    (offset == BaseOf(s, accepted) && s.inflight <= |s.out| && seg.data == s.out[..s.inflight])
  }

  ghost predicate AllGood(s: Slot, isn: u32, accepted: seq<byte>, sent: seq<Segment>) {
    forall seg :: seg in sent ==>
      Genuine(s, isn, accepted, BaseOf(s, accepted), seg) && Placed(s, accepted, BaseOf(s, accepted), seg)
  }

  lemma PumpStep(s: Slot, isn: u32, accepted: seq<byte>, tick: nat)
    requires Queued(s, isn, accepted)
    ensures var e := Pump(s, tick);
            Sender(e.slot, isn, accepted) && AllGood(e.slot, isn, accepted, e.sent) &&
              BaseOf(e.slot, accepted) == BaseOf(s, accepted)
  {
    assert s.out[0..|s.out|] == s.out[..|s.out|] == s.out;
  }

  lemma SweepStep(s: Slot, isn: u32, accepted: seq<byte>, now: nat)
    requires Sender(s, isn, accepted)
    ensures var e := Sweep(s, now);
            Sender(e.slot, isn, accepted) && AllGood(e.slot, isn, accepted, e.sent) &&
              BaseOf(e.slot, accepted) == BaseOf(s, accepted)
  {
    assert s.out[0..s.inflight] == s.out[..s.inflight];
    var base := BaseOf(s, accepted);
    assert s.out[..s.inflight] == accepted[base..base + s.inflight];
  }

  lemma Add32Seqno(isn: u32, offset: int, n: nat)
    ensures Add32(Seqno(isn, offset), n) == Seqno(isn, offset + n)
  {
  }

  lemma AcknowledgeStep(s: Slot, isn: u32, accepted: seq<byte>)
    requires Sender(s, isn, accepted) && s.state == ESTABLISHED
    ensures Queued(Acknowledge(s), isn, accepted) &&
            BaseOf(Acknowledge(s), accepted) == BaseOf(s, accepted) + s.inflight
  {
    Add32Seqno(isn, BaseOf(s, accepted), s.inflight);
  }

  lemma TakeDataStep(s: Slot, isn: u32, accepted: seq<byte>, seg: Segment)
    requires Sender(s, isn, accepted)
    ensures var e := TakeData(s, seg);
            Sender(e.slot, isn, accepted) && AllGood(e.slot, isn, accepted, e.sent) &&
              BaseOf(e.slot, accepted) == BaseOf(s, accepted) &&
            e.slot.state == s.state && e.slot.out == s.out && e.slot.inflight == s.inflight
  {
  }

  lemma ReceiveStep(s: Slot, isn: u32, accepted: seq<byte>, seg: Segment, tick: nat)
    requires Sender(s, isn, accepted)
    ensures var e := Receive(s, seg, tick);
            Sender(e.slot, isn, accepted) && AllGood(e.slot, isn, accepted, e.sent) &&
            BaseOf(e.slot, accepted) == BaseOf(s, accepted) +
              (if s.state == ESTABLISHED && AcksFlight(s, seg) then s.inflight else 0)
  {
    hide Pump, TakeData, Seqno, Genuine, Placed;
    if s.state == ESTABLISHED {
      var e := if AcksFlight(s, seg) then Pump(Acknowledge(s), tick) else Effect(s, []);
      if AcksFlight(s, seg) {
        AcknowledgeStep(s, isn, accepted);
        PumpStep(Acknowledge(s), isn, accepted, tick);
      }
      TakeDataStep(e.slot, isn, accepted, seg);
      GoodStays(e.slot, TakeData(e.slot, seg).slot, isn, accepted, e.sent);
    } else {
      assert s.state != ESTABLISHED;
      ClosingStep(s, isn, accepted, seg, tick);
    }
  }

  lemma GoodStays(s: Slot, s': Slot, isn: u32, accepted: seq<byte>, sent: seq<Segment>)
    requires AllGood(s, isn, accepted, sent) && s'.state == s.state && s'.out == s.out && s'.inflight == s.inflight &&
             s'.acked == s.acked
    ensures AllGood(s', isn, accepted, sent)
  {
  }

  lemma ClosingStep(s: Slot, isn: u32, accepted: seq<byte>, seg: Segment, tick: nat)
    requires Sender(s, isn, accepted) && s.state != ESTABLISHED
    ensures var e := Receive(s, seg, tick);
            Sender(e.slot, isn, accepted) && AllGood(e.slot, isn, accepted, e.sent) &&
              BaseOf(e.slot, accepted) == BaseOf(s, accepted)
  {
  }

  lemma CloseStep(s: Slot, isn: u32, accepted: seq<byte>, tick: nat)
    requires Sender(s, isn, accepted)
    ensures var e := Tcp.Close(s, tick);
            Sender(e.slot, isn, accepted) && AllGood(e.slot, isn, accepted, e.sent) &&
              BaseOf(e.slot, accepted) == BaseOf(s, accepted)
  {
  }

  lemma SendStep(s: Slot, isn: u32, accepted: seq<byte>, data: seq<byte>, tick: nat)
    requires Sender(s, isn, accepted)
    ensures var e, accepted' := Tcp.Send(s, data, tick), if Accepts(s, data) then accepted + data else accepted;
            Sender(e.slot, isn, accepted') && AllGood(e.slot, isn, accepted', e.sent) &&
              BaseOf(e.slot, accepted') == BaseOf(s, accepted)
  {
    hide Pump;
    if Accepts(s, data) {
      var s' := s.(out := s.out + data);
      var accepted' := accepted + data;
      assert accepted'[|accepted'| - |s'.out|..] == accepted[|accepted| - |s.out|..] + data;
      PumpStep(s', isn, accepted', tick);
    }
  }

  // ----- what is in flight stays as it is

  /** Until its flight is acknowledged, a slot keeps it unchanged; and a slot that
      is closing takes no more data. */
  ghost predicate Keeps(s: Slot, accepted: seq<byte>, s': Slot, accepted': seq<byte>) {
    accepted <= accepted' &&
    (BaseOf(s', accepted') >= BaseOf(s, accepted) + s.inflight ||
     (BaseOf(s', accepted') == BaseOf(s, accepted) && s.inflight == s'.inflight <= |s.out| <= |s'.out| &&
       s'.out[..s.inflight] == s.out[..s.inflight])) &&
    (s.state != ESTABLISHED ==> s'.state != ESTABLISHED && accepted' == accepted)
  }

  lemma StepKeeps(sys: System, step: Step)
    requires Sender(sys.slot, sys.isn, sys.accepted) && !step.Deliver?
    ensures Keeps(sys.slot, sys.accepted, Apply(sys, step).slot, Apply(sys, step).accepted)
  {
    hide Seqno;
    match step
    case Send(data, tick) => 
    case Close(tick) =>
    case Timers(now) =>
    case Arrive(seg, tick) => ReceiveStep(sys.slot, sys.isn, sys.accepted, seg, tick);
  }

  ghost predicate WireInv(sys: System) {
    forall x :: x in sys.wire ==>
      Genuine(sys.slot, sys.isn, sys.accepted, x.offset, x.seg) && Placed(sys.slot, sys.accepted, x.offset, x.seg)
  }

  ghost predicate ReceiverInv(sys: System) {
    var r := sys.receiver;
    |r.delivered| <= |sys.accepted| && r.delivered == sys.accepted[..|r.delivered|] &&
    r.rcvNxt == Seqno(sys.isn, |r.delivered| + if r.peerClosed then 1 else 0) &&
    (r.peerClosed ==> |r.delivered| == |sys.accepted| && sys.slot.state != ESTABLISHED)
  }

  ghost predicate Inv(sys: System) {
    Sender(sys.slot, sys.isn, sys.accepted) && WireInv(sys) && ReceiverInv(sys)
  }

  lemma GenuineStays(s: Slot, s': Slot, isn: u32, accepted: seq<byte>, accepted': seq<byte>, offset: int, seg: Segment)
    requires Genuine(s, isn, accepted, offset, seg) && Placed(s, accepted, offset, seg) &&
             Keeps(s, accepted, s', accepted')
    ensures Genuine(s', isn, accepted', offset, seg) && Placed(s', accepted', offset, seg)
  {
    hide Seqno;
    if seg.data != [] {
      assert accepted'[offset..offset + |seg.data|] == accepted[offset..offset + |seg.data|];
    }
  }

  lemma SenderStep(sys: System, step: Step)
    requires Sender(sys.slot, sys.isn, sys.accepted) && !step.Deliver?
    ensures var e, sys' := Outcome(sys, step), Apply(sys, step);
            Sender(sys'.slot, sys.isn, sys'.accepted) && AllGood(sys'.slot, sys.isn, sys'.accepted, e.sent)
  {
    hide Genuine, Placed, AllGood, Sender, Tcp.Send, Tcp.Close, Sweep, Receive;
    match step
    case Send(data, tick) => SendStep(sys.slot, sys.isn, sys.accepted, data, tick);
    case Close(tick) => CloseStep(sys.slot, sys.isn, sys.accepted, tick);
    case Timers(now) => SweepStep(sys.slot, sys.isn, sys.accepted, now);
    case Arrive(seg, tick) => ReceiveStep(sys.slot, sys.isn, sys.accepted, seg, tick);
  }

  lemma WireStep(sys: System, step: Step)
    requires Inv(sys) && !step.Deliver?
    ensures Inv(Apply(sys, step))
  {
    hide Genuine, Placed, Outcome, Seqno;
    SenderStep(sys, step);
    StepKeeps(sys, step);
    var sys' := Apply(sys, step);
    forall x | x in sys'.wire
      ensures Genuine(sys'.slot, sys.isn, sys'.accepted, x.offset, x.seg) &&
              Placed(sys'.slot, sys'.accepted, x.offset, x.seg)
    {
      if x in sys.wire {
        GenuineStays(sys.slot, sys'.slot, sys.isn, sys.accepted, sys'.accepted, x.offset, x.seg);
      }
    }
  }

  /** Sequence numbers tell offsets apart while the stream is below 2^32 bytes. */
  lemma OffsetUnique(isn: u32, a: int, b: int)
    requires -1 <= a < U32_LIMIT && 0 <= b < U32_LIMIT && Seqno(isn, a) == Seqno(isn, b)
    ensures a == b || (a == -1 && b == U32_LIMIT - 1)
  {
  }

  lemma DeliverStep(sys: System, step: Step)
    requires Inv(sys) && step.Deliver? && |sys.accepted| < U32_LIMIT
    ensures Inv(Apply(sys, step))
  {
    var x, r := step.sent, sys.receiver;
    if x in sys.wire && !r.peerClosed && x.seg.seqno == r.rcvNxt {
      hide Seqno, Placed;
      OffsetUnique(sys.isn, x.offset, |r.delivered|);
      var n := Min(|x.seg.data|, step.maxLen);
      Add32Seqno(sys.isn, |r.delivered|, n);
      Add32Seqno(sys.isn, |r.delivered| + n, if x.seg.fin then 1 else 0);
      if x.seg.data != [] {
        assert sys.accepted[..|r.delivered| + n] == sys.accepted[..|r.delivered|] + x.seg.data[..n];
      }
    }
  }

  // ----- whole runs

  /** A connection just opened: the handshake is done on both sides, and nothing
      but copies of the SYN-ACK can be on the wire. */
  ghost predicate Opened(sys: System) {
    var s := sys.slot;
    s.state == ESTABLISHED && s.sndNxt == Seqno(sys.isn, 0) && s.out == [] && s.acked == 0 && s.inflight == 0 &&
      Fits(s) && !s.closeAfter &&
    sys.accepted == [] && sys.receiver == Receiver(Seqno(sys.isn, 0), [], false) && sys.acks == {Seqno(sys.isn, 0)} &&
    (forall x :: x in sys.wire ==> x.offset == -1 && x.seg.seqno == sys.isn && x.seg.data == [] && !x.seg.fin)
  }

  /** The handshake of tcp_mux_poll with a client that runs tcp_connect: the SYN
      is answered, and the client's ACK of `isn` + 1 opens the connection. */
  lemma HandshakeOpens(free: Slot, ip: u32, port: u16, syn: Segment, isn: u32, now: nat, ack: Segment, tick: nat)
    requires ack.hasAck && ack.ack == Add32(isn, 1)
    ensures var e := Accept(free, ip, port, syn, isn, now);
            Fits(e.slot) && |e.sent| == 1 && e.sent[0].syn && e.sent[0].seqno == isn &&
              e.sent[0].ack == Add32(syn.seqno, 1) &&
            Opened(System(Receive(e.slot, ack, tick).slot, isn, [], {Sent(-1, e.sent[0])},
                          Receiver(Add32(e.sent[0].seqno, 1), [], false), {ack.ack}))
  {
  }

  ghost function Run(sys: System, steps: seq<Step>): (r: System)
    requires Fits(sys.slot)
    ensures Fits(r.slot)
  {
    if steps == [] then sys
    else
      var r := Run(sys, steps[..|steps| - 1]);
      ApplyFits(r, steps[|steps| - 1]);
      Apply(r, steps[|steps| - 1])
  }

  lemma ApplyFits(sys: System, step: Step)
    requires Fits(sys.slot)
    ensures Fits(Apply(sys, step).slot)
  {
    hide Tcp.Send, Tcp.Close, Sweep, Receive;
    match step
    case Send(data, tick) => CallsFit(sys.slot, PureAck(sys.slot), data, tick);
    case Close(tick) => CallsFit(sys.slot, PureAck(sys.slot), [], tick);
    case Timers(now) => SweepFits(sys.slot, now);
    case Arrive(seg, tick) => CallsFit(sys.slot, seg, [], tick);
    case Deliver(_, _) =>
  }

  lemma RunLast(sys: System, steps: seq<Step>)
    requires Fits(sys.slot) && steps != []
    ensures Run(sys, steps) == Apply(Run(sys, steps[..|steps| - 1]), steps[|steps| - 1])
  {
  }

  lemma AcceptedGrows(sys: System, step: Step)
    requires Fits(sys.slot)
    ensures |sys.accepted| <= |Apply(sys, step).accepted|
  {
  }

  lemma {:induction false} RunInv(sys: System, steps: seq<Step>)
    requires Opened(sys) && |Run(sys, steps).accepted| < U32_LIMIT
    ensures Inv(Run(sys, steps))
  {
    hide Apply, Inv, Fits;
    if steps == [] {
      OpenedInv(sys);
    } else {
      var before, step := Run(sys, steps[..|steps| - 1]), steps[|steps| - 1];
      RunLast(sys, steps);
      AcceptedGrows(before, step);
      RunInv(sys, steps[..|steps| - 1]);
      if step.Deliver? { DeliverStep(before, step); } else { WireStep(before, step); }
    }
  }

  lemma OpenedInv(sys: System)
    requires Opened(sys)
    ensures Inv(sys)
  {
  }

  /** Whatever the network and the clock do, and whatever segments arrive at the
      server: the receiver has a prefix of the accepted bytes, and sees the end of
      the stream only with all of them. */
  lemma DeliveredIsPrefix(sys: System, steps: seq<Step>)
    requires Opened(sys) && |Run(sys, steps).accepted| < U32_LIMIT
    ensures var r := Run(sys, steps);
            r.receiver.delivered <= r.accepted &&
            (r.receiver.peerClosed ==> r.receiver.delivered == r.accepted && r.slot.state != ESTABLISHED)
  {
    hide Apply, Sender, WireInv;
    RunInv(sys, steps);
  }

  /** Data sent twice at an offset is the same data. */
  ghost predicate Once(sys: System) {
    forall x, y :: x in sys.wire && y in sys.wire && x.offset == y.offset && x.seg.data != [] && y.seg.data != [] ==>
      x.seg.data == y.seg.data
  }

  lemma OnceStep(sys: System, step: Step)
    requires Inv(sys) && Once(sys) && !step.Deliver?
    ensures Once(Apply(sys, step))
  {
    hide Outcome, Seqno, Genuine, ReceiverInv;
    WireStep(sys, step);
    var sys' := Apply(sys, step);
    var base := BaseOf(sys'.slot, sys'.accepted);
    assert forall x :: x in sys'.wire && x.offset != base ==> x in sys.wire;
  }

  lemma {:induction false} RunOnce(sys: System, steps: seq<Step>)
    requires Opened(sys) && |Run(sys, steps).accepted| < U32_LIMIT
    ensures Once(Run(sys, steps))
  {
    hide Apply, Inv, Fits;
    if steps != [] {
      var before, step := Run(sys, steps[..|steps| - 1]), steps[|steps| - 1];
      RunLast(sys, steps);
      AcceptedGrows(before, step);
      RunInv(sys, steps[..|steps| - 1]);
      RunOnce(sys, steps[..|steps| - 1]);
      if step.Deliver? { DeliverWire(before, step); } else { OnceStep(before, step); }
    }
  }

  lemma DeliverWire(sys: System, step: Step)
    requires Fits(sys.slot) && step.Deliver?
    ensures Apply(sys, step).wire == sys.wire
  {
  }

  /** Every transmission at one sequence number carries the same bytes. */
  lemma RetransmissionsAgree(sys: System, steps: seq<Step>, x: Sent, y: Sent)
    requires Opened(sys) && |Run(sys, steps).accepted| < U32_LIMIT
    requires x in Run(sys, steps).wire && y in Run(sys, steps).wire && x.seg.seqno == y.seg.seqno
    requires x.seg.data != [] && y.seg.data != []
    ensures x.seg.data == y.seg.data
  {
    hide Apply, Sender, ReceiverInv, Placed, Seqno;
    RunInv(sys, steps);
    RunOnce(sys, steps);
    OffsetUnique(Run(sys, steps).isn, x.offset, y.offset);
  }

  // ----- acknowledgements that come from the receiver

  /** The server only hears acknowledgement numbers that the receiver has sent,
      in any order and any number of times. */
  ghost predicate Honest(sys: System, steps: seq<Step>)
    requires Fits(sys.slot)
  {
    steps == [] ||
    (Honest(sys, steps[..|steps| - 1]) &&
     (steps[|steps| - 1].Arrive? && steps[|steps| - 1].seg.hasAck ==>
        steps[|steps| - 1].seg.ack in Run(sys, steps[..|steps| - 1]).acks))
  }

  ghost predicate AckInv(sys: System) {
    (forall a :: a in sys.acks ==>
       exists d :: 0 <= d <= |sys.receiver.delivered| + (if sys.receiver.peerClosed then 1 else 0) &&
         a == Seqno(sys.isn, d)) &&
    BaseOf(sys.slot, sys.accepted) <= |sys.receiver.delivered|
  }

  /** A number that acknowledges less than `e` bytes passes for an acknowledgement
      of `e` exactly when it is more than 2^31 behind. */
  lemma StaleAck(isn: u32, d: int, e: int)
    requires 0 <= d < e < U32_LIMIT
    ensures AtOrAfter(Seqno(isn, d), Seqno(isn, e)) <==> e - d > 0x8000_0000
  {
    assert (Seqno(isn, d) - Seqno(isn, e)) % U32_LIMIT == (d - e) % U32_LIMIT;
  }

  lemma HonestArrival(sys: System, seg: Segment)
    requires Inv(sys) && AckInv(sys) && |sys.accepted| <= 0x8000_0000 && seg.ack in sys.acks &&
             AcksFlight(sys.slot, seg)
    ensures BaseOf(sys.slot, sys.accepted) + sys.slot.inflight <= |sys.receiver.delivered|
  {
    hide Seqno, WireInv;
    var e := BaseOf(sys.slot, sys.accepted) + sys.slot.inflight;
    Add32Seqno(sys.isn, BaseOf(sys.slot, sys.accepted), sys.slot.inflight);
    var d :| 0 <= d <= |sys.receiver.delivered| + (if sys.receiver.peerClosed then 1 else 0) &&
      seg.ack == Seqno(sys.isn, d);
    if d < e { StaleAck(sys.isn, d, e); }
  }

  lemma AckStep(sys: System, step: Step)
    requires Inv(sys) && AckInv(sys) && |Apply(sys, step).accepted| <= 0x8000_0000 && Inv(Apply(sys, step))
    requires step.Arrive? && step.seg.hasAck ==> step.seg.ack in sys.acks
    ensures AckInv(Apply(sys, step))
  {
    hide Seqno, WireInv;
    var sys' := Apply(sys, step);
    match step
    case Send(data, tick) => SendStep(sys.slot, sys.isn, sys.accepted, data, tick);
    case Close(tick) => CloseStep(sys.slot, sys.isn, sys.accepted, tick);
    case Timers(now) => SweepStep(sys.slot, sys.isn, sys.accepted, now);
    case Arrive(seg, tick) =>
      ReceiveStep(sys.slot, sys.isn, sys.accepted, seg, tick);
      if sys.slot.state == ESTABLISHED && AcksFlight(sys.slot, seg) { HonestArrival(sys, seg); }
    case Deliver(x, maxLen) =>
      AnswersKept(sys, x, maxLen);
  }

  lemma AnswersKept(sys: System, x: Sent, maxLen: nat)
    requires Fits(sys.slot) && ReceiverInv(sys) && AckInv(sys) && ReceiverInv(Apply(sys, Deliver(x, maxLen)))
    ensures AckInv(Apply(sys, Deliver(x, maxLen)))
  {
    hide Seqno;
    var sys' := Apply(sys, Deliver(x, maxLen));
    var n := |sys.receiver.delivered| + (if sys.receiver.peerClosed then 1 else 0);
    var n' := |sys'.receiver.delivered| + (if sys'.receiver.peerClosed then 1 else 0);
    assert n <= n';
    forall a | a in sys'.acks
      ensures exists d :: 0 <= d <= n' && a == Seqno(sys.isn, d)
    {
      if a in sys.acks {
        var d :| 0 <= d <= n && a == Seqno(sys.isn, d);
      } else {
        assert a == Seqno(sys.isn, n');
      }
    }
  }

  lemma {:induction false} RunAcks(sys: System, steps: seq<Step>)
    requires Opened(sys) && |Run(sys, steps).accepted| <= 0x8000_0000 && Honest(sys, steps)
    ensures AckInv(Run(sys, steps))
  {
    hide Apply, Inv, Fits;
    if steps != [] {
      var before, step := Run(sys, steps[..|steps| - 1]), steps[|steps| - 1];
      RunLast(sys, steps);
      AcceptedGrows(before, step);
      RunInv(sys, steps[..|steps| - 1]);
      RunInv(sys, steps);
      RunAcks(sys, steps[..|steps| - 1]);
      AckStep(before, step);
    }
  }

  /** With acknowledgements from the receiver only, no byte is lost: each accepted
      byte is delivered or still in the queue, and the FIN waits for the last. */
  lemma NothingLost(sys: System, steps: seq<Step>)
    requires Opened(sys) && |Run(sys, steps).accepted| <= 0x8000_0000 && Honest(sys, steps)
    ensures var r := Run(sys, steps);
            |r.slot.out| <= |r.accepted| <= |r.receiver.delivered| + |r.slot.out| &&
            r.slot.out == r.accepted[|r.accepted| - |r.slot.out|..] &&
            (r.slot.state == CLOSING ==> r.receiver.delivered == r.accepted)
  {
    hide Apply, WireInv, Seqno;
    RunInv(sys, steps);
    RunAcks(sys, steps);
  }
}
