/** What the sender of src/user/tcp.h owes its callers: queued data is under way, a
    close is carried out, and a network that delivers brings everything across. */
module TcpProgress {
  import opened Arith
  import opened Bytes
  import opened Tcp
  import opened TcpSystem

  // ----- a close is never forgotten

  /** The i-th step of the run closes the open connection. */
  ghost predicate ClosesAt(sys: System, steps: seq<Step>, i: nat)
    requires Fits(sys.slot) && i < |steps|
  {
    steps[i].Close? && Run(sys, steps[..i]).slot.state == ESTABLISHED
  }

  ghost predicate Closed(sys: System, steps: seq<Step>)
    requires Fits(sys.slot)
  {
    exists i :: 0 <= i < |steps| && ClosesAt(sys, steps, i)
  }

  /** The FIN behind the last accepted byte has been sent. */
  ghost predicate FinSent(sys: System) {
    exists x :: x in sys.wire && x.seg.fin && x.offset == |sys.accepted|
  }

  /** The first bytes of the queue have been sent, and wait for their acknowledgement. */
  ghost predicate UnderWay(sys: System) {
    0 < sys.slot.inflight <= |sys.slot.out| &&
    exists x :: x in sys.wire && x.offset == BaseOf(sys.slot, sys.accepted) &&
      x.seg.data == sys.slot.out[..sys.slot.inflight]
  }

  /** `asked` tells whether the connection was ever closed while it was open. */
  ghost predicate Owes(sys: System, asked: bool) {
    var s := sys.slot;
    (s.state == ESTABLISHED ==>
      (s.closeAfter <==> asked) && (asked ==> s.out != []) && (s.out != [] ==> UnderWay(sys))) &&
    (s.state == CLOSING ==> asked && FinSent(sys))
  }

  lemma {:induction false} RunOwes(sys: System, steps: seq<Step>)
    requires Opened(sys) && |Run(sys, steps).accepted| < U32_LIMIT
    ensures Owes(Run(sys, steps), Closed(sys, steps))
  {
    hide Apply, Inv, Fits, Owes, ClosesAt;
    if steps == [] {
      OpenedOwes(sys);
    } else {
      var n := |steps| - 1;
      var before, step := Run(sys, steps[..n]), steps[n];
      RunLast(sys, steps);
      AcceptedGrows(before, step);
      RunInv(sys, steps[..n]);
      RunOwes(sys, steps[..n]);
      ClosedLast(sys, steps);
      StepOwes(before, step, Closed(sys, steps[..n]));
    }
  }

  lemma OpenedOwes(sys: System)
    requires Opened(sys)
    ensures Owes(sys, Closed(sys, []))
  {
  }

  lemma ClosedLast(sys: System, steps: seq<Step>)
    requires Fits(sys.slot) && steps != []
    ensures var n := |steps| - 1;
            Closed(sys, steps) <==>
            Closed(sys, steps[..n]) || (steps[n].Close? && Run(sys, steps[..n]).slot.state == ESTABLISHED)
  {
    hide Run;
    var n := |steps| - 1;
    forall i | 0 <= i < n ensures ClosesAt(sys, steps[..n], i) <==> ClosesAt(sys, steps, i) {
      assert steps[..n][..i] == steps[..i];
    }
    assert ClosesAt(sys, steps, n) <==> steps[n].Close? && Run(sys, steps[..n]).slot.state == ESTABLISHED;
  }

  lemma StepOwes(sys: System, step: Step, asked: bool)
    requires Inv(sys) && Owes(sys, asked)
    ensures Owes(Apply(sys, step), asked || (step.Close? && sys.slot.state == ESTABLISHED))
  {
    hide WireInv, ReceiverInv, Seqno;
    match step
    case Send(data, tick) => SendOwes(sys, data, tick, asked);
    case Close(tick) => CloseOwes(sys, tick, asked);
    case Timers(now) => TimersOwe(sys, now, asked);
    case Arrive(seg, tick) => ArriveOwes(sys, seg, tick, asked);
    case Deliver(x, maxLen) =>
  }

  /** Everything that was on the wire stays there, and what is sent joins it. */
  lemma Recorded(sys: System, e: Effect, accepted: seq<byte>, seg: Segment)
    requires seg in e.sent
    ensures Sent(BaseOf(e.slot, accepted), seg) in Record(sys, e, accepted).wire
    ensures sys.wire <= Record(sys, e, accepted).wire
  {
  }

  /** Pumping leaves nothing to send behind: data, else the FIN that was put off. */
  lemma PumpOwes(sys: System, s: Slot, accepted: seq<byte>, tick: nat, asked: bool)
    requires Queued(s, sys.isn, accepted) && s.state == ESTABLISHED && s.inflight == 0 && (s.closeAfter <==> asked)
    ensures Owes(Record(sys, Pump(s, tick), accepted), asked)
  {
    hide Seqno;
    var e := Pump(s, tick);
    if e.sent != [] { Recorded(sys, e, accepted, e.sent[0]); }
    if s.out != [] {
      assert s.out[0..|s.out|] == s.out[..|s.out|] == s.out;
      assert e.sent[0].data == e.slot.out[..e.slot.inflight];
      var x := Sent(BaseOf(e.slot, accepted), e.sent[0]);
      assert x in Record(sys, e, accepted).wire;
    } else if asked {
      var x := Sent(BaseOf(e.slot, accepted), e.sent[0]);
      assert x in Record(sys, e, accepted).wire && x.seg.fin && x.offset == |accepted|;
    }
  }

  lemma SendOwes(sys: System, data: seq<byte>, tick: nat, asked: bool)
    requires Inv(sys) && Owes(sys, asked)
    ensures Owes(Apply(sys, Send(data, tick)), asked)
  {
    hide WireInv, ReceiverInv, Seqno;
    var s := sys.slot;
    if Accepts(s, data) {
      var s', accepted := s.(out := s.out + data), sys.accepted + data;
      assert accepted[|accepted| - |s'.out|..] == sys.accepted[|sys.accepted| - |s.out|..] + data;
      if s.inflight == 0 {
        PumpOwes(sys, s', accepted, tick, asked);
      } else {
        assert s'.out[..s.inflight] == s.out[..s.inflight];
        var x :| x in sys.wire && x.offset == BaseOf(s, sys.accepted) && x.seg.data == s.out[..s.inflight];
        assert x in Apply(sys, Send(data, tick)).wire;
      }
    }
  }

  lemma CloseOwes(sys: System, tick: nat, asked: bool)
    requires Inv(sys) && Owes(sys, asked)
    ensures Owes(Apply(sys, Step.Close(tick)), asked || sys.slot.state == ESTABLISHED)
  {
    hide WireInv, ReceiverInv, Seqno;
    var s, sys' := sys.slot, Apply(sys, Step.Close(tick));
    if s.state == ESTABLISHED {
      if s.out == [] {
        var x := Sent(BaseOf(sys'.slot, sys.accepted), FinAck(s));
        assert FinAck(s) in Tcp.Close(s, tick).sent;
        assert x in sys'.wire && x.seg.fin && x.offset == |sys'.accepted|;
      } else {
        var x :| x in sys.wire && x.offset == BaseOf(s, sys.accepted) && x.seg.data == s.out[..s.inflight];
        assert x in sys'.wire;
      }
    } else if s.state == CLOSING {
      var x :| x in sys.wire && x.seg.fin && x.offset == |sys.accepted|;
      assert x in sys'.wire;
    }
  }

  lemma TimersOwe(sys: System, now: nat, asked: bool)
    requires Inv(sys) && Owes(sys, asked)
    ensures Owes(Apply(sys, Timers(now)), asked)
  {
    hide WireInv, ReceiverInv, Seqno;
    WireKept(sys, Timers(now));
    OwesKept(sys, Apply(sys, Timers(now)), asked);
  }

  lemma WireKept(sys: System, step: Step)
    requires Fits(sys.slot)
    ensures sys.wire <= Apply(sys, step).wire
  {
  }

  /** Steps that leave the queue, the flight and the close alone, or end the slot. */
  lemma OwesKept(sys: System, sys': System, asked: bool)
    requires Owes(sys, asked) && sys.wire <= sys'.wire && sys'.accepted == sys.accepted
    requires sys'.slot.state == FREE ||
             (sys'.slot.state == sys.slot.state && sys'.slot.closeAfter == sys.slot.closeAfter &&
              sys'.slot.out == sys.slot.out && sys'.slot.acked == sys.slot.acked &&
                sys'.slot.inflight == sys.slot.inflight)
    ensures Owes(sys', asked)
  {
    if sys'.slot.state == ESTABLISHED && sys.slot.out != [] {
      var s := sys.slot;
      var x :| x in sys.wire && x.offset == BaseOf(s, sys.accepted) && x.seg.data == s.out[..s.inflight];
      assert x in sys'.wire;
    }
    if sys'.slot.state == CLOSING {
      var x :| x in sys.wire && x.seg.fin && x.offset == |sys.accepted|;
      assert x in sys'.wire;
    }
  }

  lemma ArriveOwes(sys: System, seg: Segment, tick: nat, asked: bool)
    requires Inv(sys) && Owes(sys, asked)
    ensures Owes(Apply(sys, Arrive(seg, tick)), asked)
  {
    hide WireInv, ReceiverInv, Seqno, Pump, TakeData;
    var s, sys' := sys.slot, Apply(sys, Arrive(seg, tick));
    WireKept(sys, Arrive(seg, tick));
    if s.state == ESTABLISHED {
      var e := if AcksFlight(s, seg) then Pump(Acknowledge(s), tick) else Effect(s, []);
      var mid := Record(sys, e, sys.accepted);
      if AcksFlight(s, seg) {
        AcknowledgeStep(s, sys.isn, sys.accepted);
        PumpStep(Acknowledge(s), sys.isn, sys.accepted, tick);
        PumpOwes(sys, Acknowledge(s), sys.accepted, tick, asked);
      } else {
        OwesKept(sys, mid, asked);
      }
      TakeDataKeeps(e.slot, seg);
      MoreRecorded(sys, e, Receive(s, seg, tick), sys.accepted, TakeData(e.slot, seg).sent);
      OwesKept(mid, sys', asked);
    } else {
      OwesKept(sys, sys', asked);
    }
  }

  lemma MoreRecorded(sys: System, e: Effect, e': Effect, accepted: seq<byte>, more: seq<Segment>)
    requires e'.sent == e.sent + more && BaseOf(e'.slot, accepted) == BaseOf(e.slot, accepted)
    ensures Record(sys, e, accepted).wire <= Record(sys, e', accepted).wire
  {
    forall x | x in Record(sys, e, accepted).wire ensures x in Record(sys, e', accepted).wire {
      if x !in sys.wire {
        var seg :| seg in e.sent && x == Sent(BaseOf(e.slot, accepted), seg);
        assert seg in e'.sent;
      }
    }
  }

  lemma TakeDataKeeps(s: Slot, seg: Segment)
    requires Fits(s)
    ensures var t := TakeData(s, seg).slot;
            t.state == s.state && t.closeAfter == s.closeAfter && t.out == s.out && t.acked == s.acked &&
            t.inflight == s.inflight
  {
  }

  /** In every run: queued data is under way; a connection that was closed and is
      still open has data queued; and a closing one was closed, and has sent its FIN. */
  lemma CloseIsKept(sys: System, steps: seq<Step>)
    requires Opened(sys) && |Run(sys, steps).accepted| < U32_LIMIT
    ensures var r := Run(sys, steps);
            (r.slot.state == ESTABLISHED && r.slot.out != [] ==> UnderWay(r)) &&
            (r.slot.state == ESTABLISHED && Closed(sys, steps) ==> r.slot.out != []) &&
            (r.slot.state == CLOSING ==> Closed(sys, steps) && FinSent(r))
  {
    RunOwes(sys, steps);
  }

  // ----- a network that delivers

  /** The receiver has all that the sender has seen acknowledged, and no more. */
  ghost predicate InStep(sys: System) {
    Inv(sys) && Owes(sys, sys.slot.closeAfter) && |sys.accepted| < U32_LIMIT &&
    sys.slot.state == ESTABLISHED && |sys.receiver.delivered| == BaseOf(sys.slot, sys.accepted) &&
    !sys.receiver.peerClosed
  }

  ghost predicate IsFlight(sys: System, x: Sent) {
    x in sys.wire && x.offset == BaseOf(sys.slot, sys.accepted) && 0 < sys.slot.inflight <= |sys.slot.out| &&
    x.seg.data == sys.slot.out[..sys.slot.inflight]
  }

  /** The receiver's answer: an acknowledgement of everything up to `rcvNxt`. */
  function AckOf(r: Receiver, seqno: u32): Segment {
    Segment(seqno, r.rcvNxt, false, true, false, [])
  }

  /** The flight arrives: the receiver has these bytes too, and answers. */
  lemma FlightArrives(sys: System, x: Sent, maxLen: nat)
    requires InStep(sys) && IsFlight(sys, x) && maxLen >= 512
    ensures var sys', s := Apply(sys, Deliver(x, maxLen)), sys.slot;
            Inv(sys') && sys'.slot == s && sys'.accepted == sys.accepted && sys'.wire == sys.wire &&
            sys'.receiver.delivered == sys.receiver.delivered + s.out[..s.inflight] && !sys'.receiver.peerClosed &&
            sys'.receiver.rcvNxt == Add32(s.sndNxt, s.inflight) && sys'.receiver.rcvNxt in sys'.acks
  {
    hide Seqno, WireInv;
    DeliverStep(sys, Deliver(x, maxLen));
    FlightGenuine(sys, x);
    var r, s := sys.receiver, sys.slot;
    assert x.seg.seqno == r.rcvNxt == s.sndNxt && !x.seg.fin;
    assert x.seg.data[..|x.seg.data|] == x.seg.data;
  }

  lemma FlightGenuine(sys: System, x: Sent)
    requires InStep(sys) && IsFlight(sys, x)
    ensures x.seg.seqno == Seqno(sys.isn, x.offset) && !x.seg.fin && |x.seg.data| <= 256
  {
  }

  /** The answer arrives: what was in flight leaves the queue, and the next bytes are
      under way, or the FIN that waited for them. */
  lemma AnswerArrives(sys: System, seqno: u32, tick: nat)
    requires Inv(sys) && Owes(sys, sys.slot.closeAfter) && |sys.accepted| < U32_LIMIT && sys.slot.state == ESTABLISHED
    requires !sys.receiver.peerClosed && 0 < sys.slot.inflight <= |sys.slot.out|
    requires |sys.receiver.delivered| == BaseOf(sys.slot, sys.accepted) + sys.slot.inflight
    requires sys.receiver.rcvNxt == Add32(sys.slot.sndNxt, sys.slot.inflight)
    ensures var s, sys' := sys.slot, Apply(sys, Arrive(AckOf(sys.receiver, seqno), tick));
            Inv(sys') && sys'.receiver == sys.receiver && sys'.accepted == sys.accepted &&
            sys'.slot.out == s.out[s.inflight..] &&
            (sys'.slot.out == [] ==> sys'.receiver.delivered == sys'.accepted) &&
            if sys'.slot.out == [] && s.closeAfter then sys'.slot.state == CLOSING && FinSent(sys')
            else InStep(sys') && sys'.slot.closeAfter == s.closeAfter
  {
    hide Seqno, WireInv, Genuine, Placed;
    var step := Arrive(AckOf(sys.receiver, seqno), tick);
    WireStep(sys, step);
    StepOwes(sys, step, sys.slot.closeAfter);
    ReceiveStep(sys.slot, sys.isn, sys.accepted, step.seg, tick);
    var s := sys.slot;
    assert AcksFlight(s, step.seg);
    AckedSlot(s, step.seg, tick);
  }

  lemma AckedSlot(s: Slot, seg: Segment, tick: nat)
    requires Fits(s) && s.state == ESTABLISHED && AcksFlight(s, seg) && s.acked == 0 && seg.data == [] && !seg.fin
    ensures var s' := Receive(s, seg, tick).slot;
            s'.out == s.out[s.inflight..] &&
            if s'.out == [] && s.closeAfter then s'.state == CLOSING
            else s'.state == ESTABLISHED && s'.closeAfter == s.closeAfter
  {
    Add32None(Acknowledge(s).rcvNxt);
  }

  lemma Add32None(a: u32)
    ensures Add32(a, 0) == a
  {
  }

  lemma {:induction false} RunJoin(sys: System, a: seq<Step>, b: seq<Step>)
    requires Fits(sys.slot)
    ensures Run(sys, a + b) == Run(Run(sys, a), b)
    ensures Honest(sys, a) && Honest(Run(sys, a), b) ==> Honest(sys, a + b)
  {
    hide Fits, Apply;
    if b == [] {
      assert a + b == a;
    } else {
      var n := |b| - 1;
      assert (a + b)[..|a + b| - 1] == a + b[..n] && (a + b)[|a + b| - 1] == b[n];
      RunJoin(sys, a, b[..n]);
    }
  }

  /** Only the network acts, and honestly: it hands over what was sent, and brings the
      receiver's own answers. */
  ghost predicate Delivers(sys: System, steps: seq<Step>)
    requires Fits(sys.slot)
  {
    Honest(sys, steps) && forall k :: 0 <= k < |steps| ==> steps[k].Deliver? || steps[k].Arrive?
  }

  lemma DeliversJoin(sys: System, a: seq<Step>, b: seq<Step>)
    requires Fits(sys.slot) && Delivers(sys, a) && Delivers(Run(sys, a), b)
    ensures Delivers(sys, a + b) && Run(sys, a + b) == Run(Run(sys, a), b)
  {
    hide Honest, Run;
    RunJoin(sys, a, b);
  }

  lemma TwoSteps(sys: System, a: Step, b: Step)
    requires Fits(sys.slot)
    ensures var mid := Apply(sys, a);
            Fits(mid.slot) && Run(sys, [a, b]) == Apply(mid, b) &&
            (a.Deliver? && b.Arrive? && b.seg.ack in mid.acks ==> Delivers(sys, [a, b]))
  {
    hide Apply;
    ApplyFits(sys, a);
    assert [a, b][..1] == [a] && [a][..0] == [];
    assert Run(sys, [a]) == Apply(sys, a);
    assert Honest(sys, []) && (a.Deliver? ==> Honest(sys, [a]));
  }

  lemma OneStep(sys: System, a: Step)
    requires Fits(sys.slot)
    ensures Run(sys, [a]) == Apply(sys, a) && (a.Deliver? ==> Delivers(sys, [a]))
  {
    hide Apply;
    assert [a][..0] == [];
    assert Honest(sys, []);
  }

  /** From every state in which both ends are in step, delivering what is in flight and
      bringing back the answers takes all queued bytes across, and the end of the
      stream exactly if the connection was closed. */
  lemma {:induction false} Drains(sys: System) returns (steps: seq<Step>)
    requires InStep(sys)
    ensures Fits(sys.slot) && Delivers(sys, steps) && |steps| <= 2 * |sys.slot.out| + 1
    ensures var r := Run(sys, steps);
            r.accepted == sys.accepted && r.slot.out == [] && r.receiver.delivered == r.accepted &&
            (r.receiver.peerClosed <==> sys.slot.closeAfter)
    decreases |sys.slot.out|
  {
    hide Inv, Apply, Run, Fits, Honest, Delivers;
    DrainFacts(sys);
    if sys.slot.out == [] {
      steps := [];
      NothingToDo(sys);
    } else {
      var x :| IsFlight(sys, x);
      FlightArrives(sys, x, 512);
      var mid := Apply(sys, Deliver(x, 512));
      StepOwes(sys, Deliver(x, 512), sys.slot.closeAfter);
      AnswerArrives(mid, 0, 0);
      var round := [Deliver(x, 512), Arrive(AckOf(mid.receiver, 0), 0)];
      TwoSteps(sys, round[0], round[1]);
      var next := Run(sys, round);
      if next.slot.out == [] && sys.slot.closeAfter {
        var last := FinArrives(next);
        DeliversJoin(sys, round, [last]);
        steps := round + [last];
      } else {
        var rest := Drains(next);
        DeliversJoin(sys, round, rest);
        steps := round + rest;
      }
    }
  }

  lemma DrainFacts(sys: System)
    requires InStep(sys)
    ensures Fits(sys.slot) && Inv(sys) && |sys.slot.out| <= |sys.accepted|
    ensures sys.slot.out == [] ==> !sys.slot.closeAfter && sys.receiver.delivered == sys.accepted
    ensures sys.slot.out != [] ==> exists x :: IsFlight(sys, x)
  {
    hide WireInv, Seqno;
    if sys.slot.out != [] {
      var x :| x in sys.wire && x.offset == BaseOf(sys.slot, sys.accepted) &&
               x.seg.data == sys.slot.out[..sys.slot.inflight];
      assert IsFlight(sys, x);
    }
  }

  lemma NothingToDo(sys: System)
    requires Fits(sys.slot)
    ensures Delivers(sys, []) && Run(sys, []) == sys
  {
  }

  lemma FinArrives(sys: System) returns (last: Step)
    requires Inv(sys) && |sys.accepted| < U32_LIMIT && FinSent(sys) && sys.receiver.delivered == sys.accepted
    requires sys.slot.out == []
    ensures Fits(sys.slot) && Delivers(sys, [last])
    ensures var r := Run(sys, [last]);
            r.accepted == sys.accepted && r.slot == sys.slot && r.receiver.delivered == r.accepted &&
              r.receiver.peerClosed
  {
    hide Seqno, Run, Delivers;
    var x :| x in sys.wire && x.seg.fin && x.offset == |sys.accepted|;
    last := Deliver(x, 512);
    OneStep(sys, last);
    assert Genuine(sys.slot, sys.isn, sys.accepted, x.offset, x.seg);
    assert sys.receiver.delivered + x.seg.data[..0] == sys.receiver.delivered;
  }

  /** So it is in every run, whatever was lost before: when the receiver has just what
      the sender has seen acknowledged, the rest comes across, and the receiver sees the
      end exactly if the connection was ever closed. */
  lemma RunDrains(sys: System, steps: seq<Step>) returns (more: seq<Step>)
    requires Opened(sys) && |Run(sys, steps).accepted| < U32_LIMIT && Run(sys, steps).slot.state == ESTABLISHED
    requires |Run(sys, steps).receiver.delivered| == BaseOf(Run(sys, steps).slot, Run(sys, steps).accepted)
    ensures Delivers(Run(sys, steps), more)
    ensures var r := Run(Run(sys, steps), more);
            r.receiver.delivered == Run(sys, steps).accepted && (r.receiver.peerClosed <==> Closed(sys, steps))
  {
    hide Seqno, Delivers, Run;
    RunInv(sys, steps);
    RunOwes(sys, steps);
    more := Drains(Run(sys, steps));
  }
}
