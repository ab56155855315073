/** What the server of src/user/tcp.h does for one client: how it gets a slot, opens the
    connection, has its request reported, and loses the slot again. */
module TcpClients {
  import opened Arith
  import opened Bytes
  import opened Wrappers
  import opened Tcp
  import opened TcpServer
  import TcpRequest

  // ----- a new client

  /** A client without a slot is given one exactly for a SYN, when the hardware address
      is known and a slot is free after the timers; it is then sent the SYN-ACK, and has
      300 ticks to answer. */
  lemma NewClient(ss: Slots, localPort: u16, a: Arrival, macKnown: bool, isn: u32, now: nat, tick: nat)
    requires AllFit(ss) && a.dstPort == localPort && OnlyOwner(ss, -1, a.srcIp, a.srcPort)
    ensures var p, swept := Poll(ss, localPort, Some(a), macKnown, isn, now, tick), Swept(ss, now, |ss|);
            var ackNo: u32 := (a.seg.seqno + 1) % 0x1_0000_0000;
            if a.seg.syn && !a.seg.hasAck && macKnown && exists f :: 0 <= f < |ss| && swept[f].state == FREE then
              ToClient(p.sent, a.srcIp, a.srcPort) == [Segment(isn, ackNo, true, true, false, [])] &&
              exists f :: 0 <= f < |ss| && swept[f].state == FREE && OnlyOwner(p.slots, f, a.srcIp, a.srcPort) &&
                p.slots[f].state == SYN_RCVD && p.slots[f].sndNxt == isn && p.slots[f].rcvNxt == ackNo &&
                p.slots[f].deadline == now + 300 && p.slots[f].out == [] && p.slots[f].request == [] &&
                !p.slots[f].closeAfter
            else OnlyOwner(p.slots, -1, a.srcIp, a.srcPort) && ToClient(p.sent, a.srcIp, a.srcPort) == []
  {
    hide Sweep, Fits, ToClient, OnlyOwner, Owns, FindFrom;
    var swept, ip, port := Swept(ss, now, |ss|), a.srcIp, a.srcPort;
    SweptNobody(ss, now, ip, port);
    SweptToClient(ss, now, |ss|, -1, ip, port);
    NothingSent(ip, port);
    var d := Dispatch(swept, localPort, a, macKnown, isn, now, tick);
    ToClientJoin(SweptSent(ss, now, |ss|), d.sent, ip, port);
    NobodyFound(swept, ip, port);
    var f := FindFreeFrom(swept, 0);
    if a.seg.syn && !a.seg.hasAck && macKnown && f != -1 {
      var e := Accept(swept[f], ip, port, a.seg, isn, now);
      ToClientOutputs(ip, port, e.sent, ip, port);
      NewOwner(swept, f, e.slot, ip, port);
    }
  }

  lemma SweptNobody(ss: Slots, now: nat, ip: u32, port: u16)
    requires AllFit(ss) && OnlyOwner(ss, -1, ip, port)
    ensures OnlyOwner(Swept(ss, now, |ss|), -1, ip, port)
  {
    hide Sweep, Fits;
    var swept := Swept(ss, now, |ss|);
    forall j | 0 <= j < |ss| ensures SameOwner(ss[j], swept[j]) {
      CallsOwner(ss[j], [], PureAck(ss[j]), now);
    }
  }

  lemma NobodyFound(ss: Slots, ip: u32, port: u16)
    requires OnlyOwner(ss, -1, ip, port)
    ensures FindFrom(ss, ip, port, 0) == -1
  {
  }

  lemma NewOwner(ss: Slots, f: nat, s: Slot, ip: u32, port: u16)
    requires OnlyOwner(ss, -1, ip, port) && f < |ss| && Owns(s, ip, port)
    ensures OnlyOwner(ss[f := s], f, ip, port)
  {
  }

  /** A half-open connection opens exactly on the acknowledgement of the number that was
      sent to this client; a repeated SYN has the same SYN-ACK sent again. */
  lemma HandshakeExact(s: Slot, seg: Segment, tick: nat)
    requires Fits(s) && s.state == SYN_RCVD
    ensures var e := Receive(s, seg, tick);
            (e.slot.state == ESTABLISHED <==> seg.hasAck && seg.ack == (s.sndNxt + 1) % 0x1_0000_0000) &&
            (e.slot.state != ESTABLISHED ==> e.slot == s) &&
            (e.slot.state == ESTABLISHED ==> e.slot.sndNxt == (s.sndNxt + 1) % 0x1_0000_0000 && e.sent == []) &&
            (seg.syn && !seg.hasAck ==> e.sent == [Segment(s.sndNxt, s.rcvNxt, true, true, false, [])])
  {
  }

  // ----- a handshake that is not finished

  lemma HalfOpenCalls(s: Slot, data: seq<byte>, t: nat)
    requires Fits(s) && s.state == SYN_RCVD
    ensures Tcp.Send(s, data, t) == Effect(s, []) && Tcp.Close(s, t) == Effect(s, [])
    ensures Sweep(s, t).sent == [] && (Sweep(s, t).slot.state == FREE <==> t >= s.deadline)
    ensures t < s.deadline ==> Sweep(s, t).slot == s
  {
  }

  predicate PastDeadline(call: Call, deadline: nat) {
    call.DoPoll? && call.now >= deadline
  }

  predicate SomePast(calls: seq<Call>, deadline: nat) {
    exists c :: 0 <= c < |calls| && PastDeadline(calls[c], deadline)
  }

  lemma SomePastLast(calls: seq<Call>, deadline: nat)
    requires calls != []
    ensures SomePast(calls, deadline) <==>
            SomePast(calls[..|calls| - 1], deadline) || PastDeadline(calls[|calls| - 1], deadline)
  {
    hide PastDeadline;
    var n := |calls| - 1;
    assert forall c :: 0 <= c < n ==> calls[..n][c] == calls[c];
  }

  lemma HalfOpenCall(ss: Slots, localPort: u16, call: Call, i: nat, ip: u32, port: u16)
    requires AllFit(ss) && OnlyOwner(ss, i, ip, port) && ss[i].state == SYN_RCVD && Quiet(call, localPort, ip, port)
    ensures var ss' := Apply(ss, localPort, call);
            ToClient(Sent(ss, localPort, call), ip, port) == [] &&
            if PastDeadline(call, ss[i].deadline) then OnlyOwner(ss', -1, ip, port)
            else OnlyOwner(ss', i, ip, port) && ss'[i] == ss[i]
  {
    hide Tcp.Send, Tcp.Close, Sweep, ToClient, Dispatch, Fits;
    NothingSent(ip, port);
    assert ForClient(ss[i], []) == [];
    match call
    case DoPoll(rx, macKnown, isn, now, tick) =>
      PollOther(ss, localPort, rx, macKnown, isn, now, tick, i, ip, port);
      HalfOpenCalls(ss[i], [], now);
    case DoSend(j, data, at) =>
      if j < |ss| {
        if j == i { HalfOpenCalls(ss[i], data, at); } else { SlotCallOther(ss, j, data, at, ip, port); }
      }
    case DoClose(j, at) =>
      if j < |ss| {
        if j == i { HalfOpenCalls(ss[i], [], at); } else { SlotCallOther(ss, j, [], at, ip, port); }
      }
  }

  /** A client that never finishes its handshake keeps its slot until the first poll at
      or after the deadline, exactly, and is sent nothing meanwhile. */
  lemma {:induction false} HalfOpenExpires(ss: Slots, localPort: u16, calls: seq<Call>, i: nat, ip: u32, port: u16)
    requires AllFit(ss) && OnlyOwner(ss, i, ip, port) && ss[i].state == SYN_RCVD
    requires AllQuiet(calls, localPort, ip, port)
    ensures ToClient(RunSent(ss, localPort, calls), ip, port) == []
    ensures var r := Run(ss, localPort, calls);
            if SomePast(calls, ss[i].deadline) then OnlyOwner(r, -1, ip, port)
            else OnlyOwner(r, i, ip, port) && r[i] == ss[i]
  {
    var deadline := ss[i].deadline;
    hide Apply, ToClient, Fits, PastDeadline, OnlyOwner, Quiet, Sent, SomePast;
    if calls == [] {
      NothingSent(ip, port);
      assert !SomePast([], deadline) by { NonePast(deadline); }
    } else {
      var n := |calls| - 1;
      var r := Run(ss, localPort, calls[..n]);
      HalfOpenExpires(ss, localPort, calls[..n], i, ip, port);
      ToClientJoin(RunSent(ss, localPort, calls[..n]), Sent(r, localPort, calls[n]), ip, port);
      SomePastLast(calls, deadline);
      if SomePast(calls[..n], deadline) {
        GoneStays(r, localPort, calls[n], ip, port);
      } else {
        HalfOpenCall(r, localPort, calls[n], i, ip, port);
      }
    }
  }

  lemma NonePast(deadline: nat)
    ensures !SomePast([], deadline)
  {
  }

  // ----- requests and endings

  /** tcp_mux_poll reports a slot exactly when the segment brought its client's next
      data, which is then in the request buffer as far as there is room. */
  lemma ReadyExactly(ss: Slots, localPort: u16, a: Arrival, macKnown: bool, isn: u32, now: nat, tick: nat)
    requires AllFit(ss)
    ensures var p, swept := Poll(ss, localPort, Some(a), macKnown, isn, now, tick), Swept(ss, now, |ss|);
            forall i :: 0 <= i < |ss| && OnlyOwner(swept, i, a.srcIp, a.srcPort) ==>
              (p.ready == i <==>
                a.dstPort == localPort && swept[i].state == ESTABLISHED && a.seg.seqno == swept[i].rcvNxt &&
                  a.seg.data != []) &&
              (p.ready == i ==>
                |swept[i].request| <= 512 && |p.slots| == |ss| &&
                p.slots[i].request == swept[i].request + a.seg.data[..Min(|a.seg.data|, 512 - |swept[i].request|)])
    ensures OnlyOwner(Swept(ss, now, |ss|), -1, a.srcIp, a.srcPort) ==>
              Poll(ss, localPort, Some(a), macKnown, isn, now, tick).ready == -1
    ensures Poll(ss, localPort, None, macKnown, isn, now, tick).ready == -1
  {
    hide Sweep, Fits, Receive;
    var swept := Swept(ss, now, |ss|);
    forall i | 0 <= i < |ss| && OnlyOwner(swept, i, a.srcIp, a.srcPort)
      ensures FindFrom(swept, a.srcIp, a.srcPort, 0) == i
      ensures swept[i].state == ESTABLISHED && a.seg.seqno == swept[i].rcvNxt ==>
                |swept[i].request| <= 512 &&
                Receive(swept[i], a.seg, tick).slot.request ==
                  swept[i].request + a.seg.data[..Min(|a.seg.data|, 512 - |swept[i].request|)]
    {
      if swept[i].state == ESTABLISHED { TcpRequest.TakesNext(swept[i], a.seg, tick); }
    }
  }

  /** While the slot waits for its FIN to be acknowledged, any segment of the client ends
      the connection; data or a FIN in it are acknowledged first. */
  lemma AnyAnswerEnds(s: Slot, seg: Segment, tick: nat)
    requires Fits(s) && s.state == CLOSING
    ensures var e := Receive(s, seg, tick);
            e.slot.state == FREE &&
            if seg.data == [] && !seg.fin then e.sent == []
            else e.sent == [Segment(s.sndNxt, (s.rcvNxt + |seg.data| + if seg.fin then 1 else 0) % 0x1_0000_0000,
                                    false, true, false, [])]
  {
    TcpRequest.Add32Twice(s.rcvNxt, |seg.data|, if seg.fin then 1 else 0);
  }
}
