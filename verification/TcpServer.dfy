/** The four connection slots of the TCP server of src/user/tcp.h as one state:
    which slot a segment belongs to, and what holds in every reachable state. */
module TcpServer {
  import opened Arith
  import opened Bytes
  import opened Wrappers
  import opened Tcp

  const MAX_CONNS: nat := 4

  /** A parsed segment with its addresses. */
  datatype Arrival = Arrival(srcIp: u32, srcPort: u16, dstPort: u16, seg: Segment)

  type Slots = seq<Slot>

  /** A segment sent to the client with the given address. */
  datatype Output = Output(ip: u32, port: u16, seg: Segment)

  /** The result of tcp_mux_poll is a slot whose request grew, or -1. */
  datatype Answer = Answer(slots: Slots, ready: int, sent: seq<Output>)

  function Outputs(ip: u32, port: u16, segs: seq<Segment>): seq<Output> {
    seq(|segs|, k requires 0 <= k < |segs| => Output(ip, port, segs[k]))
  }

  function ForClient(s: Slot, segs: seq<Segment>): seq<Output> {
    Outputs(s.remoteIp, s.remotePort, segs)
  }

  predicate Owns(s: Slot, ip: u32, port: u16) {
    s.state != FREE && s.remoteIp == ip && s.remotePort == port
  }

  /** tcp_mux_find from slot `i` on. */
  function FindFrom(ss: Slots, ip: u32, port: u16, i: nat): (r: int)
    requires i <= |ss|
    ensures r == -1 || (i <= r < |ss| && Owns(ss[r], ip, port))
    ensures forall k :: i <= k < |ss| && (r == -1 || k < r) ==> !Owns(ss[k], ip, port)
    decreases |ss| - i
  {
    if i == |ss| then -1 else if Owns(ss[i], ip, port) then i else FindFrom(ss, ip, port, i + 1)
  }

  function FindFreeFrom(ss: Slots, i: nat): (r: int)
    requires i <= |ss|
    ensures r == -1 || (i <= r < |ss| && ss[r].state == FREE)
    ensures forall k :: i <= k < |ss| && (r == -1 || k < r) ==> ss[k].state != FREE
    decreases |ss| - i
  {
    if i == |ss| then -1 else if ss[i].state == FREE then i else FindFreeFrom(ss, i + 1)
  }

  predicate AllFit(ss: Slots) {
    forall i :: 0 <= i < |ss| ==> Fits(ss[i])
  }

  /** The timers of the first `n` slots. */
  function Swept(ss: Slots, now: nat, n: nat): (r: Slots)
    requires n <= |ss| && AllFit(ss)
    ensures |r| == |ss| && AllFit(r) && forall i :: 0 <= i < |ss| ==>
            r[i] == if i < n then Sweep(ss[i], now).slot else ss[i]
  {
    if n == 0 then ss
    else
      SweepFits(ss[n - 1], now);
      Swept(ss, now, n - 1)[n - 1 := Sweep(ss[n - 1], now).slot]
  }

  function SweptSent(ss: Slots, now: nat, n: nat): seq<Output>
    requires n <= |ss| && AllFit(ss)
  {
    if n == 0 then [] else SweptSent(ss, now, n - 1) + ForClient(ss[n - 1], Sweep(ss[n - 1], now).sent)
  }

  /** Whether tcp_mux_poll reports the slot: it took data that was next in order. */
  predicate Ready(s: Slot, seg: Segment) {
    s.state == ESTABLISHED && seg.seqno == s.rcvNxt && seg.data != []
  }

  /** The second half of tcp_mux_poll: one segment for one slot. */
  function Dispatch(ss: Slots, localPort: u16, a: Arrival, macKnown: bool, isn: u32, now: nat, tick: nat): Answer
    requires AllFit(ss)
  {
    var i := FindFrom(ss, a.srcIp, a.srcPort, 0);
    if a.dstPort != localPort then Answer(ss, -1, [])
    else if i == -1 then
      var f := FindFreeFrom(ss, 0);
      if a.seg.syn && !a.seg.hasAck && f != -1 && macKnown then
        var e := Accept(ss[f], a.srcIp, a.srcPort, a.seg, isn, now);
        Answer(ss[f := e.slot], -1, Outputs(a.srcIp, a.srcPort, e.sent))
      else Answer(ss, -1, [])
    else
      var e := Receive(ss[i], a.seg, tick);
      Answer(ss[i := e.slot], if Ready(ss[i], a.seg) then i else -1, ForClient(ss[i], e.sent))
  }

  function Poll(ss: Slots, localPort: u16, rx: Option<Arrival>, macKnown: bool, isn: u32, now: nat, tick: nat): Answer
    requires AllFit(ss)
  {
    var swept := Swept(ss, now, |ss|);
    var sent := SweptSent(ss, now, |ss|);
    if rx.None? then Answer(swept, -1, sent)
    else
      var d := Dispatch(swept, localPort, rx.value, macKnown, isn, now, tick);
      Answer(d.slots, d.ready, sent + d.sent)
  }

  // ----- every reachable state

  /** No two connections have the same remote endpoint. */
  predicate DistinctEndpoints(ss: Slots) {
    forall i, j :: 0 <= i < j < |ss| && ss[i].state != FREE ==> !Owns(ss[j], ss[i].remoteIp, ss[i].remotePort)
  }

  /** Timers follow the back-off schedule, and a slot that is not open has no queue. */
  predicate Regular(s: Slot) {
    Fits(s) && OnSchedule(s) && (s.state == SYN_RCVD ==> s.out == [] && s.inflight == 0)
  }

  predicate Reachable(ss: Slots) {
    DistinctEndpoints(ss) && forall i :: 0 <= i < |ss| ==> Regular(ss[i])
  }

  datatype Call =
    | DoPoll(rx: Option<Arrival>, macKnown: bool, isn: u32, now: nat, tick: nat)
    | DoSend(slot: nat, data: seq<byte>, at: nat)
    | DoClose(slot: nat, at: nat)

  function Apply(ss: Slots, localPort: u16, call: Call): Slots
    requires AllFit(ss)
  {
    match call
    case DoPoll(rx, macKnown, isn, now, tick) => Poll(ss, localPort, rx, macKnown, isn, now, tick).slots
    case DoSend(i, data, at) => if i < |ss| then ss[i := Tcp.Send(ss[i], data, at).slot] else ss
    case DoClose(i, at) => if i < |ss| then ss[i := Tcp.Close(ss[i], at).slot] else ss
  }

  lemma PumpRegular(s: Slot, tick: nat)
    requires Regular(s)
    ensures Regular(Pump(s, tick).slot)
  {
    assert RtoAfter(0) == RTO_MS;
  }

  lemma SweepRegular(s: Slot, now: nat)
    requires Regular(s)
    ensures Regular(Sweep(s, now).slot)
  {
  }

  lemma TakeDataRegular(s: Slot, seg: Segment)
    requires Regular(s)
    ensures Regular(TakeData(s, seg).slot)
  {
  }

  lemma ReceiveRegular(s: Slot, seg: Segment, tick: nat)
    requires Regular(s)
    ensures Regular(Receive(s, seg, tick).slot)
  {
    hide Pump, TakeData, RtoAfter;
    if s.state == ESTABLISHED {
      PumpRegular(Acknowledge(s), tick);
      var e := if AcksFlight(s, seg) then Pump(Acknowledge(s), tick) else Effect(s, []);
      TakeDataRegular(e.slot, seg);
    }
  }

  lemma CallsRegular(s: Slot, data: seq<byte>, tick: nat)
    requires Regular(s)
    ensures Regular(Tcp.Send(s, data, tick).slot) && Regular(Tcp.Close(s, tick).slot)
  {
    hide Pump;
    assert RtoAfter(0) == RTO_MS;
    if Accepts(s, data) { PumpRegular(s.(out := s.out + data), tick); }
  }

  /** A call on a slot never moves it to another endpoint, and never opens a free one. */
  predicate SameOwner(s: Slot, s': Slot) {
    s'.state == FREE || (s.state != FREE && s'.remoteIp == s.remoteIp && s'.remotePort == s.remotePort)
  }

  lemma CallsOwner(s: Slot, data: seq<byte>, seg: Segment, t: nat)
    requires Fits(s)
    ensures SameOwner(s, Sweep(s, t).slot) && SameOwner(s, Receive(s, seg, t).slot)
    ensures SameOwner(s, Tcp.Send(s, data, t).slot) && SameOwner(s, Tcp.Close(s, t).slot)
  {
  }

  lemma OwnersDistinct(ss: Slots, ss': Slots)
    requires DistinctEndpoints(ss) && |ss'| == |ss| && forall i :: 0 <= i < |ss| ==> SameOwner(ss[i], ss'[i])
    ensures DistinctEndpoints(ss')
  {
  }

  lemma OneChanged(ss: Slots, i: nat, s': Slot)
    requires Reachable(ss) && i < |ss| && SameOwner(ss[i], s') && Regular(s')
    ensures Reachable(ss[i := s'])
  {
    OwnersDistinct(ss, ss[i := s']);
  }

  lemma SweptReachable(ss: Slots, now: nat)
    requires Reachable(ss) && AllFit(ss)
    ensures Reachable(Swept(ss, now, |ss|))
  {
    hide Sweep, Regular, DistinctEndpoints, SameOwner;
    var r := Swept(ss, now, |ss|);
    forall i | 0 <= i < |ss|
      ensures SameOwner(ss[i], r[i]) && Regular(r[i])
    {
      CallsOwner(ss[i], [], PureAck(ss[i]), now);
      SweepRegular(ss[i], now);
    }
    OwnersDistinct(ss, r);
  }

  lemma DispatchReachable(ss: Slots, localPort: u16, a: Arrival, macKnown: bool, isn: u32, now: nat, tick: nat)
    requires Reachable(ss) && AllFit(ss)
    ensures Reachable(Dispatch(ss, localPort, a, macKnown, isn, now, tick).slots)
  {
    hide Receive, SameOwner;
    var i := FindFrom(ss, a.srcIp, a.srcPort, 0);
    if i != -1 {
      CallsOwner(ss[i], [], a.seg, tick);
      ReceiveRegular(ss[i], a.seg, tick);
      OneChanged(ss, i, Receive(ss[i], a.seg, tick).slot);
    }
  }

  lemma CallReachable(ss: Slots, localPort: u16, call: Call)
    requires Reachable(ss) && AllFit(ss)
    ensures Reachable(Apply(ss, localPort, call))
  {
    hide Reachable, Tcp.Send, Tcp.Close, Dispatch, SameOwner, Regular;
    match call
    case DoPoll(rx, macKnown, isn, now, tick) =>
      SweptReachable(ss, now);
      if rx.Some? { DispatchReachable(Swept(ss, now, |ss|), localPort, rx.value, macKnown, isn, now, tick); }
    case DoSend(i, data, at) =>
      if i < |ss| {
        SlotRegular(ss, i);
        CallsRegular(ss[i], data, at);
        CallsOwner(ss[i], data, PureAck(ss[i]), at);
        OneChanged(ss, i, Tcp.Send(ss[i], data, at).slot);
      }
    case DoClose(i, at) =>
      if i < |ss| {
        SlotRegular(ss, i);
        CallsRegular(ss[i], [], at);
        CallsOwner(ss[i], [], PureAck(ss[i]), at);
        OneChanged(ss, i, Tcp.Close(ss[i], at).slot);
      }
  }

  lemma SlotRegular(ss: Slots, i: nat)
    requires Reachable(ss) && i < |ss|
    ensures Regular(ss[i])
  {
  }

  /** A poll that brings nothing for a connection only runs its timers. */
  lemma OthersSwept(ss: Slots, localPort: u16, rx: Option<Arrival>, macKnown: bool, isn: u32, now: nat, tick: nat,
        i: nat)
    requires AllFit(ss) && i < |ss| && Sweep(ss[i], now).slot.state != FREE
    requires rx.Some? && rx.value.dstPort == localPort ==> !Owns(ss[i], rx.value.srcIp, rx.value.srcPort)
    ensures i < |Poll(ss, localPort, rx, macKnown, isn, now, tick).slots|
    ensures Poll(ss, localPort, rx, macKnown, isn, now, tick).slots[i] == Sweep(ss[i], now).slot
  {
    CallsOwner(ss[i], [], PureAck(ss[i]), now);
  }

  lemma ApplyFits(ss: Slots, localPort: u16, call: Call)
    requires AllFit(ss)
    ensures AllFit(Apply(ss, localPort, call))
  {
    hide Fits, Sweep, Receive, Tcp.Send, Tcp.Close;
    match call
    case DoPoll(rx, macKnown, isn, now, tick) =>
      if rx.Some? {
        var swept, a := Swept(ss, now, |ss|), rx.value;
        var i := FindFrom(swept, a.srcIp, a.srcPort, 0);
        if i != -1 { CallsFit(swept[i], a.seg, [], tick); } else { AcceptFits(ss, a, isn, now); }
      }
    case DoSend(i, data, at) => if i < |ss| { CallsFit(ss[i], PureAck(ss[i]), data, at); }
    case DoClose(i, at) => if i < |ss| { CallsFit(ss[i], PureAck(ss[i]), [], at); }
  }

  lemma AcceptFits(ss: Slots, a: Arrival, isn: u32, now: nat)
    ensures forall s: Slot {:trigger Accept(s, a.srcIp, a.srcPort, a.seg, isn, now)} ::
            Fits(Accept(s, a.srcIp, a.srcPort, a.seg, isn, now).slot)
  {
  }

  ghost function Run(ss: Slots, localPort: u16, calls: seq<Call>): (r: Slots)
    requires AllFit(ss)
    ensures AllFit(r)
  {
    if calls == [] then ss
    else
      var r := Run(ss, localPort, calls[..|calls| - 1]);
      ApplyFits(r, localPort, calls[|calls| - 1]);
      Apply(r, localPort, calls[|calls| - 1])
  }

  lemma {:induction false} RunReachable(ss: Slots, localPort: u16, calls: seq<Call>)
    requires AllFit(ss) && forall k :: 0 <= k < |ss| ==> ss[k].state == FREE
    ensures Reachable(Run(ss, localPort, calls))
  {
    if calls != [] {
      RunReachable(ss, localPort, calls[..|calls| - 1]);
      CallReachable(Run(ss, localPort, calls[..|calls| - 1]), localPort, calls[|calls| - 1]);
    }
  }

  /** From tcp_mux_listen on, whatever arrives and whatever is called: connections
      have distinct remote endpoints, and no timer is over 2000 ms or has run out
      more than five times. */
  lemma ServerInvariant(ss: Slots, localPort: u16, calls: seq<Call>, i: nat, j: nat)
    requires AllFit(ss) && forall k :: 0 <= k < |ss| ==> ss[k].state == FREE
    requires i < |Run(ss, localPort, calls)| && j < |Run(ss, localPort, calls)|
    ensures var r := Run(ss, localPort, calls);
            (r[i].state != FREE && Owns(r[j], r[i].remoteIp, r[i].remotePort) ==> i == j) &&
            (Waits(r[i]) ==> r[i].retries <= 5 && 300 <= r[i].rto <= 2000)
  {
    RunReachable(ss, localPort, calls);
    var r := Run(ss, localPort, calls);
    assert Regular(r[i]) && Regular(r[j]);
  }

  // ----- a client that is not heard from

  /** What a call sends. */
  function Sent(ss: Slots, localPort: u16, call: Call): seq<Output>
    requires AllFit(ss)
  {
    match call
    case DoPoll(rx, macKnown, isn, now, tick) => Poll(ss, localPort, rx, macKnown, isn, now, tick).sent
    case DoSend(i, data, at) => if i < |ss| then ForClient(ss[i], Tcp.Send(ss[i], data, at).sent) else []
    case DoClose(i, at) => if i < |ss| then ForClient(ss[i], Tcp.Close(ss[i], at).sent) else []
  }

  /** Everything that a run sends, in order. */
  ghost function RunSent(ss: Slots, localPort: u16, calls: seq<Call>): seq<Output>
    requires AllFit(ss)
  {
    if calls == [] then []
    else
      var before := calls[..|calls| - 1];
      RunSent(ss, localPort, before) + Sent(Run(ss, localPort, before), localPort, calls[|calls| - 1])
  }

  /** The segments among them for one client. */
  function ToClient(sent: seq<Output>, ip: u32, port: u16): seq<Segment> {
    if sent == [] then []
    else
      var last := sent[|sent| - 1];
      ToClient(sent[..|sent| - 1], ip, port) + if last.ip == ip && last.port == port then [last.seg] else []
  }

  lemma {:induction false} ToClientJoin(a: seq<Output>, b: seq<Output>, ip: u32, port: u16)
    ensures ToClient(a + b, ip, port) == ToClient(a, ip, port) + ToClient(b, ip, port)
  {
    if b == [] {
      assert a + b == a;
    } else {
      assert (a + b)[..|a + b| - 1] == a + b[..|b| - 1];
      ToClientJoin(a, b[..|b| - 1], ip, port);
    }
  }

  lemma {:induction false} ToClientOutputs(to: u32, toPort: u16, segs: seq<Segment>, ip: u32, port: u16)
    ensures ToClient(Outputs(to, toPort, segs), ip, port) == if to == ip && toPort == port then segs else []
  {
    if segs != [] {
      var n := |segs| - 1;
      assert Outputs(to, toPort, segs)[..n] == Outputs(to, toPort, segs[..n]);
      ToClientOutputs(to, toPort, segs[..n], ip, port);
      assert segs == segs[..n] + [segs[n]];
    }
  }

  /** The call brings nothing from the client. */
  predicate Quiet(call: Call, localPort: u16, ip: u32, port: u16) {
    call.DoPoll? && call.rx.Some? && call.rx.value.dstPort == localPort ==>
      !(call.rx.value.srcIp == ip && call.rx.value.srcPort == port)
  }

  /** Slot `i`, and no other, belongs to the client; no slot does when `i` is -1. */
  predicate OnlyOwner(ss: Slots, i: int, ip: u32, port: u16) {
    -1 <= i < |ss| && forall j :: 0 <= j < |ss| ==> (Owns(ss[j], ip, port) <==> j == i)
  }

  /** The timers send a client what its own slot sends. */
  lemma {:induction false} SweptToClient(ss: Slots, now: nat, n: nat, i: int, ip: u32, port: u16)
    requires AllFit(ss) && n <= |ss| && OnlyOwner(ss, i, ip, port)
    ensures ToClient(SweptSent(ss, now, n), ip, port) == if 0 <= i < n then Sweep(ss[i], now).sent else []
  {
    hide Sweep, Fits, OnlyOwner, Owns, ForClient, ToClient;
    if n > 0 {
      SweptToClient(ss, now, n - 1, i, ip, port);
      SlotToClient(SweptSent(ss, now, n - 1), ss[n - 1], now, ip, port);
      OwnerIs(ss, i, n - 1, ip, port);
    } else {
      NothingSent(ip, port);
    }
  }

  lemma OwnerIs(ss: Slots, i: int, j: nat, ip: u32, port: u16)
    requires OnlyOwner(ss, i, ip, port) && j < |ss|
    ensures i < |ss| && (Owns(ss[j], ip, port) <==> j == i)
  {
  }

  lemma NothingSent(ip: u32, port: u16)
    ensures ToClient([], ip, port) == []
  {
  }

  lemma SlotToClient(sent: seq<Output>, s: Slot, now: nat, ip: u32, port: u16)
    requires Fits(s)
    ensures ToClient(sent + ForClient(s, Sweep(s, now).sent), ip, port) ==
            ToClient(sent, ip, port) + if Owns(s, ip, port) then Sweep(s, now).sent else []
  {
    hide Sweep;
    ToClientJoin(sent, ForClient(s, Sweep(s, now).sent), ip, port);
    ToClientOutputs(s.remoteIp, s.remotePort, Sweep(s, now).sent, ip, port);
    FreeSilent(s, now);
  }

  lemma FreeSilent(s: Slot, now: nat)
    requires Fits(s)
    ensures s.state == FREE ==> Sweep(s, now).sent == []
  {
  }

  /** A segment from somebody else changes nothing for the client. */
  lemma DispatchOther(ss: Slots, localPort: u16, a: Arrival, macKnown: bool, isn: u32, now: nat, tick: nat, ip: u32,
        port: u16)
    requires AllFit(ss) && (a.dstPort == localPort ==> !(a.srcIp == ip && a.srcPort == port))
    ensures var d := Dispatch(ss, localPort, a, macKnown, isn, now, tick);
            |d.slots| == |ss| && ToClient(d.sent, ip, port) == [] &&
            (forall j :: 0 <= j < |ss| && Owns(ss[j], ip, port) ==> d.slots[j] == ss[j]) &&
            (forall j :: 0 <= j < |ss| && Owns(d.slots[j], ip, port) ==> Owns(ss[j], ip, port))
  {
    hide Fits, Receive;
    var i := FindFrom(ss, a.srcIp, a.srcPort, 0);
    if i == -1 {
      var f := FindFreeFrom(ss, 0);
      if f != -1 {
        ToClientOutputs(a.srcIp, a.srcPort, Accept(ss[f], a.srcIp, a.srcPort, a.seg, isn, now).sent, ip, port);
      }
    } else {
      var e := Receive(ss[i], a.seg, tick);
      CallsOwner(ss[i], [], a.seg, tick);
      ToClientOutputs(ss[i].remoteIp, ss[i].remotePort, e.sent, ip, port);
    }
  }

  /** A client without a slot gets none, and nothing is sent to it. */
  lemma GoneStays(ss: Slots, localPort: u16, call: Call, ip: u32, port: u16)
    requires AllFit(ss) && OnlyOwner(ss, -1, ip, port) && Quiet(call, localPort, ip, port)
    ensures OnlyOwner(Apply(ss, localPort, call), -1, ip, port) && ToClient(Sent(ss, localPort, call), ip, port) == []
  {
    hide Fits, Sweep, Tcp.Send, Tcp.Close, Dispatch, ToClient, Receive;
    NothingSent(ip, port);
    match call
    case DoPoll(rx, macKnown, isn, now, tick) => PollOther(ss, localPort, rx, macKnown, isn, now, tick, -1, ip, port);
    case DoSend(i, data, at) => if i < |ss| { SlotCallOther(ss, i, data, at, ip, port); }
    case DoClose(i, at) => if i < |ss| { SlotCallOther(ss, i, [], at, ip, port); }
  }

  /** What a poll does for a client that it brings nothing from: its slot's timers. */
  lemma PollOther(ss: Slots, localPort: u16, rx: Option<Arrival>, macKnown: bool, isn: u32, now: nat, tick: nat,
                  i: int, ip: u32, port: u16)
    requires AllFit(ss) && OnlyOwner(ss, i, ip, port)
    requires Quiet(DoPoll(rx, macKnown, isn, now, tick), localPort, ip, port)
    ensures var p := Poll(ss, localPort, rx, macKnown, isn, now, tick);
            |p.slots| == |ss| && ToClient(p.sent, ip, port) == (if i == -1 then [] else Sweep(ss[i], now).sent) &&
            if i == -1 || Sweep(ss[i], now).slot.state == FREE then OnlyOwner(p.slots, -1, ip, port)
            else OnlyOwner(p.slots, i, ip, port) && p.slots[i] == Sweep(ss[i], now).slot
  {
    hide Fits, Sweep, Dispatch, ToClient;
    SweptToClient(ss, now, |ss|, i, ip, port);
    var swept := Swept(ss, now, |ss|);
    forall j | 0 <= j < |ss| ensures SameOwner(ss[j], swept[j]) {
      CallsOwner(ss[j], [], PureAck(ss[j]), now);
    }
    if rx.Some? {
      DispatchOther(swept, localPort, rx.value, macKnown, isn, now, tick, ip, port);
      ToClientJoin(SweptSent(ss, now, |ss|), Dispatch(swept, localPort, rx.value, macKnown, isn, now, tick).sent, ip,
        port);
    }
  }

  /** Sending on a slot of somebody else, or closing it, sends the client nothing. */
  lemma SlotCallOther(ss: Slots, i: nat, data: seq<byte>, at: nat, ip: u32, port: u16)
    requires AllFit(ss) && i < |ss| && !Owns(ss[i], ip, port)
    ensures ToClient(ForClient(ss[i], Tcp.Send(ss[i], data, at).sent), ip, port) == []
    ensures ToClient(ForClient(ss[i], Tcp.Close(ss[i], at).sent), ip, port) == []
    ensures !Owns(Tcp.Send(ss[i], data, at).slot, ip, port) && !Owns(Tcp.Close(ss[i], at).slot, ip, port)
  {
    hide ToClient;
    ToClientOutputs(ss[i].remoteIp, ss[i].remotePort, Tcp.Send(ss[i], data, at).sent, ip, port);
    ToClientOutputs(ss[i].remoteIp, ss[i].remotePort, Tcp.Close(ss[i], at).sent, ip, port);
    CallsOwner(ss[i], data, PureAck(ss[i]), at);
    if ss[i].state == FREE { assert !Accepts(ss[i], data); }
  }

  /** The call finds that the deadline of the client's flight has passed. */
  predicate Expires(ss: Slots, call: Call, i: nat, ip: u32, port: u16) {
    call.DoPoll? && i < |ss| && Owns(ss[i], ip, port) && Waits(ss[i]) && call.now >= ss[i].rtoDeadline
  }

  /** One call in the silence of the client of slot `i`. */
  lemma SilentCall(ss: Slots, localPort: u16, call: Call, i: nat, ip: u32, port: u16)
    requires AllFit(ss) && OnlyOwner(ss, i, ip, port) && Waits(ss[i]) && OnSchedule(ss[i])
    requires Quiet(call, localPort, ip, port)
    ensures var s, ss' := ss[i], Apply(ss, localPort, call);
            var sent := ToClient(Sent(ss, localPort, call), ip, port);
            if !Expires(ss, call, i, ip, port) then
              sent == [] && OnlyOwner(ss', i, ip, port) && Fits(ss'[i]) && WaitsAsBefore(s, ss'[i])
            else if s.retries == MAX_RETRIES then sent == [] && OnlyOwner(ss', -1, ip, port)
            else
              sent == [Flight(s)] && OnlyOwner(ss', i, ip, port) && Fits(ss'[i]) && Waits(ss'[i]) &&
              Flight(ss'[i]) == Flight(s) && ss'[i].retries == s.retries + 1 && OnSchedule(ss'[i]) &&
              ss'[i].rtoDeadline == call.now + RtoAfter(s.retries + 1) / 10
  {
    hide Tcp.Send, Tcp.Close, Sweep, ToClient, Dispatch, Flight, RtoAfter, Fits;
    ApplyFits(ss, localPort, call);
    NothingSent(ip, port);
    match call
    case DoPoll(rx, macKnown, isn, now, tick) =>
      PollOther(ss, localPort, rx, macKnown, isn, now, tick, i, ip, port);
      SilentPoll(ss[i], now);
    case DoSend(j, data, at) => if j < |ss| { SilentSlotCall(ss, i, j, data, at, ip, port); }
    case DoClose(j, at) => if j < |ss| { SilentSlotCall(ss, i, j, [], at, ip, port); }
  }

  lemma SilentSlotCall(ss: Slots, i: nat, j: nat, data: seq<byte>, at: nat, ip: u32, port: u16)
    requires AllFit(ss) && OnlyOwner(ss, i, ip, port) && Waits(ss[i]) && j < |ss|
    ensures ToClient(ForClient(ss[j], Tcp.Send(ss[j], data, at).sent), ip, port) == []
    ensures ToClient(ForClient(ss[j], Tcp.Close(ss[j], at).sent), ip, port) == []
    ensures OnlyOwner(ss[j := Tcp.Send(ss[j], data, at).slot], i, ip, port)
    ensures OnlyOwner(ss[j := Tcp.Close(ss[j], at).slot], i, ip, port)
    ensures i == j ==> Fits(Tcp.Send(ss[j], data, at).slot) && WaitsAsBefore(ss[i], Tcp.Send(ss[j], data, at).slot)
    ensures i == j ==> Fits(Tcp.Close(ss[j], at).slot) && WaitsAsBefore(ss[i], Tcp.Close(ss[j], at).slot)
  {
    hide Tcp.Send, Tcp.Close, Flight, Fits;
    if i == j { WaitingCalls(ss[i], data, at); } else { SlotCallOther(ss, j, data, at, ip, port); }
  }

  /** How often in a run slot `i` found the deadline of its flight passed. */
  ghost function Expiries(ss: Slots, localPort: u16, calls: seq<Call>, i: nat): nat
    requires AllFit(ss) && i < |ss|
  {
    if calls == [] then 0
    else
      var before := calls[..|calls| - 1];
      var r := Run(ss, localPort, before);
      Expiries(ss, localPort, before, i) +
      if Expires(r, calls[|calls| - 1], i, ss[i].remoteIp, ss[i].remotePort) then 1 else 0
  }

  predicate AllQuiet(calls: seq<Call>, localPort: u16, ip: u32, port: u16) {
    forall k :: 0 <= k < |calls| ==> Quiet(calls[k], localPort, ip, port)
  }

  /** In the silence of the client of slot `i`: what it was sent, and whether it still
      has its slot, after `k` passed deadlines. */
  ghost predicate InSilence(s: Slot, r: Slots, sent: seq<Segment>, i: nat, k: nat)
    requires Fits(s) && AllFit(r)
  {
    var total := s.retries + k;
    s.retries <= MAX_RETRIES && total <= MAX_RETRIES + 1 &&
      sent == seq(Min(k, MAX_RETRIES - s.retries), _ => Flight(s)) &&
    if total <= MAX_RETRIES then
      OnlyOwner(r, i, s.remoteIp, s.remotePort) && Waits(r[i]) && Flight(r[i]) == Flight(s) &&
      r[i].retries == total && OnSchedule(r[i])
    else OnlyOwner(r, -1, s.remoteIp, s.remotePort)
  }

  /** Any run of polls, sends and closes in which nothing arrives from the client of a
      slot that waits: at each passed deadline but the last the flight is sent again,
      and nothing else is sent to the client; the slot is given up exactly at the
      sixth deadline since the flight was first sent. */
  lemma {:induction false} SilentClient(ss: Slots, localPort: u16, calls: seq<Call>, i: nat)
    requires Reachable(ss) && AllFit(ss) && i < |ss| && Waits(ss[i])
    requires AllQuiet(calls, localPort, ss[i].remoteIp, ss[i].remotePort)
    ensures InSilence(ss[i], Run(ss, localPort, calls),
                      ToClient(RunSent(ss, localPort, calls), ss[i].remoteIp, ss[i].remotePort),
                      i, Expiries(ss, localPort, calls, i))
  {
    var s := ss[i];
    SlotRegular(ss, i);
    if calls == [] {
      assert OnlyOwner(ss, i, s.remoteIp, s.remotePort);
    } else {
      var before, call := calls[..|calls| - 1], calls[|calls| - 1];
      SilentClient(ss, localPort, before, i);
      ToClientJoin(RunSent(ss, localPort, before), Sent(Run(ss, localPort, before), localPort, call), s.remoteIp,
        s.remotePort);
      SilenceGoesOn(s, Run(ss, localPort, before), localPort, call, i, Expiries(ss, localPort, before, i),
                    ToClient(RunSent(ss, localPort, before), s.remoteIp, s.remotePort));
    }
  }

  lemma SilenceGoesOn(s: Slot, r: Slots, localPort: u16, call: Call, i: nat, k: nat, sent: seq<Segment>)
    requires Fits(s) && Waits(s) && AllFit(r)
    requires InSilence(s, r, sent, i, k) && Quiet(call, localPort, s.remoteIp, s.remotePort)
    ensures AllFit(Apply(r, localPort, call))
    ensures InSilence(s, Apply(r, localPort, call), sent + ToClient(Sent(r, localPort, call), s.remoteIp, s.remotePort),
                      i, k + if Expires(r, call, i, s.remoteIp, s.remotePort) then 1 else 0)
  {
    hide Apply, Sent, ToClient, Flight, Fits, RtoAfter;
    ApplyFits(r, localPort, call);
    if s.retries + k <= MAX_RETRIES {
      SilentCall(r, localPort, call, i, s.remoteIp, s.remotePort);
    } else {
      GoneStays(r, localPort, call, s.remoteIp, s.remotePort);
    }
  }

  /** No deadline passed early, and the last only when all six waits were over. */
  ghost predicate OnTime(s: Slot, r: Slots, calls: seq<Call>, i: nat, k: nat) {
    var first := s.rtoDeadline - WaitFor(s.retries + 1);
    if s.retries + k <= MAX_RETRIES then i < |r| && r[i].rtoDeadline >= first + WaitFor(s.retries + k + 1)
    else exists c :: 0 <= c < |calls| && calls[c].DoPoll? && calls[c].now >= first + WaitFor(MAX_RETRIES + 1)
  }

  /** The deadlines follow the back-off: the slot of a client whose flight was first
      sent at tick t, with deadline t + 30, is given up no sooner than at t + 810. */
  lemma {:induction false} SilenceTakes(ss: Slots, localPort: u16, calls: seq<Call>, i: nat)
    requires Reachable(ss) && AllFit(ss) && i < |ss| && Waits(ss[i])
    requires AllQuiet(calls, localPort, ss[i].remoteIp, ss[i].remotePort)
    ensures OnTime(ss[i], Run(ss, localPort, calls), calls, i, Expiries(ss, localPort, calls, i))
  {
    hide Apply, InSilence, OnTime, Fits, Reachable, Waits, Quiet, Expires, Sent, ToClient;
    SlotRegular(ss, i);
    if calls == [] {
      OnTimeStart(ss, i);
    } else {
      var before, call, s := calls[..|calls| - 1], calls[|calls| - 1], ss[i];
      SilentClient(ss, localPort, before, i);
      SilenceTakes(ss, localPort, before, i);
      assert calls == before + [call];
      OnTimeStep(s, Run(ss, localPort, before), localPort, before, call, i, Expiries(ss, localPort, before, i),
                 ToClient(RunSent(ss, localPort, before), s.remoteIp, s.remotePort));
    }
  }

  lemma OnTimeStart(ss: Slots, i: nat)
    requires i < |ss| && Regular(ss[i]) && Waits(ss[i])
    ensures OnTime(ss[i], ss, [], i, 0)
  {
  }

  lemma OnTimeStep(s: Slot, r: Slots, localPort: u16, before: seq<Call>, call: Call, i: nat, k: nat, sent: seq<Segment>)
    requires Fits(s) && Waits(s) && AllFit(r) && InSilence(s, r, sent, i, k) && OnTime(s, r, before, i, k)
    requires Quiet(call, localPort, s.remoteIp, s.remotePort)
    ensures OnTime(s, Apply(r, localPort, call), before + [call], i,
                   k + if Expires(r, call, i, s.remoteIp, s.remotePort) then 1 else 0)
  {
    hide Apply, Sent, ToClient, Flight, Fits, RtoAfter, Quiet;
    var calls := before + [call];
    assert calls[|before|] == call;
    if s.retries + k <= MAX_RETRIES {
      DeadlineMoves(s, r, localPort, call, i, k, sent);
    } else {
      var c :| 0 <= c < |before| && before[c].DoPoll? &&
               before[c].now >= s.rtoDeadline - WaitFor(s.retries + 1) + WaitFor(MAX_RETRIES + 1);
      assert calls[c] == before[c];
    }
  }

  lemma DeadlineMoves(s: Slot, r: Slots, localPort: u16, call: Call, i: nat, k: nat, sent: seq<Segment>)
    requires Fits(s) && Waits(s) && AllFit(r) && s.retries + k <= MAX_RETRIES
    requires InSilence(s, r, sent, i, k) && Quiet(call, localPort, s.remoteIp, s.remotePort)
    ensures var r' := Apply(r, localPort, call);
            if !Expires(r, call, i, s.remoteIp, s.remotePort) then i < |r'| && r'[i].rtoDeadline == r[i].rtoDeadline
            else
              call.now >= r[i].rtoDeadline &&
              (s.retries + k < MAX_RETRIES ==>
                i < |r'| && r'[i].rtoDeadline == call.now + RtoAfter(s.retries + k + 1) / 10)
  {
    hide Apply, Sent, ToClient, Flight, Fits, RtoAfter;
    SilentCall(r, localPort, call, i, s.remoteIp, s.remotePort);
  }

  /** From tcp_mux_listen on, after whatever calls and arrivals: a client that stops
      answering has its flight sent again at most five times and then loses its slot. */
  lemma SilentInEveryRun(ss: Slots, localPort: u16, earlier: seq<Call>, calls: seq<Call>, i: nat)
    requires AllFit(ss) && forall k :: 0 <= k < |ss| ==> ss[k].state == FREE
    requires var now := Run(ss, localPort, earlier);
             i < |now| && Waits(now[i]) && AllQuiet(calls, localPort, now[i].remoteIp, now[i].remotePort)
    ensures var now := Run(ss, localPort, earlier);
            var r, k := Run(now, localPort, calls), Expiries(now, localPort, calls, i);
            now[i].retries <= 5 && now[i].retries + k <= 6 &&
            ToClient(RunSent(now, localPort, calls), now[i].remoteIp, now[i].remotePort) ==
              seq(Min(k, 5 - now[i].retries), _ => Flight(now[i])) &&
            ((exists j :: 0 <= j < |r| && Owns(r[j], now[i].remoteIp, now[i].remotePort)) <==>
             now[i].retries + k <= 5)
  {
    RunReachable(ss, localPort, earlier);
    SilentClient(Run(ss, localPort, earlier), localPort, calls, i);
  }
}
