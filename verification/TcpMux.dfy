/** The TCP server of src/user/tcp.h on its slots in memory. Every method does to
    the slots what the function of the same name in Tcp and TcpServer says; the
    segments it hands to the network card are its result `sent`. */
module TcpMux {
  import opened Bytes
  import opened Wrappers
  import opened Tcp
  import opened TcpServer

  /** Moves `n` bytes from offset `from` to the front. */
  method MoveDown(a: array<byte>, from: nat, n: nat)
    requires from + n <= a.Length
    modifies a
    ensures a[..n] == old(a[from..from + n])
  {
    for i := 0 to n
      invariant forall k :: 0 <= k < i ==> a[k] == old(a[from + k])
      invariant forall k :: i <= k < a.Length ==> a[k] == old(a[k])
    {
      a[i] := a[from + i];
    }
  }

  /** Copies `data` to offset `at`. */
  method CopyIn(a: array<byte>, at: nat, data: seq<byte>)
    requires at + |data| <= a.Length
    modifies a
    ensures a[..at + |data|] == old(a[..at]) + data
  {
    for i := 0 to |data|
      invariant a[..at + i] == old(a[..at]) + data[..i]
    {
      a[at + i] := data[i];
    }
  }

  class TcpSlot {
    var state: Phase
    var remoteIp: u32
    var remotePort: u16
    var sndNxt: u32
    var rcvNxt: u32
    var connected: bool
    const outbuf: array<byte>
    var outLen: nat
    var outAcked: nat
    var outInflight: nat
    var outRetries: nat
    var outRto: nat
    var outRtoDeadline: nat
    var closeAfter: bool
    const reqbuf: array<byte>
    var reqlen: nat
    var deadline: nat

    ghost function Repr(): set<object> {
      {this, outbuf, reqbuf}
    }

    ghost predicate Valid()
      reads this
    {
      outbuf.Length == OUT_BUF_SIZE && reqbuf.Length == REQ_BUF_SIZE && outbuf != reqbuf &&
      outAcked + outInflight <= outLen <= OUT_BUF_SIZE && reqlen <= REQ_BUF_SIZE
    }

    ghost function Value(): (s: Slot)
      requires Valid()
      reads this, outbuf, reqbuf
      ensures Fits(s)
    {
      Slot(state, remoteIp, remotePort, sndNxt, rcvNxt, connected, outbuf[..outLen], outAcked, outInflight,
           outRetries, outRto, outRtoDeadline, closeAfter, reqbuf[..reqlen], deadline)
    }

    constructor ()
      ensures Valid() && state == FREE && fresh(outbuf) && fresh(reqbuf)
    {
      state, remoteIp, remotePort, sndNxt, rcvNxt, connected := FREE, 0, 0, 0, 0, false;
      outbuf, reqbuf := new byte[OUT_BUF_SIZE], new byte[REQ_BUF_SIZE];
      outLen, outAcked, outInflight, outRetries, outRto, outRtoDeadline := 0, 0, 0, 0, 0, 0;
      closeAfter, reqlen, deadline := false, 0, 0;
    }

    function Header(fin: bool, data: seq<byte>): Segment
      reads this
    {
      Segment(sndNxt, rcvNxt, false, true, fin, data)
    }

    method StartClosing(tick: nat) returns (sent: seq<Segment>)
      requires Valid()
      modifies this`state, this`outRetries, this`outRto, this`outRtoDeadline
      ensures Valid() && Effect(Value(), sent) == Tcp.StartClosing(old(Value()), tick)
    {
      sent := [Header(true, [])];
      state := CLOSING;
      outRetries := 0;
      outRto := RTO_MS;
      outRtoDeadline := tick + RTO_MS / 10;
    }

    method Pump(tick: nat) returns (sent: seq<Segment>)
      requires Valid()
      modifies this
      ensures Valid() && Effect(Value(), sent) == Tcp.Pump(old(Value()), tick)
    {
      if state != ESTABLISHED { return []; }
      if outInflight > 0 { return []; }
      var remaining := outLen - outAcked;
      if remaining == 0 {
        if closeAfter {
          sent := StartClosing(tick);
          closeAfter := false;
          return;
        }
        return [];
      }
      var chunk := remaining;
      if chunk > MAX_CHUNK { chunk := MAX_CHUNK; }
      sent := [Header(false, outbuf[outAcked..outAcked + chunk])];
      assert outbuf[..outLen][outAcked..outAcked + chunk] == outbuf[outAcked..outAcked + chunk];
      outInflight := chunk;
      outRetries := 0;
      outRto := RTO_MS;
      outRtoDeadline := tick + RTO_MS / 10;
    }

    method Backoff(now: nat)
      requires Valid()
      modifies this`outRetries, this`outRto, this`outRtoDeadline
      ensures Valid() && Value() == Tcp.Backoff(old(Value()), now)
    {
      outRetries := outRetries + 1;
      outRto := outRto * 2;
      if outRto > RTO_MAX_MS { outRto := RTO_MAX_MS; }
      outRtoDeadline := now + outRto / 10;
    }

    /** The timers of one slot at the start of tcp_mux_poll. */
    method Sweep(now: nat) returns (sent: seq<Segment>)
      requires Valid()
      modifies this
      ensures Valid() && Effect(Value(), sent) == Tcp.Sweep(old(Value()), now)
    {
      sent := [];
      if state == SYN_RCVD && now >= deadline {
        state := FREE;
      }
      if state == CLOSING && now >= outRtoDeadline {
        if outRetries >= MAX_RETRIES {
          state := FREE;
        } else {
          sent := sent + [Header(true, [])];
          Backoff(now);
        }
      }
      if state == ESTABLISHED && outInflight > 0 && now >= outRtoDeadline {
        if outRetries >= MAX_RETRIES {
          state := FREE;
        } else {
          sent := sent + [Header(false, outbuf[outAcked..outAcked + outInflight])];
          assert outbuf[..outLen][outAcked..outAcked + outInflight] == outbuf[outAcked..outAcked + outInflight];
          Backoff(now);
        }
      }
    }

    method SetPeer(ip: u32, port: u16, rcv: u32, isn: u32)
      requires Valid()
      modifies this`remoteIp, this`remotePort, this`rcvNxt, this`sndNxt, this`connected
      ensures Valid()
      ensures Value() == old(Value()).(remoteIp := ip, remotePort := port, rcvNxt := rcv, sndNxt := isn,
              connected := false)
    {
      remoteIp, remotePort, rcvNxt, sndNxt, connected := ip, port, rcv, isn, false;
    }

    method ClearQueues()
      requires Valid()
      modifies this`reqlen, this`outLen, this`outAcked, this`outInflight, this`outRetries, this`closeAfter
      ensures Valid()
      ensures Value() == old(Value()).(out := [], acked := 0, inflight := 0, retries := 0, closeAfter := false,
              request := [])
    {
      reqlen, outLen, outAcked, outInflight, outRetries := 0, 0, 0, 0, 0;
      closeAfter := false;
      assert outbuf[..0] == [] && reqbuf[..0] == [];
    }

    method Accept(ip: u32, port: u16, seg: Segment, isn: u32, now: nat) returns (sent: seq<Segment>)
      requires Valid()
      modifies this
      ensures Valid() && Effect(Value(), sent) == Tcp.Accept(old(Value()), ip, port, seg, isn, now)
    {
      hide Fits;
      SetPeer(ip, port, Add32(seg.seqno, 1), isn);
      ClearQueues();
      state := SYN_RCVD;
      deadline := now + HANDSHAKE_TICKS;
      sent := [Segment(sndNxt, rcvNxt, true, true, false, [])];
    }

    /** The acknowledged part of the queue is dropped, and the rest moved down. */
    method Acknowledge()
      requires Valid()
      modifies this, outbuf
      ensures Valid() && Value() == Tcp.Acknowledge(old(Value()))
    {
      sndNxt := Add32(sndNxt, outInflight);
      outAcked := outAcked + outInflight;
      outInflight := 0;
      if outAcked > 0 {
        var remaining := outLen - outAcked;
        ghost var was := outbuf[..];
        MoveDown(outbuf, outAcked, remaining);
        assert outbuf[..remaining] == was[outAcked..outLen] == was[..outLen][outAcked..];
        outLen := remaining;
        outAcked := 0;
      } else {
        assert outbuf[..outLen] == outbuf[..outLen][0..];
      }
    }

    method TakeData(seg: Segment) returns (sent: seq<Segment>)
      requires Valid()
      modifies this, reqbuf
      ensures Valid() && Effect(Value(), sent) == Tcp.TakeData(old(Value()), seg)
    {
      if seg.seqno != rcvNxt { return []; }
      var room := REQ_BUF_SIZE - reqlen;
      var copied := if |seg.data| > room then room else |seg.data|;
      CopyIn(reqbuf, reqlen, seg.data[..copied]);
      reqlen := reqlen + copied;
      rcvNxt := Add32(rcvNxt, |seg.data|);
      if seg.fin { rcvNxt := Add32(rcvNxt, 1); }
      sent := if |seg.data| > 0 || seg.fin then [Header(false, [])] else [];
    }

    /** A segment for a slot in use, by the state of the slot. */
    method Receive(seg: Segment, tick: nat) returns (ready: bool, sent: seq<Segment>)
      requires Valid() && state != FREE
      modifies this, outbuf, reqbuf
      ensures Valid() && Effect(Value(), sent) == Tcp.Receive(old(Value()), seg, tick)
      ensures ready == Ready(old(Value()), seg)
    {
      hide Tcp.Pump, Tcp.Acknowledge, Tcp.TakeData;
      ready, sent := false, [];
      if state == SYN_RCVD {
        if seg.hasAck && seg.ack == Add32(sndNxt, 1) {
          sndNxt := Add32(sndNxt, 1);
          connected := true;
          state := ESTABLISHED;
        } else if seg.syn && !seg.hasAck {
          sent := [Segment(sndNxt, rcvNxt, true, true, false, [])];
        }
      } else if state == ESTABLISHED {
        ready := seg.seqno == rcvNxt && |seg.data| > 0;
        if outInflight > 0 && seg.hasAck && AtOrAfter(seg.ack, Add32(sndNxt, outInflight)) {
          Acknowledge();
          sent := Pump(tick);
        }
        var more := TakeData(seg);
        sent := sent + more;
      } else {
        if |seg.data| > 0 || seg.fin {
          rcvNxt := Add32(rcvNxt, |seg.data|);
          if seg.fin { rcvNxt := Add32(rcvNxt, 1); }
          sent := [Header(false, [])];
        }
        state := FREE;
      }
    }

    /** tcp_mux_send on one slot; -1 when it is not open or the queue has no room. */
    method Send(data: seq<byte>, tick: nat) returns (r: int, sent: seq<Segment>)
      requires Valid() && (state == ESTABLISHED ==> outLen + |data| < U32_LIMIT)
      modifies this, outbuf
      ensures Valid() && Effect(Value(), sent) == Tcp.Send(old(Value()), data, tick)
      ensures r == if Accepts(old(Value()), data) then 0 else -1
    {
      hide Tcp.Pump;
      if state != ESTABLISHED { return -1, []; }
      if (outLen + |data|) % U32_LIMIT > OUT_BUF_SIZE { return -1, []; }
      CopyIn(outbuf, outLen, data);
      outLen := outLen + |data|;
      sent := Pump(tick);
      r := 0;
    }

    method Close(tick: nat) returns (sent: seq<Segment>)
      requires Valid()
      modifies this
      ensures Valid() && Effect(Value(), sent) == Tcp.Close(old(Value()), tick)
    {
      if state != ESTABLISHED { return []; }
      if outInflight > 0 || outAcked < outLen {
        closeAfter := true;
        return [];
      }
      sent := StartClosing(tick);
    }
  }

  class Mux {
    const slots: seq<TcpSlot>
    var localPort: u16

    ghost predicate Valid()
      reads this, slots
    {
      |slots| == MAX_CONNS && (forall i :: 0 <= i < |slots| ==> slots[i].Valid() && this !in slots[i].Repr()) &&
      (forall i, j :: 0 <= i < j < |slots| ==> slots[i].Repr() !! slots[j].Repr())
    }

    ghost function Footprint(): set<object> {
      set i: nat, o: object | i < |slots| && o in slots[i].Repr() :: o
    }

    ghost function Values(): (ss: Slots)
      requires Valid()
      reads this, slots, Footprint()
      ensures |ss| == MAX_CONNS && AllFit(ss) && forall i :: 0 <= i < MAX_CONNS ==> ss[i] == slots[i].Value()
    {
      seq(MAX_CONNS, i requires 0 <= i < MAX_CONNS && Valid() reads this, slots, Footprint() => slots[i].Value())
    }

    constructor ()
      ensures Valid() && fresh(Footprint())
      ensures forall i :: 0 <= i < MAX_CONNS ==> slots[i].state == FREE
    {
      var a := new TcpSlot();
      var b := new TcpSlot();
      var c := new TcpSlot();
      var d := new TcpSlot();
      slots, localPort := [a, b, c, d], 0;
      new;
      assert forall i :: 0 <= i < MAX_CONNS ==>
             slots[i] == if i == 0 then a else if i == 1 then b else if i == 2 then c else d;
    }

    /** tcp_mux_listen */
    method Listen(port: u16)
      requires Valid()
      modifies this, slots
      ensures Valid() && localPort == port
      ensures forall i :: 0 <= i < MAX_CONNS ==> Values()[i] == old(Values())[i].(state := FREE)
    {
      hide Values;
      localPort := port;
      for i := 0 to MAX_CONNS
        invariant Valid() && localPort == port
        invariant forall k :: 0 <= k < MAX_CONNS ==>
                  Values()[k] == if k < i then old(Values())[k].(state := FREE) else old(Values())[k]
      {
        ReleaseAt(i);
      }
    }

    method ReleaseAt(i: nat)
      requires Valid() && i < MAX_CONNS
      modifies slots[i]
      ensures Valid() && Values() == old(Values())[i := old(Values())[i].(state := FREE)]
    {
      slots[i].state := FREE;
    }

    method Find(ip: u32, port: u16) returns (r: int)
      requires Valid()
      ensures r == FindFrom(Values(), ip, port, 0)
    {
      for i := 0 to MAX_CONNS
        invariant FindFrom(Values(), ip, port, 0) == FindFrom(Values(), ip, port, i)
      {
        assert Values()[i] == slots[i].Value();
        if slots[i].state != FREE && slots[i].remoteIp == ip && slots[i].remotePort == port { return i; }
      }
      return -1;
    }

    method FindFree() returns (r: int)
      requires Valid()
      ensures r == FindFreeFrom(Values(), 0)
    {
      for i := 0 to MAX_CONNS
        invariant FindFreeFrom(Values(), 0) == FindFreeFrom(Values(), i)
      {
        assert Values()[i] == slots[i].Value();
        if slots[i].state == FREE { return i; }
      }
      return -1;
    }

    /** tcp_mux_poll: the timers of every slot, then at most one segment. `rx` is
        what the card delivers, `isn` the random number drawn for a new client. */
    method Poll(rx: Option<Arrival>, macKnown: bool, isn: u32, now: nat, tick: nat)
          returns (ready: int, sent: seq<Output>)
      requires Valid()
      modifies Footprint()
      ensures Valid() && Answer(Values(), ready, sent) ==
              TcpServer.Poll(old(Values()), localPort, rx, macKnown, isn, now, tick)
    {
      sent := SweepAll(now);
      if rx.None? { return -1, sent; }
      var more;
      ready, more := Dispatch(rx.value, macKnown, isn, now, tick);
      sent := sent + more;
    }

    method SweepAll(now: nat) returns (sent: seq<Output>)
      requires Valid()
      modifies Footprint()
      ensures Valid() && Values() == Swept(old(Values()), now, MAX_CONNS) &&
              sent == SweptSent(old(Values()), now, MAX_CONNS)
    {
      hide Tcp.Sweep, Fits, Valid, Values;
      sent := [];
      for i := 0 to MAX_CONNS
        invariant Valid()
        invariant Values() == Swept(old(Values()), now, i) && sent == SweptSent(old(Values()), now, i)
      {
        var more := SweepAt(i, now);
        sent := sent + more;
      }
    }

    method SweepAt(i: nat, now: nat) returns (sent: seq<Output>)
      requires Valid() && i < MAX_CONNS
      modifies Footprint()
      ensures Valid() && Values() == old(Values())[i := Tcp.Sweep(old(Values())[i], now).slot]
      ensures sent == ForClient(old(Values())[i], Tcp.Sweep(old(Values())[i], now).sent)
    {
      hide Tcp.Sweep, Fits;
      ghost var ss := Values();
      var ip, port := slots[i].remoteIp, slots[i].remotePort;
      var segs := slots[i].Sweep(now);
      assert Values() == ss[i := slots[i].Value()];
      sent := Outputs(ip, port, segs);
    }

    method AcceptAt(i: nat, a: Arrival, isn: u32, now: nat) returns (sent: seq<Output>)
      requires Valid() && i < MAX_CONNS
      modifies Footprint()
      ensures Valid() && Values() ==
              old(Values())[i := Tcp.Accept(old(Values())[i], a.srcIp, a.srcPort, a.seg, isn, now).slot]
      ensures sent == Outputs(a.srcIp, a.srcPort,
              Tcp.Accept(old(Values())[i], a.srcIp, a.srcPort, a.seg, isn, now).sent)
    {
      hide Tcp.Accept, Fits;
      ghost var ss := Values();
      var segs := slots[i].Accept(a.srcIp, a.srcPort, a.seg, isn, now);
      assert Values() == ss[i := slots[i].Value()];
      sent := Outputs(a.srcIp, a.srcPort, segs);
    }

    method ReceiveAt(i: nat, seg: Segment, tick: nat) returns (ready: bool, sent: seq<Output>)
      requires Valid() && i < MAX_CONNS && Values()[i].state != FREE
      modifies Footprint()
      ensures Valid() && Values() == old(Values())[i := Tcp.Receive(old(Values())[i], seg, tick).slot]
      ensures sent == ForClient(old(Values())[i], Tcp.Receive(old(Values())[i], seg, tick).sent) &&
              ready == Ready(old(Values())[i], seg)
    {
      hide Tcp.Receive, Fits, Ready;
      ghost var ss := Values();
      var ip, port := slots[i].remoteIp, slots[i].remotePort;
      var segs;
      ready, segs := slots[i].Receive(seg, tick);
      assert Values() == ss[i := slots[i].Value()];
      sent := Outputs(ip, port, segs);
    }

    method Dispatch(a: Arrival, macKnown: bool, isn: u32, now: nat, tick: nat) returns (ready: int, sent: seq<Output>)
      requires Valid()
      modifies Footprint()
      ensures Valid() && Answer(Values(), ready, sent) ==
              TcpServer.Dispatch(old(Values()), localPort, a, macKnown, isn, now, tick)
    {
      hide Tcp.Receive, Tcp.Accept, Ready, Fits, Valid, Values, FindFrom, FindFreeFrom, Outputs;
      if a.dstPort != localPort { return -1, []; }
      var i := Find(a.srcIp, a.srcPort);
      if i < 0 {
        if a.seg.syn && !a.seg.hasAck {
          var f := FindFree();
          if f < 0 { return -1, []; }
          if !macKnown { return -1, []; }
          sent := AcceptAt(f, a, isn, now);
          return -1, sent;
        }
        return -1, [];
      }
      var grew;
      grew, sent := ReceiveAt(i, a.seg, tick);
      return if grew then i else -1, sent;
    }

    /** tcp_mux_send */
    method Send(i: nat, data: seq<byte>, tick: nat) returns (r: int, sent: seq<Output>)
      requires Valid() && i < MAX_CONNS && (slots[i].state == ESTABLISHED ==> slots[i].outLen + |data| < U32_LIMIT)
      modifies Footprint()
      ensures Valid() && Values() == Apply(old(Values()), localPort, DoSend(i, data, tick))
      ensures r == (if Accepts(old(Values())[i], data) then 0 else -1) &&
              sent == ForClient(old(Values())[i], Tcp.Send(old(Values())[i], data, tick).sent)
    {
      hide Tcp.Send, Fits;
      ghost var ss := Values();
      var ip, port := slots[i].remoteIp, slots[i].remotePort;
      var segs;
      r, segs := slots[i].Send(data, tick);
      assert Values() == ss[i := slots[i].Value()];
      sent := Outputs(ip, port, segs);
    }

    /** tcp_mux_close */
    method Close(i: nat, tick: nat) returns (sent: seq<Output>)
      requires Valid() && i < MAX_CONNS
      modifies Footprint()
      ensures Valid() && Values() == Apply(old(Values()), localPort, DoClose(i, tick))
      ensures sent == ForClient(old(Values())[i], Tcp.Close(old(Values())[i], tick).sent)
    {
      hide Tcp.Close, Fits;
      ghost var ss := Values();
      var ip, port := slots[i].remoteIp, slots[i].remotePort;
      var segs := slots[i].Close(tick);
      assert Values() == ss[i := slots[i].Value()];
      sent := Outputs(ip, port, segs);
    }
  }
}
