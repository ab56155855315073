/** The receiving half of the server of src/user/tcp.h: the request buffer of a slot
    holds the beginning of what its client sent. */
module TcpRequest {
  import opened Arith
  import opened Bytes
  import opened Tcp
  import opened TcpSystem

  /** A segment of a client whose stream is `c`, with the first byte at sequence number
      `start` and the FIN behind the last one; it may be sent again, or out of order. */
  predicate OfStream(seg: Segment, c: seq<byte>, start: u32) {
    var o := (seg.seqno - start) % 0x1_0000_0000;
    (seg.data != [] ==> o + |seg.data| <= |c| && seg.data == c[o..o + |seg.data|]) &&
    (seg.fin ==> o + |seg.data| == |c|)
  }

  /** The slot has taken `n` bytes of the stream, and its end if `ended`; the first 512
      of them are the request. */
  predicate Taken(s: Slot, c: seq<byte>, start: u32, n: nat, ended: bool) {
    s.state != SYN_RCVD && n <= |c| && s.request == c[..Min(n, 512)] && (ended ==> n == |c|) &&
    (s.state == ESTABLISHED ==> s.rcvNxt == (start + n + if ended then 1 else 0) % 0x1_0000_0000)
  }

  /** What a segment that is next in order brings, and how it is answered; any other
      segment brings nothing. */
  lemma TakesNext(s: Slot, seg: Segment, tick: nat)
    requires Fits(s) && s.state == ESTABLISHED
    ensures Receive(s, seg, tick).slot.state != SYN_RCVD
    ensures var e := Receive(s, seg, tick);
            if seg.seqno != s.rcvNxt then e.slot.request == s.request && e.slot.rcvNxt == s.rcvNxt
            else
              |s.request| <= 512 &&
              e.slot.request == s.request + seg.data[..Min(|seg.data|, 512 - |s.request|)] &&
              e.slot.rcvNxt == (s.rcvNxt + |seg.data| + if seg.fin then 1 else 0) % 0x1_0000_0000 &&
              (seg.data != [] || seg.fin ==>
                e.sent != [] && e.sent[|e.sent| - 1].hasAck && e.sent[|e.sent| - 1].ack == e.slot.rcvNxt)
  {
    hide Pump;
    PumpRequest(Acknowledge(s), tick);
    Add32Twice(s.rcvNxt, |seg.data|, if seg.fin then 1 else 0);
  }

  lemma Add32Twice(a: u32, m: nat, n: nat)
    ensures Add32(Add32(a, m), n) == (a + m + n) % 0x1_0000_0000
  {
  }

  lemma PumpRequest(s: Slot, tick: nat)
    requires Fits(s)
    ensures Pump(s, tick).slot.request == s.request && Pump(s, tick).slot.rcvNxt == s.rcvNxt
    ensures s.state != SYN_RCVD ==> Pump(s, tick).slot.state != SYN_RCVD
  {
  }

  /** The sequence number of offset `o` tells it. */
  lemma OffsetOf(start: u32, o: nat)
    requires o < 0x1_0000_0000
    ensures ((start + o) % 0x1_0000_0000 - start) % 0x1_0000_0000 == o
  {
  }

  lemma MoreTaken(start: u32, n: nat, k: nat, f: nat)
    ensures ((start + n) % 0x1_0000_0000 + k + f) % 0x1_0000_0000 == (start + (n + k) + f) % 0x1_0000_0000
  {
  }

  /** Appending what fits of the next bytes keeps the buffer a prefix cut at 512. */
  lemma Prefixes(c: seq<byte>, n: nat, k: nat)
    requires n + k <= |c|
    ensures var r := c[..Min(n, 512)];
            r + c[n..n + k][..Min(k, 512 - |r|)] == c[..Min(n + k, 512)]
  {
  }

  lemma NextTaken(s: Slot, seg: Segment, tick: nat, c: seq<byte>, start: u32, n: nat)
    requires Fits(s) && s.state == ESTABLISHED && |c| < 0xFFFF_FFFF && OfStream(seg, c, start)
    requires Taken(s, c, start, n, false) && seg.seqno == s.rcvNxt && (seg.data != [] || seg.fin)
    ensures Taken(Receive(s, seg, tick).slot, c, start, n + |seg.data|, seg.fin)
  {
    hide Receive;
    TakesNext(s, seg, tick);
    OffsetOf(start, n);
    Prefixes(c, n, |seg.data|);
    MoreTaken(start, n, |seg.data|, if seg.fin then 1 else 0);
    assert n + |seg.data| <= |c| && seg.data == c[n..n + |seg.data|];
  }

  lemma ArriveTaken(s: Slot, seg: Segment, tick: nat, c: seq<byte>, start: u32, n: nat, ended: bool)
    requires Fits(s) && |c| < 0xFFFF_FFFF && OfStream(seg, c, start) && Taken(s, c, start, n, ended)
    ensures exists n', ended' :: Taken(Receive(s, seg, tick).slot, c, start, n', ended')
  {
    var s' := Receive(s, seg, tick).slot;
    if s.state != ESTABLISHED {
      assert Taken(s', c, start, n, ended);
    } else if seg.seqno == s.rcvNxt && !ended && (seg.data != [] || seg.fin) {
      NextTaken(s, seg, tick, c, start, n);
    } else {
      hide Receive;
      TakesNext(s, seg, tick);
      OffsetOf(start, n + if ended then 1 else 0);
      assert seg.seqno == s.rcvNxt ==> seg.data == [] && !seg.fin;
      assert s'.request == s.request && s'.rcvNxt == s.rcvNxt;
      assert Taken(s', c, start, n, ended);
    }
  }

  lemma OwnTaken(s: Slot, data: seq<byte>, t: nat, c: seq<byte>, start: u32, n: nat, ended: bool)
    requires Fits(s) && Taken(s, c, start, n, ended)
    ensures Taken(Tcp.Send(s, data, t).slot, c, start, n, ended) && Taken(Tcp.Close(s, t).slot, c, start, n, ended)
    ensures Taken(Sweep(s, t).slot, c, start, n, ended)
  {
  }

  lemma StepTaken(sys: System, step: Step, c: seq<byte>, start: u32, n: nat, ended: bool)
    requires Fits(sys.slot) && |c| < 0xFFFF_FFFF && Taken(sys.slot, c, start, n, ended)
    requires step.Arrive? ==> OfStream(step.seg, c, start)
    ensures exists n', ended' :: Taken(Apply(sys, step).slot, c, start, n', ended')
  {
    hide Receive, Tcp.Send, Tcp.Close, Sweep, OfStream, Taken;
    if step.Arrive? {
      ArriveTaken(sys.slot, step.seg, step.tick, c, start, n, ended);
      assert Apply(sys, step).slot == Receive(sys.slot, step.seg, step.tick).slot;
    } else {
      match step {
        case Send(data, tick) => OwnTaken(sys.slot, data, tick, c, start, n, ended);
        case Close(tick) => OwnTaken(sys.slot, [], tick, c, start, n, ended);
        case Timers(now) => OwnTaken(sys.slot, [], now, c, start, n, ended);
        case Deliver(_, _) => assert Apply(sys, step).slot == sys.slot;
      }
      assert Taken(Apply(sys, step).slot, c, start, n, ended);
    }
  }

  /** Whatever is lost, repeated or reordered on the way from the client, and whatever
      the server sends meanwhile: the request buffer holds the first 512 bytes of what
      was taken so far of the client's stream, and nothing else. */
  lemma {:induction false} RequestIsPrefix(sys: System, steps: seq<Step>, c: seq<byte>)
    requires Opened(sys) && sys.slot.request == [] && |c| < 0xFFFF_FFFF
    requires forall k :: 0 <= k < |steps| && steps[k].Arrive? ==> OfStream(steps[k].seg, c, sys.slot.rcvNxt)
    ensures exists n, ended :: Taken(Run(sys, steps).slot, c, sys.slot.rcvNxt, n, ended)
  {
    if steps == [] {
      assert c[..0] == [];
      assert Taken(Run(sys, []).slot, c, sys.slot.rcvNxt, 0, false);
    } else {
      var last := |steps| - 1;
      var before, step := Run(sys, steps[..last]), steps[last];
      RequestIsPrefix(sys, steps[..last], c);
      var n, ended :| Taken(before.slot, c, sys.slot.rcvNxt, n, ended);
      RunLast(sys, steps);
      StepTaken(before, step, c, sys.slot.rcvNxt, n, ended);
    }
  }
}
