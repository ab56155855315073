/** One connection of the TCP server of src/user/tcp.h: what each call does to a
    slot, and what it sends. Sequence numbers are 32-bit; ticks do not wrap. */
module Tcp {
  import opened Arith
  import opened Bytes

  const OUT_BUF_SIZE: nat := 256
  const REQ_BUF_SIZE: nat := 512
  const MAX_CHUNK: nat := 512
  const RTO_MS: nat := 300
  const RTO_MAX_MS: nat := 2000
  const MAX_RETRIES: nat := 5
  const HANDSHAKE_TICKS: nat := 300

  /** A segment without its addresses. */
  datatype Segment = Segment(seqno: u32, ack: u32, syn: bool, hasAck: bool, fin: bool, data: seq<byte>)

  datatype Phase = FREE | SYN_RCVD | ESTABLISHED | CLOSING

  /** The fields of a slot; `out` is the filled part of outbuf, `request` that of reqbuf. */
  datatype Slot = Slot(
    state: Phase, remoteIp: u32, remotePort: u16, sndNxt: u32, rcvNxt: u32, connected: bool,
    out: seq<byte>, acked: nat, inflight: nat, retries: nat, rto: nat, rtoDeadline: nat, closeAfter: bool,
    request: seq<byte>, deadline: nat)

  /** The slot after a call, and the segments the call sent, in order. */
  datatype Effect = Effect(slot: Slot, sent: seq<Segment>)

  function Add32(a: u32, n: nat): u32 {
    (a + n) % U32_LIMIT
  }

  /** `a` is at or after `b`, as the signed 32-bit difference tells it. */
  predicate AtOrAfter(a: u32, b: u32) {
    (a - b) % U32_LIMIT < 0x8000_0000
  }

  function SynAck(s: Slot): Segment {
    Segment(s.sndNxt, s.rcvNxt, true, true, false, [])
  }

  function PureAck(s: Slot): Segment {
    Segment(s.sndNxt, s.rcvNxt, false, true, false, [])
  }

  function FinAck(s: Slot): Segment {
    Segment(s.sndNxt, s.rcvNxt, false, true, true, [])
  }

  function DataAck(s: Slot, data: seq<byte>): Segment {
    Segment(s.sndNxt, s.rcvNxt, false, true, false, data)
  }

  /** The buffer bounds that every call keeps. */
  predicate Fits(s: Slot) {
    s.acked + s.inflight <= |s.out| <= OUT_BUF_SIZE && |s.request| <= REQ_BUF_SIZE
  }

  // ----- the calls

  function StartClosing(s: Slot, tick: nat): Effect {
    Effect(s.(state := CLOSING, retries := 0, rto := RTO_MS, rtoDeadline := tick + RTO_MS / 10), [FinAck(s)])
  }

  /** tcp_mux_pump: the next chunk when nothing is in flight, or the deferred FIN. */
  function Pump(s: Slot, tick: nat): Effect
    requires Fits(s)
  {
    if s.state != ESTABLISHED || s.inflight > 0 then Effect(s, [])
    else if |s.out| == s.acked then
      if s.closeAfter then
        var e := StartClosing(s, tick);
        Effect(e.slot.(closeAfter := false), e.sent)
      else Effect(s, [])
    else
      var chunk := Min(|s.out| - s.acked, MAX_CHUNK);
      Effect(s.(inflight := chunk, retries := 0, rto := RTO_MS, rtoDeadline := tick + RTO_MS / 10),
             [DataAck(s, s.out[s.acked..s.acked + chunk])])
  }

  function Backoff(s: Slot, now: nat): Slot {
    var rto := Min(2 * s.rto, RTO_MAX_MS);
    s.(retries := s.retries + 1, rto := rto, rtoDeadline := now + rto / 10)
  }

  /** The timers of one slot, as tcp_mux_poll checks them. */
  function Sweep(s: Slot, now: nat): Effect
    requires Fits(s)
  {
    if s.state == SYN_RCVD && now >= s.deadline then Effect(s.(state := FREE), [])
    else if (s.state == CLOSING || (s.state == ESTABLISHED && s.inflight > 0)) && now >= s.rtoDeadline then
      if s.retries >= MAX_RETRIES then Effect(s.(state := FREE), [])
      else
        Effect(Backoff(s, now),
               [if s.state == CLOSING then FinAck(s) else DataAck(s, s.out[s.acked..s.acked + s.inflight])])
    else Effect(s, [])
  }

  /** A SYN from a new client. */
  function Accept(s: Slot, ip: u32, port: u16, seg: Segment, isn: u32, now: nat): Effect {
    var s' := s.(state := SYN_RCVD, remoteIp := ip, remotePort := port, rcvNxt := Add32(seg.seqno, 1), sndNxt := isn,
                 connected := false, out := [], acked := 0, inflight := 0, retries := 0, closeAfter := false,
                 request := [], deadline := now + HANDSHAKE_TICKS);
    Effect(s', [SynAck(s')])
  }

  /** The acknowledged bytes leave the queue, and the rest moves to its front. */
  function Acknowledge(s: Slot): Slot
    requires Fits(s)
  {
    s.(sndNxt := Add32(s.sndNxt, s.inflight), out := s.out[s.acked + s.inflight..], acked := 0, inflight := 0)
  }

  predicate AcksFlight(s: Slot, seg: Segment) {
    s.inflight > 0 && seg.hasAck && AtOrAfter(seg.ack, Add32(s.sndNxt, s.inflight))
  }

  /** Data and FIN from the client, when they are next in order. */
  function TakeData(s: Slot, seg: Segment): Effect
    requires Fits(s)
  {
    if seg.seqno != s.rcvNxt then Effect(s, [])
    else
      var copied := Min(|seg.data|, REQ_BUF_SIZE - |s.request|);
      var s' := s.(request := s.request + seg.data[..copied],
                   rcvNxt := Add32(Add32(s.rcvNxt, |seg.data|), if seg.fin then 1 else 0));
      Effect(s', if seg.data != [] || seg.fin then [PureAck(s')] else [])
  }

  /** A segment for a slot in use; `tick` is the clock when the queue is pumped. */
  function Receive(s: Slot, seg: Segment, tick: nat): Effect
    requires Fits(s)
  {
    match s.state
    case FREE => Effect(s, [])
    case SYN_RCVD =>
      if seg.hasAck && seg.ack == Add32(s.sndNxt, 1) then
        Effect(s.(sndNxt := Add32(s.sndNxt, 1), connected := true, state := ESTABLISHED), [])
      else if seg.syn && !seg.hasAck then Effect(s, [SynAck(s)])
      else Effect(s, [])
    case ESTABLISHED =>
      var e := if AcksFlight(s, seg) then Pump(Acknowledge(s), tick) else Effect(s, []);
      var e' := TakeData(e.slot, seg);
      Effect(e'.slot, e.sent + e'.sent)
    case CLOSING =>
      var s' := if seg.data != [] || seg.fin
                then s.(rcvNxt := Add32(Add32(s.rcvNxt, |seg.data|), if seg.fin then 1 else 0)) else s;
      Effect(s'.(state := FREE), if seg.data != [] || seg.fin then [PureAck(s')] else [])
  }

  predicate Accepts(s: Slot, data: seq<byte>) {
    s.state == ESTABLISHED && |s.out| + |data| <= OUT_BUF_SIZE
  }

  /** The 32-bit length check of tcp_mux_send accepts exactly what fits, unless the
      sum wraps around. */
  lemma SendGuardExact(s: Slot, data: seq<byte>)
    requires Fits(s) && |data| < U32_LIMIT
    ensures ((|s.out| + |data|) % U32_LIMIT > OUT_BUF_SIZE <==> |s.out| + |data| > OUT_BUF_SIZE) <==>
            |s.out| + |data| < U32_LIMIT
  {
  }

  /** tcp_mux_send */
  function Send(s: Slot, data: seq<byte>, tick: nat): Effect
    requires Fits(s)
  {
    if Accepts(s, data) then Pump(s.(out := s.out + data), tick) else Effect(s, [])
  }

  /** tcp_mux_close */
  function Close(s: Slot, tick: nat): Effect {
    if s.state != ESTABLISHED then Effect(s, [])
    else if s.inflight > 0 || s.acked < |s.out| then Effect(s.(closeAfter := true), [])
    else StartClosing(s, tick)
  }

  /** When nothing is in flight, the whole queue of an open slot goes out at once, in one
      segment, which is due again after 30 ticks. */
  lemma PumpExact(s: Slot, tick: nat)
    requires Fits(s) && s.state == ESTABLISHED && s.inflight == 0 && s.acked < |s.out|
    ensures var e := Pump(s, tick);
            e.sent == [Segment(s.sndNxt, s.rcvNxt, false, true, false, s.out[s.acked..])] &&
            e.slot == s.(inflight := |s.out| - s.acked, retries := 0, rto := 300, rtoDeadline := tick + 30)
  {
    assert s.out[s.acked..|s.out|] == s.out[s.acked..];
  }

  /** Sending takes all of the data or nothing: exactly what an open slot has room for in
      its 256 bytes. */
  lemma SendExact(s: Slot, data: seq<byte>, tick: nat)
    requires Fits(s)
    ensures Send(s, data, tick).slot.out ==
              if s.state == ESTABLISHED && |s.out| + |data| <= 256 then s.out + data else s.out
    ensures !(s.state == ESTABLISHED && |s.out| + |data| <= 256) ==> Send(s, data, tick) == Effect(s, [])
  {
  }

  lemma PumpFits(s: Slot, tick: nat)
    requires Fits(s)
    ensures Fits(Pump(s, tick).slot)
  {
  }

  lemma SweepFits(s: Slot, now: nat)
    requires Fits(s)
    ensures Fits(Sweep(s, now).slot)
  {
  }

  lemma CallsFit(s: Slot, seg: Segment, data: seq<byte>, tick: nat)
    requires Fits(s)
    ensures Fits(Send(s, data, tick).slot) && Fits(Close(s, tick).slot) && Fits(Receive(s, seg, tick).slot)
  {
    hide Pump;
    PumpFits(s.(out := if Accepts(s, data) then s.out + data else s.out), tick);
    PumpFits(Acknowledge(s), tick);
  }

  // ----- a slot that waits

  /** A slot that waits for an acknowledgement of data or of its FIN. */
  predicate Waits(s: Slot) {
    s.state == CLOSING || (s.state == ESTABLISHED && s.inflight > 0)
  }

  /** The segment that is sent again. */
  function Flight(s: Slot): Segment
    requires Fits(s)
  {
    if s.state == CLOSING then FinAck(s) else DataAck(s, s.out[s.acked..s.acked + s.inflight])
  }

  /** RTO after the given number of retransmissions: 300, 600, 1200 and then 2000 ms. */
  function RtoAfter(retries: nat): (r: nat)
    ensures RTO_MS <= r <= RTO_MAX_MS
  {
    if retries == 0 then RTO_MS else Min(2 * RtoAfter(retries - 1), RTO_MAX_MS)
  }

  predicate OnSchedule(s: Slot) {
    Waits(s) ==> s.retries <= MAX_RETRIES && s.rto == RtoAfter(s.retries)
  }

  /** One silent poll of a waiting slot: nothing, a retransmission, or the end. */
  lemma SilentPoll(s: Slot, now: nat)
    requires Fits(s) && Waits(s) && s.retries <= MAX_RETRIES && s.rto == RtoAfter(s.retries)
    ensures var e := Sweep(s, now);
            if now < s.rtoDeadline then e == Effect(s, [])
            else if s.retries == MAX_RETRIES then e.slot.state == FREE && e.sent == []
            else Waits(e.slot) && Flight(e.slot) == Flight(s) && e.sent == [Flight(s)] &&
                 e.slot.retries == s.retries + 1 && e.slot.rto == RtoAfter(e.slot.retries) &&
                 e.slot.rtoDeadline == now + e.slot.rto / 10
  {
  }

  /** The slot waits as before: for the same client, with the same segment in flight
      and the same timer. */
  predicate WaitsAsBefore(s: Slot, s': Slot)
    requires Fits(s) && Fits(s')
  {
    Waits(s) && Waits(s') && s'.remoteIp == s.remoteIp && s'.remotePort == s.remotePort && Flight(s') == Flight(s) &&
    s'.retries == s.retries && s'.rto == s.rto && s'.rtoDeadline == s.rtoDeadline
  }

  /** While a slot waits, sending only queues and closing only takes note: nothing is
      sent, and neither what is in flight nor its timer changes. */
  lemma WaitingCalls(s: Slot, data: seq<byte>, tick: nat)
    requires Fits(s) && Waits(s)
    ensures Send(s, data, tick).sent == [] && Close(s, tick).sent == []
    ensures Fits(Send(s, data, tick).slot) && WaitsAsBefore(s, Send(s, data, tick).slot)
    ensures Fits(Close(s, tick).slot) && WaitsAsBefore(s, Close(s, tick).slot)
  {
    if Accepts(s, data) {
      assert (s.out + data)[s.acked..s.acked + s.inflight] == s.out[s.acked..s.acked + s.inflight];
    }
  }

  /** Ticks that the first `k` deadlines take together. */
  function WaitFor(k: nat): nat {
    if k == 0 then 0 else WaitFor(k - 1) + RtoAfter(k - 1) / 10
  }

  /** The six waits take 810 ticks, 8.1 seconds. */
  lemma AllWaits()
    ensures WaitFor(MAX_RETRIES + 1) == 810
  {
    assert RtoAfter(0) == 300 && RtoAfter(1) == 600 && RtoAfter(2) == 1200;
    assert RtoAfter(3) == RtoAfter(4) == RtoAfter(5) == 2000;
    assert WaitFor(3) == 210;
  }
}
