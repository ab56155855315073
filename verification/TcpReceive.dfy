/** tcp_recv of src/user/tcp.h: polls the card until there is data, the end of the
    stream or the timeout. Each segment it hears is taken as TcpSystem.Take says. */
module TcpReceive {
  import opened Arith
  import opened Bytes
  import opened Wrappers
  import opened Tcp
  import opened TcpServer
  import opened TcpSystem
  import TcpMux

  /** What the k-th call of the network card yields. */
  function Nth(rx: seq<Option<Arrival>>, k: nat): Option<Arrival> {
    if k < |rx| then rx[k] else None
  }

  class Connection {
    var remoteIp: u32
    var remotePort: u16
    var localPort: u16
    var sndNxt: u32
    var rcvNxt: u32
    var connected: bool
    var peerClosed: bool

    constructor (ip: u32, port: u16, localPort: u16, sndNxt: u32, rcvNxt: u32)
      ensures connected && !peerClosed && this.sndNxt == sndNxt && this.rcvNxt == rcvNxt
      ensures remoteIp == ip && remotePort == port && this.localPort == localPort
    {
      remoteIp, remotePort, this.localPort, this.sndNxt, this.rcvNxt := ip, port, localPort, sndNxt, rcvNxt;
      connected, peerClosed := true, false;
    }

    predicate FromPeer(a: Option<Arrival>)
      reads this`remoteIp, this`remotePort, this`localPort
    {
      a.Some? && a.value.srcIp == remoteIp && a.value.srcPort == remotePort && a.value.dstPort == localPort
    }

    /** The receiver after the first `n` polls. */
    ghost function Heard(r: Receiver, rx: seq<Option<Arrival>>, n: nat, maxLen: nat): Receiver
      reads this`remoteIp, this`remotePort, this`localPort
    {
      if n == 0 then r
      else
        var before := Heard(r, rx, n - 1, maxLen);
        if FromPeer(Nth(rx, n - 1)) then Take(before, Nth(rx, n - 1).value.seg, maxLen) else before
    }

    /** The segment that is next in order: its data, its FIN and the answer to both. */
    method Hear(seg: Segment, buf: array<byte>, maxLen: nat) returns (n: nat, sent: seq<Segment>)
      requires maxLen <= buf.Length && seg.seqno == rcvNxt && !peerClosed
      modifies this`rcvNxt, this`peerClosed, buf
      ensures n == Min(|seg.data|, maxLen)
      ensures Receiver(rcvNxt, buf[..n], peerClosed) == Take(Receiver(old(rcvNxt), [], false), seg, maxLen)
      ensures n == 0 && !peerClosed ==> rcvNxt == old(rcvNxt)
      ensures sent == if n > 0 || peerClosed then [Segment(sndNxt, rcvNxt, false, true, false, [])] else []
    {
      n := if |seg.data| > maxLen then maxLen else |seg.data|;
      TcpMux.CopyIn(buf, 0, seg.data[..n]);
      rcvNxt := Add32(rcvNxt, n);
      if seg.fin {
        rcvNxt := Add32(rcvNxt, 1);
        peerClosed := true;
      }
      sent := if n > 0 || seg.fin then [Segment(sndNxt, rcvNxt, false, true, false, [])] else [];
      assert [] + seg.data[..n] == seg.data[..n];
    }

    /** >0: so many bytes in `buf`; 0: timeout; -1: the peer has closed. `polls`
        counts the calls of the card. */
    method Recv(rx: seq<Option<Arrival>>, buf: array<byte>, maxLen: nat, timeoutMs: nat)
      returns (r: int, sent: seq<Segment>, ghost polls: nat)
      requires maxLen <= buf.Length
      modifies this`rcvNxt, this`peerClosed, buf
      ensures Receiver(rcvNxt, if r > 0 then buf[..Min(r, buf.Length)] else [], peerClosed) ==
              Heard(Receiver(old(rcvNxt), [], old(peerClosed)), rx, polls, maxLen)
      ensures r <= maxLen && (r == -1 <==> r < 0) &&
              (r < 0 <==> !connected || old(peerClosed) || (peerClosed && r <= 0))
      ensures r == 0 ==> polls >= timeoutMs / 10 + 1
      ensures sent == if connected && !old(peerClosed) && r != 0
                      then [Segment(sndNxt, rcvNxt, false, true, false, [])] else []
    {
      hide Take;
      polls := 0;
      if peerClosed { return -1, [], 0; }
      if !connected { return -1, [], 0; }
      var waited := 0;
      var k := 0;
      while true
        invariant polls == k && waited == 10 * k && rcvNxt == old(rcvNxt) && !peerClosed
        invariant waited <= timeoutMs + 9
        invariant Heard(Receiver(old(rcvNxt), [], false), rx, k, maxLen) == Receiver(rcvNxt, [], false)
        decreases timeoutMs + 10 - waited
      {
        var a := Nth(rx, k);
        polls := k + 1;
        if FromPeer(a) && a.value.seg.seqno == rcvNxt {
          var n;
          n, sent := Hear(a.value.seg, buf, maxLen);
          if n > 0 { return n, sent, polls; }
          assert buf[..n] == [];
          if peerClosed { return -1, sent, polls; }
        } else if FromPeer(a) {
          NotNext(Receiver(rcvNxt, [], false), a.value.seg, maxLen);
        }
        if waited >= timeoutMs { break; }
        waited := waited + 10;
        k := k + 1;
      }
      return 0, [], polls;
    }
  }

  /** A segment that is not next in order is ignored. */
  lemma NotNext(r: Receiver, seg: Segment, maxLen: nat)
    requires seg.seqno != r.rcvNxt
    ensures Take(r, seg, maxLen) == r
  {
  }
}
