/** TCP segments as Ethernet frames, in src/user/tcp.h: tcp_send_segment fills a
    buffer, tcp_parse_segment reads one, and both checksums verify. */
module TcpWire {
  import opened Bytes
  import opened Wrappers
  import opened Checksum
  import opened Tcp
  import opened TcpServer

  const ETH: nat := 14
  const HDR: nat := 20
  const MAX_DATA: nat := 512
  const PROTO_TCP: byte := 6

  /** The addresses of a connection, with the hardware addresses of both ends. */
  datatype Ends = Ends(myIp: u32, remoteIp: u32, localPort: u16, remotePort: u16, remoteMac: seq<byte>,
        myMac: seq<byte>)
  {
    predicate Valid() {
      |remoteMac| == 6 && |myMac| == 6
    }
  }

  function Be16(v: u16): (s: seq<byte>)
    ensures |s| == 2
  {
    [v / 256, v % 256]
  }

  function Be32(v: u32): (s: seq<byte>)
    ensures |s| == 4
  {
    Be16(v / 0x1_0000) + Be16(v % 0x1_0000)
  }

  function Read16(s: seq<byte>, i: nat): u16
    requires i + 2 <= |s|
  {
    BigEndian(s[i], s[i + 1])
  }

  function Read32(s: seq<byte>, i: nat): u32
    requires i + 4 <= |s|
  {
    0x1_0000 * Read16(s, i) as int + Read16(s, i + 2) as int
  }

  lemma ReadsBack(s: seq<byte>, i: nat, v: u16)
    requires i + 2 <= |s| && s[i..i + 2] == Be16(v)
    ensures Read16(s, i) == v
  {
    assert s[i] == s[i..i + 2][0] && s[i + 1] == s[i..i + 2][1];
  }

  lemma ReadsBack32(s: seq<byte>, i: nat, v: u32)
    requires i + 4 <= |s| && s[i..i + 4] == Be32(v)
    ensures Read32(s, i) == v
  {
    hide Be16, Read16;
    assert s[i..i + 2] == s[i..i + 4][..2] && s[i + 2..i + 4] == s[i..i + 4][2..];
    ReadsBack(s, i, v / 0x1_0000);
    ReadsBack(s, i + 2, v % 0x1_0000);
  }

  /** FIN 1, SYN 2, PSH 8, ACK 16; data is sent with PSH. */
  function FlagByte(seg: Segment): byte {
    (if seg.fin then 1 else 0) + (if seg.syn then 2 else 0) + (if seg.data != [] then 8 else 0) +
      (if seg.hasAck then 16 else 0)
  }

  /** The TCP header with a zero checksum. */
  function TcpHeader(e: Ends, seg: Segment): (s: seq<byte>)
    ensures |s| == HDR
  {
    Be16(e.localPort) + Be16(e.remotePort) + Be32(seg.seqno) + Be32(seg.ack) + [0x50, FlagByte(seg)] + Be16(8192) +
      [0, 0, 0, 0]
  }

  function PseudoHeader(src: u32, dst: u32, len: u16): (s: seq<byte>)
    ensures |s| == 12
  {
    Be32(src) + Be32(dst) + [0, PROTO_TCP] + Be16(len)
  }

  /** A checksum stored high byte first. */
  function WithSum(s: seq<byte>, k: nat, sum: int): (r: seq<byte>)
    requires k + 2 <= |s| && 0 <= sum <= 0xFFFF
    ensures |r| == |s|
  {
    s[k := sum / 256][k + 1 := sum % 256]
  }

  function SumOf(s: seq<byte>): (sum: int)
    ensures 0 <= sum <= 0xFFFF
  {
    FoldResidue(WordSum(s));
    InternetChecksum(s)
  }

  /** The TCP part of the frame. */
  function TcpPart(e: Ends, seg: Segment): (s: seq<byte>)
    requires |seg.data| <= MAX_DATA
    ensures |s| == HDR + |seg.data|
  {
    var plain := TcpHeader(e, seg) + seg.data;
    WithSum(plain, 16, SumOf(PseudoHeader(e.myIp, e.remoteIp, |plain|) + plain))
  }

  /** The IP header with a zero checksum. */
  function PlainIp(e: Ends, total: u16): (s: seq<byte>)
    ensures |s| == HDR
  {
    [0x45, 0] + Be16(total) + [0, 0, 0, 0, 64, PROTO_TCP, 0, 0] + Be32(e.myIp) + Be32(e.remoteIp)
  }

  function IpPart(e: Ends, total: u16): (s: seq<byte>)
    ensures |s| == HDR
  {
    WithSum(PlainIp(e, total), 10, SumOf(PlainIp(e, total)))
  }

  function EthPart(e: Ends): (s: seq<byte>)
    requires e.Valid()
    ensures |s| == ETH
  {
    e.remoteMac + e.myMac + [0x08, 0x00]
  }

  function Frame(e: Ends, seg: Segment): (s: seq<byte>)
    requires e.Valid() && |seg.data| <= MAX_DATA
    ensures |s| == ETH + HDR + HDR + |seg.data|
  {
    EthPart(e) + IpPart(e, HDR + HDR + |seg.data|) + TcpPart(e, seg)
  }

  // ----- the checksums

  /** Both checksums of the two parts are zero. */
  lemma PartsVerify(e: Ends, seg: Segment)
    requires e.Valid() && |seg.data| <= MAX_DATA
    ensures InternetChecksum(IpPart(e, HDR + HDR + |seg.data|)) == 0
    ensures InternetChecksum(PseudoHeader(e.myIp, e.remoteIp, HDR + |seg.data|) + TcpPart(e, seg)) == 0
  {
    hide InternetChecksum;
    var ip := PlainIp(e, HDR + HDR + |seg.data|);
    StoredChecksumVerifies(ip, 10);
    var plain := TcpHeader(e, seg) + seg.data;
    var pseudo := PseudoHeader(e.myIp, e.remoteIp, HDR + |seg.data|);
    var whole := pseudo + plain;
    assert whole[28] == plain[16] && whole[29] == plain[17];
    StoredChecksumVerifies(whole, 28);
    var c := SumOf(whole);
    assert pseudo + WithSum(plain, 16, c) == whole[28 := c / 256][29 := c % 256];
  }

  /** The checks that the other end makes on the frame alone: the IP header sums to
      zero, and so do the TCP bytes behind the two addresses in the frame, the protocol
      number and the length. */
  lemma ChecksumsVerify(e: Ends, seg: Segment)
    requires e.Valid() && |seg.data| <= MAX_DATA
    ensures var f := Frame(e, seg);
            InternetChecksum(f[14..34]) == 0 &&
            InternetChecksum(f[26..34] + [0, 6] + [(|f| - 34) / 256, (|f| - 34) % 256] + f[34..]) == 0
  {
    hide InternetChecksum, Be32, SumOf, FlagByte;
    var f := Frame(e, seg);
    PartsVerify(e, seg);
    IpFields(e, HDR + HDR + |seg.data|);
    var ip := IpPart(e, HDR + HDR + |seg.data|);
    assert f[14..34] == ip && f[34..] == TcpPart(e, seg);
    assert f[26..34] == ip[12..16] + ip[16..20];
    assert f[26..34] + [0, 6] + Be16(|f| - 34) == PseudoHeader(e.myIp, e.remoteIp, HDR + |seg.data|);
  }

  lemma Read32Bytes(s: seq<byte>, i: nat)
    requires i + 4 <= |s|
    ensures Read32(s, i) == 0x100_0000 * s[i] as int + 0x1_0000 * s[i + 1] as int + 0x100 * s[i + 2] as int +
              s[i + 3] as int
  {
  }

  /** Every byte in front of the data, but for the two checksums: to whom the frame
      goes, from whom it comes, and the fields of both headers. */
  lemma FrameHeaders(e: Ends, seg: Segment)
    requires e.Valid() && |seg.data| <= MAX_DATA
    ensures var f := Frame(e, seg);
            f[0..6] == e.remoteMac && f[6..12] == e.myMac && f[12..16] == [0x08, 0x00, 0x45, 0x00] &&
            Read16(f, 16) == |f| - 14 && f[18..24] == [0, 0, 0, 0, 64, 6] &&
            Read32(f, 26) == e.myIp && Read32(f, 30) == e.remoteIp
    ensures var f := Frame(e, seg);
            Read16(f, 34) == e.localPort && Read16(f, 36) == e.remotePort && Read32(f, 38) == seg.seqno &&
            Read32(f, 42) == seg.ack && f[46] == 0x50 && f[48..50] == [0x20, 0x00] && f[52..54] == [0, 0] &&
            f[54..] == seg.data && |f| == 54 + |seg.data|
    ensures var flags: int := Frame(e, seg)[47];
            flags == (if seg.fin then 1 else 0) + (if seg.syn then 2 else 0) + (if seg.data != [] then 8 else 0) +
              (if seg.hasAck then 16 else 0)
  {
    hide Frame, Be16, Be32, Read16, Read32;
    var f := Frame(e, seg);
    FrameFields(e, seg);
    FrameEnds(e, seg);
    ReadsBack(f, 16, HDR + HDR + |seg.data|);
    ReadsBack32(f, 26, e.myIp);
    ReadsBack32(f, 30, e.remoteIp);
    ReadsBack(f, 34, e.localPort);
    ReadsBack(f, 36, e.remotePort);
    ReadsBack32(f, 38, seg.seqno);
    ReadsBack32(f, 42, seg.ack);
  }

  lemma FrameEnds(e: Ends, seg: Segment)
    requires e.Valid() && |seg.data| <= MAX_DATA
    ensures var f := Frame(e, seg);
            f[0..6] == e.remoteMac && f[6..12] == e.myMac && f[12..16] == [0x08, 0x00, 0x45, 0x00] &&
            f[18..24] == [0, 0, 0, 0, 64, 6] && f[30..34] == Be32(e.remoteIp) &&
            f[48..50] == [0x20, 0x00] && f[52..54] == [0, 0]
  {
    hide InternetChecksum, Be32, SumOf, FlagByte;
    var f := Frame(e, seg);
    var ip, tcp := IpPart(e, HDR + HDR + |seg.data|), TcpPart(e, seg);
    assert f[14..34] == ip && f[34..] == tcp && f[..14] == EthPart(e);
    IpFields(e, HDR + HDR + |seg.data|);
    TcpFields(e, seg);
    assert f[0..6] == EthPart(e)[0..6] && f[6..12] == EthPart(e)[6..12];
    assert f[18..24] == ip[4..10] && f[30..34] == ip[16..20];
    assert f[48..50] == tcp[14..16] && f[52..54] == tcp[18..20];
  }

  // ----- parsing

  function Parse(rx: seq<byte>): Option<Arrival> {
    if |rx| < ETH + HDR + HDR then None
    else if rx[12] != 0x08 || rx[13] != 0x00 then None
    else if rx[ETH + 9] != PROTO_TCP then None
    else
      var ihl := rx[ETH] as int % 16 * 4;
      if |rx| < ETH + ihl + HDR then None
      else
        var t := ETH + ihl;
        var hlen := rx[t + 12] as int / 16 * 4;
        if |rx| < t + hlen then None
        else
          var total: int := Read16(rx, ETH + 2);
          var segLen := if total > ihl then total - ihl else 0;
          var dataLen := if segLen > hlen then segLen - hlen else 0;
          var avail := |rx| - (t + hlen);
          var n := if dataLen > avail then avail else dataLen;
          var flags: int := rx[t + 13];
          Some(Arrival(Read32(rx, ETH + 12), Read16(rx, t), Read16(rx, t + 2),
                       Segment(Read32(rx, t + 4), Read32(rx, t + 8), flags / 2 % 2 == 1, flags / 16 % 2 == 1,
                         flags % 2 == 1,
                               rx[t + hlen..t + hlen + n])))
  }

  lemma FrameFields(e: Ends, seg: Segment)
    requires e.Valid() && |seg.data| <= MAX_DATA
    ensures var f := Frame(e, seg);
            f[12] == 0x08 && f[13] == 0x00 && f[14] == 0x45 && f[23] == PROTO_TCP && f[46] == 0x50 &&
              f[47] == FlagByte(seg) &&
            f[16..18] == Be16(HDR + HDR + |seg.data|) && f[26..30] == Be32(e.myIp) &&
            f[34..36] == Be16(e.localPort) && f[36..38] == Be16(e.remotePort) && f[38..42] == Be32(seg.seqno) &&
              f[42..46] == Be32(seg.ack) &&
            f[54..] == seg.data
  {
    hide InternetChecksum, Be16, Be32, SumOf, FlagByte;
    var f := Frame(e, seg);
    var ip, tcp := IpPart(e, HDR + HDR + |seg.data|), TcpPart(e, seg);
    assert f[14..34] == ip && f[34..] == tcp;
    IpFields(e, HDR + HDR + |seg.data|);
    TcpFields(e, seg);
    assert f[16..18] == ip[2..4] && f[26..30] == ip[12..16];
    assert f[34..36] == tcp[0..2] && f[36..38] == tcp[2..4] && f[38..42] == tcp[4..8] && f[42..46] == tcp[8..12];
    assert f[54..] == tcp[20..];
  }

  lemma IpFields(e: Ends, total: u16)
    ensures var ip := IpPart(e, total);
            ip[0] == 0x45 && ip[1] == 0 && ip[2..4] == Be16(total) && ip[4..10] == [0, 0, 0, 0, 64, 6] &&
            ip[12..16] == Be32(e.myIp) && ip[16..20] == Be32(e.remoteIp)
  {
    hide InternetChecksum, Be16, Be32, SumOf;
  }

  lemma TcpFields(e: Ends, seg: Segment)
    requires |seg.data| <= MAX_DATA
    ensures var t := TcpPart(e, seg);
            t[0..2] == Be16(e.localPort) && t[2..4] == Be16(e.remotePort) && t[4..8] == Be32(seg.seqno) &&
              t[8..12] == Be32(seg.ack) &&
            t[12] == 0x50 && t[13] == FlagByte(seg) && t[14..16] == [0x20, 0x00] && t[18..20] == [0, 0] &&
            t[20..] == seg.data
  {
    hide InternetChecksum, Be32, SumOf, FlagByte;
  }

  lemma FlagsRead(seg: Segment)
    ensures var f: int := FlagByte(seg);
            (f / 2 % 2 == 1 <==> seg.syn) && (f / 16 % 2 == 1 <==> seg.hasAck) && (f % 2 == 1 <==> seg.fin)
  {
  }

  /** What is sent is what the other end reads. */
  lemma ParseInvertsFrame(e: Ends, seg: Segment)
    requires e.Valid() && |seg.data| <= MAX_DATA
    ensures Parse(Frame(e, seg)) == Some(Arrival(e.myIp, e.localPort, e.remotePort, seg))
  {
    hide Frame, Be16, Be32, Read16, Read32, FlagByte;
    var f := Frame(e, seg);
    FrameFields(e, seg);
    FlagsRead(seg);
    ReadsBack(f, 16, HDR + HDR + |seg.data|);
    ReadsBack32(f, 26, e.myIp);
    ReadsBack(f, 34, e.localPort);
    ReadsBack(f, 36, e.remotePort);
    ReadsBack32(f, 38, seg.seqno);
    ReadsBack32(f, 42, seg.ack);
    assert f[54..54 + |seg.data|] == f[54..];
  }

  lemma ReadsShift(s: seq<byte>, p: seq<byte>, at: nat, i: nat)
    requires at + |p| <= |s| && s[at..at + |p|] == p && i + 2 <= |p|
    ensures Read16(s, at + i) == Read16(p, i)
  {
    assert s[at + i] == s[at..at + |p|][i] && s[at + i + 1] == s[at..at + |p|][i + 1];
  }

  /** Any IPv4 and TCP headers, with or without options, and what follows them: the data
      read is what the IP length announces, without padding, or as much of it as came. */
  lemma ParseSkipsOptions(eth: seq<byte>, ip: seq<byte>, tcp: seq<byte>, rest: seq<byte>, length: nat)
    requires |eth| == ETH && eth[12..] == [0x08, 0x00]
    requires 20 <= |ip| == 4 * (ip[0] as int % 16) && ip[9] == 6 && Read16(ip, 2) == |ip| + |tcp| + length
    requires 20 <= |tcp| == 4 * (tcp[12] as int / 16)
    ensures var p := Parse(eth + ip + tcp + rest);
            p.Some? && p.value.seg.data == (if length <= |rest| then rest[..length] else rest) &&
            p.value.srcIp == Read32(ip, 12) && p.value.srcPort == Read16(tcp, 0) && p.value.dstPort == Read16(tcp, 2) &&
            p.value.seg.seqno == Read32(tcp, 4) && p.value.seg.ack == Read32(tcp, 8)
  {
    hide Read16;
    var rx := eth + ip + tcp + rest;
    var t := ETH + |ip|;
    assert rx[12] == eth[12..][0] && rx[13] == eth[12..][1];
    assert rx[ETH..t] == ip && rx[t..t + |tcp|] == tcp;
    ReadsShift(rx, ip, ETH, 2);
    ReadsShift(rx, ip, ETH, 12);
    ReadsShift(rx, ip, ETH, 14);
    ReadsShift(rx, tcp, t, 0);
    ReadsShift(rx, tcp, t, 2);
    ReadsShift(rx, tcp, t, 4);
    ReadsShift(rx, tcp, t, 6);
    ReadsShift(rx, tcp, t, 8);
    ReadsShift(rx, tcp, t, 10);
    assert rx[ETH] == ip[0] && rx[ETH + 9] == ip[9] && rx[t + 12] == tcp[12];
    assert rx[t + |tcp|..] == rest;
  }

  // ----- what a server puts on the wire

  predicate AllShort(sent: seq<Output>) {
    forall o :: o in sent ==> |o.seg.data| <= MAX_DATA
  }

  predicate Short(segs: seq<Segment>) {
    forall k :: 0 <= k < |segs| ==> |segs[k].data| <= MAX_DATA
  }

  lemma SlotShort(s: Slot, seg: Segment, data: seq<byte>, tick: nat)
    requires Fits(s)
    ensures Short(Sweep(s, tick).sent) && Short(Receive(s, seg, tick).sent) && Short(Tcp.Send(s, data, tick).sent) &&
            Short(Tcp.Close(s, tick).sent)
  {
    hide TakeData, Pump;
    PumpShort(Acknowledge(s), tick);
    if Accepts(s, data) { PumpShort(s.(out := s.out + data), tick); }
    if s.state == ESTABLISHED {
      TakeShort(s, seg);
      PumpFits(Acknowledge(s), tick);
      TakeShort(Pump(Acknowledge(s), tick).slot, seg);
    }
  }

  lemma PumpShort(s: Slot, tick: nat)
    requires Fits(s)
    ensures Short(Pump(s, tick).sent)
  {
  }

  lemma TakeShort(s: Slot, seg: Segment)
    requires Fits(s)
    ensures Short(TakeData(s, seg).sent)
  {
  }

  lemma {:induction false} SweptShort(ss: Slots, now: nat, n: nat)
    requires AllFit(ss) && n <= |ss|
    ensures AllShort(SweptSent(ss, now, n))
  {
    hide Sweep, Fits;
    if n > 0 {
      SweptShort(ss, now, n - 1);
      assert Fits(ss[n - 1]);
      SlotShort(ss[n - 1], Segment(0, 0, false, false, false, []), [], now);
    }
  }

  lemma SentShort(ss: Slots, localPort: u16, call: Call)
    requires AllFit(ss)
    ensures AllShort(Sent(ss, localPort, call))
  {
    hide Sweep, Fits, Receive, Tcp.Send, Tcp.Close;
    match call
    case DoPoll(rx, macKnown, isn, now, tick) =>
      SweptShort(ss, now, |ss|);
      if rx.Some? {
        var swept := Swept(ss, now, |ss|);
        var i := FindFrom(swept, rx.value.srcIp, rx.value.srcPort, 0);
        if i != -1 { SlotShort(swept[i], rx.value.seg, [], tick); }
      }
    case DoSend(i, data, at) =>
      if i < |ss| { SlotShort(ss[i], Segment(0, 0, false, false, false, []), data, at); }
    case DoClose(i, at) =>
      if i < |ss| { SlotShort(ss[i], Segment(0, 0, false, false, false, []), [], at); }
  }

  /** Whatever happens to a server, every segment it ever sends goes into one frame, which
      the other end reads back as that segment. */
  lemma {:induction false} RunOnWire(ss: Slots, localPort: u16, calls: seq<Call>, e: Ends, o: Output)
    requires AllFit(ss) && o in RunSent(ss, localPort, calls) && e.Valid()
    ensures |o.seg.data| <= MAX_DATA
    ensures |Frame(e, o.seg)| <= 566 &&
            Parse(Frame(e, o.seg)) == Some(Arrival(e.myIp, e.localPort, e.remotePort, o.seg))
  {
    hide Run, Sent, AllFit, Frame, Parse;
    var before := calls[..|calls| - 1];
    if o in RunSent(ss, localPort, before) {
      RunOnWire(ss, localPort, before, e, o);
    } else {
      SentShort(Run(ss, localPort, before), localPort, calls[|calls| - 1]);
      ParseInvertsFrame(e, o.seg);
    }
  }

  // ----- filling the buffer

  /** Writes `data` at offset `at`. */
  method Write(tx: array<byte>, at: nat, data: seq<byte>)
    requires at + |data| <= tx.Length
    modifies tx
    ensures tx[..] == old(tx[..at]) + data + old(tx[at + |data|..])
  {
    for i := 0 to |data|
      invariant tx[..at + i] == old(tx[..at]) + data[..i] && tx[at + i..] == old(tx[at + i..])
    {
      tx[at + i] := data[i];
    }
  }

  /** tcp_checksum: over a copy of the pseudo-header and the segment. */
  method SegmentChecksum(src: u32, dst: u32, seg: seq<byte>) returns (sum: u16)
    requires |seg| <= HDR + MAX_DATA
    ensures sum == InternetChecksum(PseudoHeader(src, dst, |seg|) + seg)
  {
    hide InternetChecksum, Be32, Be16;
    var p := PseudoHeader(src, dst, |seg|) + seg;
    var buf := new byte[|p|](i requires 0 <= i < |p| => p[i]);
    assert buf[0..|p|] == p;
    sum := IpChecksum(buf, 0, |p|);
  }

  /** tcp_send_segment up to the call of the card: the frame in the send buffer. */
  method FillFrame(tx: array<byte>, e: Ends, seg: Segment) returns (n: nat)
    requires e.Valid() && |seg.data| <= MAX_DATA && tx.Length == ETH + HDR + HDR + MAX_DATA
    modifies tx
    ensures n == |Frame(e, seg)| && tx[..n] == Frame(e, seg)
  {
    hide InternetChecksum, TcpHeader, PlainIp, Be16, Be32, PseudoHeader;
    Write(tx, 0, EthPart(e));
    var plain := TcpHeader(e, seg) + seg.data;
    var sum := SegmentChecksum(e.myIp, e.remoteIp, plain);
    assert SumOf(PseudoHeader(e.myIp, e.remoteIp, |plain|) + plain) == sum;
    Write(tx, ETH + HDR, WithSum(plain, 16, sum));
    n := ETH + HDR + HDR + |seg.data|;
    assert tx[ETH + HDR..][..n - ETH - HDR] == TcpPart(e, seg) && tx[..ETH] == EthPart(e);
    var ip := PlainIp(e, HDR + HDR + |seg.data|);
    var buf := new byte[HDR](i requires 0 <= i < HDR => ip[i]);
    assert buf[0..HDR] == ip;
    var ipSum := IpChecksum(buf, 0, HDR);
    assert SumOf(ip) == ipSum;
    ghost var front, back := tx[..ETH], tx[ETH + HDR..];
    Write(tx, ETH, WithSum(ip, 10, ipSum));
    assert tx[..ETH] == front && tx[ETH + HDR..] == back;
    assert tx[ETH + HDR..n] == back[..n - ETH - HDR];
    assert tx[ETH..ETH + HDR] == IpPart(e, HDR + HDR + |seg.data|);
    assert tx[..n] == tx[..ETH] + tx[ETH..ETH + HDR] + tx[ETH + HDR..n];
  }
}
