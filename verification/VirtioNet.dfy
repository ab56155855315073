/** The receive half of src/drivers/virtio_net.c on the shared rings, with the device
    on the other side. Ring positions are 16-bit counters modulo 256. */
module VirtioNet {
  import opened Arith
  import opened Bytes
  import opened VirtioQueue

  const QUEUE_SIZE: nat := 256

  /** The counter `k` steps later. */
  function Later(idx: u16, k: nat): u16 {
    (idx + k) % 0x1_0000
  }

  function Slot(idx: u16): (r: nat)
    ensures r < QUEUE_SIZE
  {
    idx % QUEUE_SIZE
  }

  /** Nearby positions use different slots, also where the counter wraps. */
  lemma SlotsDiffer(idx: u16, j: nat, k: nat)
    requires j < k < j + QUEUE_SIZE
    ensures Slot(Later(idx, j)) != Slot(Later(idx, k))
  {
    hide Slot, Later;
    SlotOf(idx, j);
    SlotOf(idx, k);
    RemaindersDiffer(idx + j, idx + k);
  }

  /** 256 divides 2^16, so the ring does not notice the wrap of the counter. */
  lemma SlotOf(idx: u16, k: nat)
    ensures Slot(Later(idx, k)) == (idx + k) % QUEUE_SIZE
  {
    var x := idx + k;
    var q, r := x / 0x1_0000, x % 0x1_0000;
    assert x == q * 0x1_0000 + r;
    QuotientUnique(x, QUEUE_SIZE, 0x100 * q + r / QUEUE_SIZE, r % QUEUE_SIZE);
  }

  lemma RemaindersDiffer(a: nat, b: nat)
    requires a < b < a + QUEUE_SIZE
    ensures a % QUEUE_SIZE != b % QUEUE_SIZE
  {
    var p, q := a / QUEUE_SIZE, b / QUEUE_SIZE;
    assert a == QUEUE_SIZE * p + a % QUEUE_SIZE && b == QUEUE_SIZE * q + b % QUEUE_SIZE;
    assert p == q || p + 1 <= q;
  }

  lemma LaterTwice(idx: u16, j: nat, k: nat)
    ensures Later(Later(idx, j), k) == Later(idx, j + k)
  {
  }

  /** Counters that are less than a whole round apart are equal only when they are
      no step apart. */
  lemma LaterSame(idx: u16, k: nat)
    requires k < 0x1_0000
    ensures Later(idx, k) == idx <==> k == 0
  {
  }

  /** The entries between two counters, in the order of the ring. */
  ghost predicate RingHolds<T>(ring: seq<T>, idx: u16, items: seq<T>) {
    |ring| == QUEUE_SIZE && |items| <= NUM_ACTIVE && forall k :: 0 <= k < |items| ==>
      ring[Slot(Later(idx, k))] == items[k]
  }

  lemma RingPush<T>(ring: seq<T>, idx: u16, items: seq<T>, x: T)
    requires RingHolds(ring, idx, items) && |items| < NUM_ACTIVE
    ensures RingHolds(ring[Slot(Later(idx, |items|)) := x], idx, items + [x])
  {
    forall k | 0 <= k < |items| ensures Slot(Later(idx, k)) != Slot(Later(idx, |items|)) {
      SlotsDiffer(idx, k, |items|);
    }
  }

  lemma RingPop<T>(ring: seq<T>, idx: u16, items: seq<T>)
    requires RingHolds(ring, idx, items) && items != []
    ensures ring[Slot(idx)] == items[0] && RingHolds(ring, Later(idx, 1), items[1..])
  {
    assert Later(idx, 0) == idx;
    forall k | 0 <= k < |items| - 1 ensures Later(Later(idx, 1), k) == Later(idx, 1 + k) {
      LaterTwice(idx, 1, k);
    }
  }

  /** A used-ring element: the buffer, and how many bytes were written. */
  datatype Used = Used(id: u32, len: u32)

  function UsedOf(pending: seq<Done>): (s: seq<Used>)
    requires forall k :: 0 <= k < |pending| ==> pending[k].id < NUM_ACTIVE && |pending[k].data| <= BUF_SIZE
    ensures |s| == |pending| && forall k :: 0 <= k < |s| ==> s[k] == Used(pending[k].id, |pending[k].data|)
  {
    seq(|pending|, k requires 0 <= k < |pending| => Used(pending[k].id, |pending[k].data|))
  }

  /** A descriptor: the buffer it points to, how much the device may write there, its
      flags and the next descriptor. */
  datatype Desc = Desc(buffer: nat, len: nat, flags: u16, next: u16)

  const DESC_WRITE: u16 := 2

  /** The descriptors of the buffers in reach of the device let it write. */
  ghost predicate Described(desc: seq<Desc>, q: Queue) {
    |desc| == NUM_ACTIVE &&
    forall id :: 0 <= id < NUM_ACTIVE && (id in q.posted || id in q.held) ==>
      desc[id] == Desc(id, BUF_SIZE, DESC_WRITE, 0)
  }

  class RxQueue {
    const desc: array<Desc>
    const avail: array<u16>
    var availIdx: u16
    const used: array<Used>
    var usedIdx: u16
    var lastUsed: u16
    /** The DMA buffers, by descriptor. */
    const bufs: array<seq<byte>>
    /** The device's own place in the avail ring. */
    var deviceAvail: u16

    ghost var q: Queue

    ghost predicate Pending(pending: seq<Done>)
      reads bufs
    {
      bufs.Length == NUM_ACTIVE &&
      forall k :: 0 <= k < |pending| ==> pending[k].id < NUM_ACTIVE && |pending[k].data| <= BUF_SIZE &&
                                         |bufs[pending[k].id]| >= |pending[k].data| &&
                                           bufs[pending[k].id][..|pending[k].data|] == pending[k].data
    }

    ghost predicate Valid()
      reads this, desc, avail, used, bufs
    {
      Partitioned(q) && InOrder(q) && Pending(q.pending) && Described(desc[..], q) &&
      RingHolds(avail[..], deviceAvail, q.posted) && availIdx == Later(deviceAvail, |q.posted|) &&
      RingHolds(used[..], lastUsed, UsedOf(q.pending)) && usedIdx == Later(lastUsed, |q.pending|)
    }

    /** The receive half of virtio_net_init: all eight buffers are offered. */
    constructor ()
      ensures Valid() && q == INITIAL && fresh(desc) && fresh(avail) && fresh(used) && fresh(bufs)
    {
      hide Partitioned, InOrder, RingHolds;
      desc, avail := new Desc[NUM_ACTIVE], new u16[QUEUE_SIZE];
      used, bufs := new Used[QUEUE_SIZE], new seq<byte>[NUM_ACTIVE];
      availIdx, usedIdx, lastUsed, deviceAvail := 0, 0, 0, 0;
      q := INITIAL;
      new;
      for i := 0 to NUM_ACTIVE
        invariant availIdx == i && usedIdx == 0 && lastUsed == 0 && deviceAvail == 0 && q == INITIAL
        invariant forall k :: 0 <= k < i ==> avail[k] == k
        invariant forall k :: 0 <= k < i ==> desc[k] == Desc(k, BUF_SIZE, DESC_WRITE, 0)
        invariant fresh(desc) && fresh(avail) && fresh(used) && fresh(bufs)
      {
        Repost(i);
      }
      RunPartitioned([]);
      InitialRings(avail[..], used[..]);
    }

    /** rx_repost: the descriptor lets the device write the whole buffer, and goes to
        the next place of the avail ring. */
    method Repost(i: nat)
      requires i < NUM_ACTIVE && desc.Length == NUM_ACTIVE && avail.Length == QUEUE_SIZE
      modifies this`availIdx, desc, avail
      ensures desc[..] == old(desc[..])[i := Desc(i, BUF_SIZE, DESC_WRITE, 0)]
      ensures avail[..] == old(avail[..])[Slot(old(availIdx)) := i] && availIdx == Later(old(availIdx), 1)
    {
      desc[i] := Desc(i, BUF_SIZE, DESC_WRITE, 0);
      avail[availIdx % QUEUE_SIZE] := i;
      availIdx := (availIdx + 1) % 0x1_0000;
    }

    /** virtio_net_recv */
    method Receive(buf: array<byte>, maxLen: nat) returns (copied: nat)
      requires Valid() && maxLen <= buf.Length
      modifies this`availIdx, this`lastUsed, this`q, desc, avail, buf
      ensures Valid() && q == Apply(old(q), Recv(maxLen))
      ensures old(q).pending == [] ==> copied == 0
      ensures old(q).pending != [] ==> copied <= maxLen && buf[..copied] == HandOver(old(q).pending[0].data, maxLen)
      ensures buf[copied..] == old(buf[copied..])
    {
      hide Partitioned, InOrder, RingHolds, UsedOf, HandOver, Described;
      ghost var q0 := q;
      ghost var desc0 := desc[..];
      Sizes(q0);
      LaterSame(lastUsed, |q0.pending|);
      RingSize(avail[..], deviceAvail, q0.posted);
      RingSize(used[..], lastUsed, UsedOf(q0.pending));
      if usedIdx == lastUsed { return 0; }
      RecvRings(avail[..], deviceAvail, used[..], lastUsed, q0, maxLen);
      var elem := used[lastUsed % QUEUE_SIZE];
      lastUsed := (lastUsed + 1) % 0x1_0000;
      copied := CopyFrame(buf, elem, maxLen, q0.pending[0].data);
      DescribedSize(desc0, q0);
      if elem.id < NUM_ACTIVE { Repost(elem.id); }
      q := Apply(q0, Recv(maxLen));
      StepPartitioned(q0, Recv(maxLen));
      StepInOrder(q0, Recv(maxLen));
      RecvDescribed(desc0, q0, maxLen);
    }

    /** The frame behind the header, if there is one and it fits. */
    method CopyFrame(buf: array<byte>, elem: Used, maxLen: nat, ghost data: seq<byte>) returns (copied: nat)
      requires maxLen <= buf.Length && elem.id < bufs.Length == NUM_ACTIVE && elem.len == |data|
      requires |data| <= |bufs[elem.id]| && bufs[elem.id][..|data|] == data
      modifies buf
      ensures copied <= maxLen && buf[..copied] == HandOver(data, maxLen) && buf[copied..] == old(buf[copied..])
    {
      hide HandOver;
      FrameCopied(data, bufs[elem.id], maxLen);
      var frameLen := if elem.len > NET_HDR_SIZE then elem.len - NET_HDR_SIZE else 0;
      copied := 0;
      if frameLen > 0 && frameLen <= maxLen && elem.id < NUM_ACTIVE {
        CopyOut(buf, elem.id, frameLen);
        copied := frameLen;
      }
    }

    method CopyOut(buf: array<byte>, id: nat, n: nat)
      requires id < bufs.Length && n <= buf.Length && NET_HDR_SIZE + n <= |bufs[id]|
      modifies buf
      ensures buf[..n] == bufs[id][NET_HDR_SIZE..NET_HDR_SIZE + n] && buf[n..] == old(buf[n..])
    {
      for i := 0 to n
        invariant forall k :: 0 <= k < i ==> buf[k] == bufs[id][NET_HDR_SIZE + k]
        invariant buf[n..] == old(buf[n..])
      {
        buf[i] := bufs[id][NET_HDR_SIZE + i];
      }
    }

    // ----- the device

    /** The device fetches the next offered buffer. */
    method DeviceFetch()
      requires Valid()
      modifies this`deviceAvail, this`q
      ensures Valid() && q == Apply(old(q), Fetch)
    {
      hide Partitioned, InOrder, RingHolds;
      ghost var q0 := q;
      Sizes(q0);
      LaterSame(deviceAvail, |q0.posted|);
      if availIdx != deviceAvail {
        RingPop(avail[..], deviceAvail, q0.posted);
        LaterTwice(deviceAvail, 1, |q0.posted| - 1);
        deviceAvail := Later(deviceAvail, 1);
      }
      q := Apply(q0, Fetch);
      StepPartitioned(q0, Fetch);
      StepInOrder(q0, Fetch);
    }

    /** The device writes where a descriptor that it holds points, within its length,
        and gives it back. */
    method DeviceComplete(id: nat, data: seq<byte>)
      requires Valid() && id in q.held && |data| <= BUF_SIZE
      modifies this`usedIdx, this`q, used, bufs
      ensures Valid() && q == Apply(old(q), Complete(id, data))
    {
      hide Partitioned, InOrder, RingHolds, UsedOf;
      ghost var q0 := q;
      RingSize(used[..], lastUsed, UsedOf(q0.pending));
      CompleteRings(used[..], lastUsed, q0, id, data);
      assert desc[..][id] == desc[id] && desc[id].flags == DESC_WRITE && |data| <= desc[id].len;
      bufs[desc[id].buffer] := data;
      used[Slot(usedIdx)] := Used(id, |data|);
      usedIdx := Later(usedIdx, 1);
      q := Apply(q0, Complete(id, data));
      StepPartitioned(q0, Complete(id, data));
      StepInOrder(q0, Complete(id, data));
    }
  }

  /** The rings and counters when the driver takes the oldest used element and
      offers its buffer again. */
  lemma RecvRings(avail: seq<u16>, deviceAvail: u16, used: seq<Used>, lastUsed: u16, q: Queue, maxLen: nat)
    requires Partitioned(q) && q.pending != []
    requires forall k :: 0 <= k < |q.pending| ==> q.pending[k].id < NUM_ACTIVE && |q.pending[k].data| <= BUF_SIZE
    requires RingHolds(avail, deviceAvail, q.posted) && RingHolds(used, lastUsed, UsedOf(q.pending))
    ensures var q', id := Apply(q, Recv(maxLen)), q.pending[0].id;
            |avail| == QUEUE_SIZE == |used| && used[Slot(lastUsed)] == Used(id, |q.pending[0].data|) &&
            q'.pending == q.pending[1..] && |q'.posted| == |q.posted| + 1 &&
            RingHolds(avail[Slot(Later(deviceAvail, |q.posted|)) := id], deviceAvail, q'.posted) &&
            RingHolds(used, Later(lastUsed, 1), UsedOf(q'.pending)) &&
            Later(Later(deviceAvail, |q.posted|), 1) == Later(deviceAvail, |q'.posted|) &&
            Later(lastUsed, |q.pending|) == Later(Later(lastUsed, 1), |q'.pending|)
  {
    hide Partitioned, RingHolds;
    Sizes(q);
    RingSize(avail, deviceAvail, q.posted);
    RingSize(used, lastUsed, UsedOf(q.pending));
    RingPop(used, lastUsed, UsedOf(q.pending));
    RingPush(avail, deviceAvail, q.posted, q.pending[0].id as u16);
    LaterTwice(lastUsed, 1, |q.pending| - 1);
    LaterTwice(deviceAvail, |q.posted|, 1);
    assert UsedOf(q.pending[1..]) == UsedOf(q.pending)[1..];
  }

  lemma CompleteRings(used: seq<Used>, lastUsed: u16, q: Queue, id: nat, data: seq<byte>)
    requires Partitioned(q) && id in q.held && |data| <= BUF_SIZE
    requires forall k :: 0 <= k < |q.pending| ==> q.pending[k].id < NUM_ACTIVE && |q.pending[k].data| <= BUF_SIZE
    requires RingHolds(used, lastUsed, UsedOf(q.pending))
    ensures id < NUM_ACTIVE && forall k :: 0 <= k < |q.pending| ==> q.pending[k].id != id
    ensures var q' := Apply(q, Complete(id, data));
            |used| == QUEUE_SIZE && |q'.pending| == |q.pending| + 1 && q'.posted == q.posted &&
            RingHolds(used[Slot(Later(lastUsed, |q.pending|)) := Used(id, |data|)], lastUsed, UsedOf(q'.pending)) &&
            Later(Later(lastUsed, |q.pending|), 1) == Later(lastUsed, |q'.pending|)
  {
    hide Partitioned, RingHolds;
    Sizes(q);
    Members(q, id);
    assert forall k :: 0 <= k < |q.pending| ==> IdsOf(q.pending)[k] == q.pending[k].id;
    RingSize(used, lastUsed, UsedOf(q.pending));
    RingPush(used, lastUsed, UsedOf(q.pending), Used(id, |data|));
    LaterTwice(lastUsed, |q.pending|, 1);
    assert UsedOf(q.pending + [Done(id, data)]) == UsedOf(q.pending) + [Used(id, |data|)];
  }

  lemma DescribedSize(desc: seq<Desc>, q: Queue)
    requires Described(desc, q)
    ensures |desc| == NUM_ACTIVE
  {
  }

  /** The buffer that is offered again has a fresh descriptor. */
  lemma RecvDescribed(desc: seq<Desc>, q: Queue, maxLen: nat)
    requires Described(desc, q) && q.pending != [] && q.pending[0].id < NUM_ACTIVE
    ensures var id := q.pending[0].id; Described(desc[id := Desc(id, BUF_SIZE, DESC_WRITE, 0)], Apply(q, Recv(maxLen)))
  {
  }

  /** Copying the frame out of a buffer that holds the device's bytes. */
  lemma FrameCopied(data: seq<byte>, buffer: seq<byte>, maxLen: nat)
    requires |data| <= |buffer| && buffer[..|data|] == data
    ensures var n := if |data| > NET_HDR_SIZE then |data| - NET_HDR_SIZE else 0;
            HandOver(data, maxLen) == if 0 < n <= maxLen then buffer[NET_HDR_SIZE..NET_HDR_SIZE + n] else []
  {
  }

  lemma InitialRings(avail: seq<u16>, used: seq<Used>)
    requires |avail| == |used| == QUEUE_SIZE && forall k :: 0 <= k < NUM_ACTIVE ==> avail[k] == k
    ensures RingHolds(avail, 0, INITIAL.posted) && RingHolds(used, 0, UsedOf(INITIAL.pending)) &&
            |INITIAL.posted| == NUM_ACTIVE
  {
    assert forall k :: 0 <= k < NUM_ACTIVE ==> Slot(Later(0, k)) == k;
  }

  lemma RingSize<T>(ring: seq<T>, idx: u16, items: seq<T>)
    requires RingHolds(ring, idx, items)
    ensures |ring| == QUEUE_SIZE && |items| <= NUM_ACTIVE
  {
  }
}
