/** The receive queue of src/drivers/virtio_net.c as a protocol between driver and
    device (section 2.4 of VIRTIO 1.0): who holds each of the eight buffers. */
module VirtioQueue {
  import opened Bytes

  const NUM_ACTIVE: nat := 8
  const NET_HDR_SIZE: nat := 10
  const BUF_SIZE: nat := 1524

  const ALL_IDS: multiset<nat> := multiset{0, 1, 2, 3, 4, 5, 6, 7}

  /** A buffer the device has given back, with the bytes it wrote, header included. */
  datatype Done = Done(id: nat, data: seq<byte>)

  /** What a call of recv copied out, and how much room its caller had. */
  datatype Handed = Handed(bytes: seq<byte>, maxLen: nat)

  /** Buffers offered to the device, oldest first; buffers it has taken; buffers it
      has given back and the driver has not looked at, oldest first. `done` are the
      bytes of all buffers ever given back, `handed` what recv made of each. */
  datatype Queue = Queue(posted: seq<nat>, held: set<nat>, pending: seq<Done>, done: seq<seq<byte>>,
                         handed: seq<Handed>)

  function FrameOf(data: seq<byte>): seq<byte> {
    if |data| > NET_HDR_SIZE then data[NET_HDR_SIZE..] else []
  }

  /** What recv copies out: the frame, if it fits. */
  function HandOver(data: seq<byte>, maxLen: nat): seq<byte> {
    if |FrameOf(data)| <= maxLen then FrameOf(data) else []
  }

  function IdsOf(pending: seq<Done>): (s: seq<nat>)
    ensures |s| == |pending| && forall k :: 0 <= k < |s| ==> s[k] == pending[k].id
  {
    seq(|pending|, k requires 0 <= k < |pending| => pending[k].id)
  }

  ghost function Everywhere(q: Queue): multiset<nat> {
    multiset(q.posted) + multiset(q.held) + multiset(IdsOf(q.pending))
  }

  /** Each of the buffers 0..7 is in exactly one place. */
  ghost predicate Partitioned(q: Queue) {
    Everywhere(q) == ALL_IDS
  }

  datatype Step = Fetch | Complete(id: nat, data: seq<byte>) | Recv(maxLen: nat)

  /** The device fetches an offered buffer, or gives one back that it holds; the
      driver receives. A step that cannot be made changes nothing. */
  function Apply(q: Queue, s: Step): Queue {
    match s
    case Fetch =>
      if q.posted == [] then q else q.(posted := q.posted[1..], held := q.held + {q.posted[0]})
    case Complete(id, data) =>
      if id !in q.held || |data| > BUF_SIZE then q
      else q.(held := q.held - {id}, pending := q.pending + [Done(id, data)], done := q.done + [data])
    case Recv(maxLen) =>
      if q.pending == [] then q
      else q.(pending := q.pending[1..], posted := q.posted + [q.pending[0].id],
              handed := q.handed + [Handed(HandOver(q.pending[0].data, maxLen), maxLen)])
  }

  lemma Members(q: Queue, id: nat)
    requires Partitioned(q)
    ensures id in q.posted || id in q.held || id in IdsOf(q.pending) <==> id < NUM_ACTIVE
    ensures id in q.posted ==> id !in q.held && id !in IdsOf(q.pending)
    ensures id in q.held ==> id !in IdsOf(q.pending)
  {
    hide Everywhere;
    assert ALL_IDS[id] == if id < NUM_ACTIVE then 1 else 0;
    Count(q, id);
  }

  lemma Count(q: Queue, id: nat)
    ensures Everywhere(q)[id] == multiset(q.posted)[id] + multiset(q.held)[id] + multiset(IdsOf(q.pending))[id]
    ensures id in q.posted <==> multiset(q.posted)[id] > 0
    ensures id in q.held <==> multiset(q.held)[id] > 0
    ensures id in IdsOf(q.pending) <==> multiset(IdsOf(q.pending))[id] > 0
  {
  }

  lemma Sizes(q: Queue)
    requires Partitioned(q)
    ensures |q.posted| + |q.held| + |q.pending| == NUM_ACTIVE
  {
    assert |multiset(q.posted) + multiset(q.held) + multiset(IdsOf(q.pending))| == |q.posted| + |q.held| + |q.pending|;
    assert |ALL_IDS| == NUM_ACTIVE;
  }

  lemma FetchMoves(q: Queue)
    requires q.posted != [] && q.posted[0] !in q.held
    ensures Everywhere(Apply(q, Fetch)) == Everywhere(q)
  {
    var id := q.posted[0];
    assert q.posted == [id] + q.posted[1..];
    assert multiset(q.posted) == multiset{id} + multiset(q.posted[1..]);
    assert multiset(q.held + {id}) == multiset(q.held) + multiset{id};
  }

  lemma CompleteMoves(q: Queue, id: nat, data: seq<byte>)
    requires id in q.held
    ensures Everywhere(Apply(q, Complete(id, data))) == Everywhere(q)
  {
    assert IdsOf(q.pending + [Done(id, data)]) == IdsOf(q.pending) + [id];
    assert multiset(q.held) == multiset(q.held - {id}) + multiset{id};
  }

  lemma RecvMoves(q: Queue, maxLen: nat)
    requires q.pending != []
    ensures Everywhere(Apply(q, Recv(maxLen))) == Everywhere(q)
  {
    var id := q.pending[0].id;
    assert IdsOf(q.pending) == [id] + IdsOf(q.pending[1..]);
    assert multiset(IdsOf(q.pending)) == multiset{id} + multiset(IdsOf(q.pending[1..]));
    assert multiset(q.posted + [id]) == multiset(q.posted) + multiset{id};
  }

  lemma StepPartitioned(q: Queue, s: Step)
    requires Partitioned(q)
    ensures Partitioned(Apply(q, s))
  {
    hide Everywhere;
    match s
    case Fetch =>
      if q.posted != [] {
        Members(q, q.posted[0]);
        FetchMoves(q);
      }
    case Complete(id, data) => if id in q.held { CompleteMoves(q, id, data); }
    case Recv(maxLen) => if q.pending != [] { RecvMoves(q, maxLen); }
  }

  /** What has been handed over is, one for one and in order, what was given back: the
      whole frame exactly if it fits the room that its own call offered. */
  ghost predicate InOrder(q: Queue) {
    |q.handed| + |q.pending| == |q.done| &&
    (forall k :: 0 <= k < |q.pending| ==> q.pending[k].data == q.done[|q.handed| + k]) &&
    forall k :: 0 <= k < |q.handed| ==> q.handed[k].bytes == HandOver(q.done[k], q.handed[k].maxLen)
  }

  lemma StepInOrder(q: Queue, s: Step)
    requires InOrder(q)
    ensures InOrder(Apply(q, s))
  {
  }

  const INITIAL: Queue := Queue([0, 1, 2, 3, 4, 5, 6, 7], {}, [], [], [])

  function Run(q: Queue, steps: seq<Step>): Queue {
    if steps == [] then q else Apply(Run(q, steps[..|steps| - 1]), steps[|steps| - 1])
  }

  /** In every run no buffer is lost or shared. */
  lemma {:induction false} RunPartitioned(steps: seq<Step>)
    ensures Partitioned(Run(INITIAL, steps)) && InOrder(Run(INITIAL, steps))
  {
    if steps != [] {
      RunPartitioned(steps[..|steps| - 1]);
      StepPartitioned(Run(INITIAL, steps[..|steps| - 1]), steps[|steps| - 1]);
      StepInOrder(Run(INITIAL, steps[..|steps| - 1]), steps[|steps| - 1]);
    } else {
      assert multiset(INITIAL.posted) == ALL_IDS;
    }
  }

  /** The k-th buffer ever given back held `data`, and recv made of it what fits. */
  ghost predicate HandedAt(q: Queue, k: nat, data: seq<byte>, maxLen: nat) {
    k < |q.done| && k < |q.handed| && q.done[k] == data && q.handed[k] == Handed(HandOver(data, maxLen), maxLen)
  }

  /** In every run, whatever room each call offers: a recv at step i that finds a
      buffer hands over the oldest one not yet handed over, as its frame exactly if
      that fits the room of this call, and nothing later in the run undoes it. */
  lemma HandedInOrder(steps: seq<Step>, i: nat)
    requires i < |steps| && steps[i].Recv? && Run(INITIAL, steps[..i]).pending != []
    ensures var before := Run(INITIAL, steps[..i]);
            HandedAt(Run(INITIAL, steps), |before.handed|, before.pending[0].data, steps[i].maxLen)
    ensures var k, room, q := |Run(INITIAL, steps[..i]).handed|, steps[i].maxLen, Run(INITIAL, steps);
            k < |q.done| && k < |q.handed| && q.done[k] == Run(INITIAL, steps[..i]).pending[0].data &&
            q.handed[k].bytes == if 10 < |q.done[k]| <= 10 + room then q.done[k][10..] else []
  {
    hide Apply, InOrder, HandedAt, Partitioned;
    HandedStored(steps, i);
    HandedBytes(Run(INITIAL, steps), |Run(INITIAL, steps[..i]).handed|, Run(INITIAL, steps[..i]).pending[0].data,
      steps[i].maxLen);
  }

  lemma HandedBytes(q: Queue, k: nat, data: seq<byte>, maxLen: nat)
    requires HandedAt(q, k, data, maxLen)
    ensures k < |q.done| && k < |q.handed| && q.done[k] == data &&
            q.handed[k].bytes == if 10 < |data| <= 10 + maxLen then data[10..] else []
  {
  }

  lemma {:induction false} HandedStored(steps: seq<Step>, i: nat)
    requires i < |steps| && steps[i].Recv? && Run(INITIAL, steps[..i]).pending != []
    ensures var before := Run(INITIAL, steps[..i]);
            HandedAt(Run(INITIAL, steps), |before.handed|, before.pending[0].data, steps[i].maxLen)
  {
    hide Apply, InOrder, HandedAt, Partitioned;
    var last := |steps| - 1;
    if i < last {
      assert steps[..last][..i] == steps[..i];
      HandedStored(steps[..last], i);
      var before := Run(INITIAL, steps[..i]);
      HandedStays(Run(INITIAL, steps[..last]), steps[last], |before.handed|, before.pending[0].data, steps[i].maxLen);
    } else {
      RunPartitioned(steps[..i]);
      RecvHands(Run(INITIAL, steps[..i]), steps[i].maxLen);
    }
  }

  lemma RecvHands(q: Queue, maxLen: nat)
    requires InOrder(q) && q.pending != []
    ensures HandedAt(Apply(q, Recv(maxLen)), |q.handed|, q.pending[0].data, maxLen)
  {
  }

  lemma HandedStays(q: Queue, s: Step, k: nat, data: seq<byte>, maxLen: nat)
    requires HandedAt(q, k, data, maxLen)
    ensures HandedAt(Apply(q, s), k, data, maxLen)
  {
  }

  /** As many buffers are handed over as calls found one: none twice, none skipped. */
  function Received(q: Queue, steps: seq<Step>): nat {
    if steps == [] then 0
    else
      var before := steps[..|steps| - 1];
      Received(q, before) + if steps[|steps| - 1].Recv? && Run(q, before).pending != [] then 1 else 0
  }

  lemma {:induction false} HandedOnce(steps: seq<Step>)
    ensures |Run(INITIAL, steps).handed| == Received(INITIAL, steps)
  {
    if steps != [] {
      HandedOnce(steps[..|steps| - 1]);
    }
  }
}
