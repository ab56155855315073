/** Runs of the kernel heap on the bytes of the arena: malloc, free and clients that
    write inside their areas, in any order. */
module HeapTraces {
  import opened Bytes
  import opened Memory
  import opened HeapBlocks
  import opened HeapMemory
  import opened HeapRuns
  import opened HeapFacts

  /** A call of malloc, a free of the live block at `addr`, or a client's write to
      [lo, hi) inside the area of its block. */
  datatype Call = CallMalloc(size: u32, tag: Tag) | CallFree(addr: nat) | CallWrite(block: Block, lo: nat, hi: nat)

  /** What one call does to the bytes and to the list of blocks. */
  ghost predicate Moves(m: seq<byte>, h: Heap, call: Call, m': seq<byte>, h': Heap) {
    Sound(h) &&
    match call
    case CallMalloc(size, tag) =>
      size <= MAX_REQUEST && h' == AfterMalloc(h, size, tag) &&
      var i := Pick(h, size);
      if i == -1 then m' == m else SameOutside(m, m', h.blocks[i].addr, h.blocks[i].End())
    case CallFree(a) =>
      LiveAt(h.blocks, a) && h' == AfterFree(h, a) && DataKept(m, m', h'.blocks) &&
      forall b :: Oldest(h, b) ==> Poisoned(m', b)
    case CallWrite(b, lo, hi) =>
      b in h.blocks && b.state.Live? && b.User() <= lo <= hi <= b.UserEnd() && h' == h && SameOutside(m, m', lo, hi)
  }

  datatype Snapshot = Snapshot(mem: seq<byte>, h: Heap)

  ghost predicate Trace(ss: seq<Snapshot>, calls: seq<Call>) {
    |ss| == |calls| + 1 && (forall k :: 0 <= k < |ss| ==> |ss[k].mem| == ARENA) &&
    forall k :: 0 <= k < |calls| ==> Moves(ss[k].mem, ss[k].h, calls[k], ss[k + 1].mem, ss[k + 1].h)
  }

  function FreeCalls(calls: seq<Call>): nat {
    if calls == [] then 0 else FreeCalls(calls[..|calls| - 1]) + if calls[|calls| - 1].CallFree? then 1 else 0
  }

  /** The bytes behind the header of a block. */
  function Data(m: seq<byte>, b: Block): seq<byte>
    requires b.End() <= |m|
  {
    m[b.addr + HEADER_SIZE..b.End()]
  }

  /** Two different blocks have no byte in common. */
  lemma BlocksDiffer(bs: seq<Block>, b: Block, c: Block)
    requires Tiles(bs) && b in bs && c in bs && b != c
    ensures b.End() <= ARENA && (b.End() <= c.addr || c.End() <= b.addr)
  {
    var i :| 0 <= i < |bs| && bs[i] == b;
    var j :| 0 <= j < |bs| && bs[j] == c;
    BlockInside(bs, i);
    if i < j { BlocksApart(bs, i, j); } else { BlocksApart(bs, j, i); }
  }

  lemma SoundTiles(h: Heap)
    requires Sound(h)
    ensures Tiles(h.blocks)
  {
  }

  /** No call touches the data of a block that waits in quarantine, and makes it at
      most one place older. */
  lemma CallKeeps(m: seq<byte>, h: Heap, call: Call, m': seq<byte>, h': Heap, b: Block, younger: nat)
    requires Moves(m, h, call, m', h') && |m| == |m'| == ARENA && Waiting(h, b, younger)
    requires younger + (if call.CallFree? then 1 else 0) < QUARANTINE_CAPACITY
    ensures Waiting(h', b, younger + if call.CallFree? then 1 else 0)
    ensures b.End() <= ARENA && Data(m', b) == Data(m, b)
  {
    hide Sound, AfterMalloc, AfterFree, SameOutside, Tiles;
    SoundTiles(h);
    WaitingInside(h, b, younger);
    match call
    case CallMalloc(size, tag) =>
      StepWaits(h, Allocate(size, tag), b, younger);
      var i := Pick(h, size);
      if i != -1 { OutsideBlock(m, m', h, h.blocks[i], h.blocks[i].addr, h.blocks[i].End(), b); }
    case CallFree(a) => StepWaits(h, Discard(a), b, younger);
    case CallWrite(c, lo, hi) => OutsideBlock(m, m', h, c, lo, hi, b);
  }

  lemma WaitingInside(h: Heap, b: Block, younger: nat)
    requires Sound(h) && Waiting(h, b, younger)
    ensures b.End() <= ARENA
  {
    var i :| 0 <= i < |h.blocks| && h.blocks[i] == b;
    BlockInside(h.blocks, i);
  }

  lemma OutsideBlock(m: seq<byte>, m': seq<byte>, h: Heap, c: Block, lo: nat, hi: nat, b: Block)
    requires Tiles(h.blocks) && |m| == ARENA && SameOutside(m, m', lo, hi)
    requires b in h.blocks && c in h.blocks && b != c && c.addr <= lo <= hi <= c.End()
    ensures b.End() <= ARENA && |m'| == ARENA && Data(m', b) == Data(m, b)
  {
    hide Tiles;
    BlocksDiffer(h.blocks, b, c);
    SameLength(m, m', lo, hi);
    SliceSame(m, m', lo, hi, b.addr + HEADER_SIZE, b.End());
  }

  /** From its free on, through every run of mallocs, client writes and at most seven
      further frees, not one byte of the freed block's data is written: it still reads
      as it did before the free. */
  lemma {:induction false} FreedDataStays(ss: seq<Snapshot>, calls: seq<Call>, a: nat, b: Block)
    requires Trace(ss, calls) && calls != [] && calls[0] == CallFree(a) && FreeCalls(calls) <= 8
    requires b in ss[0].h.blocks && b.addr == a && b.state.Live?
    ensures FreeCalls(calls) > 0
    ensures Waiting(ss[|calls|].h, b.(state := State.Held(b.state.tag)), FreeCalls(calls) - 1)
    ensures b.End() <= ARENA && Data(ss[|calls|].mem, b) == Data(ss[0].mem, b)
  {
    hide Moves, Waiting;
    var n := |calls| - 1;
    var held := b.(state := State.Held(b.state.tag));
    if n == 0 {
      FirstFree(ss[0].mem, ss[0].h, a, ss[1].mem, ss[1].h, b);
      assert calls[..0] == [];
    } else {
      assert calls[..n][0] == calls[0];
      TracePrefix(ss, calls, n);
      FreedDataStays(ss[..n + 1], calls[..n], a, b);
      CallKeeps(ss[n].mem, ss[n].h, calls[n], ss[n + 1].mem, ss[n + 1].h, held, FreeCalls(calls[..n]) - 1);
    }
  }

  lemma TracePrefix(ss: seq<Snapshot>, calls: seq<Call>, n: nat)
    requires Trace(ss, calls) && n <= |calls|
    ensures Trace(ss[..n + 1], calls[..n])
  {
    hide Moves;
  }

  /** The free itself marks the block and leaves its data. */
  lemma FirstFree(m: seq<byte>, h: Heap, a: nat, m': seq<byte>, h': Heap, b: Block)
    requires Moves(m, h, CallFree(a), m', h') && b in h.blocks && b.addr == a && b.state.Live? && |m| == |m'| == ARENA
    ensures Waiting(h', b.(state := State.Held(b.state.tag)), 0)
    ensures b.End() <= ARENA && Data(m', b) == Data(m, b)
  {
    hide AfterFree;
    var i :| 0 <= i < |h.blocks| && h.blocks[i] == b;
    AddressUnique(h.blocks, i, At(h.blocks, a));
    BlockInside(h.blocks, i);
    FreedIsHeld(h, a);
    var held := b.(state := State.Held(b.state.tag));
    assert held in h'.blocks;
  }

  /** The eighth free after its own overwrites every user byte of the block. */
  lemma EvictedIsPoisoned(ss: seq<Snapshot>, calls: seq<Call>, a: nat, b: Block)
    requires Trace(ss, calls) && |calls| > 1 && calls[0] == CallFree(a) && FreeCalls(calls) == 9
    requires calls[|calls| - 1].CallFree? && b in ss[0].h.blocks && b.addr == a && b.state.Live?
    ensures b.End() <= ARENA && forall k :: b.User() <= k < b.UserEnd() ==> ss[|calls|].mem[k] == 0xDD
  {
    hide Moves;
    var n := |calls| - 1;
    var held := b.(state := State.Held(b.state.tag));
    assert calls[..n][0] == calls[0];
    TracePrefix(ss, calls, n);
    FreedDataStays(ss[..n + 1], calls[..n], a, b);
    OldestPoisoned(ss[n].mem, ss[n].h, calls[n].addr, ss[n + 1].mem, ss[n + 1].h, held);
  }

  lemma OldestPoisoned(m: seq<byte>, h: Heap, c: nat, m': seq<byte>, h': Heap, b: Block)
    requires Moves(m, h, CallFree(c), m', h') && Waiting(h, b, 7)
    ensures Poisoned(m', b)
  {
    assert Oldest(h, b);
  }

  // ----- damaged guards

  /** The guard bytes of a block. */
  function Guards(m: seq<byte>, b: Block): seq<byte>
    requires b.End() <= |m| && b.size >= OVERHEAD
  {
    m[b.addr + 40..b.addr + 48] + m[b.End() - 18..b.End()]
  }

  lemma GuardsSplit(m: seq<byte>, m': seq<byte>, b: Block)
    requires b.End() <= |m| == |m'| && b.size >= OVERHEAD
    ensures Guards(m, b) == Guards(m', b) <==>
            m[b.addr + 40..b.addr + 48] == m'[b.addr + 40..b.addr + 48] &&
            m[b.End() - 18..b.End()] == m'[b.End() - 18..b.End()]
  {
    var l, l' := m[b.addr + 40..b.addr + 48], m'[b.addr + 40..b.addr + 48];
    assert Guards(m, b)[..8] == l && Guards(m', b)[..8] == l';
    assert Guards(m, b)[8..] == m[b.End() - 18..b.End()] && Guards(m', b)[8..] == m'[b.End() - 18..b.End()];
  }

  /** A live block that no one frees stays, with its guard bytes, whatever is called. */
  lemma LiveStays(m: seq<byte>, h: Heap, call: Call, m': seq<byte>, h': Heap, b: Block)
    requires Moves(m, h, call, m', h') && |m| == |m'| == ARENA && b in h.blocks && b.state.Live?
    requires call != CallFree(b.addr)
    ensures b in h'.blocks && b.End() <= ARENA && b.size >= OVERHEAD && Guards(m', b) == Guards(m, b)
  {
    hide Sound, AfterMalloc, AfterFree, SameOutside, Tiles;
    LiveRoom(h, b);
    GuardsSplit(m, m', b);
    match call
    case CallMalloc(size, tag) =>
      var i := Pick(h, size);
      if i != -1 {
        MallocOthers(h, size, tag, b);
        OutsideBlock(m, m', h, h.blocks[i], h.blocks[i].addr, h.blocks[i].End(), b);
        SubData(m, m', b);
      } else {
        assert h' == h by { NothingGranted(h, size, tag); }
      }
    case CallFree(a) =>
      OthersStayLive(h, a, b);
      SubData(m, m', b);
    case CallWrite(c, lo, hi) =>
      if c == b {
        SliceSame(m, m', lo, hi, b.addr + 40, b.addr + 48);
        SliceSame(m, m', lo, hi, b.End() - 18, b.End());
      } else {
        OutsideBlock(m, m', h, c, lo, hi, b);
        SubData(m, m', b);
      }
  }

  lemma SubData(m: seq<byte>, m': seq<byte>, b: Block)
    requires b.End() <= |m| == |m'| && b.size >= OVERHEAD && Data(m, b) == Data(m', b)
    ensures m[b.addr + 40..b.addr + 48] == m'[b.addr + 40..b.addr + 48]
    ensures m[b.End() - 18..b.End()] == m'[b.End() - 18..b.End()]
  {
    assert m[b.addr + 40..b.addr + 48] == Data(m, b)[..8] && m[b.End() - 18..b.End()] == Data(m, b)[b.size - 18..];
    assert m'[b.addr + 40..b.addr + 48] == Data(m', b)[..8] && m'[b.End() - 18..b.End()] == Data(m', b)[b.size - 18..];
  }

  lemma LiveRoom(h: Heap, b: Block)
    requires Sound(h) && b in h.blocks && b.state.Live?
    ensures Tiles(h.blocks) && b.End() <= ARENA && b.size >= OVERHEAD
  {
    var i :| 0 <= i < |h.blocks| && h.blocks[i] == b;
    BlockInside(h.blocks, i);
  }

  lemma NothingGranted(h: Heap, size: u32, tag: Tag)
    requires Pick(h, size) == -1
    ensures AfterMalloc(h, size, tag) == h
  {
  }

  lemma MallocOthers(h: Heap, size: u32, tag: Tag, b: Block)
    requires Pick(h, size) != -1 && b in h.blocks && b.state.Live?
    ensures b in AfterMalloc(h, size, tag).blocks && b != h.blocks[Pick(h, size)]
  {
    hide Grant;
    GrantOthers(h.blocks, Pick(h, size), Reserved(size), tag, b);
  }

  /** A free disturbs no other live block. */
  lemma OthersStayLive(h: Heap, c: nat, b: Block)
    requires Sound(h) && LiveAt(h.blocks, c) && b in h.blocks && b.state.Live? && b.addr != c
    ensures b in AfterFree(h, c).blocks
  {
    var i := At(h.blocks, c);
    LiveIndex(h.blocks, c, i);
    HeldKeeps(h.blocks, i);
    var bs := Quarantined(h.blocks, i);
    var k :| 0 <= k < |h.blocks| && h.blocks[k] == b;
    assert bs[k] == b;
    if |h.ring| == QUARANTINE_CAPACITY {
      StillHeld(h.blocks, i, h.ring[0]);
      HeldIndex(bs, h.ring[0], At(bs, h.ring[0]));
      ReleaseOthers(bs, At(bs, h.ring[0]), k);
    }
  }

  lemma {:induction false} LiveThroughout(ss: seq<Snapshot>, calls: seq<Call>, b: Block)
    requires Trace(ss, calls) && Sound(ss[0].h) && b in ss[0].h.blocks && b.state.Live?
    requires CallFree(b.addr) !in calls
    ensures b.End() <= ARENA && b.size >= OVERHEAD
    ensures b in ss[|calls|].h.blocks && Guards(ss[|calls|].mem, b) == Guards(ss[0].mem, b)
  {
    hide Moves, Guards, Sound;
    LiveRoom(ss[0].h, b);
    if calls != [] {
      var n := |calls| - 1;
      TracePrefix(ss, calls, n);
      LiveThroughout(ss[..n + 1], calls[..n], b);
      LiveStays(ss[n].mem, ss[n].h, calls[n], ss[n + 1].mem, ss[n + 1].h, b);
    }
  }

  /** Someone writes over the guards of a live block, which were whole in `m`, and any run
      of calls follows. When the block is freed at last, free halts
      with an underflow if a byte of the redzone was changed, with an overflow if only
      bytes of the canary were, and accepts the block if neither was. */
  lemma DamageIsFound(m: seq<byte>, ss: seq<Snapshot>, calls: seq<Call>, b: Block, ptr: nat)
    requires Trace(ss, calls) && CallFree(b.addr) !in calls && Sound(ss[0].h) && Sound(ss[|calls|].h) && ptr != 0
    requires b in ss[0].h.blocks && b.state.Live? && Guarded(m, b) && |m| == ARENA
    ensures var m' := ss[0].mem;
            FreeStatus(ss[|calls|].mem, ss[|calls|].h.blocks, ptr, b.addr) ==
              if m'[b.addr + 40..b.addr + 48] != m[b.addr + 40..b.addr + 48] then Underflow
              else if m'[b.End() - 18..b.End()] != m[b.End() - 18..b.End()] then Overflow
              else Done
  {
    hide Sound, FreeStatus, Guards, Moves;
    LiveThroughout(ss, calls, b);
    GuardsSplit(ss[0].mem, ss[|calls|].mem, b);
    StatusByGuards(ss[|calls|].mem, ss[|calls|].h, b, ptr);
  }

  lemma StatusByGuards(m: seq<byte>, h: Heap, b: Block, ptr: nat)
    requires Sound(h) && b in h.blocks && b.state.Live? && |m| == ARENA && ptr != 0
    ensures b.End() <= ARENA && b.size >= OVERHEAD
    ensures FreeStatus(m, h.blocks, ptr, b.addr) ==
              if !RedzoneIntact(m, b) then Underflow else if !CanaryIntact(m, b) then Overflow else Done
  {
    hide RedzoneIntact, CanaryIntact;
    LiveRoom(h, b);
    var k :| 0 <= k < |h.blocks| && h.blocks[k] == b;
    AddressUnique(h.blocks, k, At(h.blocks, b.addr));
  }
}
