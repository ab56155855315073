/** Runs of the kernel heap: malloc and free over the block list and the
    quarantine of src/kernel/heap.c, and what a freed block may count on. */
module HeapRuns {
  import opened Bytes
  import opened HeapBlocks

  const QUARANTINE_CAPACITY: nat := 8

  /** The block list, and the addresses in quarantine, oldest first. */
  datatype Heap = Heap(blocks: seq<Block>, ring: seq<nat>)

  ghost predicate HeldAt(bs: seq<Block>, a: nat) {
    exists i :: 0 <= i < |bs| && bs[i].addr == a && bs[i].state.Held?
  }

  ghost predicate LiveAt(bs: seq<Block>, a: nat) {
    exists i :: 0 <= i < |bs| && bs[i].addr == a && bs[i].state.Live?
  }

  ghost predicate Distinct(s: seq<nat>) {
    forall i, j :: 0 <= i < j < |s| ==> s[i] != s[j]
  }

  /** The quarantine holds exactly the held blocks, each once. */
  ghost predicate Sound(h: Heap) {
    WellFormed(h.blocks) && |h.ring| <= QUARANTINE_CAPACITY && Distinct(h.ring) &&
    forall a :: a in h.ring <==> HeldAt(h.blocks, a)
  }

  /** The index of the used block at address `a`. */
  ghost function At(bs: seq<Block>, a: nat): (i: nat)
    requires HeldAt(bs, a) || LiveAt(bs, a)
    ensures i < |bs| && bs[i].addr == a && !bs[i].state.Free?
  {
    var i :| 0 <= i < |bs| && bs[i].addr == a && !bs[i].state.Free?;
    i
  }

  /** What malloc picks: -1 for null. */
  ghost function Pick(h: Heap, size: u32): (r: int)
    ensures r == -1 || (0 <= r < |h.blocks| && h.blocks[r].state.Free? && h.blocks[r].size >= Reserved(size))
  {
    if size == 0 then -1 else FirstFit(h.blocks, Reserved(size), 0)
  }

  ghost function AfterMalloc(h: Heap, size: u32, tag: Tag): Heap {
    if Pick(h, size) == -1 then h
    else h.(blocks := Grant(h.blocks, Pick(h, size), Reserved(size), tag))
  }

  ghost function Quarantined(bs: seq<Block>, i: nat): seq<Block>
    requires i < |bs| && bs[i].state.Live?
  {
    Marked(bs, i, State.Held(bs[i].state.tag))
  }

  /** quarantine_push, with the eviction of the oldest block when it is full. */
  ghost function AfterFree(h: Heap, a: nat): Heap
    requires Sound(h) && LiveAt(h.blocks, a)
  {
    var i := At(h.blocks, a);
    LiveIndex(h.blocks, a, i);
    HeldKeeps(h.blocks, i);
    var bs := Quarantined(h.blocks, i);
    if |h.ring| < QUARANTINE_CAPACITY then Heap(bs, h.ring + [a])
    else
      StillHeld(h.blocks, i, h.ring[0]);
      Heap(Release(bs, At(bs, h.ring[0])), h.ring[1..] + [a])
  }

  lemma LiveIndex(bs: seq<Block>, a: nat, i: nat)
    requires Tiles(bs) && LiveAt(bs, a) && i < |bs| && bs[i].addr == a
    ensures bs[i].state.Live?
  {
    var j :| 0 <= j < |bs| && bs[j].addr == a && bs[j].state.Live?;
    AddressUnique(bs, i, j);
  }

  lemma HeldKeeps(bs: seq<Block>, i: nat)
    requires WellFormed(bs) && i < |bs| && bs[i].state.Live?
    ensures WellFormed(Quarantined(bs, i))
  {
    MarkedTiles(bs, i, State.Held(bs[i].state.tag));
  }

  lemma StillHeld(bs: seq<Block>, i: nat, a: nat)
    requires i < |bs| && bs[i].state.Live? && (HeldAt(bs, a) || a == bs[i].addr)
    ensures HeldAt(Quarantined(bs, i), a)
  {
    var r := Quarantined(bs, i);
    if HeldAt(bs, a) {
      var k :| 0 <= k < |bs| && bs[k].addr == a && bs[k].state.Held?;
      assert r[k] == bs[k];
    } else {
      assert r[i].addr == a;
    }
  }

  // ----- every operation keeps the heap sound

  lemma InitSound()
    ensures Sound(Heap([Block(0, ARENA - HEADER_SIZE, Free)], []))
  {
  }

  /** Used blocks survive a malloc, and the only new one is the granted one. */
  lemma GrantOthers(bs: seq<Block>, i: nat, need: nat, tag: Tag, b: Block)
    requires i < |bs| && bs[i].state.Free? && bs[i].size >= need && !b.state.Free?
    ensures var r := Grant(bs, i, need, tag); b in r <==> b in bs || b == r[i]
  {
    var r := Grant(bs, i, need, tag);
    if b in bs {
      var k :| 0 <= k < |bs| && bs[k] == b;
      if k < i || !Splits(bs[i].size, need) { assert r[k] == b; } else { assert r[k + 1] == b; }
    }
    if b in r && b != r[i] {
      var k :| 0 <= k < |r| && r[k] == b;
      if k < i || !Splits(bs[i].size, need) { assert bs[k] == b; } else { assert k != i + 1; assert bs[k - 1] == b; }
    }
  }

  lemma MallocSound(h: Heap, size: u32, tag: Tag)
    requires Sound(h) && size <= MAX_REQUEST
    ensures Sound(AfterMalloc(h, size, tag))
  {
    var i := Pick(h, size);
    if i != -1 {
      ReservedCovers(size);
      GrantKeeps(h.blocks, i, Reserved(size), tag);
      var r := Grant(h.blocks, i, Reserved(size), tag);
      forall a ensures a in h.ring <==> HeldAt(r, a) {
        if HeldAt(r, a) {
          var k :| 0 <= k < |r| && r[k].addr == a && r[k].state.Held?;
          GrantOthers(h.blocks, i, Reserved(size), tag, r[k]);
        }
        if HeldAt(h.blocks, a) {
          var k :| 0 <= k < |h.blocks| && h.blocks[k].addr == a && h.blocks[k].state.Held?;
          GrantOthers(h.blocks, i, Reserved(size), tag, h.blocks[k]);
        }
      }
    }
  }

  /** malloc returns null only for an empty request or when no free block has room for
      it, guards included; otherwise it takes the first that has, and splits it when a
      header and sixteen bytes are left over. */
  lemma FirstFitExact(h: Heap, size: u32, tag: Tag)
    requires size <= MAX_REQUEST
    ensures var i, r, need := Pick(h, size), AfterMalloc(h, size, tag), (size + 7) / 8 * 8 + 26;
            (i == -1 <==> size == 0 || forall j :: 0 <= j < |h.blocks| && h.blocks[j].state.Free? ==>
               h.blocks[j].size < need) &&
            (i != -1 ==>
               0 <= i < |h.blocks| && i < |r.blocks| && h.blocks[i].state.Free? && h.blocks[i].size >= need &&
               (forall j :: 0 <= j < i && h.blocks[j].state.Free? ==> h.blocks[j].size < need) &&
               r.blocks[i].size == (if h.blocks[i].size >= need + 56 then need else h.blocks[i].size))
  {
    ReservedExact(size);
    hide Reserved;
    if size != 0 {
      var f := FirstFit(h.blocks, Reserved(size), 0);
      if f != -1 { GrantSize(h.blocks, f, Reserved(size), tag); }
    }
  }

  lemma ReservedExact(size: u32)
    requires size <= MAX_REQUEST
    ensures Reserved(size) == (size + 7) / 8 * 8 + 26
  {
  }

  lemma GrantSize(bs: seq<Block>, i: nat, need: nat, tag: Tag)
    requires i < |bs| && bs[i].size >= need
    ensures Grant(bs, i, need, tag)[i].size == (if bs[i].size >= need + 56 then need else bs[i].size)
  {
  }

  /** The granted area is as large as requested and apart from every block in use or in
      quarantine. */
  lemma MallocGrants(h: Heap, size: u32, tag: Tag)
    requires Sound(h) && size <= MAX_REQUEST
    ensures var i, r := Pick(h, size), AfterMalloc(h, size, tag);
            i == -1 || (i < |r.blocks| && r.blocks[i].state == Live(tag) && r.blocks[i].addr == h.blocks[i].addr &&
                        r.blocks[i].UserEnd() - r.blocks[i].User() >= size &&
                        forall b :: b in h.blocks && !b.state.Free? ==>
                                      b in r.blocks && (b.End() <= r.blocks[i].addr || r.blocks[i].End() <= b.addr))
  {
    var i := Pick(h, size);
    if i != -1 {
      ReservedCovers(size);
      GrantKeeps(h.blocks, i, Reserved(size), tag);
      var r := AfterMalloc(h, size, tag).blocks;
      forall b | b in h.blocks && !b.state.Free?
        ensures b in r && (b.End() <= r[i].addr || r[i].End() <= b.addr)
      {
        GrantOthers(h.blocks, i, Reserved(size), tag, b);
        var k :| 0 <= k < |r| && r[k] == b;
        var k' :| 0 <= k' < |h.blocks| && h.blocks[k'] == b;
        if k == i {
          AddressUnique(h.blocks, k', i);
        } else if k < i {
          BlocksApart(r, k, i);
        } else {
          BlocksApart(r, i, k);
        }
      }
    }
  }

  /** The quarantine after the freed block is marked, before any eviction. */
  lemma HeldExactly(bs: seq<Block>, i: nat, a: nat)
    requires Tiles(bs) && i < |bs| && bs[i].state.Live?
    ensures HeldAt(Quarantined(bs, i), a) <==> HeldAt(bs, a) || a == bs[i].addr
  {
    var r := Quarantined(bs, i);
    if HeldAt(r, a) {
      var k :| 0 <= k < |r| && r[k].addr == a && r[k].state.Held?;
      if k != i { assert bs[k] == r[k]; }
    }
    if HeldAt(bs, a) || a == bs[i].addr { StillHeld(bs, i, a); }
  }

  lemma ReleaseExactly(bs: seq<Block>, i: nat, a: nat)
    requires Tiles(bs) && i < |bs| && bs[i].state.Held?
    ensures HeldAt(Release(bs, i), a) <==> HeldAt(bs, a) && a != bs[i].addr
  {
    var r := Release(bs, i);
    if HeldAt(r, a) {
      var b :| b in r && b.addr == a && b.state.Held? by {
        var k :| 0 <= k < |r| && r[k].addr == a && r[k].state.Held?;
        assert r[k] in r;
      }
      ReleaseNoNew(bs, i, b);
      var k :| 0 <= k < |bs| && k != i && bs[k] == b;
      if a == bs[i].addr { AddressUnique(bs, i, k); }
    }
    if HeldAt(bs, a) && a != bs[i].addr {
      var k :| 0 <= k < |bs| && bs[k].addr == a && bs[k].state.Held?;
      ReleaseOthers(bs, i, k);
      var m :| 0 <= m < |r| && r[m] == bs[k];
    }
  }

  lemma FreeSound(h: Heap, a: nat)
    requires Sound(h) && LiveAt(h.blocks, a)
    ensures Sound(AfterFree(h, a))
  {
    var i := At(h.blocks, a);
    LiveIndex(h.blocks, a, i);
    HeldKeeps(h.blocks, i);
    var bs := Quarantined(h.blocks, i);
    forall x ensures HeldAt(bs, x) <==> x in h.ring || x == a { HeldExactly(h.blocks, i, x); }
    NotBoth(h.blocks, a);
    assert a !in h.ring;
    if |h.ring| == QUARANTINE_CAPACITY {
      var e := At(bs, h.ring[0]);
      HeldIndex(bs, h.ring[0], e);
      ReleaseKeeps(bs, e);
      forall x ensures HeldAt(Release(bs, e), x) <==> x in h.ring[1..] + [a] {
        ReleaseExactly(bs, e, x);
        assert h.ring == [h.ring[0]] + h.ring[1..];
      }
    }
  }

  lemma HeldIndex(bs: seq<Block>, a: nat, i: nat)
    requires Tiles(bs) && HeldAt(bs, a) && i < |bs| && bs[i].addr == a
    ensures bs[i].state.Held?
  {
    var j :| 0 <= j < |bs| && bs[j].addr == a && bs[j].state.Held?;
    AddressUnique(bs, i, j);
  }

  lemma NotBoth(bs: seq<Block>, a: nat)
    requires Tiles(bs) && LiveAt(bs, a)
    ensures !HeldAt(bs, a)
  {
    if HeldAt(bs, a) {
      var j :| 0 <= j < |bs| && bs[j].addr == a && bs[j].state.Held?;
      LiveIndex(bs, a, j);
    }
  }

  // ----- whole runs

  /** A call of malloc, or of free on the block at `addr`. */
  datatype Op = Allocate(size: u32, tag: Tag) | Discard(addr: nat)

  /** free halts the machine on anything but a live block. */
  datatype Outcome = Running(h: Heap) | Halted

  predicate Fits(ops: seq<Op>) {
    forall i :: 0 <= i < |ops| && ops[i].Allocate? ==> ops[i].size <= MAX_REQUEST
  }

  ghost function Step(h: Heap, op: Op): Outcome
    requires Sound(h)
  {
    match op
    case Allocate(size, tag) => Running(AfterMalloc(h, size, tag))
    case Discard(a) => if LiveAt(h.blocks, a) then Running(AfterFree(h, a)) else Halted
  }

  ghost function Run(h: Heap, ops: seq<Op>): (o: Outcome)
    requires Sound(h) && Fits(ops)
    ensures o.Running? ==> Sound(o.h)
  {
    if ops == [] then Running(h)
    else
      match Run(h, ops[..|ops| - 1])
      case Halted => Halted
      case Running(h') =>
        (match ops[|ops| - 1] {
           case Allocate(size, tag) => MallocSound(h', size, tag); Step(h', ops[|ops| - 1])
           case Discard(a) => (if LiveAt(h'.blocks, a) then FreeSound(h', a); Step(h', ops[|ops| - 1]) else Halted)
         })
  }

  function Frees(ops: seq<Op>): nat {
    if ops == [] then 0 else Frees(ops[..|ops| - 1]) + (if ops[|ops| - 1].Discard? then 1 else 0)
  }

  /** Block b is in quarantine, with `younger` blocks freed after it. */
  ghost predicate Waiting(h: Heap, b: Block, younger: nat) {
    b in h.blocks && b.state.Held? && younger < |h.ring| && h.ring[|h.ring| - 1 - younger] == b.addr
  }

  /** One call makes a waiting block at most one place older. */
  lemma StepWaits(h: Heap, op: Op, b: Block, younger: nat)
    requires Sound(h) && Waiting(h, b, younger) && Step(h, op).Running?
    requires younger + (if op.Discard? then 1 else 0) < QUARANTINE_CAPACITY
    ensures Waiting(Step(h, op).h, b, younger + (if op.Discard? then 1 else 0))
  {
    hide WellFormed, Grant, Release, HeldAt, LiveAt;
    match op
    case Allocate(size, tag) =>
      if Pick(h, size) != -1 { GrantOthers(h.blocks, Pick(h, size), Reserved(size), tag, b); }
    case Discard(c) =>
      OthersStayHeld(h, c, b);
  }

  lemma RunLast(h: Heap, ops: seq<Op>)
    requires Sound(h) && Fits(ops) && ops != [] && Run(h, ops).Running?
    ensures Run(h, ops[..|ops| - 1]).Running?
    ensures Step(Run(h, ops[..|ops| - 1]).h, ops[|ops| - 1]) == Run(h, ops)
  {
  }

  /** A freed block stays where it is, untouched by malloc, through every run of
      further calls with at most seven frees: it is the block that `Frees(ops)`
      younger ones follow in the quarantine. */
  lemma {:induction false} FreedStays(h: Heap, a: nat, ops: seq<Op>)
    requires Sound(h) && LiveAt(h.blocks, a) && Fits(ops) && Frees(ops) < 8
    requires Sound(AfterFree(h, a)) && Run(AfterFree(h, a), ops).Running?
    ensures var b := h.blocks[At(h.blocks, a)];
            b.state.Live? && Waiting(Run(AfterFree(h, a), ops).h, b.(state := State.Held(b.state.tag)), Frees(ops))
  {
    hide AfterFree, Sound, Step, Run, Waiting;
    FreedIsHeld(h, a);
    WaitsOn(AfterFree(h, a), h.blocks[At(h.blocks, a)].(state := State.Held(h.blocks[At(h.blocks, a)].state.tag)), ops);
  }

  lemma {:induction false} WaitsOn(h: Heap, b: Block, ops: seq<Op>)
    requires Sound(h) && Waiting(h, b, 0) && Fits(ops) && Frees(ops) < QUARANTINE_CAPACITY
    requires Run(h, ops).Running?
    ensures Waiting(Run(h, ops).h, b, Frees(ops))
  {
    hide AfterFree, AfterMalloc, Sound, Step, Waiting;
    if ops != [] {
      RunLast(h, ops);
      WaitsOn(h, b, ops[..|ops| - 1]);
      StepWaits(Run(h, ops[..|ops| - 1]).h, ops[|ops| - 1], b, Frees(ops[..|ops| - 1]));
    }
  }

  lemma FreedIsHeld(h: Heap, a: nat)
    requires Sound(h) && LiveAt(h.blocks, a)
    ensures var b := h.blocks[At(h.blocks, a)];
            b.state.Live? && Waiting(AfterFree(h, a), b.(state := State.Held(b.state.tag)), 0)
  {
    var i := At(h.blocks, a);
    LiveIndex(h.blocks, a, i);
    HeldKeeps(h.blocks, i);
    NotBoth(h.blocks, a);
    var bs := Quarantined(h.blocks, i);
    if |h.ring| == QUARANTINE_CAPACITY {
      StillHeld(h.blocks, i, h.ring[0]);
      ReleaseOthers(bs, At(bs, h.ring[0]), i);
    } else {
      assert bs[i] in bs;
    }
  }

  /** A free disturbs no held block but the oldest one of a full quarantine. */
  lemma OthersStayHeld(h: Heap, c: nat, b: Block)
    requires Sound(h) && LiveAt(h.blocks, c) && b in h.blocks && b.state.Held?
    requires |h.ring| < QUARANTINE_CAPACITY || h.ring[0] != b.addr
    ensures b in AfterFree(h, c).blocks
  {
    var i := At(h.blocks, c);
    LiveIndex(h.blocks, c, i);
    HeldKeeps(h.blocks, i);
    var bs := Quarantined(h.blocks, i);
    var k :| 0 <= k < |h.blocks| && h.blocks[k] == b;
    assert bs[k] == b;
    if |h.ring| == QUARANTINE_CAPACITY {
      StillHeld(h.blocks, i, h.ring[0]);
      ReleaseOthers(bs, At(bs, h.ring[0]), k);
    }
  }

  /** In that span, freeing it again halts. */
  lemma DoubleFreeHalts(h: Heap, a: nat, ops: seq<Op>)
    requires Sound(h) && LiveAt(h.blocks, a) && Fits(ops) && Frees(ops) < 8
    requires Sound(AfterFree(h, a)) && Run(AfterFree(h, a), ops).Running?
    ensures Run(AfterFree(h, a), ops + [Discard(a)]).Halted?
  {
    FreedStays(h, a, ops);
    var h' := Run(AfterFree(h, a), ops).h;
    assert a in h'.ring;
    if LiveAt(h'.blocks, a) { NotBoth(h'.blocks, a); }
    assert (ops + [Discard(a)])[..|ops|] == ops;
  }

  /** The eighth later free evicts it: its bytes then belong to a free block. */
  lemma EighthFreeEvicts(h: Heap, a: nat, ops: seq<Op>, c: nat)
    requires Sound(h) && LiveAt(h.blocks, a) && Fits(ops) && Frees(ops) == 7
    requires Sound(AfterFree(h, a)) && Run(AfterFree(h, a), ops + [Discard(c)]).Running?
    ensures var b, h' := h.blocks[At(h.blocks, a)], Run(AfterFree(h, a), ops + [Discard(c)]).h;
            a !in h'.ring && exists f :: f in h'.blocks && f.state.Free? && f.addr <= a && b.End() <= f.End()
  {
    hide AfterFree, Sound;
    assert (ops + [Discard(c)])[..|ops|] == ops;
    FreedStays(h, a, ops);
    var h1 := Run(AfterFree(h, a), ops).h;
    var b := h.blocks[At(h.blocks, a)];
    RunLast(AfterFree(h, a), ops + [Discard(c)]);
    OldestEvicted(h1, c, b.(state := State.Held(b.state.tag)));
  }

  lemma OldestEvicted(h: Heap, c: nat, b: Block)
    requires Sound(h) && LiveAt(h.blocks, c) && Waiting(h, b, QUARANTINE_CAPACITY - 1)
    ensures var r := AfterFree(h, c);
            b.addr !in r.ring && exists f :: f in r.blocks && f.state.Free? && f.addr <= b.addr && b.End() <= f.End()
  {
    hide Release, NoFreeNeighbours, RoomForGuards;
    var a := b.addr;
    var i := At(h.blocks, c);
    LiveIndex(h.blocks, c, i);
    HeldKeeps(h.blocks, i);
    StillHeld(h.blocks, i, a);
    var bs := Quarantined(h.blocks, i);
    var k :| 0 <= k < |h.blocks| && h.blocks[k] == b;
    assert bs[k] == b;
    AddressUnique(bs, k, At(bs, a));
    ReleaseCovers(bs, k);
    NotBoth(h.blocks, c);
    assert a != c;
  }

  lemma ReleaseCovers(bs: seq<Block>, i: nat)
    requires Tiles(bs) && i < |bs|
    ensures exists f :: f in Release(bs, i) && f.state.Free? && f.addr <= bs[i].addr && bs[i].End() <= f.End()
  {
    var lo, hi := MergeFrom(bs, i), MergeTo(bs, i);
    MergeSpans(bs, lo, hi);
    var f := Release(bs, i)[lo];
    if lo < i { BlocksApart(bs, lo, i); }
    if i < hi - 1 { BlocksApart(bs, i, hi - 1); }
    assert f in Release(bs, i);
  }
}
