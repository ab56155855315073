/** What single steps of malloc and free do to the bytes of the arena. */
module HeapFacts {
  import opened Bytes
  import opened HeapBlocks
  import opened HeapMemory
  import opened Memory
  import opened HeapRuns

  /** How free ended. All but Done and Null halt the machine, with a message. */
  datatype Status = Null | Done | DoubleFree | Foreign | Underflow | Overflow

  const INITIAL: seq<Block> := [Block(0, ARENA - HEADER_SIZE, State.Free)]

  /** Slot of the quarantine that holds the k-th oldest of `count` entries. */
  function RingSlot(pos: nat, count: nat, k: nat): (r: nat)
    requires pos < QUARANTINE_CAPACITY && k < count <= QUARANTINE_CAPACITY
    ensures r < QUARANTINE_CAPACITY
  {
    if pos + k < count then pos + k + QUARANTINE_CAPACITY - count else pos + k - count
  }

  ghost predicate AllGuardedIn(m: seq<byte>, bs: seq<Block>) {
    forall b :: b in bs && b.state.Live? ==> Guarded(m, b)
  }

  /** What free reports for the user pointer of a block at `a`. */
  ghost function FreeStatus(m: seq<byte>, bs: seq<Block>, ptr: nat, a: int): Status
    requires WellFormed(bs) && |m| == ARENA && (ptr != 0 ==> 0 <= a && a + STORED <= |m|)
  {
    if ptr == 0 then Null
    else if !LiveAt(bs, a) then
      if Decode(m, a).magic == MAGIC_FREE || Decode(m, a).magic == MAGIC_QUARANTINE then DoubleFree else Foreign
    else
      var b := bs[At(bs, a)];
      LiveIndex(bs, a, At(bs, a));
      BlockInside(bs, At(bs, a));
      if !RedzoneIntact(m, b) then Underflow
      else if !CanaryIntact(m, b) then Overflow
      else Done
  }

  /** The bytes behind the headers of used blocks. */
  ghost predicate DataKept(m: seq<byte>, m': seq<byte>, bs: seq<Block>) {
    |m| == |m'| && forall b :: b in bs && !b.state.Free? ==>
      b.End() <= |m| && m'[b.addr + HEADER_SIZE..b.End()] == m[b.addr + HEADER_SIZE..b.End()]
  }

  lemma StampFacts(m: seq<byte>, m1: seq<byte>, m2: seq<byte>, m3: seq<byte>, base: nat, bs: seq<Block>, i: nat,
        tag: Tag)
    requires Tiles(bs) && Linked(m, base, bs) && i < |bs| && bs[i].size >= OVERHEAD && bs[i].End() <= |m|
    requires bs[i].size < U32_LIMIT && PointerTo(bs, i + 1, base) < 0x1_0000_0000_0000_0000
    requires SameOutside(m, m1, bs[i].addr, bs[i].addr + STORED)
    requires m1[bs[i].addr..bs[i].addr + STORED] ==
             Encode(HeaderOf(bs[i].(state := Live(tag)), PointerTo(bs, i + 1, base)))
    requires SameOutside(m1, m2, bs[i].addr + HEADER_SIZE, bs[i].User()) &&
             m2[bs[i].addr + HEADER_SIZE..bs[i].User()] == seq(RZONE_SIZE, _ => RZONE_BYTE)
    requires SameOutside(m2, m3, bs[i].UserEnd(), bs[i].End()) && m3[bs[i].UserEnd()..bs[i].End()] == Canary(tag)
    ensures SameOutside(m, m3, bs[i].addr, bs[i].End())
    ensures Linked(m3, base, Marked(bs, i, Live(tag))) && Guarded(m3, Marked(bs, i, Live(tag))[i])
  {
    hide Canary, Encode, Tiles;
    var b := bs[i];
    assert m2[b.addr + HEADER_SIZE..b.User()] == Redzone();
    SliceSame(m1, m2, b.addr + HEADER_SIZE, b.User(), b.addr, b.addr + STORED);
    SliceSame(m2, m3, b.UserEnd(), b.End(), b.addr, b.addr + STORED);
    SliceSame(m2, m3, b.UserEnd(), b.End(), b.addr + HEADER_SIZE, b.User());
    MarkedLinked(m, m3, base, bs, i, Live(tag));
  }

  lemma CarveFacts(m: seq<byte>, m1: seq<byte>, m2: seq<byte>, base: nat, bs: seq<Block>, i: nat, need: nat)
    requires |m| == |m1| == |m2| && i < |bs| && bs[i].End() <= |m| && Splits(bs[i].size, need) && bs[i].state.Free?
    requires Tiles(bs) && Linked(m, base, bs)
    requires bs[i].size < U32_LIMIT && PointerTo(bs, i + 1, base) < 0x1_0000_0000_0000_0000 &&
             base + ARENA < 0x1_0000_0000_0000_0000
    requires var n, b := bs[i].addr + HEADER_SIZE + need, bs[i];
             SameOutside(m, m1, n, n + STORED) && SameOutside(m1, m2, b.addr, b.addr + STORED) &&
             m1[n..n + STORED] == Encode(Header(b.size - need - HEADER_SIZE, 1, PointerTo(bs, i + 1, base), MAGIC_FREE,
               ZERO_TAG)) &&
             base + n < 0x1_0000_0000_0000_0000 &&
             m2[b.addr..b.addr + STORED] == Encode(Header(need, 1, base + n, MAGIC_FREE, ZERO_TAG))
    ensures SameOutside(m, m2, bs[i].addr, bs[i].End()) && Linked(m2, base, Cut(bs, i, need))
  {
    hide Encode, Tiles, SameOutside, Linked;
    var b, n := bs[i], bs[i].addr + HEADER_SIZE + need;
    SliceSame(m1, m2, b.addr, b.addr + STORED, n, n + STORED);
    SameOutsideJoin(m, m1, m2, b.addr, b.End(), n, n + STORED, b.addr, b.addr + STORED);
    CutLinked(m, m2, base, bs, i, need);
  }

  lemma SameSelf(m: seq<byte>, lo: nat, hi: nat)
    ensures SameOutside(m, m, lo, hi)
  {
  }

  lemma FirstFitStep(bs: seq<Block>, need: nat, i: nat)
    requires i < |bs|
    ensures FirstFit(bs, need, i) == if bs[i].state.Free? && bs[i].size >= need then i else FirstFit(bs, need, i + 1)
  {
  }

  lemma GrantInside(m: seq<byte>, m1: seq<byte>, m2: seq<byte>, bs: seq<Block>, i: nat, need: nat)
    requires i < |bs| && bs[i].size >= need && SameOutside(m, m1, bs[i].addr, bs[i].End())
    requires var c := CutIfWorth(bs, i, need); SameOutside(m1, m2, c[i].addr, c[i].End())
    ensures SameOutside(m, m2, bs[i].addr, bs[i].End())
  {
    var c := CutIfWorth(bs, i, need);
    assert c[i].addr == bs[i].addr && c[i].End() <= bs[i].End();
  }

  /** Guards outside a change stay. */
  lemma GuardedSame(m: seq<byte>, m': seq<byte>, lo: nat, hi: nat, b: Block)
    requires Guarded(m, b) && SameOutside(m, m', lo, hi)
    requires (b.User() <= lo && hi <= b.UserEnd()) || hi <= b.addr + HEADER_SIZE || b.End() <= lo
    ensures Guarded(m', b)
  {
    SliceSame(m, m', lo, hi, b.addr + HEADER_SIZE, b.User());
    SliceSame(m, m', lo, hi, b.UserEnd(), b.End());
  }

  /** All live blocks but the ones listed keep their guards. */
  lemma OthersGuarded(m: seq<byte>, m': seq<byte>, bs: seq<Block>, lo: nat, hi: nat, k: nat)
    requires Tiles(bs) && AllGuardedIn(m, bs) && lo < hi <= |bs| && k < |bs| && !(lo <= k < hi) && bs[k].state.Live?
    requires SameOutside(m, m', bs[lo].addr, bs[hi - 1].End())
    ensures Guarded(m', bs[k])
  {
    hide Guarded, SameOutside, Tiles;
    if k < lo { BlocksApart(bs, k, lo); } else { BlocksApart(bs, hi - 1, k); }
    GuardedSame(m, m', bs[lo].addr, bs[hi - 1].End(), bs[k]);
  }

  lemma GrantGuarded(m: seq<byte>, m': seq<byte>, bs: seq<Block>, i: nat, need: nat, tag: Tag)
    requires Tiles(bs) && AllGuardedIn(m, bs) && i < |bs| && bs[i].state.Free? && bs[i].size >= need
    requires SameOutside(m, m', bs[i].addr, bs[i].End()) && Guarded(m', Grant(bs, i, need, tag)[i])
    ensures AllGuardedIn(m', Grant(bs, i, need, tag))
  {
    hide Guarded, SameOutside, Tiles, Grant;
    var r := Grant(bs, i, need, tag);
    forall b | b in r && b.state.Live?
      ensures Guarded(m', b)
    {
      GrantOthers(bs, i, need, tag, b);
      if b != r[i] {
        var k :| 0 <= k < |bs| && bs[k] == b;
        OthersGuarded(m, m', bs, i, i + 1, k);
      }
    }
  }

  lemma HeadFirst(bs: seq<Block>)
    requires Tiles(bs)
    ensures |bs| > 0 && bs[0].addr == 0
  {
  }

  // ----- facts about free

  /** The list once the live block at `a` is marked as held. */
  ghost function AfterMark(bs: seq<Block>, a: nat): seq<Block>
    requires Tiles(bs) && LiveAt(bs, a)
  {
    LiveIndex(bs, a, At(bs, a));
    Quarantined(bs, At(bs, a))
  }

  lemma AfterFreeCases(h: HeapRuns.Heap, a: nat)
    requires Sound(h) && LiveAt(h.blocks, a)
    ensures var bs, r := AfterMark(h.blocks, a), AfterFree(h, a);
            WellFormed(bs) &&
            (|h.ring| < QUARANTINE_CAPACITY ==> r == HeapRuns.Heap(bs, h.ring + [a])) &&
            (|h.ring| == QUARANTINE_CAPACITY ==>
               HeldAt(bs, h.ring[0]) && bs[At(bs, h.ring[0])].state.Held? &&
               r == HeapRuns.Heap(Release(bs, At(bs, h.ring[0])), h.ring[1..] + [a]))
  {
    var i := At(h.blocks, a);
    LiveIndex(h.blocks, a, i);
    HeldKeeps(h.blocks, i);
    if |h.ring| == QUARANTINE_CAPACITY {
      StillHeld(h.blocks, i, h.ring[0]);
      HeldIndex(AfterMark(h.blocks, a), h.ring[0], At(AfterMark(h.blocks, a), h.ring[0]));
    }
  }

  lemma GuardRoom(bs: seq<Block>, i: nat)
    requires RoomForGuards(bs) && i < |bs| && !bs[i].state.Free?
    ensures bs[i].size >= OVERHEAD
  {
  }

  lemma DataSame(m: seq<byte>, base: nat, bs: seq<Block>)
    requires Linked(m, base, bs)
    ensures DataKept(m, m, bs)
  {
    forall b | b in bs && !b.state.Free? ensures b.End() <= |m| {
      var k :| 0 <= k < |bs| && bs[k] == b;
      assert Holds(m, bs[k], PointerTo(bs, k + 1, base));
    }
  }

  lemma DataChain(m: seq<byte>, m1: seq<byte>, m2: seq<byte>, bs1: seq<Block>, bs2: seq<Block>)
    requires DataKept(m, m1, bs1) && DataKept(m1, m2, bs2) && forall b :: b in bs2 && !b.state.Free? ==> b in bs1
    ensures DataKept(m, m2, bs2)
  {
  }

  /** The header tells live and held blocks apart. */
  lemma HeaderMagic(m: seq<byte>, base: nat, bs: seq<Block>, a: nat)
    requires Linked(m, base, bs) && a + STORED <= |m|
    ensures LiveAt(bs, a) ==> Decode(m, a).magic == MAGIC_ALLOC
    ensures HeldAt(bs, a) ==> Decode(m, a).magic == MAGIC_QUARANTINE
  {
    hide Decode;
    if LiveAt(bs, a) {
      var k :| 0 <= k < |bs| && bs[k].addr == a && bs[k].state.Live?;
      ReadBlock(m, base, bs, k);
    }
    if HeldAt(bs, a) {
      var k :| 0 <= k < |bs| && bs[k].addr == a && bs[k].state.Held?;
      ReadBlock(m, base, bs, k);
    }
  }

  /** A change inside one header leaves all data and guards alone. */
  lemma HeaderChange(m: seq<byte>, m': seq<byte>, base: nat, bs: seq<Block>, i: nat, k: nat)
    requires Tiles(bs) && Linked(m, base, bs) && i < |bs| && k < |bs|
    requires SameOutside(m, m', bs[i].addr, bs[i].addr + STORED)
    ensures bs[k].End() <= |m| && m'[bs[k].addr + HEADER_SIZE..bs[k].End()] == m[bs[k].addr + HEADER_SIZE..bs[k].End()]
    ensures Guarded(m, bs[k]) ==> Guarded(m', bs[k])
  {
    hide Tiles, SameOutside, Guarded, Linked;
    BlockInside(bs, k);
    ReadBlock(m, base, bs, k);
    if k < i { BlocksApart(bs, k, i); }
    if i < k { BlocksApart(bs, i, k); }
    SliceSame(m, m', bs[i].addr, bs[i].addr + STORED, bs[k].addr + HEADER_SIZE, bs[k].End());
    if Guarded(m, bs[k]) { GuardedSame(m, m', bs[i].addr, bs[i].addr + STORED, bs[k]); }
  }

  lemma RetireFacts(m: seq<byte>, m': seq<byte>, base: nat, bs: seq<Block>, i: nat)
    requires Tiles(bs) && Linked(m, base, bs) && i < |bs| && bs[i].state.Live? && bs[i].End() <= |m| == |m'|
    requires bs[i].size < U32_LIMIT && PointerTo(bs, i + 1, base) < 0x1_0000_0000_0000_0000
    requires SameOutside(m, m', bs[i].addr, bs[i].addr + STORED)
    requires m'[bs[i].addr..bs[i].addr + STORED] == Encode(HeaderOf(Quarantined(bs, i)[i], PointerTo(bs, i + 1, base)))
    ensures Tiles(Quarantined(bs, i)) && Linked(m', base, Quarantined(bs, i)) && DataKept(m, m', Quarantined(bs, i))
    ensures AllGuardedIn(m, bs) ==> AllGuardedIn(m', Quarantined(bs, i))
  {
    hide Tiles, SameOutside, Linked, Encode, Guarded;
    var r := Quarantined(bs, i);
    MarkedTiles(bs, i, State.Held(bs[i].state.tag));
    Widen(m, m', bs[i].addr, bs[i].addr + STORED, bs[i].End());
    MarkedLinked(m, m', base, bs, i, State.Held(bs[i].state.tag));
    forall b | b in r && !b.state.Free?
      ensures b.End() <= |m| && m'[b.addr + HEADER_SIZE..b.End()] == m[b.addr + HEADER_SIZE..b.End()]
    {
      var k :| 0 <= k < |r| && r[k] == b;
      HeaderChange(m, m', base, bs, i, k);
    }
    if AllGuardedIn(m, bs) {
      forall b | b in r && b.state.Live? ensures Guarded(m', b) {
        var k :| 0 <= k < |r| && r[k] == b;
        HeaderChange(m, m', base, bs, i, k);
        assert bs[k] == b;
      }
    }
  }

  lemma Widen(m: seq<byte>, m': seq<byte>, lo: nat, hi: nat, hi': nat)
    requires SameOutside(m, m', lo, hi) && hi <= hi'
    ensures SameOutside(m, m', lo, hi')
  {
  }

  /** A release touches only the block and its free neighbours. */
  lemma ReleaseFrame(m: seq<byte>, m': seq<byte>, bs: seq<Block>, e: nat)
    requires Tiles(bs) && e < |bs| && !bs[e].state.Live? && |m| == ARENA
    requires SameOutside(m, m', bs[MergeFrom(bs, e)].addr, bs[MergeTo(bs, e) - 1].End())
    ensures DataKept(m, m', Release(bs, e))
    ensures forall b :: b in Release(bs, e) && !b.state.Free? ==> b in bs
    ensures AllGuardedIn(m, bs) ==> AllGuardedIn(m', Release(bs, e))
  {
    hide Tiles, SameOutside, Guarded, Release;
    var lo, hi := MergeFrom(bs, e), MergeTo(bs, e);
    SameLength(m, m', bs[lo].addr, bs[hi - 1].End());
    forall b | b in Release(bs, e) && !b.state.Free?
      ensures b in bs && b.End() <= |m| && m'[b.addr + HEADER_SIZE..b.End()] == m[b.addr + HEADER_SIZE..b.End()]
      ensures AllGuardedIn(m, bs) && b.state.Live? ==> Guarded(m', b)
    {
      ReleaseNoNew(bs, e, b);
      var k :| 0 <= k < |bs| && k != e && bs[k] == b;
      BlockInside(bs, k);
      if k < lo { BlocksApart(bs, k, lo); } else { BlocksApart(bs, hi - 1, k); }
      SliceSame(m, m', bs[lo].addr, bs[hi - 1].End(), b.addr + HEADER_SIZE, b.End());
      if AllGuardedIn(m, bs) && b.state.Live? { OthersGuarded(m, m', bs, lo, hi, k); }
    }
  }

  /** A write inside the user area of block i is away from block k's header, and
      from its guards. */
  lemma ClientApart(bs: seq<Block>, i: nat, lo: nat, hi: nat, k: nat)
    requires Tiles(bs) && i < |bs| && k < |bs| && bs[i].User() <= lo <= hi <= bs[i].UserEnd()
    ensures bs[k].addr + HEADER_SIZE <= lo || hi <= bs[k].addr
    ensures (bs[k].User() <= lo && hi <= bs[k].UserEnd()) || hi <= bs[k].addr + HEADER_SIZE || bs[k].End() <= lo
  {
    hide Tiles;
    if k < i { BlocksApart(bs, k, i); }
    if i < k { BlocksApart(bs, i, k); }
  }

  /** A client that writes inside its area disturbs no header and no guard. */
  lemma ClientFacts(m: seq<byte>, m': seq<byte>, base: nat, bs: seq<Block>, i: nat, lo: nat, hi: nat)
    requires Tiles(bs) && Linked(m, base, bs) && i < |bs| && bs[i].state.Live?
    requires bs[i].User() <= lo <= hi <= bs[i].UserEnd() && SameOutside(m, m', lo, hi)
    ensures Linked(m', base, bs)
    ensures AllGuardedIn(m, bs) ==> AllGuardedIn(m', bs)
  {
    hide Tiles, SameOutside, Guarded, Holds;
    SameLength(m, m', lo, hi);
    forall k | 0 <= k < |bs| ensures Holds(m', bs[k], PointerTo(bs, k + 1, base)) {
      ClientApart(bs, i, lo, hi, k);
      HoldsSame(m, m', lo, hi, bs[k], PointerTo(bs, k + 1, base));
    }
    if AllGuardedIn(m, bs) {
      forall b | b in bs && b.state.Live? ensures Guarded(m', b) {
        var k :| 0 <= k < |bs| && bs[k] == b;
        ClientApart(bs, i, lo, hi, k);
        GuardedSame(m, m', lo, hi, b);
      }
    }
  }

  /** free accepts every live block whose owner kept inside its area. */
  lemma LiveFreeIsDone(m: seq<byte>, bs: seq<Block>, ptr: nat, a: nat)
    requires WellFormed(bs) && |m| == ARENA && a + STORED <= |m| && LiveAt(bs, a) && ptr != 0 && AllGuardedIn(m, bs)
    ensures FreeStatus(m, bs, ptr, a) == Done
  {
    hide Tiles, Decode;
    LiveIndex(bs, a, At(bs, a));
    assert bs[At(bs, a)] in bs;
  }

  /** free of a block in quarantine is reported as a double free. */
  lemma HeldFreeIsDouble(m: seq<byte>, base: nat, bs: seq<Block>, ptr: nat, a: nat)
    requires WellFormed(bs) && Linked(m, base, bs) && a + STORED <= |m| && HeldAt(bs, a) && ptr != 0
    ensures FreeStatus(m, bs, ptr, a) == DoubleFree
  {
    hide Tiles, Decode, Linked;
    HeaderMagic(m, base, bs, a);
    if LiveAt(bs, a) { NotBoth(bs, a); }
  }

  /** The eight bytes of a left redzone. */
  predicate LeftWhole(z: seq<byte>) {
    |z| == 8 && forall k :: 0 <= k < 8 ==> z[k] == 0xBE
  }

  /** The last eighteen bytes of a block with the given tag: each is 0xAC xor its tag byte. */
  predicate RightWhole(tag: seq<byte>, last: seq<byte>) {
    |tag| == |last| == 18 && forall k :: 0 <= k < 18 ==> last[k] == ((tag[k] as bv8) ^ 0xAC) as byte
  }

  /** What free of a live block finds in the bytes of the arena alone, its header included:
      it is accepted exactly if all its guard bytes are as malloc left them. */
  lemma FreeExact(m: seq<byte>, base: nat, bs: seq<Block>, ptr: nat, a: nat)
    requires WellFormed(bs) && Linked(m, base, bs) && a + 40 <= |m| && LiveAt(bs, a) && ptr != 0
    ensures 26 <= Word32(m, a) && a + 40 + Word32(m, a) <= |m|
    ensures var end := a + 40 + Word32(m, a);
            FreeStatus(m, bs, ptr, a) ==
              if !LeftWhole(m[a + 40..a + 48]) then Underflow
              else if !RightWhole(m[a + 20..a + 38], m[end - 18..end]) then Overflow
              else Done
  {
    hide Tiles, Linked, Word32, RedzoneIntact, CanaryIntact, LeftWhole, RightWhole;
    var i := At(bs, a);
    LiveIndex(bs, a, i);
    BlockInside(bs, i);
    LiveHeader(m, base, bs, i);
    RedzoneBytes(m, bs[i]);
    CanaryBytes(m, bs[i]);
  }

  /** The same, said of the report alone. */
  ghost predicate Reports(m: seq<byte>, a: nat, status: Status) {
    a + 40 <= |m| && 26 <= Word32(m, a) && a + 40 + Word32(m, a) <= |m| &&
    var left := LeftWhole(m[a + 40..a + 48]);
    var right := RightWhole(m[a + 20..a + 38], m[a + 22 + Word32(m, a)..a + 40 + Word32(m, a)]);
    (status.Done? <==> left && right) && (status.Underflow? <==> !left) && (status.Overflow? <==> left && !right)
  }

  lemma FreeReports(m: seq<byte>, base: nat, bs: seq<Block>, ptr: nat, a: nat)
    requires WellFormed(bs) && Linked(m, base, bs) && a + 40 <= |m| && LiveAt(bs, a) && ptr != 0
    ensures Reports(m, a, FreeStatus(m, bs, ptr, a))
  {
    hide Tiles, Linked, Word32, FreeStatus, LeftWhole, RightWhole;
    FreeExact(m, base, bs, ptr, a);
  }

  lemma LiveHeader(m: seq<byte>, base: nat, bs: seq<Block>, i: nat)
    requires WellFormed(bs) && Linked(m, base, bs) && i < |bs| && bs[i].state.Live?
    ensures bs[i].End() <= |m| && Word32(m, bs[i].addr) == bs[i].size >= OVERHEAD
    ensures m[bs[i].addr + 20..bs[i].addr + 38] == bs[i].state.tag
  {
    hide Tiles, Linked, Word32;
    ReadBlock(m, base, bs, i);
    assert Decode(m, bs[i].addr).tag == bs[i].state.tag;
  }

  lemma RedzoneBytes(m: seq<byte>, b: Block)
    requires b.End() <= |m| && b.size >= OVERHEAD
    ensures RedzoneIntact(m, b) <==> LeftWhole(m[b.addr + 40..b.addr + 48])
  {
    var z := m[b.addr + HEADER_SIZE..b.User()];
    if RedzoneIntact(m, b) { assert forall k :: 0 <= k < 8 ==> z[k] == Redzone()[k]; }
  }

  lemma CanaryBytes(m: seq<byte>, b: Block)
    requires b.End() <= |m| && b.size >= OVERHEAD && b.state.Live?
    ensures CanaryIntact(m, b) <==> RightWhole(b.state.tag, m[b.End() - 18..b.End()])
  {
    var tag, last := b.state.tag, m[b.End() - 18..b.End()];
    assert forall k :: 0 <= k < 18 ==> Canary(tag)[k] == ((tag[k] as bv8) ^ 0xAC) as byte;
  }

  /** Marking a live block leaves the ones in quarantine as they are. */
  lemma MarkedHeld(bs: seq<Block>, a: nat, b: Block)
    requires Tiles(bs) && LiveAt(bs, a) && b in bs && b.state.Held?
    ensures b in AfterMark(bs, a)
  {
    LiveIndex(bs, a, At(bs, a));
    var k :| 0 <= k < |bs| && bs[k] == b;
    assert AfterMark(bs, a)[k] == b;
  }

  /** The user bytes of a block that left the quarantine. */
  ghost predicate Poisoned(m: seq<byte>, b: Block) {
    b.End() <= |m| && forall k :: b.User() <= k < b.UserEnd() ==> m[k] == 0xDD
  }

  /** The block that waited longest in a full quarantine. */
  ghost predicate Oldest(h: HeapRuns.Heap, b: Block) {
    |h.ring| == 8 && b in h.blocks && b.state.Held? && b.addr == h.ring[0]
  }

  lemma PoisonSpreads(m: seq<byte>, bs: seq<Block>, e: nat, b: Block)
    requires Tiles(bs) && e < |bs| && b in bs && b.addr == bs[e].addr && |m| == ARENA && bs[e].size >= OVERHEAD
    requires bs[e].End() <= ARENA && m[bs[e].User()..bs[e].UserEnd()] == seq(bs[e].size - OVERHEAD, _ => 0xDD)
    ensures Poisoned(m, b)
  {
    var k :| 0 <= k < |bs| && bs[k] == b;
    AddressUnique(bs, k, e);
    var z := m[b.User()..b.UserEnd()];
    forall k | b.User() <= k < b.UserEnd() ensures m[k] == 0xDD { assert z[k - b.User()] == m[k]; }
  }

  lemma OldestIs(m: seq<byte>, h: HeapRuns.Heap, a: nat, e: nat)
    requires Sound(h) && LiveAt(h.blocks, a) && |m| == ARENA
    requires var bs := AfterMark(h.blocks, a);
             Tiles(bs) && e < |bs| && (|h.ring| == 8 ==> bs[e].addr == h.ring[0]) && bs[e].size >= OVERHEAD &&
             bs[e].End() <= ARENA && m[bs[e].User()..bs[e].UserEnd()] == seq(bs[e].size - OVERHEAD, _ => 0xDD)
    ensures forall b :: Oldest(h, b) ==> Poisoned(m, b)
  {
    hide Tiles, Poisoned, AfterMark;
    forall b | Oldest(h, b) ensures Poisoned(m, b) {
      MarkedHeld(h.blocks, a, b);
      PoisonSpreads(m, AfterMark(h.blocks, a), e, b);
    }
  }

  lemma NoOldest(h: HeapRuns.Heap)
    requires |h.ring| < 8
    ensures forall b :: !Oldest(h, b)
  {
  }

  // ----- joining free neighbours

  /** Blocks lo..hi as one block, in the order in which headers are rewritten. */
  ghost function Joined(bs: seq<Block>, lo: nat, hi: nat): (r: seq<Block>)
    requires Tiles(bs) && lo < hi <= |bs|
    ensures lo < |r| && r[lo].addr == bs[lo].addr && r[lo].state.Free?
  {
    MergeSpans(bs, lo, hi);
    Merge(bs, lo, hi)
  }

  lemma JoinNothing(bs: seq<Block>, i: nat)
    requires Tiles(bs) && i < |bs| && bs[i].state.Free?
    ensures Joined(bs, i, i + 1) == bs
  {
  }

  lemma JoinSize(bs: seq<Block>, i: nat)
    requires Tiles(bs) && i + 1 < |bs|
    ensures bs[i].size + HEADER_SIZE + bs[i + 1].size == bs[i + 1].End() - bs[i].addr - HEADER_SIZE < ARENA
  {
    BlockInside(bs, i + 1);
    assert bs[i].End() == bs[i + 1].addr;
  }

  lemma JoinFacts(m: seq<byte>, m': seq<byte>, base: nat, bs: seq<Block>, i: nat)
    requires Tiles(bs) && Linked(m, base, bs) && i + 1 < |bs| && bs[i].state.Free? && bs[i].addr + STORED <= |m| == |m'|
    requires PointerTo(bs, i + 2, base) < 0x1_0000_0000_0000_0000
    requires bs[i].size + HEADER_SIZE + bs[i + 1].size < ARENA
    requires SameOutside(m, m', bs[i].addr, bs[i].addr + STORED)
    requires m'[bs[i].addr..bs[i].addr + STORED] ==
             Encode(Header(bs[i].size + HEADER_SIZE + bs[i + 1].size, 1, PointerTo(bs, i + 2, base), MAGIC_FREE,
               ZERO_TAG))
    ensures Tiles(Joined(bs, i, i + 2)) && Linked(m', base, Joined(bs, i, i + 2))
  {
    hide Tiles, SameOutside, Linked, Encode;
    JoinSize(bs, i);
    BlockInside(bs, i + 1);
    ReadBlock(m, base, bs, i + 1);
    MergeTiles(bs, i, i + 2);
    Widen(m, m', bs[i].addr, bs[i].addr + STORED, bs[i + 1].End());
    assert Merge(bs, i, i + 2)[i] == Block(bs[i].addr, bs[i].size + HEADER_SIZE + bs[i + 1].size, State.Free);
    MergeLinked(m, m', base, bs, i, i + 2);
  }

  lemma FreedFacts(m: seq<byte>, m1: seq<byte>, m2: seq<byte>, base: nat, bs: seq<Block>, e: nat)
    requires Tiles(bs) && Linked(m, base, bs) && e < |bs| && bs[e].size >= OVERHEAD &&
             bs[e].End() <= |m| == |m1| == |m2|
    requires bs[e].size < U32_LIMIT && PointerTo(bs, e + 1, base) < 0x1_0000_0000_0000_0000
    requires SameOutside(m, m1, bs[e].User(), bs[e].UserEnd())
    requires m1[bs[e].User()..bs[e].UserEnd()] == seq(bs[e].size - OVERHEAD, _ => POISON)
    requires SameOutside(m1, m2, bs[e].addr, bs[e].addr + STORED)
    requires m2[bs[e].addr..bs[e].addr + STORED] ==
             Encode(Header(bs[e].size, 1, PointerTo(bs, e + 1, base), MAGIC_FREE, ZERO_TAG))
    ensures SameOutside(m, m2, bs[e].addr, bs[e].End())
    ensures Tiles(Marked(bs, e, State.Free)) && Linked(m2, base, Marked(bs, e, State.Free))
    ensures m2[bs[e].User()..bs[e].UserEnd()] == seq(bs[e].size - OVERHEAD, _ => POISON)
  {
    hide Tiles, SameOutside, Linked, Encode;
    var b := bs[e];
    MarkedTiles(bs, e, State.Free);
    SameOutsideJoin(m, m1, m2, b.addr, b.End(), b.User(), b.UserEnd(), b.addr, b.addr + STORED);
    SliceSame(m1, m2, b.addr, b.addr + STORED, b.User(), b.UserEnd());
    MarkedLinked(m, m2, base, bs, e, State.Free);
  }

  /** Marking, joining the next and joining the previous block make up Release. */
  lemma ReleaseSteps(bs: seq<Block>, e: nat)
    requires Tiles(bs) && e < |bs|
    ensures var b1 := Marked(bs, e, State.Free);
            Tiles(b1) && MergeTo(b1, e) == MergeTo(bs, e) &&
            var b2 := Joined(b1, e, MergeTo(b1, e));
            Tiles(b2) && MergeFrom(b2, e) == MergeFrom(bs, e) &&
            b2[MergeFrom(b2, e)].addr == bs[MergeFrom(bs, e)].addr &&
            Joined(b2, MergeFrom(b2, e), e + 1) == Release(bs, e)
  {
    hide Tiles, Merge;
    var b1 := Marked(bs, e, State.Free);
    var hi := MergeTo(bs, e);
    MarkedTiles(bs, e, State.Free);
    MergeSpans(bs, e, hi);
    MergeMarked(bs, e, hi);
    MergeTiles(b1, e, hi);
    MergeSpans(bs, MergeFrom(bs, e), hi);
    MergeMerge(bs, MergeFrom(bs, e), e, hi);
  }

  lemma MergeMarked(bs: seq<Block>, e: nat, hi: nat)
    requires e < hi <= |bs| && bs[e].addr + HEADER_SIZE <= bs[hi - 1].End()
    ensures var b1 := Marked(bs, e, State.Free);
            b1[e].addr == bs[e].addr && b1[hi - 1].End() == bs[hi - 1].End() && Merge(b1, e, hi) == Merge(bs, e, hi)
  {
  }

  lemma MergeMerge(bs: seq<Block>, lo: nat, e: nat, hi: nat)
    requires lo <= e <= lo + 1 && e < hi <= |bs| && bs[e].addr + HEADER_SIZE <= bs[hi - 1].End()
    requires bs[lo].addr + HEADER_SIZE <= bs[hi - 1].End()
    ensures var b2 := Merge(bs, e, hi);
            e < |b2| && b2[e].End() == bs[hi - 1].End() && b2[lo].addr == bs[lo].addr &&
            (lo < e ==> b2[lo] == bs[lo]) && (e > 0 ==> b2[e - 1] == bs[e - 1]) &&
            Merge(b2, lo, e + 1) == Merge(bs, lo, hi)
  {
    var b2 := Merge(bs, e, hi);
    assert b2[e + 1..] == bs[hi..];
    assert b2[..lo] == bs[..lo];
  }

  lemma ReleaseFacts(m: seq<byte>, m2: seq<byte>, m3: seq<byte>, m4: seq<byte>, bs: seq<Block>, e: nat)
    requires Tiles(bs) && e < |bs| && bs[e].size >= OVERHEAD && bs[e].End() <= |m| && |m| == |m2| == |m3| == |m4|
    requires SameOutside(m, m2, bs[e].addr, bs[e].End())
    requires SameOutside(m2, m3, bs[e].addr, bs[e].addr + STORED)
    requires var p := bs[MergeFrom(bs, e)].addr; SameOutside(m3, m4, p, p + STORED)
    ensures SameOutside(m, m4, bs[MergeFrom(bs, e)].addr, bs[MergeTo(bs, e) - 1].End())
    ensures m4[bs[e].User()..bs[e].UserEnd()] == m2[bs[e].User()..bs[e].UserEnd()]
  {
    hide Tiles, SameOutside;
    var lo, hi := MergeFrom(bs, e), MergeTo(bs, e);
    var p := bs[lo].addr;
    if lo < e { BlocksApart(bs, lo, e); }
    if e < hi - 1 { BlocksApart(bs, e, hi - 1); }
    SameOutsideJoin(m, m2, m3, p, bs[hi - 1].End(), bs[e].addr, bs[e].End(), bs[e].addr, bs[e].addr + STORED);
    SameOutsideJoin(m, m3, m4, p, bs[hi - 1].End(), p, bs[hi - 1].End(), p, p + STORED);
    SliceSame(m2, m3, bs[e].addr, bs[e].addr + STORED, bs[e].User(), bs[e].UserEnd());
    SliceSame(m3, m4, p, p + STORED, bs[e].User(), bs[e].UserEnd());
  }

  // ----- the ring

  /** Pushing into a full ring: the oldest entry is overwritten. */
  lemma RingFull(pos: nat)
    requires pos < QUARANTINE_CAPACITY
    ensures RingSlot(pos, 8, 0) == pos
    ensures var pos' := if pos == 7 then 0 else pos + 1;
            pos' == (pos + 1) % QUARANTINE_CAPACITY && RingSlot(pos', 8, 7) == pos &&
            forall k :: 0 <= k < 7 ==> RingSlot(pos', 8, k) == RingSlot(pos, 8, k + 1) != pos
  {
  }

  /** Pushing into a ring with room: no entry is overwritten. */
  lemma RingRoom(pos: nat, count: nat)
    requires pos < QUARANTINE_CAPACITY && count < QUARANTINE_CAPACITY
    ensures var pos' := if pos == 7 then 0 else pos + 1;
            pos' == (pos + 1) % QUARANTINE_CAPACITY && RingSlot(pos', count + 1, count) == pos &&
            forall k :: 0 <= k < count ==> RingSlot(pos', count + 1, k) == RingSlot(pos, count, k) != pos
  {
  }
}
