/** The kernel heap of src/kernel/heap.c: malloc and free working in place on the
    bytes of the arena, with the quarantine ring, refining the block list of
    HeapRuns. Pointers are `base` plus an arena offset; 0 is null. */
module Heap {
  import opened Bytes
  import opened HeapBlocks
  import opened HeapMemory
  import opened Memory
  import opened HeapRuns
  import opened HeapFacts
  import opened HeapTraces

  class KernelHeap {
    const base: nat
    const mem: array<byte>
    var head: nat
    const quarantine: array<nat>
    var count: nat
    var pos: nat

    ghost var blocks: seq<Block>
    ghost var ring: seq<nat>

    /** The list in memory is the list of blocks. */
    ghost predicate Chained()
      reads this, mem
    {
      head == base && 0 < base && base + ARENA < 0x1_0000_0000_0000_0000 && mem.Length == ARENA &&
      Tiles(blocks) && Linked(mem[..], base, blocks)
    }

    ghost predicate Ringed()
      reads this, quarantine
    {
      quarantine.Length == QUARANTINE_CAPACITY && |ring| == count <= QUARANTINE_CAPACITY && pos < QUARANTINE_CAPACITY &&
      forall k :: 0 <= k < count ==> quarantine[RingSlot(pos, count, k)] == base + ring[k]
    }

    ghost predicate Valid()
      reads this, mem, quarantine
    {
      Chained() && Ringed() && Sound(Abstract())
    }

    ghost function Abstract(): HeapRuns.Heap
      reads this
    {
      HeapRuns.Heap(blocks, ring)
    }

    /** No live block has been written outside its user area. */
    ghost predicate AllGuarded()
      reads this, mem
    {
      AllGuardedIn(mem[..], blocks)
    }

    // ----- memory writes

    method Store(a: nat, s: seq<byte>)
      requires a + |s| <= mem.Length
      modifies mem
      ensures SameOutside(old(mem[..]), mem[..], a, a + |s|) && mem[a..a + |s|] == s
    {
      for i := 0 to |s|
        invariant SameOutside(old(mem[..]), mem[..], a, a + i) && forall k :: 0 <= k < i ==> mem[a + k] == s[k]
      {
        mem[a + i] := s[i];
      }
    }

    method Fill(a: nat, n: nat, v: byte)
      requires a + n <= mem.Length
      modifies mem
      ensures SameOutside(old(mem[..]), mem[..], a, a + n) && mem[a..a + n] == seq(n, _ => v)
    {
      for i := 0 to n
        invariant SameOutside(old(mem[..]), mem[..], a, a + i) && forall k :: a <= k < a + i ==> mem[k] == v
      {
        mem[a + i] := v;
      }
    }

    // ----- init_heap

    constructor (base: nat, mem: array<byte>)
      requires 0 < base && base + ARENA < 0x1_0000_0000_0000_0000 && mem.Length == ARENA
      modifies mem
      ensures Valid() && this.mem == mem && this.base == base && fresh(quarantine)
      ensures blocks == INITIAL && ring == [] && AllGuarded()
    {
      this.base, this.mem, head, quarantine, count, pos := base, mem, base, new nat[QUARANTINE_CAPACITY], 0, 0;
      blocks, ring := INITIAL, [];
      new;
      Store(0, Encode(Header(ARENA - HEADER_SIZE, 1, 0, MAGIC_FREE, ZERO_TAG)));
      InitSound();
    }

    // ----- malloc

    method Malloc(size: u32, tag: Tag) returns (p: nat)
      requires Valid() && size <= MAX_REQUEST
      modifies this`blocks, mem
      ensures Valid() && ring == old(ring)
      ensures Abstract() == AfterMalloc(old(Abstract()), size, tag)
      ensures Moves(old(mem[..]), old(Abstract()), CallMalloc(size, tag), mem[..], Abstract())
      ensures var i := Pick(old(Abstract()), size);
              if i == -1 then p == 0 && mem[..] == old(mem[..])
              else i < |blocks| && p == base + blocks[i].User() && Guarded(mem[..], blocks[i]) &&
                   SameOutside(old(mem[..]), mem[..], old(blocks)[i].addr, old(blocks)[i].End())
      ensures old(AllGuarded()) ==> AllGuarded()
    {
      hide Tiles, Linked, SameOutside, Guarded, Grant, NoFreeNeighbours, RoomForGuards, AllGuardedIn, FirstFit, Encode;
      hide Decode, Reserved, CutIfWorth, Marked;
      if size == 0 { return 0; }
      var reserved := Reserved(size);
      ReservedCovers(size);
      HeadFirst(blocks);
      var current := head;
      ghost var i := 0;
      while current != 0
        invariant Valid() && mem[..] == old(mem[..]) && blocks == old(blocks) && ring == old(ring)
        invariant i <= |blocks| && current == PointerTo(blocks, i, base)
        invariant FirstFit(blocks, reserved, 0) == FirstFit(blocks, reserved, i)
        decreases |blocks| - i
      {
        ReadBlock(mem[..], base, blocks, i);
        var h := Decode(mem[..], current - base);
        FirstFitStep(blocks, reserved, i);
        if h.free != 0 && h.size >= reserved {
          Take(current - base, reserved, tag, i);
          MallocSound(old(Abstract()), size, tag);
          return current + HEADER_SIZE + RZONE_SIZE;
        }
        current := h.next;
        i := i + 1;
      }
      return 0;
    }

    /** Gives the free block at `a` to the caller. */
    method Take(a: nat, need: u32, tag: Tag, ghost i: nat)
      requires Chained() && WellFormed(blocks)
      requires i < |blocks| && blocks[i].addr == a && blocks[i].state.Free? && blocks[i].size >= need >= OVERHEAD
      modifies this`blocks, mem
      ensures Chained() && blocks == Grant(old(blocks), i, need, tag)
      ensures i < |blocks| && blocks[i].addr == a && Guarded(mem[..], blocks[i])
      ensures SameOutside(old(mem[..]), mem[..], old(blocks)[i].addr, old(blocks)[i].End())
      ensures old(AllGuarded()) ==> AllGuarded()
    {
      hide Tiles, Linked, SameOutside, Guarded, WellFormed;
      ghost var bs, m := blocks, mem[..];
      GrantKeeps(bs, i, need, tag);
      Carve(a, need, i);
      ghost var m1 := mem[..];
      Stamp(a, tag, i);
      GrantInside(m, m1, mem[..], bs, i, need);
      if AllGuardedIn(m, bs) { GrantGuarded(m, mem[..], bs, i, need, tag); }
    }

    /** Splits the free block at `a`, when what is left over is worth a block. */
    method Carve(a: nat, need: u32, ghost i: nat)
      requires Chained() && i < |blocks| && blocks[i].addr == a && blocks[i].state.Free? && blocks[i].size >= need
      modifies this`blocks, mem
      ensures Chained() && blocks == CutIfWorth(old(blocks), i, need)
      ensures SameOutside(old(mem[..]), mem[..], old(blocks)[i].addr, old(blocks)[i].End())
    {
      hide Tiles, Linked, SameOutside, Encode, Decode, Cut;
      ghost var bs, m := blocks, mem[..];
      ReadBlock(m, base, bs, i);
      BlockInside(bs, i);
      var h := Decode(mem[..], a);
      var remaining := h.size - need;
      if remaining >= HEADER_SIZE + MIN_BLOCK_SIZE {
        var n := a + HEADER_SIZE + need;
        Store(n, Encode(Header(remaining - HEADER_SIZE, 1, h.next, MAGIC_FREE, ZERO_TAG)));
        ghost var m1 := mem[..];
        Store(a, Encode(h.(size := need, next := base + n)));
        CutTiles(bs, i, need);
        SameLength(m, m1, n, n + STORED);
        CarveFacts(m, m1, mem[..], base, bs, i, need);
        blocks := Cut(bs, i, need);
      } else {
        SameSelf(m, bs[i].addr, bs[i].End());
      }
    }

    /** Makes the free block at `a` live, and sets its redzone and canary. */
    method Stamp(a: nat, tag: Tag, ghost i: nat)
      requires Chained() && i < |blocks| && blocks[i].addr == a && blocks[i].state.Free? && blocks[i].size >= OVERHEAD
      modifies this`blocks, mem
      ensures Chained() && blocks == Marked(old(blocks), i, Live(tag)) && Guarded(mem[..], blocks[i])
      ensures SameOutside(old(mem[..]), mem[..], blocks[i].addr, blocks[i].End())
    {
      hide Tiles, Linked, SameOutside, Encode, Decode, Canary, Guarded, Redzone;
      ghost var bs, m := blocks, mem[..];
      ReadBlock(m, base, bs, i);
      BlockInside(bs, i);
      MarkedTiles(bs, i, Live(tag));
      var h := Decode(mem[..], a);
      Store(a, Encode(h.(free := 0, magic := MAGIC_ALLOC, tag := tag)));
      ghost var m1 := mem[..];
      Fill(a + HEADER_SIZE, RZONE_SIZE, RZONE_BYTE);
      ghost var m2 := mem[..];
      var p := a + HEADER_SIZE + RZONE_SIZE;
      Store(p + (h.size - OVERHEAD), Canary(tag));
      blocks := Marked(bs, i, Live(tag));
      StampFacts(m, m1, m2, mem[..], base, bs, i, tag);
    }

    /** A client writing inside its own area. */
    method ClientWrite(ghost b: Block, ptr: nat, offset: nat, s: seq<byte>)
      requires Valid() && b in blocks && b.state.Live? && ptr == base + b.User() &&
               offset + |s| <= b.UserEnd() - b.User()
      modifies mem
      ensures Valid() && SameOutside(old(mem[..]), mem[..], b.User() + offset, b.User() + offset + |s|)
      ensures Moves(old(mem[..]), old(Abstract()), CallWrite(b, b.User() + offset, b.User() + offset + |s|), mem[..],
              Abstract())
      ensures b.User() + offset + |s| <= ARENA && mem[b.User() + offset..b.User() + offset + |s|] == s
      ensures old(AllGuarded()) ==> AllGuarded()
    {
      hide Tiles, Linked, SameOutside, Guarded, NoFreeNeighbours, RoomForGuards, RingSlot, HeldAt, AllGuardedIn;
      ghost var i :| 0 <= i < |blocks| && blocks[i] == b;
      BlockInside(blocks, i);
      ghost var m := mem[..];
      Store(ptr - base + offset, s);
      ClientFacts(m, mem[..], base, blocks, i, b.User() + offset, b.User() + offset + |s|);
    }

    // ----- free

    /** The block that a non-null user pointer belongs to. */
    function BlockOf(ptr: nat): int {
      ptr - base - RZONE_SIZE - HEADER_SIZE
    }

    /** The header in front of the user pointer `ptr` can be read, and only a live
        block says it is one. */
    ghost predicate Freeable(ptr: nat)
      requires mem.Length == ARENA
      reads this, mem
    {
      ptr == 0 ||
      (0 <= BlockOf(ptr) && BlockOf(ptr) + HEADER_SIZE <= ARENA &&
       (Decode(mem[..], BlockOf(ptr)).magic == MAGIC_ALLOC ==> LiveAt(blocks, BlockOf(ptr))))
    }

    method Free(ptr: nat) returns (status: Status)
      requires Valid() && Freeable(ptr)
      modifies this, mem, quarantine
      ensures Valid()
      ensures status == FreeStatus(old(mem[..]), old(blocks), ptr, BlockOf(ptr))
      ensures ptr != 0 && LiveAt(old(blocks), BlockOf(ptr)) ==> Reports(old(mem[..]), BlockOf(ptr), status)
      ensures status.Done? ==> forall b :: Oldest(old(Abstract()), b) ==> Poisoned(mem[..], b)
      ensures !status.Done? ==> Abstract() == old(Abstract()) && mem[..] == old(mem[..])
      ensures status.Done? ==>
              BlockOf(ptr) >= 0 && LiveAt(old(blocks), BlockOf(ptr)) &&
              Abstract() == AfterFree(old(Abstract()), BlockOf(ptr))
      ensures status.Done? ==> Moves(old(mem[..]), old(Abstract()), CallFree(BlockOf(ptr)), mem[..], Abstract())
      ensures DataKept(old(mem[..]), mem[..], blocks)
      ensures old(AllGuarded()) ==> AllGuarded()
    {
      hide Tiles, Linked, SameOutside, Guarded, Encode, Decode, Canary, Redzone, AfterFree, DataKept, AllGuardedIn;
      hide HeldAt, NoFreeNeighbours, RoomForGuards, RingSlot, Reports, Poisoned, Oldest;
      if ptr == 0 {
        DataSame(mem[..], base, blocks);
        return Null;
      }
      var a := ptr - RZONE_SIZE - HEADER_SIZE - base;
      var h := Decode(mem[..], a);
      HeaderMagic(mem[..], base, blocks, a);
      DataSame(mem[..], base, blocks);
      if LiveAt(blocks, a) { FreeReports(mem[..], base, blocks, ptr, a); }
      if h.magic == MAGIC_FREE || h.magic == MAGIC_QUARANTINE { return DoubleFree; }
      if h.magic != MAGIC_ALLOC { return Foreign; }
      ghost var i := At(blocks, a);
      LiveIndex(blocks, a, i);
      ReadBlock(mem[..], base, blocks, i);
      GuardRoom(blocks, i);
      var intact := CheckRedzone(a + HEADER_SIZE);
      if !intact { return Underflow; }
      var c := a + HEADER_SIZE + RZONE_SIZE + (h.size - OVERHEAD);
      if mem[c..a + HEADER_SIZE + h.size] != Canary(h.tag) { return Overflow; }
      Retire(a, i);
      ghost var bs1, m1 := blocks, mem[..];
      QuarantinePush(a, old(Abstract()));
      DataChain(old(mem[..]), m1, mem[..], bs1, blocks);
      return Done;
    }

    /** Marks the live block at `a` as held; its data stays untouched. */
    method Retire(a: nat, ghost i: nat)
      requires Chained() && i < |blocks| && blocks[i].addr == a && blocks[i].state.Live?
      modifies this`blocks, mem
      ensures Chained() && blocks == Quarantined(old(blocks), i)
      ensures DataKept(old(mem[..]), mem[..], blocks)
      ensures old(AllGuarded()) ==> AllGuarded()
    {
      hide Tiles, Linked, SameOutside, Encode, Decode, Guarded, AllGuardedIn, DataKept;
      ghost var bs, m := blocks, mem[..];
      ReadBlock(m, base, bs, i);
      BlockInside(bs, i);
      var h := Decode(mem[..], a);
      Store(a, Encode(h.(magic := MAGIC_QUARANTINE)));
      RetireFacts(m, mem[..], base, bs, i);
      blocks := Quarantined(bs, i);
    }

    method QuarantinePush(a: nat, ghost h0: HeapRuns.Heap)
      requires Chained() && Ringed() && Sound(h0) && ring == h0.ring && LiveAt(h0.blocks, a) &&
               blocks == AfterMark(h0.blocks, a)
      modifies this, mem, quarantine
      ensures Valid() && Abstract() == AfterFree(h0, a)
      ensures DataKept(old(mem[..]), mem[..], blocks)
      ensures forall b :: b in blocks && !b.state.Free? ==> b in old(blocks)
      ensures forall b :: Oldest(h0, b) ==> Poisoned(mem[..], b)
      ensures old(AllGuarded()) ==> AllGuarded()
    {
      hide Tiles, Linked, SameOutside, Encode, Decode, Guarded, AllGuardedIn, DataKept, AfterMark, HeldAt;
      hide NoFreeNeighbours, RoomForGuards, Release, RingSlot, Distinct, Poisoned, Oldest, Sound, AfterFree;
      FreeSound(h0, a);
      AfterFreeCases(h0, a);
      ghost var bs, m := blocks, mem[..];
      if count == QUARANTINE_CAPACITY {
        RingFull(pos);
        ghost var e := At(bs, ring[0]);
        GuardRoom(bs, e);
        ReleaseFromQuarantine(quarantine[pos] - base, e);
        ReleaseFrame(m, mem[..], bs, e);
        OldestIs(mem[..], h0, a, e);
        ring := ring[1..];
      } else {
        DataSame(mem[..], base, blocks);
        NoOldest(h0);
        RingRoom(pos, count);
        count := count + 1;
      }
      quarantine[pos] := base + a;
      pos := (pos + 1) % QUARANTINE_CAPACITY;
      ring := ring + [a];
    }

    /** Poisons the held block at `a`, frees it and joins it to its free neighbours. */
    method ReleaseFromQuarantine(a: nat, ghost e: nat)
      requires Chained() && e < |blocks| && blocks[e].addr == a && blocks[e].size >= OVERHEAD && !blocks[e].state.Free?
      modifies this`blocks, mem
      ensures Tiles(old(blocks)) && Chained() && blocks == Release(old(blocks), e)
      ensures SameOutside(old(mem[..]), mem[..], old(blocks)[MergeFrom(old(blocks), e)].addr,
              old(blocks)[MergeTo(old(blocks), e) - 1].End())
      ensures old(blocks)[e].End() <= ARENA
      ensures var b := old(blocks)[e]; mem[b.User()..b.UserEnd()] == seq(b.size - OVERHEAD, _ => 0xDD)
    {
      hide Tiles, Linked, SameOutside, Encode, Decode, Merge;
      ghost var bs, m := blocks, mem[..];
      ReadBlock(m, base, bs, e);
      BlockInside(bs, e);
      var h := Decode(mem[..], a);
      Fill(a + HEADER_SIZE + RZONE_SIZE, h.size - OVERHEAD, POISON);
      ghost var m1 := mem[..];
      Store(a, Encode(h.(free := 1, magic := MAGIC_FREE, tag := ZERO_TAG)));
      ghost var m2 := mem[..];
      FreedFacts(m, m1, m2, base, bs, e);
      blocks := Marked(bs, e, State.Free);
      JoinNext(a, e);
      ghost var m3 := mem[..];
      JoinPrev(a, e);
      ReleaseSteps(bs, e);
      ReleaseFacts(m, m2, m3, mem[..], bs, e);
    }

    method JoinNext(a: nat, ghost i: nat)
      requires Chained() && i < |blocks| && blocks[i].addr == a && blocks[i].state.Free?
      modifies this`blocks, mem
      ensures Tiles(old(blocks)) && Chained() && i < |blocks| &&
              blocks == Joined(old(blocks), i, MergeTo(old(blocks), i))
      ensures SameOutside(old(mem[..]), mem[..], a, a + STORED)
    {
      hide Tiles, Linked, SameOutside, Encode, Decode, Joined;
      ghost var bs, m := blocks, mem[..];
      ReadBlock(m, base, bs, i);
      BlockInside(bs, i);
      var h := Decode(mem[..], a);
      if h.next != 0 {
        ReadBlock(m, base, bs, i + 1);
        var n := Decode(mem[..], h.next - base);
        if n.free != 0 {
          JoinSize(bs, i);
          Store(a, Encode(h.(size := h.size + HEADER_SIZE + n.size, next := n.next)));
          JoinFacts(m, mem[..], base, bs, i);
          blocks := Joined(bs, i, i + 2);
          return;
        }
      }
      JoinNothing(bs, i);
      SameSelf(m, a, a + STORED);
    }

    method JoinPrev(a: nat, ghost i: nat)
      requires Chained() && i < |blocks| && blocks[i].addr == a && blocks[i].state.Free?
      modifies this`blocks, mem
      ensures Tiles(old(blocks)) && Chained() && blocks == Joined(old(blocks), MergeFrom(old(blocks), i), i + 1)
      ensures var p := old(blocks)[MergeFrom(old(blocks), i)];
              SameOutside(old(mem[..]), mem[..], p.addr, p.addr + STORED)
    {
      hide Tiles, Linked, SameOutside, Encode, Decode, Joined;
      ghost var bs, m := blocks, mem[..];
      HeadFirst(bs);
      ReadBlock(m, base, bs, 0);
      BlockInside(bs, 0);
      ReadBlock(m, base, bs, i);
      BlockInside(bs, i);
      var h := Decode(mem[..], a);
      var current := head;
      ghost var k := 0;
      while current != 0 && Decode(mem[..], current - base).next != base + a
        invariant k <= |bs| && current == PointerTo(bs, k, base) && (i > 0 ==> k < i)
        invariant current != 0 ==>
                  k < |bs| && bs[k].End() <= ARENA && Decode(mem[..], bs[k].addr).next == PointerTo(bs, k + 1, base)
        invariant blocks == bs && mem[..] == m
        decreases |bs| - k
      {
        current := Decode(mem[..], current - base).next;
        k := k + 1;
        if k < |bs| { ReadBlock(m, base, bs, k); BlockInside(bs, k); }
      }
      if current != 0 {
        AddressUnique(bs, k + 1, i);
        ReadBlock(m, base, bs, k);
        var c := Decode(mem[..], current - base);
        if c.free != 0 {
          JoinSize(bs, k);
          Store(current - base, Encode(c.(size := c.size + HEADER_SIZE + h.size, next := h.next)));
          JoinFacts(m, mem[..], base, bs, k);
          blocks := Joined(bs, k, k + 2);
          return;
        }
      }
      JoinNothing(bs, i);
      SameSelf(m, bs[i].addr, bs[i].addr + STORED);
    }

    method CheckRedzone(z: nat) returns (intact: bool)
      requires z + RZONE_SIZE <= mem.Length
      ensures intact <==> mem[z..z + RZONE_SIZE] == Redzone()
    {
      for k := 0 to RZONE_SIZE
        invariant forall j :: z <= j < z + k ==> mem[j] == RZONE_BYTE
      {
        if mem[z + k] != RZONE_BYTE {
          assert mem[z..z + RZONE_SIZE][k] != Redzone()[k];
          return false;
        }
      }
      return true;
    }
  }
}
