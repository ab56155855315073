/** The kernel heap of src/kernel/heap.c as a sequence of blocks: what malloc and
    the release of a quarantined block do to it. */
module HeapBlocks {
  import opened Bytes

  const HEADER_SIZE: nat := 40
  const RZONE_SIZE: nat := 8
  const CANARY_SIZE: nat := 18
  const OVERHEAD: nat := 26          // left redzone and canary
  const MIN_BLOCK_SIZE: nat := 16
  const ARENA: nat := 0x200_0000

  type Tag = t: seq<byte> | |t| == 18 witness [0, 0, 0, 0, 0, 0, 0, 0, 0, 0, 0, 0, 0, 0, 0, 0, 0, 0]

  /** Free blocks are visible to malloc; held ones wait in quarantine. */
  datatype State = Free | Live(tag: Tag) | Held(tag: Tag)

  /** A block at arena offset `addr`: its header, then `size` bytes. */
  datatype Block = Block(addr: nat, size: nat, state: State)
  {
    function End(): nat {
      addr + HEADER_SIZE + size
    }

    /** Where the caller's bytes start: what malloc returns. */
    function User(): nat {
      addr + HEADER_SIZE + RZONE_SIZE
    }

    function UserEnd(): int {
      addr + HEADER_SIZE + size - CANARY_SIZE
    }
  }

  // ----- the request, in 32-bit arithmetic

  function Align8(x: u32): u32 {
    (x + 7) % U32_LIMIT / 8 * 8
  }

  function Reserved(size: u32): u32 {
    (RZONE_SIZE + Align8(size) + CANARY_SIZE) % U32_LIMIT
  }

  const MAX_REQUEST: u32 := 0xFFFF_FFE0

  /** What is cut off a free block covers the request exactly when the 32-bit
      sums do not wrap. */
  lemma ReservedCovers(size: u32)
    ensures Reserved(size) >= OVERHEAD + size <==> size <= MAX_REQUEST
    ensures size <= MAX_REQUEST ==> Reserved(size) == OVERHEAD + Align8(size) < OVERHEAD + size + 8
  {
  }

  // ----- the list

  /** The blocks cover the arena from end to end, in address order. */
  ghost predicate Tiles(bs: seq<Block>) {
    |bs| > 0 && bs[0].addr == 0 && bs[|bs| - 1].End() == ARENA &&
    forall i {:trigger bs[i].End()} :: 0 <= i < |bs| - 1 ==> bs[i].End() == bs[i + 1].addr
  }

  ghost predicate NoFreeNeighbours(bs: seq<Block>) {
    forall i :: 0 <= i < |bs| - 1 && bs[i].state.Free? ==> !bs[i + 1].state.Free?
  }

  ghost predicate RoomForGuards(bs: seq<Block>) {
    forall i :: 0 <= i < |bs| && !bs[i].state.Free? ==> bs[i].size >= OVERHEAD
  }

  ghost predicate WellFormed(bs: seq<Block>) {
    Tiles(bs) && NoFreeNeighbours(bs) && RoomForGuards(bs)
  }

  /** Blocks do not overlap: earlier ones end before later ones begin. */
  lemma {:induction false} BlocksApart(bs: seq<Block>, i: nat, j: nat)
    requires Tiles(bs) && i < j < |bs|
    ensures bs[i].End() <= bs[j].addr && bs[j].End() <= ARENA
    decreases j - i, |bs| - j
  {
    if j > i + 1 { BlocksApart(bs, i, j - 1); }
    BlockInside(bs, j);
    assert bs[j - 1].End() == bs[j].addr;
  }

  lemma {:induction false} BlockInside(bs: seq<Block>, i: nat)
    requires Tiles(bs) && i < |bs|
    ensures bs[i].End() <= ARENA
    decreases |bs| - i
  {
    if i < |bs| - 1 {
      BlockInside(bs, i + 1);
      assert bs[i].End() == bs[i + 1].addr;
    }
  }

  /** The address decides the block. */
  lemma AddressUnique(bs: seq<Block>, i: nat, j: nat)
    requires Tiles(bs) && i < |bs| && j < |bs| && bs[i].addr == bs[j].addr
    ensures i == j
  {
    if i < j { BlocksApart(bs, i, j); }
    if j < i { BlocksApart(bs, j, i); }
  }

  /** First fit: the first free block with room. */
  ghost function FirstFit(bs: seq<Block>, need: nat, from: nat): (r: int)
    ensures r == -1 || (from <= r < |bs| && bs[r].state.Free? && bs[r].size >= need)
    ensures forall i :: from <= i < |bs| && (r == -1 || i < r) ==> !(bs[i].state.Free? && bs[i].size >= need)
    decreases |bs| - from
  {
    if from >= |bs| then -1
    else if bs[from].state.Free? && bs[from].size >= need then from
    else FirstFit(bs, need, from + 1)
  }

  /** A block is split when what is left can hold a header and a useful rest. */
  predicate Splits(size: nat, need: nat) {
    size >= need + HEADER_SIZE + MIN_BLOCK_SIZE
  }

  /** Block i cut in two: `need` bytes, and a free block with the rest. */
  ghost function Cut(bs: seq<Block>, i: nat, need: nat): seq<Block>
    requires i < |bs| && Splits(bs[i].size, need)
  {
    var b := bs[i];
    bs[..i] + [b.(size := need), Block(b.addr + HEADER_SIZE + need, b.size - need - HEADER_SIZE, Free)] + bs[i + 1..]
  }

  ghost function CutIfWorth(bs: seq<Block>, i: nat, need: nat): (r: seq<Block>)
    requires i < |bs|
    ensures i < |r|
  {
    if Splits(bs[i].size, need) then Cut(bs, i, need) else bs
  }

  /** Block i with another state. */
  ghost function Marked(bs: seq<Block>, i: nat, state: State): seq<Block>
    requires i < |bs|
  {
    bs[i := bs[i].(state := state)]
  }

  /** malloc: the block becomes live, cut to size when worth it. */
  ghost function Grant(bs: seq<Block>, i: nat, need: nat, tag: Tag): (r: seq<Block>)
    requires i < |bs|
    ensures i < |r|
  {
    Marked(CutIfWorth(bs, i, need), i, Live(tag))
  }

  lemma CutTiles(bs: seq<Block>, i: nat, need: nat)
    requires Tiles(bs) && i < |bs| && Splits(bs[i].size, need)
    ensures Tiles(Cut(bs, i, need))
  {
    var r := Cut(bs, i, need);
    assert forall k :: 0 <= k < i ==> r[k] == bs[k];
    assert forall k :: i + 2 <= k < |r| ==> r[k] == bs[k - 1];
    forall k | 0 <= k < |r| - 1
      ensures r[k].End() == r[k + 1].addr
    {
      if k < i { assert bs[k].End() == bs[k + 1].addr; }
      if k > i { assert bs[k - 1].End() == bs[k].addr; }
    }
    assert bs[|bs| - 1].End() == ARENA;
  }

  lemma MarkedTiles(bs: seq<Block>, i: nat, state: State)
    requires Tiles(bs) && i < |bs|
    ensures Tiles(Marked(bs, i, state))
  {
    var r := Marked(bs, i, state);
    forall k | 0 <= k < |r| - 1
      ensures r[k].End() == r[k + 1].addr
    {
      assert bs[k].End() == bs[k + 1].addr;
    }
  }

  lemma GrantKeeps(bs: seq<Block>, i: nat, need: nat, tag: Tag)
    requires WellFormed(bs) && i < |bs| && bs[i].state.Free? && bs[i].size >= need >= OVERHEAD
    ensures WellFormed(Grant(bs, i, need, tag))
    ensures var r := Grant(bs, i, need, tag);
            i < |r| && r[i].addr == bs[i].addr && r[i].state == Live(tag) && r[i].size >= need
  {
    var c, r := CutIfWorth(bs, i, need), Grant(bs, i, need, tag);
    if Splits(bs[i].size, need) { CutTiles(bs, i, need); }
    MarkedTiles(c, i, Live(tag));
    forall k | 0 <= k < |r| - 1 && r[k].state.Free?
      ensures !r[k + 1].state.Free?
    {
      if k > i && c != bs {
        assert k > i + 1 ==> r[k] == bs[k - 1];
        assert r[k + 1] == bs[k];
      }
    }
    assert forall k :: i + 2 <= k < |r| && c != bs ==> r[k] == bs[k - 1];
  }

  /** Blocks lo..hi made one free block. */
  ghost function Merge(bs: seq<Block>, lo: nat, hi: nat): seq<Block>
    requires lo < hi <= |bs| && bs[lo].addr + HEADER_SIZE <= bs[hi - 1].End()
  {
    bs[..lo] + [Block(bs[lo].addr, bs[hi - 1].End() - bs[lo].addr - HEADER_SIZE, Free)] + bs[hi..]
  }

  /** Releasing block i merges it with its free neighbours: these bounds. */
  ghost function MergeFrom(bs: seq<Block>, i: nat): nat
    requires i < |bs|
  {
    if i > 0 && bs[i - 1].state.Free? then i - 1 else i
  }

  ghost function MergeTo(bs: seq<Block>, i: nat): nat
    requires i < |bs|
  {
    if i + 1 < |bs| && bs[i + 1].state.Free? then i + 2 else i + 1
  }

  lemma MergeSpans(bs: seq<Block>, lo: nat, hi: nat)
    requires Tiles(bs) && lo < hi <= |bs|
    ensures bs[lo].addr + HEADER_SIZE <= bs[hi - 1].End()
  {
    if lo < hi - 1 { BlocksApart(bs, lo, hi - 1); }
  }

  ghost function Release(bs: seq<Block>, i: nat): seq<Block>
    requires Tiles(bs) && i < |bs|
  {
    MergeSpans(bs, MergeFrom(bs, i), MergeTo(bs, i));
    Merge(bs, MergeFrom(bs, i), MergeTo(bs, i))
  }

  lemma MergeTiles(bs: seq<Block>, lo: nat, hi: nat)
    requires Tiles(bs) && lo < hi <= |bs| && bs[lo].addr + HEADER_SIZE <= bs[hi - 1].End()
    ensures Tiles(Merge(bs, lo, hi))
  {
    var r := Merge(bs, lo, hi);
    forall k | 0 <= k < |r| - 1
      ensures r[k].End() == r[k + 1].addr
    {
      var k' := if k < lo then k else k + (hi - lo - 1);
      assert bs[k'].End() == bs[k' + 1].addr;
    }
  }

  lemma ReleaseKeeps(bs: seq<Block>, i: nat)
    requires WellFormed(bs) && i < |bs| && !bs[i].state.Free?
    ensures WellFormed(Release(bs, i))
  {
    var lo, hi := MergeFrom(bs, i), MergeTo(bs, i);
    MergeSpans(bs, lo, hi);
    MergeTiles(bs, lo, hi);
    ReleaseApart(bs, i, lo, hi);
  }

  /** What is left of the list keeps its shape because both neighbours of the
      merged block are in use. */
  lemma ReleaseApart(bs: seq<Block>, i: nat, lo: nat, hi: nat)
    requires NoFreeNeighbours(bs) && RoomForGuards(bs) && i < |bs| && lo == MergeFrom(bs, i) && hi == MergeTo(bs, i)
    requires bs[lo].addr + HEADER_SIZE <= bs[hi - 1].End()
    ensures NoFreeNeighbours(Merge(bs, lo, hi)) && RoomForGuards(Merge(bs, lo, hi))
  {
    var r := Merge(bs, lo, hi);
    assert forall k :: 0 <= k < lo ==> r[k] == bs[k];
    assert forall k :: lo < k < |r| ==> r[k] == bs[k + (hi - lo - 1)];
    assert lo > 0 ==> !bs[lo - 1].state.Free?;
    assert hi < |bs| ==> !bs[hi].state.Free?;
    forall k | 0 <= k < |r| - 1 && r[k].state.Free?
      ensures !r[k + 1].state.Free?
    {
      if k < lo { assert !bs[k + 1].state.Free?; }
      if k > lo { assert bs[k + (hi - lo - 1)].state.Free?; assert !bs[k + (hi - lo - 1) + 1].state.Free?; }
    }
  }

  /** Every used block but the released one is still there. */
  lemma ReleaseOthers(bs: seq<Block>, i: nat, k: nat)
    requires Tiles(bs) && i < |bs| && k < |bs| && !bs[k].state.Free? && k != i
    ensures bs[k] in Release(bs, i)
  {
    var lo, hi := MergeFrom(bs, i), MergeTo(bs, i);
    var r := Release(bs, i);
    if k < lo { assert r[k] == bs[k]; } else { assert r[k - (hi - lo - 1)] == bs[k]; }
  }

  /** Used blocks after a release were there before. */
  lemma ReleaseNoNew(bs: seq<Block>, i: nat, b: Block)
    requires Tiles(bs) && i < |bs| && b in Release(bs, i) && !b.state.Free?
    ensures exists k :: 0 <= k < |bs| && k != i && bs[k] == b
  {
    var lo, hi := MergeFrom(bs, i), MergeTo(bs, i);
    var r := Release(bs, i);
    var k :| 0 <= k < |r| && r[k] == b;
    if k < lo { assert bs[k] == b; } else { assert k != lo; assert bs[k + (hi - lo - 1)] == b; }
  }
}
