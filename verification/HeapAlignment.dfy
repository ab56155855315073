/** How the pointers that malloc returns are aligned. The code rounds requests to 8
    bytes, but header, redzone and canary are 66 bytes together, and nothing is
    rounded when a block is split. */
module HeapAlignment {
  import opened Arith
  import opened Bytes
  import opened HeapBlocks
  import opened HeapRuns

  const FRESH: Heap := Heap([Block(0, ARENA - HEADER_SIZE, State.Free)], [])

  predicate Requests(ops: seq<Op>) {
    forall k :: 0 <= k < |ops| ==> ops[k].Allocate? && 0 < ops[k].size <= MAX_REQUEST
  }

  /** The bytes that the requests take off the arena together. */
  function Taken(ops: seq<Op>): nat
    requires Requests(ops)
  {
    if ops == [] then 0 else Taken(ops[..|ops| - 1]) + HEADER_SIZE + Reserved(ops[|ops| - 1].size)
  }

  lemma {:induction false} TakenShifts(ops: seq<Op>)
    requires Requests(ops)
    ensures Taken(ops) % 8 == 2 * |ops| % 8
  {
    if ops != [] {
      var n := |ops| - 1;
      TakenShifts(ops[..n]);
      ReservedCovers(ops[n].size);
      ShiftByTwo(Taken(ops[..n]), n, Align8(ops[n].size) / 8);
    }
  }

  lemma ShiftByTwo(a: int, n: int, k: int)
    requires a % 8 == 2 * n % 8
    ensures (a + 66 + 8 * k) % 8 == 2 * (n + 1) % 8
  {
  }

  /** The block of the k-th request. */
  ghost predicate RowAt(b: Block, ops: seq<Op>, k: nat)
    requires Requests(ops) && k < |ops|
  {
    b.state == Live(ops[k].tag) && b.addr == Taken(ops[..k])
  }

  lemma RowAtPrefix(b: Block, ops: seq<Op>, n: nat, k: nat)
    requires Requests(ops) && k < n <= |ops|
    ensures RowAt(b, ops[..n], k) == RowAt(b, ops, k)
  {
    assert ops[..n][..k] == ops[..k] && ops[..n][k] == ops[k];
  }

  /** The heap after requests that it has room for: their blocks one behind the other,
      then one free block. */
  ghost predicate InRow(bs: seq<Block>, ops: seq<Op>)
    requires Requests(ops)
  {
    |bs| == |ops| + 1 &&
    (forall k :: 0 <= k < |ops| ==> RowAt(bs[k], ops, k)) &&
    Taken(ops) + HEADER_SIZE <= ARENA && bs[|ops|] == Block(Taken(ops), ARENA - Taken(ops) - HEADER_SIZE, State.Free)
  }

  lemma {:induction false} FreshRun(ops: seq<Op>)
    requires Requests(ops) && Taken(ops) + HEADER_SIZE + MIN_BLOCK_SIZE <= ARENA
    ensures Sound(FRESH) && Fits(ops) && Run(FRESH, ops).Running?
    ensures Run(FRESH, ops).h.ring == [] && InRow(Run(FRESH, ops).h.blocks, ops)
  {
    InitSound();
    if ops != [] {
      hide Sound, AfterMalloc, InRow, Taken;
      var n := |ops| - 1;
      assert Taken(ops) == Taken(ops[..n]) + HEADER_SIZE + Reserved(ops[n].size) by { TakenLast(ops); }
      FreshRun(ops[..n]);
      var h := Run(FRESH, ops[..n]).h;
      NextInRow(h, ops);
    }
  }

  lemma TakenLast(ops: seq<Op>)
    requires Requests(ops) && ops != []
    ensures Taken(ops) == Taken(ops[..|ops| - 1]) + HEADER_SIZE + Reserved(ops[|ops| - 1].size)
  {
  }

  /** The last block cut in two: `need` bytes in use, and the rest free. */
  ghost function SplitLast(bs: seq<Block>, need: nat, tag: Tag): (r: seq<Block>)
    requires |bs| > 0 && Splits(bs[|bs| - 1].size, need)
    ensures |r| == |bs| + 1 && forall k :: 0 <= k < |bs| - 1 ==> r[k] == bs[k]
    ensures var b := bs[|bs| - 1];
            r[|bs| - 1] == Block(b.addr, need, Live(tag)) &&
            r[|bs|] == Block(b.addr + HEADER_SIZE + need, b.size - need - HEADER_SIZE, State.Free)
  {
    var b := bs[|bs| - 1];
    bs[..|bs| - 1] +
    [Block(b.addr, need, Live(tag)), Block(b.addr + HEADER_SIZE + need, b.size - need - HEADER_SIZE, State.Free)]
  }

  /** First fit passes over the blocks in use and splits the free one at the end. */
  lemma LastIsSplit(bs: seq<Block>, need: nat, tag: Tag)
    requires |bs| > 0 && bs[|bs| - 1].state.Free? && Splits(bs[|bs| - 1].size, need)
    requires forall k :: 0 <= k < |bs| - 1 ==> !bs[k].state.Free?
    ensures FirstFit(bs, need, 0) == |bs| - 1
    ensures Grant(bs, |bs| - 1, need, tag) == SplitLast(bs, need, tag)
  {
    var n := |bs| - 1;
    assert bs[n + 1..] == [];
    var r := Cut(bs, n, need);
    assert r[n := r[n].(state := Live(tag))] == bs[..n] + [r[n].(state := Live(tag)), r[n + 1]];
  }

  lemma NextInRow(h: Heap, ops: seq<Op>)
    requires Requests(ops) && ops != [] && InRow(h.blocks, ops[..|ops| - 1])
    requires Taken(ops) + HEADER_SIZE + MIN_BLOCK_SIZE <= ARENA
    ensures var last := ops[|ops| - 1];
            AfterMalloc(h, last.size, last.tag).ring == h.ring && InRow(AfterMalloc(h, last.size, last.tag).blocks, ops)
  {
    hide Taken, Reserved, FirstFit, Grant, InRow, SplitLast;
    var n, last := |ops| - 1, ops[|ops| - 1];
    TakenLast(ops);
    RowFacts(h.blocks, ops[..n]);
    LastIsSplit(h.blocks, Reserved(last.size), last.tag);
    RowGrows(h.blocks, ops);
  }

  lemma RowFacts(bs: seq<Block>, ops: seq<Op>)
    requires Requests(ops) && InRow(bs, ops)
    ensures |bs| == |ops| + 1 && bs[|ops|] == Block(Taken(ops), ARENA - Taken(ops) - HEADER_SIZE, State.Free)
    ensures forall k :: 0 <= k < |ops| ==> !bs[k].state.Free?
  {
    hide Taken;
    forall k | 0 <= k < |ops| ensures !bs[k].state.Free? { assert RowAt(bs[k], ops, k); }
  }

  lemma RowGrows(bs: seq<Block>, ops: seq<Op>)
    requires Requests(ops) && ops != [] && InRow(bs, ops[..|ops| - 1])
    requires Taken(ops) + HEADER_SIZE + MIN_BLOCK_SIZE <= ARENA
    requires |bs| == |ops| && Splits(bs[|ops| - 1].size, Reserved(ops[|ops| - 1].size))
    ensures InRow(SplitLast(bs, Reserved(ops[|ops| - 1].size), ops[|ops| - 1].tag), ops)
  {
    TakenLast(ops);
    hide Taken, Reserved, RowAt, SplitLast;
    var r := SplitLast(bs, Reserved(ops[|ops| - 1].size), ops[|ops| - 1].tag);
    GrantedRow(r[|ops| - 1], ops);
    RowKept(bs, r, ops);
  }

  lemma RowKept(bs: seq<Block>, r: seq<Block>, ops: seq<Op>)
    requires Requests(ops) && ops != [] && |bs| == |ops| && |r| == |ops| + 1
    requires forall k :: 0 <= k < |ops| - 1 ==> RowAt(bs[k], ops[..|ops| - 1], k) && r[k] == bs[k]
    requires RowAt(r[|ops| - 1], ops, |ops| - 1)
    ensures forall k :: 0 <= k < |ops| ==> RowAt(r[k], ops, k)
  {
    hide RowAt;
    forall k | 0 <= k < |ops| ensures RowAt(r[k], ops, k) {
      if k < |ops| - 1 { RowAtPrefix(bs[k], ops, |ops| - 1, k); }
    }
  }

  lemma GrantedRow(b: Block, ops: seq<Op>)
    requires Requests(ops) && ops != [] && b.state == Live(ops[|ops| - 1].tag) && b.addr == Taken(ops[..|ops| - 1])
    ensures RowAt(b, ops, |ops| - 1)
  {
  }

  /** On an aligned arena, the pointers of consecutive requests after init_heap are
      2 further from a multiple of 8 each time: exactly every other one is a multiple
      of 4, and one in four a multiple of 8. */
  lemma PointersDrift(ops: seq<Op>, base: nat, k: nat)
    requires Requests(ops) && Taken(ops) + HEADER_SIZE + MIN_BLOCK_SIZE <= ARENA && base % 8 == 0 && k < |ops|
    ensures Sound(FRESH) && Fits(ops) && Run(FRESH, ops).Running? && k < |Run(FRESH, ops).h.blocks|
    ensures var p := base + Run(FRESH, ops).h.blocks[k].User();
            p % 8 == 2 * k % 8 && (p % 4 == 0 <==> k % 2 == 0) && (p % 8 == 0 <==> k % 4 == 0)
  {
    hide Run, Sound, Taken;
    FreshRun(ops);
    assert RowAt(Run(FRESH, ops).h.blocks[k], ops, k);
    TakenShifts(ops[..k]);
    Residues(base, Run(FRESH, ops).h.blocks[k].addr, k);
  }

  lemma Residues(base: nat, a: nat, k: nat)
    requires base % 8 == 0 && a % 8 == 2 * k % 8
    ensures var p := base + (a + HEADER_SIZE + RZONE_SIZE);
            p % 8 == 2 * k % 8 && (p % 4 == 0 <==> k % 2 == 0) && (p % 8 == 0 <==> k % 4 == 0)
  {
    var j, m := k % 4, base / 8 + a / 8 + 6;
    ResiduesOf(m, k / 4, j);
    assert k == 4 * (k / 4) + j;
    assert base == 8 * (base / 8) && a == 8 * (a / 8) + 2 * j;
    assert base + (a + HEADER_SIZE + RZONE_SIZE) == 8 * m + 2 * j;
  }

  lemma ResiduesOf(m: nat, k: nat, j: nat)
    requires j < 4
    ensures (8 * m + 2 * j) % 8 == 2 * j == 2 * (4 * k + j) % 8
    ensures ((8 * m + 2 * j) % 4 == 0 <==> j % 2 == 0) && ((4 * k + j) % 2 == j % 2) && (4 * k + j) % 4 == j
  {
    QuotientUnique(8 * m + 2 * j, 8, m, 2 * j);
    QuotientUnique(2 * (4 * k + j), 8, k, 2 * j);
    QuotientUnique(8 * m + 2 * j, 4, 2 * m + j / 2, 2 * (j % 2));
    QuotientUnique(4 * k + j, 2, 2 * k + j / 2, j % 2);
    QuotientUnique(4 * k + j, 4, k, j);
  }

  /** Two requests of 8 bytes are such requests; the second pointer is misaligned. */
  lemma TwoRequests(tag: Tag)
    ensures var ops := [Allocate(8, tag), Allocate(8, tag)]; Requests(ops) && Taken(ops) == 148
  {
    var one := [Allocate(8, tag)];
    assert one[..0] == [];
    assert Taken(one) == 74;
    assert (one + one)[..1] == one && one + one == [Allocate(8, tag), Allocate(8, tag)];
    TakenLast(one + one);
  }
}
