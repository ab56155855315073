/** The arena as bytes: block headers, redzones and canaries of
    src/kernel/heap.c, and when bytes hold a list of blocks. */
module HeapMemory {
  import opened Bytes
  import opened HeapBlocks
  import opened Memory

  const STORED: nat := 38            // bytes of a header that carry fields
  const MAGIC_ALLOC: u32 := 0x4C41434B
  const MAGIC_QUARANTINE: u32 := 0x51524E54
  const MAGIC_FREE: u32 := 0x46524545
  const RZONE_BYTE: byte := 0xBE
  const POISON: byte := 0xDD
  const ZERO_TAG: Tag := [0, 0, 0, 0, 0, 0, 0, 0, 0, 0, 0, 0, 0, 0, 0, 0, 0, 0]

  datatype Header = Header(size: u32, free: u32, next: u64, magic: u32, tag: Tag)

  function Encode(h: Header): (s: seq<byte>)
    ensures |s| == STORED
  {
    Bytes32(h.size) + Bytes32(h.free) + Bytes64(h.next) + Bytes32(h.magic) + h.tag
  }

  function Decode(m: seq<byte>, a: nat): Header
    requires a + STORED <= |m|
  {
    Header(Word32(m, a), Word32(m, a + 4), Word64(m, a + 8), Word32(m, a + 16), m[a + 20..a + STORED])
  }

  /** A header written at `a` is the header read there. */
  lemma DecodeEncoded(m: seq<byte>, a: nat, h: Header)
    requires a + STORED <= |m| && m[a..a + STORED] == Encode(h)
    ensures Decode(m, a) == h
  {
    hide Word32, Bytes32, Word64, Bytes64;
    var e := Encode(h);
    var x := m[a..a + STORED];
    Subslice(m, a, STORED, 0, 4);
    Subslice(m, a, STORED, 4, 8);
    Subslice(m, a, STORED, 8, 16);
    Subslice(m, a, STORED, 16, 20);
    Subslice(m, a, STORED, 20, STORED);
    assert x[0..4] == Bytes32(h.size);
    assert x[4..8] == Bytes32(h.free);
    assert x[8..16] == Bytes64(h.next);
    assert x[16..20] == Bytes32(h.magic);
    assert x[20..STORED] == h.tag;
    ReadsWord32(m, a, h.size);
    ReadsWord32(m, a + 4, h.free);
    ReadsWord64(m, a + 8, h.next);
    ReadsWord32(m, a + 16, h.magic);
  }

  /** The header of a block whose successor is at `next`. */
  function HeaderOf(b: Block, next: u64): Header
    requires b.size < U32_LIMIT
  {
    match b.state
    case Free => Header(b.size, 1, next, MAGIC_FREE, ZERO_TAG)
    case Live(tag) => Header(b.size, 0, next, MAGIC_ALLOC, tag)
    case Held(tag) => Header(b.size, 0, next, MAGIC_QUARANTINE, tag)
  }

  /** The pointer to block i of the list; null past its end. */
  ghost function PointerTo(bs: seq<Block>, i: nat, base: nat): nat {
    if i < |bs| then base + bs[i].addr else 0
  }

  ghost predicate Holds(m: seq<byte>, b: Block, next: nat) {
    b.End() <= |m| && b.size < U32_LIMIT && next < 0x1_0000_0000_0000_0000 &&
    m[b.addr..b.addr + STORED] == Encode(HeaderOf(b, next))
  }

  /** Every block's header is in memory, linked to the next. */
  ghost predicate Linked(m: seq<byte>, base: nat, bs: seq<Block>) {
    |m| == ARENA && forall i {:trigger bs[i]} :: 0 <= i < |bs| ==> Holds(m, bs[i], PointerTo(bs, i + 1, base))
  }

  function Redzone(): (s: seq<byte>)
    ensures |s| == RZONE_SIZE
  {
    seq(RZONE_SIZE, _ => RZONE_BYTE)
  }

  function XorByte(b: byte): byte {
    ((b as bv8) ^ 0xAC) as byte
  }

  /** The canary of a tag: each of its 18 bytes is 0xAC xor the tag's. */
  function Canary(tag: Tag): (s: seq<byte>)
    ensures |s| == CANARY_SIZE
  {
    seq(CANARY_SIZE, k requires 0 <= k < CANARY_SIZE => XorByte(tag[k]))
  }

  ghost predicate RedzoneIntact(m: seq<byte>, b: Block)
    requires b.End() <= |m| && b.size >= OVERHEAD
  {
    m[b.addr + HEADER_SIZE..b.User()] == Redzone()
  }

  ghost predicate CanaryIntact(m: seq<byte>, b: Block)
    requires b.End() <= |m| && b.size >= OVERHEAD && b.state.Live?
  {
    m[b.UserEnd()..b.End()] == Canary(b.state.tag)
  }

  ghost predicate Guarded(m: seq<byte>, b: Block)
  {
    b.End() <= |m| && b.size >= OVERHEAD && b.state.Live? && RedzoneIntact(m, b) && CanaryIntact(m, b)
  }

  lemma HoldsSame(m: seq<byte>, m': seq<byte>, lo: nat, hi: nat, b: Block, next: nat)
    requires SameOutside(m, m', lo, hi) && Holds(m, b, next) && (b.addr + STORED <= lo || hi <= b.addr)
    ensures Holds(m', b, next)
  {
    SliceSame(m, m', lo, hi, b.addr, b.addr + STORED);
  }

  /** Writing two headers inside a free block cuts it. */
  lemma CutLinked(m: seq<byte>, m': seq<byte>, base: nat, bs: seq<Block>, i: nat, need: nat)
    requires Tiles(bs) && Linked(m, base, bs) && i < |bs| && Splits(bs[i].size, need)
    requires SameOutside(m, m', bs[i].addr, bs[i].End())
    requires var r := Cut(bs, i, need);
             Holds(m', r[i], PointerTo(r, i + 1, base)) && Holds(m', r[i + 1], PointerTo(bs, i + 1, base))
    ensures Linked(m', base, Cut(bs, i, need))
  {
    hide Holds, Tiles, SameOutside;
    SameLength(m, m', bs[i].addr, bs[i].End());
    var r := Cut(bs, i, need);
    forall k | 0 <= k < |r|
      ensures Holds(m', r[k], PointerTo(r, k + 1, base))
    {
      var k' := if k <= i then k else k - 1;
      if k != i {
        assert PointerTo(r, k + 1, base) == PointerTo(bs, k' + 1, base) by {
          if k' + 1 < |bs| { assert r[k + 1].addr == bs[k' + 1].addr; }
        }
      }
      if k != i && k != i + 1 {
        assert r[k] == bs[k'];
        OtherHolds(m, m', base, bs, i, i + 1, k');
      }
    }
  }

  /** Rewriting one header marks its block. */
  lemma MarkedLinked(m: seq<byte>, m': seq<byte>, base: nat, bs: seq<Block>, i: nat, state: State)
    requires Tiles(bs) && Linked(m, base, bs) && i < |bs| && SameOutside(m, m', bs[i].addr, bs[i].End())
    requires Holds(m', bs[i].(state := state), PointerTo(bs, i + 1, base))
    ensures Linked(m', base, Marked(bs, i, state))
  {
    hide Holds, Tiles, SameOutside;
    SameLength(m, m', bs[i].addr, bs[i].End());
    var r := Marked(bs, i, state);
    forall k | 0 <= k < |r|
      ensures Holds(m', r[k], PointerTo(r, k + 1, base))
    {
      assert PointerTo(r, k + 1, base) == PointerTo(bs, k + 1, base);
      if k != i { OtherHolds(m, m', base, bs, i, i + 1, k); }
    }
  }

  lemma OtherHolds(m: seq<byte>, m': seq<byte>, base: nat, bs: seq<Block>, lo: nat, hi: nat, k: nat)
    requires Tiles(bs) && Linked(m, base, bs) && lo < hi <= |bs| && k < |bs| && !(lo <= k < hi)
    requires SameOutside(m, m', bs[lo].addr, bs[hi - 1].End())
    ensures Holds(m', bs[k], PointerTo(bs, k + 1, base))
  {
    hide Tiles, Holds, SameOutside;
    if k < lo { BlocksApart(bs, k, lo); } else { BlocksApart(bs, hi - 1, k); }
    HoldsSame(m, m', bs[lo].addr, bs[hi - 1].End(), bs[k], PointerTo(bs, k + 1, base));
  }

  /** Rewriting the header of merged blocks keeps the list linked. */
  lemma MergeLinked(m: seq<byte>, m': seq<byte>, base: nat, bs: seq<Block>, lo: nat, hi: nat)
    requires Tiles(bs) && Linked(m, base, bs) && lo < hi <= |bs| && bs[lo].addr + HEADER_SIZE <= bs[hi - 1].End()
    requires SameOutside(m, m', bs[lo].addr, bs[hi - 1].End())
    requires Holds(m', Merge(bs, lo, hi)[lo], PointerTo(bs, hi, base))
    ensures Linked(m', base, Merge(bs, lo, hi))
  {
    hide Holds, Tiles, SameOutside;
    SameLength(m, m', bs[lo].addr, bs[hi - 1].End());
    var r := Merge(bs, lo, hi);
    forall k | 0 <= k < |r|
      ensures Holds(m', r[k], PointerTo(r, k + 1, base))
    {
      var k' := if k < lo then k else k + (hi - lo - 1);
      if k == lo {
        assert PointerTo(r, lo + 1, base) == PointerTo(bs, hi, base);
      } else {
        OtherHolds(m, m', base, bs, lo, hi, k');
        assert PointerTo(r, k + 1, base) == PointerTo(bs, k' + 1, base);
      }
    }
  }

  /** Reading the header of block i. */
  lemma ReadBlock(m: seq<byte>, base: nat, bs: seq<Block>, i: nat)
    requires Linked(m, base, bs) && i < |bs|
    ensures bs[i].End() <= |m| && bs[i].size < U32_LIMIT && PointerTo(bs, i + 1, base) < 0x1_0000_0000_0000_0000
    ensures Decode(m, bs[i].addr) == HeaderOf(bs[i], PointerTo(bs, i + 1, base))
  {
    DecodeEncoded(m, bs[i].addr, HeaderOf(bs[i], PointerTo(bs, i + 1, base)));
  }
}
