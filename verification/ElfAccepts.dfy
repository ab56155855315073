/** Which program files the loader of src/kernel/elf.c accepts, where it may put
    them, and what it leaves alone. */
module ElfAccepts {
  import opened Arith
  import opened Bytes
  import opened Memory
  import opened ElfFormat
  import opened ElfLoad

  /** A 32-bit little-endian executable for the 386 with one to five program headers. */
  predicate WellHeaded(s: seq<byte>) {
    |s| >= 52 && s[..6] == [0x7F, 0x45, 0x4C, 0x46, 1, 1] && s[16..20] == [2, 0, 3, 0] &&
    1 <= Word16(s, 44) <= 5 && Word32(s, 28) + 32 * Word16(s, 44) <= |s|
  }

  /** Header i is of a segment to be loaded. */
  predicate Loads(s: seq<byte>, i: nat)
    requires WellHeaded(s) && i < Word16(s, 44)
  {
    PhdrNo(s, Word32(s, 28), i).kind == 1
  }

  /** The segment of header i lies in the file, and its place in the slot. */
  predicate Placed(s: seq<byte>, i: nat, base: u32, limit: nat)
    requires WellHeaded(s) && i < Word16(s, 44)
  {
    var ph := PhdrNo(s, Word32(s, 28), i);
    ph.offset + ph.filesz <= |s| && ph.filesz <= ph.memsz && base <= ph.vaddr && ph.vaddr - base + ph.memsz <= limit
  }

  /** A file that has what it takes, for an offset `delta` of an image of `size` bytes. */
  predicate Acceptable(s: seq<byte>, base: u32, limit: nat, delta: nat, size: nat) {
    WellHeaded(s) && (exists i :: 0 <= i < Word16(s, 44) && Loads(s, i)) &&
    (forall i :: 0 <= i < Word16(s, 44) && Loads(s, i) ==> Placed(s, i, base, limit)) &&
    base <= (Word32(s, 24) + delta) % U32_LIMIT < base + delta + size
  }

  lemma HeaderExact(s: seq<byte>)
    ensures CheckHeader(s).Good? <==> WellHeaded(s)
    ensures WellHeaded(s) ==> CheckHeader(s) == Good(Word32(s, 24), Word32(s, 28), Word16(s, 44))
  {
    if |s| >= 52 {
      assert s[..6] == [s[0], s[1], s[2], s[3], s[4], s[5]];
      assert s[16..20] == [s[16], s[17], s[18], s[19]];
    }
  }

  /** Every loadable segment among the first `n` is in the file. */
  predicate AllHeld(s: seq<byte>, phoff: nat, n: nat)
    requires phoff + n * PHDR_SIZE <= |s|
  {
    forall i :: 0 <= i < n ==> PhdrNo(s, phoff, i).kind == PT_LOAD ==>
      PhdrNo(s, phoff, i).offset + PhdrNo(s, phoff, i).filesz <= |s|
  }

  /** The copied segments end where the first pass said, shifted. */
  lemma {:induction false} CopiedEnd(s: seq<byte>, slot: seq<byte>, phoff: nat, n: nat, base: u32, delta: nat,
        limit: nat)
    requires phoff + n * PHDR_SIZE <= |s| && Shifted(s, phoff, n, base, limit, delta) && limit <= |slot|
    ensures var c, st := CopyTo(s, slot, phoff, n, base, delta, limit), ScanTo(s, phoff, n, base);
            (c.complete <==> AllHeld(s, phoff, n)) &&
            (c.complete ==> c.end == if st.found then delta + st.codeEnd else 0) && (!st.found ==> st.codeEnd == 0)
  {
    hide Content, Put, Word32;
    if n > 0 {
      CopiedEnd(s, slot, phoff, n - 1, base, delta, limit);
      HeldStep(s, phoff, n);
    }
  }

  lemma HeldStep(s: seq<byte>, phoff: nat, n: nat)
    requires n > 0 && phoff + n * PHDR_SIZE <= |s|
    ensures var ph := PhdrNo(s, phoff, n - 1);
            AllHeld(s, phoff, n) <==> AllHeld(s, phoff, n - 1) && (ph.kind == PT_LOAD ==> ph.offset + ph.filesz <= |s|)
  {
    hide PhdrNo;
  }

  lemma {:induction false} FoundExact(s: seq<byte>, phoff: nat, n: nat, base: u32, limit: nat)
    requires phoff + n * PHDR_SIZE <= |s| && AllFit(s, phoff, n, base, limit)
    ensures ScanTo(s, phoff, n, base).found <==> exists i :: 0 <= i < n && PhdrNo(s, phoff, i).kind == PT_LOAD
  {
    hide PhdrNo, Word32;
    if n > 0 { FoundExact(s, phoff, n - 1, base, limit); }
  }

  /** The loader accepts exactly the files whose header is right, whose loadable segments,
      at least one, lie in the file and in the window, and whose shifted entry point is in
      the shifted image. */
  lemma LoadedExact(s: seq<byte>, slot: seq<byte>, base: u32, limit: nat, random: u32)
    requires limit <= |slot|
    ensures WellHeaded(s) ==>
              var st := ScanTo(s, Word32(s, 28), Word16(s, 44), base);
              var delta := Delta(st, limit, random);
              Load(s, slot, base, limit, random).result.Loaded? <==>
              delta >= 0 && Acceptable(s, base, limit, delta, st.codeEnd)
    ensures !WellHeaded(s) ==> Load(s, slot, base, limit, random).result.Failed?
  {
    hide CheckHeader, ScanTo, CopyTo, PatchTo, Delta, PhdrNo, Word32, Word16;
    HeaderExact(s);
    if WellHeaded(s) {
      var phoff, n := Word32(s, 28), Word16(s, 44);
      PlacedExact(s, base, limit);
      if AllFit(s, phoff, n, base, limit) {
        ShiftedByDelta(s, phoff, n, base, limit, random);
        FoundExact(s, phoff, n, base, limit);
        var st := ScanTo(s, phoff, n, base);
        var delta := Delta(st, limit, random);
        CopiedEnd(s, slot, phoff, n, base, delta, limit);
        if st.found {
          var i :| 0 <= i < n && PhdrNo(s, phoff, i).kind == PT_LOAD;
          assert Loads(s, i);
        }
        var c := CopyTo(s, slot, phoff, n, base, delta, limit);
        var o := Load(s, slot, base, limit, random);
        if st.found {
          assert o == Finish(s, c, st, Word32(s, 24), delta, base);
        }
      }
    }
  }

  lemma PlacedExact(s: seq<byte>, base: u32, limit: nat)
    requires WellHeaded(s)
    ensures var phoff, n := Word32(s, 28), Word16(s, 44);
            AllFit(s, phoff, n, base, limit) && AllHeld(s, phoff, n) <==>
            forall i :: 0 <= i < n && Loads(s, i) ==> Placed(s, i, base, limit)
  {
    hide PhdrNo, Word32, Word16, WellHeaded;
    HeaderRoom(s);
    var phoff, n := Word32(s, 28), Word16(s, 44);
    if forall i :: 0 <= i < n && Loads(s, i) ==> Placed(s, i, base, limit) {
      forall i | 0 <= i < n && PhdrNo(s, phoff, i).kind == PT_LOAD
        ensures SegmentFits(PhdrNo(s, phoff, i), base, limit) &&
                PhdrNo(s, phoff, i).offset + PhdrNo(s, phoff, i).filesz <= |s|
      {
        assert Loads(s, i);
      }
    }
  }

  lemma HeaderRoom(s: seq<byte>)
    requires WellHeaded(s)
    ensures |s| >= 52 && Word32(s, 28) + Word16(s, 44) * PHDR_SIZE <= |s|
  {
  }

  // ----- what is left alone

  lemma {:induction false} CopyInside(s: seq<byte>, slot: seq<byte>, phoff: nat, n: nat, base: u32, delta: nat,
        limit: nat)
    requires phoff + n * PHDR_SIZE <= |s| && Shifted(s, phoff, n, base, limit, delta) && limit <= |slot|
    ensures var st := ScanTo(s, phoff, n, base);
            st.codeEnd >= 0 &&
            SameOutside(slot, CopyTo(s, slot, phoff, n, base, delta, limit).slot, delta, delta + st.codeEnd)
  {
    hide Content, Word32, PhdrAt;
    if n > 0 { CopyInside(s, slot, phoff, n - 1, base, delta, limit); }
  }

  lemma {:induction false} PatchInside(s: seq<byte>, m: seq<byte>, st: Scan, n: nat, delta: nat)
    requires TableInFile(s, st) && n <= st.count && delta + st.codeEnd <= |m|
    ensures SameOutside(m, PatchTo(s, m, st, n, delta), delta, delta + st.codeEnd)
  {
    hide Word32, Bytes32;
    if n > 0 { PatchInside(s, m, st, n - 1, delta); }
  }

  /** Whatever the file and however the call ends, no byte of the slot outside the place
      of the shifted image is written; a file that the checks reject changes nothing. */
  lemma OutsideUntouched(s: seq<byte>, slot: seq<byte>, base: u32, limit: nat, random: u32)
    requires limit <= |slot|
    ensures var slot' := Load(s, slot, base, limit, random).slot;
            if WellHeaded(s) && AllFit(s, Word32(s, 28), Word16(s, 44), base, limit) then
              var st := ScanTo(s, Word32(s, 28), Word16(s, 44), base);
              SameOutside(slot, slot', Delta(st, limit, random), Delta(st, limit, random) + st.codeEnd)
            else slot' == slot
  {
    hide CheckHeader, ScanTo, CopyTo, PatchTo, Delta, PhdrNo, Word32, Word16, AllFit, Shifted, SameOutside;
    HeaderExact(s);
    if WellHeaded(s) {
      HeaderRoom(s);
      var phoff, n := Word32(s, 28), Word16(s, 44);
      if AllFit(s, phoff, n, base, limit) {
        var st := ScanTo(s, phoff, n, base);
        var delta := Delta(st, limit, random);
        ShiftedByDelta(s, phoff, n, base, limit, random);
        Same(slot, delta, delta + st.codeEnd);
        CopyInside(s, slot, phoff, n, base, delta, limit);
        var c := CopyTo(s, slot, phoff, n, base, delta, limit);
        PatchInside(s, c.slot, st, st.count, delta);
        SameOutsideJoin(slot, c.slot, PatchTo(s, c.slot, st, st.count, delta), delta, delta + st.codeEnd, delta,
          delta + st.codeEnd, delta, delta + st.codeEnd);
      }
    }
  }

  lemma Same(m: seq<byte>, lo: nat, hi: nat)
    ensures SameOutside(m, m, lo, hi)
  {
  }

  // ----- the offsets that can come up

  /** The whole pages of room beyond 20 KB. */
  function Slots(room: nat): nat {
    if room > 0x5000 then (room - 0x5000) / 0x1000 else 0
  }

  lemma DeltaOf(st: Scan, limit: u32, random: u32)
    requires 0 < st.count && 0 <= st.codeEnd && st.codeEnd + Fix(st.wx) < limit
    ensures var slots := Slots(limit - st.codeEnd - Fix(st.wx));
            slots == 0 ==> Delta(st, limit, random) == Fix(st.wx)
    ensures var slots := Slots(limit - st.codeEnd - Fix(st.wx));
            slots > 0 ==> Delta(st, limit, random) == Fix(st.wx) + random % slots * 0x1000
  {
  }

  lemma SlotRoom(room: nat, k: nat)
    ensures k < Slots(room) <==> k * 0x1000 + 0x6000 <= room
  {
  }

  lemma Pages(a: int, k: int)
    requires a % 0x1000 == 0
    ensures (a + k * 0x1000) % 0x1000 == 0
  {
  }

  lemma Distance(a: int, b: int) returns (k: nat)
    requires a % 0x1000 == 0 && b % 0x1000 == 0 && a < b
    ensures k > 0 && b == a + k * 0x1000
  {
    k := b / 0x1000 - a / 0x1000;
  }

  /** An offset that aligns the boundary and, unless it is the least such, leaves 20 KB
      and a page behind the image. */
  predicate Possible(st: Scan, limit: u32, d: int) {
    d == Fix(st.wx) || (d > Fix(st.wx) && (d + st.wx) % 0x1000 == 0 && st.codeEnd + d + 0x6000 <= limit)
  }

  lemma DeltaPossible(st: Scan, limit: u32, random: u32)
    requires 0 < st.count && 0 <= st.codeEnd && st.codeEnd + Fix(st.wx) < limit
    ensures Possible(st, limit, Delta(st, limit, random))
  {
    hide Delta, Slots;
    var room: nat := limit - st.codeEnd - Fix(st.wx);
    DeltaOf(st, limit, random);
    if Slots(room) > 0 {
      var k := random % Slots(room);
      SlotRoom(room, k);
      Pages(Fix(st.wx) + st.wx, k);
    }
  }

  lemma PossibleDelta(st: Scan, limit: u32, d: int) returns (random: u32)
    requires 0 < st.count && 0 <= st.codeEnd && st.codeEnd + Fix(st.wx) < limit && Possible(st, limit, d)
    ensures Delta(st, limit, random) == d
  {
    hide Delta, Slots, Fix;
    var room: nat := limit - st.codeEnd - Fix(st.wx);
    if d == Fix(st.wx) {
      random := 0;
      DeltaOf(st, limit, 0);
      if Slots(room) > 0 { assert 0 % Slots(room) == 0; }
    } else {
      random := Distance(Fix(st.wx) + st.wx, d + st.wx);
      SlotRoom(room, random);
      DeltaOf(st, limit, random);
      assert random % Slots(room) == random;
    }
  }

  /** A program with relocations and room for the alignment can come to lie at exactly
      the possible offsets. */
  lemma DeltaExact(st: Scan, limit: u32, d: int)
    requires 0 < st.count && 0 <= st.codeEnd && st.codeEnd + Fix(st.wx) < limit
    ensures (exists random: u32 :: Delta(st, limit, random) == d) <==> Possible(st, limit, d)
  {
    hide Delta, Possible;
    if exists random: u32 :: Delta(st, limit, random) == d {
      var random: u32 :| Delta(st, limit, random) == d;
      DeltaPossible(st, limit, random);
    }
    if Possible(st, limit, d) { var random := PossibleDelta(st, limit, d); }
  }
}
