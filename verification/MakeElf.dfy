/** build_elf of tools/make_elf.py, and its inverse elf_load: what is built loads,
    at any load offset, with every relocated word moved along. */
module MakeElf {
  import opened Bytes
  import opened Memory
  import opened ElfFormat
  import opened ElfLoad

  const LOAD_ADDR: u32 := 0x10_0000

  function Ident(): (s: seq<byte>)
    ensures |s| == 16
  {
    [0x7F, 0x45, 0x4C, 0x46, 1, 1, 1, 0, 0, 0, 0, 0, 0, 0, 0, 0]
  }

  function Ehdr(phnum: u16): (s: seq<byte>)
    ensures |s| == EHDR_SIZE
  {
    Ident() + Bytes16(ET_EXEC) + Bytes16(EM_386) + Bytes32(1) + Bytes32(LOAD_ADDR) + Bytes32(EHDR_SIZE) +
    Bytes32(0) + Bytes32(0) + Bytes16(EHDR_SIZE) + Bytes16(PHDR_SIZE) + Bytes16(phnum) + Bytes16(0) + Bytes16(0) +
      Bytes16(0)
  }

  function MakePhdr(kind: u32, offset: u32, vaddr: u32, filesz: u32, flags: u32, align: u32): (s: seq<byte>)
    ensures |s| == PHDR_SIZE
  {
    Bytes32(kind) + Bytes32(offset) + Bytes32(vaddr) + Bytes32(vaddr) + Bytes32(filesz) + Bytes32(filesz) +
      Bytes32(flags) + Bytes32(align)
  }

  function Words(ws: seq<u32>): (s: seq<byte>)
    ensures |s| == 4 * |ws|
  {
    if ws == [] then [] else Words(ws[..|ws| - 1]) + Bytes32(ws[|ws| - 1])
  }

  function RelocTable(relocs: seq<u32>): (s: seq<byte>)
    requires |relocs| < U32_LIMIT
    ensures |s| == 4 + 4 * |relocs|
  {
    Bytes32(|relocs|) + Words(relocs)
  }

  function PhNum(relocs: seq<u32>, wx: u32): (n: nat)
    ensures 1 <= n <= 3
  {
    1 + (if |relocs| > 0 then 1 else 0) + (if wx > 0 then 1 else 0)
  }

  function RelocOff(relocs: seq<u32>, wx: u32): nat {
    EHDR_SIZE + PHDR_SIZE * PhNum(relocs, wx)
  }

  function WxOff(relocs: seq<u32>, wx: u32): nat {
    RelocOff(relocs, wx) + (if |relocs| > 0 then 4 + 4 * |relocs| else 0)
  }

  function CodeOff(relocs: seq<u32>, wx: u32): nat {
    WxOff(relocs, wx) + (if wx > 0 then 4 else 0)
  }

  /** The file has a 32-bit size. */
  predicate Buildable(flat: seq<byte>, relocs: seq<u32>, wx: u32) {
    CodeOff(relocs, wx) + |flat| < U32_LIMIT
  }

  function LoadPhdr(flat: seq<byte>, relocs: seq<u32>, wx: u32): seq<byte>
    requires Buildable(flat, relocs, wx)
  {
    MakePhdr(PT_LOAD, CodeOff(relocs, wx), LOAD_ADDR, |flat|, 7, 0x1000)
  }

  function RelocPhdr(relocs: seq<u32>, wx: u32): seq<byte>
    requires CodeOff(relocs, wx) < U32_LIMIT
  {
    MakePhdr(PT_AXOS_RELOC, RelocOff(relocs, wx), 0, 4 + 4 * |relocs|, 0, 4)
  }

  function WxPhdr(relocs: seq<u32>, wx: u32): seq<byte>
    requires CodeOff(relocs, wx) < U32_LIMIT
  {
    MakePhdr(PT_AXOS_WX, WxOff(relocs, wx), 0, 4, 0, 4)
  }

  /** build_elf */
  function BuildElf(flat: seq<byte>, relocs: seq<u32>, wx: u32): (s: seq<byte>)
    requires Buildable(flat, relocs, wx)
    ensures |s| == CodeOff(relocs, wx) + |flat|
  {
    Ehdr(PhNum(relocs, wx)) + LoadPhdr(flat, relocs, wx) +
    (if |relocs| > 0 then RelocPhdr(relocs, wx) else []) + (if wx > 0 then WxPhdr(relocs, wx) else []) +
    (if |relocs| > 0 then RelocTable(relocs) else []) + (if wx > 0 then Bytes32(wx) else []) + flat
  }

  // ----- finding the parts again

  /** `x` stands in `s` at offset `a`. */
  ghost predicate Part(s: seq<byte>, a: nat, x: seq<byte>) {
    a + |x| <= |s| && s[a..a + |x|] == x
  }

  lemma PartOf(s: seq<byte>, a: nat, x: seq<byte>, i: nat, y: seq<byte>)
    requires Part(s, a, x) && i + |y| <= |x| && x[i..i + |y|] == y
    ensures Part(s, a + i, y)
  {
    Subslice(s, a, |x|, i, i + |y|);
  }

  lemma PartWord(s: seq<byte>, a: nat, v: u32)
    requires Part(s, a, Bytes32(v))
    ensures Word32(s, a) == v
  {
    ReadsWord32(s, a, v);
  }

  lemma PartHalf(s: seq<byte>, a: nat, v: u16)
    requires Part(s, a, Bytes16(v))
    ensures Word16(s, a) == v
  {
    var x := s[a..a + 2];
    assert x[0] == s[a] && x[1] == s[a + 1];
    RoundTrip16(v);
  }

  /** Appending keeps all parts where they are. */
  lemma Append(s: seq<byte>, x: seq<byte>)
    ensures Part(s + x, |s|, x)
    ensures forall a: nat, y :: Part(s, a, y) ==> Part(s + x, a, y)
  {
    forall a: nat, y | Part(s, a, y) ensures Part(s + x, a, y) {
      assert (s + x)[a..a + |y|] == s[a..a + |y|];
    }
  }

  /** Where the parts of a file are. */
  lemma Layout(flat: seq<byte>, relocs: seq<u32>, wx: u32)
    requires Buildable(flat, relocs, wx)
    ensures var s := BuildElf(flat, relocs, wx);
            Part(s, 0, Ehdr(PhNum(relocs, wx))) && Part(s, 52, LoadPhdr(flat, relocs, wx)) &&
            (|relocs| > 0 ==>
              Part(s, 84, RelocPhdr(relocs, wx)) && Part(s, RelocOff(relocs, wx), RelocTable(relocs))) &&
            (wx > 0 ==>
              Part(s, if |relocs| > 0 then 116 else 84, WxPhdr(relocs, wx)) &&
              Part(s, WxOff(relocs, wx), Bytes32(wx))) &&
            Part(s, CodeOff(relocs, wx), flat)
  {
    hide Ehdr, MakePhdr, RelocTable, Bytes32, Part;
    var e, p := Ehdr(PhNum(relocs, wx)), LoadPhdr(flat, relocs, wx);
    var rp := if |relocs| > 0 then RelocPhdr(relocs, wx) else [];
    var wp := if wx > 0 then WxPhdr(relocs, wx) else [];
    var rt := if |relocs| > 0 then RelocTable(relocs) else [];
    var wt := if wx > 0 then Bytes32(wx) else [];
    Append([], e);
    Append(e, p);
    Append(e + p, rp);
    Append(e + p + rp, wp);
    Append(e + p + rp + wp, rt);
    Append(e + p + rp + wp + rt, wt);
    Append(e + p + rp + wp + rt + wt, flat);
    assert [] + e == e;
    assert BuildElf(flat, relocs, wx) == e + p + rp + wp + rt + wt + flat;
  }

  /** The header that was built passes every check of the loader. */
  lemma EhdrReads(s: seq<byte>, phnum: nat)
    requires 1 <= phnum <= 3 && Part(s, 0, Ehdr(phnum)) && 52 + phnum * 32 <= |s|
    ensures CheckHeader(s) == Good(LOAD_ADDR, 52, phnum)
  {
    hide Word32, Bytes32, Word16, Bytes16;
    var e := Ehdr(phnum);
    assert e[0..16] == Ident() && e[16..18] == Bytes16(ET_EXEC) && e[18..20] == Bytes16(EM_386);
    assert e[24..28] == Bytes32(LOAD_ADDR) && e[28..32] == Bytes32(EHDR_SIZE) && e[44..46] == Bytes16(phnum);
    PartOf(s, 0, e, 0, Ident());
    PartOf(s, 0, e, 16, Bytes16(ET_EXEC));
    PartHalf(s, 16, ET_EXEC);
    PartOf(s, 0, e, 18, Bytes16(EM_386));
    PartHalf(s, 18, EM_386);
    PartOf(s, 0, e, 24, Bytes32(LOAD_ADDR));
    PartWord(s, 24, LOAD_ADDR);
    PartOf(s, 0, e, 28, Bytes32(EHDR_SIZE));
    PartWord(s, 28, EHDR_SIZE);
    PartOf(s, 0, e, 44, Bytes16(phnum));
    PartHalf(s, 44, phnum);
    var x := s[0..16];
    assert x[0] == s[0] && x[1] == s[1] && x[2] == s[2] && x[3] == s[3] && x[4] == s[4] && x[5] == s[5];
  }

  lemma PhdrReads(s: seq<byte>, a: nat, kind: u32, offset: u32, vaddr: u32, filesz: u32, flags: u32, align: u32)
    requires Part(s, a, MakePhdr(kind, offset, vaddr, filesz, flags, align))
    ensures PhdrAt(s, a) == Phdr(kind, offset, vaddr, filesz, filesz)
  {
    hide Word32, Bytes32;
    var p := MakePhdr(kind, offset, vaddr, filesz, flags, align);
    assert p[0..4] == Bytes32(kind) && p[4..8] == Bytes32(offset) && p[8..12] == Bytes32(vaddr);
    assert p[16..20] == Bytes32(filesz) && p[20..24] == Bytes32(filesz);
    PartOf(s, a, p, 0, Bytes32(kind));
    PartWord(s, a, kind);
    PartOf(s, a, p, 4, Bytes32(offset));
    PartWord(s, a + 4, offset);
    PartOf(s, a, p, 8, Bytes32(vaddr));
    PartWord(s, a + 8, vaddr);
    PartOf(s, a, p, 16, Bytes32(filesz));
    PartWord(s, a + 16, filesz);
    PartOf(s, a, p, 20, Bytes32(filesz));
    PartWord(s, a + 20, filesz);
  }

  lemma {:induction false} WordsAt(ws: seq<u32>, k: nat)
    requires k < |ws|
    ensures Words(ws)[4 * k..4 * k + 4] == Bytes32(ws[k])
  {
    if k < |ws| - 1 {
      WordsAt(ws[..|ws| - 1], k);
      assert Words(ws)[4 * k..4 * k + 4] == Words(ws[..|ws| - 1])[4 * k..4 * k + 4];
    }
  }

  lemma TableReads(s: seq<byte>, a: nat, relocs: seq<u32>)
    requires 0 < |relocs| < U32_LIMIT && Part(s, a, RelocTable(relocs))
    ensures Word32(s, a) == |relocs|
    ensures forall k :: 0 <= k < |relocs| ==> a + 4 + 4 * k + 4 <= |s| && Word32(s, a + 4 + 4 * k) == relocs[k]
  {
    hide Word32, Bytes32;
    var t := RelocTable(relocs);
    assert t[0..4] == Bytes32(|relocs|);
    PartOf(s, a, t, 0, Bytes32(|relocs|));
    PartWord(s, a, |relocs|);
    forall k | 0 <= k < |relocs|
      ensures a + 4 + 4 * k + 4 <= |s| && Word32(s, a + 4 + 4 * k) == relocs[k]
    {
      TableEntry(s, a, relocs, k);
    }
  }

  lemma TableEntry(s: seq<byte>, a: nat, relocs: seq<u32>, k: nat)
    requires k < |relocs| < U32_LIMIT && Part(s, a, RelocTable(relocs))
    ensures a + 4 + 4 * k + 4 <= |s| && Word32(s, a + 4 + 4 * k) == relocs[k]
  {
    hide Word32, Bytes32, Words;
    var t, ws := RelocTable(relocs), Words(relocs);
    WordsAt(relocs, k);
    assert t[4..] == ws;
    Subslice(t, 4, |ws|, 4 * k, 4 * k + 4);
    PartOf(s, a, t, 4 + 4 * k, Bytes32(relocs[k]));
    PartWord(s, a + 4 + 4 * k, relocs[k]);
  }

  // ----- what the two passes find

  /** The relocations are words of the image, and do not overlap. */
  predicate Relocations(relocs: seq<u32>, size: nat) {
    (forall k :: 0 <= k < |relocs| ==> relocs[k] as int + 4 <= size) &&
    forall j, k :: 0 <= j < k < |relocs| ==> relocs[j] as int + 4 <= relocs[k] || relocs[k] as int + 4 <= relocs[j]
  }

  function ScanBuilt(flat: seq<byte>, relocs: seq<u32>, wx: u32): Scan {
    Scan(if |relocs| > 0 then RelocOff(relocs, wx) else 0, |relocs|, |flat|, wx, true)
  }

  /** The headers of a built file, read back. */
  lemma PhdrsRead(flat: seq<byte>, relocs: seq<u32>, wx: u32)
    requires Buildable(flat, relocs, wx)
    ensures var s := BuildElf(flat, relocs, wx);
            PhdrNo(s, 52, 0) == Phdr(PT_LOAD, CodeOff(relocs, wx), LOAD_ADDR, |flat|, |flat|) &&
            (|relocs| > 0 ==>
              PhdrNo(s, 52, 1) == Phdr(PT_AXOS_RELOC, RelocOff(relocs, wx), 0, 4 + 4 * |relocs|, 4 + 4 * |relocs|)) &&
            (wx > 0 ==> PhdrNo(s, 52, PhNum(relocs, wx) - 1) == Phdr(PT_AXOS_WX, WxOff(relocs, wx), 0, 4, 4))
  {
    hide BuildElf, MakePhdr, PhdrAt, Ehdr;
    Layout(flat, relocs, wx);
    var s := BuildElf(flat, relocs, wx);
    PhdrReads(s, 52, PT_LOAD, CodeOff(relocs, wx), LOAD_ADDR, |flat|, 7, 0x1000);
    if |relocs| > 0 { PhdrReads(s, 84, PT_AXOS_RELOC, RelocOff(relocs, wx), 0, 4 + 4 * |relocs|, 0, 4); }
    if wx > 0 { PhdrReads(s, if |relocs| > 0 then 116 else 84, PT_AXOS_WX, WxOff(relocs, wx), 0, 4, 0, 4); }
  }

  lemma ScanReads(flat: seq<byte>, relocs: seq<u32>, wx: u32)
    requires Buildable(flat, relocs, wx)
    ensures ScanTo(BuildElf(flat, relocs, wx), 52, PhNum(relocs, wx), LOAD_ADDR) == ScanBuilt(flat, relocs, wx)
    ensures forall k :: 0 <= k < |relocs| ==>
            Offset(BuildElf(flat, relocs, wx), ScanBuilt(flat, relocs, wx), k) == relocs[k]
  {
    hide BuildElf, PhdrNo, RelocTable, Word32;
    var s := BuildElf(flat, relocs, wx);
    PhdrsRead(flat, relocs, wx);
    Layout(flat, relocs, wx);
    var st0 := Scan(0, 0, 0, 0, false);
    var st1 := ScanOne(s, st0, PhdrNo(s, 52, 0), LOAD_ADDR);
    assert ScanTo(s, 52, 1, LOAD_ADDR) == st1 == Scan(0, 0, |flat|, 0, true);
    if |relocs| > 0 {
      TableReads(s, RelocOff(relocs, wx), relocs);
      var st2 := ScanOne(s, st1, PhdrNo(s, 52, 1), LOAD_ADDR);
      assert ScanTo(s, 52, 2, LOAD_ADDR) == st2 == Scan(RelocOff(relocs, wx), |relocs|, |flat|, 0, true);
    }
    if wx > 0 {
      PartWord(s, WxOff(relocs, wx), wx);
      var n := PhNum(relocs, wx) - 1;
      assert ScanTo(s, 52, n + 1, LOAD_ADDR) == ScanOne(s, ScanTo(s, 52, n, LOAD_ADDR), PhdrNo(s, 52, n), LOAD_ADDR);
    }
  }

  lemma BuiltFits(flat: seq<byte>, relocs: seq<u32>, wx: u32, limit: nat)
    requires Buildable(flat, relocs, wx) && |flat| <= limit
    ensures AllFit(BuildElf(flat, relocs, wx), 52, PhNum(relocs, wx), LOAD_ADDR, limit)
  {
    hide BuildElf, PhdrNo;
    PhdrsRead(flat, relocs, wx);
  }

  lemma ContentReads(flat: seq<byte>, relocs: seq<u32>, wx: u32)
    requires Buildable(flat, relocs, wx)
    ensures Content(BuildElf(flat, relocs, wx), Phdr(PT_LOAD, CodeOff(relocs, wx), LOAD_ADDR, |flat|, |flat|)) == flat
  {
    hide BuildElf;
    Layout(flat, relocs, wx);
  }

  lemma CopyReads(flat: seq<byte>, relocs: seq<u32>, wx: u32, slot: seq<byte>, limit: nat, delta: nat)
    requires Buildable(flat, relocs, wx) && delta + |flat| <= limit <= |slot|
    ensures var s := BuildElf(flat, relocs, wx);
            Shifted(s, 52, PhNum(relocs, wx), LOAD_ADDR, limit, delta) &&
            CopyTo(s, slot, 52, PhNum(relocs, wx), LOAD_ADDR, delta, limit) ==
              Copied(Put(slot, delta, flat), delta + |flat|, true)
  {
    hide BuildElf, PhdrNo, Put, Content;
    var s := BuildElf(flat, relocs, wx);
    PhdrsRead(flat, relocs, wx);
    ContentReads(flat, relocs, wx);
    BuiltFits(flat, relocs, wx, limit);
    var ph := PhdrNo(s, 52, 0);
    assert CopyTo(s, slot, 52, 1, LOAD_ADDR, delta, limit) ==
           CopyOne(s, Copied(slot, 0, true), ph, LOAD_ADDR, delta, limit);
    if PhNum(relocs, wx) > 1 {
      assert CopyTo(s, slot, 52, 2, LOAD_ADDR, delta, limit) == CopyTo(s, slot, 52, 1, LOAD_ADDR, delta, limit);
    }
  }

  // ----- the relocated image

  predicate Covered(relocs: seq<u32>, n: nat, i: int)
    requires n <= |relocs|
  {
    exists k :: 0 <= k < n && relocs[k] <= i < relocs[k] as int + 4
  }

  /** `image` is `flat` with each relocated word moved by `delta`. */
  predicate Moved(flat: seq<byte>, relocs: seq<u32>, delta: nat, image: seq<byte>)
    requires Relocations(relocs, |flat|)
  {
    |image| == |flat| &&
    (forall k :: 0 <= k < |relocs| ==> Word32(image, relocs[k]) == (Word32(flat, relocs[k]) + delta) % U32_LIMIT) &&
    forall i :: 0 <= i < |flat| && !Covered(relocs, |relocs|, i) ==> image[i] == flat[i]
  }

  lemma AddWordFacts(m: seq<byte>, a: nat, d: nat)
    requires a + 4 <= |m|
    ensures SameOutside(m, AddWord(m, a, d), a, a + 4)
    ensures Word32(AddWord(m, a, d), a) == (Word32(m, a) + d) % U32_LIMIT
  {
    hide Word32, Bytes32;
    var w := (Word32(m, a) + d) % U32_LIMIT;
    PutFacts(m, a, Bytes32(w));
    PartWord(AddWord(m, a, d), a, w);
  }

  lemma WordSame(m: seq<byte>, m': seq<byte>, lo: nat, hi: nat, a: nat)
    requires SameOutside(m, m', lo, hi) && a + 4 <= |m| && (a + 4 <= lo || hi <= a)
    ensures Word32(m', a) == Word32(m, a)
  {
  }

  /** The state after `n` patches of an image at `delta`. */
  ghost predicate Patched(m: seq<byte>, m': seq<byte>, relocs: seq<u32>, n: nat, delta: nat, size: nat)
    requires n <= |relocs| && Relocations(relocs, size) && delta + size <= |m|
  {
    |m'| == |m| &&
    (forall k :: 0 <= k < n ==> Word32(m', delta + relocs[k]) == (Word32(m, delta + relocs[k]) + delta) % U32_LIMIT) &&
    forall i :: 0 <= i < |m| && !Covered(relocs, n, i - delta) ==> m'[i] == m[i]
  }

  lemma PatchStep(m: seq<byte>, m1: seq<byte>, relocs: seq<u32>, n: nat, delta: nat, size: nat)
    requires n < |relocs| && Relocations(relocs, size) && delta + size <= |m| && Patched(m, m1, relocs, n, delta, size)
    ensures Patched(m, AddWord(m1, delta + relocs[n], delta), relocs, n + 1, delta, size)
  {
    hide Word32, AddWord;
    var a := delta + relocs[n];
    var m2 := AddWord(m1, a, delta);
    AddWordFacts(m1, a, delta);
    assert Word32(m1, a) == Word32(m, a) by { Uncovered(m, m1, relocs, n, delta, size); }
    forall k | 0 <= k < n
      ensures Word32(m2, delta + relocs[k]) == (Word32(m, delta + relocs[k]) + delta) % U32_LIMIT
    {
      WordSame(m1, m2, a, a + 4, delta + relocs[k]);
    }
    forall i | 0 <= i < |m| && !Covered(relocs, n + 1, i - delta)
      ensures m2[i] == m[i]
    {
      assert !Covered(relocs, n, i - delta);
      assert !(relocs[n] <= i - delta < relocs[n] as int + 4);
    }
  }

  lemma Uncovered(m: seq<byte>, m1: seq<byte>, relocs: seq<u32>, n: nat, delta: nat, size: nat)
    requires n < |relocs| && Relocations(relocs, size) && delta + size <= |m| && Patched(m, m1, relocs, n, delta, size)
    ensures Word32(m1, delta + relocs[n]) == Word32(m, delta + relocs[n])
  {
    var a := delta + relocs[n];
    UncoveredByte(m, m1, relocs, n, delta, size, a);
    UncoveredByte(m, m1, relocs, n, delta, size, a + 1);
    UncoveredByte(m, m1, relocs, n, delta, size, a + 2);
    UncoveredByte(m, m1, relocs, n, delta, size, a + 3);
  }

  lemma UncoveredByte(m: seq<byte>, m1: seq<byte>, relocs: seq<u32>, n: nat, delta: nat, size: nat, i: nat)
    requires n < |relocs| && Relocations(relocs, size) && delta + size <= |m| && Patched(m, m1, relocs, n, delta, size)
    requires delta + relocs[n] <= i < delta + relocs[n] as int + 4
    ensures i < |m| == |m1| && m1[i] == m[i]
  {
    assert !Covered(relocs, n, i - delta);
  }

  lemma RelocationInside(relocs: seq<u32>, k: nat, size: nat)
    requires Relocations(relocs, size) && k < |relocs|
    ensures relocs[k] as int + 4 <= size
  {
  }

  lemma UnpatchedYet(m: seq<byte>, relocs: seq<u32>, delta: nat, size: nat)
    requires Relocations(relocs, size) && delta + size <= |m|
    ensures Patched(m, m, relocs, 0, delta, size)
  {
  }

  lemma {:induction false} PatchedAll(s: seq<byte>, m: seq<byte>, st: Scan, relocs: seq<u32>, n: nat, delta: nat)
    requires TableInFile(s, st) && n <= |relocs| == st.count && delta + st.codeEnd <= |m| && 0 <= st.codeEnd
    requires Relocations(relocs, st.codeEnd) && forall k :: 0 <= k < |relocs| ==> Offset(s, st, k) == relocs[k]
    ensures Patched(m, PatchTo(s, m, st, n, delta), relocs, n, delta, st.codeEnd)
  {
    hide Offset, AddWord, Patched, Relocations;
    if n > 0 {
      RelocationInside(relocs, n - 1, st.codeEnd);
      PatchedAll(s, m, st, relocs, n - 1, delta);
      PatchStep(m, PatchTo(s, m, st, n - 1, delta), relocs, n - 1, delta, st.codeEnd);
    } else {
      UnpatchedYet(m, relocs, delta, st.codeEnd);
    }
  }

  /** The slot holds the moved image at `delta`, and is unchanged elsewhere. */
  ghost predicate HoldsMoved(slot: seq<byte>, m: seq<byte>, flat: seq<byte>, relocs: seq<u32>, delta: nat)
    requires Relocations(relocs, |flat|)
  {
    delta + |flat| <= |slot| && SameOutside(slot, m, delta, delta + |flat|) && |m| == |slot| &&
    Moved(flat, relocs, delta, m[delta..delta + |flat|])
  }

  lemma MovedImage(slot: seq<byte>, flat: seq<byte>, relocs: seq<u32>, delta: nat, m': seq<byte>)
    requires delta + |flat| <= |slot| && Relocations(relocs, |flat|)
    requires Patched(Put(slot, delta, flat), m', relocs, |relocs|, delta, |flat|)
    ensures HoldsMoved(slot, m', flat, relocs, delta)
  {
    hide Word32;
    var m := Put(slot, delta, flat);
    var image := m'[delta..delta + |flat|];
    PutFacts(slot, delta, flat);
    forall k | 0 <= k < |relocs|
      ensures Word32(image, relocs[k]) == (Word32(flat, relocs[k]) + delta) % U32_LIMIT
    {
      Subslice(m', delta, |flat|, relocs[k], relocs[k] as int + 4);
      Word32Local(image, relocs[k], m', delta + relocs[k]);
      Subslice(m, delta, |flat|, relocs[k], relocs[k] as int + 4);
      Word32Local(flat, relocs[k], m, delta + relocs[k]);
    }
    forall i | 0 <= i < |flat| && !Covered(relocs, |relocs|, i)
      ensures image[i] == flat[i]
    {
      assert m[delta..delta + |flat|][i] == m[delta + i];
      assert (delta + i) - delta == i;
    }
    forall i | 0 <= i < |slot| && (i < delta || delta + |flat| <= i)
      ensures m'[i] == slot[i]
    {
      assert !Covered(relocs, |relocs|, i - delta);
    }
  }

  /** For every image that fits, any relocations inside it and any random number:
      the file loads, the slot holds the moved image at `delta` and is unchanged
      elsewhere, and the entry point moves along. */
  lemma LoadInvertsBuild(flat: seq<byte>, relocs: seq<u32>, wx: u32, slot: seq<byte>, limit: nat, random: u32)
    requires Buildable(flat, relocs, wx) && flat != [] && |flat| <= limit <= |slot| && LOAD_ADDR + limit < U32_LIMIT
    requires Relocations(relocs, |flat|)
    ensures var o := Load(BuildElf(flat, relocs, wx), slot, LOAD_ADDR, limit, random);
            var delta := Delta(ScanBuilt(flat, relocs, wx), limit, random);
            0 <= delta <= limit - |flat| &&
              o.result == Loaded(LOAD_ADDR + delta, RoundUp16(delta + |flat|), delta, wx) &&
            HoldsMoved(slot, o.slot, flat, relocs, delta)
  {
    hide BuildElf, HoldsMoved, Put, Delta, Finish, CopyTo, ScanTo, CheckHeader, AllFit, Offset;
    var s := BuildElf(flat, relocs, wx);
    var st := ScanBuilt(flat, relocs, wx);
    var delta := Delta(st, limit, random);
    Layout(flat, relocs, wx);
    EhdrReads(s, PhNum(relocs, wx));
    BuiltFits(flat, relocs, wx, limit);
    ScanReads(flat, relocs, wx);
    DeltaFits(st, limit, random);
    CopyReads(flat, relocs, wx, slot, limit, delta);
    FinishMoves(s, slot, flat, relocs, st, delta);
  }

  /** Copying, relocating and the check of the entry, on what the passes have read. */
  lemma FinishMoves(s: seq<byte>, slot: seq<byte>, flat: seq<byte>, relocs: seq<u32>, st: Scan, delta: nat)
    requires TableInFile(s, st) && st.count == |relocs| && st.codeEnd == |flat| > 0 && Relocations(relocs, |flat|)
    requires forall k :: 0 <= k < |relocs| ==> Offset(s, st, k) == relocs[k]
    requires delta + |flat| <= |slot| && LOAD_ADDR + delta + |flat| < U32_LIMIT
    ensures var o := Finish(s, Copied(Put(slot, delta, flat), delta + |flat|, true), st, LOAD_ADDR, delta, LOAD_ADDR);
            o.result == Loaded(LOAD_ADDR + delta, RoundUp16(delta + |flat|), delta, st.wx) &&
            HoldsMoved(slot, o.slot, flat, relocs, delta)
  {
    hide Patched, HoldsMoved, Put, PatchTo, Offset;
    var m := Put(slot, delta, flat);
    PatchedAll(s, m, st, relocs, |relocs|, delta);
    if delta == 0 { UnmovedPatched(m, relocs, |flat|); }
    MovedImage(slot, flat, relocs, delta, if delta > 0 then PatchTo(s, m, st, st.count, delta) else m);
  }

  /** Moving by nothing changes nothing. */
  lemma UnmovedPatched(m: seq<byte>, relocs: seq<u32>, size: nat)
    requires Relocations(relocs, size) && size <= |m|
    ensures Patched(m, m, relocs, |relocs|, 0, size)
  {
  }
}
