/** The program files of src/kernel/elf.c and tools/make_elf.py: what the loader
    reads from a file, and the load offset it chooses. */
module ElfFormat {
  import opened Arith
  import opened Bytes

  const EHDR_SIZE: nat := 52
  const PHDR_SIZE: nat := 32
  const MAX_PHNUM: nat := 5
  const PT_LOAD: u32 := 1
  const PT_AXOS_RELOC: u32 := 0x6A584953
  const PT_AXOS_WX: u32 := 0x6A584955
  const ET_EXEC: u16 := 2
  const EM_386: u16 := 3
  const PAGE: nat := 0x1000
  const MIN_HEAP: nat := 0x5000

  datatype Error = Truncated | BadMagic | BadClass | BadData | BadType | BadMachine | BadPhnum | Bounds | NotLoad

  /** The fields of a program header that the loader looks at. */
  datatype Phdr = Phdr(kind: u32, offset: u32, vaddr: u32, filesz: u32, memsz: u32)

  function PhdrAt(s: seq<byte>, a: nat): Phdr
    requires a + PHDR_SIZE <= |s|
  {
    Phdr(Word32(s, a), Word32(s, a + 4), Word32(s, a + 8), Word32(s, a + 16), Word32(s, a + 20))
  }

  /** The checks on the file header, in the loader's order. */
  datatype HeaderCheck = Good(entry: u32, phoff: u32, phnum: nat) | Bad(error: Error)

  function CheckHeader(s: seq<byte>): (r: HeaderCheck)
    ensures r.Good? ==> 0 < r.phnum <= MAX_PHNUM && r.phoff + r.phnum * PHDR_SIZE <= |s|
  {
    if |s| < EHDR_SIZE then Bad(Truncated)
    else if s[0] != 0x7F || s[1] != 0x45 || s[2] != 0x4C || s[3] != 0x46 then Bad(BadMagic)
    else if s[4] != 1 then Bad(BadClass)
    else if s[5] != 1 then Bad(BadData)
    else if Word16(s, 16) != ET_EXEC then Bad(BadType)
    else if Word16(s, 18) != EM_386 then Bad(BadMachine)
    else
      var phnum := Word16(s, 44);
      var phoff := Word32(s, 28);
      if phnum == 0 || phnum > MAX_PHNUM then Bad(BadPhnum)
      else if phoff > |s| || phnum * PHDR_SIZE > |s| - phoff then Bad(Truncated)
      else Good(Word32(s, 24), phoff, phnum)
  }

  /** What the first pass has found. `reloc` is the offset of the relocation table. */
  datatype Scan = Scan(reloc: nat, count: nat, codeEnd: nat, wx: u32, found: bool)

  /** A table segment lies in the file and has at least one word. */
  predicate InFile(s: seq<byte>, ph: Phdr) {
    ph.offset <= |s| && ph.filesz >= 4 && ph.filesz <= |s| - ph.offset
  }

  predicate SegmentFits(ph: Phdr, base: u32, limit: nat) {
    ph.memsz >= ph.filesz && ph.vaddr >= base && ph.vaddr - base <= limit && ph.memsz <= limit - (ph.vaddr - base)
  }

  predicate TableInFile(s: seq<byte>, st: Scan) {
    st.count > 0 ==> st.reloc + 4 + 4 * st.count <= |s|
  }

  /** One program header in the first pass; a segment that does not fit stops it. */
  function ScanOne(s: seq<byte>, st: Scan, ph: Phdr, base: u32): (r: Scan)
    requires TableInFile(s, st)
    ensures TableInFile(s, r)
    ensures st.codeEnd <= r.codeEnd && (ph.kind == PT_LOAD && ph.vaddr >= base ==>
            ph.vaddr - base + ph.memsz <= r.codeEnd)
  {
    if ph.kind == PT_AXOS_RELOC then
      if InFile(s, ph) then
        var count := Word32(s, ph.offset);
        st.(reloc := ph.offset, count := if count > (ph.filesz - 4) / 4 then 0 else count)
      else st
    else if ph.kind == PT_AXOS_WX then
      if InFile(s, ph) then st.(wx := Word32(s, ph.offset)) else st
    else if ph.kind != PT_LOAD || ph.vaddr < base then st
    else st.(codeEnd := Max(st.codeEnd, ph.vaddr - base + ph.memsz), found := true)
  }

  function PhdrNo(s: seq<byte>, phoff: nat, i: nat): Phdr
    requires phoff + i * PHDR_SIZE + PHDR_SIZE <= |s|
  {
    PhdrAt(s, phoff + i * PHDR_SIZE)
  }

  /** The first `n` program headers have no loadable segment that does not fit. */
  predicate AllFit(s: seq<byte>, phoff: nat, n: nat, base: u32, limit: nat)
    requires phoff + n * PHDR_SIZE <= |s|
  {
    forall i :: 0 <= i < n ==> PhdrNo(s, phoff, i).kind == PT_LOAD ==> SegmentFits(PhdrNo(s, phoff, i), base, limit)
  }

  function ScanTo(s: seq<byte>, phoff: nat, n: nat, base: u32): (st: Scan)
    requires phoff + n * PHDR_SIZE <= |s|
    ensures TableInFile(s, st)
    ensures forall i :: 0 <= i < n && PhdrNo(s, phoff, i).kind == PT_LOAD && PhdrNo(s, phoff, i).vaddr >= base ==>
                          PhdrNo(s, phoff, i).vaddr - base + PhdrNo(s, phoff, i).memsz <= st.codeEnd
  {
    if n == 0 then Scan(0, 0, 0, 0, false)
    else ScanOne(s, ScanTo(s, phoff, n - 1, base), PhdrNo(s, phoff, n - 1), base)
  }

  lemma {:induction false} CodeEndFits(s: seq<byte>, phoff: nat, n: nat, base: u32, limit: nat)
    requires phoff + n * PHDR_SIZE <= |s| && AllFit(s, phoff, n, base, limit)
    ensures 0 <= ScanTo(s, phoff, n, base).codeEnd <= limit
  {
    if n > 0 {
      CodeEndFits(s, phoff, n - 1, base, limit);
    }
  }

  /** What must be added to bring the boundary to a page boundary. */
  function Fix(wx: u32): (r: nat)
    ensures (r + wx) % PAGE == 0 && r < PAGE
  {
    if wx > 0 && wx % PAGE != 0 then PAGE - wx % PAGE else 0
  }

  /** The random load offset: zero without relocations or without room. */
  function Delta(st: Scan, limit: nat, random: u32): int {
    if st.count > 0 && st.codeEnd < limit then
      var fix := Fix(st.wx);
      var available := limit - st.codeEnd;
      if available > fix then
        var usable := if available - fix > MIN_HEAP then available - fix - MIN_HEAP else 0;
        var slots := usable / PAGE;
        fix + (if slots > 0 then random % slots * PAGE else 0)
      else 0
    else 0
  }

  lemma SlotsFit(usable: nat, random: nat)
    requires usable / PAGE > 0
    ensures 0 <= random % (usable / PAGE) * PAGE <= usable - PAGE
  {
    var slots := usable / PAGE;
    assert random % slots <= slots - 1;
    assert random % slots * PAGE <= (slots - 1) * PAGE;
  }

  /** The shifted image still fits: the bounds check of the second pass never fires. */
  lemma DeltaFits(st: Scan, limit: nat, random: u32)
    requires 0 <= st.codeEnd <= limit
    ensures 0 <= Delta(st, limit, random) <= limit - st.codeEnd
  {
    if st.count > 0 && st.codeEnd < limit {
      var fix := Fix(st.wx);
      var available := limit - st.codeEnd;
      if available > fix && available - fix > MIN_HEAP && (available - fix - MIN_HEAP) / PAGE > 0 {
        SlotsFit(available - fix - MIN_HEAP, random);
      }
    }
  }

  /** The loader can bring the boundary to a page boundary: it is there already, or
      there are relocations and room for the shift. */
  predicate CanAlign(st: Scan, limit: nat) {
    st.wx % PAGE == 0 || (st.count > 0 && st.codeEnd < limit && limit - st.codeEnd > PAGE - st.wx % PAGE)
  }

  /** After the shift the boundary between code and data is a page boundary exactly
      when the loader could align it; else nothing is shifted. */
  lemma DeltaAligns(st: Scan, limit: nat, random: u32)
    ensures (Delta(st, limit, random) + st.wx) % PAGE == 0 <==> CanAlign(st, limit)
    ensures !CanAlign(st, limit) ==> Delta(st, limit, random) == 0
    ensures Delta(st, limit, random) != 0 ==> CanAlign(st, limit)
  {
    if CanAlign(st, limit) && Delta(st, limit, random) != 0 {
      var k := DeltaPages(st, limit, random);
      Shift(Fix(st.wx) + st.wx, k);
    }
  }

  /** A program without relocations whose boundary is inside a page stays that way. */
  lemma UnshiftedMisaligned(random: u32)
    ensures var st := Scan(0, 0, 0x1000, 0x800, true);
            Delta(st, 0xF800, random) == 0 && (Delta(st, 0xF800, random) + st.wx) % PAGE != 0
  {
    DeltaAligns(Scan(0, 0, 0x1000, 0x800, true), 0xF800, random);
  }

  /** A shift is what aligns the boundary, plus whole pages. */
  lemma DeltaPages(st: Scan, limit: nat, random: u32) returns (k: nat)
    ensures Delta(st, limit, random) == 0 || Delta(st, limit, random) == Fix(st.wx) + k * PAGE
  {
    var room := limit - st.codeEnd - Fix(st.wx);
    var slots := if room > MIN_HEAP then (room - MIN_HEAP) / PAGE else 0;
    k := if slots > 0 then random % slots else 0;
  }

  lemma Shift(a: int, k: int)
    ensures (a + k * PAGE) % PAGE == a % PAGE
  {
  }
}
