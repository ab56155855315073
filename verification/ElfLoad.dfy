/** elf_load of src/kernel/elf.c: two passes over the program headers, and the
    relocations, into the memory slot of the task. */
module ElfLoad {
  import opened Arith
  import opened Bytes
  import opened Memory
  import opened ElfFormat

  /** The slot after a call, and its result. `end` is rounded up to 16 bytes. */
  datatype Result = Loaded(entry: u32, end: nat, delta: nat, wx: u32) | Failed(error: Error)
  datatype Outcome = Outcome(result: Result, slot: seq<byte>)

  /** A segment's bytes, followed by zeros up to its size in memory. */
  function Content(s: seq<byte>, ph: Phdr): (c: seq<byte>)
    requires ph.offset + ph.filesz <= |s| && ph.filesz <= ph.memsz
    ensures |c| == ph.memsz
  {
    s[ph.offset..ph.offset + ph.filesz] + ZeroBytes(ph.memsz - ph.filesz)
  }

  /** Loading the segments; it stops at one that the file does not hold. */
  datatype Copied = Copied(slot: seq<byte>, end: nat, complete: bool)

  predicate Shifted(s: seq<byte>, phoff: nat, n: nat, base: u32, limit: nat, delta: nat)
    requires phoff + n * PHDR_SIZE <= |s|
  {
    AllFit(s, phoff, n, base, limit) &&
    forall i :: 0 <= i < n && PhdrNo(s, phoff, i).kind == PT_LOAD ==>
                  PhdrNo(s, phoff, i).vaddr - base + delta + PhdrNo(s, phoff, i).memsz <= limit
  }

  function CopyOne(s: seq<byte>, c: Copied, ph: Phdr, base: u32, delta: nat, limit: nat): (r: Copied)
    requires limit <= |c.slot|
    requires ph.kind == PT_LOAD ==> SegmentFits(ph, base, limit) && ph.vaddr - base + delta + ph.memsz <= limit
    ensures |r.slot| == |c.slot|
  {
    if !c.complete || ph.kind != PT_LOAD then c
    else if ph.offset > |s| || ph.filesz > |s| - ph.offset then c.(complete := false)
    else
      var at := ph.vaddr - base + delta;
      Copied(Put(c.slot, at, Content(s, ph)), Max(c.end, at + ph.memsz), true)
  }

  function CopyTo(s: seq<byte>, slot: seq<byte>, phoff: nat, n: nat, base: u32, delta: nat, limit: nat): (r: Copied)
    requires phoff + n * PHDR_SIZE <= |s| && Shifted(s, phoff, n, base, limit, delta) && limit <= |slot|
    ensures |r.slot| == |slot|
  {
    if n == 0 then Copied(slot, 0, true)
    else CopyOne(s, CopyTo(s, slot, phoff, n - 1, base, delta, limit), PhdrNo(s, phoff, n - 1), base, delta, limit)
  }

  /** Entry k of the relocation table. */
  function Offset(s: seq<byte>, st: Scan, k: nat): u32
    requires st.reloc + 4 + 4 * k + 4 <= |s|
  {
    Word32(s, st.reloc + 4 + 4 * k)
  }

  /** No entry is so large that adding 4 to it wraps around. */
  predicate OffsetsPlain(s: seq<byte>, st: Scan)
    requires TableInFile(s, st)
  {
    forall k :: 0 <= k < st.count ==> Offset(s, st, k) + 4 < U32_LIMIT
  }

  /** The guard of the loader on an entry means that the word is inside the image,
      unless the sum wraps. */
  lemma GuardExact(off: u32, codeEnd: nat)
    requires codeEnd < U32_LIMIT
    ensures (off + 4) % U32_LIMIT <= codeEnd <==> off + 4 <= codeEnd || 0 <= off + 4 - U32_LIMIT <= codeEnd
  {
  }

  function AddWord(m: seq<byte>, a: nat, d: nat): (r: seq<byte>)
    requires a + 4 <= |m|
    ensures |r| == |m|
  {
    Put(m, a, Bytes32((Word32(m, a) + d) % U32_LIMIT))
  }

  function PatchOne(m: seq<byte>, off: u32, delta: nat, codeEnd: nat): (r: seq<byte>)
    requires delta + codeEnd <= |m|
    ensures |r| == |m|
  {
    if off + 4 <= codeEnd then AddWord(m, delta + off, delta) else m
  }

  /** The first `n` relocations. */
  function PatchTo(s: seq<byte>, m: seq<byte>, st: Scan, n: nat, delta: nat): (r: seq<byte>)
    requires TableInFile(s, st) && n <= st.count && delta + st.codeEnd <= |m|
    ensures |r| == |m|
  {
    if n == 0 then m else PatchOne(PatchTo(s, m, st, n - 1, delta), Offset(s, st, n - 1), delta, st.codeEnd)
  }

  function RoundUp16(n: nat): nat {
    (n + 15) / 16 * 16
  }

  lemma ShiftedByDelta(s: seq<byte>, phoff: nat, n: nat, base: u32, limit: nat, random: u32)
    requires phoff + n * PHDR_SIZE <= |s| && AllFit(s, phoff, n, base, limit)
    ensures var st := ScanTo(s, phoff, n, base);
            0 <= st.codeEnd && 0 <= Delta(st, limit, random) && Delta(st, limit, random) + st.codeEnd <= limit &&
            Shifted(s, phoff, n, base, limit, Delta(st, limit, random))
  {
    CodeEndFits(s, phoff, n, base, limit);
    DeltaFits(ScanTo(s, phoff, n, base), limit, random);
  }

  /** After both passes. */
  function Finish(s: seq<byte>, c: Copied, st: Scan, entry: u32, delta: nat, base: u32): Outcome
    requires TableInFile(s, st) && delta + st.codeEnd <= |c.slot|
  {
    if !c.complete then Outcome(Failed(Truncated), c.slot)
    else
      var slot := if delta > 0 then PatchTo(s, c.slot, st, st.count, delta) else c.slot;
      var entryD := (entry + delta) % U32_LIMIT;
      if entryD < base || entryD - base >= c.end then Outcome(Failed(Bounds), slot)
      else Outcome(Loaded(entryD, RoundUp16(c.end), delta, st.wx), slot)
  }

  function Load(s: seq<byte>, slot: seq<byte>, base: u32, limit: nat, random: u32): Outcome
    requires limit <= |slot|
  {
    match CheckHeader(s)
    case Bad(e) => Outcome(Failed(e), slot)
    case Good(entry, phoff, phnum) =>
      if !AllFit(s, phoff, phnum, base, limit) then Outcome(Failed(Bounds), slot)
      else
        var st := ScanTo(s, phoff, phnum, base);
        if !st.found then Outcome(Failed(NotLoad), slot)
        else
          ShiftedByDelta(s, phoff, phnum, base, limit, random);
          var delta := Delta(st, limit, random);
          Finish(s, CopyTo(s, slot, phoff, phnum, base, delta, limit), st, entry, delta, base)
  }

  // ----- the loops

  /** First pass; false when a segment does not fit. */
  method ScanHeaders(file: array<byte>, size: nat, phoff: nat, phnum: nat, base: u32, limit: nat)
        returns (ok: bool, st: Scan)
    requires size <= file.Length && phoff + phnum * PHDR_SIZE <= size
    ensures ok <==> AllFit(file[..size], phoff, phnum, base, limit)
    ensures ok ==> st == ScanTo(file[..size], phoff, phnum, base)
  {
    st := Scan(0, 0, 0, 0, false);
    for i := 0 to phnum
      invariant AllFit(file[..size], phoff, i, base, limit) && st == ScanTo(file[..size], phoff, i, base)
    {
      var ph := PhdrNo(file[..size], phoff, i);
      if ph.kind == PT_LOAD && !SegmentFits(ph, base, limit) { return false, st; }
      st := ScanOne(file[..size], st, ph, base);
    }
    ok := true;
  }

  /** Copies one segment and clears what follows its bytes. */
  method CopySegment(file: array<byte>, slot: array<byte>, ph: Phdr, at: nat)
    requires file != slot && ph.offset + ph.filesz <= file.Length && ph.filesz <= ph.memsz &&
             at + ph.memsz <= slot.Length
    modifies slot
    ensures slot[..] == Put(old(slot[..]), at, Content(file[..], ph))
  {
    for b := 0 to ph.filesz
      invariant forall k :: 0 <= k < slot.Length ==>
                              slot[k] == if at <= k < at + b then file[ph.offset + (k - at)] else old(slot[..])[k]
    {
      slot[at + b] := file[ph.offset + b];
    }
    for b := ph.filesz to ph.memsz
      invariant forall k :: 0 <= k < slot.Length ==>
                              slot[k] == if at <= k < at + ph.filesz then file[ph.offset + (k - at)]
                                         else if at + ph.filesz <= k < at + b then 0 else old(slot[..])[k]
    {
      slot[at + b] := 0;
    }
  }

  /** Second pass. The bounds check on the shifted segment never fires. */
  method CopySegments(file: array<byte>, size: nat, slot: array<byte>, phoff: nat, phnum: nat, base: u32, limit: nat,
        delta: nat)
    returns (complete: bool, end: nat)
    requires file != slot && size <= file.Length && phoff + phnum * PHDR_SIZE <= size && limit <= slot.Length
    requires Shifted(file[..size], phoff, phnum, base, limit, delta)
    modifies slot
    ensures Copied(slot[..], end, complete) == CopyTo(file[..size], old(slot[..]), phoff, phnum, base, delta, limit)
  {
    hide Content, Put;
    end := 0;
    for i := 0 to phnum
      invariant Copied(slot[..], end, true) == CopyTo(file[..size], old(slot[..]), phoff, i, base, delta, limit)
    {
      var ph := PhdrNo(file[..size], phoff, i);
      if ph.kind == PT_LOAD {
        if ph.offset > size || ph.filesz > size - ph.offset {
          CutShort(file[..size], old(slot[..]), phoff, i + 1, phnum, base, delta, limit);
          return false, end;
        }
        var at := ph.vaddr - base + delta;
        if at > limit || ph.memsz > limit - at { assert false; }
        SameContent(file[..], file[..size], ph);
        CopySegment(file, slot, ph, at);
        if at + ph.memsz > end { end := at + ph.memsz; }
      }
    }
    complete := true;
  }

  lemma SameContent(s: seq<byte>, t: seq<byte>, ph: Phdr)
    requires |t| <= |s| && t == s[..|t|] && ph.offset + ph.filesz <= |t| && ph.filesz <= ph.memsz
    ensures Content(s, ph) == Content(t, ph)
  {
  }

  lemma {:induction false} CutShort(s: seq<byte>, slot: seq<byte>, phoff: nat, i: nat, n: nat, base: u32, delta: nat,
        limit: nat)
    requires i <= n && phoff + n * PHDR_SIZE <= |s| && Shifted(s, phoff, n, base, limit, delta) && limit <= |slot|
    requires !CopyTo(s, slot, phoff, i, base, delta, limit).complete
    ensures CopyTo(s, slot, phoff, n, base, delta, limit) == CopyTo(s, slot, phoff, i, base, delta, limit)
  {
    if i < n { CutShort(s, slot, phoff, i, n - 1, base, delta, limit); }
  }

  method AddToWord(slot: array<byte>, a: nat, d: nat)
    requires a + 4 <= slot.Length
    modifies slot
    ensures slot[..] == AddWord(old(slot[..]), a, d)
  {
    var w := Bytes32((Word32(slot[..], a) + d) % U32_LIMIT);
    slot[a], slot[a + 1], slot[a + 2], slot[a + 3] := w[0], w[1], w[2], w[3];
  }

  method ApplyRelocations(file: array<byte>, size: nat, slot: array<byte>, st: Scan, delta: nat)
    requires file != slot && size <= file.Length && TableInFile(file[..size], st) && OffsetsPlain(file[..size], st)
    requires delta + st.codeEnd <= slot.Length && st.codeEnd < U32_LIMIT
    modifies slot
    ensures slot[..] == PatchTo(file[..size], old(slot[..]), st, st.count, delta)
  {
    hide AddWord;
    for i := 0 to st.count
      invariant slot[..] == PatchTo(file[..size], old(slot[..]), st, i, delta)
    {
      var off := Offset(file[..size], st, i);
      GuardExact(off, st.codeEnd);
      if (off + 4) % U32_LIMIT <= st.codeEnd {
        AddToWord(slot, delta + off, delta);
      }
    }
  }

  /** elf_load. `random` is what the kernel's generator yields. */
  method ElfLoad(file: array<byte>, size: nat, slot: array<byte>, base: u32, limit: nat, random: u32)
        returns (r: Result)
    requires file != slot && size <= file.Length && limit <= slot.Length && limit < U32_LIMIT
    requires var s := file[..size];
             match CheckHeader(s)
             case Bad(_) => true
             case Good(_, phoff, phnum) => OffsetsPlain(s, ScanTo(s, phoff, phnum, base))
    modifies slot
    ensures Outcome(r, slot[..]) == Load(file[..size], old(slot[..]), base, limit, random)
  {
    hide ScanTo, CopyTo, PatchTo, AllFit, Shifted, Delta, OffsetsPlain, CheckHeader, TableInFile;
    ghost var s := file[..size];
    var h := CheckHeader(file[..size]);
    if h.Bad? { return Failed(h.error); }
    var ok, st := ScanHeaders(file, size, h.phoff, h.phnum, base, limit);
    if !ok { return Failed(Bounds); }
    if !st.found { return Failed(NotLoad); }
    ShiftedByDelta(s, h.phoff, h.phnum, base, limit, random);
    var delta := Delta(st, limit, random);
    var complete, end := CopySegments(file, size, slot, h.phoff, h.phnum, base, limit, delta);
    if !complete { return Failed(Truncated); }
    if delta > 0 { ApplyRelocations(file, size, slot, st, delta); }
    var entry := (h.entry + delta) % U32_LIMIT;
    if entry < base || entry - base >= end { return Failed(Bounds); }
    return Loaded(entry, RoundUp16(end), delta, st.wx);
  }
}
