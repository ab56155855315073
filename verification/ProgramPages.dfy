/** A loaded program under its page tables: when the boundary that elf_load reports,
    shifted with the program, is one that pages can follow. */
module ProgramPages {
  import opened Bytes
  import ElfFormat
  import opened PageWalk
  import opened Paging

  const LIMIT: nat := 0xF800    // USER_ARGS_OFFSET

  /** Every byte of the window before `start` can be executed, and every byte behind
      it written. */
  ghost predicate Splits(m: Words, cr3: nat, start: nat) {
    forall x :: 0 <= x < WINDOW_PAGES * PAGE_SIZE ==>
      var a := Walk(m, cr3, FIRST_WINDOW_PAGE + x / PAGE_SIZE);
      a.Access? && if x < start then !a.xd else a.rw
  }

  /** A program with a boundary splits into executable code and writable data exactly
      when the shifted boundary does not wrap around, and the loader could align it or
      it is in the last page. A boundary inside the image never wraps. */
  lemma ProgramSplits(m: Words, cfg: Config, slot: nat, slotPage: nat, st: ElfFormat.Scan, random: u32, delta: u32)
    requires cfg.nx && Zoned(cfg) && st.wx > 0 && 0 <= st.codeEnd <= LIMIT &&
             delta == ElfFormat.Delta(st, LIMIT, random)
    requires TaskTables(m, cfg, slot, slotPage, BoundaryOf(delta, st.wx))
    ensures Splits(m, PoolTables(cfg, slot).pml4, delta + st.wx) <==>
            delta + st.wx < U32_LIMIT && (ElfFormat.CanAlign(st, LIMIT) || st.wx >= (WINDOW_PAGES - 1) * PAGE_SIZE)
    ensures st.wx <= st.codeEnd ==> delta + st.wx < U32_LIMIT
    ensures delta + st.wx >= U32_LIMIT ==>
              var a := Walk(m, PoolTables(cfg, slot).pml4, FIRST_WINDOW_PAGE + delta / PAGE_SIZE);
              a.Access? && a.xd
  {
    hide ElfFormat.Delta, ElfFormat.CanAlign, Walk, TaskTables, TaskView, ViewSplits, Splits, BoundaryOf;
    ElfFormat.DeltaFits(st, LIMIT, random);
    BoundaryWraps(delta, st.wx);
    var start, b := delta + st.wx, BoundaryOf(delta, st.wx);
    SplitsByView(m, cfg, slot, slotPage, b, start);
    if start < U32_LIMIT {
      AlignedStart(st, random, delta);
      BoundaryExact(cfg, slotPage, start);
    } else {
      DeltaBelowLastPage(st, random);
      WrappedView(cfg, slotPage, delta, b.start, start);
      TaskWalk(m, cfg, slot, slotPage, b, FIRST_WINDOW_PAGE + delta / PAGE_SIZE);
    }
  }

  /** The sum of the code and the true one. */
  lemma BoundaryWraps(delta: u32, wx: u32)
    requires wx > 0
    ensures BoundaryOf(delta, wx) == DataFrom(if delta + wx < U32_LIMIT then delta + wx else delta + wx - U32_LIMIT)
    ensures BoundaryOf(delta, wx).start <= delta || delta + wx < U32_LIMIT
  {
  }

  /** The loader's alignment, in terms of the shifted boundary. */
  lemma AlignedStart(st: ElfFormat.Scan, random: u32, delta: u32)
    requires delta == ElfFormat.Delta(st, LIMIT, random)
    ensures (delta + st.wx) % PAGE_SIZE == 0 || delta + st.wx >= (WINDOW_PAGES - 1) * PAGE_SIZE <==>
            ElfFormat.CanAlign(st, LIMIT) || st.wx >= (WINDOW_PAGES - 1) * PAGE_SIZE
  {
    hide ElfFormat.Delta;
    ElfFormat.DeltaAligns(st, LIMIT, random);
  }

  /** The split as the walk sees it is the split of the view without tables. */
  lemma SplitsByView(m: Words, cfg: Config, slot: nat, slotPage: nat, b: Boundary, start: nat)
    requires TaskTables(m, cfg, slot, slotPage, b) && Zoned(cfg)
    ensures Splits(m, PoolTables(cfg, slot).pml4, start) <==> ViewSplits(cfg, slotPage, b, start)
  {
    hide Walk, TaskTables;
    forall x | 0 <= x < WINDOW_PAGES * PAGE_SIZE
      ensures Walk(m, PoolTables(cfg, slot).pml4, FIRST_WINDOW_PAGE + x / PAGE_SIZE) ==
              TaskView(cfg, slotPage, b, FIRST_WINDOW_PAGE + x / PAGE_SIZE)
    {
      TaskWalk(m, cfg, slot, slotPage, b, FIRST_WINDOW_PAGE + x / PAGE_SIZE);
    }
  }

  /** A shift leaves 20 KB behind the image, or is less than a page. */
  lemma DeltaBelowLastPage(st: ElfFormat.Scan, random: u32)
    requires 0 <= st.codeEnd <= LIMIT
    ensures 0 <= ElfFormat.Delta(st, LIMIT, random) < (WINDOW_PAGES - 1) * PAGE_SIZE
  {
    ElfFormat.DeltaFits(st, LIMIT, random);
    if st.count > 0 && st.codeEnd < LIMIT {
      var fix := ElfFormat.Fix(st.wx);
      var room := LIMIT - st.codeEnd - fix;
      if room > ElfFormat.MIN_HEAP && (room - ElfFormat.MIN_HEAP) / PAGE_SIZE > 0 {
        ElfFormat.SlotsFit(room - ElfFormat.MIN_HEAP, random);
      }
    }
  }

  /** Tables with the boundary at or before `x`, which should be code: its page cannot
      be executed. */
  lemma WrappedView(cfg: Config, slotPage: nat, x: nat, boundary: nat, start: nat)
    requires cfg.nx && boundary <= x < (WINDOW_PAGES - 1) * PAGE_SIZE && x < start
    ensures var a := TaskView(cfg, slotPage, DataFrom(boundary), FIRST_WINDOW_PAGE + x / PAGE_SIZE);
            a.Access? && a.xd
    ensures !ViewSplits(cfg, slotPage, DataFrom(boundary), start)
  {
    assert x == x / PAGE_SIZE * PAGE_SIZE + x % PAGE_SIZE;
  }

  /** A file with a boundary far outside its image: the sum wraps around to 0, and no
      page of the code but the last of the window can be executed. */
  lemma WrappingFile()
    ensures var st := ElfFormat.Scan(100, 1, 16, 0xFFFF_F001, true);
            ElfFormat.CanAlign(st, LIMIT) && ElfFormat.Delta(st, LIMIT, 0) == 0xFFF &&
              BoundaryOf(0xFFF, st.wx) == DataFrom(0)
  {
  }
}
