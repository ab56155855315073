/** The page tables of src/kernel/paging.c as the processor reads them: the walk
    through four levels, and what it finds in the kernel's and in a task's tables. */
module PageWalk {
  const PAGE_SIZE: nat := 0x1000
  const ENTRIES: nat := 512
  const WINDOW_PAGES: nat := 16
  const FIRST_WINDOW_PAGE: nat := 0x100
  const GUARD_PAGE: nat := 0x8C
  const KHEAP_PAGES: nat := 16
  const SLOTS: nat := 4
  const PROGRAM_BASE_PAGE: nat := 0x200   // physical page of program slot 0
  const MEMORY_PAGES: nat := 0x2_0000     // 512 MB

  /** An entry: the page frame it points to, and its flags. */
  datatype Entry = Entry(frame: nat, present: bool, rw: bool, user: bool, huge: bool, xd: bool)

  const ABSENT: Entry := Entry(0, false, false, false, false, false)

  type Table = t: seq<Entry> | |t| == ENTRIES witness seq(ENTRIES, _ => ABSENT)

  /** Physical memory, as the 8-byte words that hold entries. */
  type Words = seq<Entry>

  function Word(page: nat, i: nat): nat {
    page * ENTRIES + i
  }

  /** What an access to a virtual address meets. */
  datatype Access = Fault | Access(page: nat, user: bool, rw: bool, xd: bool)

  /** Entry i of the table in page `page`; memory beyond the end reads as absent. */
  function At(m: Words, page: nat, i: nat): Entry {
    if Word(page, i) < |m| then m[Word(page, i)] else ABSENT
  }

  /** The walk for the virtual page `vp`: access needs the flag on every level, and
      execution is disabled by any level. */
  function Walk(m: Words, cr3: nat, vp: nat): Access {
    var e4 := At(m, cr3, vp / 0x800_0000 % ENTRIES);
    if !e4.present then Fault
    else
      var e3 := At(m, e4.frame, vp / 0x4_0000 % ENTRIES);
      if !e3.present then Fault
      else
        var e2 := At(m, e3.frame, vp / 0x200 % ENTRIES);
        if !e2.present then Fault
        else if e2.huge then
          Access(e2.frame + vp % 0x200, e4.user && e3.user && e2.user, e4.rw && e3.rw && e2.rw, e4.xd || e3.xd || e2.xd)
        else
          var e1 := At(m, e2.frame, vp % 0x200);
          if !e1.present then Fault
          else Access(e1.frame, e4.user && e3.user && e2.user && e1.user, e4.rw && e3.rw && e2.rw && e1.rw,
                      e4.xd || e3.xd || e2.xd || e1.xd)
  }

  /** What the machine and the random choices decide. `textEnd` is a page number. */
  datatype Config = Config(nx: bool, textEnd: nat, heap: nat, pool: nat)

  predicate InWindow(vp: nat) {
    FIRST_WINDOW_PAGE <= vp < FIRST_WINDOW_PAGE + WINDOW_PAGES
  }

  // ----- the random choices

  const KHEAP_ZONE_FLOOR: nat := 3
  const KHEAP_ZONE_CEILING: nat := 223
  const KPOOL_ZONE_FLOOR: nat := 223
  const KPOOL_ZONE_CEILING: nat := 255

  function PickHeap(random: nat): nat {
    KHEAP_ZONE_FLOOR + random % (KHEAP_ZONE_CEILING - KHEAP_ZONE_FLOOR - KHEAP_PAGES + 1)
  }

  function PickPool(random: nat): nat {
    KPOOL_ZONE_FLOOR + random % (KPOOL_ZONE_CEILING - KPOOL_ZONE_FLOOR)
  }

  /** Heap and pool lie behind the fixed mappings, in memory, and apart. */
  predicate Zoned(cfg: Config) {
    3 <= cfg.heap && cfg.heap + KHEAP_PAGES <= cfg.pool < 255
  }

  lemma PicksZoned(nx: bool, textEnd: nat, r1: nat, r2: nat)
    ensures Zoned(Config(nx, textEnd, PickHeap(r1), PickPool(r2)))
  {
  }

  /** Heap and pool can come to lie at every place of their zones. */
  lemma PicksCover(index: nat)
    ensures 3 <= index <= 207 <==> exists random: nat :: PickHeap(random) == index
    ensures 223 <= index <= 254 <==> exists random: nat :: PickPool(random) == index
  {
    if 3 <= index <= 207 { assert PickHeap(index - 3) == index; }
    if 223 <= index <= 254 { assert PickPool(index - 223) == index; }
  }

  // ----- what the tables mean

  /** The kernel's view of a virtual page, stated without tables: identity where
      anything is mapped. */
  function GlobalView(cfg: Config, vp: nat): Access {
    if vp < 0x200 then
      if vp == GUARD_PAGE then Fault
      else if InWindow(vp) then Access(vp, true, true, false)
      else Access(vp, false, !(1 <= vp < cfg.textEnd), false)
    else if vp < 0x600 || cfg.heap * 0x200 <= vp < (cfg.heap + KHEAP_PAGES) * 0x200 ||
      cfg.pool * 0x200 <= vp < (cfg.pool + 1) * 0x200 then
      Access(vp, false, true, cfg.nx)
    else Fault
  }

  /** Where code ends and data begins in a task's window, in bytes; 0 off. */
  datatype Boundary = NoBoundary | DataFrom(start: nat)

  predicate Writable(b: Boundary, i: nat) {
    b.NoBoundary? || i == WINDOW_PAGES - 1 || i * PAGE_SIZE + PAGE_SIZE - 1 >= b.start
  }

  predicate NoExecute(nx: bool, b: Boundary, i: nat) {
    nx && b.DataFrom? && i != WINDOW_PAGES - 1 && i * PAGE_SIZE + PAGE_SIZE - 1 >= b.start
  }

  /** A task's view: its program slot in the window, else the kernel's view. */
  function TaskView(cfg: Config, slotPage: nat, b: Boundary, vp: nat): Access {
    if InWindow(vp) then
      var i := vp - FIRST_WINDOW_PAGE;
      Access(slotPage + i, true, Writable(b, i), NoExecute(cfg.nx, b, i))
    else GlobalView(cfg, vp)
  }

  // ----- the tables as built

  function Pt0Entry(cfg: Config, i: nat): Entry {
    if i == GUARD_PAGE then ABSENT
    else if InWindow(i) then Entry(i, true, true, true, false, false)
    else Entry(i, true, !(1 <= i && i + 1 <= cfg.textEnd), false, false, false)
  }

  function Pointer(page: nat): Entry {
    Entry(page, true, true, true, false, false)
  }

  function HugeEntry(cfg: Config, i: nat): Entry {
    Entry(i * 0x200, true, true, false, true, cfg.nx)
  }

  /** The page directory: `pt` is the page of its table for the first 2 MB. */
  function PdEntry(cfg: Config, pt: nat, i: nat): Entry {
    if i == 0 then Pointer(pt)
    else if i < 3 || cfg.heap <= i < cfg.heap + KHEAP_PAGES || i == cfg.pool then HugeEntry(cfg, i)
    else ABSENT
  }

  function TopEntry(next: nat, i: nat): Entry {
    if i == 0 then Pointer(next) else ABSENT
  }

  function WindowEntry(cfg: Config, slotPage: nat, b: Boundary, i: nat): Entry {
    Entry(slotPage + i, true, Writable(b, i), true, false, NoExecute(cfg.nx, b, i))
  }

  function TaskPtEntry(cfg: Config, slotPage: nat, b: Boundary, i: nat): Entry {
    if InWindow(i) then WindowEntry(cfg, slotPage, b, i - FIRST_WINDOW_PAGE) else Pt0Entry(cfg, i).(user := false)
  }

  /** What a table holds. */
  datatype Contents =
    | Top(next: nat)
    | Directory(cfg: Config, pt: nat)
    | FirstPages(cfg: Config)
    | TaskPages(cfg: Config, slotPage: nat, b: Boundary)
  {
    function EntryAt(i: nat): Entry {
      match this
      case Top(next) => TopEntry(next, i)
      case Directory(cfg, pt) => PdEntry(cfg, pt, i)
      case FirstPages(cfg) => Pt0Entry(cfg, i)
      case TaskPages(cfg, slotPage, b) => TaskPtEntry(cfg, slotPage, b, i)
    }
  }

  ghost predicate HoldsTable(m: Words, page: nat, c: Contents) {
    page < MEMORY_PAGES && |m| == MEMORY_PAGES * ENTRIES && forall i :: 0 <= i < ENTRIES ==>
      m[Word(page, i)] == c.EntryAt(i)
  }

  /** Four tables, from the top level down. */
  datatype Tables = Tables(pml4: nat, pdpt: nat, pd: nat, pt: nat)

  const GLOBAL: Tables := Tables(0x9C, 0x9D, 0x9E, 0x9F)

  function PoolTables(cfg: Config, slot: nat): Tables {
    var p := cfg.pool * 0x200;
    Tables(p + slot, p + 4 + slot, p + 8 + slot, p + 12 + slot)
  }

  /** The three upper levels, which are alike for the kernel and for tasks. */
  ghost predicate UpperTables(m: Words, cfg: Config, t: Tables) {
    HoldsTable(m, t.pml4, Top(t.pdpt)) && HoldsTable(m, t.pdpt, Top(t.pd)) &&
    HoldsTable(m, t.pd, Directory(cfg, t.pt))
  }

  ghost predicate GlobalTables(m: Words, cfg: Config) {
    UpperTables(m, cfg, GLOBAL) && HoldsTable(m, GLOBAL.pt, FirstPages(cfg))
  }

  ghost predicate TaskTables(m: Words, cfg: Config, slot: nat, slotPage: nat, b: Boundary) {
    UpperTables(m, cfg, PoolTables(cfg, slot)) &&
    HoldsTable(m, PoolTables(cfg, slot).pt, TaskPages(cfg, slotPage, b))
  }

  lemma ReadTable(m: Words, page: nat, c: Contents, i: nat)
    requires HoldsTable(m, page, c) && i < ENTRIES
    ensures At(m, page, i) == c.EntryAt(i)
  {
  }

  /** The walk through the three upper levels. */
  lemma UpperWalk(m: Words, cfg: Config, t: Tables, vp: nat)
    requires UpperTables(m, cfg, t) && Zoned(cfg) && vp < 0x10_0000_0000
    ensures vp >= 0x4_0000 ==> Walk(m, t.pml4, vp) == Fault
    ensures 0x200 <= vp < 0x4_0000 ==> Walk(m, t.pml4, vp) == GlobalView(cfg, vp)
    ensures vp < 0x200 ==>
              Walk(m, t.pml4, vp) ==
              var e := At(m, t.pt, vp); if e.present then Access(e.frame, e.user, e.rw, e.xd) else Fault
  {
    var i4, i3, i2 := vp / 0x800_0000, vp / 0x4_0000 % ENTRIES, vp / 0x200 % ENTRIES;
    ReadTable(m, t.pml4, Top(t.pdpt), i4);
    if i4 == 0 {
      ReadTable(m, t.pdpt, Top(t.pd), i3);
      if i3 == 0 {
        ReadTable(m, t.pd, Directory(cfg, t.pt), i2);
      }
    }
  }

  /** The kernel's tables mean the kernel's view. */
  lemma GlobalWalk(m: Words, cfg: Config, vp: nat)
    requires GlobalTables(m, cfg) && Zoned(cfg) && vp < 0x10_0000_0000
    ensures Walk(m, GLOBAL.pml4, vp) == GlobalView(cfg, vp)
  {
    UpperWalk(m, cfg, GLOBAL, vp);
    if vp < 0x200 { ReadTable(m, GLOBAL.pt, FirstPages(cfg), vp); }
  }

  /** A task's tables mean its slot in the window and the kernel's view elsewhere,
      for every virtual page of the 48-bit address space. */
  lemma TaskWalk(m: Words, cfg: Config, slot: nat, slotPage: nat, b: Boundary, vp: nat)
    requires TaskTables(m, cfg, slot, slotPage, b) && Zoned(cfg) && vp < 0x10_0000_0000
    ensures Walk(m, PoolTables(cfg, slot).pml4, vp) == TaskView(cfg, slotPage, b, vp)
  {
    var t := PoolTables(cfg, slot);
    UpperWalk(m, cfg, t, vp);
    if vp < 0x200 { ReadTable(m, t.pt, TaskPages(cfg, slotPage, b), vp); }
  }

  /** What the kernel's tables allow, page by page: identity wherever something is mapped,
      nothing at the guard page below the stack, no writes to the kernel's code, user code
      in the window only, and no execution in the 2 MB pages, which hold data. */
  lemma KernelRights(m: Words, cfg: Config, vp: nat)
    requires GlobalTables(m, cfg) && Zoned(cfg) && vp < 0x10_0000_0000
    ensures var a, index := Walk(m, 0x9C, vp), vp / 0x200;
            (a.Fault? <==> vp == 0x8C || (index >= 3 && !(cfg.heap <= index < cfg.heap + 16) && index != cfg.pool)) &&
            (a.Access? ==>
               a.page == vp && (a.user <==> 0x100 <= vp < 0x110) && (a.xd <==> cfg.nx && vp >= 0x200) &&
               (a.rw <==> vp >= 0x200 || 0x100 <= vp < 0x110 || vp == 0 || vp >= cfg.textEnd))
  {
    hide Walk, GlobalTables;
    GlobalWalk(m, cfg, vp);
  }

  /** What a task's tables allow in page i of its window: everything without a boundary;
      else code before the boundary cannot be written, data behind it cannot be executed
      where the processor can tell, and the last page is free of both. */
  lemma WindowRights(m: Words, cfg: Config, slot: nat, slotPage: nat, b: Boundary, i: nat)
    requires TaskTables(m, cfg, slot, slotPage, b) && Zoned(cfg) && i < 16
    ensures var a := Walk(m, PoolTables(cfg, slot).pml4, 0x100 + i);
            var data := b.DataFrom? && i != 15 && 0x1000 * (i + 1) > b.start;
            a.Access? && a.page == slotPage + i && a.user &&
            (a.rw <==> b.NoBoundary? || i == 15 || data) && (a.xd <==> cfg.nx && data)
  {
    hide Walk, TaskTables;
    TaskWalk(m, cfg, slot, slotPage, b, 0x100 + i);
  }

  // ----- isolation

  function SlotPage(slot: nat): nat {
    PROGRAM_BASE_PAGE + slot * WINDOW_PAGES
  }

  /** User code under the tables of `cr3` gets through at the virtual page. */
  predicate UserReaches(m: Words, cr3: nat, vp: nat) {
    Walk(m, cr3, vp).Access? && Walk(m, cr3, vp).user
  }

  /** User access in a task reaches exactly the 16 pages of its slot; every other
      address means what it means under the kernel's tables. */
  lemma UserReachesSlot(m: Words, cfg: Config, slot: nat, slotPage: nat, b: Boundary, vp: nat)
    requires TaskTables(m, cfg, slot, slotPage, b) && GlobalTables(m, cfg) && Zoned(cfg) && vp < 0x10_0000_0000
    ensures var cr3 := PoolTables(cfg, slot).pml4;
            && (UserReaches(m, cr3, vp) <==> InWindow(vp))
            && (InWindow(vp) ==> Walk(m, cr3, vp).page == slotPage + (vp - FIRST_WINDOW_PAGE))
            && (!InWindow(vp) ==> Walk(m, cr3, vp) == Walk(m, GLOBAL.pml4, vp))
  {
    hide Walk, TaskTables, GlobalTables;
    TaskWalk(m, cfg, slot, slotPage, b, vp);
    GlobalWalk(m, cfg, vp);
  }

  /** User code under the tables of `cr3` can get at the physical page. */
  ghost predicate InReach(m: Words, cr3: nat, page: nat) {
    exists vp: nat :: vp < 0x10_0000_0000 && UserReaches(m, cr3, vp) && Walk(m, cr3, vp).page == page
  }

  /** A task has exactly the 16 pages of its slot in reach. */
  lemma ReachIsSlot(m: Words, cfg: Config, slot: nat, slotPage: nat, b: Boundary, page: nat)
    requires TaskTables(m, cfg, slot, slotPage, b) && GlobalTables(m, cfg) && Zoned(cfg)
    ensures InReach(m, PoolTables(cfg, slot).pml4, page) <==> slotPage <= page < slotPage + WINDOW_PAGES
  {
    hide Walk, TaskTables, GlobalTables;
    var cr3 := PoolTables(cfg, slot).pml4;
    if slotPage <= page < slotPage + WINDOW_PAGES {
      UserReachesSlot(m, cfg, slot, slotPage, b, FIRST_WINDOW_PAGE + (page - slotPage));
    }
    if InReach(m, cr3, page) {
      var vp: nat :| vp < 0x10_0000_0000 && UserReaches(m, cr3, vp) && Walk(m, cr3, vp).page == page;
      UserReachesSlot(m, cfg, slot, slotPage, b, vp);
    }
  }

  /** Two tasks in one memory have no page in reach together. */
  lemma TasksApart(m: Words, cfg: Config, s: nat, b: Boundary, s': nat, b': Boundary, page: nat)
    requires s != s' && Zoned(cfg) && GlobalTables(m, cfg)
    requires TaskTables(m, cfg, s, SlotPage(s), b) && TaskTables(m, cfg, s', SlotPage(s'), b')
    ensures !(InReach(m, PoolTables(cfg, s).pml4, page) && InReach(m, PoolTables(cfg, s').pml4, page))
  {
    hide InReach, TaskTables, GlobalTables;
    ReachIsSlot(m, cfg, s, SlotPage(s), b, page);
    ReachIsSlot(m, cfg, s', SlotPage(s'), b', page);
  }

  /** The page belongs to the tables `t`. */
  predicate IsTable(t: Tables, page: nat) {
    page == t.pml4 || page == t.pdpt || page == t.pd || page == t.pt
  }

  /** No task has page tables in reach, its own, another's or the kernel's. */
  lemma TablesOutOfReach(m: Words, cfg: Config, slot: nat, b: Boundary, other: nat, page: nat)
    requires TaskTables(m, cfg, slot, SlotPage(slot), b) && GlobalTables(m, cfg) && Zoned(cfg) && slot < SLOTS
    requires IsTable(GLOBAL, page) || IsTable(PoolTables(cfg, other), page)
    ensures !InReach(m, PoolTables(cfg, slot).pml4, page)
  {
    hide InReach, TaskTables, GlobalTables;
    ReachIsSlot(m, cfg, slot, SlotPage(slot), b, page);
  }

  /** With NX and a boundary, the only page of user code that is both writable and
      executable is the last of the window. */
  lemma WriteXorExecute(m: Words, cfg: Config, slot: nat, slotPage: nat, b: Boundary, vp: nat)
    requires TaskTables(m, cfg, slot, slotPage, b) && Zoned(cfg) && vp < 0x10_0000_0000
    requires cfg.nx && b.DataFrom?
    ensures var cr3 := PoolTables(cfg, slot).pml4;
            UserReaches(m, cr3, vp) && Walk(m, cr3, vp).rw && !Walk(m, cr3, vp).xd <==>
            vp == FIRST_WINDOW_PAGE + WINDOW_PAGES - 1
  {
    hide Walk, TaskTables;
    TaskWalk(m, cfg, slot, slotPage, b, vp);
  }

  /** Each byte of the window before `start` can be executed, and each behind it written. */
  predicate ViewSplits(cfg: Config, slotPage: nat, b: Boundary, start: nat) {
    forall x :: 0 <= x < WINDOW_PAGES * PAGE_SIZE ==>
      var a := TaskView(cfg, slotPage, b, FIRST_WINDOW_PAGE + x / PAGE_SIZE);
      if x < start then !a.xd else a.rw
  }

  /** Each byte before the boundary can be executed, and each byte behind it written,
      exactly when the boundary is aligned to pages or in the last page or behind it. */
  lemma BoundaryExact(cfg: Config, slotPage: nat, start: nat)
    requires cfg.nx
    ensures ViewSplits(cfg, slotPage, DataFrom(start), start) <==>
            start % PAGE_SIZE == 0 || start >= (WINDOW_PAGES - 1) * PAGE_SIZE
  {
    var b := DataFrom(start);
    if start % PAGE_SIZE != 0 && start < (WINDOW_PAGES - 1) * PAGE_SIZE {
      var x := start - 1;
      var a := TaskView(cfg, slotPage, b, FIRST_WINDOW_PAGE + x / PAGE_SIZE);
      assert x / PAGE_SIZE * PAGE_SIZE + PAGE_SIZE - 1 >= start;
      assert a.xd;
    } else {
      forall x | 0 <= x < WINDOW_PAGES * PAGE_SIZE
        ensures var a := TaskView(cfg, slotPage, b, FIRST_WINDOW_PAGE + x / PAGE_SIZE);
                if x < start then !a.xd else a.rw
      {
        ByteSide(x, start);
      }
    }
  }

  lemma ByteSide(x: nat, start: nat)
    requires x < WINDOW_PAGES * PAGE_SIZE && (start % PAGE_SIZE == 0 || start >= (WINDOW_PAGES - 1) * PAGE_SIZE)
    ensures var i := x / PAGE_SIZE;
            i < WINDOW_PAGES && (i == WINDOW_PAGES - 1 || (x < start <==> i * PAGE_SIZE + PAGE_SIZE - 1 < start))
  {
    var i, r := x / PAGE_SIZE, x % PAGE_SIZE;
    assert x == i * PAGE_SIZE + r;
    if start % PAGE_SIZE == 0 {
      var k := start / PAGE_SIZE;
      assert start == k * PAGE_SIZE;
      assert i < k || i >= k;
    }
  }
}
