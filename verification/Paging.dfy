/** init_paging and paging_create_user_directory of src/kernel/paging.c, writing
    page tables in physical memory in place. */
module Paging {
  import opened Bytes
  import opened PageWalk

  /** The two memories differ at most in the page `p`. */
  ghost predicate SameElse(m: Words, m': Words, p: nat) {
    |m| == |m'| && forall k :: 0 <= k < |m| && (k < Word(p, 0) || Word(p + 1, 0) <= k) ==> m'[k] == m[k]
  }

  lemma HoldsElse(m: Words, m': Words, p: nat, q: nat, c: Contents)
    requires SameElse(m, m', p) && HoldsTable(m, q, c) && p != q
    ensures HoldsTable(m', q, c)
  {
    forall i | 0 <= i < ENTRIES ensures m'[Word(q, i)] == c.EntryAt(i) {
      assert Word(q, i) < Word(p, 0) || Word(p + 1, 0) <= Word(q, i);
    }
  }

  /** Tables in other pages outlive a change of page `p`. */
  lemma UpperElse(m: Words, m': Words, p: nat, cfg: Config, t: Tables)
    requires SameElse(m, m', p) && UpperTables(m, cfg, t) && p != t.pml4 && p != t.pdpt && p != t.pd
    ensures UpperTables(m', cfg, t)
  {
    HoldsElse(m, m', p, t.pml4, Top(t.pdpt));
    HoldsElse(m, m', p, t.pdpt, Top(t.pd));
    HoldsElse(m, m', p, t.pd, Directory(cfg, t.pt));
  }

  lemma GlobalElse(m: Words, m': Words, p: nat, cfg: Config)
    requires SameElse(m, m', p) && GlobalTables(m, cfg) && p > 0x9F
    ensures GlobalTables(m', cfg)
  {
    UpperElse(m, m', p, cfg, GLOBAL);
    HoldsElse(m, m', p, GLOBAL.pt, FirstPages(cfg));
  }

  lemma TaskElse(m: Words, m': Words, p: nat, cfg: Config, slot: nat, slotPage: nat, b: Boundary)
    requires SameElse(m, m', p) && TaskTables(m, cfg, slot, slotPage, b) && !IsTable(PoolTables(cfg, slot), p)
    ensures TaskTables(m', cfg, slot, slotPage, b)
  {
    var t := PoolTables(cfg, slot);
    UpperElse(m, m', p, cfg, t);
    HoldsElse(m, m', p, t.pt, TaskPages(cfg, slotPage, b));
  }

  /** Every task's tables that do not lie in page `p`, and the kernel's, are kept. */
  ghost predicate OthersKept(m: Words, m': Words, cfg: Config, slot: nat) {
    (GlobalTables(m, cfg) ==> GlobalTables(m', cfg)) &&
    forall s: nat, sp: nat, b: Boundary :: s != slot && s < SLOTS && TaskTables(m, cfg, s, sp, b) ==>
      TaskTables(m', cfg, s, sp, b)
  }

  lemma KeptElse(m: Words, m': Words, cfg: Config, slot: nat, p: nat)
    requires SameElse(m, m', p) && Zoned(cfg) && slot < SLOTS && IsTable(PoolTables(cfg, slot), p)
    ensures OthersKept(m, m', cfg, slot)
  {
    hide GlobalTables, TaskTables, SameElse;
    if GlobalTables(m, cfg) { GlobalElse(m, m', p, cfg); }
    forall s: nat, sp: nat, b: Boundary | s != slot && s < SLOTS && TaskTables(m, cfg, s, sp, b)
      ensures TaskTables(m', cfg, s, sp, b)
    {
      TaskElse(m, m', p, cfg, s, sp, b);
    }
  }

  /** The boundary in the window, a 32-bit sum; an offset of 0 means none. */
  function BoundaryOf(wxDelta: u32, wxOff: u32): Boundary {
    if wxOff > 0 then DataFrom((wxDelta + wxOff) % U32_LIMIT) else NoBoundary
  }

  /** What a directory was made for: the first page of the slot, and the boundary. */
  datatype Task = Task(slotPage: nat, b: Boundary)

  /** The tables of every task are in place. */
  ghost predicate TasksInPlace(m: Words, cfg: Config, tasks: map<nat, Task>) {
    forall s :: s in tasks ==> s < SLOTS && TaskTables(m, cfg, s, tasks[s].slotPage, tasks[s].b)
  }

  lemma TaskAdded(m: Words, m': Words, cfg: Config, tasks: map<nat, Task>, slot: nat, task: Task)
    requires TasksInPlace(m, cfg, tasks) && OthersKept(m, m', cfg, slot) && slot < SLOTS
    requires TaskTables(m', cfg, slot, task.slotPage, task.b)
    ensures TasksInPlace(m', cfg, tasks[slot := task])
  {
    hide GlobalTables, TaskTables;
  }

  class PageTables {
    const mem: array<Entry>
    var nx: bool
    var textEnd: nat
    var heapIndex: nat
    var poolIndex: nat
    ghost var tasks: map<nat, Task>    // by slot

    constructor (mem: array<Entry>)
      requires mem.Length == MEMORY_PAGES * ENTRIES
      ensures this.mem == mem
    {
      this.mem, nx, textEnd, heapIndex, poolIndex := mem, false, 0, 0, 0;
      tasks := map[];
    }

    function Cfg(): Config
      reads this
    {
      Config(nx, textEnd, heapIndex, poolIndex)
    }

    ghost predicate Valid()
      reads this, mem
    {
      mem.Length == MEMORY_PAGES * ENTRIES && Zoned(Cfg()) && GlobalTables(mem[..], Cfg()) &&
      TasksInPlace(mem[..], Cfg(), tasks)
    }

    /** The tables that the task in the slot runs under. */
    function Cr3(slot: nat): nat
      reads this
    {
      PoolTables(Cfg(), slot).pml4
    }

    /** Whatever directories were made, and made again, in whatever order: a task has
        its own slot in reach, no page of another task, and no page of any tables. */
    lemma Isolated(s: nat, s': nat, page: nat)
      requires Valid() && s in tasks && s' in tasks && s != s'
      requires tasks[s].slotPage == SlotPage(s) && tasks[s'].slotPage == SlotPage(s')
      ensures InReach(mem[..], Cr3(s), page) <==> SlotPage(s) <= page < SlotPage(s) + WINDOW_PAGES
      ensures InReach(mem[..], Cr3(s), page) ==>
                !InReach(mem[..], Cr3(s'), page) && !IsTable(GLOBAL, page) &&
                forall other: nat :: !IsTable(PoolTables(Cfg(), other), page)
    {
      hide InReach, TaskTables, GlobalTables, IsTable;
      ReachIsSlot(mem[..], Cfg(), s, SlotPage(s), tasks[s].b, page);
      TasksApart(mem[..], Cfg(), s, tasks[s].b, s', tasks[s'].b, page);
      if IsTable(GLOBAL, page) { TablesOutOfReach(mem[..], Cfg(), s, tasks[s].b, 0, page); }
      forall other: nat | IsTable(PoolTables(Cfg(), other), page) ensures !InReach(mem[..], Cr3(s), page) {
        TablesOutOfReach(mem[..], Cfg(), s, tasks[s].b, other, page);
      }
    }

    /** init_paging: `hasNx` comes from the processor, `textEnd` from the linker
        (rounded down to a page), the random numbers from the generator. */
    method InitPaging(hasNx: bool, textEnd: nat, random1: nat, random2: nat)
      requires mem.Length == MEMORY_PAGES * ENTRIES
      modifies this, mem
      ensures Valid() && Cfg() == Config(hasNx, textEnd, PickHeap(random1), PickPool(random2)) && tasks == map[]
    {
      hide HoldsTable, SameElse;
      nx, this.textEnd, tasks := hasNx, textEnd, map[];
      heapIndex, poolIndex := PickHeap(random1), PickPool(random2);
      PicksZoned(nx, textEnd, random1, random2);
      var cfg := Cfg();
      FillPt0(cfg);
      ghost var m1 := mem[..];
      FillPd(cfg);
      HoldsElse(m1, mem[..], GLOBAL.pd, GLOBAL.pt, FirstPages(cfg));
      ghost var m2 := mem[..];
      FillTop(GLOBAL.pdpt, GLOBAL.pd);
      HoldsElse(m2, mem[..], GLOBAL.pdpt, GLOBAL.pt, FirstPages(cfg));
      HoldsElse(m2, mem[..], GLOBAL.pdpt, GLOBAL.pd, Directory(cfg, GLOBAL.pt));
      ghost var m3 := mem[..];
      FillTop(GLOBAL.pml4, GLOBAL.pdpt);
      HoldsElse(m3, mem[..], GLOBAL.pml4, GLOBAL.pt, FirstPages(cfg));
      HoldsElse(m3, mem[..], GLOBAL.pml4, GLOBAL.pd, Directory(cfg, GLOBAL.pt));
      HoldsElse(m3, mem[..], GLOBAL.pml4, GLOBAL.pdpt, Top(GLOBAL.pd));
    }

    /** PT0 with the guard page cleared afterwards */
    method FillPt0(cfg: Config)
      requires mem.Length == MEMORY_PAGES * ENTRIES
      modifies mem
      ensures HoldsTable(mem[..], GLOBAL.pt, FirstPages(cfg)) && SameElse(old(mem[..]), mem[..], GLOBAL.pt)
    {
      var p := GLOBAL.pt;
      for i := 0 to ENTRIES
        invariant SameElse(old(mem[..]), mem[..], p)
        invariant forall k :: 0 <= k < i && k != GUARD_PAGE ==> mem[Word(p, k)] == Pt0Entry(cfg, k)
      {
        var user := FIRST_WINDOW_PAGE <= i < FIRST_WINDOW_PAGE + WINDOW_PAGES;
        var text := 1 <= i && i + 1 <= cfg.textEnd;
        mem[Word(p, i)] := Entry(i, true, user || !text, user, false, false);
      }
      mem[Word(p, GUARD_PAGE)] := ABSENT;
    }

    method FillPd(cfg: Config)
      requires mem.Length == MEMORY_PAGES * ENTRIES && Zoned(cfg)
      modifies mem
      ensures HoldsTable(mem[..], GLOBAL.pd, Directory(cfg, GLOBAL.pt)) && SameElse(old(mem[..]), mem[..], GLOBAL.pd)
    {
      var p := GLOBAL.pd;
      mem[Word(p, 0)] := Pointer(GLOBAL.pt);
      mem[Word(p, 1)] := HugeEntry(cfg, 1);
      mem[Word(p, 2)] := HugeEntry(cfg, 2);
      ClearDirectory(p);
      for i := 0 to KHEAP_PAGES
        invariant SameElse(old(mem[..]), mem[..], p)
        invariant mem[Word(p, 0)] == Pointer(GLOBAL.pt) && mem[Word(p, 1)] == HugeEntry(cfg, 1) &&
                  mem[Word(p, 2)] == HugeEntry(cfg, 2)
        invariant forall k :: 3 <= k < ENTRIES ==>
                                mem[Word(p, k)] == if cfg.heap <= k < cfg.heap + i then HugeEntry(cfg, k) else ABSENT
      {
        mem[Word(p, cfg.heap + i)] := HugeEntry(cfg, cfg.heap + i);
      }
      mem[Word(p, cfg.pool)] := HugeEntry(cfg, cfg.pool);
    }

    /** A PDPT or PML4: one pointer, the rest absent. */
    method FillTop(p: nat, next: nat)
      requires mem.Length == MEMORY_PAGES * ENTRIES && p < MEMORY_PAGES
      modifies mem
      ensures HoldsTable(mem[..], p, Top(next)) && SameElse(old(mem[..]), mem[..], p)
    {
      mem[Word(p, 0)] := Pointer(next);
      for i := 1 to ENTRIES
        invariant SameElse(old(mem[..]), mem[..], p)
        invariant mem[Word(p, 0)] == Pointer(next) && forall k :: 1 <= k < i ==> mem[Word(p, k)] == ABSENT
      {
        mem[Word(p, i)] := ABSENT;
      }
    }

    /** paging_create_user_directory: the page of the new top-level table. */
    method CreateUserDirectory(slot: nat, slotPage: nat, wxDelta: u32, wxOff: u32) returns (cr3: nat)
      requires Valid() && slot < SLOTS
      modifies mem, `tasks
      ensures Valid() && cr3 == Cr3(slot)
      ensures tasks == old(tasks)[slot := Task(slotPage, BoundaryOf(wxDelta, wxOff))]
      ensures TaskTables(mem[..], Cfg(), slot, slotPage, BoundaryOf(wxDelta, wxOff))
      ensures OthersKept(old(mem[..]), mem[..], Cfg(), slot)
    {
      hide HoldsTable, SameElse, GlobalTables, OthersKept;
      var cfg := Cfg();
      var t := PoolTables(cfg, slot);
      ghost var m0 := mem[..];
      var b := BoundaryOf(wxDelta, wxOff);
      FillTaskPt(cfg, t.pt, slotPage, b);
      ghost var m1 := mem[..];
      KeptElse(m0, m1, cfg, slot, t.pt);
      KeptGlobal(m0, m1, cfg, slot);
      FillTaskPd(cfg, t.pd, t.pt);
      ghost var m2 := mem[..];
      KeptElse(m1, m2, cfg, slot, t.pd);
      HoldsElse(m1, m2, t.pd, t.pt, TaskPages(cfg, slotPage, b));
      FillTop(t.pdpt, t.pd);
      ghost var m3 := mem[..];
      KeptElse(m2, m3, cfg, slot, t.pdpt);
      HoldsElse(m2, m3, t.pdpt, t.pt, TaskPages(cfg, slotPage, b));
      HoldsElse(m2, m3, t.pdpt, t.pd, Directory(cfg, t.pt));
      FillTop(t.pml4, t.pdpt);
      ghost var m4 := mem[..];
      KeptElse(m3, m4, cfg, slot, t.pml4);
      HoldsElse(m3, m4, t.pml4, t.pt, TaskPages(cfg, slotPage, b));
      HoldsElse(m3, m4, t.pml4, t.pd, Directory(cfg, t.pt));
      HoldsElse(m3, m4, t.pml4, t.pdpt, Top(t.pd));
      KeptChain(m0, m1, m2, m3, m4, cfg, slot);
      KeptGlobal(m0, m4, cfg, slot);
      TaskAdded(m0, m4, cfg, tasks, slot, Task(slotPage, b));
      tasks := tasks[slot := Task(slotPage, b)];
      cr3 := t.pml4;
    }

    /** A copy of the kernel's first table without user access, with the task's slot
        in the window. */
    method FillTaskPt(cfg: Config, p: nat, slotPage: nat, b: Boundary)
      requires mem.Length == MEMORY_PAGES * ENTRIES && 0x9F < p < MEMORY_PAGES && GlobalTables(mem[..], cfg)
      modifies mem
      ensures HoldsTable(mem[..], p, TaskPages(cfg, slotPage, b)) && SameElse(old(mem[..]), mem[..], p)
    {
      ghost var m := mem[..];
      var src := GLOBAL.pt;
      for i := 0 to ENTRIES
        invariant SameElse(m, mem[..], p)
        invariant forall k :: 0 <= k < i ==> mem[Word(p, k)] == Pt0Entry(cfg, k).(user := false)
      {
        assert Word(src, i) < Word(p, 0) && m[Word(src, i)] == FirstPages(cfg).EntryAt(i);
        mem[Word(p, i)] := mem[Word(src, i)].(user := false);
      }
      for i := 0 to WINDOW_PAGES
        invariant SameElse(m, mem[..], p)
        invariant forall k :: 0 <= k < ENTRIES ==>
                                mem[Word(p, k)] == if FIRST_WINDOW_PAGE <= k < FIRST_WINDOW_PAGE + i
                                  then WindowEntry(cfg, slotPage, b, k - FIRST_WINDOW_PAGE)
                                                   else Pt0Entry(cfg, k).(user := false)
      {
        var entry := Entry(slotPage + i, true, false, true, false, false);
        var spin := i == WINDOW_PAGES - 1;
        if b.NoBoundary? || spin {
          entry := entry.(rw := true);
        } else {
          var byteEnd := i * PAGE_SIZE + PAGE_SIZE - 1;
          if byteEnd >= b.start {
            entry := entry.(rw := true);
            if cfg.nx { entry := entry.(xd := true); }
          }
        }
        mem[Word(p, FIRST_WINDOW_PAGE + i)] := entry;
      }
    }

    /** The task's page directory: heap and pool copied from the kernel's. */
    method FillTaskPd(cfg: Config, p: nat, pt: nat)
      requires mem.Length == MEMORY_PAGES * ENTRIES && 0x9F < p < MEMORY_PAGES && GlobalTables(mem[..], cfg) &&
               Zoned(cfg)
      modifies mem
      ensures HoldsTable(mem[..], p, Directory(cfg, pt)) && SameElse(old(mem[..]), mem[..], p)
    {
      KernelDirectory(mem[..], cfg);
      CopyDirectory(cfg, p, pt);
    }

    method CopyDirectory(cfg: Config, p: nat, pt: nat)
      requires mem.Length == MEMORY_PAGES * ENTRIES && 0x9F < p < MEMORY_PAGES && Zoned(cfg)
      requires forall i :: 0 <= i < ENTRIES ==> mem[Word(GLOBAL.pd, i)] == PdEntry(cfg, GLOBAL.pt, i)
      modifies mem
      ensures HoldsTable(mem[..], p, Directory(cfg, pt)) && SameElse(old(mem[..]), mem[..], p)
    {
      ghost var m := mem[..];
      ClearDirectory(p);
      mem[Word(p, 0)] := Pointer(pt);
      mem[Word(p, 1)] := FromKernel(m, p, 1);
      mem[Word(p, 2)] := FromKernel(m, p, 2);
      CopyHeap(cfg, p, pt, m);
      mem[Word(p, cfg.pool)] := FromKernel(m, p, cfg.pool);
    }

    method ClearDirectory(p: nat)
      requires mem.Length == MEMORY_PAGES * ENTRIES && p < MEMORY_PAGES
      modifies mem
      ensures SameElse(old(mem[..]), mem[..], p) && forall k :: 3 <= k < ENTRIES ==> mem[Word(p, k)] == ABSENT
      ensures forall k :: 0 <= k < 3 ==> mem[Word(p, k)] == old(mem[Word(p, k)])
    {
      for i := 3 to ENTRIES
        invariant SameElse(old(mem[..]), mem[..], p) && forall k :: 0 <= k < 3 ==>
                  mem[Word(p, k)] == old(mem[Word(p, k)])
        invariant forall k :: 3 <= k < i ==> mem[Word(p, k)] == ABSENT
      {
        mem[Word(p, i)] := ABSENT;
      }
    }

    method CopyHeap(cfg: Config, p: nat, pt: nat, ghost m: Words)
      requires mem.Length == MEMORY_PAGES * ENTRIES && 0x9F < p < MEMORY_PAGES && Zoned(cfg) && SameElse(m, mem[..], p)
      requires forall i :: 0 <= i < ENTRIES ==> m[Word(GLOBAL.pd, i)] == PdEntry(cfg, GLOBAL.pt, i)
      requires forall k :: 3 <= k < ENTRIES ==> mem[Word(p, k)] == ABSENT
      modifies mem
      ensures SameElse(m, mem[..], p) && forall k :: 0 <= k < 3 ==> mem[Word(p, k)] == old(mem[Word(p, k)])
      ensures forall k :: 3 <= k < ENTRIES ==>
                            mem[Word(p, k)] == if cfg.heap <= k < cfg.heap + KHEAP_PAGES then HugeEntry(cfg, k)
                              else ABSENT
    {
      for i := 0 to KHEAP_PAGES
        invariant SameElse(m, mem[..], p) && forall k :: 0 <= k < 3 ==> mem[Word(p, k)] == old(mem[Word(p, k)])
        invariant forall k :: 3 <= k < ENTRIES ==>
                                mem[Word(p, k)] == if cfg.heap <= k < cfg.heap + i then HugeEntry(cfg, k) else ABSENT
      {
        mem[Word(p, cfg.heap + i)] := FromKernel(m, p, cfg.heap + i);
      }
    }

    /** The kernel's directory entry i, without user access. */
    function FromKernel(ghost m: Words, ghost p: nat, i: nat): (e: Entry)
      requires mem.Length == MEMORY_PAGES * ENTRIES && p > 0x9F && SameElse(m, mem[..], p) && i < ENTRIES
      reads mem
      ensures e == m[Word(GLOBAL.pd, i)].(user := false)
    {
      assert Word(GLOBAL.pd, i) < Word(p, 0);
      mem[Word(GLOBAL.pd, i)].(user := false)
    }
  }

  lemma KernelDirectory(m: Words, cfg: Config)
    requires GlobalTables(m, cfg)
    ensures |m| == MEMORY_PAGES * ENTRIES
    ensures forall i :: 0 <= i < ENTRIES ==> m[Word(GLOBAL.pd, i)] == PdEntry(cfg, GLOBAL.pt, i)
  {
    forall i | 0 <= i < ENTRIES ensures m[Word(GLOBAL.pd, i)] == PdEntry(cfg, GLOBAL.pt, i) {
      assert m[Word(GLOBAL.pd, i)] == Directory(cfg, GLOBAL.pt).EntryAt(i);
    }
  }

  lemma KeptGlobal(m: Words, m': Words, cfg: Config, slot: nat)
    requires OthersKept(m, m', cfg, slot) && GlobalTables(m, cfg)
    ensures GlobalTables(m', cfg)
  {
  }

  lemma KeptChain(m0: Words, m1: Words, m2: Words, m3: Words, m4: Words, cfg: Config, slot: nat)
    requires OthersKept(m0, m1, cfg, slot) && OthersKept(m1, m2, cfg, slot) && OthersKept(m2, m3, cfg, slot) &&
             OthersKept(m3, m4, cfg, slot)
    ensures OthersKept(m0, m4, cfg, slot)
  {
    hide GlobalTables, TaskTables;
  }
}
