/** Program slots and tasks together: exec, fork, kill, sleep and exit of
    src/kernel/kernel.c and src/kernel/tasking.c over every run. */
module Processes {
  import opened Scheduling

  const PROGRAM_SLOTS: nat := 4

  /** The ring of tasks, the free slots, and the next task id. */
  datatype Kernel = Kernel(ring: Ring, free: seq<bool>, nextId: int)

  /** The first free slot, or -1. */
  function FreeSlot(free: seq<bool>, i: nat): (r: int)
    requires i <= |free|
    ensures r == -1 || (i <= r < |free| && free[r])
    ensures forall k :: i <= k < |free| && (r == -1 || k < r) ==> !free[k]
    decreases |free| - i
  {
    if i == |free| then -1 else if free[i] then i else FreeSlot(free, i + 1)
  }

  /** A new task goes in behind the current one. */
  function Insert(r: Ring, t: Task): Ring
    requires |r| > 0
  {
    [r[0], t] + r[1..]
  }

  function NewTask(id: int, slot: int): Task {
    Task(id, slot, false, 0, PRIORITY_DEFAULT, PRIORITY_DEFAULT, false, 0, -1, 0)
  }

  /** The clone of the current task that fork makes. */
  function Child(parent: Task, id: int, slot: int): Task {
    NewTask(id, slot).(priority := parent.priority, slice := parent.priority)
  }

  /** task_create */
  function Create(k: Kernel): Kernel
    requires |k.ring| > 0
  {
    Kernel(Insert(k.ring, NewTask(k.nextId, -1)), k.free, k.nextId + 1)
  }

  /** What do_exec makes of its command line: no name, a name that cannot be read, a
      file that elf_load rejects, or a program in the slot's memory. */
  datatype Program = NoName | Unreadable | Rejected | Loaded

  /** do_exec: `created` tells whether there was memory for the task. The slot is
      taken either way. */
  function Exec(k: Kernel, program: Program, created: bool): Kernel
    requires |k.ring| > 0
  {
    var slot := FreeSlot(k.free, 0);
    if slot == -1 || program != Loaded then k
    else if !created then k.(free := k.free[slot := false])
    else Kernel(Insert(k.ring, NewTask(k.nextId, slot)), k.free[slot := false], k.nextId + 1)
  }

  /** The result of do_exec: the slot, or a negative error. */
  function ExecResult(k: Kernel, program: Program): int {
    var slot := FreeSlot(k.free, 0);
    if program == NoName then -1 else if slot == -1 then -2
    else if program == Unreadable then -1 else if program == Rejected then -3 else slot
  }

  /** sys_fork_impl */
  function Fork(k: Kernel, created: bool): Kernel
    requires |k.ring| > 0
  {
    var slot := FreeSlot(k.free, 0);
    if k.ring[0].exiting || k.ring[0].slot < 0 || slot == -1 || !created then k
    else Kernel(Insert(k.ring, Child(k.ring[0], k.nextId, slot)), k.free[slot := false], k.nextId + 1)
  }

  /** The tick: an exiting current task leaves, and its slot is free again. */
  function Tick(k: Kernel, now: nat, ready: set<int>): Kernel
    requires |k.ring| > 0 && (k.ring[0].exiting ==> |k.ring| > 1)
  {
    var slot := k.ring[0].slot;
    k.(ring := Schedule(k.ring, now, ready),
       free := if k.ring[0].exiting && 0 <= slot < |k.free| then k.free[slot := true] else k.free)
  }

  function Clamp(p: int): int {
    if p < PRIORITY_MIN then PRIORITY_MIN else if p > PRIORITY_MAX then PRIORITY_MAX else p
  }

  /** What a task is looked up by: its id, its slot, or its id among tasks with a slot. */
  datatype Key = ById(id: int) | BySlot(slot: int) | ByUserId(id: int)

  predicate Matches(t: Task, key: Key) {
    match key
    case ById(id) => t.id == id
    case BySlot(slot) => t.slot == slot
    case ByUserId(id) => t.id == id && t.slot >= 0
  }

  /** The first task that matches, from index `i` on; |r| when there is none. */
  function FindTask(r: Ring, key: Key, i: nat): (k: nat)
    requires i <= |r|
    ensures i <= k <= |r| && (k < |r| ==> Matches(r[k], key)) && forall j :: i <= j < k ==> !Matches(r[j], key)
    decreases |r| - i
  {
    if i == |r| || Matches(r[i], key) then i else FindTask(r, key, i + 1)
  }

  function SetPriority(r: Ring, id: int, p: int): Ring {
    var i := FindTask(r, ById(id), 0);
    if i < |r| then r[i := r[i].(priority := Clamp(p))] else r
  }

  /** task_kill_by_slot and task_kill_by_pid: only tasks with a slot. */
  function KillSlot(r: Ring, slot: int): Ring {
    var i := FindTask(r, BySlot(slot), 0);
    if slot >= 0 && i < |r| then r[i := r[i].(exiting := true, exitCode := -1)] else r
  }

  function KillId(r: Ring, id: int): Ring {
    var i := FindTask(r, ByUserId(id), 0);
    if i < |r| then r[i := r[i].(exiting := true, exitCode := -1)] else r
  }

  function Sleep(r: Ring, now: nat, ms: nat): Ring
    requires |r| > 0
  {
    r[0 := r[0].(sleeping := true, wakeTick := now + ms / 10)]
  }

  function WaitPipe(r: Ring, pipe: int): Ring
    requires |r| > 0
  {
    r[0 := r[0].(pipe := pipe)]
  }

  /** Only a task with a slot is marked. */
  function MarkExiting(r: Ring, code: int): Ring
    requires |r| > 0
  {
    r[0 := r[0].(exiting := true, exitCode := code)]
  }

  // ----- every reachable state

  /** Used slots are not free, and no two tasks have the same one. */
  predicate SlotsOwned(r: Ring, free: seq<bool>) {
    (forall i :: 0 <= i < |r| ==> r[i].slot == -1 || (0 <= r[i].slot < |free| && !free[r[i].slot])) &&
    forall i, j :: 0 <= i < j < |r| && r[i].slot >= 0 ==> r[i].slot != r[j].slot
  }

  predicate IdsDistinct(r: Ring, nextId: int) {
    (forall i :: 0 <= i < |r| ==> r[i].id < nextId) && forall i, j :: 0 <= i < j < |r| ==> r[i].id != r[j].id
  }

  /** Tasks of the kernel never exit, and there is one. */
  predicate KernelStays(r: Ring) {
    (forall i :: 0 <= i < |r| && r[i].slot == -1 ==> !r[i].exiting) && exists i :: 0 <= i < |r| && r[i].slot == -1
  }

  predicate Sound(k: Kernel) {
    |k.free| == PROGRAM_SLOTS && Timed(k.ring) && SlotsOwned(k.ring, k.free) && IdsDistinct(k.ring, k.nextId) &&
      KernelStays(k.ring)
  }

  lemma NotAlone(r: Ring)
    requires |r| > 0 && KernelStays(r)
    ensures r[0].exiting ==> |r| > 1
  {
  }

  datatype Op =
    | DoCreate
    | DoExec(program: Program, created: bool)
    | DoFork(created: bool)
    | DoTick(now: nat, ready: set<int>)
    | DoPriority(id: int, priority: int)
    | DoKillSlot(slot: int)
    | DoKillId(id: int)
    | DoSleep(now: nat, ms: nat)
    | DoWaitPipe(pipe: int)
    | DoExit(code: int)

  function Apply(k: Kernel, op: Op): Kernel
    requires |k.ring| > 0 && (k.ring[0].exiting ==> |k.ring| > 1)
  {
    match op
    case DoCreate => Create(k)
    case DoExec(program, created) => Exec(k, program, created)
    case DoFork(created) => Fork(k, created)
    case DoTick(now, ready) => Tick(k, now, ready)
    case DoPriority(id, p) => k.(ring := SetPriority(k.ring, id, p))
    case DoKillSlot(slot) => k.(ring := KillSlot(k.ring, slot))
    case DoKillId(id) => k.(ring := KillId(k.ring, id))
    case DoSleep(now, ms) => k.(ring := Sleep(k.ring, now, ms))
    case DoWaitPipe(pipe) => k.(ring := WaitPipe(k.ring, pipe))
    case DoExit(code) => if k.ring[0].slot >= 0 then k.(ring := MarkExiting(k.ring, code)) else k
  }

  /** Each task of `q` is one of `r`, with the same id and slot; no two come from one. */
  ghost predicate From(r: Ring, q: Ring, f: seq<nat>) {
    |f| == |q| && (forall i :: 0 <= i < |q| ==> f[i] < |r| && q[i].id == r[f[i]].id && q[i].slot == r[f[i]].slot) &&
    forall i, j :: 0 <= i < j < |q| ==> f[i] != f[j]
  }

  lemma FromKeeps(r: Ring, q: Ring, f: seq<nat>, free: seq<bool>, nextId: int)
    requires From(r, q, f) && SlotsOwned(r, free) && IdsDistinct(r, nextId)
    ensures SlotsOwned(q, free) && IdsDistinct(q, nextId)
  {
    forall i, j | 0 <= i < j < |q|
      ensures q[i].id != q[j].id && (q[i].slot >= 0 ==> q[i].slot != q[j].slot)
    {
      if f[i] < f[j] { assert r[f[i]].id != r[f[j]].id; } else { assert r[f[j]].id != r[f[i]].id; }
    }
  }

  lemma OthersFrom(r: Ring, w: Ring) returns (f: seq<nat>)
    requires |r| > 0 && |w| == |r| && forall i :: 0 <= i < |r| ==> w[i].id == r[i].id && w[i].slot == r[i].slot
    ensures From(r, Others(w), f) && (w[0].exiting ==> 0 !in f)
  {
    hide Wake, Blocked;
    var rest := Others(w);
    f := seq(|rest|, m => if m + 1 < |r| then m + 1 else 0);
    assert forall i :: 0 <= i < |r| - 1 ==> rest[i] == w[i + 1];
  }

  lemma RotateFrom(r: Ring, c: nat) returns (f: seq<nat>)
    requires c < |r|
    ensures From(r, WithSlice(Rotate(r, c)), f)
  {
    f := seq(|r|, i requires 0 <= i < |r| => if i < |r| - c then i + c else i - (|r| - c));
  }

  lemma FromTrans(r: Ring, p: Ring, q: Ring, f: seq<nat>, g: seq<nat>) returns (h: seq<nat>)
    requires From(r, p, f) && From(p, q, g)
    ensures From(r, q, h) && forall x :: x in h ==> x in f
  {
    h := seq(|q|, i requires 0 <= i < |q| => f[g[i]]);
    forall i, j | 0 <= i < j < |q| ensures h[i] != h[j] {
      if g[i] < g[j] { assert f[g[i]] != f[g[j]]; } else { assert f[g[j]] != f[g[i]]; }
    }
  }

  /** Where the tasks of the ring after schedule() were before. */
  lemma Origin(r: Ring, now: nat, ready: set<int>) returns (f: seq<nat>)
    requires |r| > 0 && (r[0].exiting ==> |r| > 1)
    ensures From(r, Schedule(r, now, ready), f) && (r[0].exiting ==> 0 !in f)
  {
    hide Choice, Rotate, From;
    var w := WakeAll(r, now, ready);
    if Continues(w[0]) {
      f := seq(|r|, i => i);
      SameFrom(r, Schedule(r, now, ready), f);
    } else {
      var rest := Others(w);
      var f0 := OthersFrom(r, w);
      var g := RotateFrom(rest, Choice(rest, 0));
      f := FromTrans(r, rest, WithSlice(Rotate(rest, Choice(rest, 0))), f0, g);
    }
  }

  lemma SameFrom(r: Ring, q: Ring, f: seq<nat>)
    requires |q| == |r| == |f| && forall i :: 0 <= i < |r| ==> f[i] == i && q[i].id == r[i].id && q[i].slot == r[i].slot
    ensures From(r, q, f)
  {
  }

  lemma TurnedStays(rest: Ring, c: nat)
    requires c < |rest| && KernelStays(rest)
    ensures KernelStays(WithSlice(Rotate(rest, c)))
  {
    var q := WithSlice(Rotate(rest, c));
    var m :| 0 <= m < |rest| && rest[m].slot == -1;
    assert q[if m >= c then m - c else m + |rest| - c].slot == -1;
  }

  /** Only the current task can go, and no kernel task exits. */
  lemma TickStays(r: Ring, now: nat, ready: set<int>)
    requires |r| > 0 && (r[0].exiting ==> |r| > 1) && KernelStays(r)
    ensures KernelStays(Schedule(r, now, ready))
  {
    hide Choice, Rotate, WithSlice, KernelStays;
    var w := WakeAll(r, now, ready);
    if Continues(w[0]) {
      SameStays(r, [Charged(w[0])] + w[1..]);
    } else {
      OthersStays(r, w);
      TurnedStays(Others(w), Choice(Others(w), 0));
    }
  }

  lemma SameStays(r: Ring, q: Ring)
    requires KernelStays(r) && |q| == |r| && forall i :: 0 <= i < |r| ==>
             q[i].slot == r[i].slot && q[i].exiting == r[i].exiting
    ensures KernelStays(q)
  {
    var i :| 0 <= i < |r| && r[i].slot == -1;
    assert q[i].slot == -1;
  }

  lemma OthersStays(r: Ring, w: Ring)
    requires |r| > 0 && KernelStays(r) && |w| == |r| && forall i :: 0 <= i < |r| ==>
             w[i].slot == r[i].slot && w[i].exiting == r[i].exiting
    ensures KernelStays(Others(w))
  {
    hide Blocked;
    var rest := Others(w);
    var i :| 0 <= i < |r| && r[i].slot == -1;
    assert forall k :: 0 <= k < |r| - 1 ==> rest[k] == w[k + 1];
    assert rest[if i == 0 then |rest| - 1 else i - 1].slot == -1;
  }

  lemma TickSound(k: Kernel, now: nat, ready: set<int>)
    requires Sound(k) && (k.ring[0].exiting ==> |k.ring| > 1)
    ensures Sound(Tick(k, now, ready))
  {
    hide Timed, Schedule;
    var r := k.ring;
    var f := Origin(r, now, ready);
    var q := Schedule(r, now, ready);
    ScheduleTimed(r, now, ready);
    TickStays(r, now, ready);
    FromKeeps(r, q, f, k.free, k.nextId);
    if r[0].exiting {
      forall i | 0 <= i < |q| && q[i].slot >= 0 ensures q[i].slot != r[0].slot { assert f[i] > 0; }
    }
  }

  lemma InsertSound(k: Kernel, t: Task, slot: int)
    requires Sound(k) && t.slot == slot && t.id == k.nextId && !t.exiting && PRIORITY_MIN <= t.priority <= PRIORITY_MAX
    requires slot == -1 || (0 <= slot < PROGRAM_SLOTS && k.free[slot])
    ensures Sound(Kernel(Insert(k.ring, t), if slot == -1 then k.free else k.free[slot := false], k.nextId + 1))
  {
    var q := Insert(k.ring, t);
    InsertOwned(k.ring, k.free, k.nextId, t);
    var m :| 0 <= m < |k.ring| && k.ring[m].slot == -1;
    assert q[if m == 0 then 0 else m + 1].slot == -1;
  }

  lemma InsertOwned(r: Ring, free: seq<bool>, nextId: int, t: Task)
    requires |r| > 0 && SlotsOwned(r, free) && IdsDistinct(r, nextId) && t.id == nextId
    requires t.slot == -1 || (0 <= t.slot < |free| && free[t.slot])
    ensures SlotsOwned(Insert(r, t), if t.slot == -1 then free else free[t.slot := false]) &&
            IdsDistinct(Insert(r, t), nextId + 1)
  {
    var q := Insert(r, t);
    assert forall i :: 2 <= i < |q| ==> q[i] == r[i - 1];
    forall i, j | 0 <= i < j < |q|
      ensures q[i].id != q[j].id && (q[i].slot >= 0 ==> q[i].slot != q[j].slot)
    {
    }
  }

  /** Changes to one task that leave its id, slot and slice alone. */
  lemma ChangedSound(k: Kernel, i: nat, t: Task)
    requires Sound(k) && i < |k.ring| && t.id == k.ring[i].id && t.slot == k.ring[i].slot && t.slice == k.ring[i].slice
    requires PRIORITY_MIN <= t.priority <= PRIORITY_MAX && (t.exiting ==> t.slot != -1)
    ensures Sound(k.(ring := k.ring[i := t]))
  {
    var m :| 0 <= m < |k.ring| && k.ring[m].slot == -1;
    assert k.ring[i := t][m].slot == -1;
  }

  lemma OpSound(k: Kernel, op: Op)
    requires Sound(k) && (k.ring[0].exiting ==> |k.ring| > 1)
    ensures Sound(Apply(k, op))
  {
    hide SlotsOwned, IdsDistinct, KernelStays;
    match op
    case DoCreate => InsertSound(k, NewTask(k.nextId, -1), -1);
    case DoExec(program, created) =>
      var slot := FreeSlot(k.free, 0);
      if slot != -1 && program == Loaded {
        if created { InsertSound(k, NewTask(k.nextId, slot), slot); } else { LeakSound(k, slot); }
      }
    case DoFork(created) =>
      var slot := FreeSlot(k.free, 0);
      if slot != -1 { InsertSound(k, Child(k.ring[0], k.nextId, slot), slot); }
    case DoTick(now, ready) => TickSound(k, now, ready);
    case DoPriority(id, p) =>
      var i := FindTask(k.ring, ById(id), 0);
      if i < |k.ring| { StaysExiting(k, i); ChangedSound(k, i, k.ring[i].(priority := Clamp(p))); }
    case DoKillSlot(slot) =>
      var i := FindTask(k.ring, BySlot(slot), 0);
      if slot >= 0 && i < |k.ring| { ChangedSound(k, i, k.ring[i].(exiting := true, exitCode := -1)); }
    case DoKillId(id) =>
      var i := FindTask(k.ring, ByUserId(id), 0);
      if i < |k.ring| { ChangedSound(k, i, k.ring[i].(exiting := true, exitCode := -1)); }
    case DoSleep(now, ms) =>
      StaysExiting(k, 0);
      ChangedSound(k, 0, k.ring[0].(sleeping := true, wakeTick := now + ms / 10));
    case DoWaitPipe(pipe) => StaysExiting(k, 0); ChangedSound(k, 0, k.ring[0].(pipe := pipe));
    case DoExit(code) => if k.ring[0].slot >= 0 { ChangedSound(k, 0, k.ring[0].(exiting := true, exitCode := code)); }
  }

  lemma StaysExiting(k: Kernel, i: nat)
    requires Sound(k) && i < |k.ring|
    ensures k.ring[i].exiting ==> k.ring[i].slot != -1
  {
  }

  lemma LeakSound(k: Kernel, slot: nat)
    requires Sound(k) && slot < PROGRAM_SLOTS && k.free[slot]
    ensures Sound(k.(free := k.free[slot := false]))
  {
  }

  ghost function Run(k: Kernel, ops: seq<Op>): (r: Kernel)
    requires Sound(k)
    ensures Sound(r)
  {
    if ops == [] then k
    else
      var r := Run(k, ops[..|ops| - 1]);
      NotAlone(r.ring);
      OpSound(r, ops[|ops| - 1]);
      Apply(r, ops[|ops| - 1])
  }

  /** In every run: no two tasks share a program slot, no task runs in a slot that
      exec or fork could hand out, and a kernel task is always there. */
  lemma SlotsNeverShared(k: Kernel, ops: seq<Op>, i: nat, j: nat)
    requires Sound(k) && i < j < |Run(k, ops).ring|
    ensures var r := Run(k, ops);
            r.ring[i].id != r.ring[j].id &&
            (r.ring[i].slot >= 0 ==> r.ring[i].slot != r.ring[j].slot && r.ring[i].slot != FreeSlot(r.free, 0)) &&
            exists m :: 0 <= m < |r.ring| && r.ring[m].slot == -1
  {
    var r := Run(k, ops);
    assert SlotsOwned(r.ring, r.free) && IdsDistinct(r.ring, r.nextId) && KernelStays(r.ring);
  }

  // ----- slots that are lost

  predicate HasSlot(r: Ring, s: int) {
    exists i :: 0 <= i < |r| && r[i].slot == s
  }

  /** An exit frees exactly the slot of the task that leaves, and only it is left. */
  lemma TickFrees(k: Kernel, now: nat, ready: set<int>, s: nat)
    requires Sound(k) && (k.ring[0].exiting ==> |k.ring| > 1) && s < PROGRAM_SLOTS
    ensures var k', leaves := Tick(k, now, ready), k.ring[0].exiting && k.ring[0].slot == s;
            |k'.free| == |k.free| && (k'.free[s] <==> k.free[s] || leaves) &&
            (HasSlot(k'.ring, s) <==> HasSlot(k.ring, s) && !leaves)
  {
    hide Schedule, Timed;
    var r, q := k.ring, Schedule(k.ring, now, ready);
    var f := Origin(r, now, ready);
    if HasSlot(q, s) {
      var j :| 0 <= j < |q| && q[j].slot == s;
      assert r[f[j]].slot == s;
    }
    if HasSlot(r, s) && !(r[0].exiting && r[0].slot == s) {
      var i :| 0 <= i < |r| && r[i].slot == s;
      var j := StaysIn(r, now, ready, i);
      assert r[f[j]].id == r[i].id;
      assert f[j] == i;
    }
  }

  /** Where a task that does not leave is afterwards. */
  lemma StaysIn(r: Ring, now: nat, ready: set<int>, i: nat) returns (j: nat)
    requires |r| > 0 && (r[0].exiting ==> |r| > 1) && i < |r| && (r[0].exiting ==> i > 0)
    ensures j < |Schedule(r, now, ready)| && Schedule(r, now, ready)[j].id == r[i].id
  {
    hide Schedule;
    RingKept(r, now, ready);
    var kept, q := if r[0].exiting then Ids(r)[1..] else Ids(r), Schedule(r, now, ready);
    var k :| 0 <= k < |kept| && Ids(q) == kept[k..] + kept[..k];
    var m := if r[0].exiting then i - 1 else i;
    assert kept[m] == r[i].id;
    j := if m >= k then m - k else m + |kept| - k;
    assert Ids(q)[j] == kept[m];
  }

  /** A slot that nobody runs in and nobody can be given. */
  predicate Lost(k: Kernel, s: nat) {
    s < |k.free| && !k.free[s] && !HasSlot(k.ring, s)
  }

  /** do_exec has put a program into the slot and has no memory for its task. */
  predicate Loses(k: Kernel, op: Op, s: nat) {
    op.DoExec? && op.program == Loaded && !op.created && FreeSlot(k.free, 0) == s
  }

  lemma OpLoses(k: Kernel, op: Op, s: nat)
    requires Sound(k) && (k.ring[0].exiting ==> |k.ring| > 1) && s < PROGRAM_SLOTS
    ensures Lost(Apply(k, op), s) <==> Lost(k, s) || Loses(k, op, s)
  {
    hide Tick, Fork, Exec, SetPriority, KillSlot, KillId, IdsDistinct, KernelStays, HasSlot, SlotsOwned;
    match op
    case DoCreate => InsertSlots(k.ring, NewTask(k.nextId, -1), s);
    case DoExec(program, created) => ExecLoses(k, program, created, s);
    case DoFork(created) => ForkLoses(k, created, s);
    case DoTick(now, ready) => TickFrees(k, now, ready, s); NoneIn(k, s);
    case DoPriority(id, p) => RequestSlots(k.ring, id, p, 0, s);
    case DoKillSlot(slot) => RequestSlots(k.ring, slot, 0, 0, s);
    case DoKillId(id) => RequestSlots(k.ring, id, 0, 0, s);
    case DoSleep(now, ms) => RequestSlots(k.ring, ms, 0, now, s);
    case DoWaitPipe(pipe) => RequestSlots(k.ring, pipe, 0, 0, s);
    case DoExit(code) => RequestSlots(k.ring, code, 0, 0, s);
  }

  lemma ExecLoses(k: Kernel, program: Program, created: bool, s: nat)
    requires |k.ring| > 0 && SlotsOwned(k.ring, k.free) && s < |k.free|
    ensures Lost(Exec(k, program, created), s) <==> Lost(k, s) || Loses(k, DoExec(program, created), s)
  {
    hide HasSlot, Insert, SlotsOwned;
    NoneIn(k, s);
    InsertSlots(k.ring, NewTask(k.nextId, FreeSlot(k.free, 0)), s);
  }

  lemma ForkLoses(k: Kernel, created: bool, s: nat)
    requires |k.ring| > 0 && SlotsOwned(k.ring, k.free) && s < |k.free|
    ensures Lost(Fork(k, created), s) <==> Lost(k, s)
  {
    hide HasSlot, Insert, SlotsOwned;
    NoneIn(k, s);
    InsertSlots(k.ring, Child(k.ring[0], k.nextId, FreeSlot(k.free, 0)), s);
  }

  /** No request to or about a task changes who has which slot. */
  lemma RequestSlots(r: Ring, x: int, p: int, now: nat, s: nat)
    requires |r| > 0
    ensures HasSlot(SetPriority(r, x, p), s) <==> HasSlot(r, s)
    ensures HasSlot(KillSlot(r, x), s) <==> HasSlot(r, s)
    ensures HasSlot(KillId(r, x), s) <==> HasSlot(r, s)
    ensures x >= 0 ==> (HasSlot(Sleep(r, now, x), s) <==> HasSlot(r, s))
    ensures HasSlot(WaitPipe(r, x), s) <==> HasSlot(r, s)
    ensures HasSlot(MarkExiting(r, x), s) <==> HasSlot(r, s)
  {
    hide HasSlot, FindTask;
    SameSlots(r, SetPriority(r, x, p), s);
    SameSlots(r, KillSlot(r, x), s);
    SameSlots(r, KillId(r, x), s);
    if x >= 0 { SameSlots(r, Sleep(r, now, x), s); }
    SameSlots(r, WaitPipe(r, x), s);
    SameSlots(r, MarkExiting(r, x), s);
  }

  /** Nobody runs in a free slot. */
  lemma NoneIn(k: Kernel, s: nat)
    requires SlotsOwned(k.ring, k.free) && s < |k.free|
    ensures k.free[s] ==> !HasSlot(k.ring, s)
    ensures k.ring != [] && k.ring[0].slot == s ==> HasSlot(k.ring, s)
  {
  }

  lemma InsertSlots(r: Ring, t: Task, s: nat)
    requires |r| > 0
    ensures HasSlot(Insert(r, t), s) <==> HasSlot(r, s) || t.slot == s
  {
    var q := Insert(r, t);
    assert q[1] == t;
    if HasSlot(r, s) {
      var i :| 0 <= i < |r| && r[i].slot == s;
      assert q[if i == 0 then 0 else i + 1].slot == s;
    }
    if HasSlot(q, s) && t.slot != s {
      var i :| 0 <= i < |q| && q[i].slot == s;
      assert r[if i == 0 then 0 else i - 1].slot == s;
    }
  }

  lemma SameSlots(r: Ring, q: Ring, s: nat)
    requires |r| == |q| && forall i :: 0 <= i < |r| ==> q[i].slot == r[i].slot
    ensures HasSlot(q, s) <==> HasSlot(r, s)
  {
  }

  /** That happens at the i-th operation of a run. */
  ghost predicate LosesAt(k: Kernel, ops: seq<Op>, i: nat, s: nat)
    requires Sound(k) && i < |ops|
  {
    Loses(Run(k, ops[..i]), ops[i], s)
  }

  /** In every run from a state without lost slots, a slot is lost exactly if at some
      point do_exec took it and had no memory for the task; nothing gives it back. */
  lemma {:induction false} LostExactly(k: Kernel, ops: seq<Op>, s: nat)
    requires Sound(k) && s < PROGRAM_SLOTS && !Lost(k, s)
    ensures Lost(Run(k, ops), s) <==> exists i :: 0 <= i < |ops| && LosesAt(k, ops, i, s)
  {
    hide Lost, Loses, Sound, Apply, LosesAt;
    if ops != [] {
      var n := |ops| - 1;
      LostExactly(k, ops[..n], s);
      LastLoses(k, ops, s);
      forall i | 0 <= i < n ensures LosesAt(k, ops[..n], i, s) <==> LosesAt(k, ops, i, s) {
        LosesEarlier(k, ops, n, i, s);
      }
    }
  }

  lemma LosesEarlier(k: Kernel, ops: seq<Op>, n: nat, i: nat, s: nat)
    requires Sound(k) && i < n <= |ops|
    ensures LosesAt(k, ops[..n], i, s) <==> LosesAt(k, ops, i, s)
  {
    hide Loses, Sound;
    assert ops[..n][..i] == ops[..i];
  }

  lemma LastLoses(k: Kernel, ops: seq<Op>, s: nat)
    requires Sound(k) && s < PROGRAM_SLOTS && ops != []
    ensures Lost(Run(k, ops), s) <==> Lost(Run(k, ops[..|ops| - 1]), s) || LosesAt(k, ops, |ops| - 1, s)
  {
    hide Lost, Loses, Sound, Apply;
    NotAlone(Run(k, ops[..|ops| - 1]).ring) by { SoundStays(Run(k, ops[..|ops| - 1])); }
    OpLoses(Run(k, ops[..|ops| - 1]), ops[|ops| - 1], s);
  }

  lemma SoundStays(k: Kernel)
    requires Sound(k)
    ensures |k.ring| > 0 && KernelStays(k.ring)
  {
  }

  // ----- what each request does, field by field

  predicate AnyFree(k: Kernel) {
    exists s :: 0 <= s < |k.free| && k.free[s]
  }

  /** The task with a fresh id that is put behind the current one. */
  predicate Newcomer(k: Kernel, t: Task, slot: int, priority: int) {
    t.id == k.nextId && t.slot == slot && t.priority == priority && t.slice == priority && Ready(t) && t.ticks == 0
  }

  /** do_exec: a program that loads gets the lowest free slot, and with memory a task of
      priority 3 behind the current one; every error leaves the kernel as it was. */
  lemma ExecExact(k: Kernel, program: Program, memory: bool)
    requires |k.ring| > 0
    ensures var r, k' := ExecResult(k, program), Exec(k, program, memory);
            (r == -1 <==> program.NoName? || (AnyFree(k) && program.Unreadable?)) &&
            (r == -2 <==> !program.NoName? && !AnyFree(k)) && (r == -3 <==> AnyFree(k) && program.Rejected?) &&
            (r >= 0 <==> AnyFree(k) && program.Loaded?) && (r < 0 ==> k' == k) &&
            (r >= 0 ==>
               r < |k.free| && k.free[r] && (forall s :: 0 <= s < r ==> !k.free[s]) && k'.free == k.free[r := false] &&
               if memory then
                 |k'.ring| == |k.ring| + 1 && Newcomer(k, k'.ring[1], r, 3) && k'.nextId == k.nextId + 1 &&
                 k'.ring == [k.ring[0], k'.ring[1]] + k.ring[1..]
               else k'.ring == k.ring)
  {
    FreeExact(k);
  }

  lemma FreeExact(k: Kernel)
    ensures AnyFree(k) <==> FreeSlot(k.free, 0) != -1
  {
    var f := FreeSlot(k.free, 0);
    if f != -1 { assert k.free[f]; }
  }

  /** fork: a program that is not being killed gets, when a slot and memory are left, a
      child in the lowest free slot, with its own priority and a whole slice. */
  lemma ForkExact(k: Kernel, memory: bool)
    requires |k.ring| > 0
    ensures var k', t := Fork(k, memory), k.ring[0];
            if !t.exiting && t.slot >= 0 && AnyFree(k) && memory then
              |k'.ring| == |k.ring| + 1 && k'.ring == [t, k'.ring[1]] + k.ring[1..] && k'.nextId == k.nextId + 1 &&
              var s := k'.ring[1].slot;
              0 <= s < |k.free| && k.free[s] && (forall f :: 0 <= f < s ==> !k.free[f]) &&
                k'.free == k.free[s := false] &&
              Newcomer(k, k'.ring[1], s, t.priority)
            else k' == k
  {
    FreeExact(k);
  }

  /** Setting a priority changes that of the one task with the id, to within 1 and 10. */
  lemma PriorityExact(k: Kernel, id: int, p: int, i: nat)
    requires Sound(k) && i < |k.ring|
    ensures var q, t := SetPriority(k.ring, id, p), k.ring[i];
            |q| == |k.ring| &&
            q[i] == if t.id == id then t.(priority := if p < 1 then 1 else if p > 10 then 10 else p) else t
  {
    assert IdsDistinct(k.ring, k.nextId);
    FirstIsOnly(k.ring, ById(id), i);
  }

  /** Killing marks exactly the task in the slot, or with the id if it has a slot. */
  lemma KillExact(k: Kernel, x: int, i: nat)
    requires Sound(k) && i < |k.ring|
    ensures var q, q', t := KillSlot(k.ring, x), KillId(k.ring, x), k.ring[i];
            |q| == |q'| == |k.ring| &&
            q[i] == (if x >= 0 && t.slot == x then t.(exiting := true, exitCode := -1) else t) &&
            q'[i] == (if t.slot >= 0 && t.id == x then t.(exiting := true, exitCode := -1) else t)
  {
    assert IdsDistinct(k.ring, k.nextId) && SlotsOwned(k.ring, k.free);
    if x >= 0 { FirstIsOnly(k.ring, BySlot(x), i); }
    FirstIsOnly(k.ring, ByUserId(x), i);
  }

  lemma FirstIsOnly(r: Ring, key: Key, i: nat)
    requires i < |r| && forall a, b :: 0 <= a < b < |r| ==> !(Matches(r[a], key) && Matches(r[b], key))
    ensures FindTask(r, key, 0) == i <==> Matches(r[i], key)
  {
  }
}
