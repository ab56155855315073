/** The scheduler of src/kernel/tasking.c on the linked ring of task records, with
    the slot table of src/kernel/kernel.c. Each method does what the operation of
    the same name in Processes says. */
module Tasking {
  import opened Scheduling
  import opened Processes

  class TaskNode {
    const id: int
    const slot: int
    var exiting: bool
    var exitCode: int
    var priority: int
    var slice: int
    var sleeping: bool
    var wakeTick: nat
    var pipe: int
    var ticks: nat
    var next: TaskNode?

    ghost function Value(): Task
      reads this
    {
      Task(id, slot, exiting, exitCode, priority, slice, sleeping, wakeTick, pipe, ticks)
    }

    method WakeUp(now: nat, ready: set<int>)
      modifies this`sleeping, this`pipe
      ensures Value() == Wake(old(Value()), now, ready)
    {
      if sleeping && now >= wakeTick { sleeping := false; }
      if pipe >= 0 && pipe in ready { pipe := -1; }
    }

    method MarkExiting(code: int)
      modifies this`exiting, this`exitCode
      ensures Value() == old(Value()).(exiting := true, exitCode := code)
    {
      exiting := true;
      exitCode := code;
    }

    constructor (id: int, slot: int, priority: int)
      ensures Value() == NewTask(id, slot).(priority := priority, slice := priority) && next == null
    {
      this.id, this.slot, this.priority, slice := id, slot, priority, priority;
      exiting, exitCode, sleeping, wakeTick, pipe, ticks, next := false, 0, false, 0, -1, 0, null;
    }
  }

  /** The nodes form one cycle, in the order listed. */
  ghost predicate Cycle(ring: seq<TaskNode>)
    reads ring
  {
    |ring| > 0 && (forall i, j :: 0 <= i < j < |ring| ==> ring[i] != ring[j]) &&
    (forall i :: 0 <= i < |ring| - 1 ==> ring[i].next == ring[i + 1]) && ring[|ring| - 1].next == ring[0]
  }

  ghost function Values(ring: seq<TaskNode>): (r: Ring)
    reads ring
    ensures |r| == |ring| && forall i :: 0 <= i < |ring| ==> r[i] == ring[i].Value()
  {
    seq(|ring|, i requires 0 <= i < |ring| reads ring => ring[i].Value())
  }

  class Scheduler {
    var current: TaskNode
    const slotFree: array<bool>
    var nextId: int
    ghost var ring: seq<TaskNode>

    ghost predicate Ringed()
      reads this, ring
    {
      Cycle(ring) && current == ring[0]
    }

    ghost predicate Valid()
      reads this, ring, slotFree
    {
      Ringed() && slotFree.Length == PROGRAM_SLOTS && Sound(Abstract())
    }

    ghost function Abstract(): Kernel
      reads this, ring, slotFree
    {
      Kernel(Values(ring), slotFree[..], nextId)
    }

    /** init_tasking, with every slot free */
    constructor ()
      ensures Valid() && fresh(ring) && fresh(slotFree)
      ensures Abstract() == Kernel([NewTask(0, -1)], seq(PROGRAM_SLOTS, _ => true), 1)
    {
      hide Sound, Blocked;
      var task0 := new TaskNode(0, -1, PRIORITY_DEFAULT);
      current, nextId, ring := task0, 1, [task0];
      slotFree := new bool[PROGRAM_SLOTS](_ => true);
      new;
      task0.next := task0;
      assert Values(ring) == [NewTask(0, -1)];
      assert slotFree[..] == seq(PROGRAM_SLOTS, _ => true);
      InitialSound();
    }

    /** The timer interrupt's schedule(). `ready` are the pipes that have data or
        whose writer is done. */
    method Schedule(now: nat, ready: set<int>)
      requires Valid()
      modifies this, ring, slotFree
      ensures Valid() && Abstract() == Tick(old(Abstract()), now, ready)
    {
      hide Sound, Cycle, Values, WakeAll, Rotate, WithSlice, Choice, Charged, Continues, KernelStays, Tick;
      ghost var k0 := Abstract();
      SoundFacts(k0);
      TickSound(k0, now, ready);
      TickSteps(k0, now, ready);
      WakeScan(now, ready);
      ghost var w := Values(ring);
      var continues := Charge();
      if continues {
        assert Abstract() == Tick(k0, now, ready);
        return;
      }
      SwitchAway(w);
      assert Abstract() == Tick(k0, now, ready);
    }

    /** on_task_exit, as far as slots go */
    method OnTaskExit(slot: nat)
      requires slot < slotFree.Length
      modifies slotFree
      ensures slotFree[..] == old(slotFree[..])[slot := true]
    {
      slotFree[slot] := true;
    }

    /** The second half of schedule(): another task gets the CPU. */
    method SwitchAway(ghost w: Ring)
      requires Ringed() && |w| > 0 && Values(ring) == w[0 := Charged(w[0])] && (w[0].exiting ==> |w| > 1) &&
               w[0].slot < slotFree.Length
      modifies this`current, this`ring, ring, slotFree
      ensures |Others(w)| > 0 && Ringed() && Values(ring) == WithSlice(Rotate(Others(w), Choice(Others(w), 0)))
      ensures slotFree[..] == if w[0].exiting &&
              0 <= w[0].slot then old(slotFree[..])[w[0].slot := true] else old(slotFree[..])
    {
      hide Cycle, Values, Rotate, WithSlice, Choice, Others;
      var dying := current;
      var immediate := dying.next;
      ghost var rest := RestOf(ring, dying.exiting);
      FrontFacts(ring, w);
      CycleFacts(ring);
      if dying.exiting {
        Unlink(dying);
        if dying.slot >= 0 { OnTaskExit(dying.slot); }
      }
      RestValues(ring, rest, w, dying.exiting);
      Switch(immediate, rest);
    }

    /** Wakes sleepers whose time has come, and readers whose pipe is ready. */
    method WakeScan(now: nat, ready: set<int>)
      requires Ringed()
      modifies ring
      ensures Ringed() && Values(ring) == WakeAll(old(Values(ring)), now, ready)
    {
      hide Wake;
      ghost var v0 := Values(ring);
      var t := current;
      ghost var k := 0;
      while true
        invariant 0 <= k < |ring| && t == ring[k] && Ringed()
        invariant forall i :: 0 <= i < k ==> ring[i].Value() == Wake(v0[i], now, ready)
        invariant forall i :: k <= i < |ring| ==> ring[i].Value() == v0[i]
        decreases |ring| - k
      {
        t.WakeUp(now, ready);
        k := k + 1;
        t := t.next;
        assert k < |ring| ==> t == ring[k] != ring[0];
        if t == current { break; }
      }
    }

    /** Counts the tick of the current task; whether it keeps the CPU. */
    method Charge() returns (continues: bool)
      requires Ringed()
      modifies current`ticks, current`slice
      ensures Ringed() && continues == Continues(old(Values(ring)[0]))
      ensures Values(ring) == old(Values(ring))[0 := Charged(old(Values(ring))[0])]
    {
      current.ticks := current.ticks + 1;
      if !current.exiting && !current.sleeping && current.pipe < 0 {
        current.slice := current.slice - 1;
        return current.slice > 0;
      }
      return false;
    }

    /** Takes the current task out of the ring. */
    method Unlink(dying: TaskNode)
      requires Ringed() && dying == current && |ring| > 1
      modifies ring
      ensures Cycle(RestOf(ring, true)) && Values(ring) == old(Values(ring))
    {
      var immediate := dying.next;
      var pred := immediate;
      ghost var k := 1;
      while pred.next != dying
        invariant 1 <= k < |ring| && pred == ring[k]
        decreases |ring| - k
      {
        pred := pred.next;
        k := k + 1;
      }
      CycleLast(ring, k);
      pred.next := immediate;
      ghost var r := ring[1..];
      assert forall i :: 0 <= i < |r| ==> r[i] == ring[i + 1];
    }

    /** Gives the CPU to the chosen task, with a full slice. */
    method Switch(immediate: TaskNode, ghost rest: seq<TaskNode>)
      requires Cycle(rest) && rest[0] == immediate
      modifies this`current, this`ring, rest
      ensures Ringed() && Values(ring) == WithSlice(Rotate(old(Values(rest)), Choice(old(Values(rest)), 0)))
    {
      hide Choice, Rotate, WithSlice;
      ghost var v0 := Values(rest);
      var next, c := Choose(immediate, rest);
      next.slice := next.priority;
      current := next;
      ring := rest[c..] + rest[..c];
      SwitchFacts(rest, c, v0);
    }

    /** The first task from `immediate` on that is not blocked; all the way round
        the last one. */
    method Choose(immediate: TaskNode, ghost rest: seq<TaskNode>) returns (next: TaskNode, ghost c: nat)
      requires Cycle(rest) && rest[0] == immediate
      ensures c == Choice(Values(rest), 0) && next == rest[c]
    {
      next, c := immediate, 0;
      while next.sleeping || next.pipe >= 0
        invariant 0 <= c < |rest| && next == rest[c] && Choice(Values(rest), 0) == Choice(Values(rest), c)
        decreases |rest| - c
      {
        var candidate := next.next;
        if candidate == immediate { break; }
        next := candidate;
        c := c + 1;
      }
    }

    // ----- new tasks

    /** A task record goes into the ring behind the current one. */
    method InsertTask(slot: int, priority: int)
      requires Ringed() && Timed(Values(ring))
      modifies this`ring, this`nextId, current
      ensures Ringed() && nextId == old(nextId) + 1
      ensures Values(ring) == Insert(old(Values(ring)),
              NewTask(old(nextId), slot).(priority := priority, slice := priority))
    {
      var t := new TaskNode(nextId, slot, priority);
      nextId := nextId + 1;
      t.next := current.next;
      current.next := t;
      ring := [ring[0], t] + ring[1..];
      assert Values(old(ring)) == old(Values(ring));
      InsertFacts(old(ring), ring, t);
    }

    method FindFreeSlot() returns (slot: int)
      ensures slot == FreeSlot(slotFree[..], 0)
    {
      for i := 0 to slotFree.Length
        invariant FreeSlot(slotFree[..], 0) == FreeSlot(slotFree[..], i)
      {
        if slotFree[i] { return i; }
      }
      return -1;
    }

    /** task_create, when there is memory */
    method CreateTask()
      requires Valid()
      modifies this, current
      ensures Valid() && Abstract() == Create(old(Abstract()))
    {
      hide Sound;
      OpSound(Abstract(), DoCreate) by { SoundFacts(Abstract()); }
      SoundTimed(Abstract());
      InsertTask(-1, PRIORITY_DEFAULT);
    }

    /** do_exec, as far as slots and tasks go. */
    method DoExec(program: Program, memory: bool) returns (slot: int)
      requires Valid()
      modifies this, current, slotFree
      ensures Valid() && Abstract() == Exec(old(Abstract()), program, memory)
      ensures slot == ExecResult(old(Abstract()), program)
    {
      hide Sound, FreeSlot, Cycle, Values, Insert, Timed;
      OpSound(Abstract(), Op.DoExec(program, memory)) by { SoundFacts(Abstract()); }
      SoundTimed(Abstract());
      if program == NoName { return -1; }
      slot := FindFreeSlot();
      if slot < 0 { return -2; }
      if program == Unreadable { return -1; }
      if program == Rejected { return -3; }
      slotFree[slot] := false;
      assert slotFree[..] == old(slotFree[..])[slot := false];
      if memory { InsertTask(slot, PRIORITY_DEFAULT); }
    }

    /** sys_fork_impl, as far as slots and tasks go; -1 when there is no child. */
    method DoFork(memory: bool) returns (pid: int)
      requires Valid()
      modifies this, current, slotFree
      ensures Valid() && Abstract() == Fork(old(Abstract()), memory)
      ensures pid == if Abstract() == old(Abstract()) then -1 else old(nextId)
    {
      hide Sound, FreeSlot, Cycle, Values, Insert, Timed;
      OpSound(Abstract(), Op.DoFork(memory)) by { SoundFacts(Abstract()); }
      SoundTimed(Abstract());
      CurrentValue(ring, current);
      if current.exiting { return -1; }
      if current.slot < 0 { return -1; }
      var slot := FindFreeSlot();
      if slot < 0 { return -1; }
      if !memory { return -1; }
      pid := nextId;
      InsertTask(slot, current.priority);
      slotFree[slot] := false;
      assert slotFree[..] == old(slotFree[..])[slot := false];
    }

    // ----- requests

    /** Walks the ring from the current task on. */
    method FindTaskNode(key: Key) returns (t: TaskNode?, ghost i: nat)
      requires Ringed()
      ensures i == FindTask(Values(ring), key, 0) && (t == null <==> i == |ring|) && (t != null ==> t == ring[i])
    {
      t, i := current, 0;
      while true
        invariant 0 <= i < |ring| && t == ring[i]
        invariant FindTask(Values(ring), key, 0) == FindTask(Values(ring), key, i)
        decreases |ring| - i
      {
        assert Values(ring)[i] == t.Value();
        var found := match key {
          case ById(id) => t.id == id
          case BySlot(slot) => t.slot == slot
          case ByUserId(id) => t.id == id && t.slot >= 0
        };
        if found { return; }
        t := t.next;
        i := i + 1;
        assert i < |ring| ==> t == ring[i] != ring[0];
        if t == current { break; }
      }
      t := null;
    }

    /** task_set_priority */
    method SetTaskPriority(id: int, priority: int)
      requires Valid()
      modifies ring
      ensures Valid() && Abstract() == Apply(old(Abstract()), DoPriority(id, priority))
    {
      hide Sound, FindTask, Cycle, Values;
      OpSound(Abstract(), DoPriority(id, priority)) by { SoundFacts(Abstract()); }
      var p := priority;
      if p < PRIORITY_MIN { p := PRIORITY_MIN; }
      if p > PRIORITY_MAX { p := PRIORITY_MAX; }
      SetFirst(id, p);
    }

    method SetFirst(id: int, p: int)
      requires Ringed()
      modifies ring
      ensures Ringed()
      ensures var v, i := old(Values(ring)), FindTask(old(Values(ring)), ById(id), 0);
              Values(ring) == if i < |v| then v[i := v[i].(priority := p)] else v
    {
      hide FindTask, Matches;
      ghost var v := Values(ring);
      var t, i := FindTaskNode(ById(id));
      if t != null {
        t.priority := p;
        assert Values(ring) == v[i := v[i].(priority := p)];
      }
    }

    /** Marks the first task that matches as killed. */
    method KillFirst(key: Key) returns (found: bool)
      requires Ringed()
      modifies ring
      ensures Ringed()
      ensures var v, i := old(Values(ring)), FindTask(old(Values(ring)), key, 0);
              Values(ring) == (if i < |v| then v[i := v[i].(exiting := true, exitCode := -1)] else v) &&
              (found <==> i < |v|)
    {
      hide FindTask, Matches;
      ghost var v := Values(ring);
      var t, i := FindTaskNode(key);
      found := t != null;
      if t != null {
        t.MarkExiting(-1);
        assert Values(ring) == v[i := v[i].(exiting := true, exitCode := -1)];
      }
    }

    /** task_kill_by_slot */
    method KillBySlot(slot: int)
      requires Valid()
      modifies ring
      ensures Valid() && Abstract() == Apply(old(Abstract()), DoKillSlot(slot))
    {
      hide Sound, FindTask, Cycle, Values;
      if slot < 0 { return; }
      OpSound(Abstract(), DoKillSlot(slot)) by { SoundFacts(Abstract()); }
      var _ := KillFirst(BySlot(slot));
    }

    /** task_kill_by_pid */
    method KillByPid(pid: int) returns (r: int)
      requires Valid()
      modifies ring
      ensures r == if exists t :: t in old(Abstract().ring) && t.id == pid && t.slot >= 0 then 1 else 0
      ensures Valid() && Abstract() == Apply(old(Abstract()), DoKillId(pid))
    {
      hide Sound, FindTask, Cycle, Values;
      OpSound(Abstract(), DoKillId(pid)) by { SoundFacts(Abstract()); }
      ghost var v := Values(ring);
      var found := KillFirst(ByUserId(pid));
      FoundExactly(v, pid);
      r := if found then 1 else 0;
    }

    /** task_sleep_current */
    method SleepCurrent(now: nat, ms: nat)
      requires Valid()
      modifies current
      ensures Valid() && Abstract() == Apply(old(Abstract()), DoSleep(now, ms))
    {
      hide Sound;
      OpSound(Abstract(), DoSleep(now, ms)) by { SoundFacts(Abstract()); }
      ghost var v := Values(ring);
      current.sleeping := true;
      current.wakeTick := now + ms / 10;
      assert Values(ring) == v[0 := v[0].(sleeping := true, wakeTick := now + ms / 10)];
    }

    /** task_wait_pipe_current */
    method WaitPipeCurrent(pipe: int)
      requires Valid()
      modifies current
      ensures Valid() && Abstract() == Apply(old(Abstract()), DoWaitPipe(pipe))
    {
      hide Sound;
      OpSound(Abstract(), DoWaitPipe(pipe)) by { SoundFacts(Abstract()); }
      ghost var v := Values(ring);
      current.pipe := pipe;
      assert Values(ring) == v[0 := v[0].(pipe := pipe)];
    }

    /** task_mark_current_exiting with its exit code, for a task with a slot */
    method ExitCurrent(code: int)
      requires Valid() && current.slot >= 0
      modifies current
      ensures Valid() && Abstract() == Apply(old(Abstract()), DoExit(code))
    {
      hide Sound;
      OpSound(Abstract(), DoExit(code)) by { SoundFacts(Abstract()); }
      ghost var v := Values(ring);
      current.MarkExiting(code);
      assert Values(ring) == v[0 := v[0].(exiting := true, exitCode := code)];
    }
  }

  lemma FoundExactly(r: Ring, pid: int)
    ensures FindTask(r, ByUserId(pid), 0) < |r| <==> exists t :: t in r && t.id == pid && t.slot >= 0
  {
    if exists t :: t in r && t.id == pid && t.slot >= 0 {
      var t :| t in r && t.id == pid && t.slot >= 0;
      var i :| 0 <= i < |r| && r[i] == t;
      assert Matches(r[i], ByUserId(pid));
    }
  }

  lemma CurrentValue(ring: seq<TaskNode>, t: TaskNode)
    requires |ring| > 0 && ring[0] == t
    ensures Values(ring)[0] == t.Value()
  {
  }

  lemma InitialSound()
    ensures Sound(Kernel([NewTask(0, -1)], seq(PROGRAM_SLOTS, _ => true), 1))
  {
    assert [NewTask(0, -1)][0].slot == -1;
  }

  lemma SoundTimed(k: Kernel)
    requires Sound(k)
    ensures Timed(k.ring)
  {
  }

  lemma InsertFacts(before: seq<TaskNode>, ring: seq<TaskNode>, t: TaskNode)
    requires |before| > 0 && ring == [before[0], t] + before[1..] && t !in before
    requires forall i, j :: 0 <= i < j < |before| ==> before[i] != before[j]
    requires before[0].next == t && (forall i :: 0 < i < |before| - 1 ==> before[i].next == before[i + 1])
    requires |before| > 1 ==> before[|before| - 1].next == before[0] && t.next == before[1]
    requires |before| == 1 ==> t.next == before[0]
    ensures Cycle(ring) && Values(ring) == Insert(Values(before), t.Value())
  {
    assert forall i :: 2 <= i < |ring| ==> ring[i] == before[i - 1];
  }

  /** The ring from the second task on, with or without the first. */
  ghost function RestOf(ring: seq<TaskNode>, exiting: bool): (r: seq<TaskNode>)
    requires |ring| > 0
    ensures forall t :: t in r ==> t in ring
  {
    if exiting then ring[1..] else ring[1..] + [ring[0]]
  }

  /** Only the last node leads back to the first. */
  lemma CycleLast(ring: seq<TaskNode>, k: nat)
    requires Cycle(ring) && k < |ring|
    ensures ring[k].next == ring[0] <==> k == |ring| - 1
  {
    if k < |ring| - 1 { assert ring[k].next == ring[k + 1]; }
  }

  lemma CycleFacts(ring: seq<TaskNode>)
    requires Cycle(ring)
    ensures Cycle(RestOf(ring, false))
    ensures |ring| > 1 ==> ring[0].next == RestOf(ring, true)[0]
    ensures ring[0].next == RestOf(ring, false)[0]
  {
  }

  lemma FrontFacts(ring: seq<TaskNode>, w: Ring)
    requires |w| > 0 && Values(ring) == w[0 := Charged(w[0])]
    ensures |ring| == |w| && ring[0].exiting == w[0].exiting && ring[0].slot == w[0].slot
  {
    assert Values(ring)[0] == Charged(w[0]);
  }

  lemma RestValues(ring: seq<TaskNode>, rest: seq<TaskNode>, w: Ring, exiting: bool)
    requires |ring| > 0 && |w| > 0 && rest == RestOf(ring, exiting) && exiting == w[0].exiting
    requires Values(ring) == w[0 := Charged(w[0])]
    ensures Values(rest) == Others(w)
  {
    forall i | 0 <= i < |rest| ensures Values(rest)[i] == Others(w)[i] {
      if i + 1 < |ring| { assert rest[i] == ring[i + 1]; }
    }
  }

  lemma SwitchFacts(rest: seq<TaskNode>, c: nat, v0: Ring)
    requires Cycle(rest) && c < |rest| == |v0|
    requires forall i :: 0 <= i < |rest| ==>
             rest[i].Value() == if i == c then v0[c].(slice := v0[c].priority) else v0[i]
    ensures Cycle(rest[c..] + rest[..c]) && rest[c] == (rest[c..] + rest[..c])[0]
    ensures Values(rest[c..] + rest[..c]) == WithSlice(Rotate(v0, c))
  {
    var ring := rest[c..] + rest[..c];
    assert forall i :: 0 <= i < |rest| ==> ring[i] == rest[if i < |rest| - c then i + c else i - (|rest| - c)];
  }

  lemma SoundFacts(k: Kernel)
    requires Sound(k)
    ensures |k.ring| > 0 && (k.ring[0].exiting ==> |k.ring| > 1) && k.ring[0].slot < PROGRAM_SLOTS == |k.free|
  {
    NotAlone(k.ring);
  }

  /** The tick in the order in which schedule() works. */
  lemma TickSteps(k: Kernel, now: nat, ready: set<int>)
    requires |k.ring| > 0 && (k.ring[0].exiting ==> |k.ring| > 1)
    ensures var w := WakeAll(k.ring, now, ready);
            |w| == |k.ring| && w[0].exiting == k.ring[0].exiting && w[0].slot == k.ring[0].slot &&
            Charged(w[0]).exiting == w[0].exiting && Charged(w[0]).slot == w[0].slot && |Others(w)| > 0 &&
            (Continues(w[0]) ==> Tick(k, now, ready) == k.(ring := w[0 := Charged(w[0])])) &&
            (!Continues(w[0]) ==>
               Tick(k, now, ready) ==
               k.(ring := WithSlice(Rotate(Others(w), Choice(Others(w), 0))),
                  free := if w[0].exiting && 0 <= w[0].slot < |k.free| then k.free[w[0].slot := true] else k.free))
  {
    var w := WakeAll(k.ring, now, ready);
    assert [Charged(w[0])] + w[1..] == w[0 := Charged(w[0])];
  }
}
