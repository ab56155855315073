/** When a task that sleeps or waits for a pipe in src/kernel/tasking.c runs again,
    which task schedule() picks, and for how long it keeps the CPU. */
module Waking {
  import opened Scheduling
  import opened Processes

  /** Nothing stops the task at this tick: its time has come, or it does not sleep; its
      pipe is ready, or it waits for none. */
  predicate Runnable(t: Task, now: nat, ready: set<int>) {
    (t.sleeping ==> t.wakeTick <= now) && (t.pipe >= 0 ==> t.pipe in ready)
  }

  /** No task that stays in the ring is runnable. */
  predicate Idle(c: Call) {
    forall i :: 0 <= i < |c.ring| && (i == 0 ==> !c.ring[0].exiting) ==> !Runnable(c.ring[i], c.now, c.ready)
  }

  lemma WakeExact(t: Task, now: nat, ready: set<int>)
    ensures Blocked(Wake(t, now, ready)) <==> !Runnable(t, now, ready)
  {
  }

  /** One call of schedule(), field by field: a task that does not leave wakes exactly
      when its tick has come, stops waiting exactly when its pipe is ready, and the tick
      is counted for the one that had the CPU. */
  lemma StepFields(r: Ring, now: nat, ready: set<int>, i: nat) returns (j: nat)
    requires |r| > 0 && (r[0].exiting ==> |r| > 1) && i < |r| && (r[0].exiting ==> i > 0)
    ensures var q := Schedule(r, now, ready);
            j < |q| && q[j].id == r[i].id && q[j].slot == r[i].slot && q[j].exiting == r[i].exiting &&
            q[j].exitCode == r[i].exitCode && q[j].priority == r[i].priority && q[j].wakeTick == r[i].wakeTick &&
            (q[j].sleeping <==> r[i].sleeping && now < r[i].wakeTick) &&
            q[j].pipe == (if r[i].pipe >= 0 && r[i].pipe in ready then -1 else r[i].pipe) &&
            q[j].ticks == r[i].ticks + if i == 0 then 1 else 0
  {
    hide Choice, Blocked;
    var w := WakeAll(r, now, ready);
    if Continues(w[0]) {
      j := i;
    } else {
      var rest := Others(w);
      var c := Choice(rest, 0);
      var m := if i == 0 then |rest| - 1 else i - 1;
      assert rest[m] == if i == 0 then Charged(w[0]) else w[i];
      j := if m >= c then m - c else m + |rest| - c;
      assert Rotate(rest, c)[j] == rest[m];
    }
  }

  /** The tasks in the order in which schedule() looks at them, by their place in the
      ring: the ones behind the current task, then the current task unless it leaves. */
  function Order(r: Ring, m: nat): (i: nat)
    requires m < (if |r| > 0 && r[0].exiting then |r| - 1 else |r|)
    ensures i < |r|
  {
    if m + 1 < |r| then m + 1 else 0
  }

  /** Whom schedule() picks. The current task goes on while it is runnable and has more
      than one tick left; else the first runnable task behind it gets a whole slice, and
      the last one looked at if there is none. */
  lemma PicksExact(r: Ring, now: nat, ready: set<int>) returns (m: nat)
    requires |r| > 0 && (r[0].exiting ==> |r| > 1)
    ensures var q, count := Schedule(r, now, ready), if r[0].exiting then |r| - 1 else |r|;
            |q| == count &&
            if !r[0].exiting && Runnable(r[0], now, ready) && r[0].slice > 1
            then q[0].id == r[0].id && q[0].slice == r[0].slice - 1
            else
              m < count && q[0].id == r[Order(r, m)].id && q[0].slice == r[Order(r, m)].priority &&
              (forall k: nat :: k < m ==> !Runnable(r[Order(r, k)], now, ready)) &&
              (m < count - 1 ==> Runnable(r[Order(r, m)], now, ready))
  {
    hide Wake, Blocked, Runnable, Choice;
    var w := WakeAll(r, now, ready);
    WokenFields(r, now, ready);
    var rest := Others(w);
    m := Choice(rest, 0);
    forall i | 0 <= i < |r| ensures Blocked(w[i]) <==> !Runnable(r[i], now, ready) { WakeExact(r[i], now, ready); }
    forall k: nat | k < |rest| ensures Blocked(rest[k]) <==> !Runnable(r[Order(r, k)], now, ready) {
      ChargedBlocked(w[0]);
      if k + 1 < |r| { assert rest[k] == w[k + 1]; }
    }
    if !Continues(w[0]) {
      ChoiceFacts(rest);
      assert rest[m].id == r[Order(r, m)].id && rest[m].priority == r[Order(r, m)].priority;
    }
  }

  lemma ChargedBlocked(t: Task)
    ensures Blocked(Charged(t)) == Blocked(t)
  {
  }

  lemma ChoiceFacts(rest: Ring)
    requires |rest| > 0
    ensures var c := Choice(rest, 0);
            c < |rest| && (Blocked(rest[c]) ==> c == |rest| - 1) && forall k :: 0 <= k < c ==> Blocked(rest[k])
  {
  }

  lemma WokenFields(r: Ring, now: nat, ready: set<int>)
    ensures var w := WakeAll(r, now, ready);
            forall i :: 0 <= i < |r| ==> w[i].id == r[i].id && w[i].priority == r[i].priority &&
                                         w[i].slice == r[i].slice && w[i].exiting == r[i].exiting
  {
  }

  /** A task that cannot run is picked only when no task can. */
  lemma PicksRunnable(c: Call) returns (i: nat)
    requires Legal(c)
    ensures i < |c.ring| && (i == 0 ==> !c.ring[0].exiting) && After(c)[0].id == c.ring[i].id
    ensures Runnable(c.ring[i], c.now, c.ready) || Idle(c)
  {
    hide Runnable, Schedule;
    var r := c.ring;
    var m := PicksExact(r, c.now, c.ready);
    if !r[0].exiting && Runnable(r[0], c.now, c.ready) && r[0].slice > 1 {
      i := 0;
    } else {
      i := Order(r, m);
      if !Runnable(r[i], c.now, c.ready) {
        forall k | 0 <= k < |r| && (k == 0 ==> !r[0].exiting) ensures !Runnable(r[k], c.now, c.ready) {
          var n: nat := if k == 0 then |r| - 1 else k - 1;
          assert Order(r, n) == k;
        }
      }
    }
  }

  // ----- waiting over whole runs

  predicate SameWait(t: Task, u: Task) {
    t.id == u.id && t.exiting == u.exiting && t.sleeping == u.sleeping && t.wakeTick == u.wakeTick && t.pipe == u.pipe
  }

  /** The task is in the ring, and waits for what `t` waits for. */
  predicate Has(r: Ring, t: Task) {
    exists i :: 0 <= i < |r| && SameWait(r[i], t)
  }

  predicate Unique(r: Ring, x: int) {
    forall i, j :: 0 <= i < j < |r| ==> !(r[i].id == x && r[j].id == x)
  }

  /** Calls of schedule() on rings in which anything may have happened meanwhile, but
      nobody has touched what task `t` waits for. */
  predicate Untouched(start: Ring, calls: seq<Call>, t: Task)
    decreases |calls|
  {
    calls == [] ||
    (Legal(calls[0]) && Unique(calls[0].ring, t.id) && (Has(start, t) ==> Has(calls[0].ring, t)) &&
     Untouched(After(calls[0]), calls[1..], t))
  }

  /** Sleeps, or waits for a pipe. */
  predicate Waits(t: Task) {
    !t.exiting && (t.sleeping <==> t.pipe < 0)
  }

  lemma StillWaits(c: Call, t: Task)
    requires Legal(c) && Unique(c.ring, t.id) && Has(c.ring, t) && Waits(t) && !Runnable(t, c.now, c.ready)
    ensures Has(After(c), t) && (After(c)[0].id == t.id ==> Idle(c))
  {
    hide Schedule, Idle;
    var i :| 0 <= i < |c.ring| && SameWait(c.ring[i], t);
    var j := StepFields(c.ring, c.now, c.ready, i);
    assert SameWait(After(c)[j], t);
    var k := PicksRunnable(c);
  }

  lemma Wakes(c: Call, t: Task) returns (j: nat)
    requires Legal(c) && Has(c.ring, t) && Waits(t) && Runnable(t, c.now, c.ready)
    ensures j < |After(c)| && After(c)[j].id == t.id && Ready(After(c)[j])
  {
    hide Schedule;
    var i :| 0 <= i < |c.ring| && SameWait(c.ring[i], t);
    j := StepFields(c.ring, c.now, c.ready, i);
  }

  /** Before the n-th call a waiting task is picked only by calls that find no task
      runnable; with the n-th call, the first at which it is runnable, it is ready. */
  lemma {:induction false} WaitsUntil(start: Ring, calls: seq<Call>, t: Task, n: nat) returns (p: nat)
    requires Has(start, t) && Waits(t) && Untouched(start, calls, t) && n < |calls|
    requires forall k :: 0 <= k < n ==> !Runnable(t, calls[k].now, calls[k].ready)
    requires Runnable(t, calls[n].now, calls[n].ready)
    ensures forall k :: 0 <= k < n ==> !Chosen(calls, t.id, k) || Idle(calls[k])
    ensures Legal(calls[n]) && p < |After(calls[n])| && After(calls[n])[p].id == t.id && Ready(After(calls[n])[p])
    decreases n
  {
    hide Schedule, Has, Waits, Runnable, Idle, Unique, Ready;
    if n == 0 {
      p := Wakes(calls[0], t);
    } else {
      StillWaits(calls[0], t);
      p := WaitsUntil(After(calls[0]), calls[1..], t, n - 1);
      forall k | 0 <= k < n ensures !Chosen(calls, t.id, k) || Idle(calls[k]) {
        if k > 0 {
          assert calls[k] == calls[1..][k - 1];
          assert !Chosen(calls[1..], t.id, k - 1) || Idle(calls[1..][k - 1]);
        }
      }
    }
  }

  /** A task that the call leaves at place p has the CPU then, or, as long as it is not
      blocked again, within its delay. */
  ghost predicate PickedInTime(c: Call, x: int, p: nat)
    requires Legal(c) && p < |After(c)|
  {
    p > 0 ==> forall later :: History(After(c), later, x) && |later| >= Delay(After(c), p) ==>
      exists i: nat :: i < Delay(After(c), p) && Chosen(later, x, i)
  }

  lemma ReadyInTime(c: Call, x: int, p: nat)
    requires Legal(c) && Timed(c.ring) && p < |After(c)| && After(c)[p].id == x && !Blocked(After(c)[p])
    ensures PickedInTime(c, x, p)
  {
    hide Schedule, Blocked, History, Timed;
    ScheduleTimed(c.ring, c.now, c.ready);
    if p > 0 {
      forall later | History(After(c), later, x) && |later| >= Delay(After(c), p)
        ensures exists i: nat :: i < Delay(After(c), p) && Chosen(later, x, i)
      {
        var i := RunsInTime(After(c), later, x, p);
      }
    }
  }

  /** The current task asks at tick `now` to sleep `ms` milliseconds, and schedule() is
      called again and again. No call before tick now + ms / 10 gives it the CPU unless
      every task is blocked; the first call from that tick on makes it ready; and it has
      the CPU then or within the delay of a ready task in its place. */
  lemma SleeperWakes(r: Ring, now: nat, ms: nat, calls: seq<Call>, n: nat) returns (p: nat)
    requires |r| > 0 && Ready(r[0]) && n < |calls| && Timed(calls[n].ring)
    requires Untouched(Sleep(r, now, ms), calls, Sleep(r, now, ms)[0])
    requires (forall k :: 0 <= k < n ==> calls[k].now < now + ms / 10) && calls[n].now >= now + ms / 10
    ensures forall k :: 0 <= k < n ==> !Chosen(calls, r[0].id, k) || Idle(calls[k])
    ensures Legal(calls[n]) && p < |After(calls[n])|
    ensures After(calls[n])[p].id == r[0].id && Ready(After(calls[n])[p])
    ensures PickedInTime(calls[n], r[0].id, p)
  {
    hide Untouched, Schedule, Timed, Idle, History;
    var start := Sleep(r, now, ms);
    assert SameWait(start[0], start[0]);
    p := WaitsUntil(start, calls, start[0], n);
    ReadyInTime(calls[n], r[0].id, p);
  }

  /** The same for a task that reads from an empty pipe: it waits until the first call at
      which the pipe has data or no writer. */
  lemma ReaderWakes(r: Ring, pipe: nat, calls: seq<Call>, n: nat) returns (p: nat)
    requires |r| > 0 && Ready(r[0]) && n < |calls| && Timed(calls[n].ring)
    requires Untouched(WaitPipe(r, pipe), calls, WaitPipe(r, pipe)[0])
    requires (forall k :: 0 <= k < n ==> pipe !in calls[k].ready) && pipe in calls[n].ready
    ensures forall k :: 0 <= k < n ==> !Chosen(calls, r[0].id, k) || Idle(calls[k])
    ensures Legal(calls[n]) && p < |After(calls[n])|
    ensures After(calls[n])[p].id == r[0].id && Ready(After(calls[n])[p])
    ensures PickedInTime(calls[n], r[0].id, p)
  {
    hide Untouched, Schedule, Timed, Idle, History;
    var start := WaitPipe(r, pipe);
    assert SameWait(start[0], start[0]);
    p := WaitsUntil(start, calls, start[0], n);
    ReadyInTime(calls[n], r[0].id, p);
  }

  // ----- slices

  /** No task but the current one is runnable. */
  predicate NoOther(c: Call) {
    forall i :: 0 < i < |c.ring| ==> !Runnable(c.ring[i], c.now, c.ready)
  }

  /** A ready task that has the CPU and is not killed keeps it for exactly what is left of its slice: every
      call but the last picks it again, and the last picks another task if one can run. */
  lemma {:induction false} SliceExact(start: Ring, calls: seq<Call>, n: nat)
    requires Timed(start) && Unique(start, start[0].id) && n == start[0].slice <= |calls|
    requires History(start, calls, start[0].id) &&
             forall k :: 0 <= k < n ==> |calls[k].ring| > 0 && !calls[k].ring[0].exiting
    ensures forall k :: 0 <= k < n - 1 ==> Chosen(calls, start[0].id, k)
    ensures Chosen(calls, start[0].id, n - 1) ==> NoOther(calls[n - 1])
    decreases n
  {
    hide Schedule, Runnable;
    var x, c := start[0].id, calls[0];
    FrontReady(start, c, x);
    var m := PicksExact(c.ring, c.now, c.ready);
    if n == 1 {
      if After(c)[0].id == x { LastTurn(c, m, x); }
    } else {
      ScheduleTimed(c.ring, c.now, c.ready);
      GoesOn(c, x);
      SliceExact(After(c), calls[1..], n - 1);
      forall k | 0 <= k < n - 1 ensures Chosen(calls, x, k) {
        if k > 0 { assert Chosen(calls[1..], x, k - 1); assert calls[1..][k - 1] == calls[k]; }
      }
      assert calls[1..][n - 2] == calls[n - 1];
    }
  }

  lemma FrontReady(start: Ring, c: Call, x: int)
    requires |c.ring| > 0 && !c.ring[0].exiting
    requires |start| > 0 && start[0].id == x && Between(start, c.ring, x) && Unique(start, x) && Timed(start)
    ensures |c.ring| == |start| && c.ring[0].id == x && c.ring[0].slice == start[0].slice && Ready(c.ring[0])
    ensures Runnable(c.ring[0], c.now, c.ready) && Unique(c.ring, x) && Timed(c.ring)
  {
  }

  /** A call that does not switch keeps the ring as it is. */
  lemma GoesOn(c: Call, x: int)
    requires Legal(c) && c.ring[0].id == x && Ready(c.ring[0]) && c.ring[0].slice > 1 && Unique(c.ring, x)
    ensures After(c)[0].id == x && After(c)[0].slice == c.ring[0].slice - 1 && Unique(After(c), x)
  {
  }

  lemma LastTurn(c: Call, m: nat, x: int)
    requires Legal(c) && c.ring[0].id == x && !c.ring[0].exiting && Unique(c.ring, x) && m < |c.ring|
    requires c.ring[Order(c.ring, m)].id == x
    requires forall k: nat :: k < m ==> !Runnable(c.ring[Order(c.ring, k)], c.now, c.ready)
    ensures NoOther(c)
  {
    hide Runnable;
    assert Order(c.ring, m) == 0;
    forall i | 0 < i < |c.ring| ensures !Runnable(c.ring[i], c.now, c.ready) {
      assert Order(c.ring, i - 1) == i;
    }
  }
}
