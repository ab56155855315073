/** The weighted round robin of src/kernel/tasking.c on the ring of tasks, listed
    from the current task on: what one schedule() does, and its fairness bound. */
module Scheduling {
  const PRIORITY_MIN: int := 1
  const PRIORITY_MAX: int := 10
  const PRIORITY_DEFAULT: int := 3

  /** The scheduler's fields of a task. `slot` is -1 for tasks of the kernel;
      `pipe` is the pipe the task waits for, or negative. */
  datatype Task = Task(id: int, slot: int, exiting: bool, exitCode: int, priority: int, slice: int,
                       sleeping: bool, wakeTick: nat, pipe: int, ticks: nat)

  type Ring = seq<Task>

  predicate Blocked(t: Task) {
    t.sleeping || t.pipe >= 0
  }

  function Wake(t: Task, now: nat, ready: set<int>): Task {
    t.(sleeping := t.sleeping && now < t.wakeTick, pipe := if t.pipe >= 0 && t.pipe in ready then -1 else t.pipe)
  }

  function WakeAll(r: Ring, now: nat, ready: set<int>): (w: Ring)
    ensures |w| == |r| && forall i :: 0 <= i < |r| ==> w[i] == Wake(r[i], now, ready)
  {
    seq(|r|, i requires 0 <= i < |r| => Wake(r[i], now, ready))
  }

  /** Whether the task at the front keeps the CPU for another tick. */
  predicate Continues(t: Task) {
    !t.exiting && !Blocked(t) && t.slice > 1
  }

  /** The front task after its tick has been counted. */
  function Charged(t: Task): Task {
    t.(ticks := t.ticks + 1, slice := if t.exiting || Blocked(t) then t.slice else t.slice - 1)
  }

  /** The next task to run: the first that is not blocked, else the last one looked at. */
  function Choice(r: Ring, k: nat): (c: nat)
    requires k < |r|
    ensures k <= c < |r| && (Blocked(r[c]) ==> c == |r| - 1)
    ensures forall i :: k <= i < c ==> Blocked(r[i])
    decreases |r| - k
  {
    if Blocked(r[k]) && k + 1 < |r| then Choice(r, k + 1) else k
  }

  /** The ring seen from its k-th task on. */
  function Rotate(r: Ring, k: nat): (q: Ring)
    requires k < |r|
    ensures |q| == |r| && forall i :: 0 <= i < |r| ==> q[i] == r[if i < |r| - k then i + k else i - (|r| - k)]
  {
    r[k..] + r[..k]
  }

  function WithSlice(r: Ring): (q: Ring)
    requires |r| > 0
    ensures |q| == |r|
  {
    r[0 := r[0].(slice := r[0].priority)]
  }

  /** The ring from the task after the current one; an exiting task is gone. */
  function Others(w: Ring): Ring
    requires |w| > 0
  {
    if w[0].exiting then w[1..] else w[1..] + [Charged(w[0])]
  }

  /** schedule(): only the kernel's last task may not exit. */
  function Schedule(r: Ring, now: nat, ready: set<int>): Ring
    requires |r| > 0 && (r[0].exiting ==> |r| > 1)
  {
    var w := WakeAll(r, now, ready);
    if Continues(w[0]) then [Charged(w[0])] + w[1..]
    else
      var rest := Others(w);
      WithSlice(Rotate(rest, Choice(rest, 0)))
  }

  // ----- the ring keeps its tasks

  function Ids(r: Ring): (s: seq<int>)
    ensures |s| == |r| && forall i :: 0 <= i < |r| ==> s[i] == r[i].id
  {
    seq(|r|, i requires 0 <= i < |r| => r[i].id)
  }

  lemma IdsTurned(r: Ring, k: nat)
    requires k < |r|
    ensures Ids(WithSlice(Rotate(r, k))) == Ids(r)[k..] + Ids(r)[..k]
  {
  }

  /** schedule() keeps the cyclic order of the tasks, and removes exactly the
      current one, and only when it is exiting. */
  lemma RingKept(r: Ring, now: nat, ready: set<int>)
    requires |r| > 0 && (r[0].exiting ==> |r| > 1)
    ensures var kept := if r[0].exiting then Ids(r)[1..] else Ids(r);
            exists k :: 0 <= k < |kept| && Ids(Schedule(r, now, ready)) == kept[k..] + kept[..k]
  {
    var kept := if r[0].exiting then Ids(r)[1..] else Ids(r);
    var w := WakeAll(r, now, ready);
    var q := Ids(Schedule(r, now, ready));
    if Continues(w[0]) {
      assert q == kept[0..] + kept[..0];
    } else {
      var rest := Others(w);
      var c := Choice(rest, 0);
      IdsTurned(rest, c);
      if r[0].exiting {
        assert Ids(rest) == kept;
      } else {
        assert Ids(rest) == kept[1..] + kept[..1];
        var k := if c + 1 == |kept| then 0 else c + 1;
        assert q == kept[k..] + kept[..k];
      }
    }
  }

  // ----- fairness

  function Weight(r: Ring): int {
    if r == [] then 0 else r[0].priority + Weight(r[1..])
  }

  lemma {:induction false} WeightSplit(r: Ring, k: nat)
    requires k <= |r|
    ensures Weight(r) == Weight(r[..k]) + Weight(r[k..])
  {
    if k > 0 {
      assert r[..k][1..] == r[1..][..k - 1];
      assert r[1..][k - 1..] == r[k..];
      WeightSplit(r[1..], k - 1);
    } else {
      assert r[0..] == r;
    }
  }

  lemma {:induction false} WeightSame(r: Ring, q: Ring)
    requires |r| == |q| && forall i :: 0 <= i < |r| ==> r[i].priority == q[i].priority
    ensures Weight(r) == Weight(q)
  {
    if r != [] { WeightSame(r[1..], q[1..]); }
  }

  lemma {:induction false} WeightBounds(r: Ring)
    requires forall i :: 0 <= i < |r| ==> PRIORITY_MIN <= r[i].priority <= PRIORITY_MAX
    ensures |r| <= Weight(r) <= PRIORITY_MAX * |r|
  {
    if r != [] { WeightBounds(r[1..]); }
  }

  /** Priorities are in range, and the current task has something left of its slice. */
  predicate Timed(r: Ring) {
    |r| > 0 && r[0].slice >= 1 && forall i :: 0 <= i < |r| ==> PRIORITY_MIN <= r[i].priority <= PRIORITY_MAX
  }

  predicate Ready(t: Task) {
    !t.exiting && !Blocked(t)
  }

  /** An upper bound of the calls of schedule() until task p runs. */
  function Delay(r: Ring, p: nat): int
    requires 0 < p < |r|
  {
    r[0].slice + Weight(r[1..p])
  }

  lemma ScheduleTimed(r: Ring, now: nat, ready: set<int>)
    requires Timed(r) && (r[0].exiting ==> |r| > 1)
    ensures Timed(Schedule(r, now, ready))
  {
    hide Choice, Blocked;
    var w := WakeAll(r, now, ready);
    assert forall i :: 0 <= i < |w| ==> PRIORITY_MIN <= w[i].priority <= PRIORITY_MAX;
    if !Continues(w[0]) {
      var rest := Others(w);
      assert forall i :: 0 <= i < |rest| ==> PRIORITY_MIN <= rest[i].priority <= PRIORITY_MAX;
      TurnedTimed(rest, Choice(rest, 0));
    }
  }

  lemma TurnedTimed(rest: Ring, c: nat)
    requires c < |rest| && forall i :: 0 <= i < |rest| ==> PRIORITY_MIN <= rest[i].priority <= PRIORITY_MAX
    ensures Timed(WithSlice(Rotate(rest, c)))
  {
  }

  /** Each call brings a task that stays ready at least one tick closer. */
  lemma DelayDrops(r: Ring, now: nat, ready: set<int>, p: nat)
    requires Timed(r) && 0 < p < |r| && !Blocked(r[p])
    ensures var q := Schedule(r, now, ready);
            |q| > 0 &&
            (q[0].id == r[p].id ||
             exists p' :: 0 < p' < |q| && q[p'].id == r[p].id && !Blocked(q[p']) && Delay(q, p') <= Delay(r, p) - 1)
  {
    hide Choice;
    var w := WakeAll(r, now, ready);
    var q := Schedule(r, now, ready);
    if Continues(w[0]) {
      assert forall i :: 1 <= i < p ==> q[i] == w[i];
      WeightSame(q[1..p], r[1..p]);
      assert Delay(q, p) <= Delay(r, p) - 1;
    } else {
      var rest := Others(w);
      assert rest[p - 1] == w[p] && !Blocked(rest[p - 1]);
      assert forall i :: 0 <= i < |r| - 1 ==> rest[i] == w[i + 1];
      SwitchCloser(r, w, rest, Choice(rest, 0), p);
    }
  }

  lemma SwitchCloser(r: Ring, w: Ring, rest: Ring, c: nat, p: nat)
    requires Timed(r) && |w| == |r| && (forall i :: 0 <= i < |r| ==>
             w[i].priority == r[i].priority && w[i].id == r[i].id)
    requires 0 < p < |r| && c < p <= |rest| && |r| - 1 <= |rest| &&
             (forall i :: 0 <= i < |r| - 1 ==> rest[i] == w[i + 1]) && !Blocked(w[p])
    ensures var q := WithSlice(Rotate(rest, c));
            q[0].id == r[p].id ||
            exists p' :: 0 < p' < |q| && q[p'].id == r[p].id && !Blocked(q[p']) && Delay(q, p') <= Delay(r, p) - 1
  {
    var q := WithSlice(Rotate(rest, c));
    if c < p - 1 {
      var p' := p - 1 - c;
      assert q[p'] == w[p];
      SwitchDelay(r, w, rest, c, p);
      assert q[1..p'] == w[c + 2..p];
      assert Delay(q, p') <= Delay(r, p) - 1;
    }
  }

  lemma SwitchDelay(r: Ring, w: Ring, rest: Ring, c: nat, p: nat)
    requires Timed(r) && |w| == |r| && (forall i :: 0 <= i < |r| ==> w[i].priority == r[i].priority)
    requires c + 1 < p < |r|
    ensures w[c + 1].priority + Weight(w[c + 2..p]) <= Weight(r[1..p])
  {
    var s := w[1..p];
    WeightSame(s, r[1..p]);
    WeightSplit(s, c);
    assert s[c..][1..] == w[c + 2..p];
    assert s[c..][0] == w[c + 1];
    WeightBounds(s[..c]);
  }

  // ----- whole runs

  /** One call of schedule() on the ring as it is then. */
  datatype Call = Call(ring: Ring, now: nat, ready: set<int>)

  /** The kernel's last task does not exit. */
  predicate Legal(c: Call) {
    |c.ring| > 0 && (c.ring[0].exiting ==> |c.ring| > 1)
  }

  function After(c: Call): (r: Ring)
    requires Legal(c)
    ensures |r| > 0
  {
    Schedule(c.ring, c.now, c.ready)
  }

  /** Between two calls anything may happen to the blocking and exiting of other
      tasks; no task is added, no priority is set, and task `x` is not blocked. It may be
      killed. */
  predicate Between(a: Ring, b: Ring, x: int) {
    |a| == |b| && (exists i :: 0 <= i < |b| && b[i].id == x) &&
    forall i :: 0 <= i < |a| ==> b[i].id == a[i].id && b[i].priority == a[i].priority && b[i].slice == a[i].slice &&
                                 (b[i].id == x ==> !Blocked(b[i]))
  }

  /** Between the calls, from `start` on, task `x` is not blocked. */
  predicate History(start: Ring, calls: seq<Call>, x: int)
    decreases |calls|
  {
    calls == [] ||
    (Between(start, calls[0].ring, x) && Legal(calls[0]) &&
     History(After(calls[0]), calls[1..], x))
  }

  /** Task `x` is the one that the call with index `i` chooses. */
  predicate Chosen(calls: seq<Call>, x: int, i: nat) {
    i < |calls| && Legal(calls[i]) && After(calls[i])[0].id == x
  }

  lemma {:induction false} RunsInTime(start: Ring, calls: seq<Call>, x: int, p: nat) returns (i: nat)
    requires Timed(start) && 0 < p < |start| && start[p].id == x && History(start, calls, x)
    requires |calls| >= Delay(start, p)
    ensures i < Delay(start, p) && Chosen(calls, x, i)
    decreases |calls|
  {
    hide Schedule, Blocked;
    WeightBounds(start[1..p]);
    var r := calls[0].ring;
    WeightSame(start[1..p], r[1..p]);
    DelayDrops(r, calls[0].now, calls[0].ready, p);
    var q := After(calls[0]);
    if q[0].id == x { return 0; }
    var p' :| 0 < p' < |q| && q[p'].id == x && !Blocked(q[p']) && Delay(q, p') <= Delay(r, p) - 1;
    ScheduleTimed(r, calls[0].now, calls[0].ready);
    var k := RunsInTime(q, calls[1..], x, p');
    assert calls[1..][k] == calls[k + 1];
    return k + 1;
  }

  /** A task that loses the CPU and stays ready has it again within as many calls of
      schedule() as the priorities of the other tasks add up to. */
  lemma Fairness(r: Ring, now: nat, ready: set<int>, calls: seq<Call>, x: int)
    requires Timed(r) && r[0].id == x && Ready(r[0]) && |Schedule(r, now, ready)| > 0 &&
             Schedule(r, now, ready)[0].id != x
    requires var start := Schedule(r, now, ready); History(start, calls, x) && |calls| >= Weight(start) - r[0].priority
    ensures var start := Schedule(r, now, ready);
            Weight(start) - r[0].priority <= 10 * (|start| - 1) &&
            exists i: nat :: i < Weight(start) - r[0].priority && Chosen(calls, x, i)
  {
    var w := WakeAll(r, now, ready);
    var start := Schedule(r, now, ready);
    var rest := Others(w);
    var p := |rest| - 1 - Choice(rest, 0);
    ScheduleTimed(r, now, ready);
    assert start[p] == Charged(w[0]);
    LoserDelay(start, p);
    var i := RunsInTime(start, calls, x, p);
  }

  lemma LoserDelay(start: Ring, p: nat)
    requires Timed(start) && start[0].slice == start[0].priority && 0 < p < |start|
    ensures Delay(start, p) <= Weight(start) - start[p].priority <= PRIORITY_MAX * (|start| - 1)
  {
    WeightSplit(start, p);
    assert start[..p][1..] == start[1..p];
    WeightBounds(start[p..][1..]);
    WeightBounds(start[..p]);
  }
}
