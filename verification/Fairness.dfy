/** Bounded waiting: with at most `n` tasks, a ready task runs after fewer than n*n
    scheduling decisions, however ticks, yields, sleeps, waits, notifies, locks and unlocks
    interleave. The measure is lexicographic: the task's position in the ready queue, then
    how far the round-robin scan is from it. */
module Fairness {
  import opened Seqs
  import opened SchedModel
  import opened SchedInv

  /** Whether the operation reaches `schedule()`. */
  predicate Decides(s: Sys, op: Op)
    requires Inv(s) && Enabled(s, op)
  {
    match op
    case Tick => true
    case Yield => true
    case Sleep(_) => true
    case SemWait(i) => s.sems[i] <= 0
    case SemNotify(i) => s.queues[SemQueue(i)] != []
    case MutexLock(i) => s.mutexes[i].lockTimes != 0 && s.mutexes[i].owner != Some(s.current)
    case MutexUnlock(i) =>
      && s.mutexes[i].owner == Some(s.current) && s.mutexes[i].lockTimes == 1
      && s.queues[MutexQueue(i)] != []
    case _ => false
  }

  ghost function Decisions(s: Sys, ops: seq<Op>): nat
    requires Inv(s) && Possible(s, ops)
    decreases ops
  {
    if ops == [] then 0 else
      StepKeepsInv(s, ops[0]);
      (if Decides(s, ops[0]) then 1 else 0) + Decisions(Step(s, ops[0]), ops[1..])
  }

  /** How far the scan at position `c` is from position `p`, going round a queue of `n`. */
  function Distance(p: int, c: int, n: int): int {
    if c < p then p - c else n - c + p
  }

  /** Position of the target times `n`, plus the distance of the scan from it. */
  function Measure(ready: seq<Pid>, cur: Pid, t: Pid, n: nat): int
    requires cur in ready && t in ready
  {
    var p := IndexOf(ready, t);
    p * n + Distance(p, IndexOf(ready, cur), n)
  }

  lemma Lexicographic(p': int, d': int, p: int, d: int, n: int)
    requires (p' == p && d' < d) || (p' == p - 1 && d' < d + n)
    ensures p' * n + d' < p * n + d
  {
    if p' == p - 1 { assert p' * n == p * n - n; }
  }

  /** Comparing two measures by comparing positions. */
  lemma MeasureFalls(ready': seq<Pid>, c': nat, p': nat, ready: seq<Pid>, cur: Pid, t: Pid, n: nat)
    requires Distinct(ready') && c' < |ready'| && p' < |ready'| && ready'[p'] == t
    requires cur in ready && t in ready
    requires var p, c := IndexOf(ready, t), IndexOf(ready, cur);
      || (p' == p && Distance(p', c', n) < Distance(p, c, n))
      || (p' == p - 1 && Distance(p', c', n) < Distance(p, c, n) + n)
    ensures Measure(ready', ready'[c'], t, n) < Measure(ready, cur, t, n)
  {
    IndexUnique(ready', c');
    IndexUnique(ready', p');
    var p, c := IndexOf(ready, t), IndexOf(ready, cur);
    Lexicographic(p', Distance(p', c', n), p, Distance(p, c, n), n);
  }

  /** The scan goes on from `cur`, after new arrivals at the tail. */
  lemma FallsKeep(ready: seq<Pid>, ready': seq<Pid>, cur: Pid, next: Pid, t: Pid, n: nat)
    requires Distinct(ready') && ready <= ready' && |ready'| <= n
    requires cur in ready && t in ready && t != cur
    requires next == (var k := IndexOf(ready, cur) + 1; if k < |ready'| then ready'[k] else ready'[0])
    ensures t in ready' && next in ready' && (next == t || Measure(ready', next, t, n) < Measure(ready, cur, t, n))
  {
    var p, c := IndexOf(ready, t), IndexOf(ready, cur);
    assert ready'[p] == t && ready'[c] == cur;
    if next != t {
      MeasureFalls(ready', if c + 1 < |ready'| then c + 1 else 0, p, ready, cur, t, n);
    }
  }

  lemma RotatedAt(ready: seq<Pid>, arrivals: seq<Pid>, cur: Pid, t: Pid)
    requires cur in ready && t in ready && t != cur
    ensures var ready', p, c := Without(ready, cur) + [cur] + arrivals, IndexOf(ready, t), IndexOf(ready, cur);
      && p != c && |ready'| == |ready| + |arrivals| && ready'[if c < p then p - 1 else p] == t
      && (arrivals != [] ==> ready'[|ready|] == arrivals[0])
  {
  }

  /** `cur` goes to the tail before the arrivals, and the scan goes on from there. */
  lemma FallsRotate(ready: seq<Pid>, arrivals: seq<Pid>, cur: Pid, next: Pid, t: Pid, n: nat)
    requires cur in ready && t in ready && t != cur
    requires var ready' := Without(ready, cur) + [cur] + arrivals;
      && Distinct(ready) && Distinct(ready') && |ready'| <= n
      && next == if arrivals != [] then arrivals[0] else ready'[0]
    ensures var ready' := Without(ready, cur) + [cur] + arrivals;
      && t in ready' && next in ready'
      && (next == t || Measure(ready', next, t, n) < Measure(ready, cur, t, n))
  {
    var ready' := Without(ready, cur) + [cur] + arrivals;
    var p, c := IndexOf(ready, t), IndexOf(ready, cur);
    var p' := if c < p then p - 1 else p;
    RotatedAt(ready, arrivals, cur, t);
    hide Without, Distinct, Measure;
    if next != t {
      MeasureFalls(ready', if arrivals != [] then |ready| else 0, p', ready, cur, t, n);
    }
  }

  /** `cur` blocks, and the scan restarts at the head. */
  lemma FallsBlock(ready: seq<Pid>, cur: Pid, t: Pid, n: nat)
    requires Distinct(ready) && |ready| <= n
    requires cur in ready && t in ready && t != cur
    ensures var ready' := Without(ready, cur);
      && Distinct(ready') && t in ready' && |ready'| > 0
      && (ready'[0] == t || Measure(ready', ready'[0], t, n) < Measure(ready, cur, t, n))
  {
    WithoutMembers(ready, cur);
    var ready' := Without(ready, cur);
    var p, c := IndexOf(ready, t), IndexOf(ready, cur);
    var p' := if c < p then p - 1 else p;
    assert ready'[p'] == t;
    if ready'[0] != t {
      MeasureFalls(ready', 0, p', ready, cur, t, n);
    }
  }

  lemma ReadyBound(s: Sys)
    requires QueuesInv(s)
    ensures Distinct(s.queues[Ready]) && |s.queues[Ready]| <= |s.tasks|
  {
    forall i | 0 <= i < |s.queues[Ready]| ensures s.queues[Ready][i] < |s.tasks| {
      assert At(s, s.queues[Ready][i], Ready);
    }
    Pigeonhole(s.queues[Ready], |s.tasks|);
  }

  /** What one step does to a ready task that is not running: it stays ready, and the
      measure falls at every scheduling decision that does not pick it. */
  ghost predicate Falls(s: Sys, r: Sys, decides: bool, t: Pid, n: nat)
    requires At(s, s.current, Ready) && At(s, t, Ready)
  {
    && At(r, t, Ready) && At(r, r.current, Ready)
    && var m, m' := Measure(s.queues[Ready], s.current, t, n), Measure(r.queues[Ready], r.current, t, n);
       if decides then r.current == t || m' < m else r.current == s.current && m' == m
  }

  /** `next` follows `cur` in the circular ready queue. */
  predicate Scan(ready: seq<Pid>, cur: Pid, next: Pid)
    requires cur in ready
  {
    var k := IndexOf(ready, cur) + 1;
    next == if k < |ready| then ready[k] else ready[0]
  }

  lemma TickFalls(s: Sys, t: Pid, n: nat)
    requires Inv(s)
    requires At(s, t, Ready) && t != s.current && |s.tasks| <= n
    ensures Falls(s, Step(s, Tick), true, t, n)
  {
    TickUnscheduled(s);
    var s1, s2 := SliceTick(s), TickWake(s);
    var base := s1.queues[Ready];
    if s.tasks[s.current].slice == 1 {
      assert base == Without(s.queues[Ready], s.current) + [s.current];
      ScheduleScans(s2);
      RotatedScanFalls(s, Schedule(s2), s2.queues[Ready][|base|..], t, n);
    } else {
      ArrivalsFall(s, s2, t, n);
    }
  }

  /** The running task was rotated to the tail before the arrivals. */
  lemma RotatedScanFalls(s: Sys, r: Sys, arrivals: seq<Pid>, t: Pid, n: nat)
    requires Inv(s) && Inv(r)
    requires At(s, t, Ready) && t != s.current && |r.tasks| <= n
    requires r.queues[Ready] == Without(s.queues[Ready], s.current) + [s.current] + arrivals
    requires s.current in r.queues[Ready] && Scan(r.queues[Ready], s.current, r.current)
    ensures Falls(s, r, true, t, n)
  {
    ReadyBound(s);
    ReadyBound(r);
    var ready := s.queues[Ready];
    WithoutMembers(ready, s.current);
    IndexUnique(r.queues[Ready], |ready| - 1);
    FallsRotate(ready, arrivals, s.current, r.current, t, n);
  }

  /** The running task blocks in `to`. */
  lemma BlockFalls(s: Sys, r: Sys, t: Pid, n: nat)
    requires Inv(s) && Inv(r)
    requires At(s, t, Ready) && t != s.current && |s.tasks| <= n
    requires r.queues[Ready] == Without(s.queues[Ready], s.current)
    requires r.queues[Ready] != [] ==> r.current == r.queues[Ready][0]
    ensures Falls(s, r, true, t, n)
  {
    ReadyBound(s);
    FallsBlock(s.queues[Ready], s.current, t, n);
  }

  /** The scan goes on from the running task after arrivals at the tail. */
  lemma ScanFalls(s: Sys, r: Sys, t: Pid, n: nat)
    requires Inv(s) && Inv(r)
    requires At(s, t, Ready) && t != s.current && |r.tasks| <= n
    requires s.queues[Ready] <= r.queues[Ready]
    requires s.current in r.queues[Ready] && Scan(r.queues[Ready], s.current, r.current)
    ensures Falls(s, r, true, t, n)
  {
    ReadyBound(r);
    IndexUnique(r.queues[Ready], IndexOf(s.queues[Ready], s.current));
    FallsKeep(s.queues[Ready], r.queues[Ready], s.current, r.current, t, n);
  }

  /** The task goes on running; others may have arrived at the tail. */
  lemma StayFalls(s: Sys, r: Sys, t: Pid, n: nat)
    requires Inv(s) && Inv(r) && At(s, t, Ready)
    requires s.queues[Ready] <= r.queues[Ready] && r.current == s.current
    ensures Falls(s, r, false, t, n)
  {
    var c, p := IndexOf(s.queues[Ready], s.current), IndexOf(s.queues[Ready], t);
    ReadyBound(s);
    ReadyBound(r);
    IndexUnique(r.queues[Ready], c);
    IndexUnique(r.queues[Ready], p);
  }

  lemma BlockLeaves(s: Sys, op: Op)
    requires Inv(s) && Enabled(s, op) && Decides(s, op)
    requires (op.Sleep? && op.ms / TASK_SLICE > 0) || op.SemWait? || op.MutexLock?
    ensures Ready in Step(s, op).queues && Step(s, op).queues[Ready] == Without(s.queues[Ready], s.current)
    ensures Step(s, op).queues[Ready] != [] ==> Step(s, op).current == Step(s, op).queues[Ready][0]
  {
    hide Without;
  }

  lemma BlockingFalls(s: Sys, op: Op, t: Pid, n: nat)
    requires Inv(s) && Enabled(s, op) && Decides(s, op)
    requires (op.Sleep? && op.ms / TASK_SLICE > 0) || op.SemWait? || op.MutexLock?
    requires At(s, t, Ready) && t != s.current && |s.tasks| <= n
    ensures Falls(s, Step(s, op), true, t, n)
  {
    StepKeepsInv(s, op);
    BlockLeaves(s, op);
    hide *;
    BlockFalls(s, Step(s, op), t, n);
  }

  /** After a running task schedules, the scan goes on from it. */
  lemma ScheduleScans(s: Sys)
    requires Unscheduled(s) && At(s, s.current, Ready)
    ensures Inv(Schedule(s)) && Schedule(s).queues == s.queues && Schedule(s).tasks == s.tasks
    ensures Scan(s.queues[Ready], s.current, Schedule(s).current)
  {
    PickIsReady(s);
  }

  /** The running task goes on to `s1`, in which others may have arrived, and schedules. */
  lemma ArrivalsFall(s: Sys, s1: Sys, t: Pid, n: nat)
    requires Inv(s) && Unscheduled(s1) && s1.current == s.current && s.queues[Ready] <= s1.queues[Ready]
    requires At(s, t, Ready) && t != s.current && |s1.tasks| <= n
    ensures Falls(s, Schedule(s1), true, t, n)
  {
    assert s.current in s1.queues[Ready];
    ScheduleScans(s1);
    ScanFalls(s, Schedule(s1), t, n);
  }

  lemma NotifyFalls(s: Sys, i: nat, t: Pid, n: nat)
    requires Inv(s) && Enabled(s, SemNotify(i)) && s.queues[SemQueue(i)] != []
    requires At(s, t, Ready) && t != s.current && |s.tasks| <= n
    ensures Falls(s, Step(s, SemNotify(i)), true, t, n)
  {
    var p := s.queues[SemQueue(i)][0];
    assert At(s, p, SemQueue(i));
    MoveUnscheduled(s, p, SemQueue(i), Ready);
    ArrivalsFall(s, Release(s, SemQueue(i)), t, n);
  }

  lemma HandOffFalls(s: Sys, m: nat, t: Pid, n: nat)
    requires Inv(s) && Enabled(s, MutexUnlock(m)) && Decides(s, MutexUnlock(m))
    requires At(s, t, Ready) && t != s.current && |s.tasks| <= n
    ensures Falls(s, Step(s, MutexUnlock(m)), true, t, n)
  {
    var heir := s.queues[MutexQueue(m)][0];
    assert At(s, heir, MutexQueue(m));
    MutexUnlockKeeps(s, m);
    var s1 := Release(s, MutexQueue(m)).(mutexes := s.mutexes[m := Mutex(1, Some(heir))]);
    HandOffUnscheduled(s, m);
    ArrivalsFall(s, s1, t, n);
  }

  lemma YieldFalls(s: Sys, t: Pid, n: nat)
    requires Inv(s) && At(s, t, Ready) && t != s.current && |s.tasks| <= n
    ensures Falls(s, Step(s, Yield), true, t, n)
  {
    StepKeepsInv(s, Yield);
    var r := Step(s, Yield);
    WithoutMembers(s.queues[Ready], s.current);
    assert r.queues[Ready] == Without(s.queues[Ready], s.current) + [s.current] + [];
    assert At(r, s.current, Ready);
    RotatedScanFalls(s, r, [], t, n);
  }

  lemma QuietFalls(s: Sys, op: Op, t: Pid, n: nat)
    requires Inv(s) && Enabled(s, op) && !Decides(s, op) && At(s, t, Ready)
    ensures Falls(s, Step(s, op), false, t, n)
  {
    StepKeepsInv(s, op);
    StayFalls(s, Step(s, op), t, n);
  }

  lemma StepFalls(s: Sys, op: Op, t: Pid, n: nat)
    requires Inv(s) && Enabled(s, op)
    requires At(s, t, Ready) && t != s.current && |s.tasks| <= n
    ensures Falls(s, Step(s, op), Decides(s, op), t, n)
  {
    if !Decides(s, op) {
      QuietFalls(s, op, t, n);
    } else {
      match op
      case Tick => TickFalls(s, t, n);
      case Yield => YieldFalls(s, t, n);
      case Sleep(ms) => if ms / TASK_SLICE > 0 { BlockingFalls(s, op, t, n); } else { ArrivalsFall(s, s, t, n); }
      case SemNotify(i) => NotifyFalls(s, i, t, n);
      case MutexUnlock(m) => HandOffFalls(s, m, t, n);
      case SemWait(_) => BlockingFalls(s, op, t, n);
      case MutexLock(_) => BlockingFalls(s, op, t, n);
    }
  }

  lemma {:induction false} TasksGrow(s: Sys, ops: seq<Op>)
    requires Inv(s) && Possible(s, ops)
    ensures |s.tasks| <= |Run(s, ops).tasks|
    decreases ops
  {
    if ops != [] {
      StepKeepsInv(s, ops[0]);
      TasksGrow(Step(s, ops[0]), ops[1..]);
    }
  }

  lemma Bounds(p: nat, d: int, n: nat)
    requires p < n && 0 < d < n
    ensures 0 < p * n + d <= n * n - 1
  {
    assert p * n <= (n - 1) * n;
  }

  lemma MeasureBounds(s: Sys, t: Pid, n: nat)
    requires Inv(s) && At(s, t, Ready) && t != s.current && |s.tasks| <= n
    ensures 0 < Measure(s.queues[Ready], s.current, t, n) <= n * n - 1
  {
    ReadyBound(s);
    var c, p := IndexOf(s.queues[Ready], s.current), IndexOf(s.queues[Ready], t);
    assert c != p;
    Bounds(p, if c < p then p - c else n - c + p, n);
  }

  /** A ready task runs before the scheduler has decided more often than the measure. */
  lemma {:induction false} RunsWithin(s: Sys, ops: seq<Op>, t: Pid, n: nat, m: nat) returns (k: nat)
    requires Inv(s) && Possible(s, ops)
    requires At(s, t, Ready) && t != s.current && |Run(s, ops).tasks| <= n
    requires Measure(s.queues[Ready], s.current, t, n) <= m <= Decisions(s, ops)
    ensures k <= |ops| && Possible(s, ops[..k])
    ensures Run(s, ops[..k]).current == t
    ensures Decisions(s, ops[..k]) <= m
    decreases ops
  {
    hide Step, Enabled, Decides;
    TasksGrow(s, ops);
    MeasureBounds(s, t, n);
    var op, rest := ops[0], ops[1..];
    StepKeepsInv(s, op);
    var s1 := Step(s, op);
    TasksGrow(s1, rest);
    StepFalls(s, op, t, n);
    var m1 := if Decides(s, op) then m - 1 else m;
    if s1.current == t {
      k := 1;
      assert ops[..1] == [op] && ops[..1][1..] == [];
      assert Run(s, ops[..1]) == Run(s1, []);
    } else {
      var k1 := RunsWithin(s1, rest, t, n, m1);
      k := k1 + 1;
      assert ops[..k][1..] == rest[..k1];
    }
  }

  lemma RunsAtOnce(s: Sys, ops: seq<Op>)
    requires Inv(s)
    ensures ops[..0] == [] && Possible(s, ops[..0]) && Run(s, ops[..0]) == s && Decisions(s, ops[..0]) == 0
  {
    assert ops[..0] == [];
  }

  /** Bounded waiting, for every run from every state that meets the invariant: once the
      scheduler has decided n*n - 1 times the ready task has run, within that many decisions. */
  lemma BoundedWaiting(s: Sys, ops: seq<Op>, t: Pid, n: nat, bound: nat) returns (k: nat)
    requires Inv(s) && Possible(s, ops)
    requires At(s, t, Ready) && |Run(s, ops).tasks| <= n
    requires bound == n * n - 1 && Decisions(s, ops) >= bound
    ensures k <= |ops| && Possible(s, ops[..k])
    ensures Run(s, ops[..k]).current == t
    ensures Decisions(s, ops[..k]) <= bound
  {
    TasksGrow(s, ops);
    if t == s.current {
      k := 0;
      RunsAtOnce(s, ops);
    } else {
      MeasureBounds(s, t, n);
      k := RunsWithin(s, ops, t, n, bound);
    }
  }
}
