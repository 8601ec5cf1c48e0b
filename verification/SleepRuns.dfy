/** Ticks wake sleepers exactly on time, although the sleep queue changes while the tick
    handler walks it. */
module SleepRuns {
  import opened Seqs
  import opened SchedModel
  import opened SchedInv

  /** The tasks of `ps`, in order, whose sleep ends (`due`) or does not end with this tick. */
  function Select(tasks: seq<Task>, ps: seq<Pid>, due: bool): (r: seq<Pid>)
    requires forall j :: 0 <= j < |ps| ==> ps[j] < |tasks|
  {
    if ps == [] then []
    else (if (tasks[ps[0]].ticks == 1) == due then [ps[0]] else []) + Select(tasks, ps[1..], due)
  }

  lemma {:induction false} SelectMembers(tasks: seq<Task>, ps: seq<Pid>, due: bool, x: Pid)
    requires forall j :: 0 <= j < |ps| ==> ps[j] < |tasks|
    ensures x in Select(tasks, ps, due) <==> x in ps && (tasks[x].ticks == 1) == due
    decreases ps
  {
    if ps != [] {
      SelectMembers(tasks, ps[1..], due, x);
      assert ps == [ps[0]] + ps[1..];
    }
  }

  lemma {:induction false} SelectFrame(tasks: seq<Task>, tasks': seq<Task>, ps: seq<Pid>, due: bool)
    requires |tasks| == |tasks'| && forall j :: 0 <= j < |ps| ==> ps[j] < |tasks| && tasks[ps[j]] == tasks'[ps[j]]
    ensures Select(tasks, ps, due) == Select(tasks', ps, due)
    decreases ps
  {
    if ps != [] { SelectFrame(tasks, tasks', ps[1..], due); }
  }

  lemma SelectStep(tasks: seq<Task>, tasks': seq<Task>, ps: seq<Pid>, before: seq<Pid>, due: bool)
    requires ps != [] && ps[0] !in ps[1..] && forall j :: 0 <= j < |ps| ==> ps[j] < |tasks|
    requires |tasks'| == |tasks| && tasks' == tasks[ps[0] := tasks'[ps[0]]]
    ensures var first := if (tasks[ps[0]].ticks == 1) == due then before + [ps[0]] else before;
      before + Select(tasks, ps, due) == first + Select(tasks', ps[1..], due)
  {
    SelectFrame(tasks, tasks', ps[1..], due);
    SelectIs(tasks, ps, due);
    hide Select;
    Regroup(before, ps[0], Select(tasks, ps[1..], due));
  }

  lemma SelectIs(tasks: seq<Task>, ps: seq<Pid>, due: bool)
    requires ps != [] && forall j :: 0 <= j < |ps| ==> ps[j] < |tasks|
    ensures forall j :: 0 <= j < |ps[1..]| ==> ps[1..][j] < |tasks|
    ensures Select(tasks, ps, due)
         == (if (tasks[ps[0]].ticks == 1) == due then [ps[0]] else []) + Select(tasks, ps[1..], due)
  {
  }

  lemma Regroup(before: seq<Pid>, p: Pid, rest: seq<Pid>)
    ensures before + ([p] + rest) == before + [p] + rest && [] + rest == rest
  {
  }

  /** A task after one tick of its sleep. */
  function Ticked(t: Task): Task {
    t.(ticks := t.ticks - 1, state := if t.ticks == 1 then Running else t.state)
  }

  lemma WithoutMiddle(kept: seq<Pid>, p: Pid, rest: seq<Pid>)
    requires Distinct(kept + [p] + rest)
    ensures Without(kept + [p] + rest, p) == kept + rest && p !in rest
  {
    var q := kept + [p] + rest;
    IndexUnique(q, |kept|);
    assert q[|kept|] == p && q[|kept| + 1..] == rest;
    forall j | 0 <= j < |rest| ensures rest[j] != p { assert q[|kept| + 1 + j] == rest[j]; }
  }

  ghost predicate OtherQueuesSame(s: Sys, r: Sys) {
    && r.queues.Keys == s.queues.Keys
    && (forall pl :: pl in s.queues && pl != Ready && pl != Asleep ==> r.queues[pl] == s.queues[pl])
  }

  /** `r` is `s` after the sleepers `ps`, which follow `kept` in the sleep queue, had their
      tick: due ones left in order for the tail of the ready queue, the others stayed. */
  ghost predicate Woken(s: Sys, kept: seq<Pid>, ps: seq<Pid>, r: Sys)
    requires Ready in s.queues && Asleep in s.queues
    requires forall j :: 0 <= j < |ps| ==> ps[j] < |s.tasks|
  {
    && OtherQueuesSame(s, r)
    && r.queues[Asleep] == kept + Select(s.tasks, ps, false)
    && r.queues[Ready] == s.queues[Ready] + Select(s.tasks, ps, true)
    && |r.tasks| == |s.tasks|
    && (forall x: Pid :: x < |s.tasks| ==> r.tasks[x] == if x in ps then Ticked(s.tasks[x]) else s.tasks[x])
  }

  lemma WokenOne(s: Sys, kept: seq<Pid>, p: Pid, rest: seq<Pid>)
    requires Unscheduled(s) && s.queues[Asleep] == kept + [p] + rest
    ensures p < |s.tasks|
    ensures var s1, due := WakeOne(s, p), s.tasks[p].ticks == 1;
      && Unscheduled(s1) && OtherQueuesSame(s, s1)
      && s1.tasks == s.tasks[p := Ticked(s.tasks[p])]
      && s1.queues[Asleep] == (if due then kept + rest else kept + [p] + rest)
      && s1.queues[Ready] == (if due then s.queues[Ready] + [p] else s.queues[Ready])
  {
    assert (kept + [p] + rest)[|kept|] == p;
    assert At(s, p, Asleep);
    WakeOneKeeps(s, p);
    WithoutMiddle(kept, p, rest);
  }

  lemma WokenStep(s: Sys, kept: seq<Pid>, ps: seq<Pid>, s1: Sys, r: Sys)
    requires Ready in s.queues && Asleep in s.queues && OtherQueuesSame(s, s1)
    requires ps != [] && ps[0] !in ps[1..] && forall j :: 0 <= j < |ps| ==> ps[j] < |s.tasks|
    requires s1.tasks == s.tasks[ps[0] := Ticked(s.tasks[ps[0]])]
    requires s1.queues[Ready] == if s.tasks[ps[0]].ticks == 1 then s.queues[Ready] + [ps[0]] else s.queues[Ready]
    requires Woken(s1, if s.tasks[ps[0]].ticks == 1 then kept else kept + [ps[0]], ps[1..], r)
    ensures Woken(s, kept, ps, r)
  {
    hide Select;
    SelectStep(s.tasks, s1.tasks, ps, kept, false);
    SelectStep(s.tasks, s1.tasks, ps, s.queues[Ready], true);
    assert ps == [ps[0]] + ps[1..];
  }

  /** The walk over the sleep queue, from any point of it. */
  lemma {:induction false} WakeAllExact(s: Sys, kept: seq<Pid>, ps: seq<Pid>)
    requires Unscheduled(s) && s.queues[Asleep] == kept + ps
    requires forall j :: 0 <= j < |ps| ==> ps[j] < |s.tasks|
    ensures Woken(s, kept, ps, WakeAll(s, ps))
    decreases ps
  {
    if ps == [] {
      assert kept + [] == kept;
    } else {
      var p, rest := ps[0], ps[1..];
      assert kept + ps == kept + [p] + rest;
      WokenOne(s, kept, p, rest);
      WithoutMiddle(kept, p, rest);
      var s1 := WakeOne(s, p);
      var kept1 := if s.tasks[p].ticks == 1 then kept else kept + [p];
      assert s1.queues[Asleep] == kept1 + rest;
      WakeAllExact(s1, kept1, rest);
      WokenStep(s, kept, ps, s1, WakeAll(s1, rest));
    }
  }

  lemma SleepersExist(s: Sys)
    requires QueuesInv(s)
    ensures forall j :: 0 <= j < |s.queues[Asleep]| ==> s.queues[Asleep][j] < |s.tasks|
  {
    forall j | 0 <= j < |s.queues[Asleep]| ensures s.queues[Asleep][j] < |s.tasks| {
      assert At(s, s.queues[Asleep][j], Asleep);
    }
  }

  /** The time slice of the running task concerns no sleeper. */
  lemma SleepersAside(s: Sys)
    requires Inv(s)
    ensures forall x: Pid :: x in s.queues[Asleep] ==> x < |s.tasks| && SliceTick(s).tasks[x] == s.tasks[x]
  {
    forall x: Pid | x in s.queues[Asleep] ensures x < |s.tasks| && SliceTick(s).tasks[x] == s.tasks[x] {
      assert At(s, x, Asleep);
    }
  }

  lemma TickWoken(s: Sys)
    requires Inv(s)
    ensures forall j :: 0 <= j < |s.queues[Asleep]| ==> s.queues[Asleep][j] < |s.tasks|
    ensures Unscheduled(SliceTick(s))
    ensures Woken(SliceTick(s), [], s.queues[Asleep], WakeAll(SliceTick(s), s.queues[Asleep]))
    ensures Step(s, Tick) == Schedule(WakeAll(SliceTick(s), s.queues[Asleep]))
  {
    SleepersExist(s);
    SliceTickKeeps(s);
    assert [] + s.queues[Asleep] == s.queues[Asleep];
    WakeAllExact(SliceTick(s), [], s.queues[Asleep]);
  }

  /** The ready queue after the time slice of its `k`-th task was counted: with its last tick that task
      goes behind all others. */
  function SliceEnd(ready: seq<Pid>, k: nat, last: bool): seq<Pid>
    requires k < |ready|
  {
    if last then ready[..k] + ready[k + 1..] + [ready[k]] else ready
  }

  /** One tick, for the running task at position `k` of the ready queue. With the last tick of its slice
      it goes to the tail and has ten again, else it stays and has one less. The sleepers in
      their last tick follow, in order; the others stay asleep, in order, one tick less.
      Whoever is behind the running task then runs, or the first. */
  ghost predicate Woke(s: Sys, k: nat, r: Sys)
    requires QueuesInv(s) && At(s, s.current, Ready) && k < |s.queues[Ready]|
  {
    SleepersExist(s);
    var asleep, t := s.queues[Asleep], s.tasks[s.current];
    var last := t.slice == 1;
    var ready := SliceEnd(s.queues[Ready], k, last) + Select(s.tasks, asleep, true);
    && r.sems == s.sems && r.mutexes == s.mutexes && r.idle == s.idle
    && OtherQueuesSame(s, r)
    && r.queues[Asleep] == Select(s.tasks, asleep, false)
    && r.queues[Ready] == ready
    && r.current == (ready[if last then |s.queues[Ready]| else k + 1..] + ready)[0]
    && |r.tasks| == |s.tasks|
    && (forall x: Pid :: x < |s.tasks| ==>
          r.tasks[x] == (if x in asleep then Ticked(s.tasks[x])
                         else if x == s.current then t.(slice := if last then 10 else t.slice - 1)
                         else s.tasks[x]))
  }

  /** The walk read the sleepers' counters as they were before the time slice was counted. */
  lemma WokenBefore(tasks: seq<Task>, s1: Sys, ps: seq<Pid>, r: Sys)
    requires Ready in s1.queues && Asleep in s1.queues && |tasks| == |s1.tasks|
    requires forall j :: 0 <= j < |ps| ==> ps[j] < |tasks| && s1.tasks[ps[j]] == tasks[ps[j]]
    requires Woken(s1, [], ps, r)
    ensures r.queues[Asleep] == Select(tasks, ps, false)
    ensures r.queues[Ready] == s1.queues[Ready] + Select(tasks, ps, true)
    ensures |r.tasks| == |tasks|
    ensures forall x: Pid :: x < |tasks| ==> r.tasks[x] == if x in ps then Ticked(tasks[x]) else s1.tasks[x]
  {
    SelectFrame(tasks, s1.tasks, ps, true);
    SelectFrame(tasks, s1.tasks, ps, false);
    assert [] + Select(tasks, ps, false) == Select(tasks, ps, false);
  }

  /** The time slice half, without naming how it is computed. */
  lemma SliceExact(s: Sys, k: nat)
    requires Inv(s) && k < |s.queues[Ready]| && s.queues[Ready][k] == s.current
    ensures var t, last := s.tasks[s.current], s.tasks[s.current].slice == 1;
      SliceTick(s) == s.(tasks := s.tasks[s.current := t.(slice := if last then 10 else t.slice - 1)],
                         queues := s.queues[Ready := SliceEnd(s.queues[Ready], k, last)])
  {
    IndexUnique(s.queues[Ready], k);
    assert s.queues[Ready := s.queues[Ready]] == s.queues;
  }

  /** The running task is neither asleep nor blocked, so the tick goes on from it. */
  lemma TickRuns(s: Sys, k: nat, s2: Sys)
    requires Inv(s) && k < |s.queues[Ready]| && s.queues[Ready][k] == s.current
    requires Unscheduled(s2) && s2.current == s.current && At(s2, s.current, Ready)
    requires SliceEnd(s.queues[Ready], k, s.tasks[s.current].slice == 1) <= s2.queues[Ready]
    ensures var last := s.tasks[s.current].slice == 1;
      (s2.queues[Ready][if last then |s.queues[Ready]| else k + 1..] + s2.queues[Ready])[0] == Schedule(s2).current
  {
    var last := s.tasks[s.current].slice == 1;
    PickExact(s2, if last then |s.queues[Ready]| - 1 else k);
    assert SliceEnd(s.queues[Ready], k, last)[if last then |s.queues[Ready]| - 1 else k] == s.current;
  }

  lemma TickExact(s: Sys, k: nat)
    requires Inv(s) && k < |s.queues[Ready]| && s.queues[Ready][k] == s.current
    ensures Woke(s, k, Step(s, Tick))
  {
    hide Pick, WakeAll, Unscheduled, Step, Select, Ticked, SliceTick, SliceEnd;
    TickWoken(s);
    SleepersAside(s);
    SliceExact(s, k);
    TickUnscheduled(s);
    WokenBefore(s.tasks, SliceTick(s), s.queues[Asleep], WakeAll(SliceTick(s), s.queues[Asleep]));
    TickRuns(s, k, WakeAll(SliceTick(s), s.queues[Asleep]));
  }

  // ---------------------------------------------------------------- runs

  function Ticks(ops: seq<Op>): nat {
    if ops == [] then 0 else (if ops[0].Tick? then 1 else 0) + Ticks(ops[1..])
  }

  /** A sleeper's next state: a tick counts down or wakes it, nothing else touches it. */
  ghost predicate SleptOn(s: Sys, op: Op, r: Sys, t: Pid)
    requires t < |s.tasks|
  {
    && t < |r.tasks|
    && if op.Tick? && s.tasks[t].ticks == 1 then At(r, t, Ready)
       else At(r, t, Asleep) && r.tasks[t].ticks == s.tasks[t].ticks - (if op.Tick? then 1 else 0)
  }

  lemma SleeperTick(s: Sys, t: Pid)
    requires Inv(s) && At(s, t, Asleep)
    ensures SleptOn(s, Tick, Step(s, Tick), t)
  {
    hide Step, SliceEnd;
    var k :| 0 <= k < |s.queues[Ready]| && s.queues[Ready][k] == s.current;
    TickExact(s, k);
    SleepersExist(s);
    SelectMembers(s.tasks, s.queues[Asleep], true, t);
    SelectMembers(s.tasks, s.queues[Asleep], false, t);
  }

  lemma SleeperAside(s: Sys, op: Op, t: Pid)
    requires Inv(s) && Enabled(s, op) && At(s, t, Asleep) && !op.Tick?
    requires !op.MutexUnlock? && !op.SemNotify?
    ensures SleptOn(s, op, Step(s, op), t)
  {
    hide Seqs.Without, Pick;
    assert At(s, s.current, Ready);
  }

  lemma SleeperNotWoken(s: Sys, op: Op, t: Pid)
    requires Inv(s) && Enabled(s, op) && At(s, t, Asleep) && (op.MutexUnlock? || op.SemNotify?)
    ensures SleptOn(s, op, Step(s, op), t)
  {
    hide Seqs.Without, Pick;
    assert At(s, s.current, Ready);
  }

  lemma SleeperStep(s: Sys, op: Op, t: Pid)
    requires Inv(s) && Enabled(s, op) && At(s, t, Asleep)
    ensures t < |s.tasks| && SleptOn(s, op, Step(s, op), t)
  {
    hide Step, Enabled, SleptOn;
    if op.Tick? {
      SleeperTick(s, t);
    } else if op.MutexUnlock? || op.SemNotify? {
      SleeperNotWoken(s, op, t);
    } else {
      SleeperAside(s, op, t);
    }
  }

  /** A sleeper with `k` ticks left stays asleep for k - 1 ticks and is made ready by the
      k-th, whatever else happens meanwhile. */
  lemma {:induction false} SleeperWakesExactly(s: Sys, ops: seq<Op>, t: Pid, k: int)
    requires Inv(s) && Possible(s, ops) && At(s, t, Asleep) && s.tasks[t].ticks == k
    ensures Ticks(ops) < k ==> At(Run(s, ops), t, Asleep)
    ensures ops != [] && Ticks(ops) == k && ops[|ops| - 1].Tick? ==> At(Run(s, ops), t, Ready)
    decreases ops
  {
    hide *;
    if ops == [] {
      NoOps(s);
    } else {
      FirstOp(s, ops);
      SleeperStep(s, ops[0], t);
      var r := Step(s, ops[0]);
      AfterFirst(s, ops[0], r, t);
      if ops[0].Tick? && k == 1 {
        if Ticks(ops) == 1 && ops[|ops| - 1].Tick? {
          LastTick(ops);
          NoOps(r);
        }
      } else {
        SleeperWakesExactly(r, ops[1..], t, k - (if ops[0].Tick? then 1 else 0));
        if |ops| > 1 { assert ops[1..][|ops| - 2] == ops[|ops| - 1]; }
      }
    }
  }

  lemma NoOps(s: Sys)
    requires Inv(s)
    ensures Possible(s, []) && Run(s, []) == s && Ticks([]) == 0
  {
  }

  lemma FirstOp(s: Sys, ops: seq<Op>)
    requires Inv(s) && Possible(s, ops) && ops != []
    ensures Enabled(s, ops[0]) && Inv(Step(s, ops[0])) && Possible(Step(s, ops[0]), ops[1..])
    ensures Run(s, ops) == Run(Step(s, ops[0]), ops[1..])
    ensures Ticks(ops) == (if ops[0].Tick? then 1 else 0) + Ticks(ops[1..])
    ensures Ticks([]) == 0
  {
    hide Step, Enabled, Inv;
    StepKeepsInv(s, ops[0]);
  }

  lemma AfterFirst(s: Sys, op: Op, r: Sys, t: Pid)
    requires t < |s.tasks| && SleptOn(s, op, r, t)
    ensures t < |r.tasks|
    ensures if op.Tick? && s.tasks[t].ticks == 1 then At(r, t, Ready)
            else At(r, t, Asleep) && r.tasks[t].ticks == s.tasks[t].ticks - (if op.Tick? then 1 else 0)
  {
  }

  lemma {:induction false} LastTick(ops: seq<Op>)
    requires ops != [] && ops[0].Tick? && ops[|ops| - 1].Tick? && Ticks(ops) == 1
    ensures ops[1..] == []
  {
    if |ops| > 1 { TickCounted(ops[1..]); }
  }

  lemma {:induction false} TickCounted(ops: seq<Op>)
    requires ops != [] && ops[|ops| - 1].Tick?
    ensures Ticks(ops) > 0
    decreases ops
  {
    if |ops| > 1 { TickCounted(ops[1..]); }
  }

  lemma SleepStarts(s: Sys, ms: nat)
    requires Inv(s) && ms >= 10 && Enabled(s, Sleep(ms))
    ensures var r := Step(s, Sleep(ms));
      At(r, s.current, Asleep) && s.current < |r.tasks| && r.tasks[s.current].ticks == ms / 10
  {
    StepKeepsInv(s, Sleep(ms));
  }

  /** sys_sleep(ms) of at least one tick: the caller is asleep through ms/10 - 1 further ticks
      and ready after exactly ms/10. */
  lemma SleepIsExact(s: Sys, ms: nat, ops: seq<Op>)
    requires Inv(s) && ms >= 10 && Possible(s, [Sleep(ms)] + ops)
    ensures Ticks(ops) < ms / 10 ==> At(Run(s, [Sleep(ms)] + ops), s.current, Asleep)
    ensures ops != [] && Ticks(ops) == ms / 10 && ops[|ops| - 1].Tick? ==>
      At(Run(s, [Sleep(ms)] + ops), s.current, Ready)
  {
    hide *;
    assert ([Sleep(ms)] + ops)[1..] == ops && ([Sleep(ms)] + ops)[0] == Sleep(ms);
    FirstOp(s, [Sleep(ms)] + ops);
    StepKeepsInv(s, Sleep(ms));
    SleepStarts(s, ms);
    SleeperWakesExactly(Step(s, Sleep(ms)), ops, s.current, ms / 10);
  }
}
