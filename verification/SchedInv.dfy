/** Every operation keeps the global queue invariant, so every run does. */
module SchedInv {
  import opened Seqs
  import opened SchedModel

  /** Moving a node between queues relocates that task alone. */
  lemma MoveKeeps(s: Sys, p: Pid, from: Place, to: Place, st: TaskState)
    requires QueuesInv(s) && At(s, p, from) && to in s.queues && st == StateAt(to)
    ensures QueuesInv(Move(s, p, from, to, st))
    ensures forall x: Pid, pl :: At(Move(s, p, from, to, st), x, pl) <==> if x == p then pl == to else At(s, x, pl)
  {
    var r := Move(s, p, from, to, st);
    WithoutMembers(s.queues[from], p);
    var removed := s.queues[from := Without(s.queues[from], p)];
    assert p !in removed[to] by {
      if to != from && p in s.queues[to] { assert At(s, p, to); }
    }
    AppendMembers(removed[to], p);
    forall x: Pid, pl ensures At(r, x, pl) <==> if x == p then pl == to else At(s, x, pl)
    {
      if x == p && pl != to && pl != from && At(r, x, pl) { assert At(s, x, pl); }
    }
    forall x: Pid | x < |r.tasks| ensures InSomeQueue(r, x)
    {
      if x == p { assert At(r, x, to); } else {
        assert InSomeQueue(s, x);
        var pl :| At(s, x, pl);
        assert At(r, x, pl);
      }
    }
  }

  /** The invariant with the running task possibly just blocked. */
  ghost predicate Unscheduled(s: Sys) {
    && QueuesInv(s) && TasksInv(s) && SemsInv(s) && MutexesInv(s)
    && s.current < |s.tasks| && At(s, s.idle, Ready)
  }

  /** pick_next_task returns a ready task; the ready queue is never empty, so neither a
      queue head nor the idle fallback is ever taken for the next task. */
  lemma PickIsReady(s: Sys)
    requires Unscheduled(s)
    ensures s.tasks[s.current].state == Running ==> At(s, s.current, Ready)
    ensures s.queues[Ready] != [] && At(s, Pick(s), Ready)
    ensures Inv(Schedule(s))
  {
    var ready := s.queues[Ready];
    assert s.idle in ready;
    assert InSomeQueue(s, s.current);
    var pl :| At(s, s.current, pl);
    var r := Schedule(s);
    forall x: Pid, pl ensures At(r, x, pl) == At(s, x, pl) {}
    forall x: Pid | x < |r.tasks| ensures InSomeQueue(r, x) {
      assert InSomeQueue(s, x);
      var pl :| At(s, x, pl);
      assert At(r, x, pl);
    }
  }

  /** A running task, at position `k` of the ready queue, is followed by the next one in the queue and the
      last by the first; a task that does not run any more by the first. */
  lemma PickExact(s: Sys, k: nat)
    requires Unscheduled(s)
    ensures s.tasks[s.current].state == Running ==> At(s, s.current, Ready)
    ensures var ready := s.queues[Ready];
      && |ready| > 0
      && (s.tasks[s.current].state == Running && k < |ready| && ready[k] == s.current ==>
            Pick(s) == (ready[k + 1..] + ready)[0])
      && (s.tasks[s.current].state != Running ==> Pick(s) == ready[0])
  {
    PickIsReady(s);
    var ready := s.queues[Ready];
    if k < |ready| && ready[k] == s.current { IndexUnique(ready, k); }
  }

  lemma MoveUnscheduled(s: Sys, p: Pid, from: Place, to: Place)
    requires Unscheduled(s) && At(s, p, from) && to in s.queues
    requires to == Asleep ==> s.tasks[p].ticks > 0
    requires p == s.idle ==> to == Ready
    requires to.SemQueue? ==> to != from && s.sems[to.sem] <= 0
    requires to.MutexQueue? ==> to != from && s.mutexes[to.mutex].owner.Some? && s.mutexes[to.mutex].owner != Some(p)
    ensures Unscheduled(Move(s, p, from, to, StateAt(to)))
  {
    MoveKeeps(s, p, from, to, StateAt(to));
    WithoutMembers(s.queues[from], p);
  }

  /** Changing task fields other than the state leaves the queue structure alone. */
  lemma FieldsKeep(s: Sys, p: Pid, t: Task)
    requires QueuesInv(s) && p < |s.tasks| && t.state == s.tasks[p].state
    ensures QueuesInv(s.(tasks := s.tasks[p := t]))
    ensures forall x: Pid, pl :: At(s.(tasks := s.tasks[p := t]), x, pl) <==> At(s, x, pl)
  {
    var r := s.(tasks := s.tasks[p := t]);
    forall x: Pid, pl ensures At(r, x, pl) == At(s, x, pl) {}
    forall x: Pid | x < |r.tasks| ensures InSomeQueue(r, x) {
      assert InSomeQueue(s, x);
      var pl :| At(s, x, pl);
      assert At(r, x, pl);
    }
  }

  /** Changing a counter or an owner leaves the queue structure alone. */
  lemma CountersKeep(s: Sys, sems: seq<int>, mutexes: seq<Mutex>)
    requires QueuesInv(s) && |sems| == |s.sems| && |mutexes| == |s.mutexes|
    ensures QueuesInv(s.(sems := sems, mutexes := mutexes))
    ensures forall x: Pid, pl :: At(s.(sems := sems, mutexes := mutexes), x, pl) <==> At(s, x, pl)
  {
    var r := s.(sems := sems, mutexes := mutexes);
    forall x: Pid, pl ensures At(r, x, pl) == At(s, x, pl) {}
    forall x: Pid | x < |r.tasks| ensures InSomeQueue(r, x) {
      assert InSomeQueue(s, x);
      var pl :| At(s, x, pl);
      assert At(r, x, pl);
    }
  }

  /** Adding an empty wait queue leaves every task where it is. */
  lemma NewQueueKeeps(s: Sys, r: Sys, added: Place)
    requires QueuesInv(s) && added !in s.queues
    requires r.tasks == s.tasks && r.queues == s.queues[added := []]
    requires (added == SemQueue(|s.sems|) && |r.sems| == |s.sems| + 1 && |r.mutexes| == |s.mutexes|)
          || (added == MutexQueue(|s.mutexes|) && |r.sems| == |s.sems| && |r.mutexes| == |s.mutexes| + 1)
    ensures QueuesInv(r)
    ensures forall x: Pid, pl :: At(r, x, pl) <==> At(s, x, pl)
  {
    forall x: Pid, pl ensures At(r, x, pl) == At(s, x, pl) {}
    forall x: Pid | x < |r.tasks| ensures InSomeQueue(r, x) {
      assert InSomeQueue(s, x);
      var pl :| At(s, x, pl);
      assert At(r, x, pl);
    }
  }

  lemma SpawnKeeps(s: Sys, junk: int)
    requires Inv(s)
    ensures Inv(Step(s, Spawn(junk)))
  {
    var r := Step(s, Spawn(junk));
    var p := |s.tasks|;
    assert p !in s.queues[Ready] by { if p in s.queues[Ready] { assert At(s, p, Ready); } }
    AppendMembers(s.queues[Ready], p);
    forall x: Pid, pl ensures At(r, x, pl) <==> At(s, x, pl) || (x == p && pl == Ready) {}
    forall x: Pid | x < |r.tasks| ensures InSomeQueue(r, x) {
      if x == p { assert At(r, x, Ready); } else {
        assert InSomeQueue(s, x);
        var pl :| At(s, x, pl);
        assert At(r, x, pl);
      }
    }
  }

  lemma WakeOneKeeps(s: Sys, p: Pid)
    requires Unscheduled(s) && At(s, p, Asleep)
    ensures Unscheduled(WakeOne(s, p))
    ensures forall x: Pid :: x != p ==> (At(WakeOne(s, p), x, Asleep) <==> At(s, x, Asleep))
  {
    var t := s.tasks[p].(ticks := s.tasks[p].ticks - 1);
    FieldsKeep(s, p, t);
    var s1 := s.(tasks := s.tasks[p := t]);
    if t.ticks == 0 {
      MoveKeeps(s1, p, Asleep, Ready, Running);
    }
  }

  lemma WakeAllKeeps(s: Sys, ps: seq<Pid>)
    requires Unscheduled(s) && Distinct(ps)
    requires forall j :: 0 <= j < |ps| ==> ps[j] < |s.tasks| && At(s, ps[j], Asleep)
    ensures Unscheduled(WakeAll(s, ps))
    decreases ps
  {
    if ps != [] {
      WakeOneKeeps(s, ps[0]);
      WakeAllKeeps(WakeOne(s, ps[0]), ps[1..]);
    }
  }

  lemma SliceTickKeeps(s: Sys)
    requires Inv(s)
    ensures Unscheduled(SliceTick(s)) && At(SliceTick(s), s.current, Ready)
  {
    var t := s.tasks[s.current];
    var t' := if t.slice - 1 == 0 then t.(slice := TASK_SLICE) else t.(slice := t.slice - 1);
    FieldsKeep(s, s.current, t');
    if t.slice - 1 == 0 {
      MoveUnscheduled(s.(tasks := s.tasks[s.current := t']), s.current, Ready, Ready);
    }
  }

  /** The state a tick schedules from. */
  function TickWake(s: Sys): Sys
    requires Inv(s)
  {
    var s1 := SliceTick(s);
    assert forall j :: 0 <= j < |s1.queues[Asleep]| ==> At(s, s1.queues[Asleep][j], Asleep);
    WakeAll(s1, s1.queues[Asleep])
  }

  lemma TickUnscheduled(s: Sys)
    requires Inv(s)
    ensures Unscheduled(TickWake(s)) && At(TickWake(s), s.current, Ready)
    ensures TickWake(s).current == s.current && |TickWake(s).tasks| == |s.tasks|
    ensures Ready in TickWake(s).queues && SliceTick(s).queues[Ready] <= TickWake(s).queues[Ready]
    ensures Step(s, Tick) == Schedule(TickWake(s))
  {
    SliceTickKeeps(s);
    var s1 := SliceTick(s);
    forall j | 0 <= j < |s1.queues[Asleep]| ensures At(s1, s1.queues[Asleep][j], Asleep) {}
    WakeAllKeeps(s1, s1.queues[Asleep]);
  }

  lemma TickKeeps(s: Sys)
    requires Inv(s)
    ensures Inv(Step(s, Tick))
  {
    TickUnscheduled(s);
    PickIsReady(TickWake(s));
  }

  lemma SleepKeeps(s: Sys, ms: nat)
    requires Inv(s) && Enabled(s, Sleep(ms))
    ensures Inv(Step(s, Sleep(ms)))
  {
    if ms / TASK_SLICE > 0 {
      var t := s.tasks[s.current].(ticks := ms / TASK_SLICE);
      FieldsKeep(s, s.current, t);
      var s1 := s.(tasks := s.tasks[s.current := t]);
      MoveUnscheduled(s1, s.current, Ready, Asleep);
      PickIsReady(Move(s1, s.current, Ready, Asleep, Sleeping));
    } else {
      PickIsReady(s);
    }
  }

  lemma SemWaitKeeps(s: Sys, i: nat)
    requires Inv(s) && Enabled(s, SemWait(i))
    ensures Inv(Step(s, SemWait(i)))
  {
    if s.sems[i] > 0 {
      CountersKeep(s, s.sems[i := s.sems[i] - 1], s.mutexes);
    } else {
      MoveUnscheduled(s, s.current, Ready, SemQueue(i));
      PickIsReady(Move(s, s.current, Ready, SemQueue(i), Waiting));
    }
  }

  lemma SemNotifyKeeps(s: Sys, i: nat)
    requires Inv(s) && Enabled(s, SemNotify(i))
    ensures Inv(Step(s, SemNotify(i)))
  {
    if s.queues[SemQueue(i)] != [] {
      var p := s.queues[SemQueue(i)][0];
      assert At(s, p, SemQueue(i));
      MoveUnscheduled(s, p, SemQueue(i), Ready);
      PickIsReady(Release(s, SemQueue(i)));
    } else {
      CountersKeep(s, s.sems[i := s.sems[i] + 1], s.mutexes);
    }
  }

  lemma MutexLockKeeps(s: Sys, i: nat)
    requires Inv(s) && Enabled(s, MutexLock(i))
    ensures Inv(Step(s, MutexLock(i)))
  {
    var m := s.mutexes[i];
    if m.lockTimes == 0 {
      CountersKeep(s, s.sems, s.mutexes[i := Mutex(1, Some(s.current))]);
    } else if m.owner == Some(s.current) {
      CountersKeep(s, s.sems, s.mutexes[i := m.(lockTimes := m.lockTimes + 1)]);
    } else {
      MoveUnscheduled(s, s.current, Ready, MutexQueue(i));
      PickIsReady(Move(s, s.current, Ready, MutexQueue(i), Waiting));
    }
  }

  /** The state a full release with waiters schedules from. */
  lemma HandOffUnscheduled(s: Sys, i: nat)
    requires Inv(s) && i < |s.mutexes|
    requires s.mutexes[i].owner == Some(s.current) && s.mutexes[i].lockTimes == 1 && s.queues[MutexQueue(i)] != []
    ensures var heir := s.queues[MutexQueue(i)][0];
      heir < |s.tasks| && Unscheduled(Release(s, MutexQueue(i)).(mutexes := s.mutexes[i := Mutex(1, Some(heir))]))
  {
    var heir := s.queues[MutexQueue(i)][0];
    assert At(s, heir, MutexQueue(i));
    MoveUnscheduled(s, heir, MutexQueue(i), Ready);
    var s1 := Release(s, MutexQueue(i));
    WithoutMembers(s.queues[MutexQueue(i)], heir);
    CountersKeep(s1, s1.sems, s.mutexes[i := Mutex(1, Some(heir))]);
  }

  lemma MutexUnlockKeeps(s: Sys, i: nat)
    requires Inv(s) && Enabled(s, MutexUnlock(i))
    ensures Inv(Step(s, MutexUnlock(i)))
  {
    var m := s.mutexes[i];
    if m.owner == Some(s.current) {
      if m.lockTimes - 1 != 0 {
        CountersKeep(s, s.sems, s.mutexes[i := m.(lockTimes := m.lockTimes - 1)]);
      } else if s.queues[MutexQueue(i)] == [] {
        CountersKeep(s, s.sems, s.mutexes[i := Mutex(0, None)]);
      } else {
        var heir := s.queues[MutexQueue(i)][0];
        HandOffUnscheduled(s, i);
        PickIsReady(Release(s, MutexQueue(i)).(mutexes := s.mutexes[i := Mutex(1, Some(heir))]));
      }
    }
  }

  /** Every operation keeps the invariant. */
  lemma StepKeepsInv(s: Sys, op: Op)
    requires Inv(s) && Enabled(s, op)
    ensures Inv(Step(s, op))
  {
    match op
    case Spawn(junk) => SpawnKeeps(s, junk);
    case Tick => TickKeeps(s);
    case Yield =>
      MoveUnscheduled(s, s.current, Ready, Ready);
      PickIsReady(Move(s, s.current, Ready, Ready, Running));
    case Sleep(ms) => SleepKeeps(s, ms);
    case SemInit(count) => NewQueueKeeps(s, Step(s, op), SemQueue(|s.sems|));
    case SemWait(i) => SemWaitKeeps(s, i);
    case SemNotify(i) => SemNotifyKeeps(s, i);
    case MutexInit => NewQueueKeeps(s, Step(s, op), MutexQueue(|s.mutexes|));
    case MutexLock(i) => MutexLockKeeps(s, i);
    case MutexUnlock(i) => MutexUnlockKeeps(s, i);
  }

  // ---------------------------------------------------------------- runs

  /** The state right after boot: the idle task and the init task are ready, idle runs. */
  function Boot(junk0: int, junk1: int): (s: Sys)
    ensures Inv(s)
    ensures s.queues[Ready] == [0, 1] && s.queues[Asleep] == [] && s.current == s.idle == 0 && |s.tasks| == 2
    ensures forall p: Pid :: p < 2 ==> s.tasks[p].state == Running && s.tasks[p].slice == 10
  {
    var s := Sys([Task(Running, TASK_SLICE, junk0), Task(Running, TASK_SLICE, junk1)],
                 map[Ready := [0, 1], Asleep := []], [], [], 0, 0);
    assert At(s, 0, Ready) && At(s, 1, Ready);
    s
  }

  /** Every operation of the run is enabled when its turn comes. */
  ghost predicate Possible(s: Sys, ops: seq<Op>)
    requires Inv(s)
    decreases ops
  {
    ops == [] || (Enabled(s, ops[0]) && (StepKeepsInv(s, ops[0]); Possible(Step(s, ops[0]), ops[1..])))
  }

  ghost function Run(s: Sys, ops: seq<Op>): (r: Sys)
    requires Inv(s) && Possible(s, ops)
    ensures Inv(r)
    decreases ops
  {
    if ops == [] then s else
      StepKeepsInv(s, ops[0]);
      Run(Step(s, ops[0]), ops[1..])
  }

  /** What the invariant says of every state a booted kernel can reach: a task is linked into
      exactly one queue, its state tells which kind, and the next task to run is always a
      ready one, taken from a ready queue that is never empty. */
  lemma ReachableQueues(junk0: int, junk1: int, ops: seq<Op>, p: Pid)
    requires Possible(Boot(junk0, junk1), ops) && p < |Run(Boot(junk0, junk1), ops).tasks|
    ensures var r := Run(Boot(junk0, junk1), ops);
      && (exists pl :: At(r, p, pl) && forall pl' :: At(r, p, pl') ==> pl' == pl)
      && (r.tasks[p].state == Running <==> At(r, p, Ready))
      && (r.tasks[p].state == Sleeping <==> At(r, p, Asleep))
      && (r.tasks[p].state == Waiting <==> exists i :: At(r, p, SemQueue(i)) || At(r, p, MutexQueue(i)))
      && At(r, r.current, Ready) && At(r, r.idle, Ready) && At(r, Pick(r), Ready)
  {
    var r := Run(Boot(junk0, junk1), ops);
    assert InSomeQueue(r, p);
    var pl :| At(r, p, pl);
    PickIsReady(r);
    if pl.SemQueue? { assert At(r, p, SemQueue(pl.sem)); }
    if pl.MutexQueue? { assert At(r, p, MutexQueue(pl.mutex)); }
  }
}
