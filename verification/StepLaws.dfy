/** What each operation does to the queues, by positions: who leaves which place, who comes to which
    tail, and who runs next. */
module StepLaws {
  import opened Seqs
  import opened SchedModel
  import opened SchedInv

  /** The running task is at position `k` of the ready queue. */
  ghost predicate RunsAt(s: Sys, k: nat)
    requires Ready in s.queues
  {
    k < |s.queues[Ready]| && s.queues[Ready][k] == s.current
  }

  /** The queue without its `k`-th member. */
  function Others(q: seq<Pid>, k: nat): seq<Pid>
    requires k < |q|
  {
    q[..k] + q[k + 1..]
  }

  lemma WithoutAt(q: seq<Pid>, k: nat)
    requires Distinct(q) && k < |q|
    ensures Without(q, q[k]) == Others(q, k)
  {
    IndexUnique(q, k);
  }

  lemma MovedToTail(s: Sys, k: nat)
    requires QueuesInv(s) && s.current < |s.tasks| && RunsAt(s, k)
    ensures Move(s, s.current, Ready, Ready, s.tasks[s.current].state)
         == s.(queues := s.queues[Ready := Others(s.queues[Ready], k) + [s.current]])
  {
    WithoutAt(s.queues[Ready], k);
    MoveSameState(s, s.current, Ready, Ready);
  }

  /** task_yield: the running task goes behind all others, and the first of them runs. */
  lemma YieldExact(s: Sys, k: nat)
    requires Inv(s) && RunsAt(s, k)
    ensures var q := Others(s.queues[Ready], k) + [s.current];
      Step(s, Yield) == s.(queues := s.queues[Ready := q], current := q[0])
  {
    hide Pick, Move, Unscheduled, TasksInv, SemsInv, MutexesInv;
    assert At(s, s.current, Ready);
    MovedToTail(s, k);
    MoveUnscheduled(s, s.current, Ready, Ready);
    TailPicks(s.(queues := s.queues[Ready := Others(s.queues[Ready], k) + [s.current]]), Others(s.queues[Ready], k));
  }

  lemma TailPicks(s: Sys, others: seq<Pid>)
    requires Ready in s.queues && Unscheduled(s) && At(s, s.current, Ready) && s.queues[Ready] == others + [s.current]
    ensures Schedule(s) == s.(current := s.queues[Ready][0])
  {
    hide *;
    AfterLast(s.queues[Ready], others, s.current);
    TailRuns(s, |others|);
  }

  lemma AfterLast(q: seq<Pid>, others: seq<Pid>, p: Pid)
    requires q == others + [p]
    ensures q[|others| + 1..] + q == q && |others| < |q| && q[|others|] == p
  {
  }

  lemma TailRuns(s: Sys, k: nat)
    requires Unscheduled(s) && At(s, s.current, Ready) && k < |s.queues[Ready]| && s.queues[Ready][k] == s.current
    ensures Schedule(s) == s.(current := (s.queues[Ready][k + 1..] + s.queues[Ready])[0])
  {
    hide Pick;
    PickExact(s, k);
  }

  /** The running task leaves the ready queue for the tail of `to`, and the first ready task runs. */
  ghost predicate BlocksAt(s: Sys, k: nat, to: Place, t: Task, r: Sys)
    requires Inv(s) && RunsAt(s, k) && to in s.queues && to != Ready
  {
    var q := Others(s.queues[Ready], k);
    && q != []
    && r == s.(tasks := s.tasks[s.current := t],
               queues := s.queues[Ready := q][to := s.queues[to] + [s.current]], current := q[0])
  }

  lemma BlockExact(s: Sys, s1: Sys, k: nat, to: Place, t: Task)
    requires Inv(s) && RunsAt(s, k) && to in s.queues && to != Ready && t.state == StateAt(to)
    requires s1 == s.(tasks := s.tasks[s.current := t.(state := s.tasks[s.current].state)])
    requires Unscheduled(Move(s1, s.current, Ready, to, t.state))
    ensures BlocksAt(s, k, to, t, Block(s1, to, t.state))
  {
    hide Pick;
    WithoutAt(s.queues[Ready], k);
    var s2 := Move(s1, s.current, Ready, to, t.state);
    assert s2.tasks == s.tasks[s.current := t];
    PickExact(s2, 0);
  }

  /** sys_sleep: with less than ten milliseconds the next task runs and nobody sleeps. */
  lemma SleepExact(s: Sys, ms: nat, k: nat)
    requires Inv(s) && Enabled(s, Sleep(ms)) && RunsAt(s, k)
    ensures var r, t := Step(s, Sleep(ms)), s.tasks[s.current];
      if ms < 10 then
        r == s.(current := (s.queues[Ready][k + 1..] + s.queues[Ready])[0])
      else
        BlocksAt(s, k, Asleep, Task(Sleeping, t.slice, ms / 10), r)
  {
    hide Pick, Block;
    assert At(s, s.current, Ready);
    if ms < 10 {
      PickExact(s, k);
    } else {
      var t := s.tasks[s.current].(ticks := ms / TASK_SLICE);
      FieldsKeep(s, s.current, t);
      var s1 := s.(tasks := s.tasks[s.current := t]);
      MoveUnscheduled(s1, s.current, Ready, Asleep);
      BlockExact(s, s1, k, Asleep, t.(state := Sleeping));
    }
  }

  lemma WaitBlocks(s: Sys, k: nat, to: Place)
    requires Inv(s) && RunsAt(s, k) && to in s.queues && (to.SemQueue? || to.MutexQueue?) && s.current != s.idle
    requires to.SemQueue? ==> s.sems[to.sem] <= 0
    requires to.MutexQueue? ==> s.mutexes[to.mutex].owner.Some? && s.mutexes[to.mutex].owner != Some(s.current)
    ensures BlocksAt(s, k, to, s.tasks[s.current].(state := Waiting), Block(s, to, Waiting))
  {
    hide Block;
    assert At(s, s.current, Ready);
    MoveUnscheduled(s, s.current, Ready, to);
    var t := s.tasks[s.current];
    assert s.tasks[s.current := t] == s.tasks;
    BlockExact(s, s, k, to, t.(state := Waiting));
  }

  /** The first waiter of `from` goes to the ready tail, running, and whoever then follows the
      running task runs. */
  ghost predicate WakesFirst(s: Sys, k: nat, from: Place, mutexes: seq<Mutex>, r: Sys)
    requires Inv(s) && RunsAt(s, k) && from in s.queues && from != Ready
  {
    && s.queues[from] != [] && s.queues[from][0] < |s.tasks|
    && var first := s.queues[from][0];
       var q := s.queues[Ready] + [first];
       r == s.(tasks := s.tasks[first := s.tasks[first].(state := Running)], mutexes := mutexes,
               queues := s.queues[from := s.queues[from][1..]][Ready := q], current := (q[k + 1..] + q)[0])
  }

  lemma WakeExact(s: Sys, k: nat, from: Place, mutexes: seq<Mutex>)
    requires Inv(s) && RunsAt(s, k) && from in s.queues && from != Ready && s.queues[from] != []
    requires s.queues[from][0] < |s.tasks| && Unscheduled(Release(s, from).(mutexes := mutexes))
    ensures At(Release(s, from).(mutexes := mutexes), s.current, Ready)
    ensures WakesFirst(s, k, from, mutexes, Schedule(Release(s, from).(mutexes := mutexes)))
  {
    hide Pick;
    WithoutHead(s.queues[from]);
    var s1 := Release(s, from).(mutexes := mutexes);
    assert s1.queues[Ready][k] == s.current;
    assert At(s, s.current, Ready);
    assert !At(s, s.current, from);
    PickExact(s1, k);
  }

  lemma SameMutexes(s: Sys, from: Place)
    requires from in s.queues && Ready in s.queues && s.queues[from] != [] && s.queues[from][0] < |s.tasks|
    ensures Release(s, from).(mutexes := s.mutexes) == Release(s, from)
  {
  }

  /** sem_wait and sem_notify. */
  lemma SemWaitExact(s: Sys, i: nat, k: nat)
    requires Inv(s) && Enabled(s, SemWait(i)) && RunsAt(s, k)
    ensures var r := Step(s, SemWait(i));
      if s.sems[i] > 0 then r == s.(sems := s.sems[i := s.sems[i] - 1])
      else BlocksAt(s, k, SemQueue(i), s.tasks[s.current].(state := Waiting), r)
  {
    hide Block;
    if s.sems[i] <= 0 { WaitBlocks(s, k, SemQueue(i)); }
  }

  lemma SemNotifyExact(s: Sys, i: nat, k: nat)
    requires Inv(s) && Enabled(s, SemNotify(i)) && RunsAt(s, k)
    ensures var r := Step(s, SemNotify(i));
      if s.queues[SemQueue(i)] == [] then r == s.(sems := s.sems[i := s.sems[i] + 1])
      else WakesFirst(s, k, SemQueue(i), s.mutexes, r)
  {
    hide Move, Pick;
    if s.queues[SemQueue(i)] != [] {
      var p := s.queues[SemQueue(i)][0];
      assert At(s, p, SemQueue(i));
      MoveUnscheduled(s, p, SemQueue(i), Ready);
      SameMutexes(s, SemQueue(i));
      WakeExact(s, k, SemQueue(i), s.mutexes);
    }
  }

  /** mutex_lock and mutex_unlock: a lock taken, taken once more, or waited for; an unlock that
      is ignored, counts down, gives the mutex up, or hands it to the first waiter. */
  lemma MutexLockExact(s: Sys, i: nat, k: nat)
    requires Inv(s) && Enabled(s, MutexLock(i)) && RunsAt(s, k)
    ensures var r, m := Step(s, MutexLock(i)), s.mutexes[i];
      if m == Mutex(0, None) then r == s.(mutexes := s.mutexes[i := Mutex(1, Some(s.current))])
      else if m.owner == Some(s.current) then
        r == s.(mutexes := s.mutexes[i := Mutex(m.lockTimes + 1, Some(s.current))])
      else BlocksAt(s, k, MutexQueue(i), s.tasks[s.current].(state := Waiting), r)
  {
    hide Block;
    var m := s.mutexes[i];
    assert MutexQueue(i) in s.queues;
    if m.lockTimes != 0 && m.owner != Some(s.current) { WaitBlocks(s, k, MutexQueue(i)); }
  }

  lemma MutexUnlockExact(s: Sys, i: nat, k: nat)
    requires Inv(s) && Enabled(s, MutexUnlock(i)) && RunsAt(s, k)
    ensures var r, m, q := Step(s, MutexUnlock(i)), s.mutexes[i], s.queues[MutexQueue(i)];
      if m.owner != Some(s.current) then r == s
      else if m.lockTimes > 1 then r == s.(mutexes := s.mutexes[i := Mutex(m.lockTimes - 1, Some(s.current))])
      else if q == [] then r == s.(mutexes := s.mutexes[i := Mutex(0, None)])
      else WakesFirst(s, k, MutexQueue(i), s.mutexes[i := Mutex(1, Some(q[0]))], r)
  {
    hide Release, Pick;
    var m, q := s.mutexes[i], s.queues[MutexQueue(i)];
    if m.owner == Some(s.current) && m.lockTimes == 1 && q != [] {
      HandOffUnscheduled(s, i);
      WakeExact(s, k, MutexQueue(i), s.mutexes[i := Mutex(1, Some(q[0]))]);
    }
  }
}
