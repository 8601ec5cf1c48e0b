/** Operations on one wait queue leave every other wait queue, and its object, alone. */
module WaitFrames {
  import opened Seqs
  import opened SchedModel
  import opened SchedInv
  import SleepRuns

  /** The operation is about the object that owns wait queue `pl`. */
  predicate Concerns(op: Op, pl: Place) {
    match pl
    case SemQueue(i) => op == SemWait(i) || op == SemNotify(i)
    case MutexQueue(i) => op == MutexLock(i) || op == MutexUnlock(i)
    case _ => true
  }

  ghost predicate SameWaiters(s: Sys, r: Sys, pl: Place) {
    && pl in s.queues && pl in r.queues && r.queues[pl] == s.queues[pl]
    && (pl.SemQueue? ==> pl.sem < |s.sems| && pl.sem < |r.sems| && r.sems[pl.sem] == s.sems[pl.sem])
    && (pl.MutexQueue? ==>
          pl.mutex < |s.mutexes| && pl.mutex < |r.mutexes| && r.mutexes[pl.mutex] == s.mutexes[pl.mutex])
  }

  lemma TickSame(s: Sys, pl: Place)
    requires Inv(s) && pl in s.queues && !Concerns(Tick, pl)
    ensures SameWaiters(s, Step(s, Tick), pl)
  {
    SleepRuns.TickWoken(s);
  }

  lemma SemOpSame(s: Sys, op: Op, pl: Place)
    requires Inv(s) && Enabled(s, op) && pl in s.queues && !Concerns(op, pl)
    requires op.SemInit? || op.SemWait? || op.SemNotify?
    ensures SameWaiters(s, Step(s, op), pl)
  {
  }

  lemma MutexOpSame(s: Sys, op: Op, pl: Place)
    requires Inv(s) && Enabled(s, op) && pl in s.queues && !Concerns(op, pl)
    requires op.MutexInit? || op.MutexLock? || op.MutexUnlock?
    ensures SameWaiters(s, Step(s, op), pl)
  {
  }

  lemma TaskOpSame(s: Sys, op: Op, pl: Place)
    requires Inv(s) && Enabled(s, op) && pl in s.queues && !Concerns(op, pl)
    requires op.Spawn? || op.Yield? || op.Sleep?
    ensures SameWaiters(s, Step(s, op), pl)
  {
  }

  lemma OthersSame(s: Sys, op: Op, pl: Place)
    requires Inv(s) && Enabled(s, op) && pl in s.queues && !Concerns(op, pl)
    ensures SameWaiters(s, Step(s, op), pl)
  {
    hide Step, Enabled, Concerns;
    if op.Tick? {
      TickSame(s, pl);
    } else if op.SemInit? || op.SemWait? || op.SemNotify? {
      SemOpSame(s, op, pl);
    } else if op.MutexInit? || op.MutexLock? || op.MutexUnlock? {
      MutexOpSame(s, op, pl);
    } else {
      TaskOpSame(s, op, pl);
    }
  }

  /** Waking the first waiter drops it from the front of its queue. */
  lemma ReleaseTakesFirst(s: Sys, pl: Place)
    requires pl in s.queues && pl != Ready && Ready in s.queues
    requires s.queues[pl] != [] && s.queues[pl][0] < |s.tasks|
    ensures Release(s, pl) == s.(tasks := Release(s, pl).tasks, queues := Release(s, pl).queues)
    ensures pl in Release(s, pl).queues && Release(s, pl).queues[pl] == s.queues[pl][1..]
  {
    WithoutHead(s.queues[pl]);
  }
}
