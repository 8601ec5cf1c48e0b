/** Mutexes over whole runs: recursive ownership is counted exactly, hand-off is first come
    first served, and a task blocked on a mutex only ever resumes as its owner. */
module MutexRuns {
  import opened Seqs
  import opened SchedModel
  import opened SchedInv
  import opened WaitFrames

  /** The operation gives the mutex up completely. */
  predicate FullRelease(s: Sys, op: Op, m: nat)
    requires Inv(s)
  {
    op == MutexUnlock(m) && m < |s.mutexes| && s.mutexes[m].owner == Some(s.current) && s.mutexes[m].lockTimes == 1
  }

  /** The caller, when the operation asks for a mutex it does not hold. */
  function Requested(s: Sys, op: Op, m: nat): seq<Pid>
    requires Inv(s) && m < |s.mutexes|
  {
    if op == MutexLock(m) && s.mutexes[m].owner != Some(s.current) then [s.current] else []
  }

  /** The task that becomes the owner by this operation, if any. */
  function Acquired(s: Sys, op: Op, m: nat): seq<Pid>
    requires Inv(s) && m < |s.mutexes|
  {
    if op == MutexLock(m) && s.mutexes[m].lockTimes == 0 then [s.current]
    else if FullRelease(s, op, m) && s.queues[MutexQueue(m)] != [] then [s.queues[MutexQueue(m)][0]]
    else []
  }

  /** How much the operation adds to the number of locks task `t` holds on mutex `m`: a lock
      that is granted, now or by hand-off, counts one, an unlock by the owner minus one. */
  function LockBalance(s: Sys, op: Op, m: nat, t: Pid): int
    requires Inv(s) && m < |s.mutexes|
  {
    var granted := if op == MutexLock(m) && t == s.current
                      && (s.mutexes[m].lockTimes == 0 || s.mutexes[m].owner == Some(t)) then 1 else 0;
    var handed := if FullRelease(s, op, m) && s.queues[MutexQueue(m)] != []
                     && s.queues[MutexQueue(m)][0] == t then 1 else 0;
    var unlocked := if op == MutexUnlock(m) && t == s.current && s.mutexes[m].owner == Some(t) then 1 else 0;
    granted + handed - unlocked
  }

  /** The locks task `t` holds on mutex `m`, as the mutex records them. */
  function Holds(s: Sys, m: nat, t: Pid): int
    requires m < |s.mutexes|
  {
    if s.mutexes[m].owner == Some(t) then s.mutexes[m].lockTimes else 0
  }

  /** What one operation does to mutex `m`. */
  ghost predicate MutexStepped(s: Sys, op: Op, r: Sys, m: nat)
    requires Inv(s) && m < |s.mutexes|
  {
    var q := MutexQueue(m);
    && m < |r.mutexes| && q in r.queues
    && s.queues[q] + Requested(s, op, m) == Acquired(s, op, m) + r.queues[q]
    && (Acquired(s, op, m) != [] ==> r.mutexes[m] == Mutex(1, Some(Acquired(s, op, m)[0])))
    && (Acquired(s, op, m) == [] && !FullRelease(s, op, m) ==> r.mutexes[m].owner == s.mutexes[m].owner)
    && (forall t: Pid :: Holds(r, m, t) == Holds(s, m, t) + LockBalance(s, op, m, t))
  }

  lemma LockStep(s: Sys, m: nat)
    requires Inv(s) && Enabled(s, MutexLock(m))
    ensures MutexStepped(s, MutexLock(m), Step(s, MutexLock(m)), m)
  {
    hide Seqs.Without, Pick;
  }

  lemma UnlockStep(s: Sys, m: nat)
    requires Inv(s) && Enabled(s, MutexUnlock(m))
    ensures MutexStepped(s, MutexUnlock(m), Step(s, MutexUnlock(m)), m)
  {
    hide Release, Pick;
    if s.queues[MutexQueue(m)] != [] {
      assert At(s, s.queues[MutexQueue(m)][0], MutexQueue(m));
      ReleaseTakesFirst(s, MutexQueue(m));
    }
  }

  lemma MutexStep(s: Sys, op: Op, m: nat)
    requires Inv(s) && Enabled(s, op) && m < |s.mutexes|
    ensures MutexStepped(s, op, Step(s, op), m)
  {
    hide Step;
    if op == MutexUnlock(m) {
      UnlockStep(s, m);
    } else if op == MutexLock(m) {
      LockStep(s, m);
    } else {
      OthersSame(s, op, MutexQueue(m));
    }
  }

  // ---------------------------------------------------------------- counting

  ghost function TotalBalance(s: Sys, ops: seq<Op>, m: nat, t: Pid): int
    requires Inv(s) && Possible(s, ops) && m < |s.mutexes|
    decreases ops
  {
    if ops == [] then 0 else
      StepKeepsInv(s, ops[0]);
      MutexStep(s, ops[0], m);
      LockBalance(s, ops[0], m, t) + TotalBalance(Step(s, ops[0]), ops[1..], m, t)
  }

  /** Over any run, lock_times is exactly the owner's granted locks minus its unlocks, and
      everyone else's balance is zero; so no two tasks ever hold the mutex together. */
  lemma {:induction false} LockTimesExact(s: Sys, ops: seq<Op>, m: nat, t: Pid)
    requires Inv(s) && Possible(s, ops) && m < |s.mutexes|
    ensures m < |Run(s, ops).mutexes|
    ensures Holds(Run(s, ops), m, t) == Holds(s, m, t) + TotalBalance(s, ops, m, t)
    ensures var x := Run(s, ops).mutexes[m];
      && x.lockTimes >= 0 && (x.lockTimes > 0 <==> x.owner.Some?)
      && (Run(s, ops).queues[MutexQueue(m)] != [] ==> x.lockTimes > 0)
    decreases ops
  {
    if ops != [] {
      StepKeepsInv(s, ops[0]);
      MutexStep(s, ops[0], m);
      LockTimesExact(Step(s, ops[0]), ops[1..], m, t);
    }
  }

  // ---------------------------------------------------------------- hand-off

  ghost function Requests(s: Sys, ops: seq<Op>, m: nat): seq<Pid>
    requires Inv(s) && Possible(s, ops) && m < |s.mutexes|
    decreases ops
  {
    if ops == [] then [] else
      StepKeepsInv(s, ops[0]);
      MutexStep(s, ops[0], m);
      Requested(s, ops[0], m) + Requests(Step(s, ops[0]), ops[1..], m)
  }

  ghost function Acquisitions(s: Sys, ops: seq<Op>, m: nat): seq<Pid>
    requires Inv(s) && Possible(s, ops) && m < |s.mutexes|
    decreases ops
  {
    if ops == [] then [] else
      StepKeepsInv(s, ops[0]);
      MutexStep(s, ops[0], m);
      Acquired(s, ops[0], m) + Acquisitions(Step(s, ops[0]), ops[1..], m)
  }

  ghost function Releases(s: Sys, ops: seq<Op>, m: nat): nat
    requires Inv(s) && Possible(s, ops)
    decreases ops
  {
    if ops == [] then 0 else
      StepKeepsInv(s, ops[0]);
      (if FullRelease(s, ops[0], m) then 1 else 0) + Releases(Step(s, ops[0]), ops[1..], m)
  }

  lemma Reassociate<T>(q: seq<T>, a: seq<T>, b: seq<T>, c: seq<T>, d: seq<T>, q1: seq<T>, q2: seq<T>)
    requires q + a == c + q1 && q1 + b == d + q2
    ensures q + (a + b) == (c + d) + q2
  {
    calc {
      q + (a + b);
      (q + a) + b;
      c + (q1 + b);
      c + (d + q2);
      (c + d) + q2;
    }
  }

  /** Ownership is granted in the order it was asked for. */
  lemma {:induction false} MutexIsFifo(s: Sys, ops: seq<Op>, m: nat)
    requires Inv(s) && Possible(s, ops) && m < |s.mutexes|
    ensures MutexQueue(m) in Run(s, ops).queues
    ensures s.queues[MutexQueue(m)] + Requests(s, ops, m) == Acquisitions(s, ops, m) + Run(s, ops).queues[MutexQueue(m)]
    decreases ops
  {
    if ops != [] {
      StepKeepsInv(s, ops[0]);
      MutexStep(s, ops[0], m);
      var r, rest, q := Step(s, ops[0]), ops[1..], MutexQueue(m);
      MutexIsFifo(r, rest, m);
      Reassociate(s.queues[q], Requested(s, ops[0], m), Requests(r, rest, m),
                  Acquired(s, ops[0], m), Acquisitions(r, rest, m), r.queues[q], Run(r, rest).queues[q]);
    }
  }

  /** A waiter's next position: one forward at a full release, else unchanged. */
  lemma WaiterStep(s: Sys, op: Op, m: nat, k: nat)
    requires Inv(s) && Enabled(s, op) && m < |s.mutexes| && k < |s.queues[MutexQueue(m)]|
    ensures var r, q := Step(s, op), MutexQueue(m);
      && m < |r.mutexes| && q in r.queues
      && if !FullRelease(s, op, m) then k < |r.queues[q]| && r.queues[q][k] == s.queues[q][k]
         else if k > 0 then k - 1 < |r.queues[q]| && r.queues[q][k - 1] == s.queues[q][k]
         else r.mutexes[m] == Mutex(1, Some(s.queues[q][0]))
  {
    MutexStep(s, op, m);
    var r, q := Step(s, op), MutexQueue(m);
    assert (s.queues[q] + Requested(s, op, m))[k] == s.queues[q][k];
    if FullRelease(s, op, m) && k > 0 {
      assert (Acquired(s, op, m) + r.queues[q])[k] == r.queues[q][k - 1];
    } else if !FullRelease(s, op, m) {
      assert [] + r.queues[q] == r.queues[q];
    }
  }

  /** The waiter at position `k` still waits, `R` places further on, after R <= k full
      releases, and owns the mutex exactly at the (k+1)-th. */
  lemma {:induction false} WaiterOwnsInTurn(s: Sys, ops: seq<Op>, last: Op, m: nat, k: nat)
    requires Inv(s) && Possible(s, ops) && m < |s.mutexes| && k < |s.queues[MutexQueue(m)]|
    requires Releases(s, ops, m) <= k
    ensures var r, q, left := Run(s, ops), MutexQueue(m), k - Releases(s, ops, m);
      && m < |r.mutexes| && q in r.queues
      && left < |r.queues[q]| && r.queues[q][left] == s.queues[q][k]
      && r.mutexes[m].owner != Some(s.queues[q][k])
      && (Enabled(r, last) && FullRelease(r, last, m) && left == 0 ==>
            Step(r, last).mutexes[m] == Mutex(1, Some(s.queues[q][k])))
    decreases ops
  {
    hide Step, Enabled;
    if ops == [] {
      if Enabled(s, last) { WaiterStep(s, last, m, k); }
    } else {
      StepKeepsInv(s, ops[0]);
      WaiterStep(s, ops[0], m, k);
      WaiterOwnsInTurn(Step(s, ops[0]), ops[1..], last, m, if FullRelease(s, ops[0], m) then k - 1 else k);
    }
  }

  /** `t` waits for the mutex or has been handed it and not run since. */
  ghost predicate WaitsOrOwns(s: Sys, m: nat, t: Pid) {
    && m < |s.mutexes| && MutexQueue(m) in s.queues
    && (t in s.queues[MutexQueue(m)] || s.mutexes[m] == Mutex(1, Some(t)))
  }

  lemma WaitsOrOwnsStep(s: Sys, op: Op, m: nat, t: Pid)
    requires Inv(s) && Enabled(s, op) && WaitsOrOwns(s, m, t) && t != s.current
    ensures WaitsOrOwns(Step(s, op), m, t)
  {
    MutexStep(s, op, m);
    var r, q := Step(s, op), MutexQueue(m);
    if t in s.queues[q] {
      var k :| 0 <= k < |s.queues[q]| && s.queues[q][k] == t;
      WaiterStep(s, op, m, k);
    } else {
      assert LockBalance(s, op, m, t) == 0;
      assert Holds(r, m, t) == 1;
    }
  }

  /** `t` is not the running task before the last operation of the run has been made. */
  ghost predicate OffCpu(s: Sys, ops: seq<Op>, t: Pid)
    requires Inv(s) && Possible(s, ops)
    decreases ops
  {
    ops == [] || (t != s.current && (StepKeepsInv(s, ops[0]); OffCpu(Step(s, ops[0]), ops[1..], t)))
  }

  /** A task blocked in mutex_lock that runs again owns the mutex, locked once. */
  lemma {:induction false} ResumesAsOwner(s: Sys, ops: seq<Op>, m: nat, t: Pid)
    requires Inv(s) && Possible(s, ops) && WaitsOrOwns(s, m, t) && OffCpu(s, ops, t)
    ensures WaitsOrOwns(Run(s, ops), m, t)
    ensures Run(s, ops).current == t ==> Run(s, ops).mutexes[m] == Mutex(1, Some(t))
    decreases ops
  {
    if ops == [] {
      if t in s.queues[MutexQueue(m)] {
        assert At(s, t, MutexQueue(m));
      }
    } else {
      StepKeepsInv(s, ops[0]);
      WaitsOrOwnsStep(s, ops[0], m, t);
      ResumesAsOwner(Step(s, ops[0]), ops[1..], m, t);
    }
  }

  /** A mutex_lock that blocks, followed by any run during which the caller does not run
      until its end: if it runs at the end, it is as the owner. */
  lemma BlockedLockResumesAsOwner(s: Sys, m: nat, ops: seq<Op>)
    requires Inv(s) && Possible(s, [MutexLock(m)] + ops)
    requires m < |s.mutexes| && s.mutexes[m].lockTimes != 0 && s.mutexes[m].owner != Some(s.current)
    requires Inv(Step(s, MutexLock(m))) && Possible(Step(s, MutexLock(m)), ops)
    requires OffCpu(Step(s, MutexLock(m)), ops, s.current)
    ensures Step(s, MutexLock(m)).current != s.current
    ensures m < |Run(s, [MutexLock(m)] + ops).mutexes|
    ensures Run(s, [MutexLock(m)] + ops).current == s.current ==>
      Run(s, [MutexLock(m)] + ops).mutexes[m] == Mutex(1, Some(s.current))
  {
    assert ([MutexLock(m)] + ops)[1..] == ops;
    var s1 := Step(s, MutexLock(m));
    assert s1.queues[MutexQueue(m)] == s.queues[MutexQueue(m)] + [s.current];
    assert At(s1, s.current, MutexQueue(m));
    ResumesAsOwner(s1, ops, m, s.current);
  }

  // ---------------------------------------------------------------- from mutex_init on

  /** A new mutex is free and nobody waits for it. Nothing else changes. */
  lemma InitStep(s: Sys)
    requires Inv(s)
    ensures var r, m := Step(s, MutexInit), |s.mutexes|;
      && Inv(r) && m < |r.mutexes| && MutexQueue(m) in r.queues
      && r.mutexes[m].lockTimes == 0 && r.mutexes[m].owner == None && r.queues[MutexQueue(m)] == []
      && r.mutexes[..m] == s.mutexes && |r.mutexes| == m + 1 && r.sems == s.sems && r.tasks == s.tasks
      && r.current == s.current && r.idle == s.idle && r.queues.Keys == s.queues.Keys + {MutexQueue(m)}
      && forall pl :: pl in s.queues ==> r.queues[pl] == s.queues[pl]
  {
    StepKeepsInv(s, MutexInit);
  }

  lemma AfterInit(s: Sys, ops: seq<Op>)
    requires Inv(s) && Possible(s, [MutexInit] + ops)
    ensures Inv(Step(s, MutexInit)) && Possible(Step(s, MutexInit), ops)
    ensures Run(s, [MutexInit] + ops) == Run(Step(s, MutexInit), ops)
  {
    hide Step, Enabled, Inv;
    StepKeepsInv(s, MutexInit);
    assert ([MutexInit] + ops)[1..] == ops && ([MutexInit] + ops)[0] == MutexInit;
  }

  /** From its initialisation on the locks a task holds are its balance alone, and the tasks
      that acquire the mutex are those that asked for it, in order, but for the last that wait. */
  lemma NewMutexCounts(s: Sys, ops: seq<Op>, t: Pid)
    requires Inv(s) && Possible(s, [MutexInit] + ops)
    ensures var s1, r, m := Step(s, MutexInit), Run(s, [MutexInit] + ops), |s.mutexes|;
      && Inv(s1) && Possible(s1, ops) && m < |s1.mutexes| && m < |r.mutexes| && MutexQueue(m) in r.queues
      && Holds(r, m, t) == TotalBalance(s1, ops, m, t)
      && Requests(s1, ops, m) == Acquisitions(s1, ops, m) + r.queues[MutexQueue(m)]
  {
    hide Step, Inv, Possible, Run;
    InitStep(s);
    AfterInit(s, ops);
    var s1, m := Step(s, MutexInit), |s.mutexes|;
    LockTimesExact(s1, ops, m, t);
    MutexIsFifo(s1, ops, m);
    assert [] + Requests(s1, ops, m) == Requests(s1, ops, m);
  }

  /** Nobody has the mutex and nobody waits for it. */
  ghost predicate Free(s: Sys, m: nat) {
    && m < |s.mutexes| && MutexQueue(m) in s.queues
    && s.mutexes[m].lockTimes == 0 && s.mutexes[m].owner == None && s.queues[MutexQueue(m)] == []
  }

  /** A free mutex stays free until it is locked, and who locks it then has it at once. */
  lemma FreeStep(s: Sys, op: Op, m: nat)
    requires Inv(s) && Enabled(s, op) && Free(s, m)
    ensures op != MutexLock(m) ==> Free(Step(s, op), m)
    ensures op == MutexLock(m) ==>
      Step(s, op) == s.(mutexes := s.mutexes[m := Mutex(1, Some(s.current))])
  {
    if op != MutexLock(m) && op != MutexUnlock(m) {
      hide Step, Enabled;
      OthersSame(s, op, MutexQueue(m));
    }
  }

  lemma {:induction false} FreeRun(s: Sys, ops: seq<Op>, m: nat)
    requires Inv(s) && Possible(s, ops) && Free(s, m) && MutexLock(m) !in ops
    ensures Free(Run(s, ops), m)
    decreases ops
  {
    if ops != [] {
      hide Step, Enabled, Inv, Free;
      assert ops[0] in ops && forall x :: x in ops[1..] ==> x in ops;
      StepKeepsInv(s, ops[0]);
      FreeStep(s, ops[0], m);
      FreeRun(Step(s, ops[0]), ops[1..], m);
    }
  }

  /** The first lock after mutex_init is granted at once, whoever asks for it and whatever came
      before: the caller runs on as the owner, and nothing else changes. */
  lemma FirstLockAcquires(s: Sys, ops: seq<Op>)
    requires Inv(s) && Possible(s, [MutexInit] + ops) && MutexLock(|s.mutexes|) !in ops
    ensures var r, m := Run(s, [MutexInit] + ops), |s.mutexes|;
      && m < |r.mutexes|
      && Enabled(r, MutexLock(m))
      && Step(r, MutexLock(m)) == r.(mutexes := r.mutexes[m := Mutex(1, Some(r.current))])
  {
    hide Step, Inv, Possible, Run;
    InitStep(s);
    AfterInit(s, ops);
    FreeRun(Step(s, MutexInit), ops, |s.mutexes|);
    FreeStep(Run(s, [MutexInit] + ops), MutexLock(|s.mutexes|), |s.mutexes|);
  }
}
