/** Time slices over whole runs: a task is charged the ticks during which it runs, and goes to the
    tail of the ready queue with every tenth of them, whatever happens in between. */
module SliceRuns {
  import opened Seqs
  import opened SchedModel
  import opened SchedInv
  import opened StepLaws
  import SleepRuns

  /** How many ticks of the run found `t` running. */
  ghost function Charged(s: Sys, ops: seq<Op>, t: Pid): nat
    requires Inv(s) && Possible(s, ops)
    decreases ops
  {
    if ops == [] then 0 else
      StepKeepsInv(s, ops[0]);
      (if ops[0].Tick? && s.current == t then 1 else 0) + Charged(Step(s, ops[0]), ops[1..], t)
  }

  /** What the slice of `t` is next. */
  ghost predicate SliceNext(s: Sys, op: Op, r: Sys, t: Pid) {
    && t < |s.tasks| && t < |r.tasks|
    && var slice := s.tasks[t].slice;
       r.tasks[t].slice == if op.Tick? && s.current == t then if slice == 1 then 10 else slice - 1 else slice
  }

  lemma TickSlice(s: Sys, t: Pid)
    requires Inv(s) && t < |s.tasks|
    ensures SliceNext(s, Tick, Step(s, Tick), t)
  {
    hide Step, SleepRuns.SliceEnd, SleepRuns.Select;
    assert At(s, s.current, Ready);
    var k :| 0 <= k < |s.queues[Ready]| && s.queues[Ready][k] == s.current;
    SleepRuns.TickExact(s, k);
    assert s.current in s.queues[Asleep] ==> At(s, s.current, Asleep);
  }

  lemma SliceStep(s: Sys, op: Op, t: Pid)
    requires Inv(s) && Enabled(s, op) && t < |s.tasks|
    ensures SliceNext(s, op, Step(s, op), t)
  {
    hide Without, Pick;
    if op.Tick? { TickSlice(s, t); }
  }

  /** After any run the slice says how many ticks `t` was charged since it was last renewed. */
  lemma {:induction false} SliceCounts(s: Sys, ops: seq<Op>, t: Pid)
    requires Inv(s) && Possible(s, ops) && t < |s.tasks|
    ensures t < |Run(s, ops).tasks|
    ensures Run(s, ops).tasks[t].slice == 10 - (10 - s.tasks[t].slice + Charged(s, ops, t)) % 10
    decreases ops
  {
    hide *;
    SliceRange(s, t);
    if ops == [] {
      SleepRuns.NoOps(s);
      ChargedIs(s, ops, t);
    } else {
      SleepRuns.FirstOp(s, ops);
      SliceStep(s, ops[0], t);
      SliceNextIs(s, ops[0], Step(s, ops[0]), t);
      ChargedIs(s, ops, t);
      SliceCounts(Step(s, ops[0]), ops[1..], t);
    }
  }

  lemma ChargedIs(s: Sys, ops: seq<Op>, t: Pid)
    requires Inv(s) && Possible(s, ops)
    ensures ops == [] ==> Charged(s, ops, t) == 0
    ensures ops != [] ==>
      && Enabled(s, ops[0]) && Inv(Step(s, ops[0])) && Possible(Step(s, ops[0]), ops[1..])
      && Charged(s, ops, t) ==
           (if ops[0].Tick? && s.current == t then 1 else 0) + Charged(Step(s, ops[0]), ops[1..], t)
  {
    hide Step, Enabled, Inv;
    if ops != [] { StepKeepsInv(s, ops[0]); }
  }

  lemma SliceNextIs(s: Sys, op: Op, r: Sys, t: Pid)
    requires SliceNext(s, op, r, t)
    ensures t < |s.tasks| && t < |r.tasks|
    ensures var slice := s.tasks[t].slice;
      r.tasks[t].slice == if op.Tick? && s.current == t then if slice == 1 then 10 else slice - 1 else slice
  {
  }

  lemma SliceRange(s: Sys, t: Pid)
    requires Inv(s) && t < |s.tasks|
    ensures 1 <= s.tasks[t].slice <= 10
  {
  }

  /** What a tick does with the running task, at position `k` of the ready queue: it goes behind all
      others with a whole slice, or stays where it is. Whoever wakes up comes after that. */
  ghost predicate TickMoves(s: Sys, k: nat, moves: bool)
    requires Inv(s) && RunsAt(s, k)
  {
    var r, q := Step(s, Tick), s.queues[Ready];
    && s.current < |r.tasks| && Ready in r.queues
    && if moves then Others(q, k) + [s.current] <= r.queues[Ready] && r.tasks[s.current].slice == 10
       else q <= r.queues[Ready] && r.tasks[s.current].slice < 10
  }

  lemma TickMovesIs(s: Sys, k: nat)
    requires Inv(s) && RunsAt(s, k)
    ensures TickMoves(s, k, s.tasks[s.current].slice == 1)
  {
    hide Step, SleepRuns.Select;
    assert At(s, s.current, Ready);
    SleepRuns.TickExact(s, k);
    SliceRange(s, s.current);
    assert s.current in s.queues[Asleep] ==> At(s, s.current, Asleep);
  }

  /** From any state on, the ticks charged to `t` move it to the tail exactly when they make up,
      with those charged to its slice before, a multiple of ten. */
  lemma TenthTickMoves(s: Sys, ops: seq<Op>, t: Pid, k: nat)
    requires Inv(s) && Possible(s, ops) && t < |s.tasks|
    requires Run(s, ops).current == t && RunsAt(Run(s, ops), k)
    ensures TickMoves(Run(s, ops), k, (10 - s.tasks[t].slice + Charged(s, ops, t) + 1) % 10 == 0)
  {
    hide Step, TickMoves;
    SliceCounts(s, ops, t);
    TickMovesIs(Run(s, ops), k);
  }

  /** A new task is the last ready one, running, with nothing charged. Nothing else changes. */
  lemma SpawnExact(s: Sys, junk: int)
    requires Inv(s)
    ensures var r := Step(s, Spawn(junk));
      && Inv(r) && r == s.(tasks := r.tasks, queues := s.queues[Ready := s.queues[Ready] + [|s.tasks|]])
      && r.tasks == s.tasks + [Task(Running, 10, junk)]
  {
    StepKeepsInv(s, Spawn(junk));
  }

  /** A task is moved to the tail by every tenth tick charged to it from its creation on, and by no
      other. */
  lemma EveryTenthTick(s: Sys, junk: int, ops: seq<Op>, k: nat)
    requires Inv(s) && Possible(s, [Spawn(junk)] + ops)
    requires Run(s, [Spawn(junk)] + ops).current == |s.tasks| && RunsAt(Run(s, [Spawn(junk)] + ops), k)
    ensures TickMoves(Run(s, [Spawn(junk)] + ops), k, (Charged(s, [Spawn(junk)] + ops, |s.tasks|) + 1) % 10 == 0)
  {
    hide Step, TickMoves, Enabled, Inv;
    assert ([Spawn(junk)] + ops)[1..] == ops && ([Spawn(junk)] + ops)[0] == Spawn(junk);
    SpawnExact(s, junk);
    TenthTickMoves(Step(s, Spawn(junk)), ops, |s.tasks|, k);
  }
}
