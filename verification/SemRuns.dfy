/** Semaphores over whole runs: what was notified is what was granted plus what is left, and
    waiters are granted in the order they arrived. */
module SemRuns {
  import opened Seqs
  import opened SchedModel
  import opened SchedInv
  import opened WaitFrames

  /** The caller, when the operation is a wait on semaphore `i`. */
  function Arrived(s: Sys, op: Op, i: nat): seq<Pid> {
    if op == SemWait(i) then [s.current] else []
  }

  /** The task whose wait on semaphore `i` this operation completes, if any. */
  function Granted(s: Sys, op: Op, i: nat): seq<Pid>
    requires Inv(s) && Enabled(s, op)
  {
    if op == SemWait(i) && s.sems[i] > 0 then [s.current]
    else if op == SemNotify(i) && s.queues[SemQueue(i)] != [] then [s.queues[SemQueue(i)][0]]
    else []
  }

  ghost function Arrivals(s: Sys, ops: seq<Op>, i: nat): seq<Pid>
    requires Inv(s) && Possible(s, ops)
    decreases ops
  {
    if ops == [] then [] else
      StepKeepsInv(s, ops[0]);
      Arrived(s, ops[0], i) + Arrivals(Step(s, ops[0]), ops[1..], i)
  }

  ghost function Grants(s: Sys, ops: seq<Op>, i: nat): seq<Pid>
    requires Inv(s) && Possible(s, ops)
    decreases ops
  {
    if ops == [] then [] else
      StepKeepsInv(s, ops[0]);
      Granted(s, ops[0], i) + Grants(Step(s, ops[0]), ops[1..], i)
  }

  function Notifies(ops: seq<Op>, i: nat): nat {
    if ops == [] then 0 else (if ops[0] == SemNotify(i) then 1 else 0) + Notifies(ops[1..], i)
  }

  /** The bookkeeping of semaphore `i` from `s` to `r`. */
  ghost predicate Balanced(s: Sys, r: Sys, arrivals: seq<Pid>, notifies: nat, grants: seq<Pid>, i: nat)
    requires i < |s.sems| && SemQueue(i) in s.queues
  {
    && i < |r.sems| && SemQueue(i) in r.queues
    && s.queues[SemQueue(i)] + arrivals == grants + r.queues[SemQueue(i)]
    && s.sems[i] + notifies == |grants| + r.sems[i]
  }

  lemma WaitStep(s: Sys, i: nat)
    requires Inv(s) && Enabled(s, SemWait(i))
    ensures Balanced(s, Step(s, SemWait(i)), [s.current], 0, Granted(s, SemWait(i), i), i)
  {
    hide Seqs.Without, Pick;
  }

  lemma NotifyStep(s: Sys, i: nat)
    requires Inv(s) && Enabled(s, SemNotify(i))
    ensures Balanced(s, Step(s, SemNotify(i)), [], 1, Granted(s, SemNotify(i), i), i)
  {
    hide Release, Pick;
    if s.queues[SemQueue(i)] != [] {
      assert At(s, s.queues[SemQueue(i)][0], SemQueue(i));
      ReleaseTakesFirst(s, SemQueue(i));
    }
  }

  lemma SemStep(s: Sys, op: Op, i: nat)
    requires Inv(s) && Enabled(s, op) && i < |s.sems|
    ensures Balanced(s, Step(s, op), Arrived(s, op, i), if op == SemNotify(i) then 1 else 0, Granted(s, op, i), i)
  {
    hide Step;
    if op == SemNotify(i) {
      NotifyStep(s, i);
    } else if op == SemWait(i) {
      WaitStep(s, i);
    } else {
      OthersSame(s, op, SemQueue(i));
    }
  }

  lemma BalanceChains(s: Sys, r: Sys, u: Sys, i: nat,
      a1: seq<Pid>, n1: nat, g1: seq<Pid>, a2: seq<Pid>, n2: nat, g2: seq<Pid>)
    requires i < |s.sems| && SemQueue(i) in s.queues
    requires Balanced(s, r, a1, n1, g1, i) && Balanced(r, u, a2, n2, g2, i)
    ensures Balanced(s, u, a1 + a2, n1 + n2, g1 + g2, i)
  {
    var q := SemQueue(i);
    calc {
      s.queues[q] + (a1 + a2);
      (s.queues[q] + a1) + a2;
      g1 + (r.queues[q] + a2);
      g1 + (g2 + u.queues[q]);
      (g1 + g2) + u.queues[q];
    }
  }

  /** Over any run: whoever was waiting or came to wait was granted, in order, or still
      waits, in order; and the count is what came in minus what was granted. */
  lemma {:induction false} SemConservation(s: Sys, ops: seq<Op>, i: nat)
    requires Inv(s) && Possible(s, ops) && i < |s.sems|
    ensures Balanced(s, Run(s, ops), Arrivals(s, ops, i), Notifies(ops, i), Grants(s, ops, i), i)
    ensures Run(s, ops).sems[i] > 0 ==> Run(s, ops).queues[SemQueue(i)] == []
    decreases ops
  {
    if ops != [] {
      StepKeepsInv(s, ops[0]);
      SemStep(s, ops[0], i);
      var r, rest := Step(s, ops[0]), ops[1..];
      SemConservation(r, rest, i);
      BalanceChains(s, r, Run(r, rest), i,
        Arrived(s, ops[0], i), if ops[0] == SemNotify(i) then 1 else 0, Granted(s, ops[0], i),
        Arrivals(r, rest, i), Notifies(rest, i), Grants(r, rest, i));
    }
  }

  lemma {:induction false} CountStaysNonnegative(s: Sys, ops: seq<Op>, i: nat)
    requires Inv(s) && Possible(s, ops) && i < |s.sems| && s.sems[i] >= 0
    ensures i < |Run(s, ops).sems| && Run(s, ops).sems[i] >= 0
    decreases ops
  {
    if ops != [] {
      StepKeepsInv(s, ops[0]);
      SemStep(s, ops[0], i);
      assert Step(s, ops[0]).sems[i] >= 0;
      CountStaysNonnegative(Step(s, ops[0]), ops[1..], i);
    }
  }

  /** What a semaphore initialised with `count` promises: of the waits so far, the first
      count + notifies are granted and no others. */
  ghost predicate GrantsFirst(s: Sys, ops: seq<Op>, i: nat)
    requires Inv(s) && Possible(s, ops) && i < |s.sems|
  {
    var arrivals, n := Arrivals(s, ops, i), s.sems[i] + Notifies(ops, i);
    Grants(s, ops, i) == if n < 0 then [] else if n < |arrivals| then arrivals[..n] else arrivals
  }

  /** No wakeup is lost and none is invented, for every run of a semaphore whose initial
      count is not negative. */
  lemma SemGrantsExactly(s: Sys, count: int, ops: seq<Op>)
    requires Inv(s) && Possible(s, [SemInit(count)] + ops) && count >= 0
    ensures Inv(Step(s, SemInit(count))) && Possible(Step(s, SemInit(count)), ops)
    ensures GrantsFirst(Step(s, SemInit(count)), ops, |s.sems|)
  {
    assert ([SemInit(count)] + ops)[1..] == ops;
    StepKeepsInv(s, SemInit(count));
    var s1, i := Step(s, SemInit(count)), |s.sems|;
    SemConservation(s1, ops, i);
    CountStaysNonnegative(s1, ops, i);
    var q := Run(s1, ops).queues[SemQueue(i)];
    assert [] + Arrivals(s1, ops, i) == Arrivals(s1, ops, i);
    if q == [] {
      assert Grants(s1, ops, i) + [] == Grants(s1, ops, i);
    } else {
      assert (Grants(s1, ops, i) + q)[..|Grants(s1, ops, i)|] == Grants(s1, ops, i);
    }
  }

  lemma InitStep(s: Sys, count: int)
    requires Inv(s)
    ensures Enabled(s, SemInit(count))
    ensures var r, i := Step(s, SemInit(count)), |s.sems|;
      && Inv(r) && i < |r.sems| && r.sems[i] == count && SemQueue(i) in r.queues && r.queues[SemQueue(i)] == []
      && r.sems[..i] == s.sems && |r.sems| == i + 1 && r.mutexes == s.mutexes && r.tasks == s.tasks
      && r.current == s.current && r.idle == s.idle && r.queues.Keys == s.queues.Keys + {SemQueue(i)}
      && forall pl :: pl in s.queues ==> r.queues[pl] == s.queues[pl]
  {
    StepKeepsInv(s, SemInit(count));
  }

  /** Two operations: what the run over them is made of. */
  lemma TwoSteps(s: Sys, a: Op, b: Op, i: nat)
    requires Inv(s) && Enabled(s, a) && Inv(Step(s, a)) && Enabled(Step(s, a), b)
    ensures Possible(s, [a, b])
    ensures Grants(s, [a, b], i) == Granted(s, a, i) + (Granted(Step(s, a), b, i) + [])
  {
    hide Step, Enabled, Granted;
    var s1 := Step(s, a);
    StepKeepsInv(s1, b);
    assert [a, b][1..] == [b] && [b][1..] == [];
    assert Possible(Step(s1, b), []) && Possible(s1, [b]);
    assert Grants(s1, [b], i) == Granted(s1, b, i) + Grants(Step(s1, b), [], i);
  }

  /** A negative initial count does not owe notifies: one wait and one notify already grant
      a wait that count + notifies does not cover. */
  lemma NegativeCountGrantsEarly(s: Sys, count: int)
    requires Inv(s) && count < 0 && s.current != s.idle
    ensures var s1, i := Step(s, SemInit(count)), |s.sems|;
      Inv(s1) && Possible(s1, [SemWait(i), SemNotify(i)]) && !GrantsFirst(s1, [SemWait(i), SemNotify(i)], i)
  {
    hide *;
    InitStep(s, count);
    var s1, i := Step(s, SemInit(count)), |s.sems|;
    WaitsAlone(s1, i);
    StepKeepsInv(s1, SemWait(i));
    TwoSteps(s1, SemWait(i), SemNotify(i), i);
    OneNotify(i);
    GrantedEarly(s1, [SemWait(i), SemNotify(i)], i);
  }

  /** The first wait on a count that is not positive waits, and the next notify is for it. */
  lemma WaitsAlone(s: Sys, i: nat)
    requires Inv(s) && i < |s.sems| && SemQueue(i) in s.queues
    requires s.sems[i] <= 0 && s.queues[SemQueue(i)] == [] && s.current != s.idle
    ensures Enabled(s, SemWait(i)) && Granted(s, SemWait(i), i) == [] && Inv(Step(s, SemWait(i)))
    ensures Enabled(Step(s, SemWait(i)), SemNotify(i))
    ensures Granted(Step(s, SemWait(i)), SemNotify(i), i) == [s.current]
  {
    hide Step, Inv;
    StepKeepsInv(s, SemWait(i));
    WaitStep(s, i);
    var q := Step(s, SemWait(i)).queues[SemQueue(i)];
    assert [] + [s.current] == [s.current] && [] + q == q;
  }

  lemma OneNotify(i: nat)
    ensures Notifies([SemWait(i), SemNotify(i)], i) == 1
  {
    assert [SemNotify(i)][1..] == [];
    assert Notifies([SemNotify(i)], i) == 1;
    assert [SemWait(i), SemNotify(i)][1..] == [SemNotify(i)];
  }

  lemma GrantedEarly(s: Sys, ops: seq<Op>, i: nat)
    requires Inv(s) && Possible(s, ops) && i < |s.sems| && s.sems[i] + Notifies(ops, i) <= 0
    requires Grants(s, ops, i) != []
    ensures !GrantsFirst(s, ops, i)
  {
    hide Arrivals, Grants, Inv, Possible;
    assert Arrivals(s, ops, i)[..0] == [];
  }
}
