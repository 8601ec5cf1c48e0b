/** The task scheduler and its blocking primitives as one step machine.

    A state holds the task table, the queues the tasks' link nodes live in, the semaphore
    counters, the mutex owners, and which task runs. Each public operation of the kernel
    runs with interrupts off and does nothing after `schedule()`, so it is one step. */
module SchedModel {
  import opened Seqs

  type Pid = nat

  datatype Option<+T> = None | Some(value: T)

  datatype TaskState = Created | Running | Sleeping | Waiting | Zombie

  /** What the scheduler keeps per task. `ticks` means something only while sleeping. */
  datatype Task = Task(state: TaskState, slice: int, ticks: int)

  /** A queue a task's `rq` node can be linked into. */
  datatype Place = Ready | Asleep | SemQueue(sem: nat) | MutexQueue(mutex: nat)

  datatype Mutex = Mutex(lockTimes: int, owner: Option<Pid>)

  datatype Sys = Sys(
    tasks: seq<Task>,             // indexed by pid
    queues: map<Place, seq<Pid>>,
    sems: seq<int>,               // the counts
    mutexes: seq<Mutex>,
    current: Pid,
    idle: Pid)

  datatype Op =
    | Spawn(junk: int)            // `junk`: the uninitialised sleep counter of a fresh task
    | Tick
    | Yield
    | Sleep(ms: nat)
    | SemInit(count: int)
    | SemWait(sem: nat)
    | SemNotify(sem: nat)
    | MutexInit
    | MutexLock(mutex: nat)
    | MutexUnlock(mutex: nat)

  const TASK_SLICE: int := 10
  const INT_MAX: int := 0x7FFF_FFFF

  // ---------------------------------------------------------------- steps

  /** Unlink the node of `p` from `from` and link it at the tail of `to`. */
  function Requeue(s: Sys, p: Pid, from: Place, to: Place): (r: Sys)
    requires from in s.queues && to in s.queues
    ensures r == s.(queues := r.queues) && r.queues.Keys == s.queues.Keys
  {
    var removed := s.queues[from := Without(s.queues[from], p)];
    s.(queues := removed[to := removed[to] + [p]])
  }

  function SetTask(s: Sys, p: Pid, t: Task): Sys
    requires p < |s.tasks|
  {
    s.(tasks := s.tasks[p := t])
  }

  /** Requeue `p` and give it state `st`. */
  function Move(s: Sys, p: Pid, from: Place, to: Place, st: TaskState): (r: Sys)
    requires p < |s.tasks| && from in s.queues && to in s.queues
    ensures |r.tasks| == |s.tasks| && r.queues.Keys == s.queues.Keys
  {
    SetTask(Requeue(s, p, from, to), p, s.tasks[p].(state := st))
  }

  lemma MoveSameState(s: Sys, p: Pid, from: Place, to: Place)
    requires p < |s.tasks| && from in s.queues && to in s.queues
    ensures Move(s, p, from, to, s.tasks[p].state) == Requeue(s, p, from, to)
  {
    assert s.tasks[p := s.tasks[p]] == s.tasks;
  }

  /** pick_next_task: the successor of a running `current`, else the first ready task;
      a queue head holds no task and is skipped, and an empty ready queue yields idle. */
  function Pick(s: Sys): Pid
    requires s.current < |s.tasks| && Ready in s.queues
    requires s.tasks[s.current].state == Running ==> s.current in s.queues[Ready]
  {
    var ready := s.queues[Ready];
    var next := if s.tasks[s.current].state == Running then IndexOf(ready, s.current) + 1 else 0;
    if next < |ready| then ready[next]
    else if |ready| > 0 then ready[0]
    else s.idle
  }

  function Schedule(s: Sys): Sys
    requires s.current < |s.tasks| && Ready in s.queues
    requires s.tasks[s.current].state == Running ==> s.current in s.queues[Ready]
  {
    s.(current := Pick(s))
  }

  /** One sleeper's share of a tick: count down, and wake up at zero. */
  function WakeOne(s: Sys, p: Pid): Sys
    requires p < |s.tasks| && Ready in s.queues && Asleep in s.queues
  {
    var s1 := s.(tasks := s.tasks[p := s.tasks[p].(ticks := s.tasks[p].ticks - 1)]);
    if s1.tasks[p].ticks == 0 then Move(s1, p, Asleep, Ready, Running) else s1
  }

  function WakeAll(s: Sys, ps: seq<Pid>): (r: Sys)
    requires Ready in s.queues && Asleep in s.queues
    requires forall j :: 0 <= j < |ps| ==> ps[j] < |s.tasks|
    ensures r.queues.Keys == s.queues.Keys && |r.tasks| == |s.tasks|
    ensures s.queues[Ready] <= r.queues[Ready]
    ensures r.current == s.current && r.idle == s.idle && r.sems == s.sems && r.mutexes == s.mutexes
    decreases ps
  {
    if ps == [] then s else WakeAll(WakeOne(s, ps[0]), ps[1..])
  }

  /** The time-slice half of a tick. */
  function SliceTick(s: Sys): (r: Sys)
    requires s.current < |s.tasks| && Ready in s.queues && s.current in s.queues[Ready]
    ensures r == s.(tasks := r.tasks, queues := r.queues) && |r.tasks| == |s.tasks|
    ensures Ready in r.queues && s.current in r.queues[Ready]
    ensures r.queues == s.queues[Ready := r.queues[Ready]]
  {
    var t := s.tasks[s.current];
    if t.slice - 1 == 0 then
      Move(s.(tasks := s.tasks[s.current := t.(slice := TASK_SLICE)]), s.current, Ready, Ready, t.state)
    else
      s.(tasks := s.tasks[s.current := t.(slice := t.slice - 1)])
  }

  /** Which operations a caller may perform: the object exists, the idle task does not
      block, and no signed counter overflows (which C leaves undefined). */
  predicate Enabled(s: Sys, op: Op) {
    match op
    case Spawn(_) => true
    case Tick => true
    case Yield => true
    case Sleep(ms) => ms / TASK_SLICE > 0 ==> s.current != s.idle
    case SemInit(_) => true
    case SemWait(i) => i < |s.sems| && (s.sems[i] <= 0 ==> s.current != s.idle)
    case SemNotify(i) =>
      && i < |s.sems| && SemQueue(i) in s.queues
      && (s.queues[SemQueue(i)] == [] ==> s.sems[i] < INT_MAX)
    case MutexInit => true
    case MutexLock(i) =>
      && i < |s.mutexes|
      && (s.mutexes[i].lockTimes != 0 ==>
            if s.mutexes[i].owner == Some(s.current) then s.mutexes[i].lockTimes < INT_MAX
            else s.current != s.idle)
    case MutexUnlock(i) => i < |s.mutexes|
  }

  /** Block the running task at the tail of `to`, and run another. */
  function Block(s: Sys, to: Place, st: TaskState): Sys
    requires s.current < |s.tasks| && Ready in s.queues && to in s.queues
    requires st != Running
  {
    Schedule(Move(s, s.current, Ready, to, st))
  }

  /** Make the first waiter of `from` runnable (the caller then schedules). */
  function Release(s: Sys, from: Place): Sys
    requires from in s.queues && Ready in s.queues && s.queues[from] != []
    requires s.queues[from][0] < |s.tasks|
  {
    Move(s, s.queues[from][0], from, Ready, Running)
  }

  function Step(s: Sys, op: Op): (r: Sys)
    requires Inv(s) && Enabled(s, op)
    ensures |s.tasks| <= |r.tasks|
  {
    match op
    case Spawn(junk) =>
      s.(tasks := s.tasks + [Task(Running, TASK_SLICE, junk)],
         queues := s.queues[Ready := s.queues[Ready] + [|s.tasks|]])
    case Tick =>
      var s1 := SliceTick(s);
      assert forall j :: 0 <= j < |s1.queues[Asleep]| ==> At(s, s.queues[Asleep][j], Asleep);
      Schedule(WakeAll(s1, s1.queues[Asleep]))
    case Yield =>
      Schedule(Move(s, s.current, Ready, Ready, s.tasks[s.current].state))
    case Sleep(ms) =>
      if ms / TASK_SLICE == 0 then Schedule(s)
      else
        Block(s.(tasks := s.tasks[s.current := s.tasks[s.current].(ticks := ms / TASK_SLICE)]), Asleep, Sleeping)
    case SemInit(count) =>
      s.(sems := s.sems + [count], queues := s.queues[SemQueue(|s.sems|) := []])
    case SemWait(i) =>
      if s.sems[i] > 0 then s.(sems := s.sems[i := s.sems[i] - 1])
      else Block(s, SemQueue(i), Waiting)
    case SemNotify(i) =>
      if s.queues[SemQueue(i)] != [] then
        assert At(s, s.queues[SemQueue(i)][0], SemQueue(i));
        Schedule(Release(s, SemQueue(i)))
      else s.(sems := s.sems[i := s.sems[i] + 1])
    case MutexInit =>
      s.(mutexes := s.mutexes + [Mutex(0, None)], queues := s.queues[MutexQueue(|s.mutexes|) := []])
    case MutexLock(i) =>
      var m := s.mutexes[i];
      if m.lockTimes == 0 then s.(mutexes := s.mutexes[i := Mutex(1, Some(s.current))])
      else if m.owner == Some(s.current) then s.(mutexes := s.mutexes[i := m.(lockTimes := m.lockTimes + 1)])
      else Block(s, MutexQueue(i), Waiting)
    case MutexUnlock(i) =>
      var m := s.mutexes[i];
      if m.owner != Some(s.current) then s
      else if m.lockTimes - 1 != 0 then s.(mutexes := s.mutexes[i := m.(lockTimes := m.lockTimes - 1)])
      else if s.queues[MutexQueue(i)] == [] then s.(mutexes := s.mutexes[i := Mutex(0, None)])
      else
        var heir := s.queues[MutexQueue(i)][0];
        assert At(s, heir, MutexQueue(i));
        Schedule(Release(s, MutexQueue(i)).(mutexes := s.mutexes[i := Mutex(1, Some(heir))]))
  }

  // ---------------------------------------------------------------- invariant

  /** The state a task linked into a queue is in. */
  function StateAt(pl: Place): TaskState {
    match pl
    case Ready => Running
    case Asleep => Sleeping
    case SemQueue(_) => Waiting
    case MutexQueue(_) => Waiting
  }

  /** The node of task `p` is linked into queue `pl`. */
  ghost predicate At(s: Sys, p: Pid, pl: Place) {
    pl in s.queues && p in s.queues[pl]
  }

  ghost predicate InSomeQueue(s: Sys, p: Pid) {
    exists pl :: At(s, p, pl)
  }

  /** Every task is linked into exactly one queue, once, in the state that queue means. */
  ghost predicate QueuesInv(s: Sys) {
    && Ready in s.queues && Asleep in s.queues
    && (forall i: nat :: SemQueue(i) in s.queues <==> i < |s.sems|)
    && (forall i: nat :: MutexQueue(i) in s.queues <==> i < |s.mutexes|)
    && (forall pl :: pl in s.queues ==> Distinct(s.queues[pl]))
    && (forall pl, p: Pid :: At(s, p, pl) ==> p < |s.tasks| && s.tasks[p].state == StateAt(pl))
    && (forall pl, pl', p: Pid :: At(s, p, pl) && At(s, p, pl') ==> pl == pl')
    && (forall p: Pid :: p < |s.tasks| ==> InSomeQueue(s, p))
  }

  ghost predicate TasksInv(s: Sys) {
    && (forall p: Pid :: p < |s.tasks| ==> 1 <= s.tasks[p].slice <= TASK_SLICE)
    && (forall p: Pid :: p < |s.tasks| && s.tasks[p].state == Sleeping ==> s.tasks[p].ticks > 0)
  }

  ghost predicate SemsInv(s: Sys)
  {
    forall i: nat :: i < |s.sems| && SemQueue(i) in s.queues && s.sems[i] > 0 ==> s.queues[SemQueue(i)] == []
  }

  ghost predicate MutexesInv(s: Sys)
  {
    forall i: nat :: i < |s.mutexes| && MutexQueue(i) in s.queues ==>
      && s.mutexes[i].lockTimes >= 0
      && (s.mutexes[i].lockTimes > 0 <==> s.mutexes[i].owner.Some?)
      && (s.mutexes[i].owner.Some? ==> s.mutexes[i].owner.value < |s.tasks|)
      && (s.queues[MutexQueue(i)] != [] ==>
            s.mutexes[i].owner.Some? && s.mutexes[i].owner.value !in s.queues[MutexQueue(i)])
  }

  ghost predicate Inv(s: Sys) {
    && QueuesInv(s)
    && TasksInv(s)
    && SemsInv(s)
    && MutexesInv(s)
    && At(s, s.current, Ready)
    && At(s, s.idle, Ready)
  }
}
