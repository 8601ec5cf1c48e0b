/** The kernel's scheduler objects on the heap: task structures with their embedded queue
    nodes, semaphores, mutexes and the ready and sleep queues. Every operation refines the
    step of the same name. */
module KernelHeap {
  import opened Seqs
  import opened SchedModel
  import opened SchedInv
  import opened LinkQueue
  import SleepRuns

  class TaskBlock {
    const pid: nat
    const rq: Link
    var state: TaskState
    var slice: int
    var sleepTicks: int

    function Value(): Task
      reads this
    {
      Task(state, slice, sleepTicks)
    }

    /** alloc_task and the fields task_init sets; the sleep counter holds whatever was there. */
    constructor (pid: nat, junk: int)
      ensures this.pid == pid && state == Created && slice == TASK_SLICE && sleepTicks == junk
      ensures fresh(rq) && rq.owner == pid
    {
      this.pid := pid;
      rq := new Link(pid);
      state := Created;
      slice := TASK_SLICE;
      sleepTicks := junk;
    }
  }

  class Semaphore {
    var count: int
    const queue: Link

    constructor (count: int)
      ensures this.count == count && fresh(queue) && queue.owner == -1
      ensures Circular(queue, [])
    {
      this.count := count;
      queue := new Link(-1);
    }
  }

  class MutexBlock {
    var lockTimes: int
    var owner: TaskBlock?
    const queue: Link

    constructor ()
      ensures lockTimes == 0 && owner == null && fresh(queue) && queue.owner == -1
      ensures Circular(queue, [])
    {
      lockTimes := 0;
      owner := null;
      queue := new Link(-1);
    }
  }

  /** `list` holds the nodes of the tasks of `queue`, in order. */
  ghost predicate Mirrors(tasks: seq<TaskBlock>, queue: seq<Pid>, list: seq<Link>) {
    && |list| == |queue|
    && forall i :: 0 <= i < |list| ==> queue[i] < |tasks| && list[i] == tasks[queue[i]].rq
  }

  ghost predicate Matches(tasks: seq<TaskBlock>, queues: map<Place, seq<Pid>>, lists: map<Place, seq<Link>>) {
    && lists.Keys == queues.Keys
    && forall pl {:trigger Mirrors(tasks, queues[pl], lists[pl])} :: pl in lists ==>
        Mirrors(tasks, queues[pl], lists[pl])
  }

  lemma MirrorsCut(tasks: seq<TaskBlock>, queue: seq<Pid>, list: seq<Link>, p: Pid)
    requires Mirrors(tasks, queue, list) && p in queue
    ensures Mirrors(tasks, Without(queue, p), RemoveAt(list, IndexOf(queue, p)))
  {
  }

  lemma MatchesUpdated(tasks: seq<TaskBlock>, queues: map<Place, seq<Pid>>, lists: map<Place, seq<Link>>,
      pl: Place, queue: seq<Pid>, list: seq<Link>)
    requires Matches(tasks, queues, lists) && Mirrors(tasks, queue, list)
    ensures Matches(tasks, queues[pl := queue], lists[pl := list])
  {
    var queues', lists' := queues[pl := queue], lists[pl := list];
    forall x | x in lists' ensures Mirrors(tasks, queues'[x], lists'[x]) {
      assert x != pl ==> Mirrors(tasks, queues[x], lists[x]);
    }
  }

  lemma MatchesRequeued(tasks: seq<TaskBlock>, s: Sys, lists: map<Place, seq<Link>>, p: Pid, from: Place, to: Place)
    requires Matches(tasks, s.queues, lists) && from in s.queues && to in s.queues && p in s.queues[from]
    ensures from in lists && to in lists && IndexOf(s.queues[from], p) < |lists[from]|
    ensures p < |tasks| && lists[from][IndexOf(s.queues[from], p)] == tasks[p].rq
    ensures Matches(tasks, SchedModel.Requeue(s, p, from, to).queues, Relinked(lists, from, IndexOf(s.queues[from],
        p), to))
  {
    var queue, list := s.queues[from], lists[from];
    assert Mirrors(tasks, queue, list);
    MirrorsCut(tasks, queue, list, p);
    var list' := RemoveAt(list, IndexOf(queue, p));
    MatchesUpdated(tasks, s.queues, lists, from, Without(queue, p), list');
    var queues1, lists1 := s.queues[from := Without(queue, p)], lists[from := list'];
    assert Mirrors(tasks, queues1[to], lists1[to]);
    MatchesUpdated(tasks, queues1, lists1, to, queues1[to] + [p], lists1[to] + [tasks[p].rq]);
  }

  class Kernel {
    var tasks: seq<TaskBlock>
    var sems: seq<Semaphore>
    var mutexes: seq<MutexBlock>
    const readyQueue: Link
    const sleepQueue: Link
    var current: TaskBlock
    var idle: TaskBlock

    ghost var st: Sys                        // the state this heap represents
    ghost var heads: map<Place, Link>
    ghost var lists: map<Place, seq<Link>>
    ghost var links: set<Link>               // every queue node: heads and embedded ones

    ghost predicate TaskAt(p: int)
      reads this, tasks
    {
      && 0 <= p < |tasks| && p < |st.tasks|
      && tasks[p].rq in links
      && tasks[p].pid == p && tasks[p].rq.owner == p
      && st.tasks[p] == tasks[p].Value()
    }

    ghost predicate TasksRep()
      reads this, tasks
    {
      && |tasks| == |st.tasks|
      && (forall p {:trigger TaskAt(p)} :: 0 <= p < |tasks| ==> TaskAt(p))
      && st.current < |tasks| && current == tasks[st.current]
      && st.idle < |tasks| && idle == tasks[st.idle]
    }

    ghost predicate SemAt(i: int)
      reads this, sems
    {
      && 0 <= i < |sems| && i < |st.sems|
      && sems[i].count == st.sems[i]
      && SemQueue(i) in heads && heads[SemQueue(i)] == sems[i].queue
    }

    ghost predicate SemsRep()
      reads this, sems
    {
      && |sems| == |st.sems|
      && (forall i {:trigger SemAt(i)} :: 0 <= i < |sems| ==> SemAt(i))
      && (forall i, j :: 0 <= i < j < |sems| ==> sems[i] != sems[j])
    }

    ghost predicate MutexAt(i: int)
      reads this, mutexes
    {
      && 0 <= i < |mutexes| && i < |st.mutexes|
      && mutexes[i].lockTimes == st.mutexes[i].lockTimes
      && MutexQueue(i) in heads && heads[MutexQueue(i)] == mutexes[i].queue
      && (match st.mutexes[i].owner
          case None => mutexes[i].owner == null
          case Some(p) => p < |tasks| && mutexes[i].owner == tasks[p])
    }

    ghost predicate MutexesRep()
      reads this, mutexes
    {
      && |mutexes| == |st.mutexes|
      && (forall i {:trigger MutexAt(i)} :: 0 <= i < |mutexes| ==> MutexAt(i))
      && (forall i, j :: 0 <= i < j < |mutexes| ==> mutexes[i] != mutexes[j])
    }

    ghost predicate QueuesRep()
      reads this, links
    {
      && heads.Keys == st.queues.Keys && lists.Keys == st.queues.Keys
      && Ready in heads && heads[Ready] == readyQueue
      && Asleep in heads && heads[Asleep] == sleepQueue
      && (forall pl :: pl in heads ==> heads[pl].owner == -1)
      && Matches(tasks, st.queues, lists)
      && Linked(links, heads, lists)
    }

    ghost predicate Rep()
      reads this, tasks, sems, mutexes, links
    {
      && TasksRep() && SemsRep() && MutexesRep() && QueuesRep()
    }

    ghost predicate Valid()
      reads this, tasks, sems, mutexes, links
    {
      Rep() && Inv(st)
    }

    /** kernel_init: empty queues, the idle task and the init task ready, idle running. */
    constructor (junk0: int, junk1: int)
      ensures Valid() && fresh(links) && st == Boot(junk0, junk1)
    {
      hide LinkQueue.Linked;
      var ready, asleep, idleTask, initTask := BootObjects(junk0, junk1);
      readyQueue, sleepQueue := ready, asleep;
      tasks, sems, mutexes := [idleTask, initTask], [], [];
      idle, current := idleTask, idleTask;
      links := {ready, asleep, idleTask.rq, initTask.rq};
      heads := map[Ready := ready, Asleep := asleep];
      lists := map[Ready := [idleTask.rq, initTask.rq], Asleep := []];
      st := Boot(junk0, junk1);
      new;
      BootRep(junk0, junk1);
    }

    static method BootObjects(junk0: int, junk1: int)
        returns (ready: Link, asleep: Link, idleTask: TaskBlock, initTask: TaskBlock)
      ensures idleTask.pid == 0 && idleTask.rq.owner == 0 && initTask.pid == 1 && initTask.rq.owner == 1
      ensures idleTask.Value() == Task(Running, TASK_SLICE, junk0)
      ensures initTask.Value() == Task(Running, TASK_SLICE, junk1)
      ensures ready.owner == -1 && asleep.owner == -1
      ensures fresh({ready, asleep, idleTask.rq, initTask.rq})
      ensures Linked({ready, asleep, idleTask.rq, initTask.rq}, map[Ready := ready, Asleep := asleep],
                     map[Ready := [idleTask.rq, initTask.rq], Asleep := []])
    {
      ready := new Link(-1);
      asleep := new Link(-1);
      idleTask := new TaskBlock(0, junk0);
      initTask := new TaskBlock(1, junk1);
      LinkBoth(ready, idleTask.rq, initTask.rq, {ready, asleep, idleTask.rq, initTask.rq},
               map[Ready := ready, Asleep := asleep]);
      idleTask.state := Running;
      initTask.state := Running;
    }

    lemma BootRep(junk0: int, junk1: int)
      requires |tasks| == 2 && sems == [] && mutexes == [] && current == tasks[0] && idle == tasks[0]
      requires tasks[0].pid == 0 && tasks[0].rq.owner == 0 && tasks[0].rq in links
      requires tasks[1].pid == 1 && tasks[1].rq.owner == 1 && tasks[1].rq in links
      requires tasks[0].Value() == Task(Running, TASK_SLICE, junk0)
      requires tasks[1].Value() == Task(Running, TASK_SLICE, junk1)
      requires readyQueue.owner == -1 && sleepQueue.owner == -1
      requires heads == map[Ready := readyQueue, Asleep := sleepQueue]
      requires lists == map[Ready := [tasks[0].rq, tasks[1].rq], Asleep := []] && Linked(links, heads, lists)
      requires st == Boot(junk0, junk1)
      ensures Valid()
    {
      assert TaskAt(0) && TaskAt(1);
      assert Mirrors(tasks, [0, 1], [tasks[0].rq, tasks[1].rq]);
      assert Mirrors(tasks, [], []);
    }

    static method LinkBoth(head: Link, a: Link, b: Link, ghost links: set<Link>, ghost heads: map<Place, Link>)
      requires heads.Keys == {Ready, Asleep} && heads[Ready] == head
      requires Linked(links, heads, map[Ready := [], Asleep := []])
      requires a != b && a !in heads.Values && b !in heads.Values && a in links && b in links
      modifies links`prev, links`next
      ensures Linked(links, heads, map[Ready := [a, b], Asleep := []])
    {
      ghost var none, one: map<Place, seq<Link>> := map[Ready := [], Asleep := []], map[Ready := [a], Asleep := []];
      assert Circular(heads[Ready], none[Ready]);
      QueueInsertTail(head, a, links, heads, none, Ready);
      assert none[Ready] + [a] == [a];
      assert none[Ready := [a]] == one;
      assert Circular(heads[Ready], one[Ready]);
      QueueInsertTail(head, b, links, heads, one, Ready);
      assert one[Ready] + [b] == [a, b];
      assert one[Ready := [a, b]] == map[Ready := [a, b], Asleep := []];
    }

    method MoveNode(q: Link, head: Link, ghost from: Place, ghost j: nat, ghost to: Place)
      requires Linked(links, heads, lists) && from in lists && j < |lists[from]| && lists[from][j] == q
      requires to in heads && heads[to] == head
      modifies this`lists, links`prev, links`next
      ensures lists == Relinked(old(lists), from, j, to) && Linked(links, heads, lists)
    {
      LinkQueue.Requeue(q, head, links, heads, lists, from, j, to);
      lists := Relinked(lists, from, j, to);
    }

    /** queue_remove then queue_insert_tail of the task's node. */
    method Relink(t: TaskBlock, head: Link, ghost from: Place, ghost to: Place)
      requires Rep() && t.pid < |tasks| && tasks[t.pid] == t
      requires from in st.queues && to in st.queues && t.pid in st.queues[from] && head == heads[to]
      modifies this`st, this`lists, links`prev, links`next
      ensures Rep()
      ensures st == SchedModel.Requeue(old(st), t.pid, from, to)
    {
      hide LinkQueue.Linked, Matches, Relinked, SchedModel.Requeue, Seqs.Without;
      MatchesRequeued(tasks, st, lists, t.pid, from, to);
      MoveNode(t.rq, head, from, IndexOf(st.queues[from], t.pid), to);
      st := SchedModel.Requeue(st, t.pid, from, to);
      assert TasksRep() by { forall p | 0 <= p < |tasks| ensures TaskAt(p) { assert old(TaskAt(p)); } }
      assert SemsRep() by { forall i | 0 <= i < |sems| ensures SemAt(i) { assert old(SemAt(i)); } }
      assert MutexesRep() by { forall i | 0 <= i < |mutexes| ensures MutexAt(i) { assert old(MutexAt(i)); } }
    }

    // Fields of one structure change, and the represented state with them.

    method Store(t: TaskBlock, value: Task)
      requires Rep() && t.pid < |tasks| && tasks[t.pid] == t
      modifies this`st, t`state, t`slice, t`sleepTicks
      ensures Rep() && st == SetTask(old(st), t.pid, value)
    {
      hide LinkQueue.Linked, Matches;
      assert TaskAt(t.pid);
      t.state, t.slice, t.sleepTicks := value.state, value.slice, value.ticks;
      st := SetTask(st, t.pid, value);
      assert TasksRep() by { forall p | 0 <= p < |tasks| ensures TaskAt(p) { assert old(TaskAt(p)); } }
      assert SemsRep() by { forall i | 0 <= i < |sems| ensures SemAt(i) { assert old(SemAt(i)); } }
      assert MutexesRep() by { forall i | 0 <= i < |mutexes| ensures MutexAt(i) { assert old(MutexAt(i)); } }
    }

    method SetCount(sem: Semaphore, count: int, ghost i: nat)
      requires Rep() && i < |sems| && sems[i] == sem
      modifies this`st, sem`count
      ensures Rep() && st == old(st).(sems := old(st).sems[i := count])
    {
      hide LinkQueue.Linked, Matches;
      assert SemAt(i);
      sem.count := count;
      st := st.(sems := st.sems[i := count]);
      assert TasksRep() by { forall p | 0 <= p < |tasks| ensures TaskAt(p) { assert old(TaskAt(p)); } }
      assert SemsRep() by { forall k | 0 <= k < |sems| ensures SemAt(k) { assert old(SemAt(k)); } }
      assert MutexesRep() by { forall k | 0 <= k < |mutexes| ensures MutexAt(k) { assert old(MutexAt(k)); } }
    }

    method SetMutex(mutex: MutexBlock, lockTimes: int, owner: TaskBlock?, ghost i: nat, ghost p: Option<Pid>)
      requires Rep() && i < |mutexes| && mutexes[i] == mutex
      requires match p case None => owner == null case Some(x) => x < |tasks| && owner == tasks[x]
      modifies this`st, mutex`lockTimes, mutex`owner
      ensures Rep() && st == old(st).(mutexes := old(st).mutexes[i := Mutex(lockTimes, p)])
    {
      hide LinkQueue.Linked, Matches;
      assert MutexAt(i);
      mutex.lockTimes := lockTimes;
      mutex.owner := owner;
      st := st.(mutexes := st.mutexes[i := Mutex(lockTimes, p)]);
      assert TasksRep() by { forall p | 0 <= p < |tasks| ensures TaskAt(p) { assert old(TaskAt(p)); } }
      assert SemsRep() by { forall k | 0 <= k < |sems| ensures SemAt(k) { assert old(SemAt(k)); } }
      assert MutexesRep() by { forall k | 0 <= k < |mutexes| ensures MutexAt(k) { assert old(MutexAt(k)); } }
    }

    // ---------------------------------------------------------------- sched.c

    /** The running task is linked into the ready queue whenever its state says so. */
    ghost predicate Pickable()
      reads this
    {
      && st.current < |st.tasks| && Ready in st.queues
      && (st.tasks[st.current].state == Running ==> st.current in st.queues[Ready])
    }

    method PickNextTask() returns (next: TaskBlock)
      requires Rep() && Pickable()
      ensures Pick(st) < |tasks| && next == tasks[Pick(st)]
    {
      ghost var ready := st.queues[Ready];
      assert TaskAt(st.current) && TaskAt(st.idle);
      assert Mirrors(tasks, ready, lists[Ready]);
      assert Circular(heads[Ready], lists[Ready]);
      if st.current in ready {
        assert Chained(readyQueue, lists[Ready], IndexOf(ready, st.current));
      }
      assert Pick(st) < |tasks| && TaskAt(Pick(st));
      var node := current.rq.next;

      if current.state != Running {
        node := readyQueue.next;
      }

      // a queue head holds no task
      if node == readyQueue {
        node := node.next;
      }

      // nothing is ready: run the idle task
      if node == readyQueue {
        node := idle.rq;
      }
      next := tasks[node.owner];
    }

    method ScheduleNext()
      requires Rep() && Pickable()
      modifies this`st, this`current
      ensures Rep() && st == SchedModel.Schedule(old(st))
    {
      var next := PickNextTask();
      current := next;
      st := SchedModel.Schedule(st);
      assert TasksRep() by { forall p | 0 <= p < |tasks| ensures TaskAt(p) { assert old(TaskAt(p)); } }
      assert SemsRep() by { forall k | 0 <= k < |sems| ensures SemAt(k) { assert old(SemAt(k)); } }
      assert MutexesRep() by { forall k | 0 <= k < |mutexes| ensures MutexAt(k) { assert old(MutexAt(k)); } }
    }

    // ---------------------------------------------------------------- task.c

    method TaskSleep(task: TaskBlock, ticks: nat)
      requires Rep() && task.pid < |tasks| && tasks[task.pid] == task
      requires At(st, task.pid, Ready) && Asleep in st.queues
      modifies this`st, this`lists, links`prev, links`next, task`state, task`slice, task`sleepTicks
      ensures Rep()
      ensures st == if ticks == 0 then old(st)
                    else Move(SetTask(old(st), task.pid, old(st).tasks[task.pid].(ticks := ticks)),
                              task.pid, Ready, Asleep, Sleeping)
    {
      if ticks == 0 {
        return;
      }
      hide LinkQueue.Linked, Matches;
      assert TaskAt(task.pid);
      Store(task, task.Value().(ticks := ticks, state := Sleeping));
      Relink(task, sleepQueue, Ready, Asleep);
    }

    method TaskWakeup(task: TaskBlock)
      requires Rep() && task.pid < |tasks| && tasks[task.pid] == task && At(st, task.pid, Asleep) && Ready in st.queues
      modifies this`st, this`lists, links`prev, links`next, task`state, task`slice, task`sleepTicks
      ensures Rep() && st == Move(old(st), task.pid, Asleep, Ready, Running)
    {
      hide LinkQueue.Linked, Matches;
      Relink(task, readyQueue, Asleep, Ready);
      assert TaskAt(task.pid);
      Store(task, task.Value().(state := Running));
    }

    method TaskYield()
      requires Valid()
      modifies this`st, this`lists, this`current, links`prev, links`next
      ensures Valid() && st == Step(old(st), Yield)
    {
      hide LinkQueue.Linked, Matches;
      StepKeepsInv(st, Yield);
      MoveSameState(st, st.current, Ready, Ready);
      assert TaskAt(st.current) && At(st, st.current, Ready);
      Relink(current, readyQueue, Ready, Ready);
      ScheduleNext();
    }

    method SysSleep(ms: nat)
      requires Valid() && Enabled(st, Sleep(ms))
      modifies this`st, this`lists, this`current, links`prev, links`next, tasks
      ensures Valid() && st == Step(old(st), Sleep(ms))
    {
      hide LinkQueue.Linked, Matches;
      StepKeepsInv(st, Sleep(ms));
      assert TaskAt(st.current) && At(st, st.current, Ready);
      TaskSleep(current, ms / TASK_SLICE);
      ScheduleNext();
    }

    method TaskTick()
      requires Valid()
      modifies this`st, this`lists, this`current, links`prev, links`next, tasks
      ensures Valid() && st == Step(old(st), Tick)
    {
      hide Rep, Unscheduled, SliceTick;
      StepKeepsInv(st, Tick);
      SleepRuns.SleepersExist(st);
      SliceTickKeeps(st);
      TickSlice();
      WakeSleepers();
      ScheduleNext();
    }

    /** The time slice of the running task: at zero it starts anew at the ready queue's tail. */
    method TickSlice()
      requires Rep() && At(st, st.current, Ready)
      modifies this`st, this`lists, links`prev, links`next, tasks
      ensures Rep() && st == SliceTick(old(st))
    {
      hide LinkQueue.Linked, Matches;
      assert TaskAt(st.current);
      Store(current, current.Value().(slice := current.slice - 1));
      assert TaskAt(st.current);
      if current.slice == 0 {
        Store(current, current.Value().(slice := TASK_SLICE));
        assert st.tasks == old(st).tasks[st.current := old(st).tasks[st.current].(slice := TASK_SLICE)];
        MoveSameState(st, st.current, Ready, Ready);
        Relink(current, readyQueue, Ready, Ready);
      }
    }

    /** The node a walk over a queue is at when the tasks `ahead` are still to come. */
    ghost function NodeOf(ahead: seq<Pid>, head: Link): Link
      reads this
    {
      if ahead != [] && ahead[0] < |tasks| then tasks[ahead[0]].rq else head
    }

    /** queue_data of a node in a queue. */
    lemma NodeOwner(pl: Place, i: nat)
      requires Rep() && pl in st.queues && i < |st.queues[pl]|
      ensures var p := st.queues[pl][i]; p < |tasks| && TaskAt(p)
    {
      assert Mirrors(tasks, st.queues[pl], lists[pl]);
      assert TaskAt(st.queues[pl][i]);
    }

    /** queue_first */
    method QueueFirst(head: Link, ghost pl: Place) returns (node: Link)
      requires Rep() && pl in st.queues && heads[pl] == head
      ensures node == NodeOf(st.queues[pl], head) && (node == head <==> st.queues[pl] == [])
    {
      assert Circular(heads[pl], lists[pl]);
      assert Mirrors(tasks, st.queues[pl], lists[pl]);
      node := head.next;
    }

    method QueueNext(current: Link, ghost pl: Place, ghost i: nat) returns (node: Link)
      requires Rep() && pl in st.queues && i < |st.queues[pl]| && current == NodeOf(st.queues[pl][i..], heads[pl])
      ensures node == NodeOf(st.queues[pl][i + 1..], heads[pl])
      ensures node == heads[pl] <==> i + 1 == |st.queues[pl]|
    {
      assert Circular(heads[pl], lists[pl]);
      assert Mirrors(tasks, st.queues[pl], lists[pl]);
      assert Chained(heads[pl], lists[pl], i);
      node := current.next;
    }

    /** One sleeper's share of the tick. */
    method TickSleeper(task: TaskBlock)
      requires Rep() && Unscheduled(st) && task.pid < |tasks| && tasks[task.pid] == task && At(st, task.pid, Asleep)
      modifies this`st, this`lists, links`prev, links`next, task`state, task`slice, task`sleepTicks
      ensures Rep() && st == WakeOne(old(st), task.pid)
    {
      hide LinkQueue.Linked, Matches;
      assert TaskAt(task.pid);
      Store(task, task.Value().(ticks := task.sleepTicks - 1));
      assert TaskAt(task.pid);
      if task.sleepTicks == 0 {
        TaskWakeup(task);
      }
    }

    /** One turn of the walk over the sleep queue: the sleepers `kept` are behind, `rest` are
        still to come. The next node is read before a wakeup relinks this one. */
    method TickNode(node: Link, ghost kept: seq<Pid>, ghost rest: seq<Pid>) returns (next: Link)
      requires Rep() && Unscheduled(st) && st.queues[Asleep] == kept + rest && rest != []
      requires node == NodeOf(rest, sleepQueue)
      modifies this`st, this`lists, links`prev, links`next, tasks
      ensures rest[0] < |old(st).tasks| && Rep() && st == WakeOne(old(st), rest[0])
      ensures next == NodeOf(rest[1..], sleepQueue) && (next == sleepQueue <==> rest[1..] == [])
    {
      hide LinkQueue.Linked, Matches, Unscheduled;
      SplitAt(kept, rest);
      SleepRuns.WokenOne(st, kept, rest[0], rest[1..]);
      NodeOwner(Asleep, |kept|);
      next := QueueNext(node, Asleep, |kept|);
      var task := tasks[node.owner];
      assert At(st, rest[0], Asleep);
      TickSleeper(task);
    }

    lemma SleepHead()
      requires Rep()
      ensures Asleep in heads && heads[Asleep] == sleepQueue
    {
    }

    /** The abstract side of one turn of the walk. */
    static lemma WakeTurn(s: Sys, kept: seq<Pid>, rest: seq<Pid>)
      requires Unscheduled(s) && s.queues[Asleep] == kept + rest && rest != []
      requires forall j :: 0 <= j < |rest| ==> rest[j] < |s.tasks|
      ensures var r := WakeOne(s, rest[0]);
        && Unscheduled(r) && Ready in r.queues && Asleep in r.queues
        && r.queues[Asleep] == (if s.tasks[rest[0]].ticks == 1 then kept else kept + [rest[0]]) + rest[1..]
        && (forall j :: 0 <= j < |rest[1..]| ==> rest[1..][j] < |r.tasks|)
        && WakeAll(s, rest) == WakeAll(r, rest[1..])
    {
      SplitAt(kept, rest);
      SleepRuns.WokenOne(s, kept, rest[0], rest[1..]);
    }

    /** The walk over the sleep queue. */
    method WakeSleepers()
      requires Rep() && Unscheduled(st) && Ready in st.queues && Asleep in st.queues
      requires forall j :: 0 <= j < |st.queues[Asleep]| ==> st.queues[Asleep][j] < |st.tasks|
      modifies this`st, this`lists, links`prev, links`next, tasks
      ensures Rep() && st == WakeAll(old(st), old(st).queues[Asleep])
    {
      hide *;
      SleepHead();
      ghost var kept, rest: seq<Pid> := [], st.queues[Asleep];
      var node := QueueFirst(sleepQueue, Asleep);
      while node != sleepQueue
        invariant Rep() && Unscheduled(st) && Ready in st.queues && Asleep in st.queues
        invariant st.queues[Asleep] == kept + rest
        invariant forall j :: 0 <= j < |rest| ==> rest[j] < |st.tasks|
        invariant WakeAll(st, rest) == WakeAll(old(st), old(st).queues[Asleep])
        invariant node == NodeOf(rest, sleepQueue) && (node == sleepQueue <==> rest == [])
        decreases |rest|
      {
        WakeTurn(st, kept, rest);
        ghost var due := st.tasks[rest[0]].ticks == 1;
        node := TickNode(node, kept, rest);
        kept, rest := if due then kept else kept + [rest[0]], rest[1..];
      }
      WakeNone(st);
    }

    static lemma WakeNone(s: Sys)
      requires Ready in s.queues && Asleep in s.queues
      ensures WakeAll(s, []) == s
    {
    }

    // ---------------------------------------------------------------- ipc.c

    /** queue_empty */
    method IsEmpty(head: Link, ghost pl: Place) returns (empty: bool)
      requires Rep() && pl in st.queues && heads[pl] == head
      ensures empty <==> st.queues[pl] == []
    {
      assert Mirrors(tasks, st.queues[pl], lists[pl]);
      assert Circular(heads[pl], lists[pl]);
      empty := QueueEmpty(head, lists[pl]);
    }

    /** The running task waits at the tail of `queue`, and another task runs. */
    method BlockOn(queue: Link, ghost pl: Place)
      requires Rep() && At(st, st.current, Ready) && pl in st.queues && heads[pl] == queue && pl != Ready
      modifies this`st, this`lists, this`current, links`prev, links`next, tasks
      ensures Rep() && st == Block(old(st), pl, Waiting)
    {
      hide LinkQueue.Linked, Matches;
      assert TaskAt(st.current);
      Relink(current, queue, Ready, pl);
      Store(current, current.Value().(state := Waiting));
      ScheduleNext();
    }

    /** The first waiter of `queue` becomes ready. */
    method WakeFirst(queue: Link, ghost pl: Place) returns (task: TaskBlock)
      requires Rep() && pl in st.queues && heads[pl] == queue && st.queues[pl] != [] && Ready in st.queues
      requires st.queues[pl][0] < |st.tasks|
      modifies this`st, this`lists, links`prev, links`next, tasks
      ensures Rep() && st == Release(old(st), pl)
      ensures task == tasks[old(st).queues[pl][0]] && task.pid == old(st).queues[pl][0]
    {
      hide LinkQueue.Linked, Matches;
      NodeOwner(pl, 0);
      var node := QueueFirst(queue, pl);
      task := tasks[node.owner];
      Relink(task, readyQueue, pl, Ready);
      assert TaskAt(task.pid);
      Store(task, task.Value().(state := Running));
    }

    method WakeAndSchedule(queue: Link, ghost pl: Place)
      requires Rep() && pl in st.queues && heads[pl] == queue && st.queues[pl] != []
      requires st.queues[pl][0] < |st.tasks| && At(st, st.current, Ready) && pl != Ready
      modifies this`st, this`lists, this`current, links`prev, links`next, tasks
      ensures Rep() && st == SchedModel.Schedule(Release(old(st), pl))
    {
      hide LinkQueue.Linked, Matches;
      var task := WakeFirst(queue, pl);
      ScheduleNext();
    }

    method SemWait(sem: Semaphore, ghost i: nat)
      requires Valid() && i < |sems| && sems[i] == sem && Enabled(st, SchedModel.SemWait(i))
      modifies this`st, this`lists, this`current, links`prev, links`next, tasks, sem`count
      ensures Valid() && st == Step(old(st), SchedModel.SemWait(i))
    {
      hide LinkQueue.Linked, Matches;
      StepKeepsInv(st, SchedModel.SemWait(i));
      assert SemAt(i);
      if sem.count > 0 {
        SetCount(sem, sem.count - 1, i);
      } else {
        BlockOn(sem.queue, SemQueue(i));
      }
    }

    method SemNotify(sem: Semaphore, ghost i: nat)
      requires Valid() && i < |sems| && sems[i] == sem && Enabled(st, SchedModel.SemNotify(i))
      modifies this`st, this`lists, this`current, links`prev, links`next, tasks, sem`count
      ensures Valid() && st == Step(old(st), SchedModel.SemNotify(i))
    {
      hide LinkQueue.Linked, Matches, Release, SchedModel.Schedule, Pick;
      StepKeepsInv(st, SchedModel.SemNotify(i));
      assert SemAt(i);
      var empty := IsEmpty(sem.queue, SemQueue(i));
      if !empty {
        assert At(st, st.queues[SemQueue(i)][0], SemQueue(i)) && At(st, st.current, Ready);
        WakeAndSchedule(sem.queue, SemQueue(i));
      } else {
        SetCount(sem, sem.count + 1, i);
      }
    }

    method MutexLock(mutex: MutexBlock, ghost i: nat)
      requires Valid() && i < |mutexes| && mutexes[i] == mutex && Enabled(st, SchedModel.MutexLock(i))
      modifies this`st, this`lists, this`current, links`prev, links`next, tasks, mutex`lockTimes, mutex`owner
      ensures Valid() && st == Step(old(st), SchedModel.MutexLock(i))
    {
      hide LinkQueue.Linked, Matches;
      StepKeepsInv(st, SchedModel.MutexLock(i));
      assert MutexAt(i) && TaskAt(st.current);
      OwnerIsCurrent(mutex, i);
      if mutex.lockTimes == 0 {
        SetMutex(mutex, 1, current, i, Some(st.current));
      } else if mutex.owner == current {
        SetMutex(mutex, mutex.lockTimes + 1, mutex.owner, i, Some(st.current));
      } else {
        BlockOn(mutex.queue, MutexQueue(i));
      }
    }

    /** Comparing owner pointers is comparing pids. */
    lemma OwnerIsCurrent(mutex: MutexBlock, i: nat)
      requires Rep() && i < |mutexes| && mutexes[i] == mutex
      ensures i < |st.mutexes| && MutexAt(i) && st.current < |tasks| && current == tasks[st.current]
      ensures heads.Keys == st.queues.Keys && |tasks| == |st.tasks|
      ensures mutex.owner == current <==> st.mutexes[i].owner == Some(st.current)
    {
      assert MutexAt(i) && TaskAt(st.current);
      if st.mutexes[i].owner.Some? { assert TaskAt(st.mutexes[i].owner.value); }
    }

    /** The first waiter becomes ready as the owner. */
    method HandOver(mutex: MutexBlock, ghost i: nat)
      requires Rep() && i < |mutexes| && mutexes[i] == mutex && MutexQueue(i) in st.queues
      requires heads[MutexQueue(i)] == mutex.queue
      requires st.queues[MutexQueue(i)] != [] && st.queues[MutexQueue(i)][0] < |st.tasks| && At(st, st.current, Ready)
      modifies this`st, this`lists, this`current, links`prev, links`next, tasks, mutex`lockTimes, mutex`owner
      ensures Rep()
      ensures var heir := old(st).queues[MutexQueue(i)][0];
        st == SchedModel.Schedule(Release(old(st), MutexQueue(i)).(mutexes := old(st).mutexes[i := Mutex(1,
            Some(heir))]))
    {
      hide LinkQueue.Linked, Matches;
      var task := WakeFirst(mutex.queue, MutexQueue(i));
      SetMutex(mutex, 1, task, i, Some(task.pid));
      ScheduleNext();
    }

    method MutexUnlock(mutex: MutexBlock, ghost i: nat)
      requires Valid() && i < |mutexes| && mutexes[i] == mutex && Enabled(st, SchedModel.MutexUnlock(i))
      modifies this`st, this`lists, this`current, links`prev, links`next, tasks, mutex`lockTimes, mutex`owner
      ensures Valid() && st == Step(old(st), SchedModel.MutexUnlock(i))
    {
      hide Rep, Release, SchedModel.Schedule;
      StepKeepsInv(st, SchedModel.MutexUnlock(i));
      OwnerIsCurrent(mutex, i);
      if mutex.owner == current {
        if mutex.lockTimes - 1 == 0 {
          var empty := IsEmpty(mutex.queue, MutexQueue(i));
          SetMutex(mutex, 0, null, i, None);
          if !empty {
            ghost var heir := st.queues[MutexQueue(i)][0];
            assert At(old(st), heir, MutexQueue(i)) && At(old(st), st.current, Ready);
            assert st.mutexes[i := Mutex(1, Some(heir))] == old(st).mutexes[i := Mutex(1, Some(heir))];
            ReleaseAside(old(st), MutexQueue(i), st.mutexes);
            HandOver(mutex, i);
          }
        } else {
          SetMutex(mutex, mutex.lockTimes - 1, mutex.owner, i, Some(st.current));
        }
      }
    }

    /** Waking a waiter reads no mutex field. */
    lemma ReleaseAside(s: Sys, pl: Place, mutexes: seq<Mutex>)
      requires pl in s.queues && Ready in s.queues && s.queues[pl] != [] && s.queues[pl][0] < |s.tasks|
      ensures Release(s.(mutexes := mutexes), pl) == Release(s, pl).(mutexes := mutexes)
    {
    }

    // ---------------------------------------------------------------- new objects

    /** Add an empty queue to those the heap holds. */
    method AddQueue(head: Link, ghost pl: Place)
      requires Rep() && pl !in st.queues && head !in links && head.owner == -1 && Circular(head, [])
      modifies this`st, this`lists, this`heads, this`links
      ensures Rep() && st == old(st).(queues := old(st).queues[pl := []])
      ensures heads == old(heads)[pl := head] && links == old(links) + {head}
    {
      LinkedExtends(links, heads, lists, pl, head);
      hide LinkQueue.Linked, Matches;
      MatchesUpdated(tasks, st.queues, lists, pl, [], []);
      heads, lists, links := heads[pl := head], lists[pl := []], links + {head};
      st := st.(queues := st.queues[pl := []]);
      assert TasksRep() by { forall p | 0 <= p < |tasks| ensures TaskAt(p) { assert old(TaskAt(p)); } }
      assert SemsRep() by { forall i | 0 <= i < |sems| ensures SemAt(i) { assert old(SemAt(i)); } }
      assert MutexesRep() by { forall i | 0 <= i < |mutexes| ensures MutexAt(i) { assert old(MutexAt(i)); } }
    }

    method NewSemaphore(count: int) returns (sem: Semaphore)
      requires Valid()
      modifies this`st, this`lists, this`heads, this`links, this`sems
      ensures Valid() && st == Step(old(st), SchedModel.SemInit(count))
      ensures fresh(sem) && sems == old(sems) + [sem] && fresh(links - old(links))
    {
      StepKeepsInv(st, SchedModel.SemInit(count));
      hide Rep, Inv;
      sem := new Semaphore(count);
      InstallSemaphore(sem);
    }

    method InstallSemaphore(sem: Semaphore)
      requires Rep() && sem !in sems && SemQueue(|st.sems|) !in st.queues
      requires sem.queue !in links && sem.queue.owner == -1 && Circular(sem.queue, [])
      modifies this`st, this`lists, this`heads, this`links, this`sems
      ensures Rep() && sems == old(sems) + [sem] && links == old(links) + {sem.queue}
      ensures st == old(st).(sems := old(st).sems + [sem.count],
          queues := old(st).queues[SemQueue(|old(st).sems|) := []])
    {
      hide LinkQueue.Linked, Matches;
      AddQueue(sem.queue, SemQueue(|sems|));
      label added:
      sems := sems + [sem];
      st := st.(sems := st.sems + [sem.count]);
      assert TasksRep() by { forall p | 0 <= p < |tasks| ensures TaskAt(p) { assert old@added(TaskAt(p)); } }
      assert SemsRep() by {
        forall i | 0 <= i < |sems| ensures SemAt(i) { assert i < |old(sems)| ==> old@added(SemAt(i)); }
      }
      assert MutexesRep() by { forall i | 0 <= i < |mutexes| ensures MutexAt(i) { assert old@added(MutexAt(i)); } }
    }

    method NewMutex() returns (mutex: MutexBlock)
      requires Valid()
      modifies this`st, this`lists, this`heads, this`links, this`mutexes
      ensures Valid() && st == Step(old(st), SchedModel.MutexInit)
      ensures fresh(mutex) && mutexes == old(mutexes) + [mutex] && fresh(links - old(links))
    {
      StepKeepsInv(st, SchedModel.MutexInit);
      hide Rep, Inv;
      mutex := new MutexBlock();
      InstallMutex(mutex);
    }

    method InstallMutex(mutex: MutexBlock)
      requires Rep() && mutex !in mutexes && mutex.lockTimes == 0 && mutex.owner == null
      requires MutexQueue(|st.mutexes|) !in st.queues
      requires mutex.queue !in links && mutex.queue.owner == -1 && Circular(mutex.queue, [])
      modifies this`st, this`lists, this`heads, this`links, this`mutexes
      ensures Rep() && mutexes == old(mutexes) + [mutex] && links == old(links) + {mutex.queue}
      ensures st == old(st).(mutexes := old(st).mutexes + [Mutex(0, None)],
                             queues := old(st).queues[MutexQueue(|old(st).mutexes|) := []])
    {
      hide LinkQueue.Linked, Matches;
      AddQueue(mutex.queue, MutexQueue(|mutexes|));
      label added:
      mutexes := mutexes + [mutex];
      st := st.(mutexes := st.mutexes + [Mutex(0, None)]);
      assert TasksRep() by { forall p | 0 <= p < |tasks| ensures TaskAt(p) { assert old@added(TaskAt(p)); } }
      assert SemsRep() by { forall i | 0 <= i < |sems| ensures SemAt(i) { assert old@added(SemAt(i)); } }
      assert MutexesRep() by {
        forall i | 0 <= i < |mutexes| ensures MutexAt(i) { assert i < |old(mutexes)| ==> old@added(MutexAt(i)); }
      }
    }

    /** The part of fork and task_init the scheduler sees: a new running task at the ready tail. */
    method Spawn(junk: int) returns (task: TaskBlock)
      requires Valid()
      modifies this`st, this`lists, this`links, this`tasks, links`prev, links`next
      ensures Valid() && st == Step(old(st), SchedModel.Spawn(junk))
      ensures fresh(task) && tasks == old(tasks) + [task] && fresh(links - old(links))
    {
      StepKeepsInv(st, SchedModel.Spawn(junk));
      hide Rep, Inv;
      task := new TaskBlock(|tasks|, junk);
      task.state := Running;
      InstallTask(task);
    }

    method InstallTask(task: TaskBlock)
      requires Rep() && task !in tasks && task.pid == |tasks| && task.rq !in links && task.rq.owner == task.pid
      modifies this`st, this`lists, this`links, this`tasks, links`prev, links`next, task.rq`prev, task.rq`next
      ensures Rep() && tasks == old(tasks) + [task] && links == old(links) + {task.rq}
      ensures Ready in old(st).queues
      ensures st == old(st).(tasks := old(st).tasks + [task.Value()],
                             queues := old(st).queues[Ready := old(st).queues[Ready] + [|old(st).tasks|]])
    {
      hide LinkQueue.Linked, Matches;
      MatchesSpawned(tasks, task, st.queues, lists);
      LinkTail(task.rq);
      st := st.(tasks := st.tasks + [task.Value()], queues := st.queues[Ready := st.queues[Ready] + [|tasks|]]);
      tasks := tasks + [task];
      assert TasksRep() by {
        forall p | 0 <= p < |tasks| ensures TaskAt(p) { assert p < |old(tasks)| ==> old(TaskAt(p)); }
      }
      assert SemsRep() by { forall i | 0 <= i < |sems| ensures SemAt(i) { assert old(SemAt(i)); } }
      assert MutexesRep() by { forall i | 0 <= i < |mutexes| ensures MutexAt(i) { assert old(MutexAt(i)); } }
    }

    /** Link a node that is in no queue at the tail of the ready queue. */
    method LinkTail(q: Link)
      requires Linked(links, heads, lists) && q !in links && Ready in heads && Ready in lists
      requires heads[Ready] == readyQueue
      modifies this`lists, this`links, links`prev, links`next, q`prev, q`next
      ensures lists == old(lists)[Ready := old(lists)[Ready] + [q]] && links == old(links) + {q}
      ensures Linked(links, heads, lists)
    {
      LooseIsFresh(links, heads, lists, q);
      assert Circular(heads[Ready], lists[Ready]);
      ghost var all := links + {q};
      QueueInsertTail(readyQueue, q, all, heads, lists, Ready);
      lists, links := lists[Ready := lists[Ready] + [q]], all;
    }
  }

  lemma MatchesSpawned(tasks: seq<TaskBlock>, task: TaskBlock, queues: map<Place, seq<Pid>>, lists: map<Place,
                       seq<Link>>)
    requires Matches(tasks, queues, lists) && Ready in queues
    ensures Ready in lists
    ensures Matches(tasks + [task], queues[Ready := queues[Ready] + [|tasks|]],
        lists[Ready := lists[Ready] + [task.rq]])
  {
    var queues', lists' := queues[Ready := queues[Ready] + [|tasks|]], lists[Ready := lists[Ready] + [task.rq]];
    forall pl | pl in lists' ensures Mirrors(tasks + [task], queues'[pl], lists'[pl]) {
      assert Mirrors(tasks, queues[pl], lists[pl]);
    }
  }
}
