/** Counting semaphores of sem.c over the scheduler, with the SIMPLEQ wait
    queue of queue.h. */
module Semaphores {
  import opened Scheduler

  // ----- One semaphore operation, on values -----------------------------------

  /** Counter, and the list positions of the waiting tasks, first come first. */
  datatype Sem = Sem(count: int, queue: seq<nat>)

  /** sem_wait puts the current task to sleep. */
  predicate Blocks(s: Sys, q: Sem)
    requires WellFormed(s)
  {
    q.count <= 0 && s.tasks[s.cur].state != SLEEP
  }

  function Asleep(s: Sys): (r: Sys)
    requires WellFormed(s)
    ensures WellFormed(r)
  {
    Sys(WithState(s.tasks, s.cur, SLEEP), s.cur)
  }

  /** sem_wait by the current task. */
  function WaitStep(s: Sys, q: Sem): (r: (Sys, Sem))
    requires WellFormed(s)
    ensures WellFormed(r.0) && |r.0.tasks| == |s.tasks|
  {
    if !Blocks(s, q) then (s, q.(count := q.count - 1))
    else
      var queue := if q.queue != [] && q.queue[0] == s.cur then q.queue else q.queue + [s.cur];
      (Schedule(Asleep(s)), Sem(q.count - 1, queue))
  }

  /** sem_post: wakes the task at the head of the queue when one is owed a turn. */
  function PostStep(s: Sys, q: Sem): (r: (Sys, Sem))
    requires WellFormed(s)
    ensures WellFormed(r.0) && |r.0.tasks| == |s.tasks|
  {
    var count := q.count + 1;
    if count > 0 || q.queue == [] then (s, q.(count := count))
    else
      (if q.queue[0] < |s.tasks| then s.(tasks := WithState(s.tasks, q.queue[0], RUNABLE)) else s,
       Sem(count, q.queue[1..]))
  }

  // ----- Interleavings ------------------------------------------------------------

  datatype Op = Wait(k: nat) | Post(k: nat) | Timer

  /** What has happened to a semaphore since it was initialised. */
  datatype Log = Log(init: nat, posts: nat, waits: nat, slept: seq<nat>, woken: seq<nat>)

  /** `cpu` is the task whose instructions the processor executes. It differs
      from `current` when scheduler() gives `current` away without a jump. */
  datatype World = World(sys: Sys, cpu: nat, sems: seq<Sem>, logs: seq<Log>)

  /** Who holds the processor after scheduler(): only its jump hands it over. */
  function HolderAfter(s: Sys, cpu: nat): nat
    requires WellFormed(s)
  {
    if Switches(s) then Schedule(s).cur else cpu
  }

  /** Only a running task other than TASK0 waits; posts and ticks may come at any time. */
  predicate Legal(w: World, op: Op) {
    && WellFormed(w.sys) && |w.logs| == |w.sems|
    && match op
       case Wait(k) => k < |w.sems| && w.sys.cur != 0 && w.sys.tasks[w.sys.cur].state == RUNNING
       case Post(k) => k < |w.sems|
       case Timer => true
  }

  function Step(w: World, op: Op): World
    requires Legal(w, op)
  {
    match op
    case Wait(k) =>
      var r := WaitStep(w.sys, w.sems[k]);
      var log := w.logs[k].(waits := w.logs[k].waits + 1,
                            slept := w.logs[k].slept + if w.sems[k].count <= 0 then [w.sys.cur] else []);
      World(r.0, if Blocks(w.sys, w.sems[k]) then HolderAfter(Asleep(w.sys), w.cpu) else w.cpu,
            w.sems[k := r.1], w.logs[k := log])
    case Post(k) =>
      var r := PostStep(w.sys, w.sems[k]);
      var log := w.logs[k].(posts := w.logs[k].posts + 1,
                            woken := w.logs[k].woken + if w.sems[k].count < 0 && w.sems[k].queue != [] then [w.sems[k].queue[0]] else []);
      World(r.0, w.cpu, w.sems[k := r.1], w.logs[k := log])
    case Timer =>
      w.(sys := Tick(w.sys), cpu := HolderAfter(Sys(AgedAll(w.sys.tasks), w.sys.cur), w.cpu))
  }

  // ----- The joint invariant ---------------------------------------------------------

  ghost predicate CountOk(q: Sem, l: Log) {
    && q.count == l.init + l.posts - l.waits
    && |q.queue| == (if q.count < 0 then -q.count else 0)
    && l.slept == l.woken + q.queue
  }

  ghost predicate Waits(sems: seq<Sem>, k: int, a: int, t: nat) {
    0 <= k < |sems| && 0 <= a < |sems[k].queue| && sems[k].queue[a] == t
  }

  /** The sleeping tasks are exactly the queued ones, and each is queued once. */
  ghost predicate QueuesOk(ts: seq<Entry>, sems: seq<Sem>) {
    && (forall k, a, t: nat | Waits(sems, k, a, t) :: t < |ts| && ts[t].state == SLEEP)
    && (forall k, a, l, b, t: nat | Waits(sems, k, a, t) && Waits(sems, l, b, t) :: k == l && a == b)
    && (forall t: nat | t < |ts| && ts[t].state == SLEEP :: exists k, a :: Waits(sems, k, a, t))
  }

  ghost predicate Inv(w: World) {
    && |w.logs| == |w.sems|
    && SysOk(w.sys) && w.cpu < |w.sys.tasks|
    && (OneRuns(w.sys) ==> w.cpu == w.sys.cur)
    && (forall k | 0 <= k < |w.sems| :: CountOk(w.sems[k], w.logs[k]))
    && QueuesOk(w.sys.tasks, w.sems)
  }

  /** Whenever a decision leaves a task running, that task has the processor. */
  lemma HolderOk(s: Sys, cpu: nat)
    requires Decidable(s) && cpu < |s.tasks|
    requires s.tasks[s.cur].state == RUNNING ==> cpu == s.cur
    ensures HolderAfter(s, cpu) < |s.tasks|
    ensures OneRuns(Schedule(s)) ==> HolderAfter(s, cpu) == Schedule(s).cur
    ensures s.tasks[s.cur].state != RUNNING ==> (Switches(s) <==> Relief(s))
  {
    ScheduleLeast(s);
    var c := if s.tasks[s.cur].state == SLEEP then 0 else s.cur;
    ScanChooses(s.tasks, 0, s.tasks[c].priority, s.tasks[c].priority, -1);
  }

  lemma TickKeeps(w: World)
    requires Inv(w)
    ensures Inv(Step(w, Timer))
  {
    hide CountOk, Schedule, Switches;
    var aged := Sys(AgedAll(w.sys.tasks), w.sys.cur);
    ScheduleLeast(aged);
    HolderOk(aged, w.cpu);
  }

  lemma QueueAppend(ts: seq<Entry>, us: seq<Entry>, sems: seq<Sem>, k: nat, q: Sem, t: nat)
    requires QueuesOk(ts, sems) && k < |sems| && q.queue == sems[k].queue + [t]
    requires t < |ts| == |us| && ts[t].state != SLEEP
    requires forall i | 0 <= i < |ts| :: us[i].state == SLEEP <==> ts[i].state == SLEEP || i == t
    ensures QueuesOk(us, sems[k := q])
  {
    var next, n := sems[k := q], |sems[k].queue|;
    assert Waits(next, k, n, t);
    forall l, a, x: nat | Waits(next, l, a, x)
      ensures x < |us| && us[x].state == SLEEP
    {
      assert Waits(sems, l, a, x) || (l == k && a == n && x == t);
    }
    forall l, a, m, b, x: nat | Waits(next, l, a, x) && Waits(next, m, b, x)
      ensures l == m && a == b
    {
      assert Waits(sems, l, a, x) || (l == k && a == n && x == t);
      assert Waits(sems, m, b, x) || (m == k && b == n && x == t);
    }
    forall x: nat | x < |us| && us[x].state == SLEEP
      ensures exists l, a :: Waits(next, l, a, x)
    {
      if x != t {
        var l, a :| Waits(sems, l, a, x);
        assert Waits(next, l, a, x);
      }
    }
  }

  lemma QueueRemove(ts: seq<Entry>, us: seq<Entry>, sems: seq<Sem>, k: nat, q: Sem)
    requires QueuesOk(ts, sems) && k < |sems| && sems[k].queue != [] && q.queue == sems[k].queue[1..]
    requires |ts| == |us| && sems[k].queue[0] < |ts|
    requires forall i | 0 <= i < |ts| :: us[i].state == SLEEP <==> ts[i].state == SLEEP && i != sems[k].queue[0]
    ensures QueuesOk(us, sems[k := q])
  {
    var next, h := sems[k := q], sems[k].queue[0];
    assert Waits(sems, k, 0, h);
    forall l, a, x: nat | Waits(next, l, a, x)
      ensures x < |us| && us[x].state == SLEEP
    {
      assert Waits(sems, l, if l == k then a + 1 else a, x);
    }
    forall l, a, m, b, x: nat | Waits(next, l, a, x) && Waits(next, m, b, x)
      ensures l == m && a == b
    {
      assert Waits(sems, l, if l == k then a + 1 else a, x);
      assert Waits(sems, m, if m == k then b + 1 else b, x);
    }
    forall x: nat | x < |us| && us[x].state == SLEEP
      ensures exists l, a :: Waits(next, l, a, x)
    {
      var l, a :| Waits(sems, l, a, x);
      assert Waits(next, l, if l == k then a - 1 else a, x);
    }
  }

  lemma WaitKeeps(w: World, k: nat)
    requires Inv(w) && Legal(w, Wait(k))
    ensures Inv(Step(w, Wait(k)))
  {
    hide Schedule, QueuesOk, Switches;
    var q := w.sems[k];
    var r := Step(w, Wait(k));
    if q.count <= 0 {
      ScheduleLeast(Asleep(w.sys));
      HolderOk(Asleep(w.sys), w.cpu);
      if q.queue != [] { HeadIsNotCurrent(w, k); }
      QueueAppend(w.sys.tasks, r.sys.tasks, w.sems, k, r.sems[k], w.sys.cur);
    } else {
      SameQueues(w.sys.tasks, w.sems, k, r.sems[k]);
    }
  }

  /** sem_wait frees the task structure of its caller: it finds it at the head
      of the queue already. */
  predicate FreesTask(s: Sys, q: Sem)
    requires WellFormed(s)
  {
    Blocks(s, q) && q.queue != [] && q.queue[0] == s.cur
  }

  /** A legal wait never does. */
  lemma LegalWaitFreesNothing(w: World, k: nat)
    requires Inv(w) && Legal(w, Wait(k))
    ensures !FreesTask(w.sys, w.sems[k])
  {
    if w.sems[k].queue != [] { HeadIsNotCurrent(w, k); }
  }

  /** A task that can call sem_wait is in no queue. */
  lemma HeadIsNotCurrent(w: World, k: nat)
    requires Inv(w) && Legal(w, Wait(k)) && w.sems[k].queue != []
    ensures w.sems[k].queue[0] != w.sys.cur
  {
    assert Waits(w.sems, k, 0, w.sems[k].queue[0]);
  }

  lemma SameQueues(ts: seq<Entry>, sems: seq<Sem>, k: nat, q: Sem)
    requires QueuesOk(ts, sems) && k < |sems| && q.queue == sems[k].queue
    ensures QueuesOk(ts, sems[k := q])
  {
    var next := sems[k := q];
    assert forall l, a, x: nat | Waits(next, l, a, x) :: Waits(sems, l, a, x);
    assert forall l, a, x: nat | Waits(sems, l, a, x) :: Waits(next, l, a, x);
  }

  lemma PostKeeps(w: World, k: nat)
    requires Inv(w) && Legal(w, Post(k))
    ensures Inv(Step(w, Post(k)))
  {
    hide QueuesOk;
    var q := w.sems[k];
    var r := Step(w, Post(k));
    if q.count < 0 {
      HeadSleeps(w, k);
      QueueRemove(w.sys.tasks, r.sys.tasks, w.sems, k, r.sems[k]);
    } else {
      SameQueues(w.sys.tasks, w.sems, k, r.sems[k]);
    }
  }

  lemma HeadSleeps(w: World, k: nat)
    requires Inv(w) && k < |w.sems| && w.sems[k].queue != []
    ensures w.sems[k].queue[0] < |w.sys.tasks| && w.sys.tasks[w.sems[k].queue[0]].state == SLEEP
  {
    assert Waits(w.sems, k, 0, w.sems[k].queue[0]);
  }

  /** A run whose every step is legal. */
  ghost predicate LegalRun(w: World, ops: seq<Op>)
    decreases |ops|
  {
    ops == [] || (Legal(w, ops[0]) && LegalRun(Step(w, ops[0]), ops[1..]))
  }

  ghost function After(w: World, ops: seq<Op>): World
    requires LegalRun(w, ops)
    decreases |ops|
  {
    if ops == [] then w else After(Step(w, ops[0]), ops[1..])
  }

  /** The joint invariant survives every interleaving of waits, posts and
      ticks. In particular the waits whose caller is not queued are as many as
      the initial value and the posts allow, and wake-ups follow the sleeps. */
  lemma {:induction false} RunKeeps(w: World, ops: seq<Op>)
    requires Inv(w) && LegalRun(w, ops)
    ensures Inv(After(w, ops))
    ensures forall k | 0 <= k < |After(w, ops).sems| ::
      var l, q := After(w, ops).logs[k], After(w, ops).sems[k];
      && l.waits - |q.queue| == (if l.waits <= l.init + l.posts then l.waits else l.init + l.posts)
      && l.woken <= l.slept
    decreases |ops|
  {
    if ops == [] {
      assert forall k | 0 <= k < |w.sems| :: CountOk(w.sems[k], w.logs[k]);
    }
    hide Inv, Step, CountOk;
    if ops != [] {
      match ops[0] {
        case Wait(k) => WaitKeeps(w, k);
        case Post(k) => PostKeeps(w, k);
        case Timer => TickKeeps(w);
      }
      RunKeeps(Step(w, ops[0]), ops[1..]);
    }
  }

  // ----- Every waiting task is reached ------------------------------------------------------

  function PostsTo(ops: seq<Op>, k: nat): nat {
    if ops == [] then 0 else (if ops[0] == Post(k) then 1 else 0) + PostsTo(ops[1..], k)
  }

  lemma {:induction false} LastPostCounts(ops: seq<Op>, k: nat)
    requires ops != [] && ops[|ops| - 1] == Post(k)
    ensures PostsTo(ops, k) >= 1
  {
    if |ops| > 1 {
      LastPostCounts(ops[1..], k);
    }
  }

  /** One step of a run moves a waiting task up by one if it is a post to its
      semaphore, and otherwise leaves its place alone. */
  lemma StepMovesUp(w: World, op: Op, k: nat, p: nat)
    requires Inv(w) && Legal(w, op) && k < |w.sems| && p < |w.sems[k].queue|
    ensures var r := Step(w, op); var q := r.sems[k].queue;
      if op != Post(k) then p < |q| && q[p] == w.sems[k].queue[p]
      else if p > 0 then p - 1 < |q| && q[p - 1] == w.sems[k].queue[p]
      else w.sems[k].queue[0] < |r.sys.tasks| && r.sys.tasks[w.sems[k].queue[0]].state == RUNABLE
  {
    hide QueuesOk, Schedule, Switches, SysOk;
    assert CountOk(w.sems[k], w.logs[k]) && w.sems[k].count < 0;
    match op
    case Wait(l) => LegalWaitFreesNothing(w, l);
    case Post(l) => if w.sems[l].queue != [] { HeadSleeps(w, l); }
    case Timer =>
  }

  /** Whatever else happens meanwhile, the post that makes it p + 1 wakes the
      task that stood at position p of the queue. */
  lemma {:induction false} WokenInTurn(w: World, ops: seq<Op>, k: nat, p: nat)
    requires Inv(w) && LegalRun(w, ops) && k < |w.sems| && p < |w.sems[k].queue|
    requires ops != [] && ops[|ops| - 1] == Post(k) && PostsTo(ops, k) == p + 1
    ensures var r, t := After(w, ops).sys, w.sems[k].queue[p];
      t < |r.tasks| && r.tasks[t].state == RUNABLE
    decreases |ops|
  {
    StepMovesUp(w, ops[0], k, p);
    hide Inv, Step;
    var next := Step(w, ops[0]);
    match ops[0] {
      case Wait(l) => WaitKeeps(w, l);
      case Post(l) => PostKeeps(w, l);
      case Timer => TickKeeps(w);
    }
    if |ops| == 1 {
      assert ops[1..] == [];
      assert After(w, ops) == After(next, []) == next;
    } else {
      LastPostCounts(ops[1..], k);
      WokenInTurn(next, ops[1..], k, if ops[0] == Post(k) then p - 1 else p);
    }
  }

  /** From there, ticks bring it to run if and only if some task is running or
      may take over from TASK0, and then within the scheduler's bound. */
  lemma WaiterRuns(w: World, ops: seq<Op>, k: nat, p: nat)
    requires Inv(w) && LegalRun(w, ops) && k < |w.sems| && p < |w.sems[k].queue|
    requires ops != [] && ops[|ops| - 1] == Post(k) && PostsTo(ops, k) == p + 1
    ensures var s, t := After(w, ops).sys, w.sems[k].queue[p];
      && WellFormed(s) && t < |s.tasks|
      && ((exists n: nat :: RunningAfter(s, n, t)) <==> CanRun(s))
      && (CanRun(s) ==> exists n: nat :: n <= Scheduler.Wait(s, t) + 1 && RunningAfter(s, n, t))
  {
    WokenInTurn(w, ops, k, p);
    RunKeeps(w, ops);
    assert SysOk(After(w, ops).sys);
    EveryReadyTaskRuns(After(w, ops).sys, w.sems[k].queue[p]);
  }

  /** sem_init on fresh semaphores, with nobody asleep yet. */
  lemma InitialInv(s: Sys, inits: seq<nat>)
    requires SysOk(s) && forall i | 0 <= i < |s.tasks| :: s.tasks[i].state != SLEEP
    ensures Inv(World(s, s.cur, seq(|inits|, k requires 0 <= k < |inits| => Sem(inits[k], [])),
                      seq(|inits|, k requires 0 <= k < |inits| => Log(inits[k], 0, 0, [], []))))
  {
    var sems := seq(|inits|, k requires 0 <= k < |inits| => Sem(inits[k], []));
    assert forall k, a, t: nat :: !Waits(sems, k, a, t);
    hide SysOk, Waits;
  }

  // ----- Where the code falls short ------------------------------------------------------

  /** A runnable task, other than TASK0 and the waiting one, may take over. */
  ghost predicate Relieved(s: Sys)
    requires WellFormed(s)
  {
    exists i :: 0 < i < |s.tasks| && i != s.cur && s.tasks[i].state == RUNABLE && s.tasks[i].priority <= s.tasks[0].priority
  }

  lemma RelievedAsleep(s: Sys)
    requires WellFormed(s)
    ensures Relief(Asleep(s)) && s.cur != 0 <==> Relieved(s) && s.cur != 0
  {
    var r := Asleep(s);
    assert forall i | 0 <= i < |s.tasks| && i != s.cur :: r.tasks[i] == s.tasks[i];
  }

  /** After a wait that blocks, some task is RUNNING, and the waiting task has
      lost the processor, exactly when another runnable task has a priority
      number no larger than TASK0's. When TASK0 itself is the choice,
      scheduler() takes it to be current already, and neither marks it RUNNING
      nor switches to it: sem_wait returns to its caller, asleep and queued. */
  lemma BlockedWaitRuns(w: World, k: nat)
    requires Inv(w) && Legal(w, Wait(k)) && w.sems[k].count <= 0
    ensures var r := Step(w, Wait(k));
      && r.sys.tasks[w.sys.cur].state == SLEEP && w.sys.cur in r.sems[k].queue
      && (OneRuns(r.sys) <==> Relieved(w.sys))
      && (r.cpu != w.sys.cur <==> Relieved(w.sys))
  {
    hide Schedule, Switches, Relief, Relieved;
    if w.sems[k].queue != [] { HeadIsNotCurrent(w, k); }
    assert OneRuns(w.sys);
    ScheduleLeast(Asleep(w.sys));
    HolderOk(Asleep(w.sys), w.cpu);
    RelievedAsleep(w.sys);
    var queue := w.sems[k].queue + [w.sys.cur];
    assert queue[|queue| - 1] == w.sys.cur;
  }

  /** The processor executes a task that is queued and asleep. */
  ghost predicate Escaped(w: World) {
    exists k, a :: Waits(w.sems, k, a, w.cpu)
  }

  ghost predicate NeverEscaped(w: World, ops: seq<Op>)
    requires LegalRun(w, ops)
    decreases |ops|
  {
    !Escaped(w) && (ops == [] || NeverEscaped(Step(w, ops[0]), ops[1..]))
  }

  /** Every wait of the run that blocks finds a task that may take over. */
  ghost predicate AlwaysRelieved(w: World, ops: seq<Op>)
    requires LegalRun(w, ops)
    decreases |ops|
  {
    ops == []
    || (&& (ops[0].Wait? && w.sems[ops[0].k].count <= 0 ==> Relieved(w.sys))
        && AlwaysRelieved(Step(w, ops[0]), ops[1..]))
  }

  lemma NotEscaped(w: World)
    requires Inv(w)
    ensures Escaped(w) <==> w.sys.tasks[w.cpu].state == SLEEP
  {}

  lemma StepRuns(w: World, op: Op)
    requires Inv(w) && OneRuns(w.sys) && Legal(w, op)
    ensures var relieved := op.Wait? && w.sems[op.k].count <= 0 ==> Relieved(w.sys);
      if relieved then OneRuns(Step(w, op).sys) else Escaped(Step(w, op))
  {
    match op
    case Wait(k) =>
      if w.sems[k].count <= 0 {
        BlockedWaitRuns(w, k);
        WaitKeeps(w, k);
        NotEscaped(Step(w, op));
      }
    case Post(k) =>
      if w.sems[k].count < 0 { HeadSleeps(w, k); }
    case Timer =>
      TickLeast(w.sys);
  }

  /** sem_wait holds its callers back over a whole run, no queued task ever
      executing, if and only if every blocking wait finds a runnable task other
      than TASK0 with a priority number no larger than TASK0's. */
  lemma {:induction false} WaitersHeldBack(w: World, ops: seq<Op>)
    requires Inv(w) && OneRuns(w.sys) && LegalRun(w, ops)
    ensures NeverEscaped(w, ops) <==> AlwaysRelieved(w, ops)
    decreases |ops|
  {
    NotEscaped(w);
    hide Inv, Step, Escaped, Relieved;
    if ops != [] {
      var next := Step(w, ops[0]);
      StepRuns(w, ops[0]);
      match ops[0] {
        case Wait(k) => WaitKeeps(w, k);
        case Post(k) => PostKeeps(w, k);
        case Timer => TickKeeps(w);
      }
      if OneRuns(next.sys) {
        WaitersHeldBack(next, ops[1..]);
      }
    }
  }

  /** If TASK0 itself blocks in sem_wait, it stays asleep while it is queued
      exactly when no runnable task has a priority number as small as its own;
      otherwise scheduler() marks it RUNABLE although it is still in the queue. */
  lemma Task0MustNotWait(s: Sys, q: Sem)
    requires OneRuns(s) && s.cur == 0 && q.count <= 0 && (q.queue == [] || q.queue[0] != 0)
    ensures var r := WaitStep(s, q);
      && 0 in r.1.queue
      && (r.0.tasks[0].state == SLEEP <==>
            forall i | 0 < i < |s.tasks| && s.tasks[i].state == RUNABLE :: s.tasks[i].priority > s.tasks[0].priority)
  {
    var ts := WithState(s.tasks, 0, SLEEP);
    var cp := ts[0].priority;
    ScanChooses(ts, 0, cp, cp, -1);
    var b := Scan(ts, 0, cp, -1);
    var queue := q.queue + [0];
    assert queue[|queue| - 1] == 0;
    if b != -1 {
      assert s.tasks[b].state == RUNABLE && s.tasks[b].priority <= cp;
    } else {
      assert forall i | 0 < i < |s.tasks| :: ts[i] == s.tasks[i];
    }
  }

  /** The scan over three tasks, written out. */
  lemma ScanThree(ts: seq<Entry>, cp: int)
    requires |ts| == 3
    ensures
      var c1 := if ts[0].state == RUNABLE && cp >= ts[0].priority then ts[0].priority else cp;
      var b1 := if ts[0].state == RUNABLE && cp >= ts[0].priority then 0 else -1;
      var c2 := if ts[1].state == RUNABLE && c1 >= ts[1].priority then ts[1].priority else c1;
      var b2 := if ts[1].state == RUNABLE && c1 >= ts[1].priority then 1 else b1;
      Scan(ts, 0, cp, -1) == if ts[2].state == RUNABLE && c2 >= ts[2].priority then 2 else b2
  {
    var c1 := if ts[0].state == RUNABLE && cp >= ts[0].priority then ts[0].priority else cp;
    var b1 := if ts[0].state == RUNABLE && cp >= ts[0].priority then 0 else -1;
    var c2 := if ts[1].state == RUNABLE && c1 >= ts[1].priority then ts[1].priority else c1;
    var b2 := if ts[1].state == RUNABLE && c1 >= ts[1].priority then 1 else b1;
    assert Scan(ts, 0, cp, -1) == Scan(ts, 1, c1, b1) == Scan(ts, 2, c2, b2);
    var b3 := if ts[2].state == RUNABLE && c2 >= ts[2].priority then 2 else b2;
    var c3 := if ts[2].state == RUNABLE && c2 >= ts[2].priority then ts[2].priority else c2;
    assert Scan(ts, 2, c2, b2) == Scan(ts, 3, c3, b3) == b3;
  }

  function Three(a: Entry, b: Entry, c: Entry, cur: nat): (s: Sys)
    requires cur < 3
    ensures WellFormed(s)
  {
    Sys([a, b, c], cur)
  }

  lemma TickThree(s: Sys, r: Sys)
    requires WellFormed(s) && |s.tasks| == 3 && s.tasks[s.cur].state == RUNNING
    requires r == Schedule(Sys([Aged(s.tasks[0]), Aged(s.tasks[1]), Aged(s.tasks[2])], s.cur))
    ensures Tick(s) == r
  {
    assert AgedAll(s.tasks) == [Aged(s.tasks[0]), Aged(s.tasks[1]), Aged(s.tasks[2])];
  }

  /** Three tasks as new_task makes them, TASK0 running. */
  function FreshSystem(): (s: Sys)
    ensures WellFormed(s)
  {
    Three(Entry(RUNNING, INITIAL_PRIO), Entry(RUNABLE, INITIAL_PRIO), Entry(RUNABLE, INITIAL_PRIO), 0)
  }

  function FreshWorld(): World {
    World(FreshSystem(), 0, [Sem(0, [])], [Log(0, 0, 0, [], [])])
  }

  /** Four ticks of the fresh system: task 1 runs, and task 2 is behind TASK0. */
  lemma FourTicks()
    ensures Tick(Tick(Tick(Tick(FreshSystem())))) == Three(Entry(RUNABLE, 190), Entry(RUNNING, 190), Entry(RUNABLE, 220), 1)
  {
    var s0 := FreshSystem();
    var s1 := Three(Entry(RUNABLE, 220), Entry(RUNABLE, 190), Entry(RUNNING, 190), 2);
    var s2 := Three(Entry(RUNABLE, 210), Entry(RUNNING, 180), Entry(RUNABLE, 210), 1);
    var s3 := Three(Entry(RUNABLE, 200), Entry(RUNABLE, 200), Entry(RUNNING, 200), 2);
    var s4 := Three(Entry(RUNABLE, 190), Entry(RUNNING, 190), Entry(RUNABLE, 220), 1);
    ScanThree([Entry(RUNNING, 220), Entry(RUNABLE, 190), Entry(RUNABLE, 190)], 220);
    ScanThree([Entry(RUNABLE, 210), Entry(RUNABLE, 180), Entry(RUNNING, 210)], 210);
    ScanThree([Entry(RUNABLE, 200), Entry(RUNNING, 200), Entry(RUNABLE, 200)], 200);
    ScanThree([Entry(RUNABLE, 190), Entry(RUNABLE, 190), Entry(RUNNING, 220)], 220);
    hide Scan;
    TickThree(s0, s1);
    TickThree(s1, s2);
    TickThree(s2, s3);
    TickThree(s3, s4);
  }

  /** A legal run from freshly initialised semaphores after which a ready task
      never runs, while the task that waits still has the processor. */
  lemma StarvingRun()
    ensures var ops := [Timer, Timer, Timer, Timer, Wait(0)];
      && Inv(FreshWorld()) && OneRuns(FreshSystem()) && LegalRun(FreshWorld(), ops)
      && var w := After(FreshWorld(), ops);
      && w.sys == Three(Entry(RUNABLE, 190), Entry(SLEEP, 190), Entry(RUNABLE, 220), 0)
      && w.cpu == 1 && w.sems[0].queue == [1] && Escaped(w)
      && forall n: nat :: !RunningAfter(w.sys, n, 2)
  {
    var w0 := FreshWorld();
    FreshInv();
    hide Inv, Step, Escaped, SysOk, CanRun, FreshWorld, FreshSystem;
    var w1 := TickStep(w0);
    var w2 := TickStep(w1);
    var w3 := TickStep(w2);
    var w4 := TickStep(w3);
    FourTicks();
    BlockedWait(w4);
    var w5 := Step(w4, Wait(0));
    RunUnfolds(w0, w1, w2, w3, w4, w5);
    forall n: nat
      ensures !RunningAfter(w5.sys, n, 2)
    {
      NobodyRuns(w5.sys, n);
    }
  }

  lemma FreshInv()
    ensures Inv(FreshWorld()) && OneRuns(FreshSystem())
    ensures FreshWorld().sys == FreshSystem() && FreshWorld().sems == [Sem(0, [])]
  {
    var inits := [0];
    FreshOk();
    InitialInv(FreshSystem(), inits);
    hide Inv, OneRuns;
    assert seq(|inits|, k requires 0 <= k < |inits| => Sem(inits[k], [])) == [Sem(0, [])];
    assert seq(|inits|, k requires 0 <= k < |inits| => Log(inits[k], 0, 0, [], [])) == [Log(0, 0, 0, [], [])];
  }

  lemma FreshOk()
    ensures SysOk(FreshSystem()) && OneRuns(FreshSystem()) && FreshSystem().cur == 0
    ensures forall i | 0 <= i < |FreshSystem().tasks| :: FreshSystem().tasks[i].state != SLEEP
  {}

  lemma TickStep(w: World) returns (next: World)
    requires Inv(w)
    ensures Legal(w, Timer) && next == Step(w, Timer) && Inv(next)
    ensures WellFormed(w.sys) && next.sys == Tick(w.sys) && next.sems == w.sems
  {
    next := Step(w, Timer);
    TickKeeps(w);
  }

  lemma RunUnfolds(w0: World, w1: World, w2: World, w3: World, w4: World, w5: World)
    requires Legal(w0, Timer) && w1 == Step(w0, Timer) && Legal(w1, Timer) && w2 == Step(w1, Timer)
    requires Legal(w2, Timer) && w3 == Step(w2, Timer) && Legal(w3, Timer) && w4 == Step(w3, Timer)
    requires Legal(w4, Wait(0)) && w5 == Step(w4, Wait(0))
    ensures var ops := [Timer, Timer, Timer, Timer, Wait(0)]; LegalRun(w0, ops) && After(w0, ops) == w5
  {
    hide Step;
    var o4 := [Wait(0)];
    var o3 := [Timer] + o4;
    var o2 := [Timer] + o3;
    var o1 := [Timer] + o2;
    assert o4[1..] == [] && o3[1..] == o4 && o2[1..] == o3 && o1[1..] == o2;
    assert LegalRun(w4, o4) && After(w4, o4) == w5;
    assert LegalRun(w3, o3) && After(w3, o3) == w5;
    assert LegalRun(w2, o2) && After(w2, o2) == w5;
    assert LegalRun(w1, o1) && After(w1, o1) == w5;
    assert [Timer, Timer, Timer, Timer, Wait(0)] == [Timer] + o1;
    assert ([Timer] + o1)[1..] == o1;
  }

  lemma BlockedWait(w: World)
    requires Inv(w) && w.sys == Three(Entry(RUNABLE, 190), Entry(RUNNING, 190), Entry(RUNABLE, 220), 1)
    requires w.sems == [Sem(0, [])]
    ensures Legal(w, Wait(0))
    ensures var r := Step(w, Wait(0));
      && r.sys == Three(Entry(RUNABLE, 190), Entry(SLEEP, 190), Entry(RUNABLE, 220), 0)
      && r.cpu == 1 && r.sems[0].queue == [1] && Escaped(r) && SysOk(r.sys) && !CanRun(r.sys)
  {
    ScanThree([Entry(RUNABLE, 190), Entry(SLEEP, 190), Entry(RUNABLE, 220)], 190);
    var r := Step(w, Wait(0));
    assert OneRuns(w.sys);
    assert Asleep(w.sys).tasks == [Entry(RUNABLE, 190), Entry(SLEEP, 190), Entry(RUNABLE, 220)];
    hide Scan;
    assert Waits(r.sems, 0, 0, 1);
  }

  /** TASK0, running, waits on a semaphore that is used up: it is queued and
      runnable at once, and when it comes to run and to wait there again, its
      structure is freed. */
  lemma Task0Waits()
    ensures OneRuns(FreshSystem())
    ensures var r := WaitStep(FreshSystem(), Sem(0, []));
      && r.1.queue == [0] && r.0.tasks[0].state == RUNABLE
      && forall s | WellFormed(s) && OneRuns(s) && s.cur == 0 :: FreesTask(s, r.1)
  {
    var s := FreshSystem();
    ScanThree([Entry(SLEEP, INITIAL_PRIO), Entry(RUNABLE, INITIAL_PRIO), Entry(RUNABLE, INITIAL_PRIO)], INITIAL_PRIO);
    assert Asleep(s).tasks == [Entry(SLEEP, INITIAL_PRIO), Entry(RUNABLE, INITIAL_PRIO), Entry(RUNABLE, INITIAL_PRIO)];
  }

  // ----- SIMPLEQ ---------------------------------------------------------------------------

  class Item {
    var task: Task
    var next: Item?

    constructor (task: Task)
      ensures this.task == task && next == null
    {
      this.task, next := task, null;
    }
  }

  /** SIMPLEQ_HEAD. `last` names the item whose next field sqh_last points to;
      null stands for the address of `first` itself. */
  class TaskQueue {
    var first: Item?
    var last: Item?
    ghost var items: seq<Item>

    ghost function ItemAt(k: nat): Item?
      reads this`items
    {
      if k < |items| then items[k] else null
    }

    ghost predicate Valid()
      reads this, items`next
    {
      && first == ItemAt(0)
      && last == (if items == [] then null else items[|items| - 1])
      && (forall i, j | 0 <= i < j < |items| :: items[i] != items[j])
      && (forall i {:trigger items[i].next} | 0 <= i < |items| :: items[i].next == ItemAt(i + 1))
    }

    /** SIMPLEQ_INIT. */
    constructor ()
      ensures Valid() && items == []
    {
      first, last := null, null;
      items := [];
    }

    /** SIMPLEQ_INSERT_TAIL. */
    method InsertTail(elm: Item)
      requires Valid() && elm !in items
      modifies this, elm`next, items`next
      ensures Valid() && items == old(items) + [elm]
    {
      elm.next := null;
      if last == null {
        first := elm;
      } else {
        last.next := elm;
      }
      last := elm;
      ghost var before := items;
      items := items + [elm];
      forall i | 0 <= i < |items|
        ensures items[i].next == ItemAt(i + 1)
      {
        if i < |before| {
          assert items[i] == before[i] && old(before[i].next) == old(ItemAt(i + 1));
        }
      }
    }

    /** SIMPLEQ_REMOVE_HEAD. */
    method RemoveHead()
      requires Valid() && items != []
      modifies this
      ensures Valid() && items == old(items)[1..]
    {
      ghost var before := items;
      assert before[0].next == ItemAt(1);
      first := first.next;
      if first == null {
        last := null;
      }
      items := items[1..];
      forall i | 0 <= i < |items|
        ensures items[i].next == ItemAt(i + 1)
      {
        assert items[i] == before[i + 1] && old(before[i + 1].next) == old(ItemAt(i + 2));
      }
    }
  }

  // ----- The semaphore ------------------------------------------------------------------------

  class Semaphore {
    var count: int
    const wq: TaskQueue
    // List positions of the tasks in the queue's items.
    ghost var waiting: seq<nat>

    ghost predicate Valid(kernel: Kernel)
      reads this, kernel, kernel.tasks`next, wq, wq.items
    {
      kernel.Valid() && Linked(kernel.tasks)
    }

    ghost predicate Linked(tasks: seq<Task>)
      reads this`waiting, wq, wq.items
    {
      && wq.Valid()
      && |waiting| == |wq.items|
      && forall i | 0 <= i < |waiting| :: waiting[i] < |tasks| && wq.items[i].task == tasks[waiting[i]]
    }

    ghost function View(): Sem
      reads this
    {
      Sem(count, waiting)
    }

    /** sem_init. */
    constructor (kernel: Kernel, val: int)
      requires kernel.Valid()
      ensures Valid(kernel) && View() == Sem(val, []) && fresh(wq)
    {
      wq := new TaskQueue();
      count := val;
      waiting := [];
    }

    /** Lines 37 and 40-49: queue the current task, unless it is the queue's
        head; in that case its structure is handed to kfree. */
    method Enqueue(kernel: Kernel, t: Task) returns (freed: bool)
      requires Valid(kernel) && t == kernel.current
      modifies this`waiting, wq, wq.items`next
      ensures Valid(kernel)
      ensures freed == (old(waiting) != [] && old(waiting)[0] == kernel.cur)
      ensures waiting == if freed then old(waiting) else old(waiting) + [kernel.cur]
    {
      var item := new Item(t);
      var it := wq.first;
      freed := false;
      if it == null {
        Append(kernel, item);
      } else if it.task == t {
        freed := true;
      } else {
        Append(kernel, item);
      }
    }

    /** SIMPLEQ_INSERT_TAIL of an item for the current task. */
    method Append(kernel: Kernel, item: Item)
      requires Valid(kernel) && item !in wq.items && item.task == kernel.current
      modifies this`waiting, wq, item`next, wq.items`next
      ensures Valid(kernel) && waiting == old(waiting) + [kernel.cur]
    {
      wq.InsertTail(item);
      waiting := waiting + [kernel.cur];
    }

    /** t->state = TS_SLEEP for the current task. */
    method MarkAsleep(kernel: Kernel)
      requires kernel.Valid()
      modifies kernel.tasks`state
      ensures kernel.Entries() == WithState(old(kernel.Entries()), kernel.cur, SLEEP)
    {
      kernel.current.state := SLEEP;
    }

    /** sleep_on for the current task; TASK0 is exempt. */
    method SleepOn(kernel: Kernel)
      requires kernel.Valid()
      modifies kernel.tasks`state
      ensures kernel.Entries() == if kernel.cur == 0 then old(kernel.Entries()) else WithState(old(kernel.Entries()), kernel.cur, SLEEP)
    {
      if kernel.current == kernel.task0 { return; }
      MarkAsleep(kernel);
    }

    /** Lines 37-50: mark the current task asleep and queue it. */
    method GoToSleep(kernel: Kernel) returns (freed: bool)
      requires Valid(kernel)
      modifies kernel.tasks`state, this`waiting, wq, wq.items`next
      ensures Valid(kernel)
      ensures kernel.Entries() == WithState(old(kernel.Entries()), kernel.cur, SLEEP)
      ensures freed == (old(waiting) != [] && old(waiting)[0] == kernel.cur)
      ensures waiting == if freed then old(waiting) else old(waiting) + [kernel.cur]
    {
      hide Linked;
      MarkAsleep(kernel);
      ghost var asleep := kernel.Entries();
      freed := Enqueue(kernel, kernel.current);
      assert kernel.Entries() == asleep;
      SleepOn(kernel);
      assert kernel.Entries() == asleep;
    }

    /** sleep_on_queue, with the memory for the queue item granted. */
    method SleepOnQueue(kernel: Kernel) returns (freed: bool)
      requires Valid(kernel)
      modifies kernel`current, kernel`cur, kernel.tasks`state, this`waiting, wq, wq.items`next
      ensures Valid(kernel)
      ensures var s := old(kernel.View());
        if s.tasks[s.cur].state == SLEEP then kernel.View() == s && waiting == old(waiting) && !freed
        else
          && freed == (old(waiting) != [] && old(waiting)[0] == s.cur)
          && kernel.View() == Schedule(Sys(WithState(s.tasks, s.cur, SLEEP), s.cur))
          && waiting == if old(waiting) != [] && old(waiting)[0] == s.cur then old(waiting) else old(waiting) + [s.cur]
    {
      hide Schedule, Linked;
      assert kernel.Entries()[kernel.cur] == Entry(kernel.current.state, kernel.current.priority);
      if kernel.current.state == SLEEP { return false; }
      freed := GoToSleep(kernel);
      kernel.Dispatch();
    }

    /** wake_up. */
    method WakeUp(kernel: Kernel, task: Task, ghost i: nat)
      requires kernel.Valid() && i < |kernel.tasks| && task == kernel.tasks[i]
      modifies kernel.tasks`state
      ensures kernel.Entries() == WithState(old(kernel.Entries()), i, RUNABLE)
    {
      task.state := RUNABLE;
    }

    /** wake_up_queue: the head of the queue becomes runnable. */
    method WakeUpQueue(kernel: Kernel)
      requires Valid(kernel)
      modifies kernel.tasks`state, this`waiting, wq
      ensures Valid(kernel)
      ensures var s := old(kernel.View());
        if old(waiting) == [] then kernel.View() == s && waiting == []
        else kernel.View() == s.(tasks := WithState(s.tasks, old(waiting)[0], RUNABLE)) && waiting == old(waiting)[1..]
    {
      ghost var s := kernel.View();
      var item := wq.first;
      if item != null {
        WakeUp(kernel, item.task, waiting[0]);
        assert kernel.Entries() == WithState(s.tasks, old(waiting)[0], RUNABLE);
        DropHead(kernel);
      }
    }

    /** SIMPLEQ_REMOVE_HEAD on the semaphore's queue. */
    method DropHead(kernel: Kernel)
      requires Valid(kernel) && waiting != []
      modifies this`waiting, wq
      ensures Valid(kernel) && waiting == old(waiting)[1..]
    {
      wq.RemoveHead();
      waiting := waiting[1..];
    }

    /** sem_wait by the current task; whether it frees the task's structure. */
    method Wait(kernel: Kernel) returns (freed: bool)
      requires Valid(kernel)
      modifies kernel`current, kernel`cur, kernel.tasks`state, this`count, this`waiting, wq, wq.items`next
      ensures Valid(kernel)
      ensures (kernel.View(), View()) == WaitStep(old(kernel.View()), old(View()))
      ensures freed == FreesTask(old(kernel.View()), old(View()))
    {
      hide Schedule, Linked, Kernel.Valid;
      count := count - 1;
      freed := false;
      if count < 0 {
        freed := SleepOnQueue(kernel);
      }
    }

    /** sem_post. */
    method Post(kernel: Kernel)
      requires Valid(kernel)
      modifies kernel.tasks`state, this`count, this`waiting, wq
      ensures Valid(kernel)
      ensures (kernel.View(), View()) == PostStep(old(kernel.View()), old(View()))
    {
      count := count + 1;
      if count <= 0 {
        WakeUpQueue(kernel);
      }
    }
  }
}
