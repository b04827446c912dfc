/** The task list and scheduler of task.c and the timer tick of timer.c. */
module Scheduler {

  const INITIAL_PRIO := 200

  datatype State = RUNNING | RUNABLE | STOPPED | WAITING | SLEEP | UNINTERRUPTIBLE

  /** What scheduling depends on: the tasks in list order (TASK0 first), and
      which of them `current` points to. */
  datatype Entry = Entry(state: State, priority: int)
  datatype Sys = Sys(tasks: seq<Entry>, cur: nat)

  predicate WellFormed(s: Sys) {
    s.cur < |s.tasks|
  }

  // ----- One scheduling decision ------------------------------------------------

  /** The scan over the list: `best` and `cp` are the candidate so far and its
      priority; -1 stands for no candidate. */
  function Scan(ts: seq<Entry>, k: nat, cp: int, best: int): int
    requires k <= |ts|
    decreases |ts| - k
  {
    if k == |ts| then best
    else if ts[k].state == RUNABLE && cp >= ts[k].priority then Scan(ts, k + 1, ts[k].priority, k)
    else Scan(ts, k + 1, cp, best)
  }

  /** `b` is the last of the runnable tasks of least priority, if that priority
      is at most `cp`. */
  ghost predicate IsChoice(ts: seq<Entry>, cp: int, b: int) {
    if b == -1 then forall i | 0 <= i < |ts| && ts[i].state == RUNABLE :: ts[i].priority > cp
    else
      && 0 <= b < |ts| && ts[b].state == RUNABLE && ts[b].priority <= cp
      && (forall i | 0 <= i < |ts| && ts[i].state == RUNABLE :: ts[b].priority <= ts[i].priority)
      && (forall i | b < i < |ts| && ts[i].state == RUNABLE :: ts[b].priority < ts[i].priority)
  }

  lemma {:induction false} ScanChooses(ts: seq<Entry>, k: nat, cp0: int, cp: int, best: int)
    requires k <= |ts| && IsChoice(ts[..k], cp0, best)
    requires cp == if best == -1 then cp0 else ts[best].priority
    ensures IsChoice(ts, cp0, Scan(ts, k, cp, best))
    decreases |ts| - k
  {
    if k == |ts| {
      assert ts[..k] == ts;
    } else {
      assert forall i | 0 <= i < k :: ts[..k + 1][i] == ts[..k][i];
      if ts[k].state == RUNABLE && cp >= ts[k].priority {
        ScanChooses(ts, k + 1, cp0, ts[k].priority, k);
      } else {
        ScanChooses(ts, k + 1, cp0, cp, best);
      }
    }
  }

  function WithState(ts: seq<Entry>, i: nat, st: State): seq<Entry>
    requires i < |ts|
  {
    ts[i := ts[i].(state := st)]
  }

  /** scheduler(): a sleeping current task gives way to TASK0; then the choice,
      if it is another task, takes over. */
  function Schedule(s: Sys): (r: Sys)
    requires WellFormed(s)
    ensures WellFormed(r) && |r.tasks| == |s.tasks|
  {
    var c := if s.tasks[s.cur].state == SLEEP then 0 else s.cur;
    var b := Scan(s.tasks, 0, s.tasks[c].priority, -1);
    ScanChooses(s.tasks, 0, s.tasks[c].priority, s.tasks[c].priority, -1);
    if b == -1 || b == c then Sys(s.tasks, c)
    else Sys(WithState(WithState(s.tasks, c, RUNABLE), b, RUNNING), b)
  }

  /** The decision ends in the jump to another task. */
  predicate Switches(s: Sys)
    requires WellFormed(s)
  {
    var c := if s.tasks[s.cur].state == SLEEP then 0 else s.cur;
    var b := Scan(s.tasks, 0, s.tasks[c].priority, -1);
    b != -1 && b != c
  }

  // ----- The timer tick ----------------------------------------------------------

  /** Ageing in do_timer: the running task loses 20 (its priority number grows,
      and is pinned to 0xffffffff, which is -1 as an int, when it would stay at
      or below 0), the others gain 10, sleepers stay. */
  function Aged(e: Entry): Entry {
    var p := if e.state != RUNNING then e.priority
             else if e.priority + 30 <= 0 then -1 else e.priority + 30;
    e.(priority := if e.state == SLEEP then p else p - 10)
  }

  function AgedAll(ts: seq<Entry>): (r: seq<Entry>)
    ensures |r| == |ts| && forall i | 0 <= i < |ts| :: r[i] == Aged(ts[i])
  {
    seq(|ts|, i requires 0 <= i < |ts| => Aged(ts[i]))
  }

  function Tick(s: Sys): (r: Sys)
    requires WellFormed(s)
    ensures WellFormed(r) && |r.tasks| == |s.tasks|
  {
    Schedule(Sys(AgedAll(s.tasks), s.cur))
  }

  // ----- What ticks keep and promise -------------------------------------------------

  /** The current task is the one that is RUNNING. */
  ghost predicate OneRuns(s: Sys) {
    && WellFormed(s) && s.tasks[s.cur].state == RUNNING
    && forall i | 0 <= i < |s.tasks| && i != s.cur :: s.tasks[i].state != RUNNING
  }

  /** The task competes for the processor. */
  predicate Ready(e: Entry) {
    e.state == RUNNING || e.state == RUNABLE
  }

  /** No ready task has a smaller priority number than the current one. */
  ghost predicate LeastRuns(s: Sys)
    requires WellFormed(s)
  {
    forall i | 0 <= i < |s.tasks| && Ready(s.tasks[i]) :: s.tasks[s.cur].priority <= s.tasks[i].priority
  }

  /** TASK0 can always run, nobody runs but the current task, and the current
      task runs, unless it is TASK0 standing in for a task that went to sleep. */
  ghost predicate SysOk(s: Sys) {
    && WellFormed(s) && Ready(s.tasks[0])
    && (forall i | 0 <= i < |s.tasks| && s.tasks[i].state == RUNNING :: i == s.cur)
    && (s.tasks[s.cur].state == RUNNING || s.cur == 0)
  }

  /** A state in which scheduler() is called: the current task may just have
      been put to sleep. */
  ghost predicate Decidable(s: Sys) {
    && WellFormed(s) && Ready(s.tasks[0])
    && (forall i | 0 <= i < |s.tasks| && s.tasks[i].state == RUNNING :: i == s.cur)
    && (s.tasks[s.cur].state == RUNNING || s.tasks[s.cur].state == SLEEP || s.cur == 0)
  }

  /** Some runnable task may take over from TASK0. */
  ghost predicate Relief(s: Sys) {
    exists i :: 0 < i < |s.tasks| && s.tasks[i].state == RUNABLE && s.tasks[i].priority <= s.tasks[0].priority
  }

  /** A scheduling decision leaves exactly one task running, one of least
      priority, if and only if the current task was running or another task can
      take over from TASK0; it wakes nobody and changes no priority. */
  lemma ScheduleLeast(s: Sys)
    requires Decidable(s)
    ensures SysOk(Schedule(s))
    ensures OneRuns(Schedule(s)) <==> s.tasks[s.cur].state == RUNNING || Relief(s)
    ensures OneRuns(Schedule(s)) ==> LeastRuns(Schedule(s))
    ensures forall i | 0 <= i < |s.tasks| ::
      && Schedule(s).tasks[i].priority == s.tasks[i].priority
      && (Ready(Schedule(s).tasks[i]) <==> Ready(s.tasks[i]))
      && (Schedule(s).tasks[i].state == SLEEP <==> s.tasks[i].state == SLEEP)
  {
    var c := if s.tasks[s.cur].state == SLEEP then 0 else s.cur;
    var cp := s.tasks[c].priority;
    ScanChooses(s.tasks, 0, cp, cp, -1);
    var b := Scan(s.tasks, 0, cp, -1);
    if s.tasks[s.cur].state != RUNNING {
      assert s.tasks[0].state == RUNABLE && c == 0;
      if Relief(s) {
        var i :| 0 < i < |s.tasks| && s.tasks[i].state == RUNABLE && s.tasks[i].priority <= s.tasks[0].priority;
        assert b > 0;
      }
      assert b != 0 ==> Relief(s);
    }
  }

  /** Relative to the common shift of 10, a tick raises the running task's
      priority number by at least 29 and leaves every other one where it is. */
  lemma AgingSeparates(e: Entry)
    ensures e.state == RUNNING ==> Aged(e).priority + 10 >= e.priority + 29
    ensures e.state != RUNNING && e.state != SLEEP ==> Aged(e).priority + 10 == e.priority
    ensures e.state == SLEEP ==> Aged(e) == e
  {}

  /** What a tick does to the priority numbers, however large or small: a
      running task ends 20 higher, but from -30 or below it ends on -11; a
      sleeper stays, and any other task ends 10 lower. States do not age. */
  lemma TickInNumbers(s: Sys, i: nat)
    requires WellFormed(s) && i < |s.tasks|
    ensures s.tasks[i].state == RUNNING ==>
      Tick(s).tasks[i].priority == if s.tasks[i].priority > -30 then s.tasks[i].priority + 20 else -11
    ensures s.tasks[i].state == SLEEP ==> Tick(s).tasks[i].priority == s.tasks[i].priority
    ensures s.tasks[i].state != RUNNING && s.tasks[i].state != SLEEP ==>
      Tick(s).tasks[i].priority == s.tasks[i].priority - 10
    ensures AgedAll(s.tasks)[i].state == s.tasks[i].state
  {
    SchedulePriorities(Sys(AgedAll(s.tasks), s.cur), i);
    hide Schedule;
  }

  lemma SchedulePriorities(s: Sys, i: nat)
    requires WellFormed(s) && i < |s.tasks|
    ensures Schedule(s).tasks[i].priority == s.tasks[i].priority
  {}

  /** Four ready tasks with the least priority numbers around -30: the running
      one is pinned, and the next takes over. */
  lemma PinnedTick()
    ensures Tick(Sys([Entry(RUNNING, -30), Entry(RUNABLE, -10), Entry(RUNABLE, -30), Entry(RUNABLE, -20)], 0))
      == Sys([Entry(RUNABLE, -11), Entry(RUNABLE, -20), Entry(RUNNING, -40), Entry(RUNABLE, -30)], 2)
  {
    var s := Sys([Entry(RUNNING, -30), Entry(RUNABLE, -10), Entry(RUNABLE, -30), Entry(RUNABLE, -20)], 0);
    var aged := [Entry(RUNNING, -11), Entry(RUNABLE, -20), Entry(RUNABLE, -40), Entry(RUNABLE, -30)];
    assert AgedAll(s.tasks) == aged;
    ScanChooses(aged, 0, -11, -11, -1);
    assert aged[1].priority <= -11 && aged[2].state == RUNABLE;
    hide Scan;
  }

  /** Somebody runs, or will at the next tick. */
  ghost predicate CanRun(s: Sys) {
    OneRuns(s) || Relief(s)
  }

  lemma TickLeast(s: Sys)
    requires SysOk(s)
    ensures SysOk(Tick(s)) && (OneRuns(Tick(s)) <==> CanRun(s))
    ensures OneRuns(Tick(s)) ==> LeastRuns(Tick(s))
    ensures forall i | 0 <= i < |s.tasks| ::
      Tick(s).tasks[i].priority == Aged(s.tasks[i]).priority && (Ready(Tick(s).tasks[i]) <==> Ready(s.tasks[i]))
  {
    var aged := Sys(AgedAll(s.tasks), s.cur);
    ScheduleLeast(aged);
    hide Schedule;
    if s.tasks[s.cur].state != RUNNING {
      assert forall i | 0 <= i < |s.tasks| && s.tasks[i].state == RUNABLE :: aged.tasks[i].priority == s.tasks[i].priority - 10;
      assert Relief(aged) <==> Relief(s);
    }
  }

  // ----- Starvation freedom -------------------------------------------------------------

  function Run(s: Sys, n: nat): (r: Sys)
    requires WellFormed(s)
    ensures WellFormed(r) && |r.tasks| == |s.tasks|
    decreases n
  {
    if n == 0 then s else Run(Tick(s), n - 1)
  }

  /** How often a task that is `d` ahead can run before it has fallen behind. */
  function Turns(d: int): nat {
    if d < 0 then 0 else d / 29 + 1
  }

  /** Turns the first `n` tasks can still take before task `j`. */
  function TurnsBefore(ts: seq<Entry>, j: nat, n: nat): nat
    requires j < |ts| && n <= |ts|
  {
    if n == 0 then 0
    else TurnsBefore(ts, j, n - 1)
         + if n - 1 != j && Ready(ts[n - 1]) then Turns(ts[j].priority - ts[n - 1].priority) else 0
  }

  /** The bound on task `j`'s waiting time, from the priority differences. */
  function Wait(s: Sys, j: nat): nat
    requires j < |s.tasks|
  {
    TurnsBefore(s.tasks, j, |s.tasks|)
  }

  lemma TurnsShrink(d: int, e: int)
    ensures e <= d ==> Turns(e) <= Turns(d)
    ensures e <= d - 29 && d >= 0 ==> Turns(e) < Turns(d)
  {}

  /** One tick never lengthens the wait of a ready task that is not running, and
      shortens it when a running task was not behind it. */
  lemma {:induction false} TickShortens(s: Sys, j: nat, n: nat)
    requires SysOk(s) && j < |s.tasks| && n <= |s.tasks| && s.tasks[j].state == RUNABLE
    ensures TurnsBefore(Tick(s).tasks, j, n) <= TurnsBefore(s.tasks, j, n)
    ensures s.tasks[s.cur].state == RUNNING && s.cur < n && s.tasks[s.cur].priority <= s.tasks[j].priority ==>
      TurnsBefore(Tick(s).tasks, j, n) < TurnsBefore(s.tasks, j, n)
  {
    hide Tick, Aged;
    if n > 0 {
      TickShortens(s, j, n - 1);
      TickLeast(s);
      var i := n - 1;
      AgingSeparates(s.tasks[i]);
      AgingSeparates(s.tasks[j]);
      TurnsShrink(s.tasks[j].priority - s.tasks[i].priority, Tick(s).tasks[j].priority - Tick(s).tasks[i].priority);
    }
  }

  predicate RunningAfter(s: Sys, n: nat, j: nat)
    requires WellFormed(s) && j < |s.tasks|
  {
    Run(s, n).tasks[j].state == RUNNING
  }

  /** A ready task runs after at most as many ticks as the priority differences
      allow the others turns, plus one. */
  lemma {:induction false} ReadyTaskRuns(s: Sys, j: nat) returns (n: nat)
    requires SysOk(s) && CanRun(s) && j < |s.tasks| && Ready(s.tasks[j])
    ensures n <= Wait(s, j) + 1 && RunningAfter(s, n, j)
    ensures OneRuns(s) && s.tasks[s.cur].priority <= s.tasks[j].priority ==> n <= Wait(s, j)
    decreases Wait(s, j) + if OneRuns(s) && s.tasks[s.cur].priority <= s.tasks[j].priority then 0 else 1
  {
    hide Tick;
    if s.tasks[j].state == RUNNING {
      n := 0;
    } else {
      TickShortens(s, j, |s.tasks|);
      TickLeast(s);
      n := ReadyTaskRuns(Tick(s), j);
      n := n + 1;
    }
  }

  /** When TASK0 stands in unmarked and nobody may take over, ticks change
      nothing about that: no task ever runs again. */
  lemma {:induction false} NobodyRuns(s: Sys, n: nat)
    requires SysOk(s) && !CanRun(s)
    ensures forall i | 0 <= i < |s.tasks| :: !RunningAfter(s, n, i)
    decreases n
  {
    if n > 0 {
      TickLeast(s);
      var r := Tick(s);
      assert forall i | 0 <= i < |s.tasks| && r.tasks[i].state == RUNABLE ::
        s.tasks[i].state == RUNABLE && r.tasks[i].priority == s.tasks[i].priority - 10;
      assert s.tasks[0].state == RUNABLE;
      assert !Relief(r);
      NobodyRuns(r, n - 1);
      hide Tick;
      assert forall i | 0 <= i < |s.tasks| :: RunningAfter(s, n, i) == RunningAfter(r, n - 1, i);
    }
  }

  /** Starvation freedom, and exactly when it holds: with ticks alone, a ready
      task comes to run if and only if some task is running or may take over
      from TASK0, and then within the bound. */
  lemma EveryReadyTaskRuns(s: Sys, j: nat)
    requires SysOk(s) && j < |s.tasks| && Ready(s.tasks[j])
    ensures (exists n: nat :: RunningAfter(s, n, j)) <==> CanRun(s)
    ensures CanRun(s) ==> exists n: nat :: n <= Wait(s, j) + 1 && RunningAfter(s, n, j)
  {
    if CanRun(s) {
      var n := ReadyTaskRuns(s, j);
    } else {
      forall n: nat
        ensures !RunningAfter(s, n, j)
      {
        NobodyRuns(s, n);
      }
    }
  }

  // ----- The linked task list -----------------------------------------------------------

  class Task {
    var state: State
    var priority: int
    var next: Task?

    constructor (state: State, priority: int, next: Task?)
      ensures this.state == state && this.priority == priority && this.next == next
    {
      this.state, this.priority, this.next := state, priority, next;
    }
  }

  class Kernel {
    const task0: Task
    var current: Task
    // The list that starts at TASK0, and the position of `current` in it.
    ghost var tasks: seq<Task>
    ghost var cur: nat

    ghost predicate Valid()
      reads this, tasks`next
    {
      && tasks != [] && tasks[0] == task0
      && cur < |tasks| && current == tasks[cur]
      && (forall i, j | 0 <= i < j < |tasks| :: tasks[i] != tasks[j])
      && (forall i {:trigger tasks[i].next} | 0 <= i < |tasks| :: tasks[i].next == NodeAt(i + 1))
    }

    ghost function NodeAt(k: nat): Task?
      reads this
    {
      if k < |tasks| then tasks[k] else null
    }

    ghost function Entries(): (ts: seq<Entry>)
      reads this, tasks
      ensures |ts| == |tasks| && forall i | 0 <= i < |tasks| :: ts[i] == Entry(tasks[i].state, tasks[i].priority)
    {
      seq(|tasks|, i requires 0 <= i < |tasks| reads this, tasks => Entry(tasks[i].state, tasks[i].priority))
    }

    ghost function View(): (s: Sys)
      requires cur < |tasks|
      reads this, tasks
      ensures WellFormed(s)
    {
      Sys(Entries(), cur)
    }

    constructor (task0: Task)
      requires task0.next == null
      ensures Valid() && tasks == [task0] && cur == 0 && this.task0 == task0
    {
      this.task0, current := task0, task0;
      tasks, cur := [task0], 0;
    }

    /** new_task, as far as the list goes: the task joins right behind the
        current one, runnable, with the initial priority. */
    method NewTask(task: Task)
      requires Valid() && task !in tasks
      modifies task, current`next, this`tasks
      ensures Valid() && current == old(current) && cur == old(cur)
      ensures tasks == old(tasks)[..cur + 1] + [task] + old(tasks)[cur + 1..]
      ensures task.state == RUNABLE && task.priority == INITIAL_PRIO
      ensures forall t | t in old(tasks) :: t.state == old(t.state) && t.priority == old(t.priority)
    {
      task.priority := INITIAL_PRIO;
      task.state := STOPPED;
      task.next := current.next;
      current.next := task;
      task.state := RUNABLE;
      ghost var before := tasks;
      tasks := tasks[..cur + 1] + [task] + tasks[cur + 1..];
      forall i | 0 <= i < |tasks|
        ensures tasks[i].next == NodeAt(i + 1)
      {
        if i > cur + 1 {
          assert tasks[i] == before[i - 1] && old(before[i - 1].next) == old(NodeAt(i));
        } else if i < cur {
          assert tasks[i] == before[i] && old(before[i].next) == old(NodeAt(i + 1));
        }
      }
    }

    /** The loop of scheduler() (lines 95-102): the candidate to run instead of
        `current`, found by following the list. */
    method Pick() returns (tmp: Task?, ghost best: int)
      requires Valid()
      ensures var b := Scan(Entries(), 0, current.priority, -1);
        best == b && -1 <= b < |tasks| && tmp == if b == -1 then null else tasks[b]
    {
      var v: Task? := task0;
      tmp := null;
      best := -1;
      var cp := current.priority;
      ghost var k := 0;
      while v != null
        invariant 0 <= k <= |tasks| && v == NodeAt(k)
        invariant -1 <= best < |tasks| && tmp == if best == -1 then null else tasks[best]
        invariant Scan(Entries(), k, cp, best) == Scan(Entries(), 0, current.priority, -1)
        decreases |tasks| - k
      {
        assert v == tasks[k];
        if v.state == RUNABLE && cp >= v.priority {
          tmp := v;
          cp := v.priority;
          best := k;
        }
        v := v.next;
        k := k + 1;
      }
    }

    /** Lines 108-110 of scheduler(): hand the processor over. */
    method SwitchTo(tmp: Task, ghost best: nat)
      requires Valid() && best < |tasks| && tmp == tasks[best] && tmp != current
      modifies this`current, this`cur, tasks`state
      ensures Valid() && cur == best
      ensures Entries() == WithState(WithState(old(Entries()), old(cur), RUNABLE), best, RUNNING)
    {
      ghost var before, from := Entries(), cur;
      current.state := RUNABLE;
      tmp.state := RUNNING;
      current := tmp;
      cur := best;
      assert Entries() == WithState(WithState(before, from, RUNABLE), best, RUNNING);
    }

    /** scheduler(). */
    method Dispatch()
      requires Valid()
      modifies this`current, this`cur, tasks`state
      ensures Valid() && View() == Schedule(old(View()))
    {
      ghost var s := View();
      assert s.tasks[cur] == Entry(current.state, current.priority);
      ghost var c := if s.tasks[s.cur].state == SLEEP then 0 else s.cur;
      if current.state == SLEEP {
        current := task0;
        cur := 0;
      }
      assert Entries() == s.tasks;
      assert Entries()[cur] == Entry(current.state, current.priority);
      var tmp, best := Pick();
      assert Entries() == s.tasks && current.priority == s.tasks[c].priority;
      assert cur == c && best == Scan(s.tasks, 0, s.tasks[c].priority, -1);
      assert tmp != null && tmp != current <==> best != -1 && best != cur;
      if tmp != null && tmp != current {
        SwitchTo(tmp, best);
      }
    }

    /** do_timer(): age every task, then schedule. */
    method DoTimer()
      requires Valid()
      modifies this`current, this`cur, tasks`state, tasks`priority
      ensures Valid() && View() == Tick(old(View()))
    {
      ghost var s := View();
      Age();
      assert Entries() == AgedAll(s.tasks);
      Dispatch();
    }

    /** The loop of do_timer (lines 21-30). */
    method Age()
      requires Valid()
      modifies tasks`priority
      ensures forall i | 0 <= i < |tasks| :: Entries()[i] == Aged(old(Entries())[i])
    {
      var v: Task? := task0;
      ghost var k := 0;
      while v != null
        invariant 0 <= k <= |tasks| && v == NodeAt(k)
        invariant forall i | 0 <= i < |tasks| ::
          tasks[i].priority == (if i < k then Aged(old(Entries())[i]) else old(Entries())[i]).priority
        decreases |tasks| - k
      {
        assert v == tasks[k] && old(Entries())[k] == Entry(v.state, v.priority);
        if v.state == RUNNING {
          v.priority := v.priority + 30;
          if v.priority <= 0 {
            v.priority := -1;
          }
        }
        if v.state == SLEEP {
        } else {
          v.priority := v.priority - 10;
        }
        v := v.next;
        k := k + 1;
      }
    }
  }
}
