/** Counting semaphores over task states and a ring of waiting tasks. */
module Semaphore {
  import opened Tasks
  import opened Words
  import opened Scheduler
  import opened Arith
  import opened Bits
  import R = RingQueue

  const INT_MAX: int := 0x7fff_ffff

  // A count that leaves int32_t at the top comes back in at the bottom.
  function Increment(count: int): int {
    if count == INT_MAX then -INT_MAX - 1 else count + 1
  }

  /**
    A semaphore: its counter, the waiting tasks as positions in the task list, longest waiting
    first, and how many of them its ring has room for.
   */
  datatype Sem = Sem(count: int, waiters: seq<nat>, room: nat)

  datatype Outcome = Outcome(tasks: seq<Tcb>, sem: Sem, panic: bool)

  function SetState(ts: seq<Tcb>, i: nat, state: State): (r: seq<Tcb>)
    requires i < |ts|
    ensures |r| == |ts|
  {
    ts[i := ts[i].(state := state)]
  }

  // ucx_sem_wait up to its yield
  function SemWait(ts: seq<Tcb>, cur: nat, s: Sem): Outcome
    requires cur < |ts|
  {
    var t := s.(count := s.count - 1);
    if t.count >= 0 then Outcome(ts, t, false)
    else if |s.waiters| >= s.room then Outcome(ts, t, true)
    else Outcome(SetState(ts, cur, Blocked), t.(waiters := s.waiters + [cur]), false)
  }

  // ucx_sem_trywait: the semaphore, and whether the task got through
  function SemTryWait(s: Sem): (Sem, bool) {
    if s.count <= 0 then (s, false) else (s.(count := s.count - 1), true)
  }

  predicate Listed(ts: seq<Tcb>, waiters: seq<nat>) {
    forall i | 0 <= i < |waiters| :: waiters[i] < |ts|
  }

  // ucx_sem_signal
  function SemSignal(ts: seq<Tcb>, s: Sem): Outcome
    requires Listed(ts, s.waiters)
  {
    var t := s.(count := Increment(s.count));
    if t.count > 0 then Outcome(ts, t, false)
    else if s.waiters == [] then Outcome(ts, t, true)
    else Outcome(SetState(ts, s.waiters[0], Ready), t.(waiters := s.waiters[1..]), false)
  }

  class Semaphore {
    const queue: R.RingQueue<nat>
    var count: int

    ghost predicate Valid()
      reads this, queue
    {
      queue.Valid()
    }

    ghost function Abstract(): Sem
      reads this, queue, queue.pdata
      requires Valid()
    {
      Sem(count, queue.Contents(), queue.size - 1)
    }

    // ucx_sem_create, with memory for it
    static method Create(maxTasks: u16, value: int) returns (s: Semaphore?)
      requires value <= INT_MAX
      ensures s == null <==> value < 0
      ensures s != null ==> s.Valid() && fresh(s) && fresh(s.queue) && fresh(s.queue.pdata)
                            && s.Abstract() == Sem(value, [], s.queue.size - 1)
                            && R.IsRingSize(s.queue.size, maxTasks)
    {
      if value < 0 {
        return null;
      }
      s := new Semaphore(maxTasks, value);
    }

    constructor (maxTasks: u16, value: int)
      requires 0 <= value <= INT_MAX
      ensures Valid() && Abstract() == Sem(value, [], queue.size - 1) && R.IsRingSize(queue.size, maxTasks)
      ensures fresh(queue) && fresh(queue.pdata)
    {
      queue := new R.RingQueue(maxTasks);
      count := value;
    }

    method Wait(kcb: Kernel) returns (panic: bool)
      requires Valid() && kcb.current < |kcb.tasks|
      modifies this, queue, queue.pdata, kcb`tasks
      ensures Valid() && Outcome(kcb.tasks, Abstract(), panic) == SemWait(old(kcb.tasks), kcb.current, old(Abstract()))
    {
      count := count - 1;
      if count < 0 {
        var qs := queue.Enqueue(kcb.current);
        if qs != 0 {
          return true;
        }
        kcb.tasks := SetState(kcb.tasks, kcb.current, Blocked);
      }
      return false;
    }

    method TryWait() returns (val: int)
      requires Valid()
      modifies this
      ensures Valid() && (Abstract(), val == 0) == SemTryWait(old(Abstract())) && val in {0, -1}
    {
      val := 0;
      if count <= 0 {
        val := -1;
      } else {
        count := count - 1;
      }
    }

    method Signal(kcb: Kernel) returns (panic: bool)
      requires Valid() && Listed(kcb.tasks, queue.Contents())
      modifies this, queue, kcb`tasks
      ensures Valid() && Outcome(kcb.tasks, Abstract(), panic) == SemSignal(old(kcb.tasks), old(Abstract()))
    {
      count := Increment(count);
      if count <= 0 {
        var tcb := queue.Dequeue();
        if tcb == None {
          return true;
        }
        kcb.tasks := SetState(kcb.tasks, tcb.value, Ready);
      }
      return false;
    }
  }

  // ---------- the system: tasks and any number of semaphores ----------

  datatype Sys = Sys(tasks: seq<Tcb>, current: nat, sems: seq<Sem>)

  // Calls by the running task on semaphore i, its other calls, the timer, and the scheduler. Each
  // runs in a critical section, so each is one step.
  datatype Event =
    | Wait(i: nat) | TryWait(i: nat) | Signal(i: nat)
    | Delay(ticks: u16) | Suspend(id: u16) | Resume(id: u16) | Priority(id: u16, priority: u16)
    | TimerTick | Reschedule

  // The current task is on the processor: it is running or, before the first dispatch, still ready.
  predicate Executing(s: Sys) {
    s.current < |s.tasks| && (s.tasks[s.current].state == State.Running || s.tasks[s.current].state == Ready)
  }

  // A task that waits on a semaphore: blocked, and no tick wakes it.
  predicate Parked(ts: seq<Tcb>, w: nat) {
    w < |ts| && ts[w].state == Blocked && ts[w].delay == 0
  }

  ghost predicate SemOk(ts: seq<Tcb>, s: Sem) {
    && s.count <= INT_MAX && |s.waiters| <= s.room
    && |s.waiters| == (if s.count < 0 then -s.count else 0)
    && (forall j | 0 <= j < |s.waiters| :: Parked(ts, s.waiters[j]))
    && (forall j, k | 0 <= j < k < |s.waiters| :: s.waiters[j] != s.waiters[k])
  }

  ghost predicate Apart(s: Sem, t: Sem) {
    forall j, k | 0 <= j < |s.waiters| && 0 <= k < |t.waiters| :: s.waiters[j] != t.waiters[k]
  }

  // Only blocked tasks have a delay to run down.
  ghost predicate DelaysOk(ts: seq<Tcb>) {
    forall i | 0 <= i < |ts| && ts[i].delay > 0 :: ts[i].state == Blocked
  }

  /**
    The invariant: a negative count is minus the number of waiters, who are distinct, blocked, and on
    one queue only; a count of zero or more means that nobody waits.
   */
  ghost predicate Inv(s: Sys) {
    && s.current < |s.tasks| && DelaysOk(s.tasks) && OthersWait(s.tasks, s.current)
    && (forall i | 0 <= i < |s.sems| :: SemOk(s.tasks, s.sems[i]))
    && (forall i, j | 0 <= i < j < |s.sems| :: Apart(s.sems[i], s.sems[j]))
  }

  // Before the first call: created semaphores, and nobody waits on them.
  ghost predicate Initial(s: Sys) {
    && s.current < |s.tasks| && DelaysOk(s.tasks) && OthersWait(s.tasks, s.current)
    && forall i | 0 <= i < |s.sems| :: 0 <= s.sems[i].count <= INT_MAX && s.sems[i].waiters == []
  }

  lemma InitialInv(s: Sys)
    requires Initial(s)
    ensures Inv(s)
  {
  }

  ghost predicate Enabled(s: Sys, e: Event) {
    match e
    case Wait(i) => Executing(s) && i < |s.sems|
    case TryWait(i) => Executing(s) && i < |s.sems|
    case Signal(i) => Executing(s) && i < |s.sems| && Listed(s.tasks, s.sems[i].waiters)
    case TimerTick => true
    case Reschedule => s.current < |s.tasks| && CanPick(Demote(s.tasks, s.current))
    case _ => Executing(s)
  }

  ghost predicate Panics(s: Sys, e: Event)
    requires Enabled(s, e)
  {
    match e
    case Wait(i) => SemWait(s.tasks, s.current, s.sems[i]).panic
    case Signal(i) => SemSignal(s.tasks, s.sems[i]).panic
    case _ => false
  }

  // s' is the state that event e leaves behind.
  ghost predicate Step(s: Sys, e: Event, s': Sys)
    requires Enabled(s, e)
  {
    match e
    case Wait(i) =>
      var o := SemWait(s.tasks, s.current, s.sems[i]);
      s' == Sys(o.tasks, s.current, s.sems[i := o.sem])
    case TryWait(i) => s' == s.(sems := s.sems[i := SemTryWait(s.sems[i]).0])
    case Signal(i) =>
      var o := SemSignal(s.tasks, s.sems[i]);
      s' == Sys(o.tasks, s.current, s.sems[i := o.sem])
    case Delay(ticks) => s' == s.(tasks := DelayCurrent(s.tasks, s.current, ticks))
    case Suspend(id) => s' == s.(tasks := SuspendTask(s.tasks, id).0)
    case Resume(id) => s' == s.(tasks := ResumeTask(s.tasks, id).0)
    case Priority(id, priority) => s' == s.(tasks := PrioritizeTask(s.tasks, id, priority).0)
    case TimerTick => s' == s.(tasks := AllTicked(s.tasks))
    case Reschedule =>
      var d := Demote(s.tasks, s.current);
      IsPick(d, s'.current) && s' == Sys(Dispatched(d, s'.current), s'.current, s.sems)
  }

  // Events of the task list alone leave waiting tasks parked.
  lemma TaskEventKeepsParked(s: Sys, e: Event, s': Sys)
    requires Inv(s) && Enabled(s, e) && Step(s, e, s') && !e.Wait? && !e.TryWait? && !e.Signal?
    ensures |s'.tasks| == |s.tasks| && s'.sems == s.sems && s'.current < |s'.tasks| && DelaysOk(s'.tasks)
    ensures forall w | Parked(s.tasks, w) :: Parked(s'.tasks, w)
  {
  }

  // Semaphores whose waiters stay parked stay as they are.
  lemma ParkedKeepsSems(ts: seq<Tcb>, ts': seq<Tcb>, s: Sem)
    requires SemOk(ts, s) && forall j | 0 <= j < |s.waiters| :: Parked(ts', s.waiters[j])
    ensures SemOk(ts', s)
  {
  }

  // A wait that blocks: the running task joins queue i.
  lemma WaitKeepsSem(ts: seq<Tcb>, cur: nat, s: Sem)
    requires SemOk(ts, s) && cur < |ts| && ts[cur].state != Blocked && ts[cur].delay == 0
    requires !SemWait(ts, cur, s).panic
    ensures SemOk(SemWait(ts, cur, s).tasks, SemWait(ts, cur, s).sem)
  {
  }

  lemma SignalKeepsSem(ts: seq<Tcb>, s: Sem)
    requires SemOk(ts, s) && Listed(ts, s.waiters) && !SemSignal(ts, s).panic
    ensures SemOk(SemSignal(ts, s).tasks, SemSignal(ts, s).sem)
  {
    var o := SemSignal(ts, s);
    if s.waiters != [] {
      forall j | 0 <= j < |o.sem.waiters| ensures Parked(o.tasks, o.sem.waiters[j]) {
        assert o.sem.waiters[j] == s.waiters[j + 1] && Parked(ts, s.waiters[j + 1]);
      }
    }
  }

  // A step on semaphore i leaves the others alone.
  lemma WaitKeepsOthers(ts: seq<Tcb>, cur: nat, s: Sem, t: Sem)
    requires SemOk(ts, t) && Apart(s, t) && cur < |ts| && ts[cur].state != Blocked
    ensures var o := SemWait(ts, cur, s); SemOk(o.tasks, t) && Apart(o.sem, t) && Apart(t, o.sem)
  {
  }

  lemma SignalKeepsOthers(ts: seq<Tcb>, s: Sem, t: Sem)
    requires SemOk(ts, t) && Apart(s, t) && Listed(ts, s.waiters)
    ensures var o := SemSignal(ts, s); SemOk(o.tasks, t) && Apart(o.sem, t) && Apart(t, o.sem)
  {
  }

  lemma ApartSymmetric(s: Sem, t: Sem)
    requires Apart(s, t)
    ensures Apart(t, s)
  {
  }

  lemma WaitKeepsInv(s: Sys, i: nat, s': Sys)
    requires Inv(s) && Enabled(s, Wait(i)) && !Panics(s, Wait(i)) && Step(s, Wait(i), s')
    ensures Inv(s')
  {
    WaitKeepsSem(s.tasks, s.current, s.sems[i]);
    forall j | 0 <= j < |s.sems| && j != i
      ensures SemOk(s'.tasks, s'.sems[j]) && Apart(s'.sems[i], s'.sems[j]) && Apart(s'.sems[j], s'.sems[i])
    {
      if j < i { ApartSymmetric(s.sems[j], s.sems[i]); }
      WaitKeepsOthers(s.tasks, s.current, s.sems[i], s.sems[j]);
    }
  }

  lemma SignalKeepsInv(s: Sys, i: nat, s': Sys)
    requires Inv(s) && Enabled(s, Signal(i)) && !Panics(s, Signal(i)) && Step(s, Signal(i), s')
    ensures Inv(s')
  {
    SignalKeepsSem(s.tasks, s.sems[i]);
    forall j | 0 <= j < |s.sems| && j != i
      ensures SemOk(s'.tasks, s'.sems[j]) && Apart(s'.sems[i], s'.sems[j]) && Apart(s'.sems[j], s'.sems[i])
    {
      if j < i { ApartSymmetric(s.sems[j], s.sems[i]); }
      SignalKeepsOthers(s.tasks, s.sems[i], s.sems[j]);
    }
    assert DelaysOk(s'.tasks) by {
      var o := SemSignal(s.tasks, s.sems[i]);
      if s.sems[i].count < 0 { assert Parked(s.tasks, s.sems[i].waiters[0]); }
    }
  }

  lemma TaskEventKeepsInv(s: Sys, e: Event, s': Sys)
    requires Inv(s) && Enabled(s, e) && Step(s, e, s') && !e.Wait? && !e.TryWait? && !e.Signal?
    ensures Inv(s')
  {
    TaskEventKeepsParked(s, e, s');
    forall i | 0 <= i < |s.sems| ensures SemOk(s'.tasks, s'.sems[i]) {
      ParkedKeepsSems(s.tasks, s'.tasks, s.sems[i]);
    }
  }

  // Every step that does not panic keeps the invariant.
  lemma StepKeepsInv(s: Sys, e: Event, s': Sys)
    requires Inv(s) && Enabled(s, e) && !Panics(s, e) && Step(s, e, s')
    ensures Inv(s')
  {
    match e
    case Wait(i) => WaitKeepsInv(s, i, s');
    case Signal(i) => SignalKeepsInv(s, i, s');
    case TryWait(i) =>
    case _ => TaskEventKeepsInv(s, e, s');
  }

  // The panics in exact terms: a wait panics when it would block and the ring is full, a signal when
  // the count leaves int32_t; no other event does.
  lemma PanicsIff(s: Sys, e: Event)
    requires Inv(s) && Enabled(s, e)
    ensures Panics(s, e) <==>
            match e
            case Wait(i) => s.sems[i].count <= 0 && |s.sems[i].waiters| == s.sems[i].room
            case Signal(i) => s.sems[i].count == INT_MAX
            case _ => false
  {
    match e
    case Wait(i) => assert SemOk(s.tasks, s.sems[i]);
    case Signal(i) => assert SemOk(s.tasks, s.sems[i]);
    case _ =>
  }

  // Under the invariant the running task can always signal.
  lemma SignalEnabled(s: Sys, i: nat)
    requires Inv(s) && Executing(s) && i < |s.sems|
    ensures Enabled(s, Signal(i))
  {
    assert SemOk(s.tasks, s.sems[i]);
    forall j | 0 <= j < |s.sems[i].waiters| ensures s.sems[i].waiters[j] < |s.tasks| {
      assert Parked(s.tasks, s.sems[i].waiters[j]);
    }
  }

  // ---------- runs ----------

  // states[n] is what the first n events lead to; no event of the run panics.
  ghost predicate IsRun(events: seq<Event>, states: seq<Sys>) {
    && |states| == |events| + 1
    && forall n | 0 <= n < |events| :: Follows(states[n], events[n], states[n + 1])
  }

  ghost predicate Follows(s: Sys, e: Event, s': Sys) {
    Enabled(s, e) && !Panics(s, e) && Step(s, e, s')
  }

  lemma RunFollows(events: seq<Event>, states: seq<Sys>, n: nat)
    requires IsRun(events, states) && 0 < n <= |events|
    ensures Follows(states[n - 1], events[n - 1], states[n])
  {
    assert Follows(states[n - 1], events[n - 1], states[n - 1 + 1]);
  }

  lemma SemOkAt(s: Sys, i: nat)
    requires Inv(s) && i < |s.sems|
    ensures SemOk(s.tasks, s.sems[i])
  {
  }

  // No event adds or takes away tasks, semaphores or room.
  ghost predicate SameShape(s: Sys, t: Sys) {
    && |t.tasks| == |s.tasks| && |t.sems| == |s.sems|
    && forall i | 0 <= i < |s.sems| :: t.sems[i].room == s.sems[i].room
  }

  lemma StepKeepsShape(s: Sys, e: Event, s': Sys)
    requires Inv(s) && Follows(s, e, s')
    ensures SameShape(s, s')
  {
  }

  // The invariant holds in every state of every run from a state that satisfies it...
  lemma {:induction false} InvAlways(events: seq<Event>, states: seq<Sys>, n: nat)
    requires IsRun(events, states) && Inv(states[0]) && n <= |events|
    ensures Inv(states[n]) && SameShape(states[0], states[n])
    decreases n
  {
    if n > 0 {
      InvAlways(events, states, n - 1);
      RunFollows(events, states, n);
      StepKeepsInv(states[n - 1], events[n - 1], states[n]);
      StepKeepsShape(states[n - 1], events[n - 1], states[n]);
    }
  }

  // ...so in every reachable state.
  lemma ReachableInv(events: seq<Event>, states: seq<Sys>, n: nat)
    requires IsRun(events, states) && Initial(states[0]) && n <= |events|
    ensures Inv(states[n]) && SameShape(states[0], states[n])
  {
    InitialInv(states[0]);
    InvAlways(events, states, n);
  }

  // What happens is determined by the events: two runs with the same ones from the same state are one.
  lemma {:induction false} RunDetermined(events: seq<Event>, states: seq<Sys>, others: seq<Sys>, n: nat)
    requires IsRun(events, states) && IsRun(events, others) && states[0] == others[0] && n <= |events|
    ensures states[n] == others[n]
    decreases n
  {
    hide Follows;
    if n > 0 {
      RunDetermined(events, states, others, n - 1);
      RunFollows(events, states, n);
      RunFollows(events, others, n);
      StepDetermined(states[n - 1], events[n - 1], states[n], others[n]);
    }
  }

  lemma StepDetermined(s: Sys, e: Event, t: Sys, u: Sys)
    requires Follows(s, e, t) && Follows(s, e, u)
    ensures t == u
  {
    if e == Reschedule { PickUnique(Demote(s.tasks, s.current), t.current, u.current); }
  }

  // ---------- room for everybody ----------

  // Distinct numbers below n are at most n.
  lemma {:induction false} Pigeonhole(q: seq<nat>, n: nat)
    requires forall j | 0 <= j < |q| :: q[j] < n
    requires forall j, k | 0 <= j < k < |q| :: q[j] != q[k]
    ensures |q| <= n
    decreases n
  {
    if q != [] {
      assert q[0] < n;
      if k: nat :| k < |q| && q[k] == n - 1 {
        Pigeonhole(q[..k] + q[k + 1..], n - 1);
      } else {
        Pigeonhole(q, n - 1);
      }
    }
  }

  // With a ring that has room for as many tasks as there are, a wait never panics.
  lemma RoomForTasks(s: Sys, i: nat)
    requires Inv(s) && Enabled(s, Wait(i)) && |s.tasks| <= s.sems[i].room
    ensures !Panics(s, Wait(i))
  {
    SemOkAt(s, i);
    var q := s.sems[i].waiters;
    forall j | 0 <= j < |q| ensures q[j] < |s.tasks| && q[j] != s.current {
      assert Parked(s.tasks, q[j]);
    }
    Pigeonhole(q + [s.current], |s.tasks|);
  }

  // ---------- too many tasks ----------

  // j tasks wait, task n - j (task 0 for none) is on the processor, and tasks 1 to n - 1 - j are ready with
  // one countdown, not above that of task 0.
  ghost predicate Stage(s: Sys, n: nat, room: nat, j: nat, low: nat) {
    && j < n == |s.tasks| && Sound(s.tasks) && Executing(s) && s.current == (if j == 0 then 0 else n - j)
    && |s.sems| == 1 && s.sems[0].count == 0 - j && |s.sems[0].waiters| == j && s.sems[0].room == room
    && low <= Low(s.tasks[0].priority)
    && (forall i | 1 <= i < n - j :: Eligible(s.tasks[i]) && Low(s.tasks[i].priority) == low)
    && (forall i | 0 <= i < n && !(1 <= i < n - j) && i != s.current :: !Eligible(s.tasks[i]))
  }

  // The running task waits...
  function Waited(s: Sys): Sys
    requires s.current < |s.tasks| && |s.sems| == 1
  {
    var o := SemWait(s.tasks, s.current, s.sems[0]);
    Sys(o.tasks, s.current, [o.sem])
  }

  // ...and the last of the ready ones is dispatched.
  function Switched(s: Sys, k: nat): Sys
    requires k < |s.tasks|
  {
    Sys(Dispatched(s.tasks, k), k, s.sems)
  }

  lemma StageWaits(s: Sys, n: nat, room: nat, j: nat, low: nat)
    requires Stage(s, n, room, j, low) && j < room && j + 1 < n
    ensures Follows(s, Wait(0), Waited(s))
    ensures var (t, k) := (Waited(s), n - 1 - j);
            && t.tasks == SetState(s.tasks, s.current, Blocked) && t.current == s.current
            && t.sems == [Sem(0 - j - 1, s.sems[0].waiters + [s.current], room)]
            && Demote(t.tasks, t.current) == t.tasks && IsPick(t.tasks, k) && CanPick(t.tasks) && Sound(t.tasks)
  {
    var (t, k) := (Waited(s), n - 1 - j);
    assert s.sems == [s.sems[0]] && s.sems[0 := t.sems[0]] == t.sems;
    forall i | 0 <= i < n && Eligible(t.tasks[i]) ensures 1 <= i <= k && Low(t.tasks[i].priority) == low {
    }
    assert Eligible(t.tasks[k]);
    forall i | 0 <= i < n ensures SoundPriority(t.tasks[i].priority) {
      assert SoundPriority(s.tasks[i].priority);
    }
  }

  lemma StageStep(s: Sys, n: nat, room: nat, j: nat, low: nat)
    requires Stage(s, n, room, j, low) && j < room && j + 1 < n
    ensures var t := Waited(s); var u := Switched(t, n - 1 - j);
            Follows(s, Wait(0), t) && Follows(t, Reschedule, u) && Stage(u, n, room, j + 1, 0)
  {
    hide IsPick, CanPick, SemWait, Waited, Low, High;
    var (t, k) := (Waited(s), n - 1 - j);
    StageWaits(s, n, room, j, low);
    var u := Switched(t, k);
    assert Follows(t, Reschedule, u);
    DispatchedSound(t.tasks, k);
    forall i | 0 <= i < n
      ensures u.tasks[i].state == (if i == k then State.Running else t.tasks[i].state) && u.tasks[i].rt == t.tasks[i].rt
      ensures 1 <= i < k ==> Low(u.tasks[i].priority) == 0
    {
      DispatchedAt(t.tasks, k, i);
    }
  }

  lemma TwoMore(s: Sys, e: Event, t: Sys, f: Event, events: seq<Event>, states: seq<Sys>)
    requires IsRun(events, states) && Follows(s, e, t) && Follows(t, f, states[0])
    ensures IsRun([e, f] + events, [s, t] + states)
  {
    hide Follows;
    var es, ss := [e, f] + events, [s, t] + states;
    forall n | 0 <= n < |es| ensures Follows(ss[n], es[n], ss[n + 1]) {
      if n >= 2 { assert Follows(states[n - 2], events[n - 2], states[n - 2 + 1]); }
    }
  }

  lemma {:induction false} StagePanics(s: Sys, n: nat, room: nat, j: nat, low: nat)
    returns (events: seq<Event>, states: seq<Sys>)
    requires Stage(s, n, room, j, low) && j <= room < n
    ensures IsRun(events, states) && states[0] == s
    ensures |states[|events|].sems| == 1
    ensures Enabled(states[|events|], Wait(0)) && Panics(states[|events|], Wait(0))
    decreases room - j
  {
    if j == room {
      events, states := [], [s];
    } else {
      StageStep(s, n, room, j, low);
      var t := Waited(s);
      var more, rest := StagePanics(Switched(t, n - 1 - j), n, room, j + 1, 0);
      TwoMore(s, Wait(0), t, Reschedule, more, rest);
      events, states := [Wait(0), Reschedule] + more, [s, t] + rest;
    }
  }

  // The system as it starts, with n spawned tasks and one semaphore created with count 0
  function Booted(n: nat, room: nat): Sys {
    Sys(seq(n, i requires 0 <= i < n => Tcb(i % 0x1_0000, Ready, 0, 0x1f1f, false)), 0, [Sem(0, [], room)])
  }

  // Some run of n tasks leads to a wait that panics, on a semaphore with this room.
  ghost predicate WaitCanPanic(n: nat, room: nat) {
    exists events: seq<Event>, states: seq<Sys>, k: nat, i: nat ::
      && IsRun(events, states) && Initial(states[0]) && |states[0].tasks| == n && k <= |events|
      && i < |states[0].sems| && states[0].sems[i].room == room
      && Enabled(states[k], Wait(i)) && Panics(states[k], Wait(i))
  }

  /**
    The room a semaphore needs, exactly: some run leads to a wait that panics if and only if there are more
    tasks than room.
   */
  lemma WaitCanPanicIff(n: nat, room: nat)
    requires 0 < n && 0 < room
    ensures WaitCanPanic(n, room) <==> room < n
  {
    if room < n {
      BootedStage(n, room);
      var events, states := StagePanics(Booted(n, room), n, room, 0, 0x1f);
      assert Initial(states[0]);
      assert Enabled(states[|events|], Wait(0)) && Panics(states[|events|], Wait(0));
    } else if WaitCanPanic(n, room) {
      var events: seq<Event>, states: seq<Sys>, k: nat, i: nat :|
        && IsRun(events, states) && Initial(states[0]) && |states[0].tasks| == n && k <= |events|
        && i < |states[0].sems| && states[0].sems[i].room == room
        && Enabled(states[k], Wait(i)) && Panics(states[k], Wait(i));
      ReachableInv(events, states, k);
      RoomForTasks(states[k], i);
    }
  }

  lemma BootedStage(n: nat, room: nat)
    requires 0 < n
    ensures Initial(Booted(n, room)) && Stage(Booted(n, room), n, room, 0, 0x1f)
  {
  }

  /**
    In terms of what the creator asks for: with at most as many tasks as that, a wait can panic exactly when
    there are just as many and their number is a power of two above one.
   */
  lemma CreatedForIff(n: nat, maxTasks: nat, size: nat)
    requires 0 < n <= maxTasks && R.IsRingSize(size, maxTasks)
    ensures WaitCanPanic(n, size - 1) <==> n == maxTasks && 2 <= n && IsPow2(n)
  {
    WaitCanPanicIff(n, size - 1);
    R.RoomForAll(size, maxTasks);
  }

  // ---------- the queue ----------

  // What one event does to queue i: who joins it, and who is woken from it
  function Joins(s: Sys, e: Event, i: nat): seq<nat>
  {
    if e == Wait(i) && i < |s.sems| && s.sems[i].count <= 0 then [s.current] else []
  }

  function Wakes(s: Sys, e: Event, i: nat): seq<nat>
  {
    if e == Signal(i) && i < |s.sems| && s.sems[i].waiters != [] then s.sems[i].waiters[..1] else []
  }

  // Everybody who joined queue i in the first n events, and everybody woken from it, in order
  ghost function Joined(events: seq<Event>, states: seq<Sys>, i: nat, n: nat): seq<nat>
    requires n <= |events| < |states|
  {
    if n == 0 then [] else Joined(events, states, i, n - 1) + Joins(states[n - 1], events[n - 1], i)
  }

  ghost function Woken(events: seq<Event>, states: seq<Sys>, i: nat, n: nat): seq<nat>
    requires n <= |events| < |states|
  {
    if n == 0 then [] else Woken(events, states, i, n - 1) + Wakes(states[n - 1], events[n - 1], i)
  }

  // The counter after one event
  function Counted(s: Sys, e: Event, i: nat): int
    requires i < |s.sems|
  {
    var count := s.sems[i].count;
    if e == Wait(i) || (e == TryWait(i) && count > 0) then count - 1
    else if e == Signal(i) then count + 1 else count
  }

  lemma QueueStep(s: Sys, e: Event, s': Sys, i: nat)
    requires Inv(s) && Follows(s, e, s') && i < |s.sems|
    ensures |s'.sems| == |s.sems|
    ensures s.sems[i].waiters + Joins(s, e, i) == Wakes(s, e, i) + s'.sems[i].waiters
    ensures s'.sems[i].room == s.sems[i].room && s'.sems[i].count == Counted(s, e, i)
  {
    match e
    case Wait(j) => WaitQueue(s, j, s', i);
    case Signal(j) => SignalQueue(s, j, s', i);
    case TryWait(_) =>
    case _ => TaskEventKeepsParked(s, e, s');
  }

  lemma WaitQueue(s: Sys, j: nat, s': Sys, i: nat)
    requires Follows(s, Wait(j), s') && i < |s.sems|
    ensures |s'.sems| == |s.sems| && s'.sems[i].waiters == s.sems[i].waiters + Joins(s, Wait(j), i)
    ensures s'.sems[i].room == s.sems[i].room && s'.sems[i].count == Counted(s, Wait(j), i)
  {
  }

  lemma SignalQueue(s: Sys, j: nat, s': Sys, i: nat)
    requires Inv(s) && Follows(s, Signal(j), s') && i < |s.sems|
    ensures |s'.sems| == |s.sems| && s.sems[i].waiters == Wakes(s, Signal(j), i) + s'.sems[i].waiters
    ensures s'.sems[i].room == s.sems[i].room && s'.sems[i].count == Counted(s, Signal(j), i)
  {
    PanicsIff(s, Signal(j));
    SemOkAt(s, j);
  }

  /**
    Tasks are woken in the order they came: whoever was waiting at the start and whoever joined since
    is, in this order, whoever has been woken and whoever is still waiting.
   */
  lemma {:induction false} FirstInFirstOut(events: seq<Event>, states: seq<Sys>, i: nat, n: nat)
    requires IsRun(events, states) && Inv(states[0]) && n <= |events|
    requires i < |states[0].sems|
    ensures i < |states[n].sems|
    ensures states[0].sems[i].waiters + Joined(events, states, i, n)
            == Woken(events, states, i, n) + states[n].sems[i].waiters
    decreases n
  {
    hide Inv, Follows;
    InvAlways(events, states, n);
    if n > 0 {
      FirstInFirstOut(events, states, i, n - 1);
      InvAlways(events, states, n - 1);
      RunFollows(events, states, n);
      QueueStep(states[n - 1], events[n - 1], states[n], i);
      Regroup(states[0].sems[i].waiters, Joined(events, states, i, n - 1), Joins(states[n - 1], events[n - 1], i),
              Woken(events, states, i, n - 1), states[n - 1].sems[i].waiters,
              Wakes(states[n - 1], events[n - 1], i), states[n].sems[i].waiters);
    }
  }

  lemma Regroup(a: seq<nat>, j: seq<nat>, dj: seq<nat>, w: seq<nat>, q: seq<nat>, dw: seq<nat>, q': seq<nat>)
    requires a + j == w + q && q + dj == dw + q'
    ensures a + (j + dj) == w + dw + q'
  {
    assert a + (j + dj) == (a + j) + dj == w + (q + dj);
    assert w + (dw + q') == w + dw + q';
  }

  // ---------- who is blocked and who is woken ----------

  // The other semaphores are left alone.
  ghost predicate OtherSemsStay(s: Sys, s': Sys, i: nat) {
    |s'.sems| == |s.sems| && forall j | 0 <= j < |s.sems| && j != i :: s'.sems[j] == s.sems[j]
  }

  // All tasks but c are left alone.
  ghost predicate OtherTasksStay(s: Sys, s': Sys, c: nat) {
    |s'.tasks| == |s.tasks| && forall j | 0 <= j < |s.tasks| && j != c :: s'.tasks[j] == s.tasks[j]
  }

  // A signal makes the longest waiter ready, and no other task is touched; with nobody waiting, none is.
  lemma SignalWakes(s: Sys, i: nat, s': Sys)
    requires Inv(s) && Follows(s, Signal(i), s')
    ensures i < |s.sems| && OtherSemsStay(s, s', i) && s'.current == s.current
    ensures var q := s.sems[i].waiters;
            if q == [] then s'.tasks == s.tasks
            else q[0] < |s.tasks| && OtherTasksStay(s, s', q[0])
                 && s'.tasks[q[0]] == s.tasks[q[0]].(state := Ready)
  {
    PanicsIff(s, Signal(i));
    SemOkAt(s, i);
  }

  // A wait on a count of zero or less blocks the caller, and no other task is touched; on a positive one, none is.
  lemma WaitBlocks(s: Sys, i: nat, s': Sys)
    requires Follows(s, Wait(i), s')
    ensures i < |s.sems| && OtherSemsStay(s, s', i) && s'.current == s.current < |s.tasks|
    ensures if s.sems[i].count > 0 then s'.tasks == s.tasks
            else OtherTasksStay(s, s', s.current)
                 && s'.tasks[s.current] == s.tasks[s.current].(state := Blocked)
  {
  }

  // A trywait tells whether the count was positive, and touches no task.
  lemma TryWaitTells(s: Sys, i: nat, s': Sys)
    requires Follows(s, TryWait(i), s')
    ensures i < |s.sems| && OtherSemsStay(s, s', i) && s'.tasks == s.tasks && s'.current == s.current
    ensures SemTryWait(s.sems[i]).1 <==> s.sems[i].count > 0
    ensures s'.sems[i] == s.sems[i].(count := s.sems[i].count - if s.sems[i].count > 0 then 1 else 0)
  {
  }

  // Signal m wakes task c from queue i: it makes it ready.
  ghost predicate WokenAt(events: seq<Event>, states: seq<Sys>, i: nat, c: nat, m: nat) {
    && m + 1 < |states| && m < |events| && events[m] == Signal(i) && i < |states[m].sems|
    && states[m].sems[i].waiters != [] && states[m].sems[i].waiters[0] == c
    && c < |states[m + 1].tasks| && states[m + 1].tasks[c].state == Ready
  }

  // Task c is on queue i, blocked with no delay.
  ghost predicate WaitsOn(s: Sys, i: nat, c: nat) {
    i < |s.sems| && c in s.sems[i].waiters && Parked(s.tasks, c)
  }

  // After one event a waiting task still waits, or the event was the signal that made it ready.
  lemma WaiterAfter(s: Sys, e: Event, s': Sys, i: nat, c: nat)
    requires Inv(s) && Follows(s, e, s') && WaitsOn(s, i, c)
    ensures i < |s'.sems|
    ensures if e == Signal(i) && s.sems[i].waiters[0] == c then c < |s'.tasks| && s'.tasks[c].state == Ready
            else WaitsOn(s', i, c)
  {
    hide Follows, Inv, SemOk, Parked;
    QueueAfter(s, e, s', i);
    StepInv(s, e, s');
    SemOkAt(s', i);
    var q := s.sems[i].waiters;
    if e == Signal(i) {
      SignalWakes(s, i, s');
      if q[0] != c {
        InTail(q, c);
        ListedIsParked(s'.tasks, s'.sems[i], c);
      }
    } else {
      ListedIsParked(s'.tasks, s'.sems[i], c);
    }
  }

  lemma InTail(q: seq<nat>, c: nat)
    requires c in q && q[0] != c
    ensures c in q[1..]
  {
    assert q == [q[0]] + q[1..];
  }

  lemma ListedIsParked(ts: seq<Tcb>, s: Sem, c: nat)
    requires SemOk(ts, s) && c in s.waiters
    ensures Parked(ts, c)
  {
    var j :| 0 <= j < |s.waiters| && s.waiters[j] == c;
    assert Parked(ts, s.waiters[j]);
  }

  lemma StepInv(s: Sys, e: Event, s': Sys)
    requires Inv(s) && Follows(s, e, s')
    ensures Inv(s') && SameShape(s, s')
  {
    StepKeepsInv(s, e, s');
    StepKeepsShape(s, e, s');
  }

  /**
    No wakeup is lost: a task that waits at some point of a run still waits n - a events later, or a signal
    in between has made it ready.
   */
  lemma {:induction false} NoWakeupLost(events: seq<Event>, states: seq<Sys>, i: nat, c: nat, a: nat, n: nat)
    requires IsRun(events, states) && Inv(states[0]) && a <= n <= |events| && WaitsOn(states[a], i, c)
    ensures WaitsOn(states[n], i, c) || exists m | a <= m < n :: WokenAt(events, states, i, c, m)
    decreases n
  {
    hide Follows, Inv, WaitsOn;
    if a < n {
      NoWakeupLost(events, states, i, c, a, n - 1);
      if WaitsOn(states[n - 1], i, c) {
        InvAlways(events, states, n - 1);
        RunFollows(events, states, n);
        WaiterAfter(states[n - 1], events[n - 1], states[n], i, c);
        WaiterListed(states[n - 1], i, c);
        if !WaitsOn(states[n], i, c) { assert WokenAt(events, states, i, c, n - 1); }
      }
    }
  }

  lemma WaiterListed(s: Sys, i: nat, c: nat)
    requires WaitsOn(s, i, c)
    ensures i < |s.sems| && s.sems[i].waiters != []
  {
  }

  // A wait that does not get through puts the caller in that place.
  lemma WaitParks(s: Sys, i: nat, s': Sys)
    requires Inv(s) && Follows(s, Wait(i), s') && s.sems[i].count <= 0
    ensures WaitsOn(s', i, s.current)
  {
    hide Follows, Inv;
    WaitBlocks(s, i, s');
    QueueAfter(s, Wait(i), s', i);
    StepInv(s, Wait(i), s');
    SemOkAt(s', i);
    var q := s'.sems[i].waiters;
    assert q[|q| - 1] == s.current;
  }

  // ---------- suspended tasks ----------

  // Event e resumes task w.
  predicate Resumes(s: Sys, e: Event, w: nat) {
    e.Resume? && IndexOf(s.tasks, e.id) == w
  }

  ghost predicate SuspendedAt(s: Sys, w: nat) {
    w < |s.tasks| && s.tasks[w].state == Suspended
  }

  // Only resuming it ends the suspension of a task, and it is not dispatched before.
  lemma SuspendedAfter(s: Sys, e: Event, s': Sys, w: nat)
    requires Inv(s) && Follows(s, e, s') && SuspendedAt(s, w)
    ensures if Resumes(s, e, w) then w < |s'.tasks| && s'.tasks[w].state == Ready else SuspendedAt(s', w)
    ensures e == Reschedule ==> s'.current != w
  {
    match e
    case Signal(i) => SignalWakes(s, i, s'); SemOkAt(s, i);
      if s.sems[i].waiters != [] { assert Parked(s.tasks, s.sems[i].waiters[0]); }
    case Wait(i) => WaitBlocks(s, i, s');
    case TryWait(_) =>
    case Reschedule => RescheduleIs(s, s');
    case _ =>
  }

  // A dispatch on the system's own tasks
  lemma RescheduleIs(s: Sys, s': Sys)
    requires Inv(s) && Follows(s, Reschedule, s')
    ensures Rescheduled(s.tasks, s'.tasks, Some(s'.current)) && s'.sems == s.sems
  {
    DispatchReschedules(s.tasks, s.current, s'.current);
  }

  // So over runs: a suspended task stays suspended, and is dispatched at no point, until it is resumed.
  lemma {:induction false} SuspendedUntilResumed(events: seq<Event>, states: seq<Sys>, w: nat, a: nat, n: nat)
    requires IsRun(events, states) && Inv(states[0]) && a <= n <= |events| && SuspendedAt(states[a], w)
    requires forall m | a <= m < n :: !Resumes(states[m], events[m], w)
    ensures SuspendedAt(states[n], w)
    ensures forall m | a <= m < n && events[m] == Reschedule :: states[m + 1].current != w
    decreases n
  {
    hide Follows, Inv;
    if a < n {
      SuspendedUntilResumed(events, states, w, a, n - 1);
      InvAlways(events, states, n - 1);
      RunFollows(events, states, n);
      SuspendedAfter(states[n - 1], events[n - 1], states[n], w);
    }
  }

  // ---------- mutual exclusion ----------

  // Who has passed semaphore i and not signalled it yet, after event e in state s
  function Passed(inside: set<nat>, s: Sys, e: Event, i: nat): set<nat>
  {
    if i >= |s.sems| then inside
    else if (e == Wait(i) || e == TryWait(i)) && s.sems[i].count > 0 then inside + {s.current}
    else if e == Signal(i) then inside - {s.current} + (if s.sems[i].waiters != [] then {s.sems[i].waiters[0]} else {})
    else inside
  }

  ghost function Inside(events: seq<Event>, states: seq<Sys>, i: nat, n: nat): set<nat>
    requires n <= |events| < |states|
  {
    if n == 0 then {} else Passed(Inside(events, states, i, n - 1), states[n - 1], events[n - 1], i)
  }

  // Tasks take turns: only a task inside signals, and only a task outside waits.
  ghost predicate Disciplined(events: seq<Event>, states: seq<Sys>, i: nat)
    requires |events| < |states|
  {
    forall n | 0 <= n < |events| :: TakesTurns(Inside(events, states, i, n), states[n], events[n], i)
  }

  predicate TakesTurns(inside: set<nat>, s: Sys, e: Event, i: nat) {
    (e == Signal(i) ==> s.current in inside) && (e == Wait(i) || e == TryWait(i) ==> s.current !in inside)
  }

  // The count and the tasks inside make up the initial value, and nobody inside is waiting.
  ghost predicate Accounted(inside: set<nat>, s: Sem, value: nat) {
    && |inside| + (if s.count > 0 then s.count else 0) == value
    && forall j | 0 <= j < |s.waiters| :: s.waiters[j] !in inside
  }

  // The queue after one event, in exact terms
  lemma QueueAfter(s: Sys, e: Event, s': Sys, i: nat)
    requires Inv(s) && Follows(s, e, s') && i < |s.sems|
    ensures |s'.sems| == |s.sems|
    ensures var q := s.sems[i].waiters;
            s'.sems[i].waiters == if e == Wait(i) && s.sems[i].count <= 0 then q + [s.current]
                                  else if e == Signal(i) && q != [] then q[1..] else q
  {
    QueueStep(s, e, s', i);
    var q := s.sems[i].waiters;
    if e == Signal(i) && q != [] { assert s'.sems[i].waiters == (q[..1] + s'.sems[i].waiters)[1..]; }
  }

  lemma PassKeepsAccount(inside: set<nat>, s: Sys, e: Event, s': Sys, i: nat, value: nat)
    requires Inv(s) && Follows(s, e, s') && i < |s.sems| && i < |s'.sems|
    requires Accounted(inside, s.sems[i], value) && TakesTurns(inside, s, e, i)
    ensures Accounted(Passed(inside, s, e, i), s'.sems[i], value)
  {
    hide Inv, Follows;
    QueueStep(s, e, s', i);
    QueueAfter(s, e, s', i);
    SemOkAt(s, i);
    if e == Signal(i) {
      SignalAccount(inside, s.current, s.sems[i], s'.sems[i], value);
    } else {
      WaitAccount(inside, s.current, s.sems[i], s'.sems[i], value, e == Wait(i) || e == TryWait(i));
    }
  }

  lemma SignalAccount(inside: set<nat>, c: nat, s: Sem, t: Sem, value: nat)
    requires Accounted(inside, s, value) && c in inside && t.count == s.count + 1
    requires |s.waiters| == (if s.count < 0 then -s.count else 0)
    requires forall j, k | 0 <= j < k < |s.waiters| :: s.waiters[j] != s.waiters[k]
    requires t.waiters == if s.waiters != [] then s.waiters[1..] else s.waiters
    ensures Accounted(inside - {c} + (if s.waiters != [] then {s.waiters[0]} else {}), t, value)
  {
    if s.waiters != [] { HandOver(inside, c, s.waiters[0]); }
  }

  lemma WaitAccount(inside: set<nat>, c: nat, s: Sem, t: Sem, value: nat, waits: bool)
    requires Accounted(inside, s, value) && (waits ==> c !in inside)
    requires |s.waiters| == (if s.count < 0 then -s.count else 0)
    requires waits && s.count > 0 ==> t.count == s.count - 1
    requires !waits || s.count <= 0 ==> t.count == s.count || (s.count <= 0 && t.count == s.count - 1)
    requires t.waiters == s.waiters || (waits && s.count <= 0 && t.waiters == s.waiters + [c])
    ensures Accounted(if waits && s.count > 0 then inside + {c} else inside, t, value)
  {
  }

  lemma HandOver(inside: set<nat>, c: nat, w: nat)
    requires c in inside && w !in inside
    ensures |inside - {c} + {w}| == |inside|
  {
  }

  /**
    A semaphore created with value v and used in turns lets at most v tasks inside at a time, and
    exactly v while a task waits. With v == 1 that is mutual exclusion.
   */
  lemma {:induction false} MutualExclusion(events: seq<Event>, states: seq<Sys>, i: nat, n: nat, value: nat)
    requires IsRun(events, states) && Initial(states[0]) && n <= |events|
    requires i < |states[0].sems| && states[0].sems[i].count == value && Disciplined(events, states, i)
    ensures i < |states[n].sems|
    ensures Accounted(Inside(events, states, i, n), states[n].sems[i], value)
    ensures |Inside(events, states, i, n)| <= value
    ensures states[n].sems[i].waiters != [] ==> |Inside(events, states, i, n)| == value
    decreases n
  {
    ReachableInv(events, states, n);
    SemOkAt(states[n], i);
    if n > 0 {
      MutualExclusion(events, states, i, n - 1, value);
      ReachableInv(events, states, n - 1);
      RunFollows(events, states, n);
      assert TakesTurns(Inside(events, states, i, n - 1), states[n - 1], events[n - 1], i);
      PassKeepsAccount(Inside(events, states, i, n - 1), states[n - 1], events[n - 1], states[n], i, value);
    }
  }
}
