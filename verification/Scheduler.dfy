/** The kernel object: the default scheduler, the tick, and the task calls that change its task list. */
module Scheduler {
  import opened Tasks
  import opened Words

  // k is the last-listed eligible task of least countdown.
  ghost predicate IsPick(d: seq<Tcb>, k: nat) {
    && k < |d| && Eligible(d[k])
    && forall j | 0 <= j < |d| && Eligible(d[j]) ::
         Low(d[k].priority) <= Low(d[j].priority) && (j > k ==> Low(d[k].priority) < Low(d[j].priority))
  }

  // Some eligible task is not shadowed by the first listed one, which the search starts from.
  ghost predicate CanPick(d: seq<Tcb>) {
    exists j | 0 <= j < |d| :: Eligible(d[j]) && Low(d[j].priority) <= Low(d[0].priority)
  }

  // An eligible task pays for the pick; the others are left alone.
  function Charge(t: Tcb, toll: u16): Tcb {
    if Eligible(t) then t.(priority := Minus(t.priority, toll)) else t
  }

  function Charged(d: seq<Tcb>, toll: u16): (c: seq<Tcb>)
    ensures |c| == |d|
  {
    seq(|d|, i requires 0 <= i < |d| => Charge(d[i], toll))
  }

  // The task list after k has been picked from d: everyone pays k's countdown, k is reloaded and runs.
  function Dispatched(d: seq<Tcb>, k: nat): (r: seq<Tcb>)
    requires k < |d|
    ensures |r| == |d|
  {
    var c := Charged(d, Low(d[k].priority));
    c[k := c[k].(priority := Reload(c[k].priority), state := Running)]
  }

  // delay_update on one task
  function Ticked(t: Tcb): Tcb {
    if t.state == Blocked && t.delay > 0 then
      t.(delay := t.delay - 1, state := if t.delay == 1 then Ready else Blocked)
    else t
  }

  function AllTicked(ts: seq<Tcb>): (r: seq<Tcb>)
    ensures |r| == |ts|
  {
    seq(|ts|, i requires 0 <= i < |ts| => Ticked(ts[i]))
  }

  datatype Error = Ok | NotFound | CantSuspend | CantResume | InvalidPrio

  class Kernel {
    var tasks: seq<Tcb>
    var current: nat
    var idNext: u16

    ghost predicate Valid()
      reads this
    {
      current < |tasks| && Sound(tasks) && OthersWait(tasks, current)
    }

    // krnl_schedule; `panic` is krnl_panic(ERR_NO_TASKS), which never returns.
    method Schedule() returns (id: u16, panic: bool)
      requires Valid()
      modifies this`tasks, this`current
      ensures var d := Demote(old(tasks), old(current));
              && panic == !CanPick(d)
              && (panic ==> tasks == d && current == old(current))
              && (!panic ==> IsPick(d, current) && tasks == Dispatched(d, current) && id == d[current].id)
      ensures Valid()
      ensures !panic ==> forall i | 0 <= i < |tasks| :: tasks[i].state == Running <==> i == current
      ensures Rescheduled(old(tasks), tasks, if panic then None else Some(current))
    {
      hide CanPick, Minus, Reload, SoundPriority, Rescheduled;
      DemoteReschedules(tasks, current);
      ghost var before, cur := tasks, current;
      if tasks[current].state == Running {
        tasks := tasks[current := tasks[current].(state := Ready)];
      }
      var select := SelectTask();
      if tasks[select].state != Ready || tasks[select].rt {
        return 0, true;
      }
      ghost var d := tasks;
      DispatchedSound(d, select);
      DispatchReschedules(before, cur, select);
      SubtractFromReady(tasks[select].priority);
      current := select;
      var t := tasks[select];
      tasks := tasks[select := t.(priority := Reload(t.priority), state := Running)];
      return t.id, false;
    }

    // The first pass over the list
    method SelectTask() returns (select: nat)
      requires 0 < |tasks|
      ensures select < |tasks|
      ensures if CanPick(tasks) then IsPick(tasks, select) else !Eligible(tasks[select])
    {
      select := 0;
      var node := 0;
      while node < |tasks|
        invariant node <= |tasks| && select < |tasks|
        invariant Best(tasks, node, select)
      {
        var task := tasks[node];
        if Low(task.priority) <= Low(tasks[select].priority) {
          if task.state == Ready && !task.rt {
            select := node;
          }
        }
        node := node + 1;
      }
    }

    // The second pass: subtract the low byte of `priority` from the priority of every ready task.
    method SubtractFromReady(priority: u16)
      modifies this`tasks
      ensures tasks == Charged(old(tasks), Low(priority))
    {
      var node := 0;
      while node < |tasks|
        invariant node <= |tasks| == |old(tasks)|
        invariant forall i | 0 <= i < |tasks| ::
                    tasks[i] == if i < node then Charge(old(tasks)[i], Low(priority)) else old(tasks)[i]
      {
        var task := tasks[node];
        if task.state == Ready && !task.rt {
          tasks := tasks[node := task.(priority := Minus(task.priority, Low(priority)))];
        }
        node := node + 1;
      }
    }

    // ucx_task_spawn, with memory for the task: it is listed last, ready, and of normal priority.
    method Spawn() returns (id: u16)
      requires Valid() || tasks == []
      modifies this`tasks, this`idNext
      ensures Sound(tasks) && tasks == old(tasks) + [Tcb(id, Ready, 0, 0x1f1f, false)]
      ensures id == old(idNext) && idNext == (id + 1) % 0x1_0000
      ensures current < |tasks| ==> Valid()
    {
      id := idNext;
      idNext := if idNext == 0xffff then 0 else idNext + 1;
      tasks := tasks + [Tcb(id, Stopped, 0, 0x1f1f, false)];
      tasks := tasks[|tasks| - 1 := tasks[|tasks| - 1].(state := Ready)];
    }

    // list_foreach(tasks, delay_update)
    method Tick()
      requires Valid()
      modifies this`tasks
      ensures tasks == AllTicked(old(tasks)) && Valid()
    {
      var node := 0;
      while node < |tasks|
        invariant node <= |tasks| == |old(tasks)|
        invariant forall i | 0 <= i < |tasks| ::
                    tasks[i] == if i < node then Ticked(old(tasks)[i]) else old(tasks)[i]
      {
        var task := tasks[node];
        if task.state == Blocked && task.delay > 0 {
          task := task.(delay := task.delay - 1);
          if task.delay == 0 {
            task := task.(state := Ready);
          }
          tasks := tasks[node := task];
        }
        node := node + 1;
      }
    }

    // list_foreach(tasks, idcmp): the first listed task with this id, or |tasks|
    method Find(id: u16) returns (node: nat)
      ensures node <= |tasks| && (node < |tasks| ==> tasks[node].id == id)
      ensures forall i | 0 <= i < node :: tasks[i].id != id
    {
      node := 0;
      while node < |tasks|
        invariant node <= |tasks| && forall i | 0 <= i < node :: tasks[i].id != id
      {
        if tasks[node].id == id {
          return;
        }
        node := node + 1;
      }
    }

    // ucx_task_delay up to its yield
    method Delay(ticks: u16)
      requires Valid()
      modifies this`tasks
      ensures Valid() && tasks == DelayCurrent(old(tasks), current, ticks)
    {
      tasks := tasks[current := tasks[current].(delay := ticks, state := Blocked)];
    }

    // ucx_task_suspend; `leaves` says that the task suspended itself and gives up the processor.
    method Suspend(id: u16) returns (err: Error, leaves: bool)
      requires Valid()
      modifies this`tasks
      ensures Valid() && (tasks, err) == SuspendTask(old(tasks), id)
      ensures leaves <==> err == Ok && IndexOf(old(tasks), id) == current
    {
      var node := Find(id);
      IndexOfIs(tasks, id, node);
      if node == |tasks| {
        return NotFound, false;
      }
      var task := tasks[node];
      if task.state != Ready && task.state != Running {
        return CantSuspend, false;
      }
      tasks := tasks[node := task.(state := Suspended)];
      return Ok, current == node;
    }

    // ucx_task_resume
    method Resume(id: u16) returns (err: Error)
      requires Valid()
      modifies this`tasks
      ensures Valid() && (tasks, err) == ResumeTask(old(tasks), id)
    {
      var node := Find(id);
      IndexOfIs(tasks, id, node);
      if node == |tasks| {
        return NotFound;
      }
      var task := tasks[node];
      if task.state != State.Suspended {
        return CantResume;
      }
      tasks := tasks[node := task.(state := Ready)];
      return Ok;
    }

    // ucx_task_priority
    method SetPriority(id: u16, priority: u16) returns (err: Error)
      requires Valid()
      modifies this`tasks
      ensures Valid() && (tasks, err) == PrioritizeTask(old(tasks), id, priority)
    {
      if !(High(priority) == Low(priority) && Low(priority) in BASES) {
        return InvalidPrio;
      }
      var node := Find(id);
      IndexOfIs(tasks, id, node);
      if node == |tasks| {
        return NotFound;
      }
      tasks := tasks[node := tasks[node].(priority := priority)];
      return Ok;
    }
  }

  // The position of the first listed task with this id, or |ts|
  function IndexOf(ts: seq<Tcb>, id: u16): (i: nat)
    ensures i <= |ts|
  {
    if ts == [] || ts[0].id == id then 0 else 1 + IndexOf(ts[1..], id)
  }

  lemma {:induction false} IndexOfIs(ts: seq<Tcb>, id: u16, node: nat)
    requires node <= |ts| && (node < |ts| ==> ts[node].id == id)
    requires forall i | 0 <= i < node :: ts[i].id != id
    ensures IndexOf(ts, id) == node
  {
    if node > 0 {
      IndexOfIs(ts[1..], id, node - 1);
    }
  }

  function DelayCurrent(ts: seq<Tcb>, cur: nat, ticks: u16): seq<Tcb>
    requires cur < |ts|
  {
    ts[cur := ts[cur].(delay := ticks, state := Blocked)]
  }

  function SuspendTask(ts: seq<Tcb>, id: u16): (seq<Tcb>, Error) {
    var i := IndexOf(ts, id);
    if i == |ts| then (ts, NotFound)
    else if ts[i].state in {Ready, Running} then (ts[i := ts[i].(state := Suspended)], Ok)
    else (ts, CantSuspend)
  }

  function ResumeTask(ts: seq<Tcb>, id: u16): (seq<Tcb>, Error) {
    var i := IndexOf(ts, id);
    if i == |ts| then (ts, NotFound)
    else if ts[i].state == Suspended then (ts[i := ts[i].(state := Ready)], Ok)
    else (ts, CantResume)
  }

  function PrioritizeTask(ts: seq<Tcb>, id: u16, priority: u16): (seq<Tcb>, Error) {
    var i := IndexOf(ts, id);
    if High(priority) != Low(priority) || Low(priority) !in BASES then (ts, InvalidPrio)
    else if i == |ts| then (ts, NotFound)
    else (ts[i := ts[i].(priority := priority)], Ok)
  }

  // What the first pass has established about the tasks below `node`
  ghost predicate Best(d: seq<Tcb>, node: nat, select: nat)
    requires select < |d| && node <= |d|
  {
    if Eligible(d[select]) && select < node then
      && Low(d[select].priority) <= Low(d[0].priority)
      && forall j | 0 <= j < node && Eligible(d[j]) ::
           Low(d[select].priority) <= Low(d[j].priority)
           && (j > select ==> Low(d[select].priority) < Low(d[j].priority))
    else
      select == 0 && forall j | 0 <= j < node && Eligible(d[j]) :: Low(d[0].priority) < Low(d[j].priority)
  }

  // ---------- what a pick does ----------

  // At most one task can be picked, so Schedule's contract determines the state it leaves.
  lemma PickUnique(d: seq<Tcb>, k: nat, l: nat)
    requires IsPick(d, k) && IsPick(d, l)
    ensures k == l
  {
    assert Eligible(d[k]) && Eligible(d[l]);
  }

  // The scheduler never panics while the first listed task is eligible...
  lemma FirstReadyNeverPanics(d: seq<Tcb>)
    requires 0 < |d| && Eligible(d[0])
    ensures CanPick(d)
  {
  }

  // The first listed task takes the top priority.
  lemma TopPriority(ts: seq<Tcb>)
    requires 0 < |ts| && ts[0].id == 0
    ensures PrioritizeTask(ts, 0, 0x0101) == (ts[0 := ts[0].(priority := 0x0101)], Ok)
  {
    assert IndexOf(ts, 0) == 0;
    assert 0x01 in BASES;
  }

  // ...but it can panic with a task ready to run, and kernel calls lead there: of two spawned tasks the first,
  // which starts out on the processor, takes the top priority and delays itself; the dispatch behind the
  // tick finds nothing, as the first task's countdown is the lower one.
  method ShadowingReached(kcb: Kernel) returns (panic: bool)
    requires kcb.tasks == [] && kcb.current == 0 && kcb.idNext == 0
    modifies kcb
    ensures panic && |kcb.tasks| == 2 && Eligible(kcb.tasks[1]) && Sound(kcb.tasks)
  {
    hide Sound, PrioritizeTask, CanPick;
    var first := kcb.Spawn();
    var second := kcb.Spawn();
    TopPriority(kcb.tasks);
    var err := kcb.SetPriority(0, 0x0101);
    kcb.Delay(5);
    kcb.Tick();
    ghost var d := [Tcb(0, Blocked, 4, 0x0101, false), Tcb(1, Ready, 0, 0x1f1f, false)];
    assert kcb.tasks == d;
    ShadowedByFirst(d);
    var id;
    id, panic := kcb.Schedule();
  }

  lemma ShadowedByFirst(d: seq<Tcb>)
    requires |d| == 2 && d[0].state == Blocked && Low(d[0].priority) < Low(d[1].priority)
    ensures Demote(d, 0) == d && !CanPick(d)
  {
  }

  // The two loops in exact terms: no 16-bit borrow, bases unchanged, every eligible countdown lowered
  // by the picked task's, and the picked task reloaded to its base and running.
  lemma DispatchedAt(d: seq<Tcb>, k: nat, i: nat)
    requires Sound(d) && IsPick(d, k) && i < |d|
    ensures var (r, t) := (Dispatched(d, k)[i], d[i]);
            && High(r.priority) == High(t.priority)
            && Low(r.priority) == (if i == k then High(t.priority)
                                   else if Eligible(t) then Low(t.priority) - Low(d[k].priority)
                                   else Low(t.priority))
            && r.state == (if i == k then Running else t.state)
            && r.id == t.id && r.delay == t.delay && r.rt == t.rt
  {
    var toll := Low(d[k].priority);
    assert SoundPriority(d[i].priority);
    if Eligible(d[i]) {
      MinusKeepsHigh(d[i].priority, toll);
    }
    if i == k {
      ReloadAtZero(Minus(d[k].priority, toll));
    }
  }

  lemma DispatchedSound(d: seq<Tcb>, k: nat)
    requires Sound(d) && IsPick(d, k)
    ensures Sound(Dispatched(d, k))
  {
    forall i | 0 <= i < |d| ensures SoundPriority(Dispatched(d, k)[i].priority) {
      DispatchedAt(d, k, i);
      assert SoundPriority(d[i].priority);
    }
  }

  lemma DispatchReschedules(ts: seq<Tcb>, cur: nat, k: nat)
    requires cur < |ts| && OthersWait(ts, cur) && IsPick(Demote(ts, cur), k)
    ensures Rescheduled(ts, Dispatched(Demote(ts, cur), k), Some(k))
  {
    var d := Demote(ts, cur);
    assert Eligible(d[k]);
    forall i | 0 <= i < |ts| ensures d[i] == if ts[i].state == Running then ts[i].(state := Ready) else ts[i] {
      DemoteAt(ts, cur, i);
    }
  }

  // ---------- the other calls ----------

  // A tick takes one off the delay of every blocked task that has one, wakes it with the last, and touches
  // no other task.
  lemma TickedAt(ts: seq<Tcb>, i: nat)
    requires i < |ts|
    ensures var (t, u) := (ts[i], AllTicked(ts)[i]);
            && u.id == t.id && u.rt == t.rt && u.priority == t.priority
            && (t.state != Blocked || t.delay == 0 ==> u == t)
            && (t.state == Blocked && 0 < t.delay ==> u.delay + 1 == t.delay)
            && (t.state == Blocked && 1 < t.delay ==> u.state == Blocked)
            && (t.state == Blocked && t.delay == 1 ==> u.state == Ready)
  {
  }

  // The first listed task with this id
  ghost predicate Names(ts: seq<Tcb>, id: u16, i: nat) {
    i < |ts| && ts[i].id == id && forall j | 0 <= j < i :: ts[j].id != id
  }

  lemma {:induction false} IndexOfNames(ts: seq<Tcb>, id: u16)
    ensures if IndexOf(ts, id) == |ts| then forall j | 0 <= j < |ts| :: ts[j].id != id
            else Names(ts, id, IndexOf(ts, id))
  {
    if ts != [] && ts[0].id != id {
      IndexOfNames(ts[1..], id);
      assert ts == [ts[0]] + ts[1..];
    }
  }

  // Only the first task with the id changes, and of it only what is said.
  ghost predicate ChangesOnly(ts: seq<Tcb>, us: seq<Tcb>, i: nat, t: Tcb) {
    && i < |ts| == |us| && us[i] == t
    && forall j | 0 <= j < |ts| && j != i :: us[j] == ts[j]
  }

  // Suspending succeeds exactly for the first task with the id if it is ready or running, which is suspended
  // then; it fails without effect for one that is not, and if there is none.
  lemma SuspendIs(ts: seq<Tcb>, id: u16, i: nat)
    ensures var (us, err) := SuspendTask(ts, id);
            && (Names(ts, id, i) && Able(ts[i]) ==> err == Ok && ChangesOnly(ts, us, i, ts[i].(state := Suspended)))
            && (Names(ts, id, i) && !Able(ts[i]) ==> err == CantSuspend && us == ts)
            && ((forall j | 0 <= j < |ts| :: ts[j].id != id) ==> err == NotFound && us == ts)
  {
    IndexOfNames(ts, id);
  }

  // Resuming succeeds exactly for a suspended one, which is ready then.
  lemma ResumeIs(ts: seq<Tcb>, id: u16, i: nat)
    ensures var (us, err) := ResumeTask(ts, id);
            && (Names(ts, id, i) && ts[i].state == Suspended ==>
                  err == Ok && ChangesOnly(ts, us, i, ts[i].(state := Ready)))
            && (Names(ts, id, i) && ts[i].state != Suspended ==> err == CantResume && us == ts)
            && ((forall j | 0 <= j < |ts| :: ts[j].id != id) ==> err == NotFound && us == ts)
  {
    IndexOfNames(ts, id);
  }

  // Resuming undoes suspending, up to whether the task was on the processor.
  lemma ResumeUndoesSuspend(ts: seq<Tcb>, id: u16)
    requires SuspendTask(ts, id).1 == Ok
    ensures var i := IndexOf(ts, id);
            i < |ts| && ResumeTask(SuspendTask(ts, id).0, id) == (ts[i := ts[i].(state := Ready)], Ok)
  {
    var i, us := IndexOf(ts, id), SuspendTask(ts, id).0;
    IndexOfNames(ts, id);
    IndexOfNames(us, id);
    assert us[i].id == id;
    assert ts[i := ts[i].(state := Suspended)][i := ts[i].(state := Ready)] == ts[i := ts[i].(state := Ready)];
  }

  // The priority is set exactly if it is one of the eight words and the task is there; nothing else changes.
  lemma PrioritizeIs(ts: seq<Tcb>, id: u16, priority: u16, i: nat)
    ensures var (us, err) := PrioritizeTask(ts, id, priority);
            var valid := priority in {0x0101, 0x0303, 0x0707, 0x0f0f, 0x1f1f, 0x3f3f, 0x7f7f, 0xffff};
            && (!valid ==> err == InvalidPrio && us == ts)
            && (valid && Names(ts, id, i) ==> err == Ok && ChangesOnly(ts, us, i, ts[i].(priority := priority)))
            && (valid && (forall j | 0 <= j < |ts| :: ts[j].id != id) ==> err == NotFound && us == ts)
  {
    IndexOfNames(ts, id);
    PriorityWords(priority);
  }

  lemma PriorityWords(p: u16)
    ensures High(p) == Low(p) && Low(p) in BASES
            <==> p in {0x0101, 0x0303, 0x0707, 0x0f0f, 0x1f1f, 0x3f3f, 0x7f7f, 0xffff}
  {
    assert p == 256 * High(p) + Low(p);
  }

  // A delay blocks the task on the processor for the given ticks and touches no other.
  lemma DelayIs(ts: seq<Tcb>, cur: nat, ticks: u16)
    requires cur < |ts|
    ensures ChangesOnly(ts, DelayCurrent(ts, cur, ticks), cur, ts[cur].(state := Blocked, delay := ticks))
  {
  }

  // ---------- delays ----------

  function TickedTimes(t: Tcb, n: nat): Tcb
    decreases n
  {
    if n == 0 then t else TickedTimes(Ticked(t), n - 1)
  }

  // A task that delays itself for `ticks` updates is ready again after exactly that many, provided
  // ticks > 0: a delay of zero never ends.
  lemma {:induction false} DelayEnds(t: Tcb, n: nat)
    requires t.state == Blocked
    ensures TickedTimes(t, n).state == (if 0 < t.delay <= n then Ready else Blocked)
    decreases n
  {
    if n > 0 {
      if Ticked(t).state == Blocked {
        DelayEnds(Ticked(t), n - 1);
      } else {
        ReadyStays(Ticked(t), n - 1);
      }
    }
  }

  lemma {:induction false} ReadyStays(t: Tcb, n: nat)
    requires t.state == Ready
    ensures TickedTimes(t, n) == t
    decreases n
  {
    if n > 0 {
      ReadyStays(t, n - 1);
    }
  }
}
