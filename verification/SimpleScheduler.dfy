/** The CONFIG_SCHED_SIMPLE build of the scheduler: round robin with a countdown per task. */
module SimpleScheduler {
  import opened Arith
  import opened Tasks
  import opened Words
  import opened Scheduler

  // krnl_panic is reached on the visit after this many.
  const MAX_VISITS: nat := 10001

  // list_cnext: behind the last task comes the first.
  function Cnext(n: nat, node: nat): (i: nat)
    requires node < n
    ensures i < n
  {
    if node + 1 == n then 0 else node + 1
  }

  // The v-th visit of a call that starts at task `cur`
  function VisitedAt(cur: nat, v: nat, n: nat): (i: nat)
    requires cur < n
    ensures i < n
  {
    if v == 0 then cur else Cnext(n, VisitedAt(cur, v - 1, n))
  }

  // How often the first v visits come to task i
  function Visits(cur: nat, i: nat, v: nat, n: nat): nat
    requires cur < n
  {
    if v == 0 then 0 else Visits(cur, i, v - 1, n) + if VisitedAt(cur, v, n) == i then 1 else 0
  }

  // Task i after v visits, of which each lowered its countdown by one if it is eligible
  function Worn(t: Tcb, visits: nat): Tcb {
    if Eligible(t) then t.(priority := Minus(t.priority, visits % 0x1_0000)) else t
  }

  // No eligible task has been counted down to zero within v visits.
  ghost predicate AllPending(d: seq<Tcb>, cur: nat, v: nat)
    requires cur < |d|
  {
    forall i | 0 <= i < |d| && Eligible(d[i]) :: Visits(cur, i, v, |d|) < Low(d[i].priority)
  }

  // The v-th visit is the first to count an eligible task down to zero.
  ghost predicate StopsAt(d: seq<Tcb>, cur: nat, v: nat)
    requires cur < |d|
  {
    && 0 < v && AllPending(d, cur, v - 1)
    && var k := VisitedAt(cur, v, |d|);
       Eligible(d[k]) && Visits(cur, k, v, |d|) == Low(d[k].priority)
  }

  // All tasks after v visits
  function AllWorn(d: seq<Tcb>, cur: nat, v: nat): (r: seq<Tcb>)
    requires cur < |d|
    ensures |r| == |d|
  {
    seq(|d|, i requires 0 <= i < |d| => Worn(d[i], Visits(cur, i, v, |d|)))
  }

  // The task list when a call stops at visit v
  function Finished(d: seq<Tcb>, cur: nat, v: nat): (r: seq<Tcb>)
    requires cur < |d|
    ensures |r| == |d|
  {
    var w, k := AllWorn(d, cur, v), VisitedAt(cur, v, |d|);
    w[k := w[k].(priority := Reload(w[k].priority), state := Running)]
  }

  // Every task's countdown is at least one: the reachable states of this build.
  ghost predicate Counting(ts: seq<Tcb>) {
    Sound(ts) && forall i | 0 <= i < |ts| :: 1 <= Low(ts[i].priority)
  }

  lemma MinusMore(p: u16, x: nat)
    requires x < Low(p)
    ensures Minus(Minus(p, x), 1) == Minus(p, x + 1)
    ensures Low(Minus(p, x + 1)) == Low(p) - x - 1 && High(Minus(p, x + 1)) == High(p)
  {
    MinusKeepsHigh(p, x);
    MinusKeepsHigh(p, x + 1);
    MinusKeepsHigh(Minus(p, x), 1);
    var q, r := Minus(Minus(p, x), 1), Minus(p, x + 1);
    assert q == 256 * High(q) + Low(q) && r == 256 * High(r) + Low(r);
  }

  // One more visit: it wears the visited task, and either ends the call or leaves everyone pending.
  lemma Advance(d: seq<Tcb>, cur: nat, v: nat)
    requires cur < |d| && AllPending(d, cur, v)
    ensures var k := VisitedAt(cur, v + 1, |d|);
            && (forall i | 0 <= i < |d| && i != k :: Visits(cur, i, v + 1, |d|) == Visits(cur, i, v, |d|))
            && Visits(cur, k, v + 1, |d|) == Visits(cur, k, v, |d|) + 1
            && if Eligible(d[k]) && Visits(cur, k, v + 1, |d|) == Low(d[k].priority)
               then StopsAt(d, cur, v + 1) else AllPending(d, cur, v + 1)
    ensures var k := VisitedAt(cur, v + 1, |d|); var x := Visits(cur, k, v, |d|);
            Eligible(d[k]) ==>
              && Minus(Minus(d[k].priority, x), 1) == Minus(d[k].priority, x + 1)
              && Low(Minus(d[k].priority, x + 1)) == Low(d[k].priority) - (x + 1)
  {
    var k := VisitedAt(cur, v + 1, |d|);
    if Eligible(d[k]) {
      MinusMore(d[k].priority, Visits(cur, k, v, |d|));
    }
  }

  lemma WornCountdown(t: Tcb, visits: nat)
    requires Eligible(t) && visits <= Low(t.priority)
    ensures var p := Worn(t, visits).priority;
            Low(p) == Low(t.priority) - visits && High(p) == High(t.priority)
  {
    MinusKeepsHigh(t.priority, visits);
  }

  lemma WornIdle(t: Tcb, visits: nat)
    requires !Eligible(t)
    ensures Worn(t, visits) == t
  {
  }

  lemma FinishedCounting(d: seq<Tcb>, cur: nat, v: nat)
    requires cur < |d| && Counting(d) && StopsAt(d, cur, v)
    ensures Counting(Finished(d, cur, v))
  {
    hide Worn, Minus;
    var r, k := Finished(d, cur, v), VisitedAt(cur, v, |d|);
    Advance(d, cur, v - 1);
    forall i | 0 <= i < |d| ensures SoundPriority(r[i].priority) && 1 <= Low(r[i].priority) {
      var p := d[i].priority;
      assert SoundPriority(p) && 1 <= Low(p);
      if Eligible(d[i]) {
        WornCountdown(d[i], Visits(cur, i, v, |d|));
      } else {
        WornIdle(d[i], Visits(cur, i, v, |d|));
      }
      if i == k {
        ReloadAtZero(Worn(d[k], Visits(cur, k, v, |d|)).priority);
      }
    }
  }

  lemma WornReschedules(ts: seq<Tcb>, cur: nat, v: nat)
    requires cur < |ts| && OthersWait(ts, cur)
    ensures Rescheduled(ts, AllWorn(Demote(ts, cur), cur, v), None)
  {
    forall i | 0 <= i < |ts|
      ensures Demote(ts, cur)[i] == if ts[i].state == Running then ts[i].(state := Ready) else ts[i]
    {
      DemoteAt(ts, cur, i);
    }
  }

  lemma FinishReschedules(ts: seq<Tcb>, cur: nat, v: nat)
    requires cur < |ts| && OthersWait(ts, cur) && StopsAt(Demote(ts, cur), cur, v)
    ensures Rescheduled(ts, Finished(Demote(ts, cur), cur, v), Some(VisitedAt(cur, v, |ts|)))
  {
    var k := VisitedAt(cur, v, |ts|);
    assert Eligible(Demote(ts, cur)[k]);
    WornReschedules(ts, cur, v);
    DemoteAt(ts, cur, k);
  }

  // One visit: the task list it finds and leaves
  lemma WearOne(d: seq<Tcb>, cur: nat, v: nat)
    requires cur < |d| && AllPending(d, cur, v)
    ensures var (k, w) := (VisitedAt(cur, v + 1, |d|), AllWorn(d, cur, v)); var t := w[k];
            && Eligible(t) == Eligible(d[k])
            && AllWorn(d, cur, v + 1) == (if Eligible(t) then w[k := t.(priority := Minus(t.priority, 1))] else w)
            && (Eligible(t) && Low(Minus(t.priority, 1)) == 0 ==> StopsAt(d, cur, v + 1))
            && (!Eligible(t) || Low(Minus(t.priority, 1)) != 0 ==> AllPending(d, cur, v + 1))
  {
    Advance(d, cur, v);
  }

  // The nested do loops: visit tasks until an eligible one's countdown reaches zero.
  method Walk(kcb: Kernel) returns (node: nat, panic: bool, ghost visits: nat)
    requires kcb.Valid() && Counting(kcb.tasks)
    modifies kcb`tasks
    ensures var d, cur := old(kcb.tasks), kcb.current;
            if panic then visits == MAX_VISITS && AllPending(d, cur, visits) && kcb.tasks == AllWorn(d, cur, visits)
            else visits <= MAX_VISITS && StopsAt(d, cur, visits) && node == VisitedAt(cur, visits, |d|)
                 && kcb.tasks == AllWorn(d, cur, visits)
  {
    ghost var d, cur := kcb.tasks, kcb.current;
    node, visits := kcb.current, 0;
    var itcnt := 0;
    assert kcb.tasks == AllWorn(d, cur, 0);
    while true
      invariant itcnt == visits <= MAX_VISITS && node == VisitedAt(cur, visits, |d|)
      invariant AllPending(d, cur, visits) && kcb.tasks == AllWorn(d, cur, visits)
      decreases MAX_VISITS - itcnt
    {
      node := Cnext(|kcb.tasks|, node);
      if itcnt > 10000 {
        return node, true, visits;
      }
      WearOne(d, cur, visits);
      itcnt := itcnt + 1;
      visits := visits + 1;
      var task := kcb.tasks[node];
      if task.state == Ready && !task.rt {
        task := task.(priority := Minus(task.priority, 1));
        kcb.tasks := kcb.tasks[node := task];
        if Low(task.priority) == 0 {
          return node, false, visits;
        }
      }
    }
  }

  // krnl_schedule; `visits` counts the visits of a call that ends without a panic.
  method Schedule(kcb: Kernel) returns (id: u16, panic: bool, ghost visits: nat)
    requires kcb.Valid() && Counting(kcb.tasks)
    modifies kcb`tasks, kcb`current
    ensures var d, cur := Demote(old(kcb.tasks), old(kcb.current)), old(kcb.current);
            if panic then
              AllPending(d, cur, MAX_VISITS) && kcb.tasks == AllWorn(d, cur, MAX_VISITS) && kcb.current == cur
            else visits <= MAX_VISITS && StopsAt(d, cur, visits) && kcb.current == VisitedAt(cur, visits, |d|)
                 && kcb.tasks == Finished(d, cur, visits) && id == d[kcb.current].id
    ensures panic <==> AllOutlast(Demote(old(kcb.tasks), old(kcb.current)), old(kcb.current), MAX_VISITS)
    ensures !panic ==> kcb.Valid() && Counting(kcb.tasks)
    ensures !panic ==> forall i | 0 <= i < |kcb.tasks| :: kcb.tasks[i].state == Running <==> i == kcb.current
    ensures Rescheduled(old(kcb.tasks), kcb.tasks, if panic then None else Some(kcb.current))
  {
    hide AllPending, AllOutlast, StopsAt, Reload, Visits, Rescheduled;
    ghost var before := kcb.tasks;
    if kcb.tasks[kcb.current].state == Running {
      kcb.tasks := kcb.tasks[kcb.current := kcb.tasks[kcb.current].(state := Ready)];
    }
    ghost var d, cur := kcb.tasks, kcb.current;
    var node;
    node, panic, visits := Walk(kcb);
    PanicIff(d, cur, panic, visits);
    WornReschedules(before, cur, visits);
    if panic {
      return 0, panic, visits;
    }
    FinishedCounting(d, cur, visits);
    FinishReschedules(before, cur, visits);
    kcb.current := node;
    var t := kcb.tasks[node];
    kcb.tasks := kcb.tasks[node := t.(priority := Reload(t.priority), state := Running)];
    id := t.id;
  }

  // ---------- how long a call takes ----------

  // A round of n visits comes to every task once: the visits from x reach i within w <= n steps...
  lemma {:induction false} WithinRound(x: nat, i: nat, w: nat, n: nat)
    requires x < n && i < n && w <= n
    ensures VisitedAt(x, w, n) == if x + w < n then x + w else x + w - n
    ensures Visits(x, i, w, n) == if x < i <= x + w || i + n <= x + w then 1 else 0
  {
    if w > 0 {
      WithinRound(x, i, w - 1, n);
    }
  }

  // ...and visits from `cur` continue as visits from where they have come to.
  lemma {:induction false} VisitsSplit(cur: nat, i: nat, v: nat, w: nat, n: nat)
    requires cur < n
    ensures VisitedAt(cur, v + w, n) == VisitedAt(VisitedAt(cur, v, n), w, n)
    ensures Visits(cur, i, v + w, n) == Visits(cur, i, v, n) + Visits(VisitedAt(cur, v, n), i, w, n)
    decreases w
  {
    if w > 0 {
      VisitsSplit(cur, i, v, w - 1, n);
      assert v + w - 1 == v + (w - 1);
    }
  }

  lemma {:induction false} RoundsVisitAll(cur: nat, i: nat, rounds: nat, n: nat)
    requires cur < n && i < n
    ensures Visits(cur, i, rounds * n, n) == rounds
    decreases rounds
  {
    if rounds > 0 {
      RoundsVisitAll(cur, i, rounds - 1, n);
      assert rounds * n == (rounds - 1) * n + n;
      VisitsSplit(cur, i, (rounds - 1) * n, n, n);
      WithinRound(VisitedAt(cur, (rounds - 1) * n, n), i, n, n);
    } else {
      assert rounds * n == 0;
    }
  }

  lemma PendingEarlier(d: seq<Tcb>, cur: nat, v: nat, w: nat)
    requires cur < |d| && v <= w && AllPending(d, cur, w)
    ensures AllPending(d, cur, v)
  {
    forall i | 0 <= i < |d| ensures Visits(cur, i, v, |d|) <= Visits(cur, i, w, |d|) {
      VisitsSplit(cur, i, v, w - v, |d|);
    }
  }

  // The visit a call stops at is determined, so Schedule's contract determines the state it leaves.
  lemma StopUnique(d: seq<Tcb>, cur: nat, v: nat, w: nat)
    requires cur < |d| && StopsAt(d, cur, v)
    ensures StopsAt(d, cur, w) ==> v == w
    ensures v <= w ==> !AllPending(d, cur, w)
  {
    if v <= w && AllPending(d, cur, w) { PendingEarlier(d, cur, v, w); }
    if StopsAt(d, cur, w) && v < w { PendingEarlier(d, cur, v, w - 1); }
    if StopsAt(d, cur, w) && w < v { PendingEarlier(d, cur, w, v - 1); }
  }

  // ---------- the same without walking ----------

  // How many steps it takes from `cur` to i for the first time
  function Distance(cur: nat, i: nat, n: nat): (s: nat)
    requires cur < n && i < n
    ensures 1 <= s <= n
  {
    if cur < i then i - cur else i + n - cur
  }

  // The visit that would count task i down to zero, read off the task list
  function ZeroVisit(d: seq<Tcb>, cur: nat, i: nat): int
    requires cur < |d| && i < |d|
  {
    Distance(cur, i, |d|) + (Low(d[i].priority) - 1) * |d|
  }

  // Every eligible task outlasts the visits a call makes.
  ghost predicate AllOutlast(d: seq<Tcb>, cur: nat, visits: nat)
    requires cur < |d|
  {
    forall i | 0 <= i < |d| && Eligible(d[i]) :: visits < ZeroVisit(d, cur, i)
  }

  lemma {:induction false} RoundsComeBack(cur: nat, rounds: nat, n: nat)
    requires cur < n
    ensures VisitedAt(cur, rounds * n, n) == cur
    decreases rounds
  {
    if rounds > 0 {
      RoundsComeBack(cur, rounds - 1, n);
      assert rounds * n == (rounds - 1) * n + n;
      VisitsSplit(cur, cur, (rounds - 1) * n, n, n);
      WithinRound(cur, cur, n, n);
    } else {
      assert rounds * n == 0;
    }
  }

  // The visit with this number is i's r-th.
  lemma NthVisit(cur: nat, i: nat, r: nat, n: nat)
    requires cur < n && i < n && 1 <= r
    ensures var v := Distance(cur, i, n) + (r - 1) * n;
            1 <= v && Visits(cur, i, v, n) == r && Visits(cur, i, v - 1, n) == r - 1 && VisitedAt(cur, v, n) == i
  {
    hide Visits, VisitedAt, Distance;
    RoundsVisitAll(cur, i, r - 1, n);
    RoundsComeBack(cur, r - 1, n);
    VisitAfterRounds(cur, i, (r - 1) * n, n);
  }

  lemma VisitAfterRounds(cur: nat, i: nat, w: nat, n: nat)
    requires cur < n && i < n && VisitedAt(cur, w, n) == cur
    ensures var s := Distance(cur, i, n);
            && Visits(cur, i, s + w, n) == Visits(cur, i, w, n) + 1
            && Visits(cur, i, s + w - 1, n) == Visits(cur, i, w, n) && VisitedAt(cur, s + w, n) == i
  {
    var s := Distance(cur, i, n);
    VisitsSplit(cur, i, w, s, n);
    VisitsSplit(cur, i, w, s - 1, n);
    WithinRound(cur, i, s, n);
    WithinRound(cur, i, s - 1, n);
    assert w + s == s + w && w + (s - 1) == s + w - 1;
  }

  lemma VisitsMonotone(cur: nat, i: nat, v: nat, w: nat, n: nat)
    requires cur < n && v <= w
    ensures Visits(cur, i, v, n) <= Visits(cur, i, w, n)
  {
    VisitsSplit(cur, i, v, w - v, n);
  }

  lemma PendingIff(cur: nat, i: nat, low: nat, v: nat, n: nat)
    requires cur < n && i < n && 1 <= low
    ensures Visits(cur, i, v, n) < low <==> v < Distance(cur, i, n) + (low - 1) * n
  {
    var z := Distance(cur, i, n) + (low - 1) * n;
    NthVisit(cur, i, low, n);
    if v < z { VisitsMonotone(cur, i, v, z - 1, n); } else { VisitsMonotone(cur, i, z, v, n); }
  }

  /**
    The panic in closed form: a call panics exactly when every eligible task's countdown, turned into
    a visit number by its distance from the current task, lies beyond the limit.
   */
  lemma PendingInClosedForm(d: seq<Tcb>, cur: nat, v: nat)
    requires cur < |d| && Counting(d)
    ensures AllPending(d, cur, v) <==> AllOutlast(d, cur, v)
  {
    forall i | 0 <= i < |d|
      ensures Visits(cur, i, v, |d|) < Low(d[i].priority) <==> v < ZeroVisit(d, cur, i)
    {
      PendingIff(cur, i, Low(d[i].priority), v, |d|);
    }
  }

  // How many rounds of v visits have passed i, read off the task list
  function Passed(cur: nat, i: nat, v: nat, n: nat): nat
    requires cur < n && i < n
  {
    if v < Distance(cur, i, n) then 0 else (v - Distance(cur, i, n)) / n + 1
  }

  lemma VisitsInClosedForm(cur: nat, i: nat, v: nat, n: nat)
    requires cur < n && i < n
    ensures Visits(cur, i, v, n) == Passed(cur, i, v, n)
  {
    hide Visits, Distance;
    var s := Distance(cur, i, n);
    if v < s {
      PendingIff(cur, i, 1, v, n);
    } else {
      var q := (v - s) / n;
      RoundsOf(v - s, n, q);
      PendingIff(cur, i, q + 1, v, n);
      PendingIff(cur, i, q + 2, v, n);
    }
  }

  lemma RoundsOf(w: nat, n: nat, q: nat)
    requires 0 < n && q == w / n
    ensures (q + 1 - 1) * n <= w < (q + 2 - 1) * n
  {
    assert w == q * n + w % n && (q + 1) * n == q * n + n;
  }

  /**
    A call that does not panic, in exact terms: no base changes, the pick has its base as countdown and runs,
    every other eligible countdown is lowered by the rounds that passed it, and nothing else changes.
   */
  lemma FinishedAt(d: seq<Tcb>, cur: nat, v: nat, i: nat)
    requires cur < |d| && Counting(d) && StopsAt(d, cur, v) && i < |d|
    ensures var (t, u, k) := (d[i], Finished(d, cur, v)[i], VisitedAt(cur, v, |d|));
            && High(u.priority) == High(t.priority)
            && Low(u.priority) as int == (if i == k then High(t.priority)
                                          else if Eligible(t) then Low(t.priority) - Passed(cur, i, v, |d|)
                                          else Low(t.priority))
            && u.state == (if i == k then Running else t.state) && SameButPriority(t, u)
  {
    hide Worn, Minus, Reload, Visits, VisitedAt, Passed;
    var (t, k) := (d[i], VisitedAt(cur, v, |d|));
    VisitsInClosedForm(cur, i, v, |d|);
    WornAt(d, cur, v, i);
    WornSame(t, Visits(cur, i, v, |d|));
    if i == k { ReloadAtZero(Worn(t, Visits(cur, i, v, |d|)).priority); }
  }

  lemma WornAt(d: seq<Tcb>, cur: nat, v: nat, i: nat)
    requires cur < |d| && StopsAt(d, cur, v) && i < |d|
    ensures var (t, u) := (d[i], Worn(d[i], Visits(cur, i, v, |d|)));
            && High(u.priority) == High(t.priority)
            && Low(u.priority) as int == Low(t.priority) - (if Eligible(t) then Visits(cur, i, v, |d|) else 0)
            && (i == VisitedAt(cur, v, |d|) ==> Low(u.priority) == 0)
  {
    hide Worn, Minus;
    Advance(d, cur, v - 1);
    if Eligible(d[i]) {
      WornCountdown(d[i], Visits(cur, i, v, |d|));
    } else {
      WornIdle(d[i], Visits(cur, i, v, |d|));
    }
  }

  lemma WornSame(t: Tcb, visits: nat)
    ensures Worn(t, visits) == t.(priority := Worn(t, visits).priority)
  {
  }

  // The pick in closed form: the call stops at the least of these visits, with the task it belongs to.
  lemma StopsAtLeast(d: seq<Tcb>, cur: nat, v: nat)
    requires cur < |d| && Counting(d) && StopsAt(d, cur, v)
    ensures var k := VisitedAt(cur, v, |d|);
            Eligible(d[k]) && ZeroVisit(d, cur, k) == v
            && forall i | 0 <= i < |d| && Eligible(d[i]) && i != k :: v < ZeroVisit(d, cur, i)
  {
    hide Visits, VisitedAt, Low;
    var k := VisitedAt(cur, v, |d|);
    PendingInClosedForm(d, cur, v - 1);
    PendingIff(cur, k, Low(d[k].priority), v, |d|);
    forall i | 0 <= i < |d| && Eligible(d[i]) && i != k ensures ZeroVisit(d, cur, i) != v {
      NthVisit(cur, i, Low(d[i].priority), |d|);
    }
  }

  lemma PanicIff(d: seq<Tcb>, cur: nat, panic: bool, visits: nat)
    requires cur < |d| && Counting(d)
    requires if panic then AllPending(d, cur, MAX_VISITS) else visits <= MAX_VISITS && StopsAt(d, cur, visits)
    ensures panic <==> AllOutlast(d, cur, MAX_VISITS)
  {
    PendingInClosedForm(d, cur, MAX_VISITS);
    if !panic { StopUnique(d, cur, visits, MAX_VISITS); }
  }

  // With an eligible task among n, a call stops within 255 * n visits.
  lemma StopsInTime(d: seq<Tcb>, cur: nat, i: nat, v: nat)
    requires cur < |d| && i < |d| && Eligible(d[i]) && StopsAt(d, cur, v)
    ensures v <= Low(d[i].priority) * |d| <= 255 * |d|
  {
    assert Visits(cur, i, v - 1, |d|) < Low(d[i].priority);
    PendingIff(cur, i, Low(d[i].priority), v - 1, |d|);
    ZeroVisitBound(d, cur, i);
  }

  lemma ZeroVisitBound(d: seq<Tcb>, cur: nat, i: nat)
    requires cur < |d| && i < |d| && 1 <= Low(d[i].priority)
    ensures ZeroVisit(d, cur, i) <= Low(d[i].priority) * |d| <= 255 * |d|
  {
    var low := Low(d[i].priority);
    assert low * |d| == (low - 1) * |d| + |d|;
    MulLe(low, 255, |d|);
  }

  // So with up to 39 tasks the panic is never taken while one of them is ready.
  lemma NoPanicUpTo39(d: seq<Tcb>, cur: nat, i: nat)
    requires cur < |d| <= 39 && i < |d| && Eligible(d[i])
    ensures !AllPending(d, cur, MAX_VISITS)
  {
    if AllPending(d, cur, MAX_VISITS) {
      PendingIff(cur, i, Low(d[i].priority), MAX_VISITS, |d|);
      ZeroVisitBound(d, cur, i);
    }
  }

  // With 40 it is: forty ready tasks of idle priority outlast it.
  lemma FortyIdleTasksPanic(cur: nat)
    requires cur < 40
    ensures var d := seq(40, _ => Tcb(0, Ready, 0, 0xffff, false));
            Counting(d) && AllPending(d, cur, MAX_VISITS)
  {
    PendingInClosedForm(seq(40, _ => Tcb(0, Ready, 0, 0xffff, false)), cur, MAX_VISITS);
  }
}
