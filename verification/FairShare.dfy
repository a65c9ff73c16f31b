/**
  Runs of the default scheduler of any length: proportional share and bounded waiting.
  Between two calls anything may happen to the tasks except a change of priority; the tasks in a
  watched set moreover stay ready.
 */
module FairShare {
  import opened Arith
  import opened Tasks
  import opened Words
  import opened Scheduler

  datatype Config = Config(tasks: seq<Tcb>, current: nat)

  // One call: the task list it finds, and the task it picks from it
  datatype Round = Round(found: seq<Tcb>, pick: nat)

  ghost predicate StaysReady(c: Config, i: nat)
    requires i < |c.tasks|
  {
    !c.tasks[i].rt && (c.tasks[i].state == Ready || (c.tasks[i].state == Running && i == c.current))
  }

  ghost predicate Watching(c: Config, watched: set<nat>) {
    && c.current < |c.tasks| && Sound(c.tasks)
    && forall i | i in watched :: i < |c.tasks| && StaysReady(c, i)
  }

  // What may happen before a call
  ghost predicate Between(ts: seq<Tcb>, found: seq<Tcb>, watched: set<nat>) {
    && |found| == |ts|
    && (forall i | 0 <= i < |ts| :: found[i].priority == ts[i].priority)
    && (forall i | i in watched && i < |ts| :: found[i] == ts[i])
  }

  function Demoted(c: Config, r: Round): (d: seq<Tcb>)
    requires c.current < |r.found|
    ensures |d| == |r.found|
  {
    Demote(r.found, c.current)
  }

  ghost predicate LegalRound(c: Config, r: Round, watched: set<nat>) {
    c.current < |c.tasks| && Between(c.tasks, r.found, watched) && IsPick(Demoted(c, r), r.pick)
  }

  ghost function Next(c: Config, r: Round): Config
    requires c.current < |r.found| && r.pick < |r.found|
  {
    Config(Dispatched(Demoted(c, r), r.pick), r.pick)
  }

  // Calls that do not panic, one after the other
  ghost predicate LegalRun(c: Config, run: seq<Round>, watched: set<nat>)
    decreases |run|
  {
    run == [] || (LegalRound(c, run[0], watched) && LegalRun(Next(c, run[0]), run[1..], watched))
  }

  ghost function Last(c: Config, run: seq<Round>, watched: set<nat>): Config
    requires LegalRun(c, run, watched)
    decreases |run|
  {
    if run == [] then c else Last(Next(c, run[0]), run[1..], watched)
  }

  // How often the run picks task i
  function Served(run: seq<Round>, i: nat): nat {
    if run == [] then 0 else (if run[0].pick == i then 1 else 0) + Served(run[1..], i)
  }

  // The countdowns of the picked tasks, added up: the run's virtual time
  ghost function Elapsed(c: Config, run: seq<Round>, watched: set<nat>): nat
    requires LegalRun(c, run, watched)
    decreases |run|
  {
    if run == [] then 0
    else Low(Demoted(c, run[0])[run[0].pick].priority) + Elapsed(Next(c, run[0]), run[1..], watched)
  }

  // One call, seen from every task
  lemma RoundAt(c: Config, r: Round, watched: set<nat>, i: nat)
    requires Watching(c, watched) && LegalRound(c, r, watched) && i < |c.tasks|
    ensures Sound(Demoted(c, r))
    ensures var (d, t, t') := (Demoted(c, r), c.tasks[i].priority, Next(c, r).tasks[i].priority);
            && |Next(c, r).tasks| == |c.tasks| && High(t') == High(t)
            && Low(t') == (if i == r.pick then High(t)
                           else if Eligible(d[i]) then Low(t) - Low(d[r.pick].priority) else Low(t))
            && (i == r.pick ==> Low(t) == Low(d[r.pick].priority))
            && (Eligible(d[i]) ==> Low(d[r.pick].priority) <= Low(t))
    ensures i in watched ==> Eligible(Demoted(c, r)[i]) && StaysReady(Next(c, r), i)
  {
    var d := Demoted(c, r);
    assert d[i].priority == c.tasks[i].priority;
    assert Sound(d) by {
      forall j | 0 <= j < |d| ensures SoundPriority(d[j].priority) {
        assert SoundPriority(c.tasks[j].priority);
      }
    }
    DispatchedAt(d, r.pick, i);
  }

  lemma RoundKeepsWatching(c: Config, r: Round, watched: set<nat>)
    requires Watching(c, watched) && LegalRound(c, r, watched)
    ensures Watching(Next(c, r), watched) && |Next(c, r).tasks| == |c.tasks|
  {
    RoundAt(c, r, watched, r.pick);
    DispatchedSound(Demoted(c, r), r.pick);
    forall i | i in watched ensures i < |c.tasks| && StaysReady(Next(c, r), i) {
      RoundAt(c, r, watched, i);
    }
  }

  /**
    The kernel's calls are such runs: n dispatches in a row, with the first listed task among those that
    stay ready. None of them panics.
   */
  method Dispatches(kcb: Kernel, n: nat, ghost watched: set<nat>) returns (ghost run: seq<Round>)
    requires kcb.Valid() && Watching(Config(kcb.tasks, kcb.current), watched) && 0 in watched
    modifies kcb`tasks, kcb`current
    ensures |run| == n && LegalRun(old(Config(kcb.tasks, kcb.current)), run, watched)
    ensures Last(old(Config(kcb.tasks, kcb.current)), run, watched) == Config(kcb.tasks, kcb.current)
  {
    if n == 0 {
      return [];
    }
    ghost var c := Config(kcb.tasks, kcb.current);
    FirstReadyNeverPanics(Demote(c.tasks, c.current));
    var id, panic := kcb.Schedule();
    ghost var r := Round(c.tasks, kcb.current);
    assert LegalRound(c, r, watched) && Next(c, r) == Config(kcb.tasks, kcb.current);
    RoundKeepsWatching(c, r, watched);
    run := Dispatches(kcb, n - 1, watched);
    ghost var rest := run;
    run := [r] + rest;
    assert run[1..] == rest;
  }

  // Conservation: a task that stays ready pays out exactly the virtual time that passes, and gets
  // its base back with every pick.
  lemma {:induction false} Conservation(c: Config, run: seq<Round>, watched: set<nat>, i: nat)
    requires Watching(c, watched) && LegalRun(c, run, watched) && i in watched
    ensures var e := Last(c, run, watched);
            && Watching(e, watched) && |e.tasks| == |c.tasks|
            && High(e.tasks[i].priority) == High(c.tasks[i].priority)
            && Low(c.tasks[i].priority) + High(c.tasks[i].priority) * Served(run, i)
               == Low(e.tasks[i].priority) + Elapsed(c, run, watched)
    decreases |run|
  {
    hide Watching, Demoted, Next, Low, High;
    if run != [] {
      RoundKeepsWatching(c, run[0], watched);
      RoundAt(c, run[0], watched, i);
      Conservation(Next(c, run[0]), run[1..], watched, i);
      var e := Last(c, run, watched);
      Balance(Low(c.tasks[i].priority), High(c.tasks[i].priority), Low(Demoted(c, run[0])[run[0].pick].priority),
              Low(Next(c, run[0]).tasks[i].priority), run[0].pick == i, Served(run[1..], i),
              Low(e.tasks[i].priority), Elapsed(Next(c, run[0]), run[1..], watched));
    }
  }

  // The law's books after one more call at the front
  lemma Balance(low: nat, base: nat, toll: nat, low': nat, picked: bool, rest: nat, end: nat, elapsed: nat)
    requires low' == if picked then base else low - toll
    requires picked ==> low == toll
    requires low' + base * rest == end + elapsed
    ensures low + base * ((if picked then 1 else 0) + rest) == end + (toll + elapsed)
  {
    assert base * (1 + rest) == base + base * rest;
  }

  // Proportional share: from a fresh start, base * picks of two tasks that stay ready never drift
  // apart by more than the larger base.
  lemma ProportionalShare(c: Config, run: seq<Round>, watched: set<nat>, i: nat, j: nat)
    requires Watching(c, watched) && LegalRun(c, run, watched) && i in watched && j in watched
    requires Low(c.tasks[i].priority) == High(c.tasks[i].priority)
    requires Low(c.tasks[j].priority) == High(c.tasks[j].priority)
    ensures var x, y := High(c.tasks[i].priority), High(c.tasks[j].priority);
            var lag := x * Served(run, i) - y * Served(run, j);
            -(if x < y then y else x) <= lag <= (if x < y then y else x)
  {
    Conservation(c, run, watched, i);
    Conservation(c, run, watched, j);
    var e := Last(c, run, watched);
    assert SoundPriority(e.tasks[i].priority) && SoundPriority(e.tasks[j].priority);
  }

  // From any start, in any window of a run: by no more than the sum of the two bases.
  lemma WindowShare(c: Config, run: seq<Round>, watched: set<nat>, i: nat, j: nat)
    requires Watching(c, watched) && LegalRun(c, run, watched) && i in watched && j in watched
    ensures var x, y := High(c.tasks[i].priority), High(c.tasks[j].priority);
            -(x + y) <= x * Served(run, i) - y * Served(run, j) <= x + y
  {
    Conservation(c, run, watched, i);
    Conservation(c, run, watched, j);
    var e := Last(c, run, watched);
    assert SoundPriority(e.tasks[i].priority) && SoundPriority(e.tasks[j].priority);
    assert SoundPriority(c.tasks[i].priority) && SoundPriority(c.tasks[j].priority);
  }

  // ---------- bounded waiting ----------

  // How often a task with this countdown and base can still be picked before one with countdown `low`
  function Picks(low: nat, count: nat, base: nat): nat
    requires 0 < base
  {
    if count > low then 0 else (low - count) / base + 1
  }

  lemma PicksWithinBound(low: nat, count: nat, base: nat)
    requires 0 < base
    ensures Picks(low, count, base) <= low / base + 1
  {
    if count <= low { DivMonotone(low - count, low, base); }
  }

  lemma PicksOfPicked(low: nat, count: nat, base: nat)
    requires 0 < base && count <= low
    ensures Picks(low - count, base, base) + 1 == Picks(low, count, base)
  {
    if base <= low - count { DivStep(low - count, base); } else { DivUnique(low - count, base, 0); }
  }

  lemma PicksOfPaying(low: nat, count: nat, base: nat, toll: nat)
    requires 0 < base && toll <= low && toll <= count
    ensures Picks(low - toll, count - toll, base) == Picks(low, count, base)
  {
  }

  lemma PicksOfIdle(low: nat, count: nat, base: nat, toll: nat)
    requires 0 < base && toll <= low
    ensures Picks(low - toll, count, base) <= Picks(low, count, base)
  {
    if count <= low - toll { DivMonotone(low - toll - count, low - count, base); }
  }

  function Budget(low: nat, p: u16): nat
    requires SoundPriority(p)
  {
    Picks(low, Low(p), High(p))
  }

  // The ranking function: the budgets of the first n tasks other than i, against i's countdown
  ghost function Rank(ts: seq<Tcb>, i: nat, low: nat, n: nat): nat
    requires Sound(ts) && n <= |ts|
  {
    if n == 0 then 0
    else Rank(ts, i, low, n - 1) + if n - 1 == i then 0 else Budget(low, ts[n - 1].priority)
  }

  // At most how often a task is picked before one with countdown `low`, by its base alone
  function MostPicks(low: nat, p: u16): nat
    requires SoundPriority(p)
  {
    low / High(p) + 1
  }

  // The bound in terms of the bases alone
  ghost function Bound(ts: seq<Tcb>, i: nat, low: nat, n: nat): nat
    requires Sound(ts) && n <= |ts|
  {
    if n == 0 then 0
    else Bound(ts, i, low, n - 1)
         + if n - 1 == i then 0 else MostPicks(low, ts[n - 1].priority)
  }

  lemma RankWithinBound(ts: seq<Tcb>, i: nat, low: nat, n: nat)
    requires Sound(ts) && n <= |ts|
    ensures Rank(ts, i, low, n) <= Bound(ts, i, low, n)
  {
    if n > 0 {
      RankWithinBound(ts, i, low, n - 1);
      assert SoundPriority(ts[n - 1].priority);
      PicksWithinBound(low, Low(ts[n - 1].priority), High(ts[n - 1].priority));
    }
  }

  // One call that does not pick i costs the picked task's budget one and raises no budget.
  lemma BudgetStep(c: Config, r: Round, i: nat, j: nat)
    requires Watching(c, {i}) && LegalRound(c, r, {i}) && r.pick != i && j < |c.tasks| && j != i
    ensures Sound(Next(c, r).tasks) && |Next(c, r).tasks| == |c.tasks|
    ensures SoundPriority(c.tasks[j].priority)
    ensures Budget(Low(Next(c, r).tasks[i].priority), Next(c, r).tasks[j].priority) + (if j == r.pick then 1 else 0)
            <= Budget(Low(c.tasks[i].priority), c.tasks[j].priority)
  {
    RoundKeepsWatching(c, r, {i});
    RoundAt(c, r, {i}, i);
    RoundAt(c, r, {i}, j);
    hide Low, High, Picks, Demoted, Next;
    var low, p, toll := Low(c.tasks[i].priority), c.tasks[j].priority, Low(Demoted(c, r)[r.pick].priority);
    assert SoundPriority(p) && SoundPriority(Next(c, r).tasks[j].priority);
    if j == r.pick {
      PicksOfPicked(low, Low(p), High(p));
    } else if Eligible(Demoted(c, r)[j]) {
      PicksOfPaying(low, Low(p), High(p), toll);
    } else {
      PicksOfIdle(low, Low(p), High(p), toll);
    }
  }

  lemma {:induction false} RankStep(c: Config, r: Round, i: nat, n: nat)
    requires Watching(c, {i}) && LegalRound(c, r, {i}) && r.pick != i && n <= |c.tasks|
    ensures Sound(Next(c, r).tasks) && |Next(c, r).tasks| == |c.tasks|
    ensures Rank(Next(c, r).tasks, i, Low(Next(c, r).tasks[i].priority), n) + (if r.pick < n then 1 else 0)
            <= Rank(c.tasks, i, Low(c.tasks[i].priority), n)
  {
    hide Low, High, Budget, Demoted, LegalRound;
    RoundKeepsWatching(c, r, {i});
    if n > 0 {
      RankStep(c, r, i, n - 1);
      if n - 1 != i { BudgetStep(c, r, i, n - 1); }
    }
  }

  // No starvation: a run that never picks the ready task i is no longer than i's rank, which the
  // bases of the other tasks bound. The other tasks may block and wake as they like.
  lemma {:induction false} BoundedWait(c: Config, run: seq<Round>, i: nat)
    requires Watching(c, {i}) && LegalRun(c, run, {i}) && i < |c.tasks| && Served(run, i) == 0
    ensures |run| <= Rank(c.tasks, i, Low(c.tasks[i].priority), |c.tasks|)
    ensures |run| <= Bound(c.tasks, i, Low(c.tasks[i].priority), |c.tasks|)
    decreases |run|
  {
    RankWithinBound(c.tasks, i, Low(c.tasks[i].priority), |c.tasks|);
    if run != [] {
      RoundKeepsWatching(c, run[0], {i});
      RankStep(c, run[0], i, |c.tasks|);
      BoundedWait(Next(c, run[0]), run[1..], i);
    }
  }
}
