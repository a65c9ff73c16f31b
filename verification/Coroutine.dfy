/** Coroutine groups: a countdown per coroutine, and one list traversal per scheduling call. */
module Coroutine {
  import opened Arith
  import opened Words

  // struct ccb_s without its code
  datatype Ccb = Ccb(priority: u8, pcounter: u8)

  function Dec(p: u8): u8 {
    if p == 0 then 255 else p - 1
  }

  // A countdown from p takes p decrements to reach zero, and 256 from zero itself.
  function Period(p: u8): (n: nat)
    ensures 0 < n <= 256
  {
    if p == 0 then 256 else p
  }

  // cr_trysched on coroutine i and on those behind it, until one runs
  function CallFrom(cs: seq<Ccb>, i: nat): (r: (seq<Ccb>, Option<nat>))
    requires i <= |cs|
    ensures |r.0| == |cs|
    decreases |cs| - i
  {
    if i == |cs| then (cs, None)
    else
      var c := cs[i].(pcounter := Dec(cs[i].pcounter));
      if c.pcounter == 0 then (cs[i := c.(pcounter := c.priority)], Some(i))
      else CallFrom(cs[i := c], i + 1)
  }

  // One call of ucx_cr_schedule: the group it leaves, and the coroutine it runs
  function Call(cs: seq<Ccb>): (r: (seq<Ccb>, Option<nat>))
    ensures |r.0| == |cs|
  {
    CallFrom(cs, 0)
  }

  class Group {
    var crlist: seq<Ccb>

    // ucx_cr_add, with memory for it
    method Add(priority: u8)
      modifies this
      ensures crlist == old(crlist) + [Ccb(priority, priority)]
    {
      crlist := crlist + [Ccb(priority, priority)];
    }

    // ucx_cr_schedule over list_foreach
    method Schedule() returns (ran: Option<nat>)
      modifies this
      ensures (crlist, ran) == Call(old(crlist))
    {
      var node := 0;
      while node < |crlist|
        invariant node <= |crlist| && CallFrom(crlist, node) == Call(old(crlist))
        decreases |crlist| - node
      {
        var cr := crlist[node];
        cr := cr.(pcounter := Dec(cr.pcounter));
        if cr.pcounter == 0 {
          cr := cr.(pcounter := cr.priority);
          crlist := crlist[node := cr];
          return Some(node);
        }
        crlist := crlist[node := cr];
        node := node + 1;
      }
      return None;
    }
  }

  // Whether a call that ran `ran` came to coroutine k
  predicate Visits(ran: Option<nat>, k: nat) {
    ran == None || k <= ran.value
  }

  // A call counts every coroutine it visits down by one; the one that gets to zero runs and is reloaded.
  lemma {:induction false} CallEffect(cs: seq<Ccb>, i: nat, k: nat)
    requires i <= k < |cs|
    ensures var (r, ran) := CallFrom(cs, i); var c := cs[k];
            && (ran.Some? ==> i <= ran.value < |cs|)
            && (ran == Some(k) <==> Visits(ran, k) && Dec(c.pcounter) == 0)
            && r[k] == if !Visits(ran, k) then c
                       else c.(pcounter := if Dec(c.pcounter) == 0 then c.priority else Dec(c.pcounter))
    decreases |cs| - i
  {
    var c := cs[i].(pcounter := Dec(cs[i].pcounter));
    if c.pcounter == 0 {
    } else if i < k {
      CallEffect(cs[i := c], i + 1, k);
    } else {
      CallBehind(cs[i := c], i + 1, k);
    }
  }

  // What lies in front of i stays as it is.
  lemma {:induction false} CallBehind(cs: seq<Ccb>, i: nat, k: nat)
    requires k < i <= |cs|
    ensures var (r, ran) := CallFrom(cs, i);
            r[k] == cs[k] && (ran.Some? ==> i <= ran.value < |cs|)
    decreases |cs| - i
  {
    if i < |cs| {
      var c := cs[i].(pcounter := Dec(cs[i].pcounter));
      if c.pcounter != 0 { CallBehind(cs[i := c], i + 1, k); }
    }
  }

  // The group after t calls
  function After(cs: seq<Ccb>, t: nat): (r: seq<Ccb>)
    ensures |r| == |cs|
  {
    if t == 0 then cs else Call(After(cs, t - 1)).0
  }

  // How many of the first t calls ran coroutine k
  function Runs(cs: seq<Ccb>, k: nat, t: nat): nat {
    if t == 0 then 0 else Runs(cs, k, t - 1) + if Call(After(cs, t - 1)).1 == Some(k) then 1 else 0
  }

  // How many of the first t calls ran one of the first k coroutines
  function EarlierRuns(cs: seq<Ccb>, k: nat, t: nat): nat {
    if k == 0 then 0 else EarlierRuns(cs, k - 1, t) + Runs(cs, k - 1, t)
  }

  // How many of the first t calls visited coroutine k
  function Visited(cs: seq<Ccb>, k: nat, t: nat): nat {
    if t == 0 then 0 else Visited(cs, k, t - 1) + if Visits(Call(After(cs, t - 1)).1, k) then 1 else 0
  }

  // A call passes k by exactly if it runs an earlier coroutine.
  lemma {:induction false} EarlierStep(cs: seq<Ccb>, k: nat, t: nat)
    requires 0 < t
    ensures EarlierRuns(cs, k, t)
            == EarlierRuns(cs, k, t - 1) + if Visits(Call(After(cs, t - 1)).1, k) then 0 else 1
    decreases k
  {
    if k > 0 { EarlierStep(cs, k - 1, t); }
  }

  lemma {:induction false} VisitedIs(cs: seq<Ccb>, k: nat, t: nat)
    ensures Visited(cs, k, t) + EarlierRuns(cs, k, t) == t
    decreases t
  {
    if t == 0 {
      NoEarlierRuns(cs, k);
    } else {
      VisitedIs(cs, k, t - 1);
      EarlierStep(cs, k, t);
    }
  }

  lemma {:induction false} NoEarlierRuns(cs: seq<Ccb>, k: nat)
    ensures EarlierRuns(cs, k, 0) == 0
  {
    if k > 0 { NoEarlierRuns(cs, k - 1); }
  }

  predicate Fresh(cs: seq<Ccb>) {
    forall k | 0 <= k < |cs| :: cs[k].pcounter == cs[k].priority
  }

  lemma OneMoreRun(n: nat, p: nat)
    ensures (n + 1) * p == n * p + p
  {
  }

  // Every Period-th visit runs the coroutine; the countdown holds what is left of the period.
  lemma {:induction false} RunsOverVisits(cs: seq<Ccb>, k: nat, t: nat)
    requires Fresh(cs) && k < |cs|
    ensures var (p, v, c) := (Period(cs[k].priority), Visited(cs, k, t), After(cs, t)[k]);
            && c.priority == cs[k].priority
            && Runs(cs, k, t) * p + (p - Period(c.pcounter)) == v && Period(c.pcounter) <= p
    decreases t
  {
    hide CallFrom;
    if t > 0 {
      RunsOverVisits(cs, k, t - 1);
      CallEffect(After(cs, t - 1), 0, k);
      OneMoreRun(Runs(cs, k, t - 1), Period(cs[k].priority));
    }
  }

  /**
    The group's schedule in closed form: after t calls coroutine k has run once for every full period
    among the calls that were not taken by an earlier coroutine.
   */
  lemma RunsInClosedForm(cs: seq<Ccb>, k: nat, t: nat)
    requires Fresh(cs) && k < |cs|
    ensures EarlierRuns(cs, k, t) <= t
    ensures Runs(cs, k, t) == (t - EarlierRuns(cs, k, t)) / Period(cs[k].priority)
  {
    hide After, Runs, EarlierRuns, Visited;
    VisitedIs(cs, k, t);
    RunsOverVisits(cs, k, t);
    var (p, c) := (Period(cs[k].priority), After(cs, t)[k]);
    DivUnique(Visited(cs, k, t), p, Runs(cs, k, t));
  }

  // At most one coroutine runs in a call, so all runs together are at most the calls.
  lemma AtMostOnePerCall(cs: seq<Ccb>, t: nat)
    ensures EarlierRuns(cs, |cs|, t) <= t
  {
    VisitedIs(cs, |cs|, t);
  }
}
