/** Task control blocks and the arithmetic of their 16-bit priority word. */
module Tasks {
  import opened Arith
  import opened Bits
  import opened Words

  datatype State = Stopped | Ready | Running | Blocked | Suspended

  datatype Tcb = Tcb(id: u16, state: State, delay: u16, priority: u16, rt: bool)

  // The eight bytes ucx_task_priority accepts, once as the base and once as the countdown
  const BASES: set<nat> := {0x01, 0x03, 0x07, 0x0f, 0x1f, 0x3f, 0x7f, 0xff}

  // Countdown: the least significant byte
  function Low(p: u16): u8 {
    p % 256
  }

  // Base: the most significant byte
  function High(p: u16): u8 {
    p / 256
  }

  function Word(high: nat, low: nat): (p: u16)
    requires high < 256 && low < 256
    ensures High(p) == high && Low(p) == low
  {
    high * 256 + low
  }

  // p -= x on a uint16_t
  function Minus(p: u16, x: u16): u16 {
    if x <= p then p - x else p + 0x1_0000 - x
  }

  function Or8(x: nat, y: nat): (z: nat)
    requires x < 256 && y < 256
    ensures z < 256
  {
    OrBound(x, y, 8);
    IntPow2At8();
    Or(x, y)
  }

  lemma Or8Zero(y: nat)
    requires y < 256
    ensures Or8(0, y) == y
  {
    ZeroOr(y);
  }

  // p |= (p >> 8) & 0xff
  function Reload(p: u16): u16 {
    Word(High(p), Or8(Low(p), High(p)))
  }

  // No borrow reaches the base as long as no more than the countdown is taken off.
  lemma MinusKeepsHigh(p: u16, x: nat)
    requires x <= Low(p)
    ensures Low(Minus(p, x)) == Low(p) - x && High(Minus(p, x)) == High(p)
  {
    assert p == 256 * High(p) + Low(p);
    assert Minus(p, x) == 256 * High(p) + (Low(p) - x);
  }

  // On any word the base stays and its bits are added to those of the countdown.
  lemma ReloadBits(p: u16, k: nat)
    ensures High(Reload(p)) == High(p)
    ensures Bit(Low(Reload(p)), k) <==> Bit(Low(p), k) || Bit(High(p), k)
  {
    OrBit(Low(p), High(p), k);
  }

  // On a countdown that reached zero the bitwise or is an exact reload.
  lemma ReloadAtZero(p: u16)
    requires Low(p) == 0
    ensures Low(Reload(p)) == High(p) && High(Reload(p)) == High(p)
  {
    Or8Zero(High(p));
  }

  // A non-realtime task that is ready to run
  predicate Eligible(t: Tcb) {
    t.state == Ready && !t.rt
  }

  // Reachable priority words: a countdown of at most a non-zero base
  predicate SoundPriority(p: u16) {
    Low(p) <= High(p) && 1 <= High(p)
  }

  predicate Sound(ts: seq<Tcb>) {
    forall i | 0 <= i < |ts| :: SoundPriority(ts[i].priority)
  }

  // No task but the current one is marked as running.
  predicate OthersWait(ts: seq<Tcb>, cur: nat) {
    forall i | 0 <= i < |ts| && i != cur :: ts[i].state != Running
  }

  // The interrupted task goes back to READY, unless it gave up that state itself.
  function Demote(ts: seq<Tcb>, cur: nat): (d: seq<Tcb>)
    requires cur < |ts|
    ensures |d| == |ts|
  {
    if ts[cur].state == Running then ts[cur := ts[cur].(state := Ready)] else ts
  }

  // Ready or on the processor
  predicate Able(t: Tcb) {
    t.state == Ready || t.state == Running
  }

  /**
    What a scheduling call may do to a task list, whatever its policy: the picked task, if there is one, was able
    to run and is running; all others that are able to run are ready; the rest is exactly as it was.
   */
  ghost predicate Rescheduled(before: seq<Tcb>, after: seq<Tcb>, picked: Option<nat>) {
    && |after| == |before|
    && (picked.Some? ==> picked.value < |before| && Able(before[picked.value]) && !before[picked.value].rt)
    && forall i | 0 <= i < |before| ::
         if picked == Some(i) then after[i].state == Running && SameButPriority(before[i], after[i])
         else if Able(before[i]) then after[i].state == Ready && SameButPriority(before[i], after[i])
         else after[i] == before[i]
  }

  // Only state and priority may differ.
  predicate SameButPriority(t: Tcb, u: Tcb) {
    u == t.(state := u.state, priority := u.priority)
  }

  // With one task on the processor at most, the demotion makes every running task ready and no other.
  lemma DemoteAt(ts: seq<Tcb>, cur: nat, i: nat)
    requires cur < |ts| && i < |ts| && OthersWait(ts, cur)
    ensures Demote(ts, cur)[i] == if ts[i].state == Running then ts[i].(state := Ready) else ts[i]
  {
  }

  lemma DemoteReschedules(ts: seq<Tcb>, cur: nat)
    requires cur < |ts| && OthersWait(ts, cur)
    ensures Rescheduled(ts, Demote(ts, cur), None)
  {
    forall i | 0 <= i < |ts| ensures Able(ts[i]) ==> Demote(ts, cur)[i] == ts[i].(state := Ready) {
      DemoteAt(ts, cur, i);
    }
  }
}
