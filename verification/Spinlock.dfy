/**
  The spinlock on any number of cores, one shared-memory access at a time, under sequential
  consistency.
 */
module Spinlock {

  const NO_CPU: nat := 0xffff        // (uint16_t)-1

  datatype Call = Acquire | Release

  /**
    Where a core stands. `mine` remembers whether the core owned the lock when it made the call; the
    code does not have it, and no transition depends on it except the return to the caller.
   */
  datatype Pc =
    | Idle                                   // outside, not owning the lock
    | ReadLocked(call: Call, mine: bool)     // holding(): about to read lock->locked
    | ReadCpu(call: Call, mine: bool)        // holding(): about to read lock->cpu
    | TestAndSet(mine: bool)                 // spinning
    | StoreCpu                               // won the test-and-set, about to store lock->cpu
    | Owner                                  // acquire has returned
    | ClearCpu                               // release: about to store -1 in lock->cpu
    | ClearLocked                            // release: about to clear lock->locked

  datatype Lock = Lock(locked: bool, cpu: nat, cores: seq<Pc>)

  function At(s: Lock, c: nat, pc: Pc): Lock
    requires c < |s.cores|
  {
    s.(cores := s.cores[c := pc])
  }

  // What a call does when holding() says no, or yes
  function NotHolding(call: Call, mine: bool): Pc {
    if call == Acquire then TestAndSet(mine) else if mine then Owner else Idle
  }

  function IsHolding(call: Call): Pc {
    if call == Acquire then Owner else ClearCpu
  }

  // The next access of core c; `call` is the call a core outside makes.
  function Step(s: Lock, c: nat, call: Call): (r: Lock)
    requires c < |s.cores|
    ensures |r.cores| == |s.cores|
  {
    match s.cores[c]
    case Idle => At(s, c, ReadLocked(call, false))
    case Owner => At(s, c, ReadLocked(call, true))
    case ReadLocked(k, mine) => At(s, c, if s.locked then ReadCpu(k, mine) else NotHolding(k, mine))
    case ReadCpu(k, mine) => At(s, c, if s.cpu == c then IsHolding(k) else NotHolding(k, mine))
    case TestAndSet(_) => if s.locked then s else At(s, c, StoreCpu).(locked := true)
    case StoreCpu => At(s, c, Owner).(cpu := c)
    case ClearCpu => At(s, c, ClearLocked).(cpu := NO_CPU)
    case ClearLocked => At(s, c, Idle).(locked := false)
  }

  // From winning the test-and-set to clearing the lock word
  predicate Owns(pc: Pc) {
    pc == StoreCpu || pc == ClearLocked || Named(pc)
  }

  // While owning, between storing its number and clearing it
  predicate Named(pc: Pc) {
    pc == Owner || pc == ClearCpu || (pc.ReadLocked? && pc.mine) || (pc.ReadCpu? && pc.mine)
  }

  ghost predicate Inv(s: Lock) {
    && OneOwner(s) && CpuNamesOwner(s)
    && (forall c | 0 <= c < |s.cores| :: s.cores[c] != TestAndSet(true))
  }

  // The lock word says whether some core owns the lock, and no two do.
  ghost predicate OneOwner(s: Lock) {
    && (forall c, d | 0 <= c < d < |s.cores| :: !(Owns(s.cores[c]) && Owns(s.cores[d])))
    && (s.locked <==> exists c :: 0 <= c < |s.cores| && Owns(s.cores[c]))
  }

  ghost predicate CpuNamesOwner(s: Lock) {
    && |s.cores| <= NO_CPU && (s.cpu < |s.cores| || s.cpu == NO_CPU)
    && (forall c | 0 <= c < |s.cores| :: s.cpu == c <==> Named(s.cores[c]))
  }

  // ucx_lock_init
  lemma InitInv(n: nat)
    requires n <= NO_CPU
    ensures Inv(Lock(false, NO_CPU, seq(n, _ => Idle)))
  {
  }

  lemma StepKeepsInv(s: Lock, c: nat, call: Call)
    requires Inv(s) && c < |s.cores|
    ensures Inv(Step(s, c, call))
  {
    assert Owns(s.cores[c]) ==> s.locked;
    assert s.cpu == c <==> Named(s.cores[c]);
    OwnersAfter(s, c, call);
    OneOwnerAfter(s, c, call);
  }

  lemma OneOwnerAfter(s: Lock, c: nat, call: Call)
    requires Inv(s) && c < |s.cores|
    ensures OneOwner(Step(s, c, call))
  {
    OwnersAfter(s, c, call);
    var s' := Step(s, c, call);
    assert s'.locked ==> Owns(s'.cores[c]) || exists d :: 0 <= d < |s'.cores| && d != c && Owns(s.cores[d]);
  }

  // Only a test-and-set makes an owner, and only clearing the lock word ends ownership.
  lemma OwnersAfter(s: Lock, c: nat, call: Call)
    requires Inv(s) && c < |s.cores|
    ensures var s' := Step(s, c, call);
            && |s'.cores| == |s.cores|
            && (forall d | 0 <= d < |s.cores| && d != c :: s'.cores[d] == s.cores[d])
            && (Owns(s'.cores[c]) <==> (Owns(s.cores[c]) && s.cores[c] != ClearLocked)
                                       || (s.cores[c].TestAndSet? && !s.locked))
            && (s'.locked <==> if Owns(s.cores[c]) then s.cores[c] != ClearLocked
                               else s.locked || s.cores[c].TestAndSet?)
            && (s.cores[c] == ClearLocked ==> Owns(s.cores[c]))
  {
    assert Owns(s.cores[c]) ==> s.locked;
    assert s.cpu == c <==> Named(s.cores[c]);
  }

  // ---------- every interleaving ----------

  // One access: which core makes it, and the call it makes if it stands outside one
  datatype Move = Move(core: nat, call: Call)

  predicate OnCores(moves: seq<Move>, n: nat) {
    forall i | 0 <= i < |moves| :: moves[i].core < n
  }

  function Run(s: Lock, moves: seq<Move>): Lock
    requires OnCores(moves, |s.cores|)
    decreases |moves|
  {
    if moves == [] then s
    else
      assert forall i | 0 <= i < |moves[1..]| :: moves[1..][i] == moves[i + 1];
      Run(Step(s, moves[0].core, moves[0].call), moves[1..])
  }

  // In every reachable state at most one core owns the lock, the lock word says whether one does,
  // and lock->cpu names a core only while that core owns it.
  lemma {:induction false} MutualExclusion(s: Lock, moves: seq<Move>)
    requires Inv(s) && OnCores(moves, |s.cores|)
    ensures Inv(Run(s, moves)) && |Run(s, moves).cores| == |s.cores|
    decreases |moves|
  {
    if moves != [] {
      StepKeepsInv(s, moves[0].core, moves[0].call);
      OwnersAfter(s, moves[0].core, moves[0].call);
      assert forall i | 0 <= i < |moves[1..]| :: moves[1..][i] == moves[i + 1];
      MutualExclusion(Step(s, moves[0].core, moves[0].call), moves[1..]);
    }
  }

  // holding() answers right, whatever happens between its two reads: it says yes to a core exactly
  // if that core owned the lock when it called.
  lemma HoldingIsExact(s: Lock, moves: seq<Move>, c: nat)
    requires Inv(s) && OnCores(moves, |s.cores|) && c < |s.cores|
    ensures var r := Run(s, moves);
            c < |r.cores| &&
            match r.cores[c]
            case ReadLocked(_, mine) => mine ==> r.locked
            case ReadCpu(_, mine) => r.cpu == c <==> mine
            case _ => true
  {
    MutualExclusion(s, moves);
    var r := Run(s, moves);
    assert r.cpu == c <==> Named(r.cores[c]);
  }

  // A core that owns the lock keeps it, and its name in lock->cpu, until it moves itself.
  lemma {:induction false} OwnerUndisturbed(s: Lock, moves: seq<Move>, c: nat)
    requires Inv(s) && OnCores(moves, |s.cores|) && c < |s.cores| && Owns(s.cores[c])
    requires forall i | 0 <= i < |moves| :: moves[i].core != c
    ensures var r := Run(s, moves);
            |r.cores| == |s.cores| && r.cores[c] == s.cores[c] && r.locked && (r.cpu == c <==> s.cpu == c)
    decreases |moves|
  {
    MutualExclusion(s, moves);
    if moves != [] {
      StepKeepsInv(s, moves[0].core, moves[0].call);
      OwnersAfter(s, moves[0].core, moves[0].call);
      assert forall i | 0 <= i < |moves[1..]| :: moves[1..][i] == moves[i + 1];
      OwnerUndisturbed(Step(s, moves[0].core, moves[0].call), moves[1..], c);
    }
  }

  // A release by a core that does not own the lock writes nothing: each of its accesses leaves the
  // lock and the other cores alone, and the second one at the latest returns to the caller.
  lemma StrayRelease(s: Lock, c: nat, call: Call)
    requires Inv(s) && c < |s.cores|
    requires s.cores[c] == ReadLocked(Release, false) || s.cores[c] == ReadCpu(Release, false)
    ensures var s' := Step(s, c, call);
            && s' == s.(cores := s.cores[c := s'.cores[c]])
            && (s'.cores[c] == Idle || (s.cores[c].ReadLocked? && s'.cores[c] == ReadCpu(Release, false)))
  {
    assert s.cpu == c <==> Named(s.cores[c]);
  }

  // ---------- acquiring ----------

  // Between calling acquire and its return
  predicate Acquiring(pc: Pc) {
    pc.TestAndSet? || pc == StoreCpu || (pc.ReadLocked? && pc.call == Acquire) || (pc.ReadCpu? && pc.call == Acquire)
  }

  // The call begins an acquire, one access of an acquire continues it or returns as the owner, and no access of
  // another core touches it.
  lemma AcquireStep(s: Lock, c: nat, d: nat, call: Call)
    requires c < |s.cores| && d < |s.cores|
    ensures var s' := Step(s, d, call);
            && (c != d ==> s'.cores[c] == s.cores[c])
            && (c == d && call == Acquire && (s.cores[c] == Idle || s.cores[c] == Owner) ==> Acquiring(s'.cores[c]))
            && (c == d && Acquiring(s.cores[c]) ==> Acquiring(s'.cores[c]) || s'.cores[c] == Owner)
  {
  }

  // After these accesses core c is in its acquire.
  ghost predicate AcquiringAfter(s: Lock, moves: seq<Move>, c: nat) {
    OnCores(moves, |s.cores|) && c < |Run(s, moves).cores| && Acquiring(Run(s, moves).cores[c])
  }

  // Over every interleaving: a core that has been in its acquire up to some access is still in it behind that
  // access, or has returned to its caller as the owner.
  lemma AcquireReturnsOwner(s: Lock, moves: seq<Move>, c: nat)
    requires OnCores(moves, |s.cores|) && moves != [] && AcquiringAfter(s, moves[..|moves| - 1], c)
    ensures AcquiringAfter(s, moves, c) || (c < |Run(s, moves).cores| && Run(s, moves).cores[c] == Owner)
  {
    RunLast(s, moves);
    AcquireStep(Run(s, moves[..|moves| - 1]), c, moves[|moves| - 1].core, moves[|moves| - 1].call);
  }

  lemma {:induction false} RunCores(s: Lock, moves: seq<Move>)
    requires OnCores(moves, |s.cores|)
    ensures |Run(s, moves).cores| == |s.cores|
    decreases |moves|
  {
    if moves != [] {
      assert forall i | 0 <= i < |moves[1..]| :: moves[1..][i] == moves[i + 1];
      RunCores(Step(s, moves[0].core, moves[0].call), moves[1..]);
    }
  }

  // A run is one without its last access, and then that access.
  lemma {:induction false} RunLast(s: Lock, moves: seq<Move>)
    requires OnCores(moves, |s.cores|) && moves != []
    ensures var (before, last) := (moves[..|moves| - 1], moves[|moves| - 1]);
            && OnCores(before, |s.cores|) && |Run(s, before).cores| == |s.cores|
            && Run(s, moves) == Step(Run(s, before), last.core, last.call)
    decreases |moves|
  {
    var (before, last) := (moves[..|moves| - 1], moves[|moves| - 1]);
    RunCores(s, before);
    if |moves| > 1 {
      var t := Step(s, moves[0].core, moves[0].call);
      assert forall i | 0 <= i < |moves[1..]| :: moves[1..][i] == moves[i + 1];
      RunLast(t, moves[1..]);
      assert moves[1..][..|moves| - 2] == before[1..];
    }
  }

  // On a free lock four accesses make an acquire: the lock word is set, the core's number is stored, and no
  // other core is touched.
  lemma FreeLockAcquired(s: Lock, c: nat)
    requires c < |s.cores| && s.cores[c] == Idle && !s.locked
    ensures Steps(s, c, Acquire, 4) == Lock(true, c, s.cores[c := Owner])
  {
    assert Steps(s, c, Acquire, 1) == At(s, c, ReadLocked(Acquire, false));
    assert Steps(s, c, Acquire, 2) == At(s, c, TestAndSet(false));
    assert Steps(s, c, Acquire, 3) == At(s, c, StoreCpu).(locked := true);
  }

  // On a lock another core owns an acquire spins: its accesses change nothing until the lock word is clear.
  lemma {:induction false} TakenLockSpins(s: Lock, c: nat, mine: bool, n: nat)
    requires c < |s.cores| && s.cores[c] == TestAndSet(mine) && s.locked
    ensures Steps(s, c, Acquire, n) == s
    decreases n
  {
    if n > 0 { TakenLockSpins(s, c, mine, n - 1); }
  }

  // Acquired and released again, a free lock is free.
  lemma AcquireReleased(s: Lock, c: nat)
    requires Inv(s) && c < |s.cores| && s.cores[c] == Idle && !s.locked
    ensures Steps(Steps(s, c, Acquire, 4), c, Release, 5) == s.(cpu := NO_CPU)
  {
    FreeLockAcquired(s, c);
    var t := Lock(true, c, s.cores[c := Owner]);
    assert Steps(t, c, Release, 1) == At(t, c, ReadLocked(Release, true));
    assert Steps(t, c, Release, 2) == At(t, c, ReadCpu(Release, true));
    assert Steps(t, c, Release, 3) == At(t, c, ClearCpu);
    assert Steps(t, c, Release, 4) == At(t, c, ClearLocked).(cpu := NO_CPU);
  }

  function Steps(s: Lock, c: nat, call: Call, n: nat): (r: Lock)
    requires c < |s.cores|
    ensures |r.cores| == |s.cores|
  {
    if n == 0 then s else Step(Steps(s, c, call, n - 1), c, call)
  }

  // Acquiring a lock one owns returns at once and is not counted: it changes nothing, so the first
  // release after it frees the lock.
  lemma ReentryNotCounted(s: Lock, c: nat)
    requires Inv(s) && c < |s.cores| && s.cores[c] == Owner
    ensures Steps(s, c, Acquire, 3) == s
    ensures Steps(s, c, Release, 5) == At(s, c, Idle).(locked := false, cpu := NO_CPU)
  {
    assert Owns(s.cores[c]) && Named(s.cores[c]);
    assert Steps(s, c, Acquire, 1) == At(s, c, ReadLocked(Acquire, true));
    assert Steps(s, c, Acquire, 2) == At(s, c, ReadCpu(Acquire, true));
    assert Steps(s, c, Release, 1) == At(s, c, ReadLocked(Release, true));
    assert Steps(s, c, Release, 2) == At(s, c, ReadCpu(Release, true));
    assert Steps(s, c, Release, 3) == At(s, c, ClearCpu);
    assert Steps(s, c, Release, 4) == At(s, c, ClearLocked).(cpu := NO_CPU);
  }
}
