/** Whole runs of malloc and free, on the reference model and on the two allocators side by side. */
module HeapTrace {
  import opened FirstFit
  import opened Words
  import L = LazyHeap
  import E = EagerHeap

  datatype Call = Malloc(request: nat) | Free(ptr: nat)

  // One call on the reference model: the state behind it, and the pointer a malloc returns.
  ghost function Step(a: Arena, c: Call): (Arena, nat)
    requires c.Free? ==> LivePointer(a, c.ptr)
  {
    match c
    case Malloc(request) => FirstFit.Malloc(a, Effective(request))
    case Free(ptr) => (FirstFit.Free(a, ptr), 0)
  }

  // No rounded request is so large that adding a header wraps around, and an empty one, or one that is
  // rounded to empty, is made only where it fits; free is called on live pointers.
  ghost predicate LegalCall(a: Arena, c: Call) {
    match c
    case Malloc(request) =>
      && request < W32 && Align4(Effective(request)) + HEADER < W32
      && (0 < Effective(request) || FirstFit.Malloc(a, 0).1 != 0)
    case Free(ptr) => LivePointer(a, ptr)
  }

  ghost predicate Legal(a: Arena, calls: seq<Call>)
    decreases |calls|
  {
    calls == [] || (LegalCall(a, calls[0]) && Legal(Step(a, calls[0]).0, calls[1..]))
  }

  ghost function Run(a: Arena, calls: seq<Call>): Arena
    requires Legal(a, calls)
    decreases |calls|
  {
    if calls == [] then a else Run(Step(a, calls[0]).0, calls[1..])
  }

  ghost function Results(a: Arena, calls: seq<Call>): seq<nat>
    requires Legal(a, calls)
    decreases |calls|
  {
    if calls == [] then [] else [Step(a, calls[0]).1] + Results(Step(a, calls[0]).0, calls[1..])
  }

  // In every state a legal run reaches, live blocks are in bounds and apart, and the heap's last
  // HEADER bytes in front of the sentinel are free.
  lemma {:induction false} RunWellFormed(a: Arena, calls: seq<Call>)
    requires WellFormed(a) && Legal(a, calls)
    ensures WellFormed(Run(a, calls)) && Run(a, calls).base == a.base && Run(a, calls).end == a.end
    decreases |calls|
  {
    if calls != [] {
      match calls[0] {
        case Malloc(request) => MallocWellFormed(a, Effective(request));
        case Free(ptr) => FreeWellFormed(a, ptr);
      }
      RunWellFormed(Step(a, calls[0]).0, calls[1..]);
    }
  }

  // A block that no call of the run frees is still there at its end, where it was.
  lemma {:induction false} RunKeepsBlock(a: Arena, calls: seq<Call>, h: nat)
    requires WellFormed(a) && Legal(a, calls) && h in a.live
    requires Call.Free(h + HEADER) !in calls
    ensures h in Run(a, calls).live && Run(a, calls).live[h] == a.live[h]
    decreases |calls|
  {
    if calls != [] {
      match calls[0] {
        case Malloc(request) =>
          MallocWellFormed(a, Effective(request));
          LowestFitIsLowest(a, Need(Effective(request)), a.cursor);
        case Free(ptr) =>
          FreeWellFormed(a, ptr);
          assert calls[0] == Call.Free(ptr);
      }
      RunKeepsBlock(Step(a, calls[0]).0, calls[1..], h);
    }
  }

  // Every block is freed by some call.
  ghost predicate AllFreed(a: Arena, calls: seq<Call>) {
    forall h | h in a.live :: Call.Free(h + HEADER) in calls
  }

  // Once every live block has been freed, in whatever order, the heap is whole again.
  lemma {:induction false} AllFreedIsEmpty(a: Arena, calls: seq<Call>, request: nat)
    requires WellFormed(a) && Legal(a, calls) && AllFreed(a, calls) && forall c | c in calls :: c.Free?
    ensures Run(a, calls).live == map[]
    ensures FirstFit.Malloc(Run(a, calls), request).1 != 0
            <==> Align4(request) + HEADER + HEADER <= a.end - a.base
    decreases |calls|
  {
    if calls == [] {
      assert a.live.Keys == {};
      EmptyHeapServes(a, request);
    } else {
      var ptr := calls[0].ptr;
      var b := Step(a, calls[0]).0;
      FreeTakesOut(a, ptr);
      FreeWellFormed(a, ptr);
      assert calls == [calls[0]] + calls[1..];
      forall h | h in b.live ensures Call.Free(h + HEADER) in calls[1..] {
        assert Call.Free(h + HEADER) in calls && h in a.live;
      }
      AllFreedIsEmpty(b, calls[1..], request);
    }
  }

  // A call and then a run
  lemma RunOf(a: Arena, c: Call, calls: seq<Call>)
    requires LegalCall(a, c) && Legal(Step(a, c).0, calls)
    ensures Legal(a, [c] + calls) && Run(a, [c] + calls) == Run(Step(a, c).0, calls)
  {
    assert ([c] + calls)[1..] == calls;
  }

  // The steps of a run that lifts the search pointer above a freed block
  lemma HiddenGapSteps()
    ensures Step(Arena(8, 280, map[], 8), Malloc(100)).0 == Arena(8, 280, map[8 := 116], 8)
    ensures Step(Arena(8, 280, map[8 := 116, 116 := 140], 116), Call.Free(16)).0 == Arena(8, 280, map[116 := 140], 8)
  {
    SearchRun(Arena(8, 280, map[], 8), Need(100), 8, 8, 8, 9);
  }

  lemma SecondBlock()
    ensures Step(Arena(8, 280, map[8 := 116], 8), Malloc(16)).0
            == Arena(8, 280, map[8 := 116, 116 := 140], 116)
  {
    SearchRun(Arena(8, 280, map[8 := 116], 8), Need(16), 8, 8, 116, 117);
  }

  lemma BlockAboveGap()
    ensures Step(Arena(8, 280, map[116 := 140], 8), Malloc(120)).0
            == Arena(8, 280, map[116 := 140, 140 := 268], 140)
  {
    var d := Arena(8, 280, map[116 := 140], 8);
    SearchRun(d, Need(120), 8, 8, 8, 140);
    assert 116 in d.live && !Fits(d, 8, Need(120));
    SearchRun(d, Need(120), 8, 140, 140, 141);
  }

  // In a heap that mallocs and frees lead to, malloc fails with room left below the search pointer.
  lemma HiddenGapReached()
    ensures var (a, calls) := (Arena(8, 280, map[], 8), [Malloc(100), Malloc(16), Call.Free(16), Malloc(120)]);
            Legal(a, calls) && FirstFit.Malloc(Run(a, calls), 8).1 == 0 && Fits(Run(a, calls), 8, Need(8))
  {
    hide FirstFit.Malloc, Step, Fits, Need;
    HiddenGapSteps();
    SecondBlock();
    BlockAboveGap();
    RunOf(Arena(8, 280, map[116 := 140], 8), Malloc(120), []);
    RunOf(Arena(8, 280, map[8 := 116, 116 := 140], 116), Call.Free(16), [Malloc(120)]);
    RunOf(Arena(8, 280, map[8 := 116], 8), Malloc(16), [Call.Free(16), Malloc(120)]);
    RunOf(Arena(8, 280, map[], 8), Malloc(100), [Malloc(16), Call.Free(16), Malloc(120)]);
    CursorHidesGap();
  }

  ghost predicate Agree(lazy: L.LazyHeap, eager: E.EagerHeap, a: Arena)
    reads lazy, eager
  {
    lazy.Valid() && eager.Valid() && lazy.Contents() == eager.Contents() == a
  }

  method CallBoth(lazy: L.LazyHeap, eager: E.EagerHeap, c: Call, ghost a: Arena) returns (x: nat, y: nat)
    requires Agree(lazy, eager, a) && LegalCall(a, c)
    modifies lazy, eager
    ensures Agree(lazy, eager, Step(a, c).0) && x == y == Step(a, c).1
  {
    match c {
      case Malloc(request) =>
        x := lazy.Malloc(request);
        var fault;
        y, fault := eager.Malloc(request);
        assert !fault;
      case Free(ptr) =>
        lazy.Free(ptr);
        eager.Free(ptr);
        x, y := 0, 0;
    }
  }

  // The lazy and the eager allocator answer every legal run alike, address by address, and as the
  // reference model does; the eager one never follows the sentinel's null link.
  method RunBoth(lazy: L.LazyHeap, eager: E.EagerHeap, ghost a: Arena, calls: seq<Call>)
    returns (xs: seq<nat>, ys: seq<nat>)
    requires Agree(lazy, eager, a) && Legal(a, calls)
    modifies lazy, eager
    ensures Agree(lazy, eager, Run(a, calls)) && xs == ys == Results(a, calls)
  {
    hide Legal, LegalCall, Run, Results, Step;
    ghost var b := a;
    xs, ys := [], [];
    assert calls[0..] == calls;
    for i := 0 to |calls|
      invariant Agree(lazy, eager, b) && Legal(b, calls[i..]) && Run(b, calls[i..]) == Run(a, calls)
      invariant xs == ys && xs + Results(b, calls[i..]) == Results(a, calls)
    {
      ghost var rest := calls[i..];
      assert rest[0] == calls[i] && rest[1..] == calls[i + 1..];
      FirstCall(b, rest);
      var x, y := CallBoth(lazy, eager, calls[i], b);
      assert xs + [x] + Results(Step(b, calls[i]).0, rest[1..]) == xs + Results(b, rest);
      b := Step(b, calls[i]).0;
      xs, ys := xs + [x], ys + [y];
    }
    assert calls[|calls|..] == [];
    NoCall(b);
  }

  lemma FirstCall(a: Arena, calls: seq<Call>)
    requires calls != [] && Legal(a, calls)
    ensures LegalCall(a, calls[0]) && Legal(Step(a, calls[0]).0, calls[1..])
    ensures Run(a, calls) == Run(Step(a, calls[0]).0, calls[1..])
    ensures Results(a, calls) == [Step(a, calls[0]).1] + Results(Step(a, calls[0]).0, calls[1..])
  {
  }

  lemma NoCall(a: Arena)
    ensures Legal(a, []) && Run(a, []) == a && Results(a, []) == []
  {
  }
}
