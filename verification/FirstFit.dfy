/**
  The reference model of the heap: which blocks are live, and where the next search starts.
  It knows nothing about headers, links or free blocks. Both allocator builds refine it.
 */
module FirstFit {
  import opened Arith
  import opened Words

  // sizeof(struct mem_block_s) on a 32-bit target
  const HEADER: nat := 8

  function Align4(x: nat): (r: nat)
    ensures x <= r < x + 4
  {
    (x + 3) / 4 * 4
  }

  lemma Align4Multiple(x: nat)
    ensures Align4(x) % 4 == 0 && Align4(x) % 2 == 0
    ensures Align4(x) == 0 <==> x == 0
  {
    var k := (x + 3) / 4;
    assert x + 3 == 4 * k + (x + 3) % 4;
    DivUnique(4 * k, 4, k);
    DivUnique(4 * k, 2, 2 * k);
  }

  predicate Aligned(base: nat, x: nat) {
    (x as int - base as int) % 4 == 0
  }

  lemma AlignedAdd(base: nat, x: nat, d: nat)
    requires Aligned(base, x) && d % 4 == 0
    ensures Aligned(base, x + d)
  {
  }

  /**
    `live` maps the header address of each block in use to the first address behind its payload;
    the payload is [h + HEADER, live[h]). `cursor` is where the next search begins.
   */
  datatype Arena = Arena(base: nat, end: nat, live: map<nat, nat>, cursor: nat)

  ghost predicate WellFormed(a: Arena) {
    && 0 < a.base && a.base + HEADER <= a.end && a.end + HEADER <= W32
    && (forall h | h in a.live :: InBounds(a, h))
    && (forall h, k | h in a.live && k in a.live && h < k :: a.live[h] <= k)
    && (a.cursor == a.base || a.cursor in a.live)
  }

  // A header and a 4-aligned payload inside the heap, with room for one more header behind it.
  ghost predicate InBounds(a: Arena, h: nat)
    requires h in a.live
  {
    && a.base <= h && h + HEADER <= a.live[h] && a.live[h] + HEADER <= a.end
    && Aligned(a.base, h) && Aligned(a.base, a.live[h])
  }

  // A maximal run of free memory begins at g.
  ghost predicate GapStart(a: Arena, g: nat) {
    && a.base <= g < a.end && g !in a.live
    && (g == a.base || exists h :: h in a.live && a.live[h] == g)
  }

  // The n bytes from g on belong to no live block.
  ghost predicate Room(a: Arena, g: nat, n: nat) {
    g + n <= a.end && forall h | h in a.live && g <= h :: g + n <= h
  }

  ghost predicate Fits(a: Arena, g: nat, n: nat) {
    GapStart(a, g) && Room(a, g, n)
  }

  // Nothing in [from, to) has room for n bytes.
  ghost predicate NoFit(a: Arena, n: nat, from: nat, to: nat) {
    forall g | from <= g < to :: !Fits(a, g, n)
  }

  // No gap starts in [from, to).
  ghost predicate NoGap(a: Arena, from: nat, to: nat) {
    forall g | from <= g < to :: !GapStart(a, g)
  }

  // The lowest gap at or after `from` with room for n bytes, looked for address by address.
  ghost function LowestFit(a: Arena, n: nat, from: nat): Option<nat>
    decreases a.end - from
  {
    if from >= a.end then None
    else if Fits(a, from, n) then Some(from)
    else LowestFit(a, n, from + 1)
  }

  lemma {:induction false} LowestFitIsLowest(a: Arena, n: nat, from: nat)
    ensures match LowestFit(a, n, from)
            case Some(g) => from <= g && Fits(a, g, n) && NoFit(a, n, from, g)
            case None => NoFit(a, n, from, a.end)
    decreases a.end - from
  {
    if from < a.end && !Fits(a, from, n) {
      LowestFitIsLowest(a, n, from + 1);
    }
  }

  // A search that reached p moves on to the run [q, next), which has q as its only gap start.
  lemma SearchRun(a: Arena, n: nat, from: nat, p: nat, q: nat, next: nat)
    requires from <= p <= q < next && NoFit(a, n, from, p) && NoGap(a, p, q) && NoGap(a, q + 1, next)
    ensures if Fits(a, q, n) then LowestFit(a, n, from) == Some(q) else NoFit(a, n, from, next)
  {
    LowestFitIsLowest(a, n, from);
  }

  lemma SearchEnds(a: Arena, n: nat, from: nat)
    requires NoFit(a, n, from, a.end)
    ensures LowestFit(a, n, from) == None
  {
    LowestFitIsLowest(a, n, from);
  }

  // A request takes its own header, its payload, and the header of the remainder.
  function Need(request: nat): nat {
    Align4(request) + HEADER + HEADER
  }

  ghost function Malloc(a: Arena, request: nat): (Arena, nat) {
    match LowestFit(a, Need(request), a.cursor)
    case None => (a, 0)
    case Some(g) => (a.(live := a.live[g := g + HEADER + Align4(request)], cursor := g), g + HEADER)
  }

  predicate LivePointer(a: Arena, ptr: nat) {
    ptr >= HEADER && ptr - HEADER in a.live
  }

  function Free(a: Arena, ptr: nat): Arena
    requires LivePointer(a, ptr)
  {
    a.(live := a.live - {ptr - HEADER}, cursor := a.base)
  }

  lemma MallocWellFormed(a: Arena, request: nat)
    requires WellFormed(a)
    ensures WellFormed(Malloc(a, request).0)
  {
    hide LowestFit, Align4, Aligned;
    match LowestFit(a, Need(request), a.cursor)
    case None =>
    case Some(g) =>
      var b := Malloc(a, request).0;
      LowestFitIsLowest(a, Need(request), a.cursor);
      GapBehindLive(a, g);
      Align4Multiple(request);
      AlignedAdd(a.base, g, HEADER + Align4(request));
      assert InBounds(b, g);
      forall h | h in b.live && h != g ensures InBounds(b, h) {
        assert InBounds(a, h);
      }
  }

  // A gap start is aligned, and every live block below it ends at or before it.
  lemma GapBehindLive(a: Arena, g: nat)
    requires WellFormed(a) && GapStart(a, g)
    ensures Aligned(a.base, g)
    ensures forall h | h in a.live && h < g :: a.live[h] <= g
  {
    if g != a.base {
      var k :| k in a.live && a.live[k] == g;
      assert InBounds(a, k);
    }
  }

  lemma FreeWellFormed(a: Arena, ptr: nat)
    requires WellFormed(a) && LivePointer(a, ptr)
    ensures WellFormed(Free(a, ptr))
  {
    var b := Free(a, ptr);
    forall h | h in b.live ensures InBounds(b, h) {
      assert InBounds(a, h);
    }
  }

  // ---------- what callers rely on ----------

  // malloc returns 0 exactly when no gap at or after the cursor has room.
  lemma MallocFailsIff(a: Arena, request: nat)
    ensures Malloc(a, request).1 == 0 <==> NoFit(a, Need(request), a.cursor, a.end)
    ensures Malloc(a, request).1 == 0 ==> Malloc(a, request).0 == a
  {
    LowestFitIsLowest(a, Need(request), a.cursor);
  }

  // The bytes of block h, header included, in a state where it is live
  ghost predicate Apart(a: Arena, h: nat, k: nat)
    requires h in a.live && k in a.live
  {
    a.live[h] <= k || a.live[k] <= h
  }

  // A block that malloc returns is big enough and apart from every live block, none of which changes.
  lemma MallocServes(a: Arena, request: nat)
    requires WellFormed(a) && Malloc(a, request).1 != 0
    ensures var (b, ptr) := Malloc(a, request); var h := ptr - HEADER;
            && HEADER <= ptr && h !in a.live && b.live.Keys == a.live.Keys + {h}
            && ptr + request <= b.live[h] <= a.end - HEADER && Aligned(a.base, ptr)
            && (forall k | k in a.live :: b.live[k] == a.live[k] && Apart(b, h, k))
            && b.live[h] < ptr + request + 4 && b.cursor == h && b.base == a.base && b.end == a.end
            && NoFit(a, Need(request), a.cursor, h)
  {
    hide LowestFit, Align4, Aligned;
    var (b, ptr) := Malloc(a, request);
    LowestFitIsLowest(a, Need(request), a.cursor);
    GapBehindLive(a, ptr - HEADER);
    AlignedAdd(a.base, ptr - HEADER, HEADER);
  }

  // The request that is left of one whose rounding wraps around in 32 bits: nothing
  function Effective(request: nat): nat {
    if Align4(request) >= W32 then 0 else request
  }

  lemma EffectiveSize(request: nat)
    requires request < W32
    ensures Align4(request) % W32 == Align4(Effective(request)) < W32
  {
    Align4Multiple(0);
    Align4Multiple(request);
    if Align4(request) >= W32 {
      assert Align4(request) == W32;
    } else {
      DivUnique(Align4(request), W32, 0);
    }
  }

  // A block malloc returns holds the request exactly if its rounding does not wrap around.
  lemma HoldsRequestIff(a: Arena, request: nat)
    requires WellFormed(a) && request < W32 && Malloc(a, Effective(request)).1 != 0
    ensures var (b, ptr) := Malloc(a, Effective(request));
            LivePointer(b, ptr) && (ptr + request <= b.live[ptr - HEADER] <==> Align4(request) < W32)
  {
    MallocServes(a, Effective(request));
    Align4Multiple(0);
  }

  // free takes the block out, whichever live one it is: no other block changes, none is added, and the search
  // starts over.
  lemma FreeTakesOut(a: Arena, ptr: nat)
    requires LivePointer(a, ptr)
    ensures var (b, h) := (Free(a, ptr), ptr - HEADER);
            && h !in b.live && b.live.Keys == a.live.Keys - {h}
            && (forall k | k in a.live && k != h :: k in b.live && b.live[k] == a.live[k])
            && b.cursor == a.base == b.base && b.end == a.end
  {
  }

  // free takes back exactly what malloc added.
  lemma FreeUndoesMalloc(a: Arena, request: nat)
    requires WellFormed(a) && Malloc(a, request).1 != 0
    ensures var (b, ptr) := Malloc(a, request);
            LivePointer(b, ptr) && Free(b, ptr) == a.(cursor := a.base)
  {
    MallocServes(a, request);
  }

  // With nothing live the heap is whole again: only the two headers are lost.
  lemma EmptyHeapServes(a: Arena, request: nat)
    requires WellFormed(a) && a.live == map[]
    ensures Malloc(a, request).1 != 0 <==> Align4(request) + HEADER + HEADER <= a.end - a.base
  {
    assert GapStart(a, a.base);
    LowestFitIsLowest(a, Need(request), a.cursor);
  }

  // The search is first-fit over the whole heap exactly when no gap below the cursor has room.
  lemma FirstFitIff(a: Arena, request: nat)
    requires WellFormed(a)
    ensures LowestFit(a, Need(request), a.cursor) == LowestFit(a, Need(request), a.base)
            <==> NoFit(a, Need(request), a.base, a.cursor)
  {
    assert a.cursor != a.base ==> InBounds(a, a.cursor);
    LowestFitIsLowest(a, Need(request), a.cursor);
    LowestFitIsLowest(a, Need(request), a.base);
  }

  // It can fail with room left: 100 free bytes below the cursor, and a request for 8.
  lemma CursorHidesGap()
    ensures var a := Arena(8, 280, map[116 := 140, 140 := 268], 140);
            WellFormed(a) && Malloc(a, 8).1 == 0 && Fits(a, 8, Need(8))
  {
    var a := Arena(8, 280, map[116 := 140, 140 := 268], 140);
    assert InBounds(a, 116) && InBounds(a, 140);
    SearchEnds(a, Need(8), 140);
  }
}
