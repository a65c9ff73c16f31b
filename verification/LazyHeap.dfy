/**
  The default allocator: free only clears the used bit, malloc coalesces the runs it sweeps over.
  Headers of free blocks may hold stale sizes; a sweep rewrites each one before it is compared.
 */
module LazyHeap {
  import opened Arith
  import opened FirstFit
  import opened Words
  import opened BlockChain

  // malloc on any memory: the memory and the search pointer it leaves, and the pointer it returns
  function MallocFrom(m: Memory, lastFree: nat, request: nat): Option<(Memory, nat, nat)> {
    var size := Align4(request) % W32;
    match SweepFrom(m, lastFree, (size + HEADER) % W32)
    case None => None
    case Some(r) =>
      var (m', p) := r;
      if m'[p].next == 0 then Some((m', lastFree, 0))
      else
        var rest := Minus(Minus(WithoutUsedBit(WithUsedBit(size)), size), HEADER);
        Some((RawSplitAt(m', p, size, rest), p, p + HEADER))
  }

  class LazyHeap {
    var hdr: Memory
    var firstFree: nat
    var lastFree: nat
    ghost var nodes: set<nat>
    ghost var end: nat

    ghost predicate Valid()
      reads this
    {
      && Chain(hdr, nodes, firstFree, end) && AllAligned(nodes, firstFree, end)
      && (lastFree == firstFree || lastFree in Live(hdr, nodes))
    }

    ghost function Contents(): Arena
      reads this
      requires Valid()
    {
      Arena(firstFree, end, Live(hdr, nodes), lastFree)
    }

    constructor (zone: nat, len: nat)
      requires 0 < zone && HEADER + HEADER <= len && zone + len <= W32
      ensures Valid() <==> len % 2 == 0
      ensures Valid() ==> Contents() == Arena(zone, zone + len - HEADER, map[], zone)
    {
      var q := zone + len - HEADER;
      hdr := map[zone := Header(q, InitialSize(len)), q := Header(0, 0)];
      firstFree, lastFree := zone, zone;
      nodes, end := {zone, q}, q;
      new;
      FirstBlock(hdr, zone, len);
    }

    method Free(ptr: nat)
      requires Valid() && LivePointer(Contents(), ptr)
      modifies this
      ensures Valid() && Contents() == FirstFit.Free(old(Contents()), ptr)
      ensures PayloadsKept(old(hdr), hdr, old(Contents()).live)
    {
      var p := ptr - HEADER;
      ReleaseKeepsChain(hdr, nodes, firstFree, end, p);
      ReleaseRemovesLive(hdr, nodes, p);
      hdr := hdr[p := Header(hdr[p].next, WithoutUsedBit(hdr[p].size))];
      lastFree := firstFree;
    }

    // The coalescing sweep of malloc: stops at the sentinel or at the first run of at least
    // `limit` bytes behind its header.
    method Sweep(limit: nat) returns (p: nat)
      requires Valid() && limit < W32
      modifies this`hdr, this`nodes
      ensures Valid() && Contents() == old(Contents())
      ensures PayloadsKept(old(hdr), hdr, Contents().live)
      ensures p in nodes && p <= end && p in hdr && (hdr[p].next == 0 <==> p == end)
      ensures p < end ==> !Used(hdr, p) && p + limit + HEADER <= hdr[p].next
      ensures LowestFit(Contents(), limit + HEADER, lastFree) == if p == end then None else Some(p)
      ensures SweepFrom(old(hdr), lastFree, limit) == Some((hdr, p))
    {
      hide SweepFrom;
      ghost var a, n := Contents(), limit + HEADER;
      p := lastFree;
      var q := p;
      while hdr[p].next != 0
        invariant Valid() && Contents() == a && PayloadsKept(old(hdr), hdr, a.live)
        invariant p in nodes && a.cursor <= p && (p == a.base || p in a.live || p == end)
        invariant SweepFrom(old(hdr), lastFree, limit) == SweepFrom(hdr, p, limit)
        invariant NoFit(a, n, a.cursor, p) && (p == q || p == end || Used(hdr, p))
        decreases end - p
      {
        p, q := Round(p, q, limit);
        if hdr[q].size >= limit {
          p := q;
          return;
        }
      }
      assert p < end ==> Linked(hdr, nodes, p);
      SearchEnds(a, n, a.cursor);
      SweepStops(hdr, p, limit);
    }

    // One round of the sweep's outer loop: the next run of free blocks becomes one, at q.
    method Round(p0: nat, q0: nat, ghost limit: nat) returns (p: nat, q: nat)
      requires Valid() && p0 in nodes && p0 < end && (p0 == q0 || Used(hdr, p0))
      requires var a := Contents();
               a.cursor <= p0 && (p0 == a.base || p0 in a.live) && NoFit(a, limit + HEADER, a.cursor, p0)
      modifies this`hdr, this`nodes
      ensures Valid() && Contents() == old(Contents()) && PayloadsKept(old(hdr), hdr, Contents().live)
      ensures q in nodes && p in nodes && p0 < p <= end && (p == end || p in Contents().live)
      ensures q + HEADER <= p && hdr[q] == Header(p, p - q - HEADER) && !Used(hdr, q)
      ensures var (a, n) := (Contents(), limit + HEADER);
              if limit <= hdr[q].size then LowestFit(a, n, a.cursor) == Some(q) else NoFit(a, n, a.cursor, p)
      ensures SweepFrom(old(hdr), p0, limit)
              == if limit <= hdr[q].size then Some((hdr, q)) else SweepFrom(hdr, p, limit)
    {
      hide SweepFrom, PastUsed, PastFree, AllAligned, MergeAt, LowestFit;
      ghost var a, m, n := Contents(), hdr, limit + HEADER;
      assert Linked(hdr, nodes, p0);
      p, q := SkipUsed(hdr, nodes, a, p0, q0);
      p := SkipFree(hdr, nodes, a, q);
      RunIsGap(hdr, nodes, a.base, end, a.cursor, q, p, n);
      SearchRun(a, n, a.cursor, p0, q, p);
      SweepRound(m, p0, q, p, limit);
      CoalesceRun(q, p);
    }

    method CoalesceRun(q: nat, p: nat)
      requires Valid() && FreeRun(hdr, nodes, q, p) && q < p
      modifies this`hdr, this`nodes
      ensures Valid() && Contents() == old(Contents())
      ensures PayloadsKept(old(hdr), hdr, Contents().live)
      ensures nodes == Merged(old(nodes), q, p) && hdr == MergeAt(old(hdr), q, p)
      ensures q + HEADER <= p && hdr[q] == Header(p, p - q - HEADER) && !Used(hdr, q)
    {
      MergeKeepsChain(hdr, nodes, firstFree, end, q, p);
      assert Linked(hdr, nodes, q);
      EvenApart(nodes, firstFree, end, q, p);
      MergedSize(hdr, q, p);
      hdr := hdr[q := Header(p, Minus(Minus(p, q), HEADER))];
      nodes := Merged(nodes, q, p);
    }

    /**
      All of it is 32-bit arithmetic. A request whose rounding wraps around is served as an empty one; one
      whose rounded size leaves no room for a header yields no block, though it may yield a pointer.
     */
    method Malloc(request: nat) returns (ptr: nat)
      requires Valid() && request < W32
      modifies this
      ensures Align4(Effective(request)) + HEADER < W32 ==>
                && Valid() && (Contents(), ptr) == FirstFit.Malloc(old(Contents()), Effective(request))
                && PayloadsKept(old(hdr), hdr, old(Contents()).live)
      ensures Align4(Effective(request)) + HEADER >= W32 ==>
                if ptr == 0 then Valid() && Contents() == old(Contents())
                else ptr >= HEADER && NeverLive(hdr, firstFree, old(end), ptr - HEADER)
      ensures MallocFrom(old(hdr), old(lastFree), request) == Some((hdr, lastFree, ptr))
    {
      hide Chain, AllAligned, Align4, Live, NeverLive, LowestFit, SweepFrom, RawSplitAt, Minus;
      EffectiveSize(request);
      LimitIs(Align4(request) % W32);
      Align4Multiple(Effective(request));
      StaleSize(Align4(request) % W32);
      var size := Align4(request) % W32;
      var p := Sweep((size + HEADER) % W32);
      if hdr[p].next == 0 {
        return 0;
      }
      ptr := Place(p, Effective(request), size);
    }

    method Place(p: nat, ghost request: nat, size: nat) returns (ptr: nat)
      requires Valid() && p in nodes && p < end && !Used(hdr, p) && size == Align4(request) < W32
      requires size + HEADER < W32 ==> p + Need(request) <= hdr[p].next
      modifies this
      ensures size + HEADER < W32 ==>
                && Valid() && PayloadsKept(old(hdr), hdr, old(Contents()).live)
                && var a := old(Contents()); Contents() == a.(live := a.live[p := p + HEADER + size], cursor := p)
      ensures size + HEADER >= W32 ==> NeverLive(hdr, firstFree, end, p)
      ensures ptr == p + HEADER && firstFree == old(firstFree) && end == old(end) && lastFree == p
      ensures p in old(hdr) && hdr == RawSplitAt(old(hdr), p, size, W32 - HEADER)
    {
      hide Chain, AllAligned, PayloadsKept, Minus, WithUsedBit, WithoutUsedBit, Align4, Live, NeverLive;
      ghost var m := hdr;
      Align4Multiple(request);
      StaleSize(size);
      NodeStored(m, nodes, firstFree, end, p);
      if size + HEADER < W32 {
        PlaceKeeps(m, nodes, firstFree, end, p, request, W32 - HEADER);
        NoWrap(m, nodes, firstFree, end, p, size, W32 - HEADER);
        nodes := nodes + {p + HEADER + size};
      } else {
        WrappedSplit(m, nodes, firstFree, end, p, size, W32 - HEADER);
      }
      lastFree := p;
      var r := hdr[p].next;
      hdr := hdr[p := Header((p + size + HEADER) % W32, WithUsedBit(size))];
      hdr := hdr[hdr[p].next := Header(r, Minus(Minus(WithoutUsedBit(hdr[p].size), size), HEADER))];
      assert hdr == RawSplitAt(m, p, size, W32 - HEADER);
      ptr := p + HEADER;
    }
  }

  // ---------- a heap of odd length ----------

  // The memory a new heap starts with
  function Initial(zone: nat, len: nat): Memory
    requires HEADER <= len
  {
    map[zone := Header(zone + len - HEADER, InitialSize(len)), zone + len - HEADER := Header(0, 0)]
  }

  lemma MallocAfterSweep(m: Memory, lastFree: nat, request: nat, m': Memory, p: nat)
    requires Align4(request) + HEADER < W32 && p in m'
    requires SweepFrom(m, lastFree, Align4(request) + HEADER) == Some((m', p))
    ensures var r := MallocFrom(m, lastFree, request);
            if m'[p].next == 0 then r == Some((m', lastFree, 0))
            else r.Some? && r.value.1 == p && r.value.2 == p + HEADER
  {
    hide Align4, SweepFrom, Minus;
    DivUnique(Align4(request), W32, 0);
    DivUnique(Align4(request) + HEADER, W32, 0);
  }

  // The same memory with its one block marked as used by an odd size
  function Filled(zone: nat, len: nat): Memory
    requires HEADER + HEADER <= len
  {
    Initial(zone, len)[zone := Header(zone + len - HEADER, len - HEADER - HEADER)]
  }

  lemma SweepFills(zone: nat, len: nat, limit: nat)
    requires 0 < zone && HEADER + HEADER <= len && zone + len <= W32 && len % 2 == 1
    requires len - HEADER - HEADER < limit
    ensures SweepFrom(Initial(zone, len), zone, limit) == Some((Filled(zone, len), zone + len - HEADER))
    ensures Used(Filled(zone, len), zone)
  {
    hide SweepFrom, InitialSize;
    var m, end := Initial(zone, len), zone + len - HEADER;
    InitialSizeIff(len);
    MergedSize(m, zone, end);
    assert MergeAt(m, zone, end) == Filled(zone, len);
    assert PastUsed(m, zone) == Some(zone) && PastFree(m, zone) == Some(end);
    SweepRound(m, zone, zone, end, limit);
    SweepStops(Filled(zone, len), end, limit);
  }

  lemma SweepOverruns(zone: nat, len: nat, limit: nat)
    requires 0 < zone && HEADER + HEADER <= len && zone + len <= W32 && len % 2 == 1
    requires limit <= W32 - HEADER
    ensures var end := zone + len - HEADER;
            SweepFrom(Filled(zone, len), zone, limit)
            == Some((Filled(zone, len)[end := Header(end, W32 - HEADER)], end))
  {
    hide SweepFrom, InitialSize, Minus;
    var m, end := Filled(zone, len), zone + len - HEADER;
    assert m[end] == Header(0, 0) && m[zone] == Header(end, len - HEADER - HEADER) && Used(m, zone);
    assert PastUsed(m, end) == Some(end) && PastFree(m, end) == Some(end);
    assert PastUsed(m, zone) == Some(end);
    MinusIs(end, end);
    MinusIs(0, HEADER);
    SweepRound(m, zone, end, end, limit);
  }

  // A request that a new heap of odd length has no room for leaves its one block marked as used...
  lemma OddHeapFills(zone: nat, len: nat, request: nat)
    requires 0 < zone && HEADER + HEADER <= len && zone + len <= W32 && len % 2 == 1
    requires Align4(request) + HEADER < W32 && len < Need(request) + HEADER
    ensures MallocFrom(Initial(zone, len), zone, request) == Some((Filled(zone, len), zone, 0))
    ensures Used(Filled(zone, len), zone)
  {
    hide MallocFrom, SweepFrom, Align4;
    SweepFills(zone, len, Align4(request) + HEADER);
    MallocAfterSweep(Initial(zone, len), zone, request, Filled(zone, len), zone + len - HEADER);
  }

  // ...and the next malloc runs into the sentinel: its sweep links the sentinel to itself, and the address
  // behind the heap is returned as that of a block.
  lemma OddHeapOverruns(zone: nat, len: nat, request: nat)
    requires 0 < zone && HEADER + HEADER <= len && zone + len <= W32 && len % 2 == 1
    requires Need(request) <= W32
    ensures var end := zone + len - HEADER;
            SweepFrom(Filled(zone, len), zone, Align4(request) + HEADER)
            == Some((Filled(zone, len)[end := Header(end, W32 - HEADER)], end))
    ensures var r := MallocFrom(Filled(zone, len), zone, request); r.Some? && r.value.2 == zone + len
  {
    hide MallocFrom, SweepFrom, Align4;
    var end := zone + len - HEADER;
    SweepOverruns(zone, len, Align4(request) + HEADER);
    MallocAfterSweep(Filled(zone, len), zone, request, Filled(zone, len)[end := Header(end, W32 - HEADER)], end);
  }
}
