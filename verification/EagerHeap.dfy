/**
  The CONFIG_ALT_ALLOCATOR build: free coalesces the whole heap, malloc takes the first free block
  at or after the one it allocated last.
 */
module EagerHeap {
  import opened FirstFit
  import opened Words
  import opened BlockChain

  class EagerHeap {
    var hdr: Memory
    var ff: nat
    var pheap: nat
    ghost var nodes: set<nat>
    ghost var end: nat

    ghost predicate ChainValid()
      reads this
    {
      && Chain(hdr, nodes, pheap, end) && AllAligned(nodes, pheap, end)
      && (ff == pheap || ff in Live(hdr, nodes))
    }

    ghost predicate Valid()
      reads this
    {
      ChainValid() && CompactBelow(hdr, nodes, end, end)
    }

    ghost function Contents(): Arena
      reads this
      requires ChainValid()
    {
      Arena(pheap, end, Live(hdr, nodes), ff)
    }

    constructor (zone: nat, len: nat)
      requires 0 < zone && HEADER + HEADER <= len && zone + len <= W32
      ensures Valid() <==> len % 4 == 0
      ensures Valid() ==> Contents() == Arena(zone, zone + len - HEADER, map[], zone)
    {
      hide Chain, AllAligned, CompactBelow, InitialSize, Live;
      var q := zone + len - HEADER;
      hdr := map[zone := Header(q, InitialSize(len)), q := Header(0, 0)];
      ff, pheap := zone, zone;
      nodes, end := {zone, q}, q;
      new;
      FirstBlock(hdr, zone, len);
    }

    method Free(ptr: nat)
      requires Valid() && LivePointer(Contents(), ptr)
      modifies this
      ensures Valid() && Contents() == FirstFit.Free(old(Contents()), ptr)
      ensures PayloadsKept(old(hdr), hdr, Contents().live)
    {
      Release(ptr - HEADER);
      ghost var a := Contents();
      var p := pheap;
      var q := pheap;
      while hdr[p].next != 0
        invariant ChainValid() && Contents() == a && PayloadsKept(old(hdr), hdr, a.live)
        invariant p in nodes && CompactBelow(hdr, nodes, end, p)
        invariant p == q || p == end || Used(hdr, p)
        decreases end - p
      {
        p, q := Step(p, q);
      }
      assert p < end ==> Linked(hdr, nodes, p);
    }

    // One round of free's outer loop
    method Step(p0: nat, q0: nat) returns (p: nat, q: nat)
      requires ChainValid() && p0 in nodes && p0 < end && CompactBelow(hdr, nodes, end, p0)
      requires p0 == q0 || Used(hdr, p0)
      modifies this`hdr, this`nodes
      ensures ChainValid() && Contents() == old(Contents())
      ensures PayloadsKept(old(hdr), hdr, Contents().live)
      ensures p0 < p <= end && p in nodes && CompactBelow(hdr, nodes, end, p)
      ensures p == end || Used(hdr, p)
    {
      hide AllAligned, CompactBelow, PayloadsKept, Minus, NoGap;
      NodeStored(hdr, nodes, pheap, end, p0);
      p, q := SkipUsed(hdr, nodes, Contents(), p0, q0);
      p := SkipFree(hdr, nodes, Contents(), q);
      MergeKeepsChain(hdr, nodes, pheap, end, q, p);
      MergeExtendsCompact(hdr, nodes, pheap, end, p0, q, p);
      hdr := hdr[q := Header(p, Minus(Minus(p, q), HEADER))];
      nodes := Merged(nodes, q, p);
    }

    method Release(p: nat)
      requires Valid() && p in Live(hdr, nodes)
      modifies this
      ensures ChainValid() && Contents() == FirstFit.Free(old(Contents()), p + HEADER)
      ensures PayloadsKept(old(hdr), hdr, old(Contents()).live)
    {
      ReleaseKeepsChain(hdr, nodes, pheap, end, p);
      ReleaseRemovesLive(hdr, nodes, p);
      hdr := hdr[p := Header(hdr[p].next, WithoutUsedBit(hdr[p].size))];
      ff := pheap;
    }

    /**
      All of it is 32-bit arithmetic, as in the default build. `fault` says that the search ran off the end
      of the chain: at the sentinel only a request for a non-empty payload is turned down, an empty one
      follows the sentinel's null link.
     */
    method Malloc(request: nat) returns (ptr: nat, fault: bool)
      requires Valid() && request < W32
      modifies this
      ensures Align4(Effective(request)) + HEADER < W32 ==>
                && Valid() && (Contents(), ptr) == FirstFit.Malloc(old(Contents()), Effective(request))
                && PayloadsKept(old(hdr), hdr, old(Contents()).live)
      ensures Align4(Effective(request)) + HEADER >= W32 ==>
                if ptr == 0 then Valid() && Contents() == old(Contents())
                else ptr >= HEADER && NeverLive(hdr, pheap, old(end), ptr - HEADER)
      ensures fault <==> Effective(request) == 0 && ptr == 0
    {
      hide Chain, AllAligned, CompactBelow, Align4, Live, NeverLive, LowestFit;
      EffectiveSize(request);
      Align4Multiple(request);
      Align4Multiple(Effective(request));
      LimitIs(Align4(request) % W32);
      var size := Align4(request) % W32;
      var p := Search(size, (size + HEADER) % W32);
      if hdr[p].next == 0 {
        return 0, size <= hdr[p].size;
      }
      ptr := Place(p, Effective(request), size);
      fault := false;
    }

    // The search loop; behind a block without room comes the next one, and at the sentinel it ends.
    method Search(size: nat, limit: nat) returns (p: nat)
      requires Valid() && limit < W32
      ensures p in nodes && p <= end && p in hdr && (p == end ==> hdr[p].size == 0) && (hdr[p].next == 0 <==> p == end)
      ensures p < end ==> !Used(hdr, p) && p + limit + HEADER <= hdr[p].next
      ensures LowestFit(Contents(), limit + HEADER, ff) == if p == end then None else Some(p)
    {
      ghost var a, n := Contents(), limit + HEADER;
      p := ff;
      while hdr[p].size < limit || hdr[p].size % 2 == 1
        invariant p in nodes && a.cursor <= p && NoFit(a, n, a.cursor, p) && (p == end ==> 0 < limit)
        invariant p == a.base || p in a.live || p == end || exists h :: h in a.live && hdr[h].next == p
        decreases end - p
      {
        assert p < end ==> Linked(hdr, nodes, p);
        if hdr[p].next == 0 {
          SearchEnds(a, n, a.cursor);
          return;
        }
        SkipBlock(a, n, p);
        p := hdr[p].next;
      }
      assert p < end && Linked(hdr, nodes, p) && CompactAt(hdr, end, p);
      RunIsGap(hdr, nodes, pheap, end, ff, p, hdr[p].next, n);
      SearchRun(a, n, a.cursor, p, p, hdr[p].next);
    }

    // One step of the search over a block in use or a free block without room
    lemma SkipBlock(a: Arena, n: nat, p: nat)
      requires Valid() && a == Contents() && p in nodes && p < end && HEADER <= n
      requires a.cursor <= p && NoFit(a, n, a.cursor, p)
      requires p == a.base || p in a.live || exists h :: h in a.live && hdr[h].next == p
      requires hdr[p].size + HEADER < n || Used(hdr, p)
      ensures hdr[p].next in nodes && p < hdr[p].next <= end && NoFit(a, n, a.cursor, hdr[p].next)
      ensures hdr[p].next == end ==> HEADER < n
      ensures var x := hdr[p].next; x == end || x in a.live || exists h :: h in a.live && hdr[h].next == x
    {
      assert Linked(hdr, nodes, p);
      if Used(hdr, p) {
        UsedIsNoGap(hdr, nodes, pheap, end, ff, p);
        assert p in a.live;
      } else {
        assert CompactAt(hdr, end, p);
        RunIsGap(hdr, nodes, pheap, end, ff, p, hdr[p].next, n);
        SearchRun(a, n, a.cursor, p, p, hdr[p].next);
      }
    }

    method Place(p: nat, ghost request: nat, size: nat) returns (ptr: nat)
      requires Valid() && p in nodes && p < end && !Used(hdr, p) && size == Align4(request) < W32
      requires size + HEADER < W32 ==> p + Need(request) <= hdr[p].next
      modifies this
      ensures size + HEADER < W32 ==>
                && Valid() && PayloadsKept(old(hdr), hdr, old(Contents()).live)
                && var a := old(Contents()); Contents() == a.(live := a.live[p := p + HEADER + size], cursor := p)
      ensures size + HEADER >= W32 ==> NeverLive(hdr, pheap, end, p)
      ensures ptr == p + HEADER && pheap == old(pheap) && end == old(end)
    {
      hide Chain, AllAligned, CompactBelow, PayloadsKept, WithUsedBit, WithoutUsedBit, Minus, Align4, Live, NeverLive;
      ghost var m := hdr;
      Align4Multiple(request);
      NodeStored(m, nodes, pheap, end, p);
      var psize := Minus(Minus(WithoutUsedBit(hdr[p].size), size), HEADER);
      FreeRest(m, nodes, pheap, end, p, size);
      if size + HEADER < W32 {
        SplitKeepsCompact(m, nodes, pheap, end, p, size);
        PlaceKeeps(m, nodes, pheap, end, p, request, psize);
        NoWrap(m, nodes, pheap, end, p, size, psize);
        nodes := nodes + {p + HEADER + size};
      } else {
        WrappedSplit(m, nodes, pheap, end, p, size, psize);
      }
      ff := p;
      var r := hdr[p].next;
      hdr := hdr[p := Header((p + size + HEADER) % W32, WithUsedBit(size))];
      hdr := hdr[hdr[p].next := Header(r, psize)];
      assert hdr == RawSplitAt(m, p, size, psize);
      ptr := p + HEADER;
    }
  }
}
