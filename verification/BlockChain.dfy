/**
  The chain of block headers both allocators keep in the heap memory, seen as the set of header
  addresses it visits: the block at p is [p, next), and the sentinel is the one header without a next.
 */
module BlockChain {
  import opened Arith
  import opened FirstFit
  import opened Words

  datatype Header = Header(next: nat, size: nat)

  type Memory = map<nat, Header>

  // The least significant bit of the size field marks a block in use.
  predicate Used(m: Memory, p: nat)
    requires p in m
  {
    m[p].size % 2 == 1
  }

  function WithUsedBit(size: nat): nat {
    if size % 2 == 1 then size else size + 1
  }

  function WithoutUsedBit(size: nat): nat {
    size - size % 2
  }

  // Subtraction of size_t values
  function Minus(x: nat, y: nat): nat {
    (x as int - y as int) % W32
  }

  // p's next is the chain's first header above p, and a used block's size is what lies between.
  ghost predicate Linked(m: Memory, nodes: set<nat>, p: nat) {
    && p in m && m[p].next in nodes && p + HEADER <= m[p].next
    && (forall q | q in nodes :: q <= p || m[p].next <= q)
    && (Used(m, p) ==> m[p].size == m[p].next - p - HEADER + 1)
  }

  ghost predicate Chain(m: Memory, nodes: set<nat>, base: nat, end: nat) {
    && 0 < base < end && end + HEADER <= W32 && base in nodes && end in nodes
    && (forall p | p in nodes :: base <= p <= end && p in m)
    && m[end] == Header(0, 0)
    && (forall p {:trigger Linked(m, nodes, p)} | p in nodes && p < end :: Linked(m, nodes, p))
    // The block in front of the sentinel is free: no sweep reaches the sentinel through a used block.
    && (forall p | p in nodes && p < end && m[p].next == end :: !Used(m, p))
  }

  // Blocks are 4-aligned, and the sentinel is at an even distance from them.
  ghost predicate AllAligned(nodes: set<nat>, base: nat, end: nat) {
    && (forall p | p in nodes && p != end :: Aligned(base, p))
    && (end as int - base as int) % 2 == 0
  }

  lemma EvenApart(nodes: set<nat>, base: nat, end: nat, q: nat, p: nat)
    requires AllAligned(nodes, base, end) && q in nodes && p in nodes && q <= p
    ensures (p - q) % 2 == 0
  {
    var i, j := FromBase(nodes, base, end, q), FromBase(nodes, base, end, p);
    DivUnique(p - q, 2, j - i);
  }

  // Half the distance of a header from the heap's start
  function FromBase(nodes: set<nat>, base: nat, end: nat, p: nat): (h: int)
    requires AllAligned(nodes, base, end) && p in nodes
    ensures p - base == 2 * h
  {
    if p == end then (p - base) / 2 else (p - base) / 4 * 2
  }

  ghost function Live(m: Memory, nodes: set<nat>): map<nat, nat>
    requires forall p | p in nodes :: p in m
  {
    map p | p in nodes && Used(m, p) :: m[p].next
  }

  // Every header in [q, p) marks its block free.
  ghost predicate FreeRun(m: Memory, nodes: set<nat>, q: nat, p: nat) {
    && q in nodes && p in nodes && q <= p
    && forall x | x in nodes && q <= x < p :: x in m && !Used(m, x)
  }

  // No header that differs between m and m' lies inside the payload of a live block.
  ghost predicate PayloadsKept(m: Memory, m': Memory, live: map<nat, nat>) {
    forall x, h | x in m' && (x !in m || m[x] != m'[x]) && h in live :: x <= h || live[h] <= x
  }

  // The size a new heap's only block is given: the heap's length, rounded up, less two headers
  function InitialSize(len: nat): nat {
    Minus(Minus(Align4(len) % W32, HEADER), HEADER)
  }

  // It is right, and does not run past the sentinel, exactly for lengths that are multiples of 4.
  lemma InitialSizeIff(len: nat)
    requires HEADER + HEADER <= len < W32
    ensures InitialSize(len) == len - HEADER - HEADER <==> len % 4 == 0
    ensures InitialSize(len) % 2 == 0
  {
    var k := (len + 3) / 4;
    assert Align4(len) == 4 * k && len + 3 == 4 * k + (len + 3) % 4;
    if 4 * k < W32 {
      DivUnique(4 * k, W32, 0);
      MinusIs(4 * k, HEADER);
      MinusIs(4 * k - HEADER, HEADER);
      DivUnique(4 * k - HEADER - HEADER, 2, 2 * k - HEADER);
    } else {
      DivUnique(4 * k, W32, 1);
      MinusIs(0, HEADER);
      MinusIs(W32 - HEADER, HEADER);
    }
  }

  // Any other length, unless rounding it wraps around, lets a request through whose remainder header overlaps
  // the sentinel.
  lemma OversizedOverlaps(zone: nat, len: nat)
    requires HEADER + HEADER + HEADER <= len && Align4(len) < W32 && len % 4 != 0
    ensures HEADER <= InitialSize(len)
    ensures var (size, end) := (InitialSize(len) - HEADER, zone + len - HEADER);
            Align4(size) == size && zone + HEADER + size < end < zone + HEADER + size + HEADER
  {
    var k := (len + 3) / 4;
    assert Align4(len) == 4 * k && len + 3 == 4 * k + (len + 3) % 4;
    DivUnique(4 * k, W32, 0);
    MinusIs(4 * k, HEADER);
    MinusIs(4 * k - HEADER, HEADER);
    DivUnique(4 * (k - 6) + 3, 4, k - 6);
  }

  lemma MinusIs(x: nat, y: nat)
    requires x < W32 && y < W32
    ensures Minus(x, y) == if y <= x then x - y else x + W32 - y
  {
  }

  lemma FirstBlock(m: Memory, zone: nat, len: nat)
    requires 0 < zone && HEADER + HEADER <= len && zone + len <= W32
    requires m == map[zone := Header(zone + len - HEADER, InitialSize(len)), zone + len - HEADER := Header(0, 0)]
    ensures var end := zone + len - HEADER; var nodes := {zone, end};
            && Chain(m, nodes, zone, end) && Live(m, nodes) == map[]
            && (AllAligned(nodes, zone, end) <==> len % 2 == 0)
            && (AllAligned(nodes, zone, end) && CompactBelow(m, nodes, end, end) <==> len % 4 == 0)
  {
    hide InitialSize, AllAligned, Chain, CompactBelow, Live;
    InitialSizeIff(len);
    FirstChain(m, zone, zone + len - HEADER);
    FirstAligned(zone, len);
    if len % 4 == 0 { EvenLength(len); }
  }

  lemma FirstChain(m: Memory, zone: nat, end: nat)
    requires 0 < zone && zone + HEADER <= end && end + HEADER <= W32 && m.Keys == {zone, end}
    requires m[zone].next == end && !Used(m, zone) && m[end] == Header(0, 0)
    ensures Chain(m, {zone, end}, zone, end) && Live(m, {zone, end}) == map[]
    ensures CompactBelow(m, {zone, end}, end, end) <==> m[zone].size == end - zone - HEADER
  {
    assert Linked(m, {zone, end}, zone);
    assert CompactAt(m, end, zone) <==> m[zone].size == end - zone - HEADER;
  }

  lemma FirstAligned(zone: nat, len: nat)
    requires HEADER + HEADER <= len
    ensures AllAligned({zone, zone + len - HEADER}, zone, zone + len - HEADER) <==> len % 2 == 0
  {
    assert Aligned(zone, zone);
  }

  lemma EvenLength(len: nat)
    requires len % 4 == 0
    ensures len % 2 == 0
  {
    DivUnique(len, 2, len / 4 * 2);
  }

  // The two stores of a coalescing sweep
  function MergeAt(m: Memory, q: nat, p: nat): Memory {
    m[q := Header(p, Minus(Minus(p, q), HEADER))]
  }

  ghost function Merged(nodes: set<nat>, q: nat, p: nat): set<nat> {
    set x | x in nodes && (x <= q || p <= x)
  }

  // A run whose length is odd would come out marked as used.
  lemma MergedSize(m: Memory, q: nat, p: nat)
    requires q + HEADER <= p < W32
    ensures var m' := MergeAt(m, q, p);
            m'[q] == Header(p, p - q - HEADER) && (Used(m', q) <==> (p - q) % 2 == 1)
    ensures forall x | x in m && x != q :: MergeAt(m, q, p)[x] == m[x]
  {
  }

  lemma MergeKeepsLinks(m: Memory, m': Memory, nodes: set<nat>, q: nat, p: nat, x: nat)
    requires x in nodes && (x <= q || p <= x) && Linked(m, nodes, x)
    requires q in nodes && p in nodes && q + HEADER <= p
    requires x != q ==> x in m' && m'[x] == m[x]
    requires x == q ==> q in m' && m'[q].next == p && !Used(m', q)
    ensures Linked(m', Merged(nodes, q, p), x)
  {
  }

  // Replacing the run of free blocks [q, p) by one block leaves a chain with the same live blocks.
  lemma MergeKeepsChain(m: Memory, nodes: set<nat>, base: nat, end: nat, q: nat, p: nat)
    requires Chain(m, nodes, base, end) && AllAligned(nodes, base, end) && FreeRun(m, nodes, q, p) && q < p
    ensures Chain(MergeAt(m, q, p), Merged(nodes, q, p), base, end) && AllAligned(Merged(nodes, q, p), base, end)
    ensures Live(MergeAt(m, q, p), Merged(nodes, q, p)) == Live(m, nodes)
    ensures PayloadsKept(m, MergeAt(m, q, p), Live(m, nodes))
  {
    var m', nodes' := MergeAt(m, q, p), Merged(nodes, q, p);
    assert Linked(m, nodes, q);
    EvenApart(nodes, base, end, q, p);
    MergedSize(m, q, p);
    forall x | x in nodes' && x < end
      ensures Linked(m', nodes', x)
      ensures m'[x].next == end ==> !Used(m', x)
    {
      MergeKeepsLinks(m, m', nodes, q, p, x);
    }
    MergeKeepsLive(m, m', nodes, end, q, p);
  }

  lemma MergeKeepsLive(m: Memory, m': Memory, nodes: set<nat>, end: nat, q: nat, p: nat)
    requires forall x | x in nodes :: x in m && x in m' && x <= end
    requires end in nodes && !Used(m, end)
    requires forall x {:trigger Linked(m, nodes, x)} | x in nodes && x < end :: Linked(m, nodes, x)
    requires FreeRun(m, nodes, q, p) && q < p
    requires m' == m[q := m'[q]] && !Used(m', q)
    ensures Live(m', Merged(nodes, q, p)) == Live(m, nodes)
    ensures PayloadsKept(m, m', Live(m, nodes))
  {
    forall h | h in nodes && Used(m, h) ensures h in Merged(nodes, q, p) && (q <= h || m[h].next <= q) {
      assert Linked(m, nodes, h);
    }
  }

  // The stores of an allocation: p takes `payload` bytes, a remainder header goes behind them.
  function SplitAt(m: Memory, p: nat, payload: nat, restSize: nat): Memory
    requires p in m
  {
    m[p := Header(p + HEADER + payload, WithUsedBit(payload))]
     [p + HEADER + payload := Header(m[p].next, restSize)]
  }

  // The same stores on any size, in 32-bit arithmetic
  function RawSplitAt(m: Memory, p: nat, size: nat, restSize: nat): Memory
    requires p in m
  {
    var next := (p + size + HEADER) % W32;
    m[p := Header(next, WithUsedBit(size))][next := Header(m[p].next, restSize)]
  }

  lemma LimitIs(size: nat)
    requires size < W32
    ensures (size + HEADER) % W32 == if size + HEADER < W32 then size + HEADER else size + HEADER - W32
  {
    DivUnique(size + HEADER, W32, if size + HEADER < W32 then 0 else 1);
  }

  // A block that fits is split without wrapping around.
  lemma NoWrap(m: Memory, nodes: set<nat>, base: nat, end: nat, p: nat, size: nat, restSize: nat)
    requires Chain(m, nodes, base, end) && p in nodes && p < end && p + size + HEADER + HEADER <= m[p].next
    ensures p in m && RawSplitAt(m, p, size, restSize) == SplitAt(m, p, size, restSize)
  {
    assert Linked(m, nodes, p);
    DivUnique(p + size + HEADER, W32, 0);
  }

  // No reading of these headers as a chain makes p a live block.
  ghost predicate NeverLive(m: Memory, base: nat, end: nat, p: nat) {
    forall nodes: set<nat> | Chain(m, nodes, base, end) :: p !in Live(m, nodes)
  }

  lemma BlockHoldsHeader(m: Memory, nodes: set<nat>, base: nat, end: nat, p: nat)
    requires Chain(m, nodes, base, end) && p in nodes && p < end
    ensures p in m && p + HEADER <= m[p].next
  {
    assert Linked(m, nodes, p);
  }

  // The size so close to 2^32 that adding a header wraps around: the stores make no block of it.
  lemma WrappedSplit(m: Memory, nodes: set<nat>, base: nat, end: nat, p: nat, size: nat, restSize: nat)
    requires Chain(m, nodes, base, end) && p in nodes && p < end
    requires W32 - HEADER <= size < W32 && size % 4 == 0 && (size + HEADER == W32 ==> restSize % 2 == 0)
    ensures NeverLive(RawSplitAt(m, p, size, restSize), base, end, p)
  {
    var m', next := RawSplitAt(m, p, size, restSize), (p + size + HEADER) % W32;
    var over := size + HEADER - W32;
    DivUnique(p + size + HEADER, W32, 1);
    assert next == p + over && over < HEADER;
    forall ns: set<nat> | Chain(m', ns, base, end) ensures p !in Live(m', ns) {
      if over > 0 && p in ns {
        BlockHoldsHeader(m', ns, base, end, p);
      }
    }
  }

  lemma SplitKeepsLinks(m: Memory, nodes: set<nat>, p: nat, payload: nat, restSize: nat, x: nat)
    requires p in nodes && Linked(m, nodes, p) && payload % 2 == 0
    requires p + payload + HEADER + HEADER <= m[p].next && restSize % 2 == 0
    requires x in nodes + {p + HEADER + payload} && (x in nodes ==> Linked(m, nodes, x))
    ensures Linked(SplitAt(m, p, payload, restSize), nodes + {p + HEADER + payload}, x)
  {
  }

  // Splitting a free block leaves a chain in which that block, and no other, has become live.
  lemma SplitKeepsChain(m: Memory, nodes: set<nat>, base: nat, end: nat, p: nat, payload: nat, restSize: nat)
    requires Chain(m, nodes, base, end) && p in nodes && p < end && !Used(m, p)
    requires p + payload + HEADER + HEADER <= m[p].next && payload % 2 == 0 && restSize % 2 == 0
    ensures Chain(SplitAt(m, p, payload, restSize), nodes + {p + HEADER + payload}, base, end)
  {
    hide WithUsedBit;
    var m', rest := SplitAt(m, p, payload, restSize), p + HEADER + payload;
    assert Linked(m, nodes, p);
    SplitBits(m, p, payload, restSize);
    forall x | x in nodes + {rest} && x < end ensures Linked(m', nodes + {rest}, x) {
      SplitKeepsLinks(m, nodes, p, payload, restSize, x);
    }
  }

  lemma SplitBits(m: Memory, p: nat, payload: nat, restSize: nat)
    requires p in m && payload % 2 == 0 && restSize % 2 == 0
    ensures var m' := SplitAt(m, p, payload, restSize); Used(m', p) && !Used(m', p + HEADER + payload)
  {
  }

  lemma SplitAddsLive(m: Memory, nodes: set<nat>, base: nat, end: nat, p: nat, payload: nat, restSize: nat)
    requires Chain(m, nodes, base, end) && p in nodes && p < end && !Used(m, p)
    requires p + payload + HEADER + HEADER <= m[p].next && payload % 2 == 0 && restSize % 2 == 0
    ensures Live(SplitAt(m, p, payload, restSize), nodes + {p + HEADER + payload})
            == Live(m, nodes)[p := p + HEADER + payload]
    ensures PayloadsKept(m, SplitAt(m, p, payload, restSize), Live(m, nodes))
  {
    var m' := SplitAt(m, p, payload, restSize);
    assert Linked(m, nodes, p);
    SplitBits(m, p, payload, restSize);
    forall h | h in nodes && Used(m, h) ensures m'[h] == m[h] && (p < h || m[h].next <= p) {
      NodesOrdered(m, nodes, base, end, h);
    }
  }

  lemma SplitKeepsAligned(nodes: set<nat>, base: nat, end: nat, p: nat, request: nat)
    requires AllAligned(nodes, base, end) && p in nodes && p != end
    ensures AllAligned(nodes + {p + HEADER + Align4(request)}, base, end)
  {
    Align4Multiple(request);
    AlignedAdd(base, p, HEADER + Align4(request));
  }

  // What the default allocator stores as the remainder's size: the new block's size less itself.
  lemma StaleSize(size: nat)
    requires size % 2 == 0 && size < W32
    ensures Minus(Minus(WithoutUsedBit(WithUsedBit(size)), size), HEADER) == W32 - HEADER
  {
  }

  lemma NodeStored(m: Memory, nodes: set<nat>, base: nat, end: nat, p: nat)
    requires Chain(m, nodes, base, end) && p in nodes
    ensures forall x | x in nodes :: x in m
    ensures p in m && base <= p
  {
  }

  // Splitting a free block, all in all
  lemma PlaceKeeps(m: Memory, nodes: set<nat>, base: nat, end: nat, p: nat, request: nat, restSize: nat)
    requires Chain(m, nodes, base, end) && AllAligned(nodes, base, end) && p in nodes && p < end && !Used(m, p)
    requires p + Need(request) <= m[p].next && restSize % 2 == 0
    ensures var m', rest := SplitAt(m, p, Align4(request), restSize), p + HEADER + Align4(request);
            && Chain(m', nodes + {rest}, base, end) && AllAligned(nodes + {rest}, base, end)
            && Live(m', nodes + {rest}) == Live(m, nodes)[p := rest]
            && PayloadsKept(m, m', Live(m, nodes))
  {
    hide Chain, Live, AllAligned, PayloadsKept, Align4;
    NodeStored(m, nodes, base, end, p);
    Align4Multiple(request);
    SplitKeepsChain(m, nodes, base, end, p, Align4(request), restSize);
    SplitAddsLive(m, nodes, base, end, p, Align4(request), restSize);
    SplitKeepsAligned(nodes, base, end, p, request);
  }

  // Blocks do not overlap.
  lemma NodesOrdered(m: Memory, nodes: set<nat>, base: nat, end: nat, h: nat)
    requires Chain(m, nodes, base, end) && h in nodes
    ensures forall k | k in nodes && k < h :: m[k].next <= h
    ensures h < end ==> forall k | k in nodes && h < k :: m[h].next <= k
  {
    forall k | k in nodes && k < h ensures m[k].next <= h {
      assert Linked(m, nodes, k);
    }
    assert h < end ==> Linked(m, nodes, h);
  }

  // ptr's header with the used bit cleared
  function ReleaseAt(m: Memory, p: nat): Memory
    requires p in m
  {
    m[p := Header(m[p].next, WithoutUsedBit(m[p].size))]
  }

  lemma ReleaseBits(m: Memory, p: nat)
    requires p in m
    ensures !Used(ReleaseAt(m, p), p)
    ensures forall x | x in m && x != p :: Used(ReleaseAt(m, p), x) == Used(m, x)
  {
  }

  // Clearing the used bit of a live block takes exactly that block out of the live ones.
  lemma ReleaseKeepsChain(m: Memory, nodes: set<nat>, base: nat, end: nat, p: nat)
    requires Chain(m, nodes, base, end) && p in Live(m, nodes)
    ensures Chain(ReleaseAt(m, p), nodes, base, end)
    ensures PayloadsKept(m, ReleaseAt(m, p), Live(m, nodes))
  {
    var m' := ReleaseAt(m, p);
    ReleaseBits(m, p);
    NodesOrdered(m, nodes, base, end, p);
    forall x | x in nodes && x < end ensures Linked(m', nodes, x) {
      assert Linked(m, nodes, x);
    }
  }

  lemma ReleaseRemovesLive(m: Memory, nodes: set<nat>, p: nat)
    requires (forall x | x in nodes :: x in m) && p in Live(m, nodes)
    ensures Live(ReleaseAt(m, p), nodes) == Live(m, nodes) - {p}
  {
    ReleaseBits(m, p);
    assert forall x | x in nodes :: ReleaseAt(m, p)[x].next == m[x].next;
  }

  // The blocks tile the heap up to the sentinel: every address lies in exactly one of them.
  lemma {:induction false} BlocksTile(m: Memory, nodes: set<nat>, base: nat, end: nat, from: nat, x: nat)
    returns (p: nat)
    requires Chain(m, nodes, base, end) && from in nodes && from <= x < end
    ensures p in nodes && p <= x < m[p].next
    ensures forall q | q in nodes && q < end && q <= x < m[q].next :: q == p
    decreases end - from
  {
    assert Linked(m, nodes, from);
    if x < m[from].next {
      p := from;
      NodesOrdered(m, nodes, base, end, p);
      forall q | q in nodes && q < end && q <= x < m[q].next ensures q == p {
        assert Linked(m, nodes, q);
      }
    } else {
      p := BlocksTile(m, nodes, base, end, m[from].next, x);
    }
  }

  // A chain's live blocks, with any search pointer that is its first or a used block, form an arena.
  lemma ChainIsArena(m: Memory, nodes: set<nat>, base: nat, end: nat, cursor: nat)
    requires Chain(m, nodes, base, end) && AllAligned(nodes, base, end)
    requires cursor == base || cursor in Live(m, nodes)
    ensures WellFormed(Arena(base, end, Live(m, nodes), cursor))
  {
    var a := Arena(base, end, Live(m, nodes), cursor);
    assert Linked(m, nodes, base);
    forall h | h in a.live ensures InBounds(a, h) && forall k | k in a.live && h < k :: a.live[h] <= k {
      assert Linked(m, nodes, h);
      if a.live[h] < end { assert Linked(m, nodes, a.live[h]); }
    }
  }

  // In a maximal run of free blocks [q, p), q is the only gap start, with room for p - q bytes and no more.
  lemma RunIsGap(m: Memory, nodes: set<nat>, base: nat, end: nat, cursor: nat, q: nat, p: nat, n: nat)
    requires Chain(m, nodes, base, end) && FreeRun(m, nodes, q, p) && q < p && 0 < n
    requires p == end || Used(m, p)
    requires q == base || exists h :: h in Live(m, nodes) && m[h].next == q
    ensures var a := Arena(base, end, Live(m, nodes), cursor);
            && (Fits(a, q, n) <==> q + n <= p)
            && NoGap(a, q + 1, p)
  {
    var a := Arena(base, end, Live(m, nodes), cursor);
    assert GapStart(a, q);
    assert p < end ==> p in a.live;
    NodesOrdered(m, nodes, base, end, q);
    NodesOrdered(m, nodes, base, end, p);
    forall h | h in a.live ensures (a.live[h] <= q && h < q) || p <= h < a.live[h] {
      assert Linked(m, nodes, h);
    }
  }

  // No gap starts inside a block in use.
  lemma UsedIsNoGap(m: Memory, nodes: set<nat>, base: nat, end: nat, cursor: nat, p: nat)
    requires Chain(m, nodes, base, end) && p in Live(m, nodes)
    ensures NoGap(Arena(base, end, Live(m, nodes), cursor), p, m[p].next)
  {
    var a := Arena(base, end, Live(m, nodes), cursor);
    assert Linked(m, nodes, p);
    NodesOrdered(m, nodes, base, end, p);
    forall h | h in a.live ensures a.live[h] <= p || m[p].next <= a.live[h] {
      assert Linked(m, nodes, h);
    }
  }

  // ---------- the sweep on any memory ----------

  // Where the first inner loop of a sweep comes to from p; None if it leaves the headers or turns back.
  function PastUsed(m: Memory, p: nat): (r: Option<nat>)
    ensures r.Some? ==> r.value in m && p <= r.value && !Used(m, r.value)
    decreases W32 - p
  {
    if p !in m || p >= W32 then None
    else if !Used(m, p) then Some(p)
    else if p < m[p].next then PastUsed(m, m[p].next) else None
  }

  // The same for the second inner loop
  function PastFree(m: Memory, p: nat): (r: Option<nat>)
    ensures r.Some? ==> r.value in m && p <= r.value
    decreases W32 - p
  {
    if p !in m || p >= W32 then None
    else if Used(m, p) || m[p].next == 0 then Some(p)
    else if p < m[p].next then PastFree(m, m[p].next) else None
  }

  // The whole sweep from p: the memory it leaves, and where it stops
  function SweepFrom(m: Memory, p: nat, limit: nat): (r: Option<(Memory, nat)>)
    ensures r.Some? ==> r.value.1 in r.value.0
    decreases W32 - p
  {
    if p !in m || p >= W32 then None
    else if m[p].next == 0 then Some((m, p))
    else
      match PastUsed(m, p)
      case None => None
      case Some(q) =>
        match PastFree(m, q)
        case None => None
        case Some(next) =>
          var m' := MergeAt(m, q, next);
          if m'[q].size >= limit then Some((m', q))
          else if p < next then SweepFrom(m', next, limit) else None
  }

  lemma SweepRound(m: Memory, p: nat, q: nat, next: nat, limit: nat)
    requires p in m && p < next && p < W32 && m[p].next != 0
    requires PastUsed(m, p) == Some(q) && PastFree(m, q) == Some(next)
    ensures SweepFrom(m, p, limit) == if MergeAt(m, q, next)[q].size >= limit then Some((MergeAt(m, q, next), q))
                                      else SweepFrom(MergeAt(m, q, next), next, limit)
  {
  }

  lemma SweepStops(m: Memory, p: nat, limit: nat)
    requires p in m && p < W32 && m[p].next == 0
    ensures SweepFrom(m, p, limit) == Some((m, p))
  {
  }

  // The first inner loop of a sweep: step over blocks in use, and start a run behind them.
  method SkipUsed(m: Memory, ghost nodes: set<nat>, ghost a: Arena, p0: nat, q0: nat) returns (p: nat, q: nat)
    requires Chain(m, nodes, a.base, a.end) && a.live == Live(m, nodes)
    requires p0 in nodes && p0 < a.end && (Used(m, p0) || q0 == p0)
    ensures p == q && p in nodes && p0 <= p < a.end && !Used(m, p) && NoGap(a, p0, p)
    ensures forall x | x in nodes && p0 <= x < p :: Used(m, x)
    ensures p == p0 || exists h :: h in a.live && m[h].next == p
    ensures PastUsed(m, p0) == Some(p)
  {
    p, q := p0, q0;
    while m[p].size % 2 == 1
      invariant p in nodes && p0 <= p < a.end && NoGap(a, p0, p)
      invariant forall x | x in nodes && p0 <= x < p :: Used(m, x)
      invariant p == p0 || exists h :: h in a.live && m[h].next == p
      invariant q == p || (p == p0 && Used(m, p0))
      invariant PastUsed(m, p0) == PastUsed(m, p)
      decreases a.end - p
    {
      UsedIsNoGap(m, nodes, a.base, a.end, a.cursor, p);
      assert Linked(m, nodes, p) && p in a.live;
      p := m[p].next;
      q := p;
    }
  }

  // The second inner loop of a sweep: step over free blocks.
  method SkipFree(m: Memory, ghost nodes: set<nat>, ghost a: Arena, q: nat) returns (p: nat)
    requires Chain(m, nodes, a.base, a.end)
    requires q in nodes && q < a.end && !Used(m, q)
    ensures FreeRun(m, nodes, q, p) && q < p <= a.end && (p == a.end || Used(m, p))
    ensures PastFree(m, q) == Some(p)
  {
    assert Linked(m, nodes, q);
    p := q;
    while m[p].size % 2 == 0 && m[p].next != 0
      invariant FreeRun(m, nodes, q, p) && p <= a.end && (p == q ==> m[p].next != 0)
      invariant PastFree(m, q) == PastFree(m, p)
      decreases a.end - p
    {
      assert Linked(m, nodes, p);
      p := m[p].next;
    }
    assert p < a.end ==> Linked(m, nodes, p);
  }

  // A free block with a correct size that reaches up to a block in use or the sentinel
  ghost predicate CompactAt(m: Memory, end: nat, p: nat) {
    && p in m && p + HEADER <= m[p].next && m[p].next in m && m[p].size == m[p].next - p - HEADER
    && (m[p].next == end || Used(m, m[p].next))
  }

  // The free blocks below `to` are coalesced and their sizes are right.
  ghost predicate CompactBelow(m: Memory, nodes: set<nat>, end: nat, to: nat)
    requires forall p | p in nodes :: p in m
  {
    forall p {:trigger CompactAt(m, end, p)} | p in nodes && p < to && !Used(m, p) :: CompactAt(m, end, p)
  }

  lemma MergeExtendsCompact(m: Memory, nodes: set<nat>, base: nat, end: nat, p0: nat, q: nat, p: nat)
    requires Chain(m, nodes, base, end) && AllAligned(nodes, base, end) && CompactBelow(m, nodes, end, p0)
    requires FreeRun(m, nodes, q, p) && p0 <= q < p && (p == end || Used(m, p))
    requires forall x | x in nodes && p0 <= x < q :: Used(m, x)
    ensures CompactBelow(MergeAt(m, q, p), Merged(nodes, q, p), end, p)
  {
    var m', nodes' := MergeAt(m, q, p), Merged(nodes, q, p);
    assert Linked(m, nodes, q);
    EvenApart(nodes, base, end, q, p);
    MergedSize(m, q, p);
    forall x | x in nodes' && x < p && !Used(m', x) ensures CompactAt(m', end, x) {
      if x != q {
        assert CompactAt(m, end, x);
      }
    }
  }

  lemma SplitKeepsCompact(m: Memory, nodes: set<nat>, base: nat, end: nat, p: nat, payload: nat)
    requires Chain(m, nodes, base, end) && CompactBelow(m, nodes, end, end)
    requires p in nodes && p < end && !Used(m, p) && payload % 2 == 0
    requires p + payload + HEADER + HEADER <= m[p].next
    ensures payload + HEADER <= m[p].size && (m[p].size - payload - HEADER) % 2 == 0
    ensures CompactBelow(SplitAt(m, p, payload, m[p].size - payload - HEADER), nodes + {p + HEADER + payload}, end, end)
  {
    var rest := p + HEADER + payload;
    assert CompactAt(m, end, p) && Linked(m, nodes, p);
    var m' := SplitAt(m, p, payload, m[p].size - payload - HEADER);
    SplitBits(m, p, payload, m[p].size - payload - HEADER);
    forall x | x in nodes + {rest} && x < end && !Used(m', x) ensures CompactAt(m', end, x) {
      if x != rest {
        assert CompactAt(m, end, x) && Linked(m, nodes, x);
      }
    }
  }

  // What is left of a free block's size: it is even, and without a wrap it is right.
  lemma FreeRest(m: Memory, nodes: set<nat>, base: nat, end: nat, p: nat, size: nat)
    requires Chain(m, nodes, base, end) && CompactBelow(m, nodes, end, end) && p in nodes && p < end && !Used(m, p)
    requires size % 2 == 0 && size < W32
    ensures var rest := Minus(Minus(WithoutUsedBit(m[p].size), size), HEADER);
            && rest % 2 == 0
            && (p + size + HEADER + HEADER <= m[p].next ==> rest == m[p].size - size - HEADER)
  {
    assert CompactAt(m, end, p) && Linked(m, nodes, p);
    RestIs(m[p].size, size);
  }

  lemma RestIs(total: nat, size: nat)
    requires total % 2 == 0 && size % 2 == 0 && total < W32 && size < W32
    ensures var rest := Minus(Minus(total, size), HEADER);
            rest % 2 == 0 && (size + HEADER <= total ==> rest == total - size - HEADER)
  {
    var h, g := total / 2, size / 2;
    assert total == 2 * h && size == 2 * g;
    MinusIs(total, size);
    MinusIs(Minus(total, size), HEADER);
    var rest := Minus(Minus(total, size), HEADER);
    hide Minus;
    var left := if g <= h then h - g else h + 0x8000_0000 - g;
    DivUnique(rest, 2, if 4 <= left then left - 4 else left + 0x7fff_fffc);
  }
}
