/** The 24LCxx EEPROM driver on chips whose page writes wrap around inside the page. */
module Eeprom {
  import opened Arith
  import opened Words

  datatype ChipType = LC01 | LC02 | LC04 | LC08 | LC16 | LC32 | LC64 | LC128 | LC256 | LC512 | LC1024

  function PageSize(t: ChipType): nat {
    match t
    case LC01 | LC02 => 8
    case LC04 | LC08 | LC16 => 16
    case LC32 | LC64 => 32
    case LC128 | LC256 => 64
    case LC512 | LC1024 => 128
  }

  // The chip's size in bytes (24LCxx holds xx kbit)
  function Capacity(t: ChipType): nat {
    match t
    case LC01 => 0x80
    case LC02 => 0x100
    case LC04 => 0x200
    case LC08 => 0x400
    case LC16 => 0x800
    case LC32 => 0x1000
    case LC64 => 0x2000
    case LC128 => 0x4000
    case LC256 => 0x8000
    case LC512 => 0x1_0000
    case LC1024 => 0x2_0000
  }

  // What one or two address bytes can tell apart
  function BlockSize(t: ChipType): nat {
    match t
    case LC01 | LC02 | LC04 | LC08 | LC16 => 0x100
    case _ => 0x1_0000
  }

  // ---------- the chip ----------

  lemma PagesTile(t: ChipType)
    ensures 0 < PageSize(t) && Capacity(t) % PageSize(t) == 0 && BlockSize(t) % PageSize(t) == 0
    ensures 0 < Capacity(t) <= 8 * BlockSize(t) && 8 * BlockSize(t) % Capacity(t) == 0
  {
  }

  // Data sent after address `a`: the address counter wraps around inside a's page.
  function PageWrite(m: seq<u8>, pg: nat, a: nat, data: seq<u8>): (r: seq<u8>)
    requires 0 < pg && a / pg * pg + pg <= |m|
    ensures |r| == |m|
    decreases |data|
  {
    if data == [] then m
    else
      PageHolds(a, pg);
      var next := if a % pg == pg - 1 then a / pg * pg else a + 1;
      NextInPage(a, pg);
      PageWrite(m[a := data[0]], pg, next, data[1..])
  }

  lemma PageHolds(a: nat, pg: nat)
    requires 0 < pg
    ensures a == a / pg * pg + a % pg && a < a / pg * pg + pg
  {
  }

  lemma NextInPage(a: nat, pg: nat)
    requires 0 < pg
    ensures a % pg == pg - 1 ==> a / pg * pg / pg == a / pg
    ensures a % pg < pg - 1 ==> (a + 1) / pg == a / pg && (a + 1) % pg == a % pg + 1
  {
    PageHolds(a, pg);
    if a % pg == pg - 1 {
      DivUnique(a / pg * pg, pg, a / pg);
    } else {
      DivUnique(a + 1, pg, a / pg);
    }
  }

  // ---------- the flat memory it should look like ----------

  // Positions past the end of the chip start over.
  function Cell(cap: nat, pos: nat): (a: nat)
    requires 0 < cap
    ensures a < cap
  {
    pos % cap
  }

  function FlatWrite(m: seq<u8>, pos: nat, data: seq<u8>): (r: seq<u8>)
    requires 0 < |m|
    ensures |r| == |m|
    decreases |data|
  {
    if data == [] then m else FlatWrite(m[Cell(|m|, pos) := data[0]], pos + 1, data[1..])
  }

  function FlatRead(m: seq<u8>, pos: nat, n: nat): (r: seq<u8>)
    requires 0 < |m|
    ensures |r| == n
  {
    seq(n, i requires 0 <= i < n => m[Cell(|m|, pos + i)])
  }

  // A write that stays inside one page is a flat write.
  lemma {:induction false} InPageIsFlat(m: seq<u8>, pg: nat, pos: nat, data: seq<u8>)
    requires 0 < pg && 0 < |m| && |m| % pg == 0 && pos % pg + |data| <= pg
    ensures pos % |m| / pg * pg + pg <= |m|
    ensures PageWrite(m, pg, pos % |m|, data) == FlatWrite(m, pos, data)
    decreases |data|
  {
    PageOf(|m|, pg, pos);
    if data != [] {
      var a := pos % |m|;
      NextInPage(a, pg);
      if |data| > 1 {
        NextPosition(|m|, pg, pos);
        InPageIsFlat(m[a := data[0]], pg, pos + 1, data[1..]);
      }
    }
  }

  // Pages tile the chip.
  lemma PageOf(cap: nat, pg: nat, pos: nat)
    requires 0 < pg && 0 < cap && cap % pg == 0
    ensures pos % cap / pg * pg + pg <= cap && pos % cap % pg == pos % pg
  {
    PageHolds(cap, pg);
    PageHolds(pos, cap);
    PageInside(cap, cap / pg, pg, pos % cap);
    PagesBefore(pos / cap, cap, cap / pg, pg, pos % cap);
  }

  lemma PageInside(cap: nat, n: nat, pg: nat, a: nat)
    requires 0 < pg && cap == n * pg && a < cap
    ensures a / pg * pg + pg <= cap
  {
    var q := a / pg;
    PageHolds(a, pg);
    if q >= n { MulLe(n, q, pg); }
    MulLe(q + 1, n, pg);
  }

  // k chips of n pages in front of an address do not change its place in its page.
  lemma PagesBefore(k: nat, cap: nat, n: nat, pg: nat, a: nat)
    requires 0 < pg && cap == n * pg
    ensures a % pg == (k * cap + a) % pg
  {
    PageHolds(a, pg);
    Tile(k, n, pg, a / pg);
    DivUnique(k * cap + a, pg, k * n + a / pg);
  }

  lemma Tile(k: nat, n: nat, pg: nat, q: nat)
    ensures (k * n + q) * pg == k * (n * pg) + q * pg && (q + 1) * pg == q * pg + pg
  {
  }

  lemma NextPosition(cap: nat, pg: nat, pos: nat)
    requires 0 < pg && 0 < cap && cap % pg == 0 && pos % pg + 2 <= pg
    ensures (pos + 1) % cap == pos % cap + 1 && (pos + 1) % pg == pos % pg + 1
  {
    PageOf(cap, pg, pos);
    NextInPage(pos, pg);
    PageHolds(pos % cap, pg);
    assert pos == pos / cap * cap + pos % cap;
    DivUnique(pos + 1, cap, pos / cap);
  }

  // ---------- blocks ----------

  // The device bits of the command byte (eeprom_24lc_select)
  function DeviceBits(t: ChipType, select: u8, pos: nat): nat {
    match t
    case LC01 | LC02 => 0
    case LC04 | LC08 | LC16 => pos / 256 % 8
    case LC32 | LC64 | LC128 | LC256 | LC512 => select % 8
    case LC1024 => pos / 65536 % 2 * 4 + select % 4
  }

  // The block a chip takes from the device bits; the other bits only say which chip is meant.
  function BlockOf(t: ChipType, device: nat): nat {
    match t
    case LC04 | LC08 | LC16 => device
    case LC1024 => device / 4
    case _ => 0
  }

  // How many chips of this kind a bus tells apart by their address pins
  function Addressable(t: ChipType): nat {
    match t
    case LC01 | LC02 | LC04 | LC08 | LC16 => 1
    case LC32 | LC64 | LC128 | LC256 | LC512 => 8
    case LC1024 => 4
  }

  // The device bits fit their three places, and call the chip with the configured address, wherever it is read
  // or written.
  lemma CallsSelected(t: ChipType, select: u8, pos: nat)
    ensures DeviceBits(t, select, pos) < 8
    ensures Addressable(t) > 1 ==> DeviceBits(t, select, pos) % Addressable(t) == select % Addressable(t)
  {
    var high := pos / 65536 % 2;
    DivUnique(high * 4 + select % 4, 4, high);
  }

  // (pos & 0xff00) >> 8 and pos & 0x00ff
  function HighByte(pos: nat): u8 {
    pos / 256 % 256
  }

  function LowByte(pos: nat): u8 {
    pos % 256
  }

  // The address a chip takes from the address bytes; one-byte chips are sent the low byte twice.
  function Address(t: ChipType, hi: u8, lo: u8): nat {
    if BlockSize(t) == 256 then lo else BigEndian(hi, lo)
  }

  // Where position pos goes when the device bits were computed for position start
  function Sent(t: ChipType, start: nat, pos: nat): nat {
    match t
    case LC04 | LC08 | LC16 => start / 256 % 8 * 256 + pos % 256
    case LC1024 => start / 65536 % 2 * 65536 + pos % 65536
    case _ => pos % BlockSize(t)
  }

  lemma CommandBytes(t: ChipType, select: u8, start: nat, pos: nat)
    ensures BlockOf(t, DeviceBits(t, select, start)) * BlockSize(t) + Address(t, HighByte(pos), LowByte(pos))
            == Sent(t, start, pos)
  {
    BytesOf(pos);
    var b := start / 65536 % 2;
    DivUnique(b * 4 + select % 4, 4, b);
  }

  lemma BytesOf(pos: nat)
    ensures BigEndian(HighByte(pos), LowByte(pos)) == pos % 65536
  {
    var h := pos / 256;
    assert pos == h / 256 * 65536 + (256 * (h % 256) + pos % 256);
    DivUnique(pos, 65536, h / 256);
  }

  // Inside the block it started in, a position goes where it belongs.
  lemma SentHome(t: ChipType, start: nat, pos: nat)
    requires Capacity(t) <= BlockSize(t) || start / BlockSize(t) == pos / BlockSize(t)
    ensures Cell(Capacity(t), Sent(t, start, pos)) == Cell(Capacity(t), pos)
  {
    PageHolds(pos, BlockSize(t));
    if Capacity(t) <= BlockSize(t) {
      OneBlockHome(t, start, pos, pos / BlockSize(t), pos % BlockSize(t));
    } else {
      BlocksHome(t, start, pos, pos / BlockSize(t), pos % BlockSize(t));
    }
  }

  lemma BlocksHome(t: ChipType, start: nat, pos: nat, k: nat, low: nat)
    requires BlockSize(t) < Capacity(t) && start / BlockSize(t) == k == pos / BlockSize(t)
    requires low == pos % BlockSize(t) && pos == k * BlockSize(t) + low
    ensures Cell(Capacity(t), Sent(t, start, pos)) == Cell(Capacity(t), pos)
  {
    match t
    case LC04 => HomeInBlocks(k, 8, 256, low, 4, 0x200);
    case LC08 => HomeInBlocks(k, 8, 256, low, 2, 0x400);
    case LC16 => HomeInBlocks(k, 8, 256, low, 1, 0x800);
    case LC1024 => HomeInBlocks(k, 2, 65536, low, 1, 0x2_0000);
  }

  lemma OneBlockHome(t: ChipType, start: nat, pos: nat, k: nat, low: nat)
    requires Capacity(t) <= BlockSize(t) && low == pos % BlockSize(t) && pos == k * BlockSize(t) + low
    ensures Cell(Capacity(t), Sent(t, start, pos)) == Cell(Capacity(t), pos)
  {
    match t
    case LC01 => AddMultiple(low, 2 * k, 0x80);
    case LC02 => AddMultiple(low, k, 0x100);
    case LC32 => AddMultiple(low, 16 * k, 0x1000);
    case LC64 => AddMultiple(low, 8 * k, 0x2000);
    case LC128 => AddMultiple(low, 4 * k, 0x4000);
    case LC256 => AddMultiple(low, 2 * k, 0x8000);
    case LC512 => AddMultiple(low, k, 0x1_0000);
  }

  // Dropping whole rounds of n blocks of b bytes leaves the cell of a chip that fits m times into them.
  lemma HomeInBlocks(k: nat, n: nat, b: nat, low: nat, m: nat, cap: nat)
    requires 0 < n && 0 < cap && n * b == m * cap
    ensures Cell(cap, k % n * b + low) == Cell(cap, k * b + low)
  {
    var r := k / n;
    assert k == r * n + k % n;
    Rounds(r, n, k % n, b, m, cap);
    AddMultiple(k % n * b + low, r * m, cap);
  }

  lemma Rounds(r: nat, n: nat, k: nat, b: nat, m: nat, cap: nat)
    requires n * b == m * cap
    ensures (r * n + k) * b == r * m * cap + k * b
  {
    assert (r * n + k) * b == r * (n * b) + k * b;
    assert r * (m * cap) == r * m * cap;
  }

  // Behind its block a write goes around to the block's start.
  lemma SentAround(t: ChipType, start: nat, pos: nat)
    ensures Sent(t, start, pos + BlockSize(t)) == Sent(t, start, pos)
  {
    AddMultiple(pos, 1, BlockSize(t));
  }

  // Inside a page nothing comes between.
  lemma SentInPage(t: ChipType, start: nat, pos: nat, i: nat)
    requires pos % PageSize(t) + i < PageSize(t)
    ensures Sent(t, start, pos + i) == Sent(t, start, pos) + i
    ensures Sent(t, start, pos) % PageSize(t) == pos % PageSize(t)
  {
    PagesTile(t);
    var b, pg := BlockSize(t), PageSize(t);
    InBlock(pos, i, b, pg);
    var k := Sent(t, start, pos) / b;
    assert Sent(t, start, pos) == k * b + pos % b by { SentBlock(t, start, pos); }
    PagesBefore(k, b, b / pg, pg, pos % b);
  }

  lemma SentBlock(t: ChipType, start: nat, pos: nat)
    ensures Sent(t, start, pos) % BlockSize(t) == pos % BlockSize(t)
  {
    var b := BlockSize(t);
    match t
    case LC04 | LC08 | LC16 => DivUnique(Sent(t, start, pos), 256, start / 256 % 8);
    case LC1024 => DivUnique(Sent(t, start, pos), 65536, start / 65536 % 2);
    case _ => DivUnique(pos % b, b, 0);
  }

  lemma InBlock(pos: nat, i: nat, b: nat, pg: nat)
    requires 0 < pg && 0 < b && b % pg == 0 && pos % pg + i < pg
    ensures (pos + i) % b == pos % b + i && pos % b % pg == pos % pg
  {
    PageOf(b, pg, pos);
    BelowBlockEnd(pos % b, i, b, pg);
    StaysInBlock(pos, i, b);
  }

  lemma BelowBlockEnd(a: nat, i: nat, b: nat, pg: nat)
    requires 0 < pg && a / pg * pg + pg <= b && a % pg + i < pg
    ensures a + i < b
  {
    PageHolds(a, pg);
  }

  lemma StaysInBlock(pos: nat, i: nat, b: nat)
    requires 0 < b && pos % b + i < b
    ensures (pos + i) % b == pos % b + i
  {
    PageHolds(pos, b);
    DivUnique(pos + i, b, pos / b);
  }

  // What a write of data from pos on comes to, with the device bits for `start`
  function BusWrite(m: seq<u8>, t: ChipType, start: nat, pos: nat, data: seq<u8>): (r: seq<u8>)
    requires 0 < |m|
    ensures |r| == |m|
    decreases |data|
  {
    if data == [] then m
    else BusWrite(m[Cell(|m|, Sent(t, start, pos)) := data[0]], t, start, pos + 1, data[1..])
  }

  lemma {:induction false} BusWriteAppend(m: seq<u8>, t: ChipType, start: nat, pos: nat, x: seq<u8>, y: seq<u8>)
    requires 0 < |m|
    ensures BusWrite(BusWrite(m, t, start, pos, x), t, start, pos + |x|, y) == BusWrite(m, t, start, pos, x + y)
    decreases |x|
  {
    if x == [] {
      assert x + y == y;
    } else {
      assert (x + y)[1..] == x[1..] + y;
      BusWriteAppend(m[Cell(|m|, Sent(t, start, pos)) := x[0]], t, start, pos + 1, x[1..], y);
    }
  }

  // In a page it is a flat write where the first byte goes.
  lemma {:induction false} BusWriteInPage(m: seq<u8>, t: ChipType, start: nat, pos: nat, data: seq<u8>)
    requires 0 < |m| && pos % PageSize(t) + |data| <= PageSize(t)
    ensures BusWrite(m, t, start, pos, data) == FlatWrite(m, Sent(t, start, pos), data)
    decreases |data|
  {
    if |data| > 1 {
      SentInPage(t, start, pos, 1);
      PagesTile(t);
      NextInPage(pos, PageSize(t));
      BusWriteInPage(m[Cell(|m|, Sent(t, start, pos)) := data[0]], t, start, pos + 1, data[1..]);
    }
  }

  // The positions of a write all go where they belong.
  ghost predicate AllHome(t: ChipType, pos: nat, n: nat)
    requires 0 < Capacity(t)
  {
    forall p | pos <= p < pos + n :: Cell(Capacity(t), Sent(t, pos, p)) == Cell(Capacity(t), p)
  }

  /**
    They do exactly when the chip has no more than one block, or the write stays in the block it starts in.
   */
  lemma AllHomeIff(t: ChipType, pos: nat, n: nat)
    requires 0 < n
    ensures 0 < Capacity(t)
    ensures AllHome(t, pos, n)
            <==> Capacity(t) <= BlockSize(t) || (pos + n - 1) / BlockSize(t) == pos / BlockSize(t)
  {
    PagesTile(t);
    var b := BlockSize(t);
    if Capacity(t) <= b || (pos + n - 1) / b == pos / b {
      forall p | pos <= p < pos + n ensures Cell(Capacity(t), Sent(t, pos, p)) == Cell(Capacity(t), p) {
        DivMonotone(pos, p, b);
        DivMonotone(p, pos + n - 1, b);
        SentHome(t, pos, p);
      }
    } else {
      var p := (pos / b + 1) * b;
      NextBlock(pos, n, b);
      SentAway(t, pos);
      assert Cell(Capacity(t), Sent(t, pos, p)) != Cell(Capacity(t), p);
    }
  }

  lemma NextBlock(pos: nat, n: nat, b: nat)
    requires 0 < b && 0 < n && (pos + n - 1) / b != pos / b
    ensures pos < (pos / b + 1) * b < pos + n
  {
    var last := pos + n - 1;
    DivMonotone(pos, last, b);
    assert pos == pos / b * b + pos % b && last == last / b * b + last % b;
    MulLe(pos / b + 1, last / b, b);
  }

  // The first position behind the block does not go where it belongs.
  lemma SentAway(t: ChipType, pos: nat)
    requires BlockSize(t) < Capacity(t)
    ensures var p := (pos / BlockSize(t) + 1) * BlockSize(t);
            Cell(Capacity(t), Sent(t, pos, p)) != Cell(Capacity(t), p)
  {
    var b, k := BlockSize(t), pos / BlockSize(t);
    DivUnique((k + 1) * b, b, k + 1);
    SentHome(t, (k + 1) * b, (k + 1) * b);
    match t
    case LC04 => Neighbours(k, 8, 256, 4, 0x200);
    case LC08 => Neighbours(k, 8, 256, 2, 0x400);
    case LC16 => Neighbours(k, 8, 256, 1, 0x800);
    case LC1024 => Neighbours(k, 2, 65536, 1, 0x2_0000);
  }

  lemma Neighbours(k: nat, n: nat, b: nat, m: nat, cap: nat)
    requires 1 < n && 0 < b < cap && n * b == m * cap && 0 < m
    ensures Cell(cap, k % n * b) != Cell(cap, (k + 1) * b)
  {
    HomeInBlocks(k, n, b, 0, m, cap);
    CellsDiffer(cap, k * b, b);
    assert (k + 1) * b == k * b + b;
  }

  // A write whose positions all go where they belong is a flat write.
  lemma {:induction false} HomeWriteIsFlat(m: seq<u8>, t: ChipType, start: nat, pos: nat, data: seq<u8>)
    requires |m| == Capacity(t) && 0 < |m|
    requires forall p | pos <= p < pos + |data| :: Cell(|m|, Sent(t, start, p)) == Cell(|m|, p)
    ensures BusWrite(m, t, start, pos, data) == FlatWrite(m, pos, data)
    decreases |data|
  {
    if data != [] {
      HomeWriteIsFlat(m[Cell(|m|, pos) := data[0]], t, start, pos + 1, data[1..]);
    }
  }

  // ---------- the plan ----------

  // How far the first write reaches: up to the next page
  function FirstSize(pos: nat, pg: nat): (n: nat)
    requires 0 < pg
    ensures 1 <= n <= pg && n == pg - pos % pg
  {
    pg - pos % pg
  }

  // How many writes there are
  function Writes(pos: nat, pg: nat, count: nat): nat
    requires 0 < pg
  {
    if count <= FirstSize(pos, pg) then 1 else (count - FirstSize(pos, pg)) / pg + 2
  }

  // How many bytes the first k writes take: up to the k-th page boundary, or all
  function Done(pos: nat, pg: nat, count: nat, k: nat): (n: nat)
    requires 0 < pg
    ensures n <= count
  {
    if k == 0 || count == 0 then 0
    else
      PagesFrom(k, pg);
      var upTo := FirstSize(pos, pg) + (k - 1) * pg;
      if upTo < count then upTo else count
  }

  lemma PagesFrom(k: nat, pg: nat)
    requires 0 < k
    ensures 0 <= (k - 1) * pg
  {
  }

  function LastSize(pos: nat, pg: nat, count: nat): nat
    requires 0 < pg
  {
    if count <= FirstSize(pos, pg) then count else (count - FirstSize(pos, pg)) % pg
  }

  // The size the loop gives to a write
  function WriteSize(pos: nat, pg: nat, count: nat, page: nat): nat
    requires 0 < pg
  {
    if page + 1 == Writes(pos, pg, count) then LastSize(pos, pg, count)
    else if page == 0 then FirstSize(pos, pg) else pg
  }

  // No write crosses a page, they follow one another, and together they take everything.
  lemma NextWrite(pos: nat, pg: nat, count: nat, page: nat)
    requires 0 < pg && page < Writes(pos, pg, count)
    ensures var (done, size) := (Done(pos, pg, count, page), WriteSize(pos, pg, count, page));
            Done(pos, pg, count, page + 1) == done + size && (pos + done) % pg + size <= pg
    ensures Done(pos, pg, count, Writes(pos, pg, count)) == count
  {
    var first := FirstSize(pos, pg);
    if count > first {
      var rest := count - first;
      var q := rest / pg;
      PageHolds(rest, pg);
      DoneUpTo(pos, pg, count, q + 2, q, rest % pg);
      if page > 0 {
        DoneUpTo(pos, pg, count, page, q, rest % pg);
        DoneUpTo(pos, pg, count, page + 1, q, rest % pg);
        PageStart(pos, pg, page - 1);
      } else {
        DoneUpTo(pos, pg, count, 1, q, rest % pg);
      }
    }
  }

  // After k writes of a buffer that takes the first write, q whole pages, and `last` bytes more
  lemma DoneUpTo(pos: nat, pg: nat, count: nat, k: nat, q: nat, last: nat)
    requires 0 < pg && 0 < k <= q + 2 && last < pg && count == FirstSize(pos, pg) + q * pg + last
    ensures Done(pos, pg, count, k) == if k == q + 2 then count else FirstSize(pos, pg) + (k - 1) * pg
    ensures k <= q + 1 ==> k * pg == (k - 1) * pg + pg
    ensures k == q + 1 ==> FirstSize(pos, pg) + (k - 1) * pg + last == count
  {
    OneMore(k, pg);
    if k <= q + 1 { MulLe(k - 1, q, pg); } else { OneMore(q + 1, pg); }
  }

  function Least(x: nat, y: nat): nat {
    if x < y then x else y
  }

  /**
    The memory after the first k transactions, and how many bytes got through: each sends the buffer's next
    bytes, counted by what got through, to the next position, counted by what was meant to.
   */
  function Transfers(m: seq<u8>, t: ChipType, pos: nat, pg: nat, buf: seq<u8>, count: nat, bus: nat -> Option<nat>,
                     k: nat): (r: (seq<u8>, nat))
    requires 0 < |m| && 0 < pg && count <= |buf| && k <= Writes(pos, pg, count)
    ensures |r.0| == |m| && r.1 <= Done(pos, pg, count, k)
  {
    if k == 0 then (m, 0)
    else
      NextWrite(pos, pg, count, k - 1);
      var (before, size) := Transfers(m, t, pos, pg, buf, count, bus, k - 1);
      var sent := Through(pos, pg, count, bus, k - 1);
      (BusWrite(before, t, pos, pos + Done(pos, pg, count, k - 1), buf[size..size + sent]), size + sent)
  }

  // What gets through of transaction k
  function Through(pos: nat, pg: nat, count: nat, bus: nat -> Option<nat>, k: nat): (n: nat)
    requires 0 < pg
    ensures n <= WriteSize(pos, pg, count, k)
  {
    match bus(k)
    case None => 0
    case Some(n) => Least(n, WriteSize(pos, pg, count, k))
  }

  lemma NothingDone(m: seq<u8>, t: ChipType, pos: nat, pg: nat, buf: seq<u8>, count: nat, bus: nat -> Option<nat>)
    requires 0 < pg && 0 < |m| && count <= |buf|
    ensures Done(pos, pg, count, 0) == 0 && Transfers(m, t, pos, pg, buf, count, bus, 0) == (m, 0)
  {
  }

  lemma NextTransfer(m: seq<u8>, t: ChipType, pos: nat, pg: nat, buf: seq<u8>, count: nat, bus: nat -> Option<nat>,
                     k: nat)
    requires 0 < |m| && 0 < pg && count <= |buf| && k < Writes(pos, pg, count)
    ensures var (before, size) := Transfers(m, t, pos, pg, buf, count, bus, k);
            var sent := Through(pos, pg, count, bus, k);
            && size + sent <= |buf| && |before| == |m|
            && Transfers(m, t, pos, pg, buf, count, bus, k + 1)
               == (BusWrite(before, t, pos, pos + Done(pos, pg, count, k), buf[size..size + sent]), size + sent)
  {
    hide Writes, Done, WriteSize, Through, BusWrite;
    NextWrite(pos, pg, count, k);
  }

  // The cells from position `to` on hold the data.
  ghost predicate Holds(m: seq<u8>, to: nat, data: seq<u8>)
    requires 0 < |m|
  {
    forall i | 0 <= i < |data| :: m[Cell(|m|, to + i)] == data[i]
  }

  // Where the bytes of transaction k go, and which ones they are: the position counts the bytes that were meant
  // to be written before it, the buffer those that were. No other cell changes.
  lemma TransferAt(m: seq<u8>, t: ChipType, pos: nat, pg: nat, buf: seq<u8>, count: nat, bus: nat -> Option<nat>,
                   k: nat)
    requires |m| == Capacity(t) && pg == PageSize(t) > 0 && 0 < |m| && count <= |buf| && k < Writes(pos, pg, count)
    ensures var (before, size) := Transfers(m, t, pos, pg, buf, count, bus, k);
            var (after, size') := Transfers(m, t, pos, pg, buf, count, bus, k + 1);
            var (to, sent) := (Sent(t, pos, pos + Done(pos, pg, count, k)), Through(pos, pg, count, bus, k));
            && size' == size + sent <= |buf| && |after| == |before| == |m|
            && Holds(after, to, buf[size..size + sent])
            && (forall x | 0 <= x < |m| && Outside(|m|, to, sent, x) :: after[x] == before[x])
  {
    hide Writes, Done, WriteSize, Through, BusWrite, Transfers, FlatWrite, Sent, PageSize, Capacity, Holds,
         Outside, Cell;
    NextWrite(pos, pg, count, k);
    NextTransfer(m, t, pos, pg, buf, count, bus, k);
    PagesTile(t);
    var (before, size) := Transfers(m, t, pos, pg, buf, count, bus, k);
    var (at, sent) := (pos + Done(pos, pg, count, k), Through(pos, pg, count, bus, k));
    var data := buf[size..size + sent];
    BusWriteInPage(before, t, pos, at, data);
    PageFits(t);
    FlatWriteAt(before, Sent(t, pos, at), data);
  }

  // A flat write holds the data, and changes no other cell.
  lemma FlatWriteAt(m: seq<u8>, to: nat, data: seq<u8>)
    requires 0 < |m| && |data| <= |m|
    ensures Holds(FlatWrite(m, to, data), to, data)
    ensures forall x | 0 <= x < |m| && Outside(|m|, to, |data|, x) :: FlatWrite(m, to, data)[x] == m[x]
  {
    hide FlatWrite, Outside;
    forall i | 0 <= i < |data| ensures FlatWrite(m, to, data)[Cell(|m|, to + i)] == data[i] {
      WriteInside(m, to, data, i);
    }
    forall x | 0 <= x < |m| && Outside(|m|, to, |data|, x) ensures FlatWrite(m, to, data)[x] == m[x] {
      WriteOutside(m, to, data, x);
    }
  }

  lemma PageFits(t: ChipType)
    ensures PageSize(t) <= Capacity(t)
  {
  }

  // All bytes of the first k transactions get through.
  ghost predicate AllThrough(pos: nat, pg: nat, count: nat, bus: nat -> Option<nat>, k: nat)
    requires 0 < pg
  {
    forall j | 0 <= j < k :: Through(pos, pg, count, bus, j) == WriteSize(pos, pg, count, j)
  }

  // The result tells: as many bytes got through as were meant to exactly when all of them did...
  lemma {:induction false} ThroughIff(m: seq<u8>, t: ChipType, pos: nat, pg: nat, buf: seq<u8>, count: nat,
                                      bus: nat -> Option<nat>, k: nat)
    requires 0 < |m| && 0 < pg && count <= |buf| && k <= Writes(pos, pg, count)
    ensures Transfers(m, t, pos, pg, buf, count, bus, k).1 == Done(pos, pg, count, k)
            <==> AllThrough(pos, pg, count, bus, k)
    decreases k
  {
    hide Done, Writes, Through, WriteSize, BusWrite;
    if k == 0 {
      NothingDone(m, t, pos, pg, buf, count, bus);
    } else {
      ThroughIff(m, t, pos, pg, buf, count, bus, k - 1);
      NextWrite(pos, pg, count, k - 1);
      NextTransfer(m, t, pos, pg, buf, count, bus, k - 1);
    }
  }

  // ...and then the transactions come to one write of the buffer.
  lemma {:induction false} AllThroughWrites(m: seq<u8>, t: ChipType, pos: nat, pg: nat, buf: seq<u8>, count: nat,
                                            bus: nat -> Option<nat>, k: nat)
    requires 0 < |m| && 0 < pg && count <= |buf| && k <= Writes(pos, pg, count)
    requires AllThrough(pos, pg, count, bus, k)
    ensures Transfers(m, t, pos, pg, buf, count, bus, k)
            == (BusWrite(m, t, pos, pos, buf[..Done(pos, pg, count, k)]), Done(pos, pg, count, k))
    decreases k
  {
    hide Done, Writes, Through, WriteSize, BusWrite, Transfers;
    if k == 0 {
      NothingDone(m, t, pos, pg, buf, count, bus);
      NothingWritten(m, t, pos);
      assert buf[..0] == [];
    } else {
      AllThroughWrites(m, t, pos, pg, buf, count, bus, k - 1);
      NextWrite(pos, pg, count, k - 1);
      NextTransfer(m, t, pos, pg, buf, count, bus, k - 1);
      var (x, y) := (Done(pos, pg, count, k - 1), Done(pos, pg, count, k));
      BusWriteAppend(m, t, pos, pos, buf[..x], buf[x..y]);
      assert buf[..x] + buf[x..y] == buf[..y];
    }
  }

  lemma NothingWritten(m: seq<u8>, t: ChipType, pos: nat)
    requires 0 < |m|
    ensures BusWrite(m, t, pos, pos, []) == m
  {
  }

  lemma PageStart(pos: nat, pg: nat, k: nat)
    requires 0 < pg
    ensures (pos + (FirstSize(pos, pg) + k * pg)) % pg == 0
  {
    PageHolds(pos, pg);
    assert (pos / pg + 1 + k) * pg == pos / pg * pg + pg + k * pg;
    DivUnique(pos + (FirstSize(pos, pg) + k * pg), pg, pos / pg + 1 + k);
  }

  lemma OneMore(k: nat, pg: nat)
    requires 0 < k
    ensures k * pg == (k - 1) * pg + pg && (k - 1) * pg >= 0
  {
  }

  // What the code computes for the first write
  lemma FirstWrite(pos: nat, pg: nat)
    requires 0 < pg
    ensures var space := (pos / pg + 1) * pg - pos;
            var part := space - space / pg * pg;
            0 < space <= pg && FirstSize(pos, pg) == if part == 0 then pg else part
  {
    PageHolds(pos, pg);
    var space := pg - pos % pg;
    assert (pos / pg + 1) * pg == pos / pg * pg + pg;
    DivUnique(space, pg, if space == pg then 1 else 0);
  }

  // ---------- the driver ----------

  class Chip {
    const kind: ChipType
    var cells: seq<u8>

    ghost predicate Valid()
      reads this
    {
      |cells| == Capacity(kind)
    }

    constructor (kind: ChipType, cells: seq<u8>)
      requires |cells| == Capacity(kind)
      ensures Valid() && this.kind == kind && this.cells == cells
    {
      this.kind, this.cells := kind, cells;
    }

    // The cell a transaction starts at; address bits past the chip's size are ignored.
    function Start(device: nat, hi: u8, lo: u8): (a: nat)
      ensures a < Capacity(kind)
    {
      Cell(Capacity(kind), BlockOf(kind, device) * BlockSize(kind) + Address(kind, hi, lo))
    }

    // A transaction of address bytes and data. No data is a repeated start, which writes nothing.
    method Write(device: nat, hi: u8, lo: u8, data: seq<u8>)
      requires Valid()
      modifies this
      ensures Valid()
      ensures var (a, pg) := (Start(device, hi, lo), PageSize(kind));
              a / pg * pg + pg <= |old(cells)| && cells == PageWrite(old(cells), pg, a, data)
    {
      PagesTile(kind);
      PageOf(Capacity(kind), PageSize(kind), Start(device, hi, lo));
      cells := PageWrite(cells, PageSize(kind), Start(device, hi, lo), data);
    }

    // A sequential read from an address on rolls over at the end of the chip.
    method Read(device: nat, hi: u8, lo: u8, n: nat) returns (data: seq<u8>)
      requires Valid()
      ensures data == FlatRead(cells, Start(device, hi, lo), n)
    {
      data := FlatRead(cells, Start(device, hi, lo), n);
    }
  }

  datatype Whence = SeekSet | SeekCur | SeekEnd

  class Driver {
    const chip: Chip
    const select: u8
    var init: bool
    var pageSize: nat
    var pos: nat

    ghost predicate Valid()
      reads this, chip
    {
      chip.Valid() && (init ==> pageSize == PageSize(chip.kind))
    }

    // eeprom_24lc_driver_init
    constructor (chip: Chip, select: u8)
      requires chip.Valid()
      ensures Valid() && this.chip == chip && this.select == select && init && pos == 0
    {
      this.chip, this.select := chip, select;
      init, pageSize, pos := true, PageSize(chip.kind), 0;
    }

    /**
      eeprom_24lc_driver_write. `bus` says of its k-th transaction whether it finds the bus free and, if so, how
      many bytes of data get through; `done` is how many are made. The write stops at the first that does not
      find the bus free, reports nothing written, and keeps its place. Bytes that do not get through are
      sent again by the next transaction, while the position moves on as if they had been written.
     */
    method Write(buf: seq<u8>, count: nat, bus: nat -> Option<nat>) returns (size: int, ghost done: nat)
      requires Valid() && count <= |buf|
      modifies this`pos, chip
      ensures Valid() && init == old(init)
      ensures !init ==> size == -1 && pos == old(pos) && chip.cells == old(chip.cells)
      ensures init ==>
                var (start, pg) := (old(pos), pageSize); var all := Writes(start, pg, count);
                && done <= all && (forall k | 0 <= k < done :: bus(k).Some?) && (done < all ==> bus(done) == None)
                && pos == start + Done(start, pg, count, done) && (done == all ==> pos == start + count)
                && var (cells, sent) := Transfers(old(chip.cells), chip.kind, start, pg, buf, count, bus, done);
                   chip.cells == cells && size == if done == all then sent else 0
    {
      hide BusWrite, Done, Writes, LastSize, FirstSize, PageSize, Capacity, DeviceBits, Transfers;
      done := 0;
      if !init {
        return -1, done;
      }
      var device := DeviceBits(chip.kind, select, pos);
      var firstWriteSize, lastWriteSize, numWrites := Plan(count);
      ghost var cells, start := chip.cells, pos;
      size := 0;
      var page := 0;
      PagesTile(chip.kind);
      NothingDone(cells, chip.kind, start, pageSize, buf, count, bus);
      while page < numWrites
        invariant Valid() && init && page <= numWrites && done == page && |cells| == Capacity(chip.kind)
        invariant 0 <= size && pos == start + Done(start, pageSize, count, page)
        invariant forall k | 0 <= k < page :: bus(k).Some?
        invariant (chip.cells, size) == Transfers(cells, chip.kind, start, pageSize, buf, count, bus, page)
        decreases numWrites - page
      {
        var writeSize := pageSize;
        if page == 0 {
          writeSize := firstWriteSize;
        }
        if page == numWrites - 1 {
          writeSize := lastWriteSize;
        }
        var got := bus(page);
        if got == None {
          return 0, done;
        }
        NextWrite(start, pageSize, count, page);
        NextTransfer(cells, chip.kind, start, pageSize, buf, count, bus, page);
        var sent := Least(got.value, writeSize);
        WriteChunk(buf[size..size + sent], device, start);
        size := size + sent;
        pos := pos + writeSize;
        page := page + 1;
        done := done + 1;
      }
      NextWrite(start, pageSize, count, page - 1);
    }

    // The sizes of the first and the last write, and how many writes there are
    method Plan(count: nat) returns (first: nat, last: nat, num: nat)
      requires Valid() && init
      ensures 0 < pageSize && first == FirstSize(pos, pageSize)
      ensures last == LastSize(pos, pageSize, count) && num == Writes(pos, pageSize, count) > 0
    {
      PagesTile(chip.kind);
      FirstWrite(pos, pageSize);
      var pageSpace := (pos / pageSize + 1) * pageSize - pos;
      first := pageSpace - pageSpace / pageSize * pageSize;
      if first == 0 {
        first := pageSize;
      }
      last, num := count, 1;
      if count > first {
        last := (count - first) % pageSize;
        num := (count - first) / pageSize + 2;
      }
    }

    // One transaction: it must not cross a page boundary.
    method WriteChunk(data: seq<u8>, device: nat, ghost start: nat)
      requires Valid() && init && 0 < pageSize && pos % pageSize + |data| <= pageSize
      requires device == DeviceBits(chip.kind, select, start)
      modifies chip
      ensures Valid()
      ensures 0 < |old(chip.cells)| && chip.cells == BusWrite(old(chip.cells), chip.kind, start, pos, data)
    {
      hide BusWrite, FlatWrite, PageWrite, DeviceBits, Sent, Address, BlockOf, Capacity, PageSize, BlockSize;
      CommandBytes(chip.kind, select, start, pos);
      PagesTile(chip.kind);
      BusWriteInPage(chip.cells, chip.kind, start, pos, data);
      if data != [] { SentInPage(chip.kind, start, pos, 0); }
      ChunkIsFlat(chip.cells, pageSize, Sent(chip.kind, start, pos), data);
      chip.Write(device, HighByte(pos), LowByte(pos), data);
    }

    // eeprom_24lc_driver_read; `bus` says whether it finds the bus free, and how many bytes then get through.
    method Read(n: nat, bus: Option<nat>) returns (data: seq<u8>, size: int)
      requires Valid()
      modifies this`pos
      ensures !init ==> size == -1 && pos == old(pos)
      ensures init && bus == None ==> size == 0 && pos == old(pos)
      ensures init && bus.Some? ==>
                && 0 < |chip.cells| && size == Least(bus.value, n) && pos == old(pos) + Least(bus.value, n)
                && data == FlatRead(chip.cells, old(pos), Least(bus.value, n))
    {
      if !init {
        return [], -1;
      }
      if bus == None {
        return [], 0;
      }
      var device, got := DeviceBits(chip.kind, select, pos), Least(bus.value, n);
      CommandBytes(chip.kind, select, pos, pos);
      SentHome(chip.kind, pos, pos);
      PagesTile(chip.kind);
      data := chip.Read(device, HighByte(pos), LowByte(pos), got);
      ReadModulo(chip.cells, pos, got);
      size := got;
      pos := pos + got;
    }

    // eeprom_24lc_driver_seek
    method Seek(offset: int, whence: Whence) returns (r: int)
      modifies this`pos
      ensures match whence
              case SeekSet => pos == (if offset < 0 then 0 else offset) && r == pos
              case SeekCur => pos == (if old(pos) + offset < 0 then 0 else old(pos) + offset) && r == pos
              case SeekEnd => pos == old(pos) && r == 0
    {
      match whence {
        case SeekSet => pos := if offset < 0 then 0 else offset;
        case SeekCur => pos := if pos + offset < 0 then 0 else pos + offset;
        case SeekEnd => return 0;
      }
      r := pos;
    }
  }

  lemma ChunkIsFlat(m: seq<u8>, pg: nat, pos: nat, data: seq<u8>)
    requires 0 < pg && 0 < |m| && |m| % pg == 0 && (data == [] || pos % pg + |data| <= pg)
    ensures pos % |m| / pg * pg + pg <= |m| && PageWrite(m, pg, pos % |m|, data) == FlatWrite(m, pos, data)
  {
    PageOf(|m|, pg, pos);
    if data != [] { InPageIsFlat(m, pg, pos, data); }
  }

  lemma AddMultiple(x: nat, k: nat, w: nat)
    requires 0 < w
    ensures (x + k * w) % w == x % w
  {
    assert x == x / w * w + x % w;
    assert (x / w + k) * w == x / w * w + k * w;
    DivUnique(x + k * w, w, x / w + k);
  }

  lemma ReadModulo(m: seq<u8>, pos: nat, n: nat)
    requires 0 < |m|
    ensures FlatRead(m, pos % |m|, n) == FlatRead(m, pos, n)
  {
    forall i | 0 <= i < n ensures FlatRead(m, pos % |m|, n)[i] == FlatRead(m, pos, n)[i] {
      CellModulo(|m|, pos, i);
    }
  }

  lemma CellModulo(cap: nat, pos: nat, i: nat)
    requires 0 < cap
    ensures Cell(cap, pos % cap + i) == Cell(cap, pos + i)
  {
    assert pos == pos / cap * cap + pos % cap;
    AddMultiple(pos % cap + i, pos / cap, cap);
  }

  // Fewer than cap positions apart, cells differ.
  lemma CellsDiffer(cap: nat, pos: nat, i: nat)
    requires 0 < i < cap
    ensures Cell(cap, pos) != Cell(cap, pos + i)
  {
    var a := pos % cap;
    assert pos == pos / cap * cap + a;
    if a + i < cap {
      DivUnique(pos + i, cap, pos / cap);
    } else {
      assert (pos / cap + 1) * cap == pos / cap * cap + cap;
      DivUnique(pos + i, cap, pos / cap + 1);
    }
  }

  // The n cells from pos on do not include k.
  ghost predicate Outside(cap: nat, pos: nat, n: nat, k: nat)
    requires 0 < cap
  {
    forall p | pos <= p < pos + n :: Cell(cap, p) != k
  }

  // A flat write changes no other cell.
  lemma {:induction false} WriteOutside(m: seq<u8>, pos: nat, data: seq<u8>, k: nat)
    requires 0 < |m| && k < |m| && Outside(|m|, pos, |data|, k)
    ensures FlatWrite(m, pos, data)[k] == m[k]
    decreases |data|
  {
    if data != [] {
      WriteOutside(m[Cell(|m|, pos) := data[0]], pos + 1, data[1..], k);
    }
  }

  lemma {:induction false} WriteInside(m: seq<u8>, pos: nat, data: seq<u8>, i: nat)
    requires 0 < |m| && i < |data| <= |m|
    ensures FlatWrite(m, pos, data)[Cell(|m|, pos + i)] == data[i]
    decreases |data|
  {
    var m' := m[Cell(|m|, pos) := data[0]];
    if i == 0 {
      forall p | pos < p < pos + |data| ensures Cell(|m|, p) != Cell(|m|, pos) {
        CellsDiffer(|m|, pos, p - pos);
      }
      WriteOutside(m', pos + 1, data[1..], Cell(|m|, pos));
    } else {
      WriteInside(m', pos + 1, data[1..], i - 1);
    }
  }

  // Seeking back and reading gives the bytes that were written, for anything that fits the chip.
  lemma WriteThenRead(m: seq<u8>, pos: nat, data: seq<u8>)
    requires 0 < |m| && |data| <= |m|
    ensures FlatRead(FlatWrite(m, pos, data), pos, |data|) == data
  {
    forall i | 0 <= i < |data| ensures FlatRead(FlatWrite(m, pos, data), pos, |data|)[i] == data[i] {
      WriteInside(m, pos, data, i);
    }
  }

  lemma SizesFit(pos: nat, pg: nat, count: nat)
    requires 0 < pg
    ensures forall k :: WriteSize(pos, pg, count, k) <= pg
  {
  }

  // The same through the driver: write, seek back, read, wherever the write stays flat.
  method WriteSeekRead(dev: Driver, buf: seq<u8>) returns (data: seq<u8>)
    requires dev.Valid() && dev.init && |buf| <= Capacity(dev.chip.kind) && 0 < Capacity(dev.chip.kind)
    requires AllHome(dev.chip.kind, dev.pos, |buf|)
    modifies dev`pos, dev.chip
    ensures data == buf && dev.pos == old(dev.pos) + |buf|
  {
    var start := dev.pos;
    ghost var cells := dev.chip.cells;
    assert buf[..|buf|] == buf;
    ghost var done;
    var written;
    ghost var pg := dev.pageSize;
    written, done := dev.Write(buf, |buf|, _ => Some(PageSize(dev.chip.kind)));
    SizesFit(start, pg, |buf|);
    AllThroughWrites(cells, dev.chip.kind, start, pg, buf, |buf|, _ => Some(PageSize(dev.chip.kind)), done);
    HomeWriteIsFlat(cells, dev.chip.kind, start, start, buf);
    var at := dev.Seek(start, SeekSet);
    var size;
    data, size := dev.Read(|buf|, Some(|buf|));
    WriteThenRead(cells, start, buf);
  }
}
