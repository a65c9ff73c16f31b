/** The power-of-two ring behind semaphores, event queues and message queues. */
module RingQueue {
  import opened Arith
  import opened Bits
  import opened Words

  // nextpowerof2 on a uint32_t
  method NextPowerOf2(x0: nat) returns (p: nat)
    requires 2 <= x0 <= 0x8000_0000
    ensures IsPow2(p) && x0 <= p < 2 * x0
  {
    var x := x0 - 1;
    ghost var k := LeadingOne(x);
    WordBits(x, k);
    SmearBy(x, k, 1);
    x := Or(x, Shr(x, 1));
    SmearBy(x, k, 2);
    x := Or(x, Shr(x, 2));
    SmearBy(x, k, 4);
    x := Or(x, Shr(x, 4));
    SmearBy(x, k, 8);
    x := Or(x, Shr(x, 8));
    SmearBy(x, k, 16);
    x := Or(x, Shr(x, 16));
    AllOnes(x, k);
    p := x + 1;
  }

  lemma WordBits(x: nat, k: nat)
    requires 0 < k && IntPow2(k - 1) <= x < 0x8000_0000
    ensures k <= 31
  {
    if k > 31 {
      IntPow2Grows(31, k - 1);
      IntPow2At31();
    }
  }

  lemma AllOnes(x: nat, k: nat)
    requires Ones(x, k, k)
    ensures x == IntPow2(k) - 1
  {
    ShrZero(x);
  }

  // The ring's size for a requested number of elements: the least power of two that is at least
  // that number, and at least two.
  ghost predicate IsRingSize(size: nat, requested: int) {
    && IsPow2(size) && 2 <= size && requested <= size
    && (size == 2 || size < 2 * requested)
  }

  // The sizes in question, in steps of powers of two
  lemma RingSizes(n: nat, requested: int)
    requires IsPow2(n) && 2 <= n && requested <= n && (n == 2 || n < 2 * requested) && requested < 0x8000_0000
    ensures n <= 0x2000_0000 || n == 0x4000_0000 || n == 0x8000_0000
    ensures n <= 0x2000_0000 <==> requested <= 0x2000_0000
    ensures n <= 0x2000_0000 ==> n * 4 % W32 / 4 == n
  {
    IntPow2At31();
    assert IntPow2(30) == 0x4000_0000 && IntPow2(29) == 0x2000_0000;
    assert IsPow2(0x2000_0000) && IsPow2(0x4000_0000) && IsPow2(0x8000_0000);
    if 0x2000_0000 <= n < 0x4000_0000 { Pow2Gap(0x2000_0000, n); }
    if 0x4000_0000 <= n < 0x8000_0000 { Pow2Gap(0x4000_0000, n); }
    if 0x8000_0000 <= n { Pow2Gap(0x8000_0000, n); }
  }

  class RingQueue<T(0)> {
    var pdata: array<T>
    var size: int
    var mask: int
    var head: nat
    var tail: nat
    var elem: nat

    ghost predicate Valid()
      reads this
    {
      && pdata.Length == size && IsPow2(size) && 2 <= size && mask == size - 1
      && head < size && tail < size
      && elem == if head <= tail then tail - head else tail + size - head
    }

    // The queued elements, longest waiting first
    ghost function Contents(): (c: seq<T>)
      reads this, pdata
      requires Valid()
      ensures |c| == elem < size
    {
      if head <= tail then pdata[head..tail] else pdata[head..] + pdata[..tail]
    }

    /**
      queue_create, with memory for what it asks for: on a 32-bit target the bytes of the array wrap around
      at 2^30 slots, and above that the size itself leaves int32_t.
     */
    constructor (requested: int)
      requires requested < 0x8000_0000
      ensures Valid() <==> requested <= 0x2000_0000
      ensures Valid() ==> IsRingSize(size, requested) && Contents() == []
      ensures !Valid() ==> pdata.Length == 0
      ensures fresh(pdata)
    {
      var n: nat := if requested < 2 then 2 else requested;
      ClearsLowestIff(n);
      if !ClearsLowest(n) {
        n := NextPowerOf2(n);
      }
      RingSizes(n, requested);
      size := if n == 0x8000_0000 then 0 - 0x8000_0000 else n;
      mask := n - 1;
      pdata := new T[n * 4 % W32 / 4];
      head, tail, elem := 0, 0, 0;
    }

    // Slot arithmetic: (i + 1) & mask is the next slot, around the end.
    lemma NextSlot(i: nat)
      requires Valid() && i < size
      ensures And(i + 1, mask) == if i + 1 == size then 0 else i + 1
    {
      var k: nat :| size == IntPow2(k);
      AndMask(i + 1, k);
      DivUnique(i + 1, size, if i + 1 == size then 1 else 0);
    }

    method Enqueue(data: T) returns (err: int)
      requires Valid()
      modifies this, pdata
      ensures Valid() && pdata == old(pdata) && size == old(size)
      ensures err == if old(|Contents()|) == size - 1 then -1 else 0
      ensures Contents() == if err == 0 then old(Contents()) + [data] else old(Contents())
    {
      NextSlot(tail);
      var next := And(tail + 1, mask);
      if next == head {
        return -1;
      }
      pdata[tail] := data;
      tail := next;
      elem := elem + 1;
      err := 0;
    }

    method Dequeue() returns (r: Option<T>)
      requires Valid()
      modifies this
      ensures Valid() && pdata == old(pdata) && size == old(size)
      ensures var c := old(Contents());
              if c == [] then r == None && Contents() == c else r == Some(c[0]) && Contents() == c[1..]
    {
      if head == tail {
        return None;
      }
      NextSlot(head);
      var slot := head;
      head := And(head + 1, mask);
      elem := elem - 1;
      return Some(pdata[slot]);
    }
  }

  // A ring of this size holds `requested` elements exactly when that is no power of two above one:
  // one slot always stays empty.
  lemma RoomForAll(size: nat, requested: nat)
    requires IsRingSize(size, requested)
    ensures requested <= size - 1 <==> requested < 2 || !IsPow2(requested)
  {
    if requested == size {
    } else if 2 <= requested && IsPow2(requested) {
      Pow2Gap(requested, size);
    }
  }

  // There is no power of two strictly between one and its double.
  lemma Pow2Gap(p: nat, q: nat)
    requires IsPow2(p) && IsPow2(q) && p <= q < 2 * p
    ensures p == q
  {
    var j: nat, k: nat :| p == IntPow2(j) && q == IntPow2(k);
    if j < k { IntPow2Grows(j + 1, k); }
    if k < j { IntPow2Grows(k + 1, j); }
  }
}
