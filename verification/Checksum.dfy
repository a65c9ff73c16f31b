/** The internet checksum (RFC 1071) and its incremental update in an ICMP echo reply. */
module Checksum {
  import opened Arith
  import opened Words

  // The sum of the big-endian 16-bit words, an odd last byte padded with a zero byte
  function RawSum(b: seq<u8>): nat {
    if b == [] then 0
    else if |b| == 1 then BigEndian(b[0], 0)
    else BigEndian(b[0], b[1]) + RawSum(b[2..])
  }

  // The carries folded in twice, and the result cut to 16 bits
  function Fold(sum: u32): u16 {
    var once := sum / 0x1_0000 + sum % 0x1_0000;
    (once + once / 0x1_0000) % 0x1_0000
  }

  // What is left of a sum in a uint32_t
  function Word32(x: nat): u32 {
    x % W32
  }

  function ChecksumOf(b: seq<u8>): u16 {
    0xffff - Fold(Word32(RawSum(b)))
  }

  lemma {:induction false} RawSumAppend(b: seq<u8>, c: seq<u8>)
    requires |b| % 2 == 0
    ensures RawSum(b + c) == RawSum(b) + RawSum(c)
    decreases |b|
  {
    if b == [] {
      assert b + c == c;
    } else {
      assert (b + c)[2..] == b[2..] + c;
      RawSumAppend(b[2..], c);
    }
  }

  // The bytes at even or at odd places, added up
  function Column(b: seq<u8>, parity: nat): nat {
    if b == [] then 0
    else Column(b[..|b| - 1], parity) + if (|b| - 1) % 2 == parity then b[|b| - 1] else 0
  }

  // The sum is that of big-endian words: bytes at even places count 256 times, an odd last one included.
  lemma {:induction false} RawSumIs(b: seq<u8>)
    ensures RawSum(b) == 256 * Column(b, 0) + Column(b, 1)
    decreases |b|
  {
    hide RawSum;
    if b == [] {
      NoSum();
    } else {
      var n := |b| - 1;
      RawSumIs(b[..n]);
      RawSumLast(b, n);
    }
  }

  lemma NoSum()
    ensures RawSum([]) == 0
  {
  }

  lemma RawSumLast(b: seq<u8>, n: nat)
    requires |b| == n + 1
    ensures RawSum(b) == RawSum(b[..n]) + (if n % 2 == 0 then BigEndian(b[n], 0) else BigEndian(0, b[n]))
  {
    hide RawSum;
    if n % 2 == 0 {
      RawSumAppend(b[..n], [b[n]]);
      OneByte(b[n]);
      assert b[..n] + [b[n]] == b;
    } else {
      RawSumAppend(b[..n - 1], [b[n - 1], b[n]]);
      RawSumAppend(b[..n - 1], [b[n - 1]]);
      OneByte(b[n - 1]);
      PairSum(b[n - 1], b[n]);
      assert b[..n - 1] + [b[n - 1], b[n]] == b && b[..n - 1] + [b[n - 1]] == b[..n];
    }
  }

  lemma OneByte(x: u8)
    ensures RawSum([x]) == BigEndian(x, 0)
  {
  }

  // So an odd last byte counts as one with a zero byte behind it.
  lemma OddPadded(b: seq<u8>)
    requires |b| % 2 == 1
    ensures ChecksumOf(b + [0]) == ChecksumOf(b)
  {
    RawSumLast(b + [0], |b|);
    assert (b + [0])[..|b|] == b;
  }

  const MAX_OBJECT: nat := 0x7fff_ffff

  predicate IsLength(len: int) {
    0 - 0x8000_0000 <= len < 0x8000_0000
  }

  // A length below one, or one whose last 16-bit word leaves the buffer
  predicate Overruns(len: int, size: nat) {
    len < 1 || len + len % 2 > size
  }

  /**
    None says that the code reads behind the buffer. An odd length is read one byte past its end, and that
    byte is masked off; the loop's unsigned comparison never ends inside the buffer for a length below one.
   */
  method Checksum(buf: array<u8>, len: int) returns (r: Option<u16>)
    requires IsLength(len) && buf.Length < MAX_OBJECT
    ensures r == if Overruns(len, buf.Length) then None else Some(ChecksumOf(buf[..len]))
  {
    hide RawSum, Word32;
    var sum, overrun := SumBytes(buf, len);
    if overrun {
      return None;
    }
    var once := sum / 0x1_0000 + sum % 0x1_0000;
    return Some(0xffff - (once + once / 0x1_0000) % 0x1_0000);
  }

  method SumBytes(buf: array<u8>, len: int) returns (sum: u32, overrun: bool)
    requires IsLength(len) && buf.Length < MAX_OBJECT
    ensures overrun <==> Overruns(len, buf.Length)
    ensures !overrun ==> sum == Word32(RawSum(buf[..len]))
  {
    hide RawSum;
    var limit := if len < 1 then len - 1 + W32 else len - 1;     // (uint32_t)(len - 1)
    var i: nat := 0;
    sum := 0;
    ghost var b := buf[..];
    NothingSummed();
    assert b[..0] == [];
    while i < limit
      invariant i % 2 == 0 && i <= buf.Length && (1 <= len ==> i <= len) && sum == Word32(RawSum(b[..i]))
      decreases limit - i
    {
      if i + 1 >= buf.Length {
        return sum, true;
      }
      var val := BigEndian(buf[i], buf[i + 1]);
      PrefixWord(b, i);
      sum := Word32(sum + val);
      i := i + 2;
    }
    if len % 2 == 1 {
      if i + 1 >= buf.Length {
        return sum, true;
      }
      var val := BigEndian(buf[i], buf[i + 1]);
      PrefixByte(buf[..len], i);
      assert buf[..len][..i] == b[..i];
      sum := Word32(sum + (val - val % 256));
    } else {
      assert b[..i] == buf[..len];
    }
    overrun := false;
  }

  lemma NothingSummed()
    ensures Word32(RawSum([])) == 0
  {
  }

  lemma PrefixWord(b: seq<u8>, i: nat)
    requires i + 1 < |b| && i % 2 == 0
    ensures Word32(Word32(RawSum(b[..i])) + BigEndian(b[i], b[i + 1])) == Word32(RawSum(b[..i + 2]))
  {
    WordAdded(b[..i], b[i], b[i + 1]);
    assert b[..i] + [b[i], b[i + 1]] == b[..i + 2];
  }

  lemma PrefixByte(b: seq<u8>, i: nat)
    requires i + 1 == |b| && i % 2 == 0
    ensures Word32(Word32(RawSum(b[..i])) + BigEndian(b[i], 0)) == Word32(RawSum(b))
  {
    ByteAdded(b[..i], b[i]);
    assert b[..i] + [b[i]] == b;
  }

  lemma WordAdded(b: seq<u8>, hi: u8, lo: u8)
    requires |b| % 2 == 0
    ensures Word32(Word32(RawSum(b)) + BigEndian(hi, lo)) == Word32(RawSum(b + [hi, lo]))
  {
    RawSumAppend(b, [hi, lo]);
    PairSum(hi, lo);
    AddWord32(RawSum(b), BigEndian(hi, lo));
  }

  lemma PairSum(hi: u8, lo: u8)
    ensures RawSum([hi, lo]) == BigEndian(hi, lo)
  {
    assert [hi, lo][2..] == [];
  }

  lemma AddWord32(x: nat, y: nat)
    ensures Word32(Word32(x) + y) == Word32(x + y)
  {
    AddModulo(x, y, W32);
  }

  lemma ByteAdded(b: seq<u8>, hi: u8)
    requires |b| % 2 == 0
    ensures Word32(Word32(RawSum(b)) + BigEndian(hi, 0)) == Word32(RawSum(b + [hi]))
  {
    RawSumAppend(b, [hi]);
    assert RawSum([hi]) == BigEndian(hi, 0);
    AddWord32(RawSum(b), BigEndian(hi, 0));
  }

  lemma AddModulo(x: nat, y: nat, w: nat)
    requires 0 < w
    ensures (x % w + y) % w == (x + y) % w
  {
    var q, z := x / w, x % w + y;
    assert x == q * w + x % w && z == z / w * w + z % w;
    assert (q + z / w) * w == q * w + z / w * w;
    DivUnique(x + y, w, q + z / w);
  }

  // Folding keeps the sum modulo 0xffff, and only a zero sum folds to zero.
  lemma FoldCongruent(sum: u32)
    ensures Fold(sum) % 0xffff == sum % 0xffff
    ensures Fold(sum) == 0 <==> sum == 0
  {
    var h := sum / 0x1_0000;
    var once := h + sum % 0x1_0000;
    assert sum == once + 0xffff * h;
    assert once <= 0x1_fffe;
    assert Fold(sum) == if once < 0x1_0000 then once else once - 0xffff;
  }

  // A buffer verifies exactly when its sum is a multiple of 0xffff other than zero.
  lemma VerifiesIff(b: seq<u8>)
    requires RawSum(b) < W32
    ensures ChecksumOf(b) == 0 <==> RawSum(b) % 0xffff == 0 && RawSum(b) > 0
  {
    SmallWord32(RawSum(b));
    FoldCongruent(RawSum(b));
    FullOrZero(Fold(RawSum(b)));
  }

  lemma FullOrZero(f: u16)
    ensures f % 0xffff == 0 <==> f == 0 || f == 0xffff
  {
  }

  lemma {:induction false} RawSumBound(b: seq<u8>)
    ensures RawSum(b) <= 0xffff * ((|b| + 1) / 2)
    decreases |b|
  {
    if |b| > 1 { RawSumBound(b[2..]); }
  }

  // The message with the two bytes of c in its checksum field, which an even number of bytes precedes
  function Stored(before: seq<u8>, c: u16, after: seq<u8>): seq<u8> {
    before + [c / 256, c % 256] + after
  }

  lemma StoredSum(before: seq<u8>, c: u16, after: seq<u8>)
    requires |before| % 2 == 0
    ensures RawSum(Stored(before, c, after)) == RawSum(before) + c + RawSum(after)
  {
    assert Stored(before, c, after) == before + ([c / 256, c % 256] + after);
    RawSumAppend(before, [c / 256, c % 256] + after);
    RawSumAppend([c / 256, c % 256], after);
    PairSum(c / 256, c % 256);
  }

  // A message verifies once the checksum of the message with a zero field is stored in the field.
  lemma StoredVerifies(before: seq<u8>, after: seq<u8>)
    requires |before| % 2 == 0 && |before| + 2 + |after| <= 0x1_0000
    ensures ChecksumOf(Stored(before, ChecksumOf(Stored(before, 0, after)), after)) == 0
  {
    var zero := Stored(before, 0, after);
    var c := ChecksumOf(zero);
    StoredSum(before, 0, after);
    StoredSum(before, c, after);
    StoredLength(before, after);
    RawSumBound(zero);
    RawSumBound(Stored(before, c, after));
    ChecksumComplements(zero);
    VerifiesIff(Stored(before, c, after));
  }

  lemma StoredLength(before: seq<u8>, after: seq<u8>)
    ensures forall c: u16 :: |Stored(before, c, after)| == |before| + 2 + |after|
  {
  }

  // Adding its checksum makes a sum a multiple of 0xffff other than zero.
  lemma ChecksumComplements(b: seq<u8>)
    requires RawSum(b) < W32
    ensures (RawSum(b) + ChecksumOf(b)) % 0xffff == 0 && RawSum(b) + ChecksumOf(b) > 0
  {
    SmallWord32(RawSum(b));
    FoldComplement(RawSum(b));
  }

  lemma SmallWord32(x: nat)
    requires x < W32
    ensures Word32(x) == x
  {
  }

  lemma FoldComplement(sum: u32)
    ensures (sum + (0xffff - Fold(sum))) % 0xffff == 0 && sum + (0xffff - Fold(sum)) > 0
  {
    FoldCongruent(sum);
    ComplementCancels(sum, Fold(sum));
  }

  lemma ComplementCancels(s: nat, f: u16)
    requires f % 0xffff == s % 0xffff && (f == 0 <==> s == 0)
    ensures (s + (0xffff - f)) % 0xffff == 0 && s + (0xffff - f) > 0
  {
  }

  // ---------- ICMP echo reply ----------

  const ICMP_ECHO: u8 := 8
  const ICMP_ECHO_REPLY: u8 := 0

  // chksum += 0x0800 with the carry brought around
  function Updated(chksum: u16): u16 {
    if chksum > 0xffff - 0x0800 then (chksum + 0x0801) % 0x1_0000 else (chksum + 0x0800) % 0x1_0000
  }

  // The message (type, code, checksum, ...) sent in answer to an echo request
  function Reply(m: seq<u8>): seq<u8>
    requires 4 <= |m|
  {
    var c := Updated(BigEndian(m[2], m[3]));
    m[0 := ICMP_ECHO_REPLY][2 := c / 256][3 := c % 256]
  }

  const IP_HEADER: nat := 20
  const ICMP_MIN: nat := 28       // sizeof(struct ip_icmp_s)

  // The header ip_out writes; its checksum field holds the checksum of the rest.
  function IpHeader(len: u16, proto: u8, own: seq<u8>, dst: seq<u8>): seq<u8> {
    var before := HeaderStart(len, proto);
    Stored(before, ChecksumOf(Stored(before, 0, own + dst)), own + dst)
  }

  function HeaderStart(len: u16, proto: u8): seq<u8> {
    [0x45, 0, len / 256, len % 256, 0, 0, 0, 0, 64, proto]
  }

  // ip_out up to its call of net_send; a negative proto leaves the protocol field alone.
  method IpOut(own: seq<u8>, dst: seq<u8>, proto: int, packet: array<u8>, len: u16)
    requires |own| == |dst| == 4 && IP_HEADER <= packet.Length < MAX_OBJECT
    modifies packet
    ensures var kind := if proto > -1 then proto % 256 else old(packet[9]);
            packet[..] == IpHeader(len, kind, own, dst) + old(packet[IP_HEADER..])
  {
    hide ChecksumOf;
    ghost var tail := packet[IP_HEADER..];
    if proto > -1 {
      packet[9] := proto % 256;
    }
    ghost var before := HeaderStart(len, packet[9]);
    FillHeader(own, dst, packet, len);
    var sum := Checksum(packet, IP_HEADER);
    assert packet[..IP_HEADER] == Stored(before, 0, own + dst);
    packet[10], packet[11] := sum.value / 256, sum.value % 256;
    assert packet[..IP_HEADER] == Stored(before, sum.value, own + dst);
    assert packet[..] == packet[..IP_HEADER] + tail;
  }

  // The stores in front of the checksum's computation
  method FillHeader(own: seq<u8>, dst: seq<u8>, packet: array<u8>, len: u16)
    requires |own| == |dst| == 4 && IP_HEADER <= packet.Length
    modifies packet
    ensures packet[..] == Stored(HeaderStart(len, old(packet[9])), 0, own + dst) + old(packet[IP_HEADER..])
  {
    ghost var p := packet[..];
    Copy(packet, 0, [0x45, 0, len / 256, len % 256, 0, 0, 0, 0, 64]);
    Copy(packet, 12, own);
    Copy(packet, 16, dst);
    Copy(packet, 10, [0, 0]);
    HeaderFilled(p, packet[..], own, dst, len);
  }

  lemma HeaderFilled(p: seq<u8>, q: seq<u8>, own: seq<u8>, dst: seq<u8>, len: u16)
    requires |own| == |dst| == 4 && IP_HEADER <= |p| == |q|
    requires forall i | 0 <= i < 9 :: q[i] == HeaderStart(len, p[9])[i]
    requires q[9] == p[9] && q[10] == q[11] == 0
    requires forall i | 0 <= i < 4 :: q[12 + i] == own[i] && q[16 + i] == dst[i]
    requires forall i | IP_HEADER <= i < |p| :: q[i] == p[i]
    ensures q == Stored(HeaderStart(len, p[9]), 0, own + dst) + p[IP_HEADER..]
  {
    forall i | 12 <= i < 16 ensures q[i] == own[i - 12] {
      assert q[12 + (i - 12)] == own[i - 12];
    }
    forall i | 16 <= i < 20 ensures q[i] == dst[i - 16] {
      assert q[16 + (i - 16)] == dst[i - 16];
    }
  }

  // Stores bytes in a row, like memcpy
  method Copy(packet: array<u8>, at: nat, bytes: seq<u8>)
    requires at + |bytes| <= packet.Length
    modifies packet
    ensures forall i | 0 <= i < packet.Length ::
              packet[i] == if at <= i < at + |bytes| then bytes[i - at] else old(packet[i])
  {
    for k := 0 to |bytes|
      invariant forall i | 0 <= i < packet.Length ::
                  packet[i] == if at <= i < at + k then bytes[i - at] else old(packet[i])
    {
      packet[at + k] := bytes[k];
    }
  }

  // What an echo request is turned into: it goes back to where it came from.
  function Answer(p: seq<u8>, own: seq<u8>, len: u16): seq<u8>
    requires ICMP_MIN <= |p|
  {
    IpHeader(len, p[9], own, p[12..16]) + Reply(p[IP_HEADER..])
  }

  /**
    icmp_echo_reply on a packet of `len` bytes in a buffer. `sent` is what goes to the network, whose
    send returns `status`; that passes through a uint16_t on its way to the caller.
   */
  method EchoReply(own: seq<u8>, packet: array<u8>, len: u16, status: int) returns (r: int, sent: Option<seq<u8>>)
    requires |own| == 4 && ICMP_MIN <= packet.Length < MAX_OBJECT && len <= packet.Length
    modifies packet
    ensures var p := old(packet[..]);
            if p[IP_HEADER] == ICMP_ECHO then
              packet[..] == Answer(p, own, len) && sent == Some(packet[..len]) && r == status % 0x1_0000
            else
              packet[..] == p && sent == None && r == if p[IP_HEADER] == ICMP_ECHO_REPLY then 0 else -1
  {
    if packet[20] == ICMP_ECHO {
      ghost var p := packet[..];
      packet[20] := ICMP_ECHO_REPLY;
      var chksum: nat := BigEndian(packet[22], packet[23]);
      if chksum > 0xffff - 0x0800 {
        chksum := (chksum + 0x0801) % 0x1_0000;
      } else {
        chksum := (chksum + 0x0800) % 0x1_0000;
      }
      packet[22], packet[23] := chksum / 256, chksum % 256;
      assert packet[IP_HEADER..] == Reply(p[IP_HEADER..]);
      var dst := packet[12..16];
      IpOut(own, dst, -1, packet, len);
      return status % 0x1_0000, Some(packet[..len]);
    }
    return if packet[20] == ICMP_ECHO_REPLY then 0 else -1, None;
  }

  // The answer's header verifies, and names this host and the one that asked.
  lemma AnswerHeader(p: seq<u8>, own: seq<u8>, len: u16)
    requires ICMP_MIN <= |p| && |own| == 4
    ensures var a := Answer(p, own, len);
            && |a| == |p| && ChecksumOf(a[..IP_HEADER]) == 0
            && a[12..16] == own && a[16..20] == p[12..16] && a[9] == p[9] && BigEndian(a[2], a[3]) == len
            && a[0] == 0x45 && a[1] == 0 && a[4..8] == [0, 0, 0, 0] && a[8] == 64
  {
    hide ChecksumOf;
    var h := IpHeader(len, p[9], own, p[12..16]);
    StoredVerifies(HeaderStart(len, p[9]), own + p[12..16]);
    assert |h| == IP_HEADER && Answer(p, own, len)[..IP_HEADER] == h;
  }

  // Behind the header only the type and the checksum of the message differ: code, identifier, sequence number
  // and data go back as they came.
  lemma AnswerEchoes(p: seq<u8>, own: seq<u8>, len: u16, i: nat)
    requires ICMP_MIN <= |p| && |own| == 4 && IP_HEADER <= i < |p|
    ensures var a := Answer(p, own, len);
            |a| == |p| && a[IP_HEADER] == 0 && (i !in {IP_HEADER, IP_HEADER + 2, IP_HEADER + 3} ==> a[i] == p[i])
  {
    hide ChecksumOf;
    assert |IpHeader(len, p[9], own, p[12..16])| == IP_HEADER;
    assert Answer(p, own, len)[i] == Reply(p[IP_HEADER..])[i - IP_HEADER];
    assert Answer(p, own, len)[IP_HEADER] == Reply(p[IP_HEADER..])[0];
  }

  // Its message verifies exactly when the request's did.
  lemma AnswerMessageIff(p: seq<u8>, own: seq<u8>, len: u16)
    requires ICMP_MIN <= len <= |p| && |own| == 4 && p[IP_HEADER] == ICMP_ECHO
    ensures ChecksumOf(Answer(p, own, len)[IP_HEADER..len]) == 0 <==> ChecksumOf(p[IP_HEADER..len]) == 0
  {
    hide ChecksumOf;
    var m := p[IP_HEADER..len];
    assert |IpHeader(len, p[9], own, p[12..16])| == IP_HEADER;
    assert Answer(p, own, len)[IP_HEADER..len] == Reply(p[IP_HEADER..])[..len - IP_HEADER] == Reply(m);
    ReplyVerifiesIff(m);
  }

  lemma SplitHeader(m: seq<u8>)
    requires 4 <= |m|
    ensures RawSum(m) == BigEndian(m[0], m[1]) + BigEndian(m[2], m[3]) + RawSum(m[4..])
  {
    assert m[2..][2..] == m[4..];
  }

  // What the type field loses the checksum field gains, up to one multiple of 0xffff.
  lemma ReplySum(m: seq<u8>)
    requires 4 <= |m| && m[0] == ICMP_ECHO
    ensures RawSum(Reply(m)) == RawSum(m) - if BigEndian(m[2], m[3]) > 0xffff - 0x0800 then 0xffff else 0
  {
    hide BigEndian;
    SplitHeader(m);
    SplitHeader(Reply(m));
    assert Reply(m)[4..] == m[4..];
    FieldsMoved(m[1], BigEndian(m[2], m[3]));
  }

  lemma FieldsMoved(code: u8, c: u16)
    ensures BigEndian(ICMP_ECHO_REPLY, code) + BigEndian(Updated(c) / 256, Updated(c) % 256)
            == BigEndian(ICMP_ECHO, code) + c - if c > 0xffff - 0x0800 then 0xffff else 0
  {
  }

  /**
    The reply verifies exactly when the request did, for every message an IP packet can carry.
   */
  lemma ReplyVerifiesIff(m: seq<u8>)
    requires 4 <= |m| <= 0xffff && m[0] == ICMP_ECHO
    ensures ChecksumOf(Reply(m)) == 0 <==> ChecksumOf(m) == 0
  {
    RawSumBound(m);
    SplitHeader(m);
    ReplySum(m);
    VerifiesIff(m);
    VerifiesIff(Reply(m));
    var s := RawSum(m);
    if RawSum(Reply(m)) != s {
      MultipleAhead(s);
    }
  }

  lemma MultipleAhead(s: nat)
    requires 0x1_0000 <= s
    ensures (s - 0xffff) % 0xffff == s % 0xffff
  {
  }
}
