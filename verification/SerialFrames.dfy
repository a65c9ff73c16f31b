/** Frames on a serial line: flags around them, and octet stuffing as in section 4.2 of RFC 1662. */
module SerialFrames {
  import opened Arith
  import opened Bits
  import opened Words

  const FLAG: u8 := 0x7e
  const ESCAPE: u8 := 0x7d
  const MIN_FRAMELEN: nat := 594

  // x ^ 0x20
  function Toggle(x: u8): u8 {
    if x / 0x20 % 2 == 1 then x - 0x20 else x + 0x20
  }

  lemma ToggleTwice(x: u8)
    ensures Toggle(Toggle(x)) == x
    ensures x == FLAG || x == ESCAPE ==> Toggle(x) != FLAG && Toggle(x) != ESCAPE
  {
  }

  // It is the exclusive or with 0x20: bit 5 is changed, and no other.
  lemma ToggleBit(x: u8)
    ensures Toggle(x) % 0x20 == x % 0x20 && Toggle(x) / 0x40 == x / 0x40
    ensures Toggle(x) / 0x20 % 2 == 1 - x / 0x20 % 2
    ensures Toggle(FLAG) == 0x5e && Toggle(ESCAPE) == 0x5d
  {
    var h := x / 0x20;
    var g := if h % 2 == 1 then h - 1 else h + 1;
    assert x == 0x20 * h + x % 0x20 && Toggle(x) == 0x20 * g + x % 0x20;
    DivUnique(Toggle(x), 0x20, g);
    TopBits(x, h);
    TopBits(Toggle(x), g);
  }

  lemma TopBits(x: nat, h: nat)
    requires h == x / 0x20
    ensures x / 0x40 == h / 2
  {
    DivDiv(x, 0x20, 2);
  }

  function StuffByte(x: u8): seq<u8> {
    if x == FLAG || x == ESCAPE then [ESCAPE, Toggle(x)] else [x]
  }

  function Stuff(f: seq<u8>): seq<u8> {
    if f == [] then [] else StuffByte(f[0]) + Stuff(f[1..])
  }

  // At most MIN_FRAMELEN bytes of a frame are sent.
  function Cut(f: seq<u8>): seq<u8> {
    if |f| <= MIN_FRAMELEN then f else f[..MIN_FRAMELEN]
  }

  // What tty_write puts on the line for a frame
  function Encode(f: seq<u8>): seq<u8> {
    [FLAG] + Stuff(Cut(f)) + [FLAG]
  }

  // What tty_read makes of the line: the frame and the rest of the line. A call that runs out of
  // input inside a frame waits for more.
  datatype Read = Frame(bytes: seq<u8>, rest: seq<u8>) | Waiting

  // The first part: input up to and with the first flag is skipped.
  function Skip(s: seq<u8>): seq<u8> {
    if s == [] then [] else if s[0] == FLAG then s[1..] else Skip(s[1..])
  }

  // The second part: at most `room` bytes up to the next flag
  function Body(s: seq<u8>, room: nat): Read
    decreases room
  {
    if room == 0 then Frame([], s)
    else if s == [] then Waiting
    else if s[0] == FLAG then Frame([], s[1..])
    else if s[0] == ESCAPE then
      if |s| == 1 then Waiting else Before(Toggle(s[1]), Body(s[2..], room - 1))
    else Before(s[0], Body(s[1..], room - 1))
  }

  function Before(x: u8, r: Read): Read {
    match r
    case Frame(bytes, rest) => Frame([x] + bytes, rest)
    case Waiting => Waiting
  }

  function ReadFrame(s: seq<u8>): Read {
    if s == [] then Frame([], []) else Body(Skip(s), MIN_FRAMELEN)
  }

  class Tty {
    var line: seq<u8>

    method PutChar(x: u8)
      modifies this
      ensures line == old(line) + [x]
    {
      line := line + [x];
    }

    // _getchar with input waiting
    method GetChar() returns (x: u8)
      requires line != []
      modifies this
      ensures [x] + line == old(line)
    {
      x := line[0];
      line := line[1..];
    }

    // tty_write; it returns the length it was given even when the frame is cut.
    method Write(frame: array<u8>, len: u16) returns (n: u16)
      requires len <= frame.Length
      modifies this
      ensures line == old(line) + Encode(frame[..len]) && n == len
    {
      PutChar(FLAG);
      WriteBody(frame, len);
      PutChar(FLAG);
      return len;
    }

    method WriteBody(frame: array<u8>, len: nat)
      requires len <= frame.Length
      modifies this
      ensures line == old(line) + Stuff(Cut(frame[..len]))
    {
      hide Stuff, StuffByte;
      ghost var f := Cut(frame[..len]);
      var i := 0;
      assert f[0..] == f;
      while i < len && i < MIN_FRAMELEN
        invariant i <= |f| && line + Stuff(f[i..]) == old(line) + Stuff(f)
      {
        StuffStep(f, i);
        PutStuffed(frame[i]);
        i := i + 1;
      }
      assert f[i..] == [];
      StuffNothing();
    }

    method PutStuffed(x: u8)
      modifies this
      ensures line == old(line) + StuffByte(x)
    {
      if x == FLAG || x == ESCAPE {
        PutChar(ESCAPE);
        PutChar(Toggle(x));
      } else {
        PutChar(x);
      }
    }

    // tty_read; `waiting` stands for a _getchar that finds no input.
    method Read(frame: array<u8>) returns (len: nat, waiting: bool)
      requires MIN_FRAMELEN <= frame.Length
      modifies this, frame
      ensures len <= MIN_FRAMELEN
      ensures ReadFrame(old(line)) == if waiting then Waiting else Frame(frame[..len], line)
    {
      if line == [] {
        return 0, false;
      }
      var data := GetChar();
      if data != FLAG {
        while line != [] && data != FLAG
          invariant Skip([data] + line) == Skip(old(line))
          decreases |line|
        {
          assert ([data] + line)[1..] == line;
          data := GetChar();
        }
      }
      assert ([data] + line)[1..] == line;
      len, waiting := ReadBody(frame);
    }

    method ReadBody(frame: array<u8>) returns (len: nat, waiting: bool)
      requires MIN_FRAMELEN <= frame.Length
      modifies this, frame
      ensures len <= MIN_FRAMELEN
      ensures Body(old(line), MIN_FRAMELEN) == if waiting then Waiting else Frame(frame[..len], line)
    {
      hide Body, Before;
      len := 0;
      BodyAtLimit(line);
      while len < MIN_FRAMELEN
        invariant len <= MIN_FRAMELEN
        invariant Body(old(line), MIN_FRAMELEN) == Prepend(frame[..len], Body(line, MIN_FRAMELEN - len))
      {
        ghost var done, s := frame[..len], line;
        var data, end, stuck := ReadByte(MIN_FRAMELEN - len);
        if stuck {
          return len, true;
        }
        if end {
          return len, false;
        }
        frame[len] := data;
        PrependBefore(done, data, Body(line, MIN_FRAMELEN - len - 1));
        len := len + 1;
        assert frame[..len] == done + [data];
      }
      BodyAtLimit(line);
      return len, false;
    }

    // One byte of the body, or the flag at its end
    method ReadByte(ghost room: nat) returns (data: u8, end: bool, stuck: bool)
      requires 0 < room
      modifies this
      ensures Body(old(line), room) == if stuck then Waiting else if end then Frame([], line)
                                       else Before(data, Body(line, room - 1))
    {
      if line == [] {
        return 0, false, true;
      }
      ghost var s := line;
      data := GetChar();
      assert s[1..] == line && s[0] == data;
      if data == FLAG {
        return data, true, false;
      }
      if data == ESCAPE {
        if line == [] {
          return data, false, true;
        }
        assert s[2..] == line[1..] && s[1] == line[0];
        data := GetChar();
        data := Toggle(data);
      }
      return data, false, false;
    }
  }

  lemma BodyAtLimit(s: seq<u8>)
    ensures Body(s, 0) == Frame([], s)
    ensures Prepend([], Body(s, MIN_FRAMELEN)) == Body(s, MIN_FRAMELEN)
  {
  }

  function Prepend(bytes: seq<u8>, r: Read): Read {
    match r
    case Frame(more, rest) => Frame(bytes + more, rest)
    case Waiting => Waiting
  }

  lemma PrependBefore(bytes: seq<u8>, x: u8, r: Read)
    ensures Prepend(bytes, Before(x, r)) == Prepend(bytes + [x], r)
  {
    if r.Frame? { assert bytes + ([x] + r.bytes) == bytes + [x] + r.bytes; }
  }

  lemma StuffNothing()
    ensures Stuff([]) == []
  {
  }

  lemma StuffStep(f: seq<u8>, i: nat)
    requires i < |f|
    ensures Stuff(f[i..]) == StuffByte(f[i]) + Stuff(f[i + 1..])
  {
    assert f[i..][1..] == f[i + 1..];
  }

  // ---------- what is on the line ----------

  // How many bytes of a frame have to be escaped
  function Specials(f: seq<u8>): nat {
    if f == [] then 0 else (if f[0] == FLAG || f[0] == ESCAPE then 1 else 0) + Specials(f[1..])
  }

  // No flag stands between the two that Encode sets, and only bytes that have to be escaped take two.
  lemma {:induction false} StuffedIs(f: seq<u8>)
    ensures FLAG !in Stuff(f) && |Stuff(f)| == |f| + Specials(f)
    ensures Specials(f) == 0 ==> Stuff(f) == f
  {
    if f != [] {
      StuffedIs(f[1..]);
      ToggleTwice(f[0]);
      assert f == [f[0]] + f[1..];
    }
  }

  // A frame in which the sender has escaped the bytes marked, and perhaps more than it has to
  function Escaped(f: seq<u8>, marks: seq<bool>): seq<u8>
    requires |f| == |marks|
  {
    if f == [] then [] else (if marks[0] then [ESCAPE, Toggle(f[0])] else [f[0]]) + Escaped(f[1..], marks[1..])
  }

  ghost predicate MarksSpecials(f: seq<u8>, marks: seq<bool>) {
    |f| == |marks| && forall i | 0 <= i < |f| && !marks[i] :: f[i] != FLAG && f[i] != ESCAPE
  }

  // The reader undoes any escaping that leaves no special byte out, up to the flag or its limit, and waits on
  // a line that ends before either, be it inside an escape.
  lemma {:induction false} ReadsAnyEscaping(f: seq<u8>, marks: seq<bool>, tail: seq<u8>, room: nat)
    requires MarksSpecials(f, marks) && |f| <= room
    ensures Body(Escaped(f, marks) + [FLAG] + tail, room) == Frame(f, if |f| < room then tail else [FLAG] + tail)
    ensures Body(Escaped(f, marks), room) == if |f| < room then Waiting else Frame(f, [])
    ensures |f| < room ==> Body(Escaped(f, marks) + [ESCAPE], room) == Waiting
    decreases |f|
  {
    hide Escaped, Body;
    if f == [] {
      NothingEscaped(tail, room);
    } else {
      ReadsAnyEscaping(f[1..], marks[1..], tail, room - 1);
      EscapedStep(f, marks, tail);
      OneEscaped(f[0], marks[0], Escaped(f[1..], marks[1..]) + [FLAG] + tail, room);
      OneEscaped(f[0], marks[0], Escaped(f[1..], marks[1..]), room);
      OneEscaped(f[0], marks[0], Escaped(f[1..], marks[1..]) + [ESCAPE], room);
      assert [f[0]] + f[1..] == f;
    }
  }

  lemma NothingEscaped(tail: seq<u8>, room: nat)
    ensures Body(Escaped([], []) + [FLAG] + tail, room) == Frame([], if 0 < room then tail else [FLAG] + tail)
    ensures Body(Escaped([], []), room) == if 0 < room then Waiting else Frame([], [])
    ensures 0 < room ==> Body(Escaped([], []) + [ESCAPE], room) == Waiting
  {
    assert Escaped([], []) + [FLAG] + tail == [FLAG] + tail;
    assert ([FLAG] + tail)[1..] == tail;
  }

  function EscapedByte(x: u8, mark: bool): seq<u8> {
    if mark then [ESCAPE, Toggle(x)] else [x]
  }

  lemma EscapedStep(f: seq<u8>, marks: seq<bool>, tail: seq<u8>)
    requires f != [] && |f| == |marks|
    ensures Escaped(f, marks) == EscapedByte(f[0], marks[0]) + Escaped(f[1..], marks[1..])
    ensures Escaped(f, marks) + [FLAG] + tail
            == EscapedByte(f[0], marks[0]) + (Escaped(f[1..], marks[1..]) + [FLAG] + tail)
    ensures Escaped(f, marks) + [ESCAPE] == EscapedByte(f[0], marks[0]) + (Escaped(f[1..], marks[1..]) + [ESCAPE])
  {
    hide Escaped, EscapedByte;
    EscapedUnfolds(f, marks);
    Regrouped(EscapedByte(f[0], marks[0]), Escaped(f[1..], marks[1..]), [FLAG], tail);
    Regrouped(EscapedByte(f[0], marks[0]), Escaped(f[1..], marks[1..]), [ESCAPE], []);
  }

  lemma EscapedUnfolds(f: seq<u8>, marks: seq<bool>)
    requires f != [] && |f| == |marks|
    ensures Escaped(f, marks) == EscapedByte(f[0], marks[0]) + Escaped(f[1..], marks[1..])
  {
  }

  lemma Regrouped(a: seq<u8>, b: seq<u8>, c: seq<u8>, d: seq<u8>)
    ensures a + b + c == a + (b + c) && a + b + c + d == a + (b + c + d)
  {
  }

  lemma OneEscaped(x: u8, mark: bool, s: seq<u8>, room: nat)
    requires 0 < room && (mark || (x != FLAG && x != ESCAPE))
    ensures Body(EscapedByte(x, mark) + s, room) == Before(x, Body(s, room - 1))
  {
    ToggleTwice(x);
    var b := EscapedByte(x, mark) + s;
    assert b[|EscapedByte(x, mark)|..] == s;
  }

  // ---------- round trip ----------

  // Reading the body of a frame of n bytes: within the limit it ends behind the closing flag, at the
  // limit in front of it.
  lemma {:induction false} BodyOfStuffed(f: seq<u8>, tail: seq<u8>, room: nat)
    requires |f| <= room
    ensures Body(Stuff(f) + [FLAG] + tail, room) == Frame(f, if |f| < room then tail else [FLAG] + tail)
    decreases |f|
  {
    hide Stuff, StuffByte, Body;
    if f == [] {
      EndOfStuffed(tail, room);
    } else {
      BodyOfStuffed(f[1..], tail, room - 1);
      StuffedStep(f, tail);
      ByteThenRest(f[0], Stuff(f[1..]) + [FLAG] + tail, room);
      assert [f[0]] + f[1..] == f;
    }
  }

  lemma EndOfStuffed(tail: seq<u8>, room: nat)
    ensures Body(Stuff([]) + [FLAG] + tail, room) == Frame([], if 0 < room then tail else [FLAG] + tail)
  {
    assert Stuff([]) + [FLAG] + tail == [FLAG] + tail;
    assert ([FLAG] + tail)[1..] == tail;
  }

  lemma StuffedStep(f: seq<u8>, tail: seq<u8>)
    requires f != []
    ensures Stuff(f) + [FLAG] + tail == StuffByte(f[0]) + (Stuff(f[1..]) + [FLAG] + tail)
  {
    hide StuffByte;
    assert Stuff(f) == StuffByte(f[0]) + Stuff(f[1..]);
  }

  lemma ByteThenRest(x: u8, s: seq<u8>, room: nat)
    requires 0 < room
    ensures Body(StuffByte(x) + s, room) == Before(x, Body(s, room - 1))
  {
    ToggleTwice(x);
    var b := StuffByte(x) + s;
    assert b[|StuffByte(x)|..] == s;
  }

  // A frame comes back whole, with its closing flag taken off the line, exactly when it is shorter
  // than MIN_FRAMELEN.
  lemma FrameIff(f: seq<u8>, tail: seq<u8>)
    ensures ReadFrame(Encode(f) + tail) == Frame(f, tail) <==> |f| < MIN_FRAMELEN
    ensures |f| >= MIN_FRAMELEN ==> ReadFrame(Encode(f) + tail) == Frame(f[..MIN_FRAMELEN], [FLAG] + tail)
  {
    assert (Encode(f) + tail)[1..] == Stuff(Cut(f)) + [FLAG] + tail;
    BodyOfStuffed(Cut(f), tail, MIN_FRAMELEN);
    assert |f| == MIN_FRAMELEN ==> f[..MIN_FRAMELEN] == f;
    assert |[FLAG] + tail| != |tail|;
  }

  // The flag such a long frame leaves behind is taken for the opening flag of the next frame, which is
  // lost: an empty frame is read in its place.
  lemma LongFrameLosesNext(f: seq<u8>, g: seq<u8>)
    requires |f| >= MIN_FRAMELEN
    ensures var r := ReadFrame(Encode(f) + Encode(g));
            r.Frame? && ReadFrame(r.rest) == Frame([], Stuff(Cut(g)) + [FLAG])
  {
    hide Stuff, Cut, Body;
    FrameIff(f, Encode(g));
    TwoFlags(Stuff(Cut(g)) + [FLAG]);
    assert [FLAG] + Encode(g) == [FLAG, FLAG] + (Stuff(Cut(g)) + [FLAG]);
  }

  lemma TwoFlags(s: seq<u8>)
    ensures ReadFrame([FLAG, FLAG] + s) == Frame([], s)
  {
    assert ([FLAG, FLAG] + s)[1..] == [FLAG] + s && ([FLAG] + s)[1..] == s;
  }

  function EncodeAll(frames: seq<seq<u8>>): seq<u8> {
    if frames == [] then [] else Encode(frames[0]) + EncodeAll(frames[1..])
  }

  // n calls of tty_read: the frames they return, and what they leave on the line
  function ReadMany(s: seq<u8>, n: nat): (seq<seq<u8>>, seq<u8>)
    decreases n
  {
    if n == 0 then ([], s)
    else
      match ReadFrame(s)
      case Waiting => ([], s)
      case Frame(bytes, rest) => var (more, end) := ReadMany(rest, n - 1); ([bytes] + more, end)
  }

  ghost predicate Noise(s: seq<u8>) {
    FLAG !in s
  }

  lemma {:induction false} SkipNoise(noise: seq<u8>, s: seq<u8>)
    requires Noise(noise)
    ensures Skip(noise + s) == Skip(s)
    decreases |noise|
  {
    if noise == [] {
      assert noise + s == s;
    } else {
      assert (noise + s)[1..] == noise[1..] + s;
      SkipNoise(noise[1..], s);
    }
  }

  ghost predicate AllShort(frames: seq<seq<u8>>) {
    forall i | 0 <= i < |frames| :: |frames[i]| < MIN_FRAMELEN
  }

  lemma ReadNone(s: seq<u8>)
    ensures ReadMany(s, 0) == ([], s)
  {
  }

  lemma ReadOne(s: seq<u8>, n: nat, bytes: seq<u8>, rest: seq<u8>)
    requires 0 < n && ReadFrame(s) == Frame(bytes, rest)
    ensures var (more, end) := ReadMany(rest, n - 1);
            ReadMany(s, n) == ([bytes] + more, end) && ([bytes] + more)[0] == bytes && ([bytes] + more)[1..] == more
  {
  }

  // Behind a flag too many, no sequence of frames is read back.
  lemma {:induction false} ExtraFlag(frames: seq<seq<u8>>)
    ensures ReadMany([FLAG] + EncodeAll(frames), |frames|) != (frames, [])
    decreases |frames|
  {
    hide Stuff, Cut, Body, ReadFrame, ReadMany;
    if frames == [] {
      ReadNone([FLAG] + EncodeAll(frames));
    } else {
      var x := Stuff(Cut(frames[0])) + [FLAG] + EncodeAll(frames[1..]);
      assert [FLAG] + EncodeAll(frames) == [FLAG, FLAG] + x;
      TwoFlags(x);
      ReadOne([FLAG, FLAG] + x, |frames|, [], x);
      if frames[0] == [] {
        EmptyStuffed(EncodeAll(frames[1..]));
        ExtraFlag(frames[1..]);
        assert [[]] + frames[1..] == frames;
      }
    }
  }

  lemma EmptyStuffed(tail: seq<u8>)
    ensures Stuff(Cut([])) + [FLAG] + tail == [FLAG] + tail
  {
  }

  // Reading back a sequence comes down to reading back the first frame and then the others.
  lemma FirstThenRest(noise: seq<u8>, frames: seq<seq<u8>>)
    requires Noise(noise) && frames != []
    ensures var r := ReadFrame(noise + EncodeAll(frames));
            r == ReadFrame(Encode(frames[0]) + EncodeAll(frames[1..])) && r.Frame?
            && (ReadMany(noise + EncodeAll(frames), |frames|) == (frames, [])
                <==> r.bytes == frames[0] && ReadMany(r.rest, |frames| - 1) == (frames[1..], []))
  {
    hide Stuff, Cut, Body, Encode;
    SkipNoise(noise, EncodeAll(frames));
    NotEmpty(frames[0], EncodeAll(frames[1..]));
    FrameIff(frames[0], EncodeAll(frames[1..]));
    var s := noise + EncodeAll(frames);
    var r := ReadFrame(s);
    var more := ReadMany(r.rest, |frames| - 1);
    assert ReadMany(s, |frames|) == ([r.bytes] + more.0, more.1);
    assert [frames[0]] + frames[1..] == frames;
    assert ([r.bytes] + more.0)[1..] == more.0 && ([r.bytes] + more.0)[0] == r.bytes;
  }

  lemma NotEmpty(f: seq<u8>, tail: seq<u8>)
    ensures Encode(f) + tail != []
    ensures |f| < MIN_FRAMELEN ==> ReadFrame(Encode(f) + tail) == Frame(f, tail)
  {
    hide Stuff, Cut, Body;
    FrameIff(f, tail);
  }

  // A line without a flag is used up by a call that then waits; on an empty line a call returns at once.
  lemma NoFrame(noise: seq<u8>)
    requires Noise(noise)
    ensures ReadFrame(noise) == if noise == [] then Frame([], []) else Waiting
  {
    SkipNoise(noise, []);
    assert noise + [] == noise;
  }

  /**
    A sequence of frames is read back in order with nothing left over exactly when every frame is shorter
    than MIN_FRAMELEN; noise without a flag in front of the first one makes no difference.
   */
  lemma {:induction false} RoundTripIff(noise: seq<u8>, frames: seq<seq<u8>>)
    requires Noise(noise) && frames != []
    ensures ReadMany(noise + EncodeAll(frames), |frames|) == (frames, []) <==> AllShort(frames)
    decreases |frames|
  {
    hide Encode, ReadFrame;
    var (f, tail) := (frames[0], EncodeAll(frames[1..]));
    FirstThenRest(noise, frames);
    FrameIff(f, tail);
    if |f| >= MIN_FRAMELEN {
      ExtraFlag(frames[1..]);
    } else if |frames| > 1 {
      RoundTripIff([], frames[1..]);
      assert [] + tail == tail;
      AllShortSplit(frames);
    }
  }

  lemma AllShortSplit(frames: seq<seq<u8>>)
    requires frames != []
    ensures AllShort(frames) <==> |frames[0]| < MIN_FRAMELEN && AllShort(frames[1..])
  {
    assert frames == [frames[0]] + frames[1..];
  }
}
