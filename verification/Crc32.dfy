/**
 The bitwise CRC-32 of section 8 of RFC 1952 as the template interpreter computes it
 (crates/hxy-010-lang/src/interp.rs), and what it can tell apart.
 */
module Crc32 {
  import opened ShiftRegister

  /** The register after a message. */
  function Register(c: Word, bytes: seq<Octet>): Word {
    if bytes == [] then c else Feed(Register(c, bytes[..|bytes| - 1]), bytes[|bytes| - 1])
  }

  function Checksum(bytes: seq<Octet>): Word {
    Flip(Register(0xFFFF_FFFF, bytes))
  }

  /** `crc32_ieee`. */
  method Crc32Ieee(bytes: seq<Octet>) returns (r: Word)
    ensures r == Checksum(bytes)
  {
    hide Shift8, Xor, Wide;
    var crc: Word := 0xFFFF_FFFF;
    var i := 0;
    while i < |bytes|
      invariant 0 <= i <= |bytes| && crc == Register(0xFFFF_FFFF, bytes[..i])
    {
      assert bytes[..i + 1][..i] == bytes[..i];
      crc := ShiftByte(Xor(crc, Wide(bytes[i])));
      i := i + 1;
    }
    assert bytes[..i] == bytes;
    r := Flip(crc);
  }

  /** The inner loop: eight conditional shifts. */
  method ShiftByte(start: Word) returns (crc: Word)
    ensures crc == Shift8(start)
  {
    hide Shift8, Xor, Half, LowBit, Feedback, Shift;
    crc := start;
    var k := 0;
    while k < 8
      invariant 0 <= k <= 8 && ShiftTimes(crc, 8 - k) == ShiftTimes(start, 8)
    {
      ConditionalShift(crc);
      crc := if LowBit(crc) != 0 then Xor(Half(crc), POLY) else Half(crc);
      k := k + 1;
    }
    EightShifts(start);
  }

  function ShiftTimes(c: Word, n: nat): Word
    decreases n
  {
    if n == 0 then c else ShiftTimes(Shift(c), n - 1)
  }

  lemma EightShifts(c: Word)
    ensures ShiftTimes(c, 8) == Shift8(c)
  {
    hide Shift;
    var c4 := Shift(Shift(Shift(Shift(c))));
    assert ShiftTimes(c, 8) == ShiftTimes(Shift(Shift(c)), 6) == ShiftTimes(c4, 4);
    assert ShiftTimes(c4, 4) == ShiftTimes(Shift(Shift(c4)), 2);
  }

  // -------------------------------------------------------- whole messages

  lemma {:induction false} RegisterSplit(c: Word, a: seq<Octet>, b: seq<Octet>)
    ensures Register(c, a + b) == Register(Register(c, a), b)
    decreases |b|
  {
    hide Feed;
    if b == [] {
      assert a + b == a;
    } else {
      RegisterSplit(c, a, b[..|b| - 1]);
      assert (a + b)[..|a + b| - 1] == a + b[..|b| - 1];
    }
  }

  function XorBytes(a: seq<Octet>, b: seq<Octet>): (r: seq<Octet>)
    requires |a| == |b|
    ensures |r| == |a|
  {
    if a == [] then [] else XorBytes(a[..|a| - 1], b[..|b| - 1]) + [a[|a| - 1] ^ b[|b| - 1]]
  }

  /** The whole register is linear over xor, in its start and in the message. */
  lemma {:induction false} RegisterLinear(c: Word, d: Word, a: seq<Octet>, b: seq<Octet>)
    requires |a| == |b|
    ensures Register(Xor(c, d), XorBytes(a, b)) == Xor(Register(c, a), Register(d, b))
    decreases |a|
  {
    hide Feed, Xor;
    if a != [] {
      var x, y := a[..|a| - 1], b[..|b| - 1];
      RegisterLinear(c, d, x, y);
      FeedLinear(Register(c, x), Register(d, y), a[|a| - 1], b[|b| - 1]);
      assert XorBytes(a, b)[..|a| - 1] == XorBytes(x, y);
    }
  }

  // ----------------------------------------------- what the register tells

  /** No message brings two different registers together. */
  lemma {:induction false} RegisterInjective(c: Word, d: Word, bytes: seq<Octet>)
    ensures Register(c, bytes) == Register(d, bytes) <==> c == d
    decreases |bytes|
  {
    hide Feed;
    if bytes != [] {
      var init := bytes[..|bytes| - 1];
      RegisterInjective(c, d, init);
      FeedInjective(Register(c, init), Register(d, init), bytes[|bytes| - 1]);
    }
  }

  predicate AllZero(m: seq<Octet>) {
    forall i :: 0 <= i < |m| ==> m[i] == 0
  }

  /** From a clear register, a nonzero message of at most four bytes never leaves it clear. */
  lemma {:induction false} ShortMessagesShow(m: seq<Octet>, k: nat)
    requires |m| + k <= 4 && Fits(Register(0, m), k)
    ensures AllZero(m) && Register(0, m) == 0
    decreases |m|
  {
    hide Feed, Fits;
    if m == [] {
    } else {
      var init, last := m[..|m| - 1], m[|m| - 1];
      FeedBack(Register(0, init), last, k);
      ShortMessagesShow(init, k + 1);
      assert m == init + [last];
    }
  }

  lemma {:induction false} XorBytesZero(a: seq<Octet>, b: seq<Octet>)
    requires |a| == |b|
    ensures AllZero(XorBytes(a, b)) <==> a == b
    decreases |a|
  {
    if a != [] {
      var x, y, n := a[..|a| - 1], b[..|b| - 1], |a| - 1;
      XorBytesZero(x, y);
      OctetXor(a[n], b[n]);
      assert a == x + [a[n]] && b == y + [b[n]];
      assert XorBytes(a, b)[..n] == XorBytes(x, y) && XorBytes(a, b)[n] == a[n] ^ b[n];
    }
  }

  /** Two windows of at most four bytes leave the register in the same place only when they are equal. */
  lemma ShortWindowsShow(c: Word, x: seq<Octet>, y: seq<Octet>)
    requires |x| == |y| <= 4
    ensures Register(c, x) == Register(c, y) <==> x == y
  {
    hide Xor, Register, XorBytes;
    if Register(c, x) == Register(c, y) {
      RegisterLinear(c, c, x, y);
      XorZeroIsEqual(c, c);
      XorZeroIsEqual(Register(c, x), Register(c, y));
      ShortMessagesShow(XorBytes(x, y), 0);
      XorBytesZero(x, y);
    }
  }

  /** Any change confined to four consecutive bytes, anywhere in a message of any length, changes the checksum. */
  lemma FourByteWindowsAreDetected(before: seq<Octet>, x: seq<Octet>, y: seq<Octet>, after: seq<Octet>)
    requires |x| == |y| <= 4
    ensures Checksum(before + x + after) == Checksum(before + y + after) <==> x == y
  {
    hide Register, Flip;
    var c := Register(0xFFFF_FFFF, before);
    RegisterSplit(0xFFFF_FFFF, before + x, after);
    RegisterSplit(0xFFFF_FFFF, before + y, after);
    RegisterSplit(0xFFFF_FFFF, before, x);
    RegisterSplit(0xFFFF_FFFF, before, y);
    ShortWindowsShow(c, x, y);
    RegisterInjective(Register(c, x), Register(c, y), after);
    FlipTwice(Register(Register(c, x), after));
    FlipTwice(Register(Register(c, y), after));
  }

  /** The register's own bytes, low first. */
  function OwnBytes(c: Word): (r: seq<Octet>)
    ensures |r| == 4
  {
    [LowOctet(c), LowOctet(Down(c)), LowOctet(Down(Down(c))), LowOctet(Down(Down(Down(c))))]
  }

  lemma OwnBytesClear(c: Word)
    ensures Register(c, OwnBytes(c)) == 0
  {
    hide Feed, LowOctet, Down;
    var m := OwnBytes(c);
    var c1 := Down(c);
    var c2 := Down(c1);
    var c3 := Down(c2);
    FeedOwnByte(c);
    FeedOwnByte(c1);
    FeedOwnByte(c2);
    FeedOwnByte(c3);
    DownFour(c);
    FeedLast(c, [], m[0]);
    FeedLast(c, [m[0]], m[1]);
    FeedLast(c, [m[0], m[1]], m[2]);
    FeedLast(c, [m[0], m[1], m[2]], m[3]);
    assert Register(c, []) == c;
    assert [] + [m[0]] == [m[0]];
    assert [m[0]] + [m[1]] == [m[0], m[1]];
    assert [m[0], m[1]] + [m[2]] == [m[0], m[1], m[2]];
    assert [m[0], m[1], m[2]] + [m[3]] == m;
  }

  lemma FeedLast(c: Word, m: seq<Octet>, b: Octet)
    ensures Register(c, m + [b]) == Feed(Register(c, m), b)
  {
    hide Feed;
    assert (m + [b])[..|m|] == m;
  }

  /** The change that starts with `e` and goes on with what makes the register forget it. */
  function Unseen(e: Octet): (r: seq<Octet>)
    ensures |r| == 5 && r[0] == e
  {
    [e] + OwnBytes(Feed(0, e))
  }

  lemma UnseenClear(e: Octet)
    ensures Register(0, Unseen(e)) == 0
  {
    hide Register, OwnBytes, Feed;
    RegisterSplit(0, [e], OwnBytes(Feed(0, e)));
    OneByte(0, e);
    OwnBytesClear(Feed(0, e));
  }

  lemma OneByte(c: Word, b: Octet)
    ensures Register(c, [b]) == Feed(c, b)
  {
    hide Feed;
    assert Register(c, [b][..0]) == c;
  }

  lemma {:induction false} XorBytesAt(a: seq<Octet>, b: seq<Octet>, k: nat)
    requires |a| == |b| && k < |a|
    ensures XorBytes(a, b)[k] == a[k] ^ b[k]
    decreases |a|
  {
    if k < |a| - 1 {
      XorBytesAt(a[..|a| - 1], b[..|b| - 1], k);
    }
  }

  /** Five bytes that start with `b` and stand where `x` stood. */
  function Companion(x: seq<Octet>, b: Octet): (y: seq<Octet>)
    requires |x| == 5
    ensures |y| == 5
  {
    XorBytes(x, Unseen(x[0] ^ b))
  }

  /**
   Four is the most: whatever five consecutive bytes stand anywhere in a message, their first byte can be
   changed to any other value by changing the next four with it, and the checksum stays the same.
   */
  lemma FiveByteWindowsCanHide(before: seq<Octet>, x: seq<Octet>, b: Octet, after: seq<Octet>)
    requires |x| == 5
    ensures Companion(x, b)[0] == b
    ensures Checksum(before + Companion(x, b) + after) == Checksum(before + x + after)
  {
    hide Register, Xor, XorBytes, Unseen, Flip;
    var c, d := Register(0xFFFF_FFFF, before), Unseen(x[0] ^ b);
    var y := XorBytes(x, d);
    XorBytesAt(x, d, 0);
    OctetXorTwice(x[0], b);
    RegisterSplit(0xFFFF_FFFF, before + x, after);
    RegisterSplit(0xFFFF_FFFF, before + y, after);
    RegisterSplit(0xFFFF_FFFF, before, x);
    RegisterSplit(0xFFFF_FFFF, before, y);
    UnseenClear(x[0] ^ b);
    RegisterLinear(c, 0, x, d);
    XorZero(c);
    XorZero(Register(c, x));
  }

  // --------------------------------------------------- fixed points of the code

  /** The checksum of nothing is zero: the final complement undoes the starting value. */
  lemma EmptyChecksum()
    ensures Checksum([]) == 0
  {
  }

  /** Four bytes of ones, fed to a clear register. */
  lemma OnesRegister()
    ensures Register(0, [0xFF, 0xFF, 0xFF, 0xFF]) == 0xDEBB_20E3
  {
    hide Feed;
    FeedOnes();
    FeedLast(0, [], 0xFF);
    FeedLast(0, [0xFF], 0xFF);
    FeedLast(0, [0xFF, 0xFF], 0xFF);
    FeedLast(0, [0xFF, 0xFF, 0xFF], 0xFF);
    assert Register(0, []) == 0;
    assert [] + [0xFF as Octet] == [0xFF];
    assert [0xFF as Octet] + [0xFF] == [0xFF, 0xFF];
    assert [0xFF as Octet, 0xFF] + [0xFF] == [0xFF, 0xFF, 0xFF];
    assert [0xFF as Octet, 0xFF, 0xFF] + [0xFF] == [0xFF, 0xFF, 0xFF, 0xFF];
  }

  function Flipped(m: seq<Octet>): (r: seq<Octet>)
    requires |m| == 4
    ensures |r| == 4
  {
    [FlipOctet(m[0]), FlipOctet(m[1]), FlipOctet(m[2]), FlipOctet(m[3])]
  }

  lemma FlippedAt(m: seq<Octet>, ones: seq<Octet>, k: nat)
    requires |m| == |ones| && k < |m| && ones[k] == 0xFF
    ensures XorBytes(m, ones)[k] == FlipOctet(m[k])
  {
    XorBytesAt(m, ones, k);
  }

  lemma FlippedIsXor(m: seq<Octet>)
    requires |m| == 4
    ensures Flipped(m) == XorBytes(m, [0xFF, 0xFF, 0xFF, 0xFF])
  {
    hide XorBytes, FlipOctet;
    var ones := [0xFF as Octet, 0xFF, 0xFF, 0xFF];
    FlippedAt(m, ones, 0);
    FlippedAt(m, ones, 1);
    FlippedAt(m, ones, 2);
    FlippedAt(m, ones, 3);
  }

  lemma FlippedOctets(c: Word)
    ensures OwnBytes(Flip(c)) == Flipped(OwnBytes(c))
  {
    hide LowOctet, Down, Flip, FlipOctet;
    FlippedBytes(c);
  }

  /**
   A message with its own checksum behind it, low byte first, has the checksum 0x2144DF1C, whatever the message:
   the code word property by which a CRC is checked.
   */
  lemma CodeWordResidue(m: seq<Octet>)
    ensures Checksum(m + OwnBytes(Checksum(m))) == 0x2144_DF1C
  {
    hide Register, OwnBytes, XorBytes, Flip, Xor, Flipped;
    var c := Register(0xFFFF_FFFF, m);
    RegisterSplit(0xFFFF_FFFF, m, OwnBytes(Checksum(m)));
    FlippedOctets(c);
    FlippedIsXor(OwnBytes(c));
    OwnBytesClear(c);
    OnesRegister();
    RegisterLinear(c, 0, OwnBytes(c), [0xFF, 0xFF, 0xFF, 0xFF]);
    XorZero(c);
    XorCommutes(0, 0xDEBB_20E3);
    XorZero(0xDEBB_20E3);
    FlippedResidue();
  }
}
