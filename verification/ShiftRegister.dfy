/**
 The 32-bit shift register behind the bitwise CRC-32 of section 8 of RFC 1952, one bit and one byte
 at a time (crates/hxy-010-lang/src/interp.rs:3634-3644).
 */
module ShiftRegister {
  type Word = bv32
  type Octet = bv8

  const POLY: Word := 0xEDB88320

  function Xor(a: Word, b: Word): Word {
    a ^ b
  }

  function Half(a: Word): Word {
    a >> 1
  }

  function LowBit(a: Word): Word {
    a & 1
  }

  /** What a shifted-out low bit feeds back. */
  function Feedback(low: Word): Word {
    if low == 1 then 0xEDB88320 else 0
  }

  /** One bit of the shift register. */
  function Shift(c: Word): Word {
    Xor(Half(c), Feedback(LowBit(c)))
  }

  function Shift8(c: Word): Word {
    Shift(Shift(Shift(Shift(Shift(Shift(Shift(Shift(c))))))))
  }

  function Wide(b: Octet): Word {
    b as bv32
  }

  /** One byte fed into the register. */
  function Feed(c: Word, b: Octet): Word {
    Shift8(Xor(c, Wide(b)))
  }

  function Flip(a: Word): Word {
    !a
  }

  lemma FlipTwice(a: Word)
    ensures Flip(Flip(a)) == a
  {
  }

  lemma XorZero(a: Word)
    ensures Xor(a, 0) == a
  {
  }

  /** The branch of the loop is the shift. */
  lemma ConditionalShift(c: Word)
    ensures Shift(c) == if LowBit(c) != 0 then Xor(Half(c), POLY) else Half(c)
  {
    hide Xor, Half, LowBit;
    LowBitRange(c);
    XorZero(Half(c));
  }

  // ------------------------------------------------------ the shift alone

  lemma LowBitRange(a: Word)
    ensures LowBit(a) == 0 || LowBit(a) == 1
  {
  }

  lemma LowBitLinear(a: Word, b: Word)
    ensures LowBit(Xor(a, b)) == Xor(LowBit(a), LowBit(b))
  {
  }

  lemma HalfLinear(a: Word, b: Word)
    ensures Half(Xor(a, b)) == Xor(Half(a), Half(b))
  {
  }

  lemma FeedbackLinear(a: Word, b: Word)
    requires a == 0 || a == 1
    requires b == 0 || b == 1
    ensures Feedback(Xor(a, b)) == Xor(Feedback(a), Feedback(b))
  {
  }

  lemma XorAssociates(a: Word, b: Word, c: Word)
    ensures Xor(Xor(a, b), c) == Xor(a, Xor(b, c))
  {
  }

  lemma XorCommutes(a: Word, b: Word)
    ensures Xor(a, b) == Xor(b, a)
  {
  }

  lemma XorSwap(a: Word, b: Word, c: Word, d: Word)
    ensures Xor(Xor(a, b), Xor(c, d)) == Xor(Xor(a, c), Xor(b, d))
  {
    hide Xor;
    XorAssociates(a, b, Xor(c, d));
    XorAssociates(b, c, d);
    XorCommutes(b, c);
    XorAssociates(c, b, d);
    XorAssociates(a, c, Xor(b, d));
  }

  lemma ShiftLinear(a: Word, b: Word)
    ensures Shift(Xor(a, b)) == Xor(Shift(a), Shift(b))
  {
    hide Feedback, Xor, Half, LowBit;
    LowBitRange(a);
    LowBitRange(b);
    LowBitLinear(a, b);
    HalfLinear(a, b);
    FeedbackLinear(LowBit(a), LowBit(b));
    XorSwap(Half(a), Feedback(LowBit(a)), Half(b), Feedback(LowBit(b)));
  }

  /** Eight shifts are linear over xor. */
  lemma Shift8Linear(a: Word, b: Word)
    ensures Shift8(Xor(a, b)) == Xor(Shift8(a), Shift8(b))
  {
    hide Shift, Xor;
    var a1, b1 := Shift(a), Shift(b);
    ShiftLinear(a, b);
    var a2, b2 := Shift(a1), Shift(b1);
    ShiftLinear(a1, b1);
    var a3, b3 := Shift(a2), Shift(b2);
    ShiftLinear(a2, b2);
    var a4, b4 := Shift(a3), Shift(b3);
    ShiftLinear(a3, b3);
    var a5, b5 := Shift(a4), Shift(b4);
    ShiftLinear(a4, b4);
    var a6, b6 := Shift(a5), Shift(b5);
    ShiftLinear(a5, b5);
    var a7, b7 := Shift(a6), Shift(b6);
    ShiftLinear(a6, b6);
    ShiftLinear(a7, b7);
  }

  /** A register whose top byte is clear came from itself moved up: the shifts can be run backwards. */
  lemma Shift8Back(w: Word)
    requires Low3(Shift8(w)) == 0
    ensures w == Up(Shift8(w))
  {
  }

  function Up(v: Word): Word {
    v << 8
  }

  function Low1(v: Word): Word {
    v & 0xFFFF_FF00
  }

  function Low2(v: Word): Word {
    v & 0xFFFF_0000
  }

  function Low3(v: Word): Word {
    v & 0xFF00_0000
  }

  /** `v` fits in its low `k` bytes. */
  predicate Fits(v: Word, k: nat) {
    if k == 0 then v == 0
    else if k == 1 then Low1(v) == 0
    else if k == 2 then Low2(v) == 0
    else if k == 3 then Low3(v) == 0
    else true
  }

  lemma FitsMore(v: Word)
    ensures Low1(0) == 0
    ensures Low1(v) == 0 ==> Low2(v) == 0
    ensures Low2(v) == 0 ==> Low3(v) == 0
  {
  }

  lemma UpMoves(v: Word)
    ensures Up(0) == 0
    ensures Low1(v) == 0 ==> Low2(Up(v)) == 0
    ensures Low2(v) == 0 ==> Low3(Up(v)) == 0
  {
  }

  lemma LowByte1(c: Word, b: Octet)
    requires Low1(Xor(c, Wide(b))) == 0
    ensures Low1(c) == 0
  {
  }

  lemma LowByte2(c: Word, b: Octet)
    requires Low2(Xor(c, Wide(b))) == 0
    ensures Low2(c) == 0
  {
  }

  lemma LowByte3(c: Word, b: Octet)
    requires Low3(Xor(c, Wide(b))) == 0
    ensures Low3(c) == 0
  {
  }

  lemma LowByteLeft(b: Octet, v: Word)
    requires Xor(0, Wide(b)) == Up(v)
    ensures b == 0 && Xor(0, Wide(b)) == 0
  {
  }

  /** Each byte fed fills at most one more byte of the register from below, read backwards. */
  lemma FeedBack(c: Word, b: Octet, k: nat)
    requires k < 4 && Fits(Feed(c, b), k)
    ensures Fits(c, k + 1)
    ensures c == 0 ==> b == 0 && Feed(c, b) == 0
  {
    hide Shift8, Xor, Wide, Up, Low1, Low2, Low3;
    var w := Xor(c, Wide(b));
    var v := Shift8(w);
    FitsMore(v);
    FitsMore(0);
    Shift8Back(w);
    UpMoves(v);
    if Low1(w) == 0 {
      LowByte1(c, b);
    }
    if Low2(w) == 0 {
      LowByte2(c, b);
    }
    if Low3(w) == 0 {
      LowByte3(c, b);
    }
    if c == 0 {
      LowByteLeft(b, v);
      Shift8Zero();
    }
  }

  lemma WideXor(a: Octet, b: Octet)
    ensures Wide(a ^ b) == Xor(Wide(a), Wide(b))
  {
  }

  lemma FeedLinear(c: Word, d: Word, a: Octet, b: Octet)
    ensures Feed(Xor(c, d), a ^ b) == Xor(Feed(c, a), Feed(d, b))
  {
    hide Shift8, Xor, Wide;
    WideXor(a, b);
    XorSwap(c, d, Wide(a), Wide(b));
    Shift8Linear(Xor(c, Wide(a)), Xor(d, Wide(b)));
  }

  lemma OctetXor(a: Octet, b: Octet)
    ensures a ^ b == 0 <==> a == b
  {
  }

  lemma OctetXorTwice(a: Octet, b: Octet)
    ensures a ^ (a ^ b) == b
  {
  }

  lemma XorZeroIsEqual(a: Word, b: Word)
    ensures Xor(a, b) == 0 <==> a == b
  {
  }

  lemma ShiftZero()
    ensures Shift(0) == 0
  {
  }

  lemma Shift8Zero()
    ensures Shift8(0) == 0
  {
    hide Shift;
    ShiftZero();
  }

  /** One byte fed to two registers keeps them apart. */
  lemma FeedInjective(c: Word, d: Word, b: Octet)
    ensures Feed(c, b) == Feed(d, b) <==> c == d
  {
    hide Xor, Shift8, Wide, Up, Low1, Low2, Low3;
    if Feed(c, b) == Feed(d, b) {
      var u, v := Xor(c, Wide(b)), Xor(d, Wide(b));
      Shift8Linear(u, v);
      XorZeroIsEqual(Shift8(u), Shift8(v));
      FitsMore(0);
      UpMoves(0);
      Shift8Back(Xor(u, v));
      XorZeroIsEqual(u, v);
      XorCancels(c, d, Wide(b));
    }
  }

  lemma XorCancels(a: Word, b: Word, c: Word)
    ensures Xor(a, c) == Xor(b, c) <==> a == b
  {
    XorZero(a);
    XorZero(b);
  }

  // ------------------------------------------------- feeding its own bytes

  function LowOctet(c: Word): Octet {
    (c & 0xFF) as bv8
  }

  function Down(c: Word): Word {
    c >> 8
  }

  lemma ShiftEven(c: Word)
    requires LowBit(c) == 0
    ensures Shift(c) == Half(c)
  {
    hide Xor, Half, LowBit;
    XorZero(Half(c));
  }

  lemma LowByteEven(w: Word)
    requires w & 0xFF == 0
    ensures LowBit(w) == LowBit(w >> 1) == LowBit(w >> 2) == LowBit(w >> 3) == 0
    ensures LowBit(w >> 4) == LowBit(w >> 5) == LowBit(w >> 6) == LowBit(w >> 7) == 0
  {
  }

  lemma Halves(w: Word)
    ensures Half(w) == w >> 1 && Half(w >> 1) == w >> 2 && Half(w >> 2) == w >> 3 && Half(w >> 3) == w >> 4
    ensures Half(w >> 4) == w >> 5 && Half(w >> 5) == w >> 6 && Half(w >> 6) == w >> 7 && Half(w >> 7) == Down(w)
  {
  }

  lemma Shift8Down(w: Word)
    requires w & 0xFF == 0
    ensures Shift8(w) == Down(w)
  {
    hide Shift, Half, LowBit, Down;
    LowByteEven(w);
    Halves(w);
    ShiftEven(w);
    ShiftEven(w >> 1);
    ShiftEven(w >> 2);
    ShiftEven(w >> 3);
    ShiftEven(w >> 4);
    ShiftEven(w >> 5);
    ShiftEven(w >> 6);
    ShiftEven(w >> 7);
  }

  lemma LowOctetClears(c: Word)
    ensures Xor(c, Wide(LowOctet(c))) & 0xFF == 0
    ensures Down(Xor(c, Wide(LowOctet(c)))) == Down(c)
  {
  }

  lemma DownFour(c: Word)
    ensures Down(Down(Down(Down(c)))) == 0
  {
  }

  /** A register fed its own low byte moves down. */
  lemma FeedOwnByte(c: Word)
    ensures Feed(c, LowOctet(c)) == Down(c)
  {
    hide Xor, Shift8, Wide, LowOctet, Down;
    LowOctetClears(c);
    Shift8Down(Xor(c, Wide(LowOctet(c))));
  }

  // ----------------------------------------------------- bytes of ones

  function FlipOctet(b: Octet): Octet {
    b ^ 0xFF
  }

  lemma FlippedBytes(c: Word)
    ensures LowOctet(Flip(c)) == FlipOctet(LowOctet(c))
    ensures LowOctet(Down(Flip(c))) == FlipOctet(LowOctet(Down(c)))
    ensures LowOctet(Down(Down(Flip(c)))) == FlipOctet(LowOctet(Down(Down(c))))
    ensures LowOctet(Down(Down(Down(Flip(c))))) == FlipOctet(LowOctet(Down(Down(Down(c)))))
  {
  }

  lemma FlippedResidue()
    ensures Flip(0xDEBB_20E3) == 0x2144_DF1C
  {
  }

  lemma FeedOnes()
    ensures Feed(0, 0xFF) == 0x2D02EF8D
    ensures Feed(0x2D02EF8D, 0xFF) == 0xBE2612FF
    ensures Feed(0xBE2612FF, 0xFF) == 0xBE2612
    ensures Feed(0xBE2612, 0xFF) == 0xDEBB20E3
  {
  }
}
