/**
 Bitfields of the template language: successive declarations peel bits off a shared storage word, opening a
 new word when the type changes or the next field does not fit (crates/hxy-010-lang/src/interp.rs:1060-1133
 and 3619-3632). Reading is proved to undo a packer that fills words greedily in the same direction.
 */
module Bitfields {
  import opened Splices

  // ------------------------------------------------------------ arithmetic

  function Pow2(n: nat): (p: nat)
    ensures p > 0
  {
    if n == 0 then 1 else 2 * Pow2(n - 1)
  }

  lemma {:induction false} Pow2Sum(a: nat, b: nat)
    ensures Pow2(a + b) == Pow2(a) * Pow2(b)
  {
    if a > 0 {
      Pow2Sum(a - 1, b);
      Twice(Pow2(a - 1), Pow2(b));
      assert a + b - 1 == (a - 1) + b;
    }
  }

  lemma Twice(x: int, y: int)
    ensures (2 * x) * y == 2 * (x * y)
  {
  }

  lemma Grows(m: int, a: int, b: int)
    requires m >= 0 && a <= b
    ensures m * a <= m * b
  {
    Apart(m, a, b);
    assert m * (b - a) >= 0;
  }

  lemma Apart(m: int, a: int, b: int)
    ensures m * b == m * a + m * (b - a)
  {
  }

  lemma Commute(a: int, b: int)
    ensures a * b == b * a
  {
  }

  lemma SmallMultiple(m: int, k: int)
    requires -m < m * k < m
    ensures k == 0
  {
    if k > 0 {
      Grows(m, 1, k);
    } else if k < 0 {
      Grows(m, k, -1);
    }
  }

  /** Quotient and remainder are the only pair that rebuilds the number. */
  lemma Division(x: int, m: int, q: int, r: int)
    requires 0 <= r < m && x == m * q + r
    ensures x / m == q && x % m == r
  {
    var k, t := x / m - q, x % m;
    assert x == m * (x / m) + t;
    assert m * k == m * (x / m) - m * q;
    SmallMultiple(m, k);
  }

  lemma DivideExactly(low: nat, m: nat, high: nat)
    requires low < m
    ensures (low + m * high) / m == high && (low + m * high) % m == low
  {
    Division(low + m * high, m, high, low);
  }

  lemma Nest(a: int, b: int, u: int, v: int)
    ensures a * (b * u + v) == (a * b) * u + a * v
  {
    assert a * (b * u) == (a * b) * u;
  }

  lemma DivideTwice(x: nat, a: nat, b: nat)
    requires a > 0 && b > 0
    ensures a * b > 0 && x / a / b == x / (a * b)
  {
    var q, r := x / a, x % a;
    var u, v := q / b, q % b;
    Nest(a, b, u, v);
    Below(r, a, v, b);
    Division(x, a * b, u, r + a * v);
  }

  lemma Below(low: nat, m: nat, high: nat, n: nat)
    requires low < m && high < n
    ensures low + m * high < m * n
  {
    assert m * n == m * high + m * (n - high);
    assert m * (n - high) == m * (n - high - 1) + m;
    assert m * (n - high - 1) >= 0;
  }

  // --------------------------------------------------------- storage words

  function FromLe(s: Bytes): nat {
    if s == [] then 0 else s[0] as nat + 256 * FromLe(s[1..])
  }

  function FromBe(s: Bytes): nat {
    if s == [] then 0 else 256 * FromBe(s[..|s| - 1]) + s[|s| - 1] as nat
  }

  /** `decode_prim_for_bitfield`: the bytes are placed in an eight-byte buffer and read as a 64-bit word. */
  function DecodeWord(bytes: Bytes, little: bool): nat
    requires |bytes| <= 8
  {
    if little then FromLe(bytes + Zeros(8 - |bytes|)) else FromBe(Zeros(8 - |bytes|) + bytes)
  }

  function LeBytes(v: nat, n: nat): (r: Bytes)
    ensures |r| == n
  {
    if n == 0 then [] else [(v % 256) as Byte] + LeBytes(v / 256, n - 1)
  }

  function BeBytes(v: nat, n: nat): (r: Bytes)
    ensures |r| == n
  {
    if n == 0 then [] else BeBytes(v / 256, n - 1) + [(v % 256) as Byte]
  }

  function EncodeWord(v: nat, size: nat, little: bool): (r: Bytes)
    ensures |r| == size
  {
    if little then LeBytes(v, size) else BeBytes(v, size)
  }

  lemma {:induction false} ZerosDecode(n: nat)
    ensures FromLe(Zeros(n)) == 0 && FromBe(Zeros(n)) == 0
  {
    if n > 0 {
      ZerosDecode(n - 1);
      assert Zeros(n)[1..] == Zeros(n - 1) && Zeros(n)[..n - 1] == Zeros(n - 1);
    }
  }

  lemma QuotientFits(v: nat, n: nat)
    requires n > 0 && v < Pow2(8 * n)
    ensures v / 256 < Pow2(8 * (n - 1))
  {
    Pow2Sum(8, 8 * (n - 1));
    ByteIsPow2();
  }

  lemma {:induction false} LeRoundTrip(v: nat, n: nat, pad: nat)
    requires v < Pow2(8 * n)
    ensures FromLe(LeBytes(v, n) + Zeros(pad)) == v
  {
    if n == 0 {
      assert [] + Zeros(pad) == Zeros(pad);
      ZerosDecode(pad);
    } else {
      QuotientFits(v, n);
      LeRoundTrip(v / 256, n - 1, pad);
      var s := LeBytes(v, n) + Zeros(pad);
      assert s[1..] == LeBytes(v / 256, n - 1) + Zeros(pad);
    }
  }

  lemma {:induction false} BeRoundTrip(v: nat, n: nat, pad: nat)
    requires v < Pow2(8 * n)
    ensures FromBe(Zeros(pad) + BeBytes(v, n)) == v
  {
    if n == 0 {
      assert Zeros(pad) + [] == Zeros(pad);
      ZerosDecode(pad);
    } else {
      QuotientFits(v, n);
      BeRoundTrip(v / 256, n - 1, pad);
      var s := Zeros(pad) + BeBytes(v, n);
      assert s[..|s| - 1] == Zeros(pad) + BeBytes(v / 256, n - 1);
    }
  }

  lemma WordRoundTrip(v: nat, size: nat, little: bool)
    requires size <= 8 && v < Pow2(8 * size)
    ensures DecodeWord(EncodeWord(v, size, little), little) == v
  {
    LeRoundTrip(v, size, 8 - size);
    BeRoundTrip(v, size, 8 - size);
  }

  // ------------------------------------------------------- reading a field

  /** A bitfield declaration: bytes of its integer type, signedness, and the declared number of bits. */
  datatype Decl = Decl(size: nat, signed: bool, bits: nat) {
    predicate Valid() {
      size == 1 || size == 2 || size == 4 || size == 8
    }

    /** A width beyond the type is cut down to it. */
    function Width(): (w: nat)
      ensures w <= 8 * size
    {
      if bits < 8 * size then bits else 8 * size
    }
  }

  datatype Slot = Slot(size: nat, raw: nat, consumed: nat)

  datatype State = State(cursor: nat, slot: Option<Slot>)

  datatype Mode = Mode(rightToLeft: bool, little: bool)

  predicate NeedsWord(d: Decl, slot: Option<Slot>) {
    slot.None? || slot.value.size != d.size || slot.value.consumed + d.Width() > 8 * d.size
  }

  /** The bits of a field in its word: shift down, then mask. */
  function Extract(m: Mode, slot: Slot, w: nat): nat
    requires slot.consumed + w <= 8 * slot.size
  {
    var shift := if m.rightToLeft then slot.consumed else 8 * slot.size - (slot.consumed + w);
    slot.raw / Pow2(shift) % Pow2(w)
  }

  /** Shift up to the top of 64 bits, read as signed, shift back down with the sign. */
  function SignExtend(v: nat, w: nat): int
    requires w <= 64
  {
    if w == 0 then 0
    else
      var up := v * Pow2(64 - w) % Pow2(64);
      (if up >= Pow2(63) then up - Pow2(64) else up) / Pow2(64 - w)
  }

  function FieldValue(d: Decl, v: nat): int
    requires d.Valid()
  {
    if d.signed then SignExtend(v, d.Width()) else v
  }

  /** One bitfield read: the state after it and the value, or no value and the same state at the end of the source. */
  function ReadField(m: Mode, src: Bytes, st: State, d: Decl): (r: (State, Option<int>))
    requires d.Valid()
    ensures r.1.None? <==> NeedsWord(d, st.slot) && st.cursor + d.size > |src|
    ensures r.1.None? ==> r.0 == st
  {
    if NeedsWord(d, st.slot) then
      if st.cursor + d.size > |src| then (st, None)
      else
        var slot := Slot(d.size, DecodeWord(src[st.cursor..st.cursor + d.size], m.little), 0);
        (State(st.cursor + d.size, Some(slot.(consumed := d.Width()))),
         Some(FieldValue(d, Extract(m, slot, d.Width()))))
    else
      var slot := st.slot.value;
      (State(st.cursor, Some(slot.(consumed := slot.consumed + d.Width()))),
       Some(FieldValue(d, Extract(m, slot, d.Width()))))
  }

  /** A run of declarations, up to the first that fails. */
  function ReadAll(m: Mode, src: Bytes, st: State, ds: seq<Decl>): (State, seq<int>)
    requires forall d <- ds :: d.Valid()
    decreases |ds|
  {
    if ds == [] then (st, [])
    else
      var (st1, v) := ReadField(m, src, st, ds[0]);
      if v.None? then (st1, [])
      else
        var (st2, vs) := ReadAll(m, src, st1, ds[1..]);
        (st2, [v.value] + vs)
  }

  class BitfieldReader {
    const src: Bytes
    var cursor: nat
    var bitfieldSlot: Option<Slot>
    var rightToLeft: bool
    var little: bool

    constructor (src: Bytes)
      ensures this.src == src && cursor == 0 && bitfieldSlot == None && !rightToLeft && little
    {
      this.src := src;
      cursor, bitfieldSlot, rightToLeft, little := 0, None, false, true;
    }

    /** `read_bitfield` on a resolved integer type. */
    method ReadBitfield(d: Decl) returns (value: Option<int>)
      requires d.Valid()
      modifies `cursor, `bitfieldSlot
      ensures (ReadField(Mode(rightToLeft, little), src, old(State(cursor, bitfieldSlot)), d)
               == (State(cursor, bitfieldSlot), value))
    {
      hide DecodeWord, SignExtend, Pow2;
      var typeBits := 8 * d.size;
      var width := if d.bits < typeBits then d.bits else typeBits;
      if bitfieldSlot.None? || bitfieldSlot.value.size != d.size || bitfieldSlot.value.consumed + width > typeBits {
        if cursor + d.size > |src| {
          return None;
        }
        var decoded := DecodeWord(src[cursor..cursor + d.size], little);
        cursor := cursor + d.size;
        bitfieldSlot := Some(Slot(d.size, decoded, 0));
      }
      var slot := bitfieldSlot.value;
      var position := slot.consumed;
      var shift := if rightToLeft then position else typeBits - (position + width);
      var extracted := slot.raw / Pow2(shift) % Pow2(width);
      bitfieldSlot := Some(slot.(consumed := position + width));
      value := Some(if d.signed then SignExtend(extracted, width) else extracted);
    }
  }

  // --------------------------------------------------------------- packing

  /** A declaration with the value to store under it. */
  datatype Field = Field(decl: Decl, value: int) {
    /** The bits that stand for the value. */
    function Stored(): (v: nat)
      ensures v < Pow2(decl.Width())
    {
      value % Pow2(decl.Width())
    }
  }

  predicate FitsNext(fs: seq<Field>, size: nat, room: nat) {
    fs != [] && fs[0].decl.size == size && fs[0].decl.Width() <= room
  }

  /** What the fields that still fit put into the `room` bits left of a word. */
  function Fill(rightToLeft: bool, fs: seq<Field>, size: nat, room: nat): nat
    decreases |fs|
  {
    if !FitsNext(fs, size, room) then 0
    else
      var w := fs[0].decl.Width();
      var rest := Fill(rightToLeft, fs[1..], size, room - w);
      if rightToLeft then fs[0].Stored() + Pow2(w) * rest else rest + Pow2(room - w) * fs[0].Stored()
  }

  /** The words a run of fields needs, filled greedily. */
  function Pack(m: Mode, fs: seq<Field>): Bytes
    decreases |fs|, 0
  {
    if fs == [] then []
    else
      var d := fs[0].decl;
      EncodeWord(Fill(m.rightToLeft, fs, d.size, 8 * d.size), d.size, m.little)
      + PackAfter(m, fs[1..], d.size, 8 * d.size - d.Width())
  }

  /** The words after one that has `room` bits left. */
  function PackAfter(m: Mode, fs: seq<Field>, size: nat, room: nat): Bytes
    decreases |fs|, 1
  {
    if FitsNext(fs, size, room) then PackAfter(m, fs[1..], size, room - fs[0].decl.Width()) else Pack(m, fs)
  }

  lemma {:induction false} FillBound(rightToLeft: bool, fs: seq<Field>, size: nat, room: nat)
    ensures Fill(rightToLeft, fs, size, room) < Pow2(room)
    decreases |fs|
  {
    if FitsNext(fs, size, room) {
      var w, v := fs[0].decl.Width(), fs[0].Stored();
      var rest := Fill(rightToLeft, fs[1..], size, room - w);
      FillBound(rightToLeft, fs[1..], size, room - w);
      Pow2Sum(w, room - w);
      Below(v, Pow2(w), rest, Pow2(room - w));
      Below(rest, Pow2(room - w), v, Pow2(w));
      assert Pow2(w) * Pow2(room - w) == Pow2(room - w) * Pow2(w);
    }
  }

  /** The word under a slot still holds, where the next read looks, what the coming fields put there. */
  ghost predicate Holds(m: Mode, slot: Slot, fs: seq<Field>) {
    slot.consumed <= 8 * slot.size
    && var room := 8 * slot.size - slot.consumed;
       Fill(m.rightToLeft, fs, slot.size, room)
       == if m.rightToLeft then slot.raw / Pow2(slot.consumed) else slot.raw % Pow2(room)
  }

  /** A read finds the stored bits and leaves the rest of the word for the fields after it. */
  lemma ExtractsStored(m: Mode, slot: Slot, fs: seq<Field>)
    requires slot.consumed <= 8 * slot.size && Holds(m, slot, fs)
    requires FitsNext(fs, slot.size, 8 * slot.size - slot.consumed)
    ensures Extract(m, slot, fs[0].decl.Width()) == fs[0].Stored()
    ensures Holds(m, slot.(consumed := slot.consumed + fs[0].decl.Width()), fs[1..])
  {
    if m.rightToLeft {
      ExtractsRightToLeft(m, slot, fs);
    } else {
      ExtractsLeftToRight(m, slot, fs);
    }
  }

  lemma ExtractsRightToLeft(m: Mode, slot: Slot, fs: seq<Field>)
    requires m.rightToLeft
    requires slot.consumed <= 8 * slot.size && Holds(m, slot, fs)
    requires FitsNext(fs, slot.size, 8 * slot.size - slot.consumed)
    ensures Extract(m, slot, fs[0].decl.Width()) == fs[0].Stored()
    ensures Holds(m, slot.(consumed := slot.consumed + fs[0].decl.Width()), fs[1..])
  {
    var room, w, v := 8 * slot.size - slot.consumed, fs[0].decl.Width(), fs[0].Stored();
    var rest := Fill(true, fs[1..], slot.size, room - w);
    DivideExactly(v, Pow2(w), rest);
    DivideTwice(slot.raw, Pow2(slot.consumed), Pow2(w));
    Pow2Sum(slot.consumed, w);
  }

  lemma ExtractsLeftToRight(m: Mode, slot: Slot, fs: seq<Field>)
    requires !m.rightToLeft
    requires slot.consumed <= 8 * slot.size && Holds(m, slot, fs)
    requires FitsNext(fs, slot.size, 8 * slot.size - slot.consumed)
    ensures Extract(m, slot, fs[0].decl.Width()) == fs[0].Stored()
    ensures Holds(m, slot.(consumed := slot.consumed + fs[0].decl.Width()), fs[1..])
  {
    var room, w, v := 8 * slot.size - slot.consumed, fs[0].decl.Width(), fs[0].Stored();
    var low := room - w;
    var rest := Fill(false, fs[1..], slot.size, low);
    FillBound(false, fs[1..], slot.size, low);
    Pow2Sum(low, w);
    SplitsLow(slot.raw, rest, Pow2(low), v, Pow2(w));
    hide Pow2, Fill;
  }

  lemma SplitsLow(raw: nat, rest: nat, unit: nat, v: nat, span: nat)
    requires unit * span > 0 && raw % (unit * span) == rest + unit * v && rest < unit && v < span
    ensures raw / unit % span == v && raw % unit == rest
  {
    var q := raw / (unit * span);
    Regroup(raw, rest, unit, v, span, q);
    Division(raw, unit, v + span * q, rest);
    Division(v + span * q, span, q, v);
  }

  lemma Regroup(raw: nat, rest: nat, unit: nat, v: nat, span: nat, q: nat)
    requires unit * span > 0 && q == raw / (unit * span) && raw % (unit * span) == rest + unit * v
    ensures raw == rest + unit * (v + span * q)
  {
    Rebuild(raw, unit * span);
    Nest(unit, span, q, v);
  }

  lemma Rebuild(x: nat, m: nat)
    requires m > 0
    ensures x == m * (x / m) + x % m
  {
  }

  // ------------------------------------------------------------ round trip

  function Decls(fs: seq<Field>): (ds: seq<Decl>)
    ensures |ds| == |fs| && forall i :: 0 <= i < |fs| ==> ds[i] == fs[i].decl
  {
    seq(|fs|, i requires 0 <= i < |fs| => fs[i].decl)
  }

  function Values(fs: seq<Field>): (vs: seq<int>)
    requires forall f <- fs :: f.decl.Valid()
    ensures |vs| == |fs|
  {
    seq(|fs|, i requires 0 <= i < |fs| => FieldValue(fs[i].decl, fs[i].Stored()))
  }

  lemma ValuesSplit(fs: seq<Field>)
    requires fs != [] && forall f <- fs :: f.decl.Valid()
    ensures Values(fs) == [FieldValue(fs[0].decl, fs[0].Stored())] + Values(fs[1..])
    ensures Decls(fs)[0] == fs[0].decl && Decls(fs)[1..] == Decls(fs[1..])
  {
  }

  /** The first read of a run, then the rest. */
  lemma ReadsFirst(m: Mode, src: Bytes, st: State, fs: seq<Field>, next: State, v: int)
    requires fs != [] && forall f <- fs :: f.decl.Valid()
    requires ReadField(m, src, st, fs[0].decl) == (next, Some(v))
    ensures var (end, vs) := ReadAll(m, src, next, Decls(fs[1..]));
      ReadAll(m, src, st, Decls(fs)) == (end, [v] + vs)
  {
    hide ReadField;
    ValuesSplit(fs);
  }

  /** A read that finds its word open. */
  lemma ReadsOpenWord(m: Mode, src: Bytes, cursor: nat, slot: Slot, fs: seq<Field>)
    requires slot.consumed <= 8 * slot.size && Holds(m, slot, fs)
    requires FitsNext(fs, slot.size, 8 * slot.size - slot.consumed) && fs[0].decl.Valid()
    ensures var next := slot.(consumed := slot.consumed + fs[0].decl.Width());
      Holds(m, next, fs[1..])
      && ReadField(m, src, State(cursor, Some(slot)), fs[0].decl)
         == (State(cursor, Some(next)), Some(FieldValue(fs[0].decl, fs[0].Stored())))
  {
    hide Fill, Extract, FieldValue, Holds;
    ExtractsStored(m, slot, fs);
  }

  /** With a word open: the fields it still holds, then the words after it. */
  lemma {:induction false} ReadsFromSlot(m: Mode, before: Bytes, fs: seq<Field>, slot: Slot, tail: Bytes)
    requires forall f <- fs :: f.decl.Valid()
    requires slot.consumed <= 8 * slot.size && Holds(m, slot, fs)
    ensures var packed := PackAfter(m, fs, slot.size, 8 * slot.size - slot.consumed);
      var (st, vs) := ReadAll(m, before + packed + tail, State(|before|, Some(slot)), Decls(fs));
      vs == Values(fs) && st.cursor == |before| + |packed|
    decreases |fs|, 1
  {
    hide Pack, Fill, Extract, FieldValue, Holds, ReadField;
    if fs != [] {
      if FitsNext(fs, slot.size, 8 * slot.size - slot.consumed) {
        hide ReadAll;
        var next := slot.(consumed := slot.consumed + fs[0].decl.Width());
        var packed := PackAfter(m, fs, slot.size, 8 * slot.size - slot.consumed);
        var src := before + packed + tail;
        ReadsOpenWord(m, src, |before|, slot, fs);
        ReadsFromSlot(m, before, fs[1..], next, tail);
        ReadsFirst(m, src, State(|before|, Some(slot)), fs, State(|before|, Some(next)),
                   FieldValue(fs[0].decl, fs[0].Stored()));
        ValuesSplit(fs);
      } else {
        ReadsWords(m, before, fs, Some(slot), tail);
      }
    } else {
      PackNothing(m);
    }
  }

  lemma PackNothing(m: Mode)
    ensures Pack(m, []) == []
  {
  }

  /** With no usable word open: the first read opens one. */
  lemma {:induction false} ReadsWords(m: Mode, before: Bytes, fs: seq<Field>, slot: Option<Slot>, tail: Bytes)
    requires forall f <- fs :: f.decl.Valid()
    requires fs != [] ==> NeedsWord(fs[0].decl, slot)
    ensures var packed := Pack(m, fs);
      var (st, vs) := ReadAll(m, before + packed + tail, State(|before|, slot), Decls(fs));
      vs == Values(fs) && st.cursor == |before| + |packed|
    decreases |fs|, 0
  {
    hide Fill, Extract, FieldValue, Holds, DecodeWord, EncodeWord, PackAfter, ReadField;
    if fs != [] {
      hide ReadAll;
      var d := fs[0].decl;
      var opening := Slot(d.size, Fill(m.rightToLeft, fs, d.size, 8 * d.size), 0);
      var word := EncodeWord(opening.raw, d.size, m.little);
      var rest := PackAfter(m, fs[1..], d.size, 8 * d.size - d.Width());
      var next := opening.(consumed := d.Width());
      var src := before + (word + rest) + tail;
      assert src == before + word + rest + tail;
      ReadsNewWord(m, before, word, rest + tail, slot, opening, fs);
      assert src == before + word + (rest + tail);
      ReadsFromSlot(m, before + word, fs[1..], next, tail);
      ReadsFirst(m, src, State(|before|, slot), fs, State(|before| + d.size, Some(next)),
                 FieldValue(d, fs[0].Stored()));
      ValuesSplit(fs);
    }
  }

  /** A read that opens a word. */
  lemma ReadsNewWord(m: Mode, before: Bytes, word: Bytes, behind: Bytes, slot: Option<Slot>, opening: Slot,
                     fs: seq<Field>)
    requires fs != [] && fs[0].decl.Valid() && NeedsWord(fs[0].decl, slot)
    requires opening == Slot(fs[0].decl.size, Fill(m.rightToLeft, fs, fs[0].decl.size, 8 * fs[0].decl.size), 0)
    requires word == EncodeWord(opening.raw, opening.size, m.little)
    ensures var d := fs[0].decl;
      var next := opening.(consumed := d.Width());
      Holds(m, next, fs[1..])
      && ReadField(m, before + word + behind, State(|before|, slot), d)
         == (State(|before| + d.size, Some(next)), Some(FieldValue(d, fs[0].Stored())))
  {
    hide Fill, Extract, FieldValue, Holds, DecodeWord, EncodeWord;
    var src := before + word + behind;
    assert src[|before|..|before| + opening.size] == word;
    OpensWord(m, fs, opening);
    ExtractsStored(m, opening, fs);
  }

  lemma OpensWord(m: Mode, fs: seq<Field>, opening: Slot)
    requires fs != [] && fs[0].decl.Valid() && opening.size == fs[0].decl.size && opening.consumed == 0
    requires opening.raw == Fill(m.rightToLeft, fs, opening.size, 8 * opening.size)
    ensures DecodeWord(EncodeWord(opening.raw, opening.size, m.little), m.little) == opening.raw
    ensures Holds(m, opening, fs) && FitsNext(fs, opening.size, 8 * opening.size)
  {
    hide Fill, DecodeWord, EncodeWord;
    FillBound(m.rightToLeft, fs, opening.size, 8 * opening.size);
    WordRoundTrip(opening.raw, opening.size, m.little);
    WholeWord(opening.raw, 8 * opening.size);
  }

  lemma WholeWord(raw: nat, bits: nat)
    requires raw < Pow2(bits)
    ensures raw / Pow2(0) == raw && raw % Pow2(bits) == raw
  {
    Division(raw, Pow2(bits), 0, raw);
  }

  // -------------------------------------------------------- what is read

  /** `read` is `value` reduced modulo 2^w into the range of `w` bits, in two's complement if signed. */
  ghost predicate Represents(w: nat, signed: bool, value: int, read: int) {
    (read - value) % Pow2(w) == 0 && InRange(w, signed, read)
  }

  ghost predicate InRange(w: nat, signed: bool, value: int) {
    if signed && w > 0 then -(Pow2(w - 1) as int) <= value < Pow2(w - 1) else 0 <= value < Pow2(w)
  }

  lemma SignExtendIs(v: nat, w: nat)
    requires 0 < w <= 64 && v < Pow2(w)
    ensures SignExtend(v, w) == if v < Pow2(w - 1) then v else v - Pow2(w)
  {
    var u, half, p := Pow2(64 - w), Pow2(w - 1), Pow2(w);
    assert Pow2(64) == u * p by {
      Pow2Sum(64 - w, w);
    }
    assert Pow2(63) == u * half by {
      Pow2Sum(64 - w, w - 1);
    }
    SignExtendParts(v, u, p, half, Pow2(64), Pow2(63));
    hide Pow2;
  }

  lemma SignExtendParts(v: nat, u: nat, p: nat, half: nat, top: nat, mid: nat)
    requires v < p && u > 0 && top > 0
    requires top == u * p && mid == u * half
    ensures var up := v * u % top;
      (if up >= mid then up - top else up) / u == if v < half then v else v - p
  {
    Below(0, u, v, p);
    Commute(u, v);
    Division(v * u, top, 0, v * u);
    if v < half {
      Below(0, u, v, half);
      Division(v * u, u, v, 0);
    } else {
      Grows(u, half, v);
      Subtract(u, v, p);
      Division(v * u - top, u, v - p, 0);
    }
  }

  lemma Subtract(m: int, a: int, b: int)
    ensures m * (a - b) == m * a - m * b
  {
  }

  /** Reducing and, if signed, extending the sign of the bits kept. */
  lemma ReducedRepresents(d: Decl, value: int)
    requires d.Valid()
    ensures Represents(d.Width(), d.signed, value, FieldValue(d, value % Pow2(d.Width())))
  {
    var w := d.Width();
    var v, p, q := value % Pow2(w), Pow2(w), value / Pow2(w);
    assert value == p * q + v;
    assert v - value == p * -q;
    Division(v - value, p, -q, 0);
    if d.signed && w > 0 {
      SignExtendIs(v, w);
      assert v - p - value == p * (-q - 1);
      Division(v - p - value, p, -q - 1, 0);
    }
  }

  /**
   Reading undoes packing. Whatever the types, widths and values, in either direction and byte order, a run of
   declarations read over its greedily packed words gives back every value, modulo two to its declared width, a
   width beyond the type being the type's; and the cursor moves over exactly the words packed.
   */
  lemma ReadingUndoesPacking(m: Mode, before: Bytes, fs: seq<Field>, tail: Bytes)
    requires forall f <- fs :: f.decl.Valid()
    ensures var (st, vs) := ReadAll(m, before + Pack(m, fs) + tail, State(|before|, None), Decls(fs));
      |vs| == |fs|
      && st.cursor == |before| + |Pack(m, fs)|
      && forall i :: 0 <= i < |fs| ==>
           var d := fs[i].decl;
           Represents(if d.bits <= 8 * d.size then d.bits else 8 * d.size, d.signed, fs[i].value, vs[i])
  {
    hide Represents, ReadAll, Pack, FieldValue;
    ReadsWords(m, before, fs, None, tail);
    forall i | 0 <= i < |fs|
      ensures Represents(fs[i].decl.Width(), fs[i].decl.signed, fs[i].value, Values(fs)[i])
    {
      ReducedRepresents(fs[i].decl, fs[i].value);
    }
  }

  /** A value its field can hold comes back as it is. */
  lemma InRangeIsExact(w: nat, signed: bool, value: int, read: int)
    requires Represents(w, signed, value, read) && InRange(w, signed, value)
    ensures read == value
  {
    var p := Pow2(w);
    var k := (read - value) / p;
    assert read - value == p * k;
    assert w > 0 ==> p == 2 * Pow2(w - 1);
    hide Pow2;
    SmallMultiple(p, k);
  }

  // ------------------------------------------------ where in the word and bytes

  /** The bits declared in all. */
  function TotalBits(ds: seq<Decl>): nat {
    if ds == [] then 0 else ds[0].bits + TotalBits(ds[1..])
  }

  /** Fields of one type that fit its word together. */
  ghost predicate OneWord(ds: seq<Decl>, size: nat) {
    (forall d <- ds :: d.Valid() && d.size == size) && TotalBits(ds) <= 8 * size
  }

  /** Where a field lies in its word: counted from the low end, or from the high end. */
  function Position(m: Mode, size: nat, from: nat, bits: nat): int {
    if m.rightToLeft then from else 8 * size - from - bits
  }

  ghost predicate ReadsAt(m: Mode, raw: nat, size: nat, from: nat, d: Decl, v: int) {
    var at := Position(m, size, from, d.bits);
    at >= 0 && Represents(d.bits, d.signed, raw / Pow2(at), v)
  }

  /** The values of fields that lie side by side, the first behind `from` bits. */
  ghost predicate SideBySide(m: Mode, raw: nat, size: nat, from: nat, ds: seq<Decl>, vs: seq<int>)
    decreases |ds|
  {
    |vs| == |ds|
    && (ds != [] ==>
          ReadsAt(m, raw, size, from, ds[0], vs[0]) && SideBySide(m, raw, size, from + ds[0].bits, ds[1..], vs[1..]))
  }

  lemma FieldOfAnOpenWord(m: Mode, src: Bytes, cursor: nat, slot: Slot, d: Decl)
    requires d.Valid() && d.size == slot.size && slot.consumed + d.bits <= 8 * slot.size
    ensures var (st, v) := ReadField(m, src, State(cursor, Some(slot)), d);
      st == State(cursor, Some(slot.(consumed := slot.consumed + d.bits)))
      && v.Some? && ReadsAt(m, slot.raw, slot.size, slot.consumed, d, v.value)
  {
    hide Represents, FieldValue, Pow2;
    var at := Position(m, slot.size, slot.consumed, d.bits);
    assert d.Width() == d.bits;
    ReducedRepresents(d, slot.raw / Pow2(at));
  }

  /** Fields of an open word lie side by side in it, and nothing more of the source is read. */
  lemma {:induction false} FieldsOfAnOpenWord(m: Mode, src: Bytes, cursor: nat, slot: Slot, ds: seq<Decl>)
    requires OneWord(ds, slot.size) && slot.consumed + TotalBits(ds) <= 8 * slot.size
    ensures var (st, vs) := ReadAll(m, src, State(cursor, Some(slot)), ds);
      st == State(cursor, Some(slot.(consumed := slot.consumed + TotalBits(ds))))
      && SideBySide(m, slot.raw, slot.size, slot.consumed, ds, vs)
    decreases |ds|
  {
    hide ReadField, ReadsAt;
    if ds != [] {
      var d, rest := ds[0], ds[1..];
      FieldOfAnOpenWord(m, src, cursor, slot, d);
      var next := slot.(consumed := slot.consumed + d.bits);
      FieldsOfAnOpenWord(m, src, cursor, next, rest);
      var v := ReadField(m, src, State(cursor, Some(slot)), d).1.value;
      var vs := ReadAll(m, src, State(cursor, Some(next)), rest).1;
      assert ([v] + vs)[1..] == vs;
    }
  }

  /**
   Fields that need a word lie in the next one of the source side by side: from its low end right to left, from
   its high end left to right, each as many bits as declared; and just that word is read.
   */
  lemma FieldsOfAWord(m: Mode, src: Bytes, st: State, ds: seq<Decl>, size: nat)
    requires ds != [] && OneWord(ds, size) && NeedsWord(ds[0], st.slot) && st.cursor + size <= |src|
    ensures var word := DecodeWord(src[st.cursor..st.cursor + size], m.little);
      var (end, vs) := ReadAll(m, src, st, ds);
      end == State(st.cursor + size, Some(Slot(size, word, TotalBits(ds))))
      && SideBySide(m, word, size, 0, ds, vs)
  {
    hide SideBySide, Pow2, DecodeWord, ReadField, ReadAll, TotalBits;
    assert TotalBits(ds) >= ds[0].bits by {
      FirstBits(ds);
    }
    var slot := Slot(size, DecodeWord(src[st.cursor..st.cursor + size], m.little), 0);
    FieldsOfAnOpenWord(m, src, st.cursor + size, slot, ds);
    OpeningRead(m, src, st, ds[0], slot);
    SameFirstRead(m, src, st, State(st.cursor + size, Some(slot)), ds);
  }

  lemma FirstBits(ds: seq<Decl>)
    requires ds != []
    ensures TotalBits(ds) >= ds[0].bits
  {
  }

  lemma SameFirstRead(m: Mode, src: Bytes, st: State, other: State, ds: seq<Decl>)
    requires ds != [] && (forall d <- ds :: d.Valid())
    requires ReadField(m, src, st, ds[0]) == ReadField(m, src, other, ds[0])
    requires ReadField(m, src, st, ds[0]).1.Some?
    ensures ReadAll(m, src, st, ds) == ReadAll(m, src, other, ds)
  {
    hide ReadField;
  }

  lemma OpeningRead(m: Mode, src: Bytes, st: State, d: Decl, slot: Slot)
    requires d.Valid() && NeedsWord(d, st.slot) && st.cursor + d.size <= |src| && d.bits <= 8 * d.size
    requires slot == Slot(d.size, DecodeWord(src[st.cursor..st.cursor + d.size], m.little), 0)
    ensures ReadField(m, src, st, d) == ReadField(m, src, State(st.cursor + d.size, Some(slot)), d)
  {
    hide Pow2, DecodeWord, FieldValue;
  }

  /** A width beyond the type reads like the whole type. */
  lemma WiderReadsWhole(m: Mode, src: Bytes, st: State, d: Decl)
    requires d.Valid() && d.bits > 8 * d.size
    ensures ReadField(m, src, st, d) == ReadField(m, src, st, d.(bits := 8 * d.size))
  {
  }

  /** The bytes of a word are its base-256 digits, from the low end or from the high end. */
  lemma WordDigits(bytes: Bytes, little: bool, i: nat)
    requires i < |bytes| <= 8
    ensures (DecodeWord(bytes, little) / Pow2(8 * (if little then i else |bytes| - 1 - i)) % 256
             == bytes[i] as nat)
    ensures DecodeWord(bytes, little) < Pow2(8 * |bytes|)
  {
    var pad := Zeros(8 - |bytes|);
    if little {
      LeDigit(bytes + pad, i);
      LeBound(bytes, 8 - |bytes|);
    } else {
      BeDigit(pad + bytes, 8 - |bytes| + i);
      BeBound(bytes, 8 - |bytes|);
    }
  }

  lemma ByteIsPow2()
    ensures Pow2(8) == 256
  {
    assert Pow2(4) == 16;
    Pow2Sum(4, 4);
  }

  lemma {:induction false} LeDigit(s: Bytes, i: nat)
    requires i < |s|
    ensures FromLe(s) / Pow2(8 * i) % 256 == s[i] as nat
    decreases |s|
  {
    var low, high := s[0] as nat, FromLe(s[1..]);
    DivideExactly(low, 256, high);
    if i > 0 {
      LeDigit(s[1..], i - 1);
      ByteIsPow2();
      Pow2Sum(8, 8 * (i - 1));
      DivideTwice(FromLe(s), 256, Pow2(8 * (i - 1)));
    } else {
      assert Pow2(0) == 1;
    }
  }

  lemma {:induction false} BeDigit(s: Bytes, i: nat)
    requires i < |s|
    ensures FromBe(s) / Pow2(8 * (|s| - 1 - i)) % 256 == s[i] as nat
    decreases |s|
  {
    var init := s[..|s| - 1];
    var low, high := s[|s| - 1] as nat, FromBe(init);
    DivideExactly(low, 256, high);
    if i < |s| - 1 {
      BeDigit(init, i);
      ByteIsPow2();
      Pow2Sum(8, 8 * (|init| - 1 - i));
      DivideTwice(FromBe(s), 256, Pow2(8 * (|init| - 1 - i)));
    } else {
      assert Pow2(0) == 1;
    }
  }

  lemma {:induction false} LeBound(s: Bytes, pad: nat)
    ensures FromLe(s + Zeros(pad)) < Pow2(8 * |s|)
    decreases |s|
  {
    if s == [] {
      assert s + Zeros(pad) == Zeros(pad);
      ZerosDecode(pad);
    } else {
      LeBound(s[1..], pad);
      assert (s + Zeros(pad))[1..] == s[1..] + Zeros(pad);
      ByteIsPow2();
      Pow2Sum(8, 8 * (|s| - 1));
      Below(s[0] as nat, 256, FromLe(s[1..] + Zeros(pad)), Pow2(8 * (|s| - 1)));
    }
  }

  lemma {:induction false} BeBound(s: Bytes, pad: nat)
    ensures FromBe(Zeros(pad) + s) < Pow2(8 * |s|)
    decreases |s|
  {
    if s == [] {
      assert Zeros(pad) + s == Zeros(pad);
      ZerosDecode(pad);
    } else {
      var init := s[..|s| - 1];
      BeBound(init, pad);
      assert (Zeros(pad) + s)[..pad + |s| - 1] == Zeros(pad) + init;
      ByteIsPow2();
      Pow2Sum(8, 8 * (|s| - 1));
      Below(s[|s| - 1] as nat, 256, FromBe(Zeros(pad) + init), Pow2(8 * (|s| - 1)));
    }
  }
}
