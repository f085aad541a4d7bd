/**
 Typing hex digits at the cursor: two presses compose one byte
 (crates/hxy-editor/src/lib.rs, crates/hxy-editor/src/input.rs).
 */
module HexTyping {
  import opened Splices
  import opened EditHistory
  import opened EditSession
  import opened EditorTheorems
  import opened EditStateObject

  newtype Nibble = n: int | 0 <= n < 16

  datatype TypeResult = Typed(completed: bool) | TypeError(error: WriteError)

  /** A byte whose high half was just typed. */
  function HighOnly(n: Nibble): Byte {
    (n as int * 16) as Byte
  }

  function WithHigh(n: Nibble, current: Byte): Byte {
    (n as int * 16 + current as int % 16) as Byte
  }

  function WithLow(current: Byte, n: Nibble): Byte {
    (current as int / 16 * 16 + n as int) as Byte
  }

  function Compose(high: Nibble, low: Nibble): Byte {
    (high as int * 16 + low as int) as Byte
  }

  /** One hex-digit press with the cursor at `offset`. */
  function TypeHex(s: Session, offset: nat, nibble: Nibble, now: nat): (Session, TypeResult) {
    if s.mode != Mutable then (s, TypeError(ReadonlyEditor))
    else if s.highNibble && (s.typingMode == Insert || offset >= |s.view|) then
      match StepInsertAt(s, offset, [HighOnly(nibble)], now)
      case (after, Failed(error)) => (after, TypeError(error))
      case (after, _) => (after.(highNibble := false), Typed(false))
    else if offset >= |s.view| then (s, Typed(false))
    else
      var current := s.view[offset];
      var newByte := if s.highNibble then WithHigh(nibble, current) else WithLow(current, nibble);
      match StepWrite(s, offset, [newByte], now)
      case (after, Failed(error)) => (after, TypeError(error))
      case (after, _) => (after.(highNibble := !s.highNibble), Typed(!s.highNibble))
  }

  /** A digit and the clock when it is pressed. */
  datatype Press = Press(nibble: Nibble, now: nat)

  /** Where the cursor is after a press: one byte on when a byte was completed, never past the end. */
  function CursorAfter(cursor: nat, result: TypeResult, len: nat): nat {
    if result == Typed(true) then Min(cursor + 1, len) else cursor
  }

  function TypeAll(s: Session, cursor: nat, presses: seq<Press>): (Session, nat)
    decreases |presses|
  {
    if presses == [] then (s, cursor)
    else
      var (after, result) := TypeHex(s, cursor, presses[0].nibble, presses[0].now);
      TypeAll(after, CursorAfter(cursor, result, |after.view|), presses[1..])
  }

  // ------------------------------------------------- typing in insert mode

  /** The bytes that pairs of digits spell. */
  function Composed(presses: seq<Press>): Bytes {
    if |presses| < 2 then []
    else [Compose(presses[0].nibble, presses[1].nibble)] + Composed(presses[2..])
  }

  /** No press comes so late after the one before it that it starts a new undo step. */
  predicate NoIdleGap(presses: seq<Press>) {
    forall i :: 0 < i < |presses| ==> presses[i].now < presses[i - 1].now + 800
  }

  /** `t` is `s` with `bytes` typed in at `at` as one undo step, ready for the next byte. */
  predicate TypedIn(s: Session, t: Session, at: nat, bytes: Bytes, lastPress: nat) {
    && at <= |s.view| && bytes != []
    && Consistent(t) && t.base == s.base
    && t.mode == Mutable && t.typingMode == Insert && !t.historyBreak && t.lastEditAt == Some(lastPress)
    && t.undo == s.undo + [EditEntry(at, [], bytes)] && t.redo == []
    && t.view == Splice(s.view, at, 0, bytes)
  }

  lemma SpliceAppend(view: Bytes, at: nat, bytes: Bytes, more: Bytes)
    requires at <= |view|
    ensures Splice(Splice(view, at, 0, bytes), at + |bytes|, 0, more) == Splice(view, at, 0, bytes + more)
  {
    var t := Splice(view, at, 0, bytes);
    assert t[..at + |bytes|] == view[..at] + bytes;
    assert t[at + |bytes|..] == view[at..];
  }

  lemma SpliceRetype(view: Bytes, at: nat, bytes: Bytes, was: Byte, full: Byte)
    requires at <= |view|
    ensures var t := Splice(view, at, 0, bytes + [was]);
      t[at + |bytes|] == was
      && Splice(t, at + |bytes|, 1, [full]) == Splice(view, at, 0, bytes + [full])
  {
    var t := Splice(view, at, 0, bytes + [was]);
    assert t[..at + |bytes|] == view[..at] + bytes;
    assert t[at + |bytes| + 1..] == view[at..];
  }

  /** The first digit after a history boundary opens the undo step. */
  lemma OpeningDigit(s: Session, at: nat, high: Nibble, now: nat)
    requires Consistent(s) && s.mode == Mutable && s.typingMode == Insert && s.highNibble && s.historyBreak
    requires at <= |s.view| && |s.undo| < UNDO_HISTORY_CAP
    ensures var (t, r) := TypeHex(s, at, high, now);
      r == Typed(false) && !t.highNibble && TypedIn(s, t, at, [HighOnly(high)], now)
  {
    hide Coherent, Replay, RedoCoherent, CountNonLp;
    var e := EditEntry(at, [], [HighOnly(high)]);
    assert Captures(s.view, e);
    RecordingIsExact(s, e, now, RecordSplice(s, e, now));
  }

  /** A digit that opens the next byte of the same undo step. */
  lemma HighDigit(s: Session, t: Session, at: nat, bytes: Bytes, last: nat, high: Nibble, now: nat)
    requires Consistent(s) && TypedIn(s, t, at, bytes, last) && t.highNibble
    requires now < last + EDIT_COALESCE_IDLE
    ensures var (u, r) := TypeHex(t, at + |bytes|, high, now);
      r == Typed(false) && !u.highNibble && TypedIn(s, u, at, bytes + [HighOnly(high)], now)
  {
    hide Coherent, Replay, RedoCoherent, CountNonLp;
    var e := EditEntry(at + |bytes|, [], [HighOnly(high)]);
    assert Captures(t.view, e);
    RecordingIsExact(t, e, now, RecordSplice(t, e, now));
    SpliceAppend(s.view, at, bytes, [HighOnly(high)]);
    assert t.undo[..|t.undo| - 1] == s.undo;
    assert Joined(t, e, now) == Some(EditEntry(at, [], bytes + [HighOnly(high)]));
  }

  /** The digit that completes it. */
  lemma LowDigit(
      s: Session, t: Session, at: nat, bytes: Bytes, last: nat, high: Nibble, low: Nibble, now: nat)
    requires Consistent(s) && TypedIn(s, t, at, bytes + [HighOnly(high)], last) && !t.highNibble
    requires now < last + EDIT_COALESCE_IDLE
    ensures var (u, r) := TypeHex(t, at + |bytes|, low, now);
      r == Typed(true) && u.highNibble && TypedIn(s, u, at, bytes + [Compose(high, low)], now)
  {
    hide Coherent, Replay, RedoCoherent, CountNonLp, Joined, Hazard;
    var pos, was, full := at + |bytes|, HighOnly(high), Compose(high, low);
    SpliceRetype(s.view, at, bytes, was, full);
    assert WithLow(was, low) == full;
    var e := Captured(t.view, pos, 1, [full]);
    assert e.oldBytes == [was];
    LowDigitJoins(s, t, at, bytes, last, was, full, now);
    RecordingIsExact(t, e, now, RecordWrite(t, e, now));
    assert t.undo[..|t.undo| - 1] == s.undo;
  }

  /** The rewrite of the half-typed byte falls under rule 2. */
  lemma LowDigitJoins(s: Session, t: Session, at: nat, bytes: Bytes, last: nat, was: Byte, full: Byte, now: nat)
    requires TypedIn(s, t, at, bytes + [was], last) && now < last + EDIT_COALESCE_IDLE
    ensures var e := EditEntry(at + |bytes|, [was], [full]);
      Joined(t, e, now) == Some(EditEntry(at, [], bytes + [full])) && !Hazard(t, e, now)
  {
    hide Coherent, Replay, RedoCoherent, CountNonLp;
    assert Overwrite(bytes + [was], |bytes|, [full]) == bytes + [full];
  }

  lemma TypedInFacts(s: Session, t: Session, at: nat, bytes: Bytes, last: nat)
    requires TypedIn(s, t, at, bytes, last)
    ensures Consistent(t) && at + |bytes| <= |t.view|
  {
  }

  /** Every state on the way is consistent. */
  predicate TypesSafely(s: Session, cursor: nat, presses: seq<Press>)
    decreases |presses|
  {
    Consistent(s) &&
    (presses == [] ||
     var (after, result) := TypeHex(s, cursor, presses[0].nibble, presses[0].now);
     TypesSafely(after, CursorAfter(cursor, result, |after.view|), presses[1..]))
  }

  /** Two presses of a run. */
  lemma TypePair(s: Session, cursor: nat, presses: seq<Press>, mid: Session, next: Session)
    requires |presses| >= 2 && cursor < |next.view|
    requires TypeHex(s, cursor, presses[0].nibble, presses[0].now) == (mid, Typed(false))
    requires TypeHex(mid, cursor, presses[1].nibble, presses[1].now) == (next, Typed(true))
    ensures TypeAll(s, cursor, presses) == TypeAll(next, cursor + 1, presses[2..])
    ensures Consistent(s) && Consistent(mid) && TypesSafely(next, cursor + 1, presses[2..]) ==>
      TypesSafely(s, cursor, presses)
  {
    hide TypeHex, Consistent;
    assert presses[1..][1..] == presses[2..];
    assert TypeAll(mid, cursor, presses[1..]) == TypeAll(next, cursor + 1, presses[2..]);
    if Consistent(mid) && TypesSafely(next, cursor + 1, presses[2..]) {
      assert TypesSafely(mid, cursor, presses[1..]);
    }
  }

  lemma TypeNothing(s: Session, cursor: nat)
    requires Consistent(s)
    ensures TypeAll(s, cursor, []) == (s, cursor) && TypesSafely(s, cursor, [])
  {
  }

  function LastPress(presses: seq<Press>, before: nat): nat {
    if presses == [] then before else presses[|presses| - 1].now
  }

  /** The two digits of one more byte. */
  lemma NextByte(s: Session, t: Session, at: nat, bytes: Bytes, last: nat, high: Press, low: Press)
    requires Consistent(s) && TypedIn(s, t, at, bytes, last) && t.highNibble
    requires high.now < last + EDIT_COALESCE_IDLE && low.now < high.now + EDIT_COALESCE_IDLE
    ensures var (mid, first) := TypeHex(t, at + |bytes|, high.nibble, high.now);
      var (next, second) := TypeHex(mid, at + |bytes|, low.nibble, low.now);
      && first == Typed(false) && second == Typed(true) && Consistent(t) && Consistent(mid)
      && TypedIn(s, next, at, bytes + [Compose(high.nibble, low.nibble)], low.now) && next.highNibble
      && at + |bytes| < |next.view|
  {
    hide *;
    var more := bytes + [Compose(high.nibble, low.nibble)];
    TypedInFacts(s, t, at, bytes, last);
    HighDigit(s, t, at, bytes, last, high.nibble, high.now);
    var mid := TypeHex(t, at + |bytes|, high.nibble, high.now).0;
    LowDigit(s, mid, at, bytes, high.now, high.nibble, low.nibble, low.now);
    var next := TypeHex(mid, at + |bytes|, low.nibble, low.now).0;
    TypedInFacts(s, mid, at, bytes + [HighOnly(high.nibble)], high.now);
    TypedInFacts(s, next, at, more, low.now);
  }

  lemma ComposedPair(bytes: Bytes, presses: seq<Press>, last: nat)
    requires |presses| >= 2
    ensures bytes + [Compose(presses[0].nibble, presses[1].nibble)] + Composed(presses[2..]) == bytes + Composed(presses)
    ensures LastPress(presses[2..], presses[1].now) == LastPress(presses, last)
  {
    var first := [Compose(presses[0].nibble, presses[1].nibble)];
    assert Composed(presses) == first + Composed(presses[2..]);
    hide Composed;
    assert bytes + first + Composed(presses[2..]) == bytes + (first + Composed(presses[2..]));
  }

  lemma NoGapPair(presses: seq<Press>)
    requires |presses| >= 2 && NoIdleGap(presses)
    ensures NoIdleGap(presses[2..]) && presses[1].now < presses[0].now + EDIT_COALESCE_IDLE
    ensures |presses| > 2 ==> presses[2..][0].now < presses[1].now + EDIT_COALESCE_IDLE
  {
  }

  /** Whole bytes typed on after the first. */
  lemma {:induction false} FurtherBytes(
      s: Session, t: Session, at: nat, bytes: Bytes, last: nat, presses: seq<Press>)
    requires Consistent(s) && TypedIn(s, t, at, bytes, last) && t.highNibble
    requires |presses| % 2 == 0 && NoIdleGap(presses)
    requires presses != [] ==> presses[0].now < last + EDIT_COALESCE_IDLE
    ensures var (u, cursor) := TypeAll(t, at + |bytes|, presses);
      && TypedIn(s, u, at, bytes + Composed(presses), LastPress(presses, last))
      && cursor == at + |bytes + Composed(presses)| && u.highNibble
    ensures TypesSafely(t, at + |bytes|, presses)
    decreases |presses|
  {
    hide TypedIn, Consistent, TypeHex, TypeAll, TypesSafely, NoIdleGap;
    TypedInFacts(s, t, at, bytes, last);
    if presses == [] {
      TypeNothing(t, at + |bytes|);
      assert bytes + [] == bytes;
    } else {
      hide Composed, LastPress;
      var high, low, rest := presses[0], presses[1], presses[2..];
      var more := bytes + [Compose(high.nibble, low.nibble)];
      NoGapPair(presses);
      NextByte(s, t, at, bytes, last, high, low);
      var mid := TypeHex(t, at + |bytes|, high.nibble, high.now).0;
      var next := TypeHex(mid, at + |bytes|, low.nibble, low.now).0;
      TypePair(t, at + |bytes|, presses, mid, next);
      FurtherBytes(s, next, at, more, low.now, rest);
      ComposedPair(bytes, presses, last);
    }
  }

  /**
   Typing 2n digits in insert mode after a history boundary and without an idle gap
   is one splice of the n composed bytes, leaves the cursor n bytes on, and is one
   undo step that restores the original bytes.
   */
  lemma TypingIsOneSplice(s: Session, at: nat, presses: seq<Press>)
    requires Consistent(s) && s.mode == Mutable && s.typingMode == Insert && s.highNibble && s.historyBreak
    requires at <= |s.view| && |s.undo| < UNDO_HISTORY_CAP
    requires |presses| % 2 == 0 && presses != [] && NoIdleGap(presses)
    ensures var (u, cursor) := TypeAll(s, at, presses);
      && Consistent(u) && u.highNibble
      && u.view == Splice(s.view, at, 0, Composed(presses))
      && cursor == at + |presses| / 2
      && u.undo == s.undo + [EditEntry(at, [], Composed(presses))]
      && StepUndo(u).0.view == s.view && StepUndo(u).0.undo == s.undo
    ensures TypesSafely(s, at, presses)
  {
    hide TypedIn, TypeHex, TypeAll, TypesSafely, Replay, Coherent, RedoCoherent, CountNonLp;
    var high, low, rest := presses[0], presses[1], presses[2..];
    var first: Bytes := [Compose(high.nibble, low.nibble)];
    OpeningDigit(s, at, high.nibble, high.now);
    var mid := TypeHex(s, at, high.nibble, high.now).0;
    assert [] + [HighOnly(high.nibble)] == [HighOnly(high.nibble)] && [] + first == first;
    LowDigit(s, mid, at, [], high.now, high.nibble, low.nibble, low.now);
    var next := TypeHex(mid, at, low.nibble, low.now).0;
    TypedInFacts(s, mid, at, [HighOnly(high.nibble)], high.now);
    TypedInFacts(s, next, at, first, low.now);
    TypePair(s, at, presses, mid, next);
    FurtherBytes(s, next, at, first, low.now, rest);
    ComposedLength(presses);
    TypedUndone(s, TypeAll(s, at, presses).0, at, Composed(presses), LastPress(rest, low.now));
  }

  lemma {:induction false} ComposedLength(presses: seq<Press>)
    requires |presses| % 2 == 0
    ensures |Composed(presses)| == |presses| / 2
    decreases |presses|
  {
    if presses != [] {
      ComposedLength(presses[2..]);
    }
  }

  lemma TypedUndone(s: Session, u: Session, at: nat, bytes: Bytes, last: nat)
    requires Consistent(s) && TypedIn(s, u, at, bytes, last)
    ensures StepUndo(u).0.view == s.view && StepUndo(u).0.undo == s.undo
    ensures u.view == Splice(s.view, at, 0, bytes) && u.undo == s.undo + [EditEntry(at, [], bytes)] && Consistent(u)
  {
    assert u.undo[..|u.undo| - 1] == s.undo;
  }

  // ------------------------------------------------ typing in replace mode

  /** A high digit in replace mode makes the byte's high half the digit and leaves its low half and all other bytes. */
  lemma HighPressReplaces(s: Session, offset: nat, nibble: Nibble, now: nat)
    requires Consistent(s) && s.mode == Mutable && s.typingMode == Replace && s.highNibble
    requires offset < |s.view| && |s.undo| < UNDO_HISTORY_CAP
    ensures var (t, r) := TypeHex(s, offset, nibble, now);
      && r == Typed(false) && !t.highNibble && Consistent(t) && |t.view| == |s.view|
      && t.view[offset] as int / 16 == nibble as int && t.view[offset] % 16 == s.view[offset] % 16
      && forall k :: 0 <= k < |s.view| && k != offset ==> t.view[k] == s.view[k]
  {
    hide Consistent, StepWrite, WithHigh;
    HighHalves(nibble, s.view[offset]);
    WritesOneByte(s, offset, WithHigh(nibble, s.view[offset]), now);
  }

  lemma HighHalves(n: Nibble, current: Byte)
    ensures WithHigh(n, current) as int / 16 == n as int && WithHigh(n, current) % 16 == current % 16
  {
  }

  /** A high digit in insert mode, or at the end, puts in a byte with the digit in its high half and nothing in its low. */
  lemma HighPressInserts(s: Session, offset: nat, nibble: Nibble, now: nat)
    requires Consistent(s) && s.mode == Mutable && s.highNibble && (s.typingMode == Insert || offset == |s.view|)
    requires offset <= |s.view| && |s.undo| < UNDO_HISTORY_CAP
    requires !Hazard(s, EditEntry(offset, [], [(nibble as int * 16) as Byte]), now)
    ensures var (t, r) := TypeHex(s, offset, nibble, now);
      r == Typed(false) && !t.highNibble && Consistent(t)
      && t.view == Splice(s.view, offset, 0, [(nibble as int * 16) as Byte])
  {
    hide Coherent, Replay, RedoCoherent, CountNonLp, Hazard;
    var e := EditEntry(offset, [], [HighOnly(nibble)]);
    assert Captures(s.view, e);
    RecordingIsExact(s, e, now, RecordSplice(s, e, now));
  }

  /** A low digit, in either mode, makes the low half the digit and leaves the high half and all other bytes. */
  lemma LowPressReplaces(s: Session, offset: nat, nibble: Nibble, now: nat)
    requires Consistent(s) && s.mode == Mutable && !s.highNibble
    requires offset < |s.view| && |s.undo| < UNDO_HISTORY_CAP
    ensures var (t, r) := TypeHex(s, offset, nibble, now);
      && r == Typed(true) && t.highNibble && Consistent(t) && |t.view| == |s.view|
      && t.view[offset] % 16 == nibble as Byte && t.view[offset] / 16 == s.view[offset] / 16
      && forall k :: 0 <= k < |s.view| && k != offset ==> t.view[k] == s.view[k]
  {
    hide Consistent, StepWrite, WithLow;
    LowHalves(s.view[offset], nibble);
    WritesOneByte(s, offset, WithLow(s.view[offset], nibble), now);
  }

  lemma LowHalves(current: Byte, n: Nibble)
    ensures WithLow(current, n) % 16 == n as Byte && WithLow(current, n) / 16 == current / 16
  {
  }

  lemma WritesOneByte(s: Session, offset: nat, byte: Byte, now: nat)
    requires Consistent(s) && s.mode == Mutable && offset < |s.view| && |s.undo| < UNDO_HISTORY_CAP
    ensures var (t, r) := StepWrite(s, offset, [byte], now);
      && r == Done && Consistent(t) && t.view == Overwrite(s.view, offset, [byte]) && t.mode == Mutable
      && |t.view| == |s.view| && t.view[offset] == byte
      && (forall k :: 0 <= k < |s.view| && k != offset ==> t.view[k] == s.view[k])
      && forall high :: Consistent(t.(highNibble := high))
  {
    hide Consistent, Replay, CountNonLp, Joined, Overwrite, Splice;
    var e := Captured(s.view, offset, 1, [byte]);
    var t := RecordWrite(s, e, now);
    CapturesTheByte(s.view, offset, byte);
    NoHazard(s, offset, byte, now);
    RecordingIsExact(s, e, now, t);
    forall k | 0 <= k < |s.view|
      ensures t.view[k] == if k == offset then byte else s.view[k]
    {
      OverwriteAt(s.view, offset, [byte], k);
    }
    forall high
      ensures Consistent(t.(highNibble := high))
    {
      SameHistoryConsistent(t, t.(highNibble := high));
    }
  }

  lemma CapturesTheByte(view: Bytes, offset: nat, byte: Byte)
    requires offset < |view|
    ensures var e := Captured(view, offset, 1, [byte]);
      Captures(view, e) && Fits(view, e) && Apply(view, e) == Overwrite(view, offset, [byte])
      && e.oldBytes == [view[offset]]
  {
  }

  lemma NoHazard(s: Session, offset: nat, byte: Byte, now: nat)
    requires offset < |s.view| && |s.undo| < UNDO_HISTORY_CAP
    ensures !Hazard(s, Captured(s.view, offset, 1, [byte]), now)
  {
  }

  /** `t` is `s` with `bytes` typed over those at `at` as one undo step. */
  predicate TypedOver(s: Session, t: Session, at: nat, bytes: Bytes, lastPress: nat) {
    && bytes != [] && at + |bytes| <= |s.view|
    && Consistent(t) && t.base == s.base
    && t.mode == Mutable && t.typingMode == Replace && !t.historyBreak && t.lastEditAt == Some(lastPress)
    && t.undo == s.undo + [EditEntry(at, s.view[at..at + |bytes|], bytes)] && t.redo == []
    && t.view == Overwrite(s.view, at, bytes)
  }

  /** Overwriting the byte behind those typed, or the last of them, stays in the same undo step. */
  lemma OverwriteJoins(s: Session, t: Session, at: nat, bytes: Bytes, last: nat, more: Bytes, byte: Byte, now: nat)
    requires Consistent(s) && TypedOver(s, t, at, bytes, last) && now < last + EDIT_COALESCE_IDLE
    requires more == bytes || more + [bytes[|bytes| - 1]] == bytes
    requires at + |more| < |s.view|
    ensures var (u, r) := StepWrite(t, at + |more|, [byte], now);
      r == Done && forall high :: TypedOver(s, u.(highNibble := high), at, more + [byte], now)
  {
    hide Coherent, Replay, RedoCoherent, CountNonLp, Coalesced, Overwrite;
    var pos := at + |more|;
    var e := Captured(t.view, pos, 1, [byte]);
    var m := EditEntry(at, s.view[at..at + |more| + 1], more + [byte]);
    OverwriteFolds(s.view, at, bytes, more, byte);
    assert Joined(t, e, now) == Some(m);
    RecordingIsExact(t, e, now, RecordWrite(t, e, now));
    assert Apply(t.view, e) == Overwrite(t.view, pos, [byte]) by {
      OverwriteIsApply(t.view, e);
    }
    assert t.undo[..|t.undo| - 1] == s.undo;
  }

  lemma OverwriteIsApply(view: Bytes, e: EditEntry)
    requires Fits(view, e) && e.LengthPreserving()
    ensures Apply(view, e) == Overwrite(view, e.offset, e.newBytes)
  {
  }

  lemma OverwriteFolds(view: Bytes, at: nat, bytes: Bytes, more: Bytes, byte: Byte)
    requires bytes != [] && (more == bytes || more + [bytes[|bytes| - 1]] == bytes) && at + |more| < |view|
    ensures var t, pos := Overwrite(view, at, bytes), at + |more|;
      && Coalesced(EditEntry(at, view[at..at + |bytes|], bytes), Captured(t, pos, 1, [byte]))
         == Some(EditEntry(at, view[at..at + |more| + 1], more + [byte]))
      && Overwrite(t, pos, [byte]) == Overwrite(view, at, more + [byte])
  {
    hide Overwrite, OverwriteUnion, Coalesced;
    var t, pos := Overwrite(view, at, bytes), at + |more|;
    OverwriteTwice(view, at, bytes, pos, [byte]);
    OverwriteAt(view, at, bytes, pos);
    UnionOfOneMore(at, bytes, more, byte);
    assert Captured(t, pos, 1, [byte]) == EditEntry(pos, [t[pos]], [byte]);
    if more == bytes {
      FoldsBehind(at, view[at..at + |bytes|], bytes, view[pos], byte);
      assert view[at..at + |bytes|] + [view[pos]] == view[at..at + |more| + 1];
    } else {
      FoldsLast(at, view[at..at + |bytes|], more, bytes[|bytes| - 1], t[pos], byte);
    }
  }

  /** Rule 1 for one byte behind the entry. */
  lemma FoldsBehind(at: nat, before: Bytes, bytes: Bytes, was: Byte, byte: Byte)
    requires |before| == |bytes|
    ensures (Coalesced(EditEntry(at, before, bytes), EditEntry(at + |bytes|, [was], [byte]))
             == Some(EditEntry(at, before + [was], bytes + [byte])))
  {
    var dst, next := EditEntry(at, before, bytes), EditEntry(at + |bytes|, [was], [byte]);
    assert OverwriteUnion(at, bytes, at + |bytes|, [byte]) == bytes + [byte];
    hide OverwriteUnion;
    assert Merged(dst, next).oldBytes == before + [was];
  }

  /** And for its last byte. */
  lemma FoldsLast(at: nat, before: Bytes, more: Bytes, last: Byte, was: Byte, byte: Byte)
    requires |before| == |more| + 1
    ensures (Coalesced(EditEntry(at, before, more + [last]), EditEntry(at + |more|, [was], [byte]))
             == Some(EditEntry(at, before, more + [byte])))
  {
    assert OverwriteUnion(at, more + [last], at + |more|, [byte]) == more + [byte];
    hide OverwriteUnion;
    var dst, next := EditEntry(at, before, more + [last]), EditEntry(at + |more|, [was], [byte]);
    assert Merged(dst, next).oldBytes == before;
  }


  lemma UnionOfOneMore(at: nat, bytes: Bytes, more: Bytes, byte: Byte)
    requires bytes != [] && (more == bytes || more + [bytes[|bytes| - 1]] == bytes)
    ensures OverwriteUnion(at, bytes, at + |more|, [byte]) == more + [byte]
  {
  }

  /** The two digits of one more byte. */
  lemma NextOver(s: Session, t: Session, at: nat, bytes: Bytes, last: nat, high: Press, low: Press)
    requires Consistent(s) && TypedOver(s, t, at, bytes, last) && t.highNibble && at + |bytes| < |s.view|
    requires high.now < last + EDIT_COALESCE_IDLE && low.now < high.now + EDIT_COALESCE_IDLE
    ensures var (mid, first) := TypeHex(t, at + |bytes|, high.nibble, high.now);
      var (next, second) := TypeHex(mid, at + |bytes|, low.nibble, low.now);
      && first == Typed(false) && second == Typed(true) && Consistent(t) && Consistent(mid)
      && TypedOver(s, next, at, bytes + [Compose(high.nibble, low.nibble)], low.now) && next.highNibble
      && at + |bytes| < |next.view|
  {
    hide Consistent, StepWrite;
    var pos := at + |bytes|;
    var half := WithHigh(high.nibble, t.view[pos]);
    OverwriteJoins(s, t, at, bytes, last, bytes, half, high.now);
    var mid := TypeHex(t, pos, high.nibble, high.now).0;
    assert TypedOver(s, mid, at, bytes + [half], high.now) && mid.view[pos] == half;
    OverwriteJoins(s, mid, at, bytes + [half], high.now, bytes, WithLow(half, low.nibble), low.now);
    assert WithLow(half, low.nibble) == Compose(high.nibble, low.nibble);
  }

  /** The two digits of the first byte, after a history boundary. */
  lemma FirstOver(s: Session, at: nat, high: Press, low: Press)
    requires Consistent(s) && s.mode == Mutable && s.typingMode == Replace && s.highNibble && s.historyBreak
    requires at < |s.view| && |s.undo| < UNDO_HISTORY_CAP && low.now < high.now + EDIT_COALESCE_IDLE
    ensures var (mid, first) := TypeHex(s, at, high.nibble, high.now);
      var (next, second) := TypeHex(mid, at, low.nibble, low.now);
      && first == Typed(false) && second == Typed(true) && Consistent(mid)
      && TypedOver(s, next, at, [Compose(high.nibble, low.nibble)], low.now) && next.highNibble
      && at < |next.view|
  {
    hide Consistent, StepWrite, Overwrite;
    var half := WithHigh(high.nibble, s.view[at]);
    var mid := TypeHex(s, at, high.nibble, high.now).0;
    OpensStep(s, at, half, high.now);
    assert [] + [half] == [half];
    OverwriteJoins(s, mid, at, [half], high.now, [], WithLow(half, low.nibble), low.now);
    assert [] + [WithLow(half, low.nibble)] == [Compose(high.nibble, low.nibble)];
  }

  /** The first byte written after a history boundary opens an undo step. */
  lemma OpensStep(s: Session, at: nat, byte: Byte, now: nat)
    requires Consistent(s) && s.mode == Mutable && s.typingMode == Replace && s.historyBreak
    requires at < |s.view| && |s.undo| < UNDO_HISTORY_CAP
    ensures var (t, r) := StepWrite(s, at, [byte], now);
      r == Done && t.mode == Mutable && t.typingMode == Replace && |t.view| == |s.view| && t.view[at] == byte
      && forall high :: TypedOver(s, t.(highNibble := high), at, [byte], now) && Consistent(t.(highNibble := high))
  {
    hide Coherent, Replay, RedoCoherent, CountNonLp;
    WritesOneByte(s, at, byte, now);
  }

  /** Whole bytes typed on after the first. */
  lemma {:induction false} FurtherOver(
      s: Session, t: Session, at: nat, bytes: Bytes, last: nat, presses: seq<Press>)
    requires Consistent(s) && TypedOver(s, t, at, bytes, last) && t.highNibble
    requires |presses| % 2 == 0 && NoIdleGap(presses) && at + |bytes| + |presses| / 2 <= |s.view|
    requires presses != [] ==> presses[0].now < last + EDIT_COALESCE_IDLE
    ensures var (u, cursor) := TypeAll(t, at + |bytes|, presses);
      && TypedOver(s, u, at, bytes + Composed(presses), LastPress(presses, last))
      && cursor == at + |bytes + Composed(presses)| && u.highNibble
    ensures TypesSafely(t, at + |bytes|, presses)
    decreases |presses|
  {
    hide Consistent, TypeHex, TypeAll, TypesSafely, NoIdleGap;
    if presses == [] {
      TypeNothing(t, at + |bytes|);
      assert bytes + [] == bytes;
    } else {
      hide Composed, LastPress, TypedOver;
      var high, low, rest := presses[0], presses[1], presses[2..];
      var more := bytes + [Compose(high.nibble, low.nibble)];
      NoGapPair(presses);
      NextOver(s, t, at, bytes, last, high, low);
      var mid := TypeHex(t, at + |bytes|, high.nibble, high.now).0;
      var next := TypeHex(mid, at + |bytes|, low.nibble, low.now).0;
      TypePair(t, at + |bytes|, presses, mid, next);
      FurtherOver(s, next, at, more, low.now, rest);
      ComposedPair(bytes, presses, last);
    }
  }

  /**
   Typing 2n digits in replace mode over n bytes, after a history boundary and without an idle gap, overwrites them
   with the n composed bytes, leaves the cursor behind them, and is one undo step that restores what they were.
   */
  lemma TypingIsOneOverwrite(s: Session, at: nat, presses: seq<Press>)
    requires Consistent(s) && s.mode == Mutable && s.typingMode == Replace && s.highNibble && s.historyBreak
    requires at + |presses| / 2 <= |s.view| && |s.undo| < UNDO_HISTORY_CAP
    requires |presses| % 2 == 0 && presses != [] && NoIdleGap(presses)
    ensures var (u, cursor) := TypeAll(s, at, presses);
      && Consistent(u) && u.highNibble && |Composed(presses)| == |presses| / 2
      && u.view == Overwrite(s.view, at, Composed(presses))
      && cursor == at + |presses| / 2
      && u.undo == s.undo + [EditEntry(at, s.view[at..at + |presses| / 2], Composed(presses))]
      && StepUndo(u).0.view == s.view && StepUndo(u).0.undo == s.undo
    ensures TypesSafely(s, at, presses)
  {
    hide *;
    var high, low, rest := presses[0], presses[1], presses[2..];
    var first: Bytes := [Compose(high.nibble, low.nibble)];
    NoGapPair(presses);
    FirstOver(s, at, high, low);
    var mid := TypeHex(s, at, high.nibble, high.now).0;
    var next := TypeHex(mid, at, low.nibble, low.now).0;
    TypePair(s, at, presses, mid, next);
    TypedOverUndone(s, next, at, first, low.now);
    FurtherOver(s, next, at, first, low.now, rest);
    ComposedPair([], presses, low.now);
    ComposedLength(presses);
    assert [] + first == first && [] + Composed(presses) == Composed(presses);
    TypedOverUndone(s, TypeAll(s, at, presses).0, at, Composed(presses), LastPress(rest, low.now));
  }

  lemma TypedOverUndone(s: Session, u: Session, at: nat, bytes: Bytes, last: nat)
    requires Consistent(s) && TypedOver(s, u, at, bytes, last)
    ensures StepUndo(u).0.view == s.view && StepUndo(u).0.undo == s.undo && Consistent(u)
    ensures at + |bytes| <= |s.view| && u.view == Overwrite(s.view, at, bytes)
    ensures u.undo == s.undo + [EditEntry(at, s.view[at..at + |bytes|], bytes)]
  {
    assert u.undo[..|u.undo| - 1] == s.undo;
  }

  /** The bytes typed, digit by digit. */
  lemma {:induction false} ComposedHalves(presses: seq<Press>, i: nat)
    requires 2 * i + 1 < |presses|
    ensures i < |Composed(presses)|
    ensures Composed(presses)[i] as int == presses[2 * i].nibble as int * 16 + presses[2 * i + 1].nibble as int
    decreases |presses|
  {
    var first, rest := Compose(presses[0].nibble, presses[1].nibble), presses[2..];
    assert Composed(presses) == [first] + Composed(rest);
    hide Composed;
    if i > 0 {
      assert rest[2 * (i - 1)] == presses[2 * i] && rest[2 * (i - 1) + 1] == presses[2 * i + 1];
      hide Compose;
      ComposedHalves(rest, i - 1);
    }
  }

  // --------------------------------------------------------- the widget

  datatype Selection = Selection(anchor: nat, cursor: nat)

  class HexEditor {
    const edit: EditState
    var selection: Option<Selection>
    var lastCursorOffset: Option<nat>

    constructor (source: Bytes)
      ensures fresh(edit) && edit.Valid() && edit.Abs() == Fresh(source)
      ensures selection == None && lastCursorOffset == None
    {
      edit := new EditState(source);
      selection, lastCursorOffset := None, None;
    }

    /** One press; `completed` asks the caller to move the cursor on. */
    method TypeHexDigit(nibble: Nibble, now: nat) returns (r: TypeResult)
      requires edit.Valid()
      modifies edit
      ensures edit.Usable() && (edit.Valid() <==> Consistent(edit.Abs()))
      ensures selection.Some? ==> (edit.Abs(), r) == TypeHex(old(edit.Abs()), selection.value.cursor, nibble, now)
      ensures selection.None? ==> edit.Abs() == old(edit.Abs()) && r.TypeError? == (edit.mode != Mutable)
    {
      hide Consistent, StepInsertAt, StepWrite, ExactUnlessHazard, Captured;
      if edit.mode != Mutable {
        return TypeError(ReadonlyEditor);
      }
      if selection.None? {
        return Typed(false);
      }
      var offset := selection.value.cursor;
      var sourceLen := edit.SourceLen();
      if edit.editHighNibble && (edit.typingMode == Insert || offset >= sourceLen) {
        var inserted := edit.InsertAt(offset, [HighOnly(nibble)], now);
        if inserted.Failed? {
          return TypeError(inserted.error);
        }
        SameHistoryConsistent(edit.Abs(), edit.Abs().(highNibble := false));
        edit.editHighNibble := false;
        return Typed(false);
      }
      if offset >= sourceLen {
        return Typed(false);
      }
      var current := edit.ReadByteAt(offset);
      var newByte :=
        if edit.editHighNibble then WithHigh(nibble, current.value) else WithLow(current.value, nibble);
      var advanced := !edit.editHighNibble;
      var written := edit.RequestWrite(offset, [newByte], now);
      if written.Failed? {
        return TypeError(written.error);
      }
      SameHistoryConsistent(edit.Abs(), edit.Abs().(highNibble := advanced));
      edit.editHighNibble := advanced;
      r := Typed(advanced);
    }

    /** Step the cursor one byte on, never past the end, and drop any selection. */
    method AdvanceCursorByte()
      requires edit.Usable()
      modifies this`selection
      ensures selection == if old(selection).None? then None else
        var next := Min(old(selection).value.cursor + 1, |edit.View()|);
        Some(Selection(next, next))
    {
      if selection.Some? {
        var sourceLen := edit.SourceLen();
        var next := Min(selection.value.cursor + 1, sourceLen);
        selection := Some(Selection(next, next));
      }
    }

    /** The frame-begin check: a cursor moved from outside starts a new byte and a new undo step. */
    method NoticeCursorMove()
      requires edit.Valid()
      modifies this`lastCursorOffset, edit
      ensures edit.Valid() && edit.Abs() == Noticed(old(edit.Abs()), selection, old(lastCursorOffset))
      ensures lastCursorOffset == CursorOf(selection)
    {
      var current := CursorOf(selection);
      if current != lastCursorOffset {
        edit.ResetEditNibble();
        edit.PushHistoryBoundary();
        lastCursorOffset := current;
      }
    }

    /** One frame's batch of digit presses at a placed cursor. */
    method ApplyHexPresses(presses: seq<Press>)
      requires edit.Valid() && selection.Some?
      requires TypesSafely(Noticed(edit.Abs(), selection, lastCursorOffset), selection.value.cursor, presses)
      modifies this, edit
      ensures edit.Valid() && selection.Some?
      ensures (edit.Abs(), selection.value.cursor)
        == TypeAll(
             Noticed(old(edit.Abs()), old(selection), old(lastCursorOffset)), old(selection).value.cursor, presses)
      ensures lastCursorOffset == CursorOf(selection)
    {
      hide Consistent, TypeHex;
      NoticeCursorMove();
      ghost var start, at := edit.Abs(), selection.value.cursor;
      var k := 0;
      while k < |presses|
        invariant 0 <= k <= |presses| && edit.Valid() && selection.Some?
        invariant TypesSafely(edit.Abs(), selection.value.cursor, presses[k..])
        invariant TypeAll(start, at, presses) == TypeAll(edit.Abs(), selection.value.cursor, presses[k..])
      {
        assert presses[k..][1..] == presses[k + 1..];
        var result := TypeHexDigit(presses[k].nibble, presses[k].now);
        if result == Typed(true) {
          AdvanceCursorByte();
        }
        k := k + 1;
      }
      lastCursorOffset := CursorOf(selection);
    }
  }

  function CursorOf(selection: Option<Selection>): Option<nat> {
    if selection.None? then None else Some(selection.value.cursor)
  }

  function Noticed(s: Session, selection: Option<Selection>, last: Option<nat>): Session {
    if CursorOf(selection) == last then s else s.(highNibble := true, historyBreak := true)
  }
}
