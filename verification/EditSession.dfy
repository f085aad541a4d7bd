/**
 What every editor command does to the editor's logical state: the patched bytes,
 the two stacks and the bookkeeping that drives coalescing
 (crates/hxy-editor/src/editor.rs, crates/hxy-editor/src/lib.rs).
 */
module EditSession {
  import opened Splices
  import opened EditHistory
  import opened PatchOverlay

  const UNDO_HISTORY_CAP: nat := 1000
  /** Milliseconds after which a new edit no longer joins the previous one. */
  const EDIT_COALESCE_IDLE: nat := 800

  datatype EditMode = Readonly | Mutable
  datatype TypingMode = Replace | Insert

  datatype WriteError =
    | ReadonlyEditor
    | OutOfBounds(offset: nat, len: nat, sourceLen: nat)
    | Rejected

  /** The logical state. `view` is what the patched source delivers. */
  datatype Session = Session(
    base: Bytes,
    view: Bytes,
    mode: EditMode,
    typingMode: TypingMode,
    highNibble: bool,
    undo: seq<EditEntry>,
    redo: seq<EditEntry>,
    historyBreak: bool,
    lastEditAt: Option<nat>,
    nonLp: nat,
    revision: nat)

  /** The undo stack is the truth: everything else is derived from it or agrees with it. */
  predicate Consistent(s: Session) {
    && Coherent(s.base, s.undo)
    && s.view == Replay(s.base, s.undo)
    && RedoCoherent(s.view, s.redo)
    && s.nonLp == CountNonLp(s.undo)
    && |s.undo| + |s.redo| <= UNDO_HISTORY_CAP
  }

  lemma NoHistoryIsConsistent(s: Session)
    requires s.undo == [] && s.redo == [] && s.nonLp == 0 && s.view == s.base
    ensures Consistent(s)
  {
  }

  function Fresh(base: Bytes): (s: Session)
    ensures Consistent(s)
  {
    Session(base, base, Mutable, Replace, true, [], [], false, None, 0, 0)
  }

  // ------------------------------------------------------ recording an edit

  predicate Idle(s: Session, now: nat) {
    s.lastEditAt.Some? && now >= s.lastEditAt.value + EDIT_COALESCE_IDLE
  }

  function Last(stack: seq<EditEntry>): EditEntry
    requires stack != []
  {
    stack[|stack| - 1]
  }

  /** The rewritten last entry, when `e` joins it. */
  function Joined(s: Session, e: EditEntry, now: nat): Option<EditEntry> {
    if s.historyBreak || Idle(s, now) || s.undo == [] then None else Coalesced(Last(s.undo), e)
  }

  /** The stack with a separate entry pushed; a full history drops its oldest entry. */
  function PushedUndo(undo: seq<EditEntry>, e: EditEntry): seq<EditEntry> {
    if |undo| + 1 > UNDO_HISTORY_CAP then (undo + [e])[1..] else undo + [e]
  }

  function PushedNonLp(undo: seq<EditEntry>, nonLp: nat, e: EditEntry): nat {
    var pushed := if e.LengthPreserving() then nonLp else nonLp + 1;
    if |undo| + 1 > UNDO_HISTORY_CAP && !(undo + [e])[0].LengthPreserving() && pushed > 0
    then pushed - 1 else pushed
  }

  function RecordedUndo(s: Session, e: EditEntry, now: nat): (r: seq<EditEntry>)
    ensures r != []
  {
    match Joined(s, e, now)
    case Some(m) => s.undo[..|s.undo| - 1] + [m]
    case None => PushedUndo(s.undo, e)
  }

  function RecordedNonLp(s: Session, e: EditEntry, now: nat): nat {
    match Joined(s, e, now)
    case Some(_) => s.nonLp
    case None => PushedNonLp(s.undo, s.nonLp, e)
  }

  /** Bookkeeping for one captured edit; the patched bytes follow separately. */
  function Record(s: Session, e: EditEntry, now: nat): Session {
    s.(undo := RecordedUndo(s, e, now),
       redo := [],
       historyBreak := false,
       lastEditAt := Some(now),
       nonLp := RecordedNonLp(s, e, now),
       revision := s.revision + 1)
  }

  /** The patched bytes re-derived from the undo stack. */
  function Rebuilt(s: Session): Session {
    s.(view := Replay(s.base, s.undo))
  }

  /** An in-place write: straight into the patch while no entry shifts offsets. */
  function RecordWrite(s: Session, e: EditEntry, now: nat): Session
    requires Fits(s.view, e)
  {
    var r := Record(s, e, now);
    if s.nonLp == 0 && r.nonLp == 0 then r.(view := Apply(s.view, e)) else Rebuilt(r)
  }

  function RecordSplice(s: Session, e: EditEntry, now: nat): Session {
    Rebuilt(Record(s, e, now))
  }

  /**
   The two situations in which recording an edit goes wrong: the full history
   drops an entry that changed something, or an entry that was empty on both
   sides grows without being counted as resizing.
   */
  predicate Hazard(s: Session, e: EditEntry, now: nat) {
    match Joined(s, e, now)
    case Some(_) => s.undo != [] && GrowsEmptyEntry(Last(s.undo), e)
    case None =>
      |s.undo| + 1 > UNDO_HISTORY_CAP && (s.undo + [e])[0].oldBytes != (s.undo + [e])[0].newBytes
  }

  /** An edit that replaces `remove` bytes of the view at `offset`. */
  function Captured(view: Bytes, offset: nat, remove: nat, insert: Bytes): EditEntry
    requires offset + remove <= |view|
  {
    EditEntry(offset, view[offset..offset + remove], insert)
  }

  lemma JoinKeepsTruth(s: Session, e: EditEntry, now: nat)
    requires Consistent(s) && Captures(s.view, e) && Joined(s, e, now).Some?
    ensures var undo := RecordedUndo(s, e, now);
      && Coherent(s.base, undo) && Replay(s.base, undo) == Apply(s.view, e)
      && (RecordedNonLp(s, e, now) == CountNonLp(undo) <==> !Hazard(s, e, now))
  {
    var init, last, m := s.undo[..|s.undo| - 1], Last(s.undo), Joined(s, e, now).value;
    assert s.undo == init + [last];
    ReplayPush(s.base, init, last);
    ReplayPush(s.base, init, m);
    CoalescingPreservesMeaning(Replay(s.base, init), last, e);
    CoalescingKeepsKind(last, e);
  }

  lemma CountDropsOldest(stack: seq<EditEntry>)
    requires stack != []
    ensures CountNonLp(stack) == CountNonLp(stack[1..]) + (if stack[0].LengthPreserving() then 0 else 1)
  {
    var oldest: seq<EditEntry> := [stack[0]];
    assert stack == oldest + stack[1..];
    ReplaySplit([], oldest, stack[1..]);
    assert oldest[..0] == [];
    assert CountNonLp(oldest) == (if stack[0].LengthPreserving() then 0 else 1);
  }

  lemma PushKeepsTruth(s: Session, e: EditEntry, now: nat)
    requires Consistent(s) && Captures(s.view, e) && Joined(s, e, now).None?
    ensures var undo := RecordedUndo(s, e, now);
      (Coherent(s.base, undo) && Replay(s.base, undo) == Apply(s.view, e)
        && RecordedNonLp(s, e, now) == CountNonLp(undo))
      <==> !Hazard(s, e, now)
  {
    hide RedoCoherent, Coherent, Replay, CountNonLp;
    var pushed := s.undo + [e];
    ReplayPush(s.base, s.undo, e);
    if |pushed| > UNDO_HISTORY_CAP {
      DroppingOldest(s.base, pushed);
      CountDropsOldest(pushed);
    }
  }

  /** The state is valid and shows the edit just when no hazard is met. */
  predicate ExactUnlessHazard(valid: bool, after: Bytes, s: Session, e: EditEntry, now: nat) {
    valid && after == Apply(s.view, e) <==> !Hazard(s, e, now)
  }

  /**
   Recording an edit keeps the state consistent and changes the bytes by exactly
   that edit if, and only if, neither hazard is met: on the fast path and on the
   rebuild path alike.
   */
  lemma RecordingIsExact(s: Session, e: EditEntry, now: nat, after: Session)
    requires Consistent(s) && Captures(s.view, e)
    requires after == RecordWrite(s, e, now) || after == RecordSplice(s, e, now)
    ensures ExactUnlessHazard(Consistent(after), after.view, s, e, now)
  {
    if Joined(s, e, now).Some? {
      JoinKeepsTruth(s, e, now);
    } else {
      PushKeepsTruth(s, e, now);
    }
    assert |after.undo| <= UNDO_HISTORY_CAP;
  }

  /**
   The fast path puts the whole newest entry into the patch, not only the new edit;
   while nothing shifts offsets that comes to the same.
   */
  lemma FastPathIsTheEdit(s: Session, e: EditEntry, now: nat)
    requires Consistent(s) && s.nonLp == 0 && Captures(s.view, e) && e.LengthPreserving()
    ensures var last := Last(RecordedUndo(s, e, now));
      && last.End() <= |s.view|
      && Overwrite(s.view, last.offset, last.newBytes) == Apply(s.view, e)
  {
    if Joined(s, e, now).Some? {
      hide RedoCoherent;
      var init, last, m := s.undo[..|s.undo| - 1], Last(s.undo), Joined(s, e, now).value;
      var buf := Replay(s.base, init);
      assert s.undo == init + [last];
      ReplayPush(s.base, init, last);
      CoalescingPreservesMeaning(buf, last, e);
      CoalescingKeepsKind(last, e);
      OverwriteCovered(buf, last.offset, last.newBytes, m.offset, m.newBytes);
    }
  }

  // ------------------------------------------------------------- commands

  datatype Command =
    | Write(offset: nat, bytes: Bytes)
    | InsertAt(offset: nat, bytes: Bytes)
    | SpliceAt(offset: nat, remove: nat, insert: Bytes)
    | SpliceMany(ops: seq<PatchOp>)
    | Undo
    | Redo
    | Revert
    | Boundary
    | SetMode(mode: EditMode)
    | SetTypingMode(typing: TypingMode)
    | SwapBase(base: Bytes)

  datatype Outcome = Done | Failed(error: WriteError) | Moved(entry: EditEntry) | Nothing

  function StepWrite(s: Session, offset: nat, bytes: Bytes, now: nat): (Session, Outcome) {
    if s.mode != Mutable then (s, Failed(ReadonlyEditor))
    else if offset + |bytes| > |s.view| then (s, Failed(OutOfBounds(offset, |bytes|, |s.view|)))
    else (RecordWrite(s, Captured(s.view, offset, |bytes|, bytes), now), Done)
  }

  function StepInsertAt(s: Session, offset: nat, bytes: Bytes, now: nat): (Session, Outcome) {
    if s.mode != Mutable then (s, Failed(ReadonlyEditor))
    else if offset > |s.view| then (s, Failed(OutOfBounds(offset, |bytes|, |s.view|)))
    else (RecordSplice(s, EditEntry(offset, [], bytes), now), Done)
  }

  function StepSplice(s: Session, offset: nat, remove: nat, insert: Bytes, now: nat): (Session, Outcome) {
    if s.mode != Mutable then (s, Failed(ReadonlyEditor))
    else if offset + remove > |s.view| then (s, Failed(OutOfBounds(offset, remove, |s.view|)))
    else (RecordSplice(s, Captured(s.view, offset, remove, insert), now), Done)
  }

  /** The first fault of a batch, op by op: out of order before out of bounds. */
  function BatchFault(ops: seq<PatchOp>, prevEnd: nat, sourceLen: nat): Option<WriteError> {
    if ops == [] then None
    else if ops[0].offset < prevEnd then Some(Rejected)
    else if ops[0].offset + ops[0].oldLen > sourceLen
    then Some(OutOfBounds(ops[0].offset, ops[0].oldLen, sourceLen))
    else BatchFault(ops[1..], ops[0].offset + ops[0].oldLen, sourceLen)
  }

  /** The bytes from `from` to the end of the last op, with every op's bytes in place. */
  function Interleaved(view: Bytes, ops: seq<PatchOp>): Bytes
    requires WellFormed(|view|, ops) && ops != []
  {
    EndInBase(|view|, ops);
    FirstOffsetBeforeEnd(|view|, ops);
    PrefixStartsWithBase(view, ops);
    Prefix(view, ops)[ops[0].offset..]
  }

  lemma {:induction false} FirstOffsetBeforeEnd(len: nat, ops: seq<PatchOp>)
    requires WellFormed(len, ops) && ops != []
    ensures ops[0].offset <= End(ops) <= len
    decreases |ops|
  {
    if |ops| > 1 {
      FirstOffsetBeforeEnd(len, ops[..|ops| - 1]);
    }
  }

  lemma {:induction false} PrefixStartsWithBase(view: Bytes, ops: seq<PatchOp>)
    requires WellFormed(|view|, ops) && ops != []
    ensures ops[0].offset <= |view| && ops[0].offset <= |Prefix(view, ops)|
    ensures Prefix(view, ops)[..ops[0].offset] == view[..ops[0].offset]
    decreases |ops|
  {
    FirstOffsetBeforeEnd(|view|, ops);
    var init, op := ops[..|ops| - 1], ops[|ops| - 1];
    WellFormedShorter(|view|, op.offset, init);
    if init == [] {
      assert Prefix(view, ops) == view[..op.offset] + op.newBytes;
    } else {
      PrefixStartsWithBase(view, init);
    }
  }

  lemma {:induction false} EndGrows(len: nat, ops: seq<PatchOp>, k: nat)
    requires WellFormed(len, ops) && 0 < k <= |ops|
    ensures End(ops[..k]) <= End(ops)
    decreases |ops|
  {
    if k < |ops| {
      EndGrows(len, ops[..|ops| - 1], k);
      assert ops[..|ops| - 1][..k] == ops[..k];
    } else {
      assert ops[..k] == ops;
    }
  }

  /** One step of assembling the span: the untouched bytes, then the op's own. */
  lemma InterleaveStep(view: Bytes, ops: seq<PatchOp>, k: nat)
    requires WellFormed(|view|, ops) && k < |ops|
    ensures WellFormed(|view|, ops[..k]) && WellFormed(|view|, ops[..k + 1])
    ensures ops[k].offset + ops[k].oldLen == End(ops[..k + 1]) <= End(ops) <= |view|
    ensures k > 0 ==> ops[0].offset <= End(ops[..k]) <= ops[k].offset
    ensures Interleaved(view, ops[..k + 1]) ==
      (if k == 0 then ops[k].newBytes
       else Interleaved(view, ops[..k]) + view[End(ops[..k])..ops[k].offset] + ops[k].newBytes)
  {
    WalkStep(view, ops, k);
    EndGrows(|view|, ops, k + 1);
    EndInBase(|view|, ops);
    PrefixStartsWithBase(view, ops[..k + 1]);
    if k == 0 {
      assert Prefix(view, ops[..1]) == view[..ops[0].offset] + ops[0].newBytes;
    } else {
      FirstOffsetBeforeEnd(|view|, ops[..k]);
      PrefixStartsWithBase(view, ops[..k]);
      DropFront(Prefix(view, ops[..k]), view[End(ops[..k])..ops[k].offset], ops[k].newBytes, ops[0].offset);
    }
  }

  lemma DropFront(a: Bytes, b: Bytes, c: Bytes, n: nat)
    requires n <= |a|
    ensures (a + b + c)[n..] == a[n..] + b + c
  {
  }

  /** One entry standing for a whole batch. */
  function BatchEntry(view: Bytes, ops: seq<PatchOp>): EditEntry
    requires WellFormed(|view|, ops) && ops != []
  {
    FirstOffsetBeforeEnd(|view|, ops);
    EditEntry(ops[0].offset, view[ops[0].offset..End(ops)], Interleaved(view, ops))
  }

  /** A batch replaced as one span is the batch's ops applied right to left. */
  lemma BatchIsItsOps(view: Bytes, ops: seq<PatchOp>)
    requires WellFormed(|view|, ops) && ops != []
    ensures Captures(view, BatchEntry(view, ops))
    ensures Apply(view, BatchEntry(view, ops)) == SplicedRightToLeft(view, ops)
  {
    FirstOffsetBeforeEnd(|view|, ops);
    PrefixStartsWithBase(view, ops);
    WalkIsSplices(view, ops);
    var p, first := Prefix(view, ops), ops[0].offset;
    assert p == p[..first] + p[first..];
  }

  lemma NextInOrder(done: seq<PatchOp>, ops: seq<PatchOp>, len: nat)
    requires ops != []
    ensures WellFormed(len, done + ops) ==> End(done) <= ops[0].offset && ops[0].offset + ops[0].oldLen <= len
  {
    var all, k := done + ops, |done|;
    if WellFormed(len, all) {
      WellFormedTake(len, all, k + 1);
      assert all[..k + 1][..k] == done;
    }
  }

  lemma {:induction false} FaultFreeFrom(done: seq<PatchOp>, ops: seq<PatchOp>, len: nat)
    requires WellFormed(len, done)
    ensures BatchFault(ops, End(done), len).None? <==> WellFormed(len, done + ops)
    decreases |ops|
  {
    if ops == [] {
      assert done + ops == done;
    } else {
      assert (done + [ops[0]])[..|done|] == done;
      assert done + ops == (done + [ops[0]]) + ops[1..];
      if ops[0].offset >= End(done) && ops[0].offset + ops[0].oldLen <= len {
        FaultFreeFrom(done + [ops[0]], ops[1..], len);
      } else {
        NextInOrder(done, ops, len);
      }
    }
  }

  /** A batch is accepted exactly when its ops are sorted, disjoint and in bounds. */
  lemma FaultFreeIsWellFormed(ops: seq<PatchOp>, len: nat)
    ensures BatchFault(ops, 0, len).None? <==> WellFormed(len, ops)
  {
    FaultFreeFrom([], ops, len);
    assert [] + ops == ops;
  }

  function StepSpliceMany(s: Session, ops: seq<PatchOp>, now: nat): (Session, Outcome) {
    if s.mode != Mutable then (s, Failed(ReadonlyEditor))
    else if ops == [] then (s, Done)
    else
      FaultFreeIsWellFormed(ops, |s.view|);
      match BatchFault(ops, 0, |s.view|)
      case Some(error) => (s, Failed(error))
      case None => (RecordSplice(s, BatchEntry(s.view, ops), now), Done)
  }

  function StepUndo(s: Session): (Session, Outcome) {
    if s.mode != Mutable || s.undo == [] then (s, Nothing)
    else
      var entry := Last(s.undo);
      (Rebuilt(s.(
         undo := s.undo[..|s.undo| - 1],
         redo := s.redo + [entry],
         nonLp := if !entry.LengthPreserving() && s.nonLp > 0 then s.nonLp - 1 else s.nonLp,
         historyBreak := true,
         highNibble := true,
         revision := s.revision + 1)),
       Moved(entry))
  }

  function StepRedo(s: Session): (Session, Outcome) {
    if s.mode != Mutable || s.redo == [] then (s, Nothing)
    else
      var entry := Last(s.redo);
      (Rebuilt(s.(
         undo := s.undo + [entry],
         redo := s.redo[..|s.redo| - 1],
         nonLp := if entry.LengthPreserving() then s.nonLp else s.nonLp + 1,
         historyBreak := true,
         highNibble := true,
         revision := s.revision + 1)),
       Moved(entry))
  }

  function StepRevert(s: Session): Session {
    Rebuilt(s.(
      undo := [], redo := [], historyBreak := true, lastEditAt := None, nonLp := 0, revision := s.revision + 1))
  }

  function StepSwapBase(s: Session, base: Bytes): Session {
    s.(base := base, view := base, undo := [], redo := [], historyBreak := true,
       lastEditAt := None, highNibble := true, nonLp := 0)
  }

  function Step(s: Session, cmd: Command, now: nat): (Session, Outcome) {
    match cmd
    case Write(offset, bytes) => StepWrite(s, offset, bytes, now)
    case InsertAt(offset, bytes) => StepInsertAt(s, offset, bytes, now)
    case SpliceAt(offset, remove, insert) => StepSplice(s, offset, remove, insert, now)
    case SpliceMany(ops) => StepSpliceMany(s, ops, now)
    case Undo => StepUndo(s)
    case Redo => StepRedo(s)
    case Revert => (StepRevert(s), Done)
    case Boundary => (s.(historyBreak := true), Done)
    case SetMode(mode) => (s.(mode := mode, highNibble := true, historyBreak := true), Done)
    case SetTypingMode(typing) => (s.(typingMode := typing, highNibble := true, historyBreak := true), Done)
    case SwapBase(base) => (StepSwapBase(s, base), Done)
  }
}
