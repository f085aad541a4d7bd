/**
 Whole-run properties of the editor: it behaves like an editor that keeps a full
 copy of the bytes for every undo step, and undo and redo are inverse.
 */
module EditorTheorems {
  import opened Splices
  import opened EditHistory
  import opened PatchOverlay
  import opened EditSession

  // ----------------------------------------------------- one edit command

  /** What an edit command asks for, said on the bytes alone. */
  function Edited(view: Bytes, cmd: Command): Option<Bytes> {
    match cmd
    case Write(offset, bytes) =>
      if offset + |bytes| <= |view| then Some(Splice(view, offset, |bytes|, bytes)) else None
    case InsertAt(offset, bytes) =>
      if offset <= |view| then Some(Splice(view, offset, 0, bytes)) else None
    case SpliceAt(offset, remove, insert) =>
      if offset + remove <= |view| then Some(Splice(view, offset, remove, insert)) else None
    case SpliceMany(ops) =>
      if ops != [] && WellFormed(|view|, ops) then Some(SplicedRightToLeft(view, ops)) else None
    case _ => None
  }

  /** The entry an accepted edit command records. */
  function RecordedEntry(s: Session, cmd: Command): Option<EditEntry> {
    if s.mode != Mutable || Edited(s.view, cmd).None? then None
    else
      match cmd
      case Write(offset, bytes) => Some(Captured(s.view, offset, |bytes|, bytes))
      case InsertAt(offset, bytes) => Some(EditEntry(offset, [], bytes))
      case SpliceAt(offset, remove, insert) => Some(Captured(s.view, offset, remove, insert))
      case SpliceMany(ops) => Some(BatchEntry(s.view, ops))
  }

  predicate Safe(s: Session, cmd: Command, now: nat) {
    RecordedEntry(s, cmd).Some? ==> !Hazard(s, RecordedEntry(s, cmd).value, now)
  }

  predicate IsEdit(cmd: Command) {
    cmd.Write? || cmd.InsertAt? || cmd.SpliceAt? || cmd.SpliceMany?
  }

  lemma AcceptedEdit(s: Session, cmd: Command, now: nat)
    requires RecordedEntry(s, cmd).Some?
    ensures var e, after := RecordedEntry(s, cmd).value, Step(s, cmd, now).0;
      && Captures(s.view, e) && Apply(s.view, e) == Edited(s.view, cmd).value
      && (after == RecordWrite(s, e, now) || after == RecordSplice(s, e, now))
      && Step(s, cmd, now).1 == Done
  {
    match cmd
    case Write(offset, bytes) =>
    case InsertAt(offset, bytes) =>
    case SpliceAt(offset, remove, insert) =>
    case SpliceMany(ops) =>
      FaultFreeIsWellFormed(ops, |s.view|);
      BatchIsItsOps(s.view, ops);
  }

  lemma RefusedEdit(s: Session, cmd: Command, now: nat)
    requires IsEdit(cmd) && RecordedEntry(s, cmd).None?
    ensures Step(s, cmd, now).0 == s
  {
    if cmd.SpliceMany? {
      FaultFreeIsWellFormed(cmd.ops, |s.view|);
    }
  }

  /**
   An accepted edit keeps the state consistent and changes the bytes exactly as
   asked if, and only if, it does not meet a hazard.
   */
  lemma EditIsExact(s: Session, cmd: Command, now: nat)
    requires Consistent(s) && RecordedEntry(s, cmd).Some?
    ensures var after := Step(s, cmd, now).0;
      Consistent(after) && after.view == Edited(s.view, cmd).value <==> Safe(s, cmd, now)
  {
    AcceptedEdit(s, cmd, now);
    RecordingIsExact(s, RecordedEntry(s, cmd).value, now, Step(s, cmd, now).0);
  }

  // --------------------------------------------------------- undo and redo

  /** Each undo splices the entry's old bytes back in. */
  lemma UndoSplicesBack(s: Session)
    requires Consistent(s) && s.mode == Mutable && s.undo != []
    ensures var after, entry := StepUndo(s).0, Last(s.undo);
      && Consistent(after) && StepUndo(s).1 == Moved(entry)
      && entry.End() <= |s.view|
      && after.view == Splice(s.view, entry.offset, |entry.newBytes|, entry.oldBytes)
  {
    var init, e := s.undo[..|s.undo| - 1], Last(s.undo);
    UnapplyApply(Replay(s.base, init), e);
    assert (s.redo + [e])[..|s.redo|] == s.redo;
  }

  lemma RedoSplicesAgain(s: Session)
    requires Consistent(s) && s.mode == Mutable && s.redo != []
    ensures var after, entry := StepRedo(s).0, Last(s.redo);
      && Consistent(after) && StepRedo(s).1 == Moved(entry)
      && Captures(s.view, entry)
      && after.view == Splice(s.view, entry.offset, |entry.oldBytes|, entry.newBytes)
  {
    ReplayPush(s.base, s.undo, Last(s.redo));
  }

  lemma UndoStaysConsistent(s: Session)
    requires Consistent(s) && s.mode == Mutable && s.undo != []
    ensures Consistent(StepUndo(s).0)
  {
    UndoSplicesBack(s);
  }

  lemma RedoStaysConsistent(s: Session)
    requires Consistent(s) && s.mode == Mutable && s.redo != []
    ensures Consistent(StepRedo(s).0)
  {
    RedoSplicesAgain(s);
  }

  function UndoTimes(s: Session, k: nat): Session
    decreases k
  {
    if k == 0 then s else UndoTimes(StepUndo(s).0, k - 1)
  }

  function RedoTimes(s: Session, k: nat): Session
    decreases k
  {
    if k == 0 then s else StepRedo(RedoTimes(s, k - 1)).0
  }

  /** The same bytes, the same two stacks, the same count. */
  predicate SameHistory(a: Session, b: Session) {
    && a.base == b.base && a.view == b.view && a.mode == b.mode
    && a.undo == b.undo && a.redo == b.redo && a.nonLp == b.nonLp
  }

  lemma SameHistoryConsistent(a: Session, b: Session)
    requires SameHistory(a, b) || SameHistory(a.(mode := b.mode), b)
    ensures Consistent(a) <==> Consistent(b)
  {
  }

  lemma RedoAfterUndo(s: Session, before: Session)
    requires Consistent(s) && s.mode == Mutable && s.undo != []
    requires SameHistory(before, StepUndo(s).0)
    ensures SameHistory(StepRedo(before).0, s)
  {
    var init, e := s.undo[..|s.undo| - 1], Last(s.undo);
    assert init + [e] == s.undo;
    assert before.redo == s.redo + [e] && before.redo[..|s.redo|] == s.redo;
  }

  /** `k` undos leave the state of `k` entries ago. */
  lemma {:induction false} UndoTimesState(s: Session, k: nat)
    requires Consistent(s) && s.mode == Mutable && k <= |s.undo|
    ensures var t := UndoTimes(s, k);
      && Consistent(t) && t.base == s.base && t.mode == Mutable
      && t.undo == s.undo[..|s.undo| - k] && t.view == Replay(s.base, s.undo[..|s.undo| - k])
    decreases k
  {
    hide Coherent, Replay, RedoCoherent, CountNonLp;
    if k > 0 {
      UndoSplicesBack(s);
      var u := StepUndo(s).0;
      UndoTimesState(u, k - 1);
      assert u.undo[..|u.undo| - (k - 1)] == s.undo[..|s.undo| - k];
    }
  }

  /** `k` undos then `k` redos restore the bytes, both stacks and the count. */
  lemma {:induction false} UndoRedoInverse(s: Session, k: nat)
    requires Consistent(s) && s.mode == Mutable && k <= |s.undo|
    ensures SameHistory(RedoTimes(UndoTimes(s, k), k), s)
    decreases k
  {
    hide Coherent, Replay, RedoCoherent, CountNonLp;
    if k > 0 {
      UndoSplicesBack(s);
      var u := StepUndo(s).0;
      UndoRedoInverse(u, k - 1);
      RedoAfterUndo(s, RedoTimes(UndoTimes(u, k - 1), k - 1));
    }
  }

  // ------------------------------------- refinement of a snapshot editor

  /** An editor that stores the whole buffer for every undo and redo step. */
  datatype Snapshots = Snapshots(base: Bytes, view: Bytes, past: seq<Bytes>, future: seq<Bytes>)

  /** One command of the snapshot editor; `joins`: the edit extends the latest undo step. */
  function SnapshotStep(r: Snapshots, cmd: Command, mutable: bool, joins: bool, full: bool): Snapshots {
    match cmd
    case Undo =>
      if !mutable || r.past == [] then r
      else Snapshots(r.base, r.past[|r.past| - 1], r.past[..|r.past| - 1], r.future + [r.view])
    case Redo =>
      if !mutable || r.future == [] then r
      else Snapshots(r.base, r.future[|r.future| - 1], r.past + [r.view], r.future[..|r.future| - 1])
    case Revert => Snapshots(r.base, r.base, [], [])
    case SwapBase(base) => Snapshots(base, base, [], [])
    case _ =>
      if !mutable || Edited(r.view, cmd).None? then r
      else
        var past := if joins then r.past else if full then (r.past + [r.view])[1..] else r.past + [r.view];
        Snapshots(r.base, Edited(r.view, cmd).value, past, [])
  }

  /** The bytes after redoing down to entry `j`. */
  function RedoView(view: Bytes, redo: seq<EditEntry>, j: nat): Bytes
    requires j < |redo|
    decreases |redo| - j
  {
    if j == |redo| - 1 then Apply(view, redo[j]) else Apply(RedoView(view, redo, j + 1), redo[j])
  }

  function PastOf(base: Bytes, undo: seq<EditEntry>): (p: seq<Bytes>)
    ensures |p| == |undo| && forall i :: 0 <= i < |undo| ==> p[i] == Replay(base, undo[..i])
  {
    seq(|undo|, i requires 0 <= i < |undo| => Replay(base, undo[..i]))
  }

  function FutureOf(view: Bytes, redo: seq<EditEntry>): (f: seq<Bytes>)
    ensures |f| == |redo| && forall j :: 0 <= j < |redo| ==> f[j] == RedoView(view, redo, j)
  {
    seq(|redo|, j requires 0 <= j < |redo| => RedoView(view, redo, j))
  }

  /** The snapshots that a session's deltas stand for. */
  function SnapshotsOf(s: Session): Snapshots {
    Snapshots(s.base, s.view, PastOf(s.base, s.undo), FutureOf(s.view, s.redo))
  }

  predicate Joins(s: Session, cmd: Command, now: nat) {
    RecordedEntry(s, cmd).Some? && Joined(s, RecordedEntry(s, cmd).value, now).Some?
  }

  predicate Full(s: Session) {
    |s.undo| + 1 > UNDO_HISTORY_CAP
  }

  lemma PastOfPush(base: Bytes, undo: seq<EditEntry>, e: EditEntry)
    ensures PastOf(base, undo + [e]) == PastOf(base, undo) + [Replay(base, undo)]
  {
    assert forall i :: 0 <= i < |undo| ==> (undo + [e])[..i] == undo[..i];
    assert (undo + [e])[..|undo|] == undo;
  }

  lemma PastOfDrop(base: Bytes, undo: seq<EditEntry>)
    requires undo != [] && Coherent(base, undo) && undo[0].oldBytes == undo[0].newBytes
    ensures PastOf(base, undo[1..]) == PastOf(base, undo)[1..]
  {
    forall i | 0 <= i < |undo| - 1 ensures Replay(base, undo[1..][..i]) == Replay(base, undo[..i + 1]) {
      ReplayDrop(base, undo, i + 1);
      assert undo[1..][..i] == undo[1..i + 1];
    }
  }

  lemma ReplayDrop(base: Bytes, undo: seq<EditEntry>, k: nat)
    requires 0 < k <= |undo| && Coherent(base, undo) && undo[0].oldBytes == undo[0].newBytes
    ensures Replay(base, undo[1..k]) == Replay(base, undo[..k])
  {
    var head := undo[..k];
    assert undo == head + undo[k..];
    ReplaySplit(base, head, undo[k..]);
    DroppingOldest(base, head);
    assert head[1..] == undo[1..k];
  }

  lemma {:induction false} RedoViewBelow(view: Bytes, redo: seq<EditEntry>, j: nat)
    requires |redo| >= 2 && j < |redo| - 1
    ensures RedoView(view, redo, j) == RedoView(Apply(view, Last(redo)), redo[..|redo| - 1], j)
    decreases |redo| - j
  {
    if j < |redo| - 2 {
      RedoViewBelow(view, redo, j + 1);
    }
  }

  lemma FutureOfPop(view: Bytes, redo: seq<EditEntry>)
    requires redo != []
    ensures FutureOf(view, redo) ==
      FutureOf(Apply(view, Last(redo)), redo[..|redo| - 1]) + [Apply(view, Last(redo))]
  {
    forall j | 0 <= j < |redo| - 1
      ensures RedoView(view, redo, j) == RedoView(Apply(view, Last(redo)), redo[..|redo| - 1], j)
    {
      RedoViewBelow(view, redo, j);
    }
  }

  lemma PastOfJoined(s: Session, e: EditEntry, now: nat)
    requires Joined(s, e, now).Some?
    ensures PastOf(s.base, RecordedUndo(s, e, now)) == PastOf(s.base, s.undo)
  {
    var init, m := s.undo[..|s.undo| - 1], Joined(s, e, now).value;
    assert s.undo == init + [Last(s.undo)];
    PastOfPush(s.base, init, Last(s.undo));
    PastOfPush(s.base, init, m);
  }

  lemma PastOfPushed(s: Session, e: EditEntry, now: nat)
    requires Consistent(s) && Captures(s.view, e) && Joined(s, e, now).None? && !Hazard(s, e, now)
    ensures PastOf(s.base, RecordedUndo(s, e, now))
      == if Full(s) then (PastOf(s.base, s.undo) + [s.view])[1..] else PastOf(s.base, s.undo) + [s.view]
  {
    ReplayPush(s.base, s.undo, e);
    PastOfPush(s.base, s.undo, e);
    if Full(s) {
      PastOfDrop(s.base, s.undo + [e]);
    }
  }

  lemma EditRefines(s: Session, cmd: Command, now: nat)
    requires Consistent(s) && RecordedEntry(s, cmd).Some? && Safe(s, cmd, now)
    ensures SnapshotsOf(Step(s, cmd, now).0)
      == SnapshotStep(SnapshotsOf(s), cmd, true, Joins(s, cmd, now), Full(s))
  {
    hide Coherent, RedoCoherent, CountNonLp, RedoView;
    var e := RecordedEntry(s, cmd).value;
    AcceptedEdit(s, cmd, now);
    EditIsExact(s, cmd, now);
    if Joined(s, e, now).Some? {
      PastOfJoined(s, e, now);
    } else {
      PastOfPushed(s, e, now);
    }
  }

  lemma UndoRefines(s: Session)
    requires Consistent(s) && s.mode == Mutable
    ensures SnapshotsOf(StepUndo(s).0) == SnapshotStep(SnapshotsOf(s), Undo, true, false, Full(s))
  {
    hide RedoCoherent, CountNonLp, RedoView;
    if s.undo != [] {
      var init, e := s.undo[..|s.undo| - 1], Last(s.undo);
      assert s.undo == init + [e];
      PastOfPush(s.base, init, e);
      assert (s.redo + [e])[..|s.redo|] == s.redo;
      FutureOfPop(Replay(s.base, init), s.redo + [e]);
    }
  }

  lemma RedoRefines(s: Session)
    requires Consistent(s) && s.mode == Mutable
    ensures SnapshotsOf(StepRedo(s).0) == SnapshotStep(SnapshotsOf(s), Redo, true, false, Full(s))
  {
    hide RedoCoherent, CountNonLp, RedoView;
    if s.redo != [] {
      ReplayPush(s.base, s.undo, Last(s.redo));
      PastOfPush(s.base, s.undo, Last(s.redo));
      FutureOfPop(s.view, s.redo);
    }
  }

  /** Every command does to the deltas what it does to the snapshots. */
  lemma StepRefinesSnapshots(s: Session, cmd: Command, now: nat)
    requires Consistent(s) && Safe(s, cmd, now)
    ensures var after := Step(s, cmd, now).0;
      && Consistent(after)
      && SnapshotsOf(after)
           == SnapshotStep(SnapshotsOf(s), cmd, s.mode == Mutable, Joins(s, cmd, now), Full(s))
  {
    if RecordedEntry(s, cmd).Some? {
      EditIsExact(s, cmd, now);
      EditRefines(s, cmd, now);
    } else if IsEdit(cmd) {
      RefusedEdit(s, cmd, now);
    } else if cmd == Undo && s.mode == Mutable {
      if s.undo != [] {
        UndoSplicesBack(s);
      }
      UndoRefines(s);
    } else if cmd == Redo && s.mode == Mutable {
      if s.redo != [] {
        RedoSplicesAgain(s);
      }
      RedoRefines(s);
    }
  }

  // ------------------------------------------------------------ whole runs

  /** A command and the clock when it arrives. */
  datatype Event = Event(cmd: Command, now: nat)

  function Run(s: Session, events: seq<Event>): Session
    decreases |events|
  {
    if events == [] then s else Run(Step(s, events[0].cmd, events[0].now).0, events[1..])
  }

  predicate SafeRun(s: Session, events: seq<Event>)
    decreases |events|
  {
    events == [] ||
    (Safe(s, events[0].cmd, events[0].now) && SafeRun(Step(s, events[0].cmd, events[0].now).0, events[1..]))
  }

  /** The snapshot editor driven by the same commands; `s` only says which edits join. */
  function SnapshotRun(r: Snapshots, s: Session, events: seq<Event>): Snapshots
    decreases |events|
  {
    if events == [] then r
    else
      var cmd, now := events[0].cmd, events[0].now;
      SnapshotRun(
        SnapshotStep(r, cmd, s.mode == Mutable, Joins(s, cmd, now), Full(s)),
        Step(s, cmd, now).0,
        events[1..])
  }

  /** Over any run without a hazard the delta editor is the snapshot editor. */
  lemma {:induction false} RunRefinesSnapshots(s: Session, events: seq<Event>)
    requires Consistent(s) && SafeRun(s, events)
    ensures Consistent(Run(s, events))
    ensures SnapshotsOf(Run(s, events)) == SnapshotRun(SnapshotsOf(s), s, events)
    decreases |events|
  {
    if events != [] {
      StepRefinesSnapshots(s, events[0].cmd, events[0].now);
      RunRefinesSnapshots(Step(s, events[0].cmd, events[0].now).0, events[1..]);
    }
  }

  // ------------------------------------------- when no hazard can be met

  // ------------------------------------------------ what one undo takes back

  lemma RecordedThenUndone(s: Session, e: EditEntry, now: nat, t: Session)
    requires Consistent(s) && Captures(s.view, e) && s.mode == Mutable && !Hazard(s, e, now)
    requires t == RecordWrite(s, e, now) || t == RecordSplice(s, e, now)
    ensures StepUndo(t).0.view == if Joined(s, e, now).Some? then StepUndo(s).0.view else s.view
  {
    hide Coherent, Replay, RedoCoherent, CountNonLp, Coalesced;
    RecordingIsExact(s, e, now, t);
    if Joined(s, e, now).Some? {
      assert t.undo[..|t.undo| - 1] == s.undo[..|s.undo| - 1];
    } else {
      hide Captures, Joined, Consistent;
      UndoSplicesBack(t);
      assert Last(t.undo) == e;
      UnapplyApply(s.view, e);
    }
  }

  /** One undo takes back an edit alone, or, if it joined the newest step, all of that step. */
  lemma OneUndoTakesBack(s: Session, cmd: Command, now: nat)
    requires Consistent(s) && RecordedEntry(s, cmd).Some? && Safe(s, cmd, now)
    ensures var t := Step(s, cmd, now).0;
      StepUndo(t).0.view == if Joins(s, cmd, now) then StepUndo(s).0.view else s.view
  {
    assert s.mode == Mutable;
    hide RecordedEntry, Step, Consistent, Edited, Hazard, StepUndo, Joined, RecordWrite, RecordSplice;
    AcceptedEdit(s, cmd, now);
    RecordedThenUndone(s, RecordedEntry(s, cmd).value, now, Step(s, cmd, now).0);
  }

  /** Nothing has closed the newest undo step, and it is not 800 milliseconds old. */
  predicate StepIsOpen(s: Session, now: nat) {
    s.undo != [] && !s.historyBreak && (s.lastEditAt.None? || now < s.lastEditAt.value + 800)
  }

  /** A write joins an open step of writes that it touches, or a step in whose new bytes it lies. */
  lemma WhenWritesJoin(s: Session, offset: nat, bytes: Bytes, now: nat)
    requires s.mode == Mutable && offset + |bytes| <= |s.view|
    ensures Joins(s, Write(offset, bytes), now) <==>
      StepIsOpen(s, now)
      && var from, to := Last(s.undo).offset, Last(s.undo).offset + |Last(s.undo).newBytes|;
         (Last(s.undo).LengthPreserving() && offset <= to && from <= offset + |bytes|)
         || (from <= offset && offset + |bytes| <= to)
  {
  }

  /** Inserted bytes join an open step that only inserted, and ends where they begin. */
  lemma WhenInsertsJoin(s: Session, offset: nat, bytes: Bytes, now: nat)
    requires s.mode == Mutable && offset <= |s.view| && bytes != []
    ensures Joins(s, InsertAt(offset, bytes), now) <==>
      StepIsOpen(s, now) && Last(s.undo).oldBytes == [] && offset == Last(s.undo).offset + |Last(s.undo).newBytes|
  {
  }

  /** A splice that changes the length joins only as an insertion does. */
  lemma WhenSplicesJoin(s: Session, offset: nat, remove: nat, insert: Bytes, now: nat)
    requires s.mode == Mutable && offset + remove <= |s.view| && remove != |insert|
    ensures Joins(s, SpliceAt(offset, remove, insert), now) <==>
      StepIsOpen(s, now) && remove == 0
      && Last(s.undo).oldBytes == [] && offset == Last(s.undo).offset + |Last(s.undo).newBytes|
  {
  }

  /** An undo, a redo, a revert, a boundary, and a change of mode or base close the newest step. */
  lemma StepsApart(s: Session, between: Command, now: nat, cmd: Command, later: nat)
    requires !IsEdit(between) && (between.Undo? || between.Redo? ==> Step(s, between, now).1.Moved?)
    ensures !Joins(Step(s, between, now).0, cmd, later)
  {
    hide Coherent, Replay, RedoCoherent, CountNonLp, Coalesced, RecordedEntry;
  }

  /** An undo, a redo, and a change of mode or base drop a half-typed byte: the next digit is a high one. */
  lemma HalfTypedByteIsDropped(s: Session, cmd: Command, now: nat)
    requires cmd.Undo? || cmd.Redo? || cmd.SetMode? || cmd.SetTypingMode? || cmd.SwapBase?
    requires cmd.Undo? || cmd.Redo? ==> Step(s, cmd, now).1.Moved?
    ensures Step(s, cmd, now).0.highNibble
  {
    hide Replay;
  }

  /** The revision never goes back, and while it stays the same so do the bytes and both stacks; but for a new base. */
  lemma RevisionTellsChanges(s: Session, cmd: Command, now: nat)
    requires !cmd.SwapBase?
    ensures var t := Step(s, cmd, now).0;
      s.revision <= t.revision <= s.revision + 1
      && (t.revision == s.revision ==> t.view == s.view && t.undo == s.undo && t.redo == s.redo && t.nonLp == s.nonLp)
      && (RecordedEntry(s, cmd).Some? ==> t.revision == s.revision + 1)
  {
    hide Coherent, Replay, RedoCoherent, CountNonLp;
    if RecordedEntry(s, cmd).Some? {
      AcceptedEdit(s, cmd, now);
    } else if IsEdit(cmd) {
      RefusedEdit(s, cmd, now);
    }
  }

  /** No entry is empty on both sides. */
  predicate NoEmptyEntry(stack: seq<EditEntry>) {
    forall i :: 0 <= i < |stack| ==> stack[i].oldBytes != [] || stack[i].newBytes != []
  }

  predicate EmptyEdit(s: Session, cmd: Command) {
    RecordedEntry(s, cmd).Some?
    && RecordedEntry(s, cmd).value.oldBytes == [] && RecordedEntry(s, cmd).value.newBytes == []
  }

  lemma JoinedNotEmpty(last: EditEntry, e: EditEntry)
    requires Coalesced(last, e).Some?
    requires last.oldBytes != [] || last.newBytes != []
    ensures Coalesced(last, e).value.oldBytes != [] || Coalesced(last, e).value.newBytes != []
  {
  }

  /** What a command does to the sizes of the stacks. */
  predicate GrowsByAtMostOne(s: Session, t: Session) {
    |t.undo| + |t.redo| <= |s.undo| + |s.redo| + 1 && NoEmptyEntry(t.undo) && NoEmptyEntry(t.redo)
  }

  lemma EditGrowsByOne(s: Session, e: EditEntry, now: nat)
    requires |s.undo| + |s.redo| < UNDO_HISTORY_CAP && NoEmptyEntry(s.undo)
    requires e.oldBytes != [] || e.newBytes != []
    ensures GrowsByAtMostOne(s, Record(s, e, now)) && !Hazard(s, e, now)
  {
    if Joined(s, e, now).Some? {
      JoinedNotEmpty(Last(s.undo), e);
    }
  }

  lemma HistoryGrowsByOne(s: Session, cmd: Command, now: nat)
    requires |s.undo| + |s.redo| < UNDO_HISTORY_CAP
    requires NoEmptyEntry(s.undo) && NoEmptyEntry(s.redo) && !EmptyEdit(s, cmd)
    ensures GrowsByAtMostOne(s, Step(s, cmd, now).0) && Safe(s, cmd, now)
  {
    if RecordedEntry(s, cmd).Some? {
      AcceptedEdit(s, cmd, now);
      EditGrowsByOne(s, RecordedEntry(s, cmd).value, now);
    } else if IsEdit(cmd) {
      RefusedEdit(s, cmd, now);
    } else {
      hide Coherent, Replay, RedoCoherent, CountNonLp;
      if cmd.Undo? || cmd.Redo? {
        var t := Step(s, cmd, now).0;
        assert NoEmptyEntry(t.undo) && NoEmptyEntry(t.redo);
      }
    }
  }

  predicate NoEmptyEdits(s: Session, events: seq<Event>)
    decreases |events|
  {
    events == [] ||
    (!EmptyEdit(s, events[0].cmd) && NoEmptyEdits(Step(s, events[0].cmd, events[0].now).0, events[1..]))
  }

  /** A run of at most 1000 commands, none of them a zero-length edit, meets no hazard. */
  lemma {:induction false} ShortRunsAreSafe(s: Session, events: seq<Event>)
    requires |s.undo| + |s.redo| + |events| <= 1000
    requires NoEmptyEntry(s.undo) && NoEmptyEntry(s.redo) && NoEmptyEdits(s, events)
    ensures SafeRun(s, events)
    decreases |events|
  {
    if events != [] {
      HistoryGrowsByOne(s, events[0].cmd, events[0].now);
      ShortRunsAreSafe(Step(s, events[0].cmd, events[0].now).0, events[1..]);
    }
  }

  // ------------------------------------------------- the hazards are real

  /** The state after inserting nothing at the start of a fresh buffer. */
  function AfterEmptyInsert(base: Bytes, now: nat): Session {
    StepInsertAt(Fresh(base), 0, [], now).0
  }

  lemma EmptyInsertIsRecorded(base: Bytes, now: nat)
    ensures var s := AfterEmptyInsert(base, now);
      && s.undo == [EditEntry(0, [], [])] && s.base == base && s.view == base && s.nonLp == 0
      && s.mode == Mutable && !s.historyBreak && !Idle(s, now)
  {
    hide Coherent, RedoCoherent, CountNonLp;
    var e := EditEntry(0, [], []);
    assert [] + [e] == [e];
    ReplayPush(base, [], e);
  }

  /** Inserting nothing and then some bytes leaves a resizing entry that is not counted. */
  lemma EmptyInsertBreaksTheCount(base: Bytes, bytes: Bytes, now: nat)
    requires bytes != []
    ensures var t := StepInsertAt(AfterEmptyInsert(base, now), 0, bytes, now).0;
      t.undo == [EditEntry(0, [], bytes)] && t.nonLp == 0 && CountNonLp(t.undo) == 1 && !Consistent(t)
  {
    hide Coherent, RedoCoherent, Replay;
    EmptyInsertIsRecorded(base, now);
    var s, m := AfterEmptyInsert(base, now), EditEntry(0, [], bytes);
    var last := Last(s.undo);
    assert last.newBytes + bytes == bytes;
    assert Joined(s, m, now) == Some(m);
    assert s.undo[..0] + [m] == [m] && [] + [m] == [m];
    ReplayPush(base, [], m);
  }

  /**
   With a full history the next separate edit loses the oldest one: undoing
   everything else no longer leads back through it.
   */
  lemma FullHistoryLosesTheOldest(s: Session, cmd: Command, now: nat)
    requires Consistent(s) && |s.undo| == 1000 && s.undo[0].oldBytes != s.undo[0].newBytes
    requires RecordedEntry(s, cmd).Some? && !Joins(s, cmd, now)
    ensures var t := Step(s, cmd, now).0;
      |t.undo| == 1000 && (!Consistent(t) || t.view != Edited(s.view, cmd).value)
  {
    EditIsExact(s, cmd, now);
    AcceptedEdit(s, cmd, now);
  }
}
