/**
 The editor object: its fields are updated in place, and every method is proved
 against the logical step of EditSession (crates/hxy-editor/src/editor.rs).
 */
module EditStateObject {
  import opened Splices
  import opened EditHistory
  import opened PatchOverlay
  import opened EditSession
  import opened EditorTheorems

  /** `merge_entry`: both sides are assembled by copying into zeroed buffers. */
  method MergeEntry(dst: EditEntry, next: EditEntry) returns (m: EditEntry)
    requires Mergeable(dst, next)
    ensures m == Merged(dst, next)
  {
    var start := Min(dst.offset, next.offset);
    var end := Max(dst.End(), next.End());
    var dstOff, nextOff := dst.offset - start, next.offset - start;
    var newBytes := Zeros(end - start);
    newBytes := Overwrite(newBytes, dstOff, dst.newBytes);
    newBytes := Overwrite(newBytes, nextOff, next.newBytes);
    MergedNewSide(dst, next, start, end - start);
    var oldBytes := MergeOldSide(dst, next, start, end);
    m := EditEntry(start, oldBytes, newBytes);
  }

  method MergeOldSide(dst: EditEntry, next: EditEntry, start: nat, end: nat) returns (oldBytes: Bytes)
    requires Mergeable(dst, next)
    requires start == Min(dst.offset, next.offset) && end == Max(dst.End(), next.End())
    ensures oldBytes == Merged(dst, next).oldBytes
  {
    hide Merged, Overwrite;
    oldBytes := Zeros(end - start);
    ghost var before, behind: Bytes := [], [];
    if next.offset < dst.offset {
      before := next.oldBytes[..dst.offset - next.offset];
    }
    if next.End() > dst.End() {
      behind := next.oldBytes[dst.End() - next.offset..];
    }
    MergedOldSide(dst, next, before, behind);
    assert |before| == dst.offset - start;
    FillAround(oldBytes, before, dst.oldBytes, behind);
    oldBytes := Overwrite(oldBytes, dst.offset - start, dst.oldBytes);
    if next.offset < dst.offset {
      oldBytes := Overwrite(oldBytes, 0, next.oldBytes[..dst.offset - next.offset]);
    }
    if next.End() > dst.End() {
      oldBytes := Overwrite(oldBytes, dst.End() - start, next.oldBytes[dst.End() - next.offset..]);
    }
  }

  lemma MergedNewSide(dst: EditEntry, next: EditEntry, start: nat, len: nat)
    requires Mergeable(dst, next) && start == Min(dst.offset, next.offset)
    requires start + len == Max(dst.End(), next.End())
    ensures Overwrite(Overwrite(Zeros(len), dst.offset - start, dst.newBytes), next.offset - start, next.newBytes)
      == Merged(dst, next).newBytes
  {
    OverwriteTwice(Zeros(len), dst.offset - start, dst.newBytes, next.offset - start, next.newBytes);
    var u := OverwriteUnion(dst.offset, dst.newBytes, next.offset, next.newBytes);
    assert OverwriteUnion(dst.offset - start, dst.newBytes, next.offset - start, next.newBytes) == u;
    assert Overwrite(Zeros(len), 0, u) == u;
  }

  lemma MergedOldSide(dst: EditEntry, next: EditEntry, before: Bytes, behind: Bytes)
    requires Mergeable(dst, next)
    requires before == if next.offset < dst.offset then next.oldBytes[..dst.offset - next.offset] else []
    requires behind == if next.End() > dst.End() then next.oldBytes[dst.End() - next.offset..] else []
    ensures before + dst.oldBytes + behind == Merged(dst, next).oldBytes
  {
  }

  /** A zeroed buffer filled from the middle, the front and the back. */
  lemma FillAround(zeros: Bytes, before: Bytes, middle: Bytes, behind: Bytes)
    requires |zeros| == |before| + |middle| + |behind|
    ensures var a := Overwrite(zeros, |before|, middle);
      var b := if before == [] then a else Overwrite(a, 0, before);
      var c := if behind == [] then b else Overwrite(b, |before| + |middle|, behind);
      c == before + middle + behind
  {
    var a := Overwrite(zeros, |before|, middle);
    assert a == zeros[..|before|] + middle + zeros[|before| + |middle|..];
    var b := Overwrite(a, 0, before);
    assert b == before + middle + zeros[|before| + |middle|..];
    assert before == [] ==> a == b;
  }

  /** The three coalescing rules, in the order in which they are tried. */
  method TryFold(last: EditEntry, entry: EditEntry) returns (folded: Option<EditEntry>)
    ensures folded == Coalesced(last, entry)
  {
    if Mergeable(last, entry) {
      var merged := MergeEntry(last, entry);
      return Some(merged);
    }
    if entry.LengthPreserving() && entry.offset >= last.offset && entry.End() <= last.End() {
      var rel := entry.offset - last.offset;
      return Some(last.(newBytes := Overwrite(last.newBytes, rel, entry.newBytes)));
    }
    if last.oldBytes == [] && entry.oldBytes == [] && entry.offset == last.End() {
      return Some(last.(newBytes := last.newBytes + entry.newBytes));
    }
    return None;
  }

  lemma NoPatch(base: Bytes)
    ensures WellFormed(|base|, []) && AllLp([]) && Output(base, []) == base
  {
  }

  class EditState {
    var base: Bytes
    var patch: seq<PatchOp>
    var mode: EditMode
    var typingMode: TypingMode
    var editHighNibble: bool
    var undoStack: seq<EditEntry>
    var redoStack: seq<EditEntry>
    var historyBreak: bool
    var lastEditAt: Option<nat>
    var baseCache: Option<Bytes>
    var nonLpEntries: nat
    var revision: nat

    /** The overlay is usable, whatever the history says. */
    ghost predicate Usable()
      reads this
    {
      && WellFormed(|base|, patch)
      && (baseCache.Some? ==> baseCache.value == base)
    }

    /** The bytes the patched source delivers. */
    ghost function View(): Bytes
      reads this
      requires Usable()
    {
      Output(base, patch)
    }

    ghost function Abs(): Session
      reads this
      requires Usable()
    {
      Session(base, View(), mode, typingMode, editHighNibble, undoStack, redoStack, historyBreak,
              lastEditAt, nonLpEntries, revision)
    }

    ghost predicate Valid()
      reads this
    {
      && Usable()
      && Consistent(Abs())
      && (nonLpEntries == 0 ==> AllLp(patch))
    }

    constructor (source: Bytes)
      ensures Valid() && Abs() == Fresh(source)
    {
      base, patch, mode, typingMode, editHighNibble := source, [], Mutable, Replace, true;
      undoStack, redoStack, historyBreak, lastEditAt := [], [], false, None;
      baseCache, nonLpEntries, revision := None, 0, 0;
      new;
      assert Output(base, patch) == base;
    }

    method SwapBase(source: Bytes)
      requires Usable()
      modifies this
      ensures Valid() && Abs() == StepSwapBase(old(Abs()), source)
    {
      hide Consistent, Output, WellFormed, AllLp;
      base, patch := source, [];
      undoStack, redoStack, historyBreak, lastEditAt := [], [], true, None;
      editHighNibble, baseCache, nonLpEntries := true, None, 0;
      NoPatch(source);
      NoHistoryIsConsistent(Abs());
    }

    method SourceLen() returns (n: nat)
      requires Usable()
      ensures n == |View()|
    {
      OutputLenIsLength(base, patch);
      n := OutputLen(|base|, patch);
    }

    method ReadByteAt(offset: nat) returns (r: Option<Byte>)
      requires Usable()
      ensures r == if offset < |View()| then Some(View()[offset]) else None
    {
      var got := Read(base, patch, offset, offset + 1);
      match got {
        case ReadBytes(bytes) => r := Some(bytes[0]);
        case ReadOutOfBounds(_) => r := None;
      }
    }

    /** The current bytes of a range, collected one by one. */
    method ReadSpan(offset: nat, len: nat) returns (bytes: Bytes)
      requires Usable() && offset + len <= |View()|
      ensures bytes == View()[offset..offset + len]
    {
      bytes := [];
      var i := 0;
      while i < len
        invariant 0 <= i <= len && bytes == View()[offset..offset + i]
      {
        var b := ReadByteAt(offset + i);
        bytes := bytes + [b.value];
        i := i + 1;
      }
    }

    method CachedBaseBytes() returns (bytes: Bytes)
      requires Usable()
      modifies this`baseCache
      ensures Usable() && bytes == base
    {
      if baseCache.None? {
        baseCache := Some(base);
      }
      bytes := baseCache.value;
    }

    /** Replay the undo stack over the base, then emit the patch by diffing against it. */
    method RebuildPatchFromStack()
      requires Usable()
      modifies this`patch, this`baseCache
      ensures Usable() && Abs() == Rebuilt(old(Abs()))
      ensures |View()| == |base| ==> AllLp(patch)
      ensures patch == [] <==> View() == base
    {
      var source := CachedBaseBytes();
      var buffer := source;
      var k := 0;
      while k < |undoStack|
        invariant 0 <= k <= |undoStack| && Usable() && source == base
        invariant buffer == Replay(base, undoStack[..k])
        invariant Abs() == old(Abs())
      {
        var entry := undoStack[k];
        assert undoStack[..k + 1][..k] == undoStack[..k];
        if entry.offset + |entry.oldBytes| <= |buffer| {
          buffer := Splice(buffer, entry.offset, |entry.oldBytes|, entry.newBytes);
        }
        k := k + 1;
      }
      assert undoStack[..k] == undoStack;
      patch := Diff(source, buffer);
    }

    /** Push a separate entry and enforce the cap. */
    method PushEntry(entry: EditEntry)
      modifies this`undoStack, this`nonLpEntries
      ensures undoStack == PushedUndo(old(undoStack), entry)
      ensures nonLpEntries == PushedNonLp(old(undoStack), old(nonLpEntries), entry)
    {
      if !entry.LengthPreserving() {
        nonLpEntries := nonLpEntries + 1;
      }
      undoStack := undoStack + [entry];
      if |undoStack| > UNDO_HISTORY_CAP {
        var dropped := undoStack[0];
        undoStack := undoStack[1..];
        if !dropped.LengthPreserving() && nonLpEntries > 0 {
          nonLpEntries := nonLpEntries - 1;
        }
      }
    }

    /** Common bookkeeping of an edit: fold it into the last entry or push it. */
    method RecordEntry(entry: EditEntry, now: nat)
      requires Usable()
      modifies this`undoStack, this`redoStack, this`historyBreak, this`lastEditAt, this`nonLpEntries, this`revision
      ensures Usable() && Abs() == Record(old(Abs()), entry, now)
    {
      hide Output, WellFormed, Coalesced, PushedUndo, PushedNonLp, AllLp;
      revision := revision + 1;
      redoStack := [];
      var idleBreak := lastEditAt.Some? && now >= lastEditAt.value + EDIT_COALESCE_IDLE;
      if !historyBreak && !idleBreak && undoStack != [] {
        var top := |undoStack| - 1;
        var folded := TryFold(undoStack[top], entry);
        if folded.Some? {
          undoStack := undoStack[..top] + [folded.value];
          historyBreak, lastEditAt := false, Some(now);
          return;
        }
      }
      PushEntry(entry);
      historyBreak, lastEditAt := false, Some(now);
    }

    // ------------------------------------------------------------ edits

    /**
     Push the newest entry through the patch. A refused write falls back to a full
     rebuild; with no resizing entry recorded it is never refused.
     */
    method ApplyLpWriteToPatch()
      requires Usable() && undoStack != []
      requires Last(undoStack).offset + |Last(undoStack).newBytes| <= |base|
      modifies this`patch, this`baseCache
      ensures Usable()
      ensures old(AllLp(patch)) ==>
        AllLp(patch) && |old(View())| == |base|
        && Abs() == old(Abs()).(view := Overwrite(old(View()), Last(undoStack).offset, Last(undoStack).newBytes))
      ensures !old(AllLp(patch)) ==> Abs() == old(Abs()) || Abs() == Rebuilt(old(Abs()))
    {
      var last := undoStack[|undoStack| - 1];
      var written := WritePatch(patch, last.offset, last.newBytes);
      if written.None? {
        RebuildPatchFromStack();
        return;
      }
      if AllLp(patch) {
        LpPrefixLength(base, patch);
        if last.newBytes == [] {
          assert Overwrite(View(), last.offset, []) == View();
        } else {
          WriteLpOverwrites(base, patch, last.offset, last.newBytes);
        }
      }
      patch := written.value;
    }

    lemma ConsistentIsValid()
      requires Usable() && (|View()| == |base| ==> AllLp(patch))
      ensures Valid() <==> Consistent(Abs())
    {
      if Consistent(Abs()) && nonLpEntries == 0 {
        LpReplayKeepsLength(base, undoStack);
      }
    }

    /** Record a captured in-place write and bring the patch up to date. */
    method CommitWrite(entry: EditEntry, now: nat)
      requires Valid() && Captures(View(), entry) && entry.LengthPreserving()
      modifies this
      ensures Usable() && (Valid() <==> Consistent(Abs())) && Abs() == RecordWrite(old(Abs()), entry, now)
      ensures ExactUnlessHazard(Valid(), View(), old(Abs()), entry, now)
    {
      hide Coherent, Replay, RedoCoherent, CountNonLp, Output, Prefix, Joined;
      ghost var s := Abs();
      var wasLpOnly := nonLpEntries == 0;
      RecordingIsExact(s, entry, now, RecordWrite(s, entry, now));
      RecordEntry(entry, now);
      if wasLpOnly && nonLpEntries == 0 {
        FastPathIsTheEdit(s, entry, now);
        LpReplayKeepsLength(s.base, s.undo);
        ApplyLpWriteToPatch();
      } else {
        RebuildPatchFromStack();
        ConsistentIsValid();
      }
    }

    /** Record any other captured edit and rebuild the patch. */
    method CommitSplice(entry: EditEntry, now: nat)
      requires Valid() && Captures(View(), entry)
      modifies this
      ensures Usable() && (Valid() <==> Consistent(Abs())) && Abs() == RecordSplice(old(Abs()), entry, now)
      ensures ExactUnlessHazard(Valid(), View(), old(Abs()), entry, now)
    {
      hide Coherent, Replay, RedoCoherent, CountNonLp, Output, Prefix, Joined;
      RecordingIsExact(Abs(), entry, now, RecordSplice(Abs(), entry, now));
      RecordEntry(entry, now);
      RebuildPatchFromStack();
      ConsistentIsValid();
    }

    /**
     Write in place; the length of the bytes never changes. The state stays valid
     and shows the write exactly when no hazard is met.
     */
    method RequestWrite(offset: nat, bytes: Bytes, now: nat) returns (r: Outcome)
      requires Valid()
      modifies this
      ensures Usable() && (Valid() <==> Consistent(Abs())) && (Abs(), r) == StepWrite(old(Abs()), offset, bytes, now)
      ensures r != Done ==> Valid()
      ensures r == Done ==>
        offset + |bytes| <= |old(View())|
        && ExactUnlessHazard(Valid(), View(), old(Abs()), Captured(old(View()), offset, |bytes|, bytes), now)
    {
      hide Coherent, Replay, RedoCoherent, CountNonLp, Output, Prefix, Hazard, RecordWrite;
      if mode != Mutable {
        return Failed(ReadonlyEditor);
      }
      var sourceLen := SourceLen();
      if offset + |bytes| > sourceLen {
        return Failed(OutOfBounds(offset, |bytes|, sourceLen));
      }
      var oldBytes := ReadSpan(offset, |bytes|);
      CommitWrite(EditEntry(offset, oldBytes, bytes), now);
      r := Done;
    }

    /** Insert bytes, growing the source; at its end is allowed. */
    method InsertAt(offset: nat, bytes: Bytes, now: nat) returns (r: Outcome)
      requires Valid()
      modifies this
      ensures Usable() && (Valid() <==> Consistent(Abs())) && (Abs(), r) == StepInsertAt(old(Abs()), offset, bytes, now)
      ensures r != Done ==> Valid()
      ensures r == Done ==>
        offset <= |old(View())|
        && ExactUnlessHazard(Valid(), View(), old(Abs()), EditEntry(offset, [], bytes), now)
    {
      hide Coherent, Replay, RedoCoherent, CountNonLp, Output, Prefix, Hazard, RecordSplice;
      if mode != Mutable {
        return Failed(ReadonlyEditor);
      }
      var sourceLen := SourceLen();
      if offset > sourceLen {
        return Failed(OutOfBounds(offset, |bytes|, sourceLen));
      }
      CommitSplice(EditEntry(offset, [], bytes), now);
      r := Done;
    }

    /** Replace any stretch by any bytes. */
    method SpliceBytes(offset: nat, remove: nat, insert: Bytes, now: nat) returns (r: Outcome)
      requires Valid()
      modifies this
      ensures Usable() && (Valid() <==> Consistent(Abs()))
      ensures (Abs(), r) == StepSplice(old(Abs()), offset, remove, insert, now)
      ensures r != Done ==> Valid()
      ensures r == Done ==>
        offset + remove <= |old(View())|
        && ExactUnlessHazard(Valid(), View(), old(Abs()), Captured(old(View()), offset, remove, insert), now)
    {
      hide Coherent, Replay, RedoCoherent, CountNonLp, Output, Prefix, Hazard, RecordSplice;
      if mode != Mutable {
        return Failed(ReadonlyEditor);
      }
      var sourceLen := SourceLen();
      if offset > sourceLen || offset + remove > sourceLen {
        return Failed(OutOfBounds(offset, remove, sourceLen));
      }
      var oldBytes := ReadSpan(offset, remove);
      CommitSplice(EditEntry(offset, oldBytes, insert), now);
      r := Done;
    }

    /** The first fault of a batch, and where its last op ends. */
    method ValidateBatch(ops: seq<PatchOp>, sourceLen: nat) returns (fault: Option<WriteError>, lastEnd: nat)
      ensures fault == BatchFault(ops, 0, sourceLen)
      ensures fault.None? ==> WellFormed(sourceLen, ops) && lastEnd == PatchOverlay.End(ops)
    {
      lastEnd := 0;
      var k := 0;
      while k < |ops|
        invariant 0 <= k <= |ops|
        invariant lastEnd == PatchOverlay.End(ops[..k])
        invariant BatchFault(ops, 0, sourceLen) == BatchFault(ops[k..], lastEnd, sourceLen)
      {
        var op := ops[k];
        assert ops[k..][1..] == ops[k + 1..];
        if op.offset < lastEnd {
          return Some(Rejected), lastEnd;
        }
        if op.offset + op.oldLen > sourceLen {
          return Some(OutOfBounds(op.offset, op.oldLen, sourceLen)), lastEnd;
        }
        lastEnd := op.offset + op.oldLen;
        k := k + 1;
      }
      assert ops[..k] == ops;
      FaultFreeIsWellFormed(ops, sourceLen);
      fault := None;
    }

    /** The old bytes of the span with every op's bytes put in place, in one pass. */
    method Interleave(ops: seq<PatchOp>, oldBytes: Bytes) returns (newBytes: Bytes)
      requires Usable() && WellFormed(|View()|, ops) && ops != []
      requires ops[0].offset <= PatchOverlay.End(ops) <= |View()|
      requires oldBytes == View()[ops[0].offset..PatchOverlay.End(ops)]
      ensures newBytes == Interleaved(View(), ops)
    {
      hide Output, Prefix, WellFormed, Interleaved;
      ghost var view := View();
      var first := ops[0].offset;
      newBytes := [];
      var cursor := 0;
      var k := 0;
      while k < |ops|
        invariant 0 <= k <= |ops|
        invariant k == 0 ==> newBytes == [] && cursor == 0
        invariant k > 0 ==> WellFormed(|view|, ops[..k]) && first + cursor == PatchOverlay.End(ops[..k])
        invariant k > 0 ==> newBytes == Interleaved(view, ops[..k])
      {
        var op := ops[k];
        InterleaveStep(view, ops, k);
        var localStart := op.offset - first;
        SliceOfSlice(view, first, |oldBytes|, cursor, localStart);
        newBytes := newBytes + oldBytes[cursor..localStart] + op.newBytes;
        cursor := localStart + op.oldLen;
        k := k + 1;
      }
      assert ops[..k] == ops;
      assert oldBytes[cursor..] == [];
      newBytes := newBytes + oldBytes[cursor..];
    }

    /** A sorted batch of splices recorded as one entry. */
    method SpliceBatch(ops: seq<PatchOp>, now: nat) returns (r: Outcome)
      requires Valid()
      modifies this
      ensures Usable() && (Valid() <==> Consistent(Abs())) && (Abs(), r) == StepSpliceMany(old(Abs()), ops, now)
      ensures r != Done || ops == [] ==> Valid()
      ensures r == Done && ops != [] ==>
        WellFormed(|old(View())|, ops)
        && ExactUnlessHazard(Valid(), View(), old(Abs()), BatchEntry(old(View()), ops), now)
    {
      hide Coherent, Replay, RedoCoherent, CountNonLp, Output, Prefix, Hazard, RecordSplice, BatchFault;
      if mode != Mutable {
        return Failed(ReadonlyEditor);
      }
      if ops == [] {
        return Done;
      }
      var sourceLen := SourceLen();
      var fault, lastEnd := ValidateBatch(ops, sourceLen);
      if fault.Some? {
        return Failed(fault.value);
      }
      FirstOffsetBeforeEnd(sourceLen, ops);
      var oldBytes := ReadSpan(ops[0].offset, lastEnd - ops[0].offset);
      var newBytes := Interleave(ops, oldBytes);
      BatchIsItsOps(View(), ops);
      CommitSplice(EditEntry(ops[0].offset, oldBytes, newBytes), now);
      r := Done;
    }

    // ---------------------------------------------------------- history

    /** Move the newest entry from the undo to the redo stack. */
    method TakeUndo() returns (entry: EditEntry)
      requires undoStack != []
      modifies this`undoStack, this`redoStack, this`nonLpEntries, this`revision
      ensures entry == Last(old(undoStack)) && undoStack == old(undoStack)[..|old(undoStack)| - 1]
      ensures nonLpEntries ==
        if !entry.LengthPreserving() && old(nonLpEntries) > 0 then old(nonLpEntries) - 1 else old(nonLpEntries)
      ensures redoStack == old(redoStack) + [entry] && revision == old(revision) + 1
    {
      entry := undoStack[|undoStack| - 1];
      undoStack := undoStack[..|undoStack| - 1];
      redoStack := redoStack + [entry];
      revision := revision + 1;
      if !entry.LengthPreserving() && nonLpEntries > 0 {
        nonLpEntries := nonLpEntries - 1;
      }
    }

    /** Move the newest undone entry back to the undo stack. */
    method TakeRedo() returns (entry: EditEntry)
      requires redoStack != []
      modifies this`undoStack, this`redoStack, this`nonLpEntries, this`revision
      ensures entry == Last(old(redoStack)) && redoStack == old(redoStack)[..|old(redoStack)| - 1]
      ensures undoStack == old(undoStack) + [entry]
      ensures nonLpEntries == if entry.LengthPreserving() then old(nonLpEntries) else old(nonLpEntries) + 1
      ensures revision == old(revision) + 1
    {
      entry := redoStack[|redoStack| - 1];
      redoStack := redoStack[..|redoStack| - 1];
      revision := revision + 1;
      if !entry.LengthPreserving() {
        nonLpEntries := nonLpEntries + 1;
      }
      undoStack := undoStack + [entry];
    }

    /** Undo: the remaining stack is replayed, so an emptied stack leaves a clean patch. */
    method UndoEdit() returns (r: Outcome)
      requires Valid()
      modifies this
      ensures Valid() && (Abs(), r) == StepUndo(old(Abs()))
      ensures undoStack == [] && r.Moved? ==> patch == []
    {
      hide Consistent, Output, WellFormed, AllLp;
      if mode != Mutable || undoStack == [] {
        return Nothing;
      }
      UndoStaysConsistent(Abs());
      var entry := TakeUndo();
      RebuildPatchFromStack();
      historyBreak, editHighNibble := true, true;
      ConsistentIsValid();
      r := Moved(entry);
    }

    method RedoEdit() returns (r: Outcome)
      requires Valid()
      modifies this
      ensures Valid() && (Abs(), r) == StepRedo(old(Abs()))
    {
      hide Consistent, Output, WellFormed, AllLp;
      if mode != Mutable || redoStack == [] {
        return Nothing;
      }
      RedoStaysConsistent(Abs());
      var entry := TakeRedo();
      RebuildPatchFromStack();
      historyBreak, editHighNibble := true, true;
      ConsistentIsValid();
      r := Moved(entry);
    }

    method RevertAll()
      requires Usable()
      modifies this
      ensures Valid() && Abs() == StepRevert(old(Abs())) && patch == []
    {
      hide Consistent, Output, WellFormed, AllLp;
      revision := revision + 1;
      undoStack, redoStack, historyBreak, lastEditAt, nonLpEntries := [], [], true, None, 0;
      RebuildPatchFromStack();
      NoHistoryIsConsistent(Abs());
    }

    // ------------------------------------------------------------- modes

    method PushHistoryBoundary()
      requires Valid()
      modifies this`historyBreak
      ensures Valid() && Abs() == Step(old(Abs()), Boundary, 0).0
    {
      hide Consistent, Output, WellFormed;
      SameHistoryConsistent(Abs(), Step(Abs(), Boundary, 0).0);
      historyBreak := true;
    }

    method ResetEditNibble()
      requires Valid()
      modifies this`editHighNibble
      ensures Valid() && Abs() == old(Abs()).(highNibble := true)
    {
      hide Consistent, Output, WellFormed;
      SameHistoryConsistent(Abs(), Abs().(highNibble := true));
      editHighNibble := true;
    }

    method SetEditMode(newMode: EditMode)
      requires Valid()
      modifies this`mode, this`editHighNibble, this`historyBreak
      ensures Valid() && Abs() == Step(old(Abs()), SetMode(newMode), 0).0
    {
      hide Consistent, Output, WellFormed;
      SameHistoryConsistent(Abs(), Step(Abs(), SetMode(newMode), 0).0);
      mode, editHighNibble, historyBreak := newMode, true, true;
    }

    method ChangeTypingMode(typing: TypingMode)
      requires Valid()
      modifies this`typingMode, this`editHighNibble, this`historyBreak
      ensures Valid() && Abs() == Step(old(Abs()), SetTypingMode(typing), 0).0
    {
      hide Consistent, Output, WellFormed;
      SameHistoryConsistent(Abs(), Step(Abs(), SetTypingMode(typing), 0).0);
      typingMode, editHighNibble, historyBreak := typing, true, true;
    }
  }
}
