/**
 The patch overlay: a sorted list of disjoint replacements in base coordinates,
 the reader that walks it (crates/hxy-core/src/patched.rs) and the byte diff that
 emits it (crates/hxy-editor/src/editor.rs).
 */
module PatchOverlay {
  import opened Splices

  /** Replace the `oldLen` base bytes at `offset` by `newBytes`. */
  datatype PatchOp = PatchOp(offset: nat, oldLen: nat, newBytes: Bytes) {
    predicate LengthPreserving() {
      oldLen == |newBytes|
    }
  }

  datatype ReadResult = ReadBytes(bytes: Bytes) | ReadOutOfBounds(sourceLen: nat)

  /** The first base byte behind the last replacement. */
  function End(ops: seq<PatchOp>): nat {
    if ops == [] then 0 else ops[|ops| - 1].offset + ops[|ops| - 1].oldLen
  }

  /** Sorted, disjoint, and inside a base of `baseLen` bytes. */
  predicate WellFormed(baseLen: nat, ops: seq<PatchOp>) {
    ops == [] ||
    var init, op := ops[..|ops| - 1], ops[|ops| - 1];
    WellFormed(baseLen, init) && End(init) <= op.offset && op.offset + op.oldLen <= baseLen
  }

  predicate AllLp(ops: seq<PatchOp>) {
    forall k :: 0 <= k < |ops| ==> ops[k].LengthPreserving()
  }

  /** What a patch means: its replacements made one by one, rightmost first. */
  function SplicedRightToLeft(buf: Bytes, ops: seq<PatchOp>): Bytes
    requires WellFormed(|buf|, ops)
    decreases |ops|
  {
    if ops == [] then buf
    else
      var init, op := ops[..|ops| - 1], ops[|ops| - 1];
      WellFormedShorter(|buf|, op.offset, init);
      WellFormedShorter(op.offset, |Splice(buf, op.offset, op.oldLen, op.newBytes)|, init);
      SplicedRightToLeft(Splice(buf, op.offset, op.oldLen, op.newBytes), init)
  }

  /** The patched bytes up to the end of the last replacement, as the reader walks them. */
  function Prefix(base: Bytes, ops: seq<PatchOp>): Bytes
    requires WellFormed(|base|, ops)
  {
    if ops == [] then []
    else
      var init, op := ops[..|ops| - 1], ops[|ops| - 1];
      WellFormedShorter(|base|, op.offset, init);
      Prefix(base, init) + base[End(init)..op.offset] + op.newBytes
  }

  /** The patched bytes. */
  function Output(base: Bytes, ops: seq<PatchOp>): Bytes
    requires WellFormed(|base|, ops)
  {
    EndInBase(|base|, ops);
    Prefix(base, ops) + base[End(ops)..]
  }

  /** The length a patch announces for a base of `baseLen` bytes. */
  function OutputLen(baseLen: nat, ops: seq<PatchOp>): int {
    if ops == [] then baseLen
    else OutputLen(baseLen, ops[..|ops| - 1]) + |ops[|ops| - 1].newBytes| - ops[|ops| - 1].oldLen
  }

  lemma {:induction false} EndInBase(baseLen: nat, ops: seq<PatchOp>)
    requires WellFormed(baseLen, ops)
    ensures End(ops) <= baseLen
  {
  }

  lemma {:induction false} WellFormedShorter(baseLen: nat, shorter: nat, ops: seq<PatchOp>)
    requires WellFormed(baseLen, ops) && End(ops) <= shorter
    ensures WellFormed(shorter, ops)
    decreases |ops|
  {
    if ops != [] {
      WellFormedShorter(baseLen, shorter, ops[..|ops| - 1]);
    }
  }

  lemma {:induction false} WellFormedTake(baseLen: nat, ops: seq<PatchOp>, k: nat)
    requires WellFormed(baseLen, ops) && k <= |ops|
    ensures WellFormed(baseLen, ops[..k])
    decreases |ops|
  {
    if k == |ops| {
      assert ops[..k] == ops;
    } else {
      WellFormedTake(baseLen, ops[..|ops| - 1], k);
      assert ops[..|ops| - 1][..k] == ops[..k];
    }
  }

  /** What one more replacement behind the others does. */
  lemma PushOp(base: Bytes, ops: seq<PatchOp>, op: PatchOp)
    requires WellFormed(|base|, ops) && End(ops) <= op.offset && op.offset + op.oldLen <= |base|
    ensures WellFormed(|base|, ops + [op]) && End(ops + [op]) == op.offset + op.oldLen
    ensures Prefix(base, ops + [op]) == Prefix(base, ops) + base[End(ops)..op.offset] + op.newBytes
    ensures OutputLen(|base|, ops + [op]) == OutputLen(|base|, ops) + |op.newBytes| - op.oldLen
  {
    assert (ops + [op])[..|ops|] == ops;
  }

  /** One step of the walk. */
  lemma {:induction false} WalkStep(base: Bytes, ops: seq<PatchOp>, k: nat)
    requires WellFormed(|base|, ops) && k < |ops|
    ensures WellFormed(|base|, ops[..k]) && WellFormed(|base|, ops[..k + 1])
    ensures End(ops[..k]) <= ops[k].offset && ops[k].offset + ops[k].oldLen <= |base|
    ensures End(ops[..k + 1]) == ops[k].offset + ops[k].oldLen
    ensures Prefix(base, ops[..k + 1]) ==
      Prefix(base, ops[..k]) + base[End(ops[..k])..ops[k].offset] + ops[k].newBytes
  {
    WellFormedTake(|base|, ops, k + 1);
    assert ops[..k + 1][..k] == ops[..k];
  }

  /** The reader's announced length is the length of what it can deliver. */
  lemma {:induction false} OutputLenIsLength(base: Bytes, ops: seq<PatchOp>)
    requires WellFormed(|base|, ops)
    ensures OutputLen(|base|, ops) == |Output(base, ops)|
  {
    if ops != [] {
      OutputLenIsLength(base, ops[..|ops| - 1]);
    }
  }

  lemma {:induction false} PrefixReadsOnlyBelowEnd(a: Bytes, b: Bytes, ops: seq<PatchOp>)
    requires WellFormed(|a|, ops) && WellFormed(|b|, ops)
    requires a[..End(ops)] == b[..End(ops)]
    ensures Prefix(a, ops) == Prefix(b, ops)
    decreases |ops|
  {
    if ops != [] {
      var init, op := ops[..|ops| - 1], ops[|ops| - 1];
      forall k | 0 <= k < op.offset ensures a[k] == b[k] {
        assert a[k] == a[..End(ops)][k] == b[..End(ops)][k];
      }
      assert a[..End(init)] == b[..End(init)];
      PrefixReadsOnlyBelowEnd(a, b, init);
      assert a[End(init)..op.offset] == b[End(init)..op.offset];
    }
  }

  lemma SpliceKeepsFront(s: Bytes, at: nat, remove: nat, insert: Bytes, k: nat)
    requires k <= at && at + remove <= |s|
    ensures Splice(s, at, remove, insert)[..k] == s[..k]
    ensures Splice(s, at, remove, insert)[k..] == s[k..at] + insert + s[at + remove..]
  {
  }

  lemma Regroup(a: Bytes, b: Bytes, c: Bytes, d: Bytes)
    ensures (a + b + c) + d == a + (b + c + d)
  {
  }

  /** The left-to-right walk delivers what the right-to-left replacements build. */
  lemma {:induction false} WalkIsSplices(base: Bytes, ops: seq<PatchOp>)
    requires WellFormed(|base|, ops)
    ensures Output(base, ops) == SplicedRightToLeft(base, ops)
    decreases |ops|
  {
    if ops != [] {
      var init, op := ops[..|ops| - 1], ops[|ops| - 1];
      var next := Splice(base, op.offset, op.oldLen, op.newBytes);
      WellFormedShorter(|base|, op.offset, init);
      WellFormedShorter(op.offset, |next|, init);
      WalkIsSplices(next, init);
      SpliceKeepsFront(base, op.offset, op.oldLen, op.newBytes, End(init));
      PrefixReadsOnlyBelowEnd(base, next, init);
      Regroup(Prefix(base, init), base[End(init)..op.offset], op.newBytes, base[op.offset + op.oldLen..]);
    } else {
      assert Output(base, ops) == base;
    }
  }

  // ------------------------------------------------------------- reading

  /** The part of `s` whose indices lie in `[from, to)`. */
  function Clip(s: Bytes, from: nat, to: nat): Bytes
    requires from <= to
  {
    if |s| <= from then [] else if |s| <= to then s[from..] else s[from..to]
  }

  lemma ClipAppend(s: Bytes, t: Bytes, from: nat, to: nat)
    requires from <= to
    ensures Clip(s + t, from, to) == Clip(s, from, to) +
      Clip(t, if from <= |s| then 0 else from - |s|, if to <= |s| then 0 else to - |s|)
  {
  }

  /**
   Append the wanted part of a segment that starts at `outputOffset` of the output;
   `before` is the output in front of it.
   */
  method CopySegmentFromSlice(
      bytes: Bytes, outputOffset: nat, wantStart: nat, wantEnd: nat, out: Bytes, ghost before: Bytes)
    returns (r: Bytes)
    requires wantStart <= wantEnd && |before| == outputOffset && out == Clip(before, wantStart, wantEnd)
    ensures r == Clip(before + bytes, wantStart, wantEnd)
  {
    ClipAppend(before, bytes, wantStart, wantEnd);
    var segEnd := outputOffset + |bytes|;
    if segEnd <= wantStart || outputOffset >= wantEnd {
      return out;
    }
    var localStart := if wantStart <= outputOffset then 0 else wantStart - outputOffset;
    var localEnd := if wantEnd - outputOffset <= |bytes| then wantEnd - outputOffset else |bytes|;
    r := out + bytes[localStart..localEnd];
  }

  /** The same for a segment of the base, read only where it is wanted. */
  method CopySegmentFromBase(
      base: Bytes, sourceOffset: nat, len: nat, outputOffset: nat, wantStart: nat, wantEnd: nat, out: Bytes,
      ghost before: Bytes)
    returns (r: Bytes)
    requires wantStart <= wantEnd && sourceOffset + len <= |base|
    requires |before| == outputOffset && out == Clip(before, wantStart, wantEnd)
    ensures r == Clip(before + base[sourceOffset..sourceOffset + len], wantStart, wantEnd)
  {
    ghost var segment := base[sourceOffset..sourceOffset + len];
    ClipAppend(before, segment, wantStart, wantEnd);
    var segEnd := outputOffset + len;
    if segEnd <= wantStart || outputOffset >= wantEnd {
      return out;
    }
    var localStart := if wantStart <= outputOffset then 0 else wantStart - outputOffset;
    var localEnd := if wantEnd - outputOffset <= len then wantEnd - outputOffset else len;
    SliceOfSlice(base, sourceOffset, len, localStart, localEnd);
    r := out + base[sourceOffset + localStart..sourceOffset + localEnd];
  }

  /** One replacement of the walk: the base bytes in front of it, then its own. */
  method CopyOp(
      base: Bytes, op: PatchOp, sourceCursor: nat, outputCursor: nat, wantStart: nat, wantEnd: nat, out: Bytes,
      ghost before: Bytes)
    returns (r: Bytes, cursor: nat)
    requires wantStart <= wantEnd && sourceCursor <= op.offset <= |base|
    requires |before| == outputCursor && out == Clip(before, wantStart, wantEnd)
    ensures r == Clip(before + base[sourceCursor..op.offset] + op.newBytes, wantStart, wantEnd)
    ensures cursor == |before + base[sourceCursor..op.offset] + op.newBytes|
  {
    r, cursor := out, outputCursor;
    ghost var gap := base[sourceCursor..op.offset];
    var preLen := op.offset - sourceCursor;
    if preLen > 0 {
      r := CopySegmentFromBase(base, sourceCursor, preLen, cursor, wantStart, wantEnd, r, before);
      cursor := cursor + preLen;
    } else {
      assert before + gap == before;
    }
    if |op.newBytes| > 0 {
      r := CopySegmentFromSlice(op.newBytes, cursor, wantStart, wantEnd, r, before + gap);
      cursor := cursor + |op.newBytes|;
    } else {
      assert before + gap + op.newBytes == before + gap;
    }
  }

  /** `PatchedSource::read`: exactly the wanted slice of the patched bytes. */
  method Read(base: Bytes, ops: seq<PatchOp>, start: nat, end: nat) returns (r: ReadResult)
    requires WellFormed(|base|, ops) && start <= end
    ensures end > |Output(base, ops)| ==> r == ReadOutOfBounds(|Output(base, ops)|)
    ensures end <= |Output(base, ops)| ==> r == ReadBytes(Output(base, ops)[start..end])
  {
    if ops == [] {
      assert Output(base, ops) == base;
      return if end > |base| then ReadOutOfBounds(|base|) else ReadBytes(base[start..end]);
    }
    OutputLenIsLength(base, ops);
    var totalLen := OutputLen(|base|, ops);
    if end > totalLen {
      return ReadOutOfBounds(totalLen);
    }
    var out := Walk(base, ops, start, end);
    r := ReadBytes(out);
  }

  /** The walk over the ops, base segments and new bytes in turn. */
  method Walk(base: Bytes, ops: seq<PatchOp>, start: nat, end: nat) returns (out: Bytes)
    requires WellFormed(|base|, ops) && start <= end <= |Output(base, ops)|
    ensures out == Output(base, ops)[start..end]
  {
    hide Clip, Output, OutputLen;
    out := [];
    ClipEnds(Output(base, ops), start, end);
    var outputCursor, sourceCursor := 0, 0;
    var k := 0;
    while k < |ops|
      invariant k <= |ops| && WellFormed(|base|, ops[..k])
      invariant sourceCursor == End(ops[..k])
      invariant outputCursor == |Prefix(base, ops[..k])|
      invariant out == Clip(Prefix(base, ops[..k]), start, end)
    {
      WalkStep(base, ops, k);
      out, outputCursor :=
        CopyOp(base, ops[k], sourceCursor, outputCursor, start, end, out, Prefix(base, ops[..k]));
      sourceCursor := ops[k].offset + ops[k].oldLen;
      k := k + 1;
    }
    assert ops[..k] == ops;
    EndInBase(|base|, ops);
    OutputIsPrefixAndTail(base, ops);
    if sourceCursor < |base| {
      out := CopySegmentFromBase(
        base, sourceCursor, |base| - sourceCursor, outputCursor, start, end, out, Prefix(base, ops));
    }
  }

  lemma ClipEnds(s: Bytes, from: nat, to: nat)
    requires from <= to <= |s|
    ensures Clip([], from, to) == [] && Clip(s, from, to) == s[from..to]
  {
  }

  lemma OutputIsPrefixAndTail(base: Bytes, ops: seq<PatchOp>)
    requires WellFormed(|base|, ops)
    ensures End(ops) <= |base| && Output(base, ops) == Prefix(base, ops) + base[End(ops)..|base|]
    ensures End(ops) == |base| ==> Output(base, ops) == Prefix(base, ops)
  {
    EndInBase(|base|, ops);
    assert base[End(ops)..|base|] == base[End(ops)..];
  }

  // ------------------------------------------------------------- diffing

  /** `ops` turn `base[..i]` into `buffer[..i]`, by overwrites alone. */
  ghost predicate DiffedUpTo(base: Bytes, buffer: Bytes, ops: seq<PatchOp>, i: nat) {
    && i <= |base| && i <= |buffer|
    && WellFormed(|base|, ops) && End(ops) <= i && AllLp(ops)
    && Prefix(base, ops) + base[End(ops)..i] == buffer[..i]
    && (ops == [] <==> buffer[..i] == base[..i])
  }

  lemma DiffSameByte(base: Bytes, buffer: Bytes, ops: seq<PatchOp>, i: nat)
    requires DiffedUpTo(base, buffer, ops, i) && i < |base| && i < |buffer| && base[i] == buffer[i]
    ensures DiffedUpTo(base, buffer, ops, i + 1)
  {
    assert base[End(ops)..i + 1] == base[End(ops)..i] + [base[i]];
    assert buffer[..i + 1] == buffer[..i] + [buffer[i]];
    assert base[..i + 1] == base[..i] + [base[i]];
    assert buffer[..i + 1][..i] == buffer[..i] && base[..i + 1][..i] == base[..i];
    assert Prefix(base, ops) + base[End(ops)..i + 1] == (Prefix(base, ops) + base[End(ops)..i]) + [base[i]];
  }

  lemma DiffRun(base: Bytes, buffer: Bytes, ops: seq<PatchOp>, i: nat, j: nat)
    requires DiffedUpTo(base, buffer, ops, i) && i < j <= |base| && j <= |buffer| && base[i] != buffer[i]
    ensures DiffedUpTo(base, buffer, ops + [PatchOp(i, j - i, buffer[i..j])], j)
  {
    var op := PatchOp(i, j - i, buffer[i..j]);
    PushOp(base, ops, op);
    assert base[j..j] == [];
    assert buffer[..i] + buffer[i..j] == buffer[..j];
    assert buffer[..j][i] != base[..j][i];
  }

  lemma DiffTail(base: Bytes, buffer: Bytes, ops: seq<PatchOp>, i: nat, op: PatchOp)
    requires DiffedUpTo(base, buffer, ops, i) && (i == |base| || i == |buffer|)
    requires op == PatchOp(i, |base| - i, buffer[i..])
    ensures WellFormed(|base|, ops + [op]) && Output(base, ops + [op]) == buffer
  {
    PushOp(base, ops, op);
    assert base[|base|..] == [];
    assert buffer == buffer[..i] + buffer[i..];
  }

  /** The end of the run of differing bytes that starts at `i`. */
  method RunEnd(base: Bytes, buffer: Bytes, i: nat, compareEnd: nat) returns (j: nat)
    requires i < compareEnd <= |base| && compareEnd <= |buffer| && base[i] != buffer[i]
    ensures i < j <= compareEnd
    ensures forall k :: i <= k < j ==> base[k] != buffer[k]
    ensures j < compareEnd ==> base[j] == buffer[j]
  {
    j := i + 1;
    while j < compareEnd && base[j] != buffer[j]
      invariant i < j <= compareEnd
      invariant forall k :: i <= k < j ==> base[k] != buffer[k]
    {
      j := j + 1;
    }
  }

  /**
   The ops that turn `base` into `buffer`: one per maximal run of differing bytes
   inside the common length, then the tail that was cut off or added.
   */
  method Diff(base: Bytes, buffer: Bytes) returns (ops: seq<PatchOp>)
    ensures WellFormed(|base|, ops) && Output(base, ops) == buffer
    ensures |buffer| == |base| ==> AllLp(ops)
    ensures ops == [] <==> buffer == base
  {
    ops := [];
    var compareEnd := if |base| <= |buffer| then |base| else |buffer|;
    var i := 0;
    while i < compareEnd
      invariant i <= compareEnd
      invariant DiffedUpTo(base, buffer, ops, i)
    {
      if base[i] != buffer[i] {
        var j := RunEnd(base, buffer, i, compareEnd);
        DiffRun(base, buffer, ops, i, j);
        ops := ops + [PatchOp(i, j - i, buffer[i..j])];
        i := j;
      } else {
        DiffSameByte(base, buffer, ops, i);
        i := i + 1;
      }
    }
    assert buffer[i..] == [] || base[i..] == [];
    if |buffer| < |base| {
      var op := PatchOp(|buffer|, |base| - |buffer|, []);
      DiffTail(base, buffer, ops, i, op);
      ops := ops + [op];
    } else if |buffer| > |base| {
      var op := PatchOp(|base|, 0, buffer[|base|..]);
      DiffTail(base, buffer, ops, i, op);
      ops := ops + [op];
    } else {
      assert buffer[..i] == buffer && base[..i] == base;
    }
  }

  // --------------------------------------------- length-preserving writes

  lemma LpPrefixLength(base: Bytes, ops: seq<PatchOp>)
    requires WellFormed(|base|, ops) && AllLp(ops)
    ensures |Prefix(base, ops)| == End(ops) && |Output(base, ops)| == |base|
  {
  }

  lemma SpliceIntoTail(p: Bytes, base: Bytes, at: nat, remove: nat, insert: Bytes)
    requires |p| <= at && at + remove <= |base|
    ensures Splice(p + base[|p|..], at, remove, insert) == (p + base[|p|..at] + insert) + base[at + remove..]
  {
    var o := p + base[|p|..];
    assert o[..at] == p + base[|p|..at];
    assert o[at + remove..] == base[at + remove..];
  }

  /** In a length-preserving patch each replacement is one overwrite. */
  lemma LpPushIsOverwrite(base: Bytes, ops: seq<PatchOp>, op: PatchOp)
    requires WellFormed(|base|, ops) && AllLp(ops) && op.LengthPreserving()
    requires End(ops) <= op.offset && op.offset + op.oldLen <= |base|
    ensures WellFormed(|base|, ops + [op]) && AllLp(ops + [op])
    ensures |Output(base, ops)| == |base|
    ensures Output(base, ops + [op]) == Overwrite(Output(base, ops), op.offset, op.newBytes)
  {
    hide WellFormed, Prefix, OutputLen;
    PushOp(base, ops, op);
    LpPrefixLength(base, ops);
    AllLpPush(ops, op);
    SpliceIntoTail(Prefix(base, ops), base, op.offset, op.oldLen, op.newBytes);
  }

  lemma AllLpPush(ops: seq<PatchOp>, op: PatchOp)
    requires AllLp(ops) && op.LengthPreserving()
    ensures AllLp(ops + [op])
  {
  }

  /** Put `bytes` at `at` into a length-preserving patch, joining every op it touches. */
  function WriteLp(ops: seq<PatchOp>, at: nat, bytes: Bytes): seq<PatchOp>
    requires AllLp(ops)
  {
    if ops == [] || End(ops) < at then
      ops + [PatchOp(at, |bytes|, bytes)]
    else
      var init, op := ops[..|ops| - 1], ops[|ops| - 1];
      if at + |bytes| < op.offset then
        WriteLp(init, at, bytes) + [op]
      else
        var joined := OverwriteUnion(op.offset, op.newBytes, at, bytes);
        WriteLp(init, if at <= op.offset then at else op.offset, joined)
  }

  /**
   `Patch::write`: overwrite in place. A patch that already shifts offsets is
   refused; nothing is assumed about what the library would have done with it.
   */
  function WritePatch(ops: seq<PatchOp>, at: nat, bytes: Bytes): Option<seq<PatchOp>> {
    if bytes == [] then Some(ops)
    else if AllLp(ops) then Some(WriteLp(ops, at, bytes))
    else None
  }

  /** `w` is `ops` with the patched bytes at `at` overwritten by `bytes`. */
  ghost predicate Overwrites(base: Bytes, ops: seq<PatchOp>, at: nat, bytes: Bytes, w: seq<PatchOp>)
    requires WellFormed(|base|, ops) && at + |bytes| <= |base|
  {
    && WellFormed(|base|, w) && AllLp(w)
    && End(w) <= (if End(ops) <= at + |bytes| then at + |bytes| else End(ops))
    && |Output(base, ops)| == |base|
    && Output(base, w) == Overwrite(Output(base, ops), at, bytes)
  }

  /** The write lies in front of the last op. */
  lemma WriteBefore(base: Bytes, init: seq<PatchOp>, op: PatchOp, at: nat, bytes: Bytes, w: seq<PatchOp>)
    requires WellFormed(|base|, init) && AllLp(init) && op.LengthPreserving()
    requires End(init) <= op.offset && op.offset + op.oldLen <= |base| && at + |bytes| < op.offset
    requires Overwrites(base, init, at, bytes, w)
    ensures WellFormed(|base|, init + [op]) && Overwrites(base, init + [op], at, bytes, w + [op])
  {
    LpPushIsOverwrite(base, init, op);
    LpPushIsOverwrite(base, w, op);
    LpPrefixLength(base, init + [op]);
    OverwritesCommute(Output(base, init), at, bytes, op.offset, op.newBytes);
  }

  /** The write touches the last op and is joined with it. */
  lemma WriteJoined(
      base: Bytes, init: seq<PatchOp>, op: PatchOp, at: nat, bytes: Bytes, from: nat, joined: Bytes, w: seq<PatchOp>)
    requires WellFormed(|base|, init) && AllLp(init) && op.LengthPreserving()
    requires End(init) <= op.offset && op.offset + op.oldLen <= |base| && at + |bytes| <= |base|
    requires op.offset <= at + |bytes| && at <= op.offset + |op.newBytes|
    requires from == if at <= op.offset then at else op.offset
    requires joined == OverwriteUnion(op.offset, op.newBytes, at, bytes)
    requires Overwrites(base, init, from, joined, w)
    ensures WellFormed(|base|, init + [op]) && Overwrites(base, init + [op], at, bytes, w)
  {
    LpPushIsOverwrite(base, init, op);
    LpPrefixLength(base, init + [op]);
    var o := Output(base, init);
    assert Output(base, w) == Overwrite(o, from, joined);
    assert Output(base, init + [op]) == Overwrite(o, op.offset, op.newBytes);
    OverwriteTwice(o, op.offset, op.newBytes, at, bytes);
  }

  /** Writing into a length-preserving patch overwrites the patched bytes, and nothing else. */
  lemma {:induction false} WriteLpOverwrites(base: Bytes, ops: seq<PatchOp>, at: nat, bytes: Bytes)
    requires WellFormed(|base|, ops) && AllLp(ops) && at + |bytes| <= |base|
    ensures Overwrites(base, ops, at, bytes, WriteLp(ops, at, bytes))
    decreases |ops|
  {
    if ops == [] || End(ops) < at {
      LpPushIsOverwrite(base, ops, PatchOp(at, |bytes|, bytes));
    } else {
      var init, op := ops[..|ops| - 1], ops[|ops| - 1];
      assert ops == init + [op];
      if at + |bytes| < op.offset {
        WriteLpOverwrites(base, init, at, bytes);
        WriteBefore(base, init, op, at, bytes, WriteLp(init, at, bytes));
      } else {
        var joined := OverwriteUnion(op.offset, op.newBytes, at, bytes);
        var from := if at <= op.offset then at else op.offset;
        WriteLpOverwrites(base, init, from, joined);
        WriteJoined(base, init, op, at, bytes, from, joined, WriteLp(init, from, joined));
      }
    }
  }
}
