/**
 Undo entries, what it means to replay them, and the three rules by which a new
 edit is folded into the previous entry (crates/hxy-editor/src/editor.rs).
 */
module EditHistory {
  import opened Splices

  /** One reversible edit: at `offset` the bytes `oldBytes` were replaced by `newBytes`. */
  datatype EditEntry = EditEntry(offset: nat, oldBytes: Bytes, newBytes: Bytes) {
    function End(): nat {
      offset + |newBytes|
    }

    predicate LengthPreserving() {
      |oldBytes| == |newBytes|
    }
  }

  predicate Fits(buf: Bytes, e: EditEntry) {
    e.offset + |e.oldBytes| <= |buf|
  }

  /** `e` records exactly the bytes that `buf` holds at its place. */
  predicate Captures(buf: Bytes, e: EditEntry) {
    Fits(buf, e) && buf[e.offset..e.offset + |e.oldBytes|] == e.oldBytes
  }

  /** One replay step; an entry that does not fit is skipped. */
  function Apply(buf: Bytes, e: EditEntry): Bytes {
    if Fits(buf, e) then Splice(buf, e.offset, |e.oldBytes|, e.newBytes) else buf
  }

  /** The bytes before `e`, given the bytes after it. */
  function Unapply(buf: Bytes, e: EditEntry): Bytes
    requires e.End() <= |buf|
  {
    Splice(buf, e.offset, |e.newBytes|, e.oldBytes)
  }

  /** The undo stack applied, oldest first, to the base bytes. */
  function Replay(base: Bytes, stack: seq<EditEntry>): Bytes {
    if stack == [] then base
    else Apply(Replay(base, stack[..|stack| - 1]), stack[|stack| - 1])
  }

  /** Every entry of the stack captured the bytes it replaced. */
  predicate Coherent(base: Bytes, stack: seq<EditEntry>) {
    stack == [] ||
    var init := stack[..|stack| - 1];
    Coherent(base, init) && Captures(Replay(base, init), stack[|stack| - 1])
  }

  /** The redo stack, whose top is its last entry, captures the bytes it will replace. */
  predicate RedoCoherent(view: Bytes, redo: seq<EditEntry>)
    decreases |redo|
  {
    redo == [] ||
    var top := redo[|redo| - 1];
    Captures(view, top) && RedoCoherent(Apply(view, top), redo[..|redo| - 1])
  }

  function CountNonLp(stack: seq<EditEntry>): nat {
    if stack == [] then 0
    else
      CountNonLp(stack[..|stack| - 1]) + (if stack[|stack| - 1].LengthPreserving() then 0 else 1)
  }

  /** Taking an entry back restores the bytes it was applied to. */
  lemma UnapplyApply(buf: Bytes, e: EditEntry)
    requires Captures(buf, e)
    ensures e.End() <= |Apply(buf, e)|
    ensures Unapply(Apply(buf, e), e) == buf
  {
    SpliceBack(buf, e.offset, |e.oldBytes|, e.newBytes);
  }

  // ---------------------------------------------------------------- stacks

  lemma ReplayPush(base: Bytes, stack: seq<EditEntry>, e: EditEntry)
    ensures Replay(base, stack + [e]) == Apply(Replay(base, stack), e)
    ensures Coherent(base, stack + [e]) <==> Coherent(base, stack) && Captures(Replay(base, stack), e)
    ensures CountNonLp(stack + [e]) == CountNonLp(stack) + (if e.LengthPreserving() then 0 else 1)
  {
    assert (stack + [e])[..|stack|] == stack;
  }

  /** Replaying a concatenation is replaying its parts in turn. */
  lemma {:induction false} ReplaySplit(base: Bytes, first: seq<EditEntry>, rest: seq<EditEntry>)
    ensures Replay(base, first + rest) == Replay(Replay(base, first), rest)
    ensures Coherent(base, first + rest) <==> Coherent(base, first) && Coherent(Replay(base, first), rest)
    ensures CountNonLp(first + rest) == CountNonLp(first) + CountNonLp(rest)
    decreases |rest|
  {
    if rest == [] {
      assert first + rest == first;
    } else {
      var init := rest[..|rest| - 1];
      ReplaySplit(base, first, init);
      assert (first + rest)[..|first + rest| - 1] == first + init;
    }
  }

  /** A stack with no resizing entry leaves the length alone. */
  lemma {:induction false} LpReplayKeepsLength(base: Bytes, stack: seq<EditEntry>)
    requires CountNonLp(stack) == 0
    ensures |Replay(base, stack)| == |base|
  {
    if stack != [] {
      LpReplayKeepsLength(base, stack[..|stack| - 1]);
    }
  }

  /** A coherent stack can be taken back, so it fits only one base for a given result. */
  lemma {:induction false} ReplayInjective(a: Bytes, b: Bytes, stack: seq<EditEntry>)
    requires Coherent(a, stack) && Coherent(b, stack)
    requires Replay(a, stack) == Replay(b, stack)
    ensures a == b
    decreases |stack|
  {
    if stack != [] {
      var init, e := stack[..|stack| - 1], stack[|stack| - 1];
      UnapplyApply(Replay(a, init), e);
      UnapplyApply(Replay(b, init), e);
      ReplayInjective(a, b, init);
    }
  }

  /**
   Dropping the oldest entry of a coherent stack leaves a coherent stack for the
   same bytes exactly when that entry changed nothing.
   */
  lemma DroppingOldest(base: Bytes, stack: seq<EditEntry>)
    requires stack != [] && Coherent(base, stack)
    ensures (Coherent(base, stack[1..]) && Replay(base, stack[1..]) == Replay(base, stack))
       <==> stack[0].oldBytes == stack[0].newBytes
  {
    var e, rest := stack[0], stack[1..];
    assert stack == [e] + rest;
    ReplaySplit(base, [e], rest);
    ReplayPush(base, [], e);
    assert [] + [e] == [e];
    var after := Apply(base, e);
    assert Coherent(after, rest) && Replay(after, rest) == Replay(base, stack);
    if e.oldBytes == e.newBytes {
      assert after == base;
    }
    if Coherent(base, rest) && Replay(base, rest) == Replay(base, stack) {
      ReplayInjective(base, after, rest);
      assert |e.oldBytes| == |e.newBytes|;
      assert after[e.offset..e.offset + |e.newBytes|] == e.newBytes;
    }
  }

  // ------------------------------------------------------------ coalescing

  predicate RangesTouch(aStart: nat, aEnd: nat, bStart: nat, bEnd: nat) {
    aStart <= bEnd && bStart <= aEnd
  }

  /** Both entries keep the length and their ranges touch. */
  predicate Mergeable(dst: EditEntry, next: EditEntry) {
    && dst.LengthPreserving() && next.LengthPreserving()
    && RangesTouch(dst.offset, dst.End(), next.offset, next.End())
  }

  function Min(a: nat, b: nat): nat {
    if a <= b then a else b
  }

  function Max(a: nat, b: nat): nat {
    if a <= b then b else a
  }

  /**
   The single entry that stands for `dst` followed by `next`: the later bytes win
   on the new side, the earlier ones on the old side.
   */
  function Merged(dst: EditEntry, next: EditEntry): (m: EditEntry)
    requires Mergeable(dst, next)
    ensures m.LengthPreserving()
    ensures m.offset == Min(dst.offset, next.offset) && m.End() == Max(dst.End(), next.End())
  {
    var oldBefore := if next.offset < dst.offset then next.oldBytes[..dst.offset - next.offset] else [];
    var oldBehind := if next.End() > dst.End() then next.oldBytes[dst.End() - next.offset..] else [];
    EditEntry(
      Min(dst.offset, next.offset),
      oldBefore + dst.oldBytes + oldBehind,
      OverwriteUnion(dst.offset, dst.newBytes, next.offset, next.newBytes))
  }

  /** The entry that replaces `last` when `e` is folded into it, if a rule applies. */
  function Coalesced(last: EditEntry, e: EditEntry): Option<EditEntry> {
    if Mergeable(last, e) then
      Some(Merged(last, e))
    else if e.LengthPreserving() && last.offset <= e.offset && e.End() <= last.End() then
      Some(last.(newBytes := Overwrite(last.newBytes, e.offset - last.offset, e.newBytes)))
    else if last.oldBytes == [] && e.oldBytes == [] && e.offset == last.End() then
      Some(last.(newBytes := last.newBytes + e.newBytes))
    else
      None
  }

  /** Overwriting `x` at `a`, then a touching `y` at `b`, is one overwrite of their union. */
  lemma MergedNewBytes(buf: Bytes, dst: EditEntry, next: EditEntry)
    requires Mergeable(dst, next) && Fits(buf, dst) && Fits(buf, next)
    ensures Fits(buf, Merged(dst, next))
    ensures Apply(Apply(buf, dst), next) == Apply(buf, Merged(dst, next))
  {
    OverwriteTwice(buf, dst.offset, dst.newBytes, next.offset, next.newBytes);
  }

  lemma CapturesPointwise(buf: Bytes, e: EditEntry)
    requires Fits(buf, e)
    ensures Captures(buf, e) <==> forall k :: 0 <= k < |e.oldBytes| ==> buf[e.offset + k] == e.oldBytes[k]
  {
    var slice := buf[e.offset..e.offset + |e.oldBytes|];
    assert forall k :: 0 <= k < |e.oldBytes| ==> slice[k] == buf[e.offset + k];
  }

  /** The merged entry remembers the bytes that were there before either edit. */
  lemma MergedOldBytes(buf: Bytes, dst: EditEntry, next: EditEntry)
    requires Mergeable(dst, next)
    requires Captures(buf, dst) && Captures(Apply(buf, dst), next)
    ensures Captures(buf, Merged(dst, next))
  {
    var m := Merged(dst, next);
    forall k | 0 <= k < |m.oldBytes| ensures buf[m.offset + k] == m.oldBytes[k] {
      hide Captures, Apply;
      MergedOldByte(buf, dst, next, m.offset + k);
    }
    hide Apply;
    CapturesPointwise(buf, m);
  }

  /** Each byte was captured by the edit that first touched it. */
  lemma MergedOldByte(buf: Bytes, dst: EditEntry, next: EditEntry, p: nat)
    requires Mergeable(dst, next) && Captures(buf, dst) && Captures(Apply(buf, dst), next)
    requires var m := Merged(dst, next); m.offset <= p < m.offset + |m.oldBytes|
    ensures p < |buf| && var m := Merged(dst, next); buf[p] == m.oldBytes[p - m.offset]
  {
    MergedSide(dst, next, p);
    if dst.offset <= p < dst.End() {
      hide Merged;
      CapturesPointwise(buf, dst);
      assert buf[dst.offset + (p - dst.offset)] == dst.oldBytes[p - dst.offset];
    } else {
      hide Merged;
      CapturesPointwise(Apply(buf, dst), next);
      OverwriteAt(buf, dst.offset, dst.newBytes, p);
      assert Apply(buf, dst)[next.offset + (p - next.offset)] == next.oldBytes[p - next.offset];
    }
  }

  /** On the old side the first edit's bytes win. */
  lemma MergedSide(dst: EditEntry, next: EditEntry, p: nat)
    requires Mergeable(dst, next)
    requires var m := Merged(dst, next); m.offset <= p < m.offset + |m.oldBytes|
    ensures var m := Merged(dst, next);
      if dst.offset <= p < dst.End() then m.oldBytes[p - m.offset] == dst.oldBytes[p - dst.offset]
      else next.offset <= p < next.End() && m.oldBytes[p - m.offset] == next.oldBytes[p - next.offset]
  {
    hide OverwriteUnion;
  }

  /** Rule 2: overwriting part of what the last entry wrote. */
  lemma RewriteInside(buf: Bytes, last: EditEntry, e: EditEntry)
    requires Fits(buf, last) && e.LengthPreserving() && last.offset <= e.offset && e.End() <= last.End()
    ensures var m := last.(newBytes := Overwrite(last.newBytes, e.offset - last.offset, e.newBytes));
      Apply(buf, m) == Apply(Apply(buf, last), e)
  {
    var rel := e.offset - last.offset;
    var m := last.(newBytes := Overwrite(last.newBytes, rel, e.newBytes));
    var mid := Apply(buf, last);
    var two, one := Apply(mid, e), Apply(buf, m);
    assert |two| == |one| == |mid|;
    forall k | 0 <= k < |mid| ensures two[k] == one[k] {
      OverwriteAt(mid, e.offset, e.newBytes, k);
      if last.offset <= k < last.End() {
        OverwriteAt(last.newBytes, rel, e.newBytes, k - last.offset);
      }
    }
  }

  /** Rule 3: a pure insert right behind a pure insert. */
  lemma InsertBehind(buf: Bytes, last: EditEntry, e: EditEntry)
    requires Fits(buf, last) && last.oldBytes == [] && e.oldBytes == [] && e.offset == last.End()
    ensures Apply(buf, last.(newBytes := last.newBytes + e.newBytes)) == Apply(Apply(buf, last), e)
  {
    var mid := Apply(buf, last);
    assert mid[..e.offset] == buf[..last.offset] + last.newBytes;
    assert mid[e.offset..] == buf[last.offset..];
  }

  /**
   All three rules preserve meaning: the folded entry replays to what the two
   entries replayed to, and captures the bytes that were there before both.
   */
  lemma CoalescingPreservesMeaning(buf: Bytes, last: EditEntry, e: EditEntry)
    requires Captures(buf, last) && Captures(Apply(buf, last), e)
    requires Coalesced(last, e).Some?
    ensures Captures(buf, Coalesced(last, e).value)
    ensures Apply(buf, Coalesced(last, e).value) == Apply(Apply(buf, last), e)
  {
    if Mergeable(last, e) {
      MergedNewBytes(buf, last, e);
      MergedOldBytes(buf, last, e);
    } else if e.LengthPreserving() && last.offset <= e.offset && e.End() <= last.End() {
      RewriteInside(buf, last, e);
    } else {
      InsertBehind(buf, last, e);
    }
  }

  /** Rule 3 folding bytes into an entry that was empty on both sides. */
  predicate GrowsEmptyEntry(last: EditEntry, e: EditEntry) {
    last.oldBytes == [] && last.newBytes == [] && e.oldBytes == [] && e.newBytes != [] && e.offset == last.offset
  }

  /** A fold turns a length-preserving entry into a resizing one, or back, only in that one case. */
  lemma CoalescingKeepsKind(last: EditEntry, e: EditEntry)
    requires Coalesced(last, e).Some?
    ensures Coalesced(last, e).value.LengthPreserving() == last.LengthPreserving()
       <==> !GrowsEmptyEntry(last, e)
  {
  }
}
