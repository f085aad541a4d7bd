/**
 The bracket text object of the vim mode: two depth-counting scans that together
 find the innermost matched pair around the cursor (crates/hxy-editor/src/vim.rs).
 */
module BracketObject {
  import opened Splices

  /** The two delimiters; every caller passes two different bytes. */
  datatype Pair = Pair(open: Byte, close: Byte) {
    predicate Distinct() {
      open != close
    }
  }

  /** What one byte adds to the nesting depth. */
  function Weight(d: Pair, b: Byte): int {
    if b == d.open then 1 else if b == d.close then -1 else 0
  }

  /** Opens minus closes in `[from, till)`. */
  function Depth(bytes: Bytes, d: Pair, from: nat, till: nat): int
    requires from <= till <= |bytes|
    decreases till
  {
    if from == till then 0 else Depth(bytes, d, from, till - 1) + Weight(d, bytes[till - 1])
  }

  /** Every close in `[from, till)` has its open there, and the other way round. */
  predicate Balanced(bytes: Bytes, d: Pair, from: nat, till: nat)
    requires from <= till <= |bytes|
  {
    Depth(bytes, d, from, till) == 0 && forall k :: from <= k <= till ==> Depth(bytes, d, from, k) >= 0
  }

  predicate Matched(bytes: Bytes, d: Pair, o: nat, c: nat) {
    o < c < |bytes| && bytes[o] == d.open && bytes[c] == d.close && Balanced(bytes, d, o + 1, c)
  }

  /** A matched pair around the cursor; a cursor on either delimiter is inside. */
  predicate Enclosing(bytes: Bytes, d: Pair, cur: nat, o: nat, c: nat) {
    Matched(bytes, d, o, c) && o <= cur <= c
  }

  ghost predicate Innermost(bytes: Bytes, d: Pair, cur: nat, o: nat, c: nat) {
    Enclosing(bytes, d, cur, o, c) &&
    forall o2: nat, c2: nat :: Enclosing(bytes, d, cur, o2, c2) ==> o2 <= o && c <= c2
  }

  ghost predicate NoneEncloses(bytes: Bytes, d: Pair, cur: nat) {
    forall o: nat, c: nat :: !Enclosing(bytes, d, cur, o, c)
  }

  lemma {:induction false} DepthSplit(bytes: Bytes, d: Pair, from: nat, mid: nat, till: nat)
    requires from <= mid <= till <= |bytes|
    ensures Depth(bytes, d, from, till) == Depth(bytes, d, from, mid) + Depth(bytes, d, mid, till)
    decreases till - mid
  {
    if mid < till {
      DepthSplit(bytes, d, from, mid, till - 1);
    }
  }

  lemma DepthFirst(bytes: Bytes, d: Pair, from: nat, till: nat)
    requires from < till <= |bytes|
    ensures Depth(bytes, d, from, till) == Weight(d, bytes[from]) + Depth(bytes, d, from + 1, till)
  {
    DepthSplit(bytes, d, from, from + 1, till);
    assert Depth(bytes, d, from, from) == 0;
  }

  /** Where the backward scan starts counting: a close under the cursor is skipped. */
  function ScanEnd(bytes: Bytes, d: Pair, cur: nat): nat
    requires cur < |bytes|
  {
    if bytes[cur] == d.close then cur else cur + 1
  }

  /** No open from `from` on is still open at the cursor. */
  ghost predicate ClosedBehind(bytes: Bytes, d: Pair, cur: nat, from: nat)
    requires cur < |bytes| && from <= ScanEnd(bytes, d, cur)
  {
    forall k :: from <= k <= ScanEnd(bytes, d, cur) ==> Depth(bytes, d, k, ScanEnd(bytes, d, cur)) <= 0
  }

  lemma NoPairOpensLate(bytes: Bytes, d: Pair, cur: nat, from: nat)
    requires d.Distinct()
    requires cur < |bytes| && from <= ScanEnd(bytes, d, cur) && ClosedBehind(bytes, d, cur, from)
    ensures forall o: nat, c: nat :: Enclosing(bytes, d, cur, o, c) ==> o < from
  {
    var end := ScanEnd(bytes, d, cur);
    forall o: nat, c: nat | Enclosing(bytes, d, cur, o, c) ensures o < from {
      assert o < end <= c;
      DepthFirst(bytes, d, o, end);
      assert Depth(bytes, d, o + 1, end) >= 0;
    }
  }

  /** Walk back to the nearest open that is not closed before the cursor. */
  method FindOpen(bytes: Bytes, d: Pair, cur: nat) returns (r: Option<nat>)
    requires d.Distinct()
    ensures r.None? ==> NoneEncloses(bytes, d, cur)
    ensures r.Some? ==>
      var o := r.value;
      && cur < |bytes| && o <= cur && bytes[o] == d.open && o < ScanEnd(bytes, d, cur)
      && ClosedBehind(bytes, d, cur, o + 1)
      && Depth(bytes, d, o + 1, ScanEnd(bytes, d, cur)) == 0
  {
    if cur >= |bytes| {
      return None;
    }
    ghost var end := ScanEnd(bytes, d, cur);
    var depth := 0;
    var i := cur;
    while true
      invariant 0 <= i <= cur
      invariant i == cur ==> depth == 0
      invariant i < cur ==>
        i + 1 <= end && depth == -Depth(bytes, d, i + 1, end) && depth >= 0 && ClosedBehind(bytes, d, cur, i + 1)
      decreases i
    {
      var b := bytes[i];
      ghost var from := if i == cur then end else i + 1;
      assert depth == -Depth(bytes, d, from, end) && ClosedBehind(bytes, d, cur, from);
      if b == d.close && i != cur {
        depth := depth + 1;
      } else if b == d.open {
        if depth == 0 {
          return Some(i);
        }
        depth := depth - 1;
      }
      if i < end {
        DepthFirst(bytes, d, i, end);
      }
      assert ClosedBehind(bytes, d, cur, i);
      if i == 0 {
        NoPairOpensLate(bytes, d, cur, 0);
        return None;
      }
      i := i - 1;
    }
  }

  /** Walk on from an open to the close that brings the depth back to zero. */
  method FindClose(bytes: Bytes, d: Pair, o: nat, sourceLen: nat) returns (r: Option<nat>)
    requires d.Distinct()
    requires o < |bytes| == sourceLen && bytes[o] == d.open
    ensures r.Some? ==> Matched(bytes, d, o, r.value)
    ensures forall k :: o < k <= (if r.Some? then r.value else sourceLen) ==> Depth(bytes, d, o, k) >= 1
  {
    var depth := 0;
    var i := o;
    while i < sourceLen
      invariant o <= i <= sourceLen && depth == Depth(bytes, d, o, i)
      invariant forall k :: o < k <= i ==> Depth(bytes, d, o, k) >= 1
    {
      var b := bytes[i];
      if b == d.open {
        depth := depth + 1;
      } else if b == d.close {
        depth := depth - 1;
        if depth == 0 {
          InteriorBalanced(bytes, d, o, i);
          return Some(i);
        }
      }
      i := i + 1;
    }
    return None;
  }

  lemma InteriorBalanced(bytes: Bytes, d: Pair, o: nat, c: nat)
    requires d.Distinct()
    requires o < c < |bytes| && bytes[o] == d.open && bytes[c] == d.close
    requires Depth(bytes, d, o, c) == 1
    requires forall k :: o < k <= c ==> Depth(bytes, d, o, k) >= 1
    ensures Balanced(bytes, d, o + 1, c)
  {
    var inner := o + 1;
    DepthFirst(bytes, d, o, c);
    forall k | inner <= k <= c ensures Depth(bytes, d, inner, k) >= 0 {
      DepthFirst(bytes, d, o, k);
    }
  }

  /** An open that is still open at `end` lies inside no pair that closes at or before `end`. */
  lemma NoPairAcross(bytes: Bytes, d: Pair, o: nat, end: nat, o2: nat, c2: nat)
    requires o2 < o < c2 <= end <= |bytes| && c2 < |bytes|
    requires forall k :: o < k <= end ==> Depth(bytes, d, o, k) >= 1
    ensures !Matched(bytes, d, o2, c2)
  {
    DepthSplit(bytes, d, o2 + 1, o, c2);
  }

  /** The close found for the enclosing open is not in front of the cursor. */
  lemma CloseNotBefore(bytes: Bytes, d: Pair, cur: nat, o: nat, c: nat)
    requires d.Distinct() && cur < |bytes| && o < ScanEnd(bytes, d, cur) && ClosedBehind(bytes, d, cur, o + 1)
    requires Depth(bytes, d, o + 1, ScanEnd(bytes, d, cur)) == 0 && Matched(bytes, d, o, c)
    ensures ScanEnd(bytes, d, cur) <= c
  {
    var end := ScanEnd(bytes, d, cur);
    if c < end {
      DepthSplit(bytes, d, o + 1, c, end);
      DepthFirst(bytes, d, c, end);
    }
  }

  /** What the two scans found together. */
  lemma ScansAgree(bytes: Bytes, d: Pair, cur: nat, o: nat, c: Option<nat>)
    requires d.Distinct()
    requires cur < |bytes| && o <= cur && bytes[o] == d.open && o < ScanEnd(bytes, d, cur)
    requires ClosedBehind(bytes, d, cur, o + 1) && Depth(bytes, d, o + 1, ScanEnd(bytes, d, cur)) == 0
    requires c.Some? ==> Matched(bytes, d, o, c.value)
    requires forall k :: o < k <= (if c.Some? then c.value else |bytes|) ==> Depth(bytes, d, o, k) >= 1
    ensures c.Some? ==> Innermost(bytes, d, cur, o, c.value)
    ensures c.None? ==> NoneEncloses(bytes, d, cur)
  {
    var end := ScanEnd(bytes, d, cur);
    var limit := if c.Some? then c.value else |bytes|;
    NoPairOpensLate(bytes, d, cur, o + 1);
    if c.Some? {
      CloseNotBefore(bytes, d, cur, o, c.value);
    }
    forall o2: nat, c2: nat | Enclosing(bytes, d, cur, o2, c2) ensures c.Some? && o2 <= o && c.value <= c2 {
      if o2 < o && (c.None? || c2 < limit) {
        NoPairAcross(bytes, d, o, limit, o2, c2);
      }
      if o2 == o {
        DepthFirst(bytes, d, o, c2 + 1);
        assert Depth(bytes, d, o + 1, c2 + 1) == Depth(bytes, d, o + 1, c2) - 1;
      }
    }
  }

  /**
   `bracket_range`: the innermost matched pair around the cursor, or what lies
   between its delimiters. Nothing is returned exactly when no pair encloses the
   cursor, or when the inside is asked for and is empty.
   */
  method BracketRange(bytes: Bytes, cur: nat, d: Pair, around: bool) returns (r: Option<(nat, nat)>)
    requires d.Distinct()
    ensures around ==> (r.None? <==> NoneEncloses(bytes, d, cur))
    ensures around && r.Some? ==> Innermost(bytes, d, cur, r.value.0, r.value.1)
    ensures !around && r.Some? ==>
      r.value.0 > 0 && r.value.0 <= r.value.1 && Innermost(bytes, d, cur, r.value.0 - 1, r.value.1 + 1)
    ensures !around && r.None? ==>
      NoneEncloses(bytes, d, cur) || exists o: nat, c: nat :: c == o + 1 && Innermost(bytes, d, cur, o, c)
  {
    var open := FindOpen(bytes, d, cur);
    if open.None? {
      return None;
    }
    var o := open.value;
    var close := FindClose(bytes, d, o, |bytes|);
    ScansAgree(bytes, d, cur, o, close);
    if close.None? {
      return None;
    }
    var c := close.value;
    if around {
      return Some((o, c));
    }
    if c > o + 1 {
      return Some((o + 1, c - 1));
    }
    assert Innermost(bytes, d, cur, o, o + 1);
    return None;
  }
}
