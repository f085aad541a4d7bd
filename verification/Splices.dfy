/**
 Byte buffers and the one operation every edit is built from: replacing a
 stretch of a buffer by other bytes.
 */
module Splices {
  newtype Byte = b: int | 0 <= b < 256
  type Bytes = seq<Byte>

  datatype Option<+T> = None | Some(value: T)

  /** A zeroed buffer. */
  function Zeros(len: nat): (r: Bytes)
    ensures |r| == len
  {
    seq(len, _ => 0 as Byte)
  }

  /** `s` with the `remove` bytes at `at` replaced by `insert`. */
  function Splice(s: Bytes, at: nat, remove: nat, insert: Bytes): (r: Bytes)
    requires at + remove <= |s|
    ensures |r| == |s| - remove + |insert|
  {
    s[..at] + insert + s[at + remove..]
  }

  /** `s` with the bytes from `at` on overwritten by `bytes`, length unchanged. */
  function Overwrite(s: Bytes, at: nat, bytes: Bytes): (r: Bytes)
    requires at + |bytes| <= |s|
    ensures |r| == |s|
  {
    Splice(s, at, |bytes|, bytes)
  }

  /** Where each byte of an overwritten buffer comes from. */
  lemma OverwriteAt(s: Bytes, at: nat, bytes: Bytes, k: nat)
    requires at + |bytes| <= |s| && k < |s|
    ensures Overwrite(s, at, bytes)[k] == if at <= k < at + |bytes| then bytes[k - at] else s[k]
  {
  }

  /** Splicing the removed bytes back in undoes a splice. */
  lemma SpliceBack(s: Bytes, at: nat, remove: nat, insert: Bytes)
    requires at + remove <= |s|
    ensures Splice(Splice(s, at, remove, insert), at, |insert|, s[at..at + remove]) == s
  {
    var t := Splice(s, at, remove, insert);
    assert t[..at] == s[..at];
    assert t[at + |insert|..] == s[at + remove..];
    assert s == s[..at] + s[at..at + remove] + s[at + remove..];
  }

  /** Two overwrites that do not overlap commute. */
  lemma OverwritesCommute(s: Bytes, a: nat, x: Bytes, b: nat, y: Bytes)
    requires a + |x| <= b && b + |y| <= |s|
    ensures Overwrite(Overwrite(s, a, x), b, y) == Overwrite(Overwrite(s, b, y), a, x)
  {
  }

  /** What overwriting `x` at `a`, then the touching `y` at `b`, leaves between the two ends. */
  function OverwriteUnion(a: nat, x: Bytes, b: nat, y: Bytes): (r: Bytes)
    requires a <= b + |y| && b <= a + |x|
    ensures (if a <= b then a else b) + |r| == if a + |x| <= b + |y| then b + |y| else a + |x|
  {
    var before := if a < b then x[..b - a] else [];
    var behind := if b + |y| < a + |x| then x[b + |y| - a..] else [];
    before + y + behind
  }

  /** Two touching overwrites are one overwrite of their union. */
  lemma OverwriteTwice(s: Bytes, a: nat, x: Bytes, b: nat, y: Bytes)
    requires a <= b + |y| && b <= a + |x| && a + |x| <= |s| && b + |y| <= |s|
    ensures Overwrite(Overwrite(s, a, x), b, y)
         == Overwrite(s, if a <= b then a else b, OverwriteUnion(a, x, b, y))
  {
    var at, u := if a <= b then a else b, OverwriteUnion(a, x, b, y);
    var two, one := Overwrite(Overwrite(s, a, x), b, y), Overwrite(s, at, u);
    forall k | 0 <= k < |s| ensures two[k] == one[k] {
      OverwriteAt(Overwrite(s, a, x), b, y, k);
      OverwriteAt(s, a, x, k);
      OverwriteAt(s, at, u, k);
    }
  }

  /** An overwrite that covers an earlier one makes it void. */
  lemma OverwriteCovered(s: Bytes, a: nat, x: Bytes, b: nat, y: Bytes)
    requires b <= a && a + |x| <= b + |y| <= |s|
    ensures Overwrite(Overwrite(s, a, x), b, y) == Overwrite(s, b, y)
  {
  }

  lemma SliceOfSlice(s: Bytes, at: nat, len: nat, i: nat, j: nat)
    requires at + len <= |s| && i <= j <= len
    ensures s[at..at + len][i..j] == s[at + i..at + j]
  {
    var t := s[at..at + len];
    assert forall k :: 0 <= k < j - i ==> t[i..j][k] == t[i + k] == s[at + i..at + j][k];
  }
}
