/**
 Characters, runs of characters and numerals, as the two parsers of text share them.
 */
module Numerals {
  predicate IsDigit(c: char) {
    '0' <= c <= '9'
  }

  predicate IsAlpha(c: char) {
    'a' <= c <= 'z' || 'A' <= c <= 'Z'
  }

  predicate IsHexDigit(c: char) {
    IsDigit(c) || 'a' <= c <= 'f' || 'A' <= c <= 'F'
  }

  predicate IsHead(c: char) {
    IsAlpha(c) || c == '_'
  }

  predicate IsTail(c: char) {
    IsAlpha(c) || IsDigit(c) || c == '_'
  }

  predicate IsBinaryDigit(c: char) {
    c == '0' || c == '1'
  }

  /** A letter or an underscore, and then letters, digits and underscores. */
  predicate IsIdentifier(w: string) {
    w != "" && (w[0] == '_' || 'a' <= w[0] <= 'z' || 'A' <= w[0] <= 'Z')
    && forall i :: 1 <= i < |w| ==>
         w[i] == '_' || 'a' <= w[i] <= 'z' || 'A' <= w[i] <= 'Z' || '0' <= w[i] <= '9'
  }

  function DigitValue(c: char): nat
    requires IsHexDigit(c)
  {
    if IsDigit(c) then c as int - '0' as int
    else if c >= 'a' then c as int - 'a' as int + 10
    else c as int - 'A' as int + 10
  }

  /** How many leading characters satisfy `p`. */
  function Span(p: char -> bool, s: string): (n: nat)
    ensures n <= |s|
    ensures forall i :: 0 <= i < n ==> p(s[i])
    ensures n < |s| ==> !p(s[n])
  {
    if s != "" && p(s[0]) then 1 + Span(p, s[1..]) else 0
  }

  lemma {:induction false} SpanExtends(p: char -> bool, s: string, t: string)
    requires t == "" || !p(t[0])
    ensures Span(p, s + t) == Span(p, s)
    decreases |s|
  {
    if s == "" {
      assert s + t == t;
    } else if p(s[0]) {
      SpanExtends(p, s[1..], t);
      assert (s + t)[1..] == s[1..] + t;
    }
  }

  lemma TakeExtends(p: char -> bool, s: string, t: string)
    requires t == "" || !p(t[0])
    ensures var n := Span(p, s); Span(p, s + t) == n && (s + t)[..n] == s[..n] && (s + t)[n..] == s[n..] + t
  {
    SpanExtends(p, s, t);
    var n := Span(p, s);
    assert (s + t)[..n] == s[..n];
    assert (s + t)[n..] == s[n..] + t;
  }

  function NumberValue(digits: string, radix: nat): nat
    requires forall c <- digits :: IsHexDigit(c)
  {
    if digits == "" then 0
    else NumberValue(digits[..|digits| - 1], radix) * radix + DigitValue(digits[|digits| - 1])
  }

  function DigitChar(d: nat): char
    requires d < 10
  {
    ('0' as int + d) as char
  }

  function Decimal(n: nat): (s: string)
    ensures s != "" && forall c <- s :: IsDigit(c)
  {
    if n < 10 then [DigitChar(n)] else Decimal(n / 10) + [DigitChar(n % 10)]
  }

  lemma {:induction false} DecimalValue(n: nat)
    ensures NumberValue(Decimal(n), 10) == n
  {
    if n < 10 {
      assert Decimal(n)[..0] == "";
    } else {
      DecimalValue(n / 10);
      assert Decimal(n)[..|Decimal(n)| - 1] == Decimal(n / 10);
    }
  }

  function HexChar(d: nat): (c: char)
    requires d < 16
    ensures IsHexDigit(c) && DigitValue(c) == d
  {
    if d < 10 then '0' + d as char else 'a' + (d - 10) as char
  }

  /** A numeral in base 16 or 2. */
  function InBase(n: nat, hex: bool): (s: string)
    ensures s != "" && forall c <- s :: if hex then IsHexDigit(c) else IsBinaryDigit(c)
    ensures forall c <- s :: IsHexDigit(c)
  {
    var b := if hex then 16 else 2;
    if n < b then [HexChar(n)] else InBase(n / b, hex) + [HexChar(n % b)]
  }

  lemma {:induction false} InBaseValue(n: nat, hex: bool)
    ensures NumberValue(InBase(n, hex), if hex then 16 else 2) == n
  {
    var s, b := InBase(n, hex), if hex then 16 else 2;
    if n < b {
      assert s[..0] == "";
    } else {
      InBaseValue(n / b, hex);
      assert s[..|s| - 1] == InBase(n / b, hex) && s[|s| - 1] == HexChar(n % b);
    }
  }

  lemma {:induction false} SpanAll(p: char -> bool, s: string)
    requires forall c <- s :: p(c)
    ensures Span(p, s) == |s|
    decreases |s|
  {
    if s != "" {
      assert forall c <- s[1..] :: c in s;
      SpanAll(p, s[1..]);
    }
  }

  lemma TakesAll(p: char -> bool, s: string, t: string)
    requires (forall c <- s :: p(c)) && (t == "" || !p(t[0]))
    ensures Span(p, s + t) == |s| && (s + t)[..|s|] == s && (s + t)[|s|..] == t
  {
    SpanAll(p, s);
    SpanExtends(p, s, t);
  }
}
