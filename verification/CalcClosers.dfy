/**
 Closing what was left open. Appending closing parentheses to an input that parses gives the same tree as
 long as parentheses were waiting for them, and trailing input as soon as they run out: for every input, by
 induction over the grammar.
 */
module CalcClosers {
  import opened Splices
  import opened Numerals
  import opened CalcGrammar

  /** What an input may be extended by here: white space and closing parentheses. */
  predicate Ending(t: string) {
    forall c <- t :: IsWhite(c) || c == ')'
  }

  lemma EndingHead(t: string)
    requires Ending(t) && t != ""
    ensures !InHex(t[0]) && !InDecimal(t[0]) && !IsTail(t[0]) && !IsHead(t[0]) && !IsAlpha(t[0]) && !IsDigit(t[0])
    ensures t[0] !in "x#.[]:+-*/%("
  {
    assert t[0] in t;
  }

  // ---------------------------------------------------- tokens stop before it

  lemma DigitsExtend(s: string, t: string, within: char -> bool, radix: nat)
    requires Ending(t) && forall c :: within(c) ==> InHex(c)
    ensures Digits(s + t, within, radix) == Digits(s, within, radix).After(t)
  {
    if t != "" {
      EndingHead(t);
    }
    TakeExtends(within, s, t);
  }

  lemma NumberExtends(s: string, t: string)
    requires Ending(t)
    ensures Number(s + t) == Number(s).After(t)
  {
    hide Digits;
    if t != "" {
      EndingHead(t);
    }
    DigitsExtend(s, t, InDecimal, 10);
    if |s| >= 2 {
      DigitsExtend(s[2..], t, InHex, 16);
      assert (s + t)[2..] == s[2..] + t;
    } else if |s| == 1 && t != "" {
      assert (s + t)[1] == t[0];
    }
  }

  lemma UnitExtends(s: string, t: string)
    requires Ending(t)
    ensures UnitSuffix(s + t) == UnitSuffix(s).After(t)
  {
    hide LowerAll, Multiplier;
    if t != "" {
      EndingHead(t);
    }
    TakeExtends(IsAlpha, s, t);
    var span := Span(IsAlpha, s);
    var n := if span > 4 then 4 else span;
    assert (s + t)[..n] == s[..n] && (s + t)[n..] == s[n..] + t;
  }

  lemma IdentifierExtends(s: string, t: string)
    requires Ending(t)
    ensures Identifier(s + t) == Identifier(s).After(t)
  {
    if t != "" {
      EndingHead(t);
    }
    if s == "" {
      assert s + t == t;
    } else {
      TakeExtends(IsTail, s[1..], t);
      assert (s + t)[1..] == s[1..] + t;
      var n := 1 + Span(IsTail, s[1..]);
      assert (s + t)[..n] == s[..n] && (s + t)[n..] == s[n..] + t;
    }
  }

  lemma PlainDigitsExtend(s: string, t: string)
    requires Ending(t)
    ensures PlainDigits(s + t) == PlainDigits(s).After(t)
  {
    if t != "" {
      EndingHead(t);
    }
    TakeExtends(IsDigit, s, t);
  }

  lemma InstanceExtends(s: string, t: string)
    requires Ending(t)
    ensures InstanceSuffix(s + t) == InstanceSuffix(s).After(t)
  {
    hide PlainDigits;
    if t != "" {
      EndingHead(t);
    }
    if s == "" {
      assert s + t == t;
    } else {
      assert (s + t)[1..] == s[1..] + t;
      PlainDigitsExtend(s[1..], t);
    }
  }

  lemma SegmentExtends(s: string, t: string)
    requires Ending(t)
    ensures PathSegment(s + t) == PathSegment(s).After(t)
  {
    hide PlainDigits, Identifier;
    if t != "" {
      EndingHead(t);
    }
    if s == "" {
      assert s + t == t;
    } else {
      assert (s + t)[1..] == s[1..] + t;
      IdentifierExtends(s[1..], t);
      PlainDigitsExtend(s[1..], t);
      var digits := PlainDigits(s[1..]);
      if digits.Ok? {
        if digits.rest == "" {
          assert digits.rest + t == t;
        } else {
          assert (digits.rest + t)[1..] == digits.rest[1..] + t;
        }
      }
    }
  }

  lemma {:induction false} SegmentsExtend(s: string, t: string)
    requires Ending(t)
    ensures Segments(s + t) == Segments(s).After(t)
    decreases |s|
  {
    hide PathSegment;
    SegmentExtends(s, t);
    var first := PathSegment(s);
    if first.Ok? {
      SegmentsExtend(first.rest, t);
    }
  }

  lemma MetaExtends(s: string, t: string)
    requires Ending(t)
    ensures MetaSuffix(s + t) == MetaSuffix(s).After(t)
  {
    hide Identifier;
    if t != "" {
      EndingHead(t);
    }
    if |s| >= 2 {
      assert (s + t)[..2] == s[..2] && (s + t)[2..] == s[2..] + t;
      IdentifierExtends(s[2..], t);
    } else if |s + t| >= 2 {
      assert (s + t)[..2][|s|] == t[0];
    }
  }

  lemma PathExtends(s: string, t: string)
    requires Ending(t)
    ensures PathOf(s + t) == PathOf(s).After(t)
  {
    hide Identifier, InstanceSuffix, Segments, MetaSuffix;
    IdentifierExtends(s, t);
    var root := Identifier(s);
    if root.Ok? {
      InstanceExtends(root.rest, t);
      var instance := InstanceSuffix(root.rest);
      var rest := if instance.Ok? then instance.rest else root.rest;
      SegmentsExtend(rest, t);
      var segments := Segments(rest);
      if segments.Ok? {
        MetaExtends(segments.rest, t);
      }
    }
  }

  lemma {:induction false} SkipExtends(s: string, t: string)
    ensures SkipWs(s + t) == if SkipWs(s) == "" then SkipWs(t) else SkipWs(s) + t
    decreases |s|
  {
    if s == "" {
      assert s + t == t;
    } else if IsBlank(s[0]) {
      SkipExtends(s[1..], t);
      assert (s + t)[1..] == s[1..] + t;
    }
  }

  lemma {:induction false} SkipEnding(t: string)
    requires Ending(t)
    ensures Ending(SkipWs(t))
    decreases |t|
  {
    if t != "" && IsBlank(t[0]) {
      SkipEnding(t[1..]);
    }
  }

  // ------------------------------------------------------ taking in closers

  /** `open` waiting parentheses meet `t`: what is left of it and how many still wait. */
  function Absorb(open: nat, t: string): (string, nat)
    decreases open
  {
    var t1 := SkipWs(t);
    if open == 0 || t1 == "" then (t1, open)
    else if t1[0] == ')' then Absorb(open - 1, t1[1..])
    else (t1, 0)
  }

  lemma {:induction false} AbsorbShape(open: nat, t: string)
    requires Ending(t)
    ensures var (u, k) := Absorb(open, t); Ending(u) && SkipWs(u) == u && (u != "" ==> k == 0)
    decreases open
  {
    SkipEnding(t);
    var t1 := SkipWs(t);
    if open > 0 && t1 != "" && t1[0] == ')' {
      AbsorbShape(open - 1, t1[1..]);
    }
  }

  /** One more parenthesis around takes one more closer, if one is next. */
  lemma {:induction false} AbsorbMore(open: nat, t: string)
    requires Ending(t)
    ensures var (u, k) := Absorb(open, t);
      Absorb(open + 1, t)
      == if u == "" then ("", k + 1) else if u[0] == ')' then (SkipWs(u[1..]), 0) else (u, 0)
    decreases open
  {
    SkipEnding(t);
    var t1 := SkipWs(t);
    if open > 0 && t1 != "" && t1[0] == ')' {
      AbsorbMore(open - 1, t1[1..]);
    }
  }

  /** Where the cursor stands after `rest` with `open` parentheses waiting, once `t` follows. */
  function Position(rest: string, open: nat, t: string): (string, nat) {
    if SkipWs(rest) == "" then Absorb(open, t) else (SkipWs(rest) + t, open)
  }

  ghost predicate Moves(rest: string, open: nat, t: string, rest2: string, open2: nat) {
    (SkipWs(rest2), open2) == Position(rest, open, t)
  }

  /** The parse `r` with `t` after it. */
  ghost predicate Extends(r: Outcome, t: string, r2: Outcome)
    requires r.Done?
  {
    r2.Done? && r2.expr == r.expr && Moves(r.rest, r.open, t, r2.rest, r2.open)
  }

  lemma MovesPlain(rest: string, t: string, rest2: string)
    requires rest2 == rest + t
    ensures Moves(rest, 0, t, rest2, 0)
  {
    SkipExtends(rest, t);
  }

  /** No operator, unit or operand starts in an ending. */
  lemma EndingStartsNothing(t: string)
    requires Ending(t)
    ensures AdditiveOp(t).None? && MultiplicativeOp(t).None?
    ensures UnitSuffix(t).Backtrack?
  {
    if t != "" {
      assert IsWhite(t[0]) || t[0] == ')';
    }
  }

  // ------------------------------------------------------------ expressions

  lemma NumberWithUnitExtends(s: string, t: string)
    requires Ending(t) && NumberWithUnit(s).Ok?
    ensures NumberWithUnit(s + t).Ok? && NumberWithUnit(s + t).value == NumberWithUnit(s).value
    ensures Moves(NumberWithUnit(s).rest, 0, t, NumberWithUnit(s + t).rest, 0)
  {
    hide Number, UnitSuffix, CheckedMul;
    NumberExtends(s, t);
    var number := Number(s);
    SkipExtends(number.rest, t);
    var rest := SkipWs(number.rest);
    if rest == "" {
      SkipEnding(t);
      EndingStartsNothing(SkipWs(t));
      EndingStartsNothing(rest);
    } else {
      UnitExtends(rest, t);
      MovesPlain(rest, t, rest + t);
      var unit := UnitSuffix(rest);
      if unit.Ok? {
        MovesPlain(unit.rest, t, unit.rest + t);
      }
    }
  }

  /** The unit that may follow a parenthesis. */
  lemma UnitAfterParen(x: string, t: string)
    requires Ending(t)
    ensures var y, y2 := SkipWs(x), SkipWs(x + t);
      var u, u2 := UnitSuffix(y), UnitSuffix(y2);
      (u.Ok? <==> u2.Ok?)
      && (u.Ok? ==> u2.value == u.value && Moves(u.rest, 0, t, u2.rest, 0))
      && (!u.Ok? ==> Moves(y, 0, t, y2, 0))
  {
    hide UnitSuffix;
    SkipExtends(x, t);
    var y := SkipWs(x);
    if y == "" {
      SkipEnding(t);
      EndingStartsNothing(SkipWs(t));
      EndingStartsNothing(y);
    } else {
      UnitExtends(y, t);
      MovesPlain(y, t, y + t);
      var u := UnitSuffix(y);
      if u.Ok? {
        MovesPlain(u.rest, t, u.rest + t);
      }
    }
  }

  lemma {:induction false} AdditiveExtends(s: string, t: string)
    requires Ending(t) && Additive(s).Done?
    ensures Extends(Additive(s), t, Additive(s + t))
    decreases |s|, 5
  {
    hide Multiplicative, AdditiveLoop, Moves;
    SkipExtends(s, t);
    var s1 := SkipWs(s);
    MultiplicativeExtends(s1, t);
    var left, left2 := Multiplicative(s1), Multiplicative(s1 + t);
    AdditiveLoopExtends(left.expr, left.rest, left.open, left2.rest, left2.open, t);
  }

  lemma {:induction false} AdditiveLoopExtends(left: Expr, s: string, open: nat, s2: string, open2: nat, t: string)
    requires open > 0 ==> s == ""
    requires open2 > 0 ==> s2 == ""
    requires Ending(t) && Moves(s, open, t, s2, open2)
    requires AdditiveLoop(left, s, open).Done?
    ensures Extends(AdditiveLoop(left, s, open), t, AdditiveLoop(left, s2, open2))
    decreases |s|, 6
  {
    hide Multiplicative, Moves, AdditiveOp;
    var s1 := SkipWs(s);
    var op := AdditiveOp(s1);
    if op.None? {
      AdditiveLoopStops(left, s, open, s2, open2, t);
    } else {
      AdditiveOpFollows(s, open, s2, open2, t);
      SkipExtends(s1[1..], t);
      var x := SkipWs(s1[1..]);
      MultiplicativeExtends(x, t);
      var right, right2 := Multiplicative(x), Multiplicative(x + t);
      var both := Binary(op.value, left, right.expr);
      AdditiveLoopExtends(both, right.rest, right.open, right2.rest, right2.open, t);
    }
  }

  lemma AdditiveOpFollows(s: string, open: nat, s2: string, open2: nat, t: string)
    requires open > 0 ==> s == ""
    requires Ending(t) && Moves(s, open, t, s2, open2) && AdditiveOp(SkipWs(s)).Some?
    ensures var s1 := SkipWs(s);
      s1 != "" && open == 0 && open2 == 0 && SkipWs(s2) == s1 + t
      && AdditiveOp(SkipWs(s2)) == AdditiveOp(s1)
      && SkipWs(s2)[1..] == s1[1..] + t
  {
    var s1 := SkipWs(s);
    assert (s1 + t)[1..] == s1[1..] + t;
  }

  lemma AdditiveLoopStops(left: Expr, s: string, open: nat, s2: string, open2: nat, t: string)
    requires open > 0 ==> s == ""
    requires open2 > 0 ==> s2 == ""
    requires Ending(t) && Moves(s, open, t, s2, open2)
    requires AdditiveOp(SkipWs(s)).None?
    ensures Extends(AdditiveLoop(left, s, open), t, AdditiveLoop(left, s2, open2))
  {
    hide Multiplicative;
    AbsorbShape(open, t);
    var s1 := SkipWs(s);
    if s1 == "" {
      EndingStartsNothing(SkipWs(s2));
    }
  }

  lemma {:induction false} MultiplicativeExtends(s: string, t: string)
    requires Ending(t) && Multiplicative(s).Done?
    ensures Extends(Multiplicative(s), t, Multiplicative(s + t))
    decreases |s|, 3
  {
    hide ParseUnary, MultiplicativeLoop, Moves;
    SkipExtends(s, t);
    var s1 := SkipWs(s);
    UnaryExtends(s1, t);
    var left, left2 := ParseUnary(s1), ParseUnary(s1 + t);
    MultiplicativeLoopExtends(left.expr, left.rest, left.open, left2.rest, left2.open, t);
  }

  lemma {:induction false} MultiplicativeLoopExtends(left: Expr, s: string, open: nat, s2: string, open2: nat,
                                                     t: string)
    requires open > 0 ==> s == ""
    requires open2 > 0 ==> s2 == ""
    requires Ending(t) && Moves(s, open, t, s2, open2)
    requires MultiplicativeLoop(left, s, open).Done?
    ensures Extends(MultiplicativeLoop(left, s, open), t, MultiplicativeLoop(left, s2, open2))
    decreases |s|, 4
  {
    hide ParseUnary, Moves, MultiplicativeOp;
    var s1 := SkipWs(s);
    var op := MultiplicativeOp(s1);
    if op.None? {
      MultiplicativeLoopStops(left, s, open, s2, open2, t);
    } else {
      MultiplicativeOpFollows(s, open, s2, open2, t);
      SkipExtends(s1[1..], t);
      var x := SkipWs(s1[1..]);
      UnaryExtends(x, t);
      var right, right2 := ParseUnary(x), ParseUnary(x + t);
      var both := Binary(op.value, left, right.expr);
      MultiplicativeLoopExtends(both, right.rest, right.open, right2.rest, right2.open, t);
    }
  }

  lemma MultiplicativeOpFollows(s: string, open: nat, s2: string, open2: nat, t: string)
    requires open > 0 ==> s == ""
    requires Ending(t) && Moves(s, open, t, s2, open2) && MultiplicativeOp(SkipWs(s)).Some?
    ensures var s1 := SkipWs(s);
      s1 != "" && open == 0 && open2 == 0 && SkipWs(s2) == s1 + t
      && MultiplicativeOp(SkipWs(s2)) == MultiplicativeOp(s1)
      && SkipWs(s2)[1..] == s1[1..] + t
  {
    var s1 := SkipWs(s);
    assert (s1 + t)[1..] == s1[1..] + t;
  }

  lemma MultiplicativeLoopStops(left: Expr, s: string, open: nat, s2: string, open2: nat, t: string)
    requires open > 0 ==> s == ""
    requires open2 > 0 ==> s2 == ""
    requires Ending(t) && Moves(s, open, t, s2, open2)
    requires MultiplicativeOp(SkipWs(s)).None?
    ensures Extends(MultiplicativeLoop(left, s, open), t, MultiplicativeLoop(left, s2, open2))
  {
    hide ParseUnary;
    AbsorbShape(open, t);
    var s1 := SkipWs(s);
    if s1 == "" {
      EndingStartsNothing(SkipWs(s2));
    }
  }

  lemma {:induction false} UnaryExtends(s: string, t: string)
    requires Ending(t) && ParseUnary(s).Done?
    ensures Extends(ParseUnary(s), t, ParseUnary(s + t))
    decreases |s|, 2
  {
    hide Primary, Moves;
    SkipExtends(s, t);
    var s1 := SkipWs(s);
    if s1 != "" && (s1[0] == '-' || s1[0] == '+') {
      assert (s1 + t)[1..] == s1[1..] + t;
      SkipExtends(s1[1..], t);
      UnaryExtends(SkipWs(s1[1..]), t);
    } else {
      PrimaryExtends(s1, t);
    }
  }

  lemma {:induction false} PrimaryExtends(s: string, t: string)
    requires Ending(t) && Primary(s).Done?
    ensures Extends(Primary(s), t, Primary(s + t))
    decreases |s|, 1
  {
    hide ParenExpr, NumberWithUnit, PathOf, Moves;
    SkipExtends(s, t);
    var s1 := SkipWs(s);
    if s1 != "" && s1[0] == '(' {
      ParenExtends(s1, t);
    } else if s1 != "" && IsDigit(s1[0]) {
      NumberWithUnitExtends(s1, t);
    } else {
      PathExtends(s1, t);
      MovesPlain(PathOf(s1).rest, t, PathOf(s1).rest + t);
    }
  }

  lemma {:induction false} ParenExtends(s: string, t: string)
    requires s != "" && s[0] == '('
    requires Ending(t) && ParenExpr(s).Done?
    ensures Extends(ParenExpr(s), t, ParenExpr(s + t))
    decreases |s|, 0
  {
    hide Additive, UnitSuffix, Moves;
    assert (s + t)[1..] == s[1..] + t;
    SkipExtends(s[1..], t);
    var x := SkipWs(s[1..]);
    AdditiveExtends(x, t);
    var inner, inner2 := Additive(x), Additive(x + t);
    CloserExtends(inner.expr, inner.rest, inner.open, t, inner2.rest, inner2.open);
  }

  /** The end of a parenthesised expression: the optional closer, then the optional unit. */
  function Closer(e: Expr, rest: string, open: nat): Outcome {
    var s1 := SkipWs(rest);
    var waiting := if s1 == "" then open + 1 else open;
    var s2 := SkipWs(if s1 != "" && s1[0] == ')' then s1[1..] else s1);
    var unit := UnitSuffix(s2);
    if unit.Ok? then Done(Binary(Mul, e, Literal(unit.value)), unit.rest, waiting) else Done(e, s2, waiting)
  }

  lemma CloserExtends(e: Expr, rest: string, open: nat, t: string, rest2: string, open2: nat)
    requires open > 0 ==> rest == ""
    requires Ending(t) && Moves(rest, open, t, rest2, open2)
    ensures Extends(Closer(e, rest, open), t, Closer(e, rest2, open2))
  {
    hide UnitSuffix, Absorb;
    var s1 := SkipWs(rest);
    AbsorbShape(open, t);
    if s1 == "" {
      AbsorbMore(open, t);
      WaitingCloser(e, rest, open, t, rest2, open2);
    } else if s1[0] == ')' {
      assert (s1 + t)[1..] == s1[1..] + t;
      UnitAfterParen(s1[1..], t);
    } else {
      UnitAfterParen(s1, t);
    }
  }

  lemma WaitingCloser(e: Expr, rest: string, open: nat, t: string, rest2: string, open2: nat)
    requires SkipWs(rest) == "" && Ending(t) && (SkipWs(rest2), open2) == Absorb(open, t)
    requires var (u, k) := Absorb(open, t); Ending(u) && SkipWs(u) == u && (u != "" ==> k == 0)
    requires var (u, k) := Absorb(open, t);
      (Absorb(open + 1, t)
       == if u == "" then ("", k + 1) else if u[0] == ')' then (SkipWs(u[1..]), 0) else (u, 0))
    ensures Extends(Closer(e, rest, open), t, Closer(e, rest2, open2))
  {
    hide UnitSuffix, Absorb;
    var u := SkipWs(rest2);
    EndingStartsNothing("");
    EndingStartsNothing(u);
    if u != "" && u[0] == ')' {
      SkipEnding(u[1..]);
      EndingStartsNothing(SkipWs(u[1..]));
    }
  }

  // ------------------------------------------------------------ whole inputs

  function Closers(k: nat): (t: string)
    ensures |t| == k && forall i :: 0 <= i < k ==> t[i] == ')'
  {
    seq(k, _ => ')')
  }

  /** Parentheses still waiting when the input ran out. */
  function Waiting(input: string): nat {
    var tree := Additive(Trim(input));
    if tree.Done? then tree.open else 0
  }

  /** The white space trimmed off the end. */
  function TrailingWhite(input: string): string {
    TrimStart(input)[|Trim(input)|..]
  }

  predicate AllBlank(t: string) {
    forall c <- t :: c == ' ' || c == '\t'
  }

  lemma {:induction false} TrimEndSplits(s: string)
    ensures s == TrimEnd(s) + s[|TrimEnd(s)|..]
    ensures forall c <- s[|TrimEnd(s)|..] :: IsWhite(c)
    decreases |s|
  {
    if s != "" && IsWhite(s[|s| - 1]) {
      var x := s[..|s| - 1];
      TrimEndSplits(x);
      var n := |TrimEnd(x)|;
      assert s[n..] == x[n..] + [s[|s| - 1]];
      assert s == x + [s[|s| - 1]];
    }
  }

  lemma {:induction false} TrimStartExtends(s: string, t: string)
    requires TrimStart(s) != ""
    ensures TrimStart(s + t) == TrimStart(s) + t
    decreases |s|
  {
    if IsWhite(s[0]) {
      TrimStartExtends(s[1..], t);
      assert (s + t)[1..] == s[1..] + t;
    }
  }

  lemma TrimWithClosers(input: string, k: nat)
    requires Trim(input) != "" && k > 0
    ensures TrimStart(input) == Trim(input) + TrailingWhite(input)
    ensures Trim(input + Closers(k)) == Trim(input) + (TrailingWhite(input) + Closers(k))
    ensures Ending(TrailingWhite(input) + Closers(k))
  {
    var x, t := TrimStart(input), Closers(k);
    TrimEndSplits(x);
    TrimStartExtends(input, t);
    assert (x + t)[|x + t| - 1] == t[k - 1] == ')';
    assert x + t == Trim(input) + (TrailingWhite(input) + t);
  }

  lemma {:induction false} SkipBlanks(w: string, t: string)
    ensures AllBlank(w) ==> SkipWs(w) == ""
    ensures !AllBlank(w) ==> SkipWs(w) != "" && SkipWs(w)[0] in w
    ensures SkipWs(w + t) == if AllBlank(w) then SkipWs(t) else SkipWs(w) + t
    decreases |w|
  {
    SkipExtends(w, t);
    if w != "" {
      assert w[0] in w;
      if IsBlank(w[0]) {
        SkipBlanks(w[1..], t);
        assert forall c <- w[1..] :: c in w;
        assert w == [w[0]] + w[1..];
      } else {
        assert w[0] in w;
      }
    }
  }

  lemma {:induction false} AbsorbClosers(open: nat, k: nat)
    ensures (Absorb(open, Closers(k))
             == if k <= open then ("", open - k) else (Closers(k - open), 0))
    decreases open
  {
    if k > 0 {
      assert SkipWs(Closers(k)) == Closers(k);
      if open > 0 {
        assert Closers(k)[1..] == Closers(k - 1);
        AbsorbClosers(open - 1, k - 1);
      }
    }
  }

  /** White space and closers after an input that ran out with `open` parentheses waiting. */
  lemma AbsorbWhiteThenClosers(open: nat, w: string, k: nat)
    requires k > 0 && forall c <- w :: IsWhite(c)
    ensures (Absorb(open, w + Closers(k)).0
             == if !AllBlank(w) then SkipWs(w) + Closers(k) else if k <= open then "" else Closers(k - open))
  {
    SkipBlanks(w, Closers(k));
    AbsorbClosers(open, k);
    assert SkipWs(Closers(k)) == Closers(k);
  }

  /**
   Closing what was left open changes nothing; closing more is trailing input. It takes one thing: the input
   may not end in white space other than spaces and tabs, which the parser trims only at the very end.
   */
  lemma ClosersAreHarmless(input: string, k: nat)
    requires Parse(input).Tree? && k > 0
    ensures (Parse(input + Closers(k)) == Parse(input)
             <==> AllBlank(TrailingWhite(input)) && k <= Waiting(input))
    ensures AllBlank(TrailingWhite(input)) && k > Waiting(input)
            ==> Parse(input + Closers(k)) == Error(TrailingInput(Closers(k - Waiting(input))))
    ensures !AllBlank(TrailingWhite(input))
            ==> Parse(input + Closers(k)) == Error(TrailingInput(SkipWs(TrailingWhite(input)) + Closers(k)))
  {
    hide Additive, Absorb;
    var trimmed, w, open := Trim(input), TrailingWhite(input), Waiting(input);
    var t := w + Closers(k);
    TrimWithClosers(input, k);
    AdditiveExtends(trimmed, t);
    TrimEndSplits(TrimStart(input));
    AbsorbWhiteThenClosers(open, w, k);
    AbsorbShape(open, t);
    SkipTwice(w + Closers(k));
    assert trimmed + t != "";
  }

  // ---------------------------------------------------- where the count lies

  /** An operand with no operator after it is the whole expression. */
  lemma OperandAlone(s: string)
    requires s != "" && !IsBlank(s[0]) && s[0] != '-' && s[0] != '+'
    requires Primary(s).Done?
    requires var rest := SkipWs(Primary(s).rest); AdditiveOp(rest).None? && MultiplicativeOp(rest).None?
    ensures Additive(s) == Primary(s).(rest := SkipWs(Primary(s).rest))
  {
    hide Primary;
    var p := Primary(s);
    assert ParseUnary(s) == p;
    assert Multiplicative(s) == p.(rest := SkipWs(p.rest));
  }

  lemma DigitsArePrimary(s: string)
    requires s != "" && IsDigit(s[0]) && NumberWithUnit(s).Ok?
    ensures Primary(s) == Done(Literal(NumberWithUnit(s).value), NumberWithUnit(s).rest, 0)
  {
    hide NumberWithUnit;
    assert SkipWs(s) == s;
  }

  lemma ReadsFive()
    ensures Additive("5") == Done(Literal(5), "", 0)
  {
    assert Span(InDecimal, "5") == 1;
    assert "5"[..1] == "5" && "5"[1..] == "";
    assert Without("5"[1..]) == "";
    assert Without("5") == ['5'] + "";
    assert "5"[..0] == "" && NumberValue("5"[..0], 10) == 0;
    assert NumberValue("5", 10) == 0 * 10 + DigitValue('5');
    assert Digits("5", InDecimal, 10) == Ok(5, "");
    assert HexNumber("5").Backtrack?;
    assert UnitSuffix("").Backtrack? && SkipWs("") == "";
    assert NumberWithUnit("5") == Ok(5, "");
    DigitsArePrimary("5");
    assert Primary("5") == Done(Literal(5), "", 0);
    OperandAlone("5");
  }

  /** An input ending in a line break parses with a parenthesis open, but cannot be closed after the break. */
  lemma LineBreakBeforeCloser()
    ensures Parse("(5\n") == Tree(Literal(5)) && Waiting("(5\n") == 1
    ensures Parse("(5\n" + Closers(1)) == Error(TrailingInput("\n" + Closers(1)))
  {
    var input := "(5\n";
    ReadsFive();
    assert "(5"[1..] == "5";
    assert UnitSuffix("").Backtrack?;
    assert Primary("(5") == Done(Literal(5), "", 1);
    OperandAlone("(5");
    assert input[..2] == "(5";
    assert TrimStart(input) == input && TrimEnd(input) == "(5";
    assert TrailingWhite(input) == "\n";
    assert '\n' in TrailingWhite(input) && !IsBlank('\n');
    ClosersAreHarmless(input, 1);
  }

  lemma ReadsUnit()
    ensures UnitSuffix("B") == Ok(1, "")
  {
    assert Span(IsAlpha, "B") == 1 && "B"[..1] == "B" && "B"[1..] == "" by {
      assert Span(IsAlpha, "") == 0;
    }
    assert LowerAll("B") == "b";
  }

  lemma ReadsShortPath()
    ensures PathOf("a B") == Ok(Path("a", None, [], None), " B")
  {
    var s := "a B";
    assert s[1..] == " B" && s[..1] == "a";
    assert Span(IsTail, " B") == 0;
    assert Identifier(s) == Ok("a", " B");
  }

  lemma PathIsPrimary(s: string)
    requires s != "" && IsHead(s[0]) && PathOf(s).Ok?
    ensures Primary(s) == Done(PathExpr(PathOf(s).value), PathOf(s).rest, 0)
  {
    hide PathOf;
    assert SkipWs(s) == s;
  }

  lemma ReadsPathAndUnit()
    ensures Additive("a B") == Done(PathExpr(Path("a", None, [], None)), "B", 0)
    ensures UnitSuffix("B") == Ok(1, "")
  {
    hide PathOf, UnitSuffix, Primary;
    ReadsUnit();
    ReadsShortPath();
    PathIsPrimary("a B");
    assert " B"[1..] == "B";
    OperandAlone("a B");
  }

  lemma ReadsClosedEarly()
    ensures (Additive("(a B")
             == Done(Binary(Mul, PathExpr(Path("a", None, [], None)), Literal(1)), "", 0))
  {
    hide Additive, UnitSuffix;
    var input := "(a B";
    ReadsPathAndUnit();
    assert input[1..] == "a B";
    assert SkipWs("a B") == "a B" && SkipWs("B") == "B";
    assert ParenExpr(input) == Done(Binary(Mul, PathExpr(Path("a", None, [], None)), Literal(1)), "", 0);
    assert Primary(input) == ParenExpr(input);
    OperandAlone(input);
  }

  /** A unit right after a missing closer closes the parenthesis: one is open in the text, none is waiting. */
  lemma UnitClosesEarly()
    ensures Parse("(a B") == Tree(Binary(Mul, PathExpr(Path("a", None, [], None)), Literal(1)))
    ensures Waiting("(a B") == 0
    ensures Parse("(a B" + Closers(1)) == Error(TrailingInput(Closers(1)))
  {
    hide Additive;
    var input := "(a B";
    ReadsClosedEarly();
    assert TrimStart(input) == input && TrimEnd(input) == input;
    assert TrailingWhite(input) == "";
    ClosersAreHarmless(input, 1);
  }
}
