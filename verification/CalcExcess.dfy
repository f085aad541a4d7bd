/**
 Where the open parentheses of an input are: each is waiting for its closer at the end of the input, or was
 closed without one by a unit behind it. So what the parser counts is what a caller can count in the text.
 */
module CalcExcess {
  import opened Splices
  import opened Numerals
  import opened CalcGrammar
  import opened CalcClosers

  /** Opening parentheses less closing ones. */
  function Excess(s: string): int {
    if s == "" then 0 else (if s[0] == '(' then 1 else if s[0] == ')' then -1 else 0) + Excess(s[1..])
  }

  lemma {:induction false} ExcessIsTheCount(s: string)
    ensures Excess(s) + multiset(s)[')'] == multiset(s)['(']
  {
    if s != "" {
      ExcessIsTheCount(s[1..]);
      assert s == [s[0]] + s[1..];
      assert multiset(s) == multiset{s[0]} + multiset(s[1..]);
    }
  }

  // ------------------------------------------- tokens contain no parentheses

  lemma {:induction false} ExcessBehind(s: string, n: nat)
    requires n <= |s| && forall i :: 0 <= i < n ==> s[i] != '(' && s[i] != ')'
    ensures Excess(s[n..]) == Excess(s)
    decreases n
  {
    if n > 0 {
      ExcessBehind(s[1..], n - 1);
      assert s[1..][n - 1..] == s[n..];
    } else {
      assert s[n..] == s;
    }
  }

  lemma {:induction false} ExcessOfBlanks(s: string)
    ensures Excess(SkipWs(s)) == Excess(s)
    decreases |s|
  {
    if s != "" && IsBlank(s[0]) {
      ExcessOfBlanks(s[1..]);
    }
  }

  lemma ExcessBehindSpan(p: char -> bool, s: string)
    requires !p('(') && !p(')')
    ensures Excess(s[Span(p, s)..]) == Excess(s)
  {
    hide Excess;
    ExcessBehind(s, Span(p, s));
  }

  /** A token leaves the parentheses in front of the cursor behind it. */
  ghost predicate NoneIn<T>(s: string, r: Parsed<T>) {
    r.Ok? ==> Excess(r.rest) == Excess(s)
  }

  lemma NumberHasNone(s: string)
    ensures NoneIn(s, Number(s))
  {
    hide Excess;
    if |s| >= 2 {
      ExcessBehindSpan(InHex, s[2..]);
      if HexNumber(s).Ok? {
        ExcessBehind(s, 2);
      }
    }
    ExcessBehindSpan(InDecimal, s);
  }

  lemma UnitHasNone(s: string)
    ensures NoneIn(s, UnitSuffix(s))
  {
    hide Excess, Multiplier, LowerAll;
    var span := Span(IsAlpha, s);
    ExcessBehind(s, if span > 4 then 4 else span);
  }

  lemma NumberWithUnitHasNone(s: string)
    ensures NoneIn(s, NumberWithUnit(s))
  {
    hide Excess, UnitSuffix, Number;
    NumberHasNone(s);
    if Number(s).Ok? {
      ExcessOfBlanks(Number(s).rest);
      UnitHasNone(SkipWs(Number(s).rest));
    }
  }

  lemma IdentifierHasNone(s: string)
    ensures NoneIn(s, Identifier(s))
  {
    hide Excess;
    if s != "" && IsHead(s[0]) {
      var n := 1 + Span(IsTail, s[1..]);
      forall i | 0 <= i < n
        ensures s[i] != '(' && s[i] != ')'
      {
        assert i > 0 ==> IsTail(s[1..][i - 1]);
      }
      ExcessBehind(s, n);
    }
  }

  lemma InstanceHasNone(s: string)
    ensures NoneIn(s, InstanceSuffix(s))
  {
    hide Excess;
    if s != "" && s[0] == '#' {
      ExcessBehindSpan(IsDigit, s[1..]);
      ExcessBehind(s, 1);
    }
  }

  lemma SegmentHasNone(s: string)
    ensures NoneIn(s, PathSegment(s))
  {
    hide Excess, Identifier;
    if s != "" && (s[0] == '.' || s[0] == '[') {
      ExcessBehind(s, 1);
      IdentifierHasNone(s[1..]);
      ExcessBehindSpan(IsDigit, s[1..]);
      var rest := s[1..][Span(IsDigit, s[1..])..];
      if rest != "" && rest[0] == ']' {
        ExcessBehind(rest, 1);
      }
    }
  }

  lemma {:induction false} SegmentsHaveNone(s: string)
    ensures NoneIn(s, Segments(s))
    decreases |s|
  {
    hide Excess, PathSegment;
    SegmentHasNone(s);
    if PathSegment(s).Ok? {
      SegmentsHaveNone(PathSegment(s).rest);
    }
  }

  lemma MetaHasNone(s: string)
    ensures NoneIn(s, MetaSuffix(s))
  {
    hide Excess, Identifier;
    if |s| >= 2 && s[..2] == "::" {
      assert s[0] == s[..2][0] && s[1] == s[..2][1];
      ExcessBehind(s, 2);
      IdentifierHasNone(s[2..]);
    }
  }

  lemma PathHasNone(s: string)
    ensures NoneIn(s, PathOf(s))
  {
    hide Excess, Identifier, InstanceSuffix, Segments, MetaSuffix;
    IdentifierHasNone(s);
    var root := Identifier(s);
    if root.Ok? {
      InstanceHasNone(root.rest);
      var instance := InstanceSuffix(root.rest);
      var rest := if instance.Ok? then instance.rest else root.rest;
      SegmentsHaveNone(rest);
      if Segments(rest).Ok? {
        MetaHasNone(Segments(rest).rest);
      }
    }
  }

  // -------------------------------------------------- closers that are missing

  /**
   How many parenthesised expressions miss their closer although the input goes on: with a unit coming next,
   which closes them, or without.
   */
  function MissedByAdditive(s: string, unit: bool): nat
    requires Additive(s).Done?
    decreases |s|, 5
  {
    var left := Multiplicative(SkipWs(s));
    MissedByMultiplicative(SkipWs(s), unit) + MissedByAdditiveLoop(left.expr, left.rest, left.open, unit)
  }

  function MissedByAdditiveLoop(left: Expr, s: string, open: nat, unit: bool): nat
    requires (open > 0 ==> s == "") && AdditiveLoop(left, s, open).Done?
    decreases |s|, 6
  {
    var s1 := SkipWs(s);
    var op := AdditiveOp(s1);
    if op.None? then 0
    else
      var x := SkipWs(s1[1..]);
      var right := Multiplicative(x);
      MissedByMultiplicative(x, unit)
      + MissedByAdditiveLoop(Binary(op.value, left, right.expr), right.rest, right.open, unit)
  }

  function MissedByMultiplicative(s: string, unit: bool): nat
    requires Multiplicative(s).Done?
    decreases |s|, 3
  {
    var left := ParseUnary(SkipWs(s));
    MissedByUnary(SkipWs(s), unit) + MissedByMultiplicativeLoop(left.expr, left.rest, left.open, unit)
  }

  function MissedByMultiplicativeLoop(left: Expr, s: string, open: nat, unit: bool): nat
    requires (open > 0 ==> s == "") && MultiplicativeLoop(left, s, open).Done?
    decreases |s|, 4
  {
    var s1 := SkipWs(s);
    var op := MultiplicativeOp(s1);
    if op.None? then 0
    else
      var x := SkipWs(s1[1..]);
      var right := ParseUnary(x);
      MissedByUnary(x, unit)
      + MissedByMultiplicativeLoop(Binary(op.value, left, right.expr), right.rest, right.open, unit)
  }

  function MissedByUnary(s: string, unit: bool): nat
    requires ParseUnary(s).Done?
    decreases |s|, 2
  {
    var s1 := SkipWs(s);
    if s1 != "" && (s1[0] == '-' || s1[0] == '+') then MissedByUnary(SkipWs(s1[1..]), unit)
    else MissedByPrimary(s1, unit)
  }

  function MissedByPrimary(s: string, unit: bool): nat
    requires Primary(s).Done?
    decreases |s|, 1
  {
    var s1 := SkipWs(s);
    if s1 != "" && s1[0] == '(' then MissedByParen(s1, unit) else 0
  }

  function MissedByParen(s: string, unit: bool): nat
    requires s != "" && s[0] == '(' && ParenExpr(s).Done?
    decreases |s|, 0
  {
    var x := SkipWs(s[1..]);
    var next := SkipWs(Additive(x).rest);
    MissedByAdditive(x, unit) + (if next != "" && next[0] != ')' && UnitSuffix(next).Ok? == unit then 1 else 0)
  }

  // ------------------------------------------------------------ the balance

  /** What lies between two cursors opens as many parentheses as were left open, in either way. */
  ghost predicate Balanced(s: string, open: nat, r: Outcome, closedByUnit: nat, stuck: nat)
    requires r.Done?
  {
    Excess(s) + open == Excess(r.rest) + r.open + closedByUnit + stuck
  }

  lemma {:induction false} AdditiveBalances(s: string)
    requires Additive(s).Done?
    ensures Balanced(s, 0, Additive(s), MissedByAdditive(s, true), MissedByAdditive(s, false))
    decreases |s|, 5
  {
    hide Excess, Multiplicative, MissedByMultiplicative, AdditiveLoop, MissedByAdditiveLoop;
    ExcessOfBlanks(s);
    var left := Multiplicative(SkipWs(s));
    MultiplicativeBalances(SkipWs(s));
    AdditiveLoopBalances(left.expr, left.rest, left.open);
  }

  lemma {:induction false} AdditiveLoopBalances(left: Expr, s: string, open: nat)
    requires (open > 0 ==> s == "") && AdditiveLoop(left, s, open).Done?
    ensures Balanced(s, open, AdditiveLoop(left, s, open),
                     MissedByAdditiveLoop(left, s, open, true), MissedByAdditiveLoop(left, s, open, false))
    decreases |s|, 6
  {
    hide Excess, Multiplicative, MissedByMultiplicative;
    ExcessOfBlanks(s);
    var s1 := SkipWs(s);
    var op := AdditiveOp(s1);
    if op.Some? {
      ExcessBehind(s1, 1);
      ExcessOfBlanks(s1[1..]);
      var right := Multiplicative(SkipWs(s1[1..]));
      MultiplicativeBalances(SkipWs(s1[1..]));
      AdditiveLoopBalances(Binary(op.value, left, right.expr), right.rest, right.open);
    }
  }

  lemma {:induction false} MultiplicativeBalances(s: string)
    requires Multiplicative(s).Done?
    ensures Balanced(s, 0, Multiplicative(s), MissedByMultiplicative(s, true), MissedByMultiplicative(s, false))
    decreases |s|, 3
  {
    hide Excess, ParseUnary, MissedByUnary, MultiplicativeLoop, MissedByMultiplicativeLoop;
    ExcessOfBlanks(s);
    var left := ParseUnary(SkipWs(s));
    UnaryBalances(SkipWs(s));
    MultiplicativeLoopBalances(left.expr, left.rest, left.open);
  }

  lemma {:induction false} MultiplicativeLoopBalances(left: Expr, s: string, open: nat)
    requires (open > 0 ==> s == "") && MultiplicativeLoop(left, s, open).Done?
    ensures Balanced(s, open, MultiplicativeLoop(left, s, open), MissedByMultiplicativeLoop(left, s, open, true),
                     MissedByMultiplicativeLoop(left, s, open, false))
    decreases |s|, 4
  {
    hide Excess, ParseUnary, MissedByUnary;
    ExcessOfBlanks(s);
    var s1 := SkipWs(s);
    var op := MultiplicativeOp(s1);
    if op.Some? {
      ExcessBehind(s1, 1);
      ExcessOfBlanks(s1[1..]);
      var right := ParseUnary(SkipWs(s1[1..]));
      UnaryBalances(SkipWs(s1[1..]));
      MultiplicativeLoopBalances(Binary(op.value, left, right.expr), right.rest, right.open);
    }
  }

  lemma {:induction false} UnaryBalances(s: string)
    requires ParseUnary(s).Done?
    ensures Balanced(s, 0, ParseUnary(s), MissedByUnary(s, true), MissedByUnary(s, false))
    decreases |s|, 2
  {
    hide Excess, Primary, MissedByPrimary;
    ExcessOfBlanks(s);
    var s1 := SkipWs(s);
    if s1 != "" && (s1[0] == '-' || s1[0] == '+') {
      ExcessBehind(s1, 1);
      ExcessOfBlanks(s1[1..]);
      UnaryBalances(SkipWs(s1[1..]));
    } else {
      PrimaryBalances(s1);
    }
  }

  lemma {:induction false} PrimaryBalances(s: string)
    requires Primary(s).Done?
    ensures Balanced(s, 0, Primary(s), MissedByPrimary(s, true), MissedByPrimary(s, false))
    decreases |s|, 1
  {
    hide Excess, ParenExpr, MissedByParen, NumberWithUnit, PathOf;
    ExcessOfBlanks(s);
    var s1 := SkipWs(s);
    if s1 != "" && s1[0] == '(' {
      ParenBalances(s1);
    } else if s1 != "" && IsDigit(s1[0]) {
      NumberWithUnitHasNone(s1);
    } else {
      PathHasNone(s1);
    }
  }

  lemma {:induction false} ParenBalances(s: string)
    requires s != "" && s[0] == '(' && ParenExpr(s).Done?
    ensures Balanced(s, 0, ParenExpr(s), MissedByParen(s, true), MissedByParen(s, false))
    decreases |s|, 0
  {
    hide Additive, MissedByAdditive, UnitSuffix;
    ExcessOfBlanks(s[1..]);
    var x := SkipWs(s[1..]);
    AdditiveBalances(x);
    var inner := Additive(x);
    ExcessOfBlanks(inner.rest);
    var next := SkipWs(inner.rest);
    var behind := if next != "" && next[0] == ')' then next[1..] else next;
    ExcessOfBlanks(behind);
    UnitHasNone(SkipWs(behind));
    SkipTwice(inner.rest);
  }

  // ---------------------------------- a missing closer without a unit is final

  /** Nothing goes on from here: no operator, closer or unit. */
  predicate Stuck(rest: string) {
    rest != "" && SkipWs(rest) == rest && rest[0] != ')' && !UnitSuffix(rest).Ok?
    && AdditiveOp(rest).None? && MultiplicativeOp(rest).None?
  }

  /** No operator goes on from here. */
  predicate NoOperator(rest: string) {
    SkipWs(rest) == rest && AdditiveOp(rest).None? && MultiplicativeOp(rest).None?
  }

  lemma {:induction false} AdditiveLoopEnds(left: Expr, s: string, open: nat)
    requires (open > 0 ==> s == "") && AdditiveLoop(left, s, open).Done? && MultiplicativeOp(SkipWs(s)).None?
    ensures NoOperator(AdditiveLoop(left, s, open).rest)
    decreases |s|
  {
    hide Multiplicative;
    SkipTwice(s);
    var s1 := SkipWs(s);
    var op := AdditiveOp(s1);
    if op.Some? {
      var x := SkipWs(s1[1..]);
      var right := Multiplicative(x);
      MultiplicativeEnds(x);
      AdditiveLoopEnds(Binary(op.value, left, right.expr), right.rest, right.open);
    }
  }

  lemma MultiplicativeEnds(s: string)
    requires Multiplicative(s).Done?
    ensures MultiplicativeOp(SkipWs(Multiplicative(s).rest)).None?
  {
    hide ParseUnary, MultiplicativeLoop;
    var left := ParseUnary(SkipWs(s));
    MultiplicativeLoopEnds(left.expr, left.rest, left.open);
  }

  lemma {:induction false} MultiplicativeLoopEnds(left: Expr, s: string, open: nat)
    requires (open > 0 ==> s == "") && MultiplicativeLoop(left, s, open).Done?
    ensures MultiplicativeOp(SkipWs(MultiplicativeLoop(left, s, open).rest)).None?
    decreases |s|
  {
    hide ParseUnary;
    SkipTwice(s);
    var s1 := SkipWs(s);
    var op := MultiplicativeOp(s1);
    if op.Some? {
      var right := ParseUnary(SkipWs(s1[1..]));
      MultiplicativeLoopEnds(Binary(op.value, left, right.expr), right.rest, right.open);
    }
  }

  lemma AdditiveEnds(s: string)
    requires Additive(s).Done?
    ensures NoOperator(Additive(s).rest)
  {
    hide Multiplicative, AdditiveLoop;
    var left := Multiplicative(SkipWs(s));
    MultiplicativeEnds(SkipWs(s));
    AdditiveLoopEnds(left.expr, left.rest, left.open);
  }

  lemma {:induction false} AdditiveSticks(s: string)
    requires Additive(s).Done? && MissedByAdditive(s, false) > 0
    ensures Stuck(Additive(s).rest)
    decreases |s|, 5
  {
    hide Stuck, Multiplicative, MissedByMultiplicative, AdditiveLoop, MissedByAdditiveLoop;
    var left := Multiplicative(SkipWs(s));
    if MissedByMultiplicative(SkipWs(s), false) > 0 {
      MultiplicativeSticks(SkipWs(s));
    }
    AdditiveLoopSticks(left.expr, left.rest, left.open, MissedByMultiplicative(SkipWs(s), false) > 0);
  }

  lemma {:induction false} AdditiveLoopSticks(left: Expr, s: string, open: nat, before: bool)
    requires (open > 0 ==> s == "") && AdditiveLoop(left, s, open).Done? && (before ==> Stuck(s))
    requires before || MissedByAdditiveLoop(left, s, open, false) > 0
    ensures Stuck(AdditiveLoop(left, s, open).rest)
    decreases |s|, 6
  {
    hide Multiplicative, MissedByMultiplicative, UnitSuffix;
    var s1 := SkipWs(s);
    var op := AdditiveOp(s1);
    if op.Some? {
      var x := SkipWs(s1[1..]);
      var right := Multiplicative(x);
      if MissedByMultiplicative(x, false) > 0 {
        MultiplicativeSticks(x);
      }
      AdditiveLoopSticks(Binary(op.value, left, right.expr), right.rest, right.open,
                         MissedByMultiplicative(x, false) > 0);
    }
  }

  lemma {:induction false} MultiplicativeSticks(s: string)
    requires Multiplicative(s).Done? && MissedByMultiplicative(s, false) > 0
    ensures Stuck(Multiplicative(s).rest)
    decreases |s|, 3
  {
    hide Stuck, ParseUnary, MissedByUnary, MultiplicativeLoop, MissedByMultiplicativeLoop;
    var left := ParseUnary(SkipWs(s));
    if MissedByUnary(SkipWs(s), false) > 0 {
      UnarySticks(SkipWs(s));
    }
    MultiplicativeLoopSticks(left.expr, left.rest, left.open, MissedByUnary(SkipWs(s), false) > 0);
  }

  lemma {:induction false} MultiplicativeLoopSticks(left: Expr, s: string, open: nat, before: bool)
    requires (open > 0 ==> s == "") && MultiplicativeLoop(left, s, open).Done? && (before ==> Stuck(s))
    requires before || MissedByMultiplicativeLoop(left, s, open, false) > 0
    ensures Stuck(MultiplicativeLoop(left, s, open).rest)
    decreases |s|, 4
  {
    hide ParseUnary, MissedByUnary, UnitSuffix;
    var s1 := SkipWs(s);
    var op := MultiplicativeOp(s1);
    if op.Some? {
      var x := SkipWs(s1[1..]);
      var right := ParseUnary(x);
      if MissedByUnary(x, false) > 0 {
        UnarySticks(x);
      }
      MultiplicativeLoopSticks(Binary(op.value, left, right.expr), right.rest, right.open,
                               MissedByUnary(x, false) > 0);
    }
  }

  lemma {:induction false} UnarySticks(s: string)
    requires ParseUnary(s).Done? && MissedByUnary(s, false) > 0
    ensures Stuck(ParseUnary(s).rest)
    decreases |s|, 2
  {
    hide Stuck, ParenExpr, MissedByParen;
    var s1 := SkipWs(s);
    SkipTwice(s);
    if s1 != "" && (s1[0] == '-' || s1[0] == '+') {
      UnarySticks(SkipWs(s1[1..]));
    } else {
      ParenSticks(s1);
    }
  }

  lemma {:induction false} ParenSticks(s: string)
    requires s != "" && s[0] == '(' && ParenExpr(s).Done? && MissedByParen(s, false) > 0
    ensures Stuck(ParenExpr(s).rest)
    decreases |s|, 0
  {
    hide Additive, MissedByAdditive, UnitSuffix, AdditiveOp, MultiplicativeOp;
    var x := SkipWs(s[1..]);
    if MissedByAdditive(x, false) > 0 {
      AdditiveSticks(x);
    }
    AdditiveEnds(x);
    SkipTwice(Additive(x).rest);
  }

  // ------------------------------------------------------------ whole inputs

  /** Parentheses that a unit closed because their closer was missing. */
  function ClosedByUnit(input: string): nat {
    if Additive(Trim(input)).Done? then MissedByAdditive(Trim(input), true) else 0
  }

  lemma {:induction false} ExcessOfTrimStart(s: string)
    ensures Excess(TrimStart(s)) == Excess(s)
    decreases |s|
  {
    if s != "" && IsWhite(s[0]) {
      ExcessOfTrimStart(s[1..]);
    }
  }

  lemma ExcessOfTrimEnd(s: string)
    ensures Excess(TrimEnd(s)) == Excess(s)
  {
    var t := s[|TrimEnd(s)|..];
    TrimEndSplits(s);
    ExcessIsTheCount(s);
    ExcessIsTheCount(TrimEnd(s));
    assert multiset(s) == multiset(TrimEnd(s)) + multiset(t);
    assert '(' !in t && ')' !in t;
  }

  /**
   Every input that parses has as many more opening than closing parentheses as are waiting at its end, and
   those a unit closed.
   */
  lemma ExcessIsWaitingOrClosedByUnit(input: string)
    requires Parse(input).Tree?
    ensures multiset(input)['('] == multiset(input)[')'] + Waiting(input) + ClosedByUnit(input)
  {
    hide Excess, Additive, MissedByAdditive;
    var s := Trim(input);
    ExcessOfTrimStart(input);
    ExcessOfTrimEnd(TrimStart(input));
    ExcessIsTheCount(input);
    AdditiveBalances(s);
    if MissedByAdditive(s, false) > 0 {
      AdditiveSticks(s);
    }
    ExcessOfBlanks(Additive(s).rest);
    ExcessIsTheCount("");
  }

  /**
   Closing what the text leaves open: harmless up to its excess exactly when no unit has closed a parenthesis,
   and the input does not end in white space other than blanks.
   */
  lemma ClosingTheExcess(input: string, k: nat)
    requires Parse(input).Tree? && 0 < k && multiset(input)[')'] + k <= multiset(input)['(']
    requires AllBlank(TrailingWhite(input))
    ensures Parse(input + Closers(k)) == Parse(input)
            <==> multiset(input)[')'] + k + ClosedByUnit(input) <= multiset(input)['(']
    ensures ClosedByUnit(input) == 0 ==> Parse(input + Closers(k)) == Parse(input)
  {
    hide Parse, Waiting, ClosedByUnit;
    ExcessIsWaitingOrClosedByUnit(input);
    ClosersAreHarmless(input, k);
  }
}
