/**
 Writing an expression of the calculator as text, with parentheses only where the grammar needs them, and
 reading it back (crates/hxy-calculator/src/parser.rs:233-365).
 */
module CalcRoundTrip {
  import opened Splices
  import opened Numerals
  import opened CalcGrammar
  import opened CalcClosers
  import opened CalcPaths

  // -------------------------------------------------------------- printing

  /** How tightly an expression binds: 0 for sums, 1 for products, 2 for everything else. */
  function Level(e: Expr): nat {
    if e.Binary? then (if e.op == Add || e.op == Sub then 0 else 1) else 2
  }

  function Sign(op: BinOp): char {
    match op
    case Add => '+'
    case Sub => '-'
    case Mul => '*'
    case Div => '/'
    case Mod => '%'
  }

  /** `e` without outer parentheses, with `gap` between its tokens. */
  function PrintBare(e: Expr, gap: string): string
    requires Printable(e)
    decreases e, 0
  {
    match e
    case Literal(value) => Decimal(value)
    case PathExpr(path) => Displayed(path)
    case Unary(op, inner) => [if op == Neg then '-' else '+'] + (gap + Print(inner, 2, gap))
    case Binary(op, left, right) =>
      Print(left, Level(e), gap) + (gap + ([Sign(op)] + (gap + Print(right, Level(e) + 1, gap))))
  }

  function Print(e: Expr, level: nat, gap: string): string
    requires Printable(e)
    decreases e, 1
  {
    if Level(e) < level then "(" + (gap + (PrintBare(e, gap) + (gap + ")"))) else PrintBare(e, gap)
  }

  /** Literals and paths the parser can build. */
  predicate Printable(e: Expr) {
    match e
    case Literal(value) => 0 <= value < 0x8000_0000_0000_0000_0000_0000_0000_0000
    case PathExpr(path) => ValidPath(path)
    case Unary(_, inner) => Printable(inner)
    case Binary(_, left, right) => Printable(left) && Printable(right)
  }

  // ------------------------------------------------- what may stand behind

  /** Behind blanks, the end, an operator or a closer. */
  predicate EndsOperand(t: string) {
    var u := SkipWs(t);
    u == "" || u[0] == ')' || AdditiveOp(u).Some? || MultiplicativeOp(u).Some?
  }

  lemma OperandEnd(t: string)
    requires EndsOperand(t)
    ensures t == "" || (!InDecimal(t[0]) && !InHex(t[0]) && !IsTail(t[0]) && t[0] !in "xX#.[:")
    ensures UnitSuffix(SkipWs(t)).Backtrack?
    ensures SkipWs(SkipWs(t)) == SkipWs(t)
  {
    if t != "" && !IsBlank(t[0]) {
      assert SkipWs(t) == t;
    }
  }

  /** How an operand begins. */
  lemma PrintHead(e: Expr, level: nat, gap: string, t: string)
    requires Printable(e)
    ensures var s := Print(e, level, gap) + t; s != "" && !IsBlank(s[0]) && s[0] != ')'
    ensures Print(e, level, gap) != "" && !IsWhite(Print(e, level, gap)[0])
    decreases e, level
  {
    hide Decimal, Displayed;
    if Level(e) >= level {
      match e
      case Literal(value) => assert Decimal(value)[0] in Decimal(value);
      case PathExpr(path) => DisplayedHead(path);
      case Unary(_, _) =>
      case Binary(op, left, right) => PrintHead(left, Level(e), gap, "");
    }
  }

  lemma DisplayedHead(path: Path)
    requires ValidPath(path)
    ensures Displayed(path) != "" && IsHead(Displayed(path)[0])
  {
  }

  // --------------------------------------------------------------- operands

  lemma LiteralReads(value: nat, t: string)
    requires value <= I128_MAX && EndsOperand(t)
    ensures ParseUnary(Decimal(value) + t) == Done(Literal(value), SkipWs(t), 0)
  {
    hide Decimal, UnitSuffix, PathOf, ParenExpr;
    var s := Decimal(value) + t;
    assert s[0] in Decimal(value);
    DecimalNumber(value, t);
    OperandEnd(t);
    hide NumberValue;
    assert NumberWithUnit(s) == Ok(value, SkipWs(t)) by {
      hide Number;
    }
    hide NumberWithUnit;
    assert SkipWs(s) == s;
  }

  lemma NoSeparators(s: string)
    requires forall c <- s :: !IsSeparator(c)
    ensures Without(s) == s
  {
  }

  lemma DecimalNumber(value: nat, t: string)
    requires value <= I128_MAX && (t == "" || (!InDecimal(t[0]) && t[0] !in "xX"))
    ensures Number(Decimal(value) + t) == Ok(value, t)
  {
    hide Decimal, NumberValue;
    var d := Decimal(value);
    var s := d + t;
    assert forall c <- d :: IsDigit(c) && InDecimal(c) && !IsSeparator(c);
    TakesAll(InDecimal, d, t);
    NoSeparators(d);
    DecimalValue(value);
    assert HexNumber(s).Backtrack? by {
      assert |s| >= 2 ==> s[1] == if |d| >= 2 then d[1] else t[0];
      assert |d| >= 2 ==> d[1] in d;
    }
    assert Digits(s, InDecimal, 10) == Ok(value, t);
  }

  lemma PathReads(path: Path, t: string)
    requires ValidPath(path) && EndsOperand(t)
    ensures ParseUnary(Displayed(path) + t) == Done(PathExpr(path), t, 0)
  {
    hide Displayed, ParenExpr, NumberWithUnit, PathOf;
    var s := Displayed(path) + t;
    DisplayedHead(path);
    assert s[0] == Displayed(path)[0];
    OperandEnd(t);
    ReadsPath(path, t);
    assert SkipWs(s) == s;
  }

  // -------------------------------------------------------- the round trip

  /** `e` is read, and the cursor stands at `t`, perhaps before its blanks. */
  predicate ReadsTo(o: Outcome, e: Expr, t: string) {
    o.Done? && o.expr == e && o.open == 0 && SkipWs(o.rest) == SkipWs(t)
  }

  lemma MultiplicativeLoopSkips(left: Expr, s: string, t: string)
    requires SkipWs(s) == SkipWs(t)
    ensures MultiplicativeLoop(left, s, 0) == MultiplicativeLoop(left, t, 0)
  {
  }

  lemma AdditiveLoopSkips(left: Expr, s: string, t: string)
    requires SkipWs(s) == SkipWs(t)
    ensures AdditiveLoop(left, s, 0) == AdditiveLoop(left, t, 0)
  {
  }

  /** Behind a sum: no product goes on. */
  predicate EndsSum(t: string) {
    EndsOperand(t) && MultiplicativeOp(SkipWs(t)).None?
  }

  lemma {:induction false} UnaryOk(e: Expr, gap: string, t: string)
    requires Printable(e) && AllBlank(gap) && EndsOperand(t)
    ensures ReadsTo(ParseUnary(Print(e, 2, gap) + t), e, t)
    decreases e, if Level(e) < 2 then 9 else 1
  {
    hide Decimal, Displayed, ParseUnary;
    OperandEnd(t);
    if Level(e) < 2 {
      ParenOk(e, gap, t);
    } else {
      match e
      case Literal(value) => LiteralReads(value, t);
      case PathExpr(path) => PathReads(path, t);
      case Unary(op, inner) => SignOk(e, gap, t);
    }
  }

  lemma {:induction false} SignOk(e: Expr, gap: string, t: string)
    requires e.Unary? && Printable(e) && AllBlank(gap) && EndsOperand(t)
    ensures ReadsTo(ParseUnary(PrintBare(e, gap) + t), e, t)
    decreases e, 0
  {
    hide Print, Primary;
    var inner := Print(e.inner, 2, gap);
    var s := PrintBare(e, gap) + t;
    UnaryOk(e.inner, gap, t);
    PrintHead(e.inner, 2, gap, t);
    assert s[1..] == gap + (inner + t);
    SkipBlanks(gap, inner + t);
    assert SkipWs(s) == s;
  }

  lemma {:induction false} ParenOk(e: Expr, gap: string, t: string)
    requires Printable(e) && AllBlank(gap) && EndsOperand(t)
    ensures (ParseUnary("(" + (gap + (PrintBare(e, gap) + (gap + ")"))) + t)
             == Done(e, SkipWs(t), 0))
    decreases e, 8
  {
    hide PrintBare, Additive, UnitSuffix, PathOf, NumberWithUnit;
    var bare, close := PrintBare(e, gap), ")" + t;
    var s := "(" + (gap + (bare + (gap + ")"))) + t;
    var x := bare + (gap + close);
    assert s[1..] == gap + x;
    SkipBlanks(gap, x);
    SkipBlanks(gap, close);
    assert SkipWs(close) == close && close[1..] == t;
    SumOk(e, gap, gap + close);
    BareHead(e, gap, gap + close);
    OperandEnd(t);
    assert SkipWs(s) == s;
    ParenReads(s, x, close, e, t);
  }

  lemma BareHead(e: Expr, gap: string, t: string)
    requires Printable(e)
    ensures var s := PrintBare(e, gap) + t; s != "" && !IsBlank(s[0]) && s[0] != ')' && SkipWs(s) == s
  {
    PrintHead(e, 0, gap, t);
  }

  lemma ParenReads(s: string, x: string, close: string, e: Expr, t: string)
    requires s != "" && s[0] == '(' && SkipWs(s[1..]) == x && close == ")" + t
    requires Additive(x) == Done(e, close, 0) && UnitSuffix(SkipWs(t)).Backtrack?
    ensures ParseUnary(s) == Done(e, SkipWs(t), 0)
  {
    hide Additive, UnitSuffix, PathOf, NumberWithUnit;
    assert SkipWs(close) == close && close[1..] == t && SkipWs(s) == s;
    assert ParenExpr(s) == Done(e, SkipWs(t), 0);
  }

  /** A product, in front of anything that may follow an operand: the loop goes on from there. */
  lemma {:induction false} ProductOk(e: Expr, gap: string, t: string)
    requires Printable(e) && AllBlank(gap) && EndsOperand(t)
    ensures Multiplicative(Print(e, 1, gap) + t) == MultiplicativeLoop(e, t, 0)
    decreases e, if Level(e) == 0 then 11 else 4
  {
    if Level(e) == 1 {
      TimesOk(e, gap, t);
    } else {
      hide ParseUnary, Print, MultiplicativeLoop;
      UnaryOk(e, gap, t);
      SameAtTwo(e, gap);
      PrintHead(e, 1, gap, t);
      var s := Print(e, 1, gap) + t;
      assert SkipWs(s) == s;
      MultiplicativeLoopSkips(e, ParseUnary(s).rest, t);
    }
  }

  lemma SameAtTwo(e: Expr, gap: string)
    requires Printable(e) && Level(e) != 1
    ensures Print(e, 1, gap) == Print(e, 2, gap)
  {
  }

  lemma {:induction false} TimesOk(e: Expr, gap: string, t: string)
    requires Printable(e) && AllBlank(gap) && EndsOperand(t) && Level(e) == 1
    ensures Multiplicative(Print(e, 1, gap) + t) == MultiplicativeLoop(e, t, 0)
    decreases e, 0
  {
    hide Multiplicative, Print, ParseUnary;
    var right := Print(e.right, 2, gap) + t;
    var t1 := gap + ([Sign(e.op)] + (gap + right));
    assert Print(e, 1, gap) + t == Print(e.left, 1, gap) + t1 by {
      Unfolds(e, gap, t);
    }
    SkipBlanks(gap, [Sign(e.op)] + (gap + right));
    SkipBlanks(gap, right);
    SignIsOp(e.op, gap + right);
    ProductOk(e.left, gap, t1);
    UnaryOk(e.right, gap, t);
    PrintHead(e.right, 2, gap, t);
    assert SkipWs(right) == right;
    MultiplicativeLoopSkips(e, ParseUnary(right).rest, t);
  }

  /** The sign is the operator's, and no other's. */
  lemma SignIsOp(op: BinOp, t: string)
    ensures var s := [Sign(op)] + t;
      SkipWs(s) == s && s[1..] == t
      && AdditiveOp(s) == (if op == Add || op == Sub then Some(op) else None)
      && MultiplicativeOp(s) == (if op == Add || op == Sub then None else Some(op))
  {
  }

  lemma Unfolds(e: Expr, gap: string, t: string)
    requires Printable(e) && e.Binary?
    ensures var l := Level(e);
      (Print(e, l, gap) + t
       == Print(e.left, l, gap) + (gap + ([Sign(e.op)] + (gap + (Print(e.right, l + 1, gap) + t)))))
  {
    var l := Level(e);
    var left, right := Print(e.left, l, gap), Print(e.right, l + 1, gap);
    assert Print(e, l, gap) == left + (gap + ([Sign(e.op)] + (gap + right)));
    hide Print, PrintBare;
    assert left + (gap + ([Sign(e.op)] + (gap + right))) + t == left + (gap + ([Sign(e.op)] + (gap + (right + t))));
  }

  /** A sum, in front of anything that does not multiply. */
  lemma {:induction false} AdditiveOk(e: Expr, gap: string, t: string)
    requires Printable(e) && AllBlank(gap) && EndsSum(t)
    ensures Additive(Print(e, 0, gap) + t) == AdditiveLoop(e, t, 0)
    decreases e, 6
  {
    if Level(e) == 0 {
      PlusOk(e, gap, t);
    } else {
      hide Print, Multiplicative;
      ProductEnds(e, gap, t);
      SameAtOne(e, gap);
      PrintHead(e, 0, gap, t);
      var s := Print(e, 0, gap) + t;
      assert SkipWs(s) == s;
      AdditiveLoopSkips(e, SkipWs(t), t);
    }
  }

  lemma SameAtOne(e: Expr, gap: string)
    requires Printable(e) && Level(e) > 0
    ensures Print(e, 0, gap) == Print(e, 1, gap)
  {
  }

  lemma {:induction false} ProductEnds(e: Expr, gap: string, t: string)
    requires Printable(e) && AllBlank(gap) && EndsSum(t)
    ensures Multiplicative(Print(e, 1, gap) + t) == Done(e, SkipWs(t), 0)
    ensures SkipWs(SkipWs(t)) == SkipWs(t)
    decreases e, if Level(e) == 0 then 12 else 5
  {
    hide Print, Multiplicative;
    ProductOk(e, gap, t);
    SkipTwice(t);
  }

  lemma {:induction false} PlusOk(e: Expr, gap: string, t: string)
    requires Printable(e) && AllBlank(gap) && EndsSum(t) && Level(e) == 0
    ensures Additive(Print(e, 0, gap) + t) == AdditiveLoop(e, t, 0)
    decreases e, 0
  {
    hide Multiplicative, Print, Additive;
    var right := Print(e.right, 1, gap) + t;
    var t1 := gap + ([Sign(e.op)] + (gap + right));
    assert Print(e, 0, gap) + t == Print(e.left, 0, gap) + t1 by {
      Unfolds(e, gap, t);
    }
    SkipBlanks(gap, [Sign(e.op)] + (gap + right));
    SkipBlanks(gap, right);
    SignIsOp(e.op, gap + right);
    AdditiveOk(e.left, gap, t1);
    ProductEnds(e.right, gap, t);
    PrintHead(e.right, 1, gap, t);
    assert SkipWs(right) == right;
    AdditiveLoopSkips(e, SkipWs(t), t);
  }

  /** A whole expression in front of its end. */
  lemma {:induction false} SumOk(e: Expr, gap: string, t: string)
    requires Printable(e) && AllBlank(gap) && (SkipWs(t) == "" || SkipWs(t)[0] == ')')
    ensures Additive(PrintBare(e, gap) + t) == Done(e, SkipWs(t), 0)
    decreases e, 7
  {
    hide Additive, PrintBare;
    AdditiveOk(e, gap, t);
    assert Print(e, 0, gap) == PrintBare(e, gap);
  }

  /** The white space that is trimmed, by code point: the property White_Space of Unicode. */
  lemma WhiteByCodePoint(c: char)
    ensures IsWhite(c) <==>
      var n := c as int;
      9 <= n <= 13 || n == 32 || n == 0x85 || n == 0xA0 || n == 0x1680 || 0x2000 <= n <= 0x200A
      || n == 0x2028 || n == 0x2029 || n == 0x202F || n == 0x205F || n == 0x3000
  {
  }

  lemma {:induction false} NothingWhiteBehind(s: string, white: string)
    requires s != "" && !IsWhite(s[|s| - 1]) && forall c <- white :: IsWhite(c)
    ensures TrimEnd(s + white) == s
    decreases |white|
  {
    if white == "" {
      assert s + white == s;
    } else {
      var init := white[..|white| - 1];
      assert (s + white)[..|s + white| - 1] == s + init;
      assert (s + white)[|s + white| - 1] in white;
      NothingWhiteBehind(s, init);
    }
  }

  lemma {:induction false} NothingWhiteBefore(white: string, s: string)
    requires s != "" && !IsWhite(s[0]) && forall c <- white :: IsWhite(c)
    ensures TrimStart(white + s) == s
    decreases |white|
  {
    if white == "" {
      assert white + s == s;
    } else {
      assert (white + s)[1..] == white[1..] + s;
      assert (white + s)[0] in white;
      NothingWhiteBefore(white[1..], s);
    }
  }

  /** How an expression ends. */
  lemma {:induction false} PrintEnd(e: Expr, level: nat, gap: string)
    requires Printable(e)
    ensures var s := Print(e, level, gap); s != "" && !IsWhite(s[|s| - 1])
    decreases e, level
  {
    hide Decimal, Displayed;
    if Level(e) >= level {
      match e
      case Literal(value) => assert Decimal(value)[|Decimal(value)| - 1] in Decimal(value);
      case PathExpr(path) =>
        DisplayedHead(path);
        DisplayedNoWhite(path);
        assert Displayed(path)[|Displayed(path)| - 1] in Displayed(path);
      case Unary(_, inner) => PrintEnd(inner, 2, gap);
      case Binary(_, _, right) => PrintEnd(right, Level(e) + 1, gap);
    }
  }

  /**
   Parsing undoes printing: every tree of literals, paths, signs and operators, written with parentheses only
   where the grammar needs them, with any blanks between its tokens and any white space around it.
   */
  lemma ParseUndoesPrint(e: Expr, gap: string, before: string, behind: string)
    requires Printable(e) && AllBlank(gap)
    requires (forall c <- before :: IsWhite(c)) && (forall c <- behind :: IsWhite(c))
    ensures Parse(before + (Print(e, 0, gap) + behind)) == Tree(e)
  {
    hide Print, PrintBare, Additive, TrimStart, TrimEnd;
    var s := Print(e, 0, gap);
    PrintHead(e, 0, gap, behind);
    PrintEnd(e, 0, gap);
    NothingWhiteBefore(before, s + behind);
    NothingWhiteBehind(s, behind);
    SumOk(e, gap, "");
    PrintsBare(e, gap);
    assert s + "" == s;
  }

  lemma PrintsBare(e: Expr, gap: string)
    requires Printable(e)
    ensures Print(e, 0, gap) == PrintBare(e, gap)
  {
  }

  // --------------------------------------------------------- numerals and units

  /** `text` is `digits` with separators anywhere between them. */
  predicate Groups(text: string, digits: string) {
    if text == "" then digits == ""
    else if text[0] == '_' || text[0] == '`' then Groups(text[1..], digits)
    else digits != "" && text[0] == digits[0] && Groups(text[1..], digits[1..])
  }

  lemma {:induction false} GroupsStrip(text: string, digits: string)
    requires Groups(text, digits) && forall c <- digits :: IsHexDigit(c)
    ensures Without(text) == digits
    ensures forall c <- text :: c in digits || c in "_`"
    decreases |text|
  {
    if text != "" {
      if text[0] == '_' || text[0] == '`' {
        GroupsStrip(text[1..], digits);
      } else {
        assert digits[0] in digits && forall c <- digits[1..] :: c in digits;
        GroupsStrip(text[1..], digits[1..]);
        assert digits == [digits[0]] + digits[1..];
      }
    }
  }

  lemma StrippedDecimal(text: string, value: nat, t: string)
    requires Without(text) == Decimal(value) && (forall c <- text :: '0' <= c <= '9' || c in "_`")
    requires t == "" || (!InDecimal(t[0]) && t[0] !in "xX")
    ensures Number(text + t) == if value <= I128_MAX then Ok(value, t) else Cut
  {
    hide Decimal, NumberValue, Without;
    TakesAll(InDecimal, text, t);
    DecimalValue(value);
    var s := text + t;
    assert HexNumber(s).Backtrack? by {
      assert |s| >= 2 ==> s[1] == if |text| >= 2 then text[1] else if |text| == 1 then t[0] else t[1];
      assert |text| >= 2 ==> text[1] in text;
      assert Without("") == "" by {
        EmptyWithout();
      }
    }
  }

  lemma EmptyWithout()
    ensures Without("") == ""
  {
  }

  lemma StrippedHex(prefix: string, text: string, value: nat, t: string)
    requires prefix == "0x" || prefix == "0X"
    requires Without(text) == InBase(value, true) && (forall c <- text :: IsHexDigit(c) || c in "_`")
    requires t == "" || !InHex(t[0])
    ensures Number(prefix + (text + t)) == if value <= I128_MAX then Ok(value, t) else Cut
  {
    hide InBase, NumberValue, Without;
    TakesAll(InHex, text, t);
    InBaseValue(value, true);
    assert (prefix + (text + t))[2..] == text + t;
  }

  /** A numeral with separators anywhere in it has the value of its digits. */
  lemma GroupedDecimal(text: string, value: nat, t: string)
    requires Groups(text, Decimal(value)) && (t == "" || (!IsDigit(t[0]) && t[0] !in "_`xX"))
    ensures (Number(text + t)
             == if value < 0x8000_0000_0000_0000_0000_0000_0000_0000 then Ok(value, t) else Cut)
  {
    hide Decimal, Number;
    GroupsStrip(text, Decimal(value));
    StrippedDecimal(text, value, t);
  }

  /** The same behind a hexadecimal prefix, in either case. */
  lemma GroupedHex(prefix: string, text: string, value: nat, t: string)
    requires prefix == "0x" || prefix == "0X"
    requires Groups(text, InBase(value, true)) && (t == "" || (!IsHexDigit(t[0]) && t[0] !in "_`"))
    ensures (Number(prefix + (text + t))
             == if value < 0x8000_0000_0000_0000_0000_0000_0000_0000 then Ok(value, t) else Cut)
  {
    hide InBase, Number;
    GroupsStrip(text, InBase(value, true));
    StrippedHex(prefix, text, value, t);
  }

  /** A scale: how many times a thousand, or 1024. */
  datatype Scale = Scale(power: nat, binary: bool)

  function Factor(s: Scale): nat
    decreases s.power
  {
    if s.power == 0 then 1 else (if s.binary then 1024 else 1000) * Factor(s.(power := s.power - 1))
  }

  /** Its unit's name; a scale without a power is bytes. */
  function UnitName(s: Scale): string
    requires s.power <= 4
  {
    if s.power == 0 then "b" else ["kmgt"[s.power - 1]] + (if s.binary then "ib" else "b")
  }

  /** The same lower-case letters, each in either case. */
  predicate SameWord(word: string, lower: string) {
    |word| == |lower| && forall i :: 0 <= i < |word| ==> word[i] == lower[i] || word[i] as int + 32 == lower[i] as int
  }

  lemma LowersTo(unit: string, s: Scale)
    requires s.power <= 4 && SameWord(unit, UnitName(s))
    ensures LowerAll(unit) == UnitName(s)
  {
    var name := UnitName(s);
    assert forall c <- name :: 'a' <= c <= 'z';
    forall i | 0 <= i < |unit|
      ensures Lower(unit[i]) == name[i]
    {
      assert name[i] in name;
    }
  }

  lemma UnitsAreScales(s: Scale)
    requires s.power <= 4
    ensures Multiplier(UnitName(s)) == Factor(s)
  {
    var b := if s.binary then 1024 else 1000;
    assert Factor(Scale(0, s.binary)) == 1;
    assert Factor(Scale(1, s.binary)) == b;
    assert Factor(Scale(2, s.binary)) == b * b;
    assert Factor(Scale(3, s.binary)) == b * (b * b);
    assert Factor(Scale(4, s.binary)) == b * (b * (b * b));
    assert s == Scale(s.power, s.binary);
    if s.power == 0 {
    } else if s.power == 1 {
      assert UnitName(s) == if s.binary then "kib" else "kb";
    } else if s.power == 2 {
      assert UnitName(s) == if s.binary then "mib" else "mb";
    } else if s.power == 3 {
      assert UnitName(s) == if s.binary then "gib" else "gb";
    } else {
      assert UnitName(s) == if s.binary then "tib" else "tb";
    }
  }

  /** No other word is a unit. */
  lemma OnlyScalesAreUnits(w: string)
    requires Multiplier(w) > 0
    ensures exists s: Scale :: s.power <= 4 && UnitName(s) == w
  {
    var power :=
      if w == "b" then 0 else if w[0] == 'k' then 1 else if w[0] == 'm' then 2 else if w[0] == 'g' then 3 else 4;
    var s := Scale(power, |w| == 3);
    assert UnitName(s) == w;
  }

  /** A number, blanks and a unit in any case are one literal, their product, unless it is too big. */
  lemma NumberTimesUnit(value: nat, gap: string, scale: Scale, unit: string, t: string)
    requires AllBlank(gap) && scale.power <= 4 && SameWord(unit, UnitName(scale))
    requires t == "" || !IsAlpha(t[0])
    ensures (NumberWithUnit(Decimal(value) + (gap + (unit + t)))
             == if value * Factor(scale) <= I128_MAX then Ok(value * Factor(scale), t) else Cut)
  {
    hide Decimal, Multiplier, LowerAll, UnitName, SameWord, Factor, Number;
    var u := gap + (unit + t);
    UnitReads(scale, unit, t);
    UnitHead(scale, unit);
    SkipBlanks(gap, unit + t);
    assert SkipWs(unit + t) == unit + t;
    assert u != "" && (gap != "" ==> u[0] in gap);
    assert Factor(scale) >= 1 && value <= value * Factor(scale) by {
      FactorGrows(value, scale);
    }
    GroupedValue(value, u);
  }

  lemma GroupedValue(value: nat, t: string)
    requires t == "" || (!InDecimal(t[0]) && t[0] !in "xX")
    ensures Number(Decimal(value) + t) == if value <= I128_MAX then Ok(value, t) else Cut
  {
    hide Decimal, Number;
    NoSeparators(Decimal(value));
    StrippedDecimal(Decimal(value), value, t);
  }

  lemma {:induction false} FactorGrows(value: nat, s: Scale)
    ensures Factor(s) >= 1 && value <= value * Factor(s)
    decreases s.power
  {
    if s.power > 0 {
      FactorGrows(value, s.(power := s.power - 1));
      var f, b := Factor(s.(power := s.power - 1)), if s.binary then 1024 else 1000;
      assert Factor(s) == b * f;
    }
    var f := Factor(s);
    assert value * f == value + value * (f - 1);
  }

  lemma UnitHead(s: Scale, unit: string)
    requires s.power <= 4 && SameWord(unit, UnitName(s))
    ensures unit != "" && !IsBlank(unit[0]) && !InDecimal(unit[0]) && unit[0] !in "xX"
    ensures |unit| <= 4 && forall c <- unit :: IsAlpha(c)
  {
    LowersTo(unit, s);
    var name := UnitName(s);
    forall i | 0 <= i < |unit|
      ensures IsAlpha(unit[i]) && unit[i] !in "xX"
    {
      assert Lower(unit[i]) == name[i];
    }
  }

  lemma UnitReads(s: Scale, unit: string, t: string)
    requires s.power <= 4 && SameWord(unit, UnitName(s)) && (t == "" || !IsAlpha(t[0]))
    ensures UnitSuffix(unit + t) == Ok(Factor(s), t)
  {
    hide LowerAll, Multiplier, UnitName, SameWord, Factor;
    LowersTo(unit, s);
    UnitHead(s, unit);
    UnitsAreScales(s);
    TakesAll(IsAlpha, unit, t);
    assert Factor(s) >= 1 by {
      FactorGrows(1, s);
    }
  }

  /** The whole input is one number with a unit. */
  lemma UnitLiteral(value: nat, gap: string, scale: Scale, unit: string)
    requires AllBlank(gap) && scale.power <= 4 && SameWord(unit, UnitName(scale))
    ensures (Parse(Decimal(value) + (gap + unit))
             == if value * Factor(scale) < 0x8000_0000_0000_0000_0000_0000_0000_0000
                then Tree(Literal(value * Factor(scale))) else Error(Syntax))
  {
    hide Decimal, LowerAll, UnitName, SameWord, Factor, NumberWithUnit, PathOf, ParenExpr;
    var s := Decimal(value) + (gap + unit);
    NumberTimesUnit(value, gap, scale, unit, "");
    UnitHead(scale, unit);
    assert unit + "" == unit;
    assert s[0] in Decimal(value) && s[|s| - 1] == unit[|unit| - 1] && unit[|unit| - 1] in unit;
    assert Trim(s) == s && SkipWs(s) == s;
    var fits := value * Factor(scale) <= I128_MAX;
    assert ParseUnary(s) == if fits then Done(Literal(value * Factor(scale)), "", 0) else Failed;
    if fits {
      OperandAlone(s, Literal(value * Factor(scale)));
    } else {
      hide ParseUnary;
      assert Multiplicative(s) == Failed;
    }
  }

  /** A unit behind a closed group multiplies the group. */
  lemma UnitBehindParens(e: Expr, gap: string, scale: Scale, unit: string)
    requires Printable(e) && AllBlank(gap) && scale.power <= 4 && SameWord(unit, UnitName(scale))
    ensures (Parse("(" + (PrintBare(e, "") + (")" + (gap + unit))))
             == Tree(Binary(Mul, e, Literal(Factor(scale)))))
  {
    hide PrintBare, Additive, LowerAll, UnitName, SameWord, Factor, ParseUnary, UnitSuffix;
    var close := ")" + (gap + unit);
    var x := PrintBare(e, "") + close;
    SumOk(e, "", close);
    BareHead(e, "", close);
    UnitHead(scale, unit);
    UnitReads(scale, unit, "");
    assert unit + "" == unit;
    SkipBlanks(gap, unit);
    assert SkipWs(unit) == unit;
    UnitAfterCloser(x, close, e, gap + unit, unit, Factor(scale));
    var s := "(" + x;
    assert s[|s| - 1] == unit[|unit| - 1] && unit[|unit| - 1] in unit;
    assert Trim(s) == s && SkipWs(s) == s;
    OperandAlone(s, Binary(Mul, e, Literal(Factor(scale))));
  }

  lemma UnitAfterCloser(x: string, close: string, e: Expr, behind: string, unit: string, factor: nat)
    requires SkipWs(x) == x && Additive(x) == Done(e, close, 0) && close == ")" + behind
    requires SkipWs(behind) == unit && UnitSuffix(unit) == Ok(factor, "")
    ensures ParseUnary("(" + x) == Done(Binary(Mul, e, Literal(factor)), "", 0)
  {
    hide Additive, UnitSuffix, NumberWithUnit, PathOf;
    var s := "(" + x;
    assert s[1..] == x && close[1..] == behind && SkipWs(close) == close && SkipWs(s) == s;
    assert ParenExpr(s) == Done(Binary(Mul, e, Literal(factor)), "", 0);
  }

  lemma OperandAlone(s: string, e: Expr)
    requires SkipWs(s) == s && ParseUnary(s) == Done(e, "", 0)
    ensures Additive(s) == Done(e, "", 0)
  {
    hide ParseUnary;
    assert Multiplicative(s) == Done(e, "", 0);
  }

  /** A closer nothing waits for is left over, with all that follows it. */
  lemma CloserTrails(e: Expr, gap: string, behind: string)
    requires Printable(e) && AllBlank(gap) && (behind == "" || !IsWhite(behind[|behind| - 1]))
    ensures Parse(Print(e, 0, gap) + (")" + behind)) == Error(TrailingInput(")" + behind))
  {
    hide Print, PrintBare, Additive;
    var t := ")" + behind;
    var s := Print(e, 0, gap) + t;
    SumOk(e, gap, t);
    PrintsBare(e, gap);
    PrintHead(e, 0, gap, t);
    assert s[|s| - 1] == t[|t| - 1];
    assert Trim(s) == s;
  }

  /** An instance number or an index too big for its machine integer is refused for good. */
  lemma TooBigIsRefused(n: nat, t: string)
    requires t == "" || !IsDigit(t[0])
    ensures InstanceSuffix("#" + (Decimal(n) + t)) == if n < 0x1_0000_0000 then Ok(n, t) else Cut
    ensures (IndexedSegment("[" + (Decimal(n) + ("]" + t)))
             == if n < 0x1_0000_0000_0000_0000 then Ok(Index(n), t) else Cut)
  {
    hide Decimal, NumberValue, PlainDigits;
    DecimalValue(n);
    ReadsDigits(n, t);
    ReadsDigits(n, "]" + t);
    assert ("#" + (Decimal(n) + t))[1..] == Decimal(n) + t;
    assert ("[" + (Decimal(n) + ("]" + t)))[1..] == Decimal(n) + ("]" + t);
    assert ("]" + t)[1..] == t;
  }
}
