/**
 The printer that puts parentheses only where the grammar needs them, and the
 proof that the Pratt parser undoes it.
 */
module ExprRoundTrip {
  import opened ExprGrammar

  function BinToken(op: BinOp): Token {
    match op
    case LogicalOr => PipePipe
    case LogicalAnd => AmpAmp
    case BitOr => Pipe
    case BitXor => Caret
    case BitAnd => Amp
    case Equal => EqEq
    case NotEqual => NotEq
    case Less => Lt
    case Greater => Gt
    case LessEqual => LtEq
    case GreaterEqual => GtEq
    case ShiftLeft => Shl
    case ShiftRight => Shr
    case Add => Plus
    case Sub => Minus
    case Mul => Star
    case Div => Slash
    case Rem => Percent
  }

  function AssignToken(op: AssignOp): Token {
    match op
    case Assign => Eq
    case AddAssign => PlusEq
    case SubAssign => MinusEq
    case MulAssign => StarEq
    case DivAssign => SlashEq
    case RemAssign => PercentEq
    case AndAssign => AmpEq
    case OrAssign => PipeEq
    case XorAssign => CaretEq
    case ShlAssign => ShlEq
    case ShrAssign => ShrEq
  }

  predicate IsPostfix(op: UnaryOp) {
    op == PostInc || op == PostDec
  }

  function UnaryToken(op: UnaryOp): Token {
    match op
    case Neg => Minus
    case Pos => Plus
    case Not => Bang
    case BitNot => Tilde
    case PreInc => PlusPlus
    case PreDec => MinusMinus
    case PostInc => PlusPlus
    case PostDec => MinusMinus
  }

  function LeftBp(op: BinOp): nat {
    match op
    case LogicalOr => 3
    case LogicalAnd => 5
    case BitOr => 7
    case BitXor => 9
    case BitAnd => 11
    case Equal => 13
    case NotEqual => 13
    case Less => 15
    case Greater => 15
    case LessEqual => 15
    case GreaterEqual => 15
    case ShiftLeft => 17
    case ShiftRight => 17
    case Add => 19
    case Sub => 19
    case Mul => 21
    case Div => 21
    case Rem => 21
  }

  // -------------------------------------------------------------- printing

  predicate IsPrefixExpr(e: Expr) {
    e.Unary? && !IsPostfix(e.uop)
  }

  /** Too weak an operator for a place that accepts only binding power `min` and up. */
  predicate NeedsParens(e: Expr, min: nat) {
    match e
    case Binary(op, _, _) => LeftBp(op) < min
    case Ternary(_, _, _) => 5 < min
    case Assignment(_, _, _) => 2 < min
    case _ => false
  }

  /**
   In front of an operator of power `level`; the ternary and the assignments would
   also swallow an operator of their own power.
   */
  predicate NeedsParensLeft(e: Expr, level: nat) {
    NeedsParens(e, level) || (e.Ternary? && 5 <= level) || (e.Assignment? && 2 <= level)
  }

  /** In front of a postfix operator. */
  predicate NeedsParensTarget(e: Expr) {
    e.Binary? || e.Ternary? || e.Assignment? || IsPrefixExpr(e)
  }

  /** What `sizeof (...)` is read as. */
  predicate IsSizeof(e: Expr) {
    e.Call? && e.callee == Name("sizeof") && |e.args| == 1
  }

  /** `e` without outer parentheses, followed by `rest`. */
  function PrintBare(e: Expr, rest: Toks): Toks
    decreases e, 0
  {
    match e
    case IntLit(v) => Cons(Int(v), rest)
    case FloatLit(text) => Cons(Float(text), rest)
    case StringLit(content) => Cons(Str(content), rest)
    case CharLit(code) => Cons(Chr(code), rest)
    case Name(name) => Cons(Ident(name), rest)
    case Binary(op, lhs, rhs) =>
      PrintLeft(lhs, LeftBp(op), Cons(BinToken(op), Print(rhs, LeftBp(op) + 1, rest)))
    case Unary(op, operand) =>
      if IsPostfix(op) then PrintTarget(operand, Cons(UnaryToken(op), rest))
      else Cons(UnaryToken(op), Print(operand, 30, rest))
    case Call(callee, args) =>
      if IsSizeof(e) then Cons(Kw(Sizeof), Cons(LParen, Print(args[0], 0, Cons(RParen, rest))))
      else PrintTarget(callee, Cons(LParen, PrintArgs(args, Cons(RParen, rest))))
    case Index(target, index) => PrintTarget(target, Cons(LBracket, Print(index, 0, Cons(RBracket, rest))))
    case Member(target, field) => PrintTarget(target, Cons(Dot, Cons(Ident(field), rest)))
    case Assignment(op, target, rvalue) =>
      PrintLeft(target, 2, Cons(AssignToken(op), Print(rvalue, 2, rest)))
    case Ternary(cond, thenVal, elseVal) =>
      PrintLeft(cond, 5,
        Cons(Question, Print(thenVal, 0, Cons(Colon, Print(elseVal, 5, rest)))))
  }

  function Print(e: Expr, min: nat, rest: Toks): Toks
    decreases e, 1
  {
    if NeedsParens(e, min) then Cons(LParen, PrintBare(e, Cons(RParen, rest))) else PrintBare(e, rest)
  }

  function PrintLeft(e: Expr, level: nat, rest: Toks): Toks
    decreases e, 1
  {
    if NeedsParensLeft(e, level) then Cons(LParen, PrintBare(e, Cons(RParen, rest))) else PrintBare(e, rest)
  }

  function PrintTarget(e: Expr, rest: Toks): Toks
    decreases e, 1
  {
    if NeedsParensTarget(e) then Cons(LParen, PrintBare(e, Cons(RParen, rest))) else PrintBare(e, rest)
  }

  function PrintArgs(args: seq<Expr>, rest: Toks): Toks
    decreases args, 0
  {
    if args == [] then rest
    else Print(args[0], 1, if |args| == 1 then rest else Cons(Comma, PrintArgs(args[1..], rest)))
  }

  // ---------------------------------------------------- what may follow

  const POSTFIX_POWER: nat := 100

  /** The power with which the next token would bind to an expression in front of it; -1: not at all. */
  function HeadPower(s: Toks): int {
    if s.End? then -1
    else
      var t := s.hd;
      if t in {LParen, LBracket, Dot, PlusPlus, MinusMinus} then POSTFIX_POWER
      else if InfixBindingPower(t).Infix? then InfixBindingPower(t).left
      else if t == Question then TERNARY_BP
      else if AssignOperator(t).AssignWith? then ASSIGN_BP
      else -1
  }

  /** A bare `e` keeps what follows out of its last operand when that binds weaker than this. */
  function Absorb(e: Expr): nat {
    match e
    case Binary(op, _, _) => LeftBp(op) + 1
    case Unary(op, _) => if IsPostfix(op) then POSTFIX_POWER + 1 else PREFIX_BP
    case Assignment(_, _, _) => ASSIGN_BP
    case Ternary(_, _, _) => TERNARY_BP
    case _ => POSTFIX_POWER + 1
  }

  lemma BinTokenPower(op: BinOp, s: Toks)
    ensures InfixBindingPower(BinToken(op)) == Infix(LeftBp(op), LeftBp(op) + 1, op)
    ensures BinToken(op) !in {LParen, RParen, LBracket, Dot, PlusPlus, MinusMinus, Colon, Comma} && !BinToken(op).Ident?
    ensures HeadPower(Cons(BinToken(op), s)) == LeftBp(op)
    ensures 3 <= LeftBp(op) <= 21
  {
  }

  lemma AssignTokenPower(op: AssignOp, s: Toks)
    ensures AssignOperator(AssignToken(op)) == AssignWith(op)
    ensures AssignToken(op) !in {LParen, RParen, LBracket, Dot, PlusPlus, MinusMinus, Question, Colon, Comma}
    ensures InfixBindingPower(AssignToken(op)).NotInfix? && !AssignToken(op).Ident?
    ensures HeadPower(Cons(AssignToken(op), s)) == ASSIGN_BP
  {
  }

  lemma HeadPowerRange(s: Toks)
    ensures -1 <= HeadPower(s) <= 21 || HeadPower(s) == POSTFIX_POWER
  {
  }

  /** The loop ends in front of a token that binds too weakly. */
  lemma LoopStops(e: Expr, s: Toks, m: nat)
    requires HeadPower(s) < m <= POSTFIX_POWER
    ensures ParseLoop(e, s, m) == Ok(e, s)
  {
  }

  // -------------------------------------------------------- no false cast

  /** How printed text can begin. */
  predicate GoodHead(e: Expr, s: Toks, rest: Toks) {
    && s.Cons? && StartsExpr(s.hd)
    && (s.hd.Ident? ==>
          (e.Name? && s.tl == rest) || (s.tl.Cons? && !s.tl.hd.Ident? && s.tl.hd !in {RParen, Colon, Comma}))
  }

  lemma {:induction false} BareHead(e: Expr, rest: Toks)
    ensures GoodHead(e, PrintBare(e, rest), rest)
    decreases e
  {
    match e
    case Binary(op, lhs, rhs) =>
      var follow := Cons(BinToken(op), Print(rhs, LeftBp(op) + 1, rest));
      BinTokenPower(op, End);
      BareHead(lhs, follow);
    case Unary(op, operand) =>
      BareHead(operand, Cons(UnaryToken(op), rest));
    case Call(callee, args) =>
      if !IsSizeof(e) {
        BareHead(callee, Cons(LParen, PrintArgs(args, Cons(RParen, rest))));
      }
    case Index(target, index) =>
      BareHead(target, Cons(LBracket, Print(index, 0, Cons(RBracket, rest))));
    case Member(target, field) =>
      BareHead(target, Cons(Dot, Cons(Ident(field), rest)));
    case Assignment(op, target, rvalue) =>
      AssignTokenPower(op, End);
      BareHead(target, Cons(AssignToken(op), Print(rvalue, ASSIGN_BP, rest)));
    case Ternary(cond, thenVal, elseVal) =>
      BareHead(cond, Cons(Question, Print(thenVal, 0, Cons(Colon, Print(elseVal, TERNARY_BP, rest)))));
    case _ =>
  }

  /** No printed parenthesis is taken for a cast. */
  lemma NoFalseCast(e: Expr, rest: Toks)
    requires !e.Name?
    ensures DetectCastType(PrintBare(e, Cons(RParen, rest))) == 0
  {
    BareHead(e, Cons(RParen, rest));
  }

  // ------------------------------------------------------------ round trip

  /** A parenthesised expression parses as itself, whatever follows. */
  lemma {:induction false} ParenOk(e: Expr, m: nat, rest: Toks)
    requires !e.Name?
    ensures ParseBp(Cons(LParen, PrintBare(e, Cons(RParen, rest))), m) == ParseLoop(e, rest, m)
    decreases e, 2
  {
    var inner := PrintBare(e, Cons(RParen, rest));
    NoFalseCast(e, rest);
    BareOk(e, 0, Cons(RParen, rest));
    LoopStops(e, Cons(RParen, rest), 0);
    assert ParsePrefix(Cons(LParen, inner)) == Ok(e, rest);
  }

  lemma {:induction false} TargetOk(e: Expr, m: nat, rest: Toks)
    ensures ParseBp(PrintTarget(e, rest), m) == ParseLoop(e, rest, m)
    decreases e, 3
  {
    if NeedsParensTarget(e) {
      ParenOk(e, m, rest);
    } else {
      HeadPowerRange(rest);
      BareOk(e, m, rest);
    }
  }

  lemma {:induction false} LeftOk(e: Expr, level: nat, m: nat, rest: Toks)
    requires m <= level <= 21 && HeadPower(rest) <= level
    ensures ParseBp(PrintLeft(e, level, rest), m) == ParseLoop(e, rest, m)
    decreases e, 3
  {
    if NeedsParensLeft(e, level) {
      ParenOk(e, m, rest);
    } else {
      BareOk(e, m, rest);
    }
  }

  /** The round trip at any minimum binding power in front of a token that does not continue. */
  lemma {:induction false} PrintOk(e: Expr, m: nat, rest: Toks)
    requires HeadPower(rest) < m <= POSTFIX_POWER
    ensures ParseBp(Print(e, m, rest), m) == Ok(e, rest)
    decreases e, 3
  {
    HeadPowerRange(rest);
    LoopStops(e, rest, m);
    if NeedsParens(e, m) {
      ParenOk(e, m, rest);
    } else {
      BareOk(e, m, rest);
    }
  }

  lemma {:induction false} ArgsOk(args: seq<Expr>, rest: Toks)
    requires args != []
    ensures ParseArgList(PrintArgs(args, Cons(RParen, rest))) == Ok(args, Cons(RParen, rest))
    decreases args, 0
  {
    var follow := if |args| == 1 then Cons(RParen, rest) else Cons(Comma, PrintArgs(args[1..], Cons(RParen, rest)));
    PrintOk(args[0], 1, follow);
    if |args| == 1 {
      assert args == [args[0]];
    } else {
      ArgsOk(args[1..], rest);
      assert args == [args[0]] + args[1..];
    }
  }

  lemma ArgsHead(args: seq<Expr>, rest: Toks)
    ensures PrintArgs(args, Cons(RParen, rest)).StartsWith(RParen) <==> args == []
  {
    if args != [] {
      var follow := if |args| == 1 then Cons(RParen, rest) else Cons(Comma, PrintArgs(args[1..], Cons(RParen, rest)));
      BareHead(args[0], follow);
      BareHead(args[0], Cons(RParen, follow));
    }
  }

  lemma {:induction false} BinaryOk(e: Expr, m: nat, rest: Toks)
    requires e.Binary? && m <= LeftBp(e.op) && HeadPower(rest) < LeftBp(e.op) + 1
    ensures ParseBp(PrintBare(e, rest), m) == ParseLoop(e, rest, m)
    decreases e, 0
  {
    var follow := Print(e.rhs, LeftBp(e.op) + 1, rest);
    BinTokenPower(e.op, follow);
    LeftOk(e.lhs, LeftBp(e.op), m, Cons(BinToken(e.op), follow));
    PrintOk(e.rhs, LeftBp(e.op) + 1, rest);
  }

  lemma {:induction false} CallOk(e: Expr, m: nat, rest: Toks)
    requires e.Call? && !IsSizeof(e)
    ensures ParseBp(PrintBare(e, rest), m) == ParseLoop(e, rest, m)
    decreases e, 0
  {
    var argToks := PrintArgs(e.args, Cons(RParen, rest));
    TargetOk(e.callee, m, Cons(LParen, argToks));
    ArgsHead(e.args, rest);
    if e.args != [] {
      ArgsOk(e.args, rest);
    }
    assert ParseArgs(argToks) == Ok(e.args, Cons(RParen, rest));
  }

  lemma {:induction false} SizeofOk(e: Expr, m: nat, rest: Toks)
    requires IsSizeof(e)
    ensures ParseBp(PrintBare(e, rest), m) == ParseLoop(e, rest, m)
    decreases e, 0
  {
    var inner, closed := e.args[0], Cons(RParen, rest);
    hide ParseLoop;
    PrintOk(inner, 0, closed);
    PrintHead(inner, 0, closed);
    SizeofReads(Print(inner, 0, closed), inner, rest);
    assert [inner] == e.args;
  }

  lemma SizeofReads(s: Toks, inner: Expr, rest: Toks)
    requires s.Cons? && StartsExpr(s.hd) && ParseBp(s, 0) == Ok(inner, Cons(RParen, rest))
    ensures ParsePrefix(Cons(Kw(Sizeof), Cons(LParen, s))) == Ok(Call(Name("sizeof"), [inner]), rest)
  {
    hide ParseBp, ParseBraceList, DetectCastType, PrefixOperator;
    NoTagToSkip(s);
    hide SkipTag, StartsExpr;
  }

  lemma NoTagToSkip(s: Toks)
    requires s.Cons? && StartsExpr(s.hd)
    ensures SkipTag(s) == s
  {
  }

  lemma PrintHead(e: Expr, min: nat, rest: Toks)
    ensures GoodHead(e, Print(e, min, rest), rest)
  {
    BareHead(e, rest);
    BareHead(e, Cons(RParen, rest));
  }

  lemma {:induction false} IndexOk(e: Expr, m: nat, rest: Toks)
    requires e.Index?
    ensures ParseBp(PrintBare(e, rest), m) == ParseLoop(e, rest, m)
    decreases e, 0
  {
    var closed := Cons(RBracket, rest);
    TargetOk(e.target, m, Cons(LBracket, Print(e.index, 0, closed)));
    PrintOk(e.index, 0, closed);
  }

  lemma {:induction false} MemberOk(e: Expr, m: nat, rest: Toks)
    requires e.Member?
    ensures ParseBp(PrintBare(e, rest), m) == ParseLoop(e, rest, m)
    decreases e, 0
  {
    TargetOk(e.target, m, Cons(Dot, Cons(Ident(e.field), rest)));
  }

  lemma {:induction false} PostfixOk(e: Expr, m: nat, rest: Toks)
    requires e.Unary? && IsPostfix(e.uop)
    ensures ParseBp(PrintBare(e, rest), m) == ParseLoop(e, rest, m)
    decreases e, 0
  {
    TargetOk(e.operand, m, Cons(UnaryToken(e.uop), rest));
  }

  lemma {:induction false} AssignmentOk(e: Expr, m: nat, rest: Toks)
    requires e.Assignment? && m <= ASSIGN_BP && HeadPower(rest) < ASSIGN_BP
    ensures ParseBp(PrintBare(e, rest), m) == ParseLoop(e, rest, m)
    decreases e, 0
  {
    var follow := Print(e.rvalue, ASSIGN_BP, rest);
    AssignTokenPower(e.aop, follow);
    LeftOk(e.target, ASSIGN_BP, m, Cons(AssignToken(e.aop), follow));
    PrintOk(e.rvalue, ASSIGN_BP, rest);
  }

  lemma {:induction false} TernaryOk(e: Expr, m: nat, rest: Toks)
    requires e.Ternary? && m <= TERNARY_BP && HeadPower(rest) < TERNARY_BP
    ensures ParseBp(PrintBare(e, rest), m) == ParseLoop(e, rest, m)
    decreases e, 0
  {
    var elseToks := Print(e.elseVal, TERNARY_BP, rest);
    var thenToks := Print(e.thenVal, 0, Cons(Colon, elseToks));
    LeftOk(e.cond, TERNARY_BP, m, Cons(Question, thenToks));
    PrintOk(e.thenVal, 0, Cons(Colon, elseToks));
    PrintOk(e.elseVal, TERNARY_BP, rest);
  }

  lemma {:induction false} PrefixOk(e: Expr, m: nat, rest: Toks)
    requires IsPrefixExpr(e) && HeadPower(rest) < PREFIX_BP
    ensures ParseBp(PrintBare(e, rest), m) == ParseLoop(e, rest, m)
    decreases e, 0
  {
    PrintOk(e.operand, PREFIX_BP, rest);
    assert ParsePrefix(PrintBare(e, rest)) == Ok(e, rest);
  }

  /** A bare expression is read back whole when what follows cannot enter its last operand. */
  lemma {:induction false} BareOk(e: Expr, m: nat, rest: Toks)
    requires !NeedsParens(e, m) && HeadPower(rest) < Absorb(e)
    ensures ParseBp(PrintBare(e, rest), m) == ParseLoop(e, rest, m)
    decreases e, 1
  {
    match e
    case Binary(_, _, _) => BinaryOk(e, m, rest);
    case Unary(op, _) =>
      if IsPostfix(op) {
        PostfixOk(e, m, rest);
      } else {
        PrefixOk(e, m, rest);
      }
    case Call(_, _) =>
      if IsSizeof(e) {
        SizeofOk(e, m, rest);
      } else {
        CallOk(e, m, rest);
      }
    case Index(_, _) => IndexOk(e, m, rest);
    case Member(_, _) => MemberOk(e, m, rest);
    case Assignment(_, _, _) => AssignmentOk(e, m, rest);
    case Ternary(_, _, _) => TernaryOk(e, m, rest);
    case _ =>
  }

  // ----------------------------------------------- what leaves no trace

  /** A cast's type in its parentheses. */
  function CastToks(compound: bool, signedness: string, typeName: string, rest: Toks): Toks {
    var inner := Cons(Ident(typeName), Cons(RParen, rest));
    Cons(LParen, if compound then Cons(Ident(signedness), inner) else inner)
  }

  /** The keywords `true` and `false` are the literals 1 and 0. */
  lemma TruthKeywords(rest: Toks, m: nat)
    ensures ParseBp(Cons(Kw(True), rest), m) == ParseBp(Cons(Int(1), rest), m)
    ensures ParseBp(Cons(Kw(False), rest), m) == ParseBp(Cons(Int(0), rest), m)
    ensures ParsePrefix(Cons(Kw(True), rest)) == Ok(IntLit(1), rest)
    ensures ParsePrefix(Cons(Kw(False), rest)) == Ok(IntLit(0), rest)
  {
    hide ParseLoop;
  }

  /** A cast is read like a prefix operator, and dropped. */
  lemma CastIsDropped(compound: bool, signedness: string, typeName: string, e: Expr, m: nat, rest: Toks)
    requires HeadPower(rest) < PREFIX_BP && (compound ==> signedness == "unsigned" || signedness == "signed")
    ensures (ParseBp(CastToks(compound, signedness, typeName, Print(e, PREFIX_BP, rest)), m)
             == ParseLoop(e, rest, m))
  {
    hide ParseLoop, Print, DetectCastType, Drop;
    var operand := Print(e, PREFIX_BP, rest);
    PrintHead(e, PREFIX_BP, rest);
    PrintOk(e, PREFIX_BP, rest);
    CastIsDetected(compound, signedness, typeName, operand);
    assert ParsePrefix(CastToks(compound, signedness, typeName, operand)) == Ok(e, rest);
  }

  lemma CastIsDetected(compound: bool, signedness: string, typeName: string, operand: Toks)
    requires operand.Cons? && StartsExpr(operand.hd)
    requires compound ==> signedness == "unsigned" || signedness == "signed"
    ensures var toks, skip := CastToks(compound, signedness, typeName, operand), if compound then 2 else 1;
      DetectCastType(toks.tl) == skip && Drop(toks.tl, skip) == Cons(RParen, operand)
  {
    var toks := CastToks(compound, signedness, typeName, operand);
    assert Drop(toks.tl.tl, 1) == toks.tl.tl.tl;
    assert Drop(toks.tl, 1) == toks.tl.tl;
  }

  /** The elements of a brace list, separated and perhaps ended by commas. */
  function BraceToks(items: seq<Expr>, trailing: bool, rest: Toks): Toks {
    if items == [] then Cons(RBrace, rest)
    else Print(items[0], 1, BraceTailToks(items[1..], trailing, rest))
  }

  function BraceTailToks(items: seq<Expr>, trailing: bool, rest: Toks): Toks {
    if items != [] then Cons(Comma, Print(items[0], 1, BraceTailToks(items[1..], trailing, rest)))
    else if trailing then Cons(Comma, Cons(RBrace, rest))
    else Cons(RBrace, rest)
  }

  lemma {:induction false} BraceTailOk(items: seq<Expr>, trailing: bool, rest: Toks)
    ensures ParseBraceTail(BraceTailToks(items, trailing, rest)) == Ok((), Cons(RBrace, rest))
    decreases |items|
  {
    hide Print, ParseBp;
    if items != [] {
      var more := BraceTailToks(items[1..], trailing, rest);
      BraceTailOk(items[1..], trailing, rest);
      PrintOk(items[0], 1, more);
      PrintHead(items[0], 1, more);
    }
  }

  /** A brace list stands for its first element, and an empty one for zero. */
  lemma BraceListIsItsFirst(items: seq<Expr>, trailing: bool, m: nat, rest: Toks)
    ensures (ParseBp(Cons(LBrace, BraceToks(items, trailing, rest)), m)
             == ParseLoop(if items == [] then IntLit(0) else items[0], rest, m))
  {
    hide Print, ParseLoop;
    var toks := BraceToks(items, trailing, rest);
    if items != [] {
      var more := BraceTailToks(items[1..], trailing, rest);
      BraceTailOk(items[1..], trailing, rest);
      PrintOk(items[0], 1, more);
      PrintHead(items[0], 1, more);
    }
    assert ParseBraceList(toks) == Ok(if items == [] then IntLit(0) else items[0], rest);
    assert ParsePrefix(Cons(LBrace, toks)) == ParseBraceList(toks);
  }
}
