/**
 Tokens and expressions of the 010 template language, and its Pratt expression
 parser as a function of the token stream (crates/hxy-010-lang/src/parser.rs,
 crates/hxy-010-lang/src/token.rs, crates/hxy-010-lang/src/ast.rs). Spans are left
 out; a float literal is kept as its text.
 */
module ExprGrammar {
  datatype Keyword =
    | Typedef | Struct | Enum | Union | If | Else | While | For | Do | Switch | Case | Default
    | Break | Continue | Return | Local | Const | Void | Sizeof | True | False

  datatype Token =
    | Int(value: nat) | Float(text: string) | Str(content: string) | Chr(code: nat)
    | Ident(name: string) | Kw(keyword: Keyword)
    | LParen | RParen | LBrace | RBrace | LBracket | RBracket
    | Semi | Comma | Dot | Colon | Question | Arrow
    | Plus | Minus | Star | Slash | Percent | PlusPlus | MinusMinus | Tilde | Bang
    | Amp | Pipe | Caret | Shl | Shr
    | EqEq | NotEq | Lt | Gt | LtEq | GtEq | AmpAmp | PipePipe
    | Eq | PlusEq | MinusEq | StarEq | SlashEq | PercentEq | AmpEq | PipeEq | CaretEq | ShlEq | ShrEq

  datatype BinOp =
    | Add | Sub | Mul | Div | Rem | Equal | NotEqual | Less | Greater | LessEqual | GreaterEqual
    | LogicalAnd | LogicalOr | BitAnd | BitOr | BitXor | ShiftLeft | ShiftRight

  datatype UnaryOp = Neg | Pos | Not | BitNot | PreInc | PreDec | PostInc | PostDec

  datatype AssignOp =
    | Assign | AddAssign | SubAssign | MulAssign | DivAssign | RemAssign
    | AndAssign | OrAssign | XorAssign | ShlAssign | ShrAssign

  datatype Expr =
    | IntLit(value: nat)
    | FloatLit(text: string)
    | StringLit(content: string)
    | CharLit(code: nat)
    | Name(name: string)
    | Binary(op: BinOp, lhs: Expr, rhs: Expr)
    | Unary(uop: UnaryOp, operand: Expr)
    | Call(callee: Expr, args: seq<Expr>)
    | Index(target: Expr, index: Expr)
    | Member(target: Expr, field: string)
    | Assignment(aop: AssignOp, target: Expr, rvalue: Expr)
    | Ternary(cond: Expr, thenVal: Expr, elseVal: Expr)

  /** What is left of the input. */
  datatype Toks = End | Cons(hd: Token, tl: Toks) {
    function Len(): nat {
      if End? then 0 else 1 + tl.Len()
    }

    predicate StartsWith(t: Token) {
      Cons? && hd == t
    }
  }

  /** `Unsupported`: the token begins something this model does not read. */
  datatype ParseError =
    | UnexpectedEof | Unexpected(found: Token) | NotAnExpression(found: Token) | Unsupported(found: Token)

  datatype Parsed<+T> = Ok(value: T, rest: Toks) | Err(error: ParseError)

  const PREFIX_BP: nat := 30
  const TERNARY_BP: nat := 5
  const ASSIGN_BP: nat := 2

  datatype Infix = Infix(left: nat, right: nat, op: BinOp) | NotInfix

  function InfixBindingPower(t: Token): Infix {
    match t
    case PipePipe => Infix(3, 4, LogicalOr)
    case AmpAmp => Infix(5, 6, LogicalAnd)
    case Pipe => Infix(7, 8, BitOr)
    case Caret => Infix(9, 10, BitXor)
    case Amp => Infix(11, 12, BitAnd)
    case EqEq => Infix(13, 14, Equal)
    case NotEq => Infix(13, 14, NotEqual)
    case Lt => Infix(15, 16, Less)
    case Gt => Infix(15, 16, Greater)
    case LtEq => Infix(15, 16, LessEqual)
    case GtEq => Infix(15, 16, GreaterEqual)
    case Shl => Infix(17, 18, ShiftLeft)
    case Shr => Infix(17, 18, ShiftRight)
    case Plus => Infix(19, 20, Add)
    case Minus => Infix(19, 20, Sub)
    case Star => Infix(21, 22, Mul)
    case Slash => Infix(21, 22, Div)
    case Percent => Infix(21, 22, Rem)
    case _ => NotInfix
  }

  datatype MaybeAssign = AssignWith(op: AssignOp) | NotAssign

  function AssignOperator(t: Token): MaybeAssign {
    match t
    case Eq => AssignWith(Assign)
    case PlusEq => AssignWith(AddAssign)
    case MinusEq => AssignWith(SubAssign)
    case StarEq => AssignWith(MulAssign)
    case SlashEq => AssignWith(DivAssign)
    case PercentEq => AssignWith(RemAssign)
    case AmpEq => AssignWith(AndAssign)
    case PipeEq => AssignWith(OrAssign)
    case CaretEq => AssignWith(XorAssign)
    case ShlEq => AssignWith(ShlAssign)
    case ShrEq => AssignWith(ShrAssign)
    case _ => NotAssign
  }

  /** The operator of a prefix token. */
  function PrefixOperator(t: Token): UnaryOp
    requires t in {Minus, Plus, Bang, Tilde, PlusPlus, MinusMinus}
  {
    match t
    case Minus => Neg
    case Plus => Pos
    case Bang => Not
    case Tilde => BitNot
    case PlusPlus => PreInc
    case MinusMinus => PreDec
  }

  predicate IsPrefixToken(t: Token) {
    t in {Minus, Plus, Bang, Tilde, PlusPlus, MinusMinus}
  }

  /** Tokens that may follow the `)` of a cast. */
  predicate StartsExpr(t: Token) {
    || t.Ident? || t.Int? || t.Float? || t.Str? || t.Chr?
    || t == LParen || IsPrefixToken(t)
    || t == Kw(True) || t == Kw(False) || t == Kw(Sizeof)
  }

  function Drop(s: Toks, n: nat): Toks {
    if n == 0 || s.End? then s else Drop(s.tl, n - 1)
  }

  /**
   The length of a type name just behind `(` when the parens look like a cast:
   one identifier, or `unsigned` / `signed` and one more, then `)` and a token
   that starts an expression.
   */
  function DetectCastType(s: Toks): (n: nat)
    ensures n <= 2 && n <= s.Len()
  {
    if s.End? || !s.hd.Ident? then 0
    else
      var compound := (s.hd.name == "unsigned" || s.hd.name == "signed") && s.tl.Cons? && s.tl.hd.Ident?;
      var after := if compound then s.tl.tl else s.tl;
      if after.Cons? && after.hd == RParen && after.tl.Cons? && StartsExpr(after.tl.hd)
      then
        assert after.Len() == 1 + after.tl.Len();
        if compound then assert s.Len() == 2 + s.tl.tl.Len(); 2 else 1
      else 0
  }

  lemma DropLen(s: Toks, n: nat)
    requires n <= s.Len()
    ensures Drop(s, n).Len() == s.Len() - n
  {
  }

  function Expect(s: Toks, t: Token): (r: Parsed<()>)
    ensures r.Ok? ==> s.StartsWith(t) && r.rest == s.tl && r.rest.Len() < s.Len()
  {
    if s.End? then Err(UnexpectedEof)
    else if s.hd == t then Ok((), s.tl)
    else Err(Unexpected(s.hd))
  }

  // ------------------------------------------------------------ the parser

  function ParseBp(s: Toks, minBp: nat): (r: Parsed<Expr>)
    ensures r.Ok? ==> r.rest.Len() < s.Len()
    decreases s.Len(), 3
  {
    match ParsePrefix(s)
    case Err(e) => Err(e)
    case Ok(lhs, rest) => ParseLoop(lhs, rest, minBp)
  }

  /** The operators behind an expression that is already parsed. */
  function ParseLoop(lhs: Expr, s: Toks, minBp: nat): (r: Parsed<Expr>)
    ensures r.Ok? ==> r.rest.Len() <= s.Len()
    decreases s.Len(), 1
  {
    if s.End? then Ok(lhs, s)
    else if s.hd == LParen then
      match ParseArgs(s.tl)
      case Err(e) => Err(e)
      case Ok(args, after) =>
        match Expect(after, RParen)
        case Err(e) => Err(e)
        case Ok(_, rest) => ParseLoop(Call(lhs, args), rest, minBp)
    else if s.hd == LBracket then
      match ParseBp(s.tl, 0)
      case Err(e) => Err(e)
      case Ok(index, after) =>
        match Expect(after, RBracket)
        case Err(e) => Err(e)
        case Ok(_, rest) => ParseLoop(Index(lhs, index), rest, minBp)
    else if s.hd == Dot then
      if s.tl.End? then Err(UnexpectedEof)
      else if !s.tl.hd.Ident? then Err(Unexpected(s.tl.hd))
      else ParseLoop(Member(lhs, s.tl.hd.name), s.tl.tl, minBp)
    else if s.hd == PlusPlus then ParseLoop(Unary(PostInc, lhs), s.tl, minBp)
    else if s.hd == MinusMinus then ParseLoop(Unary(PostDec, lhs), s.tl, minBp)
    else
      var infix := InfixBindingPower(s.hd);
      if infix.Infix? then
        if infix.left < minBp then Ok(lhs, s)
        else
          match ParseBp(s.tl, infix.right)
          case Err(e) => Err(e)
          case Ok(rhs, rest) => ParseLoop(Binary(infix.op, lhs, rhs), rest, minBp)
      else if s.hd == Question then
        if TERNARY_BP < minBp then Ok(lhs, s)
        else
          match ParseBp(s.tl, 0)
          case Err(e) => Err(e)
          case Ok(thenVal, after) =>
            match Expect(after, Colon)
            case Err(e) => Err(e)
            case Ok(_, elseToks) =>
              match ParseBp(elseToks, TERNARY_BP)
              case Err(e) => Err(e)
              case Ok(elseVal, rest) => ParseLoop(Ternary(lhs, thenVal, elseVal), rest, minBp)
      else if AssignOperator(s.hd).AssignWith? then
        if ASSIGN_BP < minBp then Ok(lhs, s)
        else
          match ParseBp(s.tl, ASSIGN_BP)
          case Err(e) => Err(e)
          case Ok(rvalue, rest) =>
            ParseLoop(Assignment(AssignOperator(s.hd).op, lhs, rvalue), rest, minBp)
      else Ok(lhs, s)
  }

  function ParsePrefix(s: Toks): (r: Parsed<Expr>)
    ensures r.Ok? ==> r.rest.Len() < s.Len()
    decreases s.Len(), 2
  {
    if s.End? then Err(UnexpectedEof)
    else if IsPrefixToken(s.hd) then
      match ParseBp(s.tl, PREFIX_BP)
      case Err(e) => Err(e)
      case Ok(operand, rest) => Ok(Unary(PrefixOperator(s.hd), operand), rest)
    else
      var t := s.hd;
      match t
      case Int(v) => Ok(IntLit(v), s.tl)
      case Float(text) => Ok(FloatLit(text), s.tl)
      case Str(content) => Ok(StringLit(content), s.tl)
      case Chr(code) => Ok(CharLit(code), s.tl)
      case Ident(name) => Ok(Name(name), s.tl)
      case Kw(True) => Ok(IntLit(1), s.tl)
      case Kw(False) => Ok(IntLit(0), s.tl)
      case Kw(Sizeof) =>
        (match Expect(s.tl, LParen)
         case Err(e) => Err(e)
         case Ok(_, open) =>
           match ParseBp(SkipTag(open), 0)
           case Err(e) => Err(e)
           case Ok(inner, after) =>
             match Expect(after, RParen)
             case Err(e) => Err(e)
             case Ok(_, rest) => Ok(Call(Name("sizeof"), [inner]), rest))
      case LBrace => ParseBraceList(s.tl)
      case LParen =>
        var skip := DetectCastType(s.tl);
        DropLen(s.tl, skip);
        if skip > 0 then
          match Expect(Drop(s.tl, skip), RParen)
          case Err(e) => Err(e)
          case Ok(_, target) => ParseBp(target, PREFIX_BP)
        else
          (match ParseBp(s.tl, 0)
           case Err(e) => Err(e)
           case Ok(inner, after) =>
             match Expect(after, RParen)
             case Err(e) => Err(e)
             case Ok(_, rest) => Ok(inner, rest))
      case _ => Err(NotAnExpression(t))
  }

  /** `sizeof(struct T)`: the tag keyword is skipped. */
  function SkipTag(s: Toks): (r: Toks)
    ensures r.Len() <= s.Len()
  {
    if s.StartsWith(Kw(Struct)) || s.StartsWith(Kw(Union)) || s.StartsWith(Kw(Enum)) then s.tl else s
  }

  /** `{a, b, ...}` stands for its first element, `{}` for zero. */
  function ParseBraceList(s: Toks): (r: Parsed<Expr>)
    ensures r.Ok? ==> r.rest.Len() < s.Len()
    decreases s.Len(), 6
  {
    if s.StartsWith(RBrace) then Ok(IntLit(0), s.tl)
    else
      match ParseBp(s, 1)
      case Err(e) => Err(e)
      case Ok(first, more) =>
        match ParseBraceTail(more)
        case Err(e) => Err(e)
        case Ok(_, after) =>
          match Expect(after, RBrace)
          case Err(e) => Err(e)
          case Ok(_, rest) => Ok(first, rest)
  }

  function ParseBraceTail(s: Toks): (r: Parsed<()>)
    ensures r.Ok? ==> r.rest.Len() <= s.Len()
    decreases s.Len(), 5
  {
    if !s.StartsWith(Comma) then Ok((), s)
    else if s.tl.StartsWith(RBrace) then Ok((), s.tl)
    else
      match ParseBp(s.tl, 1)
      case Err(e) => Err(e)
      case Ok(_, more) => ParseBraceTail(more)
  }

  function ParseArgs(s: Toks): (r: Parsed<seq<Expr>>)
    ensures r.Ok? ==> r.rest.Len() <= s.Len()
    decreases s.Len(), 5
  {
    if s.StartsWith(RParen) then Ok([], s) else ParseArgList(s)
  }

  function ParseArgList(s: Toks): (r: Parsed<seq<Expr>>)
    ensures r.Ok? ==> r.rest.Len() <= s.Len()
    decreases s.Len(), 4
  {
    match ParseBp(s, 1)
    case Err(e) => Err(e)
    case Ok(arg, more) =>
      if more.StartsWith(Comma) then
        match ParseArgList(more.tl)
        case Err(e) => Err(e)
        case Ok(args, rest) => Ok([arg] + args, rest)
      else Ok([arg], more)
  }
}
