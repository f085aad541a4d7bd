/**
 Statements of the template language as the parser reads them from the token stream
 (crates/hxy-010-lang/src/parser.rs). Type definitions, `switch`, inline structures and functions are not
 read here: where one would begin, the result is `Unsupported`.
 */
module StmtGrammar {
  import opened Splices
  import opened ExprGrammar

  datatype Modifier = FieldModifier | LocalModifier | ConstModifier

  datatype Attr = Attr(key: string, value: Expr)

  /** A name is missing for an anonymous bitfield. */
  datatype Declarator = Declarator(
    name: Option<string>,
    arraySize: Option<Expr>,
    args: seq<Expr>,
    bitWidth: Option<Expr>,
    attrs: seq<Attr>,
    init: Option<Expr>)

  datatype Stmt =
    | FieldDecl(modifier: Modifier, typeName: string, declarator: Declarator)
    | IfStmt(cond: Expr, thenBranch: Stmt, elseBranch: Option<Stmt>)
    | WhileStmt(cond: Expr, body: Stmt)
    | DoWhileStmt(body: Stmt, cond: Expr)
    | ForStmt(init: Option<Stmt>, test: Option<Expr>, step: Option<Expr>, body: Stmt)
    | ReturnStmt(value: Option<Expr>)
    | BreakStmt
    | ContinueStmt
    | Block(stmts: seq<Stmt>)
    | ExprStmt(expr: Expr)

  const ATTR_VALUE_BP: nat := 40
  const BITFIELD_BP: nat := 17

  /** The token `n` places ahead. */
  function Ahead(s: Toks, n: nat): Option<Token> {
    if s.End? then None else if n == 0 then Some(s.hd) else Ahead(s.tl, n - 1)
  }

  predicate AheadIs(s: Toks, n: nat, t: Token) {
    Ahead(s, n) == Some(t)
  }

  predicate AheadIsIdent(s: Toks, n: nat) {
    var t := Ahead(s, n);
    t.Some? && t.value.Ident?
  }

  // ------------------------------------------------------------- functions

  /** Behind the parenthesis that closes the one before `s`. */
  function AfterClosing(s: Toks, depth: nat): Option<Toks> {
    if s.End? then None
    else if s.hd == LParen then AfterClosing(s.tl, depth + 1)
    else if s.hd == RParen then if depth <= 1 then Some(s.tl) else AfterClosing(s.tl, depth - 1)
    else AfterClosing(s.tl, depth)
  }

  function SkipQualifier(s: Toks): Toks {
    if s.StartsWith(Kw(Local)) || s.StartsWith(Kw(Const)) then s.tl else s
  }

  function SkipSign(s: Toks): Toks {
    if s.StartsWith(Ident("unsigned")) || s.StartsWith(Ident("signed")) then s.tl else s
  }

  /** A parameter's tokens, past its qualifiers and tag: type, optional `&`, name, then `,` or `)`. */
  predicate LooksLikeParam(s: Toks) {
    var ty := SkipSign(SkipTag(SkipQualifier(s)));
    ty.Cons? && ty.hd.Ident?
    && var name := if ty.tl.StartsWith(Amp) then ty.tl.tl else ty.tl;
       name.Cons? && name.hd.Ident? && (name.tl.StartsWith(Comma) || name.tl.StartsWith(RParen))
  }

  /** `Type name ( ... )` and then a body, or a prototype's `;`. */
  predicate LooksLikeFunctionDef(s: Toks) {
    (AheadIsIdent(s, 0) || AheadIs(s, 0, Kw(Void)))
    && AheadIsIdent(s, 1)
    && AheadIs(s, 2, LParen)
    && var params := Drop(s, 3);
       var after := AfterClosing(params, 1);
       after.Some?
       && (AheadIs(after.value, 0, LBrace)
           || (AheadIs(after.value, 0, Semi) && (AheadIs(s, 0, Kw(Void)) || LooksLikeParam(params))))
  }

  // ---------------------------------------------------------- declarations

  predicate LooksLikeFieldDecl(s: Toks) {
    (AheadIsIdent(s, 0) || AheadIs(s, 0, Kw(Struct)) || AheadIs(s, 0, Kw(Enum)))
    && (AheadIsIdent(s, 1) || AheadIs(s, 1, Colon))
  }

  function RenameSignedness(name: string, signed: bool): string {
    if name in ["char", "uchar"] then if signed then "char" else "uchar"
    else if name in ["byte", "ubyte"] then if signed then "byte" else "ubyte"
    else if name in ["short", "int16", "ushort", "uint16", "WORD"] then if signed then "int16" else "uint16"
    else if name in ["int", "int32", "long", "LONG", "uint", "uint32", "ulong", "ULONG", "DWORD"] then
      if signed then "int32" else "uint32"
    else if name in ["int64", "QUAD", "__int64", "uint64", "UQUAD", "ULONG64", "QWORD"] then
      if signed then "int64" else "uint64"
    else name
  }

  function ExpectIdent(s: Toks): (r: Parsed<string>)
    ensures r.Ok? ==> r.rest.Len() < s.Len()
  {
    if s.End? then Err(UnexpectedEof) else if s.hd.Ident? then Ok(s.hd.name, s.tl) else Err(Unexpected(s.hd))
  }

  function ParseTypeRef(s: Toks): (r: Parsed<string>)
    ensures r.Ok? ==> r.rest.Len() < s.Len()
  {
    if AheadIs(s, 0, Kw(Void)) then Ok("void", s.tl)
    else
      var signed, unsigned := AheadIs(s, 0, Ident("signed")), AheadIs(s, 0, Ident("unsigned"));
      var modified := (signed || unsigned) && AheadIsIdent(s, 1);
      NamedType(if modified then s.tl else s, modified, signed)
  }

  function NamedType(s: Toks, modified: bool, signed: bool): (r: Parsed<string>)
    ensures r.Ok? ==> r.rest.Len() < s.Len()
  {
    if s.Cons? && (s.hd == Kw(Struct) || s.hd == Kw(Union)) && s.tl.Cons? && s.tl.hd.Ident? then
      assert s.Len() == 2 + s.tl.tl.Len();
      Ok(s.tl.hd.name, s.tl.tl)
    else
      match ExpectIdent(s)
      case Err(e) => Err(e)
      case Ok(name, rest) => Ok(if modified then RenameSignedness(name, signed) else name, rest)
  }

  /** The prefix of `local` and `const`: `const` wins. */
  function ParseModifiers(s: Toks, sofar: Modifier): (r: (Modifier, Toks))
    ensures r.1.Len() <= s.Len()
  {
    if AheadIs(s, 0, Kw(Local)) then
      ParseModifiers(s.tl, if sofar == ConstModifier then ConstModifier else LocalModifier)
    else if AheadIs(s, 0, Kw(Const)) then ParseModifiers(s.tl, ConstModifier)
    else (sofar, s)
  }

  function ParseOptionalArrayDim(s: Toks): (r: Parsed<Option<Expr>>)
    ensures r.Ok? ==> r.rest.Len() <= s.Len()
    ensures r.Ok? && s.StartsWith(LBracket) ==> r.rest.Len() < s.Len()
  {
    if !s.StartsWith(LBracket) then Ok(None, s)
    else if s.tl.StartsWith(RBracket) then Ok(Some(IntLit(0)), s.tl.tl)
    else
      match ParseBp(s.tl, 0)
      case Err(e) => Err(e)
      case Ok(size, after) =>
        match Expect(after, RBracket)
        case Err(e) => Err(e)
        case Ok(_, rest) => Ok(Some(size), rest)
  }

  /** Further dimensions are read and dropped. */
  function SkipArrayDims(s: Toks): (r: Parsed<()>)
    ensures r.Ok? ==> r.rest.Len() <= s.Len()
    decreases s.Len()
  {
    if !s.StartsWith(LBracket) then Ok((), s)
    else
      match ParseOptionalArrayDim(s)
      case Err(e) => Err(e)
      case Ok(_, rest) => SkipArrayDims(rest)
  }

  function ParseOptionalArgs(s: Toks): (r: Parsed<seq<Expr>>)
    ensures r.Ok? ==> r.rest.Len() <= s.Len()
  {
    if !s.StartsWith(LParen) then Ok([], s)
    else
      match ParseArgs(s.tl)
      case Err(e) => Err(e)
      case Ok(args, after) =>
        match Expect(after, RParen)
        case Err(e) => Err(e)
        case Ok(_, rest) => Ok(args, rest)
  }

  /** An expression if `mark` announces one. */
  function ParseMarked(s: Toks, mark: Token, minBp: nat): (r: Parsed<Option<Expr>>)
    ensures r.Ok? ==> r.rest.Len() <= s.Len()
  {
    if !s.StartsWith(mark) then Ok(None, s)
    else
      match ParseBp(s.tl, minBp)
      case Err(e) => Err(e)
      case Ok(e, rest) => Ok(Some(e), rest)
  }

  function ParseAttrList(s: Toks): (r: Parsed<seq<Attr>>)
    ensures r.Ok? ==> r.rest.Len() < s.Len()
    decreases s.Len()
  {
    match ExpectIdent(s)
    case Err(e) => Err(e)
    case Ok(key, s1) =>
      match Expect(s1, Eq)
      case Err(e) => Err(e)
      case Ok(_, s2) =>
        match ParseBp(s2, ATTR_VALUE_BP)
        case Err(e) => Err(e)
        case Ok(value, s3) =>
          if s3.StartsWith(Comma) then
            match ParseAttrList(s3.tl)
            case Err(e) => Err(e)
            case Ok(more, rest) => Ok([Attr(key, value)] + more, rest)
          else Ok([Attr(key, value)], s3)
  }

  function ParseOptionalAttrs(s: Toks): (r: Parsed<seq<Attr>>)
    ensures r.Ok? ==> r.rest.Len() <= s.Len()
  {
    if !s.StartsWith(Lt) then Ok([], s)
    else if s.tl.StartsWith(Gt) then Ok([], s.tl.tl)
    else
      match ParseAttrList(s.tl)
      case Err(e) => Err(e)
      case Ok(attrs, after) =>
        match Expect(after, Gt)
        case Err(e) => Err(e)
        case Ok(_, rest) => Ok(attrs, rest)
  }

  function ParseDeclName(s: Toks): (r: Parsed<Option<string>>)
    ensures r.Ok? ==> r.rest.Len() <= s.Len()
    ensures r.Ok? && r.value.None? ==> r.rest == s && s.StartsWith(Colon)
    ensures r.Ok? && r.value.Some? ==> r.rest.Len() < s.Len()
  {
    if s.StartsWith(Colon) then Ok(None, s)
    else
      match ExpectIdent(s)
      case Err(e) => Err(e)
      case Ok(name, rest) => Ok(Some(name), rest)
  }

  /** Bit width, attributes and initializer, in this order. */
  function ParseDeclTail(name: Option<string>, arraySize: Option<Expr>, args: seq<Expr>, s: Toks)
    : (r: Parsed<Declarator>)
    ensures r.Ok? ==> r.rest.Len() <= s.Len()
  {
    match ParseMarked(s, Colon, BITFIELD_BP)
    case Err(e) => Err(e)
    case Ok(bitWidth, s1) =>
      match ParseOptionalAttrs(s1)
      case Err(e) => Err(e)
      case Ok(attrs, s2) =>
        match ParseMarked(s2, Eq, 0)
        case Err(e) => Err(e)
        case Ok(init, rest) => Ok(Declarator(name, arraySize, args, bitWidth, attrs, init), rest)
  }

  /** The first declarator of a declaration: dimensions may stand before or after the arguments. */
  function ParseFirstDeclarator(s: Toks): (r: Parsed<Declarator>)
    ensures r.Ok? ==> r.rest.Len() <= s.Len()
  {
    match ParseDeclName(s)
    case Err(e) => Err(e)
    case Ok(name, s1) =>
      match ParseOptionalArrayDim(s1)
      case Err(e) => Err(e)
      case Ok(dim, s2) =>
        match ParseOptionalArgs(s2)
        case Err(e) => Err(e)
        case Ok(args, s3) =>
          match if dim.None? then ParseOptionalArrayDim(s3) else Ok(dim, s3)
          case Err(e) => Err(e)
          case Ok(arraySize, s4) =>
            match SkipArrayDims(s4)
            case Err(e) => Err(e)
            case Ok(_, s5) => ParseDeclTail(name, arraySize, args, s5)
  }

  /** A declarator behind a comma: dimensions before the arguments only. */
  function ParseNextDeclarator(s: Toks): (r: Parsed<Declarator>)
    ensures r.Ok? ==> r.rest.Len() <= s.Len()
  {
    match ParseDeclName(s)
    case Err(e) => Err(e)
    case Ok(name, s1) =>
      match ParseOptionalArrayDim(s1)
      case Err(e) => Err(e)
      case Ok(arraySize, s2) =>
        match SkipArrayDims(s2)
        case Err(e) => Err(e)
        case Ok(_, s3) =>
          match ParseOptionalArgs(s3)
          case Err(e) => Err(e)
          case Ok(args, s4) => ParseDeclTail(name, arraySize, args, s4)
  }

  function ParseMoreDeclarators(s: Toks): (r: Parsed<seq<Declarator>>)
    ensures r.Ok? ==> r.rest.Len() <= s.Len()
    decreases s.Len()
  {
    if !s.StartsWith(Comma) then Ok([], s)
    else
      match ParseNextDeclarator(s.tl)
      case Err(e) => Err(e)
      case Ok(declarator, s1) =>
        match ParseMoreDeclarators(s1)
        case Err(e) => Err(e)
        case Ok(more, rest) => Ok([declarator] + more, rest)
  }

  /** One statement, or a block of them when there are several declarators. */
  function ParseFieldDecl(s: Toks): (r: Parsed<Stmt>)
    ensures r.Ok? ==> r.rest.Len() < s.Len()
  {
    var (modifier, s0) := ParseModifiers(s, FieldModifier);
    match ParseTypeRef(s0)
    case Err(e) => Err(e)
    case Ok(typeName, s1) =>
      match ParseFirstDeclarator(s1)
      case Err(e) => Err(e)
      case Ok(first, s2) =>
        match ParseMoreDeclarators(s2)
        case Err(e) => Err(e)
        case Ok(more, s3) =>
          match Expect(s3, Semi)
          case Err(e) => Err(e)
          case Ok(_, rest) =>
            Ok(DeclTree(modifier, typeName, [first] + more), rest)
  }

  /** A declaration of several declarators is a block of declarations. */
  function DeclTree(modifier: Modifier, typeName: string, all: seq<Declarator>): Stmt
    requires all != []
  {
    if |all| == 1 then FieldDecl(modifier, typeName, all[0])
    else Block(seq(|all|, i requires 0 <= i < |all| => FieldDecl(modifier, typeName, all[i])))
  }

  // ------------------------------------------------------------ statements

  function ParseExprStmt(s: Toks): (r: Parsed<Stmt>)
    ensures r.Ok? ==> r.rest.Len() < s.Len()
  {
    match ParseBp(s, 0)
    case Err(e) => Err(e)
    case Ok(e, after) =>
      match Expect(after, Semi)
      case Err(e) => Err(e)
      case Ok(_, rest) => Ok(ExprStmt(e), rest)
  }

  function ParseParenExpr(s: Toks): (r: Parsed<Expr>)
    ensures r.Ok? ==> r.rest.Len() < s.Len()
  {
    match Expect(s, LParen)
    case Err(e) => Err(e)
    case Ok(_, s1) =>
      match ParseBp(s1, 0)
      case Err(e) => Err(e)
      case Ok(e, s2) =>
        match Expect(s2, RParen)
        case Err(e) => Err(e)
        case Ok(_, rest) => Ok(e, rest)
  }

  /** An expression unless `stop` is next. */
  function ParseUnless(s: Toks, stop: Token): (r: Parsed<Option<Expr>>)
    ensures r.Ok? ==> r.rest.Len() <= s.Len()
  {
    if s.StartsWith(stop) then Ok(None, s)
    else
      match ParseBp(s, 0)
      case Err(e) => Err(e)
      case Ok(e, rest) => Ok(Some(e), rest)
  }

  function ParseJump(s: Toks, stmt: Stmt): (r: Parsed<Stmt>)
    ensures r.Ok? ==> r.rest.Len() < s.Len()
  {
    match Expect(s, Semi)
    case Err(e) => Err(e)
    case Ok(_, rest) => Ok(stmt, rest)
  }

  function ParseReturn(s: Toks): (r: Parsed<Stmt>)
    ensures r.Ok? ==> r.rest.Len() < s.Len()
  {
    match ParseUnless(s, Semi)
    case Err(e) => Err(e)
    case Ok(value, s1) =>
      match Expect(s1, Semi)
      case Err(e) => Err(e)
      case Ok(_, rest) => Ok(ReturnStmt(value), rest)
  }

  predicate IsUnsupported(t: Token) {
    t == Kw(Typedef) || t == Kw(Switch) || t == Kw(Union) || t == Kw(Struct) || t == Kw(Enum)
  }

  function ParseStmt(s: Toks): (r: Parsed<Stmt>)
    ensures r.Ok? ==> r.rest.Len() < s.Len()
    decreases s.Len(), 2
  {
    if s.End? then Err(UnexpectedEof)
    else if s.hd == LBrace then ParseBlock(s.tl)
    else if s.hd == Kw(If) then ParseIf(s.tl)
    else if s.hd == Kw(While) then ParseWhile(s.tl)
    else if s.hd == Kw(Do) then ParseDoWhile(s.tl)
    else if s.hd == Kw(For) then ParseFor(s.tl)
    else if s.hd == Kw(Return) then ParseReturn(s.tl)
    else if s.hd == Kw(Break) then ParseJump(s.tl, BreakStmt)
    else if s.hd == Kw(Continue) then ParseJump(s.tl, ContinueStmt)
    else if IsUnsupported(s.hd) then Err(Unsupported(s.hd))
    else if s.hd == Kw(Local) || s.hd == Kw(Const) then ParseFieldDecl(s)
    else if s.hd == Semi then Ok(Block([]), s.tl)
    else if s.hd.Ident? && LooksLikeFieldDecl(s) then ParseFieldDecl(s)
    else ParseExprStmt(s)
  }

  /** Behind `{`: statements up to the `}`. */
  function ParseBlock(s: Toks): (r: Parsed<Stmt>)
    ensures r.Ok? ==> r.rest.Len() < s.Len()
    decreases s.Len(), 4
  {
    match ParseStmts(s)
    case Err(e) => Err(e)
    case Ok(stmts, after) =>
      match Expect(after, RBrace)
      case Err(e) => Err(e)
      case Ok(_, rest) => Ok(Block(stmts), rest)
  }

  function ParseStmts(s: Toks): (r: Parsed<seq<Stmt>>)
    ensures r.Ok? ==> r.rest.Len() <= s.Len()
    decreases s.Len(), 3
  {
    if s.End? || s.hd == RBrace then Ok([], s)
    else
      match ParseStmt(s)
      case Err(e) => Err(e)
      case Ok(stmt, more) =>
        match ParseStmts(more)
        case Err(e) => Err(e)
        case Ok(stmts, rest) => Ok([stmt] + stmts, rest)
  }

  function ParseIf(s: Toks): (r: Parsed<Stmt>)
    ensures r.Ok? ==> r.rest.Len() < s.Len()
    decreases s.Len(), 3
  {
    match ParseParenExpr(s)
    case Err(e) => Err(e)
    case Ok(cond, s1) =>
      match ParseStmt(s1)
      case Err(e) => Err(e)
      case Ok(thenBranch, s2) =>
        if s2.StartsWith(Kw(Else)) then
          match ParseStmt(s2.tl)
          case Err(e) => Err(e)
          case Ok(elseBranch, rest) => Ok(IfStmt(cond, thenBranch, Some(elseBranch)), rest)
        else Ok(IfStmt(cond, thenBranch, None), s2)
  }

  function ParseWhile(s: Toks): (r: Parsed<Stmt>)
    ensures r.Ok? ==> r.rest.Len() < s.Len()
    decreases s.Len(), 3
  {
    match ParseParenExpr(s)
    case Err(e) => Err(e)
    case Ok(cond, s1) =>
      match ParseStmt(s1)
      case Err(e) => Err(e)
      case Ok(body, rest) => Ok(WhileStmt(cond, body), rest)
  }

  function ParseDoWhile(s: Toks): (r: Parsed<Stmt>)
    ensures r.Ok? ==> r.rest.Len() < s.Len()
    decreases s.Len(), 3
  {
    match ParseStmt(s)
    case Err(e) => Err(e)
    case Ok(body, s1) =>
      match Expect(s1, Kw(While))
      case Err(e) => Err(e)
      case Ok(_, s2) =>
        match ParseParenExpr(s2)
        case Err(e) => Err(e)
        case Ok(cond, s3) =>
          match Expect(s3, Semi)
          case Err(e) => Err(e)
          case Ok(_, rest) => Ok(DoWhileStmt(body, cond), rest)
  }

  function ParseFor(s: Toks): (r: Parsed<Stmt>)
    ensures r.Ok? ==> r.rest.Len() < s.Len()
    decreases s.Len(), 3
  {
    match Expect(s, LParen)
    case Err(e) => Err(e)
    case Ok(_, s1) =>
      match ParseForInit(s1)
      case Err(e) => Err(e)
      case Ok(init, s2) =>
        match ParseForClauses(s2)
        case Err(e) => Err(e)
        case Ok(clauses, s3) =>
          match ParseStmt(s3)
          case Err(e) => Err(e)
          case Ok(body, rest) => Ok(ForStmt(init, clauses.0, clauses.1, body), rest)
  }

  function ParseForInit(s: Toks): (r: Parsed<Option<Stmt>>)
    ensures r.Ok? ==> r.rest.Len() < s.Len()
    decreases s.Len(), 3
  {
    if s.StartsWith(Semi) then Ok(None, s.tl)
    else
      match ParseStmt(s)
      case Err(e) => Err(e)
      case Ok(init, rest) => Ok(Some(init), rest)
  }

  /** The test, `;`, the step and the closing parenthesis. */
  function ParseForClauses(s: Toks): (r: Parsed<(Option<Expr>, Option<Expr>)>)
    ensures r.Ok? ==> r.rest.Len() < s.Len()
  {
    match ParseUnless(s, Semi)
    case Err(e) => Err(e)
    case Ok(test, s1) =>
      match Expect(s1, Semi)
      case Err(e) => Err(e)
      case Ok(_, s2) =>
        match ParseUnless(s2, RParen)
        case Err(e) => Err(e)
        case Ok(step, s3) =>
          match Expect(s3, RParen)
          case Err(e) => Err(e)
          case Ok(_, rest) => Ok((test, step), rest)
  }

  /** A whole program without functions. */
  function ParseProgram(s: Toks): Parsed<seq<Stmt>>
    decreases s.Len()
  {
    if s.End? then Ok([], End)
    else if LooksLikeFunctionDef(s) then Err(Unsupported(s.hd))
    else
      match ParseStmt(s)
      case Err(e) => Err(e)
      case Ok(stmt, more) =>
        match ParseProgram(more)
        case Err(e) => Err(e)
        case Ok(stmts, rest) => Ok([stmt] + stmts, rest)
  }
}
