/**
 Emitting a structured program and reading it back gives the tree it stands for: no parenthesis the emitter
 writes is taken for a cast, and no statement for a function definition.
 */
module FuzzRoundTrip {
  import opened Splices
  import opened ExprGrammar
  import opened ExprRoundTrip
  import opened StmtGrammar
  import opened TemplateLexer
  import F = FuzzEmit
  import FuzzLexing
  import R = StmtRoundTrip

  // ----------------------------------------------------------- expressions

  /** The left operand of an emitted operator does not look like a cast's type. */
  lemma NoCast(e: F.FuzzExpr, op: Token, rest: Toks)
    requires op != RParen && !op.Ident?
    ensures DetectCastType(F.ExprToks(e, Cons(op, rest))) == 0
  {
    hide F.IdentName, F.BuiltinName;
  }

  /** An emitted expression is read back, whatever weak token follows. */
  lemma {:induction false} ExprParses(e: F.FuzzExpr, m: nat, rest: Toks)
    requires HeadPower(rest) < PREFIX_BP
    ensures ParseBp(F.ExprToks(e, rest), m) == ParseLoop(F.ExprTree(e), rest, m)
    decreases e
  {
    hide F.IdentName, F.BuiltinName;
    match e
    case IntLit(v) => IntParses(v, m, rest);
    case Var(_) =>
    case Call(k) => CallParses(F.BuiltinName(k), m, rest);
    case Not(inner) =>
      ExprParses(inner, PREFIX_BP, rest);
      LoopStops(F.ExprTree(inner), rest, PREFIX_BP);
      PrefixReads(Bang, F.ExprToks(inner, rest), F.ExprTree(inner), m, rest);
    case _ => OperatorParses(e, m, rest);
  }

  lemma LiteralReads(n: nat, m: nat, rest: Toks)
    ensures ParseBp(Cons(Int(n), rest), m) == ParseLoop(IntLit(n), rest, m)
  {
    hide ParseLoop;
  }

  lemma PrefixReads(t: Token, s: Toks, e: Expr, m: nat, rest: Toks)
    requires IsPrefixToken(t) && ParseBp(s, PREFIX_BP) == Ok(e, rest)
    ensures ParseBp(Cons(t, s), m) == ParseLoop(Unary(PrefixOperator(t), e), rest, m)
  {
    hide ParseLoop;
    assert ParsePrefix(Cons(t, s)) == Ok(Unary(PrefixOperator(t), e), rest);
  }

  lemma InfixReads(lhs: Expr, t: Token, s: Toks, rhs: Expr, m: nat, rest: Toks)
    requires t == Plus || t == Minus || t == Lt || t == EqEq
    requires var power := InfixBindingPower(t); m <= power.left && ParseBp(s, power.right) == Ok(rhs, rest)
    ensures ParseLoop(lhs, Cons(t, s), m) == ParseLoop(Binary(InfixBindingPower(t).op, lhs, rhs), rest, m)
  {
    hide ParseBp;
  }

  lemma IntParses(v: int, m: nat, rest: Toks)
    requires HeadPower(rest) < PREFIX_BP
    ensures ParseBp(F.ExprToks(F.IntLit(v), rest), m) == ParseLoop(F.ExprTree(F.IntLit(v)), rest, m)
  {
    hide ParseBp, ParseLoop;
    var n: nat := if v < 0 then -v else v;
    if v < 0 {
      LiteralReads(n, PREFIX_BP, rest);
      LoopStops(IntLit(n), rest, PREFIX_BP);
      PrefixReads(Minus, Cons(Int(n), rest), IntLit(n), m, rest);
    } else {
      LiteralReads(n, m, rest);
    }
  }

  lemma CallParses(name: string, m: nat, rest: Toks)
    ensures (ParseBp(Cons(Ident(name), Cons(LParen, Cons(RParen, rest))), m)
             == ParseLoop(Call(Name(name), []), rest, m))
  {
    assert ParseArgs(Cons(RParen, rest)) == Ok([], Cons(RParen, rest));
  }

  /** An operator with its operands, in its own parentheses. */
  lemma {:induction false} OperatorParses(e: F.FuzzExpr, m: nat, rest: Toks)
    requires e.Add? || e.Sub? || e.Lt? || e.Equal?
    ensures ParseBp(F.ExprToks(e, rest), m) == ParseLoop(F.ExprTree(e), rest, m)
    decreases e, 0
  {
    hide F.ExprToks, ParseBp, ParseLoop, DetectCastType, HeadPower;
    var op := F.OpToken(e);
    OperatorPower(e, F.ExprToks(e.right, Cons(RParen, rest)));
    ClosedPower(rest);
    var l, r := F.ExprTree(e.left), F.ExprTree(e.right);
    var closed := Cons(RParen, rest);
    var right := F.ExprToks(e.right, closed);
    var power := InfixBindingPower(op);
    ExprParses(e.left, 0, Cons(op, right));
    ExprParses(e.right, power.right, closed);
    LoopStops(r, closed, power.right);
    LoopStops(F.ExprTree(e), closed, 0);
    NoCast(e.left, op, right);
    InfixReads(l, op, right, r, 0, closed);
    ParenReads(F.ExprToks(e.left, Cons(op, right)), F.ExprTree(e), m, rest);
    OperatorToks(e, rest);
  }

  lemma OperatorPower(e: F.FuzzExpr, s: Toks)
    requires e.Add? || e.Sub? || e.Lt? || e.Equal?
    ensures var power := InfixBindingPower(F.OpToken(e));
      power.Infix? && 0 < power.right <= 20 && HeadPower(Cons(F.OpToken(e), s)) < PREFIX_BP
      && F.ExprTree(e) == Binary(power.op, F.ExprTree(e.left), F.ExprTree(e.right))
  {
  }

  lemma ClosedPower(rest: Toks)
    ensures HeadPower(Cons(RParen, rest)) == -1
  {
  }

  lemma OperatorToks(e: F.FuzzExpr, rest: Toks)
    requires e.Add? || e.Sub? || e.Lt? || e.Equal?
    ensures (F.ExprToks(e, rest)
             == Cons(LParen, F.ExprToks(e.left, Cons(F.OpToken(e), F.ExprToks(e.right, Cons(RParen, rest))))))
  {
  }

  lemma ParenReads(inner: Toks, e: Expr, m: nat, rest: Toks)
    requires DetectCastType(inner) == 0 && ParseBp(inner, 0) == Ok(e, Cons(RParen, rest))
    ensures ParseBp(Cons(LParen, inner), m) == ParseLoop(e, rest, m)
  {
    hide DetectCastType;
    assert ParsePrefix(Cons(LParen, inner)) == Ok(e, rest);
  }

  /** In front of a token that continues nothing, the expression is all that is read. */
  lemma ExprEnds(e: F.FuzzExpr, rest: Toks)
    requires HeadPower(rest) < 0
    ensures ParseBp(F.ExprToks(e, rest), 0) == Ok(F.ExprTree(e), rest)
  {
    ExprParses(e, 0, rest);
    LoopStops(F.ExprTree(e), rest, 0);
  }

  // ------------------------------------------------------------ statements

  /** No name of the pools changes how a declaration is read. */
  lemma PlainTypes(k: nat)
    ensures F.TypeName(k) != "unsigned" && F.TypeName(k) != "signed"
  {
  }

  lemma FieldParses(s: F.FuzzStmt, rest: Toks)
    requires s.Field?
    ensures ParseStmt(F.StmtToks(s, rest)) == Ok(F.StmtTree(s), rest)
  {
    hide F.TypeName, F.IdentName, ParseFieldDecl, ParseFirstDeclarator, ParseStmt;
    PlainTypes(s.ty);
    var t := F.StmtToks(s, rest);
    var named := t.tl;
    assert ParseModifiers(t, FieldModifier) == (FieldModifier, t);
    assert ParseTypeRef(t) == Ok(F.TypeName(s.ty), named);
    if s.arraySize.Some? {
      SizedReads(F.IdentName(s.name), s.arraySize.value % 16, rest);
    } else {
      UnsizedReads(F.IdentName(s.name), None, named.tl, rest);
    }
    SimpleDecl(t, FieldModifier, t, F.TypeName(s.ty), named,
               F.PlainDeclarator(F.IdentName(s.name),
                                 if s.arraySize.Some? then Some(IntLit(s.arraySize.value % 16)) else None, None), rest);
    DeclDispatch(t);
  }

  lemma DeclDispatch(s: Toks)
    requires s.Cons? && s.hd.Ident? && s.tl.Cons? && s.tl.hd.Ident?
    ensures ParseStmt(s) == ParseFieldDecl(s)
  {
    hide ParseFieldDecl;
    assert Ahead(s, 1) == Some(s.tl.hd);
  }

  /** A declaration with one declarator. */
  lemma SimpleDecl(s: Toks, modifier: Modifier, s0: Toks, typeName: string, s1: Toks, d: Declarator, rest: Toks)
    requires ParseModifiers(s, FieldModifier) == (modifier, s0)
    requires ParseTypeRef(s0) == Ok(typeName, s1)
    requires ParseFirstDeclarator(s1) == Ok(d, Cons(Semi, rest))
    ensures ParseFieldDecl(s) == Ok(FieldDecl(modifier, typeName, d), rest)
  {
    hide ParseModifiers, ParseTypeRef, ParseFirstDeclarator;
    assert ParseMoreDeclarators(Cons(Semi, rest)) == Ok([], Cons(Semi, rest));
    assert [d] + [] == [d];
  }

  /** A name, a literal dimension and the `;`. */
  lemma SizedReads(name: string, n: nat, rest: Toks)
    ensures (ParseFirstDeclarator(Cons(Ident(name), Cons(LBracket, Cons(Int(n), Cons(RBracket, Cons(Semi, rest))))))
             == Ok(F.PlainDeclarator(name, Some(IntLit(n)), None), Cons(Semi, rest)))
  {
    hide ParseOptionalArrayDim, ParseDeclTail;
    var end := Cons(Semi, rest);
    var tail := Cons(LBracket, Cons(Int(n), Cons(RBracket, end)));
    assert ParseDeclName(Cons(Ident(name), tail)) == Ok(Some(name), tail);
    LiteralDim(n, end);
    assert ParseOptionalArgs(end) == Ok([], end) && SkipArrayDims(end) == Ok((), end);
    DeclTail(Some(name), Some(IntLit(n)), None, end, rest);
  }

  /** A name, perhaps an initializer, and the `;`. */
  lemma UnsizedReads(name: string, init: Option<F.FuzzExpr>, tail: Toks, rest: Toks)
    requires tail == if init.Some? then Cons(Eq, F.ExprToks(init.value, Cons(Semi, rest))) else Cons(Semi, rest)
    ensures (ParseFirstDeclarator(Cons(Ident(name), tail))
             == Ok(F.PlainDeclarator(name, None, if init.Some? then Some(F.ExprTree(init.value)) else None),
                   Cons(Semi, rest)))
  {
    hide ParseDeclTail, F.ExprToks, F.ExprTree;
    assert ParseDeclName(Cons(Ident(name), tail)) == Ok(Some(name), tail);
    assert ParseOptionalArrayDim(tail) == Ok(None, tail) && ParseOptionalArgs(tail) == Ok([], tail);
    assert SkipArrayDims(tail) == Ok((), tail);
    DeclTail(Some(name), None, init, tail, rest);
  }

  lemma LiteralDim(n: nat, rest: Toks)
    ensures (ParseOptionalArrayDim(Cons(LBracket, Cons(Int(n), Cons(RBracket, rest))))
             == Ok(Some(IntLit(n)), rest))
  {
    LoopStops(IntLit(n), Cons(RBracket, rest), 0);
    assert ParseBp(Cons(Int(n), Cons(RBracket, rest)), 0) == Ok(IntLit(n), Cons(RBracket, rest));
  }

  lemma DeclTail(name: Option<string>, arraySize: Option<Expr>, init: Option<F.FuzzExpr>, tail: Toks, rest: Toks)
    requires tail == if init.Some? then Cons(Eq, F.ExprToks(init.value, Cons(Semi, rest))) else Cons(Semi, rest)
    ensures (ParseDeclTail(name, arraySize, [], tail)
             == Ok(Declarator(name, arraySize, [], None, [], if init.Some? then Some(F.ExprTree(init.value)) else None),
                   Cons(Semi, rest)))
  {
    hide F.ExprToks, F.ExprTree;
    assert ParseMarked(tail, Colon, BITFIELD_BP) == Ok(None, tail);
    assert ParseOptionalAttrs(tail) == Ok([], tail);
    if init.Some? {
      ExprEnds(init.value, Cons(Semi, rest));
    }
  }

  lemma LocalParses(s: F.FuzzStmt, rest: Toks)
    requires s.Local?
    ensures ParseStmt(F.StmtToks(s, rest)) == Ok(F.StmtTree(s), rest)
  {
    hide F.IdentName, F.ExprToks, F.ExprTree, ParseFieldDecl, ParseFirstDeclarator;
    var t := F.StmtToks(s, rest);
    assert ParseModifiers(t, FieldModifier) == (LocalModifier, t.tl);
    assert ParseTypeRef(t.tl) == Ok("int", t.tl.tl);
    UnsizedReads(F.IdentName(s.name), s.init, t.tl.tl.tl, rest);
    var init := if s.init.Some? then Some(F.ExprTree(s.init.value)) else None;
    SimpleDecl(t, LocalModifier, t.tl, "int", t.tl.tl, F.PlainDeclarator(F.IdentName(s.name), None, init), rest);
  }

  lemma ParenExprReads(cond: F.FuzzExpr, rest: Toks)
    ensures ParseParenExpr(F.ParenToks(cond, rest)) == Ok(F.ExprTree(cond), rest)
  {
    hide F.ExprToks, F.ExprTree;
    ExprEnds(cond, Cons(RParen, rest));
  }

  /** An expression statement is not taken for a declaration. */
  lemma ExprStmtParses(e: F.FuzzExpr, rest: Toks)
    ensures ParseStmt(F.ExprToks(e, Cons(Semi, rest))) == Ok(ExprStmt(F.ExprTree(e)), rest)
  {
    hide F.ExprToks, F.ExprTree, ParseBp, ParseStmt;
    ExprEnds(e, Cons(Semi, rest));
    ExprHead(e, Cons(Semi, rest));
    R.ExprDispatch(F.ExprToks(e, Cons(Semi, rest)));
  }

  /** How an emitted expression can begin. */
  lemma ExprHead(e: F.FuzzExpr, rest: Toks)
    requires rest.Cons? && !rest.hd.Ident? && rest.hd != Colon
    ensures var t := F.ExprToks(e, rest);
      t.Cons? && (t.hd.Int? || t.hd == Minus || t.hd == Bang || t.hd == LParen || t.hd.Ident?)
      && (t.hd.Ident? ==> t.tl.Cons? && !t.tl.hd.Ident? && t.tl.hd != Colon)
  {
    hide F.IdentName, F.BuiltinName;
  }

  lemma CallStmtParses(name: string, rest: Toks)
    ensures ParseStmt(F.CallStmtToks(name, rest)) == Ok(F.CallStmt(name), rest)
  {
    hide ParseStmt, ParseBp, ParseLoop;
    var e := Call(Name(name), []);
    CallParses(name, 0, Cons(Semi, rest));
    LoopStops(e, Cons(Semi, rest), 0);
    R.ExprDispatch(F.CallStmtToks(name, rest));
  }

  /** Statements in braces, whatever follows. */
  lemma {:induction false} BlockParses(stmts: seq<F.FuzzStmt>, rest: Toks)
    ensures (ParseStmt(Cons(LBrace, F.StmtsToks(stmts, Cons(RBrace, rest))))
             == Ok(Block(F.StmtTrees(stmts)), rest))
    decreases stmts, 4
  {
    hide F.StmtsToks, F.StmtTrees;
    StmtsParse(stmts, Cons(RBrace, rest));
    assert ParseBlock(F.StmtsToks(stmts, Cons(RBrace, rest))) == Ok(Block(F.StmtTrees(stmts)), rest);
  }

  lemma {:induction false} StmtsParse(stmts: seq<F.FuzzStmt>, rest: Toks)
    requires rest.StartsWith(RBrace)
    ensures ParseStmts(F.StmtsToks(stmts, rest)) == Ok(F.StmtTrees(stmts), rest)
    decreases stmts, 3
  {
    hide F.StmtToks, F.StmtTree;
    if stmts != [] {
      var more := F.StmtsToks(stmts[1..], rest);
      StmtsParse(stmts[1..], rest);
      NoElseNext(stmts[1..], rest);
      StmtParses(stmts[0], more);
      StmtHead(stmts[0], more);
    }
  }

  /** What a statement can begin with. */
  lemma StmtHead(s: F.FuzzStmt, rest: Toks)
    ensures var t := F.StmtToks(s, rest); t.Cons? && t.hd != RBrace && t.hd != Kw(Else)
  {
    hide F.IdentName, F.TypeName, F.StmtsToks, F.BuiltinName;
    if s.ExprStmt? {
      ExprHead(s.expr, Cons(Semi, rest));
    }
  }

  lemma NoElseNext(stmts: seq<F.FuzzStmt>, rest: Toks)
    requires !rest.StartsWith(Kw(Else))
    ensures !F.StmtsToks(stmts, rest).StartsWith(Kw(Else))
  {
    if stmts != [] {
      StmtHead(stmts[0], F.StmtsToks(stmts[1..], rest));
    }
  }

  lemma {:induction false} IfParses(s: F.FuzzStmt, rest: Toks)
    requires s.If? && !rest.StartsWith(Kw(Else))
    ensures ParseStmt(F.StmtToks(s, rest)) == Ok(F.StmtTree(s), rest)
    decreases s, 1
  {
    hide F.StmtsToks, F.StmtTrees, F.ParenToks, F.ExprTree, ParseParenExpr;
    var tail := match s.elseBody
      case Else(stmts) => Cons(Kw(Else), Cons(LBrace, F.StmtsToks(stmts, Cons(RBrace, rest))))
      case NoElse => rest;
    var block := Cons(LBrace, F.StmtsToks(s.thenBody, Cons(RBrace, tail)));
    ParenExprReads(s.cond, block);
    BlockParses(s.thenBody, tail);
    match s.elseBody
    case Else(stmts) =>
      BlockParses(stmts, rest);
      R.IfReads(F.ParenToks(s.cond, block), F.ExprTree(s.cond), block, Block(F.StmtTrees(s.thenBody)), tail,
              Some(Block(F.StmtTrees(stmts))), rest);
    case NoElse =>
      R.IfReads(F.ParenToks(s.cond, block), F.ExprTree(s.cond), block, Block(F.StmtTrees(s.thenBody)), tail, None, rest);
  }

  lemma {:induction false} WhileParses(s: F.FuzzStmt, rest: Toks)
    requires s.While?
    ensures ParseStmt(F.StmtToks(s, rest)) == Ok(F.StmtTree(s), rest)
    decreases s, 1
  {
    hide F.StmtsToks, F.StmtTrees, F.ParenToks, F.ExprTree, ParseParenExpr;
    var block := Cons(LBrace, F.StmtsToks(s.body, Cons(RBrace, rest)));
    ParenExprReads(s.cond, block);
    BlockParses(s.body, rest);
    assert ParseWhile(F.ParenToks(s.cond, block)) == Ok(F.StmtTree(s), rest);
  }

  lemma {:induction false} StmtParses(s: F.FuzzStmt, rest: Toks)
    requires !rest.StartsWith(Kw(Else))
    ensures ParseStmt(F.StmtToks(s, rest)) == Ok(F.StmtTree(s), rest)
    decreases s, 2
  {
    hide ParseStmt, F.StmtsToks, F.ExprToks, F.ExprTree, F.IdentName, F.TypeName;
    match s
    case Field(_, _, _) => FieldParses(s, rest);
    case Local(_, _) => LocalParses(s, rest);
    case If(_, _, _) => IfParses(s, rest);
    case While(_, _) => WhileParses(s, rest);
    case ExprStmt(e) => ExprStmtParses(e, rest);
    case LittleEndian => CallStmtParses("LittleEndian", rest);
    case BigEndian => CallStmtParses("BigEndian", rest);
  }

  // -------------------------------------------------------------- programs

  /** No emitted statement is taken for a function definition. */
  lemma NoFunction(s: F.FuzzStmt, rest: Toks)
    ensures !LooksLikeFunctionDef(F.StmtToks(s, rest))
  {
    hide F.IdentName, F.TypeName, F.BuiltinName, AfterClosing, LooksLikeParam, F.StmtsToks;
    var t := F.StmtToks(s, rest);
    if s.ExprStmt? {
      ExprHead(s.expr, Cons(Semi, rest));
      assert t.hd.Ident? ==> Ahead(t, 1) == Some(t.tl.hd);
    } else if s.Field? {
      assert Ahead(t.tl, 1) == Some(t.tl.tl.hd);
      assert Ahead(t, 2) == Some(t.tl.tl.hd);
    } else if s.LittleEndian? || s.BigEndian? {
      assert Ahead(t, 1) == Some(LParen);
    }
  }

  lemma {:induction false} ProgramParses(stmts: seq<F.FuzzStmt>)
    ensures ParseProgram(F.StmtsToks(stmts, End)) == Ok(F.StmtTrees(stmts), End)
    decreases |stmts|
  {
    hide F.StmtToks, F.StmtTree, LooksLikeFunctionDef;
    if stmts != [] {
      var more := F.StmtsToks(stmts[1..], End);
      ProgramParses(stmts[1..]);
      NoElseNext(stmts[1..], End);
      StmtParses(stmts[0], more);
      StmtHead(stmts[0], more);
      NoFunction(stmts[0], more);
    }
  }

  /** Emit, lex, parse: every structured program comes back as the tree it stands for. */
  lemma EmitThenParse(program: seq<F.FuzzStmt>)
    requires F.ValidProgram(program)
    ensures Tokenize(F.Emitted(program)).Some?
    ensures ParseProgram(Tokenize(F.Emitted(program)).value) == Ok(F.StmtTrees(program), End)
  {
    hide Tokenize, F.Emitted;
    FuzzLexing.ProgramLexes(program);
    ProgramParses(program);
  }
}
