/**
 What the parser returns is what the printer can print, and whole programs are read back: all but those with a
 declaration that looks like a function prototype.
 */
module ProgramRoundTrip {
  import opened Splices
  import opened ExprGrammar
  import opened ExprRoundTrip
  import opened StmtGrammar
  import opened StmtRoundTrip
  import opened TemplateLexer
  import opened TokenSpelling

  // --------------------------------------------------- the trees it returns

  /** A tree that can stand in front of what is left of the input. */
  predicate Fits(s: Stmt, rest: Toks) {
    WellFormed(s) && (Open(s) ==> !rest.StartsWith(Kw(Else)))
  }

  lemma TailRange(name: Option<string>, arraySize: Option<Expr>, args: seq<Expr>, s: Toks)
    requires ParseDeclTail(name, arraySize, args, s).Ok?
    ensures var d := ParseDeclTail(name, arraySize, args, s).value;
      d.name == name && d.arraySize == arraySize && d.args == args && (s.StartsWith(Colon) ==> d.bitWidth.Some?)
  {
    hide ParseBp, ParseAttrList;
  }

  lemma FirstRange(s: Toks)
    requires ParseFirstDeclarator(s).Ok?
    ensures WellNamed(ParseFirstDeclarator(s).value)
  {
    hide ParseBp, ParseArgs, ParseDeclTail;
    var s1 := ParseDeclName(s).rest;
    var s2 := ParseOptionalArrayDim(s1).rest;
    var args := ParseOptionalArgs(s2);
    var dim := if ParseOptionalArrayDim(s1).value.None? then ParseOptionalArrayDim(args.rest)
               else Ok(ParseOptionalArrayDim(s1).value, args.rest);
    TailRange(ParseDeclName(s).value, dim.value, args.value, SkipArrayDims(dim.rest).rest);
  }

  lemma NextRange(s: Toks)
    requires ParseNextDeclarator(s).Ok?
    ensures WellNamed(ParseNextDeclarator(s).value)
  {
    hide ParseBp, ParseArgs, ParseDeclTail;
    var s1 := ParseDeclName(s).rest;
    var dim := ParseOptionalArrayDim(s1);
    var args := ParseOptionalArgs(SkipArrayDims(dim.rest).rest);
    TailRange(ParseDeclName(s).value, dim.value, args.value, args.rest);
  }

  lemma {:induction false} MoreRange(s: Toks)
    requires ParseMoreDeclarators(s).Ok?
    ensures forall d <- ParseMoreDeclarators(s).value :: WellNamed(d)
    decreases s.Len()
  {
    hide ParseNextDeclarator;
    if s.StartsWith(Comma) {
      NextRange(s.tl);
      MoreRange(ParseNextDeclarator(s.tl).rest);
    }
  }

  lemma FieldDeclRange(s: Toks)
    requires ParseFieldDecl(s).Ok?
    ensures Fits(ParseFieldDecl(s).value, ParseFieldDecl(s).rest)
  {
    hide ParseFirstDeclarator, ParseMoreDeclarators, ParseModifiers, ParseTypeRef;
    var s1 := ParseTypeRef(ParseModifiers(s, FieldModifier).1).rest;
    FirstRange(s1);
    MoreRange(ParseFirstDeclarator(s1).rest);
    var m, typeName := ParseModifiers(s, FieldModifier).0, ParseTypeRef(ParseModifiers(s, FieldModifier).1).value;
    var first := ParseFirstDeclarator(s1);
    DeclTreeFits(m, typeName, [first.value] + ParseMoreDeclarators(first.rest).value, ParseFieldDecl(s).rest);
  }

  lemma DeclTreeFits(m: Modifier, typeName: string, all: seq<Declarator>, rest: Toks)
    requires all != [] && forall d <- all :: WellNamed(d)
    ensures Fits(DeclTree(m, typeName, all), rest)
  {
    var t := DeclTree(m, typeName, all);
    if t.Block? {
      forall d <- t.stmts
        ensures WellFormed(d)
      {
        var i :| 0 <= i < |t.stmts| && t.stmts[i] == d;
      }
    }
  }

  lemma {:induction false} IfRange(s: Toks)
    requires ParseIf(s).Ok?
    ensures Fits(ParseIf(s).value, ParseIf(s).rest)
    decreases s.Len(), 3
  {
    hide ParseParenExpr, ParseStmt;
    var s1 := ParseParenExpr(s).rest;
    StmtRange(s1);
    var s2 := ParseStmt(s1).rest;
    if s2.StartsWith(Kw(Else)) {
      StmtRange(s2.tl);
    }
  }

  lemma {:induction false} WhileRange(s: Toks)
    requires ParseWhile(s).Ok?
    ensures Fits(ParseWhile(s).value, ParseWhile(s).rest)
    decreases s.Len(), 3
  {
    hide ParseParenExpr, ParseStmt;
    StmtRange(ParseParenExpr(s).rest);
  }

  lemma {:induction false} DoWhileRange(s: Toks)
    requires ParseDoWhile(s).Ok?
    ensures Fits(ParseDoWhile(s).value, ParseDoWhile(s).rest)
    decreases s.Len(), 3
  {
    hide ParseParenExpr, ParseStmt;
    StmtRange(s);
  }

  lemma {:induction false} ForRange(s: Toks)
    requires ParseFor(s).Ok?
    ensures Fits(ParseFor(s).value, ParseFor(s).rest)
    decreases s.Len(), 3
  {
    hide ParseStmt, ParseForClauses;
    var s1 := s.tl;
    if !s1.StartsWith(Semi) {
      StmtRange(s1);
    }
    StmtRange(ParseForClauses(ParseForInit(s1).rest).rest);
  }

  lemma {:induction false} StmtsRange(s: Toks)
    requires ParseStmts(s).Ok?
    ensures forall t <- ParseStmts(s).value :: WellFormed(t)
    decreases s.Len(), 3
  {
    hide ParseStmt;
    if s.Cons? && s.hd != RBrace {
      StmtRange(s);
      StmtsRange(ParseStmt(s).rest);
    }
  }

  /** Whatever is parsed is well formed and took the `else` that was its own. */
  lemma {:induction false} StmtRange(s: Toks)
    requires ParseStmt(s).Ok?
    ensures Fits(ParseStmt(s).value, ParseStmt(s).rest)
    decreases s.Len(), 2
  {
    hide ParseIf, ParseWhile, ParseDoWhile, ParseFor, ParseReturn, ParseFieldDecl, ParseExprStmt, ParseStmts;
    hide WellFormed;
    if s.hd == LBrace {
      StmtsRange(s.tl);
      BlockFits(ParseStmts(s.tl).value, ParseStmt(s).rest);
    } else if s.hd == Kw(If) {
      IfRange(s.tl);
    } else if s.hd == Kw(While) {
      WhileRange(s.tl);
    } else if s.hd == Kw(Do) {
      DoWhileRange(s.tl);
    } else if s.hd == Kw(For) {
      ForRange(s.tl);
    } else if ParseStmt(s) == ParseFieldDecl(s) {
      FieldDeclRange(s);
    } else {
      PlainFits(s);
    }
  }

  lemma BlockFits(stmts: seq<Stmt>, rest: Toks)
    requires forall t <- stmts :: WellFormed(t)
    ensures Fits(Block(stmts), rest)
  {
  }

  lemma PlainFits(s: Toks)
    requires ParseStmt(s).Ok? && s.hd !in {LBrace, Kw(If), Kw(While), Kw(Do), Kw(For)}
    requires ParseStmt(s) != ParseFieldDecl(s)
    ensures Fits(ParseStmt(s).value, ParseStmt(s).rest)
  {
    hide ParseBp, ParseFieldDecl;
  }

  /** Printing what was parsed, in front of the rest of the input, and parsing again changes nothing. */
  lemma ReparseIsStable(s: Toks)
    requires ParseStmt(s).Ok?
    ensures ParseStmt(PrintStmt(ParseStmt(s).value, ParseStmt(s).rest)) == ParseStmt(s)
  {
    hide ParseStmt, PrintStmt, WellFormed, Open;
    StmtRange(s);
    StmtOk(ParseStmt(s).value, ParseStmt(s).rest);
  }

  /** The well-formed trees are exactly those some input is parsed to. */
  lemma WellFormedIsTheRange(t: Stmt)
    ensures WellFormed(t) <==> exists s: Toks :: ParseStmt(s).Ok? && ParseStmt(s).value == t
  {
    hide ParseStmt, PrintStmt, WellFormed, Open;
    if WellFormed(t) {
      StmtOk(t, End);
      assert ParseStmt(PrintStmt(t, End)).value == t;
    }
    forall s: Toks | ParseStmt(s).Ok? && ParseStmt(s).value == t
      ensures WellFormed(t)
    {
      StmtRange(s);
    }
  }

  // ------------------------------------------------------------- prototypes

  /** `a & b`, which also reads as a parameter `b` of type `a` passed by reference. */
  predicate IsReference(e: Expr) {
    e.Binary? && e.op == BitAnd && e.lhs.Name? && e.rhs.Name? && e.lhs.name != "signed" && e.lhs.name != "unsigned"
  }

  /** A field with arguments, the first of them `a & b`, and nothing behind them. */
  predicate LooksLikePrototype(s: Stmt) {
    s.FieldDecl? && s.modifier == FieldModifier && s.typeName != "signed" && s.typeName != "unsigned"
    && var d := s.declarator;
       d.name.Some? && d.arraySize.None? && d.bitWidth.None? && d.attrs == [] && d.init.None?
       && d.args != [] && IsReference(d.args[0])
  }

  /** A name, `&`, a name, and the end of an argument. */
  predicate ReferenceToks(s: Toks) {
    s.Cons? && s.hd.Ident? && s.tl.StartsWith(Amp) && s.tl.tl.Cons? && s.tl.tl.hd.Ident?
    && (s.tl.tl.tl.StartsWith(Comma) || s.tl.tl.tl.StartsWith(RParen))
  }

  /** What begins like `a & b` and stops there is `a & b`. */
  lemma {:induction false} ReferenceHead(e: Expr, follow: Toks)
    requires !e.Name? && ReferenceToks(PrintBare(e, follow))
    ensures e.Binary? && e.op == BitAnd && e.lhs.Name? && e.rhs.Name?
    ensures PrintBare(e, follow).hd == Ident(e.lhs.name)
    ensures follow.StartsWith(Comma) || follow.StartsWith(RParen)
    decreases e, 0
  {
    hide Print, PrintArgs, NeedsParensLeft, NeedsParensTarget;
    match e
    case Binary(op, lhs, rhs) =>
      var right := Print(rhs, LeftBp(op) + 1, follow);
      PrintHead(rhs, LeftBp(op) + 1, follow);
      BinTokenPower(op, End);
      LeftReference(lhs, LeftBp(op), Cons(BinToken(op), right));
    case Unary(op, operand) =>
      if IsPostfix(op) {
        TargetReference(operand, Cons(UnaryToken(op), follow));
      }
    case Call(callee, args) =>
      if !IsSizeof(e) {
        TargetReference(callee, Cons(LParen, PrintArgs(args, Cons(RParen, follow))));
      }
    case Index(target, index) =>
      TargetReference(target, Cons(LBracket, Print(index, 0, Cons(RBracket, follow))));
    case Member(target, field) => TargetReference(target, Cons(Dot, Cons(Ident(field), follow)));
    case Assignment(op, target, rvalue) =>
      AssignTokenPower(op, End);
      LeftReference(target, ASSIGN_BP, Cons(AssignToken(op), Print(rvalue, ASSIGN_BP, follow)));
    case Ternary(cond, thenVal, elseVal) =>
      LeftReference(cond, TERNARY_BP,
                    Cons(Question, Print(thenVal, 0, Cons(Colon, Print(elseVal, TERNARY_BP, follow)))));
    case _ =>
  }

  lemma {:induction false} LeftReference(e: Expr, level: nat, rest: Toks)
    requires ReferenceToks(PrintLeft(e, level, rest))
    ensures if e.Name? then PrintLeft(e, level, rest) == Cons(Ident(e.name), rest)
            else rest.StartsWith(Comma) || rest.StartsWith(RParen)
    decreases e, 1
  {
    if !e.Name? && !NeedsParensLeft(e, level) {
      ReferenceHead(e, rest);
    }
  }

  lemma {:induction false} TargetReference(e: Expr, rest: Toks)
    requires ReferenceToks(PrintTarget(e, rest))
    ensures if e.Name? then PrintTarget(e, rest) == Cons(Ident(e.name), rest)
            else rest.StartsWith(Comma) || rest.StartsWith(RParen)
    decreases e, 1
  {
    if !e.Name? && !NeedsParensTarget(e) {
      ReferenceHead(e, rest);
    }
  }

  /** A printed argument looks like a parameter exactly when it is `a & b`. */
  lemma ParamIsReference(e: Expr, follow: Toks)
    requires follow.StartsWith(Comma) || follow.StartsWith(RParen)
    ensures LooksLikeParam(Print(e, 1, follow)) <==> IsReference(e)
  {
    hide Print, LooksLikeParam, ReferenceToks;
    PrintHead(e, 1, follow);
    ReferenceOnly(e, follow);
    ParamToks(Print(e, 1, follow));
    if e.Name? {
      NamePrints(e, 1, follow);
    }
  }

  /** A parameter's tokens, for a text that begins like an expression. */
  lemma ParamToks(s: Toks)
    requires s.Cons? && StartsExpr(s.hd) && (s.hd.Ident? ==> s.tl.Cons? && !s.tl.hd.Ident?)
    ensures LooksLikeParam(s) <==> ReferenceToks(s) && s.hd != Ident("unsigned") && s.hd != Ident("signed")
  {
    assert SkipTag(SkipQualifier(s)) == s;
  }

  lemma NamePrints(e: Expr, level: nat, rest: Toks)
    requires e.Name?
    ensures Print(e, level, rest) == PrintLeft(e, level, rest) == Cons(Ident(e.name), rest)
  {
  }

  lemma ReferenceOnly(e: Expr, follow: Toks)
    requires follow.StartsWith(Comma) || follow.StartsWith(RParen)
    ensures ReferenceToks(Print(e, 1, follow))
            <==> e.Binary? && e.op == BitAnd && e.lhs.Name? && e.rhs.Name?
    ensures ReferenceToks(Print(e, 1, follow)) ==> Print(e, 1, follow).hd == Ident(e.lhs.name)
  {
    if ReferenceToks(Print(e, 1, follow)) && !e.Name? {
      ReferenceHead(e, follow);
    }
    if e.Binary? && e.op == BitAnd && e.lhs.Name? && e.rhs.Name? {
      NamePrints(e.rhs, 12, follow);
      NamePrints(e.lhs, 11, Cons(Amp, Print(e.rhs, 12, follow)));
    }
  }

  // ------------------------------------------- printed parentheses balance

  /** A token that is no parenthesis. */
  lemma PlainToken(t: Token, rest: Toks, depth: nat)
    requires t != LParen && t != RParen
    ensures AfterClosing(Cons(t, rest), depth) == AfterClosing(rest, depth)
  {
  }

  lemma OperatorsArePlain(b: BinOp, u: UnaryOp, a: AssignOp)
    ensures BinToken(b) !in {LParen, RParen} && UnaryToken(u) !in {LParen, RParen}
    ensures AssignToken(a) !in {LParen, RParen}
  {
  }

  /** Two operands of an expression, and the operator between them. */
  lemma {:induction false} InfixBalances(whole: Expr, lhs: Expr, level: nat, t: Token, rhs: Expr, min: nat, rest: Toks,
                                         depth: nat)
    requires depth > 0 && t != LParen && t != RParen && lhs < whole && rhs < whole
    ensures (AfterClosing(PrintLeft(lhs, level, Cons(t, Print(rhs, min, rest))), depth)
             == AfterClosing(rest, depth))
    decreases whole, 0
  {
    hide *;
    var right := Print(rhs, min, rest);
    LeftBalances(lhs, level, Cons(t, right), depth);
    PlainToken(t, right, depth);
    PrintBalances(rhs, min, rest, depth);
  }

  lemma {:induction false} UnaryBalances(e: Expr, rest: Toks, depth: nat)
    requires depth > 0 && e.Unary?
    ensures AfterClosing(PrintBare(e, rest), depth) == AfterClosing(rest, depth)
    decreases e, 0
  {
    hide Print, PrintTarget, UnaryToken, AfterClosing;
    OperatorsArePlain(Add, e.uop, Assign);
    PlainToken(UnaryToken(e.uop), rest, depth);
    PlainToken(UnaryToken(e.uop), Print(e.operand, PREFIX_BP, rest), depth);
    TargetBalances(e.operand, Cons(UnaryToken(e.uop), rest), depth);
    PrintBalances(e.operand, PREFIX_BP, rest, depth);
  }

  lemma {:induction false} PostfixBalances(e: Expr, rest: Toks, depth: nat)
    requires depth > 0 && (e.Call? || e.Index? || e.Member?)
    ensures AfterClosing(PrintBare(e, rest), depth) == AfterClosing(rest, depth)
    decreases e, 0
  {
    hide Print, PrintTarget, PrintArgs;
    match e
    case Call(callee, args) =>
      if IsSizeof(e) {
        PrintBalances(args[0], 0, Cons(RParen, rest), depth + 1);
      } else {
        TargetBalances(callee, Cons(LParen, PrintArgs(args, Cons(RParen, rest))), depth);
        ArgsBalance(args, Cons(RParen, rest), depth + 1);
      }
    case Index(target, index) =>
      TargetBalances(target, Cons(LBracket, Print(index, 0, Cons(RBracket, rest))), depth);
      PrintBalances(index, 0, Cons(RBracket, rest), depth);
    case Member(target, field) => TargetBalances(target, Cons(Dot, Cons(Ident(field), rest)), depth);
  }

  lemma {:induction false} BareBalances(e: Expr, rest: Toks, depth: nat)
    requires depth > 0
    ensures AfterClosing(PrintBare(e, rest), depth) == AfterClosing(rest, depth)
    decreases e, 1
  {
    hide Print, PrintLeft, PrintTarget, PrintArgs, BinToken, AssignToken;
    match e
    case Binary(op, lhs, rhs) =>
      OperatorsArePlain(op, Neg, Assign);
      InfixBalances(e, lhs, LeftBp(op), BinToken(op), rhs, LeftBp(op) + 1, rest, depth);
    case Unary(_, _) => UnaryBalances(e, rest, depth);
    case Assignment(op, target, rvalue) =>
      OperatorsArePlain(Add, Neg, op);
      InfixBalances(e, target, ASSIGN_BP, AssignToken(op), rvalue, ASSIGN_BP, rest, depth);
    case Ternary(cond, thenVal, elseVal) =>
      var otherwise := Print(elseVal, TERNARY_BP, rest);
      InfixBalances(e, cond, TERNARY_BP, Question, thenVal, 0, Cons(Colon, otherwise), depth);
      PlainToken(Colon, otherwise, depth);
      PrintBalances(elseVal, TERNARY_BP, rest, depth);
    case Call(_, _) => PostfixBalances(e, rest, depth);
    case Index(_, _) => PostfixBalances(e, rest, depth);
    case Member(_, _) => PostfixBalances(e, rest, depth);
    case _ =>
  }

  lemma {:induction false} LeftBalances(e: Expr, level: nat, rest: Toks, depth: nat)
    requires depth > 0
    ensures AfterClosing(PrintLeft(e, level, rest), depth) == AfterClosing(rest, depth)
    decreases e, 2
  {
    hide PrintBare;
    BareBalances(e, rest, depth);
    BareBalances(e, Cons(RParen, rest), depth + 1);
  }

  lemma {:induction false} PrintBalances(e: Expr, min: nat, rest: Toks, depth: nat)
    requires depth > 0
    ensures AfterClosing(Print(e, min, rest), depth) == AfterClosing(rest, depth)
    decreases e, 2
  {
    hide PrintBare;
    BareBalances(e, rest, depth);
    BareBalances(e, Cons(RParen, rest), depth + 1);
  }

  lemma {:induction false} TargetBalances(e: Expr, rest: Toks, depth: nat)
    requires depth > 0
    ensures AfterClosing(PrintTarget(e, rest), depth) == AfterClosing(rest, depth)
    decreases e, 2
  {
    hide PrintBare;
    BareBalances(e, rest, depth);
    BareBalances(e, Cons(RParen, rest), depth + 1);
  }

  lemma {:induction false} ArgsBalance(args: seq<Expr>, rest: Toks, depth: nat)
    requires depth > 0
    ensures AfterClosing(PrintArgs(args, rest), depth) == AfterClosing(rest, depth)
    decreases args, 0
  {
    hide Print;
    if args != [] {
      var follow := if |args| == 1 then rest else Cons(Comma, PrintArgs(args[1..], rest));
      PrintBalances(args[0], 1, follow, depth);
      if |args| > 1 {
        ArgsBalance(args[1..], rest, depth);
      }
    }
  }

  // --------------------------------------------------------------- programs

  lemma ArgumentsLook(args: seq<Expr>, rest: Toks)
    requires args != []
    ensures AfterClosing(PrintArgs(args, Cons(RParen, rest)), 1) == Some(rest)
    ensures LooksLikeParam(PrintArgs(args, Cons(RParen, rest))) <==> IsReference(args[0])
  {
    hide Print, LooksLikeParam;
    ArgsBalance(args, Cons(RParen, rest), 1);
    var follow := if |args| == 1 then Cons(RParen, rest) else Cons(Comma, PrintArgs(args[1..], Cons(RParen, rest)));
    ParamIsReference(args[0], follow);
  }

  /** A printed field looks like a function exactly when it looks like a prototype. */
  lemma FieldLooks(s: Stmt, rest: Toks)
    requires s.FieldDecl? && WellFormed(s)
    ensures LooksLikeFunctionDef(PrintStmt(s, rest)) <==> LooksLikePrototype(s)
  {
    hide Print, PrintArgs, AfterClosing, LooksLikeParam, IsReference, AttrListToks;
    var d, t := s.declarator, PrintStmt(s, rest);
    if s.modifier == FieldModifier && s.typeName != "signed" && s.typeName != "unsigned" && d.name.Some? {
      var tail := TailToks(d, Cons(Semi, rest));
      assert t.tl.tl == DimToks(d.arraySize, ArgToks(d.args, tail));
      assert Ahead(t, 1) == Some(t.tl.hd) && Ahead(t.tl, 1) == Some(t.tl.tl.hd) && Ahead(t, 2) == Some(t.tl.tl.hd);
      if d.arraySize.None? && d.args != [] {
        assert Drop(t, 3) == t.tl.tl.tl by {
          assert Drop(t.tl, 2) == Drop(t.tl.tl, 1) == t.tl.tl.tl;
        }
        ArgumentsLook(d.args, tail);
      }
    } else if s.modifier == FieldModifier {
      TypeLooks(s, rest);
    }
  }

  lemma TypeLooks(s: Stmt, rest: Toks)
    requires s.FieldDecl? && WellFormed(s) && s.modifier == FieldModifier
    requires s.typeName == "signed" || s.typeName == "unsigned" || s.declarator.name.None?
    ensures !LooksLikeFunctionDef(PrintStmt(s, rest))
  {
    hide Print, PrintArgs, AfterClosing, LooksLikeParam, IsReference, TailToks;
    var t := PrintStmt(s, rest);
    TailHead(s.declarator, Cons(Semi, rest));
    assert Ahead(t, 1) == Some(t.tl.hd);
    if s.typeName == "signed" || s.typeName == "unsigned" {
      assert Ahead(t.tl, 1) == Some(t.tl.tl.hd) && Ahead(t, 2) == Some(t.tl.tl.hd);
    }
  }

  lemma StmtLooks(s: Stmt, rest: Toks)
    requires WellFormed(s)
    ensures LooksLikeFunctionDef(PrintStmt(s, rest)) <==> LooksLikePrototype(s)
  {
    hide Print, AfterClosing, LooksLikeParam, IsReference;
    if s.FieldDecl? {
      FieldLooks(s, rest);
    } else if s.ExprStmt? {
      var t := PrintStmt(s, rest);
      PrintHead(s.expr, 0, Cons(Semi, rest));
      assert t.hd.Ident? ==> Ahead(t, 1) == Some(t.tl.hd);
    }
  }

  /**
   A program of well-formed statements is read back exactly when none of them is a field declaration that looks
   like a prototype.
   */
  lemma {:induction false} ProgramOk(stmts: seq<Stmt>)
    requires forall s <- stmts :: WellFormed(s)
    ensures ParseProgram(PrintStmts(stmts, End)) == Ok(stmts, End)
            <==> forall s <- stmts :: !LooksLikePrototype(s)
    ensures (exists s <- stmts :: LooksLikePrototype(s)) ==> ParseProgram(PrintStmts(stmts, End)).Err?
    decreases |stmts|
  {
    hide PrintStmt, ParseStmt, LooksLikeFunctionDef, LooksLikePrototype, WellFormed, Open;
    if stmts != [] {
      var more := PrintStmts(stmts[1..], End);
      ProgramOk(stmts[1..]);
      StmtsHead(stmts[1..], End);
      StmtHead(stmts[0], more);
      StmtOk(stmts[0], more);
      StmtLooks(stmts[0], more);
      assert stmts == [stmts[0]] + stmts[1..];
    }
  }

  /**
   From text to tree: a program spelled out, with any white space, comments and directives in front of it and
   between its tokens, is lexed and parsed back to itself.
   */
  lemma SourceRoundTrip(stmts: seq<Stmt>, lead: seq<Piece>, gaps: seq<seq<Piece>>)
    requires (forall s <- stmts :: WellFormed(s)) && AllSpellable(PrintStmts(stmts, End))
    requires IsGap(lead) && forall gap <- gaps :: IsGap(gap)
    ensures var text := GapText(lead) + Source(PrintStmts(stmts, End), gaps);
      && Tokenize(text).Some?
      && (ParseProgram(Tokenize(text).value) == Ok(stmts, End) <==> forall s <- stmts :: !LooksLikePrototype(s))
  {
    hide *;
    var toks := PrintStmts(stmts, End);
    SourceLexes(toks, gaps);
    GapBefore(lead, Source(toks, gaps));
    ProgramOk(stmts);
  }
}
