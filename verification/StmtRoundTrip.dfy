/**
 The printer of statements, and the proof that the parser undoes it. The trees it can print are exactly those
 the parser returns.
 */
module StmtRoundTrip {
  import opened Splices
  import opened ExprGrammar
  import opened ExprRoundTrip
  import opened StmtGrammar

  // -------------------------------------------------------------- printing

  /** A declarator as it may be written: `late`, its dimension behind the arguments; `further`, more dimensions. */
  datatype Written = Written(declarator: Declarator, late: bool, further: seq<Expr>)

  function ModifierToks(m: Modifier, rest: Toks): Toks {
    match m
    case FieldModifier => rest
    case LocalModifier => Cons(Kw(Local), rest)
    case ConstModifier => Cons(Kw(Const), rest)
  }

  /** The name `unsigned` is a type only behind a sign; `void` is a keyword. */
  function TypeToks(m: Modifier, name: string, rest: Toks): Toks {
    if name == "signed" || name == "unsigned" then Cons(Ident("signed"), Cons(Ident(name), rest))
    else if name == "void" && m != FieldModifier then Cons(Kw(Void), rest)
    else Cons(Ident(name), rest)
  }

  function DimToks(size: Option<Expr>, rest: Toks): Toks {
    if size.None? then rest else Cons(LBracket, Print(size.value, 0, Cons(RBracket, rest)))
  }

  function FurtherToks(sizes: seq<Expr>, rest: Toks): Toks {
    if sizes == [] then rest else DimToks(Some(sizes[0]), FurtherToks(sizes[1..], rest))
  }

  function ArgToks(args: seq<Expr>, rest: Toks): Toks {
    if args == [] then rest else Cons(LParen, PrintArgs(args, Cons(RParen, rest)))
  }

  function MarkedToks(e: Option<Expr>, mark: Token, minBp: nat, rest: Toks): Toks {
    if e.None? then rest else Cons(mark, Print(e.value, minBp, rest))
  }

  function AttrListToks(attrs: seq<Attr>, rest: Toks): Toks
    requires attrs != []
  {
    var more := if |attrs| == 1 then rest else Cons(Comma, AttrListToks(attrs[1..], rest));
    Cons(Ident(attrs[0].key), Cons(Eq, Print(attrs[0].value, 40, more)))
  }

  function AttrToks(attrs: seq<Attr>, rest: Toks): Toks {
    if attrs == [] then rest else Cons(Lt, AttrListToks(attrs, Cons(Gt, rest)))
  }

  function TailToks(d: Declarator, rest: Toks): Toks {
    MarkedToks(d.bitWidth, Colon, 17, AttrToks(d.attrs, MarkedToks(d.init, Eq, 0, rest)))
  }

  function NameToks(name: Option<string>, rest: Toks): Toks {
    if name.None? then rest else Cons(Ident(name.value), rest)
  }

  function FirstToks(w: Written, rest: Toks): Toks {
    var d, tail := w.declarator, FurtherToks(w.further, TailToks(w.declarator, rest));
    NameToks(d.name,
      if w.late then ArgToks(d.args, DimToks(d.arraySize, tail)) else DimToks(d.arraySize, ArgToks(d.args, tail)))
  }

  function NextToks(w: Written, rest: Toks): Toks {
    var d := w.declarator;
    NameToks(d.name, DimToks(d.arraySize, FurtherToks(w.further, ArgToks(d.args, TailToks(d, rest)))))
  }

  function MoreToks(group: seq<Written>, rest: Toks): Toks {
    if group == [] then rest else Cons(Comma, NextToks(group[0], MoreToks(group[1..], rest)))
  }

  /** A declaration of several declarators. */
  function GroupToks(m: Modifier, typeName: string, group: seq<Written>, rest: Toks): Toks
    requires group != []
  {
    ModifierToks(m, TypeToks(m, typeName, FirstToks(group[0], MoreToks(group[1..], Cons(Semi, rest)))))
  }

  function ParenToks(e: Expr, rest: Toks): Toks {
    Cons(LParen, Print(e, 0, Cons(RParen, rest)))
  }

  function MaybeToks(e: Option<Expr>, rest: Toks): Toks {
    if e.None? then rest else Print(e.value, 0, rest)
  }

  function PrintStmt(s: Stmt, rest: Toks): Toks
    decreases s
  {
    match s
    case FieldDecl(m, typeName, d) => GroupToks(m, typeName, [Written(d, false, [])], rest)
    case IfStmt(cond, thenBranch, elseBranch) =>
      var tail := if elseBranch.Some? then Cons(Kw(Else), PrintStmt(elseBranch.value, rest)) else rest;
      Cons(Kw(If), ParenToks(cond, PrintStmt(thenBranch, tail)))
    case WhileStmt(cond, body) => Cons(Kw(While), ParenToks(cond, PrintStmt(body, rest)))
    case DoWhileStmt(body, cond) =>
      Cons(Kw(Do), PrintStmt(body, Cons(Kw(While), ParenToks(cond, Cons(Semi, rest)))))
    case ForStmt(init, test, step, body) =>
      var clauses := ClauseToks(test, step, PrintStmt(body, rest));
      Cons(Kw(For), Cons(LParen, if init.Some? then PrintStmt(init.value, clauses) else Cons(Semi, clauses)))
    case ReturnStmt(value) => Cons(Kw(Return), MaybeToks(value, Cons(Semi, rest)))
    case BreakStmt => Cons(Kw(Break), Cons(Semi, rest))
    case ContinueStmt => Cons(Kw(Continue), Cons(Semi, rest))
    case Block(stmts) => Cons(LBrace, PrintStmts(stmts, Cons(RBrace, rest)))
    case ExprStmt(e) => Print(e, 0, Cons(Semi, rest))
  }

  function PrintStmts(stmts: seq<Stmt>, rest: Toks): Toks
    decreases stmts
  {
    if stmts == [] then rest else PrintStmt(stmts[0], PrintStmts(stmts[1..], rest))
  }

  function ClauseToks(test: Option<Expr>, step: Option<Expr>, rest: Toks): Toks {
    MaybeToks(test, Cons(Semi, MaybeToks(step, Cons(RParen, rest))))
  }

  // ------------------------------------------------------- what is printable

  /** Only a bitfield may do without a name. */
  predicate WellNamed(d: Declarator) {
    d.name.None? ==> d.bitWidth.Some? && d.arraySize.None? && d.args == []
  }

  predicate WellWritten(w: Written) {
    WellNamed(w.declarator) && (w.further != [] ==> w.declarator.arraySize.Some?)
  }

  /** A statement that would take an `else` behind it for its own. */
  predicate Open(s: Stmt) {
    match s
    case IfStmt(_, _, elseBranch) => elseBranch.None? || Open(elseBranch.value)
    case WhileStmt(_, body) => Open(body)
    case ForStmt(_, _, _, body) => Open(body)
    case _ => false
  }

  /** No branch takes the `else` of an outer `if`. */
  predicate WellFormed(s: Stmt) {
    match s
    case FieldDecl(_, _, d) => WellNamed(d)
    case IfStmt(_, thenBranch, elseBranch) =>
      WellFormed(thenBranch) && (elseBranch.Some? ==> !Open(thenBranch) && WellFormed(elseBranch.value))
    case WhileStmt(_, body) => WellFormed(body)
    case DoWhileStmt(body, _) => WellFormed(body)
    case ForStmt(init, _, _, body) => (init.Some? ==> WellFormed(init.value)) && WellFormed(body)
    case Block(stmts) => forall t <- stmts :: WellFormed(t)
    case _ => true
  }

  // ----------------------------------------------------------- declarations

  predicate EndsDecl(rest: Toks) {
    rest.StartsWith(Semi) || rest.StartsWith(Comma)
  }

  lemma DimOk(size: Option<Expr>, rest: Toks)
    requires size.None? ==> !rest.StartsWith(LBracket)
    ensures ParseOptionalArrayDim(DimToks(size, rest)) == Ok(size, rest)
  {
    hide Print, ParseBp;
    if size.Some? {
      PrintOk(size.value, 0, Cons(RBracket, rest));
      PrintHead(size.value, 0, Cons(RBracket, rest));
    }
  }

  lemma {:induction false} FurtherOk(sizes: seq<Expr>, rest: Toks)
    requires !rest.StartsWith(LBracket)
    ensures SkipArrayDims(FurtherToks(sizes, rest)) == Ok((), rest)
    decreases |sizes|
  {
    hide ParseOptionalArrayDim, Print;
    if sizes != [] {
      FurtherOk(sizes[1..], rest);
      DimOk(Some(sizes[0]), FurtherToks(sizes[1..], rest));
    }
  }

  lemma ArgListOk(args: seq<Expr>, rest: Toks)
    requires args == [] ==> !rest.StartsWith(LParen)
    ensures ParseOptionalArgs(ArgToks(args, rest)) == Ok(args, rest)
  {
    hide PrintArgs, ParseArgList;
    if args != [] {
      ArgsHead(args, rest);
      ArgsOk(args, rest);
    }
  }

  lemma MarkedOk(e: Option<Expr>, mark: Token, minBp: nat, rest: Toks)
    requires if e.None? then !rest.StartsWith(mark) else HeadPower(rest) < minBp <= POSTFIX_POWER
    ensures ParseMarked(MarkedToks(e, mark, minBp, rest), mark, minBp) == Ok(e, rest)
  {
    hide Print, ParseBp;
    if e.Some? {
      PrintOk(e.value, minBp, rest);
    }
  }

  lemma LastAttrReads(a: Attr, more: Toks)
    requires more.StartsWith(Gt)
    ensures ParseAttrList(Cons(Ident(a.key), Cons(Eq, Print(a.value, ATTR_VALUE_BP, more)))) == Ok([a], more)
  {
    hide Print, ParseBp;
    PrintOk(a.value, ATTR_VALUE_BP, more);
  }

  lemma AttrReads(a: Attr, s: Toks, attrs: seq<Attr>, rest: Toks)
    requires ParseAttrList(s) == Ok(attrs, rest)
    ensures (ParseAttrList(Cons(Ident(a.key), Cons(Eq, Print(a.value, ATTR_VALUE_BP, Cons(Comma, s)))))
             == Ok([a] + attrs, rest))
  {
    hide Print, ParseBp;
    PrintOk(a.value, ATTR_VALUE_BP, Cons(Comma, s));
  }

  lemma {:induction false} AttrListOk(attrs: seq<Attr>, rest: Toks)
    requires attrs != []
    ensures ParseAttrList(AttrListToks(attrs, Cons(Gt, rest))) == Ok(attrs, Cons(Gt, rest))
    decreases |attrs|
  {
    hide Print, ParseAttrList;
    if |attrs| == 1 {
      LastAttrReads(attrs[0], Cons(Gt, rest));
      assert attrs == [attrs[0]];
    } else {
      AttrListOk(attrs[1..], rest);
      AttrReads(attrs[0], AttrListToks(attrs[1..], Cons(Gt, rest)), attrs[1..], Cons(Gt, rest));
      assert attrs == [attrs[0]] + attrs[1..];
    }
  }

  lemma AttrsOk(attrs: seq<Attr>, rest: Toks)
    requires attrs == [] ==> !rest.StartsWith(Lt)
    ensures ParseOptionalAttrs(AttrToks(attrs, rest)) == Ok(attrs, rest)
  {
    hide Print, ParseAttrList;
    if attrs != [] {
      AttrListOk(attrs, rest);
    }
  }

  /** Width, attributes and initializer: a width ends in front of the `<` of the attributes. */
  lemma TailOk(d: Declarator, rest: Toks)
    requires EndsDecl(rest)
    ensures ParseDeclTail(d.name, d.arraySize, d.args, TailToks(d, rest)) == Ok(d, rest)
  {
    hide Print, ParseMarked, ParseOptionalAttrs, AttrListToks;
    var s2 := MarkedToks(d.init, Eq, 0, rest);
    var s1 := AttrToks(d.attrs, s2);
    if d.init.Some? {
      InitOk(d.init.value, rest);
    } else {
      MarkedOk(None, Eq, 0, rest);
    }
    AttrsOk(d.attrs, s2);
    MarkedOk(d.bitWidth, Colon, BITFIELD_BP, s1);
  }

  lemma InitOk(e: Expr, rest: Toks)
    requires HeadPower(rest) < 0
    ensures ParseMarked(Cons(Eq, Print(e, 0, rest)), Eq, 0) == Ok(Some(e), rest)
  {
    hide Print, ParseBp;
    PrintOk(e, 0, rest);
  }

  lemma TailHead(d: Declarator, rest: Toks)
    requires EndsDecl(rest)
    ensures !TailToks(d, rest).StartsWith(LBracket) && !TailToks(d, rest).StartsWith(LParen)
    ensures TailToks(d, rest).StartsWith(Colon) <==> d.bitWidth.Some?
  {
    hide Print;
  }

  /** What stands between the name and the rest, read step by step. */
  lemma FirstReads(d: Declarator, s1: Toks, dim: Option<Expr>, s2: Toks, s3: Toks, s4: Toks, s5: Toks, rest: Toks)
    requires ParseDeclName(NameToks(d.name, s1)) == Ok(d.name, s1)
    requires ParseOptionalArrayDim(s1) == Ok(dim, s2) && ParseOptionalArgs(s2) == Ok(d.args, s3)
    requires if dim.None? then ParseOptionalArrayDim(s3) == Ok(d.arraySize, s4) else d.arraySize == dim && s4 == s3
    requires SkipArrayDims(s4) == Ok((), s5) && ParseDeclTail(d.name, d.arraySize, d.args, s5) == Ok(d, rest)
    ensures ParseFirstDeclarator(NameToks(d.name, s1)) == Ok(d, rest)
  {
    hide ParseDeclName, ParseOptionalArrayDim, SkipArrayDims, ParseOptionalArgs, ParseDeclTail, NameToks;
  }

  lemma NameOk(name: Option<string>, rest: Toks)
    requires name.None? ==> rest.StartsWith(Colon)
    ensures ParseDeclName(NameToks(name, rest)) == Ok(name, rest)
  {
  }

  lemma FirstOk(w: Written, rest: Toks)
    requires WellWritten(w) && EndsDecl(rest)
    ensures ParseFirstDeclarator(FirstToks(w, rest)) == Ok(w.declarator, rest)
  {
    hide Print, PrintArgs, ParseOptionalArrayDim, SkipArrayDims, ParseOptionalArgs, ParseDeclTail, TailToks;
    hide ParseFirstDeclarator, ParseDeclName, NameToks;
    var d := w.declarator;
    var tail := TailToks(d, rest);
    var s4 := FurtherToks(w.further, tail);
    TailHead(d, rest);
    TailOk(d, rest);
    FurtherOk(w.further, tail);
    FurtherHead(w.further, tail);
    if w.late && d.args != [] {
      var s3 := DimToks(d.arraySize, s4);
      var s2 := ArgToks(d.args, s3);
      NameOk(d.name, s2);
      DimOk(None, s2);
      ArgListOk(d.args, s3);
      DimOk(d.arraySize, s4);
      FirstReads(d, s2, None, s2, s3, s4, tail, rest);
    } else {
      var s2 := ArgToks(d.args, s4);
      var s1 := DimToks(d.arraySize, s2);
      NameOk(d.name, s1);
      DimOk(d.arraySize, s2);
      ArgListOk(d.args, s4);
      if d.arraySize.None? {
        DimOk(None, s4);
      }
      FirstReads(d, s1, d.arraySize, s2, s4, s4, tail, rest);
    }
  }

  lemma FurtherHead(sizes: seq<Expr>, rest: Toks)
    requires !rest.StartsWith(LParen)
    ensures !FurtherToks(sizes, rest).StartsWith(LParen)
  {
  }

  lemma NextOk(w: Written, rest: Toks)
    requires WellWritten(w) && EndsDecl(rest)
    ensures ParseNextDeclarator(NextToks(w, rest)) == Ok(w.declarator, rest)
  {
    hide Print, PrintArgs, ParseOptionalArrayDim, SkipArrayDims, ParseOptionalArgs, ParseDeclTail, TailToks;
    var d := w.declarator;
    var tail := TailToks(d, rest);
    var s3 := ArgToks(d.args, tail);
    TailHead(d, rest);
    TailOk(d, rest);
    ArgListOk(d.args, tail);
    FurtherOk(w.further, s3);
    DimOk(d.arraySize, FurtherToks(w.further, s3));
  }

  lemma {:induction false} MoreOk(group: seq<Written>, rest: Toks)
    requires forall w <- group :: WellWritten(w)
    ensures ParseMoreDeclarators(MoreToks(group, Cons(Semi, rest))) == Ok(Declarators(group), Cons(Semi, rest))
    decreases |group|
  {
    hide ParseNextDeclarator, NextToks;
    if group != [] {
      MoreOk(group[1..], rest);
      NextOk(group[0], MoreToks(group[1..], Cons(Semi, rest)));
    }
  }

  function Declarators(group: seq<Written>): seq<Declarator> {
    if group == [] then [] else [group[0].declarator] + Declarators(group[1..])
  }

  lemma TypeOk(m: Modifier, name: string, rest: Toks)
    requires rest.Cons?
    ensures ParseModifiers(ModifierToks(m, TypeToks(m, name, rest)), FieldModifier) == (m, TypeToks(m, name, rest))
    ensures ParseTypeRef(TypeToks(m, name, rest)) == Ok(name, rest)
  {
    var s := TypeToks(m, name, rest);
    assert ParseModifiers(s, m) == (m, s);
    assert s.tl.Cons? ==> Ahead(s, 1) == Some(s.tl.hd);
  }

  /** How a written declarator begins. */
  lemma FirstHead(w: Written, rest: Toks)
    requires WellWritten(w) && EndsDecl(rest)
    ensures var t := FirstToks(w, rest);
      t.Cons? && (if w.declarator.name.Some? then t.hd == Ident(w.declarator.name.value) else t.hd == Colon)
  {
    hide Print, TailToks;
    TailHead(w.declarator, rest);
  }

  lemma DeclDispatch(m: Modifier, typeName: string, rest: Toks)
    requires rest.Cons? && (rest.hd.Ident? || rest.hd == Colon)
    ensures var s := ModifierToks(m, TypeToks(m, typeName, rest)); ParseStmt(s) == ParseFieldDecl(s)
  {
    hide ParseFieldDecl;
    var s := ModifierToks(m, TypeToks(m, typeName, rest));
    assert s.tl.Cons? ==> Ahead(s, 1) == Some(s.tl.hd);
  }

  /** A declaration of any number of declarators, with dimensions anywhere and any number of them. */
  lemma GroupOk(m: Modifier, typeName: string, group: seq<Written>, rest: Toks)
    requires group != [] && forall w <- group :: WellWritten(w)
    ensures Declarators(group) != []
    ensures ParseStmt(GroupToks(m, typeName, group, rest)) == Ok(DeclTree(m, typeName, Declarators(group)), rest)
  {
    hide ParseFirstDeclarator, FirstToks, MoreToks, NextToks, ParseStmt, TypeToks, ModifierToks, ParseModifiers;
    hide ParseTypeRef, ParseMoreDeclarators, DeclTree;
    var more := MoreToks(group[1..], Cons(Semi, rest));
    var first := FirstToks(group[0], more);
    MoreHead(group[1..], rest);
    FirstHead(group[0], more);
    DeclDispatch(m, typeName, first);
    TypeOk(m, typeName, first);
    FirstOk(group[0], more);
    MoreOk(group[1..], rest);
    assert Declarators(group) == [group[0].declarator] + Declarators(group[1..]);
  }

  lemma MoreHead(group: seq<Written>, rest: Toks)
    ensures EndsDecl(MoreToks(group, Cons(Semi, rest)))
  {
  }

  // ------------------------------------------------------------ statements

  lemma ParenOkStmt(e: Expr, rest: Toks)
    ensures ParseParenExpr(ParenToks(e, rest)) == Ok(e, rest)
  {
    hide Print, ParseBp;
    PrintOk(e, 0, Cons(RParen, rest));
  }

  lemma MaybeOk(e: Option<Expr>, stop: Token, rest: Toks)
    requires stop == Semi || stop == RParen
    ensures ParseUnless(MaybeToks(e, Cons(stop, rest)), stop) == Ok(e, Cons(stop, rest))
  {
    hide Print, ParseBp;
    if e.Some? {
      PrintOk(e.value, 0, Cons(stop, rest));
      PrintHead(e.value, 0, Cons(stop, rest));
    }
  }

  lemma ClausesOk(test: Option<Expr>, step: Option<Expr>, rest: Toks)
    ensures ParseForClauses(ClauseToks(test, step, rest)) == Ok((test, step), rest)
  {
    hide ParseUnless, MaybeToks;
    MaybeOk(test, Semi, MaybeToks(step, Cons(RParen, rest)));
    MaybeOk(step, RParen, rest);
  }

  /** An expression statement is not taken for anything else. */
  lemma ExprStmtOk(e: Expr, rest: Toks)
    ensures ParseStmt(Print(e, 0, Cons(Semi, rest))) == Ok(ExprStmt(e), rest)
  {
    hide Print, ParseBp, ParseStmt;
    var s := Print(e, 0, Cons(Semi, rest));
    PrintOk(e, 0, Cons(Semi, rest));
    PrintHead(e, 0, Cons(Semi, rest));
    ExprDispatch(s);
  }

  lemma ExprDispatch(s: Toks)
    requires s.Cons? && StartsExpr(s.hd)
    requires s.hd.Ident? ==> s.tl.Cons? && !s.tl.hd.Ident? && s.tl.hd != Colon
    ensures ParseStmt(s) == ParseExprStmt(s)
  {
    hide ParseExprStmt;
    assert s.hd.Ident? ==> Ahead(s, 1) == Some(s.tl.hd);
  }

  /** What a statement cannot begin with. */
  lemma StmtHead(s: Stmt, rest: Toks)
    requires WellFormed(s)
    ensures var t := PrintStmt(s, rest); t.Cons? && t.hd != RBrace && t.hd != Semi && t.hd != Kw(Else)
  {
    hide Print;
    match s
    case ExprStmt(e) => PrintHead(e, 0, Cons(Semi, rest));
    case _ =>
  }

  lemma IfReads(s: Toks, cond: Expr, s1: Toks, thenBranch: Stmt, s2: Toks, elseBranch: Option<Stmt>, rest: Toks)
    requires ParseParenExpr(s) == Ok(cond, s1) && ParseStmt(s1) == Ok(thenBranch, s2)
    requires if elseBranch.Some? then s2.StartsWith(Kw(Else)) && ParseStmt(s2.tl) == Ok(elseBranch.value, rest)
             else !s2.StartsWith(Kw(Else)) && s2 == rest
    ensures ParseStmt(Cons(Kw(If), s)) == Ok(IfStmt(cond, thenBranch, elseBranch), rest)
  {
    hide ParseParenExpr;
    assert ParseIf(s) == Ok(IfStmt(cond, thenBranch, elseBranch), rest);
  }

  lemma {:induction false} IfOk(s: Stmt, rest: Toks)
    requires s.IfStmt? && WellFormed(s) && (Open(s) ==> !rest.StartsWith(Kw(Else)))
    ensures ParseStmt(PrintStmt(s, rest)) == Ok(s, rest)
    decreases s, 0
  {
    hide ParseStmt, ParenToks, PrintStmts, GroupToks;
    var tail := if s.elseBranch.Some? then Cons(Kw(Else), PrintStmt(s.elseBranch.value, rest)) else rest;
    var s1 := PrintStmt(s.thenBranch, tail);
    ParenOkStmt(s.cond, s1);
    StmtOk(s.thenBranch, tail);
    if s.elseBranch.Some? {
      StmtOk(s.elseBranch.value, rest);
    }
    IfReads(ParenToks(s.cond, s1), s.cond, s1, s.thenBranch, tail, s.elseBranch, rest);
  }

  lemma WhileReads(s: Toks, cond: Expr, s1: Toks, body: Stmt, rest: Toks)
    requires ParseParenExpr(s) == Ok(cond, s1) && ParseStmt(s1) == Ok(body, rest)
    ensures ParseStmt(Cons(Kw(While), s)) == Ok(WhileStmt(cond, body), rest)
  {
    hide ParseParenExpr;
    assert ParseWhile(s) == Ok(WhileStmt(cond, body), rest);
  }

  lemma {:induction false} WhileOk(s: Stmt, rest: Toks)
    requires s.WhileStmt? && WellFormed(s) && (Open(s) ==> !rest.StartsWith(Kw(Else)))
    ensures ParseStmt(PrintStmt(s, rest)) == Ok(s, rest)
    decreases s, 0
  {
    hide ParseStmt, ParenToks, ParseParenExpr, PrintStmts;
    var s1 := PrintStmt(s.body, rest);
    ParenOkStmt(s.cond, s1);
    StmtOk(s.body, rest);
    WhileReads(ParenToks(s.cond, s1), s.cond, s1, s.body, rest);
  }

  lemma DoReads(s: Toks, body: Stmt, s1: Toks, cond: Expr, rest: Toks)
    requires ParseStmt(s) == Ok(body, Cons(Kw(While), s1)) && ParseParenExpr(s1) == Ok(cond, Cons(Semi, rest))
    ensures ParseStmt(Cons(Kw(Do), s)) == Ok(DoWhileStmt(body, cond), rest)
  {
    hide ParseParenExpr;
    assert ParseDoWhile(s) == Ok(DoWhileStmt(body, cond), rest);
  }

  lemma {:induction false} DoWhileOk(s: Stmt, rest: Toks)
    requires s.DoWhileStmt? && WellFormed(s)
    ensures ParseStmt(PrintStmt(s, rest)) == Ok(s, rest)
    decreases s, 0
  {
    hide ParseStmt, ParenToks;
    var end := Cons(Semi, rest);
    var s1 := Cons(Kw(While), ParenToks(s.cond, end));
    ParenOkStmt(s.cond, end);
    StmtOk(s.body, s1);
    DoReads(PrintStmt(s.body, s1), s.body, ParenToks(s.cond, end), s.cond, rest);
  }

  lemma ForReads(s: Toks, init: Option<Stmt>, s1: Toks, test: Option<Expr>, step: Option<Expr>, s2: Toks,
                 body: Stmt, rest: Toks)
    requires ParseForInit(s) == Ok(init, s1) && ParseForClauses(s1) == Ok((test, step), s2)
    requires ParseStmt(s2) == Ok(body, rest)
    ensures ParseStmt(Cons(Kw(For), Cons(LParen, s))) == Ok(ForStmt(init, test, step, body), rest)
  {
    hide ParseForInit, ParseForClauses;
    assert ParseFor(Cons(LParen, s)) == Ok(ForStmt(init, test, step, body), rest);
  }

  lemma {:induction false} ForInitOk(init: Option<Stmt>, clauses: Toks)
    requires (init.Some? ==> WellFormed(init.value)) && !clauses.StartsWith(Kw(Else))
    ensures (ParseForInit(if init.Some? then PrintStmt(init.value, clauses) else Cons(Semi, clauses))
             == Ok(init, clauses))
    decreases init, 0
  {
    hide ParseStmt, PrintStmt, WellFormed, Open;
    if init.Some? {
      StmtHead(init.value, clauses);
      StmtOk(init.value, clauses);
    }
  }

  lemma {:induction false} ForOk(s: Stmt, rest: Toks)
    requires s.ForStmt? && WellFormed(s) && (Open(s) ==> !rest.StartsWith(Kw(Else)))
    ensures ParseStmt(PrintStmt(s, rest)) == Ok(s, rest)
    decreases s, 0
  {
    hide ParseStmt, ParseForInit, ParseForClauses, ClauseToks, PrintStmts;
    var body := PrintStmt(s.body, rest);
    var clauses := ClauseToks(s.test, s.step, body);
    ClausesOk(s.test, s.step, body);
    StmtOk(s.body, rest);
    ClauseHead(s.test, s.step, body);
    ForInitOk(s.init, clauses);
    ForReads(if s.init.Some? then PrintStmt(s.init.value, clauses) else Cons(Semi, clauses),
             s.init, clauses, s.test, s.step, body, s.body, rest);
  }

  lemma ClauseHead(test: Option<Expr>, step: Option<Expr>, rest: Toks)
    ensures !ClauseToks(test, step, rest).StartsWith(Kw(Else))
  {
    hide Print;
    if test.Some? {
      PrintHead(test.value, 0, Cons(Semi, MaybeToks(step, Cons(RParen, rest))));
    }
  }

  lemma {:induction false} StmtsOk(stmts: seq<Stmt>, rest: Toks)
    requires (forall t <- stmts :: WellFormed(t)) && rest.StartsWith(RBrace)
    ensures ParseStmts(PrintStmts(stmts, rest)) == Ok(stmts, rest)
    decreases stmts, 0
  {
    hide ParseStmt, PrintStmt;
    if stmts != [] {
      var more := PrintStmts(stmts[1..], rest);
      StmtsOk(stmts[1..], rest);
      StmtsHead(stmts[1..], rest);
      StmtHead(stmts[0], more);
      StmtOk(stmts[0], more);
      assert stmts == [stmts[0]] + stmts[1..];
    }
  }

  lemma StmtsHead(stmts: seq<Stmt>, rest: Toks)
    requires (forall t <- stmts :: WellFormed(t)) && !rest.StartsWith(Kw(Else))
    ensures !PrintStmts(stmts, rest).StartsWith(Kw(Else))
  {
    hide PrintStmt;
    if stmts != [] {
      StmtHead(stmts[0], PrintStmts(stmts[1..], rest));
    }
  }

  lemma ReturnOk(value: Option<Expr>, rest: Toks)
    ensures ParseStmt(PrintStmt(ReturnStmt(value), rest)) == Ok(ReturnStmt(value), rest)
  {
    hide ParseUnless, MaybeToks;
    MaybeOk(value, Semi, rest);
    assert ParseReturn(MaybeToks(value, Cons(Semi, rest))) == Ok(ReturnStmt(value), rest);
  }

  lemma JumpDispatch(s: Toks)
    ensures ParseStmt(Cons(Kw(Break), s)) == ParseJump(s, BreakStmt)
    ensures ParseStmt(Cons(Kw(Continue), s)) == ParseJump(s, ContinueStmt)
  {
    hide ParseBlock, ParseIf, ParseWhile, ParseDoWhile, ParseFor, ParseReturn, ParseFieldDecl, ParseExprStmt;
    hide LooksLikeFieldDecl, IsUnsupported, ParseJump;
  }

  lemma JumpsOk(rest: Toks)
    ensures ParseStmt(PrintStmt(BreakStmt, rest)) == Ok(BreakStmt, rest)
    ensures ParseStmt(PrintStmt(ContinueStmt, rest)) == Ok(ContinueStmt, rest)
  {
    hide ParseStmt;
    JumpDispatch(Cons(Semi, rest));
  }

  lemma {:induction false} BlockOk(stmts: seq<Stmt>, rest: Toks)
    requires forall t <- stmts :: WellFormed(t)
    ensures ParseStmt(PrintStmt(Block(stmts), rest)) == Ok(Block(stmts), rest)
    decreases stmts, 1
  {
    hide ParseStmts, PrintStmts, WellFormed;
    StmtsOk(stmts, Cons(RBrace, rest));
    assert ParseBlock(PrintStmts(stmts, Cons(RBrace, rest))) == Ok(Block(stmts), rest);
  }

  lemma FieldOk(s: Stmt, rest: Toks)
    requires s.FieldDecl? && WellNamed(s.declarator)
    ensures ParseStmt(PrintStmt(s, rest)) == Ok(s, rest)
  {
    hide ParseStmt, GroupToks;
    var group := [Written(s.declarator, false, [])];
    GroupOk(s.modifier, s.typeName, group, rest);
    assert Declarators(group) == [s.declarator];
  }

  /** Every well-formed statement is read back, in front of anything but an `else` it would take. */
  lemma {:induction false} StmtOk(s: Stmt, rest: Toks)
    requires WellFormed(s) && (Open(s) ==> !rest.StartsWith(Kw(Else)))
    ensures ParseStmt(PrintStmt(s, rest)) == Ok(s, rest)
    decreases s, 1
  {
    hide ParseStmt, PrintStmts, Print, GroupToks;
    match s
    case FieldDecl(_, _, _) => FieldOk(s, rest);
    case IfStmt(_, _, _) => IfOk(s, rest);
    case WhileStmt(_, _) => WhileOk(s, rest);
    case DoWhileStmt(_, _) => DoWhileOk(s, rest);
    case ForStmt(_, _, _, _) => ForOk(s, rest);
    case ReturnStmt(value) => ReturnOk(value, rest);
    case BreakStmt => JumpsOk(rest);
    case ContinueStmt => JumpsOk(rest);
    case Block(stmts) => BlockOk(stmts, rest);
    case ExprStmt(e) => ExprStmtOk(e, rest);
  }
}
