/**
 The program generator's emitter (crates/hxy-010-lang/src/fuzz.rs): structured programs, the source text they
 are written as, and the syntax tree they stand for.
 */
module FuzzEmit {
  import opened Splices
  import opened Numerals
  import G = ExprGrammar
  import S = StmtGrammar

  datatype FuzzExpr =
    | IntLit(value: int)
    | Var(ident: nat)
    | Add(left: FuzzExpr, right: FuzzExpr)
    | Sub(left: FuzzExpr, right: FuzzExpr)
    | Lt(left: FuzzExpr, right: FuzzExpr)
    | Equal(left: FuzzExpr, right: FuzzExpr)
    | Not(inner: FuzzExpr)
    | Call(builtin: nat)

  datatype FuzzStmt =
    | Field(ty: nat, name: nat, arraySize: Option<nat>)
    | Local(name: nat, init: Option<FuzzExpr>)
    | If(cond: FuzzExpr, thenBody: seq<FuzzStmt>, elseBody: ElseBody)
    | While(cond: FuzzExpr, body: seq<FuzzStmt>)
    | ExprStmt(expr: FuzzExpr)
    | LittleEndian
    | BigEndian

  datatype ElseBody = NoElse | Else(stmts: seq<FuzzStmt>)

  const IDENT_POOL: seq<string> := ["a", "b", "c", "d", "x", "y", "z", "n", "m", "foo", "bar", "baz"]
  const TYPE_POOL: seq<string> :=
    ["uchar", "ushort", "uint", "uint64", "char", "short", "int", "int64", "float", "double"]
  const BUILTIN_POOL: seq<string> := ["FTell", "FEof", "FileSize"]

  /** An `i32`, and with it every literal below it. */
  predicate ValidExpr(e: FuzzExpr) {
    match e
    case IntLit(v) => -0x8000_0000 <= v < 0x8000_0000
    case Add(l, r) => ValidExpr(l) && ValidExpr(r)
    case Sub(l, r) => ValidExpr(l) && ValidExpr(r)
    case Lt(l, r) => ValidExpr(l) && ValidExpr(r)
    case Equal(l, r) => ValidExpr(l) && ValidExpr(r)
    case Not(inner) => ValidExpr(inner)
    case Var(_) => true
    case Call(_) => true
  }

  predicate ValidStmt(s: FuzzStmt) {
    match s
    case Local(_, init) => init.Some? ==> ValidExpr(init.value)
    case If(cond, thenBody, elseBody) =>
      ValidExpr(cond) && (forall t <- thenBody :: ValidStmt(t))
      && (elseBody.Else? ==> forall t <- elseBody.stmts :: ValidStmt(t))
    case While(cond, body) => ValidExpr(cond) && forall t <- body :: ValidStmt(t)
    case ExprStmt(e) => ValidExpr(e)
    case Field(_, _, _) => true
    case LittleEndian => true
    case BigEndian => true
  }

  predicate ValidProgram(stmts: seq<FuzzStmt>) {
    forall s <- stmts :: ValidStmt(s)
  }

  function IdentName(k: nat): string {
    IDENT_POOL[k % |IDENT_POOL|]
  }

  function TypeName(k: nat): string {
    TYPE_POOL[k % |TYPE_POOL|]
  }

  function BuiltinName(k: nat): string {
    BUILTIN_POOL[k % |BUILTIN_POOL|]
  }

  // --------------------------------------------------------- the text

  function IntText(v: int): string {
    if v < 0 then "-" + Decimal(-v) else Decimal(v)
  }

  function OpText(e: FuzzExpr): string
    requires e.Add? || e.Sub? || e.Lt? || e.Equal?
  {
    match e
    case Add(_, _) => " + "
    case Sub(_, _) => " - "
    case Lt(_, _) => " < "
    case Equal(_, _) => " == "
  }

  /** `emit_expr`, in front of `rest`. */
  function ExprText(e: FuzzExpr, rest: string): string {
    match e
    case IntLit(v) => IntText(v) + rest
    case Var(k) => IdentName(k) + rest
    case Not(inner) => "!" + ExprText(inner, rest)
    case Call(k) => BuiltinName(k) + ("()" + rest)
    case _ => "(" + ExprText(e.left, OpText(e) + ExprText(e.right, ")" + rest))
  }

  function Indent(depth: nat, rest: string): string {
    if depth == 0 then rest else "    " + Indent(depth - 1, rest)
  }

  /** `emit_stmt`, in front of `rest`. */
  function StmtText(s: FuzzStmt, depth: nat, rest: string): string
    decreases s, 2
  {
    Indent(depth, Unindented(s, depth, rest))
  }

  function Unindented(s: FuzzStmt, depth: nat, rest: string): string
    decreases s, 1
  {
    match s
    case Field(ty, name, arraySize) =>
      TypeName(ty) + (" " + (IdentName(name) +
        (if arraySize.Some? then "[" + (Decimal(arraySize.value % 16) + ("]" + (";\n" + rest))) else ";\n" + rest)))
    case Local(name, init) =>
      "local int " + (IdentName(name) +
        (if init.Some? then " = " + ExprText(init.value, ";\n" + rest) else ";\n" + rest))
    case If(cond, thenBody, _) =>
      "if (" + ExprText(cond, ") {\n" + StmtsText(thenBody, depth + 1, Indent(depth, "}" + ElseText(s, depth, rest))))
    case While(cond, body) =>
      "while (" + ExprText(cond, ") {\n" + StmtsText(body, depth + 1, Indent(depth, "}\n" + rest)))
    case ExprStmt(e) => ExprText(e, ";\n" + rest)
    case LittleEndian => "LittleEndian();\n" + rest
    case BigEndian => "BigEndian();\n" + rest
  }

  function ElseText(s: FuzzStmt, depth: nat, rest: string): string
    requires s.If?
    decreases s, 0
  {
    match s.elseBody
    case Else(stmts) => " else {\n" + StmtsText(stmts, depth + 1, Indent(depth, "}" + ("\n" + rest)))
    case NoElse => "\n" + rest
  }

  function StmtsText(stmts: seq<FuzzStmt>, depth: nat, rest: string): string
    decreases stmts, 3
  {
    if stmts == [] then rest else StmtText(stmts[0], depth, StmtsText(stmts[1..], depth, rest))
  }

  /** `emit`. */
  function Emitted(program: seq<FuzzStmt>): string {
    StmtsText(program, 0, "")
  }

  // --------------------------------------------------------- the tokens

  function OpToken(e: FuzzExpr): G.Token
    requires e.Add? || e.Sub? || e.Lt? || e.Equal?
  {
    match e
    case Add(_, _) => G.Plus
    case Sub(_, _) => G.Minus
    case Lt(_, _) => G.Lt
    case Equal(_, _) => G.EqEq
  }

  function ExprToks(e: FuzzExpr, rest: G.Toks): G.Toks {
    match e
    case IntLit(v) => if v < 0 then G.Cons(G.Minus, G.Cons(G.Int(-v), rest)) else G.Cons(G.Int(v), rest)
    case Var(k) => G.Cons(G.Ident(IdentName(k)), rest)
    case Not(inner) => G.Cons(G.Bang, ExprToks(inner, rest))
    case Call(k) => G.Cons(G.Ident(BuiltinName(k)), G.Cons(G.LParen, G.Cons(G.RParen, rest)))
    case _ => G.Cons(G.LParen, ExprToks(e.left, G.Cons(OpToken(e), ExprToks(e.right, G.Cons(G.RParen, rest)))))
  }

  function CallStmtToks(name: string, rest: G.Toks): G.Toks {
    G.Cons(G.Ident(name), G.Cons(G.LParen, G.Cons(G.RParen, G.Cons(G.Semi, rest))))
  }

  function StmtToks(s: FuzzStmt, rest: G.Toks): G.Toks
    decreases s, 0
  {
    match s
    case Field(ty, name, arraySize) =>
      G.Cons(G.Ident(TypeName(ty)), G.Cons(G.Ident(IdentName(name)),
        if arraySize.Some? then
          G.Cons(G.LBracket, G.Cons(G.Int(arraySize.value % 16), G.Cons(G.RBracket, G.Cons(G.Semi, rest))))
        else G.Cons(G.Semi, rest)))
    case Local(name, init) =>
      G.Cons(G.Kw(G.Local), G.Cons(G.Ident("int"), G.Cons(G.Ident(IdentName(name)),
        if init.Some? then G.Cons(G.Eq, ExprToks(init.value, G.Cons(G.Semi, rest))) else G.Cons(G.Semi, rest))))
    case If(cond, thenBody, elseBody) =>
      G.Cons(G.Kw(G.If), ParenToks(cond, G.Cons(G.LBrace, StmtsToks(thenBody, G.Cons(G.RBrace,
        if elseBody.Else? then
          G.Cons(G.Kw(G.Else), G.Cons(G.LBrace, StmtsToks(elseBody.stmts, G.Cons(G.RBrace, rest))))
        else rest)))))
    case While(cond, body) =>
      G.Cons(G.Kw(G.While), ParenToks(cond, G.Cons(G.LBrace, StmtsToks(body, G.Cons(G.RBrace, rest)))))
    case ExprStmt(e) => ExprToks(e, G.Cons(G.Semi, rest))
    case LittleEndian => CallStmtToks("LittleEndian", rest)
    case BigEndian => CallStmtToks("BigEndian", rest)
  }

  function ParenToks(cond: FuzzExpr, rest: G.Toks): G.Toks {
    G.Cons(G.LParen, ExprToks(cond, G.Cons(G.RParen, rest)))
  }

  function StmtsToks(stmts: seq<FuzzStmt>, rest: G.Toks): G.Toks
    decreases stmts, 1
  {
    if stmts == [] then rest else StmtToks(stmts[0], StmtsToks(stmts[1..], rest))
  }

  // ----------------------------------------------------------- the tree

  /** A negative literal is the negation of a literal. */
  function ExprTree(e: FuzzExpr): G.Expr {
    match e
    case IntLit(v) => if v < 0 then G.Unary(G.Neg, G.IntLit(-v)) else G.IntLit(v)
    case Var(k) => G.Name(IdentName(k))
    case Add(l, r) => G.Binary(G.Add, ExprTree(l), ExprTree(r))
    case Sub(l, r) => G.Binary(G.Sub, ExprTree(l), ExprTree(r))
    case Lt(l, r) => G.Binary(G.Less, ExprTree(l), ExprTree(r))
    case Equal(l, r) => G.Binary(G.Equal, ExprTree(l), ExprTree(r))
    case Not(inner) => G.Unary(G.Not, ExprTree(inner))
    case Call(k) => G.Call(G.Name(BuiltinName(k)), [])
  }

  function PlainDeclarator(name: string, arraySize: Option<G.Expr>, init: Option<G.Expr>): S.Declarator {
    S.Declarator(Some(name), arraySize, [], None, [], init)
  }

  function CallStmt(name: string): S.Stmt {
    S.ExprStmt(G.Call(G.Name(name), []))
  }

  function StmtTree(s: FuzzStmt): S.Stmt
    decreases s, 0
  {
    match s
    case Field(ty, name, arraySize) =>
      S.FieldDecl(S.FieldModifier, TypeName(ty),
                  PlainDeclarator(IdentName(name),
                                  if arraySize.Some? then Some(G.IntLit(arraySize.value % 16)) else None, None))
    case Local(name, init) =>
      S.FieldDecl(S.LocalModifier, "int",
                  PlainDeclarator(IdentName(name), None, if init.Some? then Some(ExprTree(init.value)) else None))
    case If(cond, thenBody, elseBody) =>
      S.IfStmt(ExprTree(cond), S.Block(StmtTrees(thenBody)),
               if elseBody.Else? then Some(S.Block(StmtTrees(elseBody.stmts))) else None)
    case While(cond, body) => S.WhileStmt(ExprTree(cond), S.Block(StmtTrees(body)))
    case ExprStmt(e) => S.ExprStmt(ExprTree(e))
    case LittleEndian => CallStmt("LittleEndian")
    case BigEndian => CallStmt("BigEndian")
  }

  function StmtTrees(stmts: seq<FuzzStmt>): seq<S.Stmt>
    decreases stmts, 1
  {
    if stmts == [] then [] else [StmtTree(stmts[0])] + StmtTrees(stmts[1..])
  }

  // ---------------------------------------------------------- the emitter

  /** The shared output string. Each step is told, as `rest`, what will stand behind what it pushes. */
  class Emitter {
    var out: string

    constructor ()
      ensures out == ""
    {
      out := "";
    }

    method Push(text: string, ghost rest: string)
      modifies this
      ensures out == old(out) + text && out + rest == old(out) + (text + rest)
    {
      out := out + text;
    }

    method PushIndent(depth: nat, ghost rest: string)
      modifies this
      ensures out + rest == old(out) + Indent(depth, rest)
    {
      for i := 0 to depth
        invariant out + Indent(depth - i, rest) == old(out) + Indent(depth, rest)
      {
        Push("    ", Indent(depth - i - 1, rest));
      }
    }

    /** `emit_expr`. */
    method EmitExpr(e: FuzzExpr, ghost rest: string)
      modifies this
      ensures out + rest == old(out) + ExprText(e, rest)
      decreases e
    {
      hide Decimal, IdentName, BuiltinName, OpText;
      match e {
        case IntLit(v) => Push(IntText(v), rest);
        case Var(k) => Push(IdentName(k), rest);
        case Not(inner) =>
          Push("!", ExprText(inner, rest));
          EmitExpr(inner, rest);
        case Call(k) =>
          Push(BuiltinName(k), "()" + rest);
          Push("()", rest);
        case _ =>
          ghost var right := ExprText(e.right, ")" + rest);
          Push("(", ExprText(e.left, OpText(e) + right));
          EmitExpr(e.left, OpText(e) + right);
          Push(OpText(e), right);
          EmitExpr(e.right, ")" + rest);
          Push(")", rest);
      }
    }

    /** `emit_stmt`. */
    method EmitStmt(s: FuzzStmt, depth: nat, ghost rest: string)
      modifies this
      ensures out + rest == old(out) + StmtText(s, depth, rest)
      decreases s, 1
    {
      hide ExprText, StmtsText, Decimal, IdentName, TypeName;
      PushIndent(depth, Unindented(s, depth, rest));
      match s {
        case Field(ty, name, arraySize) => EmitField(s, rest);
        case Local(name, init) =>
          ghost var tail := if init.Some? then " = " + ExprText(init.value, ";\n" + rest) else ";\n" + rest;
          Push("local int ", IdentName(name) + tail);
          Push(IdentName(name), tail);
          if init.Some? {
            Push(" = ", ExprText(init.value, ";\n" + rest));
            EmitExpr(init.value, ";\n" + rest);
          }
          Push(";\n", rest);
        case If(_, _, _) => EmitIf(s, depth, rest);
        case While(cond, body) =>
          ghost var close := Indent(depth, "}\n" + rest);
          ghost var inner := StmtsText(body, depth + 1, close);
          Push("while (", ExprText(cond, ") {\n" + inner));
          EmitExpr(cond, ") {\n" + inner);
          Push(") {\n", inner);
          EmitStmts(body, depth + 1, close);
          PushIndent(depth, "}\n" + rest);
          Push("}\n", rest);
        case ExprStmt(e) =>
          EmitExpr(e, ";\n" + rest);
          Push(";\n", rest);
        case LittleEndian => Push("LittleEndian();\n", rest);
        case BigEndian => Push("BigEndian();\n", rest);
      }
    }

    method EmitField(s: FuzzStmt, ghost rest: string)
      requires s.Field?
      modifies this
      ensures out + rest == old(out) + Unindented(s, 0, rest)
    {
      hide Decimal, IdentName, TypeName;
      var size := s.arraySize;
      ghost var tail :=
        if size.Some? then "[" + (Decimal(size.value % 16) + ("]" + (";\n" + rest))) else ";\n" + rest;
      Push(TypeName(s.ty), " " + (IdentName(s.name) + tail));
      Push(" ", IdentName(s.name) + tail);
      Push(IdentName(s.name), tail);
      if size.Some? {
        Push("[", Decimal(size.value % 16) + ("]" + (";\n" + rest)));
        Push(Decimal(size.value % 16), "]" + (";\n" + rest));
        Push("]", ";\n" + rest);
      }
      Push(";\n", rest);
    }

    method EmitIf(s: FuzzStmt, depth: nat, ghost rest: string)
      requires s.If?
      modifies this
      ensures out + rest == old(out) + Unindented(s, depth, rest)
      decreases s, 0
    {
      hide ExprText, StmtsText, Indent;
      ghost var tail := ElseText(s, depth, rest);
      ghost var close := Indent(depth, "}" + tail);
      ghost var inner := StmtsText(s.thenBody, depth + 1, close);
      Push("if (", ExprText(s.cond, ") {\n" + inner));
      EmitExpr(s.cond, ") {\n" + inner);
      Push(") {\n", inner);
      EmitStmts(s.thenBody, depth + 1, close);
      PushIndent(depth, "}" + tail);
      Push("}", tail);
      match s.elseBody {
        case Else(stmts) =>
          ghost var elseClose := Indent(depth, "}" + ("\n" + rest));
          Push(" else {\n", StmtsText(stmts, depth + 1, elseClose));
          EmitStmts(stmts, depth + 1, elseClose);
          PushIndent(depth, "}" + ("\n" + rest));
          Push("}", "\n" + rest);
        case NoElse =>
      }
      Push("\n", rest);
    }

    method EmitStmts(stmts: seq<FuzzStmt>, depth: nat, ghost rest: string)
      modifies this
      ensures out + rest == old(out) + StmtsText(stmts, depth, rest)
      decreases stmts
    {
      hide StmtText;
      for i := 0 to |stmts|
        invariant out + StmtsText(stmts[i..], depth, rest) == old(out) + StmtsText(stmts, depth, rest)
      {
        assert stmts[i..][1..] == stmts[i + 1..];
        EmitStmt(stmts[i], depth, StmtsText(stmts[i + 1..], depth, rest));
      }
    }
  }

  /** `emit`. */
  method Emit(program: seq<FuzzStmt>) returns (text: string)
    ensures text == Emitted(program)
  {
    hide StmtsText;
    var emitter := new Emitter();
    emitter.EmitStmts(program, 0, "");
    text := emitter.out;
    assert text == text + "";
  }
}
