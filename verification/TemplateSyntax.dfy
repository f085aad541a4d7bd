/**
 Statements and types of a template as far as control flow and reading go
 (crates/hxy-010-lang/src/ast.rs). Of an expression only that is kept which can run statements or move the
 cursor.
 */
module TemplateSyntax {
  import opened Splices

  /**
   `Lit`: an integer literal. `Op`: any operator, access or builtin; it evaluates some of its operands in order, and an
   operand the code evaluates more than once is listed more than once. `Lenient`: `SPrintf`, which goes on when its
   format fails. `Call`: a user function, by a name no builtin has. `Seek`: `FSeek` and `FSkip`.
   */
  datatype Expr =
    | Lit(value: int)
    | Op(operands: seq<Expr>)
    | Lenient(format: Expr, operands: seq<Expr>)
    | Call(name: string, argCount: nat, operands: seq<Expr>)
    | Seek(operands: seq<Expr>)

  datatype Stmt =
    | Block(stmts: seq<Stmt>)
    | ExprStmt(expr: Expr)
    | FieldStmt(field: FieldDecl)
    | TypedefAlias(name: string, source: string, arraySize: Option<Expr>)
    | TypedefEnum(name: string, backing: Option<string>, variants: seq<Expr>)
    | TypedefStruct(name: string, isUnion: bool, body: seq<Stmt>)
    | If(cond: Expr, thenBranch: Stmt, elseBranch: Option<Stmt>)
    | While(cond: Expr, loopBody: Stmt)
    | DoWhile(loopBody: Stmt, cond: Expr)
    | For(init: Option<Stmt>, test: Option<Expr>, step: Option<Expr>, loopBody: Stmt)
    | Return(value: Option<Expr>)
    | Break
    | Continue
    | Switch(scrutinee: Expr, arms: seq<Arm>)

  /** `isLocal`: `local` and `const` declarations, which read nothing. */
  datatype FieldDecl = FieldDecl(
    isLocal: bool,
    typeName: string,
    arraySize: Option<Expr>,
    args: seq<Expr>,
    bitWidth: Option<Expr>,
    init: Option<Expr>)

  datatype Arm = Arm(pattern: Option<Expr>, body: seq<Stmt>)

  datatype TypeDef =
    | Primitive(width: nat, isChar: bool)
    | EnumType(backing: Option<string>, variants: seq<Expr>)
    | StructType(isUnion: bool, body: seq<Stmt>)
    | Alias(target: string)

  datatype Function = Function(arity: nat, body: seq<Stmt>)

  /** A call that is answered by running statements. */
  predicate RunsStatements(functions: map<string, Function>, name: string, argCount: nat) {
    name in functions && functions[name].arity == argCount && functions[name].body != []
  }

  /** Answered by running statements, with nothing evaluated before. */
  predicate BareCall(functions: map<string, Function>, e: Expr) {
    e.Call? && e.operands == [] && RunsStatements(functions, e.name, e.argCount)
  }

  /** An expression that runs no statement, whatever its values are. */
  predicate CallFree(functions: map<string, Function>, e: Expr) {
    match e
    case Lit(_) => true
    case Op(operands) => forall a <- operands :: CallFree(functions, a)
    case Lenient(format, operands) => CallFree(functions, format) && forall a <- operands :: CallFree(functions, a)
    case Call(name, argCount, operands) =>
      !RunsStatements(functions, name, argCount) && forall a <- operands :: CallFree(functions, a)
    case Seek(operands) => forall a <- operands :: CallFree(functions, a)
  }

  /**
   What a template does without: `seekless`, no seeks; `plain`, also no user calls and no bitfields; `firm`, no
   statements run by an expression whose failure is discarded, which are the format of `SPrintf` and the
   variants of an enum.
   */
  datatype Mode = Mode(seekless: bool, plain: bool, firm: bool, functions: map<string, Function>)

  /** An expression whose failure is discarded. */
  predicate AllowedDiscarded(m: Mode, e: Expr) {
    AllowedExpr(m, e) && (m.firm ==> CallFree(m.functions, e))
  }

  predicate AllowedExpr(m: Mode, e: Expr) {
    match e
    case Lit(_) => true
    case Op(operands) => forall a <- operands :: AllowedExpr(m, a)
    case Lenient(format, operands) =>
      AllowedExpr(m, format) && (m.firm ==> CallFree(m.functions, format))
      && forall a <- operands :: AllowedExpr(m, a)
    case Call(_, _, operands) => !m.plain && forall a <- operands :: AllowedExpr(m, a)
    case Seek(operands) => !m.seekless && forall a <- operands :: AllowedExpr(m, a)
  }

  predicate AllowedMaybe(m: Mode, e: Option<Expr>) {
    e.Some? ==> AllowedExpr(m, e.value)
  }

  predicate AllowedField(m: Mode, f: FieldDecl) {
    AllowedMaybe(m, f.arraySize) && AllowedMaybe(m, f.bitWidth) && AllowedMaybe(m, f.init)
    && (forall a <- f.args :: AllowedExpr(m, a))
    && (m.plain ==> f.bitWidth.None?)
  }

  predicate AllowedStmt(m: Mode, s: Stmt) {
    match s
    case Block(stmts) => forall t <- stmts :: AllowedStmt(m, t)
    case ExprStmt(e) => AllowedExpr(m, e)
    case FieldStmt(f) => AllowedField(m, f)
    case TypedefAlias(_, _, size) => AllowedMaybe(m, size)
    case TypedefEnum(_, _, variants) => forall v <- variants :: AllowedDiscarded(m, v)
    case TypedefStruct(_, _, body) => forall t <- body :: AllowedStmt(m, t)
    case If(cond, thenBranch, elseBranch) =>
      AllowedExpr(m, cond) && AllowedStmt(m, thenBranch)
      && (elseBranch.Some? ==> AllowedStmt(m, elseBranch.value))
    case While(cond, body) => AllowedExpr(m, cond) && AllowedStmt(m, body)
    case DoWhile(body, cond) => AllowedExpr(m, cond) && AllowedStmt(m, body)
    case For(init, test, step, body) =>
      (init.Some? ==> AllowedStmt(m, init.value)) && AllowedMaybe(m, test) && AllowedMaybe(m, step)
      && AllowedStmt(m, body)
    case Return(value) => AllowedMaybe(m, value)
    case Break => true
    case Continue => true
    case Switch(scrutinee, arms) =>
      AllowedExpr(m, scrutinee)
      && forall arm <- arms :: AllowedMaybe(m, arm.pattern) && forall t <- arm.body :: AllowedStmt(m, t)
  }

  predicate AllowedBody(m: Mode, body: seq<Stmt>) {
    forall s <- body :: AllowedStmt(m, s)
  }

  predicate AllowedType(m: Mode, t: TypeDef) {
    match t
    case Primitive(_, _) => true
    case EnumType(_, variants) => forall v <- variants :: AllowedDiscarded(m, v)
    case StructType(_, body) => AllowedBody(m, body)
    case Alias(_) => true
  }

  /** A plain template runs no statements from expressions. */
  lemma {:induction false} PlainIsCallFree(m: Mode, e: Expr)
    requires m.plain && AllowedExpr(m, e)
    ensures CallFree(m.functions, e)
  {
    if e.Lit? {
      return;
    }
    forall a <- e.operands
      ensures CallFree(m.functions, a)
    {
      PlainIsCallFree(m, a);
    }
    if e.Lenient? {
      PlainIsCallFree(m, e.format);
    }
  }

  predicate IsString(name: string) {
    name == "string" || name == "STRING" || name == "wstring" || name == "WSTRING"
  }

  /** The names whose arrays without a size run up to the zero byte. */
  predicate IsByteName(name: string) {
    name in ["char", "CHAR", "uchar", "UCHAR", "byte", "BYTE", "ubyte", "UBYTE"]
  }

  /** `[]` on one of them. */
  predicate RunsToZero(typeName: string, size: Option<Expr>) {
    size == Some(Lit(0)) && IsByteName(typeName)
  }

  /** `resolve_type`: aliases are followed for at most 32 steps. */
  function ResolveType(types: map<string, TypeDef>, name: string, hops: nat): Option<TypeDef>
    decreases hops
  {
    if hops == 0 || name !in types then None
    else if types[name].Alias? then ResolveType(types, types[name].target, hops - 1)
    else Some(types[name])
  }

  lemma {:induction false} ResolvedIsAllowed(m: Mode, types: map<string, TypeDef>, name: string, hops: nat)
    requires forall n <- types :: AllowedType(m, types[n])
    ensures var t := ResolveType(types, name, hops); t.Some? ==> AllowedType(m, t.value) && !t.value.Alias?
    decreases hops
  {
    if hops > 0 && name in types && types[name].Alias? {
      ResolvedIsAllowed(m, types, types[name].target, hops - 1);
    }
  }
}
