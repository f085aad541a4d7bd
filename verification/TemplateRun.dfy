/**
 Running a template (crates/hxy-010-lang/src/interp.rs): control flow, the step limit, the stall guard, reading
 fields and emitting nodes. The values of expressions, and whether they fail, are left open, so what holds
 here holds whatever they are.
 */
module TemplateRun {
  import opened Splices
  import opened NodeForest
  import opened TemplateSyntax
  import opened TemplateMeaning

  const LOOP_STALL_LIMIT: nat := 1_000

  /**
   `OverLimit`: a statement was entered beyond the step limit. `PastEnd`: a read beyond the end of the source
   that starts at or behind its end.
   */
  datatype Failure = OverLimit | PastEnd | OtherFailure

  function OutOfBounds(start: nat, len: nat): Failure {
    if start >= len then PastEnd else OtherFailure
  }

  datatype Value = Number(value: int) | ValueError(error: Failure) {
    predicate Limited() {
      ValueError? && error.OverLimit?
    }
  }

  datatype Outcome = Done(flow: Flow) | Failed(error: Failure) {
    predicate Limited() {
      Failed? && error.OverLimit?
    }
  }

  /** What a run cannot change. */
  datatype World = World(len: nat, stepLimit: nat, mode: Mode)

  /**
   What it does change, as far as is promised of it. `swallowed` counts the failures by the step limit that
   were discarded, `longestLoop` the most iterations any loop has completed.
   */
  datatype Snap = Snap(cursor: nat, nodes: seq<Node>, steps: nat, diagnostics: nat, swallowed: nat, longestLoop: nat)

  ghost predicate Bounded(w: World, s: Snap) {
    w.mode.seekless ==> s.cursor <= w.len && s.longestLoop < 1_000 * (w.len + 1)
  }

  /** The statement entries beyond the limit. */
  function Excess(w: World, s: Snap): nat {
    if s.steps <= w.stepLimit then 0 else s.steps - w.stepLimit
  }

  ghost predicate Ready(w: World, s: Snap) {
    Excess(w, s) == s.swallowed && Bounded(w, s)
  }

  /**
   What every part of a run keeps, from `a` to `b`: the entries beyond the limit are the failures they were met
   with, discarded or (`limited`) under way; in a firm template none is discarded; without seeks the cursor only
   moves forward, inside the source, and no loop runs too long.
   */
  ghost predicate Kept(w: World, a: Snap, b: Snap, limited: bool) {
    a.steps <= b.steps && Excess(w, b) == b.swallowed + (if limited then 1 else 0)
    && a.swallowed <= b.swallowed && (w.mode.firm || w.mode.plain ==> a.swallowed == b.swallowed)
    && a.diagnostics <= b.diagnostics && |a.nodes| <= |b.nodes|
    && Bounded(w, b)
    && (w.mode.seekless ==> a.cursor <= b.cursor)
  }

  /** A part of a plain template without a diagnostic adds the nodes that cover what the cursor passed. */
  ghost predicate Covers(w: World, a: Snap, b: Snap, p: Option<nat>) {
    w.mode.plain && a.diagnostics == b.diagnostics ==> Segment(a.nodes, b.nodes, p, a.cursor, b.cursor)
  }

  /** Nothing was read or emitted. */
  ghost predicate Quiet(w: World, a: Snap, b: Snap) {
    w.mode.plain ==> b.nodes == a.nodes && b.cursor == a.cursor
  }

  lemma KeptTwice(w: World, a: Snap, b: Snap, c: Snap, limited: bool)
    requires Kept(w, a, b, false) && Kept(w, b, c, limited)
    ensures Kept(w, a, c, limited)
  {
  }

  lemma KeptReady(w: World, a: Snap, b: Snap)
    requires Kept(w, a, b, false)
    ensures Ready(w, b) && a.steps <= b.steps && a.diagnostics <= b.diagnostics && |a.nodes| <= |b.nodes|
  {
  }

  lemma MovedOn(w: World, a: Snap, b: Snap)
    requires Kept(w, a, b, false)
    ensures w.mode.seekless ==> a.cursor <= b.cursor
    ensures Kept(w, a, b, false)
  {
  }

  /** A loop that has completed no more rounds than the cursor allows, and one round more. */
  lemma AnotherRound(w: World, start: nat, a: Snap, b: Snap, completed: nat, before: nat, stalls: nat)
    requires Kept(w, a, b, false) && before < 1_000 && stalls < 1_000
    requires w.mode.seekless ==> completed <= 1_000 * (a.cursor - start) + before
    requires stalls == before + 1 || (stalls == 0 && (w.mode.seekless ==> a.cursor < b.cursor))
    ensures w.mode.seekless ==> completed + 1 <= 1_000 * (b.cursor - start) + stalls
    ensures w.mode.seekless ==> completed + 1 < 1_000 * (w.len + 1) && b.longestLoop < 1_000 * (w.len + 1)
  {
  }

  lemma KeptSelf(w: World, s: Snap)
    requires Ready(w, s)
    ensures Kept(w, s, s, false) && Quiet(w, s, s)
  {
  }

  lemma Starts(w: World, s: Snap, p: Option<nat>)
    requires Ready(w, s)
    ensures Kept(w, s, s, false) && Covers(w, s, s, p)
  {
    NothingAdded(s.nodes, p, s.cursor);
    hide Segment;
  }

  /** Closing a record that its fields fill makes it one node under its own parent. */
  lemma ClosesRecord(w: World, start: Snap, inner: seq<Node>, b: Snap, idx: nat)
    requires |start.nodes| == idx + 1 && start.nodes[idx].kind == Record && start.nodes[idx].length == 0
    requires start.nodes[idx].offset == start.cursor && Below(start.nodes[idx].parent, idx)
    requires Covers(w, start, b.(nodes := inner), Some(idx)) && idx < |inner| == |b.nodes|
    requires b.nodes == inner[idx := inner[idx].(length := b.nodes[idx].length)]
    requires b.cursor >= start.cursor ==> b.nodes[idx].length == b.cursor - start.cursor
    ensures Covers(w, start.(nodes := start.nodes[..idx]), b, start.nodes[idx].parent)
  {
    if w.mode.plain && start.diagnostics == b.diagnostics {
      var outer, n := start.nodes[..idx], start.nodes[idx];
      assert start.nodes == outer + [n];
      assert inner[idx] == n;
      TilesOrdered(inner, idx + 1, Some(idx), start.cursor, b.cursor);
      hide Segment;
      RecordCloses(outer, n, inner, b.cursor);
    }
  }

  lemma QuietTwice(w: World, a: Snap, b: Snap, c: Snap)
    requires Quiet(w, a, b) && Quiet(w, b, c)
    ensures Quiet(w, a, c)
  {
  }

  lemma CoversAll(w: World, a: Snap, b: Snap)
    requires Covers(w, a, b, None) && a.nodes == [] && a.cursor == 0
    ensures w.mode.plain && a.diagnostics == b.diagnostics ==> Forest(b.nodes, b.cursor)
  {
    hide Segment;
  }

  lemma QuietCovers(w: World, a: Snap, b: Snap, p: Option<nat>)
    requires Quiet(w, a, b)
    ensures Covers(w, a, b, p)
  {
    NothingAdded(a.nodes, p, a.cursor);
    hide Segment;
  }

  lemma CoversTwice(w: World, a: Snap, b: Snap, c: Snap, p: Option<nat>)
    requires Below(p, |a.nodes|) && Covers(w, a, b, p) && Covers(w, b, c, p)
    requires a.diagnostics <= b.diagnostics <= c.diagnostics
    ensures Covers(w, a, c, p)
  {
    hide Segment;
    if w.mode.plain && a.diagnostics == c.diagnostics {
      SegmentComposes(a.nodes, b.nodes, c.nodes, p, a.cursor, b.cursor, c.cursor);
    }
  }

  lemma CoversThenQuiet(w: World, a: Snap, b: Snap, c: Snap, p: Option<nat>)
    requires Below(p, |a.nodes|) && Covers(w, a, b, p) && Quiet(w, b, c)
    requires a.diagnostics <= b.diagnostics <= c.diagnostics
    ensures Covers(w, a, c, p)
  {
    hide Segment;
    QuietCovers(w, b, c, p);
    CoversTwice(w, a, b, c, p);
  }

  lemma CoversNode(w: World, a: Snap, b: Snap, n: Node, p: Option<nat>)
    requires n.kind == Scalar && n.parent == p && n.offset == a.cursor
    requires w.mode.plain ==> b.nodes == a.nodes + [n] && b.cursor == n.End()
    ensures Covers(w, a, b, p)
  {
    OneNode(a.nodes, n);
  }

  class StuckCounter {
    var consecutive: nat

    constructor ()
      ensures consecutive == 0
    {
      consecutive := 0;
    }

    /** Counts iterations that left the cursor where it was; fails at the limit. */
    method Observe(stalled: bool) returns (ok: bool)
      modifies this
      ensures consecutive == if stalled then old(consecutive) + 1 else 0
      ensures ok <==> consecutive < 1_000
    {
      if stalled {
        consecutive := consecutive + 1;
        return consecutive < LOOP_STALL_LIMIT;
      }
      consecutive := 0;
      return true;
    }
  }

  class Interpreter {
    const len: nat
    const stepLimit: nat
    const functions: map<string, Function>
    ghost const mode: Mode

    var cursor: nat
    var nodes: seq<Node>
    var steps: nat
    var diagnostics: nat
    var types: map<string, TypeDef>
    var typedefArraySize: map<string, Expr>
    var bitfieldSlot: Option<nat>
    ghost var swallowed: nat
    ghost var longestLoop: nat

    ghost predicate Valid()
      reads this
    {
      (mode.plain ==> mode.seekless) && mode.functions == functions
      && (forall n <- functions :: AllowedBody(mode, functions[n].body))
      && (forall n <- types :: AllowedType(mode, types[n]))
      && (forall n <- typedefArraySize :: AllowedExpr(mode, typedefArraySize[n]))
    }

    ghost function TheWorld(): World {
      World(len, stepLimit, mode)
    }

    ghost function Now(): Snap
      reads this
    {
      Snap(cursor, nodes, steps, diagnostics, swallowed, longestLoop)
    }

    ghost predicate Started(p: Option<nat>)
      reads this
    {
      Valid() && Ready(TheWorld(), Now()) && Below(p, |nodes|)
    }

    ghost function Here(): Point
      reads this
    {
      Point(cursor, nodes, steps, diagnostics, types, typedefArraySize)
    }

    ghost function Fix(): Fixed {
      Fixed(len, stepLimit, functions)
    }

    /** A readable enum every variant of which is such a call. */
    ghost predicate AllCalls(typeName: string)
      reads this
    {
      cursor + 4 <= len && !IsString(typeName)
      && typeName in types && types[typeName].EnumType? && types[typeName].backing.None?
      && forall v <- types[typeName].variants :: BareCall(functions, v)
    }

    ghost function VariantCount(typeName: string): nat
      reads this
    {
      if typeName in types && types[typeName].EnumType? then |types[typeName].variants| else 0
    }

    ghost function StepsLeft(): nat
      reads this
    {
      if steps <= stepLimit then stepLimit - steps else 0
    }

    constructor (len: nat, stepLimit: nat, functions: map<string, Function>, types: map<string, TypeDef>,
                 ghost mode: Mode)
      requires (mode.plain ==> mode.seekless) && mode.functions == functions
      requires forall n <- functions :: AllowedBody(mode, functions[n].body)
      requires forall n <- types :: AllowedType(mode, types[n])
      ensures Started(None)
      ensures cursor == 0 && nodes == [] && steps == 0 && diagnostics == 0 && swallowed == 0 && longestLoop == 0
      ensures this.len == len && this.stepLimit == stepLimit && this.mode == mode && this.functions == functions
      ensures typedefArraySize == map[]
    {
      this.len, this.stepLimit, this.functions, this.types, this.mode := len, stepLimit, functions, types, mode;
      cursor, nodes, steps, diagnostics := 0, [], 0, 0;
      typedefArraySize, bitfieldSlot := map[], None;
      swallowed, longestLoop := 0, 0;
    }

    // ------------------------------------------------------- expressions

    /** The value an operation makes of its operands: anything, or a failure, with or without a diagnostic. */
    method Produce() returns (r: Value)
      requires Started(None)
      modifies `diagnostics
      ensures Valid() && Kept(TheWorld(), old(Now()), Now(), r.Limited()) && Quiet(TheWorld(), old(Now()), Now())
    {
      if * {
        diagnostics := diagnostics + 1;
      }
      if * {
        var f: Failure :| !f.OverLimit?;
        return ValueError(f);
      }
      var v: int := *;
      r := Number(v);
    }

    /** `eval`. */
    method Eval(e: Expr) returns (r: Value)
      requires Started(None) && AllowedExpr(mode, e)
      modifies this
      ensures Valid() && Kept(TheWorld(), old(Now()), Now(), r.Limited()) && Quiet(TheWorld(), old(Now()), Now())
      ensures CallFree(functions, e) ==> steps == old(steps) && swallowed == old(swallowed) && !r.Limited()
      ensures BareCall(functions, e) && old(steps) >= stepLimit ==>
                r == ValueError(OverLimit) && Now() == old(Now()).(steps := old(steps) + 1)
      ensures e.Lit? ==> r == Number(e.value) && unchanged(this)
      ensures BareCall(functions, e) ==>
                CallAgrees(CallMeans(Fix(), functions[e.name].body, old(Here())), r, Here())
      decreases StepsLeft(), 2, e, 0
    {
      hide CallMeans, Kept, Quiet;
      ghost var s0 := Now();
      KeptSelf(TheWorld(), s0);
      if e.Lit? {
        return Number(e.value);
      }
      if e.Lenient? {
        var _ := EvalAndSwallow(e.format);
      }
      ghost var s1 := Now();
      KeptReady(TheWorld(), s0, s1);
      r := EvalOperands(e.operands);
      ghost var s2 := Now();
      KeptTwice(TheWorld(), s0, s1, s2, r.Limited());
      QuietTwice(TheWorld(), s0, s1, s2);
      if r.ValueError? {
        return;
      }
      KeptReady(TheWorld(), s0, s2);
      r := Apply(e);
      KeptTwice(TheWorld(), s0, s2, Now(), r.Limited());
      QuietTwice(TheWorld(), s0, s2, Now());
    }

    /** The operation itself, its operands being evaluated. */
    method Apply(e: Expr) returns (r: Value)
      requires Started(None) && AllowedExpr(mode, e) && !e.Lit?
      modifies this
      ensures Valid() && Kept(TheWorld(), old(Now()), Now(), r.Limited()) && Quiet(TheWorld(), old(Now()), Now())
      ensures CallFree(functions, e) ==> steps == old(steps) && swallowed == old(swallowed) && !r.Limited()
      ensures BareCall(functions, e) && old(steps) >= stepLimit ==>
                r == ValueError(OverLimit) && Now() == old(Now()).(steps := old(steps) + 1)
      ensures BareCall(functions, e) ==>
                CallAgrees(CallMeans(Fix(), functions[e.name].body, old(Here())), r, Here())
      decreases StepsLeft(), 1, 1
    {
      hide CallMeans;
      match e
      case Op(_) => r := Produce();
      case Lenient(_, _) => r := Produce();
      case Call(name, argCount, _) => r := CallNamed(name, argCount);
      case Seek(_) => r := SeekSomewhere();
    }

    /** What is not written counts as true. */
    method EvalMaybe(e: Option<Expr>) returns (r: Value)
      requires Started(None) && AllowedMaybe(mode, e)
      modifies this
      ensures Valid() && Kept(TheWorld(), old(Now()), Now(), r.Limited()) && Quiet(TheWorld(), old(Now()), Now())
      ensures e.None? ==> r.Number? && unchanged(this)
      ensures IsLit(e) ==> r == Number(if e.None? then 1 else e.value.value) && unchanged(this)
      decreases StepsLeft(), 3
    {
      r := Number(1);
      if e.Some? {
        r := Eval(e.value);
      }
    }

    /** An evaluation whose failure is discarded. */
    method EvalAndSwallow(e: Expr) returns (ok: bool)
      requires Started(None) && AllowedDiscarded(mode, e)
      modifies this
      ensures Valid() && Kept(TheWorld(), old(Now()), Now(), false) && Quiet(TheWorld(), old(Now()), Now())
      ensures CallFree(functions, e) ==> steps == old(steps) && swallowed == old(swallowed)
      ensures BareCall(functions, e) && old(steps) >= stepLimit ==>
                !ok && Now() == old(Now()).(steps := old(steps) + 1, swallowed := old(swallowed) + 1)
      ensures e.Lit? ==> ok && unchanged(this)
      decreases StepsLeft(), 2, e, 1
    {
      if mode.plain {
        PlainIsCallFree(mode, e);
      }
      var r := Eval(e);
      if r.Limited() {
        swallowed := swallowed + 1;
      }
      ok := r.Number?;
    }

    method EvalOperands(operands: seq<Expr>) returns (r: Value)
      requires Started(None) && forall a <- operands :: AllowedExpr(mode, a)
      modifies this
      ensures Valid() && Kept(TheWorld(), old(Now()), Now(), r.Limited()) && Quiet(TheWorld(), old(Now()), Now())
      ensures (forall a <- operands :: CallFree(functions, a)) ==>
                steps == old(steps) && swallowed == old(swallowed) && !r.Limited()
      ensures operands == [] ==> r.Number? && unchanged(this)
      ensures AllLits(operands) ==> r.Number? && unchanged(this)
      decreases StepsLeft(), 2, operands
    {
      hide Kept, Quiet;
      ghost var s0 := Now();
      KeptSelf(TheWorld(), s0);
      for i := 0 to |operands|
        invariant Started(None)
        invariant Kept(TheWorld(), s0, Now(), false) && Quiet(TheWorld(), s0, Now())
        invariant (forall a <- operands :: CallFree(functions, a)) ==> steps == old(steps) && swallowed == old(swallowed)
        invariant AllLits(operands) ==> unchanged(this)
      {
        if * {
          ghost var s1 := Now();
          KeptReady(TheWorld(), s0, s1);
          r := Eval(operands[i]);
          KeptTwice(TheWorld(), s0, s1, Now(), r.Limited());
          QuietTwice(TheWorld(), s0, s1, Now());
          if r.ValueError? {
            return;
          }
          KeptReady(TheWorld(), s1, Now());
        }
      }
      r := Number(0);
    }

    /** `call_named_with_aliases` on a user function: its body runs under no parent. */
    method CallNamed(name: string, argCount: nat) returns (r: Value)
      requires Started(None) && !mode.plain
      modifies this
      ensures Valid() && Kept(TheWorld(), old(Now()), Now(), r.Limited()) && Quiet(TheWorld(), old(Now()), Now())
      ensures !RunsStatements(functions, name, argCount) ==>
                steps == old(steps) && swallowed == old(swallowed) && !r.Limited()
      ensures RunsStatements(functions, name, argCount) && old(steps) >= stepLimit ==>
                r == ValueError(OverLimit) && Now() == old(Now()).(steps := old(steps) + 1)
      ensures RunsStatements(functions, name, argCount) ==>
                CallAgrees(CallMeans(Fix(), functions[name].body, old(Here())), r, Here())
      decreases StepsLeft(), 1, 0
    {
      hide CallMeans, StmtMeans;
      if name !in functions {
        return ValueError(OtherFailure);
      }
      if functions[name].arity != argCount {
        return ValueError(OtherFailure);
      }
      var body := functions[name].body;
      ghost var meant := CallMeans(Fix(), body, Here());
      assert body[0..] == body;
      for i := 0 to |body|
        invariant meant.Ends? ==> CallMeans(Fix(), body[i..], Here()) == meant
        invariant Started(None)
        invariant Kept(TheWorld(), old(Now()), Now(), false)
        invariant i == 0 ==> Now() == old(Now())
        invariant i > 0 ==> old(steps) < stepLimit
      {
        CallStep(Fix(), body, i, Here());
        var flow := ExecStmt(body[i], None);
        if flow.Failed? {
          return ValueError(flow.error);
        }
        if flow.flow == FlowReturn || flow.flow == FlowBreak {
          break;
        }
      }
      assert body[|body|..] == [];
      CallEnd(Fix(), Here());
      var v: int := *;
      r := Number(v);
    }

    /** `FSeek` and `FSkip`. */
    method SeekSomewhere() returns (r: Value)
      requires Started(None) && !mode.seekless
      modifies `cursor
      ensures Valid() && Kept(TheWorld(), old(Now()), Now(), r.Limited()) && Quiet(TheWorld(), old(Now()), Now())
    {
      var target: nat :| true;
      cursor := target;
      r := Number(0);
    }

    // -------------------------------------------------------- statements

    /** `exec_stmt`. */
    method ExecStmt(stmt: Stmt, p: Option<nat>) returns (r: Outcome)
      requires Started(p) && AllowedStmt(mode, stmt)
      modifies this
      ensures Valid() && Kept(TheWorld(), old(Now()), Now(), r.Limited())
      ensures r.Done? ==> Covers(TheWorld(), old(Now()), Now(), p)
      ensures r.Done? ==> old(steps) < stepLimit && old(steps) < steps
      ensures old(steps) >= stepLimit ==>
                r == Failed(OverLimit) && Now() == old(Now()).(steps := old(steps) + 1)
      ensures stmt.TypedefEnum? && old(steps) < stepLimit && (old(steps) + 1) % 1024 != 0 ==>
                r == Done(FlowNext) && Now() == old(Now()).(steps := old(steps) + 1)
                && types == old(types)[stmt.name := EnumType(stmt.backing, stmt.variants)]
                && typedefArraySize == old(typedefArraySize)
      ensures stmt.FieldStmt? && PlainField(stmt.field) && stmt.field.typeName !in old(typedefArraySize)
              && old(AllCalls(stmt.field.typeName)) && old(steps) + 1 == stepLimit && stepLimit % 1024 != 0 ==>
                r.Done? && steps == stepLimit + old(VariantCount(stmt.field.typeName))
      ensures Agrees(StmtMeans(Fix(), stmt, p, old(Here())), r, Here())
      ensures IsJump(stmt) && old(steps) < stepLimit && (old(steps) + 1) % 1024 != 0 ==>
                r == Done(if stmt.Break? then FlowBreak else if stmt.Continue? then FlowContinue else FlowReturn)
                && Here() == old(Here()).(steps := old(steps) + 1)
      decreases StepsLeft(), 0
    {
      hide Segment, EnteredMeans;
      steps := steps + 1;
      if steps > stepLimit {
        return Failed(OverLimit);
      }
      if steps % 1024 == 0 {
        if * {
          return Failed(OtherFailure); // out of time
        }
      }
      r := Dispatch(stmt, p);
    }

    method Dispatch(stmt: Stmt, p: Option<nat>) returns (r: Outcome)
      requires Started(p) && AllowedStmt(mode, stmt)
      modifies this
      ensures Valid() && Kept(TheWorld(), old(Now()), Now(), r.Limited())
      ensures r.Done? ==> Covers(TheWorld(), old(Now()), Now(), p)
      ensures stmt.TypedefEnum? ==>
                r == Done(FlowNext) && Now() == old(Now())
                && types == old(types)[stmt.name := EnumType(stmt.backing, stmt.variants)]
                && typedefArraySize == old(typedefArraySize)
      ensures stmt.FieldStmt? && PlainField(stmt.field) && stmt.field.typeName !in old(typedefArraySize)
              && old(AllCalls(stmt.field.typeName)) && old(steps) >= stepLimit ==>
                r.Done? && steps == old(steps) + old(VariantCount(stmt.field.typeName))
      ensures Agrees(EnteredMeans(Fix(), stmt, p, old(Here())), r, Here())
      ensures IsJump(stmt) ==>
                r == Done(if stmt.Break? then FlowBreak else if stmt.Continue? then FlowContinue else FlowReturn)
                && Here() == old(Here())
      decreases StepsLeft(), 13
    {
      hide Segment, BlockMeans, LoopMeans, FieldMeans;
      match stmt
      case Block(stmts) => r := ExecBlock(stmts, p);
      case ExprStmt(e) => r := ExecExpr(Some(e), FlowNext, p);
      case FieldStmt(field) => r := ExecFieldDecl(field, p);
      case TypedefAlias(_, _, _) => r := Define(stmt, p);
      case TypedefEnum(_, _, _) => r := Define(stmt, p);
      case TypedefStruct(_, _, _) => r := Define(stmt, p);
      case If(_, _, _) => r := ExecIf(stmt, p);
      case While(cond, body) => r := ExecLoop(false, Some(cond), None, body, p);
      case DoWhile(body, cond) => r := ExecLoop(true, Some(cond), None, body, p);
      case For(init, test, step, body) => r := ExecFor(init, test, step, body, p);
      case Return(value) => r := ExecExpr(value, FlowReturn, p);
      case Break => r := ExecExpr(None, FlowBreak, p);
      case Continue => r := ExecExpr(None, FlowContinue, p);
      case Switch(scrutinee, arms) => r := ExecSwitch(scrutinee, arms, p);
    }

    /** An expression, if there is one, and then a flow. */
    method ExecExpr(e: Option<Expr>, flow: Flow, ghost p: Option<nat>) returns (r: Outcome)
      requires Started(p) && AllowedMaybe(mode, e)
      modifies this
      ensures Valid() && Kept(TheWorld(), old(Now()), Now(), r.Limited())
      ensures r.Done? ==> Covers(TheWorld(), old(Now()), Now(), p)
      ensures r.Done? ==> r.flow == flow
      ensures Agrees(ExprMeans(Fix(), e, flow, old(Here())), r, Here())
      decreases StepsLeft(), 3
    {
      hide Segment, CallMeans;
      if e.Some? {
        var v := Eval(e.value);
        if v.ValueError? {
          return Failed(v.error);
        }
      }
      QuietCovers(TheWorld(), old(Now()), Now(), p);
      r := Done(flow);
    }

    /** The three type definitions. */
    method Define(stmt: Stmt, ghost p: Option<nat>) returns (r: Outcome)
      requires Started(p) && AllowedStmt(mode, stmt)
      requires stmt.TypedefAlias? || stmt.TypedefEnum? || stmt.TypedefStruct?
      modifies `types, `typedefArraySize
      ensures Valid() && Now() == old(Now())
      ensures Kept(TheWorld(), old(Now()), Now(), false) && Covers(TheWorld(), old(Now()), Now(), p)
      ensures r == Done(FlowNext)
      ensures stmt.TypedefEnum? ==>
                types == old(types)[stmt.name := EnumType(stmt.backing, stmt.variants)]
                && typedefArraySize == old(typedefArraySize)
      ensures Agrees(EnteredMeans(Fix(), stmt, p, old(Here())), r, Here())
    {
      hide Segment;
      match stmt
      {
        case TypedefAlias(name, source, arraySize) =>
          types := types[name := Alias(source)];
          if arraySize.Some? {
            typedefArraySize := typedefArraySize[name := arraySize.value];
          }
        case TypedefEnum(name, backing, variants) => types := types[name := EnumType(backing, variants)];
        case TypedefStruct(name, isUnion, body) => types := types[name := StructType(isUnion, body)];
      }
      QuietCovers(TheWorld(), old(Now()), Now(), p);
      r := Done(FlowNext);
    }

    method ExecIf(stmt: Stmt, p: Option<nat>) returns (r: Outcome)
      requires Started(p) && AllowedStmt(mode, stmt) && stmt.If?
      modifies this
      ensures Valid() && Kept(TheWorld(), old(Now()), Now(), r.Limited())
      ensures r.Done? ==> Covers(TheWorld(), old(Now()), Now(), p)
      ensures Agrees(EnteredMeans(Fix(), stmt, p, old(Here())), r, Here())
      decreases StepsLeft(), 11
    {
      hide Segment, StmtMeans, CallMeans, Covers, Quiet, Kept;
      ghost var s0, h0 := Now(), Here();
      var c := Eval(stmt.cond);
      if c.ValueError? {
        return Failed(c.error);
      }
      ghost var s1, h1 := Now(), Here();
      KeptReady(TheWorld(), s0, s1);
      QuietCovers(TheWorld(), s0, s1, p);
      assert stmt.cond.Lit? ==> h1 == h0;
      if c.value != 0 {
        r := ExecStmt(stmt.thenBranch, p);
      } else if stmt.elseBranch.Some? {
        r := ExecStmt(stmt.elseBranch.value, p);
      } else {
        return Done(FlowNext);
      }
      KeptTwice(TheWorld(), s0, s1, Now(), r.Limited());
      if r.Done? {
        KeptReady(TheWorld(), s1, Now());
        CoversTwice(TheWorld(), s0, s1, Now(), p);
      }
    }

    /** `exec_block`: up to the first statement that does not just go on. */
    method ExecBlock(stmts: seq<Stmt>, p: Option<nat>) returns (r: Outcome)
      requires Started(p) && AllowedBody(mode, stmts)
      modifies this
      ensures Valid() && Kept(TheWorld(), old(Now()), Now(), r.Limited())
      ensures r.Done? ==> Covers(TheWorld(), old(Now()), Now(), p)
      ensures r == Done(FlowNext) ==> old(steps) + |stmts| <= steps
      ensures Agrees(BlockMeans(Fix(), stmts, p, old(Here())), r, Here())
      decreases StepsLeft(), 11
    {
      hide Segment, BlockMeans, StmtMeans;
      r := Done(FlowNext);
      QuietCovers(TheWorld(), old(Now()), Now(), p);
      ghost var meant := BlockMeans(Fix(), stmts, p, Here());
      assert stmts[0..] == stmts;
      for i := 0 to |stmts|
        invariant meant.Ends? ==> BlockMeans(Fix(), stmts[i..], p, Here()) == meant
        invariant Started(p) && r == Done(FlowNext) && old(steps) + i <= steps
        invariant Kept(TheWorld(), old(Now()), Now(), false) && Covers(TheWorld(), old(Now()), Now(), p)
      {
        ghost var s1 := Now();
        BlockStep(Fix(), stmts, i, p, Here());
        r := ExecStmt(stmts[i], p);
        if r.Failed? {
          return;
        }
        CoversTwice(TheWorld(), old(Now()), s1, Now(), p);
        if r.flow != FlowNext {
          return;
        }
      }
      assert stmts[|stmts|..] == [];
      BlockEnd(Fix(), p, Here());
    }

    /** `exec_switch`: the first matching arm, or the default, and every arm behind it up to a `break`. */
    method ExecSwitch(scrutinee: Expr, arms: seq<Arm>, p: Option<nat>) returns (r: Outcome)
      requires Started(p) && AllowedStmt(mode, Switch(scrutinee, arms))
      modifies this
      ensures Valid() && Kept(TheWorld(), old(Now()), Now(), r.Limited())
      ensures r.Done? ==> Covers(TheWorld(), old(Now()), Now(), p)
      ensures r.Done? ==> r.flow != FlowBreak
      ensures Agrees(EnteredMeans(Fix(), Switch(scrutinee, arms), p, old(Here())), r, Here())
      decreases StepsLeft(), 12, 1
    {
      hide Segment, ArmsMean;
      var v, i := FindArm(scrutinee, arms);
      if v.ValueError? {
        return Failed(v.error);
      }
      ghost var s1 := Now();
      QuietCovers(TheWorld(), old(Now()), s1, p);
      r := RunArms(arms, i, p);
      if r.Done? {
        CoversTwice(TheWorld(), old(Now()), s1, Now(), p);
      }
    }

    /** The first arm whose pattern has the value, or else the default, or else none. */
    method FindArm(scrutinee: Expr, arms: seq<Arm>) returns (v: Value, i: nat)
      requires Started(None) && AllowedStmt(mode, Switch(scrutinee, arms))
      modifies this
      ensures Valid() && Kept(TheWorld(), old(Now()), Now(), v.Limited()) && Quiet(TheWorld(), old(Now()), Now())
      ensures i <= |arms|
      ensures v.Number? && i == |arms| ==> forall arm <- arms :: arm.pattern.Some?
      ensures scrutinee.Lit? && ArmChosen(scrutinee.value, arms).Some? ==>
                v.Number? && unchanged(this) && i == ArmChosen(scrutinee.value, arms).value
      decreases StepsLeft(), 3
    {
      hide CallMeans, Kept, Quiet;
      ghost var s0, h0, chosen := Now(), Here(), if scrutinee.Lit? then ArmFrom(scrutinee.value, arms, 0) else None;
      i := 0;
      v := Eval(scrutinee);
      if v.ValueError? {
        return;
      }
      KeptReady(TheWorld(), s0, Now());
      while i < |arms|
        invariant 0 <= i <= |arms| && Started(None)
        invariant chosen.Some? ==> unchanged(this) && ArmFrom(scrutinee.value, arms, i) == chosen
        invariant Kept(TheWorld(), s0, Now(), false) && Quiet(TheWorld(), s0, Now())
      {
        if arms[i].pattern.Some? {
          ghost var s1 := Now();
          KeptReady(TheWorld(), s0, s1);
          var pattern := Eval(arms[i].pattern.value);
          KeptTwice(TheWorld(), s0, s1, Now(), pattern.Limited());
          QuietTwice(TheWorld(), s0, s1, Now());
          if pattern.ValueError? {
            return pattern, i;
          }
          KeptReady(TheWorld(), s1, Now());
          if pattern.value == v.value {
            return;
          }
        }
        i := i + 1;
      }
      i := DefaultArm(arms);
    }

    method DefaultArm(arms: seq<Arm>) returns (i: nat)
      ensures i == DefaultFrom(arms, 0)
      ensures i <= |arms| && (i == |arms| ==> forall arm <- arms :: arm.pattern.Some?)
      ensures i < |arms| ==> arms[i].pattern.None?
    {
      i := 0;
      while i < |arms| && arms[i].pattern.Some?
        invariant 0 <= i <= |arms| && DefaultFrom(arms, i) == DefaultFrom(arms, 0)
        invariant forall k :: 0 <= k < i ==> arms[k].pattern.Some?
      {
        i := i + 1;
      }
    }

    /** The arms from the given one on, up to a `break`. */
    method RunArms(arms: seq<Arm>, from: nat, p: Option<nat>) returns (r: Outcome)
      requires Started(p) && from <= |arms| && forall arm <- arms :: AllowedBody(mode, arm.body)
      modifies this
      ensures Valid() && Kept(TheWorld(), old(Now()), Now(), r.Limited())
      ensures r.Done? ==> Covers(TheWorld(), old(Now()), Now(), p)
      ensures r.Done? ==> r.flow != FlowBreak
      ensures Agrees(ArmsMean(Fix(), arms, from, p, old(Here())), r, Here())
      decreases StepsLeft(), 12, 0
    {
      hide Segment, BlockMeans;
      var i := from;
      QuietCovers(TheWorld(), old(Now()), Now(), p);
      r := Done(FlowNext);
      ghost var meant := ArmsMean(Fix(), arms, from, p, Here());
      while i < |arms|
        invariant from <= i <= |arms| && (meant.Ends? ==> ArmsMean(Fix(), arms, i, p, Here()) == meant)
        invariant Started(p) && r == Done(FlowNext)
        invariant Kept(TheWorld(), old(Now()), Now(), false) && Covers(TheWorld(), old(Now()), Now(), p)
      {
        ghost var s1 := Now();
        r := ExecBlock(arms[i].body, p);
        if r.Failed? {
          return;
        }
        CoversTwice(TheWorld(), old(Now()), s1, Now(), p);
        if r.flow == FlowBreak {
          return Done(FlowNext);
        }
        if r.flow != FlowNext {
          return;
        }
        i := i + 1;
      }
    }

    method ExecFor(init: Option<Stmt>, test: Option<Expr>, step: Option<Expr>, body: Stmt, p: Option<nat>)
      returns (r: Outcome)
      requires Started(p) && AllowedStmt(mode, For(init, test, step, body))
      modifies this
      ensures Valid() && Kept(TheWorld(), old(Now()), Now(), r.Limited())
      ensures r.Done? ==> Covers(TheWorld(), old(Now()), Now(), p)
      ensures Agrees(EnteredMeans(Fix(), For(init, test, step, body), p, old(Here())), r, Here())
      decreases StepsLeft(), 12
    {
      hide Segment, StmtMeans, LoopMeans;
      QuietCovers(TheWorld(), old(Now()), Now(), p);
      if init.Some? {
        r := ExecStmt(init.value, p);
        if r.Failed? {
          return;
        }
      }
      ghost var s1 := Now();
      r := ExecLoop(false, test, step, body, p);
      if r.Done? {
        CoversTwice(TheWorld(), old(Now()), s1, Now(), p);
      }
    }

    /**
     The three loops: `bodyFirst` for `do`, `step` for `for`. Every completed iteration costs a step, so the
     loop ends; and a loop that does not move the cursor is stopped.
     */
    method ExecLoop(bodyFirst: bool, test: Option<Expr>, step: Option<Expr>, body: Stmt, p: Option<nat>)
      returns (r: Outcome)
      requires Started(p) && AllowedMaybe(mode, test) && AllowedMaybe(mode, step) && AllowedStmt(mode, body)
      modifies this
      ensures Valid() && Kept(TheWorld(), old(Now()), Now(), r.Limited())
      ensures r.Done? ==> Covers(TheWorld(), old(Now()), Now(), p)
      ensures r.Done? ==> r.flow == FlowNext || r.flow == FlowReturn
      ensures Agrees(LoopMeans(Fix(), bodyFirst, test, step, body, p, old(Here()), 0), r, Here())
      decreases StepsLeft(), 11
    {
      hide Segment, Covers, Quiet, LoopMeans, RoundMeans, Kept, TurnAgrees, Valid, Pending, Agrees;
      var stuck := new StuckCounter();
      ghost var start, completed := cursor, 0;
      ghost var s0 := Now();
      var again, first := true, bodyFirst;
      r := Done(FlowNext);
      Starts(TheWorld(), s0, p);
      ghost var meant := LoopMeans(Fix(), bodyFirst, test, step, body, p, Here(), 0);
      PendingStarts(Fix(), first, test, step, body, p, Here(), r);
      while again
        invariant Pending(meant, Fix(), again, first, test, step, body, p, Here(), stuck.consecutive, r)
        invariant fresh(stuck) && Valid() && (again ==> r.Done? && Started(p))
        invariant r.Done? ==> r.flow == FlowNext || r.flow == FlowReturn
        invariant Kept(TheWorld(), s0, Now(), r.Limited())
        invariant r.Done? ==> Covers(TheWorld(), s0, Now(), p)
        invariant again ==> stuck.consecutive < 1_000
        invariant again && mode.seekless ==> completed <= 1_000 * (cursor - start) + stuck.consecutive
        decreases again, StepsLeft()
      {
        ghost var s1, stalls := Now(), stuck.consecutive;
        ghost var h1, r1 := Here(), r;
        r, again := Iterate(if first then None else test, step, body, stuck, p);
        PendingTurn(meant, Fix(), first, test, step, body, p, h1, stalls, r1, r, again, Here(),
                    stuck.consecutive);
        KeptTwice(TheWorld(), s0, s1, Now(), r.Limited());
        if r.Done? {
          KeptReady(TheWorld(), s0, s1);
          KeptReady(TheWorld(), s1, Now());
          CoversTwice(TheWorld(), s0, s1, Now(), p);
        }
        first := false;
        if again {
          AnotherRound(TheWorld(), start, s1, Now(), completed, stalls, stuck.consecutive);
          completed := completed + 1;
          CountRound(s0, completed, p);
        }
      }
      PendingEnds(meant, Fix(), first, test, step, body, p, Here(), stuck.consecutive, r);
    }

    /** A loop has completed so many rounds. */
    ghost method CountRound(start: Snap, completed: nat, p: Option<nat>)
      requires Valid() && Kept(TheWorld(), start, Now(), false) && Covers(TheWorld(), start, Now(), p)
      requires mode.seekless ==> completed < 1_000 * (len + 1)
      modifies `longestLoop
      ensures Valid() && Kept(TheWorld(), start, Now(), false) && Covers(TheWorld(), start, Now(), p)
      ensures Now() == old(Now()).(longestLoop := if completed > old(longestLoop) then completed else old(longestLoop))
    {
      hide Segment;
      longestLoop := if completed > longestLoop then completed else longestLoop;
    }

    /** One round of a loop; `again` when it was completed. */
    method Iterate(test: Option<Expr>, step: Option<Expr>, body: Stmt, stuck: StuckCounter, p: Option<nat>)
      returns (r: Outcome, again: bool)
      requires Started(p) && AllowedMaybe(mode, test) && AllowedMaybe(mode, step) && AllowedStmt(mode, body)
      requires stuck.consecutive < 1_000
      modifies this, stuck
      ensures Valid() && Kept(TheWorld(), old(Now()), Now(), r.Limited())
      ensures r.Done? ==> Covers(TheWorld(), old(Now()), Now(), p)
      ensures again ==> r.Done? && old(steps) < steps && old(steps) < stepLimit
      ensures again ==> stuck.consecutive < 1_000
      ensures again ==> stuck.consecutive == old(stuck.consecutive) + 1
                        || (stuck.consecutive == 0 && (mode.seekless ==> old(cursor) < cursor))
      ensures r.Done? ==> r.flow == FlowNext || r.flow == FlowReturn
      ensures TurnAgrees(RoundMeans(Fix(), test, step, body, p, old(Here()), old(stuck.consecutive)), r, again, Here(),
                         stuck.consecutive)
      decreases StepsLeft(), 10
    {
      hide Segment, Covers, Quiet, TurnMeans, RoundMeans, Kept;
      again := false;
      ghost var s0, h0 := Now(), Here();
      RoundStep(Fix(), test, step, body, p, h0, stuck.consecutive);
      var c := EvalMaybe(test);
      if c.ValueError? {
        return Failed(c.error), false;
      }
      ghost var s1, h1 := Now(), Here();
      KeptReady(TheWorld(), s0, s1);
      QuietCovers(TheWorld(), s0, s1, p);
      assert IsLit(test) ==> h1 == h0;
      if c.value == 0 {
        return Done(FlowNext), false;
      }
      r, again := RunBody(step, body, stuck, p);
      KeptTwice(TheWorld(), s0, s1, Now(), r.Limited());
      if r.Done? {
        KeptReady(TheWorld(), s1, Now());
        CoversTwice(TheWorld(), s0, s1, Now(), p);
      }
    }

    /** The body, the step and the stall guard. */
    method RunBody(step: Option<Expr>, body: Stmt, stuck: StuckCounter, p: Option<nat>)
      returns (r: Outcome, again: bool)
      requires Started(p) && AllowedMaybe(mode, step) && AllowedStmt(mode, body)
      requires stuck.consecutive < 1_000
      modifies this, stuck
      ensures Valid() && Kept(TheWorld(), old(Now()), Now(), r.Limited())
      ensures r.Done? ==> Covers(TheWorld(), old(Now()), Now(), p)
      ensures again ==> r.Done? && old(steps) < steps && old(steps) < stepLimit
      ensures r.Done? ==> r.flow == FlowNext || r.flow == FlowReturn
      ensures again ==> stuck.consecutive < 1_000
      ensures again ==> stuck.consecutive == old(stuck.consecutive) + 1
                        || (stuck.consecutive == 0 && (mode.seekless ==> old(cursor) < cursor))
      ensures TurnAgrees(TurnMeans(Fix(), step, body, p, old(Here()), old(stuck.consecutive)), r, again, Here(),
                         stuck.consecutive)
      decreases StepsLeft(), 9
    {
      hide Segment, Covers, Quiet, StmtMeans, TurnMeans, Kept;
      again := false;
      ghost var s0, h0 := Now(), Here();
      TurnStep(Fix(), step, body, p, h0, stuck.consecutive);
      var before := cursor;
      r := ExecStmt(body, p);
      if r.Failed? {
        return;
      }
      ghost var s1, h1 := Now(), Here();
      KeptReady(TheWorld(), s0, s1);
      if r.flow == FlowBreak {
        return Done(FlowNext), false;
      }
      if r.flow == FlowReturn {
        return;
      }
      var v := EvalMaybe(step);
      KeptTwice(TheWorld(), s0, s1, Now(), v.Limited());
      if v.ValueError? {
        return Failed(v.error), false;
      }
      assert IsLit(step) ==> Here() == h1;
      KeptReady(TheWorld(), s1, Now());
      CoversThenQuiet(TheWorld(), s0, s1, Now(), p);
      MovedOn(TheWorld(), s0, Now());
      again := stuck.Observe(cursor == before);
      r := if again then Done(FlowNext) else Failed(OtherFailure);
    }

    // ------------------------------------------------------------ fields

    /** `exec_field_decl`. */
    method ExecFieldDecl(f: FieldDecl, p: Option<nat>) returns (r: Outcome)
      requires Started(p) && AllowedField(mode, f)
      modifies this
      ensures Valid() && Kept(TheWorld(), old(Now()), Now(), r.Limited())
      ensures r.Done? ==> Covers(TheWorld(), old(Now()), Now(), p)
      ensures PlainField(f) && f.typeName !in old(typedefArraySize)
              && old(AllCalls(f.typeName)) && old(steps) >= stepLimit ==>
                r.Done? && steps == old(steps) + old(VariantCount(f.typeName))
      ensures Agrees(FieldMeans(Fix(), f, p, old(Here())), r, Here())
      decreases StepsLeft(), 11
    {
      hide Segment, ExprMeans;
      if f.isLocal {
        r := DeclareLocal(f, p);
        return;
      }
      if f.bitWidth.Some? {
        r := ExecExpr(f.bitWidth, FlowNext, p);
        if r.Done? {
          r := ReadBitfield(p);
        }
        return;
      }
      r := ReadDeclared(f, p);
    }

    /** A field that is read: its count and arguments are evaluated first. */
    method ReadDeclared(f: FieldDecl, p: Option<nat>) returns (r: Outcome)
      requires Started(p) && AllowedField(mode, f) && !f.isLocal && f.bitWidth.None?
      modifies this
      ensures Valid() && Kept(TheWorld(), old(Now()), Now(), r.Limited())
      ensures r.Done? ==> Covers(TheWorld(), old(Now()), Now(), p)
      ensures PlainField(f) && f.typeName !in old(typedefArraySize)
              && old(AllCalls(f.typeName)) && old(steps) >= stepLimit ==>
                r.Done? && steps == old(steps) + old(VariantCount(f.typeName))
      ensures Agrees(FieldMeans(Fix(), f, p, old(Here())), r, Here())
      decreases StepsLeft(), 10, 1
    {
      hide Segment, ReadMeans, Covers, Quiet, Kept;
      ghost var s0 := Now();
      var v, isArray := Prepare(f);
      if v.ValueError? {
        return Failed(v.error);
      }
      ghost var s1 := Now();
      KeptReady(TheWorld(), s0, s1);
      QuietCovers(TheWorld(), s0, s1, p);
      r := ReadField(f.typeName, if isArray then Some(v.value) else None, p);
      KeptTwice(TheWorld(), s0, s1, Now(), r.Limited());
      if r.Done? {
        KeptReady(TheWorld(), s1, Now());
        CoversTwice(TheWorld(), s0, s1, Now(), p);
      }
    }

    /** Its element count, if it is an array, and its arguments. */
    method Prepare(f: FieldDecl) returns (r: Value, isArray: bool)
      requires Started(None) && AllowedField(mode, f)
      modifies this
      ensures Valid() && Kept(TheWorld(), old(Now()), Now(), r.Limited()) && Quiet(TheWorld(), old(Now()), Now())
      ensures r.Number? && isArray ==> r.value >= 0
      ensures PlainField(f) && f.typeName !in old(typedefArraySize) ==>
                r.Number? && !isArray && Now() == old(Now()) && types == old(types)
      ensures IsLit(SizeOf(f, old(typedefArraySize))) && AllLits(f.args)
              && !RunsToZero(f.typeName, SizeOf(f, old(typedefArraySize))) ==>
                r.Number? && Here() == old(Here()) && var size := SizeOf(f, old(typedefArraySize));
                isArray == size.Some? && (isArray ==> r.value == ClampCount(size.value.value))
      decreases StepsLeft(), 5
    {
      bitfieldSlot := None;
      var arraySize := if f.arraySize.Some? then f.arraySize
                       else if f.typeName in typedefArraySize then Some(typedefArraySize[f.typeName]) else None;
      assert arraySize == SizeOf(f, typedefArraySize);
      isArray := arraySize.Some?;
      r := ElementCount(f.typeName, arraySize);
      if r.ValueError? {
        return;
      }
      var args := EvalOperands(f.args);
      if args.ValueError? {
        r := args;
      }
    }

    /** How many elements: none below zero; `[]` on a byte type runs up to the zero byte, or to the end. */
    method ElementCount(typeName: string, arraySize: Option<Expr>) returns (r: Value)
      requires Started(None) && AllowedMaybe(mode, arraySize)
      modifies this
      ensures Valid() && Kept(TheWorld(), old(Now()), Now(), r.Limited()) && Quiet(TheWorld(), old(Now()), Now())
      ensures r.Number? ==> r.value >= 0
      ensures arraySize.None? ==> r.Number? && unchanged(this)
      ensures IsLit(arraySize) && !RunsToZero(typeName, arraySize) ==> r.Number? && Here() == old(Here())
      ensures IsLit(arraySize) && arraySize.Some? && !RunsToZero(typeName, arraySize) ==>
                r.value == ClampCount(arraySize.value.value)
      decreases StepsLeft(), 4
    {
      r := EvalMaybe(arraySize);
      if r.ValueError? {
        return;
      }
      if r.value < 0 {
        r := Number(0);
      }
      if RunsToZero(typeName, arraySize) {
        if cursor > len {
          return ValueError(PastEnd);
        }
        var run: nat :| run <= len - cursor;
        r := Number(run);
      }
    }

    /** The read itself; one that starts behind the end is reported and leaves the cursor at the end. */
    method ReadField(typeName: string, count: Option<nat>, p: Option<nat>) returns (r: Outcome)
      requires Started(p)
      modifies this
      ensures Valid() && Kept(TheWorld(), old(Now()), Now(), r.Limited())
      ensures r.Done? ==> Covers(TheWorld(), old(Now()), Now(), p)
      ensures count.None? && old(AllCalls(typeName)) && old(steps) >= stepLimit ==>
                r.Done? && steps == old(steps) + old(VariantCount(typeName))
      ensures r.Failed? ==> !r.error.PastEnd?
      ensures Agrees(ReadMeans(Fix(), typeName, count, p, old(Here())), r, Here())
      decreases StepsLeft(), 10, 0
    {
      hide Segment, ArrayMeans, ScalarMeans;
      if count.Some? {
        r := ReadArray(typeName, count.value, p);
      } else {
        r := ReadScalar(typeName, p);
      }
      if r.Failed? && r.error.PastEnd? {
        diagnostics := diagnostics + 1;
        cursor := len;
        return Done(FlowNext);
      }
    }

    /** `local` and `const`: at most expressions are evaluated. */
    method DeclareLocal(f: FieldDecl, ghost p: Option<nat>) returns (r: Outcome)
      requires Started(p) && AllowedField(mode, f)
      modifies this
      ensures Valid() && Kept(TheWorld(), old(Now()), Now(), r.Limited())
      ensures r.Done? ==> Covers(TheWorld(), old(Now()), Now(), p)
      ensures f.isLocal ==> Agrees(FieldMeans(Fix(), f, p, old(Here())), r, Here())
      decreases StepsLeft(), 4
    {
      hide Segment;
      var arraySize := if f.arraySize.Some? then f.arraySize
                       else if f.typeName in typedefArraySize then Some(typedefArraySize[f.typeName]) else None;
      r := ExecExpr(arraySize, FlowNext, p);
      if r.Failed? {
        return;
      }
      ghost var s1 := Now();
      if f.init.Some? {
        r := ExecExpr(f.init, FlowNext, p);
      } else if * {
        r := ExecExpr(arraySize, FlowNext, p); // the size of a zero-filled string
      } else {
        return;
      }
      if r.Done? {
        CoversTwice(TheWorld(), old(Now()), s1, Now(), p);
      }
    }

    /** `read_bitfield`, but for the bits: a node over a storage word, newly opened or still open. */
    method ReadBitfield(p: Option<nat>) returns (r: Outcome)
      requires Started(p) && !mode.plain
      modifies this
      ensures Valid() && Kept(TheWorld(), old(Now()), Now(), r.Limited())
      ensures r.Done? ==> nodes != [] && nodes[..|nodes| - 1] == old(nodes)
      ensures r.Done? ==>
        var n := nodes[|nodes| - 1];
        n.kind == Scalar && n.parent == p
        && ((n.offset == old(cursor) && cursor == n.End() <= len && bitfieldSlot == Some(n.offset))
            || (cursor == old(cursor) && bitfieldSlot == old(bitfieldSlot) == Some(n.offset)))
    {
      if * {
        return Failed(OtherFailure); // not an integer type
      }
      var width: nat :| 1 <= width <= 8;
      var needsWord: bool := *;
      if bitfieldSlot.None? || needsWord {
        if cursor + width > len {
          return Failed(OutOfBounds(cursor, len));
        }
        bitfieldSlot := Some(cursor);
        cursor := cursor + width;
      }
      nodes := nodes + [Node(Scalar, bitfieldSlot.value, width, p)];
      r := Done(FlowNext);
    }

    /** Read `width` bytes and emit their node. */
    method ReadNode(width: nat, p: Option<nat>) returns (r: Outcome)
      requires Started(p)
      modifies `cursor, `nodes
      ensures Valid() && Kept(TheWorld(), old(Now()), Now(), r.Limited())
      ensures r.Done? ==> Covers(TheWorld(), old(Now()), Now(), p)
      ensures Agrees(BytesMean(Fix(), width, p, old(Here())), r, Here())
      ensures old(cursor) + width > len ==> r == Failed(OutOfBounds(old(cursor), len)) && Here() == old(Here())
    {
      hide Segment;
      if cursor + width > len {
        return Failed(OutOfBounds(cursor, len));
      }
      ghost var n := Node(Scalar, cursor, width, p);
      nodes := nodes + [Node(Scalar, cursor, width, p)];
      cursor := cursor + width;
      CoversNode(TheWorld(), old(Now()), Now(), n, p);
      r := Done(FlowNext);
    }

    /** `read_scalar`. */
    method ReadScalar(typeName: string, p: Option<nat>) returns (r: Outcome)
      requires Started(p)
      modifies this
      ensures Valid() && Kept(TheWorld(), old(Now()), Now(), r.Limited())
      ensures r.Done? ==> Covers(TheWorld(), old(Now()), Now(), p)
      ensures old(AllCalls(typeName)) && old(steps) >= stepLimit ==>
                r.Done? && steps == old(steps) + old(VariantCount(typeName))
      ensures Agrees(ScalarMeans(Fix(), typeName, p, old(Here())), r, Here())
      ensures StartsBehind(Fix(), typeName, old(Here())) ==> r == Failed(PastEnd) && Here() == old(Here())
      ensures !IsString(typeName) && ResolveType(old(types), typeName, 32).None? ==>
                r == Failed(OtherFailure) && Here() == old(Here())
      decreases StepsLeft(), 6
    {
      hide Segment, BytesMean, StructMeans;
      if IsString(typeName) {
        // up to the terminator, or to the end
        if cursor > len {
          return Failed(PastEnd);
        }
        var consumed: nat :| consumed <= len - cursor;
        r := ReadNode(consumed, p);
        return;
      }
      ResolvedIsAllowed(mode, types, typeName, 32);
      var t := ResolveType(types, typeName, 32);
      if t.None? {
        return Failed(OtherFailure);
      }
      match t.value
      {
        case Primitive(width, _) => r := ReadNode(width, p);
        case EnumType(backing, variants) => r := ReadEnum(backing, variants, p);
        case StructType(isUnion, body) => r := ReadStruct(isUnion, body, p);
      }
    }

    /** An enum field: the integer under it, then the variants up to the one that matches. */
    method ReadEnum(backing: Option<string>, variants: seq<Expr>, p: Option<nat>) returns (r: Outcome)
      requires Started(p) && forall v <- variants :: AllowedDiscarded(mode, v)
      modifies this
      ensures Valid() && Kept(TheWorld(), old(Now()), Now(), r.Limited())
      ensures r.Done? ==> Covers(TheWorld(), old(Now()), Now(), p)
      ensures (forall v <- variants :: BareCall(functions, v)) && backing.None? && old(cursor) + 4 <= len
              && old(steps) >= stepLimit ==>
                r.Done? && steps == old(steps) + |variants|
      ensures AllLits(variants) && (backing.Some? ==>
                ResolveType(old(types), backing.value, 32).Some?
                && ResolveType(old(types), backing.value, 32).value.Primitive?) ==>
                var width := if backing.Some? then ResolveType(old(types), backing.value, 32).value.width else 4;
                Agrees(BytesMean(Fix(), width, p, old(Here())), r, Here())
      ensures backing.Some? && (ResolveType(old(types), backing.value, 32).None?
                                || !ResolveType(old(types), backing.value, 32).value.Primitive?) ==>
                r == Failed(OtherFailure) && Here() == old(Here())
      decreases StepsLeft(), 5
    {
      hide Segment;
      var under := if backing.Some? then ResolveType(types, backing.value, 32) else Some(Primitive(4, false));
      if under.None? || !under.value.Primitive? {
        return Failed(OtherFailure);
      }
      var offset, width := cursor, under.value.width;
      if cursor + width > len {
        return Failed(OutOfBounds(cursor, len));
      }
      cursor := cursor + width;
      FindVariant(variants);
      nodes := nodes + [Node(Scalar, offset, width, p)];
      CoversNode(TheWorld(), old(Now()), Now(), Node(Scalar, offset, width, p), p);
      r := Done(FlowNext);
    }

    /** The variants up to the one that matches; one that fails does not. */
    method FindVariant(variants: seq<Expr>)
      requires Started(None) && forall v <- variants :: AllowedDiscarded(mode, v)
      modifies this
      ensures Valid() && Kept(TheWorld(), old(Now()), Now(), false) && Quiet(TheWorld(), old(Now()), Now())
      ensures (forall v <- variants :: BareCall(functions, v)) && old(steps) >= stepLimit ==>
                steps == old(steps) + |variants|
      ensures AllLits(variants) ==> Here() == old(Here())
      decreases StepsLeft(), 3
    {
      for i := 0 to |variants|
        invariant Started(None) && (AllLits(variants) ==> Here() == old(Here()))
        invariant Kept(TheWorld(), old(Now()), Now(), false) && Quiet(TheWorld(), old(Now()), Now())
        invariant (forall v <- variants :: BareCall(functions, v)) && old(steps) >= stepLimit ==> steps == old(steps) + i
      {
        var ok := EvalAndSwallow(variants[i]);
        if ok {
          if * {
            break;
          }
        }
      }
    }

    /** A structure's node, its body under it, and its length once the body is read. */
    method ReadStruct(isUnion: bool, body: seq<Stmt>, p: Option<nat>) returns (r: Outcome)
      requires Started(p) && AllowedBody(mode, body)
      modifies this
      ensures Valid() && Kept(TheWorld(), old(Now()), Now(), r.Limited())
      ensures r.Done? ==> Covers(TheWorld(), old(Now()), Now(), p)
      ensures Agrees(StructMeans(Fix(), isUnion, body, p, old(Here())), r, Here())
      decreases StepsLeft(), 4
    {
      hide Segment, RecordMeans, OverlayMeans;
      var offset, idx := cursor, |nodes|;
      ghost var n := Node(if isUnion then Overlay else Record, offset, 0, p);
      nodes := nodes + [Node(if isUnion then Overlay else Record, offset, 0, p)];
      if isUnion {
        r := ReadOverlay(body, idx);
      } else {
        r := ReadRecord(body, idx);
      }
    }

    /** The fields of a structure, one after the other; a flow out of a field's statement is ignored. */
    method ReadRecord(body: seq<Stmt>, idx: nat) returns (r: Outcome)
      requires Started(Some(idx)) && AllowedBody(mode, body)
      requires |nodes| == idx + 1 && nodes[idx].kind == Record && nodes[idx].length == 0
      requires nodes[idx].offset == cursor && Below(nodes[idx].parent, idx)
      modifies this
      ensures Valid() && Kept(TheWorld(), old(Now()), Now(), r.Limited())
      ensures r.Done? ==> Covers(TheWorld(), old(Now().(nodes := nodes[..idx])), Now(), old(nodes[idx].parent))
      ensures r.Done? ==> old(steps) + |body| <= steps
      ensures Agrees(Closed(idx, old(cursor), RecordMeans(Fix(), body, idx, old(Here()))), r, Here())
      decreases StepsLeft(), 3
    {
      hide Segment, RecordMeans, StmtMeans, Covers, Quiet, Kept;
      var offset := cursor;
      ghost var s0 := Now();
      Starts(TheWorld(), s0, Some(idx));
      ghost var meant := RecordMeans(Fix(), body, idx, Here());
      assert body[0..] == body;
      for i := 0 to |body|
        invariant meant.Ends? ==> RecordMeans(Fix(), body[i..], idx, Here()) == meant
        invariant Started(Some(idx)) && s0.steps + i <= steps
        invariant Kept(TheWorld(), s0, Now(), false) && Covers(TheWorld(), s0, Now(), Some(idx))
      {
        ghost var s1 := Now();
        RecordStep(Fix(), body, i, idx, Here());
        r := ExecStmt(body[i], Some(idx));
        KeptTwice(TheWorld(), s0, s1, Now(), r.Limited());
        if r.Failed? {
          return;
        }
        KeptReady(TheWorld(), s0, s1);
        KeptReady(TheWorld(), s1, Now());
        CoversTwice(TheWorld(), s0, s1, Now(), Some(idx));
      }
      assert body[|body|..] == [];
      RecordEnd(Fix(), idx, Here());
      KeptReady(TheWorld(), s0, Now());
      CloseRecord(idx, offset, s0);
      r := Done(FlowNext);
    }

    /** The length of a record is how far the cursor came, as a 64-bit difference. */
    method CloseRecord(idx: nat, offset: nat, ghost start: Snap)
      requires Valid() && Kept(TheWorld(), start, Now(), false) && Covers(TheWorld(), start, Now(), Some(idx))
      requires |start.nodes| == idx + 1 && start.nodes[idx].kind == Record && start.nodes[idx].length == 0
      requires start.nodes[idx].offset == offset == start.cursor && Below(start.nodes[idx].parent, idx)
      modifies `nodes
      ensures Valid() && Now() == old(Now()).(nodes := nodes) && |nodes| == |old(nodes)|
      ensures Kept(TheWorld(), start, Now(), false)
      ensures Covers(TheWorld(), start.(nodes := start.nodes[..idx]), Now(), start.nodes[idx].parent)
      ensures offset <= cursor ==> nodes == old(nodes)[idx := old(nodes)[idx].(length := cursor - offset)]
    {
      hide Segment;
      var length := if cursor >= offset then cursor - offset else (cursor - offset) % 0x1_0000_0000_0000_0000;
      ghost var inner := nodes;
      nodes := nodes[idx := nodes[idx].(length := length)];
      ClosesRecord(TheWorld(), start, inner, Now(), idx);
    }

    /** The fields of a union, each from its start; the cursor is left behind the farthest. */
    method ReadOverlay(body: seq<Stmt>, idx: nat) returns (r: Outcome)
      requires Started(Some(idx)) && AllowedBody(mode, body)
      requires |nodes| == idx + 1 && nodes[idx].kind == Overlay && nodes[idx].length == 0
      requires nodes[idx].offset == cursor && Below(nodes[idx].parent, idx)
      modifies this
      ensures Valid() && Kept(TheWorld(), old(Now()), Now(), r.Limited())
      ensures r.Done? ==> Covers(TheWorld(), old(Now().(nodes := nodes[..idx])), Now(), old(nodes[idx].parent))
      ensures r.Done? ==> old(steps) + |body| <= steps
      ensures Agrees(OverlayMeans(Fix(), body, idx, old(cursor), old(cursor), old(Here())), r, Here())
      decreases StepsLeft(), 3
    {
      hide Segment, OverlayMeans, StmtMeans, Covers, Quiet, Overlaid;
      var offset, maxEnd := cursor, cursor;
      ghost var s0 := Now();
      NothingOverlaid(nodes, idx, offset);
      ghost var meant := OverlayMeans(Fix(), body, idx, offset, offset, Here());
      assert body[0..] == body;
      for i := 0 to |body|
        invariant idx < |nodes| && offset <= maxEnd
        invariant meant.Ends? ==> OverlayMeans(Fix(), body[i..], idx, offset, maxEnd, Here()) == meant
        invariant Started(Some(idx)) && s0.steps + i <= steps && (mode.seekless ==> maxEnd <= len)
        invariant Kept(TheWorld(), s0, Now(), false)
        invariant mode.plain && diagnostics == s0.diagnostics ==> Overlaid(s0.nodes, nodes, idx, offset, maxEnd)
      {
        OverlayStep(Fix(), body, i, idx, offset, maxEnd, Here());
        cursor := offset;
        ghost var s1 := Now();
        r := ExecStmt(body[i], Some(idx));
        if r.Failed? {
          return;
        }
        OverlaidMore(TheWorld(), s0, s1, Now(), idx, offset, maxEnd);
        maxEnd := if maxEnd < cursor then cursor else maxEnd;
      }
      assert body[|body|..] == [];
      OverlayEnd(Fix(), idx, offset, maxEnd, Here());
      cursor := maxEnd;
      ghost var inner := nodes;
      nodes := nodes[idx := nodes[idx].(length := maxEnd - offset)];
      ClosesOverlay(TheWorld(), s0, inner, Now(), idx);
      r := Done(FlowNext);
    }

    /** `read_array`. */
    method ReadArray(typeName: string, count: nat, p: Option<nat>) returns (r: Outcome)
      requires Started(p)
      modifies this
      ensures Valid() && Kept(TheWorld(), old(Now()), Now(), r.Limited())
      ensures r.Done? ==> Covers(TheWorld(), old(Now()), Now(), p)
      ensures Agrees(ArrayMeans(Fix(), typeName, count, p, old(Here())), r, Here())
      ensures ResolveType(old(types), typeName, 32).None? ==> r == Failed(OtherFailure) && Here() == old(Here())
      decreases StepsLeft(), 9
    {
      hide Segment, BlobMeans, ElementsMean;
      var t := ResolveType(types, typeName, 32);
      if t.None? {
        return Failed(OtherFailure);
      }
      if t.value.Primitive? {
        r := ReadPrimitiveArray(count, t.value.width, t.value.isChar, p);
      } else {
        var idx := |nodes|;
        nodes := nodes + [Node(Record, cursor, 0, p)];
        r := ReadElements(typeName, t.value.StructType?, count, idx);
      }
    }

    /** One node for the whole array, cut short at the end of the source. */
    method ReadPrimitiveArray(count: nat, width: nat, isChar: bool, p: Option<nat>) returns (r: Outcome)
      requires Started(p)
      modifies `cursor, `nodes, `diagnostics
      ensures Valid() && Kept(TheWorld(), old(Now()), Now(), r.Limited())
      ensures r.Done? ==> Covers(TheWorld(), old(Now()), Now(), p)
      ensures Agrees(BlobMeans(Fix(), count * width, p, old(Here())), r, Here())
    {
      hide Segment;
      var offset, total := cursor, count * width;
      var avail := if cursor <= len then len - cursor else 0;
      if total > avail {
        diagnostics := diagnostics + 1;
        total := avail;
      }
      if * {
        // a short string is read, anything else only passed over
        if isChar && width == 1 && cursor + total > len {
          return Failed(OutOfBounds(cursor, len));
        }
      }
      cursor := offset + total;
      nodes := nodes + [Node(Scalar, offset, total, p)];
      CoversNode(TheWorld(), old(Now()), Now(), Node(Scalar, offset, total, p), p);
      r := Done(FlowNext);
    }

    /** The elements of an array of structures or enums under its node, with the stall guard. */
    method ReadElements(typeName: string, ofStructs: bool, count: nat, idx: nat) returns (r: Outcome)
      requires Started(Some(idx))
      requires |nodes| == idx + 1 && nodes[idx].kind == Record && nodes[idx].length == 0
      requires nodes[idx].offset == cursor && Below(nodes[idx].parent, idx)
      modifies this
      ensures Valid() && Kept(TheWorld(), old(Now()), Now(), r.Limited())
      ensures r.Done? ==> Covers(TheWorld(), old(Now().(nodes := nodes[..idx])), Now(), old(nodes[idx].parent))
      ensures Agrees(Closed(idx, old(cursor), ElementsOf(ofStructs, typeName, count, idx, old(Here()))), r, Here())
      decreases StepsLeft(), 8
    {
      hide Segment, ElementsMean, StructMeans, ResolveType, ElementsPending, Covers, Quiet, Kept;
      var offset, lastCursor, stalled := cursor, cursor, 0;
      ghost var s0, t := Now(), if ofStructs then ResolveType(types, typeName, 32) else None;
      ghost var meant := ElementsOf(ofStructs, typeName, count, idx, Here());
      assert ElementsPending(meant, Fix(), t, typeName, count, idx, Here(), 0) by {
        ElementsStart(meant, Fix(), t, typeName, count, idx, Here());
      }
      Starts(TheWorld(), s0, Some(idx));
      for i := 0 to count
        invariant Started(Some(idx))
        invariant Kept(TheWorld(), s0, Now(), false) && Covers(TheWorld(), s0, Now(), Some(idx))
        invariant stalled < LOOP_STALL_LIMIT && lastCursor == cursor
        invariant ElementsPending(meant, Fix(), t, typeName, count - i, idx, Here(), stalled)
        invariant mode.seekless ==> i <= 1_000 * (cursor - offset) + stalled
      {
        ghost var s1, h1, stalls := Now(), Here(), stalled;
        KeptReady(TheWorld(), s0, s1);
        r := ReadElement(typeName, ofStructs, idx);
        ElementRead(meant, Fix(), t, typeName, count - i, idx, h1, stalled, r, Here());
        KeptTwice(TheWorld(), s0, s1, Now(), r.Limited());
        if r.Failed? {
          return;
        }
        KeptReady(TheWorld(), s1, Now());
        CoversTwice(TheWorld(), s0, s1, Now(), Some(idx));
        MovedOn(TheWorld(), s1, Now());
        if cursor == lastCursor {
          stalled := stalled + 1;
          if stalled >= LOOP_STALL_LIMIT {
            return Failed(OtherFailure);
          }
        } else {
          stalled := 0;
          lastCursor := cursor;
        }
        AnotherRound(TheWorld(), offset, s1, Now(), i, stalls, stalled);
        CountRound(s0, i + 1, Some(idx));
      }
      ElementsRead(meant, Fix(), t, typeName, idx, Here(), stalled);
      KeptReady(TheWorld(), s0, Now());
      CloseRecord(idx, offset, s0);
      r := Done(FlowNext);
    }

    method ReadElement(typeName: string, ofStructs: bool, idx: nat) returns (r: Outcome)
      requires Started(Some(idx))
      modifies this
      ensures Valid() && Kept(TheWorld(), old(Now()), Now(), r.Limited())
      ensures r.Done? ==> Covers(TheWorld(), old(Now()), Now(), Some(idx))
      ensures ofStructs ==> var t := ResolveType(old(types), typeName, 32); t.Some? && t.value.StructType? ==>
                Agrees(StructMeans(Fix(), t.value.isUnion, t.value.body, Some(idx), old(Here())), r, Here())
      decreases StepsLeft(), 7
    {
      hide StructMeans, ScalarMeans;
      if !ofStructs {
        r := ReadScalar(typeName, Some(idx));
        return;
      }
      ResolvedIsAllowed(mode, types, typeName, 32);
      var t := ResolveType(types, typeName, 32);
      if t.None? || !t.value.StructType? {
        return Failed(OtherFailure);
      }
      r := ReadStruct(t.value.isUnion, t.value.body, Some(idx));
    }

    /** The elements of an array of structures. */
    ghost function ElementsOf(ofStructs: bool, typeName: string, count: nat, idx: nat, at: Point): Exact {
      var t := ResolveType(at.types, typeName, 32);
      if ofStructs && t.Some? && t.value.StructType?
      then ElementsMean(Fix(), t.value.isUnion, t.value.body, typeName, count, idx, at, 0)
      else Open
    }

    // --------------------------------------------------------- whole runs

    /** `run`: the top-level statements up to a `return` or a failure, which is reported. */
    method Run(program: seq<Stmt>) returns (terminal: Option<Failure>)
      requires Started(None) && AllowedBody(mode, program)
      requires cursor == 0 && nodes == [] && steps == 0 && diagnostics == 0 && swallowed == 0
      modifies this
      ensures Excess(TheWorld(), Now()) == swallowed + (if terminal == Some(OverLimit) then 1 else 0)
      ensures mode.firm || mode.plain ==> steps <= stepLimit + 1
      ensures Overrunning(program) && stepLimit == 2 && 4 <= len && old(typedefArraySize) == map[] ==>
                steps == 2 + |program[0].variants|
      ensures mode.seekless ==> cursor <= len && longestLoop < 1_000 * (len + 1)
      ensures terminal.Some? ==> diagnostics > 0
      ensures mode.plain && diagnostics == 0 ==> Forest(nodes, cursor)
      ensures var e := ProgramMeans(Fix(), program, old(Here())); e.Ends? ==> terminal == None && Here() == e.at
    {
      hide Segment, ProgramMeans, StmtMeans, Covers, Quiet;
      Starts(TheWorld(), Now(), None);
      ghost var meant := ProgramMeans(Fix(), program, Here());
      assert program[0..] == program;
      for i := 0 to |program|
        invariant meant.Ends? ==> ProgramMeans(Fix(), program[i..], Here()) == meant
        invariant Started(None)
        invariant Kept(TheWorld(), old(Now()), Now(), false) && Covers(TheWorld(), old(Now()), Now(), None)
        invariant i == 0 ==> Now() == old(Now()) && typedefArraySize == old(typedefArraySize)
        invariant Overrunning(program) && stepLimit == 2 && 4 <= len && old(typedefArraySize) == map[] ==>
                    if i == 1 then
                      steps == 1 && cursor == 0 && typedefArraySize == map[]
                      && program[0].name in types
                      && types[program[0].name] == EnumType(None, program[0].variants)
                    else i == 2 ==> steps == 2 + |program[0].variants|
      {
        ghost var s1 := Now();
        ProgramStep(Fix(), program, i, Here());
        var r := ExecStmt(program[i], None);
        if r.Failed? {
          diagnostics := diagnostics + 1;
          return Some(r.error);
        }
        CoversTwice(TheWorld(), old(Now()), s1, Now(), None);
        if r.flow == FlowReturn {
          break;
        }
      }
      CoversAll(TheWorld(), old(Now()), Now());
      assert program[|program|..] == [];
      ProgramEnd(Fix(), Here());
      terminal := None;
    }

    /** An enum all of whose variants are calls, and a field of it. */
    ghost predicate Overrunning(program: seq<Stmt>) {
      |program| == 2 && program[0].TypedefEnum? && program[0].backing.None? && !IsString(program[0].name)
      && (forall v <- program[0].variants :: BareCall(functions, v))
      && program[1].FieldStmt? && PlainField(program[1].field) && program[1].field.typeName == program[0].name
    }
  }

  /** A jump that evaluates nothing. */
  predicate IsJump(stmt: Stmt) {
    stmt.Break? || stmt.Continue? || stmt == Return(None)
  }

  /** The meaning, where there is one, is what happened. */
  ghost predicate Agrees(e: Exact, r: Outcome, at: Point) {
    e.Ends? ==> r == Done(e.flow) && at == e.at
  }

  ghost predicate TurnAgrees(e: Turn, r: Outcome, again: bool, at: Point, stalls: nat) {
    match e
    case GoesOn(meant, count) => again && at == meant && stalls == count
    case Stops(flow, meant) => !again && r == Done(flow) && at == meant
    case Unknown => true
  }

  /** What a loop was meant to do: it is still to be done from `at` on, or it is what happened. */
  ghost predicate Pending(meant: Exact, w: Fixed, again: bool, first: bool, test: Option<Expr>, step: Option<Expr>,
                          body: Stmt, p: Option<nat>, at: Point, stalls: nat, r: Outcome)
  {
    if again then meant.Open? || meant == LoopMeans(w, first, test, step, body, p, at, stalls) else Agrees(meant, r, at)
  }

  lemma PendingEnds(meant: Exact, w: Fixed, first: bool, test: Option<Expr>, step: Option<Expr>, body: Stmt,
                    p: Option<nat>, at: Point, stalls: nat, r: Outcome)
    requires Pending(meant, w, false, first, test, step, body, p, at, stalls, r)
    ensures Agrees(meant, r, at)
  {
  }

  lemma PendingStarts(w: Fixed, first: bool, test: Option<Expr>, step: Option<Expr>, body: Stmt, p: Option<nat>,
                      at: Point, r: Outcome)
    ensures Pending(LoopMeans(w, first, test, step, body, p, at, 0), w, true, first, test, step, body, p, at, 0, r)
  {
    hide LoopMeans;
  }

  lemma PendingTurn(meant: Exact, w: Fixed, first: bool, test: Option<Expr>, step: Option<Expr>, body: Stmt,
                    p: Option<nat>, s: Point, stalls: nat, before: Outcome, r: Outcome, again: bool, at: Point,
                    count: nat)
    requires Pending(meant, w, true, first, test, step, body, p, s, stalls, before)
    requires TurnAgrees(RoundMeans(w, if first then None else test, step, body, p, s, stalls), r, again, at, count)
    ensures Pending(meant, w, again, false, test, step, body, p, at, count, r)
  {
    hide RoundMeans;
    LoopStep(w, first, test, step, body, p, s, stalls);
  }

  /** What the elements of an array were meant to be is still to be read from `at` on, if their type is known. */
  ghost predicate ElementsPending(meant: Exact, w: Fixed, t: Option<TypeDef>, typeName: string, count: nat, idx: nat,
                                  at: Point, stalls: nat)
  {
    meant.Open?
    || (t.Some? && t.value.StructType?
        && meant == ElementsMean(w, t.value.isUnion, t.value.body, typeName, count, idx, at, stalls))
  }

  lemma ElementsStart(meant: Exact, w: Fixed, t: Option<TypeDef>, typeName: string, count: nat, idx: nat, at: Point)
    requires t.Some? && t.value.StructType? ==>
               meant == ElementsMean(w, t.value.isUnion, t.value.body, typeName, count, idx, at, 0)
    requires (t.Some? && t.value.StructType?) || meant.Open?
    ensures ElementsPending(meant, w, t, typeName, count, idx, at, 0)
  {
    hide ElementsMean;
  }

  /** What one element does to that. */
  lemma ElementRead(meant: Exact, w: Fixed, t: Option<TypeDef>, typeName: string, count: nat, idx: nat, s: Point,
                    stalls: nat, r: Outcome, at: Point)
    requires count > 0 && ElementsPending(meant, w, t, typeName, count, idx, s, stalls)
    requires t.Some? && t.value.StructType? && ResolveType(s.types, typeName, 32) == t ==>
               Agrees(StructMeans(w, t.value.isUnion, t.value.body, Some(idx), s), r, at)
    ensures r.Failed? ==> meant.Open?
    ensures var stalled := if at.cursor == s.cursor then stalls + 1 else 0;
      (stalled >= 1_000 ==> meant.Open?)
      && ElementsPending(meant, w, t, typeName, count - 1, idx, at, stalled)
  {
    hide ElementsMean, StructMeans, ResolveType;
    if meant.Ends? {
      ElementsStep(w, t.value.isUnion, t.value.body, typeName, count, idx, s, stalls);
    }
  }

  lemma ElementsRead(meant: Exact, w: Fixed, t: Option<TypeDef>, typeName: string, idx: nat, at: Point, stalls: nat)
    requires ElementsPending(meant, w, t, typeName, 0, idx, at, stalls)
    ensures meant.Open? || meant == Ends(FlowNext, at)
  {
    hide ElementsMean;
    if meant.Ends? {
      ElementsEnd(w, t.value.isUnion, t.value.body, typeName, idx, at, stalls);
    }
  }

  ghost predicate CallAgrees(e: Exact, r: Value, at: Point) {
    e.Ends? ==> r.Number? && at == e.at
  }

  /** A field read once, without arguments. */
  predicate PlainField(f: FieldDecl) {
    !f.isLocal && f.arraySize.None? && f.args == [] && f.bitWidth.None?
  }

  /**
   The step limit does not bound the statement entries of templates that are not firm: a template with a limit
   of two, and as many entries behind the limit as wanted.
   */
  method EntriesBehindTheLimit(k: nat) returns (entries: nat)
    ensures entries == 2 + k
  {
    var functions := map["f" := Function(0, [Break])];
    var run := new Interpreter(4, 2, functions, map[], Mode(true, false, false, functions));
    var variants := seq(k, _ => Call("f", 0, []));
    var program := [TypedefEnum("Tag", None, variants), FieldStmt(FieldDecl(false, "Tag", None, [], None, None))];
    assert run.Overrunning(program);
    var _ := run.Run(program);
    entries := run.steps;
  }

  ghost predicate Overlaid(before: seq<Node>, after: seq<Node>, idx: nat, start: nat, end: nat) {
    Grown(before, after, Some(idx)) && Within(after, |before|, Some(idx), start, end)
  }

  lemma NothingOverlaid(nodes: seq<Node>, idx: nat, at: nat)
    ensures Overlaid(nodes, nodes, idx, at, at)
  {
    NothingAdded(nodes, Some(idx), at);
  }

  /** One more field of a union. */
  lemma OverlaidMore(w: World, s0: Snap, s1: Snap, b: Snap, idx: nat, offset: nat, maxEnd: nat)
    requires |s0.nodes| == idx + 1 <= |s1.nodes| && s1.cursor == offset <= maxEnd
    requires s0.diagnostics <= s1.diagnostics <= b.diagnostics && Covers(w, s1, b, Some(idx))
    requires w.mode.plain && s1.diagnostics == s0.diagnostics ==> Overlaid(s0.nodes, s1.nodes, idx, offset, maxEnd)
    ensures w.mode.plain && b.diagnostics == s0.diagnostics ==>
      Overlaid(s0.nodes, b.nodes, idx, offset, if maxEnd < b.cursor then b.cursor else maxEnd)
  {
    if w.mode.plain && b.diagnostics == s0.diagnostics {
      hide Segment;
      OverlayGrows(s0.nodes, s1.nodes, b.nodes, Some(idx), offset, maxEnd, b.cursor);
    }
  }

  /** Closing a union that encloses its fields makes it one node under its own parent. */
  lemma ClosesOverlay(w: World, s0: Snap, inner: seq<Node>, b: Snap, idx: nat)
    requires |s0.nodes| == idx + 1 && s0.nodes[idx].kind == Overlay && s0.nodes[idx].length == 0
    requires s0.nodes[idx].offset == s0.cursor <= b.cursor && Below(s0.nodes[idx].parent, idx)
    requires idx < |inner| && b.nodes == inner[idx := inner[idx].(length := b.cursor - s0.cursor)]
    requires w.mode.plain && b.diagnostics == s0.diagnostics ==> Overlaid(s0.nodes, inner, idx, s0.cursor, b.cursor)
    ensures Covers(w, s0.(nodes := s0.nodes[..idx]), b, s0.nodes[idx].parent)
  {
    if w.mode.plain && b.diagnostics == s0.diagnostics {
      hide Segment;
      assert s0.nodes == s0.nodes[..idx] + [s0.nodes[idx]];
      OverlayCloses(s0.nodes[..idx], s0.nodes[idx], inner, b.cursor);
    }
  }
}
