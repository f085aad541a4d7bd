/**
 What a template means, said without the interpreter: which statements jumps leave out, where the fields of
 structures, unions and arrays lie, what a `switch` falls through (crates/hxy-010-lang/src/interp.rs).
 */
module TemplateLaws {
  import opened Splices
  import opened NodeForest
  import opened TemplateSyntax
  import opened TemplateMeaning

  /** So many statements can be entered: the limit is not reached, and the clock is not looked at. */
  predicate Room(w: Fixed, s: Point, k: nat) {
    s.steps + k <= w.stepLimit && s.steps % 1024 + k < 1024
  }

  lemma Entered(w: Fixed, stmt: Stmt, p: Option<nat>, s: Point, k: nat)
    requires k > 0 && Room(w, s, k)
    ensures StmtMeans(w, stmt, p, s) == EnteredMeans(w, stmt, p, s.(steps := s.steps + 1))
    ensures Room(w, s.(steps := s.steps + 1), k - 1)
  {
    hide EnteredMeans;
    assert (s.steps + 1) % 1024 == s.steps % 1024 + 1;
  }

  // ------------------------------------------------------------- jumps

  /** `break`, `continue` and `return` are one step each, and nothing else changes. */
  lemma JumpsAreSteps(w: Fixed, p: Option<nat>, s: Point)
    requires Room(w, s, 1)
    ensures StmtMeans(w, Break, p, s) == Ends(FlowBreak, s.(steps := s.steps + 1))
    ensures StmtMeans(w, Continue, p, s) == Ends(FlowContinue, s.(steps := s.steps + 1))
    ensures StmtMeans(w, Return(None), p, s) == Ends(FlowReturn, s.(steps := s.steps + 1))
  {
    Entered(w, Break, p, s, 1);
    Entered(w, Continue, p, s, 1);
    Entered(w, Return(None), p, s, 1);
  }

  /** A statement that never just goes on. */
  predicate Jumps(stmt: Stmt) {
    match stmt
    case Break => true
    case Continue => true
    case Return(_) => true
    case Block(stmts) => exists t :: t in stmts && Jumps(t)
    case If(_, thenBranch, elseBranch) => elseBranch.Some? && Jumps(thenBranch) && Jumps(elseBranch.value)
    case _ => false
  }

  lemma {:induction false} JumpsDoNotGoOn(w: Fixed, stmt: Stmt, p: Option<nat>, s: Point)
    requires Jumps(stmt)
    ensures var e := StmtMeans(w, stmt, p, s); e.Ends? ==> e.flow != FlowNext
    decreases stmt, 0
  {
    hide BlockMeans;
    if s.steps < w.stepLimit && (s.steps + 1) % 1024 != 0 {
      var s1 := s.(steps := s.steps + 1);
      match stmt
      case Block(stmts) =>
        var t :| t in stmts && Jumps(t);
        var i :| 0 <= i < |stmts| && stmts[i] == t;
        BlockJumps(w, stmts, i, p, s1);
      case If(_, thenBranch, elseBranch) =>
        JumpsDoNotGoOn(w, thenBranch, p, s1);
        JumpsDoNotGoOn(w, elseBranch.value, p, s1);
      case _ =>
    }
  }

  lemma {:induction false} BlockJumps(w: Fixed, stmts: seq<Stmt>, i: nat, p: Option<nat>, s: Point)
    requires i < |stmts| && Jumps(stmts[i])
    ensures var e := BlockMeans(w, stmts, p, s); e.Ends? ==> e.flow != FlowNext
    decreases stmts, i
  {
    hide StmtMeans;
    if i == 0 {
      JumpsDoNotGoOn(w, stmts[0], p, s);
    } else {
      var first := StmtMeans(w, stmts[0], p, s);
      if first.Ends? {
        BlockJumps(w, stmts[1..], i - 1, p, first.at);
      }
    }
  }

  /** What stands behind a jump in a block is not run. */
  lemma {:induction false} BehindAJump(w: Fixed, before: seq<Stmt>, jump: Stmt, behind: seq<Stmt>, p: Option<nat>,
                                       s: Point)
    requires Jumps(jump)
    ensures BlockMeans(w, before + [jump] + behind, p, s) == BlockMeans(w, before + [jump], p, s)
    decreases |before|
  {
    hide StmtMeans;
    var long, short := before + [jump] + behind, before + [jump];
    if before == [] {
      JumpsDoNotGoOn(w, jump, p, s);
      assert long[0] == jump == short[0];
    } else {
      var first := StmtMeans(w, before[0], p, s);
      assert long[1..] == before[1..] + [jump] + behind && short[1..] == before[1..] + [jump];
      assert long[0] == before[0] == short[0];
      if first.Ends? {
        BehindAJump(w, before[1..], jump, behind, p, first.at);
      }
    }
  }

  /** Nor what stands behind a `return` or a `break` in a function; a `continue` there goes on. */
  lemma {:induction false} BehindAReturn(w: Fixed, before: seq<Stmt>, jump: Stmt, behind: seq<Stmt>, s: Point)
    requires jump.Return? || jump.Break?
    ensures CallMeans(w, before + [jump] + behind, s) == CallMeans(w, before + [jump], s)
    decreases |before|
  {
    hide StmtMeans;
    var long, short := before + [jump] + behind, before + [jump];
    if before == [] {
      assert long[0] == jump == short[0];
      ReturnsOrBreaks(w, jump, s);
    } else {
      var first := StmtMeans(w, before[0], None, s);
      assert long[1..] == before[1..] + [jump] + behind && short[1..] == before[1..] + [jump];
      assert long[0] == before[0] == short[0];
      if first.Ends? {
        BehindAReturn(w, before[1..], jump, behind, first.at);
      }
    }
  }

  lemma ReturnsOrBreaks(w: Fixed, jump: Stmt, s: Point)
    requires jump.Return? || jump.Break?
    ensures var e := StmtMeans(w, jump, None, s); e.Ends? ==> e.flow == if jump.Return? then FlowReturn else FlowBreak
  {
    hide CallMeans;
  }

  lemma ContinueInAFunction(w: Fixed, behind: seq<Stmt>, s: Point)
    requires Room(w, s, 1)
    ensures CallMeans(w, [Continue] + behind, s) == CallMeans(w, behind, s.(steps := s.steps + 1))
  {
    hide StmtMeans;
    JumpsAreSteps(w, None, s);
    assert ([Continue] + behind)[1..] == behind;
  }

  /** A template ends at a `return`; a `break` or a `continue` at its top goes on. */
  lemma TopLevelJumps(w: Fixed, behind: seq<Stmt>, s: Point)
    requires Room(w, s, 1)
    ensures ProgramMeans(w, [Return(None)] + behind, s) == Ends(FlowReturn, s.(steps := s.steps + 1))
    ensures ProgramMeans(w, [Break] + behind, s) == ProgramMeans(w, behind, s.(steps := s.steps + 1))
    ensures ProgramMeans(w, [Continue] + behind, s) == ProgramMeans(w, behind, s.(steps := s.steps + 1))
  {
    hide StmtMeans;
    JumpsAreSteps(w, None, s);
    assert ([Return(None)] + behind)[0] == Return(None);
    assert ([Break] + behind)[1..] == behind && ([Continue] + behind)[1..] == behind;
  }

  // ----------------------------------------------------------- fields

  /** Declarations of one field each. */
  function Fields(names: seq<string>): (stmts: seq<Stmt>)
    ensures |stmts| == |names|
  {
    if names == [] then []
    else [FieldStmt(FieldDecl(false, names[0], None, [], None, None))] + Fields(names[1..])
  }

  /** A built-in type of so many bytes, with no size of its own. */
  predicate IsBytes(s: Point, name: string, width: nat) {
    !IsString(name) && name !in s.sizes
    && ResolveType(s.types, name, 32).Some? && ResolveType(s.types, name, 32).value.Primitive?
    && ResolveType(s.types, name, 32).value.width == width
  }

  predicate AreBytes(s: Point, names: seq<string>, widths: seq<nat>) {
    |names| == |widths| && forall i :: 0 <= i < |names| ==> IsBytes(s, names[i], widths[i])
  }

  function Sum(widths: seq<nat>): nat {
    if widths == [] then 0 else widths[0] + Sum(widths[1..])
  }

  /** Nodes end to end. */
  function Laid(widths: seq<nat>, at: nat, p: Option<nat>): (nodes: seq<Node>)
    ensures |nodes| == |widths|
  {
    if widths == [] then [] else [Node(Scalar, at, widths[0], p)] + Laid(widths[1..], at + widths[0], p)
  }

  /** The state when such fields have been read. */
  function Behind(s: Point, widths: seq<nat>, p: Option<nat>): Point {
    s.(cursor := s.cursor + Sum(widths), nodes := s.nodes + Laid(widths, s.cursor, p), steps := s.steps + |widths|)
  }

  lemma FieldIsANode(w: Fixed, name: string, width: nat, p: Option<nat>, s: Point, k: nat)
    requires IsBytes(s, name, width) && s.cursor + width <= w.len && k > 0 && Room(w, s, k)
    ensures (StmtMeans(w, FieldStmt(FieldDecl(false, name, None, [], None, None)), p, s)
             == Ends(FlowNext, s.(cursor := s.cursor + width, nodes := s.nodes + [Node(Scalar, s.cursor, width, p)],
                                  steps := s.steps + 1)))
    ensures Room(w, s.(steps := s.steps + 1), k - 1)
  {
    hide ResolveType, IsString;
    var f, s1 := FieldDecl(false, name, None, [], None, None), s.(steps := s.steps + 1);
    Entered(w, FieldStmt(f), p, s, k);
    assert FieldMeans(w, f, p, s1) == ReadMeans(w, name, None, p, s1);
    assert ReadMeans(w, name, None, p, s1) == ScalarMeans(w, name, p, s1);
    assert ScalarMeans(w, name, p, s1) == BytesMean(w, width, p, s1);
  }

  lemma BehindFirst(s: Point, widths: seq<nat>, p: Option<nat>)
    requires widths != []
    ensures var s1 := s.(cursor := s.cursor + widths[0], nodes := s.nodes + [Node(Scalar, s.cursor, widths[0], p)],
                         steps := s.steps + 1);
      Behind(s1, widths[1..], p) == Behind(s, widths, p)
  {
  }

  /** Fields in a row are nodes end to end, and the block goes on behind them. */
  lemma {:induction false} FieldsAreLaid(
      w: Fixed, names: seq<string>, widths: seq<nat>, rest: seq<Stmt>, p: Option<nat>, s: Point, k: nat)
    requires AreBytes(s, names, widths) && s.cursor + Sum(widths) <= w.len && Room(w, s, |names| + k)
    ensures BlockMeans(w, Fields(names) + rest, p, s) == BlockMeans(w, rest, p, Behind(s, widths, p))
    ensures Room(w, Behind(s, widths, p), k)
    decreases |names|
  {
    hide StmtMeans, IsBytes, Behind;
    if names == [] {
      assert Fields(names) + rest == rest;
      assert Behind(s, widths, p) == s by {
        BehindNone(s, p);
      }
    } else {
      var stmts := Fields(names) + rest;
      FieldIsANode(w, names[0], widths[0], p, s, |names| + k);
      var s1 := StmtMeans(w, stmts[0], p, s).at;
      assert stmts[1..] == Fields(names[1..]) + rest;
      SameTypes(s, s1, names, widths);
      BehindFirst(s, widths, p);
      FieldsAreLaid(w, names[1..], widths[1..], rest, p, s1, k);
    }
  }

  lemma BehindNone(s: Point, p: Option<nat>)
    ensures Behind(s, [], p) == s
  {
  }

  lemma SameTypes(s: Point, t: Point, names: seq<string>, widths: seq<nat>)
    requires AreBytes(s, names, widths) && t.types == s.types && t.sizes == s.sizes && names != []
    ensures AreBytes(t, names[1..], widths[1..])
  {
    hide ResolveType, IsString;
  }

  // ------------------------------------------------------------- loops

  /** The three loops over a body, tests that let it run, and any literal step. */
  predicate IsLoopOver(loop: Stmt, body: Stmt) {
    match loop
    case While(test, b) => b == body && test.Lit? && test.value != 0
    case DoWhile(b, test) => b == body && test.Lit?
    case For(init, test, step, b) =>
      b == body && init.None? && IsLit(test) && (test.Some? ==> test.value.value != 0) && IsLit(step)
    case _ => false
  }

  lemma FirstRound(w: Fixed, loop: Stmt, body: Stmt, p: Option<nat>, s: Point, k: nat)
    requires IsLoopOver(loop, body) && k > 0 && Room(w, s, k)
    requires var round := StmtMeans(w, body, p, s.(steps := s.steps + 1));
      round.Ends? && (round.flow == FlowBreak || round.flow == FlowReturn)
    ensures var round := StmtMeans(w, body, p, s.(steps := s.steps + 1));
      StmtMeans(w, loop, p, s) == Ends(if round.flow == FlowBreak then FlowNext else FlowReturn, round.at)
  {
    Entered(w, loop, p, s, k);
    hide StmtMeans;
    var s1 := s.(steps := s.steps + 1);
    var first, test, step := loop.DoWhile?,
      if loop.For? then loop.test else Some(loop.cond), if loop.For? then loop.step else None;
    assert EnteredMeans(w, loop, p, s1) == LoopMeans(w, first, test, step, body, p, s1, 0);
    LoopStep(w, first, test, step, body, p, s1, 0);
    RoundStep(w, if first then None else test, step, body, p, s1, 0);
    TurnStep(w, step, body, p, s1, 0);
  }

  lemma BlockThenJump(w: Fixed, names: seq<string>, widths: seq<nat>, jump: Stmt, behind: seq<Stmt>, p: Option<nat>,
                      s: Point)
    requires AreBytes(s, names, widths) && s.cursor + Sum(widths) <= w.len && Room(w, s, |names| + 2)
    requires jump == Break || jump == Continue || jump == Return(None)
    ensures var body := Block(Fields(names) + ([jump] + behind));
      (StmtMeans(w, body, p, s)
       == Ends(if jump == Break then FlowBreak else if jump == Continue then FlowContinue else FlowReturn,
               Behind(s.(steps := s.steps + 2), widths, p)))
  {
    hide BlockMeans, IsBytes, Behind;
    var body := Block(Fields(names) + ([jump] + behind));
    Entered(w, body, p, s, |names| + 2);
    var s1 := s.(steps := s.steps + 1);
    assert AreBytes(s1, names, widths) by {
      SameState(s, s1, names, widths);
    }
    hide StmtMeans;
    FieldsAreLaid(w, names, widths, [jump] + behind, p, s1, 1);
    var s2 := Behind(s1, widths, p);
    JumpsAreSteps(w, p, s2);
    OneJump(w, jump, behind, p, s2);
    StepBehind(s, widths, p);
  }

  lemma SameState(s: Point, t: Point, names: seq<string>, widths: seq<nat>)
    requires AreBytes(s, names, widths) && t.types == s.types && t.sizes == s.sizes
    ensures AreBytes(t, names, widths)
  {
    hide ResolveType, IsString;
  }

  lemma OneJump(w: Fixed, jump: Stmt, behind: seq<Stmt>, p: Option<nat>, s: Point)
    requires var e := StmtMeans(w, jump, p, s); e.Ends? && e.flow != FlowNext
    ensures BlockMeans(w, [jump] + behind, p, s) == StmtMeans(w, jump, p, s)
  {
    hide StmtMeans;
  }

  lemma StepBehind(s: Point, widths: seq<nat>, p: Option<nat>)
    ensures (Behind(s.(steps := s.steps + 1), widths, p).(steps := Behind(s.(steps := s.steps + 1), widths, p).steps + 1)
             == Behind(s.(steps := s.steps + 2), widths, p))
  {
  }

  lemma ThreeMore(s: Point, widths: seq<nat>, p: Option<nat>)
    ensures (Behind(s.(steps := s.steps + 1).(steps := s.steps + 1 + 2), widths, p)
             == s.(cursor := s.cursor + Sum(widths), nodes := s.nodes + Laid(widths, s.cursor, p),
                   steps := s.steps + |widths| + 3))
  {
  }

  /** The body of a loop, one step into the loop. */
  lemma BodyThenJump(w: Fixed, names: seq<string>, widths: seq<nat>, jump: Stmt, behind: seq<Stmt>, p: Option<nat>,
                     s: Point)
    requires AreBytes(s, names, widths) && s.cursor + Sum(widths) <= w.len && Room(w, s, |names| + 3)
    requires jump == Break || jump == Continue || jump == Return(None)
    ensures (StmtMeans(w, Block(Fields(names) + ([jump] + behind)), p, s.(steps := s.steps + 1))
             == Ends(if jump == Break then FlowBreak else if jump == Continue then FlowContinue else FlowReturn,
                     s.(cursor := s.cursor + Sum(widths), nodes := s.nodes + Laid(widths, s.cursor, p),
                        steps := s.steps + |names| + 3)))
  {
    hide StmtMeans, IsBytes, Behind, Sum, Laid, Fields;
    ThreeMore(s, widths, p);
    var s1 := s.(steps := s.steps + 1);
    SameState(s, s1, names, widths);
    assert Room(w, s1, |names| + 2) by {
      assert s1.steps % 1024 == s.steps % 1024 + 1;
    }
    BlockThenJump(w, names, widths, jump, behind, p, s1);
  }

  /**
   A loop whose body reads some fields and then breaks, whatever stands behind, reads them once: so many nodes, the
   cursor behind them, and an entry for the loop, its body, each field and the `break`. So does one that returns, and
   the `return` goes on.
   */
  lemma BreakingLoopRunsOnce(w: Fixed, loop: Stmt, names: seq<string>, widths: seq<nat>, jump: Stmt, behind: seq<Stmt>,
                             p: Option<nat>, s: Point)
    requires AreBytes(s, names, widths) && s.cursor + Sum(widths) <= w.len && Room(w, s, |names| + 3)
    requires jump == Break || jump == Return(None)
    requires IsLoopOver(loop, Block(Fields(names) + ([jump] + behind)))
    ensures (StmtMeans(w, loop, p, s)
             == Ends(if jump == Break then FlowNext else FlowReturn,
                     s.(cursor := s.cursor + Sum(widths), nodes := s.nodes + Laid(widths, s.cursor, p),
                        steps := s.steps + |names| + 3)))
  {
    hide StmtMeans, AreBytes, IsLoopOver, Sum, Laid, Fields;
    BodyThenJump(w, names, widths, jump, behind, p, s);
    FirstRound(w, loop, Block(Fields(names) + ([jump] + behind)), p, s, |names| + 3);
  }

  /** A `do` loop until zero runs once too when its body continues: the test is looked at. */
  lemma ContinueLooksAtTheTest(w: Fixed, names: seq<string>, widths: seq<nat>, behind: seq<Stmt>, p: Option<nat>,
                               s: Point)
    requires AreBytes(s, names, widths) && s.cursor + Sum(widths) <= w.len && Room(w, s, |names| + 3)
    ensures (StmtMeans(w, DoWhile(Block(Fields(names) + ([Continue] + behind)), Lit(0)), p, s)
             == Ends(FlowNext, s.(cursor := s.cursor + Sum(widths), nodes := s.nodes + Laid(widths, s.cursor, p),
                                  steps := s.steps + |names| + 3)))
  {
    hide StmtMeans, EnteredMeans, AreBytes, Sum, Laid, Fields;
    var body := Block(Fields(names) + ([Continue] + behind));
    BodyThenJump(w, names, widths, Continue, behind, p, s);
    Entered(w, DoWhile(body, Lit(0)), p, s, |names| + 3);
    RoundThenTest(w, body, p, s.(steps := s.steps + 1));
  }

  lemma RoundThenTest(w: Fixed, body: Stmt, p: Option<nat>, s: Point)
    requires var round := StmtMeans(w, body, p, s); round.Ends? && round.flow == FlowContinue
    ensures EnteredMeans(w, DoWhile(body, Lit(0)), p, s) == Ends(FlowNext, StmtMeans(w, body, p, s).at)
  {
    hide StmtMeans, LoopMeans, RoundMeans, TurnMeans;
    var at := StmtMeans(w, body, p, s).at;
    var stalls := if at.cursor == s.cursor then 1 else 0;
    LoopStep(w, true, Some(Lit(0)), None, body, p, s, 0);
    RoundStep(w, None, None, body, p, s, 0);
    TurnStep(w, None, body, p, s, 0);
    LoopStep(w, false, Some(Lit(0)), None, body, p, at, stalls);
    RoundStep(w, Some(Lit(0)), None, body, p, at, stalls);
  }

  /** A field that starts at or behind the end is skipped with a diagnostic, and the cursor is left at the end. */
  lemma FieldBehindTheEnd(w: Fixed, name: string, width: nat, p: Option<nat>, s: Point)
    requires IsBytes(s, name, width) && width > 0 && s.cursor >= w.len && Room(w, s, 1)
    ensures (StmtMeans(w, Single(name, None), p, s)
             == Ends(FlowNext, s.(cursor := w.len, diagnostics := s.diagnostics + 1, steps := s.steps + 1)))
  {
    hide ResolveType, IsString;
    var f, s1 := FieldDecl(false, name, None, [], None, None), s.(steps := s.steps + 1);
    Entered(w, FieldStmt(f), p, s, 1);
    assert FieldMeans(w, f, p, s1) == ReadMeans(w, name, None, p, s1);
    assert StartsBehind(w, name, s1);
  }

  /** `local` and `const` declarations read nothing. */
  lemma LocalsReadNothing(w: Fixed, f: FieldDecl, p: Option<nat>, s: Point)
    requires f.isLocal && IsLit(SizeOf(f, s.sizes)) && IsLit(f.init) && Room(w, s, 1)
    ensures StmtMeans(w, FieldStmt(f), p, s) == Ends(FlowNext, s.(steps := s.steps + 1))
  {
    Entered(w, FieldStmt(f), p, s, 1);
    var s1 := s.(steps := s.steps + 1);
    assert FieldMeans(w, f, p, s1) == ExprMeans(w, f.init, FlowNext, s1);
  }

  /** Behind the definition of an alias a field of it is read as its source is: one of it, or as many as it has. */
  lemma AliasIsItsSource(w: Fixed, name: string, source: string, width: nat, p: Option<nat>, s: Point)
    requires IsBytes(s, source, width) && name != source && !IsString(name) && name !in s.sizes
    requires s.types[source].Primitive? && s.cursor + width <= w.len && Room(w, s, 2)
    ensures var defined := StmtMeans(w, TypedefAlias(name, source, None), p, s);
      defined.Ends? && defined.flow == FlowNext
      && var e := StmtMeans(w, Single(name, None), p, defined.at);
         e.Ends? && e.flow == FlowNext && e.at.cursor == s.cursor + width && e.at.steps == s.steps + 2
         && e.at.nodes == s.nodes + [Node(Scalar, s.cursor, width, p)]
  {
    hide IsString;
    Entered(w, TypedefAlias(name, source, None), p, s, 2);
    var s1 := s.(steps := s.steps + 1, types := s.types[name := Alias(source)]);
    assert ResolveType(s1.types, source, 31) == Some(s.types[source]);
    assert ResolveType(s.types, source, 32) == Some(s.types[source]);
    assert ResolveType(s1.types, name, 32) == Some(s.types[source]);
    FieldIsANode(w, name, width, p, s1, 1);
  }

  lemma AliasHasItsSize(w: Fixed, name: string, source: string, n: int, width: nat, p: Option<nat>, s: Point)
    requires IsBytes(s, source, width) && name != source && !IsString(name) && !IsByteName(name)
    requires s.types[source].Primitive? && s.cursor <= w.len && Room(w, s, 2)
    ensures var defined := StmtMeans(w, TypedefAlias(name, source, Some(Lit(n))), p, s);
      defined.Ends? && defined.flow == FlowNext
      && var e := StmtMeans(w, Single(name, None), p, defined.at);
         var total := if n < 0 then 0 else n * width;
         var length := if total <= w.len - s.cursor then total else w.len - s.cursor;
         e.Ends? && e.flow == FlowNext && e.at.cursor == s.cursor + length
         && e.at.nodes == s.nodes + [Node(Scalar, s.cursor, length, p)]
  {
    hide IsString, IsByteName;
    Entered(w, TypedefAlias(name, source, Some(Lit(n))), p, s, 2);
    var s1 := s.(steps := s.steps + 1, types := s.types[name := Alias(source)], sizes := s.sizes[name := Lit(n)]);
    assert ResolveType(s1.types, source, 31) == Some(s.types[source]);
    assert ResolveType(s.types, source, 32) == Some(s.types[source]);
    assert ResolveType(s1.types, name, 32) == Some(s.types[source]);
    var f, s2 := FieldDecl(false, name, None, [], None, None), s1.(steps := s1.steps + 1);
    Entered(w, FieldStmt(f), p, s1, 1);
    hide ResolveType;
    assert FieldMeans(w, f, p, s2) == ReadMeans(w, name, Some(ClampCount(n)), p, s2);
    assert ArrayMeans(w, name, ClampCount(n), p, s2) == BlobMeans(w, ClampCount(n) * width, p, s2);
  }

  /** An enum is a node of four bytes, or of its backing type's. */
  lemma EnumIsItsBacking(w: Fixed, name: string, backing: Option<string>, variants: seq<Expr>, width: nat,
                         p: Option<nat>, s: Point)
    requires !IsString(name) && name !in s.sizes && AllLits(variants)
    requires ResolveType(s.types, name, 32) == Some(EnumType(backing, variants))
    requires if backing.None? then width == 4 else IsBytes(s, backing.value, width)
    requires s.cursor + width <= w.len && Room(w, s, 1)
    ensures (StmtMeans(w, Single(name, None), p, s)
             == Ends(FlowNext, s.(cursor := s.cursor + width, nodes := s.nodes + [Node(Scalar, s.cursor, width, p)],
                                  steps := s.steps + 1)))
  {
    hide ResolveType, IsString;
    var f, s1 := FieldDecl(false, name, None, [], None, None), s.(steps := s.steps + 1);
    Entered(w, FieldStmt(f), p, s, 1);
    assert FieldMeans(w, f, p, s1) == ReadMeans(w, name, None, p, s1);
    assert ReadMeans(w, name, None, p, s1) == ScalarMeans(w, name, p, s1);
    assert ScalarMeans(w, name, p, s1) == BytesMean(w, width, p, s1);
  }

  // -------------------------------------------------------- conditions

  /** An `if` runs the branch its condition says, one step into it. */
  lemma IfTakesItsBranch(w: Fixed, value: int, thenBranch: Stmt, elseBranch: Option<Stmt>, p: Option<nat>, s: Point)
    requires Room(w, s, 1)
    ensures var s1 := s.(steps := s.steps + 1);
      (StmtMeans(w, If(Lit(value), thenBranch, elseBranch), p, s)
       == if value != 0 then StmtMeans(w, thenBranch, p, s1)
          else if elseBranch.Some? then StmtMeans(w, elseBranch.value, p, s1)
          else Ends(FlowNext, s1))
  {
    Entered(w, If(Lit(value), thenBranch, elseBranch), p, s, 1);
    hide StmtMeans;
  }

  /** A loop whose test is zero at once does nothing, unless it is a `do`. */
  lemma FalseLoopsDoNothing(w: Fixed, step: Option<Expr>, body: Stmt, p: Option<nat>, s: Point)
    requires Room(w, s, 1)
    ensures StmtMeans(w, While(Lit(0), body), p, s) == Ends(FlowNext, s.(steps := s.steps + 1))
    ensures StmtMeans(w, For(None, Some(Lit(0)), step, body), p, s) == Ends(FlowNext, s.(steps := s.steps + 1))
  {
    var s1 := s.(steps := s.steps + 1);
    Entered(w, While(Lit(0), body), p, s, 1);
    Entered(w, For(None, Some(Lit(0)), step, body), p, s, 1);
    hide StmtMeans, LoopMeans;
    LoopStep(w, false, Some(Lit(0)), None, body, p, s1, 0);
    LoopStep(w, false, Some(Lit(0)), step, body, p, s1, 0);
    RoundStep(w, Some(Lit(0)), None, body, p, s1, 0);
    RoundStep(w, Some(Lit(0)), step, body, p, s1, 0);
  }

  function Single(name: string, size: Option<Expr>): Stmt {
    FieldStmt(FieldDecl(false, name, size, [], None, None))
  }

  // ------------------------------------------------ structures and unions

  lemma {:induction false} RecordFields(w: Fixed, names: seq<string>, widths: seq<nat>, idx: nat, s: Point, k: nat)
    requires AreBytes(s, names, widths) && s.cursor + Sum(widths) <= w.len && Room(w, s, |names| + k)
    ensures RecordMeans(w, Fields(names), idx, s) == Ends(FlowNext, Behind(s, widths, Some(idx)))
    ensures Room(w, Behind(s, widths, Some(idx)), k)
    decreases |names|
  {
    hide StmtMeans, IsBytes, Behind;
    if names == [] {
      BehindNone(s, Some(idx));
    } else {
      FieldIsANode(w, names[0], widths[0], Some(idx), s, |names| + k);
      var s1 := StmtMeans(w, Fields(names)[0], Some(idx), s).at;
      SameTypes(s, s1, names, widths);
      BehindFirst(s, widths, Some(idx));
      RecordFields(w, names[1..], widths[1..], idx, s1, k);
    }
  }

  /** A type whose fields are built-in ones. */
  predicate IsStruct(s: Point, name: string, isUnion: bool, names: seq<string>) {
    !IsString(name) && name !in s.sizes
    && ResolveType(s.types, name, 32) == Some(StructType(isUnion, Fields(names)))
  }

  lemma StructField(w: Fixed, name: string, isUnion: bool, names: seq<string>, p: Option<nat>, s: Point, k: nat)
    requires IsStruct(s, name, isUnion, names) && Room(w, s, k + 1)
    ensures var s1 := s.(steps := s.steps + 1);
      StmtMeans(w, Single(name, None), p, s) == StructMeans(w, isUnion, Fields(names), p, s1) && Room(w, s1, k)
  {
    hide ResolveType, IsString, StructMeans;
    var f, s1 := FieldDecl(false, name, None, [], None, None), s.(steps := s.steps + 1);
    Entered(w, FieldStmt(f), p, s, k + 1);
    assert FieldMeans(w, f, p, s1) == ReadMeans(w, name, None, p, s1);
    assert ReadMeans(w, name, None, p, s1) == ScalarMeans(w, name, p, s1);
  }

  /** The node of a structure and its fields' under it. */
  function RecordNodes(widths: seq<nat>, at: nat, p: Option<nat>, idx: nat): (nodes: seq<Node>)
    ensures |nodes| == |widths| + 1
  {
    [Node(Record, at, Sum(widths), p)] + Laid(widths, at, Some(idx))
  }

  lemma StructIsRead(w: Fixed, names: seq<string>, widths: seq<nat>, p: Option<nat>, s: Point, k: nat)
    requires AreBytes(s, names, widths) && s.cursor + Sum(widths) <= w.len && Room(w, s, |names| + k)
    ensures (StructMeans(w, false, Fields(names), p, s)
             == Ends(FlowNext, s.(cursor := s.cursor + Sum(widths),
                                  nodes := s.nodes + RecordNodes(widths, s.cursor, p, |s.nodes|),
                                  steps := s.steps + |names|)))
    ensures Room(w, s.(steps := s.steps + |names|), k)
  {
    hide RecordMeans, IsBytes, Laid, Sum;
    var idx := |s.nodes|;
    var entered := s.(nodes := s.nodes + [Node(Record, s.cursor, 0, p)]);
    SameState(s, entered, names, widths);
    RecordFields(w, names, widths, idx, entered, k);
    hide AreBytes;
    ClosesBehind(s.nodes, Node(Record, s.cursor, 0, p), Laid(widths, s.cursor, Some(idx)), Sum(widths));
  }

  /** Setting the length of a node in the middle. */
  lemma ClosesBehind(before: seq<Node>, n: Node, behind: seq<Node>, length: nat)
    ensures var all := before + [n] + behind;
      && all[|before|] == n
      && all[|before| := n.(length := length)] == before + ([n.(length := length)] + behind)
  {
  }

  /** A structure is a node as long as its fields together, and they lie in it end to end. */
  lemma StructIsItsFields(w: Fixed, name: string, names: seq<string>, widths: seq<nat>, p: Option<nat>, s: Point)
    requires IsStruct(s, name, false, names) && AreBytes(s, names, widths)
    requires s.cursor + Sum(widths) <= w.len && Room(w, s, |names| + 1)
    ensures (StmtMeans(w, Single(name, None), p, s)
             == Ends(FlowNext, s.(
                  cursor := s.cursor + Sum(widths),
                  nodes := s.nodes + ([Node(Record, s.cursor, Sum(widths), p)]
                                      + Laid(widths, s.cursor, Some(|s.nodes|))),
                  steps := s.steps + |names| + 1)))
  {
    hide StmtMeans, StructMeans, IsStruct, IsBytes, Sum, Laid;
    var s1 := s.(steps := s.steps + 1);
    StructField(w, name, false, names, p, s, |names|);
    SameState(s, s1, names, widths);
    StructIsRead(w, names, widths, p, s1, 0);
  }

  function Widest(widths: seq<nat>, sofar: nat): nat {
    if widths == [] then sofar else Widest(widths[1..], if sofar < widths[0] then widths[0] else sofar)
  }

  /** Nodes that all begin at the same place. */
  function Stacked(widths: seq<nat>, at: nat, p: Option<nat>): (nodes: seq<Node>)
    ensures |nodes| == |widths|
  {
    if widths == [] then [] else [Node(Scalar, at, widths[0], p)] + Stacked(widths[1..], at, p)
  }

  predicate AllFit(widths: seq<nat>, room: int) {
    forall n <- widths :: n <= room
  }

  /** The state when a union's fields have been read. */
  function Overlaid(s: Point, widths: seq<nat>, idx: nat, offset: nat, far: nat): Point
    requires idx < |s.nodes|
  {
    var nodes, length := s.nodes + Stacked(widths, offset, Some(idx)), Widest(widths, far);
    s.(cursor := offset + length, nodes := nodes[idx := nodes[idx].(length := length)], steps := s.steps + |widths|)
  }

  lemma OverlaidFirst(s: Point, widths: seq<nat>, idx: nat, offset: nat, far: nat)
    requires idx < |s.nodes| && widths != []
    ensures var s1 := s.(cursor := offset + widths[0], nodes := s.nodes + [Node(Scalar, offset, widths[0], Some(idx))],
                         steps := s.steps + 1);
      (Overlaid(s1, widths[1..], idx, offset, if far < widths[0] then widths[0] else far)
       == Overlaid(s, widths, idx, offset, far))
  {
    var rest := Stacked(widths[1..], offset, Some(idx));
    var n := Node(Scalar, offset, widths[0], Some(idx));
    assert Stacked(widths, offset, Some(idx)) == [n] + rest;
    hide Stacked;
    assert s.nodes + [n] + rest == s.nodes + ([n] + rest);
  }

  lemma {:induction false} OverlayFields(w: Fixed, names: seq<string>, widths: seq<nat>, idx: nat, offset: nat, far: nat,
                                         s: Point, k: nat)
    requires AreBytes(s, names, widths) && AllFit(widths, w.len - offset) && Room(w, s, |names| + k) && idx < |s.nodes|
    ensures (OverlayMeans(w, Fields(names), idx, offset, offset + far, s)
             == Ends(FlowNext, Overlaid(s, widths, idx, offset, far)))
    decreases |names|
  {
    hide OverlayMeans;
    if names == [] {
      assert s.nodes + Stacked(widths, offset, Some(idx)) == s.nodes;
      OverlayEnd(w, idx, offset, offset + far, s);
    } else {
      hide IsBytes, Overlaid, Fields;
      FirstOverlay(w, names, widths, idx, offset, far, s, k);
      assert AllFit(widths[1..], w.len - offset) by {
        assert forall n <- widths[1..] :: n in widths;
      }
      hide AreBytes, AllFit;
      OverlaidFirst(s, widths, idx, offset, far);
      OverlayFields(w, names[1..], widths[1..], idx, offset, if far < widths[0] then widths[0] else far,
        s.(cursor := offset + widths[0], nodes := s.nodes + [Node(Scalar, offset, widths[0], Some(idx))],
           steps := s.steps + 1), k);
    }
  }

  lemma FirstOverlay(w: Fixed, names: seq<string>, widths: seq<nat>, idx: nat, offset: nat, far: nat, s: Point, k: nat)
    requires AreBytes(s, names, widths) && names != [] && AllFit(widths, w.len - offset) && Room(w, s, |names| + k)
    requires idx < |s.nodes|
    ensures var s1 := s.(cursor := offset + widths[0], nodes := s.nodes + [Node(Scalar, offset, widths[0], Some(idx))],
                         steps := s.steps + 1);
      && AreBytes(s1, names[1..], widths[1..]) && Room(w, s1, |names| - 1 + k)
      && (OverlayMeans(w, Fields(names), idx, offset, offset + far, s)
          == OverlayMeans(w, Fields(names[1..]), idx, offset, offset + (if far < widths[0] then widths[0] else far), s1))
  {
    hide StmtMeans, IsBytes, OverlayMeans;
    var s0 := s.(cursor := offset);
    assert widths[0] in widths;
    SameState(s, s0, names, widths);
    FieldIsANode(w, names[0], widths[0], Some(idx), s0, |names| + k);
    var stmts := Fields(names);
    SameTypes(s, StmtMeans(w, stmts[0], Some(idx), s0).at, names, widths);
    OverlayStep(w, stmts, 0, idx, offset, offset + far, s);
    assert stmts[0..] == stmts && stmts[1..] == Fields(names[1..]);
  }

  /** A union is a node as long as its widest field; all its fields begin where it does. */
  lemma UnionIsItsWidest(w: Fixed, name: string, names: seq<string>, widths: seq<nat>, p: Option<nat>, s: Point)
    requires IsStruct(s, name, true, names) && AreBytes(s, names, widths)
    requires AllFit(widths, w.len - s.cursor) && Room(w, s, |names| + 1)
    ensures (StmtMeans(w, Single(name, None), p, s)
             == Ends(FlowNext, s.(
                  cursor := s.cursor + Widest(widths, 0),
                  nodes := s.nodes + ([Node(Overlay, s.cursor, Widest(widths, 0), p)]
                                      + Stacked(widths, s.cursor, Some(|s.nodes|))),
                  steps := s.steps + |names| + 1)))
  {
    hide StmtMeans, OverlayMeans, IsStruct, IsBytes, Widest, Stacked;
    var s1 := s.(steps := s.steps + 1);
    StructField(w, name, true, names, p, s, |names|);
    var idx := |s.nodes|;
    var entered := s1.(nodes := s.nodes + [Node(Overlay, s.cursor, 0, p)]);
    SameState(s, entered, names, widths);
    OverlayFields(w, names, widths, idx, s.cursor, 0, entered, 0);
    SameLengths(s, names, widths);
    ClosesBehind(s.nodes, Node(Overlay, s.cursor, 0, p), Stacked(widths, s.cursor, Some(idx)), Widest(widths, 0));
  }

  // ------------------------------------------------------------- arrays

  lemma ArrayField(w: Fixed, name: string, n: int, p: Option<nat>, s: Point, k: nat)
    requires !RunsToZero(name, Some(Lit(n))) && Room(w, s, k + 1)
    ensures var s1 := s.(steps := s.steps + 1);
      StmtMeans(w, Single(name, Some(Lit(n))), p, s) == ArrayMeans(w, name, if n < 0 then 0 else n, p, s1)
      && Room(w, s1, k)
  {
    hide ArrayMeans;
    var f, s1 := FieldDecl(false, name, Some(Lit(n)), [], None, None), s.(steps := s.steps + 1);
    Entered(w, FieldStmt(f), p, s, k + 1);
    assert FieldMeans(w, f, p, s1) == ReadMeans(w, name, Some(ClampCount(n)), p, s1);
  }

  /**
   An array of a built-in type is one node of count times width bytes, or of what is left of the source, and then there
   is a diagnostic; a negative count is none.
   */
  lemma ArrayIsOneNode(w: Fixed, name: string, width: nat, n: int, p: Option<nat>, s: Point)
    requires IsBytes(s, name, width) && !(n == 0 && IsByteName(name)) && s.cursor <= w.len && Room(w, s, 1)
    ensures var total := if n < 0 then 0 else n * width;
      var there := w.len - s.cursor;
      var length := if total <= there then total else there;
      (StmtMeans(w, Single(name, Some(Lit(n))), p, s)
       == Ends(FlowNext, s.(
            cursor := s.cursor + length,
            nodes := s.nodes + [Node(Scalar, s.cursor, length, p)],
            diagnostics := s.diagnostics + (if total <= there then 0 else 1),
            steps := s.steps + 1)))
  {
    hide StmtMeans, ResolveType, IsString, IsByteName;
    ArrayField(w, name, n, p, s, 0);
  }

  /** The nodes of `n` structures in a row, the first of them number `idx`. */
  function ElementNodes(n: nat, widths: seq<nat>, at: nat, p: Option<nat>, idx: nat): seq<Node>
    decreases n
  {
    if n == 0 then []
    else
      RecordNodes(widths, at, p, idx) + ElementNodes(n - 1, widths, at + Sum(widths), p, idx + |widths| + 1)
  }

  function Times(n: nat, k: nat): nat {
    n * k
  }

  lemma TimesLess(n: nat, k: nat)
    requires n > 0
    ensures Times(n, k) == k + Times(n - 1, k)
  {
  }

  /** After `n` more elements. */
  function BehindElements(s: Point, n: nat, widths: seq<nat>, idx: nat): Point {
    s.(cursor := s.cursor + Times(n, Sum(widths)),
       nodes := s.nodes + ElementNodes(n, widths, s.cursor, Some(idx), |s.nodes|),
       steps := s.steps + Times(n, |widths|))
  }

  lemma OneElementLess(s: Point, n: nat, widths: seq<nat>, idx: nat)
    requires n > 0
    ensures var s1 := s.(cursor := s.cursor + Sum(widths),
                         nodes := s.nodes + RecordNodes(widths, s.cursor, Some(idx), |s.nodes|),
                         steps := s.steps + |widths|);
      BehindElements(s1, n - 1, widths, idx) == BehindElements(s, n, widths, idx)
  {
    hide Sum, Times, RecordNodes, ElementNodes;
    TimesLess(n, Sum(widths));
    TimesLess(n, |widths|);
    FirstElement(s.nodes, n, widths, s.cursor, idx);
  }

  lemma FirstElement(before: seq<Node>, n: nat, widths: seq<nat>, at: nat, idx: nat)
    requires n > 0
    ensures var first := RecordNodes(widths, at, Some(idx), |before|);
      before + first + ElementNodes(n - 1, widths, at + Sum(widths), Some(idx), |before + first|)
      == before + ElementNodes(n, widths, at, Some(idx), |before|)
  {
    hide RecordNodes, Sum;
    var first := RecordNodes(widths, at, Some(idx), |before|);
    var rest := ElementNodes(n - 1, widths, at + Sum(widths), Some(idx), |before| + |widths| + 1);
    assert ElementNodes(n, widths, at, Some(idx), |before|) == first + rest;
    hide ElementNodes;
    assert before + first + rest == before + (first + rest);
  }

  lemma {:induction false} ElementsAreRead(w: Fixed, name: string, names: seq<string>, widths: seq<nat>, n: nat,
                                           idx: nat, s: Point, stalls: nat)
    requires IsStruct(s, name, false, names) && AreBytes(s, names, widths)
    requires s.cursor + Times(n, Sum(widths)) <= w.len && Room(w, s, Times(n, |names|))
    requires stalls < 1_000 && (Sum(widths) > 0 || stalls + n < 1_000)
    ensures (ElementsMean(w, false, Fields(names), name, n, idx, s, stalls)
             == Ends(FlowNext, BehindElements(s, n, widths, idx)))
    decreases n
  {
    hide IsStruct, AreBytes, StructMeans, BehindElements, ElementsMean, RecordNodes, Sum, Times;
    if n == 0 {
      ElementsEnd(w, false, Fields(names), name, idx, s, stalls);
      NoElements(s, widths, idx);
    } else {
      TimesLess(n, |names|);
      TimesLess(n, Sum(widths));
      SameLengths(s, names, widths);
      StructIsRead(w, names, widths, Some(idx), s, Times(n - 1, |names|));
      var s1 := StructMeans(w, false, Fields(names), Some(idx), s).at;
      StillStruct(s, s1, name, names, widths);
      ElementsStep(w, false, Fields(names), name, n, idx, s, stalls);
      ElementsAreRead(w, name, names, widths, n - 1, idx, s1, if s1.cursor == s.cursor then stalls + 1 else 0);
      OneElementLess(s, n, widths, idx);
    }
  }

  lemma SameLengths(s: Point, names: seq<string>, widths: seq<nat>)
    requires AreBytes(s, names, widths)
    ensures |names| == |widths|
  {
  }

  lemma NoElements(s: Point, widths: seq<nat>, idx: nat)
    ensures BehindElements(s, 0, widths, idx) == s
  {
  }

  lemma StillStruct(s: Point, t: Point, name: string, names: seq<string>, widths: seq<nat>)
    requires IsStruct(s, name, false, names) && AreBytes(s, names, widths) && t.types == s.types && t.sizes == s.sizes
    ensures IsStruct(t, name, false, names) && AreBytes(t, names, widths)
    ensures ResolveType(s.types, name, 32) == Some(StructType(false, Fields(names)))
  {
    hide ResolveType, IsString;
  }

  /** An array of structures is a node as long as its elements together, and they lie in it end to end. */
  lemma ArrayIsItsElements(w: Fixed, name: string, names: seq<string>, widths: seq<nat>, n: nat, p: Option<nat>,
                           s: Point)
    requires IsStruct(s, name, false, names) && AreBytes(s, names, widths) && !(n == 0 && IsByteName(name))
    requires s.cursor + n * Sum(widths) <= w.len && Room(w, s, n * |names| + 1)
    requires Sum(widths) > 0 || n < 1_000
    ensures (StmtMeans(w, Single(name, Some(Lit(n))), p, s)
             == Ends(FlowNext, s.(
                  cursor := s.cursor + n * Sum(widths),
                  nodes := s.nodes + ([Node(Record, s.cursor, n * Sum(widths), p)]
                                      + ElementNodes(n, widths, s.cursor, Some(|s.nodes|), |s.nodes| + 1)),
                  steps := s.steps + n * |names| + 1)))
  {
    hide StmtMeans, ElementsMean, AreBytes, Sum, ElementNodes, IsByteName, IsString;
    var idx := |s.nodes|;
    ArrayField(w, name, n, p, s, n * |names|);
    var s1 := s.(steps := s.steps + 1);
    var entered := s1.(nodes := s.nodes + [Node(Record, s.cursor, 0, p)]);
    SameLengths(s, names, widths);
    StillStruct(s, entered, name, names, widths);
    hide ResolveType;
    ElementsAreRead(w, name, names, widths, n, idx, entered, 0);
    assert n * Sum(widths) >= 0;
    var e := BehindElements(entered, n, widths, idx);
    assert e.nodes[idx := e.nodes[idx].(length := n * Sum(widths))]
        == s.nodes + ([Node(Record, s.cursor, n * Sum(widths), p)]
                      + ElementNodes(n, widths, s.cursor, Some(idx), idx + 1));
  }

  // ------------------------------------------------------------- switches

  /** The bodies of the arms from the `i`-th on, one after the other. */
  function Bodies(arms: seq<Arm>, i: nat): seq<Stmt>
    requires i <= |arms|
    decreases |arms| - i
  {
    if i == |arms| then [] else arms[i].body + Bodies(arms, i + 1)
  }

  lemma {:induction false} BlockTwice(w: Fixed, a: seq<Stmt>, b: seq<Stmt>, p: Option<nat>, s: Point)
    ensures var first := BlockMeans(w, a, p, s);
      (BlockMeans(w, a + b, p, s)
       == if first.Open? || first.flow != FlowNext then first else BlockMeans(w, b, p, first.at))
    decreases |a|
  {
    hide StmtMeans;
    if a == [] {
      assert a + b == b;
    } else {
      var first := StmtMeans(w, a[0], p, s);
      assert (a + b)[1..] == a[1..] + b;
      if first.Ends? {
        BlockTwice(w, a[1..], b, p, first.at);
      }
    }
  }

  /** The arm chosen and all behind it run as one block, and a `break` in it only ends the `switch`. */
  lemma {:induction false} ArmsFallThrough(w: Fixed, arms: seq<Arm>, i: nat, p: Option<nat>, s: Point)
    requires i <= |arms|
    ensures var e := BlockMeans(w, Bodies(arms, i), p, s);
      ArmsMean(w, arms, i, p, s) == if e.Ends? && e.flow == FlowBreak then Ends(FlowNext, e.at) else e
    decreases |arms| - i
  {
    hide StmtMeans, BlockMeans;
    if i == |arms| {
      BlockEnd(w, p, s);
    } else {
      BlockTwice(w, arms[i].body, Bodies(arms, i + 1), p, s);
      var arm := BlockMeans(w, arms[i].body, p, s);
      if arm.Ends? && arm.flow == FlowNext {
        ArmsFallThrough(w, arms, i + 1, p, arm.at);
      }
    }
  }

  /** The arm has no pattern, or one of another value. */
  predicate Misses(arm: Arm, value: int) {
    arm.pattern.Some? ==> arm.pattern.value.Lit? && arm.pattern.value.value != value
  }

  lemma {:induction false} ArmFromSkips(value: int, arms: seq<Arm>, i: nat, k: nat)
    requires i <= k <= |arms| && forall j :: i <= j < k ==> Misses(arms[j], value)
    ensures ArmFrom(value, arms, i) == ArmFrom(value, arms, k)
    decreases k - i
  {
    if i < k {
      assert Misses(arms[i], value);
      ArmFromSkips(value, arms, i + 1, k);
    }
  }

  lemma {:induction false} DefaultFromSkips(arms: seq<Arm>, i: nat, k: nat)
    requires i <= k <= |arms| && (forall j :: i <= j < k ==> arms[j].pattern.Some?)
    ensures DefaultFrom(arms, i) == DefaultFrom(arms, k)
    decreases k - i
  {
    if i < k {
      DefaultFromSkips(arms, i + 1, k);
    }
  }

  /** The first arm with the value is chosen; if there is none the first without a pattern; and else no arm. */
  lemma ArmIsFirst(value: int, arms: seq<Arm>, i: nat)
    requires i <= |arms|
    requires || (i < |arms| && arms[i].pattern == Some(Lit(value)) && forall j :: 0 <= j < i ==> Misses(arms[j], value))
             || ((forall arm <- arms :: Misses(arm, value)) && (i < |arms| ==> arms[i].pattern.None?)
                 && forall j :: 0 <= j < i ==> arms[j].pattern.Some?)
    ensures ArmChosen(value, arms) == Some(i)
  {
    if i < |arms| && arms[i].pattern == Some(Lit(value)) {
      ArmFromSkips(value, arms, 0, i);
    } else {
      ArmFromSkips(value, arms, 0, |arms|);
      DefaultFromSkips(arms, 0, i);
    }
  }
}
