/**
 What a template means where nothing in it depends on the values read: the nodes, the cursor, the diagnostics and the
 statement entries, statement by statement (crates/hxy-010-lang/src/interp.rs). Conditions, counts and patterns are
 literals; whatever depends on more than the state here, or fails, is `Open`.
 */
module TemplateMeaning {
  import opened Splices
  import opened NodeForest
  import opened TemplateSyntax

  datatype Flow = FlowNext | FlowBreak | FlowContinue | FlowReturn

  datatype Fixed = Fixed(len: nat, stepLimit: nat, functions: map<string, Function>)

  datatype Point = Point(
    cursor: nat, nodes: seq<Node>, steps: nat, diagnostics: nat, types: map<string, TypeDef>, sizes: map<string, Expr>)

  datatype Exact = Ends(flow: Flow, at: Point) | Open

  /** Later: no fewer entries and nodes. */
  predicate Onward(s: Point, e: Exact) {
    e.Ends? ==> s.steps <= e.at.steps && |s.nodes| <= |e.at.nodes|
  }

  function Left(w: Fixed, s: Point): nat {
    if s.steps <= w.stepLimit then w.stepLimit - s.steps else 0
  }

  predicate IsLit(e: Option<Expr>) {
    e.None? || e.value.Lit?
  }

  predicate AllLits(es: seq<Expr>) {
    forall e <- es :: e.Lit?
  }

  // -------------------------------------------------------- statements

  /** A statement: entering it is a step, below the limit and not one at which the clock is looked at. */
  function StmtMeans(w: Fixed, stmt: Stmt, p: Option<nat>, s: Point): (e: Exact)
    ensures Onward(s, e) && (e.Ends? ==> s.steps < e.at.steps && s.steps < w.stepLimit)
    decreases Left(w, s), 0, 0
  {
    if s.steps >= w.stepLimit || (s.steps + 1) % 1024 == 0 then Open
    else EnteredMeans(w, stmt, p, s.(steps := s.steps + 1))
  }

  function EnteredMeans(w: Fixed, stmt: Stmt, p: Option<nat>, s: Point): (e: Exact)
    ensures Onward(s, e)
    decreases Left(w, s), 14, 0
  {
    match stmt
    case Block(stmts) => BlockMeans(w, stmts, p, s)
    case ExprStmt(e) => ExprMeans(w, Some(e), FlowNext, s)
    case FieldStmt(f) => FieldMeans(w, f, p, s)
    case TypedefAlias(name, source, size) =>
      Ends(FlowNext, s.(types := s.types[name := Alias(source)],
                        sizes := if size.Some? then s.sizes[name := size.value] else s.sizes))
    case TypedefEnum(name, backing, variants) =>
      Ends(FlowNext, s.(types := s.types[name := EnumType(backing, variants)]))
    case TypedefStruct(name, isUnion, body) =>
      Ends(FlowNext, s.(types := s.types[name := StructType(isUnion, body)]))
    case If(cond, thenBranch, elseBranch) =>
      if !cond.Lit? then Open
      else if cond.value != 0 then StmtMeans(w, thenBranch, p, s)
      else if elseBranch.Some? then StmtMeans(w, elseBranch.value, p, s)
      else Ends(FlowNext, s)
    case While(cond, body) => LoopMeans(w, false, Some(cond), None, body, p, s, 0)
    case DoWhile(body, cond) => LoopMeans(w, true, Some(cond), None, body, p, s, 0)
    case For(init, test, step, body) =>
      if init.None? then LoopMeans(w, false, test, step, body, p, s, 0)
      else
        var started := StmtMeans(w, init.value, p, s);
        if started.Open? then Open else LoopMeans(w, false, test, step, body, p, started.at, 0)
    case Return(value) => ExprMeans(w, value, FlowReturn, s)
    case Break => Ends(FlowBreak, s)
    case Continue => Ends(FlowContinue, s)
    case Switch(scrutinee, arms) =>
      if !scrutinee.Lit? then Open
      else
        var i := ArmChosen(scrutinee.value, arms);
        if i.None? then Open else ArmsMean(w, arms, i.value, p, s)
  }

  /** Up to the first statement that does not just go on. */
  function BlockMeans(w: Fixed, stmts: seq<Stmt>, p: Option<nat>, s: Point): (e: Exact)
    ensures Onward(s, e)
    decreases Left(w, s), 11, |stmts|
  {
    if stmts == [] then Ends(FlowNext, s)
    else
      var first := StmtMeans(w, stmts[0], p, s);
      if first.Open? || first.flow != FlowNext then first else BlockMeans(w, stmts[1..], p, first.at)
  }

  /** A literal, or a call on its own, and then a flow. */
  function ExprMeans(w: Fixed, e: Option<Expr>, flow: Flow, s: Point): (r: Exact)
    ensures Onward(s, r) && (r.Ends? ==> r.flow == flow)
    decreases Left(w, s), 11, 0
  {
    if IsLit(e) then Ends(flow, s)
    else if BareCall(w.functions, e.value) then
      var called := CallMeans(w, w.functions[e.value.name].body, s);
      if called.Open? then Open else Ends(flow, called.at)
    else Open
  }

  /** A function's body, under no parent: only `return` and `break` end it early. */
  function CallMeans(w: Fixed, body: seq<Stmt>, s: Point): (e: Exact)
    ensures Onward(s, e)
    decreases Left(w, s), 10, |body|
  {
    if body == [] then Ends(FlowNext, s)
    else
      var first := StmtMeans(w, body[0], None, s);
      if first.Open? then Open
      else if first.flow == FlowReturn || first.flow == FlowBreak then Ends(FlowNext, first.at)
      else CallMeans(w, body[1..], first.at)
  }

  datatype Turn = GoesOn(at: Point, stalls: nat) | Stops(flow: Flow, at: Point) | Unknown

  /** A loop from its next test on, unless the body comes first; `stalls` rounds have just left the cursor alone. */
  function LoopMeans(w: Fixed, bodyFirst: bool, test: Option<Expr>, step: Option<Expr>, body: Stmt, p: Option<nat>,
                     s: Point, stalls: nat): (e: Exact)
    ensures Onward(s, e) && (e.Ends? ==> e.flow == FlowNext || e.flow == FlowReturn)
    decreases Left(w, s), 11, 0
  {
    match RoundMeans(w, if bodyFirst then None else test, step, body, p, s, stalls)
    case Unknown => Open
    case Stops(flow, at) => Ends(flow, at)
    case GoesOn(at, stalled) => LoopMeans(w, false, test, step, body, p, at, stalled)
  }

  /** One round: the test, and what it guards. */
  function RoundMeans(w: Fixed, test: Option<Expr>, step: Option<Expr>, body: Stmt, p: Option<nat>, s: Point,
                      stalls: nat): (e: Turn)
    ensures TurnOnward(w, s, e)
    decreases Left(w, s), 10, 0
  {
    if !IsLit(test) then Unknown
    else if test.Some? && test.value.value == 0 then Stops(FlowNext, s)
    else TurnMeans(w, step, body, p, s, stalls)
  }

  /** The body, the step, and the stall guard, which stops the thousandth round in place. */
  function TurnMeans(w: Fixed, step: Option<Expr>, body: Stmt, p: Option<nat>, s: Point, stalls: nat): (e: Turn)
    ensures TurnOnward(w, s, e)
    decreases Left(w, s), 9, 0
  {
    var round := StmtMeans(w, body, p, s);
    if round.Open? then Unknown
    else if round.flow == FlowBreak then Stops(FlowNext, round.at)
    else if round.flow == FlowReturn then Stops(FlowReturn, round.at)
    else
      var stalled := if round.at.cursor == s.cursor then stalls + 1 else 0;
      if !IsLit(step) || stalled >= 1_000 then Unknown else GoesOn(round.at, stalled)
  }

  predicate TurnOnward(w: Fixed, s: Point, e: Turn) {
    match e
    case GoesOn(at, _) => s.steps < at.steps && s.steps < w.stepLimit && |s.nodes| <= |at.nodes|
    case Stops(flow, at) => Onward(s, Ends(flow, at)) && (flow == FlowNext || flow == FlowReturn)
    case Unknown => true
  }

  /** The first arm with the value, or the default, or behind the last; unless a pattern on the way is open. */
  function ArmChosen(value: int, arms: seq<Arm>): (i: Option<nat>)
    ensures i.Some? ==> i.value <= |arms|
  {
    var i := ArmFrom(value, arms, 0);
    if i.Some? && i.value == |arms| then Some(DefaultFrom(arms, 0)) else i
  }

  function ArmFrom(value: int, arms: seq<Arm>, i: nat): (r: Option<nat>)
    requires i <= |arms|
    ensures r.Some? ==> i <= r.value <= |arms|
    decreases |arms| - i
  {
    if i == |arms| then Some(i)
    else if arms[i].pattern.None? then ArmFrom(value, arms, i + 1)
    else if !arms[i].pattern.value.Lit? then None
    else if arms[i].pattern.value.value == value then Some(i)
    else ArmFrom(value, arms, i + 1)
  }

  function DefaultFrom(arms: seq<Arm>, i: nat): (r: nat)
    requires i <= |arms|
    ensures i <= r <= |arms|
    decreases |arms| - i
  {
    if i == |arms| || arms[i].pattern.None? then i else DefaultFrom(arms, i + 1)
  }

  /** The arms from the `i`-th on, up to a `break`, which ends the switch and nothing else. */
  function ArmsMean(w: Fixed, arms: seq<Arm>, i: nat, p: Option<nat>, s: Point): (e: Exact)
    requires i <= |arms|
    ensures Onward(s, e) && (e.Ends? ==> e.flow != FlowBreak)
    decreases Left(w, s), 12, |arms| - i
  {
    if i == |arms| then Ends(FlowNext, s)
    else
      var arm := BlockMeans(w, arms[i].body, p, s);
      if arm.Open? then Open
      else if arm.flow == FlowBreak then Ends(FlowNext, arm.at)
      else if arm.flow != FlowNext then arm
      else ArmsMean(w, arms, i + 1, p, arm.at)
  }

  // ------------------------------------------------------------ fields

  function SizeOf(f: FieldDecl, sizes: map<string, Expr>): Option<Expr> {
    if f.arraySize.Some? then f.arraySize
    else if f.typeName in sizes then Some(sizes[f.typeName])
    else None
  }

  function FieldMeans(w: Fixed, f: FieldDecl, p: Option<nat>, s: Point): (e: Exact)
    ensures Onward(s, e)
    decreases Left(w, s), 13, 0
  {
    var size := SizeOf(f, s.sizes);
    if !IsLit(size) then Open
    else if f.isLocal then ExprMeans(w, f.init, FlowNext, s)
    else if f.bitWidth.Some? || !AllLits(f.args) || RunsToZero(f.typeName, size) then Open
    else ReadMeans(w, f.typeName, if size.None? then None else Some(ClampCount(size.value.value)), p, s)
  }

  function ClampCount(n: int): nat {
    if n < 0 then 0 else n
  }

  /** The read; one that starts behind the end is reported, and leaves the cursor at the end. */
  function ReadMeans(w: Fixed, typeName: string, count: Option<nat>, p: Option<nat>, s: Point): (e: Exact)
    ensures Onward(s, e)
    decreases Left(w, s), 12, 0
  {
    if count.Some? then ArrayMeans(w, typeName, count.value, p, s)
    else if StartsBehind(w, typeName, s) then
      Ends(FlowNext, s.(cursor := w.len, diagnostics := s.diagnostics + 1))
    else ScalarMeans(w, typeName, p, s)
  }

  /** A read of some bytes at or behind the end. */
  predicate StartsBehind(w: Fixed, typeName: string, s: Point) {
    var t := ResolveType(s.types, typeName, 32);
    !IsString(typeName) && t.Some? && t.value.Primitive? && s.cursor + t.value.width > w.len && s.cursor >= w.len
  }

  function ScalarMeans(w: Fixed, typeName: string, p: Option<nat>, s: Point): (e: Exact)
    ensures Onward(s, e)
    decreases Left(w, s), 8, 0
  {
    var t := ResolveType(s.types, typeName, 32);
    if IsString(typeName) || t.None? then Open
    else
      match t.value
      case Primitive(width, _) => BytesMean(w, width, p, s)
      case EnumType(backing, variants) =>
        var under := if backing.Some? then ResolveType(s.types, backing.value, 32) else Some(Primitive(4, false));
        if under.Some? && under.value.Primitive? && AllLits(variants) then BytesMean(w, under.value.width, p, s)
        else Open
      case StructType(isUnion, body) => StructMeans(w, isUnion, body, p, s)
      case Alias(_) => Open
  }

  function BytesMean(w: Fixed, width: nat, p: Option<nat>, s: Point): (e: Exact)
    ensures Onward(s, e)
  {
    if s.cursor + width > w.len then Open
    else Ends(FlowNext, s.(cursor := s.cursor + width, nodes := s.nodes + [Node(Scalar, s.cursor, width, p)]))
  }

  /** A structure's node, its body under it, and its length once the body is read. */
  function StructMeans(w: Fixed, isUnion: bool, body: seq<Stmt>, p: Option<nat>, s: Point): (e: Exact)
    ensures Onward(s, e)
    decreases Left(w, s), 7, 0
  {
    var idx := |s.nodes|;
    var entered := s.(nodes := s.nodes + [Node(if isUnion then Overlay else Record, s.cursor, 0, p)]);
    if isUnion then OverlayMeans(w, body, idx, s.cursor, s.cursor, entered)
    else Closed(idx, s.cursor, RecordMeans(w, body, idx, entered))
  }

  /** The length of a record is how far the cursor came. */
  function Closed(idx: nat, offset: nat, e: Exact): (r: Exact)
    requires e.Ends? ==> idx < |e.at.nodes|
    ensures r.Ends? ==> e.Ends? && r.at.steps == e.at.steps && |r.at.nodes| == |e.at.nodes|
  {
    if e.Open? || e.at.cursor < offset then Open
    else Ends(FlowNext, e.at.(nodes := e.at.nodes[idx := e.at.nodes[idx].(length := e.at.cursor - offset)]))
  }

  /** The fields, one after the other; a flow out of one is ignored. */
  function RecordMeans(w: Fixed, body: seq<Stmt>, idx: nat, s: Point): (e: Exact)
    ensures Onward(s, e)
    decreases Left(w, s), 6, |body|
  {
    if body == [] then Ends(FlowNext, s)
    else
      var first := StmtMeans(w, body[0], Some(idx), s);
      if first.Open? then Open else RecordMeans(w, body[1..], idx, first.at)
  }

  /** The fields of a union, each from its start; the cursor is left behind the farthest. */
  function OverlayMeans(w: Fixed, body: seq<Stmt>, idx: nat, offset: nat, maxEnd: nat, s: Point): (e: Exact)
    requires idx < |s.nodes| && offset <= maxEnd
    ensures Onward(s, e)
    decreases Left(w, s), 6, |body|
  {
    if body == [] then
      Ends(FlowNext, s.(cursor := maxEnd, nodes := s.nodes[idx := s.nodes[idx].(length := maxEnd - offset)]))
    else
      var first := StmtMeans(w, body[0], Some(idx), s.(cursor := offset));
      if first.Open? then Open
      else
        var far := if maxEnd < first.at.cursor then first.at.cursor else maxEnd;
        OverlayMeans(w, body[1..], idx, offset, far, first.at)
  }

  function ArrayMeans(w: Fixed, typeName: string, count: nat, p: Option<nat>, s: Point): (e: Exact)
    ensures Onward(s, e)
    decreases Left(w, s), 10, 0
  {
    var t := ResolveType(s.types, typeName, 32);
    if t.None? then Open
    else if t.value.Primitive? then BlobMeans(w, count * t.value.width, p, s)
    else if t.value.StructType? then
      var entered := s.(nodes := s.nodes + [Node(Record, s.cursor, 0, p)]);
      Closed(|s.nodes|, s.cursor, ElementsMean(w, t.value.isUnion, t.value.body, typeName, count, |s.nodes|, entered, 0))
    else Open
  }

  /** One node for the bytes, or for what there is of them, and then a diagnostic. */
  function BlobMeans(w: Fixed, total: nat, p: Option<nat>, s: Point): (e: Exact)
    ensures Onward(s, e)
  {
    if s.cursor > w.len then Open
    else
      var there := w.len - s.cursor;
      var n := if total <= there then total else there;
      Ends(FlowNext, s.(
        cursor := s.cursor + n,
        nodes := s.nodes + [Node(Scalar, s.cursor, n, p)],
        diagnostics := if total <= there then s.diagnostics else s.diagnostics + 1))
  }

  /** The elements still to come, while their type stays what it is. */
  function ElementsMean(w: Fixed, isUnion: bool, body: seq<Stmt>, typeName: string, count: nat, idx: nat, s: Point,
                        stalls: nat): (e: Exact)
    ensures Onward(s, e)
    decreases Left(w, s), 9, count
  {
    if count == 0 then Ends(FlowNext, s)
    else if ResolveType(s.types, typeName, 32) != Some(StructType(isUnion, body)) then Open
    else
      var one := StructMeans(w, isUnion, body, Some(idx), s);
      if one.Open? then Open
      else
        var stalled := if one.at.cursor == s.cursor then stalls + 1 else 0;
        if stalled >= 1_000 then Open
        else ElementsMean(w, isUnion, body, typeName, count - 1, idx, one.at, stalled)
  }

  // -------------------------------------------------------- whole templates

  /** The top-level statements, up to a `return`. */
  function ProgramMeans(w: Fixed, program: seq<Stmt>, s: Point): (e: Exact)
    decreases |program|
  {
    if program == [] then Ends(FlowNext, s)
    else
      var first := StmtMeans(w, program[0], None, s);
      if first.Open? || first.flow == FlowReturn then first else ProgramMeans(w, program[1..], first.at)
  }

  // ------------------------------------------------ one round at a time

  lemma BlockStep(w: Fixed, stmts: seq<Stmt>, i: nat, p: Option<nat>, s: Point)
    requires i < |stmts|
    ensures var first := StmtMeans(w, stmts[i], p, s);
      (BlockMeans(w, stmts[i..], p, s)
       == if first.Open? || first.flow != FlowNext then first else BlockMeans(w, stmts[i + 1..], p, first.at))
  {
    hide StmtMeans;
    assert stmts[i..][1..] == stmts[i + 1..];
  }

  lemma CallStep(w: Fixed, body: seq<Stmt>, i: nat, s: Point)
    requires i < |body|
    ensures var first := StmtMeans(w, body[i], None, s);
      (CallMeans(w, body[i..], s)
       == if first.Open? then Open
          else if first.flow == FlowReturn || first.flow == FlowBreak then Ends(FlowNext, first.at)
          else CallMeans(w, body[i + 1..], first.at))
  {
    hide StmtMeans;
    assert body[i..][1..] == body[i + 1..];
  }

  lemma RecordStep(w: Fixed, body: seq<Stmt>, i: nat, idx: nat, s: Point)
    requires i < |body|
    ensures var first := StmtMeans(w, body[i], Some(idx), s);
      (RecordMeans(w, body[i..], idx, s)
       == if first.Open? then Open else RecordMeans(w, body[i + 1..], idx, first.at))
  {
    hide StmtMeans;
    assert body[i..][1..] == body[i + 1..];
  }

  lemma OverlayStep(w: Fixed, body: seq<Stmt>, i: nat, idx: nat, offset: nat, maxEnd: nat, s: Point)
    requires i < |body| && idx < |s.nodes| && offset <= maxEnd
    ensures var first := StmtMeans(w, body[i], Some(idx), s.(cursor := offset));
      (OverlayMeans(w, body[i..], idx, offset, maxEnd, s)
       == if first.Open? then Open
          else OverlayMeans(w, body[i + 1..], idx, offset, if maxEnd < first.at.cursor then first.at.cursor else maxEnd,
                            first.at))
  {
    hide StmtMeans;
    assert body[i..][1..] == body[i + 1..];
  }

  lemma ProgramStep(w: Fixed, program: seq<Stmt>, i: nat, s: Point)
    requires i < |program|
    ensures var first := StmtMeans(w, program[i], None, s);
      (ProgramMeans(w, program[i..], s)
       == if first.Open? || first.flow == FlowReturn then first else ProgramMeans(w, program[i + 1..], first.at))
  {
    hide StmtMeans;
    assert program[i..][1..] == program[i + 1..];
  }

  lemma RoundStep(w: Fixed, test: Option<Expr>, step: Option<Expr>, body: Stmt, p: Option<nat>, s: Point, stalls: nat)
    ensures (RoundMeans(w, test, step, body, p, s, stalls)
             == if !IsLit(test) then Unknown
                else if test.Some? && test.value.value == 0 then Stops(FlowNext, s)
                else TurnMeans(w, step, body, p, s, stalls))
  {
    hide TurnMeans;
  }

  lemma TurnStep(w: Fixed, step: Option<Expr>, body: Stmt, p: Option<nat>, s: Point, stalls: nat)
    ensures var round := StmtMeans(w, body, p, s);
      (TurnMeans(w, step, body, p, s, stalls)
       == if round.Open? then Unknown
          else if round.flow == FlowBreak then Stops(FlowNext, round.at)
          else if round.flow == FlowReturn then Stops(FlowReturn, round.at)
          else
            var stalled := if round.at.cursor == s.cursor then stalls + 1 else 0;
            if !IsLit(step) || stalled >= 1_000 then Unknown else GoesOn(round.at, stalled))
  {
    hide StmtMeans;
  }

  lemma ElementsStep(w: Fixed, isUnion: bool, body: seq<Stmt>, typeName: string, count: nat, idx: nat, s: Point,
                     stalls: nat)
    requires count > 0
    ensures (ElementsMean(w, isUnion, body, typeName, count, idx, s, stalls)
             == if ResolveType(s.types, typeName, 32) != Some(StructType(isUnion, body)) then Open
                else
                  var one := StructMeans(w, isUnion, body, Some(idx), s);
                  if one.Open? then Open
                  else
                    var stalled := if one.at.cursor == s.cursor then stalls + 1 else 0;
                    if stalled >= 1_000 then Open
                    else ElementsMean(w, isUnion, body, typeName, count - 1, idx, one.at, stalled))
  {
    hide StructMeans, ResolveType;
  }

  lemma ElementsEnd(w: Fixed, isUnion: bool, body: seq<Stmt>, typeName: string, idx: nat, s: Point, stalls: nat)
    ensures ElementsMean(w, isUnion, body, typeName, 0, idx, s, stalls) == Ends(FlowNext, s)
  {
  }

  lemma LoopStep(w: Fixed, bodyFirst: bool, test: Option<Expr>, step: Option<Expr>, body: Stmt, p: Option<nat>,
                 s: Point, stalls: nat)
    ensures (LoopMeans(w, bodyFirst, test, step, body, p, s, stalls)
             == match RoundMeans(w, if bodyFirst then None else test, step, body, p, s, stalls)
                case Unknown => Open
                case Stops(flow, at) => Ends(flow, at)
                case GoesOn(at, stalled) => LoopMeans(w, false, test, step, body, p, at, stalled))
  {
    hide RoundMeans;
  }

  lemma BlockEnd(w: Fixed, p: Option<nat>, s: Point)
    ensures BlockMeans(w, [], p, s) == Ends(FlowNext, s)
  {
  }

  lemma CallEnd(w: Fixed, s: Point)
    ensures CallMeans(w, [], s) == Ends(FlowNext, s)
  {
  }

  lemma RecordEnd(w: Fixed, idx: nat, s: Point)
    ensures RecordMeans(w, [], idx, s) == Ends(FlowNext, s)
  {
  }

  lemma OverlayEnd(w: Fixed, idx: nat, offset: nat, maxEnd: nat, s: Point)
    requires idx < |s.nodes| && offset <= maxEnd
    ensures (OverlayMeans(w, [], idx, offset, maxEnd, s)
             == Ends(FlowNext, s.(cursor := maxEnd, nodes := s.nodes[idx := s.nodes[idx].(length := maxEnd - offset)])))
  {
  }

  lemma ProgramEnd(w: Fixed, s: Point)
    ensures ProgramMeans(w, [], s) == Ends(FlowNext, s)
  {
  }
}
