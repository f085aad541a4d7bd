/**
 The calculator's parser as it runs: one cursor that every parsing step moves forward, and loops that grow
 the left operand (crates/hxy-calculator/src/parser.rs:233-340). Each step leaves the tree and the cursor that
 the grammar's functions give.
 */
module CalcParser {
  import opened Splices
  import opened Numerals
  import opened G = CalcGrammar

  /** What a step answers and where it leaves the cursor; after a failure the cursor does not matter. */
  predicate Answers(outcome: Outcome, tree: Option<Expr>, input: string) {
    if outcome.Done? then tree == Some(outcome.expr) && input == outcome.rest else tree.None?
  }

  class Cursor {
    var input: string

    constructor (input: string)
      ensures this.input == input
    {
      this.input := input;
    }

    method SkipBlanks()
      modifies this
      ensures input == SkipWs(old(input))
    {
      while input != "" && IsBlank(input[0])
        invariant SkipWs(input) == SkipWs(old(input))
        decreases |input|
      {
        input := input[1..];
      }
    }

    method Additive() returns (tree: Option<Expr>)
      modifies this
      ensures Answers(G.Additive(old(input)), tree, input)
      decreases |input|, 5
    {
      hide G.Multiplicative;
      SkipBlanks();
      ghost var first := G.Multiplicative(input);
      tree := Multiplicative();
      if tree.None? {
        return;
      }
      var left := tree.value;
      ghost var open := first.open;
      ghost var whole := G.AdditiveLoop(left, input, open);
      while true
        invariant |input| < |old(input)|
        invariant open > 0 ==> input == ""
        invariant G.AdditiveLoop(left, input, open) == whole
        decreases |input|
      {
        SkipTwice(input);
        SkipBlanks();
        var op := AdditiveOp(input);
        if op.None? {
          return Some(left);
        }
        input := input[1..];
        SkipBlanks();
        ghost var second := G.Multiplicative(input);
        var right := Multiplicative();
        if right.None? {
          return None;
        }
        left := Binary(op.value, left, right.value);
        open := second.open;
      }
    }

    method Multiplicative() returns (tree: Option<Expr>)
      modifies this
      ensures Answers(G.Multiplicative(old(input)), tree, input)
      decreases |input|, 3
    {
      hide G.ParseUnary;
      SkipBlanks();
      ghost var first := G.ParseUnary(input);
      tree := Unary();
      if tree.None? {
        return;
      }
      var left := tree.value;
      ghost var open := first.open;
      ghost var whole := G.MultiplicativeLoop(left, input, open);
      while true
        invariant |input| < |old(input)|
        invariant open > 0 ==> input == ""
        invariant G.MultiplicativeLoop(left, input, open) == whole
        decreases |input|
      {
        SkipTwice(input);
        SkipBlanks();
        var op := MultiplicativeOp(input);
        if op.None? {
          return Some(left);
        }
        input := input[1..];
        SkipBlanks();
        ghost var second := G.ParseUnary(input);
        var right := Unary();
        if right.None? {
          return None;
        }
        left := Binary(op.value, left, right.value);
        open := second.open;
      }
    }

    method Unary() returns (tree: Option<Expr>)
      modifies this
      ensures Answers(G.ParseUnary(old(input)), tree, input)
      decreases |input|, 2
    {
      hide G.Primary;
      SkipBlanks();
      if input != "" && (input[0] == '-' || input[0] == '+') {
        var op := if input[0] == '-' then Neg else Pos;
        input := input[1..];
        SkipBlanks();
        var inner := Unary();
        return if inner.Some? then Some(Expr.Unary(op, inner.value)) else None;
      }
      tree := Primary();
    }

    method Primary() returns (tree: Option<Expr>)
      modifies this
      ensures Answers(G.Primary(old(input)), tree, input)
      decreases |input|, 1
    {
      hide G.ParenExpr, G.NumberWithUnit, G.PathOf;
      SkipBlanks();
      if input != "" && input[0] == '(' {
        tree := ParenExpr();
      } else if input != "" && IsDigit(input[0]) {
        tree := NumberWithUnit();
      } else {
        var path := ParsePath();
        tree := if path.Some? then Some(PathExpr(path.value)) else None;
      }
    }

    method ParenExpr() returns (tree: Option<Expr>)
      requires input != "" && input[0] == '('
      modifies this
      ensures Answers(G.ParenExpr(old(input)), tree, input)
      decreases |input|, 0
    {
      hide G.Additive, G.UnitSuffix;
      input := input[1..];
      SkipBlanks();
      tree := Additive();
      if tree.None? {
        return;
      }
      SkipBlanks();
      if input != "" && input[0] == ')' {
        input := input[1..];
      }
      SkipBlanks();
      var unit := UnitSuffix(input);
      if unit.Ok? {
        input := unit.rest;
        tree := Some(Binary(Mul, tree.value, Literal(unit.value)));
      }
    }

    method NumberWithUnit() returns (tree: Option<Expr>)
      modifies this
      ensures var number := G.NumberWithUnit(old(input));
        if number.Ok? then tree == Some(Literal(number.value)) && input == number.rest else tree.None?
    {
      hide G.Number, G.UnitSuffix, G.CheckedMul;
      var number := Number(input);
      if !number.Ok? {
        return None;
      }
      input := number.rest;
      SkipBlanks();
      var unit := UnitSuffix(input);
      if !unit.Ok? {
        return Some(Literal(number.value));
      }
      input := unit.rest;
      var folded := CheckedMul(number.value, unit.value);
      tree := if folded.Some? then Some(Literal(folded.value)) else None;
    }

    /** `path`: the root, its optional run number, segments as long as they come, and the optional meta. */
    method ParsePath() returns (path: Option<Path>)
      modifies this
      ensures var parsed := G.PathOf(old(input));
        if parsed.Ok? then path == Some(parsed.value) && input == parsed.rest else path.None?
    {
      hide G.Identifier, G.InstanceSuffix, G.PathSegment, G.MetaSuffix;
      var root := Identifier(input);
      if !root.Ok? {
        return None;
      }
      input := root.rest;
      var suffix := InstanceSuffix(input);
      if suffix.Cut? {
        return None;
      }
      var instance: Option<nat> := None;
      if suffix.Ok? {
        instance := Some(suffix.value);
        input := suffix.rest;
      }
      var segments := RepeatSegments();
      if segments.None? {
        return None;
      }
      var meta := MetaSuffix(input);
      if meta.Ok? {
        input := meta.rest;
        return Some(Path(root.value, instance, segments.value, Some(meta.value)));
      }
      path := Some(Path(root.value, instance, segments.value, None));
    }

    method RepeatSegments() returns (segments: Option<seq<Segment>>)
      modifies this
      ensures var parsed := G.Segments(old(input));
        if parsed.Ok? then segments == Some(parsed.value) && input == parsed.rest else segments.None?
    {
      hide G.PathSegment;
      var got: seq<Segment> := [];
      assert G.Segments(input).Ok? ==> got + G.Segments(input).value == G.Segments(input).value;
      while true
        invariant var parsed, rest := G.Segments(old(input)), G.Segments(input);
          if rest.Ok? then parsed == Ok(got + rest.value, rest.rest) else !parsed.Ok?
        decreases |input|
      {
        var next := PathSegment(input);
        if next.Cut? {
          return None;
        }
        if next.Backtrack? {
          assert got + [] == got;
          return Some(got);
        }
        ghost var rest := G.Segments(next.rest);
        assert rest.Ok? ==> got + ([next.value] + rest.value) == got + [next.value] + rest.value;
        got := got + [next.value];
        input := next.rest;
      }
    }
  }

  /** `parse`. */
  method ParseInput(input: string) returns (result: ParseResult)
    ensures result == Parse(input)
  {
    hide G.Additive;
    var trimmed := Trim(input);
    if trimmed == "" {
      return Error(Empty);
    }
    var cursor := new Cursor(trimmed);
    var tree := cursor.Additive();
    if tree.None? {
      return Error(Syntax);
    }
    cursor.SkipBlanks();
    result := if cursor.input != "" then Error(TrailingInput(cursor.input)) else Tree(tree.value);
  }
}
