/**
 The calculator's grammar (crates/hxy-calculator/src/parser.rs) as functions from the text under the cursor
 to what is parsed and the text left. A closing parenthesis is optional: `open` in an expression's result
 counts the parentheses that were still waiting for their closer when the input ran out.
 */
module CalcGrammar {
  import opened Splices
  import opened Numerals

  datatype UnaryOp = Neg | Pos
  datatype BinOp = Add | Sub | Mul | Div | Mod
  datatype MetaKind = Offset | Len

  datatype Segment = Name(name: string) | Index(index: nat)

  datatype Path = Path(root: string, instance: Option<nat>, segments: seq<Segment>, meta: Option<MetaKind>)

  datatype Expr =
    | Literal(value: int)
    | Unary(uop: UnaryOp, inner: Expr)
    | Binary(op: BinOp, left: Expr, right: Expr)
    | PathExpr(path: Path)

  /** A token parser's answer: `Backtrack` leaves the cursor for an alternative, `Cut` ends the whole parse. */
  datatype Parsed<+T> = Ok(value: T, rest: string) | Backtrack | Cut {
    function After(t: string): Parsed<T> {
      if Ok? then Ok(value, rest + t) else this
    }
  }

  datatype Outcome = Done(expr: Expr, rest: string, open: nat) | Failed

  datatype ParseError = Empty | Syntax | TrailingInput(tail: string)
  datatype ParseResult = Tree(expr: Expr) | Error(error: ParseError)

  const I128_MAX: int := 0x7FFF_FFFF_FFFF_FFFF_FFFF_FFFF_FFFF_FFFF
  const U32_MAX: nat := 0xFFFF_FFFF
  const U64_MAX: nat := 0xFFFF_FFFF_FFFF_FFFF

  // ------------------------------------------------------------ characters

  predicate IsSeparator(c: char) {
    c == '_' || c == '`'
  }

  /** What the parser skips between tokens. */
  predicate IsBlank(c: char) {
    c == ' ' || c == '\t'
  }

  /** What is trimmed off both ends of the input: the Unicode white space. */
  predicate IsWhite(c: char) {
    '\t' <= c <= '\r' || c == ' ' || c == '\U{85}' || c == '\U{A0}' || c == '\U{1680}'
    || '\U{2000}' <= c <= '\U{200A}' || c == '\U{2028}' || c == '\U{2029}' || c == '\U{202F}'
    || c == '\U{205F}' || c == '\U{3000}'
  }

  function Lower(c: char): char {
    if 'A' <= c <= 'Z' then c - 'A' + 'a' else c
  }

  function LowerAll(s: string): (r: string)
    ensures |r| == |s|
  {
    seq(|s|, i requires 0 <= i < |s| => Lower(s[i]))
  }

  // ---------------------------------------------------------------- tokens

  function SkipWs(s: string): (r: string)
    ensures |r| <= |s|
    ensures r != "" ==> !IsBlank(r[0])
  {
    if s != "" && IsBlank(s[0]) then SkipWs(s[1..]) else s
  }

  lemma SkipTwice(s: string)
    ensures SkipWs(SkipWs(s)) == SkipWs(s)
  {
  }

  function Without(s: string): (r: string)
    ensures forall c <- r :: c in s && !IsSeparator(c)
  {
    if s == "" then "" else (if IsSeparator(s[0]) then "" else [s[0]]) + Without(s[1..])
  }

  predicate InHex(c: char) {
    IsHexDigit(c) || IsSeparator(c)
  }

  predicate InDecimal(c: char) {
    IsDigit(c) || IsSeparator(c)
  }

  /** Digits and separators up to the first other character; overflow is final. */
  function Digits(s: string, within: char -> bool, radix: nat): (r: Parsed<nat>)
    requires forall c :: within(c) ==> InHex(c)
    ensures r.Ok? ==> |r.rest| < |s|
  {
    var n := Span(within, s);
    var cleaned := Without(s[..n]);
    assert forall c <- cleaned :: c in s[..n] && within(c) && InHex(c);
    if cleaned == "" then Backtrack
    else
      var v := NumberValue(cleaned, radix);
      if v > I128_MAX then Cut else Ok(v, s[n..])
  }

  function HexNumber(s: string): (r: Parsed<nat>)
    ensures r.Ok? ==> |r.rest| < |s|
  {
    if |s| >= 2 && s[0] == '0' && (s[1] == 'x' || s[1] == 'X') then Digits(s[2..], InHex, 16) else Backtrack
  }

  function Number(s: string): (r: Parsed<nat>)
    ensures r.Ok? ==> |r.rest| < |s|
  {
    var hex := HexNumber(s);
    if hex.Backtrack? then Digits(s, InDecimal, 10) else hex
  }

  /** The multiplier of a unit written in lower case, 0 for no unit. */
  function Multiplier(unit: string): nat {
    if unit == "b" then 1
    else if unit == "kb" then 1_000
    else if unit == "kib" then 1_024
    else if unit == "mb" then 1_000_000
    else if unit == "mib" then 1_048_576
    else if unit == "gb" then 1_000_000_000
    else if unit == "gib" then 1_073_741_824
    else if unit == "tb" then 1_000_000_000_000
    else if unit == "tib" then 1_099_511_627_776
    else 0
  }

  /** Up to four letters that spell a unit. */
  function UnitSuffix(s: string): (r: Parsed<nat>)
    ensures !r.Cut?
    ensures r.Ok? ==> |r.rest| < |s|
  {
    var span := Span(IsAlpha, s);
    var n := if span > 4 then 4 else span;
    var m := Multiplier(LowerAll(s[..n]));
    if n == 0 || m == 0 then Backtrack else Ok(m, s[n..])
  }

  function CheckedMul(a: nat, b: nat): Option<nat> {
    if a * b > I128_MAX then None else Some(a * b)
  }

  function NumberWithUnit(s: string): (r: Parsed<nat>)
    ensures r.Ok? ==> |r.rest| < |s|
  {
    var number := Number(s);
    if !number.Ok? then number
    else
      var rest := SkipWs(number.rest);
      var unit := UnitSuffix(rest);
      if unit.Ok? then
        var folded := CheckedMul(number.value, unit.value);
        if folded.None? then Cut else Ok(folded.value, unit.rest)
      else Ok(number.value, rest)
  }

  function Identifier(s: string): (r: Parsed<string>)
    ensures r.Ok? ==> |r.rest| < |s|
  {
    if s == "" || !IsHead(s[0]) then Backtrack
    else
      var n := 1 + Span(IsTail, s[1..]);
      Ok(s[..n], s[n..])
  }

  /** A run of plain digits. */
  function PlainDigits(s: string): (r: Parsed<string>)
    ensures r.Ok? ==> forall c <- r.value :: IsDigit(c)
    ensures r.Ok? ==> |r.rest| < |s|
  {
    var n := Span(IsDigit, s);
    if n == 0 then Backtrack else Ok(s[..n], s[n..])
  }

  function InstanceSuffix(s: string): (r: Parsed<nat>)
    ensures r.Ok? ==> |r.rest| < |s|
  {
    if s == "" || s[0] != '#' then Backtrack
    else
      var digits := PlainDigits(s[1..]);
      if !digits.Ok? then Backtrack
      else
        var n := NumberValue(digits.value, 10);
        if n > U32_MAX then Cut else Ok(n, digits.rest)
  }

  function DottedSegment(s: string): (r: Parsed<Segment>)
    ensures r.Ok? ==> |r.rest| < |s|
  {
    if s == "" || s[0] != '.' then Backtrack
    else
      var name := Identifier(s[1..]);
      if name.Ok? then Ok(Name(name.value), name.rest) else Backtrack
  }

  function IndexedSegment(s: string): (r: Parsed<Segment>)
    ensures r.Ok? ==> |r.rest| < |s|
  {
    if s == "" || s[0] != '[' then Backtrack
    else
      var digits := PlainDigits(s[1..]);
      if !digits.Ok? || digits.rest == "" || digits.rest[0] != ']' then Backtrack
      else
        var n := NumberValue(digits.value, 10);
        if n > U64_MAX then Cut else Ok(Index(n), digits.rest[1..])
  }

  function PathSegment(s: string): (r: Parsed<Segment>)
    ensures r.Ok? ==> |r.rest| < |s|
  {
    var dotted := DottedSegment(s);
    if dotted.Backtrack? then IndexedSegment(s) else dotted
  }

  /** Segments as long as they come. */
  function Segments(s: string): (r: Parsed<seq<Segment>>)
    ensures r.Ok? ==> |r.rest| <= |s|
    decreases |s|
  {
    var first := PathSegment(s);
    if first.Cut? then Cut
    else if first.Backtrack? then Ok([], s)
    else
      var more := Segments(first.rest);
      if more.Ok? then Ok([first.value] + more.value, more.rest) else more
  }

  function MetaSuffix(s: string): (r: Parsed<MetaKind>)
    ensures !r.Cut?
    ensures r.Ok? ==> |r.rest| < |s|
  {
    if |s| < 2 || s[..2] != "::" then Backtrack
    else
      var name := Identifier(s[2..]);
      if !name.Ok? then Backtrack
      else if name.value == "offset" then Ok(Offset, name.rest)
      else if name.value == "len" then Ok(Len, name.rest)
      else Backtrack
  }

  function PathAfterInstance(root: string, instance: Option<nat>, s: string): (r: Parsed<Path>)
    ensures r.Ok? ==> |r.rest| <= |s|
  {
    var segments := Segments(s);
    if !segments.Ok? then Cut
    else
      var meta := MetaSuffix(segments.rest);
      if meta.Ok? then Ok(Path(root, instance, segments.value, Some(meta.value)), meta.rest)
      else Ok(Path(root, instance, segments.value, None), segments.rest)
  }

  function PathOf(s: string): (r: Parsed<Path>)
    ensures r.Ok? ==> |r.rest| < |s|
  {
    var root := Identifier(s);
    if !root.Ok? then Backtrack
    else
      var instance := InstanceSuffix(root.rest);
      if instance.Cut? then Cut
      else if instance.Ok? then PathAfterInstance(root.value, Some(instance.value), instance.rest)
      else PathAfterInstance(root.value, None, root.rest)
  }

  // ----------------------------------------------------------- expressions

  function AdditiveOp(s: string): Option<BinOp> {
    if s == "" then None else if s[0] == '+' then Some(Add) else if s[0] == '-' then Some(Sub) else None
  }

  function MultiplicativeOp(s: string): Option<BinOp> {
    if s == "" then None
    else if s[0] == '*' then Some(Mul)
    else if s[0] == '/' then Some(Div)
    else if s[0] == '%' then Some(Mod)
    else None
  }

  function Additive(s: string): (r: Outcome)
    ensures r.Done? ==> |r.rest| < |s|
    ensures r.Done? && r.open > 0 ==> r.rest == ""
    decreases |s|, 5
  {
    var left := Multiplicative(SkipWs(s));
    if left.Done? then AdditiveLoop(left.expr, left.rest, left.open) else Failed
  }

  function AdditiveLoop(left: Expr, s: string, open: nat): (r: Outcome)
    requires open > 0 ==> s == ""
    ensures r.Done? ==> |r.rest| <= |s|
    ensures r.Done? && r.open > 0 ==> r.rest == ""
    decreases |s|, 6
  {
    var s1 := SkipWs(s);
    var op := AdditiveOp(s1);
    if op.None? then Done(left, s1, open)
    else
      var right := Multiplicative(SkipWs(s1[1..]));
      if right.Done? then AdditiveLoop(Binary(op.value, left, right.expr), right.rest, right.open) else Failed
  }

  function Multiplicative(s: string): (r: Outcome)
    ensures r.Done? ==> |r.rest| < |s|
    ensures r.Done? && r.open > 0 ==> r.rest == ""
    decreases |s|, 3
  {
    var left := ParseUnary(SkipWs(s));
    if left.Done? then MultiplicativeLoop(left.expr, left.rest, left.open) else Failed
  }

  function MultiplicativeLoop(left: Expr, s: string, open: nat): (r: Outcome)
    requires open > 0 ==> s == ""
    ensures r.Done? ==> |r.rest| <= |s|
    ensures r.Done? && r.open > 0 ==> r.rest == ""
    decreases |s|, 4
  {
    var s1 := SkipWs(s);
    var op := MultiplicativeOp(s1);
    if op.None? then Done(left, s1, open)
    else
      var right := ParseUnary(SkipWs(s1[1..]));
      if right.Done? then MultiplicativeLoop(Binary(op.value, left, right.expr), right.rest, right.open) else Failed
  }

  function ParseUnary(s: string): (r: Outcome)
    ensures r.Done? ==> |r.rest| < |s|
    ensures r.Done? && r.open > 0 ==> r.rest == ""
    decreases |s|, 2
  {
    var s1 := SkipWs(s);
    if s1 != "" && (s1[0] == '-' || s1[0] == '+') then
      var inner := ParseUnary(SkipWs(s1[1..]));
      if inner.Done? then Done(Unary(if s1[0] == '-' then Neg else Pos, inner.expr), inner.rest, inner.open)
      else Failed
    else Primary(s1)
  }

  function Primary(s: string): (r: Outcome)
    ensures r.Done? ==> |r.rest| < |s|
    ensures r.Done? && r.open > 0 ==> r.rest == ""
    decreases |s|, 1
  {
    var s1 := SkipWs(s);
    if s1 != "" && s1[0] == '(' then ParenExpr(s1)
    else if s1 != "" && IsDigit(s1[0]) then
      var number := NumberWithUnit(s1);
      if number.Ok? then Done(Literal(number.value), number.rest, 0) else Failed
    else
      var path := PathOf(s1);
      if path.Ok? then Done(PathExpr(path.value), path.rest, 0) else Failed
  }

  function ParenExpr(s: string): (r: Outcome)
    requires s != "" && s[0] == '('
    ensures r.Done? ==> |r.rest| < |s|
    ensures r.Done? && r.open > 0 ==> r.rest == ""
    decreases |s|, 0
  {
    var inner := Additive(SkipWs(s[1..]));
    if !inner.Done? then Failed
    else
      var s1 := SkipWs(inner.rest);
      var open := if s1 == "" then inner.open + 1 else inner.open;
      var s2 := SkipWs(if s1 != "" && s1[0] == ')' then s1[1..] else s1);
      var unit := UnitSuffix(s2);
      if unit.Ok? then Done(Binary(Mul, inner.expr, Literal(unit.value)), unit.rest, open)
      else Done(inner.expr, s2, open)
  }

  // ------------------------------------------------------------- the entry

  function TrimStart(s: string): (r: string)
    ensures |r| <= |s|
  {
    if s != "" && IsWhite(s[0]) then TrimStart(s[1..]) else s
  }

  function TrimEnd(s: string): (r: string)
    ensures |r| <= |s|
  {
    if s != "" && IsWhite(s[|s| - 1]) then TrimEnd(s[..|s| - 1]) else s
  }

  function Trim(s: string): string {
    TrimEnd(TrimStart(s))
  }

  function Parse(input: string): ParseResult {
    var trimmed := Trim(input);
    if trimmed == "" then Error(Empty)
    else
      var tree := Additive(trimmed);
      if !tree.Done? then Error(Syntax)
      else
        var tail := SkipWs(tree.rest);
        if tail != "" then Error(TrailingInput(tail)) else Tree(tree.expr)
  }
}
