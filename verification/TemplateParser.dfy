/**
 The parser object: a token vector and a position that every method moves on,
 proved against the grammar functions (crates/hxy-010-lang/src/parser.rs).
 */
module TemplateParser {
  import opened Splices
  import opened ExprGrammar
  import opened StmtGrammar
  import S = StmtGrammar

  /** The tokens from `pos` on. */
  function Stream(tokens: seq<Token>, pos: nat): (s: Toks)
    ensures s.Len() == if pos <= |tokens| then |tokens| - pos else 0
    decreases |tokens| - pos
  {
    if pos >= |tokens| then End else Cons(tokens[pos], Stream(tokens, pos + 1))
  }

  datatype Outcome<+T> = Good(value: T) | Bad(error: ParseError)

  /** The method's outcome and position are what the grammar function says. */
  predicate Agrees<T(==)>(r: Outcome<T>, rest: Toks, p: Parsed<T>) {
    match p
    case Ok(value, after) => r == Good(value) && rest == after
    case Err(error) => r == Bad(error)
  }

  /** A cast's type and its parenthesis are passed over. */
  lemma CastReads(s: Toks)
    requires DetectCastType(s) > 0
    ensures var target := Drop(s, DetectCastType(s));
      target.StartsWith(RParen) && ParsePrefix(Cons(LParen, s)) == ParseBp(target.tl, PREFIX_BP)
  {
    hide ParseBp;
    if DetectCastType(s) == 2 {
      assert Drop(s, 2) == Drop(s.tl, 1) == s.tl.tl;
    }
  }

  class Parser {
    const tokens: seq<Token>
    var pos: nat

    constructor (input: seq<Token>)
      ensures tokens == input && pos == 0
    {
      tokens, pos := input, 0;
    }

    /** The tokens not yet consumed. */
    ghost function Rest(): Toks
      reads this`pos
    {
      Stream(tokens, pos)
    }

    predicate AtEof()
      reads this`pos
      ensures AtEof() <==> Rest().End?
    {
      pos >= |tokens|
    }

    function Peek(): Token
      reads this`pos
      requires !AtEof()
      ensures Rest() == Cons(Peek(), Stream(tokens, pos + 1))
    {
      tokens[pos]
    }

    predicate PeekIs(t: Token)
      reads this`pos
      ensures PeekIs(t) <==> Rest().StartsWith(t)
    {
      pos < |tokens| && tokens[pos] == t
    }

    method Bump() returns (t: Token)
      requires !AtEof()
      modifies this`pos
      ensures old(Rest()) == Cons(t, Rest()) && pos == old(pos) + 1
    {
      t := tokens[pos];
      pos := pos + 1;
    }

    method ExpectKind(t: Token) returns (r: Outcome<()>)
      modifies this`pos
      ensures Agrees(r, Rest(), Expect(old(Rest()), t))
      ensures r.Good? ==> pos == old(pos) + 1
      ensures pos >= old(pos)
    {
      if AtEof() {
        return Bad(UnexpectedEof);
      }
      if Peek() == t {
        var _ := Bump();
        return Good(());
      }
      r := Bad(Unexpected(Peek()));
    }

    method EatKind(t: Token) returns (eaten: bool)
      modifies this`pos
      ensures eaten <==> old(Rest()).StartsWith(t)
      ensures if eaten then old(Rest()) == Cons(t, Rest()) && pos == old(pos) + 1 else pos == old(pos)
    {
      eaten := PeekIs(t);
      if eaten {
        var _ := Bump();
      }
    }

    /** How many tokens after `(` form a cast's type; zero when it is no cast. */
    method DetectCast() returns (skip: nat)
      ensures skip == DetectCastType(Rest())
    {
      if AtEof() || !tokens[pos].Ident? {
        return 0;
      }
      var name := tokens[pos].name;
      ghost var s1, s2 := Stream(tokens, pos + 1), Stream(tokens, pos + 2);
      ghost var s3, s4 := Stream(tokens, pos + 3), Stream(tokens, pos + 4);
      assert Rest() == Cons(tokens[pos], s1);
      assert s1 == if pos + 1 < |tokens| then Cons(tokens[pos + 1], s2) else End;
      assert s2 == if pos + 2 < |tokens| then Cons(tokens[pos + 2], s3) else End;
      assert s3 == if pos + 3 < |tokens| then Cons(tokens[pos + 3], s4) else End;
      var compound := (name == "unsigned" || name == "signed") && pos + 1 < |tokens| && tokens[pos + 1].Ident?;
      var k := if compound then 2 else 1;
      if pos + k < |tokens| && tokens[pos + k] == RParen
         && pos + k + 1 < |tokens| && StartsExpr(tokens[pos + k + 1]) {
        return k;
      }
      return 0;
    }

    method ParseExprBp(minBp: nat) returns (r: Outcome<Expr>)
      modifies this`pos
      ensures Agrees(r, Rest(), ParseBp(old(Rest()), minBp))
      ensures pos >= old(pos)
      decreases Rest().Len(), 3
    {
      ghost var whole := ParseBp(Rest(), minBp);
      r := ParsePrefixExpr();
      if r.Bad? {
        return;
      }
      var lhs := r.value;
      var more := true;
      while more
        invariant pos >= old(pos)
        invariant more ==> Rest().Len() < old(Rest()).Len() && whole == ParseLoop(lhs, Rest(), minBp)
        invariant !more ==> Agrees(r, Rest(), whole)
        decreases more, Rest().Len()
      {
        r, more := ParseOperator(lhs, minBp);
        if more {
          lhs := r.value;
        }
      }
    }

    /** One turn of the operator loop: `more` is false when the expression ends or fails here. */
    method ParseOperator(lhs: Expr, minBp: nat) returns (r: Outcome<Expr>, more: bool)
      modifies this`pos
      ensures pos >= old(pos)
      ensures more ==> r.Good? && Rest().Len() < old(Rest()).Len()
      ensures more ==> ParseLoop(lhs, old(Rest()), minBp) == ParseLoop(r.value, Rest(), minBp)
      ensures !more ==> Agrees(r, Rest(), ParseLoop(lhs, old(Rest()), minBp))
      decreases Rest().Len(), 1
    {
      if AtEof() {
        return Good(lhs), false;
      }
      var t := Peek();
      if t in {LParen, LBracket, Dot, PlusPlus, MinusMinus} {
        r, more := ParsePostfix(lhs, minBp);
        return;
      }
      var infix := InfixBindingPower(t);
      if infix.Infix? {
        if infix.left < minBp {
          return Good(lhs), false;
        }
        var _ := Bump();
        var rhs := ParseExprBp(infix.right);
        if rhs.Bad? {
          return rhs, false;
        }
        return Good(Binary(infix.op, lhs, rhs.value)), true;
      }
      if t == Question {
        if TERNARY_BP < minBp {
          return Good(lhs), false;
        }
        r, more := ParseTernary(lhs, minBp);
        return;
      }
      if AssignOperator(t).AssignWith? {
        if ASSIGN_BP < minBp {
          return Good(lhs), false;
        }
        var _ := Bump();
        var rvalue := ParseExprBp(ASSIGN_BP);
        if rvalue.Bad? {
          return rvalue, false;
        }
        return Good(Assignment(AssignOperator(t).op, lhs, rvalue.value)), true;
      }
      return Good(lhs), false;
    }

    method ParseTernary(lhs: Expr, minBp: nat) returns (r: Outcome<Expr>, more: bool)
      requires Rest().StartsWith(Question) && TERNARY_BP >= minBp
      modifies this`pos
      ensures pos >= old(pos)
      ensures more ==> r.Good? && Rest().Len() < old(Rest()).Len()
      ensures more ==> ParseLoop(lhs, old(Rest()), minBp) == ParseLoop(r.value, Rest(), minBp)
      ensures !more ==> Agrees(r, Rest(), ParseLoop(lhs, old(Rest()), minBp))
      decreases Rest().Len(), 0
    {
      var _ := Bump();
      var thenVal := ParseExprBp(0);
      if thenVal.Bad? {
        return thenVal, false;
      }
      var colon := ExpectKind(Colon);
      if colon.Bad? {
        return Bad(colon.error), false;
      }
      var elseVal := ParseExprBp(TERNARY_BP);
      if elseVal.Bad? {
        return elseVal, false;
      }
      return Good(Ternary(lhs, thenVal.value, elseVal.value)), true;
    }

    method ParsePostfix(lhs: Expr, minBp: nat) returns (r: Outcome<Expr>, more: bool)
      requires !AtEof() && Peek() in {LParen, LBracket, Dot, PlusPlus, MinusMinus}
      modifies this`pos
      ensures pos >= old(pos)
      ensures more ==> r.Good? && Rest().Len() < old(Rest()).Len()
      ensures more ==> ParseLoop(lhs, old(Rest()), minBp) == ParseLoop(r.value, Rest(), minBp)
      ensures !more ==> Agrees(r, Rest(), ParseLoop(lhs, old(Rest()), minBp))
      decreases Rest().Len(), 0
    {
      var t := Bump();
      if t == LParen {
        var args := ParseCallArgs();
        if args.Bad? {
          return Bad(args.error), false;
        }
        var close := ExpectKind(RParen);
        return if close.Bad? then Bad(close.error) else Good(Call(lhs, args.value)), close.Good?;
      }
      if t == LBracket {
        var index := ParseExprBp(0);
        if index.Bad? {
          return index, false;
        }
        var close := ExpectKind(RBracket);
        return if close.Bad? then Bad(close.error) else Good(Index(lhs, index.value)), close.Good?;
      }
      if t == Dot {
        if AtEof() {
          return Bad(UnexpectedEof), false;
        }
        if !Peek().Ident? {
          return Bad(Unexpected(Peek())), false;
        }
        var field := Bump();
        return Good(Member(lhs, field.name)), true;
      }
      return Good(Unary(if t == PlusPlus then PostInc else PostDec, lhs)), true;
    }

    method ParseCallArgs() returns (r: Outcome<seq<Expr>>)
      modifies this`pos
      ensures Agrees(r, Rest(), ParseArgs(old(Rest())))
      ensures pos >= old(pos)
      decreases Rest().Len(), 5
    {
      if PeekIs(RParen) {
        return Good([]);
      }
      var args: seq<Expr> := [];
      ghost var whole := ParseArgList(Rest());
      PrefixNothing(whole);
      while true
        invariant pos >= old(pos) && Rest().Len() <= old(Rest()).Len()
        invariant whole == Prefixed(args, ParseArgList(Rest()))
        decreases Rest().Len()
      {
        ghost var before := args;
        var arg := ParseExprBp(1);
        if arg.Bad? {
          return Bad(arg.error);
        }
        args := args + [arg.value];
        ghost var more := Rest();
        var comma := EatKind(Comma);
        if !comma {
          return Good(args);
        }
        PrefixMore(before, arg.value, ParseArgList(more.tl));
      }
    }

    method ParsePrefixExpr() returns (r: Outcome<Expr>)
      modifies this`pos
      ensures Agrees(r, Rest(), ParsePrefix(old(Rest())))
      ensures pos >= old(pos)
      decreases Rest().Len(), 2
    {
      hide ParseBp, ParseBraceList;
      if AtEof() {
        return Bad(UnexpectedEof);
      }
      var t := Peek();
      if t == LParen {
        r := ParseParen();
        return;
      }
      if t == LBrace {
        var _ := Bump();
        r := ParseBraces();
        return;
      }
      if t == Kw(Sizeof) {
        r := ParseSizeof();
        return;
      }
      if IsPrefixToken(t) {
        var _ := Bump();
        var operand := ParseExprBp(PREFIX_BP);
        return if operand.Bad? then operand else Good(Unary(PrefixOperator(t), operand.value));
      }
      r := ParseAtom();
    }

    /** A literal, a name, or nothing an expression begins with. */
    method ParseAtom() returns (r: Outcome<Expr>)
      requires !AtEof() && !IsPrefixToken(tokens[pos]) && tokens[pos] !in {LParen, LBrace, Kw(Sizeof)}
      modifies this`pos
      ensures Agrees(r, Rest(), ParsePrefix(old(Rest())))
      ensures pos >= old(pos)
      decreases Rest().Len(), 1
    {
      hide ParseBp, ParseBraceList;
      var t := Peek();
      match t {
        case Int(v) => r := Good(IntLit(v));
        case Float(text) => r := Good(FloatLit(text));
        case Str(content) => r := Good(StringLit(content));
        case Chr(code) => r := Good(CharLit(code));
        case Ident(name) => r := Good(Name(name));
        case Kw(True) => r := Good(IntLit(1));
        case Kw(False) => r := Good(IntLit(0));
        case _ => r := Bad(NotAnExpression(t));
      }
      if r.Good? {
        var _ := Bump();
      }
    }

    method ParseSizeof() returns (r: Outcome<Expr>)
      requires Rest().StartsWith(Kw(Sizeof))
      modifies this`pos
      ensures Agrees(r, Rest(), ParsePrefix(old(Rest())))
      ensures pos >= old(pos)
      decreases Rest().Len(), 1
    {
      var _ := Bump();
      var open := ExpectKind(LParen);
      if open.Bad? {
        return Bad(open.error);
      }
      var tagged := EatKind(Kw(Struct));
      if !tagged {
        tagged := EatKind(Kw(Union));
      }
      if !tagged {
        tagged := EatKind(Kw(Enum));
      }
      var inner := ParseExprBp(0);
      if inner.Bad? {
        return inner;
      }
      var close := ExpectKind(RParen);
      return if close.Bad? then Bad(close.error) else Good(Call(Name("sizeof"), [inner.value]));
    }

    /** A cast, whose type is dropped, or a group, whose parentheses are. */
    method ParseParen() returns (r: Outcome<Expr>)
      requires Rest().StartsWith(LParen)
      modifies this`pos
      ensures Agrees(r, Rest(), ParsePrefix(old(Rest())))
      ensures pos >= old(pos)
      decreases Rest().Len(), 1
    {
      hide ParsePrefix, ParseBp, DetectCastType, Drop;
      var _ := Bump();
      var skip := DetectCast();
      if skip > 0 {
        CastReads(Rest());
        DropLen(Rest(), skip);
        StreamDrop(tokens, pos, skip);
        pos := pos + skip;
        var _ := ExpectKind(RParen);
        r := ParseExprBp(PREFIX_BP);
      } else {
        r := ParseGrouped();
      }
    }

    /** Behind a parenthesis that opens no cast: an expression and the closing parenthesis. */
    method ParseGrouped() returns (r: Outcome<Expr>)
      requires DetectCastType(Rest()) == 0
      modifies this`pos
      ensures Agrees(r, Rest(), ParsePrefix(Cons(LParen, old(Rest()))))
      ensures pos >= old(pos)
      decreases Rest().Len(), 6
    {
      hide ParseBp, DetectCastType;
      r := ParseExprBp(0);
      if r.Bad? {
        return;
      }
      var close := ExpectKind(RParen);
      if close.Bad? {
        r := Bad(close.error);
      }
    }

    method ParseBraces() returns (r: Outcome<Expr>)
      modifies this`pos
      ensures Agrees(r, Rest(), ParseBraceList(old(Rest())))
      ensures pos >= old(pos)
      decreases Rest().Len(), 6
    {
      hide ParseBp;
      var empty := EatKind(RBrace);
      if empty {
        return Good(IntLit(0));
      }
      var first := ParseExprBp(1);
      if first.Bad? {
        return first;
      }
      ghost var tail := ParseBraceTail(Rest());
      var comma := EatKind(Comma);
      ghost var start := old(Rest());
      while comma
        invariant pos >= old(pos) && Rest().Len() < start.Len()
        invariant tail == if comma then ParseBraceTail(Cons(Comma, Rest())) else Ok((), Rest())
        decreases comma, Rest().Len()
      {
        if PeekIs(RBrace) {
          comma := false;
        } else {
          var dropped := ParseExprBp(1);
          if dropped.Bad? {
            return Bad(dropped.error);
          }
          comma := EatKind(Comma);
        }
      }
      var close := ExpectKind(RBrace);
      return if close.Bad? then Bad(close.error) else first;
    }

    // -------------------------------------------------------- lookahead

    function PeekAt(n: nat): Option<Token>
      reads this`pos
      ensures PeekAt(n) == Ahead(Rest(), n)
    {
      StreamAhead(tokens, pos, n);
      if pos + n < |tokens| then Some(tokens[pos + n]) else None
    }

    predicate PeekAtIsIdent(n: nat)
      reads this`pos
      ensures PeekAtIsIdent(n) <==> AheadIsIdent(Rest(), n)
    {
      PeekAt(n).Some? && PeekAt(n).value.Ident?
    }

    /** `looks_like_function_def`: a scan to the parenthesis that closes the parameters. */
    method SeesFunctionDef() returns (b: bool)
      ensures b == LooksLikeFunctionDef(Rest())
    {
      hide LooksLikeParam;
      if !(PeekAtIsIdent(0) || PeekAt(0) == Some(Kw(Void))) || !PeekAtIsIdent(1) || PeekAt(2) != Some(LParen) {
        return false;
      }
      StreamDrop(tokens, pos, 3);
      ghost var params := Stream(tokens, pos + 3);
      var depth, idx := 1, pos + 3;
      while idx < |tokens| && depth > 0
        invariant pos + 3 <= idx && (depth > 0 || idx <= |tokens|)
        invariant (AfterClosing(params, 1)
                   == if depth > 0 then AfterClosing(Stream(tokens, idx), depth) else Some(Stream(tokens, idx)))
        decreases |tokens| - idx
      {
        if tokens[idx] == LParen {
          depth := depth + 1;
        } else if tokens[idx] == RParen {
          depth := depth - 1;
        }
        idx := idx + 1;
      }
      if depth > 0 {
        return false;
      }
      StreamAhead(tokens, idx, 0);
      var body := idx < |tokens| && tokens[idx] == LBrace;
      var proto := idx < |tokens| && tokens[idx] == Semi;
      if proto && PeekAt(0) != Some(Kw(Void)) {
        proto := FirstArgLooksLikeParam();
      }
      return body || proto;
    }

    /** `first_arg_looks_like_param`. */
    method FirstArgLooksLikeParam() returns (b: bool)
      requires pos + 3 <= |tokens|
      ensures b == LooksLikeParam(Drop(Rest(), 3))
    {
      hide S.SkipQualifier, SkipTag, SkipSign, Drop;
      StreamDrop(tokens, pos, 3);
      var i := SkipPrefixes(pos + 3);
      if i >= |tokens| || !tokens[i].Ident? {
        return false;
      }
      i := i + 1;
      ghost var typed := Stream(tokens, i);
      if i < |tokens| && tokens[i] == Amp {
        i := i + 1;
      }
      ghost var name := Stream(tokens, i);
      assert name == if typed.StartsWith(Amp) then typed.tl else typed;
      assert name.Cons? ==> name.tl == Stream(tokens, i + 1);
      if i >= |tokens| || !tokens[i].Ident? {
        return false;
      }
      return i + 1 < |tokens| && (tokens[i + 1] == Comma || tokens[i + 1] == RParen);
    }

    /** Past the optional qualifier, tag and sign. */
    method SkipPrefixes(start: nat) returns (i: nat)
      ensures start <= i
      ensures Stream(tokens, i) == SkipSign(SkipTag(S.SkipQualifier(Stream(tokens, start))))
    {
      hide S.SkipQualifier, SkipTag, SkipSign;
      i := SkipQualifierAt(start);
      i := SkipTagAt(i);
      i := SkipSignAt(i);
    }

    method SkipQualifierAt(i: nat) returns (j: nat)
      ensures i <= j && Stream(tokens, j) == S.SkipQualifier(Stream(tokens, i))
    {
      j := if i < |tokens| && (tokens[i] == Kw(Local) || tokens[i] == Kw(Const)) then i + 1 else i;
    }

    method SkipTagAt(i: nat) returns (j: nat)
      ensures i <= j && Stream(tokens, j) == SkipTag(Stream(tokens, i))
    {
      j := if i < |tokens| && (tokens[i] == Kw(Struct) || tokens[i] == Kw(Union) || tokens[i] == Kw(Enum)) then i + 1
           else i;
    }

    method SkipSignAt(i: nat) returns (j: nat)
      ensures i <= j && Stream(tokens, j) == SkipSign(Stream(tokens, i))
    {
      j := if i < |tokens| && (tokens[i] == Ident("unsigned") || tokens[i] == Ident("signed")) then i + 1 else i;
    }

    // ------------------------------------------------------ declarations

    method ExpectIdentifier() returns (r: Outcome<string>)
      modifies this`pos
      ensures Agrees(r, Rest(), ExpectIdent(old(Rest())))
      ensures pos >= old(pos)
    {
      if AtEof() {
        return Bad(UnexpectedEof);
      }
      if !Peek().Ident? {
        return Bad(Unexpected(Peek()));
      }
      var t := Bump();
      r := Good(t.name);
    }

    /** `parse_type_ref`. */
    method TypeReference() returns (r: Outcome<string>)
      modifies this`pos
      ensures Agrees(r, Rest(), ParseTypeRef(old(Rest())))
      ensures pos >= old(pos)
    {
      hide S.NamedType;
      if PeekIs(Kw(Void)) {
        var _ := Bump();
        return Good("void");
      }
      var signed := PeekIs(Ident("signed"));
      var modified := (signed || PeekIs(Ident("unsigned"))) && PeekAtIsIdent(1);
      if modified {
        var _ := Bump();
      }
      r := NamedType(modified, signed);
    }

    /** The name of a type behind its modifier. */
    method NamedType(modified: bool, signed: bool) returns (r: Outcome<string>)
      modifies this`pos
      ensures Agrees(r, Rest(), S.NamedType(old(Rest()), modified, signed))
      ensures pos >= old(pos)
    {
      hide RenameSignedness;
      ghost var s1 := Rest();
      assert s1.Cons? ==> Ahead(s1, 1) == Ahead(s1.tl, 0);
      if (PeekIs(Kw(Struct)) || PeekIs(Kw(Union))) && PeekAtIsIdent(1) {
        var _ := Bump();
        r := ExpectIdentifier();
        return;
      }
      r := ExpectIdentifier();
      if r.Good? && modified {
        r := Good(RenameSignedness(r.value, signed));
      }
    }

    /** The `local` and `const` prefix. */
    method Modifiers() returns (modifier: Modifier)
      modifies this`pos
      ensures (modifier, Rest()) == ParseModifiers(old(Rest()), FieldModifier)
      ensures pos >= old(pos)
    {
      modifier := FieldModifier;
      while true
        invariant pos >= old(pos)
        invariant ParseModifiers(Rest(), modifier) == ParseModifiers(old(Rest()), FieldModifier)
        decreases Rest().Len()
      {
        if PeekIs(Kw(Local)) {
          var _ := Bump();
          if modifier != ConstModifier {
            modifier := LocalModifier;
          }
        } else if PeekIs(Kw(Const)) {
          var _ := Bump();
          modifier := ConstModifier;
        } else {
          return;
        }
      }
    }

    /** `parse_optional_array_dim`. */
    method OptionalArrayDim() returns (r: Outcome<Option<Expr>>)
      modifies this`pos
      ensures Agrees(r, Rest(), ParseOptionalArrayDim(old(Rest())))
      ensures pos >= old(pos)
    {
      hide ParseBp;
      var open := EatKind(LBracket);
      if !open {
        return Good(None);
      }
      var empty := EatKind(RBracket);
      if empty {
        return Good(Some(IntLit(0)));
      }
      var size := ParseExprBp(0);
      if size.Bad? {
        return Bad(size.error);
      }
      var close := ExpectKind(RBracket);
      return if close.Bad? then Bad(close.error) else Good(Some(size.value));
    }

    method SkipDims() returns (r: Outcome<()>)
      modifies this`pos
      ensures Agrees(r, Rest(), SkipArrayDims(old(Rest())))
      ensures pos >= old(pos)
    {
      hide ParseOptionalArrayDim;
      while PeekIs(LBracket)
        invariant pos >= old(pos)
        invariant SkipArrayDims(Rest()) == SkipArrayDims(old(Rest()))
        decreases Rest().Len()
      {
        ghost var before := Rest();
        var dim := OptionalArrayDim();
        if dim.Bad? {
          return Bad(dim.error);
        }
        assert ParseOptionalArrayDim(before) == Ok(dim.value, Rest());
      }
      r := Good(());
    }

    method OptionalArgs() returns (r: Outcome<seq<Expr>>)
      modifies this`pos
      ensures Agrees(r, Rest(), ParseOptionalArgs(old(Rest())))
      ensures pos >= old(pos)
    {
      hide ParseArgs;
      var open := EatKind(LParen);
      if !open {
        return Good([]);
      }
      r := ParseCallArgs();
      if r.Bad? {
        return;
      }
      var close := ExpectKind(RParen);
      if close.Bad? {
        r := Bad(close.error);
      }
    }

    method Marked(mark: Token, minBp: nat) returns (r: Outcome<Option<Expr>>)
      modifies this`pos
      ensures Agrees(r, Rest(), ParseMarked(old(Rest()), mark, minBp))
      ensures pos >= old(pos)
    {
      hide ParseBp;
      var marked := EatKind(mark);
      if !marked {
        return Good(None);
      }
      var e := ParseExprBp(minBp);
      return if e.Bad? then Bad(e.error) else Good(Some(e.value));
    }

    /** `parse_optional_attrs`. */
    method OptionalAttrs() returns (r: Outcome<seq<Attr>>)
      modifies this`pos
      ensures Agrees(r, Rest(), ParseOptionalAttrs(old(Rest())))
      ensures pos >= old(pos)
    {
      hide ParseBp, ParseAttrList;
      var open := EatKind(Lt);
      if !open {
        return Good([]);
      }
      var empty := EatKind(Gt);
      if empty {
        return Good([]);
      }
      r := AttrList();
      if r.Bad? {
        return;
      }
      var close := ExpectKind(Gt);
      if close.Bad? {
        r := Bad(close.error);
      }
    }

    method AttrList() returns (r: Outcome<seq<Attr>>)
      modifies this`pos
      ensures Agrees(r, Rest(), ParseAttrList(old(Rest())))
      ensures pos >= old(pos)
    {
      hide ParseBp;
      var attrs: seq<Attr> := [];
      ghost var whole := ParseAttrList(Rest());
      PrefixNothing(whole);
      while true
        invariant pos >= old(pos)
        invariant whole == Prefixed(attrs, ParseAttrList(Rest()))
        decreases Rest().Len()
      {
        ghost var before := attrs;
        var key := ExpectIdentifier();
        if key.Bad? {
          return Bad(key.error);
        }
        var eq := ExpectKind(Eq);
        if eq.Bad? {
          return Bad(eq.error);
        }
        var value := ParseExprBp(ATTR_VALUE_BP);
        if value.Bad? {
          return Bad(value.error);
        }
        var attr := Attr(key.value, value.value);
        attrs := attrs + [attr];
        ghost var more := Rest();
        var comma := EatKind(Comma);
        if !comma {
          return Good(attrs);
        }
        PrefixMore(before, attr, ParseAttrList(more.tl));
      }
    }

    method DeclName() returns (r: Outcome<Option<string>>)
      modifies this`pos
      ensures Agrees(r, Rest(), ParseDeclName(old(Rest())))
      ensures pos >= old(pos)
    {
      if PeekIs(Colon) {
        return Good(None);
      }
      var name := ExpectIdentifier();
      return if name.Bad? then Bad(name.error) else Good(Some(name.value));
    }

    method DeclTail(name: Option<string>, arraySize: Option<Expr>, args: seq<Expr>) returns (r: Outcome<Declarator>)
      modifies this`pos
      ensures Agrees(r, Rest(), ParseDeclTail(name, arraySize, args, old(Rest())))
      ensures pos >= old(pos)
    {
      hide ParseMarked, ParseOptionalAttrs;
      var bitWidth := Marked(Colon, BITFIELD_BP);
      if bitWidth.Bad? {
        return Bad(bitWidth.error);
      }
      var attrs := OptionalAttrs();
      if attrs.Bad? {
        return Bad(attrs.error);
      }
      var init := Marked(Eq, 0);
      return if init.Bad? then Bad(init.error)
             else Good(Declarator(name, arraySize, args, bitWidth.value, attrs.value, init.value));
    }

    method FirstDeclarator() returns (r: Outcome<Declarator>)
      modifies this`pos
      ensures Agrees(r, Rest(), ParseFirstDeclarator(old(Rest())))
      ensures pos >= old(pos)
    {
      hide ParseDeclName, ParseOptionalArrayDim, ParseOptionalArgs, SkipArrayDims, ParseDeclTail;
      var name := DeclName();
      if name.Bad? {
        return Bad(name.error);
      }
      var arraySize := OptionalArrayDim();
      if arraySize.Bad? {
        return Bad(arraySize.error);
      }
      var args := OptionalArgs();
      if args.Bad? {
        return Bad(args.error);
      }
      if arraySize.value.None? {
        arraySize := OptionalArrayDim();
        if arraySize.Bad? {
          return Bad(arraySize.error);
        }
      }
      var dims := SkipDims();
      if dims.Bad? {
        return Bad(dims.error);
      }
      r := DeclTail(name.value, arraySize.value, args.value);
    }

    method NextDeclarator() returns (r: Outcome<Declarator>)
      modifies this`pos
      ensures Agrees(r, Rest(), ParseNextDeclarator(old(Rest())))
      ensures pos >= old(pos)
    {
      hide ParseDeclName, ParseOptionalArrayDim, ParseOptionalArgs, SkipArrayDims, ParseDeclTail;
      var name := DeclName();
      if name.Bad? {
        return Bad(name.error);
      }
      var arraySize := OptionalArrayDim();
      if arraySize.Bad? {
        return Bad(arraySize.error);
      }
      var dims := SkipDims();
      if dims.Bad? {
        return Bad(dims.error);
      }
      var args := OptionalArgs();
      if args.Bad? {
        return Bad(args.error);
      }
      r := DeclTail(name.value, arraySize.value, args.value);
    }

    method MoreDeclarators() returns (r: Outcome<seq<Declarator>>)
      modifies this`pos
      ensures Agrees(r, Rest(), ParseMoreDeclarators(old(Rest())))
      ensures pos >= old(pos)
    {
      hide ParseNextDeclarator;
      var all: seq<Declarator> := [];
      ghost var whole := ParseMoreDeclarators(Rest());
      PrefixNothing(whole);
      while PeekIs(Comma)
        invariant pos >= old(pos)
        invariant whole == Prefixed(all, ParseMoreDeclarators(Rest()))
        decreases Rest().Len()
      {
        var _ := Bump();
        var next := NextDeclarator();
        if next.Bad? {
          return Bad(next.error);
        }
        PrefixMore(all, next.value, ParseMoreDeclarators(Rest()));
        all := all + [next.value];
      }
      assert all + [] == all;
      r := Good(all);
    }

    /** `parse_field_decl`. */
    method FieldDeclaration() returns (r: Outcome<Stmt>)
      modifies this`pos
      ensures Agrees(r, Rest(), ParseFieldDecl(old(Rest())))
      ensures pos >= old(pos)
    {
      hide ParseModifiers, ParseTypeRef, ParseFirstDeclarator, ParseMoreDeclarators;
      var modifier := Modifiers();
      var typeName := TypeReference();
      if typeName.Bad? {
        return Bad(typeName.error);
      }
      var first := FirstDeclarator();
      if first.Bad? {
        return Bad(first.error);
      }
      var more := MoreDeclarators();
      if more.Bad? {
        return Bad(more.error);
      }
      var end := ExpectKind(Semi);
      if end.Bad? {
        return Bad(end.error);
      }
      r := Good(DeclTree(modifier, typeName.value, [first.value] + more.value));
    }

    // -------------------------------------------------------- statements

    method ExpressionStatement() returns (r: Outcome<Stmt>)
      modifies this`pos
      ensures Agrees(r, Rest(), ParseExprStmt(old(Rest())))
      ensures pos >= old(pos)
    {
      hide ParseBp;
      var e := ParseExprBp(0);
      if e.Bad? {
        return Bad(e.error);
      }
      var end := ExpectKind(Semi);
      return if end.Bad? then Bad(end.error) else Good(ExprStmt(e.value));
    }

    method ParenExpression() returns (r: Outcome<Expr>)
      modifies this`pos
      ensures Agrees(r, Rest(), ParseParenExpr(old(Rest())))
      ensures pos >= old(pos)
    {
      hide ParseBp;
      var open := ExpectKind(LParen);
      if open.Bad? {
        return Bad(open.error);
      }
      r := ParseExprBp(0);
      if r.Bad? {
        return;
      }
      var close := ExpectKind(RParen);
      if close.Bad? {
        r := Bad(close.error);
      }
    }

    method Unless(stop: Token) returns (r: Outcome<Option<Expr>>)
      modifies this`pos
      ensures Agrees(r, Rest(), ParseUnless(old(Rest()), stop))
      ensures pos >= old(pos)
    {
      hide ParseBp;
      if PeekIs(stop) {
        return Good(None);
      }
      var e := ParseExprBp(0);
      return if e.Bad? then Bad(e.error) else Good(Some(e.value));
    }

    method Jump(stmt: Stmt) returns (r: Outcome<Stmt>)
      modifies this`pos
      ensures Agrees(r, Rest(), ParseJump(old(Rest()), stmt))
      ensures pos >= old(pos)
    {
      var end := ExpectKind(Semi);
      r := if end.Bad? then Bad(end.error) else Good(stmt);
    }

    method ReturnStatement() returns (r: Outcome<Stmt>)
      modifies this`pos
      ensures Agrees(r, Rest(), ParseReturn(old(Rest())))
      ensures pos >= old(pos)
    {
      hide ParseUnless;
      var value := Unless(Semi);
      if value.Bad? {
        return Bad(value.error);
      }
      var end := ExpectKind(Semi);
      r := if end.Bad? then Bad(end.error) else Good(ReturnStmt(value.value));
    }

    /** `parse_stmt`. */
    method Statement() returns (r: Outcome<Stmt>)
      modifies this`pos
      ensures Agrees(r, Rest(), ParseStmt(old(Rest())))
      ensures pos >= old(pos)
      decreases Rest().Len(), 2
    {
      hide ParseBlock, ParseIf, ParseWhile, ParseDoWhile, ParseFor;
      hide ParseReturn, ParseJump, ParseFieldDecl, ParseExprStmt;
      if AtEof() {
        return Bad(UnexpectedEof);
      }
      var t := Peek();
      if t in {LBrace, Kw(If), Kw(While), Kw(Do), Kw(For)} {
        r := Compound();
      } else if t == Kw(Return) {
        var _ := Bump();
        r := ReturnStatement();
      } else if t == Kw(Break) {
        var _ := Bump();
        r := Jump(BreakStmt);
      } else if t == Kw(Continue) {
        var _ := Bump();
        r := Jump(ContinueStmt);
      } else if IsUnsupported(t) {
        r := Bad(Unsupported(t));
      } else if t == Kw(Local) || t == Kw(Const) {
        r := FieldDeclaration();
      } else if t == Semi {
        var _ := Bump();
        r := Good(Block([]));
      } else if t.Ident? && (PeekAtIsIdent(1) || PeekAt(1) == Some(Colon)) {
        r := FieldDeclaration();
      } else {
        r := ExpressionStatement();
      }
    }

    /** The statements that hold statements. */
    method Compound() returns (r: Outcome<Stmt>)
      requires !AtEof() && Peek() in {LBrace, Kw(If), Kw(While), Kw(Do), Kw(For)}
      modifies this`pos
      ensures Agrees(r, Rest(), ParseStmt(old(Rest())))
      ensures pos >= old(pos)
      decreases Rest().Len(), 1
    {
      hide ParseBlock, ParseIf, ParseWhile, ParseDoWhile, ParseFor;
      var t := Bump();
      if t == LBrace {
        r := BlockStatement();
      } else if t == Kw(If) {
        r := IfStatement();
      } else if t == Kw(While) {
        r := WhileStatement();
      } else if t == Kw(Do) {
        r := DoWhileStatement();
      } else {
        r := ForStatement();
      }
    }

    /** `parse_block`, behind its `{`. */
    method BlockStatement() returns (r: Outcome<Stmt>)
      modifies this`pos
      ensures Agrees(r, Rest(), ParseBlock(old(Rest())))
      ensures pos >= old(pos)
      decreases Rest().Len(), 4
    {
      hide ParseStmt;
      var stmts: seq<Stmt> := [];
      ghost var whole := ParseStmts(Rest());
      PrefixNothing(whole);
      while !AtEof() && !PeekIs(RBrace)
        invariant pos >= old(pos) && Rest().Len() <= old(Rest()).Len()
        invariant whole == Prefixed(stmts, ParseStmts(Rest()))
        decreases Rest().Len()
      {
        var stmt := Statement();
        if stmt.Bad? {
          return Bad(stmt.error);
        }
        PrefixMore(stmts, stmt.value, ParseStmts(Rest()));
        stmts := stmts + [stmt.value];
      }
      assert stmts + [] == stmts;
      var close := ExpectKind(RBrace);
      r := if close.Bad? then Bad(close.error) else Good(Block(stmts));
    }

    method IfStatement() returns (r: Outcome<Stmt>)
      modifies this`pos
      ensures Agrees(r, Rest(), ParseIf(old(Rest())))
      ensures pos >= old(pos)
      decreases Rest().Len(), 3
    {
      hide ParseParenExpr, ParseStmt;
      var cond := ParenExpression();
      if cond.Bad? {
        return Bad(cond.error);
      }
      var thenBranch := Statement();
      if thenBranch.Bad? {
        return thenBranch;
      }
      var hasElse := EatKind(Kw(Else));
      if !hasElse {
        return Good(IfStmt(cond.value, thenBranch.value, None));
      }
      var elseBranch := Statement();
      r := if elseBranch.Bad? then elseBranch
           else Good(IfStmt(cond.value, thenBranch.value, Some(elseBranch.value)));
    }

    method WhileStatement() returns (r: Outcome<Stmt>)
      modifies this`pos
      ensures Agrees(r, Rest(), ParseWhile(old(Rest())))
      ensures pos >= old(pos)
      decreases Rest().Len(), 3
    {
      hide ParseParenExpr, ParseStmt;
      var cond := ParenExpression();
      if cond.Bad? {
        return Bad(cond.error);
      }
      var body := Statement();
      r := if body.Bad? then body else Good(WhileStmt(cond.value, body.value));
    }

    method DoWhileStatement() returns (r: Outcome<Stmt>)
      modifies this`pos
      ensures Agrees(r, Rest(), ParseDoWhile(old(Rest())))
      ensures pos >= old(pos)
      decreases Rest().Len(), 3
    {
      hide ParseParenExpr, ParseStmt;
      var body := Statement();
      if body.Bad? {
        return body;
      }
      var keyword := ExpectKind(Kw(While));
      if keyword.Bad? {
        return Bad(keyword.error);
      }
      var cond := ParenExpression();
      if cond.Bad? {
        return Bad(cond.error);
      }
      var end := ExpectKind(Semi);
      r := if end.Bad? then Bad(end.error) else Good(DoWhileStmt(body.value, cond.value));
    }

    method ForStatement() returns (r: Outcome<Stmt>)
      modifies this`pos
      ensures Agrees(r, Rest(), ParseFor(old(Rest())))
      ensures pos >= old(pos)
      decreases Rest().Len(), 3
    {
      hide ParseStmt, ParseForClauses;
      var open := ExpectKind(LParen);
      if open.Bad? {
        return Bad(open.error);
      }
      var init: Option<Stmt> := None;
      var none := EatKind(Semi);
      if !none {
        var s := Statement();
        if s.Bad? {
          return s;
        }
        init := Some(s.value);
      }
      var clauses := ForClauses();
      if clauses.Bad? {
        return Bad(clauses.error);
      }
      var body := Statement();
      r := if body.Bad? then body else Good(ForStmt(init, clauses.value.0, clauses.value.1, body.value));
    }

    method ForClauses() returns (r: Outcome<(Option<Expr>, Option<Expr>)>)
      modifies this`pos
      ensures Agrees(r, Rest(), ParseForClauses(old(Rest())))
      ensures pos >= old(pos)
    {
      hide ParseUnless;
      var test := Unless(Semi);
      if test.Bad? {
        return Bad(test.error);
      }
      var middle := ExpectKind(Semi);
      if middle.Bad? {
        return Bad(middle.error);
      }
      var step := Unless(RParen);
      if step.Bad? {
        return Bad(step.error);
      }
      var close := ExpectKind(RParen);
      r := if close.Bad? then Bad(close.error) else Good((test.value, step.value));
    }

    /** `parse`: top-level items to the end. */
    method Program() returns (r: Outcome<seq<Stmt>>)
      modifies this`pos
      ensures Agrees(r, Rest(), ParseProgram(old(Rest())))
    {
      hide ParseStmt, LooksLikeFunctionDef;
      var items: seq<Stmt> := [];
      ghost var whole := ParseProgram(Rest());
      PrefixNothing(whole);
      while !AtEof()
        invariant whole == Prefixed(items, ParseProgram(Rest()))
        decreases Rest().Len()
      {
        var definition := SeesFunctionDef();
        if definition {
          return Bad(Unsupported(Peek()));
        }
        var stmt := Statement();
        if stmt.Bad? {
          return Bad(stmt.error);
        }
        PrefixMore(items, stmt.value, ParseProgram(Rest()));
        items := items + [stmt.value];
      }
      assert items + [] == items;
      r := Good(items);
    }
  }

  /** Elements already parsed in front of what the rest gives. */
  function Prefixed<T>(done: seq<T>, p: Parsed<seq<T>>): Parsed<seq<T>> {
    match p
    case Ok(more, rest) => Ok(done + more, rest)
    case Err(error) => Err(error)
  }

  lemma PrefixNothing<T>(p: Parsed<seq<T>>)
    ensures Prefixed([], p) == p
  {
    if p.Ok? {
      assert [] + p.value == p.value;
    }
  }

  lemma PrefixMore<T>(done: seq<T>, x: T, p: Parsed<seq<T>>)
    ensures Prefixed(done, Prefixed([x], p)) == Prefixed(done + [x], p)
  {
    if p.Ok? {
      assert done + ([x] + p.value) == (done + [x]) + p.value;
    }
  }

  lemma StreamDrop(tokens: seq<Token>, pos: nat, n: nat)
    requires pos + n <= |tokens|
    ensures Drop(Stream(tokens, pos), n) == Stream(tokens, pos + n)
    decreases n
  {
    if n > 0 {
      StreamDrop(tokens, pos + 1, n - 1);
    }
  }

  lemma StreamAhead(tokens: seq<Token>, pos: nat, n: nat)
    ensures Ahead(Stream(tokens, pos), n) == if pos + n < |tokens| then Some(tokens[pos + n]) else None
    decreases n
  {
    if n > 0 && pos < |tokens| {
      StreamAhead(tokens, pos + 1, n - 1);
    }
  }
}
