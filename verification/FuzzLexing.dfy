/**
 What the emitter writes is lexed into the tokens it means: no two pieces run together.
 */
module FuzzLexing {
  import opened Splices
  import opened Numerals
  import opened TemplateLexer
  import opened TokenSpelling
  import opened FuzzEmit
  import G = ExprGrammar

  // ---------------------------------------------------------------- tokens

  /** A punctuation character that the next one does not extend. */
  predicate StandsAlone(c: char, rest: string) {
    c == '(' || c == ')' || c == '{' || c == '}' || c == '[' || c == ']' || c == ';'
    || ((c == '+' || c == '-' || c == '<' || c == '=') && rest != "" && rest[0] == ' ')
    || (c == '-' && rest != "" && IsDigit(rest[0]))
    || (c == '!' && rest != "" && rest[0] != '=')
  }

  lemma LexesPunct(c: char, rest: string, toks: G.Toks)
    requires StandsAlone(c, rest) && Lexes(rest, toks)
    ensures SingleCharOp(c).Some?
    ensures Lexes([c] + rest, G.Cons(SingleCharOp(c).value, toks))
  {
    hide LexOne, LexPunct, Lexes;
    var s := [c] + rest;
    AloneFirst(c, rest);
    AloneHere(c, rest);
    TokenBefore(s, SingleCharOp(c).value, rest, toks);
  }

  lemma AloneFirst(c: char, rest: string)
    requires StandsAlone(c, rest)
    ensures LexOne([c] + rest) == LexPunct([c] + rest)
  {
    hide LexNumber, LexString, LexChar, LexPunct;
    var s := [c] + rest;
    NotANumber(s);
    NotQuoted(s);
    assert LexWord(s).NoToken?;
  }

  predicate StartsLongOp(c: char) {
    c == '=' || c == '!' || c == '<' || c == '>' || c == '&' || c == '|' || c == '+' || c == '-'
    || c == '*' || c == '/' || c == '%' || c == '^'
  }

  predicate EndsLongOp(c: char) {
    c == '=' || c == '&' || c == '|' || c == '<' || c == '>' || c == '+' || c == '-'
  }

  lemma LongOpShape(x: string)
    ensures |x| == 2 && TwoCharOp(x).Some? ==> StartsLongOp(x[0]) && EndsLongOp(x[1])
    ensures |x| == 2 && TwoCharOp(x).Some? && x[0] == '!' ==> x[1] == '='
    ensures |x| == 3 && ThreeCharOp(x).Some? ==> StartsLongOp(x[0]) && EndsLongOp(x[1]) && x[0] != '!'
  {
  }

  lemma AloneHere(c: char, rest: string)
    requires StandsAlone(c, rest)
    ensures SingleCharOp(c).Some? && LexPunct([c] + rest) == Lexed(SingleCharOp(c).value, rest)
  {
    hide TwoCharOp, ThreeCharOp;
    var s := [c] + rest;
    assert s[1..] == rest;
    if |s| >= 2 {
      LongOpShape(s[..2]);
      assert s[..2][0] == c && s[..2][1] == rest[0];
    }
    if |s| >= 3 {
      LongOpShape(s[..3]);
      assert s[..3][0] == c && s[..3][1] == rest[0];
    }
  }

  lemma LexesEqEq(rest: string, toks: G.Toks)
    requires rest != "" && rest[0] == ' ' && Lexes(rest, toks)
    ensures Lexes("==" + rest, G.Cons(G.EqEq, toks))
  {
    hide LexNumber, LexString, LexChar, Lexes;
    var s := "==" + rest;
    NotANumber(s);
    NotQuoted(s);
    assert s[..2] == "==" && s[2..] == rest;
    assert |s| >= 3 ==> s[..3][0] == '=';
    assert LexOne(s) == Lexed(G.EqEq, rest);
    TokenBefore(s, G.EqEq, rest, toks);
  }

  lemma LexesSpaced(text: string, rest: string, toks: G.Toks)
    requires Lexes(rest, toks) && (text == " " || text == "\n" || text == "    ")
    ensures Lexes(text + rest, toks)
  {
    hide Tokenize;
    if text == "    " {
      assert text + rest == [' '] + ([' '] + ([' '] + ([' '] + rest)));
      SpaceBefore(' ', rest);
      SpaceBefore(' ', [' '] + rest);
      SpaceBefore(' ', [' '] + ([' '] + rest));
      SpaceBefore(' ', [' '] + ([' '] + ([' '] + rest)));
    } else {
      assert text + rest == [text[0]] + rest;
      SpaceBefore(text[0], rest);
    }
  }

  // ----------------------------------------------------------- expressions

  /** What stands behind an emitted expression. */
  predicate EndsExpr(s: string) {
    s != "" && (s[0] == ' ' || s[0] == ')' || s[0] == ';')
  }

  lemma PoolWords(k: nat)
    ensures IsIdentifier(IdentName(k)) && WordToken(IdentName(k)) == G.Ident(IdentName(k))
    ensures IsIdentifier(TypeName(k)) && WordToken(TypeName(k)) == G.Ident(TypeName(k))
    ensures IsIdentifier(BuiltinName(k)) && WordToken(BuiltinName(k)) == G.Ident(BuiltinName(k))
  {
    IdentWords(k % |IDENT_POOL|);
    TypeWords(k % |TYPE_POOL|);
    BuiltinWords(k % |BUILTIN_POOL|);
  }

  lemma IdentWords(i: nat)
    requires i < |IDENT_POOL|
    ensures IsIdentifier(IDENT_POOL[i]) && WordToken(IDENT_POOL[i]) == G.Ident(IDENT_POOL[i])
  {
  }

  lemma TypeWords(i: nat)
    requires i < |TYPE_POOL|
    ensures IsIdentifier(TYPE_POOL[i]) && WordToken(TYPE_POOL[i]) == G.Ident(TYPE_POOL[i])
  {
    hide WordToken;
    if i < 2 {
      ByteWords(i);
    } else if i < 4 {
      UnsignedWords(i);
    } else if i < 6 {
      CharWords(i);
    } else if i < 8 {
      SignedWords(i);
    } else {
      RealWords(i);
    }
  }

  lemma ByteWords(i: nat)
    requires i < 2
    ensures IsIdentifier(TYPE_POOL[i]) && WordToken(TYPE_POOL[i]) == G.Ident(TYPE_POOL[i])
  {
  }

  lemma UnsignedWords(i: nat)
    requires 2 <= i < 4
    ensures IsIdentifier(TYPE_POOL[i]) && WordToken(TYPE_POOL[i]) == G.Ident(TYPE_POOL[i])
  {
  }

  lemma CharWords(i: nat)
    requires 4 <= i < 6
    ensures IsIdentifier(TYPE_POOL[i]) && WordToken(TYPE_POOL[i]) == G.Ident(TYPE_POOL[i])
  {
  }

  lemma SignedWords(i: nat)
    requires 6 <= i < 8
    ensures IsIdentifier(TYPE_POOL[i]) && WordToken(TYPE_POOL[i]) == G.Ident(TYPE_POOL[i])
  {
  }

  lemma RealWords(i: nat)
    requires 8 <= i < 10
    ensures IsIdentifier(TYPE_POOL[i]) && WordToken(TYPE_POOL[i]) == G.Ident(TYPE_POOL[i])
  {
    hide WordToken, IsIdentifier;
    if i == 8 {
      FloatWord();
    } else {
      DoubleWord();
    }
  }

  lemma FloatWord()
    ensures IsIdentifier("float") && WordToken("float") == G.Ident("float")
  {
  }

  lemma DoubleWord()
    ensures IsIdentifier("double") && WordToken("double") == G.Ident("double")
  {
  }

  lemma BuiltinWords(i: nat)
    requires i < |BUILTIN_POOL|
    ensures IsIdentifier(BUILTIN_POOL[i]) && WordToken(BUILTIN_POOL[i]) == G.Ident(BUILTIN_POOL[i])
  {
    hide WordToken, IsIdentifier;
    if i == 0 {
      CapitalWord("FTell");
    } else if i == 1 {
      CapitalWord("FEof");
    } else {
      CapitalWord("FileSize");
    }
  }

  /** No keyword starts with a capital. */
  lemma CapitalWord(w: string)
    requires |w| > 1 && 'A' <= w[0] <= 'Z' && forall c <- w[1..] :: IsTail(c)
    ensures IsIdentifier(w) && WordToken(w) == G.Ident(w)
  {
    forall i | 1 <= i < |w|
      ensures IsTail(w[i])
    {
      assert w[i] == w[1..][i - 1] && w[1..][i - 1] in w[1..];
    }
  }

  lemma CallLexes(name: string, rest: string, toks: G.Toks)
    requires IsIdentifier(name) && WordToken(name) == G.Ident(name) && Lexes(rest, toks)
    ensures Lexes(name + ("()" + rest), G.Cons(G.Ident(name), G.Cons(G.LParen, G.Cons(G.RParen, toks))))
  {
    hide Lexes, WordToken;
    LexesPunct(')', rest, toks);
    LexesPunct('(', ")" + rest, G.Cons(G.RParen, toks));
    assert "()" + rest == ['('] + (")" + rest);
    LexesWord(name, "()" + rest, G.Cons(G.LParen, G.Cons(G.RParen, toks)));
  }

  lemma OpLexes(e: FuzzExpr, rest: string, toks: G.Toks)
    requires e.Add? || e.Sub? || e.Lt? || e.Equal?
    requires Lexes(rest, toks)
    ensures Lexes(OpText(e) + rest, G.Cons(OpToken(e), toks)) && EndsExpr(OpText(e) + rest)
  {
    hide Lexes;
    LexesSpaced(" ", rest, toks);
    var spaced := " " + rest;
    if e.Equal? {
      LexesEqEq(spaced, toks);
      LexesSpaced(" ", "==" + spaced, G.Cons(G.EqEq, toks));
      assert OpText(e) + rest == " " + ("==" + spaced);
    } else {
      var c := if e.Add? then '+' else if e.Sub? then '-' else '<';
      LexesPunct(c, spaced, toks);
      LexesSpaced(" ", [c] + spaced, G.Cons(OpToken(e), toks));
      assert OpText(e) + rest == " " + ([c] + spaced);
    }
  }

  /** An emitted expression is lexed as its tokens, and does not start with `=`. */
  lemma {:induction false} ExprLexes(e: FuzzExpr, rest: string, toks: G.Toks)
    requires ValidExpr(e) && EndsExpr(rest) && Lexes(rest, toks)
    ensures Lexes(ExprText(e, rest), ExprToks(e, toks))
    ensures ExprText(e, rest) != "" && ExprText(e, rest)[0] != '='
    decreases e
  {
    hide Lexes, Decimal, IdentName, BuiltinName, OpText, OpToken, WordToken, IsIdentifier;
    match e
    case IntLit(v) => IntLexes(v, rest, toks);
    case Var(k) =>
      PoolWords(k);
      LexesWord(IdentName(k), rest, toks);
      WordHead(IdentName(k), rest);
    case Call(k) =>
      PoolWords(k);
      CallLexes(BuiltinName(k), rest, toks);
      WordHead(BuiltinName(k), "()" + rest);
    case Not(inner) =>
      ExprLexes(inner, rest, toks);
      LexesPunct('!', ExprText(inner, rest), ExprToks(inner, toks));
      assert "!" + ExprText(inner, rest) == ['!'] + ExprText(inner, rest);
    case _ =>
      LexesPunct(')', rest, toks);
      var r, rt := ExprText(e.right, ")" + rest), ExprToks(e.right, G.Cons(G.RParen, toks));
      assert ")" + rest == [')'] + rest;
      ExprLexes(e.right, ")" + rest, G.Cons(G.RParen, toks));
      OpLexes(e, r, rt);
      ExprLexes(e.left, OpText(e) + r, G.Cons(OpToken(e), rt));
      var l := ExprText(e.left, OpText(e) + r);
      LexesPunct('(', l, ExprToks(e.left, G.Cons(OpToken(e), rt)));
      assert "(" + l == ['('] + l;
  }

  lemma WordHead(w: string, rest: string)
    requires IsIdentifier(w)
    ensures w + rest != "" && (w + rest)[0] != '='
  {
  }

  lemma IntLexes(v: int, rest: string, toks: G.Toks)
    requires -0x8000_0000 <= v < 0x8000_0000 && EndsExpr(rest) && Lexes(rest, toks)
    ensures Lexes(IntText(v) + rest, ExprToks(IntLit(v), toks))
    ensures IntText(v) + rest != "" && (IntText(v) + rest)[0] != '='
  {
    hide Lexes, Decimal;
    var n: nat := if v < 0 then -v else v;
    var d := Decimal(n);
    assert d[0] in d;
    LexesNumber(n, rest, toks);
    if v < 0 {
      LexesPunct('-', d + rest, G.Cons(G.Int(n), toks));
      assert IntText(v) + rest == ['-'] + (d + rest);
    }
  }

  // ------------------------------------------------------------ statements

  lemma LexesLine(rest: string, toks: G.Toks)
    requires Lexes(rest, toks)
    ensures Lexes(";\n" + rest, G.Cons(G.Semi, toks))
  {
    hide Lexes;
    LexesSpaced("\n", rest, toks);
    LexesPunct(';', "\n" + rest, toks);
    assert ";\n" + rest == [';'] + ("\n" + rest);
  }

  lemma LexesOpenBrace(rest: string, toks: G.Toks)
    requires Lexes(rest, toks)
    ensures Lexes(" {\n" + rest, G.Cons(G.LBrace, toks))
    ensures Lexes(") {\n" + rest, G.Cons(G.RParen, G.Cons(G.LBrace, toks)))
  {
    hide Lexes;
    LexesSpaced("\n", rest, toks);
    LexesPunct('{', "\n" + rest, toks);
    assert "{\n" + rest == ['{'] + ("\n" + rest);
    LexesSpaced(" ", "{\n" + rest, G.Cons(G.LBrace, toks));
    assert " {\n" + rest == " " + ("{\n" + rest);
    LexesPunct(')', " {\n" + rest, G.Cons(G.LBrace, toks));
    assert ") {\n" + rest == [')'] + (" {\n" + rest);
  }

  lemma {:induction false} LexesIndent(depth: nat, rest: string, toks: G.Toks)
    requires Lexes(rest, toks)
    ensures Lexes(Indent(depth, rest), toks)
  {
    hide Lexes;
    if depth > 0 {
      LexesIndent(depth - 1, rest, toks);
      LexesSpaced("    ", Indent(depth - 1, rest), toks);
    }
  }

  /** A word, a space and the rest. */
  lemma LexesWordSpace(w: string, rest: string, toks: G.Toks)
    requires IsIdentifier(w) && Lexes(rest, toks)
    ensures Lexes(w + (" " + rest), G.Cons(WordToken(w), toks))
  {
    hide Lexes, WordToken, IsIdentifier;
    LexesSpaced(" ", rest, toks);
    LexesWord(w, " " + rest, toks);
  }

  lemma IntAndLocal()
    ensures WordToken("local") == G.Kw(G.Local) && WordToken("int") == G.Ident("int")
  {
  }

  lemma FlowWords()
    ensures WordToken("if") == G.Kw(G.If) && WordToken("else") == G.Kw(G.Else) && WordToken("while") == G.Kw(G.While)
  {
  }

  lemma FieldLexes(s: FuzzStmt, rest: string, toks: G.Toks)
    requires s.Field? && Lexes(rest, toks)
    ensures Lexes(Unindented(s, 0, rest), StmtToks(s, toks))
  {
    hide Lexes, Decimal, IdentName, TypeName, WordToken, IsIdentifier;
    var end := ";\n" + rest;
    LexesLine(rest, toks);
    PoolWords(s.name);
    PoolWords(s.ty);
    if s.arraySize.Some? {
      var n := s.arraySize.value % 16;
      LexesPunct(']', end, G.Cons(G.Semi, toks));
      assert "]" + end == [']'] + end;
      var t := G.Cons(G.RBracket, G.Cons(G.Semi, toks));
      LexesNumber(n, "]" + end, t);
      var sized := Decimal(n) + ("]" + end);
      LexesPunct('[', sized, G.Cons(G.Int(n), t));
      assert "[" + sized == ['['] + sized;
      LexesWord(IdentName(s.name), "[" + sized, G.Cons(G.LBracket, G.Cons(G.Int(n), t)));
      LexesWordSpace(TypeName(s.ty), IdentName(s.name) + ("[" + sized),
                     G.Cons(G.Ident(IdentName(s.name)), G.Cons(G.LBracket, G.Cons(G.Int(n), t))));
    } else {
      LexesWord(IdentName(s.name), end, G.Cons(G.Semi, toks));
      LexesWordSpace(TypeName(s.ty), IdentName(s.name) + end, G.Cons(G.Ident(IdentName(s.name)), G.Cons(G.Semi, toks)));
    }
  }

  lemma LocalLexes(s: FuzzStmt, rest: string, toks: G.Toks)
    requires s.Local? && ValidStmt(s) && Lexes(rest, toks)
    ensures Lexes(Unindented(s, 0, rest), StmtToks(s, toks))
  {
    hide Lexes, IdentName, WordToken, IsIdentifier, ExprText, ExprToks;
    var end := ";\n" + rest;
    LexesLine(rest, toks);
    var tail, ts := end, G.Cons(G.Semi, toks);
    if s.init.Some? {
      tail, ts := " = " + ExprText(s.init.value, end), G.Cons(G.Eq, ExprToks(s.init.value, G.Cons(G.Semi, toks)));
      InitLexes(s.init.value, rest, toks);
    }
    PoolWords(s.name);
    LexesWord(IdentName(s.name), tail, ts);
    var named := IdentName(s.name) + tail;
    IntAndLocal();
    LocalWords();
    LexesWordSpace("int", named, G.Cons(G.Ident(IdentName(s.name)), ts));
    LexesWordSpace("local", "int" + (" " + named), G.Cons(G.Ident("int"), G.Cons(G.Ident(IdentName(s.name)), ts)));
    assert "local int " + named == "local" + (" " + ("int" + (" " + named)));
  }

  lemma LocalWords()
    ensures IsIdentifier("int") && IsIdentifier("local") && IsIdentifier("if") && IsIdentifier("else") && IsIdentifier("while")
  {
  }

  lemma InitLexes(e: FuzzExpr, rest: string, toks: G.Toks)
    requires ValidExpr(e) && Lexes(rest, toks)
    ensures Lexes(" = " + ExprText(e, ";\n" + rest), G.Cons(G.Eq, ExprToks(e, G.Cons(G.Semi, toks))))
  {
    hide Lexes, ExprText, ExprToks;
    LexesLine(rest, toks);
    ExprLexes(e, ";\n" + rest, G.Cons(G.Semi, toks));
    var x, xt := ExprText(e, ";\n" + rest), ExprToks(e, G.Cons(G.Semi, toks));
    LexesSpaced(" ", x, xt);
    LexesPunct('=', " " + x, xt);
    assert "= " + x == ['='] + (" " + x);
    LexesSpaced(" ", "= " + x, G.Cons(G.Eq, xt));
    assert " = " + x == " " + ("= " + x);
  }

  /** A keyword, a condition in parentheses and an opening brace. */
  lemma HeadLexes(word: string, cond: FuzzExpr, inner: string, toks: G.Toks)
    requires ValidExpr(cond) && Lexes(inner, toks) && IsIdentifier(word)
    ensures Lexes(word + (" " + ("(" + ExprText(cond, ") {\n" + inner))),
                  G.Cons(WordToken(word), ParenToks(cond, G.Cons(G.LBrace, toks))))
  {
    hide Lexes, ExprText, ExprToks, WordToken, IsIdentifier;
    LexesOpenBrace(inner, toks);
    ExprLexes(cond, ") {\n" + inner, G.Cons(G.RParen, G.Cons(G.LBrace, toks)));
    var x := ExprText(cond, ") {\n" + inner);
    LexesPunct('(', x, ExprToks(cond, G.Cons(G.RParen, G.Cons(G.LBrace, toks))));
    assert "(" + x == ['('] + x;
    LexesWordSpace(word, "(" + x, ParenToks(cond, G.Cons(G.LBrace, toks)));
  }

  lemma CloseLexes(depth: nat, rest: string, toks: G.Toks)
    requires Lexes(rest, toks)
    ensures Lexes(Indent(depth, "}" + rest), G.Cons(G.RBrace, toks))
  {
    hide Lexes;
    LexesPunct('}', rest, toks);
    assert "}" + rest == ['}'] + rest;
    LexesIndent(depth, "}" + rest, G.Cons(G.RBrace, toks));
  }

  lemma {:induction false} ElseLexes(s: FuzzStmt, depth: nat, rest: string, toks: G.Toks)
    requires s.If? && ValidStmt(s) && Lexes(rest, toks)
    ensures Lexes(ElseText(s, depth, rest),
                  match s.elseBody
                  case Else(stmts) => G.Cons(G.Kw(G.Else), G.Cons(G.LBrace, StmtsToks(stmts, G.Cons(G.RBrace, toks))))
                  case NoElse => toks)
    decreases s, 0
  {
    hide Lexes, StmtsText, StmtsToks, WordToken, IsIdentifier;
    LexesSpaced("\n", rest, toks);
    match s.elseBody
    case Else(stmts) =>
      var close := Indent(depth, "}" + ("\n" + rest));
      CloseLexes(depth, "\n" + rest, toks);
      StmtsLex(stmts, depth + 1, close, G.Cons(G.RBrace, toks));
      var inner, ts := StmtsText(stmts, depth + 1, close), StmtsToks(stmts, G.Cons(G.RBrace, toks));
      LexesOpenBrace(inner, ts);
      FlowWords();
      LocalWords();
      LexesWord("else", " {\n" + inner, G.Cons(G.LBrace, ts));
      LexesSpaced(" ", "else" + (" {\n" + inner), G.Cons(G.Kw(G.Else), G.Cons(G.LBrace, ts)));
      assert " else {\n" + inner == " " + ("else" + (" {\n" + inner));
    case NoElse =>
  }

  lemma {:induction false} IfLexes(s: FuzzStmt, depth: nat, rest: string, toks: G.Toks)
    requires s.If? && ValidStmt(s) && Lexes(rest, toks)
    ensures Lexes(Unindented(s, depth, rest), StmtToks(s, toks))
    decreases s, 1
  {
    hide Lexes, StmtsText, StmtsToks, ElseText, WordToken, IsIdentifier, ExprText, Indent, ParenToks;
    ElseLexes(s, depth, rest, toks);
    var tail := ElseText(s, depth, rest);
    ghost var tt := match s.elseBody
      case Else(stmts) => G.Cons(G.Kw(G.Else), G.Cons(G.LBrace, StmtsToks(stmts, G.Cons(G.RBrace, toks))))
      case NoElse => toks;
    CloseLexes(depth, tail, tt);
    var close := Indent(depth, "}" + tail);
    StmtsLex(s.thenBody, depth + 1, close, G.Cons(G.RBrace, tt));
    var inner := StmtsText(s.thenBody, depth + 1, close);
    FlowWords();
    LocalWords();
    HeadLexes("if", s.cond, inner, StmtsToks(s.thenBody, G.Cons(G.RBrace, tt)));
    var x := ExprText(s.cond, ") {\n" + inner);
    assert "if (" + x == "if" + (" " + ("(" + x));
  }

  lemma {:induction false} WhileLexes(s: FuzzStmt, depth: nat, rest: string, toks: G.Toks)
    requires s.While? && ValidStmt(s) && Lexes(rest, toks)
    ensures Lexes(Unindented(s, depth, rest), StmtToks(s, toks))
    decreases s, 1
  {
    hide Lexes, StmtsText, StmtsToks, WordToken, IsIdentifier, ExprText, Indent, ParenToks;
    LexesSpaced("\n", rest, toks);
    CloseLexes(depth, "\n" + rest, toks);
    assert "}" + ("\n" + rest) == "}\n" + rest;
    var close := Indent(depth, "}\n" + rest);
    StmtsLex(s.body, depth + 1, close, G.Cons(G.RBrace, toks));
    var inner := StmtsText(s.body, depth + 1, close);
    FlowWords();
    LocalWords();
    HeadLexes("while", s.cond, inner, StmtsToks(s.body, G.Cons(G.RBrace, toks)));
    var x := ExprText(s.cond, ") {\n" + inner);
    assert "while (" + x == "while" + (" " + ("(" + x));
  }

  lemma CallStmtLexes(name: string, rest: string, toks: G.Toks)
    requires IsIdentifier(name) && WordToken(name) == G.Ident(name) && Lexes(rest, toks)
    ensures Lexes(name + ("()" + (";\n" + rest)), CallStmtToks(name, toks))
  {
    hide Lexes, WordToken, IsIdentifier;
    LexesLine(rest, toks);
    CallLexes(name, ";\n" + rest, G.Cons(G.Semi, toks));
  }

  lemma {:induction false} StmtLexes(s: FuzzStmt, depth: nat, rest: string, toks: G.Toks)
    requires ValidStmt(s) && Lexes(rest, toks)
    ensures Lexes(StmtText(s, depth, rest), StmtToks(s, toks))
    decreases s, 2
  {
    hide Lexes, StmtsText, StmtsToks, WordToken, IsIdentifier, ExprText, Indent, ExprToks, CallStmtToks;
    match s {
      case Field(_, _, _) => FieldLexes(s, rest, toks);
      case Local(_, _) => LocalLexes(s, rest, toks);
      case If(_, _, _) => IfLexes(s, depth, rest, toks);
      case While(_, _) => WhileLexes(s, depth, rest, toks);
      case ExprStmt(e) =>
        LexesLine(rest, toks);
        ExprLexes(e, ";\n" + rest, G.Cons(G.Semi, toks));
      case LittleEndian =>
        CapitalWord("LittleEndian");
        CallStmtLexes("LittleEndian", rest, toks);
        assert "LittleEndian" + ("()" + (";\n" + rest)) == "LittleEndian();\n" + rest;
      case BigEndian =>
        CapitalWord("BigEndian");
        CallStmtLexes("BigEndian", rest, toks);
        assert "BigEndian" + ("()" + (";\n" + rest)) == "BigEndian();\n" + rest;
    }
    LexesIndent(depth, Unindented(s, depth, rest), StmtToks(s, toks));
  }

  lemma {:induction false} StmtsLex(stmts: seq<FuzzStmt>, depth: nat, rest: string, toks: G.Toks)
    requires ValidProgram(stmts) && Lexes(rest, toks)
    ensures Lexes(StmtsText(stmts, depth, rest), StmtsToks(stmts, toks))
    decreases stmts, 3
  {
    hide Lexes, StmtText, StmtToks, ValidStmt;
    if stmts != [] {
      StmtsLex(stmts[1..], depth, rest, toks);
      StmtLexes(stmts[0], depth, StmtsText(stmts[1..], depth, rest), StmtsToks(stmts[1..], toks));
    }
  }

  /** The emitted text of a whole program. */
  lemma ProgramLexes(program: seq<FuzzStmt>)
    requires ValidProgram(program)
    ensures Tokenize(Emitted(program)) == Some(StmtsToks(program, G.End))
  {
    hide StmtsText, StmtsToks, ValidStmt;
    assert Lexes("", G.End);
    StmtsLex(program, 0, "", G.End);
  }
}
