/**
 The template lexer (crates/hxy-010-lang/src/lexer.rs) as functions of the text left, for sources without
 `#define`.
 */
module TemplateLexer {
  import opened Splices
  import opened Numerals
  import opened ExprGrammar

  const U64_MAX: nat := 0xFFFF_FFFF_FFFF_FFFF

  datatype Lexed = Lexed(token: Token, rest: string) | NoToken

  // ---------------------------------------------------------------- trivia

  predicate IsSpace(c: char) {
    c == ' ' || c == '\t' || c == '\r' || c == '\n'
  }

  predicate NotNewline(c: char) {
    c != '\n'
  }

  predicate NotStar(c: char) {
    c != '*'
  }

  function DropWhile(p: char -> bool, s: string): (r: string)
    ensures |r| <= |s| && (|r| == |s| ==> r == s)
  {
    s[Span(p, s)..]
  }

  function SkipLineComment(s: string): (r: string)
    ensures |r| <= |s| && (|r| == |s| ==> r == s)
  {
    if |s| >= 2 && s[..2] == "//" then DropWhile(NotNewline, s) else s
  }

  /** Behind the `*` and `/` that end a block comment, or at the end of the text. */
  function BlockCommentEnd(s: string): (r: string)
    ensures |r| <= |s| && (|r| == |s| ==> r == s)
    decreases |s|
  {
    var star := DropWhile(NotStar, s);
    if star == "" then s[|s|..]
    else if |star| >= 2 && star[1] == '/' then star[2..]
    else BlockCommentEnd(star[1..])
  }

  function SkipBlockComment(s: string): (r: string)
    ensures |r| <= |s| && (|r| == |s| ==> r == s)
  {
    if |s| >= 2 && s[..2] == "/*" then BlockCommentEnd(s[2..]) else s
  }

  function TrimReturns(s: string): (r: string)
    ensures |r| <= |s|
  {
    if s != "" && s[|s| - 1] == '\r' then TrimReturns(s[..|s| - 1]) else s
  }

  /** Behind the first line break that no backslash continues. */
  function DirectiveEnd(s: string): (r: string)
    ensures |r| <= |s| && (|r| == |s| ==> r == s)
    decreases |s|
  {
    var n := Span(NotNewline, s);
    if n == |s| then s[n..]
    else
      var line := TrimReturns(s[..n]);
      if line != "" && line[|line| - 1] == '\\' then DirectiveEnd(s[n + 1..]) else s[n + 1..]
  }

  function SkipDirective(s: string): (r: string)
    ensures |r| <= |s| && (|r| == |s| ==> r == s)
  {
    if s != "" && s[0] == '#' then DirectiveEnd(s[1..]) else s
  }

  function SkipOnce(s: string): (r: string)
    ensures |r| <= |s| && (|r| == |s| ==> r == s)
  {
    SkipDirective(SkipBlockComment(SkipLineComment(DropWhile(IsSpace, s))))
  }

  /** White space, comments and directives, as long as there are any. */
  function SkipTrivia(s: string): (r: string)
    ensures |r| <= |s|
    decreases |s|
  {
    var r := SkipOnce(s);
    if |r| == |s| then s else SkipTrivia(r)
  }

  // --------------------------------------------------------------- numbers

  /** A literal too big for 64 bits counts as zero. */
  function Saturated(v: nat): nat {
    if v > U64_MAX then 0 else v
  }

  predicate IsIntSuffix(c: char) {
    c == 'u' || c == 'U' || c == 'l' || c == 'L'
  }

  predicate IsNumberSuffix(c: char) {
    IsIntSuffix(c) || c == 'f' || c == 'F'
  }

  function LexHex(s: string): Lexed {
    if |s| < 2 || s[0] != '0' || (s[1] != 'x' && s[1] != 'X') then NoToken
    else
      var n := Span(IsHexDigit, s[2..]);
      if n == 0 then NoToken
      else Lexed(Int(Saturated(NumberValue(s[2..][..n], 16))), DropWhile(IsIntSuffix, s[2..][n..]))
  }

  function LexBinary(s: string): Lexed {
    if |s| < 2 || s[0] != '0' || (s[1] != 'b' && s[1] != 'B') then NoToken
    else
      var n := Span(IsBinaryDigit, s[2..]);
      if n == 0 then NoToken
      else Lexed(Int(Saturated(NumberValue(s[2..][..n], 2))), DropWhile(IsIntSuffix, s[2..][n..]))
  }

  /** The length of a fraction, 0 for none: a point alone is one. */
  function FractionLength(s: string): (n: nat)
    ensures n <= |s|
  {
    if s != "" && s[0] == '.' then 1 + Span(IsDigit, s[1..]) else 0
  }

  /** The length of an exponent, 0 for none. */
  function ExponentLength(s: string): (n: nat)
    ensures n <= |s|
  {
    if s == "" || (s[0] != 'e' && s[0] != 'E') then 0
    else
      var sign := if |s| > 1 && (s[1] == '+' || s[1] == '-') then 1 else 0;
      var digits := Span(IsDigit, s[1 + sign..]);
      if digits == 0 then 0 else 1 + sign + digits
  }

  function LexFloatOrInt(s: string): Lexed {
    var n := Span(IsDigit, s);
    if n == 0 then NoToken
    else
      var fraction := FractionLength(s[n..]);
      var exponent := ExponentLength(s[n..][fraction..]);
      var m := n + fraction + exponent;
      Lexed(if m == n then Int(Saturated(NumberValue(s[..n], 10))) else Float(s[..m]),
            DropWhile(IsNumberSuffix, s[m..]))
  }

  function LexNumber(s: string): Lexed {
    var hex := LexHex(s);
    if hex.Lexed? then hex
    else
      var binary := LexBinary(s);
      if binary.Lexed? then binary else LexFloatOrInt(s)
  }

  // ------------------------------------------------------- strings and chars

  predicate IsOctalDigit(c: char) {
    '0' <= c <= '7'
  }

  function AtMost(n: nat, k: nat): (r: nat)
    ensures r <= n && r <= k
  {
    if n < k then n else k
  }

  function DecodeEscape(c: char): char {
    match c
    case 'n' => '\n'
    case 'r' => '\r'
    case 't' => '\t'
    case _ => c
  }

  /** Behind a backslash: the code, below 256 for two hex digits and 512 for three octal ones, and the text after. */
  function ReadEscape(s: string): (r: Option<(nat, string)>)
    ensures r.Some? ==> |r.value.1| < |s| && (r.value.0 < 0xD800 || 0xE000 <= r.value.0 < 0x11_0000)
  {
    if s == "" then None
    else if s[0] == 'x' || s[0] == 'X' then
      var n := AtMost(Span(IsHexDigit, s[1..]), 2);
      if n == 0 then None else Some((NumberValue(s[1..][..n], 16) % 0x100, s[1..][n..]))
    else if IsOctalDigit(s[0]) then
      var n := AtMost(Span(IsOctalDigit, s), 3);
      Some((NumberValue(s[..n], 8) % 0x200, s[n..]))
    else Some((DecodeEscape(s[0]) as int, s[1..]))
  }

  function StringInner(s: string): (r: Option<(string, string)>)
    ensures r.Some? ==> |r.value.1| <= |s|
    decreases |s|
  {
    if s == "" || s[0] == '"' then Some(("", s))
    else if s[0] == '\\' then
      var escape := ReadEscape(s[1..]);
      if escape.None? then None
      else
        var more := StringInner(escape.value.1);
        if more.None? then None else Some(([escape.value.0 as char] + more.value.0, more.value.1))
    else
      var more := StringInner(s[1..]);
      if more.None? then None else Some(([s[0]] + more.value.0, more.value.1))
  }

  function LexString(s: string): Lexed {
    var open := if |s| >= 2 && s[..2] == "L\"" then s[1..] else s;
    if open == "" || open[0] != '"' then NoToken
    else
      var inner := StringInner(open[1..]);
      if inner.None? || inner.value.1 == "" then NoToken else Lexed(Str(inner.value.0), inner.value.1[1..])
  }

  function LexChar(s: string): Lexed {
    if |s| < 2 || s[0] != '\'' then NoToken
    else
      var inner := if s[1] == '\\' then ReadEscape(s[2..]) else Some((s[1] as int, s[2..]));
      if inner.None? || inner.value.1 == "" || inner.value.1[0] != '\'' then NoToken
      else Lexed(Chr(inner.value.0), inner.value.1[1..])
  }

  // ------------------------------------------------- words and punctuation

  function LookupKeyword(s: string): Option<Keyword> {
    if s == "typedef" then Some(Typedef)
    else if s == "struct" then Some(Struct)
    else if s == "enum" then Some(Enum)
    else if s == "union" then Some(Union)
    else if s == "if" then Some(If)
    else if s == "else" then Some(Else)
    else if s == "while" then Some(While)
    else if s == "for" then Some(For)
    else if s == "do" then Some(Do)
    else if s == "switch" then Some(Switch)
    else if s == "case" then Some(Case)
    else if s == "default" then Some(Default)
    else if s == "break" then Some(Break)
    else if s == "continue" then Some(Continue)
    else if s == "return" then Some(Return)
    else if s == "local" then Some(Local)
    else if s == "const" then Some(Const)
    else if s == "void" then Some(Void)
    else if s == "sizeof" then Some(Sizeof)
    else if s == "true" then Some(True)
    else if s == "false" then Some(False)
    else None
  }

  function WordToken(word: string): Token {
    var keyword := LookupKeyword(word);
    if keyword.Some? then Kw(keyword.value) else Ident(word)
  }

  function LexWord(s: string): Lexed {
    if s == "" || !IsHead(s[0]) then NoToken
    else
      var n := 1 + Span(IsTail, s[1..]);
      Lexed(WordToken(s[..n]), s[n..])
  }

  function ThreeCharOp(s: string): Option<Token> {
    if s == "<<=" then Some(ShlEq) else if s == ">>=" then Some(ShrEq) else None
  }

  function TwoCharOp(s: string): Option<Token> {
    if s == "==" then Some(EqEq)
    else if s == "!=" then Some(NotEq)
    else if s == "<=" then Some(LtEq)
    else if s == ">=" then Some(GtEq)
    else if s == "&&" then Some(AmpAmp)
    else if s == "||" then Some(PipePipe)
    else if s == "<<" then Some(Shl)
    else if s == ">>" then Some(Shr)
    else if s == "++" then Some(PlusPlus)
    else if s == "--" then Some(MinusMinus)
    else if s == "+=" then Some(PlusEq)
    else if s == "-=" then Some(MinusEq)
    else if s == "*=" then Some(StarEq)
    else if s == "/=" then Some(SlashEq)
    else if s == "%=" then Some(PercentEq)
    else if s == "&=" then Some(AmpEq)
    else if s == "|=" then Some(PipeEq)
    else if s == "^=" then Some(CaretEq)
    else if s == "->" then Some(Arrow)
    else None
  }

  function SingleCharOp(c: char): Option<Token> {
    match c
    case '(' => Some(LParen)
    case ')' => Some(RParen)
    case '{' => Some(LBrace)
    case '}' => Some(RBrace)
    case '[' => Some(LBracket)
    case ']' => Some(RBracket)
    case ';' => Some(Semi)
    case ',' => Some(Comma)
    case '.' => Some(Dot)
    case ':' => Some(Colon)
    case '?' => Some(Question)
    case '+' => Some(Plus)
    case '-' => Some(Minus)
    case '*' => Some(Star)
    case '/' => Some(Slash)
    case '%' => Some(Percent)
    case '~' => Some(Tilde)
    case '!' => Some(Bang)
    case '&' => Some(Amp)
    case '|' => Some(Pipe)
    case '^' => Some(Caret)
    case '<' => Some(Lt)
    case '>' => Some(Gt)
    case '=' => Some(Eq)
    case _ => None
  }

  function LexPunct(s: string): Lexed {
    if |s| >= 3 && ThreeCharOp(s[..3]).Some? then Lexed(ThreeCharOp(s[..3]).value, s[3..])
    else if |s| >= 2 && TwoCharOp(s[..2]).Some? then Lexed(TwoCharOp(s[..2]).value, s[2..])
    else if s != "" && SingleCharOp(s[0]).Some? then Lexed(SingleCharOp(s[0]).value, s[1..])
    else NoToken
  }

  function LexOne(s: string): (r: Lexed)
    ensures r.Lexed? ==> |r.rest| < |s|
  {
    var number := LexNumber(s);
    if number.Lexed? then number
    else
      var str := LexString(s);
      if str.Lexed? then str
      else
        var chr := LexChar(s);
        if chr.Lexed? then chr
        else
          var word := LexWord(s);
          if word.Lexed? then word else LexPunct(s)
  }

  /** `tokenize`. */
  function Tokenize(s: string): Option<Toks>
    decreases |s|
  {
    var s1 := SkipTrivia(s);
    if s1 == "" then Some(End)
    else
      var one := LexOne(s1);
      if one.NoToken? then None
      else
        var more := Tokenize(one.rest);
        if more.None? then None else Some(Cons(one.token, more.value))
  }

  /** The loop that collects the tokens. */
  method TokenizeAll(source: string) returns (r: Option<seq<Token>>)
    ensures r.Some? <==> Tokenize(source).Some?
    ensures r.Some? ==> ToList(r.value) == Tokenize(source).value
  {
    hide SkipTrivia, LexOne;
    var input := source;
    var tokens: seq<Token> := [];
    while true
      invariant After(tokens, Tokenize(input)) == Tokenize(source)
      decreases |input|
    {
      var s := SkipTrivia(input);
      if s == "" {
        ChainEnd(tokens);
        return Some(tokens);
      }
      var one := LexOne(s);
      if one.NoToken? {
        return None;
      }
      AfterOne(tokens, one.token, Tokenize(one.rest));
      tokens := tokens + [one.token];
      input := one.rest;
    }
  }

  function ToList(tokens: seq<Token>): Toks {
    if tokens == [] then End else Cons(tokens[0], ToList(tokens[1..]))
  }

  /** `tokens` in front of what is still to come. */
  function After(tokens: seq<Token>, more: Option<Toks>): Option<Toks> {
    if more.None? then None else Some(Chain(tokens, more.value))
  }

  function Chain(tokens: seq<Token>, more: Toks): Toks {
    if tokens == [] then more else Cons(tokens[0], Chain(tokens[1..], more))
  }

  lemma {:induction false} ChainEnd(tokens: seq<Token>)
    ensures Chain(tokens, End) == ToList(tokens)
  {
    if tokens != [] {
      ChainEnd(tokens[1..]);
    }
  }

  lemma {:induction false} ChainOne(tokens: seq<Token>, t: Token, more: Toks)
    ensures Chain(tokens + [t], more) == Chain(tokens, Cons(t, more))
  {
    if tokens != [] {
      ChainOne(tokens[1..], t, more);
      assert (tokens + [t])[1..] == tokens[1..] + [t];
    } else {
      assert [] + [t] == [t] && [t][1..] == [];
    }
  }

  lemma AfterOne(tokens: seq<Token>, t: Token, more: Option<Toks>)
    ensures After(tokens + [t], more) == After(tokens, if more.None? then None else Some(Cons(t, more.value)))
  {
    if more.Some? {
      ChainOne(tokens, t, more.value);
    }
  }
}
