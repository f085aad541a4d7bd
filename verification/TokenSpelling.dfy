/**
 How every token can be spelled, and the proof that the lexer reads such texts back, with white space, comments
 and directives between the tokens.
 */
module TokenSpelling {
  import opened Splices
  import opened Numerals
  import opened ExprGrammar
  import opened TemplateLexer

  /** `text` is lexed as `toks`. */
  predicate Lexes(text: string, toks: Toks) {
    Tokenize(text) == Some(toks)
  }

  // ---------------------------------------------------------------- trivia

  lemma NoTrivia(s: string)
    requires s != "" && !IsSpace(s[0]) && s[0] != '#'
    requires s[0] == '/' ==> |s| < 2 || (s[1] != '/' && s[1] != '*')
    ensures SkipTrivia(s) == s
  {
    hide BlockCommentEnd, DirectiveEnd;
    assert DropWhile(IsSpace, s) == s;
    assert |s| >= 2 ==> s[..2][0] == s[0] && s[..2][1] == s[1];
    assert SkipLineComment(s) == s && SkipBlockComment(s) == s && SkipDirective(s) == s;
  }

  lemma SkipSpace(c: char, s: string)
    requires IsSpace(c)
    ensures SkipTrivia([c] + s) == SkipTrivia(s)
  {
    hide SkipDirective, SkipBlockComment, SkipLineComment;
    assert ([c] + s)[1..] == s;
    assert Span(IsSpace, [c] + s) == 1 + Span(IsSpace, s);
    assert DropWhile(IsSpace, [c] + s) == DropWhile(IsSpace, s);
    SkipFrom([c] + s, s);
  }

  lemma SkipFrom(longer: string, s: string)
    requires |s| < |longer| && SkipOnce(longer) == SkipOnce(s)
    ensures SkipTrivia(longer) == SkipTrivia(s)
  {
    hide SkipOnce;
    var r := SkipOnce(s);
    if |r| == |s| {
      assert r == s;
    }
  }

  lemma SpaceBefore(c: char, s: string)
    requires IsSpace(c)
    ensures Tokenize([c] + s) == Tokenize(s)
  {
    hide LexOne, SkipTrivia;
    SkipSpace(c, s);
  }

  /** One token in front of lexed text. */
  lemma TokenBefore(s: string, t: Token, rest: string, toks: Toks)
    requires s != "" && !IsSpace(s[0]) && s[0] != '#'
    requires s[0] == '/' ==> |s| < 2 || (s[1] != '/' && s[1] != '*')
    requires LexOne(s) == Lexed(t, rest) && Lexes(rest, toks)
    ensures Lexes(s, Cons(t, toks))
  {
    hide LexOne, SkipTrivia;
    NoTrivia(s);
  }

  /** What may stand between two tokens; a directive here is not a `#define`. */
  datatype Piece = Blank(c: char) | LineComment(text: string) | BlockComment(text: string) | Directive(text: string)

  /** The comment is over only where it ends. */
  predicate NoEndInside(text: string) {
    forall i :: 0 <= i < |text| - 1 && text[i] == '*' ==> text[i + 1] != '/'
  }

  predicate IsPiece(p: Piece) {
    match p
    case Blank(c) => c == ' ' || c == '\t' || c == '\r' || c == '\n'
    case LineComment(text) => '\n' !in text && '#' !in text
    case BlockComment(text) => NoEndInside(text) && '#' !in text
    case Directive(text) =>
      '\n' !in text && (text == "" || (text[|text| - 1] != '\\' && text[|text| - 1] != '\r'))
      && !("define" <= DropWhile(IsSpace, text))
  }

  predicate IsGap(gap: seq<Piece>) {
    forall p <- gap :: IsPiece(p)
  }

  function PieceText(p: Piece): string {
    match p
    case Blank(c) => [c]
    case LineComment(text) => "//" + text + "\n"
    case BlockComment(text) => "/*" + text + "*/"
    case Directive(text) => "#" + text + "\n"
  }

  function GapText(gap: seq<Piece>): string {
    if gap == [] then "" else PieceText(gap[0]) + GapText(gap[1..])
  }

  lemma LineCommentVanishes(text: string, s: string)
    requires '\n' !in text
    ensures SkipTrivia("//" + text + "\n" + s) == SkipTrivia(s)
  {
    var line, rest := "//" + text, "\n" + s;
    var x := line + rest;
    assert "//" + text + "\n" + s == x;
    assert x[..2] == "//";
    assert forall c <- line :: NotNewline(c);
    TakesAll(NotNewline, line, rest);
    assert SkipLineComment(x) == rest && SkipBlockComment(rest) == rest && SkipDirective(rest) == rest;
    assert DropWhile(IsSpace, x) == x;
    assert SkipOnce(x) == rest;
    assert rest == ['\n'] + s;
    SkipSpace('\n', s);
  }

  lemma {:induction false} CommentEndsAt(text: string, s: string)
    requires NoEndInside(text)
    ensures BlockCommentEnd(text + "*/" + s) == s
    decreases |text|
  {
    var x := text + "*/" + s;
    var n := Span(NotStar, x);
    if n < |text| {
      assert x[n] == text[n] == '*' && x[n + 1] == if n + 1 < |text| then text[n + 1] else '*';
      assert DropWhile(NotStar, x)[1..] == text[n + 1..] + "*/" + s;
      CommentEndsAt(text[n + 1..], s);
    } else {
      assert x[|text|] == '*' && n == |text|;
      assert DropWhile(NotStar, x) == "*/" + s;
    }
  }

  lemma DirectiveFirst(s: string)
    ensures SkipTrivia(SkipDirective(s)) == SkipTrivia(s)
  {
    hide DirectiveEnd;
    if s != "" && s[0] == '#' {
      assert |s| >= 2 ==> s[..2][0] == '#';
      assert DropWhile(IsSpace, s) == s && SkipLineComment(s) == s && SkipBlockComment(s) == s;
      assert SkipOnce(s) == SkipDirective(s);
    }
  }

  lemma BlockCommentVanishes(text: string, s: string)
    requires NoEndInside(text)
    ensures SkipTrivia("/*" + text + "*/" + s) == SkipTrivia(s)
  {
    hide BlockCommentEnd, SkipDirective;
    var x := "/*" + text + "*/" + s;
    CommentEndsAt(text, s);
    assert x[..2] == "/*" && x[2..] == text + "*/" + s;
    assert DropWhile(IsSpace, x) == x && SkipLineComment(x) == x && SkipBlockComment(x) == s;
    assert SkipOnce(x) == SkipDirective(s);
    DirectiveFirst(s);
  }

  lemma EndsHere(x: string, n: nat)
    requires n == Span(NotNewline, x) < |x| && TrimReturns(x[..n]) == x[..n]
    requires n == 0 || x[n - 1] != '\\'
    ensures DirectiveEnd(x) == x[n + 1..]
  {
    hide TrimReturns, Span;
  }

  lemma DirectiveEndsAt(text: string, s: string)
    requires '\n' !in text && (text == "" || (text[|text| - 1] != '\\' && text[|text| - 1] != '\r'))
    ensures DirectiveEnd(text + ("\n" + s)) == s
  {
    hide DirectiveEnd, TrimReturns, Span;
    var rest := "\n" + s;
    var x := text + rest;
    assert forall c <- text :: NotNewline(c);
    TakesAll(NotNewline, text, rest);
    assert x[|text| + 1..] == s;
    NothingToTrim(text);
    EndsHere(x, |text|);
  }

  lemma NothingToTrim(text: string)
    requires text == "" || text[|text| - 1] != '\r'
    ensures TrimReturns(text) == text
  {
  }

  lemma DirectiveVanishes(text: string, s: string)
    requires '\n' !in text && (text == "" || (text[|text| - 1] != '\\' && text[|text| - 1] != '\r'))
    ensures SkipTrivia("#" + text + "\n" + s) == SkipTrivia(s)
  {
    hide DirectiveEnd, BlockCommentEnd, SkipTrivia;
    var x := "#" + text + "\n" + s;
    DirectiveEndsAt(text, s);
    assert x[1..] == text + ("\n" + s);
    assert SkipDirective(x) == s;
    DirectiveFirst(x);
  }

  /** White space, comments and directives are passed over. */
  lemma {:induction false} GapVanishes(gap: seq<Piece>, s: string)
    requires IsGap(gap)
    ensures SkipTrivia(GapText(gap) + s) == SkipTrivia(s)
    decreases |gap|
  {
    hide SkipTrivia;
    if gap == [] {
      assert GapText(gap) + s == s;
    } else {
      var more := GapText(gap[1..]) + s;
      assert IsPiece(gap[0]);
      GapVanishes(gap[1..], s);
      assert GapText(gap) + s == PieceText(gap[0]) + more;
      match gap[0]
      case Blank(c) => SkipSpace(c, more);
      case LineComment(text) => LineCommentVanishes(text, more);
      case BlockComment(text) => BlockCommentVanishes(text, more);
      case Directive(text) => DirectiveVanishes(text, more);
    }
  }

  /** A comment or a directive that the end of the text cuts off is the end of the text. */
  lemma CutOffVanishes(mark: string, text: string)
    requires (mark == "//" && '\n' !in text) || (mark == "/*" && NeverEnds(text)) || (mark == "#" && '\n' !in text)
    ensures Tokenize(mark + text) == Some(End)
  {
    hide LexOne;
    var x := mark + text;
    assert x[..|mark|] == mark && x[|mark|..] == text;
    assert DropWhile(IsSpace, x) == x;
    if mark == "//" {
      assert forall c <- x :: NotNewline(c);
      TakesAll(NotNewline, x, "");
      assert x + "" == x;
      assert SkipLineComment(x) == "";
    } else if mark == "/*" {
      NeverEndsSkips(text);
      assert SkipLineComment(x) == x && SkipBlockComment(x) == "";
    } else {
      TakesAll(NotNewline, text, "");
      assert text + "" == text;
      assert |x| >= 2 ==> x[..2][0] == '#';
      assert SkipLineComment(x) == x && SkipBlockComment(x) == x && SkipDirective(x) == "";
    }
    assert SkipOnce(x) == "";
    assert SkipTrivia(x) == SkipTrivia("") == "";
  }

  /** No star with a slash behind it. */
  predicate NeverEnds(text: string) {
    forall i :: 0 <= i < |text| - 1 ==> text[i] != '*' || text[i + 1] != '/'
  }

  lemma {:induction false} NeverEndsSkips(text: string)
    requires NeverEnds(text)
    ensures BlockCommentEnd(text) == ""
    decreases |text|
  {
    var star := DropWhile(NotStar, text);
    var n := Span(NotStar, text);
    if star != "" {
      assert forall i :: 0 <= i < |star| ==> star[i] == text[n + i];
      assert NeverEnds(star[1..]);
      NeverEndsSkips(star[1..]);
    }
  }

  lemma GapBefore(gap: seq<Piece>, s: string)
    requires IsGap(gap)
    ensures Tokenize(GapText(gap) + s) == Tokenize(s)
  {
    hide LexOne, SkipTrivia;
    GapVanishes(gap, s);
  }

  // ----------------------------------------------------------------- words

  predicate EndsWord(s: string) {
    s == "" || (!IsTail(s[0]) && s[0] != '"')
  }

  lemma NotANumber(s: string)
    requires s != "" && !IsDigit(s[0])
    ensures LexNumber(s).NoToken?
  {
  }

  lemma NotQuoted(s: string)
    requires s != "" && s[0] != '"' && s[0] != '\'' && (s[0] == 'L' && |s| > 1 ==> s[1] != '"')
    ensures LexString(s).NoToken? && LexChar(s).NoToken?
  {
    assert |s| >= 2 ==> s[..2][0] == s[0] && s[..2][1] == s[1];
  }

  lemma WholeWord(w: string, rest: string)
    requires IsIdentifier(w) && EndsWord(rest)
    ensures LexWord(w + rest) == Lexed(WordToken(w), rest)
  {
    hide WordToken;
    var s := w + rest;
    TakesAll(IsTail, w[1..], rest);
    assert s[1..] == w[1..] + rest;
    assert s[..|w|] == w && s[|w|..] == rest;
  }

  lemma WordFirst(w: string, rest: string)
    requires IsIdentifier(w) && EndsWord(rest)
    ensures LexOne(w + rest) == Lexed(WordToken(w), rest)
  {
    hide LexNumber, LexString, LexChar, LexWord, WordToken;
    var s := w + rest;
    if |w| > 1 {
      assert s[1] == w[1] && w[1] in w[1..];
    } else if rest != "" {
      assert s[1] == rest[0];
    }
    NotANumber(s);
    NotQuoted(s);
    WholeWord(w, rest);
  }

  lemma LexesWord(w: string, rest: string, toks: Toks)
    requires IsIdentifier(w) && EndsWord(rest) && Lexes(rest, toks)
    ensures Lexes(w + rest, Cons(WordToken(w), toks))
  {
    hide LexOne, WordToken, Lexes;
    WordFirst(w, rest);
    TokenBefore(w + rest, WordToken(w), rest, toks);
  }

  // --------------------------------------------------------------- numbers

  /** What may stand right behind a number. */
  predicate EndsNumber(s: string) {
    s == "" || (s[0] == ' ' || s[0] == ')' || s[0] == ';' || s[0] == ']')
  }

  /** Neither a digit nor part of a prefix, a fraction or an exponent. */
  predicate EndsDigits(s: string) {
    s == "" || (!IsDigit(s[0]) && s[0] !in "xXbB.eE")
  }

  lemma NoPrefix(d: string, rest: string)
    requires d != "" && (forall c <- d :: IsDigit(c)) && EndsDigits(rest)
    ensures LexHex(d + rest).NoToken? && LexBinary(d + rest).NoToken?
  {
    var s := d + rest;
    if |s| >= 2 {
      assert s[1] == if |d| >= 2 then d[1] else rest[0];
      assert |d| >= 2 ==> d[1] in d;
    }
  }

  lemma PlainInteger(d: string, rest: string)
    requires d != "" && (forall c <- d :: IsDigit(c)) && EndsDigits(rest)
    ensures LexFloatOrInt(d + rest) == Lexed(Int(Saturated(NumberValue(d, 10))), DropWhile(IsNumberSuffix, rest))
  {
    hide NumberValue;
    TakesAll(IsDigit, d, rest);
    assert FractionLength(rest) == 0 && rest[0..] == rest && ExponentLength(rest) == 0;
  }

  lemma NumberFirst(s: string)
    requires LexHex(s).NoToken? && LexBinary(s).NoToken? && LexFloatOrInt(s).Lexed?
    ensures LexOne(s) == LexFloatOrInt(s)
  {
    hide LexHex, LexBinary, LexFloatOrInt;
  }

  /** A decimal literal, with any suffix, has the value of its numeral, or zero if that needs more than 64 bits. */
  lemma DecimalFirst(n: nat, suffix: string, rest: string)
    requires (forall c <- suffix :: c in "uUlLfF") && EndsNumber(rest)
    ensures (LexOne(Decimal(n) + (suffix + rest))
             == Lexed(Int(if n < 0x1_0000_0000_0000_0000 then n else 0), rest))
  {
    hide Decimal, LexHex, LexBinary, LexFloatOrInt, LexOne, NumberValue, DropWhile;
    NumberSuffixDropped(suffix, rest);
    NoPrefix(Decimal(n), suffix + rest);
    PlainInteger(Decimal(n), suffix + rest);
    DecimalValue(n);
    NumberFirst(Decimal(n) + (suffix + rest));
  }

  lemma NumberSuffixDropped(suffix: string, rest: string)
    requires (forall c <- suffix :: c in "uUlLfF") && EndsNumber(rest)
    ensures DropWhile(IsNumberSuffix, suffix + rest) == rest
    ensures var tail := suffix + rest; EndsDigits(tail)
  {
    TakesAll(IsNumberSuffix, suffix, rest);
    if suffix != "" {
      assert (suffix + rest)[0] == suffix[0] && suffix[0] in suffix;
    }
  }

  lemma IntegerFirst(n: nat, rest: string)
    requires n <= 0xFFFF_FFFF_FFFF_FFFF && EndsNumber(rest)
    ensures LexOne(Decimal(n) + rest) == Lexed(Int(n), rest)
  {
    hide LexOne;
    DecimalFirst(n, "", rest);
    assert "" + rest == rest;
  }

  lemma LexesNumber(n: nat, rest: string, toks: Toks)
    requires n <= 0xFFFF_FFFF_FFFF_FFFF && EndsNumber(rest) && Lexes(rest, toks)
    ensures Lexes(Decimal(n) + rest, Cons(Int(n), toks))
  {
    hide Decimal, Lexes, LexOne;
    var d := Decimal(n);
    IntegerFirst(n, rest);
    assert (d + rest)[0] == d[0] && d[0] in d;
    TokenBefore(d + rest, Int(n), rest, toks);
  }

  lemma HexReads(prefix: string, d: string, tail: string)
    requires prefix in ["0x", "0X"] && d != "" && forall c <- d :: IsHexDigit(c)
    requires tail == "" || !IsHexDigit(tail[0])
    ensures LexHex(prefix + (d + tail)) == Lexed(Int(Saturated(NumberValue(d, 16))), DropWhile(IsIntSuffix, tail))
  {
    hide NumberValue;
    TakesAll(IsHexDigit, d, tail);
    assert (prefix + (d + tail))[2..] == d + tail;
  }

  lemma BinaryReads(prefix: string, d: string, tail: string)
    requires prefix in ["0b", "0B"] && d != "" && forall c <- d :: IsHexDigit(c) && IsBinaryDigit(c)
    requires tail == "" || !IsBinaryDigit(tail[0])
    ensures LexHex(prefix + (d + tail)).NoToken?
    ensures LexBinary(prefix + (d + tail)) == Lexed(Int(Saturated(NumberValue(d, 2))), DropWhile(IsIntSuffix, tail))
  {
    hide NumberValue;
    TakesAll(IsBinaryDigit, d, tail);
    assert (prefix + (d + tail))[2..] == d + tail;
  }

  lemma SuffixDropped(suffix: string, rest: string)
    requires (forall c <- suffix :: c in "uUlL") && EndsNumber(rest)
    ensures DropWhile(IsIntSuffix, suffix + rest) == rest
    ensures var tail := suffix + rest; tail == "" || !IsHexDigit(tail[0])
  {
    TakesAll(IsIntSuffix, suffix, rest);
    if suffix != "" {
      assert (suffix + rest)[0] == suffix[0] && suffix[0] in suffix;
    }
  }

  /** A hexadecimal or binary literal: its prefix in either case, its value, any suffix, zero beyond 64 bits. */
  lemma PrefixedFirst(prefix: string, n: nat, suffix: string, rest: string)
    requires prefix in ["0x", "0X", "0b", "0B"]
    requires (forall c <- suffix :: c in "uUlL") && EndsNumber(rest)
    ensures var hex := prefix[1] == 'x' || prefix[1] == 'X';
      LexOne(prefix + (InBase(n, hex) + (suffix + rest)))
      == Lexed(Int(if n < 0x1_0000_0000_0000_0000 then n else 0), rest)
  {
    hide NumberValue, InBase, LexHex, LexBinary, LexFloatOrInt, DropWhile, LexString, LexChar, LexWord, LexPunct;
    var hex := prefix[1] == 'x' || prefix[1] == 'X';
    InBaseValue(n, hex);
    SuffixDropped(suffix, rest);
    if hex {
      HexReads(prefix, InBase(n, hex), suffix + rest);
    } else {
      BinaryReads(prefix, InBase(n, hex), suffix + rest);
    }
  }

  /** The pieces of a floating-point literal. */
  datatype FloatParts = FloatParts(whole: string, fraction: Option<string>, exponent: Option<Exponent>)

  datatype Exponent = Exponent(mark: char, sign: string, digits: string)

  predicate AreDigits(s: string) {
    forall c <- s :: '0' <= c <= '9'
  }

  /** Digits, and a fraction, an exponent or both. */
  predicate IsFloat(p: FloatParts) {
    p.whole != "" && AreDigits(p.whole)
    && (p.fraction.Some? || p.exponent.Some?)
    && (p.fraction.Some? ==> AreDigits(p.fraction.value))
    && (p.exponent.Some? ==>
          var e := p.exponent.value;
          e.mark in "eE" && e.sign in ["", "+", "-"] && e.digits != "" && AreDigits(e.digits))
  }

  function FractionText(fraction: Option<string>): string {
    if fraction.Some? then "." + fraction.value else ""
  }

  function ExponentText(exponent: Option<Exponent>): string {
    if exponent.Some? then [exponent.value.mark] + (exponent.value.sign + exponent.value.digits) else ""
  }

  function FloatText(p: FloatParts): string {
    p.whole + (FractionText(p.fraction) + ExponentText(p.exponent))
  }

  ghost predicate IsFloatText(text: string) {
    exists p: FloatParts :: IsFloat(p) && FloatText(p) == text
  }

  /** What cannot go on a number. */
  predicate EndsFloat(s: string) {
    s == "" || (!IsDigit(s[0]) && s[0] !in ".eE+-xXbB")
  }

  lemma FractionReads(fraction: Option<string>, exponent: Option<Exponent>, tail: string)
    requires fraction.Some? ==> AreDigits(fraction.value)
    requires EndsFloat(tail) && (exponent.Some? ==> exponent.value.mark in "eE")
    ensures var s := FractionText(fraction) + (ExponentText(exponent) + tail);
      FractionLength(s) == |FractionText(fraction)| && s[|FractionText(fraction)|..] == ExponentText(exponent) + tail
  {
    hide FractionLength;
    var rest := ExponentText(exponent) + tail;
    assert rest == "" || (!IsDigit(rest[0]) && rest[0] != '.');
    if fraction.Some? {
      MarkedFraction(fraction.value, rest);
      assert FractionText(fraction) + rest == "." + (fraction.value + rest);
    } else {
      assert "" + rest == rest;
      NoFraction(rest);
    }
  }

  lemma NoFraction(rest: string)
    requires rest == "" || rest[0] != '.'
    ensures FractionLength(rest) == 0
  {
  }

  lemma MarkedFraction(digits: string, rest: string)
    requires AreDigits(digits) && (rest == "" || !IsDigit(rest[0]))
    ensures FractionLength("." + (digits + rest)) == 1 + |digits|
  {
    TakesAll(IsDigit, digits, rest);
    assert ("." + (digits + rest))[1..] == digits + rest;
  }

  lemma ExponentReads(exponent: Option<Exponent>, tail: string)
    requires EndsFloat(tail)
    requires exponent.Some? ==>
               var e := exponent.value;
               e.mark in "eE" && e.sign in ["", "+", "-"] && e.digits != "" && AreDigits(e.digits)
    ensures ExponentLength(ExponentText(exponent) + tail) == |ExponentText(exponent)|
  {
    hide ExponentLength, AreDigits;
    if exponent.Some? {
      var e := exponent.value;
      MarkedExponent(e.mark, e.sign, e.digits, tail);
      assert ExponentText(exponent) + tail == [e.mark] + (e.sign + (e.digits + tail));
    } else {
      assert "" + tail == tail;
      NoExponent(tail);
    }
  }

  lemma NoExponent(tail: string)
    requires tail == "" || tail[0] !in "eE"
    ensures ExponentLength(tail) == 0
  {
  }

  lemma MarkedExponent(mark: char, sign: string, digits: string, tail: string)
    requires mark in "eE" && sign in ["", "+", "-"] && digits != "" && AreDigits(digits)
    requires tail == "" || !IsDigit(tail[0])
    ensures ExponentLength([mark] + (sign + (digits + tail))) == 1 + |sign| + |digits|
  {
    var more := digits + tail;
    var s := [mark] + (sign + more);
    assert more[0] == digits[0] && digits[0] in digits;
    TakesAll(IsDigit, digits, tail);
    hide Span;
    assert s[1] == if sign == "" then more[0] else sign[0];
    assert s[1 + |sign|..] == more;
  }

  /** A literal with a fraction, an exponent or both is one float, with any suffix. */
  lemma FloatFirst(p: FloatParts, suffix: string, rest: string)
    requires IsFloat(p) && (forall c <- suffix :: c in "uUlLfF") && EndsNumber(rest)
    ensures LexOne(FloatText(p) + (suffix + rest)) == Lexed(Float(FloatText(p)), rest)
  {
    hide NumberValue, DropWhile, LexOne, FractionText, ExponentText, LexFloatOrInt, LexHex, LexBinary;
    var tail := suffix + rest;
    NumberSuffixDropped(suffix, rest);
    assert EndsFloat(tail) by {
      assert suffix != "" ==> tail[0] == suffix[0] && suffix[0] in suffix;
    }
    FractionReads(p.fraction, p.exponent, tail);
    ExponentReads(p.exponent, tail);
    FractionStarts(p, tail);
    FloatReads(p.whole, FractionText(p.fraction), ExponentText(p.exponent), tail);
    FloatHead(p, tail);
    NumberFirst(FloatText(p) + tail);
  }

  lemma FractionStarts(p: FloatParts, tail: string)
    requires IsFloat(p) && EndsFloat(tail)
    ensures var more := FractionText(p.fraction) + (ExponentText(p.exponent) + tail); more == "" || !IsDigit(more[0])
    ensures FractionText(p.fraction) + ExponentText(p.exponent) != ""
  {
  }

  lemma FloatReads(whole: string, fraction: string, exponent: string, tail: string)
    requires whole != "" && AreDigits(whole) && fraction + exponent != ""
    requires var more := fraction + (exponent + tail);
      (more == "" || !IsDigit(more[0])) && FractionLength(more) == |fraction| && more[|fraction|..] == exponent + tail
    requires ExponentLength(exponent + tail) == |exponent|
    ensures var text := whole + (fraction + exponent);
      LexFloatOrInt(text + tail) == Lexed(Float(text), DropWhile(IsNumberSuffix, tail))
  {
    hide FractionLength, ExponentLength, NumberValue, DropWhile, Span;
    var text := whole + (fraction + exponent);
    var s := text + tail;
    assert s == whole + (fraction + (exponent + tail));
    TakesAll(IsDigit, whole, fraction + (exponent + tail));
    assert s[..|text|] == text && s[|text|..] == tail;
  }

  lemma FloatHead(p: FloatParts, tail: string)
    requires IsFloat(p)
    ensures LexHex(FloatText(p) + tail).NoToken? && LexBinary(FloatText(p) + tail).NoToken?
  {
    var s := FloatText(p) + tail;
    if |p.whole| >= 2 {
      assert s[1] == p.whole[1] && p.whole[1] in p.whole;
    } else if p.fraction.Some? {
      assert s[1] == '.';
    } else {
      assert s[1] == p.exponent.value.mark;
    }
  }

  // ------------------------------------------------------- strings and chars

  function HexByte(n: nat): (s: string)
    requires n < 0x100
    ensures |s| == 2
  {
    [HexChar(n / 16), HexChar(n % 16)]
  }

  lemma HexByteReads(n: nat, rest: string)
    requires n < 0x100
    ensures ReadEscape("x" + HexByte(n) + rest) == Some((n, rest))
  {
    var s, d := "x" + HexByte(n) + rest, HexByte(n);
    assert s[1..] == d + rest && s[1] == d[0] && s[2] == d[1];
    assert Span(IsHexDigit, s[1..]) >= 2 by {
      assert s[1..][1..][0] == d[1];
    }
    assert s[1..][..2] == d && s[1..][2..] == rest;
    assert d[..1] == [d[0]] && [d[0]][..0] == "";
    assert NumberValue([d[0]], 16) == n / 16;
    assert NumberValue(d, 16) == n / 16 * 16 + n % 16;
  }

  /** One hexadecimal digit is enough when no other follows. */
  lemma HexDigitReads(n: nat, rest: string)
    requires n < 16 && (rest == "" || !IsHexDigit(rest[0]))
    ensures ReadEscape("x" + [HexChar(n)] + rest) == Some((n, rest))
  {
    var d := [HexChar(n)];
    var s := "x" + d + rest;
    assert s[1..] == d + rest;
    TakesAll(IsHexDigit, d, rest);
    assert d[..0] == "";
    assert NumberValue(d, 16) == n;
  }

  /** The letter that stands for a character behind a backslash. */
  function EscapeLetter(c: char): Option<char> {
    if c == '\n' then Some('n')
    else if c == '\r' then Some('r')
    else if c == '\t' then Some('t')
    else if c == '"' || c == '\\' || c == '\'' then Some(c)
    else None
  }

  /** A character inside quotes: escaped if it has a letter, else control characters by their code. */
  function QuotedChar(c: char): string {
    if EscapeLetter(c).Some? then ['\\', EscapeLetter(c).value]
    else if c < ' ' then "\\x" + HexByte(c as nat)
    else [c]
  }

  function Quoted(content: string): string {
    if content == "" then "" else QuotedChar(content[0]) + Quoted(content[1..])
  }

  lemma EscapeReads(c: char, body: string, rest: string)
    requires ReadEscape(body) == Some((c as nat, rest)) && StringInner(rest).Some?
    ensures StringInner(['\\'] + body) == Some(([c] + StringInner(rest).value.0, StringInner(rest).value.1))
  {
    hide ReadEscape;
    assert (['\\'] + body)[1..] == body;
  }

  lemma PlainCharReads(c: char, rest: string)
    requires c != '"' && c != '\\' && StringInner(rest).Some?
    ensures StringInner([c] + rest) == Some(([c] + StringInner(rest).value.0, StringInner(rest).value.1))
  {
    assert ([c] + rest)[1..] == rest;
  }

  lemma EscapedReads(c: char, rest: string)
    requires EscapeLetter(c).Some?
    ensures ReadEscape([EscapeLetter(c).value] + rest) == Some((c as nat, rest))
  {
    assert ([EscapeLetter(c).value] + rest)[1..] == rest;
  }

  function OctalByte(n: nat): string
    requires n < 0x200
  {
    [HexChar(n / 64), HexChar(n / 8 % 8), HexChar(n % 8)]
  }

  /** Three octal digits behind a backslash are a code, whatever follows. */
  lemma OctalByteReads(n: nat, rest: string)
    requires n < 0x200
    ensures ReadEscape(OctalByte(n) + rest) == Some((n, rest))
  {
    hide NumberValue;
    var d := OctalByte(n);
    var s := d + rest;
    OctalByteValue(n);
    assert s[0] == d[0] && s[1] == d[1] && s[2] == d[2] && s[..3] == d && s[3..] == rest;
    assert Span(IsOctalDigit, s) >= 3 by {
      assert s[1..][0] == d[1] && s[1..][1..][0] == d[2];
    }
  }

  lemma OctalByteValue(n: nat)
    requires n < 0x200
    ensures (forall c <- OctalByte(n) :: IsOctalDigit(c) && IsHexDigit(c)) && NumberValue(OctalByte(n), 8) == n
  {
    hide NumberValue;
    var a, b, c := n / 64, n / 8 % 8, n % 8;
    assert NumberValue("", 8) == 0 by {
      NoDigits();
    }
    assert n == (a * 8 + b) * 8 + c;
    var one, two := [HexChar(a)], [HexChar(a), HexChar(b)];
    NumberPush("", HexChar(a), 8);
    NumberPush(one, HexChar(b), 8);
    NumberPush(two, HexChar(c), 8);
    assert "" + one == one && one + [HexChar(b)] == two && two + [HexChar(c)] == OctalByte(n);
  }

  lemma NoDigits()
    ensures NumberValue("", 8) == 0
  {
  }

  lemma NumberPush(digits: string, c: char, radix: nat)
    requires (forall d <- digits :: IsHexDigit(d)) && IsHexDigit(c)
    ensures forall d <- digits + [c] :: IsHexDigit(d)
    ensures NumberValue(digits + [c], radix) == NumberValue(digits, radix) * radix + DigitValue(c)
  {
    assert (digits + [c])[..|digits|] == digits;
  }

  lemma QuotedCharReads(c: char, rest: string)
    requires StringInner(rest).Some?
    ensures (StringInner(QuotedChar(c) + rest)
             == Some(([c] + StringInner(rest).value.0, StringInner(rest).value.1)))
  {
    hide StringInner, ReadEscape, HexByte;
    var letter := EscapeLetter(c);
    if letter.Some? {
      EscapedReads(c, rest);
      EscapeReads(c, [letter.value] + rest, rest);
      assert QuotedChar(c) + rest == ['\\'] + ([letter.value] + rest);
    } else if c < ' ' {
      var body := "x" + HexByte(c as nat) + rest;
      HexByteReads(c as nat, rest);
      EscapeReads(c, body, rest);
      assert QuotedChar(c) + rest == ['\\'] + body;
    } else {
      PlainCharReads(c, rest);
    }
  }

  lemma {:induction false} QuotedReads(content: string, rest: string)
    requires rest != "" && rest[0] == '"'
    ensures StringInner(Quoted(content) + rest) == Some((content, rest))
    decreases |content|
  {
    hide QuotedChar, ReadEscape;
    if content == "" {
      assert Quoted(content) + rest == rest;
    } else {
      hide StringInner;
      var more := Quoted(content[1..]) + rest;
      QuotedReads(content[1..], rest);
      QuotedCharReads(content[0], more);
      assert Quoted(content) + rest == QuotedChar(content[0]) + more;
      assert content == [content[0]] + content[1..];
    }
  }

  lemma StringFirst(content: string, rest: string)
    ensures LexOne("\"" + Quoted(content) + "\"" + rest) == Lexed(Str(content), rest)
  {
    hide StringInner, Quoted, LexNumber;
    var s := "\"" + Quoted(content) + "\"" + rest;
    QuotedReads(content, "\"" + rest);
    assert s[1..] == Quoted(content) + ("\"" + rest);
    assert ("\"" + rest)[1..] == rest;
    assert |s| >= 2 ==> s[..2][0] == '"';
    NotANumber(s);
    assert LexString(s) == Lexed(Str(content), rest);
  }

  /** A wide string is read like any other. */
  lemma WideStringFirst(content: string, rest: string)
    ensures LexOne("L\"" + Quoted(content) + "\"" + rest) == Lexed(Str(content), rest)
  {
    hide StringInner, Quoted, LexNumber;
    var s := "L\"" + Quoted(content) + "\"" + rest;
    QuotedReads(content, "\"" + rest);
    assert s[1..][1..] == Quoted(content) + ("\"" + rest);
    assert ("\"" + rest)[1..] == rest;
    assert s[..2] == "L\"";
    NotANumber(s);
    assert LexString(s) == Lexed(Str(content), rest);
  }

  predicate IsCharCode(code: nat) {
    code < 0xD800 || 0xE000 <= code < 0x11_0000
  }

  /** A character literal: by its code up to 255, else as it is. */
  function CharBody(code: nat): string
    requires IsCharCode(code)
  {
    if code < 0x100 then "\\x" + HexByte(code) else [code as char]
  }

  lemma CharFirst(code: nat, rest: string)
    requires IsCharCode(code)
    ensures LexOne("'" + CharBody(code) + "'" + rest) == Lexed(Chr(code), rest)
  {
    hide ReadEscape, LexNumber;
    var s := "'" + CharBody(code) + "'" + rest;
    var end := "'" + rest;
    assert end[1..] == rest;
    if code < 0x100 {
      HexByteReads(code, end);
      assert s[2..] == "x" + HexByte(code) + end;
    } else {
      assert s[2..] == end && s[1] as nat == code;
    }
    assert s[0] == '\'';
    assert |s| >= 2 ==> s[..2][0] == '\'';
    NotANumber(s);
    assert LexString(s).NoToken?;
    assert LexChar(s) == Lexed(Chr(code), rest);
  }

  // ------------------------------------------------- keywords and punctuation

  function KeywordText(k: Keyword): string {
    match k
    case Typedef => "typedef"
    case Struct => "struct"
    case Enum => "enum"
    case Union => "union"
    case If => "if"
    case Else => "else"
    case While => "while"
    case For => "for"
    case Do => "do"
    case Switch => "switch"
    case Case => "case"
    case Default => "default"
    case Break => "break"
    case Continue => "continue"
    case Return => "return"
    case Local => "local"
    case Const => "const"
    case Void => "void"
    case Sizeof => "sizeof"
    case True => "true"
    case False => "false"
  }

  lemma KeywordsAreKnown(k: Keyword)
    ensures LookupKeyword(KeywordText(k)) == Some(k)
  {
  }

  /** No other word is a keyword. */
  lemma OnlyKeywordsAreKnown(w: string)
    ensures LookupKeyword(w).Some? ==> w == KeywordText(LookupKeyword(w).value)
  {
  }

  lemma KeywordsAreWords(k: Keyword)
    ensures IsIdentifier(KeywordText(k))
  {
  }

  predicate IsPunct(t: Token) {
    !t.Int? && !t.Float? && !t.Str? && !t.Chr? && !t.Ident? && !t.Kw?
  }

  function PunctText(t: Token): string
    requires IsPunct(t)
  {
    match t
    case LParen => "("
    case RParen => ")"
    case LBrace => "{"
    case RBrace => "}"
    case LBracket => "["
    case RBracket => "]"
    case Semi => ";"
    case Comma => ","
    case Dot => "."
    case Colon => ":"
    case Question => "?"
    case Arrow => "->"
    case Plus => "+"
    case Minus => "-"
    case Star => "*"
    case Slash => "/"
    case Percent => "%"
    case PlusPlus => "++"
    case MinusMinus => "--"
    case Tilde => "~"
    case Bang => "!"
    case Amp => "&"
    case Pipe => "|"
    case Caret => "^"
    case Shl => "<<"
    case Shr => ">>"
    case EqEq => "=="
    case NotEq => "!="
    case Lt => "<"
    case Gt => ">"
    case LtEq => "<="
    case GtEq => ">="
    case AmpAmp => "&&"
    case PipePipe => "||"
    case Eq => "="
    case PlusEq => "+="
    case MinusEq => "-="
    case StarEq => "*="
    case SlashEq => "/="
    case PercentEq => "%="
    case AmpEq => "&="
    case PipeEq => "|="
    case CaretEq => "^="
    case ShlEq => "<<="
    case ShrEq => ">>="
  }

  /** The operator a text of its length is looked up as. */
  function PunctOf(text: string): Option<Token> {
    if |text| == 3 then ThreeCharOp(text)
    else if |text| == 2 then TwoCharOp(text)
    else if |text| == 1 then SingleCharOp(text[0])
    else None
  }

  lemma ShortPunctIsKnown(t: Token)
    requires IsPunct(t) && |PunctText(t)| == 1
    ensures SingleCharOp(PunctText(t)[0]) == Some(t)
  {
    hide TwoCharOp, ThreeCharOp;
  }

  lemma LongPunctIsKnown(t: Token)
    requires IsPunct(t) && |PunctText(t)| > 1
    ensures PunctOf(PunctText(t)) == Some(t)
  {
    hide SingleCharOp;
  }

  lemma PunctIsKnown(t: Token)
    requires IsPunct(t)
    ensures PunctOf(PunctText(t)) == Some(t)
  {
    hide SingleCharOp, TwoCharOp, ThreeCharOp;
    if |PunctText(t)| == 1 {
      ShortPunctIsKnown(t);
    } else {
      LongPunctIsKnown(t);
    }
  }

  /** No operator holds a blank, and none begins like another kind of token. */
  lemma PunctShape(text: string)
    requires PunctOf(text).Some?
    ensures text != "" && forall c <- text :: c != ' '
    ensures !IsDigit(text[0]) && !IsHead(text[0]) && text[0] != '"' && text[0] != '\'' && text[0] != '#'
    ensures !IsSpace(text[0]) && (text[0] == '/' && |text| > 1 ==> text[1] == '=')
  {
  }

  lemma PunctFirst(text: string, rest: string)
    requires PunctOf(text).Some? && (rest == "" || rest[0] == ' ')
    ensures LexOne(text + rest) == Lexed(PunctOf(text).value, rest)
  {
    hide LexNumber, LexString, LexChar, LexPunct, PunctOf;
    PunctShape(text);
    var s := text + rest;
    NotANumber(s);
    NotQuoted(s);
    assert LexWord(s).NoToken?;
    PunctReads(text, rest);
  }

  lemma PunctReads(text: string, rest: string)
    requires PunctOf(text).Some? && (rest == "" || rest[0] == ' ')
    ensures LexPunct(text + rest) == Lexed(PunctOf(text).value, rest)
  {
    hide ThreeCharOp, TwoCharOp, SingleCharOp;
    var s := text + rest;
    assert s[..|text|] == text && s[|text|..] == rest && (rest != "" ==> s[|text|] == ' ');
    if |s| >= 3 && |text| < 3 {
      NoBlankInside(s[..3], |text|);
    }
    if |s| >= 2 && |text| < 2 {
      NoBlankInside(s[..2], |text|);
    }
  }

  lemma NoBlankInside(text: string, k: nat)
    requires k < |text| <= 3 && text[k] == ' '
    ensures PunctOf(text).None?
  {
  }

  // ---------------------------------------------------------------- sources

  /** Tokens that have a spelling. */
  ghost predicate Spellable(t: Token) {
    match t
    case Int(v) => v <= 0xFFFF_FFFF_FFFF_FFFF
    case Float(text) => IsFloatText(text)
    case Chr(code) => IsCharCode(code)
    case Ident(name) => IsIdentifier(name) && LookupKeyword(name).None?
    case _ => true
  }

  ghost predicate AllSpellable(s: Toks) {
    s.Cons? ==> Spellable(s.hd) && AllSpellable(s.tl)
  }

  ghost function Spell(t: Token): string
    requires Spellable(t)
  {
    match t
    case Int(v) => Decimal(v)
    case Float(text) => text
    case Str(content) => "\"" + Quoted(content) + "\""
    case Chr(code) => "'" + CharBody(code) + "'"
    case Ident(name) => name
    case Kw(k) => KeywordText(k)
    case _ => PunctText(t)
  }

  /** Every token, a blank, and the gap behind it; without gaps to come, the last token ends the text. */
  ghost function Source(s: Toks, gaps: seq<seq<Piece>>): string
    requires AllSpellable(s)
    decreases s
  {
    if s.End? then ""
    else if gaps == [] && s.tl.End? then Spell(s.hd)
    else if gaps == [] then Spell(s.hd) + (" " + Source(s.tl, []))
    else Spell(s.hd) + (" " + (GapText(gaps[0]) + Source(s.tl, gaps[1..])))
  }

  lemma SpelledFirst(t: Token, rest: string)
    requires Spellable(t) && (rest == "" || rest[0] == ' ')
    ensures LexOne(Spell(t) + rest) == Lexed(t, rest)
  {
    hide LexOne, Quoted, CharBody, KeywordText, PunctText, Decimal, LookupKeyword;
    if t.Int? {
      IntegerFirst(t.value, rest);
    } else if t.Float? {
      var p: FloatParts :| IsFloat(p) && FloatText(p) == t.text;
      FloatFirst(p, "", rest);
      assert "" + rest == rest;
    } else if t.Str? {
      StringFirst(t.content, rest);
    } else if t.Chr? {
      CharFirst(t.code, rest);
    } else if t.Ident? {
      WordFirst(t.name, rest);
    } else if t.Kw? {
      KeywordsAreKnown(t.keyword);
      KeywordsAreWords(t.keyword);
      WordFirst(KeywordText(t.keyword), rest);
    } else {
      PunctIsKnown(t);
      PunctFirst(PunctText(t), rest);
    }
  }

  /** How a spelled token begins. */
  lemma SpelledHead(t: Token, rest: string)
    requires Spellable(t) && (rest == "" || rest[0] == ' ')
    ensures var s := Spell(t) + rest;
      s != "" && !IsSpace(s[0]) && s[0] != '#' && (s[0] == '/' ==> |s| < 2 || (s[1] != '/' && s[1] != '*'))
  {
    hide Quoted, CharBody, KeywordText, PunctText, Decimal, LookupKeyword;
    var s := Spell(t) + rest;
    if t.Int? {
      assert s[0] == Decimal(t.value)[0] && s[0] in Decimal(t.value);
    } else if t.Float? {
      var p: FloatParts :| IsFloat(p) && FloatText(p) == t.text;
      assert s[0] == p.whole[0] && p.whole[0] in p.whole;
    } else if t.Kw? {
      KeywordsAreWords(t.keyword);
      assert s[0] == KeywordText(t.keyword)[0];
    } else if t.Ident? || t.Str? || t.Chr? {
      assert s[0] == Spell(t)[0];
    } else {
      PunctIsKnown(t);
      PunctShape(PunctText(t));
      assert s[0] == PunctText(t)[0];
      assert |s| >= 2 ==> s[1] == if |PunctText(t)| > 1 then PunctText(t)[1] else ' ';
    }
  }

  /** The lexer reads every spelled source back, whatever stands in the gaps. */
  lemma {:induction false} SourceLexes(s: Toks, gaps: seq<seq<Piece>>)
    requires AllSpellable(s) && forall gap <- gaps :: IsGap(gap)
    ensures Tokenize(Source(s, gaps)) == Some(s)
    decreases s
  {
    hide Tokenize, Spell, LexOne, IsGap;
    if s.End? {
      NothingLexes();
    } else if gaps == [] && s.tl.End? {
      NothingLexes();
      assert Spell(s.hd) + "" == Spell(s.hd);
      SpelledFirst(s.hd, "");
      SpelledHead(s.hd, "");
      TokenBefore(Spell(s.hd), s.hd, "", End);
    } else {
      NoGap();
      var more := if gaps == [] then [] else gaps[1..];
      var gap := if gaps == [] then [] else gaps[0];
      var tail := GapText(gap) + Source(s.tl, more);
      assert gaps == [] ==> tail == Source(s.tl, []);
      assert gaps != [] ==> gaps == [gap] + more;
      SourceLexes(s.tl, more);
      GapBefore(gap, Source(s.tl, more));
      assert " " + tail == [' '] + tail;
      SpaceBefore(' ', tail);
      SpelledFirst(s.hd, " " + tail);
      SpelledHead(s.hd, " " + tail);
      TokenBefore(Spell(s.hd) + (" " + tail), s.hd, " " + tail, s.tl);
    }
  }

  lemma NoGap()
    ensures IsGap([])
  {
  }

  lemma NothingLexes()
    ensures Tokenize("") == Some(End)
  {
  }
}
