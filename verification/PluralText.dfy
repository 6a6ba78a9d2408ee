/**
 From texts to trees: spelled-out token sequences are read back by the lexer,
 whatever blanks separate them, and a printed expression is parsed back.
 */
module PluralText {
  import opened CStrings
  import opened PluralSyntax
  import opened PluralMachine
  import opened PluralCorrectness
  import opened PluralLexer
  import opened PluralParser

  function OperatorSpelling(op: Operator): (s: string)
    ensures 1 <= |s| <= 2 && !IsBlank(s[0]) && !IsDigit(s[0])
    ensures s[0] == '=' <==> op == Equal
  {
    match op
    case Mult => "*"
    case Divide => "/"
    case Module => "%"
    case Plus => "+"
    case Minus => "-"
    case LessThan => "<"
    case GreaterThan => ">"
    case LessOrEqual => "<="
    case GreaterOrEqual => ">="
    case Equal => "=="
    case NotEqual => "!="
    case Land => "&&"
    case Lor => "||"
  }

  function Spelling(t: Token): (s: string)
    ensures |s| >= 1 && !IsBlank(s[0])
    ensures IsDigit(s[0]) <==> t.Number?
    ensures s[0] == '=' <==> t == Bin(Equal)
  {
    match t
    case Eof => ";"
    case Bad => "$"
    case Quest => "?"
    case Bin(op) => OperatorSpelling(op)
    case Bang => "!"
    case Number(n) => Decimal(n)
    case Colon => ":"
    case VarN => "n"
    case LParen => "("
    case RParen => ")"
  }

  /** What the lexer makes of a literal: its value in an `unsigned long int`. */
  function Wrap(t: Token): Token {
    match t
    case Number(n) => Number(n % ULONG_MODULUS)
    case _ => t
  }

  predicate AllBlank(s: string) { forall c :: c in s ==> c == ' ' || c == '\t' }

  /** The tokens spelled out, each after its blanks, with a tail behind. */
  function Text(tokens: seq<Token>, blanks: seq<string>, tail: string): string
    requires |blanks| == |tokens|
  {
    if tokens == [] then tail
    else blanks[0] + (Spelling(tokens[0]) + Text(tokens[1..], blanks[1..], tail))
  }

  /** The token's spelling is not extended by text that starts as s does. */
  predicate Separated(t: Token, s: string) {
    && (t.Number? ==> s == [] || !IsDigit(s[0]))
    && (t == Bang || t == Bin(LessThan) || t == Bin(GreaterThan) ==> !StartsWith(s, '='))
  }

  /** b may be spelled immediately after a. */
  predicate Compatible(a: Token, b: Token) {
    && !(a.Number? && b.Number?)
    && !((a == Bang || a == Bin(LessThan) || a == Bin(GreaterThan)) && b == Bin(Equal))
  }

  predicate Spaced(tokens: seq<Token>) {
    forall i :: 0 < i < |tokens| ==> Compatible(tokens[i - 1], tokens[i])
  }

  lemma {:induction false} BlanksAreSkipped(b: string, s: string)
    requires AllBlank(b)
    ensures DropBlanks(b + s) == DropBlanks(s)
  {
    if b == [] {
      assert b + s == s;
    } else {
      assert b[0] in b && forall c :: c in b[1..] ==> c in b;
      assert (b + s)[1..] == b[1..] + s;
      BlanksAreSkipped(b[1..], s);
    }
  }

  lemma {:induction false} DigitsAccumulate(ds: string, n: nat, rest: string)
    requires forall c :: c in ds ==> IsDigit(c)
    requires n < ULONG_MODULUS && (rest == [] || !IsDigit(rest[0]))
    ensures LexNumber(n, ds + rest) == (Accumulated(n, ds), rest)
  {
    if ds == [] {
      assert ds + rest == rest;
    } else {
      assert (ds + rest)[1..] == ds[1..] + rest;
      DigitsAccumulate(ds[1..], (n * 10 + DigitValue(ds[0])) % ULONG_MODULUS, rest);
    }
  }

  function Accumulated(n: nat, ds: string): (r: nat)
    requires forall c :: c in ds ==> IsDigit(c)
    decreases |ds|
  {
    if ds == [] then n else Accumulated((n * 10 + DigitValue(ds[0])) % ULONG_MODULUS, ds[1..])
  }

  lemma {:induction false} AccumulatedLast(n: nat, ds: string, d: char)
    requires (forall c :: c in ds ==> IsDigit(c)) && IsDigit(d)
    ensures forall c :: c in ds + [d] ==> IsDigit(c)
    ensures Accumulated(n, ds + [d]) == (Accumulated(n, ds) * 10 + DigitValue(d)) % ULONG_MODULUS
    decreases |ds|
  {
    if ds == [] {
      assert ds + [d] == [d];
      assert [d][1..] == [];
      assert Accumulated(n, [d]) == Accumulated((n * 10 + DigitValue(d)) % ULONG_MODULUS, []);
    } else {
      assert (ds + [d])[1..] == ds[1..] + [d];
      AccumulatedLast((n * 10 + DigitValue(ds[0])) % ULONG_MODULUS, ds[1..], d);
    }
  }

  lemma WrapStep(q: nat, d: nat)
    ensures ((q % ULONG_MODULUS) * 10 + d) % ULONG_MODULUS == (q * 10 + d) % ULONG_MODULUS
  {
    var k := q / ULONG_MODULUS;
    assert q * 10 + d == ((q % ULONG_MODULUS) * 10 + d) + ULONG_MODULUS * (10 * k);
  }

  /** The decimal digits of n are read as n modulo the range of `unsigned long int`. */
  lemma {:induction false} DecimalValue(n: nat)
    ensures Accumulated(0, Decimal(n)) == n % ULONG_MODULUS
  {
    if n < 10 {
      AccumulatedLast(0, [], DigitChar(n));
      assert Decimal(n) == [] + [DigitChar(n)];
    } else {
      DecimalValue(n / 10);
      AccumulatedLast(0, Decimal(n / 10), DigitChar(n % 10));
      WrapStep(n / 10, n % 10);
    }
  }

  lemma LeadingDigit(s: string)
    requires s != [] && forall c :: c in s ==> IsDigit(c)
    ensures Accumulated(0, s) == Accumulated(DigitValue(s[0]), s[1..])
  {
    assert (0 * 10 + DigitValue(s[0])) % ULONG_MODULUS == DigitValue(s[0]);
  }

  lemma LiteralIsRead(n: nat, rest: string)
    requires rest == [] || !IsDigit(rest[0])
    ensures Lex(Decimal(n) + rest) == (Number(n % ULONG_MODULUS), rest)
  {
    hide Decimal, Accumulated;
    var s := Decimal(n);
    DecimalValue(n);
    LeadingDigit(s);
    DigitsAreRead(s, rest);
  }

  lemma DigitsAreRead(s: string, rest: string)
    requires s != [] && (forall c :: c in s ==> IsDigit(c)) && (rest == [] || !IsDigit(rest[0]))
    ensures Lex(s + rest) == (Number(Accumulated(DigitValue(s[0]), s[1..])), rest)
  {
    DigitsAccumulate(s[1..], DigitValue(s[0]), rest);
    hide Accumulated, LexNumber;
    assert s[0] in s && (s + rest)[0] == s[0];
    assert (s + rest)[1..] == s[1..] + rest;
    assert DropBlanks(s + rest) == s + rest;
  }

  lemma ShortOperatorIsRead(op: Operator, rest: string)
    requires |OperatorSpelling(op)| == 1 && Separated(Bin(op), rest)
    ensures Lex(OperatorSpelling(op) + rest) == (Bin(op), rest)
  {
    var s := OperatorSpelling(op);
    assert DropBlanks(s + rest) == s + rest && (s + rest)[1..] == rest;
    hide DropBlanks, LexNumber;
  }

  lemma LongOperatorIsRead(op: Operator, rest: string)
    requires |OperatorSpelling(op)| == 2
    ensures Lex(OperatorSpelling(op) + rest) == (Bin(op), rest)
  {
    var s := OperatorSpelling(op);
    assert DropBlanks(s + rest) == s + rest && (s + rest)[1..] == s[1..] + rest && (s[1..] + rest)[1..] == rest;
    hide DropBlanks, LexNumber;
  }

  lemma OperatorIsRead(op: Operator, rest: string)
    requires Separated(Bin(op), rest)
    ensures Lex(OperatorSpelling(op) + rest) == (Bin(op), rest)
  {
    hide OperatorSpelling, Lex;
    if |OperatorSpelling(op)| == 1 {
      ShortOperatorIsRead(op, rest);
    } else {
      LongOperatorIsRead(op, rest);
    }
  }

  /** The lexer reads back a spelled token, blanks before it included. */
  lemma TokenIsRead(b: string, t: Token, rest: string)
    requires AllBlank(b) && t != Eof && Separated(t, rest)
    ensures Lex(b + (Spelling(t) + rest)) == (Wrap(t), rest)
  {
    BlanksAreSkipped(b, Spelling(t) + rest);
    if t.Number? {
      LiteralIsRead(t.num, rest);
    } else if t.Bin? {
      OperatorIsRead(t.op, rest);
    } else {
      assert DropBlanks(Spelling(t) + rest) == Spelling(t) + rest;
      assert (Spelling(t) + rest)[1..] == rest;
    }
  }

  function WrapAll(tokens: seq<Token>): seq<Token> {
    if tokens == [] then [] else [Wrap(tokens[0])] + WrapAll(tokens[1..])
  }

  lemma TextFollows(t: Token, tokens: seq<Token>, blanks: seq<string>, tail: string)
    requires |blanks| == |tokens| && (forall b :: b in blanks ==> AllBlank(b))
    requires tokens == [] || Compatible(t, tokens[0])
    requires Ends(tail)
    ensures Separated(t, Text(tokens, blanks, tail))
  {
    if tokens == [] {
      EofEnds(tail);
      assert tail == [] || (!IsDigit(tail[0]) && tail[0] != '=');
    } else {
      var s := Spelling(tokens[0]) + Text(tokens[1..], blanks[1..], tail);
      assert blanks[0] in blanks;
      if blanks[0] == [] {
        assert [] + s == s;
      } else {
        assert (blanks[0] + s)[0] == blanks[0][0] && blanks[0][0] in blanks[0];
      }
    }
  }

  /** Lexing a text gives back the tokens it spells, whatever the blanks between them. */
  lemma {:induction false} TextIsRead(tokens: seq<Token>, blanks: seq<string>, tail: string)
    requires |blanks| == |tokens| && (forall b :: b in blanks ==> AllBlank(b))
    requires Eof !in tokens && Spaced(tokens) && Ends(tail)
    ensures LexAll(Text(tokens, blanks, tail)) == WrapAll(tokens)
    decreases |tokens|
  {
    if tokens != [] {
      var t, rest := tokens[0], Text(tokens[1..], blanks[1..], tail);
      assert blanks[0] in blanks;
      forall i | 0 < i < |tokens[1..]| ensures Compatible(tokens[1..][i - 1], tokens[1..][i]) {
        assert Compatible(tokens[i + 1 - 1], tokens[i + 1]);
      }
      TextFollows(t, tokens[1..], blanks[1..], tail);
      TokenIsRead(blanks[0], t, rest);
      TextIsRead(tokens[1..], blanks[1..], tail);
    } else {
      EofEnds(tail);
    }
  }

  predicate Opens(t: Token) { t.Number? || t == VarN || t == LParen || t == Bang }

  predicate Closes(t: Token) { t.Number? || t == VarN || t == RParen }

  lemma SpacedJoin(a: seq<Token>, b: seq<Token>)
    requires Spaced(a) && Spaced(b) && (a == [] || b == [] || Compatible(a[|a| - 1], b[0]))
    ensures Spaced(a + b)
  {
  }

  /** A spelled operand: it starts and ends like one, and needs no blank inside. */
  predicate OperandTokens(s: seq<Token>) {
    |s| >= 1 && Opens(s[0]) && Closes(s[|s| - 1]) && Spaced(s)
  }

  lemma BracketIsSpaced(s: seq<Token>)
    requires OperandTokens(s)
    ensures OperandTokens([LParen] + s + [RParen])
    ensures OperandTokens([Bang] + s)
  {
    SpacedJoin([Bang], s);
    SpacedJoin([LParen], s);
    SpacedJoin([LParen] + s, [RParen]);
  }

  /** What a tree spells can be written without any blank. */
  lemma {:induction false} YieldIsSpaced(t: Tree)
    ensures OperandTokens(Yield(t))
  {
    match t
    case TVar =>
    case TNum(_) =>
    case TParen(i) =>
      hide OperandTokens;
      YieldIsSpaced(i);
      BracketIsSpaced(Yield(i));
    case TNot(a) =>
      hide OperandTokens;
      YieldIsSpaced(a);
      BracketIsSpaced(Yield(a));
    case TBin(op, l, r) =>
      hide OperandTokens;
      YieldIsSpaced(l);
      YieldIsSpaced(r);
      InfixIsSpaced(Yield(l), Bin(op), Yield(r));
    case TCond(q, a, b) =>
      hide OperandTokens;
      YieldIsSpaced(q);
      YieldIsSpaced(a);
      YieldIsSpaced(b);
      InfixIsSpaced(Yield(q), Quest, Yield(a));
      InfixIsSpaced(Yield(q) + [Quest] + Yield(a), Colon, Yield(b));
  }

  lemma InfixIsSpaced(a: seq<Token>, t: Token, b: seq<Token>)
    requires t.Bin? || t == Quest || t == Colon
    requires OperandTokens(a) && OperandTokens(b)
    ensures OperandTokens(a + [t] + b)
  {
    SpacedJoin(a, [t]);
    SpacedJoin(a + [t], b);
  }

  /** Literals reduced to the range of `unsigned long int`. */
  function WrapTree(t: Tree): Tree {
    match t
    case TVar => t
    case TNum(n) => TNum(n % ULONG_MODULUS)
    case TParen(i) => TParen(WrapTree(i))
    case TNot(a) => TNot(WrapTree(a))
    case TBin(op, l, r) => TBin(op, WrapTree(l), WrapTree(r))
    case TCond(q, a, b) => TCond(WrapTree(q), WrapTree(a), WrapTree(b))
  }

  function WrapLiterals(e: Expression): Expression {
    match e
    case Var => e
    case Num(n) => Num(n % ULONG_MODULUS)
    case Lnot(a) => Lnot(WrapLiterals(a))
    case Binary(op, l, r) => Binary(op, WrapLiterals(l), WrapLiterals(r))
    case Qmop(q, a, b) => Qmop(WrapLiterals(q), WrapLiterals(a), WrapLiterals(b))
  }

  lemma {:induction false} WrapAllJoin(a: seq<Token>, b: seq<Token>)
    ensures WrapAll(a + b) == WrapAll(a) + WrapAll(b)
    decreases |a|
  {
    if a == [] {
      assert a + b == b;
    } else {
      assert (a + b)[1..] == a[1..] + b;
      WrapAllJoin(a[1..], b);
    }
  }

  lemma {:induction false} WrappedTree(t: Tree)
    ensures Level(WrapTree(t)) == Level(t) && Need(WrapTree(t)) == Need(t)
    ensures WellFormed(WrapTree(t)) == WellFormed(t)
    ensures Erase(WrapTree(t)) == WrapLiterals(Erase(t))
  {
    match t
    case TVar =>
    case TNum(_) =>
    case TParen(i) => WrappedTree(i);
    case TNot(a) => WrappedTree(a);
    case TBin(op, l, r) => WrappedTree(l); WrappedTree(r);
    case TCond(q, a, b) => WrappedTree(q); WrappedTree(a); WrappedTree(b);
  }

  lemma WrapOne(t: Token)
    ensures WrapAll([t]) == [Wrap(t)]
  {
    assert [t][1..] == [];
  }

  lemma WrapInfix(a: seq<Token>, t: Token, b: seq<Token>)
    ensures WrapAll(a + [t] + b) == WrapAll(a) + [Wrap(t)] + WrapAll(b)
  {
    WrapAllJoin(a, [t]);
    WrapAllJoin(a + [t], b);
    WrapOne(t);
  }

  lemma {:induction false} WrappedYield(t: Tree)
    ensures Yield(WrapTree(t)) == WrapAll(Yield(t))
  {
    match t
    case TVar => WrapOne(VarN);
    case TNum(n) => WrapOne(Number(n));
    case TParen(i) =>
      WrappedYield(i);
      WrapInfix([LParen] + Yield(i), RParen, []);
      WrapAllJoin([LParen], Yield(i));
      WrapOne(LParen);
      assert Yield(t) == [LParen] + Yield(i) + [RParen] + [];
    case TNot(a) =>
      WrappedYield(a);
      WrapAllJoin([Bang], Yield(a));
      WrapOne(Bang);
    case TBin(op, l, r) =>
      WrappedYield(l);
      WrappedYield(r);
      WrapInfix(Yield(l), Bin(op), Yield(r));
    case TCond(q, a, b) =>
      WrappedYield(q);
      WrappedYield(a);
      WrappedYield(b);
      WrapInfix(Yield(q), Quest, Yield(a));
      WrapInfix(Yield(q) + [Quest] + Yield(a), Colon, Yield(b));
  }

  /** A spelling of a well-formed tree as a text: any blanks between the tokens, any end of expression behind. */
  ghost predicate Spells(text: string, t: Tree) {
    exists blanks: seq<string>, tail ::
      |blanks| == |Yield(t)| && (forall b :: b in blanks ==> AllBlank(b)) && Ends(tail)
      && text == Text(Yield(t), blanks, tail)
  }

  /** Every spelling of a well-formed tree parses to that tree, or overflows the stack when the tree is too deep. */
  lemma SpellingIsParsed(t: Tree, text: string)
    requires WellFormed(t) && Spells(text, t)
    ensures Parse(YYMAXDEPTH, Start(LexAll(text)))
      == if 1 + Need(t) >= YYMAXDEPTH then Overflow else Accepted(WrapTree(t))
  {
    hide Parse;
    var blanks: seq<string>, tail :|
      |blanks| == |Yield(t)| && (forall b :: b in blanks ==> AllBlank(b)) && Ends(tail)
      && text == Text(Yield(t), blanks, tail);
    YieldIsProper(t);
    YieldIsSpaced(t);
    TextIsRead(Yield(t), blanks, tail);
    WrappedYield(t);
    WrappedTree(t);
    TreeIsAccepted(YYMAXDEPTH, WrapTree(t));
  }

  /**
   What `yyparse` returns, in terms of the grammar: 0 only with the expression of a tree that spells the
   tokens of the text; and where such a tree exists, 0 if it fits the stack and 2 if not.
   */
  lemma ResultIsExact(text: string, result: nat, res: Expression, t: Tree)
    requires Returns(Parse(YYMAXDEPTH, Start(LexAll(text))), result, res)
    ensures result <= 2
    ensures result == 0 ==>
      exists u :: WellFormed(u) && Yield(u) == LexAll(text) && 1 + Need(u) < YYMAXDEPTH && res == Erase(u)
    ensures WellFormed(t) && Yield(t) == LexAll(text) ==>
      if 1 + Need(t) < YYMAXDEPTH then result == 0 && res == Erase(t) else result == 2
  {
    hide Parse;
    var o := Parse(YYMAXDEPTH, Start(LexAll(text)));
    if o.Accepted? {
      ParserDecidesGrammar(YYMAXDEPTH, LexAll(text), o.tree);
    }
    if WellFormed(t) && Yield(t) == LexAll(text) {
      TreeIsAccepted(YYMAXDEPTH, t);
    }
  }

  /** Printing and parsing: `yyparse` on any spelling of the printed expression returns the expression. */
  lemma PrintedExpressionIsParsed(e: Expression, text: string, result: nat, res: Expression)
    requires Spells(text, Print(e))
    requires Returns(Parse(YYMAXDEPTH, Start(LexAll(text))), result, res)
    ensures if 1 + Need(Print(e)) >= YYMAXDEPTH then result == 2 else result == 0 && res == WrapLiterals(e)
  {
    hide Parse;
    PrintIsFaithful(e);
    SpellingIsParsed(Print(e), text);
    WrappedTree(Print(e));
  }

  predicate LiteralsFit(e: Expression) {
    match e
    case Var => true
    case Num(n) => n < ULONG_MODULUS
    case Lnot(a) => LiteralsFit(a)
    case Binary(_, l, r) => LiteralsFit(l) && LiteralsFit(r)
    case Qmop(q, a, b) => LiteralsFit(q) && LiteralsFit(a) && LiteralsFit(b)
  }

  /** The parser returns the very expression printed if and only if its literals fit the number type. */
  lemma {:induction false} WrappingIsIdentity(e: Expression)
    ensures WrapLiterals(e) == e <==> LiteralsFit(e)
  {
    match e
    case Var =>
    case Num(_) =>
    case Lnot(a) => WrappingIsIdentity(a);
    case Binary(_, l, r) => WrappingIsIdentity(l); WrappingIsIdentity(r);
    case Qmop(q, a, b) => WrappingIsIdentity(q); WrappingIsIdentity(a); WrappingIsIdentity(b);
  }
}
