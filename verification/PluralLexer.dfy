/**
 The hand-written lexer of the plural parser, and the texts from which it
 recovers a given token sequence.
 */
module PluralLexer {
  import opened CStrings
  import opened PluralSyntax

  /** One more than the largest `unsigned long int`; digit accumulation wraps modulo this. */
  const ULONG_MODULUS: nat := 0x1_0000_0000_0000_0000

  predicate IsBlank(c: char) { c == ' ' || c == '\t' }

  predicate StartsWith(s: string, c: char) { s != [] && s[0] == c }

  function DropBlanks(s: string): (r: string)
    ensures |r| <= |s|
  {
    if s != [] && IsBlank(s[0]) then DropBlanks(s[1..]) else s
  }

  /** The digits at the front of s appended to the number n. */
  function LexNumber(n: nat, s: string): (r: (nat, string))
    ensures |r.1| <= |s|
    decreases |s|
  {
    if s != [] && IsDigit(s[0]) then LexNumber((n * 10 + DigitValue(s[0])) % ULONG_MODULUS, s[1..])
    else (n, s)
  }

  /** The token for a two-character operator, or the shorter reading. */
  function LexPair(rest: string, second: char, long: Token, short: Token): (Token, string) {
    if StartsWith(rest, second) then (long, rest[1..]) else (short, rest)
  }

  /** `yylex` on the remaining text: the next token and what is left. */
  function Lex(text: string): (r: (Token, string))
    ensures |r.1| <= |text|
    ensures r.0 != Eof ==> |r.1| < |text|
  {
    var s := DropBlanks(text);
    if s == [] then (Eof, s)
    else
      var c, rest := s[0], s[1..];
      if IsDigit(c) then
        var (n, r) := LexNumber(DigitValue(c), rest);
        (Number(n), r)
      else match c
        case '=' => LexPair(rest, '=', Bin(Equal), Bad)
        case '!' => LexPair(rest, '=', Bin(NotEqual), Bang)
        case '&' => LexPair(rest, '&', Bin(Land), Bad)
        case '|' => LexPair(rest, '|', Bin(Lor), Bad)
        case '<' => LexPair(rest, '=', Bin(LessOrEqual), Bin(LessThan))
        case '>' => LexPair(rest, '=', Bin(GreaterOrEqual), Bin(GreaterThan))
        case '*' => (Bin(Mult), rest)
        case '/' => (Bin(Divide), rest)
        case '%' => (Bin(Module), rest)
        case '+' => (Bin(Plus), rest)
        case '-' => (Bin(Minus), rest)
        case 'n' => (VarN, rest)
        case '?' => (Quest, rest)
        case ':' => (Colon, rest)
        case '(' => (LParen, rest)
        case ')' => (RParen, rest)
        case ';' => (Eof, s)
        case '\n' => (Eof, s)
        case '\0' => (Eof, s)
        case _ => (Bad, rest)
  }

  /** Behind spaces and tabs the text is over, or goes on with a semicolon, a line end or a NUL. */
  ghost predicate Ends(text: string) {
    exists k: nat :: k <= |text| && SpacesTo(text, k) && EndsAt(text, k)
  }

  predicate SpacesTo(text: string, k: nat)
    requires k <= |text|
  {
    forall i :: 0 <= i < k ==> text[i] == ' ' || text[i] == '\t'
  }

  predicate EndsAt(text: string, k: nat)
    requires k <= |text|
  {
    k == |text| || text[k] == ';' || text[k] == '\n' || text[k] == '\0'
  }

  /** The end token is read exactly where the expression ends, and nothing behind it is consumed. */
  lemma {:induction false} EofEnds(text: string)
    ensures Lex(text).0 == Eof <==> Ends(text)
    ensures Lex(text).0 == Eof ==> Lex(text).1 == DropBlanks(text)
    decreases |text|
  {
    if text != "" && (text[0] == ' ' || text[0] == '\t') {
      EofEnds(text[1..]);
      if k: nat :| k <= |text[1..]| && SpacesTo(text[1..], k) && EndsAt(text[1..], k) {
        assert SpacesTo(text, k + 1) && EndsAt(text, k + 1);
      }
      if k: nat :| k <= |text| && SpacesTo(text, k) && EndsAt(text, k) {
        assert SpacesTo(text[1..], k - 1) && EndsAt(text[1..], k - 1);
      }
    } else {
      assert SpacesTo(text, 0);
      hide LexNumber, LexPair;
      OnlyAtStart(text);
    }
  }

  lemma OnlyAtStart(text: string)
    requires text == "" || (text[0] != ' ' && text[0] != '\t')
    ensures Ends(text) <==> EndsAt(text, 0)
  {
    assert SpacesTo(text, 0);
  }

  /** The characters that begin a token, alone or as the first of a pair. */
  const SINGLE := "!<>*/%+-n?:()"

  /** The token is bad exactly for a character of no token, and for a half of `==`, `&&` or `||`. */
  lemma BadIsUnknown(text: string)
    requires text != "" && text[0] != ' ' && text[0] != '\t'
    ensures Lex(text).0 == Bad <==>
      && !IsDigit(text[0]) && text[0] !in SINGLE && !EndsAt(text, 0)
      && !(|text| > 1 && text[1] == text[0] && text[0] in "=&|")
  {
  }

  /** All tokens up to the end of the expression. */
  function LexAll(text: string): (tokens: seq<Token>)
    ensures Eof !in tokens
    decreases |text|
  {
    var (t, rest) := Lex(text);
    if t == Eof then [] else [t] + LexAll(rest)
  }

  /** `yylex`: advances the pointer cp over the next token. */
  method YyLex(text: string, cp: nat) returns (tok: Token, next: nat)
    requires cp <= |text|
    ensures cp <= next <= |text|
    ensures (tok, text[next..]) == Lex(text[cp..])
  {
    var exp := cp;
    while exp < |text| && IsBlank(text[exp])
      invariant cp <= exp <= |text|
      invariant DropBlanks(text[exp..]) == DropBlanks(text[cp..])
    {
      exp := exp + 1;
    }
    if CharAt(text, exp) == '\0' {
      return Eof, exp;
    }
    var c := text[exp];
    ghost var s := text[exp..];
    exp := exp + 1;
    assert s[1..] == text[exp..];
    if IsDigit(c) {
      var n: nat;
      n, next := TakeDigits(text, exp, DigitValue(c));
      return Number(n), next;
    }
    match c {
      case '=' => tok, next := TakePair(text, exp, '=', Bin(Equal), Bad);
      case '!' => tok, next := TakePair(text, exp, '=', Bin(NotEqual), Bang);
      case '&' => tok, next := TakePair(text, exp, '&', Bin(Land), Bad);
      case '|' => tok, next := TakePair(text, exp, '|', Bin(Lor), Bad);
      case '<' => tok, next := TakePair(text, exp, '=', Bin(LessOrEqual), Bin(LessThan));
      case '>' => tok, next := TakePair(text, exp, '=', Bin(GreaterOrEqual), Bin(GreaterThan));
      case '*' => tok, next := Bin(Mult), exp;
      case '/' => tok, next := Bin(Divide), exp;
      case '%' => tok, next := Bin(Module), exp;
      case '+' => tok, next := Bin(Plus), exp;
      case '-' => tok, next := Bin(Minus), exp;
      case 'n' => tok, next := VarN, exp;
      case '?' => tok, next := Quest, exp;
      case ':' => tok, next := Colon, exp;
      case '(' => tok, next := LParen, exp;
      case ')' => tok, next := RParen, exp;
      case ';' => tok, next := Eof, exp - 1;
      case '\n' => tok, next := Eof, exp - 1;
      case _ => tok, next := Bad, exp;
    }
  }

  method TakePair(text: string, exp: nat, second: char, long: Token, short: Token) returns (tok: Token, next: nat)
    requires exp <= |text| && second != '\0'
    ensures exp <= next <= |text|
    ensures (tok, text[next..]) == LexPair(text[exp..], second, long, short)
  {
    if CharAt(text, exp) == second {
      assert text[exp..][1..] == text[exp + 1..];
      return long, exp + 1;
    }
    return short, exp;
  }

  /** The digit loop: n accumulates in an `unsigned long int`. */
  method TakeDigits(text: string, cp: nat, first: nat) returns (n: nat, next: nat)
    requires cp <= |text|
    ensures cp <= next <= |text|
    ensures (n, text[next..]) == LexNumber(first, text[cp..])
  {
    n, next := first, cp;
    while next < |text| && IsDigit(text[next])
      invariant cp <= next <= |text|
      invariant LexNumber(n, text[next..]) == LexNumber(first, text[cp..])
    {
      n := (n * 10 + DigitValue(text[next])) % ULONG_MODULUS;
      next := next + 1;
    }
  }
}
