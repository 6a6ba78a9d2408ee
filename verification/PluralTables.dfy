/**
 The LALR tables of the plural-expression parser, and the shift/reduce
 decisions they encode.
 */
module PluralTables {
  import opened PluralSyntax

  const YYFINAL := 27
  const YYFLAG := -32768
  /** The symbol number of the error token. */
  const YYTERROR := 1
  const YYLAST := 53

  /** YYTRANSLATE: the table column of a token. */
  function Symbol(t: Token): (r: nat)
    ensures r <= 15
  {
    match t
    case Eof => 0
    case Bad => 1
    case Quest => 3
    case Bin(op) => OperatorLevel(op) + 2
    case Bang => 10
    case Number(_) => 11
    case Colon => 12
    case VarN => 13
    case LParen => 14
    case RParen => 15
  }

  /** yyr2: the number of symbols on the right-hand side of a rule. */
  function RuleLength(rule: int): (r: nat)
    ensures 1 <= r <= 5
  {
    match rule
    case 2 => 5
    case 3 => 3 case 4 => 3 case 5 => 3 case 6 => 3 case 7 => 3 case 8 => 3
    case 9 => 2
    case 12 => 3
    case _ => 1
  }

  function YyDefact(s: int): int {
    match s
    case 0 => 0 case 1 => 0 case 2 => 11 case 3 => 10 case 4 => 0
    case 5 => 1 case 6 => 9 case 7 => 0 case 8 => 0 case 9 => 0
    case 10 => 0 case 11 => 0 case 12 => 0 case 13 => 0 case 14 => 0
    case 15 => 12 case 16 => 0 case 17 => 3 case 18 => 4 case 19 => 5
    case 20 => 6 case 21 => 7 case 22 => 8 case 23 => 0 case 24 => 2
    case _ => 0
  }

  function YyPact(s: int): int {
    match s
    case 0 => -9 case 1 => -9 case 2 => -32768 case 3 => -32768 case 4 => -9
    case 5 => 34 case 6 => -32768 case 7 => 11 case 8 => -9 case 9 => -9
    case 10 => -9 case 11 => -9 case 12 => -9 case 13 => -9 case 14 => -9
    case 15 => -32768 case 16 => 24 case 17 => 39 case 18 => 43 case 19 => 16
    case 20 => 26 case 21 => -3 case 22 => -32768 case 23 => -9 case 24 => 34
    case 25 => 21 case 26 => 53 case _ => -32768
  }

  function YyTable(i: int): int {
    match i
    case 0 => 6 case 1 => 1 case 2 => 2 case 3 => 7 case 4 => 3
    case 5 => 4 case 6 => 14 case 7 => 16 case 8 => 17 case 9 => 18
    case 10 => 19 case 11 => 20 case 12 => 21 case 13 => 22 case 14 => 8
    case 15 => 9 case 16 => 10 case 17 => 11 case 18 => 12 case 19 => 13
    case 20 => 14 case 21 => 26 case 22 => 24 case 23 => 12 case 24 => 13
    case 25 => 14 case 26 => 15 case 27 => 8 case 28 => 9 case 29 => 10
    case 30 => 11 case 31 => 12 case 32 => 13 case 33 => 14 case 34 => 13
    case 35 => 14 case 36 => 23 case 37 => 8 case 38 => 9 case 39 => 10
    case 40 => 11 case 41 => 12 case 42 => 13 case 43 => 14 case 44 => 10
    case 45 => 11 case 46 => 12 case 47 => 13 case 48 => 14 case 49 => 11
    case 50 => 12 case 51 => 13 case 52 => 14 case _ => 27
  }

  function YyCheck(i: int): int {
    match i
    case 0 => 1 case 1 => 10 case 2 => 11 case 3 => 4 case 4 => 13
    case 5 => 14 case 6 => 9 case 7 => 8 case 8 => 9 case 9 => 10
    case 10 => 11 case 11 => 12 case 12 => 13 case 13 => 14 case 14 => 3
    case 15 => 4 case 16 => 5 case 17 => 6 case 18 => 7 case 19 => 8
    case 20 => 9 case 21 => 0 case 22 => 23 case 23 => 7 case 24 => 8
    case 25 => 9 case 26 => 15 case 27 => 3 case 28 => 4 case 29 => 5
    case 30 => 6 case 31 => 7 case 32 => 8 case 33 => 9 case 34 => 8
    case 35 => 9 case 36 => 12 case 37 => 3 case 38 => 4 case 39 => 5
    case 40 => 6 case 41 => 7 case 42 => 8 case 43 => 9 case 44 => 5
    case 45 => 6 case 46 => 7 case 47 => 8 case 48 => 9 case 49 => 6
    case 50 => 7 case 51 => 8 case 52 => 9 case _ => 0
  }

  /** yypgoto and yydefgoto for the nonterminal `exp`. */
  function GotoExp(s: int): int {
    var i := -1 + s;
    if 0 <= i <= YYLAST && YyCheck(i) == s then YyTable(i) else 5
  }

  datatype Action = Shift(state: int) | Reduce(rule: int) | Accept | Error

  function DefaultAction(s: int): Action {
    if YyDefact(s) == 0 then Error else Reduce(YyDefact(s))
  }

  /** What the tables say in state s on column sym. */
  function TableAction(s: int, sym: nat): Action {
    var n := YyPact(s);
    if n == YYFLAG then DefaultAction(s)
    else
      var k := n + sym;
      if k < 0 || k > YYLAST || YyCheck(k) != sym then DefaultAction(s)
      else if YyTable(k) == YYFINAL then Accept
      else Shift(YyTable(k))
  }

  /** States in which an operand must come next. */
  predicate OperandState(s: int) {
    s == 0 || s == 1 || s == 4 || 8 <= s <= 14 || s == 23
  }

  /** States entered on a completed operand. */
  predicate ExpState(s: int) {
    s == 5 || s == 6 || s == 7 || 16 <= s <= 22 || s == 24
  }

  /** The weakest operator that may extend the operand completed in state s. */
  function ExpMin(s: int): int {
    if s == 5 || s == 7 || s == 16 || s == 24 then 1
    else if s == 6 then 8
    else s - 14
  }

  /** The state an operand-expecting state enters once its operand is complete. */
  function Goto(s: int): int {
    if s == 0 then 5 else if s == 1 then 6 else if s == 4 then 7
    else if s == 23 then 24 else s + 8
  }

  /** The decisions of the precedence grammar. */
  function PrecedenceAction(s: int, t: Token): Action {
    if OperandState(s) then
      match t
      case Bang => Shift(1)
      case Number(_) => Shift(2)
      case VarN => Shift(3)
      case LParen => Shift(4)
      case _ => Error
    else if ExpState(s) then
      var l := TokenLevel(t);
      if l >= 1 && l >= ExpMin(s) then Shift(l + 7)
      else if s == 7 && t == RParen then Shift(15)
      else if s == 16 && t == Colon then Shift(23)
      else if s == 7 || s == 16 then Error
      else if s == 5 then Reduce(1)
      else if s == 6 then Reduce(9)
      else if s == 24 then Reduce(2)
      else Reduce(s - 14)
    else if s == 2 then Reduce(11)
    else if s == 3 then Reduce(10)
    else if s == 15 then Reduce(12)
    else if s == 25 && t == Eof then Shift(26)
    else if s == 26 && t == Eof then Accept
    else Error
  }

  lemma OperandRows(s: int, t: Token)
    requires OperandState(s)
    ensures TableAction(s, Symbol(t)) == PrecedenceAction(s, t)
    ensures GotoExp(s) == Goto(s)
  {
  }

  lemma OuterExpRows(s: int, t: Token)
    requires s == 5 || s == 24
    ensures TableAction(s, Symbol(t)) == PrecedenceAction(s, t)
  {
  }

  lemma InnerExpRows(s: int, t: Token)
    requires s == 6 || s == 7 || s == 16
    ensures TableAction(s, Symbol(t)) == PrecedenceAction(s, t)
  {
  }

  lemma LogicExpRows(s: int, t: Token)
    requires 17 <= s <= 19
    ensures TableAction(s, Symbol(t)) == PrecedenceAction(s, t)
  {
  }

  lemma ArithmeticExpRows(s: int, t: Token)
    requires 20 <= s <= 22
    ensures TableAction(s, Symbol(t)) == PrecedenceAction(s, t)
  {
  }

  lemma OtherRows(s: int, t: Token)
    requires s == 2 || s == 3 || s == 15 || 25 <= s <= 27
    ensures TableAction(s, Symbol(t)) == PrecedenceAction(s, t)
  {
  }

  /** The packed tables encode exactly the precedence grammar, and no state has an entry for the error token. */
  lemma TablesEncodePrecedence(s: int, t: Token)
    requires 0 <= s <= 27
    ensures TableAction(s, Symbol(t)) == PrecedenceAction(s, t)
  {
    hide TableAction, PrecedenceAction, Symbol;
    if OperandState(s) {
      OperandRows(s, t);
    } else if s == 5 || s == 24 {
      OuterExpRows(s, t);
    } else if s == 6 || s == 7 || s == 16 {
      InnerExpRows(s, t);
    } else if 17 <= s <= 19 {
      LogicExpRows(s, t);
    } else if 20 <= s <= 22 {
      ArithmeticExpRows(s, t);
    } else {
      OtherRows(s, t);
    }
  }

  /** State s has a table entry in the column of the error token. */
  predicate ShiftsError(s: int)
    requires 0 <= s <= 27
  {
    var k := YyPact(s) + YYTERROR;
    YyPact(s) != YYFLAG && 0 <= k <= YYLAST && YyCheck(k) == YYTERROR
  }

  lemma ErrorTokenIsNeverShifted(s: int)
    requires 0 <= s <= 27
    ensures !ShiftsError(s)
  {
  }
}
