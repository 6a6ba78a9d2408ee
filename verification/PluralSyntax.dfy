/**
 Plural-form expressions: the abstract trees that the parser returns, the
 tokens it reads, and the concrete trees of the precedence grammar, which keep
 the parentheses that a text spells out.
 */
module PluralSyntax {

  datatype Operator =
    | Mult | Divide | Module
    | Plus | Minus
    | LessThan | GreaterThan | LessOrEqual | GreaterOrEqual
    | Equal | NotEqual
    | Land | Lor

  /** `struct expression`: what the parser returns. */
  datatype Expression =
    | Var
    | Num(num: nat)
    | Lnot(arg: Expression)
    | Binary(op: Operator, left: Expression, right: Expression)
    | Qmop(bexp: Expression, tbranch: Expression, fbranch: Expression)

  /** A token code together with its semantic value. `Bad` is YYERRCODE. */
  datatype Token =
    | Eof | Bad | Quest | Bin(op: Operator) | Bang
    | Number(num: nat) | Colon | VarN | LParen | RParen

  /** Binding strength: `?:` is 1, `||` 2, `&&` 3, equality 4, comparison 5, sums 6, products 7. */
  function OperatorLevel(op: Operator): (r: nat)
    ensures 2 <= r <= 7
  {
    match op
    case Lor => 2
    case Land => 3
    case Equal => 4
    case NotEqual => 4
    case LessThan => 5
    case GreaterThan => 5
    case LessOrEqual => 5
    case GreaterOrEqual => 5
    case Plus => 6
    case Minus => 6
    case Mult => 7
    case Divide => 7
    case Module => 7
  }

  /** The level of a token that can follow an operand as an operator; 0 for every other token. */
  function TokenLevel(t: Token): (r: nat)
    ensures r <= 7
  {
    match t
    case Quest => 1
    case Bin(op) => OperatorLevel(op)
    case _ => 0
  }

  /** A parse tree of the grammar, parentheses included. */
  datatype Tree =
    | TVar
    | TNum(num: nat)
    | TParen(inner: Tree)
    | TNot(arg: Tree)
    | TBin(op: Operator, left: Tree, right: Tree)
    | TCond(bexp: Tree, tbranch: Tree, fbranch: Tree)

  function Level(t: Tree): (r: nat)
    ensures 1 <= r <= 9
  {
    match t
    case TCond(_, _, _) => 1
    case TBin(op, _, _) => OperatorLevel(op)
    case TNot(_) => 8
    case _ => 9
  }

  /** The tree respects precedence and associativity: `?:` nests to the right, binary operators to the left. */
  predicate WellFormed(t: Tree) {
    match t
    case TVar => true
    case TNum(_) => true
    case TParen(i) => WellFormed(i)
    case TNot(a) => WellFormed(a) && Level(a) >= 8
    case TBin(op, l, r) =>
      && WellFormed(l) && Level(l) >= OperatorLevel(op)
      && WellFormed(r) && Level(r) > OperatorLevel(op)
    case TCond(c, a, b) => WellFormed(c) && Level(c) >= 2 && WellFormed(a) && WellFormed(b)
  }

  /** The tokens a tree spells, left to right. */
  function Yield(t: Tree): seq<Token> {
    match t
    case TVar => [VarN]
    case TNum(n) => [Number(n)]
    case TParen(i) => [LParen] + Yield(i) + [RParen]
    case TNot(a) => [Bang] + Yield(a)
    case TBin(op, l, r) => Yield(l) + [Bin(op)] + Yield(r)
    case TCond(c, a, b) => Yield(c) + [Quest] + Yield(a) + [Colon] + Yield(b)
  }

  /** The expression a tree denotes: parentheses leave no trace. */
  function Erase(t: Tree): Expression {
    match t
    case TVar => Var
    case TNum(n) => Num(n)
    case TParen(i) => Erase(i)
    case TNot(a) => Lnot(Erase(a))
    case TBin(op, l, r) => Binary(op, Erase(l), Erase(r))
    case TCond(c, a, b) => Qmop(Erase(c), Erase(a), Erase(b))
  }

  /** The printer: parentheses exactly where the context asks for a tighter level. */
  function Print(e: Expression): Tree {
    match e
    case Var => TVar
    case Num(n) => TNum(n)
    case Lnot(a) => TNot(Bracket(Print(a), 8))
    case Binary(op, l, r) =>
      TBin(op, Bracket(Print(l), OperatorLevel(op)), Bracket(Print(r), OperatorLevel(op) + 1))
    case Qmop(c, a, b) => TCond(Bracket(Print(c), 2), Print(a), Print(b))
  }

  function Bracket(t: Tree, level: nat): Tree {
    if Level(t) >= level then t else TParen(t)
  }

  /** Brackets lift a tree to any level up to the tightest, and denote nothing. */
  lemma BracketLifts(t: Tree, level: nat)
    requires WellFormed(t) && level <= 9
    ensures WellFormed(Bracket(t, level)) && Level(Bracket(t, level)) >= level
    ensures Erase(Bracket(t, level)) == Erase(t)
  {
  }

  lemma {:induction false} PrintIsFaithful(e: Expression)
    ensures WellFormed(Print(e)) && Erase(Print(e)) == e
  {
    hide Bracket;
    match e
    case Var =>
    case Num(_) =>
    case Lnot(a) =>
      PrintIsFaithful(a);
      BracketLifts(Print(a), 8);
    case Binary(op, l, r) =>
      PrintIsFaithful(l);
      PrintIsFaithful(r);
      BracketLifts(Print(l), OperatorLevel(op));
      BracketLifts(Print(r), OperatorLevel(op) + 1);
    case Qmop(c, a, b) =>
      PrintIsFaithful(c);
      PrintIsFaithful(a);
      PrintIsFaithful(b);
      BracketLifts(Print(c), 2);
  }

  /** Tree p spells no more tokens than t, and two fewer where t binds tighter. */
  predicate Shorter(p: Tree, t: Tree) {
    && |Yield(p)| <= |Yield(t)|
    && (Level(t) > Level(p) ==> |Yield(p)| + 2 <= |Yield(t)|)
  }

  lemma YieldLength(t: Tree)
    ensures |Yield(t)| == match t
      case TVar => 1
      case TNum(_) => 1
      case TParen(i) => |Yield(i)| + 2
      case TNot(a) => |Yield(a)| + 1
      case TBin(_, l, r) => |Yield(l)| + |Yield(r)| + 1
      case TCond(c, a, b) => |Yield(c)| + |Yield(a)| + |Yield(b)| + 2
  {
  }

  lemma BracketIsShort(p: Tree, t: Tree, level: nat)
    requires Shorter(p, t) && Level(t) >= level
    ensures |Yield(Bracket(p, level))| <= |Yield(t)|
  {
    hide Yield;
    YieldLength(TParen(p));
  }

  /** No well-formed spelling of an expression is shorter than the printer's. */
  lemma {:induction false} PrintIsShortest(t: Tree)
    requires WellFormed(t)
    ensures Shorter(Print(Erase(t)), t)
  {
    hide Bracket, Yield;
    YieldLength(t);
    YieldLength(Print(Erase(t)));
    match t
    case TVar =>
    case TNum(_) =>
    case TParen(i) => PrintIsShortest(i);
    case TNot(a) =>
      PrintIsShortest(a);
      BracketIsShort(Print(Erase(a)), a, 8);
    case TBin(op, l, r) =>
      PrintIsShortest(l);
      PrintIsShortest(r);
      BracketIsShort(Print(Erase(l)), l, OperatorLevel(op));
      BracketIsShort(Print(Erase(r)), r, OperatorLevel(op) + 1);
    case TCond(c, a, b) =>
      PrintIsShortest(c);
      PrintIsShortest(a);
      PrintIsShortest(b);
      BracketIsShort(Print(Erase(c)), c, 2);
  }
}
