/**
 The LR automaton of the plural parser as a step function on stacks, its
 invariant, and the two halves of its specification: what it accepts is a
 well-formed tree of the tokens read, and every well-formed tree whose parse
 fits the stack is accepted.
 */
module PluralMachine {
  import opened PluralSyntax
  import opened PluralTables

  /** YYMAXDEPTH: a stack of this many states is an overflow. */
  const YYMAXDEPTH := 10000

  datatype Value = Tok(t: Token) | Exp(tree: Tree)

  /** The state and value stacks; `Base` is the start state with its unused value. */
  datatype Stack = Base | Push(below: Stack, state: int, val: Value)

  function Top(st: Stack): int {
    match st
    case Base => 0
    case Push(_, s, _) => s
  }

  function Height(st: Stack): (r: nat)
    ensures r >= 1
  {
    match st
    case Base => 1
    case Push(b, _, _) => Height(b) + 1
  }

  function Pop(st: Stack, n: nat): (r: Stack)
    ensures Height(st) > n ==> Height(r) == Height(st) - n
  {
    if n == 0 || st.Base? then st else Pop(st.below, n - 1)
  }

  /** The whole configuration; `pending` are the tokens not yet shifted, `res` is the result field of parse_args. */
  datatype Config = Config(stack: Stack, pending: seq<Token>, res: Tree)

  function Lookahead(pending: seq<Token>): Token {
    if pending == [] then Eof else pending[0]
  }

  datatype Outcome = Next(c: Config) | Accepted(tree: Tree) | Rejected | Overflow

  /** A token on top of an operand-expecting state. */
  predicate PrefixEdge(t: Token, s: int) {
    (t == Bang && s == 1) || (t.Number? && s == 2) || (t == VarN && s == 3) || (t == LParen && s == 4)
  }

  /** The operand `tree` may be complete when t comes next: t does not bind tighter than the tree's root. */
  predicate Follows(tree: Tree, t: Token) {
    if tree.TCond? then TokenLevel(t) == 0 else TokenLevel(t) <= Level(tree)
  }

  /** What may be pushed on stack b: the LR item sets, with the precedence each value must respect. */
  predicate Edge(b: Stack, s: int, v: Value) {
    var q := Top(b);
    if OperandState(q) then
      || (v.Tok? && PrefixEdge(v.t, s))
      || (v.Exp? && s == Goto(q) && WellFormed(v.tree) && Level(v.tree) >= ExpMin(s))
      || (v.Exp? && b.Base? && s == 25 && WellFormed(v.tree))
    else if ExpState(q) then
      && b.Push? && b.val.Exp? && v.Tok?
      && (|| (TokenLevel(v.t) >= 1 && TokenLevel(v.t) >= ExpMin(q)
              && s == TokenLevel(v.t) + 7 && Follows(b.val.tree, v.t))
          || (q == 7 && v.t == RParen && s == 15)
          || (q == 16 && v.t == Colon && s == 23))
    else q == 25 && s == 26 && v == Tok(Eof)
  }

  predicate Linked(st: Stack) {
    match st
    case Base => true
    case Push(b, s, v) => Linked(b) && Edge(b, s, v)
  }

  /** The LR invariant of a configuration. */
  predicate Valid(c: Config) {
    && Linked(c.stack)
    && (ExpState(Top(c.stack)) ==> c.stack.Push? && c.stack.val.Exp? && Follows(c.stack.val.tree, Lookahead(c.pending)))
    && (Top(c.stack) == 25 ==> c.stack.Push? && c.stack.val == Exp(c.res))
    && (Top(c.stack) == 26 ==>
      c.stack.Push? && c.stack.below.Push? && c.stack.below.val == Exp(c.res) && c.pending == [])
  }

  /** The stack ends in the right-hand side of the rule. */
  predicate CanReduce(rule: int, st: Stack) {
    && st.Push?
    && match rule
       case 1 => st.below.Base? && st.val.Exp?
       case 2 =>
         && st.below.Push? && st.below.below.Push? && st.below.below.below.Push? && st.below.below.below.below.Push?
         && st.val.Exp? && st.below.below.val.Exp? && st.below.below.below.below.val.Exp?
       case 9 => st.below.Push? && st.val.Exp?
       case 10 => true
       case 11 => st.val.Tok? && st.val.t.Number?
       case 12 => st.below.Push? && st.below.below.Push? && st.below.val.Exp?
       case _ =>
         && 3 <= rule <= 8
         && st.below.Push? && st.below.below.Push?
         && st.val.Exp? && st.below.val.Tok? && st.below.val.t.Bin? && st.below.below.val.Exp?
  }

  /** The semantic actions: `$$` from the values of the right-hand side. */
  function Build(rule: int, st: Stack): Tree
    requires CanReduce(rule, st)
  {
    match rule
    case 1 => st.val.tree
    case 2 => TCond(st.below.below.below.below.val.tree, st.below.below.val.tree, st.val.tree)
    case 3 => TBin(Lor, st.below.below.val.tree, st.val.tree)
    case 4 => TBin(Land, st.below.below.val.tree, st.val.tree)
    case 9 => TNot(st.val.tree)
    case 10 => TVar
    case 11 => TNum(st.val.t.num)
    case 12 => TParen(st.below.val.tree)
    case _ => TBin(st.below.val.t.op, st.below.below.val.tree, st.val.tree)
  }

  lemma StateRange(st: Stack)
    requires Linked(st)
    ensures 0 <= Top(st) <= 26 && (Top(st) == 0 <==> st.Base?)
  {
  }

  /** Under a completed operand lies the state that asked for it. */
  lemma UnderOperand(st: Stack)
    requires Linked(st) && ExpState(Top(st))
    ensures st.Push? && st.val.Exp? && Linked(st.below)
    ensures OperandState(Top(st.below)) && Goto(Top(st.below)) == Top(st)
    ensures WellFormed(st.val.tree) && Level(st.val.tree) >= ExpMin(Top(st))
    ensures Top(st) == 5 ==> st.below.Base?
    ensures Top(st) != 5 ==> st.below.Push? && st.below.val.Tok?
  {
    StateRange(st.below);
    if Top(st) != 5 {
      StateRange(st.below.below);
    }
  }

  /** Under an infix operator, a colon or a closing parenthesis lies a completed operand. */
  lemma UnderInfix(st: Stack)
    requires Linked(st) && (8 <= Top(st) <= 15 || Top(st) == 23)
    ensures st.Push? && st.val.Tok? && st.below.Push? && st.below.val.Exp?
    ensures Linked(st.below) && ExpState(Top(st.below))
    ensures 8 <= Top(st) <= 14 ==>
      TokenLevel(st.val.t) == Top(st) - 7 >= ExpMin(Top(st.below)) && Follows(st.below.val.tree, st.val.t)
    ensures Top(st) == 15 ==> Top(st.below) == 7 && st.val.t == RParen
    ensures Top(st) == 23 ==> Top(st.below) == 16 && st.val.t == Colon
  {
  }

  lemma UnderPrefix(st: Stack)
    requires Linked(st) && 1 <= Top(st) <= 4
    ensures st.Push? && st.val.Tok? && Linked(st.below) && OperandState(Top(st.below))
    ensures PrefixEdge(st.val.t, Top(st))
  {
  }

  /** Under a binary operator's right operand lie the operator and its left operand. */
  lemma UnderBinary(st: Stack)
    requires Linked(st) && 17 <= Top(st) <= 22
    ensures CanReduce(Top(st) - 14, st)
    ensures Linked(st.below.below.below)
    ensures var op, l, r := st.below.val.t.op, st.below.below.val.tree, st.val.tree;
      && OperatorLevel(op) == Top(st) - 15
      && WellFormed(TBin(op, l, r))
      && OperandState(Top(st.below.below.below))
      && OperatorLevel(op) >= ExpMin(Goto(Top(st.below.below.below)))
  {
    UnderOperand(st);
    UnderInfix(st.below);
    UnderOperand(st.below.below);
  }

  lemma UnderConditional(st: Stack)
    requires Linked(st) && Top(st) == 24
    ensures CanReduce(2, st)
    ensures Linked(st.below.below.below.below.below)
    ensures st.below.val == Tok(Colon) && st.below.below.below.val == Tok(Quest)
    ensures var q := st.below.below.below.below.below;
      && WellFormed(TCond(st.below.below.below.below.val.tree, st.below.below.val.tree, st.val.tree))
      && OperandState(Top(q)) && ExpMin(Goto(Top(q))) <= 1
  {
    UnderOperand(st);
    UnderInfix(st.below);
    UnderOperand(st.below.below);
    UnderInfix(st.below.below.below);
    UnderOperand(st.below.below.below.below);
  }

  lemma UnderParen(st: Stack)
    requires Linked(st) && Top(st) == 15
    ensures CanReduce(12, st)
    ensures st.val == Tok(RParen) && st.below.below.val == Tok(LParen)
    ensures WellFormed(st.below.val.tree)
    ensures Linked(st.below.below.below) && OperandState(Top(st.below.below.below))
  {
    UnderInfix(st);
    UnderOperand(st.below);
    UnderPrefix(st.below.below);
  }

  lemma UnderNot(st: Stack)
    requires Linked(st) && Top(st) == 6
    ensures CanReduce(9, st)
    ensures st.below.val == Tok(Bang) && WellFormed(TNot(st.val.tree))
    ensures Linked(st.below.below) && OperandState(Top(st.below.below))
  {
    UnderOperand(st);
    UnderPrefix(st.below);
  }

  lemma ReduceShape(c: Config, rule: int)
    requires Valid(c)
    requires PrecedenceAction(Top(c.stack), Lookahead(c.pending)) == Reduce(rule)
    ensures CanReduce(rule, c.stack)
  {
    var s := Top(c.stack);
    if s == 5 {
      UnderOperand(c.stack);
    } else if s == 6 {
      UnderNot(c.stack);
    } else if s == 15 {
      UnderParen(c.stack);
    } else if s == 24 {
      UnderConditional(c.stack);
    } else if 17 <= s <= 22 {
      UnderBinary(c.stack);
    } else {
      UnderPrefix(c.stack);
    }
  }

  /** One round of the goto loop: a shift, a reduction, or the end. */
  function Step(c: Config): Outcome
    requires Valid(c)
  {
    var la := Lookahead(c.pending);
    StateRange(c.stack);
    TablesEncodePrecedence(Top(c.stack), la);
    match TableAction(Top(c.stack), Symbol(la))
    case Error => Rejected
    case Accept => Accepted(c.res)
    case Shift(s) =>
      Next(Config(Push(c.stack, s, Tok(la)), if c.pending == [] then [] else c.pending[1..], c.res))
    case Reduce(rule) =>
      ReduceShape(c, rule);
      var tree := Build(rule, c.stack);
      var below := Pop(c.stack, RuleLength(rule));
      if rule == 1 then Next(Config(Push(below, 25, Exp(tree)), c.pending, tree))
      else Next(Config(Push(below, GotoExp(Top(below)), Exp(tree)), c.pending, c.res))
  }

  function ValueYield(v: Value): seq<Token> {
    match v
    case Exp(tree) => Yield(tree)
    case Tok(t) => if t == Eof then [] else [t]
  }

  /** The tokens that the stacked values spell, bottom to top. */
  function StackYield(st: Stack): seq<Token> {
    match st
    case Base => []
    case Push(b, _, v) => StackYield(b) + ValueYield(v)
  }

  function Spelled(c: Config): seq<Token> {
    StackYield(c.stack) + c.pending
  }

  /** Progress towards acceptance: start symbol not yet reduced, reduced, end of input shifted. */
  function Phase(c: Config): nat {
    if Top(c.stack) == 26 then 0 else if Top(c.stack) == 25 then 1 else 2
  }

  /** Shifting pays for the reductions it makes possible. */
  function Potential(c: Config): nat {
    4 * |c.pending| + 2 * Height(c.stack) - if ExpState(Top(c.stack)) then 1 else 0
  }

  predicate Progress(c: Config, d: Config) {
    Phase(d) < Phase(c) || (Phase(d) == Phase(c) && Potential(d) < Potential(c))
  }

  /** Token sequences as the lexer delivers them: the end marker is not among the tokens. */
  predicate Proper(tokens: seq<Token>) {
    Eof !in tokens
  }

  lemma ShiftStep(c: Config, s: int)
    requires Valid(c) && Proper(c.pending)
    requires PrecedenceAction(Top(c.stack), Lookahead(c.pending)) == Shift(s)
    ensures var d := Config(Push(c.stack, s, Tok(Lookahead(c.pending))),
                            if c.pending == [] then [] else c.pending[1..], c.res);
      Advances(c, d)
  {
    var la := Lookahead(c.pending);
    StateRange(c.stack);
    if c.pending != [] {
      assert la != Eof;
      assert c.pending == [la] + c.pending[1..];
    }
  }

  /** What every step preserves, and how it moves on. */
  predicate Advances(c: Config, d: Config) {
    Valid(d) && Proper(d.pending) && Progress(c, d) && Spelled(d) == Spelled(c)
  }

  /** A reduction that replaces its right-hand side by a tree spelling the same tokens. */
  lemma ReduceTo(c: Config, below: Stack, tree: Tree)
    requires Valid(c) && Proper(c.pending) && Linked(below) && OperandState(Top(below))
    requires WellFormed(tree) && Level(tree) >= ExpMin(Goto(Top(below)))
    requires Follows(tree, Lookahead(c.pending))
    requires Height(c.stack) > Height(below) + 1 || (Height(c.stack) == Height(below) + 1 && !ExpState(Top(c.stack)))
    requires StackYield(c.stack) == StackYield(below) + Yield(tree)
    requires Phase(c) == 2
    ensures Advances(c, Config(Push(below, GotoExp(Top(below)), Exp(tree)), c.pending, c.res))
  {
    OperandRows(Top(below), Eof);
  }

  lemma HeightOfThree(st: Stack)
    requires st.Push? && st.below.Push?
    ensures Height(st) == Height(st.below.below) + 2
    ensures st.below.below.Push? ==> Height(st) == Height(st.below.below.below) + 3
  {
    assert Height(st.below) == Height(st.below.below) + 1;
  }

  lemma Regroup<T>(y: seq<T>, a: seq<T>, b: seq<T>, c: seq<T>)
    ensures ((y + a) + b) + c == y + (a + b + c)
  {
  }

  /** Three values pushed one after the other spell the concatenation of what each spells. */
  lemma YieldOfThree(st: Stack)
    requires st.Push? && st.below.Push? && st.below.below.Push?
    ensures StackYield(st) == StackYield(st.below.below.below)
      + (ValueYield(st.below.below.val) + ValueYield(st.below.val) + ValueYield(st.val))
  {
    var b := st.below.below;
    Regroup(StackYield(b.below), ValueYield(b.val), ValueYield(st.below.val), ValueYield(st.val));
    assert StackYield(b) == StackYield(b.below) + ValueYield(b.val);
    assert StackYield(st.below) == StackYield(b) + ValueYield(st.below.val);
  }

  lemma ConditionalYield(st: Stack)
    requires CanReduce(2, st) && st.below.val == Tok(Colon) && st.below.below.below.val == Tok(Quest)
    ensures StackYield(st) == StackYield(st.below.below.below.below.below) + Yield(Build(2, st))
  {
    var b, a, q := Yield(st.val.tree), Yield(st.below.below.val.tree), Yield(st.below.below.below.below.val.tree);
    var mid := st.below.below;
    var y := StackYield(mid.below.below.below);
    YieldOfThree(mid);
    assert StackYield(mid) == y + (q + [Quest] + a);
    assert StackYield(st.below) == StackYield(mid) + [Colon];
    assert StackYield(st) == StackYield(st.below) + b;
    Regroup(y, q + [Quest] + a, [Colon], b);
  }

  lemma NotYield(st: Stack)
    requires CanReduce(9, st) && st.below.val == Tok(Bang)
    ensures StackYield(st) == StackYield(st.below.below) + Yield(Build(9, st))
  {
    assert StackYield(st.below) == StackYield(st.below.below) + [Bang];
  }

  lemma BinaryStep(c: Config)
    requires Valid(c) && Proper(c.pending) && 17 <= Top(c.stack) <= 22
    requires TokenLevel(Lookahead(c.pending)) < ExpMin(Top(c.stack))
    ensures CanReduce(Top(c.stack) - 14, c.stack)
    ensures var below := c.stack.below.below.below;
      Advances(c, Config(Push(below, GotoExp(Top(below)), Exp(Build(Top(c.stack) - 14, c.stack))), c.pending, c.res))
  {
    var st := c.stack;
    UnderBinary(st);
    YieldOfThree(st);
    var t := TBin(st.below.val.t.op, st.below.below.val.tree, st.val.tree);
    assert Build(Top(st) - 14, st) == t;
    HeightOfThree(st);
    ReduceTo(c, st.below.below.below, t);
  }

  lemma ConditionalStep(c: Config)
    requires Valid(c) && Proper(c.pending) && Top(c.stack) == 24 && TokenLevel(Lookahead(c.pending)) == 0
    ensures CanReduce(2, c.stack)
    ensures var below := c.stack.below.below.below.below.below;
      Advances(c, Config(Push(below, GotoExp(Top(below)), Exp(Build(2, c.stack))), c.pending, c.res))
  {
    UnderConditional(c.stack);
    ConditionalYield(c.stack);
    HeightOfThree(c.stack);
    HeightOfThree(c.stack.below.below.below);
    ReduceTo(c, c.stack.below.below.below.below.below, Build(2, c.stack));
  }

  lemma NotStep(c: Config)
    requires Valid(c) && Proper(c.pending) && Top(c.stack) == 6
    ensures CanReduce(9, c.stack)
    ensures var below := c.stack.below.below;
      Advances(c, Config(Push(below, GotoExp(Top(below)), Exp(Build(9, c.stack))), c.pending, c.res))
  {
    var st := c.stack;
    UnderNot(st);
    NotYield(st);
    HeightOfThree(st);
    ReduceTo(c, st.below.below, Build(9, st));
  }

  lemma ParenStep(c: Config)
    requires Valid(c) && Proper(c.pending) && Top(c.stack) == 15
    ensures CanReduce(12, c.stack)
    ensures var below := c.stack.below.below.below;
      Advances(c, Config(Push(below, GotoExp(Top(below)), Exp(Build(12, c.stack))), c.pending, c.res))
  {
    var st := c.stack;
    UnderParen(st);
    YieldOfThree(st);
    HeightOfThree(st);
    ReduceTo(c, st.below.below.below, Build(12, st));
  }

  lemma LeafStep(c: Config, rule: int)
    requires Valid(c) && Proper(c.pending)
    requires (rule == 11 && Top(c.stack) == 2) || (rule == 10 && Top(c.stack) == 3)
    ensures CanReduce(rule, c.stack)
    ensures var below := c.stack.below;
      Advances(c, Config(Push(below, GotoExp(Top(below)), Exp(Build(rule, c.stack))), c.pending, c.res))
  {
    UnderPrefix(c.stack);
    ReduceTo(c, c.stack.below, Build(rule, c.stack));
  }

  lemma StartStep(c: Config)
    requires Valid(c) && Proper(c.pending) && Top(c.stack) == 5
    ensures CanReduce(1, c.stack)
    ensures Advances(c, Config(Push(Base, 25, c.stack.val), c.pending, c.stack.val.tree))
  {
    UnderOperand(c.stack);
  }

  lemma PopTwoThreeFive(st: Stack)
    ensures st.Push? ==> Pop(st, 1) == st.below
    ensures st.Push? && st.below.Push? ==> Pop(st, 2) == st.below.below
    ensures st.Push? && st.below.Push? && st.below.below.Push? ==> Pop(st, 3) == st.below.below.below
    ensures st.Push? && st.below.Push? && st.below.below.Push? ==> Pop(st, 5) == Pop(st.below.below.below, 2)
  {
    if st.Push? && st.below.Push? && st.below.below.Push? {
      assert Pop(st.below, 2) == Pop(st.below.below, 1) == Pop(st.below.below.below, 0);
      assert Pop(st.below, 4) == Pop(st.below.below, 3) == Pop(st.below.below.below, 2);
    }
  }

  lemma ReduceAdvances(c: Config, rule: int)
    requires Valid(c) && Proper(c.pending)
    requires PrecedenceAction(Top(c.stack), Lookahead(c.pending)) == Reduce(rule)
    ensures Step(c).Next? && Advances(c, Step(c).c)
  {
    var st := c.stack;
    StateRange(st);
    TablesEncodePrecedence(Top(st), Lookahead(c.pending));
    ReduceShape(c, rule);
    PopTwoThreeFive(st);
    hide Advances, TableAction, Build, Valid, Proper;
    match rule {
      case 1 => StartStep(c);
      case 2 => PopTwoThreeFive(st.below.below.below); ConditionalStep(c);
      case 9 => NotStep(c);
      case 10 => LeafStep(c, rule);
      case 11 => LeafStep(c, rule);
      case 12 => ParenStep(c);
      case _ => BinaryStep(c);
    }
  }

  /** Every step keeps the invariant, makes progress, and loses or invents no token. */
  lemma StepAdvances(c: Config)
    requires Valid(c) && Proper(c.pending)
    ensures Step(c).Next? ==> Advances(c, Step(c).c)
  {
    var st, la := c.stack, Lookahead(c.pending);
    StateRange(st);
    TablesEncodePrecedence(Top(st), la);
    hide Advances, TableAction, Build, CanReduce, Valid, Proper;
    match PrecedenceAction(Top(st), la)
    case Error =>
    case Accept =>
    case Shift(s) => ShiftStep(c, s);
    case Reduce(rule) => ReduceAdvances(c, rule);
  }
}
