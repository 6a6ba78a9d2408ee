/**
 What the plural parser accepts: exactly the token sequences spelled by
 well-formed trees whose parse fits the stack, and it returns that tree.
 */
module PluralCorrectness {
  import opened PluralSyntax
  import opened PluralTables
  import opened PluralMachine

  /**
   A run of the automaton to its end, with a stack of fewer than `limit` states, which is
   YYMAXDEPTH in the source. That this is a total function is the halting of `yyparse`.
   */
  function Parse(limit: nat, c: Config): Outcome
    requires Valid(c) && Proper(c.pending)
    decreases Phase(c), Potential(c)
  {
    if Height(c.stack) >= limit then Overflow
    else
      StepAdvances(c);
      match Step(c)
      case Next(d) => Parse(limit, d)
      case o => o
  }

  function Start(tokens: seq<Token>): (c: Config)
    requires Proper(tokens)
    ensures Valid(c) && c.pending == tokens
  {
    Config(Base, tokens, TVar)
  }

  /** Soundness of a run: the accepted tree is well-formed and spells every token of the configuration. */
  lemma {:induction false} AcceptedTreeSpellsTokens(limit: nat, c: Config)
    requires Valid(c) && Proper(c.pending)
    ensures !Parse(limit, c).Next?
    ensures Parse(limit, c).Accepted? ==> WellFormed(Parse(limit, c).tree) && Yield(Parse(limit, c).tree) == Spelled(c)
    decreases Phase(c), Potential(c)
  {
    if Height(c.stack) < limit {
      StepAdvances(c);
      if Step(c).Next? {
        AcceptedTreeSpellsTokens(limit, Step(c).c);
      } else if Step(c).Accepted? {
        StateRange(c.stack);
        TablesEncodePrecedence(Top(c.stack), Lookahead(c.pending));
        AcceptingStack(c);
      }
    }
  }

  lemma AcceptingStack(c: Config)
    requires Valid(c) && Top(c.stack) == 26
    ensures WellFormed(c.res) && Yield(c.res) == Spelled(c)
  {
    var st := c.stack;
    assert Edge(st.below, 26, st.val);
    assert Linked(st.below);
    assert Edge(st.below.below, Top(st.below), st.below.val);
    StateRange(st.below.below);
    assert StackYield(st.below) == [] + Yield(c.res);
  }

  function Max(a: nat, b: nat): nat { if a >= b then a else b }

  /** How far the parse of a tree raises the stack. */
  function Need(t: Tree): (r: nat)
    ensures r >= 1
  {
    match t
    case TVar => 1
    case TNum(_) => 1
    case TParen(i) => Max(1 + Need(i), 3)
    case TNot(a) => 1 + Need(a)
    case TBin(_, l, r) => Max(Need(l), 2 + Need(r))
    case TCond(c, a, b) => Max(Need(c), Max(2 + Need(a), 4 + Need(b)))
  }

  /** The configuration in which operand t has been read on top of st. */
  function Read(st: Stack, t: Tree, rest: seq<Token>, res: Tree): Config {
    Config(Push(st, Goto(Top(st)), Exp(t)), rest, res)
  }

  predicate Expects(st: Stack, t: Tree, rest: seq<Token>) {
    && Linked(st) && OperandState(Top(st)) && Proper(rest)
    && WellFormed(t) && Level(t) >= ExpMin(Goto(Top(st))) && Follows(t, Lookahead(rest))
  }

  /** The parse of t on top of st either overflows or leaves t as a completed operand. */
  ghost predicate Completes(limit: nat, t: Tree, st: Stack, rest: seq<Token>, res: Tree)
    requires Expects(st, t, rest)
  {
    YieldIsProper(t);
    var c, d := Config(st, Yield(t) + rest, res), Read(st, t, rest, res);
    && Valid(c) && Proper(c.pending) && Valid(d)
    && Parse(limit, c) == if Height(st) + Need(t) >= limit then Overflow else Parse(limit, d)
  }

  lemma YieldIsProper(t: Tree)
    ensures Proper(Yield(t)) && |Yield(t)| >= 1
  {
  }

  lemma ShiftParse(limit: nat, c: Config, s: int)
    requires Valid(c) && Proper(c.pending) && c.pending != [] && Height(c.stack) < limit
    requires PrecedenceAction(Top(c.stack), c.pending[0]) == Shift(s)
    ensures var d := Config(Push(c.stack, s, Tok(c.pending[0])), c.pending[1..], c.res);
      Valid(d) && Proper(d.pending) && Parse(limit, c) == Parse(limit, d)
  {
    StepAdvances(c);
    StateRange(c.stack);
    TablesEncodePrecedence(Top(c.stack), c.pending[0]);
  }

  lemma ReduceParse(limit: nat, c: Config, rule: int, below: Stack)
    requires Valid(c) && Proper(c.pending) && Height(c.stack) < limit
    requires rule != 1 && PrecedenceAction(Top(c.stack), Lookahead(c.pending)) == Reduce(rule)
    requires below == Pop(c.stack, RuleLength(rule)) && OperandState(Top(below))
    ensures CanReduce(rule, c.stack)
    ensures var d := Read(below, Build(rule, c.stack), c.pending, c.res);
      Valid(d) && Parse(limit, c) == Parse(limit, d)
  {
    StepAdvances(c);
    StateRange(c.stack);
    ReduceShape(c, rule);
    OperandRows(Top(below), Eof);
    TablesEncodePrecedence(Top(c.stack), Lookahead(c.pending));
  }

  /** Completeness of a run, by cases on the tree. */
  lemma {:induction false} TreeCompletes(limit: nat, t: Tree, st: Stack, rest: seq<Token>, res: Tree)
    requires Expects(st, t, rest) && Height(st) < limit
    ensures Completes(limit, t, st, rest, res)
    decreases t, 3
  {
    match t
    case TVar => LeafCompletes(limit, t, VarN, 3, 10, st, rest, res);
    case TNum(n) => LeafCompletes(limit, t, Number(n), 2, 11, st, rest, res);
    case TParen(i) => ParenCompletes(limit, i, st, rest, res);
    case TNot(a) => NotCompletes(limit, a, st, rest, res);
    case TBin(op, l, r) => BinaryCompletes(limit, op, l, r, st, rest, res);
    case TCond(q, a, b) => ConditionalCompletes(limit, q, a, b, st, rest, res);
  }

  lemma ExpectsIsValid(t: Tree, st: Stack, rest: seq<Token>, res: Tree)
    requires Expects(st, t, rest)
    ensures Proper(Yield(t) + rest) && |Yield(t)| >= 1
    ensures Valid(Config(st, Yield(t) + rest, res)) && Valid(Read(st, t, rest, res))
    ensures Height(Read(st, t, rest, res).stack) == Height(st) + 1
  {
    YieldIsProper(t);
  }

  lemma LeafCompletes(limit: nat, t: Tree, tok: Token, s: int, rule: int, st: Stack, rest: seq<Token>, res: Tree)
    requires Expects(st, t, rest) && Height(st) < limit
    requires (t == TVar && tok == VarN && s == 3 && rule == 10)
      || (t.TNum? && tok == Number(t.num) && s == 2 && rule == 11)
    ensures Completes(limit, t, st, rest, res)
  {
    hide Parse, Valid, Linked;
    ExpectsIsValid(t, st, rest, res);
    var c := Config(st, [tok] + rest, res);
    assert c.pending[1..] == rest;
    ShiftParse(limit, c, s);
    var d := Config(Push(st, s, Tok(tok)), rest, res);
    if Height(d.stack) < limit {
      PopTwoThreeFive(d.stack);
      ReduceParse(limit, d, rule, st);
    } else {
      ParseOverflow(limit, d);
    }
  }

  lemma ParseOverflow(limit: nat, c: Config)
    requires Valid(c) && Proper(c.pending) && Height(c.stack) >= limit
    ensures Parse(limit, c) == Overflow
  {
  }

  lemma NotParts(a: Tree, st: Stack, rest: seq<Token>)
    requires Expects(st, TNot(a), rest)
    ensures Yield(TNot(a)) + rest == [Bang] + (Yield(a) + rest)
    ensures Expects(Push(st, 1, Tok(Bang)), a, rest)
    ensures Height(Push(st, 1, Tok(Bang))) == Height(st) + 1
    ensures OperandState(Top(st)) && PrecedenceAction(Top(st), Bang) == Shift(1)
  {
    PushExpects(st, 1, Bang, a, rest);
  }

  lemma ReduceNot(limit: nat, a: Tree, st: Stack, rest: seq<Token>, res: Tree)
    requires var d := Read(Push(st, 1, Tok(Bang)), a, rest, res);
      Valid(d) && Proper(rest) && Height(d.stack) < limit && OperandState(Top(st))
    requires Valid(Read(st, TNot(a), rest, res))
    ensures Parse(limit, Read(Push(st, 1, Tok(Bang)), a, rest, res)) == Parse(limit, Read(st, TNot(a), rest, res))
  {
    hide Parse, Valid, Linked;
    var d := Read(Push(st, 1, Tok(Bang)), a, rest, res);
    PopTwoThreeFive(d.stack);
    ReduceParse(limit, d, 9, st);
  }

  lemma {:induction false} NotCompletes(limit: nat, a: Tree, st: Stack, rest: seq<Token>, res: Tree)
    requires Expects(st, TNot(a), rest) && Height(st) < limit
    ensures Completes(limit, TNot(a), st, rest, res)
    decreases a, 4
  {
    hide Parse, Valid, Linked, Build, Pop, Step, CanReduce, RuleLength, Edge, WellFormed, Follows, Yield;
    ExpectsIsValid(TNot(a), st, rest, res);
    NotParts(a, st, rest);
    var c := Config(st, Yield(TNot(a)) + rest, res);
    assert c.pending[1..] == Yield(a) + rest;
    ShiftParse(limit, c, 1);
    var bang := Push(st, 1, Tok(Bang));
    if Height(bang) < limit {
      TreeCompletes(limit, a, bang, rest, res);
      ExpectsIsValid(a, bang, rest, res);
      if Height(bang) + Need(a) < limit {
        ReduceNot(limit, a, st, rest, res);
      }
    } else {
      ParseOverflow(limit, Config(bang, Yield(a) + rest, res));
    }
  }

  /** A shifted prefix or infix token makes the stack expect the next operand. */
  lemma PushExpects(st: Stack, s: int, tok: Token, t: Tree, rest: seq<Token>)
    requires Linked(st) && Edge(st, s, Tok(tok)) && OperandState(s)
    requires Proper(rest) && WellFormed(t) && Level(t) >= ExpMin(Goto(s)) && Follows(t, Lookahead(rest))
    ensures Expects(Push(st, s, Tok(tok)), t, rest)
    ensures Height(Push(st, s, Tok(tok))) == Height(st) + 1
  {
  }

  /** The stack after operand t and the token that follows it. */
  function Joined(st: Stack, t: Tree, s: int, tok: Token): Stack {
    Push(Push(st, Goto(Top(st)), Exp(t)), s, Tok(tok))
  }

  /** Reading an operand and the infix or closing token behind it. */
  lemma {:induction false} OperandThenToken(limit: nat, t: Tree, st: Stack, s: int, tok: Token, rest: seq<Token>,
          res: Tree)
    requires Expects(st, t, [tok] + rest) && Height(st) < limit
    requires PrecedenceAction(Goto(Top(st)), tok) == Shift(s)
    ensures var c, d := Config(st, Yield(t) + ([tok] + rest), res), Config(Joined(st, t, s, tok), rest, res);
      && Valid(c) && Proper(c.pending) && Valid(d) && Proper(rest)
      && Height(d.stack) == Height(st) + 2
      && Parse(limit, c) == if Height(st) + Max(Need(t), 2) >= limit then Overflow else Parse(limit, d)
    decreases t, 4
  {
    hide Parse, Valid, Linked;
    TreeCompletes(limit, t, st, [tok] + rest, res);
    ExpectsIsValid(t, st, [tok] + rest, res);
    var r := Read(st, t, [tok] + rest, res);
    assert r.pending[1..] == rest;
    ShiftStep(r, s);
    if Height(st) + Need(t) < limit {
      ShiftParse(limit, r, s);
      if Height(st) + 2 >= limit {
        ParseOverflow(limit, Config(Joined(st, t, s, tok), rest, res));
      }
    }
  }

  lemma ReduceParen(limit: nat, i: Tree, st: Stack, rest: seq<Token>, res: Tree)
    requires var d := Config(Joined(Push(st, 4, Tok(LParen)), i, 15, RParen), rest, res);
      Valid(d) && Proper(rest) && Height(d.stack) < limit && OperandState(Top(st))
    requires Valid(Read(st, TParen(i), rest, res))
    ensures Parse(limit, Config(Joined(Push(st, 4, Tok(LParen)), i, 15, RParen), rest, res))
      == Parse(limit, Read(st, TParen(i), rest, res))
  {
    hide Parse, Valid, Linked;
    var d := Config(Joined(Push(st, 4, Tok(LParen)), i, 15, RParen), rest, res);
    PopTwoThreeFive(d.stack);
    ReduceParse(limit, d, 12, st);
  }

  lemma ReduceBinary(limit: nat, op: Operator, l: Tree, r: Tree, st: Stack, rest: seq<Token>, res: Tree)
    requires var d := Read(Joined(st, l, OperatorLevel(op) + 7, Bin(op)), r, rest, res);
      Valid(d) && Proper(rest) && Height(d.stack) < limit && OperandState(Top(st))
    requires TokenLevel(Lookahead(rest)) <= OperatorLevel(op)
    requires Valid(Read(st, TBin(op, l, r), rest, res))
    ensures Parse(limit, Read(Joined(st, l, OperatorLevel(op) + 7, Bin(op)), r, rest, res))
      == Parse(limit, Read(st, TBin(op, l, r), rest, res))
  {
    hide Parse, Valid, Linked;
    var d := Read(Joined(st, l, OperatorLevel(op) + 7, Bin(op)), r, rest, res);
    PopTwoThreeFive(d.stack);
    ReduceParse(limit, d, OperatorLevel(op) + 1, st);
  }

  lemma ParenParts(i: Tree, st: Stack, rest: seq<Token>)
    requires Expects(st, TParen(i), rest)
    ensures Yield(TParen(i)) + rest == [LParen] + (Yield(i) + ([RParen] + rest))
    ensures Expects(Push(st, 4, Tok(LParen)), i, [RParen] + rest)
    ensures Height(Push(st, 4, Tok(LParen))) == Height(st) + 1
    ensures OperandState(Top(st)) && PrecedenceAction(Top(st), LParen) == Shift(4)
  {
    PushExpects(st, 4, LParen, i, [RParen] + rest);
  }

  lemma {:induction false} ParenCompletes(limit: nat, i: Tree, st: Stack, rest: seq<Token>, res: Tree)
    requires Expects(st, TParen(i), rest) && Height(st) < limit
    ensures Completes(limit, TParen(i), st, rest, res)
    decreases i, 5
  {
    hide Parse, Valid, Linked, Build, Pop, Step, CanReduce, RuleLength, Edge, WellFormed, Follows, Yield;
    ExpectsIsValid(TParen(i), st, rest, res);
    ParenParts(i, st, rest);
    var c := Config(st, Yield(TParen(i)) + rest, res);
    assert c.pending[1..] == Yield(i) + ([RParen] + rest);
    ShiftParse(limit, c, 4);
    var open := Push(st, 4, Tok(LParen));
    if Height(open) < limit {
      OperandThenToken(limit, i, open, 15, RParen, rest, res);
      if Height(open) + Max(Need(i), 2) < limit {
        ReduceParen(limit, i, st, rest, res);
      }
    } else {
      ParseOverflow(limit, Config(open, c.pending[1..], res));
    }
  }

  lemma JoinedExpects(l: Tree, st: Stack, s: int, tok: Token, r: Tree, rest: seq<Token>, res: Tree)
    requires Valid(Config(Joined(st, l, s, tok), Yield(r) + rest, res)) && OperandState(s)
    requires Proper(rest) && WellFormed(r) && Level(r) >= ExpMin(Goto(s)) && Follows(r, Lookahead(rest))
    ensures Expects(Joined(st, l, s, tok), r, rest)
  {
  }

  lemma BinaryParts(op: Operator, l: Tree, r: Tree, st: Stack, rest: seq<Token>)
    requires Expects(st, TBin(op, l, r), rest)
    ensures Yield(TBin(op, l, r)) + rest == Yield(l) + ([Bin(op)] + (Yield(r) + rest))
    ensures Expects(st, l, [Bin(op)] + (Yield(r) + rest))
    ensures PrecedenceAction(Goto(Top(st)), Bin(op)) == Shift(OperatorLevel(op) + 7)
    ensures WellFormed(r) && Level(r) >= ExpMin(Goto(OperatorLevel(op) + 7))
    ensures Follows(r, Lookahead(rest)) && TokenLevel(Lookahead(rest)) <= OperatorLevel(op)
  {
    hide Linked;
    YieldIsProper(l);
    YieldIsProper(r);
    Regroup([], Yield(l), [Bin(op)], Yield(r));
    Regroup(Yield(l), [Bin(op)], Yield(r), rest);
  }

  lemma {:induction false} BinaryCompletes(limit: nat, op: Operator, l: Tree, r: Tree, st: Stack, rest: seq<Token>,
          res: Tree)
    requires Expects(st, TBin(op, l, r), rest) && Height(st) < limit
    ensures Completes(limit, TBin(op, l, r), st, rest, res)
    decreases TBin(op, l, r), 0
  {
    hide Parse, Valid, Linked, Build, Pop, Step, CanReduce, RuleLength, Edge, WellFormed, Follows, Yield,
      PrecedenceAction;
    var t, s, tail := TBin(op, l, r), OperatorLevel(op) + 7, Yield(r) + rest;
    ExpectsIsValid(t, st, rest, res);
    BinaryParts(op, l, r, st, rest);
    OperandThenToken(limit, l, st, s, Bin(op), tail, res);
    if Height(st) + Max(Need(l), 2) < limit {
      var j := Joined(st, l, s, Bin(op));
      JoinedExpects(l, st, s, Bin(op), r, rest, res);
      TreeCompletes(limit, r, j, rest, res);
      ExpectsIsValid(r, j, rest, res);
      if Height(j) + Need(r) < limit {
        ReduceBinary(limit, op, l, r, st, rest, res);
      }
    }
  }

  lemma ReduceConditional(limit: nat, q: Tree, a: Tree, b: Tree, st: Stack, rest: seq<Token>, res: Tree)
    requires var d := Read(Joined(Joined(st, q, 8, Quest), a, 23, Colon), b, rest, res);
      Valid(d) && Proper(rest) && Height(d.stack) < limit && OperandState(Top(st))
    requires TokenLevel(Lookahead(rest)) == 0
    requires Valid(Read(st, TCond(q, a, b), rest, res))
    ensures Parse(limit, Read(Joined(Joined(st, q, 8, Quest), a, 23, Colon), b, rest, res))
      == Parse(limit, Read(st, TCond(q, a, b), rest, res))
  {
    hide Parse, Valid, Linked;
    var d := Read(Joined(Joined(st, q, 8, Quest), a, 23, Colon), b, rest, res);
    PopTwoThreeFive(d.stack);
    PopTwoThreeFive(d.stack.below.below.below);
    ReduceParse(limit, d, 2, st);
  }

  lemma ConditionalSpelling(q: Tree, a: Tree, b: Tree, rest: seq<Token>)
    requires Proper(rest)
    ensures Yield(TCond(q, a, b)) + rest == Yield(q) + ([Quest] + (Yield(a) + ([Colon] + (Yield(b) + rest))))
    ensures Proper([Quest] + (Yield(a) + ([Colon] + (Yield(b) + rest))))
  {
    YieldIsProper(a);
    YieldIsProper(b);
    hide Yield;
    var x, y, z := Yield(q), Yield(a), Yield(b);
    assert Yield(TCond(q, a, b)) == x + [Quest] + y + [Colon] + z by { ConditionalYieldIs(q, a, b); }
    assert (x + [Quest] + y + [Colon] + z) + rest == x + ([Quest] + (y + ([Colon] + (z + rest))));
  }

  lemma ConditionalYieldIs(q: Tree, a: Tree, b: Tree)
    ensures Yield(TCond(q, a, b)) == Yield(q) + [Quest] + Yield(a) + [Colon] + Yield(b)
  {
  }

  lemma ConditionalParts(q: Tree, a: Tree, b: Tree, st: Stack, rest: seq<Token>)
    requires Expects(st, TCond(q, a, b), rest)
    ensures Yield(TCond(q, a, b)) + rest == Yield(q) + ([Quest] + (Yield(a) + ([Colon] + (Yield(b) + rest))))
    ensures Expects(st, q, [Quest] + (Yield(a) + ([Colon] + (Yield(b) + rest))))
    ensures PrecedenceAction(Goto(Top(st)), Quest) == Shift(8)
    ensures Level(a) >= ExpMin(Goto(8)) && Level(b) >= ExpMin(Goto(23))
    ensures WellFormed(a) && Follows(a, Colon) && WellFormed(b) && Follows(b, Lookahead(rest))
    ensures TokenLevel(Lookahead(rest)) == 0 && Proper(rest) && OperandState(Top(st))
  {
    hide Linked, Yield, Proper;
    ConditionalSpelling(q, a, b, rest);
  }

  lemma ConditionalNeed(q: Tree, a: Tree, b: Tree)
    ensures 2 <= Max(Need(q), 2) <= Need(TCond(q, a, b))
    ensures 2 + Max(Max(Need(a), 2), 2 + Need(b)) <= Need(TCond(q, a, b))
    ensures Need(TCond(q, a, b)) == Max(Need(q), 2) || Need(TCond(q, a, b)) == 2 + Max(Max(Need(a), 2), 2 + Need(b))
  {
  }

  lemma {:induction false} ConditionalCompletes(limit: nat, q: Tree, a: Tree, b: Tree, st: Stack, rest: seq<Token>,
          res: Tree)
    requires Expects(st, TCond(q, a, b), rest) && Height(st) < limit
    ensures Completes(limit, TCond(q, a, b), st, rest, res)
    decreases TCond(q, a, b), 2
  {
    hide Parse, Valid, Linked, Build, Pop, Step, CanReduce, RuleLength, Edge, WellFormed, Follows, Yield;
    hide Height, Expects, Proper, Level, PrecedenceAction, Goto, ExpMin, TokenLevel, Need, Max;
    ConditionalNeed(q, a, b);
    var t, tail2 := TCond(q, a, b), Yield(b) + rest;
    var tail1 := Yield(a) + ([Colon] + tail2);
    ExpectsIsValid(t, st, rest, res);
    ConditionalParts(q, a, b, st, rest);
    OperandThenToken(limit, q, st, 8, Quest, tail1, res);
    if Height(st) + Max(Need(q), 2) < limit {
      var j := Joined(st, q, 8, Quest);
      assert Lookahead([Colon] + tail2) == Colon;
      JoinedExpects(q, st, 8, Quest, a, [Colon] + tail2, res);
      BranchCompletes(limit, q, a, b, st, rest, res);
    }
  }

  /** Both branches of a conditional whose question mark has been shifted, and its reduction. */
  lemma {:induction false} BranchCompletes(limit: nat, q: Tree, a: Tree, b: Tree, st: Stack, rest: seq<Token>,
          res: Tree)
    requires Expects(Joined(st, q, 8, Quest), a, [Colon] + (Yield(b) + rest)) && Height(Joined(st, q, 8, Quest)) < limit
    requires Proper(rest) && WellFormed(b) && Follows(b, Lookahead(rest)) && TokenLevel(Lookahead(rest)) == 0
    requires OperandState(Top(st)) && Valid(Read(st, TCond(q, a, b), rest, res))
    ensures var j := Joined(st, q, 8, Quest);
      var c, d := Config(j, Yield(a) + ([Colon] + (Yield(b) + rest)), res), Read(st, TCond(q, a, b), rest, res);
      && Valid(c) && Proper(c.pending)
      && Parse(limit, c) == if Height(j) + Max(Max(Need(a), 2), 2 + Need(b)) >= limit then Overflow else Parse(limit, d)
    decreases TCond(q, a, b), 1
  {
    hide Parse, Valid, Linked, Build, Pop, Step, CanReduce, RuleLength, Edge, WellFormed, Follows, Yield;
    hide Proper, Need;
    var j, tail := Joined(st, q, 8, Quest), Yield(b) + rest;
    OperandThenToken(limit, a, j, 23, Colon, tail, res);
    var k := Joined(j, a, 23, Colon);
    JoinedExpects(a, j, 23, Colon, b, rest, res);
    ExpectsIsValid(b, k, rest, res);
    if Height(j) + Max(Need(a), 2) < limit {
      TreeCompletes(limit, b, k, rest, res);
      if Height(k) + Need(b) < limit {
        ReduceConditional(limit, q, a, b, st, rest, res);
      }
    }
  }

  /** From a completed start operand at the end of input the automaton accepts it. */
  lemma EndAccepts(limit: nat, t: Tree)
    requires WellFormed(t) && limit >= 4
    ensures Valid(Read(Base, t, [], TVar)) && Parse(limit, Read(Base, t, [], TVar)) == Accepted(t)
  {
    hide Parse;
    assert PrecedenceAction(5, Eof) == Reduce(1);
    ParseOnce(limit, Read(Base, t, [], TVar));
    StartAccepts(limit, t);
  }

  lemma StartAccepts(limit: nat, t: Tree)
    requires WellFormed(t) && limit >= 4
    ensures var d := Config(Push(Base, 25, Exp(t)), [], t);
      Valid(d) && Parse(limit, d) == Accepted(t)
  {
    hide Parse;
    assert PrecedenceAction(25, Eof) == Shift(26);
    var d := Config(Push(Base, 25, Exp(t)), [], t);
    ParseOnce(limit, d);
    var e := Config(Push(d.stack, 26, Tok(Eof)), [], t);
    assert PrecedenceAction(26, Eof) == Accept;
    ParseOnce(limit, e);
  }

  lemma ParseOnce(limit: nat, c: Config)
    requires Valid(c) && Proper(c.pending) && Height(c.stack) < limit
    ensures 0 <= Top(c.stack) <= 27
    ensures TableAction(Top(c.stack), Symbol(Lookahead(c.pending)))
      == PrecedenceAction(Top(c.stack), Lookahead(c.pending))
    ensures Step(c).Next? ==> Valid(Step(c).c) && Proper(Step(c).c.pending)
    ensures Parse(limit, c) == if Step(c).Next? then Parse(limit, Step(c).c) else Step(c)
  {
    StepAdvances(c);
    StateRange(c.stack);
    TablesEncodePrecedence(Top(c.stack), Lookahead(c.pending));
  }

  lemma TreeIsAccepted(limit: nat, t: Tree)
    requires WellFormed(t) && limit >= 4
    ensures Proper(Yield(t))
    ensures Parse(limit, Start(Yield(t))) == if 1 + Need(t) >= limit then Overflow else Accepted(t)
  {
    hide Parse;
    YieldIsProper(t);
    TreeCompletes(limit, t, Base, [], TVar);
    assert Yield(t) + [] == Yield(t);
    EndAccepts(limit, t);
  }

  /**
   The parser decides the precedence grammar: it accepts t on exactly the token
   sequences that t spells, when t is well-formed and its parse fits the stack;
   and it rejects only sequences that no well-formed tree spells.
   */
  lemma ParserDecidesGrammar(limit: nat, tokens: seq<Token>, t: Tree)
    requires Proper(tokens) && limit >= 4
    ensures Parse(limit, Start(tokens)) == Accepted(t) <==> WellFormed(t) && Yield(t) == tokens && 1 + Need(t) < limit
    ensures Parse(limit, Start(tokens)) == Rejected ==> !(WellFormed(t) && Yield(t) == tokens)
  {
    hide Parse;
    AcceptedTreeSpellsTokens(limit, Start(tokens));
    assert Spelled(Start(tokens)) == tokens;
    if WellFormed(t) && Yield(t) == tokens {
      TreeIsAccepted(limit, t);
    }
  }

  /** The grammar is unambiguous: no two well-formed trees spell the same tokens. */
  lemma GrammarIsUnambiguous(t: Tree, u: Tree)
    requires WellFormed(t) && WellFormed(u) && Yield(t) == Yield(u)
    ensures t == u
  {
    hide Parse;
    var limit := Need(t) + 4;
    TreeIsAccepted(limit, t);
    TreeIsAccepted(limit, u);
  }
}
