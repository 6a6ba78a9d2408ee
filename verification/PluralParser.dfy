/**
 `yyparse`: the goto-driven loop over growing state and value stacks, proved to
 end exactly as the automaton of PluralMachine does.
 */
module PluralParser {
  import opened Options
  import opened PluralSyntax
  import opened PluralTables
  import opened PluralMachine
  import opened PluralCorrectness
  import opened PluralLexer

  const YYINITDEPTH := 200

  /** The semantic value union: what the lexer delivered, or a finished expression. */
  datatype YyStype = Lval(tok: Token) | ExpPtr(exp: Expression)

  /** yychar: YYEMPTY, or the token read ahead. */
  datatype YyChar = Empty | Read(tok: Token)

  function EraseValue(v: Value): YyStype {
    match v
    case Tok(t) => Lval(t)
    case Exp(tree) => ExpPtr(Erase(tree))
  }

  /** The used part of the two arrays holds the stack; value 0 is never initialised. */
  ghost predicate Represents(st: Stack, states: seq<int>, vals: seq<YyStype>) {
    && |states| == |vals| == Height(st)
    && states[|states| - 1] == Top(st)
    && (st.Push? ==>
          && vals[|vals| - 1] == EraseValue(st.val)
          && Represents(st.below, states[..|states| - 1], vals[..|vals| - 1]))
  }

  lemma {:induction false} RepresentsPop(st: Stack, n: nat, states: seq<int>, vals: seq<YyStype>)
    requires Represents(st, states, vals) && n < Height(st)
    ensures Represents(Pop(st, n), states[..|states| - n], vals[..|vals| - n])
    ensures Pop(st, n).Push? ==> vals[|vals| - 1 - n] == EraseValue(Pop(st, n).val)
  {
    if n == 0 {
      assert states[..|states|] == states && vals[..|vals|] == vals;
    } else {
      var s, v := states[..|states| - 1], vals[..|vals| - 1];
      RepresentsPop(st.below, n - 1, s, v);
      assert s[..|s| - (n - 1)] == states[..|states| - n];
      assert v[..|v| - (n - 1)] == vals[..|vals| - n];
    }
  }

  lemma RepresentsPush(st: Stack, s: int, v: Value, states: seq<int>, vals: seq<YyStype>)
    requires Represents(st, states, vals)
    ensures Represents(Push(st, s, v), states + [s], vals + [EraseValue(v)])
  {
    assert (states + [s])[..|states|] == states;
    assert (vals + [EraseValue(v)])[..|vals|] == vals;
  }

  /** The tokens still to be shifted. */
  ghost function Pending(yychar: YyChar, rest: string): seq<Token> {
    match yychar
    case Empty => LexAll(rest)
    case Read(t) => if t == Eof then [] else [t] + LexAll(rest)
  }

  /** yybackup: the action of the current state, reading a token only where the tables ask for one. */
  method Decide(yystate: int, yychar: YyChar, text: string, cp: nat) returns (act: Action, yychar': YyChar, cp': nat)
    requires cp <= |text|
    ensures cp' <= |text|
    ensures Pending(yychar', text[cp'..]) == Pending(yychar, text[cp..])
    ensures act == TableAction(yystate, Symbol(Lookahead(Pending(yychar, text[cp..]))))
    ensures act.Shift? || act.Accept? ==> yychar' == Read(Lookahead(Pending(yychar, text[cp..])))
  {
    hide YyPact, YyDefact, YyTable, YyCheck, Lex, Symbol;
    yychar', cp' := yychar, cp;
    var yyn := YyPact(yystate);
    if yyn == YYFLAG {
      act := DefaultAction(yystate);
      return;
    }
    if yychar'.Empty? {
      var tok;
      tok, cp' := YyLex(text, cp);
      yychar' := Read(tok);
    }
    var yychar1 := Symbol(yychar'.tok);
    yyn := yyn + yychar1;
    if yyn < 0 || yyn > YYLAST || YyCheck(yyn) != yychar1 {
      act := DefaultAction(yystate);
    } else {
      TableIsPositive(yyn);
      yyn := YyTable(yyn);
      // The table has neither negative nor zero entries: no reduction and no error is ever encoded in it.
      assert yyn > 0;
      act := if yyn == YYFINAL then Accept else Shift(yyn);
    }
  }

  /**
   yyerrhandle: pops states until one can shift the error token, which would resume the parse
   in its action. No state can, so recovery pops the whole stack and resumes nothing.
   */
  method Recover(yyss: array<int>, yyssp: nat) returns (resumed: Option<Action>, sp: nat)
    requires yyssp < yyss.Length
    requires forall i :: 0 <= i <= yyssp ==> 0 <= yyss[i] <= 27
    ensures resumed == None && sp == 0
  {
    hide YyPact, YyTable, YyCheck;
    resumed, sp := None, yyssp;
    while true
      invariant sp <= yyssp && resumed == None
      decreases sp
    {
      var yyn := YyPact(yyss[sp]);
      if yyn != YYFLAG {
        yyn := yyn + YYTERROR;
        if 0 <= yyn <= YYLAST && YyCheck(yyn) == YYTERROR {
          TableIsPositive(yyn);
          yyn := YyTable(yyn);
          resumed := Some(if yyn == YYFINAL then Accept else Shift(yyn));
          break;
        }
      }
      if sp == 0 {
        break;
      }
      sp := sp - 1;
    }
    ErrorTokenIsNeverShifted(yyss[sp]);
  }

  /** Doubles the stacks, up to YYMAXDEPTH, keeping their used part. */
  method Relocate(yyss: array<int>, yyvs: array<YyStype>, yysize: nat) returns (ss: array<int>, vs: array<YyStype>)
    requires yysize == yyss.Length == yyvs.Length < YYMAXDEPTH && yysize > 0
    ensures fresh(ss) && fresh(vs)
    ensures ss.Length == vs.Length == (if 2 * yysize > YYMAXDEPTH then YYMAXDEPTH else 2 * yysize)
    ensures ss[..yysize] == yyss[..] && vs[..yysize] == yyvs[..]
  {
    var yystacksize := 2 * yysize;
    if yystacksize > YYMAXDEPTH {
      yystacksize := YYMAXDEPTH;
    }
    ss := new int[yystacksize];
    vs := new YyStype[yystacksize](_ => Lval(Eof));
    for i := 0 to yysize
      invariant ss[..i] == yyss[..i] && vs[..i] == yyvs[..i]
    {
      ss[i] := yyss[i];
      vs[i] := yyvs[i];
    }
  }

  /** The values a semantic action reads are the erased values of the rule's right-hand side. */
  lemma ActionOperands(rule: int, st: Stack, states: seq<int>, vals: seq<YyStype>)
    requires Represents(st, states, vals) && CanReduce(rule, st)
    ensures |vals| > RuleLength(rule)
    ensures vals[|vals| - 1] == EraseValue(st.val)
    ensures st.below.Push? ==> |vals| > 2 && vals[|vals| - 2] == EraseValue(st.below.val)
    ensures st.below.Push? && st.below.below.Push? ==> |vals| > 3 && vals[|vals| - 3] == EraseValue(st.below.below.val)
    ensures rule == 2 ==> vals[|vals| - 5] == EraseValue(st.below.below.below.below.val)
  {
    PopTwoThreeFive(st);
    if st.below.Push? {
      RepresentsPop(st, 1, states, vals);
      if st.below.below.Push? {
        HeightOfThree(st);
        RepresentsPop(st, 2, states, vals);
        if rule == 2 {
          assert Height(st.below.below.below) == Height(st.below.below.below.below) + 1;
          assert Pop(st, 4) == Pop(st.below, 3) == Pop(st.below.below, 2) == Pop(st.below.below.below, 1)
            == st.below.below.below.below;
          RepresentsPop(st, 4, states, vals);
        }
      }
    }
  }

  /** The switch over rules: what the action leaves in yyval. */
  method SemanticAction(rule: int, yyvs: array<YyStype>, yyvsp: int, ghost st: Stack, ghost states: seq<int>)
    returns (yyval: Expression)
    requires 0 <= yyvsp < yyvs.Length
    requires Represents(st, states, yyvs[..yyvsp + 1]) && CanReduce(rule, st)
    ensures yyval == Erase(Build(rule, st))
  {
    hide Represents;
    ActionOperands(rule, st, states, yyvs[..yyvsp + 1]);
    match rule {
      case 1 => yyval := yyvs[yyvsp].exp;
      case 2 => yyval := Qmop(yyvs[yyvsp - 4].exp, yyvs[yyvsp - 2].exp, yyvs[yyvsp].exp);
      case 3 => yyval := Binary(Lor, yyvs[yyvsp - 2].exp, yyvs[yyvsp].exp);
      case 4 => yyval := Binary(Land, yyvs[yyvsp - 2].exp, yyvs[yyvsp].exp);
      case 9 => yyval := Lnot(yyvs[yyvsp].exp);
      case 10 => yyval := Var;
      case 11 => yyval := Num(yyvs[yyvsp].tok.num);
      case 12 => yyval := yyvs[yyvsp - 1].exp;
      case _ => yyval := Binary(yyvs[yyvsp - 1].tok.op, yyvs[yyvsp - 2].exp, yyvs[yyvsp].exp);
    }
  }

  lemma TableIsPositive(i: int)
    ensures YyTable(i) > 0
  {
  }

  /** What `yyparse` returns for the outcome of the automaton. */
  ghost predicate Returns(o: Outcome, result: nat, res: Expression) {
    match o
    case Accepted(t) => result == 0 && res == Erase(t)
    case Rejected => result == 1
    case Overflow => result == 2
    case Next(_) => false
  }

  /** The configuration c in terms of the variables of `yyparse`, before the new state is stored. */
  ghost predicate Tracks(c: Config, states: seq<int>, vals: seq<YyStype>, pending: seq<Token>, res: Expression) {
    && Valid(c) && Proper(c.pending) && c.pending == pending
    && Represents(c.stack, states, vals)
    && (Top(c.stack) >= 25 ==> res == Erase(c.res))
  }

  lemma {:induction false} StatesInRange(st: Stack, states: seq<int>, vals: seq<YyStype>, i: nat)
    requires Linked(st) && Represents(st, states, vals) && i < |states|
    ensures 0 <= states[i] <= 27
  {
    StateRange(st);
    if i < |states| - 1 {
      StatesInRange(st.below, states[..|states| - 1], vals[..|vals| - 1], i);
    }
  }

  lemma AllStatesInRange(c: Config, states: seq<int>, vals: seq<YyStype>, pending: seq<Token>, res: Expression)
    requires Tracks(c, states, vals, pending, res)
    ensures forall i :: 0 <= i < |states| ==> 0 <= states[i] <= 27
  {
    forall i | 0 <= i < |states| ensures 0 <= states[i] <= 27 {
      StatesInRange(c.stack, states, vals, i);
    }
  }

  /** d is the next configuration of the run through c. */
  ghost predicate Goes(c: Config, d: Config) {
    && Valid(c) && Proper(c.pending) && Step(c) == Next(d)
    && Valid(d) && Proper(d.pending) && Progress(c, d) && Parse(YYMAXDEPTH, c) == Parse(YYMAXDEPTH, d)
  }

  lemma ShiftGoes(c: Config, s: int)
    requires Valid(c) && Proper(c.pending) && Height(c.stack) < YYMAXDEPTH
    requires TableAction(Top(c.stack), Symbol(Lookahead(c.pending))) == Shift(s)
    ensures Goes(c,
      Config(Push(c.stack, s, Tok(Lookahead(c.pending))), if c.pending == [] then [] else c.pending[1..], c.res))
    ensures s >= 25 ==> Top(c.stack) >= 25
  {
    hide Parse, Linked, Progress;
    ParseOnce(YYMAXDEPTH, c);
    StepAdvances(c);
  }

  lemma ReduceGoes(c: Config, rule: int)
    requires Valid(c) && Proper(c.pending) && Height(c.stack) < YYMAXDEPTH
    requires TableAction(Top(c.stack), Symbol(Lookahead(c.pending))) == Reduce(rule)
    ensures CanReduce(rule, c.stack) && Height(c.stack) > RuleLength(rule)
    ensures var below, tree := Pop(c.stack, RuleLength(rule)), Build(rule, c.stack);
      var s := if rule == 1 then 25 else GotoExp(Top(below));
      Goes(c, Config(Push(below, s, Exp(tree)), c.pending, if rule == 1 then tree else c.res))
  {
    hide Parse, Linked, Progress;
    ParseOnce(YYMAXDEPTH, c);
    StepAdvances(c);
    ReduceShape(c, rule);
    EnoughForRule(rule, c.stack);
  }

  lemma EnoughForRule(rule: int, st: Stack)
    requires CanReduce(rule, st)
    ensures Height(st) > RuleLength(rule)
  {
    if st.below.Push? {
      if st.below.below.Push? {
        HeightOfThree(st);
        if rule == 2 {
          HeightOfThree(st.below.below.below);
        }
      }
    }
  }

  /** Shifts the lookahead: pushes its semantic value and discards it, unless it is the end of input. */
  method DoShift(s: int, yychar: YyChar, yyvs: array<YyStype>, yyssp: nat, ghost c: Config, ghost states: seq<int>,
          ghost pending: seq<Token>, ghost rest: string, res: Expression)
    returns (yychar': YyChar, ghost d: Config)
    requires yyssp + 1 < yyvs.Length && Tracks(c, states, yyvs[..yyssp + 1], pending, res)
    requires Height(c.stack) < YYMAXDEPTH && pending == Pending(yychar, rest) && yychar == Read(Lookahead(pending))
    requires TableAction(Top(c.stack), Symbol(Lookahead(pending))) == Shift(s)
    modifies yyvs
    ensures Goes(c, d) && Tracks(d, states + [s], yyvs[..yyssp + 2], Pending(yychar', rest), res)
  {
    hide Parse, Valid, Linked, Represents, TableAction, Symbol, Progress, LexAll, Step;
    var la := Lookahead(pending);
    ShiftGoes(c, s);
    d := Config(Push(c.stack, s, Tok(la)), if pending == [] then [] else pending[1..], c.res);
    ghost var vals := yyvs[..yyssp + 1];
    RepresentsPush(c.stack, s, Tok(la), states, vals);
    yyvs[yyssp + 1] := Lval(yychar.tok);
    assert yyvs[..yyssp + 2] == vals + [Lval(la)];
    yychar' := if yychar.tok != Eof then Empty else yychar;
  }

  /** Reduces by a rule: runs its action, pops its right-hand side and pushes the result. */
  method DoReduce(rule: int, yyss: array<int>, yyvs: array<YyStype>, yyssp: nat, ghost c: Config, res: Expression)
    returns (yyssp': nat, yystate: int, res': Expression, ghost d: Config)
    requires yyssp < yyss.Length == yyvs.Length
    requires Tracks(c, yyss[..yyssp + 1], yyvs[..yyssp + 1], c.pending, res) && Height(c.stack) < YYMAXDEPTH
    requires TableAction(Top(c.stack), Symbol(Lookahead(c.pending))) == Reduce(rule)
    modifies yyvs
    ensures yyssp' <= yyssp && Goes(c, d) && d.pending == c.pending
    ensures Tracks(d, yyss[..yyssp'] + [yystate], yyvs[..yyssp' + 1], d.pending, res')
  {
    hide Parse, Valid, Linked, Represents, TableAction, Symbol, Progress, Step, CanReduce, RuleLength, Build, Pop;
    ghost var states, vals, n := yyss[..yyssp + 1], yyvs[..yyssp + 1], RuleLength(rule);
    TrackedHeight(c, states, vals, c.pending, res);
    ReduceGoes(c, rule);
    RepresentsPop(c.stack, n, states, vals);
    ghost var below, tree := Pop(c.stack, n), Build(rule, c.stack);
    RepresentsTop(below, states[..|states| - n], vals[..|vals| - n]);

    var yylen := RuleLength(rule);
    var yyval := SemanticAction(rule, yyvs, yyssp, c.stack, states);
    res' := if rule == 1 then yyval else res;
    yyssp' := yyssp - yylen;
    yyvs[yyssp' + 1] := ExpPtr(yyval);
    yystate := if rule == 1 then 25 else GotoExp(yyss[yyssp']);
    yyssp' := yyssp' + 1;

    d := Config(Push(below, yystate, Exp(tree)), c.pending, if rule == 1 then tree else c.res);
    RepresentsPush(below, yystate, Exp(tree), states[..|states| - n], vals[..|vals| - n]);
    assert yyss[..yyssp'] == states[..|states| - n];
    assert yyvs[..yyssp' + 1] == vals[..|vals| - n] + [ExpPtr(yyval)];
  }

  lemma RepresentsTop(st: Stack, states: seq<int>, vals: seq<YyStype>)
    requires Represents(st, states, vals)
    ensures |states| == |vals| == Height(st) && states[|states| - 1] == Top(st)
  {
  }

  /** The overflow check of yysetstate: afterwards there is room for one more state, unless the limit is reached. */
  method MakeRoom(yyss: array<int>, yyvs: array<YyStype>, yyssp: nat)
    returns (room: bool, ss: array<int>, vs: array<YyStype>)
    requires yyssp < yyss.Length == yyvs.Length <= YYMAXDEPTH
    ensures room <==> yyssp + 1 < YYMAXDEPTH
    ensures room ==> yyssp + 1 < ss.Length == vs.Length <= YYMAXDEPTH
    ensures room ==> ss[..yyssp + 1] == yyss[..yyssp + 1] && vs[..yyssp + 1] == yyvs[..yyssp + 1]
    ensures (ss == yyss && vs == yyvs) || (fresh(ss) && fresh(vs))
  {
    room, ss, vs := true, yyss, yyvs;
    if yyssp >= yyss.Length - 1 {
      if yyss.Length >= YYMAXDEPTH {
        return false, yyss, yyvs;
      }
      ss, vs := Relocate(yyss, yyvs, yyss.Length);
      assert ss[..yyssp + 1] == yyss[..yyssp + 1] && vs[..yyssp + 1] == yyvs[..yyssp + 1];
    }
  }

  method YyParse(text: string) returns (result: nat, res: Expression)
    ensures Returns(Parse(YYMAXDEPTH, Start(LexAll(text))), result, res)
  {
    hide Parse, Valid, Linked, Represents, TableAction, Symbol, Progress, Phase, Potential, Step, LexAll;
    hide Tracks, Goes, Height, Erase, Pending, Top;
    var yyss := new int[YYINITDEPTH];
    var yyvs := new YyStype[YYINITDEPTH](_ => Lval(Eof));
    var yyssp: nat, cp: nat, yystate := 0, 0, 0;
    var yychar := Empty;
    res := Var;
    ghost var c := Start(LexAll(text));
    assert text[0..] == text;
    InitialTracks(text, yyvs[..1]);
    assert yyss[..0] + [0] == [0];
    while true
      invariant yyssp < yyss.Length == yyvs.Length <= YYMAXDEPTH
      invariant cp <= |text| && fresh(yyss) && fresh(yyvs)
      invariant Tracks(c, yyss[..yyssp] + [yystate], yyvs[..yyssp + 1], Pending(yychar, text[cp..]), res)
      invariant Valid(c) && Proper(c.pending) && Parse(YYMAXDEPTH, c) == Parse(YYMAXDEPTH, Start(LexAll(text)))
      decreases Phase(c), Potential(c)
    {
      // yysetstate
      yyss[yyssp] := yystate;
      assert yyss[..yyssp + 1] == yyss[..yyssp] + [yystate];
      TrackedHeight(c, yyss[..yyssp + 1], yyvs[..yyssp + 1], Pending(yychar, text[cp..]), res);
      var room;
      room, yyss, yyvs := MakeRoom(yyss, yyvs, yyssp);
      if !room {
        ParseOverflow(YYMAXDEPTH, c);
        return 2, res;
      }
      ghost var states, pending := yyss[..yyssp + 1], Pending(yychar, text[cp..]);
      var act;
      ghost var d;
      act, yychar, cp := Decide(yystate, yychar, text, cp);
      match act
      case Accept =>
        StepEnds(c, act);
        return 0, res;
      case Error =>
        StepEnds(c, act);
        AllStatesInRange(c, states, yyvs[..yyssp + 1], pending, res);
        assert forall i :: 0 <= i <= yyssp ==> states[i] == yyss[i];
        var resumed, _ := Recover(yyss, yyssp);
        assert resumed == None;
        return 1, res;
      case Shift(s) =>
        yychar, d := DoShift(s, yychar, yyvs, yyssp, c, states, pending, text[cp..], res);
        yyssp, yystate := yyssp + 1, s;
        assert yyss[..yyssp] == states;
        GoesDown(c, d);
        c := d;
      case Reduce(rule) =>
        yyssp, yystate, res, d := DoReduce(rule, yyss, yyvs, yyssp, c, res);
        GoesDown(c, d);
        c := d;
    }
  }

  lemma GoesDown(c: Config, d: Config)
    requires Goes(c, d)
    ensures Valid(d) && Proper(d.pending) && Parse(YYMAXDEPTH, c) == Parse(YYMAXDEPTH, d)
    ensures Phase(d) < Phase(c) || (Phase(d) == Phase(c) && Potential(d) < Potential(c))
  {
  }

  lemma InitialTracks(text: string, vals: seq<YyStype>)
    requires |vals| == 1
    ensures Tracks(Start(LexAll(text)), [0], vals, Pending(Empty, text), Var)
    ensures Valid(Start(LexAll(text)))
  {
  }

  lemma TrackedHeight(c: Config, states: seq<int>, vals: seq<YyStype>, pending: seq<Token>, res: Expression)
    requires Tracks(c, states, vals, pending, res)
    ensures Height(c.stack) == |states| == |vals| && states[|states| - 1] == Top(c.stack)
    ensures Valid(c) && Proper(c.pending) && c.pending == pending
    ensures Top(c.stack) == 26 ==> res == Erase(c.res)
  {
  }

  lemma StepEnds(c: Config, act: Action)
    requires Valid(c) && Proper(c.pending) && Height(c.stack) < YYMAXDEPTH
    requires act == TableAction(Top(c.stack), Symbol(Lookahead(c.pending)))
    ensures act == Error ==> Parse(YYMAXDEPTH, c) == Rejected
    ensures act == Accept ==> Parse(YYMAXDEPTH, c) == Accepted(c.res) && Top(c.stack) == 26
  {
    ParseOnce(YYMAXDEPTH, c);
  }
}
