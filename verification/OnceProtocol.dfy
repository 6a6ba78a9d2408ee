/**
 `glthread_once`: any number of threads race through a counter, a flag and a
 lock; the initialisation runs once and nobody passes before it has finished.
 */
module OnceProtocol {

  import opened Options
  import opened Threads

  /** The code a caller is about to execute. */
  datatype Pc =
    | Enter       // test inited <= 0
    | Count       // InterlockedIncrement (&started)
    | MakeLock    // first caller: InitializeCriticalSection
    | LockFirst   // first caller: EnterCriticalSection
    | SetBusy     // first caller: inited = 0
    | Call        // first caller: initfunction () starts
    | Running     // first caller: initfunction () returns
    | SetDone     // first caller: inited = 1
    | Unlock      // first caller: LeaveCriticalSection
    | Undo        // InterlockedDecrement (&started)
    | Spin        // while (inited < 0) Sleep (0)
    | TestAgain   // test inited <= 0 once more
    | LockWait    // EnterCriticalSection
    | UnlockWait  // LeaveCriticalSection
    | Check       // abort unless inited > 0
    | Done        // returned
    | Aborted

  /**
   gl_once_t: `made` says whether the critical section has been initialised, `owner` who is inside;
   `calls` and `finished` count runs of the init function.
   */
  datatype Once = Once(inited: int, started: int, made: bool, owner: Option<Thread>, calls: nat, finished: nat,
          pc: map<Thread, Pc>)

  function Goto(s: Once, t: Thread, p: Pc): Once { s.(pc := s.pc[t := p]) }

  /**
   One step of caller t. Entering a critical section before it is initialised would be an error; it is
   modelled as Aborted.
   */
  ghost predicate Step(s: Once, s': Once, t: Thread)
    requires t in s.pc
  {
    match s.pc[t]
    case Enter => s' == Goto(s, t, if s.inited <= 0 then Count else Done)
    case Count => s' == Goto(s, t, if s.started + 1 == 0 then MakeLock else Undo).(started := s.started + 1)
    case MakeLock => s' == Goto(s, t, LockFirst).(made := true)
    case LockFirst =>
      if !s.made then s' == Goto(s, t, Aborted)
      else s.owner.None? && s' == Goto(s, t, SetBusy).(owner := Some(t))
    case SetBusy => s' == Goto(s, t, Call).(inited := 0)
    case Call => s' == Goto(s, t, Running).(calls := s.calls + 1)
    case Running => s' == Goto(s, t, SetDone).(finished := s.finished + 1)
    case SetDone => s' == Goto(s, t, Unlock).(inited := 1)
    case Unlock => s' == Goto(s, t, Done).(owner := None)
    case Undo => s' == Goto(s, t, Spin).(started := s.started - 1)
    case Spin => s' == Goto(s, t, if s.inited < 0 then Spin else TestAgain)
    case TestAgain => s' == Goto(s, t, if s.inited <= 0 then LockWait else Done)
    case LockWait =>
      if !s.made then s' == Goto(s, t, Aborted)
      else s.owner.None? && s' == Goto(s, t, UnlockWait).(owner := Some(t))
    case UnlockWait => s' == Goto(s, t, Check).(owner := None)
    case Check => s' == Goto(s, t, if s.inited > 0 then Done else Aborted)
    case Done => false
    case Aborted => false
  }

  ghost predicate Init(s: Once) {
    && s.inited == -1 && s.started == -1 && !s.made && s.owner == None && s.calls == 0 && s.finished == 0
    && forall t :: t in s.pc ==> s.pc[t] == Enter
  }

  predicate IsFirst(p: Pc) {
    p.MakeLock? || p.LockFirst? || p.SetBusy? || p.Call? || p.Running? || p.SetDone? || p.Unlock?
  }

  predicate InsideFirst(p: Pc) { p.SetBusy? || p.Call? || p.Running? || p.SetDone? || p.Unlock? }

  /** How far the first caller has come; 0 before anybody counted, 8 after it left. */
  function Progress(p: Pc): nat {
    match p
    case MakeLock => 1
    case LockFirst => 2
    case SetBusy => 3
    case Call => 4
    case Running => 5
    case SetDone => 6
    case Unlock => 7
    case _ => 0
  }

  /** The threads whose increment of started is not undone yet. */
  function Undoing(s: Once): set<Thread> {
    set t | t in s.pc && s.pc[t] == Undo
  }

  /** The state of the shared variables is that of stage n of the first caller. */
  ghost predicate Stage(s: Once, n: nat) {
    && s.inited == (if n <= 3 then -1 else if n <= 6 then 0 else 1)
    && s.made == (n >= 2)
    && s.calls == (if n >= 5 then 1 else 0)
    && s.finished == (if n >= 6 then 1 else 0)
    && s.started == (if n == 0 then -1 else 0) + |Undoing(s)|
    && (n == 0 ==> Undoing(s) == {})
  }

  /** What a caller other than the first may rely on at its place. */
  ghost predicate CallerInv(s: Once, t: Thread, n: nat)
    requires t in s.pc
  {
    match s.pc[t]
    case Undo => n >= 1
    case Spin => n >= 1
    case TestAgain => n >= 4
    case LockWait => n >= 4
    case UnlockWait => n == 8 && s.owner == Some(t)
    case Check => n == 8
    case Done => n >= 7
    case Aborted => false
    case _ => true
  }

  /** first is the caller that found started at -1, and n its stage. */
  ghost predicate InvAt(s: Once, first: Option<Thread>, n: nat) {
    && n <= 8 && Stage(s, n)
    && (forall t :: t in s.pc ==> CallerInv(s, t, n))
    && (forall t :: t in s.pc && IsFirst(s.pc[t]) ==> first == Some(t))
    && (1 <= n <= 7 ==> first.Some? && first.value in s.pc && Progress(s.pc[first.value]) == n)
    && (n == 0 ==> first == None)
    && (3 <= n <= 7 ==> s.owner == first)
    && (n == 8 ==> first.Some? && first.value in s.pc && s.pc[first.value] == Done)
    && (s.owner.Some? ==>
      n >= 3 && s.owner.value in s.pc && (InsideFirst(s.pc[s.owner.value]) || s.pc[s.owner.value] == UnlockWait))
  }

  ghost predicate Inv(s: Once) {
    exists first, n :: InvAt(s, first, n)
  }

  lemma UndoingMoves(s: Once, t: Thread, p: Pc)
    requires t in s.pc
    ensures |Undoing(Goto(s, t, p))| == |Undoing(s)| + (if p == Undo then 1 else 0) - (if s.pc[t] == Undo then 1 else 0)
    ensures t in Undoing(s) <==> s.pc[t] == Undo
  {
    var a, b := Undoing(s), Undoing(Goto(s, t, p));
    assert b == if p == Undo then a + {t} else a - {t};
  }

  /** A step of the first caller moves the protocol to its next stage. */
  lemma FirstAdvances(s: Once, s': Once, t: Thread, n: nat)
    requires t in s.pc && IsFirst(s.pc[t]) && Step(s, s', t) && InvAt(s, Some(t), n)
    ensures InvAt(s', Some(t), n + 1)
  {
    hide Undoing;
    UndoingMoves(s, t, s'.pc[t]);
    UndoingByPlace(s', Goto(s, t, s'.pc[t]));
    assert Progress(s.pc[t]) == n;
  }

  lemma UndoingByPlace(s: Once, s': Once)
    requires s.pc == s'.pc
    ensures Undoing(s) == Undoing(s')
  {
  }

  lemma FirstStarts(s: Once, s': Once, t: Thread, first: Option<Thread>, n: nat)
    requires t in s.pc && s.pc[t] == Count && s.started == -1 && Step(s, s', t) && InvAt(s, first, n)
    ensures InvAt(s', Some(t), 1)
  {
    UndoingMoves(s, t, MakeLock);
    UndoingByPlace(s', Goto(s, t, MakeLock));
    hide Undoing;
  }

  /** A caller that counts and finds it is not the first. */
  lemma CountMoves(s: Once, s': Once, t: Thread, first: Option<Thread>, n: nat)
    requires t in s.pc && Step(s, s', t) && InvAt(s, first, n)
    requires s.pc[t] == Count && s.started != -1
    ensures InvAt(s', first, n)
  {
    assert s'.pc[t] == Undo && s' == Goto(s, t, Undo).(started := s.started + 1);
    UndoingMoves(s, t, Undo);
    UndoingByPlace(s', Goto(s, t, Undo));
    hide Undoing, Step;
  }

  lemma UndoMoves(s: Once, s': Once, t: Thread, first: Option<Thread>, n: nat)
    requires t in s.pc && Step(s, s', t) && InvAt(s, first, n)
    requires s.pc[t] == Undo
    ensures InvAt(s', first, n)
  {
    assert s'.pc[t] == Spin && s' == Goto(s, t, Spin).(started := s.started - 1);
    UndoingMoves(s, t, Spin);
    UndoingByPlace(s', Goto(s, t, Spin));
    assert CallerInv(s, t, n) && t in Undoing(s);
    hide Undoing, Step;
    assert Stage(s', n);
  }

  /** A caller that only tests the flag moves to a place it may be at. */
  lemma OnlyMoves(s: Once, t: Thread, p: Pc, first: Option<Thread>, n: nat)
    requires t in s.pc && InvAt(s, first, n) && !IsFirst(p) && p != Undo && CallerInv(Goto(s, t, p), t, n)
    requires s.pc[t] == Enter || s.pc[t] == Spin || s.pc[t] == TestAgain || s.pc[t] == Check
    ensures InvAt(Goto(s, t, p), first, n)
  {
    UndoingMoves(s, t, p);
    hide Undoing;
  }

  lemma TesterMoves(s: Once, s': Once, t: Thread, first: Option<Thread>, n: nat)
    requires t in s.pc && Step(s, s', t) && InvAt(s, first, n)
    requires s.pc[t] == Enter || s.pc[t] == Spin || s.pc[t] == TestAgain || s.pc[t] == Check
    ensures InvAt(s', first, n)
  {
    assert CallerInv(s, t, n) && Stage(s, n);
    hide InvAt;
    OnlyMoves(s, t, s'.pc[t], first, n);
  }

  lemma LockerMoves(s: Once, s': Once, t: Thread, first: Option<Thread>, n: nat)
    requires t in s.pc && Step(s, s', t) && InvAt(s, first, n)
    requires s.pc[t] == LockWait || s.pc[t] == UnlockWait
    ensures InvAt(s', first, n)
  {
    UndoingMoves(s, t, s'.pc[t]);
    assert Undoing(s') == Undoing(Goto(s, t, s'.pc[t]));
    assert CallerInv(s, t, n);
    hide Undoing;
  }

  lemma StepKeepsInv(s: Once, s': Once, t: Thread)
    requires t in s.pc && Step(s, s', t) && Inv(s)
    ensures Inv(s')
  {
    var first, n :| InvAt(s, first, n);
    if IsFirst(s.pc[t]) {
      assert first == Some(t);
      FirstAdvances(s, s', t, n);
    } else if s.pc[t] == Count && s.started == -1 {
      FirstStarts(s, s', t, first, n);
    } else if s.pc[t] == Count {
      CountMoves(s, s', t, first, n);
    } else if s.pc[t] == Undo {
      UndoMoves(s, s', t, first, n);
    } else if s.pc[t] == LockWait || s.pc[t] == UnlockWait {
      LockerMoves(s, s', t, first, n);
    } else {
      TesterMoves(s, s', t, first, n);
    }
  }

  ghost predicate Moves(s: Once, s': Once) {
    exists t: Thread :: t in s.pc && Step(s, s', t)
  }

  ghost predicate Run(r: seq<Once>) {
    r != [] && Init(r[0]) && forall i :: 0 < i < |r| ==> Moves(r[i - 1], r[i])
  }

  lemma {:induction false} RunKeepsInv(r: seq<Once>, i: nat)
    requires Run(r) && i < |r|
    ensures Inv(r[i])
  {
    if i == 0 {
      assert InvAt(r[0], None, 0);
    } else {
      RunKeepsInv(r, i - 1);
      assert Moves(r[i - 1], r[i]);
      var t: Thread :| t in r[i - 1].pc && Step(r[i - 1], r[i], t);
      StepKeepsInv(r[i - 1], r[i], t);
    }
  }

  /**
   Whatever the interleaving: the init function is called at most once; when any
   caller has returned it has been called and has finished; once somebody has
   counted, started is never -1 again; and no caller aborts.
   */
  lemma OnceOnly(r: seq<Once>, i: nat, t: Thread)
    requires Run(r) && i < |r| && t in r[i].pc
    ensures r[i].finished <= r[i].calls <= 1
    ensures r[i].pc[t] == Done ==> r[i].calls == r[i].finished == 1
    ensures r[i].pc[t] != Enter && r[i].pc[t] != Count ==> r[i].started >= 0
    ensures r[i].pc[t] != Aborted
  {
    RunKeepsInv(r, i);
    var first, n :| InvAt(r[i], first, n);
    assert CallerInv(r[i], t, n);
  }

  lemma StepKeepsStarted(s: Once, s': Once, t: Thread)
    requires t in s.pc && Step(s, s', t) && Inv(s) && s.started >= 0
    ensures s'.started >= 0
  {
    var first, n :| InvAt(s, first, n);
    if s.pc[t] == Undo {
      assert CallerInv(s, t, n);
      UndoingMoves(s, t, Spin);
      assert t in Undoing(s);
    }
  }

  /** Stages only go forward, so started stays non-negative once it is. */
  lemma {:induction false} StartedStays(r: seq<Once>, i: nat, j: nat)
    requires Run(r) && i <= j < |r| && r[i].started >= 0
    ensures r[j].started >= 0
  {
    hide Inv, Step, Init;
    if i < j {
      StartedStays(r, i, j - 1);
      RunKeepsInv(r, j - 1);
      assert Moves(r[j - 1], r[j]);
      var t: Thread :| t in r[j - 1].pc && Step(r[j - 1], r[j], t);
      StepKeepsStarted(r[j - 1], r[j], t);
    }
  }
}
