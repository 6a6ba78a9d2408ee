/**
 The message queue shared by any number of threads: its mutex and condition
 variable, as interleaved steps. What the ring does inside the mutex is the
 sequence operation that MessageQueue proves of it.
 */
module QueueProtocol {

  import opened Options
  import opened Threads

  type Payload = seq<bv8>

  /** Where a thread is. The comments name the code it is about to execute. */
  datatype Pc =
    | Idle                   // outside the queue's functions
    | PushIn(item: Payload)  // push, mutex held: element to be inserted
    | PushSignal             // push, mutex held: inserted, the condition to be signalled
    | PushOut                // push, mutex held: signalled
    | PopTest                // pop, mutex held: the loop condition
    | PopSleep               // pop: in pthread_cond_wait
    | PopWoken               // pop: out of the wait, taking the mutex again
    | PopOut                 // pop, mutex held: the oldest element taken

  /** The queue from the oldest element, and what has been pushed and popped so far. */
  datatype Shared = Shared(owner: Option<Thread>, items: seq<Payload>, pushed: seq<Payload>, popped: seq<Payload>,
          pc: map<Thread, Pc>)

  predicate HoldsMutex(p: Pc) { p.PushIn? || p.PushSignal? || p.PushOut? || p.PopTest? || p.PopOut? }

  predicate Sleeps(p: Pc) { p.PopSleep? }

  predicate IsWoken(p: Pc) { p.PopWoken? }

  function Goto(s: Shared, t: Thread, p: Pc): Shared { s.(pc := s.pc[t := p]) }

  function Take(s: Shared, t: Thread, p: Pc): Shared { Goto(s, t, p).(owner := Some(t)) }

  function Release(s: Shared, t: Thread, p: Pc): Shared { Goto(s, t, p).(owner := None) }

  function Wake(pc: map<Thread, Pc>, w: set<Thread>): map<Thread, Pc> {
    map t | t in pc :: if t in w then PopWoken else pc[t]
  }

  /**
   One step of thread t; `woken` are the threads a notification reaches. A
   thread outside may also broadcast, as a flush does without the mutex, and a
   sleeper may wake up on its own.
   */
  ghost predicate Step(s: Shared, s': Shared, t: Thread, woken: set<Thread>)
    requires t in s.pc
  {
    match s.pc[t]
    case Idle =>
      || (s.owner.None? && s' == Take(s, t, PopTest))
      || (s.owner.None? && exists item :: s' == Take(s, t, PushIn(item)))
      || s' == s.(pc := Wake(s.pc, At(s.pc, Sleeps)))
    case PushIn(item) => s' == Goto(s, t, PushSignal).(items := s.items + [item], pushed := s.pushed + [item])
    case PushSignal =>
      var sleepers := At(s.pc, Sleeps);
      woken <= sleepers && (sleepers != {} ==> woken != {}) && s' == Goto(s.(pc := Wake(s.pc, woken)), t, PushOut)
    case PushOut => s' == Release(s, t, Idle)
    case PopTest =>
      if s.items == [] then s' == Release(s, t, PopSleep)
      else s' == Goto(s, t, PopOut).(items := s.items[1..], popped := s.popped + [s.items[0]])
    case PopSleep => s' == Goto(s, t, PopWoken)
    case PopWoken => s.owner.None? && s' == Take(s, t, PopTest)
    case PopOut => s' == Release(s, t, Idle)
  }

  ghost predicate Init(s: Shared) {
    s.owner == None && s.items == s.pushed == s.popped == [] && forall t :: t in s.pc ==> s.pc[t] == Idle
  }

  ghost predicate MutexInv(s: Shared) {
    && (s.owner.Some? ==> s.owner.value in s.pc && HoldsMutex(s.pc[s.owner.value]))
    && (forall t :: t in s.pc && HoldsMutex(s.pc[t]) ==> s.owner == Some(t))
  }

  /** First in, first out. */
  predicate FifoInv(s: Shared) {
    s.pushed == s.popped + s.items
  }

  /** The mutex holder that is about to signal, or to take an element if there is one. */
  predicate Settles(p: Pc) { p.PushSignal? || p.PopTest? }

  function Settling(s: Shared): nat {
    if s.owner.Some? && s.owner.value in s.pc && Settles(s.pc[s.owner.value]) then 1 else 0
  }

  /** While anybody sleeps, every element has a woken consumer to come for it. */
  ghost predicate WakeInv(s: Shared) {
    Anyone(s.pc, Sleeps) ==> |s.items| <= |At(s.pc, IsWoken)| + Settling(s)
  }

  ghost predicate Inv(s: Shared) { MutexInv(s) && FifoInv(s) && WakeInv(s) }

  lemma StepKeepsFifo(s: Shared, s': Shared, t: Thread, woken: set<Thread>)
    requires t in s.pc && Step(s, s', t, woken) && FifoInv(s)
    ensures FifoInv(s')
  {
    if s.pc[t].PopTest? && s.items != [] {
      assert s.items == [s.items[0]] + s.items[1..];
    }
  }

  /** A thread that moves takes, keeps or gives back the mutex according to its place. */
  lemma MovedMutex(s: Shared, s': Shared, t: Thread, p: Pc)
    requires MutexInv(s) && t in s.pc && s'.pc == s.pc[t := p]
    requires HoldsMutex(p) ==> (s.owner == None || HoldsMutex(s.pc[t])) && s'.owner == Some(t)
    requires !HoldsMutex(p) ==> s'.owner == if HoldsMutex(s.pc[t]) then None else s.owner
    ensures MutexInv(s')
  {
  }

  lemma WokenMutex(s: Shared, w: set<Thread>)
    requires MutexInv(s) && w <= At(s.pc, Sleeps)
    ensures MutexInv(s.(pc := Wake(s.pc, w)))
  {
  }

  lemma StepKeepsMutex(s: Shared, s': Shared, t: Thread, woken: set<Thread>)
    requires t in s.pc && Step(s, s', t, woken) && MutexInv(s)
    ensures MutexInv(s')
  {
    if s.pc[t].PushSignal? {
      WokenMutex(s, woken);
      MovedMutex(s.(pc := Wake(s.pc, woken)), s', t, PushOut);
    } else if s.pc[t].Idle? && s' == s.(pc := Wake(s.pc, At(s.pc, Sleeps))) {
      WokenMutex(s, At(s.pc, Sleeps));
    } else {
      MovedMutex(s, s', t, s'.pc[t]);
    }
  }

  /** Waking threads moves them from the sleepers to the woken. */
  lemma WakeCounts(pc: map<Thread, Pc>, w: set<Thread>)
    requires w <= At(pc, Sleeps)
    ensures At(Wake(pc, w), IsWoken) == At(pc, IsWoken) + w && |At(Wake(pc, w), IsWoken)| == |At(pc, IsWoken)| + |w|
    ensures At(Wake(pc, w), Sleeps) == At(pc, Sleeps) - w
  {
    assert At(Wake(pc, w), IsWoken) == At(pc, IsWoken) + w;
    assert At(pc, IsWoken) !! w;
  }

  /** A thread that moves, with the mutex or without. */
  lemma MovedWake(s: Shared, s': Shared, t: Thread, p: Pc)
    requires MutexInv(s) && MutexInv(s') && WakeInv(s) && t in s.pc && s'.pc == s.pc[t := p]
    requires p.PopSleep? ==> s'.items == []
    requires s'.items == [] || |s'.items| <= |s.items| + (if Settles(p) then 1 else 0) + (if IsWoken(p) then 1 else 0)
      - (if Settles(s.pc[t]) then 1 else 0) - (if IsWoken(s.pc[t]) then 1 else 0)
    ensures WakeInv(s')
  {
    Moved(s.pc, t, p, IsWoken);
    MovedAnyone(s.pc, t, p, Sleeps);
    MovedSettling(s, s', t, p);
    hide MutexInv, At, Anyone, Settling;
  }

  lemma MovedSettling(s: Shared, s': Shared, t: Thread, p: Pc)
    requires MutexInv(s) && MutexInv(s') && t in s.pc && s'.pc == s.pc[t := p]
    ensures Settling(s') == Settling(s) + (if Settles(p) then 1 else 0) - (if Settles(s.pc[t]) then 1 else 0)
  {
    if Settling(s) == 1 && s.owner != Some(t) {
      assert s'.pc[s.owner.value] == s.pc[s.owner.value] && s'.owner == s.owner;
    }
    if Settling(s') == 1 && s'.owner != Some(t) {
      assert s.pc[s'.owner.value] == s'.pc[s'.owner.value] && s'.owner == s.owner;
    }
  }

  /** The signal after a push: it wakes somebody, if anybody sleeps. */
  lemma SignalWakes(s: Shared, s': Shared, t: Thread, woken: set<Thread>)
    requires t in s.pc && s.pc[t].PushSignal? && Step(s, s', t, woken) && MutexInv(s) && WakeInv(s)
    ensures WakeInv(s')
  {
    var pc := Wake(s.pc, woken);
    WakeCounts(s.pc, woken);
    Moved(pc, t, PushOut, IsWoken);
    Moved(pc, t, PushOut, Sleeps);
    AnyoneCounts(s.pc, Sleeps);
    AnyoneCounts(s'.pc, Sleeps);
    SomeWoken(woken);
    hide At, Anyone, MutexInv;
  }

  lemma SomeWoken(woken: set<Thread>)
    ensures woken != {} ==> |woken| >= 1
  {
  }

  lemma BroadcastWakes(s: Shared)
    ensures WakeInv(s.(pc := Wake(s.pc, At(s.pc, Sleeps))))
  {
    WakeCounts(s.pc, At(s.pc, Sleeps));
    AnyoneCounts(Wake(s.pc, At(s.pc, Sleeps)), Sleeps);
  }

  lemma StepKeepsWake(s: Shared, s': Shared, t: Thread, woken: set<Thread>)
    requires t in s.pc && Step(s, s', t, woken) && MutexInv(s) && MutexInv(s') && WakeInv(s)
    ensures WakeInv(s')
  {
    if s.pc[t].PushSignal? {
      SignalWakes(s, s', t, woken);
    } else if s' == s.(pc := Wake(s.pc, At(s.pc, Sleeps))) {
      BroadcastWakes(s);
    } else {
      hide MutexInv, WakeInv;
      MovedWake(s, s', t, s'.pc[t]);
    }
  }

  lemma StepKeepsInv(s: Shared, s': Shared, t: Thread, woken: set<Thread>)
    requires t in s.pc && Step(s, s', t, woken) && Inv(s)
    ensures Inv(s')
  {
    hide Step, MutexInv, WakeInv, FifoInv;
    StepKeepsMutex(s, s', t, woken);
    StepKeepsFifo(s, s', t, woken);
    StepKeepsWake(s, s', t, woken);
  }

  ghost predicate Moves(s: Shared, s': Shared) {
    exists t: Thread, woken :: t in s.pc && Step(s, s', t, woken)
  }

  ghost predicate Run(r: seq<Shared>) {
    r != [] && Init(r[0]) && forall i :: 0 < i < |r| ==> Moves(r[i - 1], r[i])
  }

  lemma {:induction false} RunKeepsInv(r: seq<Shared>, i: nat)
    requires Run(r) && i < |r|
    ensures Inv(r[i])
  {
    if i > 0 {
      hide Inv, Step, Init;
      RunKeepsInv(r, i - 1);
      assert Moves(r[i - 1], r[i]);
      var t: Thread, woken :| t in r[i - 1].pc && Step(r[i - 1], r[i], t, woken);
      StepKeepsInv(r[i - 1], r[i], t, woken);
    }
  }

  /** Over any run, what was popped is a prefix of what was pushed, each payload once and in order. */
  lemma Linearisable(r: seq<Shared>, i: nat)
    requires Run(r) && i < |r|
    ensures r[i].popped <= r[i].pushed && r[i].items == r[i].pushed[|r[i].popped|..]
  {
    RunKeepsInv(r, i);
  }

  /** No lost wake-up: with the mutex free, sleepers imply a woken consumer for every element. */
  lemma NoLostWakeUp(r: seq<Shared>, i: nat)
    requires Run(r) && i < |r| && r[i].owner == None && Anyone(r[i].pc, Sleeps)
    ensures |r[i].items| <= |At(r[i].pc, IsWoken)|
    ensures r[i].items != [] ==> Anyone(r[i].pc, IsWoken)
  {
    RunKeepsInv(r, i);
    AnyoneCounts(r[i].pc, IsWoken);
    hide Anyone, At;
  }
}
