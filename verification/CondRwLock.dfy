/**
 The writer-preferring read-write lock built from one mutex and two condition
 variables, as interleaved steps of any number of threads. A step is what a
 thread does between two points at which another may run.
 */
module CondRwLock {

  import opened Options
  import opened Threads

  /** Where a thread is. The comments name the code it is about to execute. */
  datatype Pc =
    | Idle        // outside, holding nothing
    | RdTest      // rdlock, mutex held: the loop condition
    | RdSleep     // rdlock: in pthread_cond_wait on waiting_readers
    | RdWoken     // rdlock: out of the wait, taking the mutex again
    | RdLeave     // rdlock, mutex held: runcount incremented
    | Reading     // holds the lock for reading
    | WrTest      // wrlock, mutex held: the loop condition
    | WrSleep     // wrlock: in pthread_cond_wait on waiting_writers
    | WrWoken     // wrlock: out of the wait, taking the mutex again
    | WrBack      // wrlock, mutex held: waiting_writers_count still to be decremented
    | WrLeave     // wrlock, mutex held: runcount decremented
    | Writing     // holds the lock for writing
    | UnReader    // unlock by a reader, mutex held
    | UnWriter    // unlock by a writer, mutex held
    | UnSignal    // unlock, mutex held: runcount updated, waiters not yet notified
    | UnLeave     // unlock, mutex held: waiters notified
    | Aborted     // one of the aborts of unlock was taken

  datatype Lock = Lock(owner: Option<Thread>, runcount: int, waiting_writers_count: int, pc: map<Thread, Pc>)

  predicate HoldsMutex(p: Pc) {
    p.RdTest? || p.RdLeave? || p.WrTest? || p.WrBack? || p.WrLeave? || p.UnReader? || p.UnWriter? || p.UnSignal?
      || p.UnLeave?
  }

  /** Counted by runcount as a reader. */
  predicate IsReader(p: Pc) { p.RdLeave? || p.Reading? || p.UnReader? }

  /** Counted by runcount as the writer. */
  predicate IsWriter(p: Pc) { p.WrLeave? || p.Writing? || p.UnWriter? }

  /** Between the increment and the decrement of waiting_writers_count. */
  predicate WaitsToWrite(p: Pc) { p.WrSleep? || p.WrWoken? || p.WrBack? }

  predicate SleepsToRead(p: Pc) { p.RdSleep? }

  predicate SleepsToWrite(p: Pc) { p.WrSleep? }

  predicate WokenToWrite(p: Pc) { p.WrWoken? }

  function Goto(s: Lock, t: Thread, p: Pc): Lock { s.(pc := s.pc[t := p]) }

  /** Takes the free mutex. */
  function Take(s: Lock, t: Thread, p: Pc): Lock { Goto(s, t, p).(owner := Some(t)) }

  /** Gives the mutex back. */
  function Release(s: Lock, t: Thread, p: Pc): Lock { Goto(s, t, p).(owner := None) }

  /** Moves the threads in w to place p. */
  function Wake(pc: map<Thread, Pc>, w: set<Thread>, p: Pc): map<Thread, Pc> {
    map t | t in pc :: if t in w then p else pc[t]
  }

  /** `pthread_cond_signal`: wakes at least one sleeper, if there is one. */
  ghost predicate Signals(sleepers: set<Thread>, woken: set<Thread>) {
    woken <= sleepers && (sleepers != {} ==> woken != {})
  }

  /**
   One step of thread t; `woken` are the threads a notification reaches. A
   sleeper may also step on its own: a spurious wake-up.
   */
  ghost predicate Step(s: Lock, s': Lock, t: Thread, woken: set<Thread>)
    requires t in s.pc
  {
    match s.pc[t]
    case Idle => s.owner.None? && (s' == Take(s, t, RdTest) || s' == Take(s, t, WrTest))
    case RdTest =>
      if s.runcount + 1 > 0 && s.waiting_writers_count == 0
      then s' == Goto(s, t, RdLeave).(runcount := s.runcount + 1)
      else s' == Release(s, t, RdSleep)
    case RdSleep => s' == Goto(s, t, RdWoken)
    case RdWoken => s.owner.None? && s' == Take(s, t, RdTest)
    case RdLeave => s' == Release(s, t, Reading)
    case Reading => s.owner.None? && s' == Take(s, t, UnReader)
    case WrTest =>
      if s.runcount == 0
      then s' == Goto(s, t, WrLeave).(runcount := s.runcount - 1)
      else s' == Release(s, t, WrSleep).(waiting_writers_count := s.waiting_writers_count + 1)
    case WrSleep => s' == Goto(s, t, WrWoken)
    case WrWoken => s.owner.None? && s' == Take(s, t, WrBack)
    case WrBack => s' == Goto(s, t, WrTest).(waiting_writers_count := s.waiting_writers_count - 1)
    case WrLeave => s' == Release(s, t, Writing)
    case Writing => s.owner.None? && s' == Take(s, t, UnWriter)
    case UnReader => Drops(s, s', t)
    case UnWriter => Drops(s, s', t)
    case UnSignal =>
      if s.runcount == 0 then
        if s.waiting_writers_count > 0 then
          && Signals(At(s.pc, SleepsToWrite), woken)
          && s' == Goto(s.(pc := Wake(s.pc, woken, WrWoken)), t, UnLeave)
        else
          s' == Goto(s.(pc := Wake(s.pc, At(s.pc, SleepsToRead), RdWoken)), t, UnLeave)
      else s' == Goto(s, t, UnLeave)
    case UnLeave => s' == Release(s, t, Idle)
    case Aborted => false
  }

  /** The first half of unlock: by the sign of runcount alone, for readers and writers. */
  ghost predicate Drops(s: Lock, s': Lock, t: Thread)
    requires t in s.pc
  {
    if s.runcount < 0 then
      if s.runcount == -1 then s' == Goto(s, t, UnSignal).(runcount := 0) else s' == Goto(s, t, Aborted)
    else
      if s.runcount > 0 then s' == Goto(s, t, UnSignal).(runcount := s.runcount - 1) else s' == Goto(s, t, Aborted)
  }

  ghost predicate Init(s: Lock) {
    s.owner == None && s.runcount == 0 && s.waiting_writers_count == 0 && forall t :: t in s.pc ==> s.pc[t] == Idle
  }

  /** The mutex is held by the thread inside the critical section, if any. */
  ghost predicate MutexInv(s: Lock) {
    && (s.owner.Some? ==> s.owner.value in s.pc && HoldsMutex(s.pc[s.owner.value]))
    && (forall t :: t in s.pc && HoldsMutex(s.pc[t]) ==> s.owner == Some(t))
    && (forall t :: t in s.pc ==> s.pc[t] != Aborted)
  }

  /** Exclusion: one writer and no reader, or runcount readers and no writer. */
  ghost predicate CountInv(s: Lock) {
    var r, w := |At(s.pc, IsReader)|, |At(s.pc, IsWriter)|;
    && ((s.runcount == -1 && w == 1 && r == 0) || (s.runcount == r && w == 0))
    && s.waiting_writers_count == |At(s.pc, WaitsToWrite)|
  }

  /** The mutex holder that is about to notify, or about to take the lock for writing. */
  predicate Settling(s: Lock) {
    s.owner.Some? && s.owner.value in s.pc
    && var p := s.pc[s.owner.value]; p.UnSignal? || p.WrBack? || p.WrTest?
  }

  /** The mutex holder that is about to wake the readers, or about to take the lock or wait again. */
  predicate SettlingReaders(s: Lock) {
    s.owner.Some? && s.owner.value in s.pc
    && var p := s.pc[s.owner.value]; (p.UnSignal? && s.runcount == 0) || p.WrTest?
  }

  /**
   No lost wake-up: unless a writer is inside, sleeping readers have a waiting writer; and while
   nobody is inside, sleeping writers have an awakened one.
   */
  ghost predicate WakeInv(s: Lock) { ReadersWake(s) && WritersWake(s) }

  ghost predicate ReadersWake(s: Lock) {
    s.runcount >= 0 && !SettlingReaders(s) && Anyone(s.pc, SleepsToRead) ==> Anyone(s.pc, WaitsToWrite)
  }

  ghost predicate WritersWake(s: Lock) {
    s.runcount == 0 && !Settling(s) && Anyone(s.pc, SleepsToWrite) ==> Anyone(s.pc, WokenToWrite)
  }

  ghost predicate Inv(s: Lock) { MutexInv(s) && CountInv(s) && WakeInv(s) }

  lemma MovedCounts(pc: map<Thread, Pc>, t: Thread, p: Pc)
    requires t in pc
    ensures |At(pc[t := p], IsReader)|
      == |At(pc, IsReader)| + (if IsReader(p) then 1 else 0) - (if IsReader(pc[t]) then 1 else 0)
    ensures |At(pc[t := p], IsWriter)|
      == |At(pc, IsWriter)| + (if IsWriter(p) then 1 else 0) - (if IsWriter(pc[t]) then 1 else 0)
    ensures |At(pc[t := p], WaitsToWrite)|
      == |At(pc, WaitsToWrite)| + (if WaitsToWrite(p) then 1 else 0) - (if WaitsToWrite(pc[t]) then 1 else 0)
  {
    Moved(pc, t, p, IsReader);
    Moved(pc, t, p, IsWriter);
    Moved(pc, t, p, WaitsToWrite);
  }

  /** Waking sleepers changes no count. */
  lemma WakeCounts(pc: map<Thread, Pc>, w: set<Thread>, p: Pc, f: Pc -> bool)
    requires forall t :: t in w && t in pc ==> (f(pc[t]) <==> f(p))
    ensures At(Wake(pc, w, p), f) == At(pc, f)
  {
  }

  /** A thread that moves takes, keeps or gives back the mutex according to its place. */
  lemma MovedMutex(s: Lock, s': Lock, t: Thread, p: Pc)
    requires MutexInv(s) && t in s.pc && s'.pc == s.pc[t := p] && p != Aborted
    requires HoldsMutex(p) ==> (s.owner == None || HoldsMutex(s.pc[t])) && s'.owner == Some(t)
    requires !HoldsMutex(p) ==> s'.owner == if HoldsMutex(s.pc[t]) then None else s.owner
    ensures MutexInv(s')
  {
  }

  lemma StepKeepsMutex(s: Lock, s': Lock, t: Thread, woken: set<Thread>)
    requires t in s.pc && Step(s, s', t, woken) && MutexInv(s) && CountInv(s)
    ensures MutexInv(s')
  {
    if HoldsMutex(s.pc[t]) {
      HolderIsOwner(s, t);
    }
    if s.pc[t] == UnSignal {
      NotifyKeepsMutex(s, s', t, woken);
    } else {
      HolderIsCounted(s, t);
      hide MutexInv, CountInv, At;
      MovedMutex(s, s', t, s'.pc[t]);
    }
  }

  lemma NotifyKeepsMutex(s: Lock, s': Lock, t: Thread, woken: set<Thread>)
    requires t in s.pc && s.pc[t] == UnSignal && Step(s, s', t, woken) && MutexInv(s) && s.owner == Some(t)
    ensures MutexInv(s')
  {
    var pc := if s.runcount != 0 then s.pc
              else if s.waiting_writers_count > 0 then Wake(s.pc, woken, WrWoken)
              else Wake(s.pc, At(s.pc, SleepsToRead), RdWoken);
    assert t in pc && pc[t] == UnSignal;
    assert MutexInv(s.(pc := pc));
    MovedMutex(s.(pc := pc), s', t, UnLeave);
  }

  lemma HolderIsOwner(s: Lock, t: Thread)
    requires MutexInv(s) && t in s.pc && HoldsMutex(s.pc[t])
    ensures s.owner == Some(t)
  {
  }

  /** A holder is counted, so the aborts of unlock are not taken. */
  lemma HolderIsCounted(s: Lock, t: Thread)
    requires CountInv(s) && t in s.pc
    ensures IsReader(s.pc[t]) ==> s.runcount > 0
    ensures IsWriter(s.pc[t]) ==> s.runcount == -1
  {
    if IsReader(s.pc[t]) {
      assert t in At(s.pc, IsReader);
    } else if IsWriter(s.pc[t]) {
      assert t in At(s.pc, IsWriter);
    }
  }

  lemma StepKeepsCounts(s: Lock, s': Lock, t: Thread, woken: set<Thread>)
    requires t in s.pc && Step(s, s', t, woken) && MutexInv(s) && CountInv(s)
    ensures CountInv(s')
  {
    if s.pc[t] == UnSignal {
      NotifyKeepsCounts(s, s', t, woken);
    } else {
      MovedCounts(s.pc, t, s'.pc[t]);
      HolderIsCounted(s, t);
      hide At, MutexInv;
    }
  }

  lemma NotifyKeepsCounts(s: Lock, s': Lock, t: Thread, woken: set<Thread>)
    requires t in s.pc && s.pc[t] == UnSignal && Step(s, s', t, woken) && CountInv(s)
    ensures CountInv(s')
  {
    var pc := if s.runcount != 0 then s.pc
              else if s.waiting_writers_count > 0 then Wake(s.pc, woken, WrWoken)
              else Wake(s.pc, At(s.pc, SleepsToRead), RdWoken);
    assert t in pc && pc[t] == UnSignal && s'.pc == pc[t := UnLeave];
    assert At(pc, IsReader) == At(s.pc, IsReader);
    assert At(pc, IsWriter) == At(s.pc, IsWriter);
    assert At(pc, WaitsToWrite) == At(s.pc, WaitsToWrite);
    MovedCounts(pc, t, UnLeave);
  }

  lemma StepKeepsWake(s: Lock, s': Lock, t: Thread, woken: set<Thread>)
    requires t in s.pc && Step(s, s', t, woken) && Inv(s) && MutexInv(s')
    ensures WakeInv(s')
  {
    if s.pc[t] == UnSignal {
      NotifyWakes(s, s', t, woken);
    } else {
      StepKeepsReadersWake(s, s', t, woken);
      StepKeepsWritersWake(s, s', t, woken);
    }
  }

  lemma StepKeepsReadersWake(s: Lock, s': Lock, t: Thread, woken: set<Thread>)
    requires t in s.pc && s.pc[t] != UnSignal && Step(s, s', t, woken) && Inv(s) && MutexInv(s')
    ensures ReadersWake(s')
  {
    if HoldsMutex(s.pc[t]) {
      HolderIsOwner(s, t);
    }
    assert s.waiting_writers_count == |At(s.pc, WaitsToWrite)|;
    hide At, Anyone, MutexInv, CountInv, WritersWake;
    MovedAnyone(s.pc, t, s'.pc[t], SleepsToRead);
    MovedAnyone(s.pc, t, s'.pc[t], WaitsToWrite);
    AnyoneCounts(s.pc, WaitsToWrite);
  }

  lemma StepKeepsWritersWake(s: Lock, s': Lock, t: Thread, woken: set<Thread>)
    requires t in s.pc && s.pc[t] != UnSignal && Step(s, s', t, woken) && Inv(s) && MutexInv(s')
    ensures WritersWake(s')
  {
    if HoldsMutex(s.pc[t]) {
      HolderIsOwner(s, t);
    }
    hide At, Anyone, MutexInv, CountInv, ReadersWake;
    MovedAnyone(s.pc, t, s'.pc[t], SleepsToWrite);
    MovedAnyone(s.pc, t, s'.pc[t], WokenToWrite);
  }

  lemma NotifyWakes(s: Lock, s': Lock, t: Thread, woken: set<Thread>)
    requires t in s.pc && s.pc[t] == UnSignal && Step(s, s', t, woken) && Inv(s)
    ensures WakeInv(s')
  {
    if s.runcount != 0 {
      MovedAnyone(s.pc, t, UnLeave, SleepsToRead);
      MovedAnyone(s.pc, t, UnLeave, WaitsToWrite);
      HolderIsOwner(s, t);
    } else if s.waiting_writers_count > 0 {
      NotifyWriter(s, s', t, woken);
    } else {
      NotifyReaders(s, s', t, woken);
    }
  }

  lemma NotifyReaders(s: Lock, s': Lock, t: Thread, woken: set<Thread>)
    requires t in s.pc && s.pc[t] == UnSignal && Step(s, s', t, woken) && Inv(s)
    requires s.runcount == 0 && s.waiting_writers_count == 0
    ensures !Anyone(s'.pc, SleepsToRead) && !Anyone(s'.pc, SleepsToWrite)
  {
    AnyoneCounts(s.pc, WaitsToWrite);
    forall u | u in s'.pc ensures s'.pc[u] != WrSleep && s'.pc[u] != RdSleep {
      assert u != t ==> u in s.pc && !WaitsToWrite(s.pc[u]);
    }
  }

  lemma NotifyWriter(s: Lock, s': Lock, t: Thread, woken: set<Thread>)
    requires t in s.pc && s.pc[t] == UnSignal && Step(s, s', t, woken) && Inv(s)
    requires s.runcount == 0 && s.waiting_writers_count > 0
    ensures Anyone(s'.pc, WokenToWrite) && Anyone(s'.pc, WaitsToWrite)
  {
    AnyoneCounts(s.pc, WaitsToWrite);
    var w :| w in s.pc && WaitsToWrite(s.pc[w]);
    assert s.pc[w] != WrBack;
    if s.pc[w] == WrSleep {
      assert w in At(s.pc, SleepsToWrite);
      w :| w in woken;
    }
    assert w in s'.pc && s'.pc[w] == WrWoken;
    assert WokenToWrite(s'.pc[w]) && WaitsToWrite(s'.pc[w]);
  }

  /** Every step keeps the invariant. */
  lemma StepKeepsInv(s: Lock, s': Lock, t: Thread, woken: set<Thread>)
    requires t in s.pc && Step(s, s', t, woken) && Inv(s)
    ensures Inv(s')
  {
    StepKeepsMutex(s, s', t, woken);
    StepKeepsCounts(s, s', t, woken);
    StepKeepsWake(s, s', t, woken);
  }

  ghost predicate Moves(s: Lock, s': Lock) {
    exists t: Thread, woken: set<Thread> :: t in s.pc && Step(s, s', t, woken)
  }

  /** An interleaving, from an initialised lock and any number of threads outside. */
  ghost predicate Run(r: seq<Lock>) {
    r != [] && Init(r[0]) && forall i :: 0 < i < |r| ==> Moves(r[i - 1], r[i])
  }

  lemma InitInv(s: Lock)
    requires Init(s)
    ensures Inv(s)
  {
    assert At(s.pc, IsReader) == {} && At(s.pc, IsWriter) == {} && At(s.pc, WaitsToWrite) == {};
  }

  lemma {:induction false} RunKeepsInv(r: seq<Lock>, i: nat)
    requires Run(r) && i < |r|
    ensures Inv(r[i])
  {
    if i == 0 {
      InitInv(r[0]);
    } else {
      RunKeepsInv(r, i - 1);
      assert Moves(r[i - 1], r[i]);
      var t: Thread, woken: set<Thread> :| t in r[i - 1].pc && Step(r[i - 1], r[i], t, woken);
      StepKeepsInv(r[i - 1], r[i], t, woken);
    }
  }

  /**
   In every reachable state the lock has one writer and no reader, or runcount readers and no
   writer; the count of waiting writers is right, and no abort was taken.
   */
  lemma Exclusion(r: seq<Lock>, i: nat)
    requires Run(r) && i < |r|
    ensures var s := r[i];
      || (s.runcount == -1 && |At(s.pc, IsWriter)| == 1 && At(s.pc, IsReader) == {})
      || (s.runcount == |At(s.pc, IsReader)| && At(s.pc, IsWriter) == {})
    ensures r[i].waiting_writers_count == |At(r[i].pc, WaitsToWrite)|
    ensures forall t :: t in r[i].pc ==> r[i].pc[t] != Aborted
  {
    RunKeepsInv(r, i);
  }

  /** No other thread reads or writes beside a writer. */
  lemma WriterIsAlone(r: seq<Lock>, i: nat, t: Thread, u: Thread)
    requires Run(r) && i < |r| && t in r[i].pc && u in r[i].pc && t != u && r[i].pc[t] == Writing
    ensures r[i].pc[u] != Writing && r[i].pc[u] != Reading
  {
    RunKeepsInv(r, i);
    HolderIsCounted(r[i], t);
    HolderIsCounted(r[i], u);
    if r[i].pc[u] == Writing {
      Single(At(r[i].pc, IsWriter), t, u);
    }
  }

  /**
   No wake-up is lost. When the mutex is free and no writer is inside, a reader
   sleeps only if a writer waits; when nobody is inside, a writer sleeps only
   if some waiting writer has been awakened. So if anybody sleeps beside an
   unheld lock, an awakened writer can take the mutex and then the lock.
   */
  lemma NoLostWakeUp(r: seq<Lock>, i: nat)
    requires Run(r) && i < |r| && r[i].owner == None
    ensures r[i].runcount >= 0 && Anyone(r[i].pc, SleepsToRead) ==> r[i].waiting_writers_count > 0
    ensures r[i].runcount == 0 && Anyone(r[i].pc, SleepsToWrite) ==> Anyone(r[i].pc, WokenToWrite)
    ensures r[i].runcount == 0 && (Anyone(r[i].pc, SleepsToRead) || Anyone(r[i].pc, SleepsToWrite)) ==>
      exists w :: w in r[i].pc && r[i].pc[w] == WrWoken && Step(r[i], Take(r[i], w, WrBack), w, {})
  {
    var s := r[i];
    RunKeepsInv(r, i);
    AnyoneCounts(s.pc, WaitsToWrite);
    if s.runcount == 0 && (Anyone(s.pc, SleepsToRead) || Anyone(s.pc, SleepsToWrite)) {
      if x :| x in s.pc && WaitsToWrite(s.pc[x]) {
        assert s.pc[x] == WrSleep ==> SleepsToWrite(s.pc[x]);
        assert s.pc[x] == WrWoken ==> WokenToWrite(s.pc[x]);
      }
      assert Anyone(s.pc, WokenToWrite);
      var w :| w in s.pc && WokenToWrite(s.pc[w]);
      assert Step(s, Take(s, w, WrBack), w, {});
    }
  }

  lemma StepAdmitsNoReader(s: Lock, s': Lock, t: Thread, woken: set<Thread>)
    requires t in s.pc && Step(s, s', t, woken) && s.waiting_writers_count > 0
    ensures |At(s'.pc, IsReader)| <= |At(s.pc, IsReader)|
  {
    if s.pc[t] == UnSignal {
      NotifyAdmitsNoReader(s, s', t, woken);
    } else {
      assert s'.pc == s.pc[t := s'.pc[t]] && (IsReader(s'.pc[t]) ==> IsReader(s.pc[t]));
      hide At, Step;
      Moved(s.pc, t, s'.pc[t], IsReader);
    }
  }

  lemma NotifyAdmitsNoReader(s: Lock, s': Lock, t: Thread, woken: set<Thread>)
    requires t in s.pc && s.pc[t] == UnSignal && Step(s, s', t, woken) && s.waiting_writers_count > 0
    ensures |At(s'.pc, IsReader)| <= |At(s.pc, IsReader)|
  {
    var pc := if s.runcount != 0 then s.pc else Wake(s.pc, woken, WrWoken);
    assert t in pc && pc[t] == UnSignal && s'.pc == pc[t := UnLeave];
    assert At(pc, IsReader) == At(s.pc, IsReader);
    hide At, Step;
    Moved(pc, t, UnLeave, IsReader);
  }

  /** Writers take precedence: while a writer waits, no step lets a reader in. */
  lemma WritersGoFirst(r: seq<Lock>, i: nat)
    requires Run(r) && 0 < i < |r| && Anyone(r[i - 1].pc, WaitsToWrite)
    ensures |At(r[i].pc, IsReader)| <= |At(r[i - 1].pc, IsReader)|
  {
    hide Step, At;
    RunKeepsInv(r, i - 1);
    AnyoneCounts(r[i - 1].pc, WaitsToWrite);
    assert Moves(r[i - 1], r[i]);
    var t: Thread, woken: set<Thread> :| t in r[i - 1].pc && Step(r[i - 1], r[i], t, woken);
    StepAdmitsNoReader(r[i - 1], r[i], t, woken);
  }
}
