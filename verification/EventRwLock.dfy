/**
 The read-write lock for Win32 as interleaved steps: a waiting thread queues an
 event, and the unlocking thread does the bookkeeping for the threads it lets in.
 The two queues are the sequences that WaitQueue.Queue implements.
 */
module EventRwLock {
  import opened Options
  import opened Threads

  /** Where a thread is. The comments name the code it is about to execute. */
  datatype Pc =
    | Idle        // outside, holding nothing
    | RdTest      // rdlock, in the critical section: the first test
    | RdRetry     // rdlock, after a failed allocation: sleeping
    | RdRetest    // rdlock, in the critical section: the loop condition
    | RdLeave     // rdlock, in the critical section: runcount incremented
    | RdWait      // rdlock: waiting for its event
    | RdCheck     // rdlock: event set, runcount still to be checked
    | Reading     // holds the lock for reading
    | WrTest | WrRetry | WrRetest | WrLeave | WrWait | WrCheck
    | Writing     // holds the lock for writing
    | UnReader    // unlock by a reader, in the critical section
    | UnWriter    // unlock by a writer, in the critical section
    | UnHand      // unlock, in the critical section: runcount updated
    | UnWriterNext  // unlock, in the critical section: to set the first waiting writer's event
    | UnReadersNext // unlock, in the critical section: to set the remaining waiting readers' events
    | UnLeave     // unlock, in the critical section: done
    | Aborted     // one of the aborts was taken

  datatype Lock = Lock(owner: Option<Thread>, runcount: int, waiting_readers: seq<Thread>, waiting_writers: seq<Thread>,
                       pc: map<Thread, Pc>)

  predicate InSection(p: Pc) {
    || p.RdTest? || p.RdRetest? || p.RdLeave? || p.WrTest? || p.WrRetest? || p.WrLeave?
    || p.UnReader? || p.UnWriter? || p.UnHand? || p.UnWriterNext? || p.UnReadersNext? || p.UnLeave?
  }

  predicate IsReader(p: Pc) { p.RdLeave? || p.RdCheck? || p.Reading? || p.UnReader? }

  predicate IsWriter(p: Pc) { p.WrLeave? || p.WrCheck? || p.Writing? || p.UnWriter? }

  function Goto(s: Lock, t: Thread, p: Pc): Lock { s.(pc := s.pc[t := p]) }

  function Take(s: Lock, t: Thread, p: Pc): Lock { Goto(s, t, p).(owner := Some(t)) }

  function Release(s: Lock, t: Thread, p: Pc): Lock { Goto(s, t, p).(owner := None) }

  /** One step of thread t. */
  ghost predicate Step(s: Lock, s': Lock, t: Thread)
    requires t in s.pc
  {
    match s.pc[t]
    case Idle => s.owner.None? && (s' == Take(s, t, RdTest) || s' == Take(s, t, WrTest))
    case RdTest =>
      if s.runcount + 1 > 0 then s' == Goto(s, t, RdLeave).(runcount := s.runcount + 1)
      else
        || s' == Release(s, t, RdWait).(waiting_readers := s.waiting_readers + [t])
        || s' == Release(s, t, RdRetry)
    case RdRetry => s.owner.None? && s' == Take(s, t, RdRetest)
    case RdRetest =>
      if s.runcount + 1 > 0 then s' == Goto(s, t, RdLeave).(runcount := s.runcount + 1)
      else s' == Release(s, t, RdRetry)
    case RdLeave => s' == Release(s, t, Reading)
    case RdWait => false
    case RdCheck => s' == Goto(s, t, if s.runcount > 0 then Reading else Aborted)
    case Reading => s.owner.None? && s' == Take(s, t, UnReader)
    case WrTest =>
      if s.runcount == 0 then s' == Goto(s, t, WrLeave).(runcount := s.runcount - 1)
      else
        || s' == Release(s, t, WrWait).(waiting_writers := s.waiting_writers + [t])
        || s' == Release(s, t, WrRetry)
    case WrRetry => s.owner.None? && s' == Take(s, t, WrRetest)
    case WrRetest =>
      if s.runcount == 0 then s' == Goto(s, t, WrLeave).(runcount := s.runcount - 1) else s' == Release(s, t, WrRetry)
    case WrLeave => s' == Release(s, t, Writing)
    case WrWait => false
    case WrCheck => s' == Goto(s, t, if s.runcount == -1 then Writing else Aborted)
    case Writing => s.owner.None? && s' == Take(s, t, UnWriter)
    case UnReader => Drops(s, s', t)
    case UnWriter => Drops(s, s', t)
    case UnHand =>
      if s.runcount != 0 then s' == Goto(s, t, UnLeave)
      else if |s.waiting_writers| > 0 then s' == Goto(s, t, UnWriterNext).(runcount := s.runcount - 1)
      else s' == Goto(s, t, UnReadersNext).(runcount := s.runcount + |s.waiting_readers|)
    case UnWriterNext =>
      if s.waiting_writers == [] then s' == Goto(s, t, Aborted)
      else
        s' == Goto(SetEvent(s, s.waiting_writers[0], WrCheck), t, UnLeave)
          .(waiting_writers := s.waiting_writers[1..])
    case UnReadersNext =>
      if s.waiting_readers == [] then s' == Goto(s, t, UnLeave)
      else s' == SetEvent(s, s.waiting_readers[0], RdCheck).(waiting_readers := s.waiting_readers[1..])
    case UnLeave => s' == Release(s, t, Idle)
    case Aborted => false
  }

  function SetEvent(s: Lock, u: Thread, p: Pc): Lock { Goto(s, u, p) }

  ghost predicate Drops(s: Lock, s': Lock, t: Thread)
    requires t in s.pc
  {
    if s.runcount < 0 then
      if s.runcount == -1 then s' == Goto(s, t, UnHand).(runcount := 0) else s' == Goto(s, t, Aborted)
    else
      if s.runcount > 0 then s' == Goto(s, t, UnHand).(runcount := s.runcount - 1) else s' == Goto(s, t, Aborted)
  }

  ghost predicate Init(s: Lock) {
    && s.owner == None && s.runcount == 0 && s.waiting_readers == s.waiting_writers == []
    && forall t :: t in s.pc ==> s.pc[t] == Idle
  }

  ghost predicate SectionInv(s: Lock) {
    && (s.owner.Some? ==> s.owner.value in s.pc && InSection(s.pc[s.owner.value]))
    && (forall t :: t in s.pc && InSection(s.pc[t]) ==> s.owner == Some(t))
    && (forall t :: t in s.pc ==> s.pc[t] != Aborted)
  }

  /** A queue holds, once each, exactly the threads waiting for an event of its kind. */
  ghost predicate Queued(q: seq<Thread>, pc: map<Thread, Pc>, p: Pc) {
    && (forall i, j :: 0 <= i < j < |q| ==> q[i] != q[j])
    && (forall i :: 0 <= i < |q| ==> q[i] in pc && pc[q[i]] == p)
    && (forall t :: t in pc && pc[t] == p ==> t in q)
  }

  ghost predicate QueueInv(s: Lock) {
    Queued(s.waiting_readers, s.pc, RdWait) && Queued(s.waiting_writers, s.pc, WrWait)
  }

  /** The place of the thread in the critical section; Idle when there is none. */
  function Inside(s: Lock): Pc {
    if s.owner.Some? && s.owner.value in s.pc then s.pc[s.owner.value] else Idle
  }

  /**
   runcount already counts the threads about to be let in: r and w are the
   holders, `inside` the place in the critical section, n the waiting readers.
   */
  predicate CountOk(runcount: int, r: nat, w: nat, inside: Pc, n: nat) {
    var r', w' := if inside == UnReadersNext then r + n else r, if inside == UnWriterNext then w + 1 else w;
    (runcount == -1 && w' == 1 && r' == 0) || (runcount == r' && w' == 0)
  }

  ghost predicate CountInv(s: Lock) {
    CountOk(s.runcount, |At(s.pc, IsReader)|, |At(s.pc, IsWriter)|, Inside(s), |s.waiting_readers|)
  }

  /** Whoever waits, waits for a holder: readers for a writer, writers for anybody. */
  predicate WaitOk(s: Lock, inside: Pc) {
    && (s.waiting_readers != [] ==>
      s.runcount == -1 || (inside == UnHand && s.runcount == 0) || inside == UnReadersNext)
    && (s.waiting_writers != [] ==> s.runcount != 0 || inside == UnHand)
    && (inside == UnWriterNext ==> s.waiting_writers != [] && s.runcount == -1)
    && (inside == UnReadersNext ==> s.waiting_writers == [])
  }

  ghost predicate WaitInv(s: Lock) {
    WaitOk(s, Inside(s))
  }

  ghost predicate Inv(s: Lock) { SectionInv(s) && QueueInv(s) && CountInv(s) && WaitInv(s) }

  /** A thread the lock counts as a holder, or has just let in, finds runcount as its check expects. */
  lemma HolderIsCounted(s: Lock, t: Thread)
    requires CountInv(s) && t in s.pc
    ensures IsReader(s.pc[t]) ==> s.runcount > 0
    ensures IsWriter(s.pc[t]) ==> s.runcount == -1
  {
    if IsReader(s.pc[t]) {
      assert t in At(s.pc, IsReader);
    } else if IsWriter(s.pc[t]) {
      assert t in At(s.pc, IsWriter);
    }
  }

  lemma InsideIsOwner(s: Lock, t: Thread)
    requires SectionInv(s) && t in s.pc
    ensures InSection(s.pc[t]) ==> s.owner == Some(t) && Inside(s) == s.pc[t]
    ensures !InSection(s.pc[t]) ==> s.owner != Some(t)
  {
  }

  /** A thread that moves enters, keeps or leaves the critical section according to its place. */
  lemma MovedSection(s: Lock, s': Lock, t: Thread, p: Pc)
    requires SectionInv(s) && t in s.pc && s'.pc == s.pc[t := p] && p != Aborted
    requires InSection(p) ==> (s.owner == None || InSection(s.pc[t])) && s'.owner == Some(t)
    requires !InSection(p) ==> s'.owner == if InSection(s.pc[t]) then None else s.owner
    ensures SectionInv(s')
  {
  }

  /** The step in which a waiting thread is let in, and its event set. */
  predicate LetsIn(s: Lock, t: Thread)
    requires t in s.pc
  {
    (s.pc[t] == UnWriterNext && s.waiting_writers != []) || (s.pc[t] == UnReadersNext && s.waiting_readers != [])
  }

  lemma LetInKeepsSection(s: Lock, s': Lock, t: Thread, u: Thread)
    requires t in s.pc && SectionInv(s) && u in s.pc && u != t && !InSection(s.pc[u]) && InSection(s.pc[t])
    requires s'.owner == s.owner
    requires s'.pc == s.pc[u := WrCheck][t := UnLeave] || s'.pc == s.pc[u := RdCheck][t := UnReadersNext]
    ensures SectionInv(s')
  {
    InsideIsOwner(s, t);
    var m := Goto(s, u, s'.pc[u]);
    MovedSection(s, m, u, s'.pc[u]);
    MovedSection(m, s', t, s'.pc[t]);
  }

  lemma StepKeepsSection(s: Lock, s': Lock, t: Thread)
    requires t in s.pc && Step(s, s', t) && Inv(s)
    ensures SectionInv(s')
  {
    InsideIsOwner(s, t);
    if LetsIn(s, t) {
      var u := if s.pc[t] == UnWriterNext then s.waiting_writers[0] else s.waiting_readers[0];
      assert u in s.pc && (s.pc[u] == WrWait || s.pc[u] == RdWait);
      hide CountInv, QueueInv, SectionInv, WaitInv;
      LetInKeepsSection(s, s', t, u);
    } else {
      PlainKeepsSection(s, s', t);
    }
  }

  /** A step that sets no event moves one thread, and does not abort when runcount is as it expects. */
  lemma PlainStep(s: Lock, s': Lock, t: Thread)
    requires t in s.pc && Step(s, s', t) && s.pc[t] != UnWriterNext && !LetsIn(s, t)
    requires IsReader(s.pc[t]) ==> s.runcount > 0
    requires IsWriter(s.pc[t]) ==> s.runcount == -1
    ensures t in s'.pc && s'.pc == s.pc[t := s'.pc[t]] && s'.pc[t] != Aborted
  {
  }

  lemma PlainOwner(s: Lock, s': Lock, t: Thread)
    requires t in s.pc && Step(s, s', t) && s.pc[t] != UnWriterNext && !LetsIn(s, t)
    requires InSection(s.pc[t]) ==> s.owner == Some(t)
    requires t in s'.pc && s'.pc[t] != Aborted
    ensures InSection(s'.pc[t]) ==> (s.owner == None || InSection(s.pc[t])) && s'.owner == Some(t)
    ensures !InSection(s'.pc[t]) ==> s'.owner == if InSection(s.pc[t]) then None else s.owner
  {
  }

  lemma PlainKeepsSection(s: Lock, s': Lock, t: Thread)
    requires t in s.pc && Step(s, s', t) && Inv(s) && !LetsIn(s, t)
    ensures SectionInv(s')
  {
    HolderIsCounted(s, t);
    InsideIsOwner(s, t);
    assert s.pc[t] != UnWriterNext;
    hide Step, SectionInv, CountInv, QueueInv, WaitInv;
    PlainStep(s, s', t);
    PlainOwner(s, s', t);
    MovedSection(s, s', t, s'.pc[t]);
  }

  lemma QueuedStays(q: seq<Thread>, pc: map<Thread, Pc>, t: Thread, p: Pc, w: Pc)
    requires Queued(q, pc, w) && t in pc && pc[t] != w && p != w
    ensures Queued(q, pc[t := p], w)
  {
  }

  lemma QueuedAppends(q: seq<Thread>, pc: map<Thread, Pc>, t: Thread, w: Pc)
    requires Queued(q, pc, w) && t in pc && pc[t] != w
    ensures Queued(q + [t], pc[t := w], w)
  {
  }

  lemma QueuedPops(q: seq<Thread>, pc: map<Thread, Pc>, p: Pc, w: Pc)
    requires Queued(q, pc, w) && q != [] && p != w
    ensures Queued(q[1..], pc[q[0] := p], w)
  {
  }

  lemma StepKeepsQueues(s: Lock, s': Lock, t: Thread)
    requires t in s.pc && Step(s, s', t) && QueueInv(s)
    ensures QueueInv(s')
  {
    hide Queued;
    if LetsIn(s, t) {
      LetInKeepsQueues(s, s', t);
    } else {
      var p := s'.pc[t];
      if s.pc[t] == RdTest && p == RdWait {
        QueuedAppends(s.waiting_readers, s.pc, t, RdWait);
        QueuedStays(s.waiting_writers, s.pc, t, p, WrWait);
      } else if s.pc[t] == WrTest && p == WrWait {
        QueuedAppends(s.waiting_writers, s.pc, t, WrWait);
        QueuedStays(s.waiting_readers, s.pc, t, p, RdWait);
      } else {
        QueuedStays(s.waiting_readers, s.pc, t, p, RdWait);
        QueuedStays(s.waiting_writers, s.pc, t, p, WrWait);
      }
    }
  }

  lemma LetInKeepsQueues(s: Lock, s': Lock, t: Thread)
    requires t in s.pc && Step(s, s', t) && QueueInv(s) && LetsIn(s, t)
    ensures QueueInv(s')
  {
    hide Queued;
    if s.pc[t] == UnWriterNext {
      LetWriterInQueues(s.waiting_readers, s.waiting_writers, s.pc, t);
    } else {
      LetReaderInQueues(s.waiting_readers, s.waiting_writers, s.pc);
    }
  }

  lemma LetReaderInQueues(r: seq<Thread>, w: seq<Thread>, pc: map<Thread, Pc>)
    requires Queued(r, pc, RdWait) && Queued(w, pc, WrWait) && r != []
    ensures var pc' := pc[r[0] := RdCheck]; Queued(r[1..], pc', RdWait) && Queued(w, pc', WrWait)
  {
    var u := r[0];
    assert u in pc && pc[u] == RdWait;
    hide Queued;
    QueuedPops(r, pc, RdCheck, RdWait);
    QueuedStays(w, pc, u, RdCheck, WrWait);
  }

  lemma LetWriterInQueues(r: seq<Thread>, w: seq<Thread>, pc: map<Thread, Pc>, t: Thread)
    requires Queued(r, pc, RdWait) && Queued(w, pc, WrWait) && w != [] && t in pc && pc[t] == UnWriterNext
    ensures var pc' := pc[w[0] := WrCheck][t := UnLeave]; Queued(r, pc', RdWait) && Queued(w[1..], pc', WrWait)
  {
    var u := w[0];
    assert u in pc && pc[u] == WrWait;
    hide Queued;
    QueuedPops(w, pc, WrCheck, WrWait);
    QueuedStays(r, pc, u, WrCheck, RdWait);
    QueuedStays(w[1..], pc[u := WrCheck], t, UnLeave, WrWait);
    QueuedStays(r, pc[u := WrCheck], t, UnLeave, RdWait);
  }

  /** Counting after one thread has moved. */
  lemma MovedCounts(pc: map<Thread, Pc>, t: Thread, p: Pc)
    requires t in pc
    ensures |At(pc[t := p], IsReader)|
      == |At(pc, IsReader)| + (if IsReader(p) then 1 else 0) - (if IsReader(pc[t]) then 1 else 0)
    ensures |At(pc[t := p], IsWriter)|
      == |At(pc, IsWriter)| + (if IsWriter(p) then 1 else 0) - (if IsWriter(pc[t]) then 1 else 0)
  {
    Moved(pc, t, p, IsReader);
    Moved(pc, t, p, IsWriter);
  }

  /** The place of the thread in the critical section after a step of t. */
  lemma InsideAfter(s: Lock, s': Lock, t: Thread)
    requires t in s.pc && Step(s, s', t) && SectionInv(s) && SectionInv(s')
    ensures t in s'.pc
    ensures InSection(s'.pc[t]) ==> Inside(s') == s'.pc[t]
    ensures !InSection(s'.pc[t]) && InSection(s.pc[t]) ==> Inside(s') == Idle
    ensures !InSection(s'.pc[t]) && !InSection(s.pc[t]) ==> Inside(s') == Inside(s)
  {
    InsideIsOwner(s, t);
    InsideIsOwner(s', t);
  }

  predicate InsideMoves(before: Pc, after: Pc, p: Pc, q: Pc) {
    && (InSection(p) ==> before == p)
    && after == if InSection(q) then q else if InSection(p) then Idle else before
  }

  /** The arithmetic of a step that sets no event. */
  lemma PlainCounts(s: Lock, s': Lock, t: Thread, r: nat, w: nat, r': nat, w': nat, inside: Pc, inside': Pc)
    requires t in s.pc && t in s'.pc && Step(s, s', t) && s.pc[t] != UnWriterNext && !LetsIn(s, t)
    requires InsideMoves(inside, inside', s.pc[t], s'.pc[t])
    requires r' == r + (if IsReader(s'.pc[t]) then 1 else 0) - (if IsReader(s.pc[t]) then 1 else 0)
    requires w' == w + (if IsWriter(s'.pc[t]) then 1 else 0) - (if IsWriter(s.pc[t]) then 1 else 0)
    requires IsReader(s.pc[t]) ==> s.runcount > 0
    requires IsWriter(s.pc[t]) ==> s.runcount == -1
    requires s.owner == None ==> inside == Idle
    requires CountOk(s.runcount, r, w, inside, |s.waiting_readers|)
    ensures CountOk(s'.runcount, r', w', inside', |s'.waiting_readers|)
  {
  }

  lemma LetInCounts(s: Lock, s': Lock, t: Thread, u: Thread, inside: Pc, inside': Pc)
    requires t in s.pc && u in s.pc && u != t && LetsIn(s, t) && Step(s, s', t)
    requires if s.pc[t] == UnWriterNext then u == s.waiting_writers[0] && s.pc[u] == WrWait
             else u == s.waiting_readers[0] && s.pc[u] == RdWait
    requires inside == s.pc[t] && inside' == if s.pc[t] == UnWriterNext then UnLeave else UnReadersNext
    requires CountOk(s.runcount, |At(s.pc, IsReader)|, |At(s.pc, IsWriter)|, inside, |s.waiting_readers|)
    ensures CountOk(s'.runcount, |At(s'.pc, IsReader)|, |At(s'.pc, IsWriter)|, inside', |s'.waiting_readers|)
  {
    hide At;
    MovedCounts(s.pc, u, if s.pc[t] == UnWriterNext then WrCheck else RdCheck);
    if s.pc[t] == UnWriterNext {
      MovedCounts(s.pc[u := WrCheck], t, UnLeave);
    }
  }

  lemma StepKeepsCounts(s: Lock, s': Lock, t: Thread)
    requires t in s.pc && Step(s, s', t) && Inv(s) && SectionInv(s')
    ensures CountInv(s')
  {
    if LetsIn(s, t) {
      LetInKeepsCounts(s, s', t);
    } else {
      PlainKeepsCounts(s, s', t);
    }
  }

  lemma LetInKeepsCounts(s: Lock, s': Lock, t: Thread)
    requires t in s.pc && Step(s, s', t) && Inv(s) && SectionInv(s') && LetsIn(s, t)
    ensures CountInv(s')
  {
    InsideIsOwner(s, t);
    InsideAfter(s, s', t);
    var u := if s.pc[t] == UnWriterNext then s.waiting_writers[0] else s.waiting_readers[0];
    assert u in s.pc && (if s.pc[t] == UnWriterNext then s.pc[u] == WrWait else s.pc[u] == RdWait);
    assert s'.pc[t] == if s.pc[t] == UnWriterNext then UnLeave else UnReadersNext;
    hide SectionInv, QueueInv, WaitInv, Inside, At, CountOk, Step;
    LetInCounts(s, s', t, u, Inside(s), Inside(s'));
  }

  lemma PlainKeepsCounts(s: Lock, s': Lock, t: Thread)
    requires t in s.pc && Step(s, s', t) && Inv(s) && SectionInv(s') && !LetsIn(s, t)
    ensures CountInv(s')
  {
    InsideIsOwner(s, t);
    InsideAfter(s, s', t);
    HolderIsCounted(s, t);
    assert s.pc[t] == UnWriterNext ==> s.waiting_writers != [];
    assert s.owner == None ==> Inside(s) == Idle;
    hide SectionInv, QueueInv, WaitInv, Inside, At, CountOk, Step;
    PlainStep(s, s', t);
    MovedCounts(s.pc, t, s'.pc[t]);
    PlainCounts(s, s', t, |At(s.pc, IsReader)|, |At(s.pc, IsWriter)|,
                |At(s'.pc, IsReader)|, |At(s'.pc, IsWriter)|, Inside(s), Inside(s'));
  }

  lemma StepKeepsWait(s: Lock, s': Lock, t: Thread)
    requires t in s.pc && Step(s, s', t) && Inv(s) && SectionInv(s')
    ensures WaitInv(s')
  {
    InsideIsOwner(s, t);
    InsideAfter(s, s', t);
    HolderIsCounted(s, t);
    assert s.owner == None ==> Inside(s) == Idle;
    assert s.pc[t] == UnReadersNext && s.waiting_readers != [] ==> s.pc[s.waiting_readers[0]] == RdWait;
    NoneInside(s);
    hide SectionInv, QueueInv, Inside, At, CountInv, WaitOk, Step;
    if s.pc[t] == UnReader || s.pc[t] == UnWriter || s.pc[t] == UnHand || s.pc[t] == UnWriterNext
      || s.pc[t] == UnReadersNext {
      UnlockWait(s, s', t, Inside(s), Inside(s'));
    } else {
      OtherWait(s, s', t, Inside(s), Inside(s'));
    }
  }

  /** A writer inside or let in leaves no reader, and the other way round. */
  lemma NoneInside(s: Lock)
    requires CountInv(s)
    ensures s.runcount >= -1
  {
  }

  lemma UnlockWait(s: Lock, s': Lock, t: Thread, inside: Pc, inside': Pc)
    requires t in s.pc && t in s'.pc && Step(s, s', t) && InsideMoves(inside, inside', s.pc[t], s'.pc[t])
    requires s.pc[t] == UnReader || s.pc[t] == UnWriter || s.pc[t] == UnHand || s.pc[t] == UnWriterNext
      || s.pc[t] == UnReadersNext
    requires s.pc[t] == UnReader ==> s.runcount > 0
    requires s.pc[t] == UnWriter ==> s.runcount == -1
    requires s.pc[t] == UnReadersNext && s.waiting_readers != [] ==> s.waiting_readers[0] != t
    requires WaitOk(s, inside)
    ensures WaitOk(s', inside')
  {
  }

  lemma OtherWait(s: Lock, s': Lock, t: Thread, inside: Pc, inside': Pc)
    requires t in s.pc && t in s'.pc && Step(s, s', t) && InsideMoves(inside, inside', s.pc[t], s'.pc[t])
    requires s.pc[t] != UnReader && s.pc[t] != UnWriter && s.pc[t] != UnHand && s.pc[t] != UnWriterNext
      && s.pc[t] != UnReadersNext
    requires IsReader(s.pc[t]) ==> s.runcount > 0
    requires IsWriter(s.pc[t]) ==> s.runcount == -1
    requires s.runcount >= -1 && (s.owner == None ==> inside == Idle) && WaitOk(s, inside)
    ensures WaitOk(s', inside')
  {
  }

  /** Every step keeps the invariant. */
  lemma StepKeepsInv(s: Lock, s': Lock, t: Thread)
    requires t in s.pc && Step(s, s', t) && Inv(s)
    ensures Inv(s')
  {
    StepKeepsSection(s, s', t);
    StepKeepsQueues(s, s', t);
    StepKeepsCounts(s, s', t);
    StepKeepsWait(s, s', t);
  }

  ghost predicate Moves(s: Lock, s': Lock) {
    exists t: Thread :: t in s.pc && Step(s, s', t)
  }

  ghost predicate Run(r: seq<Lock>) {
    r != [] && Init(r[0]) && forall i :: 0 < i < |r| ==> Moves(r[i - 1], r[i])
  }

  lemma InitInv(s: Lock)
    requires Init(s)
    ensures Inv(s)
  {
    assert At(s.pc, IsReader) == {} && At(s.pc, IsWriter) == {};
  }

  lemma {:induction false} RunKeepsInv(r: seq<Lock>, i: nat)
    requires Run(r) && i < |r|
    ensures Inv(r[i])
  {
    hide Inv, Step, Init;
    if i == 0 {
      InitInv(r[0]);
    } else {
      RunKeepsInv(r, i - 1);
      assert Moves(r[i - 1], r[i]);
      var t: Thread :| t in r[i - 1].pc && Step(r[i - 1], r[i], t);
      StepKeepsInv(r[i - 1], r[i], t);
    }
  }

  /** No abort, not even of the checks after waking, is ever taken: runcount is what each check expects. */
  lemma NoAbort(r: seq<Lock>, i: nat, t: Thread)
    requires Run(r) && i < |r| && t in r[i].pc
    ensures r[i].pc[t] == RdCheck || r[i].pc[t] == Reading ==> r[i].runcount > 0
    ensures r[i].pc[t] == WrCheck || r[i].pc[t] == Writing ==> r[i].runcount == -1
    ensures r[i].pc[t] != Aborted
  {
    RunKeepsInv(r, i);
    HolderIsCounted(r[i], t);
  }

  /** The holders exclude each other. */
  lemma Exclusion(r: seq<Lock>, i: nat, t: Thread, u: Thread)
    requires Run(r) && i < |r| && t in r[i].pc && u in r[i].pc && t != u && r[i].pc[t] == Writing
    ensures r[i].pc[u] != Writing && r[i].pc[u] != Reading
  {
    RunKeepsInv(r, i);
    HolderIsCounted(r[i], t);
    HolderIsCounted(r[i], u);
    if r[i].pc[u] == Writing {
      Single(At(r[i].pc, IsWriter), t, u);
    }
  }

  /**
   Hand-over: outside the critical section runcount counts exactly the holders
   and the threads let in, the queues hold exactly the waiting threads, and
   whoever waits has a holder in front of it whose unlock will let it in.
   */
  lemma HandOver(r: seq<Lock>, i: nat)
    requires Run(r) && i < |r| && r[i].owner == None
    ensures var s := r[i];
      && (if s.runcount == -1 then |At(s.pc, IsWriter)| == 1 && At(s.pc, IsReader) == {}
          else s.runcount == |At(s.pc, IsReader)| && At(s.pc, IsWriter) == {})
      && Queued(s.waiting_readers, s.pc, RdWait) && Queued(s.waiting_writers, s.pc, WrWait)
      && (s.waiting_readers != [] ==> Anyone(s.pc, IsWriter))
      && (s.waiting_writers != [] ==> Anyone(s.pc, IsWriter) || Anyone(s.pc, IsReader))
  {
    RunKeepsInv(r, i);
    AnyoneCounts(r[i].pc, IsWriter);
    AnyoneCounts(r[i].pc, IsReader);
  }
}
