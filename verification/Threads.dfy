/**
 Threads and the places they are at, for protocols modelled as interleaved steps.
 */
module Threads {

  type Thread = nat

  /** The threads at places that satisfy f. */
  function At<P>(pc: map<Thread, P>, f: P -> bool): set<Thread> {
    set t | t in pc && f(pc[t])
  }

  ghost predicate Anyone<P>(pc: map<Thread, P>, f: P -> bool) {
    exists t :: t in pc && f(pc[t])
  }

  /** Moving one thread changes a count by what the thread stops and starts being. */
  lemma Moved<P>(pc: map<Thread, P>, t: Thread, p: P, f: P -> bool)
    requires t in pc
    ensures At(pc[t := p], f) == if f(p) then At(pc, f) + {t} else At(pc, f) - {t}
    ensures |At(pc[t := p], f)| == |At(pc, f)| + (if f(p) then 1 else 0) - (if f(pc[t]) then 1 else 0)
  {
    var a, b := At(pc, f), At(pc[t := p], f);
    assert b == if f(p) then a + {t} else a - {t};
    if f(pc[t]) { assert t in a; }
  }

  lemma MovedAnyone<P>(pc: map<Thread, P>, t: Thread, p: P, f: P -> bool)
    requires t in pc
    ensures f(p) ==> Anyone(pc[t := p], f)
    ensures Anyone(pc[t := p], f) ==> f(p) || Anyone(pc, f)
    ensures Anyone(pc, f) ==> f(pc[t]) || Anyone(pc[t := p], f)
    ensures f(pc[t]) ==> Anyone(pc, f)
  {
    if f(p) {
      assert t in pc[t := p] && f(pc[t := p][t]);
    }
    if u :| u in pc && f(pc[u]) && u != t {
      assert u in pc[t := p] && f(pc[t := p][u]);
    }
  }

  lemma AnyoneCounts<P>(pc: map<Thread, P>, f: P -> bool)
    ensures Anyone(pc, f) <==> |At(pc, f)| > 0
  {
    if Anyone(pc, f) {
      var t :| t in pc && f(pc[t]);
      assert t in At(pc, f);
    }
    if |At(pc, f)| > 0 {
      var t :| t in At(pc, f);
    }
  }

  lemma Single(s: set<Thread>, t: Thread, u: Thread)
    requires |s| <= 1 && t in s && u in s
    ensures t == u
  {
    assert |s - {t}| == 0;
  }
}
