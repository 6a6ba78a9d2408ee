/**
 The double-hashing probe sequence of message catalogues: with a prime table
 size it visits every slot exactly once before it repeats.
 */
module ProbeSequence {

  ghost predicate Prime(p: int) {
    p >= 2 && forall d :: 2 <= d < p ==> p % d != 0
  }

  /** The first slot of a hash value. */
  function First(hash: nat, m: int): (r: int)
    requires m > 2
    ensures 0 <= r < m
  {
    hash % m
  }

  /** The step width of a hash value. */
  function Incr(hash: nat, m: int): (r: int)
    requires m > 2
    ensures 1 <= r < m - 1
  {
    1 + hash % (m - 2)
  }

  /** One step, wrapping without ever forming a sum beyond the table size. */
  function Next(idx: int, incr: int, m: int): (r: int)
    requires 0 <= idx < m && 0 < incr < m
    ensures 0 <= r < m
  {
    if idx >= m - incr then idx - (m - incr) else idx + incr
  }

  /** The k-th slot probed for a hash value. */
  function Probe(hash: nat, m: int, k: nat): (r: int)
    requires m > 2
    ensures 0 <= r < m
  {
    if k == 0 then First(hash, m) else Next(Probe(hash, m, k - 1), Incr(hash, m), m)
  }

  lemma ProbeUnfolds(hash: nat, m: int, k: nat)
    requires m > 2
    ensures Probe(hash, m, 0) == hash % m && Incr(hash, m) == 1 + hash % (m - 2)
    ensures Probe(hash, m, k + 1) == Next(Probe(hash, m, k), Incr(hash, m), m)
  {
  }

  lemma ModUnique(x: int, q: int, r: int, m: int)
    requires m > 0 && x == q * m + r && 0 <= r < m
    ensures x % m == r && x / m == q
  {
    var d := x / m - q;
    assert (x / m) * m + x % m == x;
    assert d * m == (x / m) * m - q * m;
    MultipleBound(d, m);
  }

  lemma MultipleBound(d: int, m: int)
    requires m > 0
    ensures d >= 1 ==> d * m >= m
    ensures d <= 0 ==> d * m <= 0
    ensures d <= -1 ==> d * m <= -m
  {
  }

  lemma NextIsModular(idx: int, incr: int, m: int)
    requires 0 <= idx < m && 0 < incr < m
    ensures Next(idx, incr, m) == (idx + incr) % m
  {
    ModUnique(idx + incr, if idx >= m - incr then 1 else 0, Next(idx, incr, m), m);
  }

  lemma AddMultiple(x: int, t: int, d: int)
    requires d > 0
    ensures (x + t * d) % d == x % d
  {
    assert x == (x / d) * d + x % d;
    assert (x / d + t) * d == (x / d) * d + t * d;
    ModUnique(x + t * d, x / d + t, x % d, d);
  }

  /** Adding a step before or after taking the remainder comes to the same. */
  lemma StepUnderRemainder(x: int, incr: int, m: int)
    requires m > 0
    ensures (x % m + incr) % m == (x + incr) % m
  {
    AddMultiple(x % m + incr, x / m, m);
    assert x == (x / m) * m + x % m;
  }

  /** Where k steps lead in a table that never ends. */
  function Unwrapped(hash: nat, m: int, k: nat): int
    requires m > 2
  {
    First(hash, m) + k * Incr(hash, m)
  }

  lemma UnwrappedStep(hash: nat, m: int, k: nat)
    requires m > 2 && k > 0
    ensures Unwrapped(hash, m, k) == Unwrapped(hash, m, k - 1) + Incr(hash, m)
  {
    assert k * Incr(hash, m) == (k - 1) * Incr(hash, m) + Incr(hash, m);
  }

  lemma ProbeStep(hash: nat, m: int, k: nat)
    requires m > 2 && k > 0
    ensures Probe(hash, m, k) == (Probe(hash, m, k - 1) + Incr(hash, m)) % m
  {
    hide Incr, Next;
    NextIsModular(Probe(hash, m, k - 1), Incr(hash, m), m);
  }

  /** The k-th probe in closed form: k wrapping steps are k additions modulo the table size. */
  lemma {:induction false} ProbeIsModular(hash: nat, m: int, k: nat)
    requires m > 2
    ensures Probe(hash, m, k) == Unwrapped(hash, m, k) % m
  {
    if k == 0 {
      ModUnique(First(hash, m), 0, First(hash, m), m);
    } else {
      hide Probe, First, Incr, Unwrapped;
      ProbeIsModular(hash, m, k - 1);
      ProbeStep(hash, m, k);
      UnwrappedStep(hash, m, k);
      StepUnderRemainder(Unwrapped(hash, m, k - 1), Incr(hash, m), m);
    }
  }

  /** Euclid's lemma: a prime divides no product of two smaller positive numbers. */
  lemma {:induction false} NoZeroDivisors(p: int, a: int, b: int, q: int)
    requires Prime(p) && 0 < a < p && 0 < b < p
    ensures a * b != q * p
    decreases a
  {
    MultipleBound(q, p);
    if a * b == q * p {
      if a != 1 {
        var n, r := p / a, p % a;
        assert p == n * a + r;
        assert r != 0;
        assert n * (a * b) == n * (q * p);
        assert (n * a) * b == n * (a * b);
        assert (p - r) * b == (n * a) * b;
        assert (p - r) * b == p * b - r * b;
        assert n * (q * p) == (n * q) * p;
        assert (b - n * q) * p == b * p - (n * q) * p;
        NoZeroDivisors(p, r, b, b - n * q);
      }
    }
  }

  lemma EqualRemainders(x: int, y: int, m: int)
    requires m > 0 && x % m == y % m
    ensures y - x == (y / m - x / m) * m
  {
    assert x == (x / m) * m + x % m && y == (y / m) * m + y % m;
    assert (y / m - x / m) * m == (y / m) * m - (x / m) * m;
  }

  /** The first m probes are pairwise distinct. */
  lemma ProbesAreDistinct(hash: nat, m: int, j: nat, k: nat)
    requires m > 2 && Prime(m) && j < k < m
    ensures Probe(hash, m, j) != Probe(hash, m, k)
  {
    ProbeIsModular(hash, m, j);
    ProbeIsModular(hash, m, k);
    if Probe(hash, m, j) == Probe(hash, m, k) {
      var incr, x, y := Incr(hash, m), Unwrapped(hash, m, j), Unwrapped(hash, m, k);
      EqualRemainders(x, y, m);
      assert (k - j) * incr == k * incr - j * incr;
      NoZeroDivisors(m, k - j, incr, y / m - x / m);
    }
  }

  function Slots(m: nat): (s: set<int>)
    ensures |s| == m && forall i :: i in s <==> 0 <= i < m
  {
    if m == 0 then {} else Slots(m - 1) + {m - 1}
  }

  function Visited(hash: nat, m: int, n: nat): set<int>
    requires m > 2
  {
    if n == 0 then {} else Visited(hash, m, n - 1) + {Probe(hash, m, n - 1)}
  }

  lemma {:induction false} VisitedBy(hash: nat, m: int, n: nat, slot: int) returns (j: nat)
    requires m > 2 && slot in Visited(hash, m, n)
    ensures j < n && Probe(hash, m, j) == slot
  {
    if slot == Probe(hash, m, n - 1) {
      j := n - 1;
    } else {
      j := VisitedBy(hash, m, n - 1, slot);
    }
  }

  lemma {:induction false} VisitedSize(hash: nat, m: int, n: nat)
    requires m > 2 && Prime(m) && n <= m
    ensures |Visited(hash, m, n)| == n && Visited(hash, m, n) <= Slots(m)
  {
    hide Probe, Prime, Slots;
    if n > 0 {
      VisitedSize(hash, m, n - 1);
      if Probe(hash, m, n - 1) in Visited(hash, m, n - 1) {
        var j := VisitedBy(hash, m, n - 1, Probe(hash, m, n - 1));
        ProbesAreDistinct(hash, m, j, n - 1);
      }
    }
  }

  lemma SubsetSize(a: set<int>, b: set<int>)
    requires a <= b
    ensures |a| <= |b|
  {
    assert b == a + (b - a);
  }

  /** Every slot is reached within m probes. */
  lemma EverySlotIsProbed(hash: nat, m: int, slot: int) returns (k: nat)
    requires m > 2 && Prime(m) && 0 <= slot < m
    ensures k < m && Probe(hash, m, k) == slot
  {
    VisitedSize(hash, m, m);
    if slot !in Visited(hash, m, m) {
      SubsetSize(Visited(hash, m, m), Slots(m) - {slot});
    }
    k := VisitedBy(hash, m, m, slot);
  }

  /** Some probe of the hash value comes to the slot. */
  ghost predicate Reached(hash: nat, m: int, slot: int)
    requires m > 2
  {
    exists k: nat :: Probe(hash, m, k) == slot
  }

  ghost predicate ReachesEverySlot(hash: nat, m: int)
    requires m > 2
  {
    forall slot :: 0 <= slot < m ==> Reached(hash, m, slot)
  }

  /** Steps by a divisor of the table size keep the remainder by that divisor, wrapping or not. */
  lemma NextKeepsRemainder(idx: int, m: int, d: int)
    requires 0 <= idx < m && 0 < d < m && m % d == 0
    ensures Next(idx, d, m) % d == idx % d
  {
    var c := m / d;
    assert m == c * d;
    AddMultiple(idx, 1, d);
    AddMultiple(idx, 1 - c, d);
    assert (1 - c) * d == d - c * d;
  }

  lemma ProperDivisorIsSmall(m: int, d: int)
    requires 2 <= d < m && m % d == 0
    ensures d <= m - 2
  {
    var c := m / d;
    assert m == c * d;
    MultipleBound(c - 1, d);
    assert (c - 1) * d == c * d - d;
  }

  /**
   A divisor d of the table size is the step of the hash value d - 1, so that its probes
   keep the remainder d - 1, however long the probing goes on.
   */
  lemma {:induction false} ProbesKeepRemainder(m: int, d: int, k: nat)
    requires m > 2 && 2 <= d < m && m % d == 0
    ensures Probe(d - 1, m, k) % d == d - 1
  {
    hide Next;
    ProperDivisorIsSmall(m, d);
    if k == 0 {
      ModUnique(d - 1, 0, d - 1, m);
      ModUnique(d - 1, 0, d - 1, d);
    } else {
      ProbesKeepRemainder(m, d, k - 1);
      ModUnique(d - 1, 0, d - 1, m - 2);
      NextKeepsRemainder(Probe(d - 1, m, k - 1), m, d);
    }
  }

  /** A proper divisor of the table size gives a hash value that never reaches slot 0. */
  lemma DivisorMissesSlot(m: int, d: int)
    requires m > 2 && 2 <= d < m && m % d == 0
    ensures !Reached(d - 1, m, 0)
  {
    var hash := d - 1;
    forall k: nat ensures Probe(hash, m, k) != 0 {
      ProbesKeepRemainder(m, d, k);
    }
  }

  lemma PrimeReachesSlot(hash: nat, m: int, slot: int)
    requires m > 2 && Prime(m) && 0 <= slot < m
    ensures Reached(hash, m, slot)
  {
    var k := EverySlotIsProbed(hash, m, slot);
  }

  /**
   Every slot is within reach of every hash value exactly if the table size is prime,
   and hash values below the size already tell.
   */
  lemma PrimeSizesReachEverySlot(m: int)
    requires m > 2
    ensures Prime(m) <==> forall hash: nat :: ReachesEverySlot(hash, m)
    ensures Prime(m) <==> forall hash: nat :: hash < m ==> ReachesEverySlot(hash, m)
  {
    hide Reached;
    if Prime(m) {
      forall hash: nat, slot | 0 <= slot < m ensures Reached(hash, m, slot) {
        PrimeReachesSlot(hash, m, slot);
      }
    } else {
      var d :| 2 <= d < m && m % d == 0;
      DivisorMissesSlot(m, d);
      assert !ReachesEverySlot(d - 1, m);
    }
  }
}
