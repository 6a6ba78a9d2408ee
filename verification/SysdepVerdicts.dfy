/**
 What becomes of a system dependent string, told by its references to segment
 values alone: which strings make the file invalid, which pairs are kept, and
 where the parts of a kept string stand in its expansion.
 */
module SysdepVerdicts {
  import opened SysdepStrings

  /** Segment i has a reference to a segment value. */
  predicate Refers(segments: seq<Segment>, i: nat)
    requires i < |segments|
  {
    segments[i].sysdepref != SEGMENTS_END
  }

  /** The reference is in range, and its value is defined on this system. */
  predicate Resolves(segments: seq<Segment>, values: Values, i: nat)
    requires i < |segments|
  {
    segments[i].sysdepref < |values| && values[segments[i].sysdepref].Some?
  }

  ghost predicate AllResolve(segments: seq<Segment>, values: Values) {
    forall i :: 0 <= i < |segments| && Refers(segments, i) ==> Resolves(segments, values, i)
  }

  /** Reference i is out of range, and the loop comes to it. */
  ghost predicate FailsAt(segments: seq<Segment>, values: Values, i: nat)
    requires i < |segments|
  {
    && Refers(segments, i) && segments[i].sysdepref >= |values|
    && forall j :: 0 <= j < i ==> Resolves(segments, values, j)
  }

  ghost predicate Fails(segments: seq<Segment>, values: Values) {
    exists i :: 0 <= i < |segments| && FailsAt(segments, values, i)
  }

  lemma FirstDecides(segments: seq<Segment>, values: Values)
    requires Terminated(segments) && Refers(segments, 0)
    ensures AllResolve(segments, values) <==> Resolves(segments, values, 0) && AllResolve(segments[1..], values)
    ensures Fails(segments, values) <==>
      segments[0].sysdepref >= |values| || (Resolves(segments, values, 0) && Fails(segments[1..], values))
  {
    var tail := segments[1..];
    if AllResolve(tail, values) && Resolves(segments, values, 0) {
      forall i | 0 <= i < |segments| && Refers(segments, i) ensures Resolves(segments, values, i) {
        if i > 0 {
          assert Refers(tail, i - 1) && Resolves(tail, values, i - 1);
        }
      }
    }
    if AllResolve(segments, values) {
      forall i | 0 <= i < |tail| && Refers(tail, i) ensures Resolves(tail, values, i) {
        assert Refers(segments, i + 1) && Resolves(segments, values, i + 1);
      }
    }
    FailureMoves(segments, values);
  }

  lemma FailureMoves(segments: seq<Segment>, values: Values)
    requires |segments| > 0 && Refers(segments, 0)
    ensures Fails(segments, values) <==>
      segments[0].sysdepref >= |values| || (Resolves(segments, values, 0) && Fails(segments[1..], values))
  {
    var tail := segments[1..];
    if segments[0].sysdepref >= |values| {
      assert FailsAt(segments, values, 0);
    }
    if i :| 0 <= i < |tail| && FailsAt(tail, values, i) && Resolves(segments, values, 0) {
      forall j | 0 <= j < i + 1 ensures Resolves(segments, values, j) {
        if j > 0 {
          assert Resolves(tail, values, j - 1);
        }
      }
      assert FailsAt(segments, values, i + 1);
    }
    if i :| 0 <= i < |segments| && FailsAt(segments, values, i) && i > 0 {
      forall j | 0 <= j < i - 1 ensures Resolves(tail, values, j) {
        assert Resolves(segments, values, j + 1);
      }
      assert FailsAt(tail, values, i - 1);
    }
  }

  /** Both verdicts, by the references alone. */
  lemma {:induction false} VerdictIsExact(segments: seq<Segment>, values: Values)
    requires Terminated(segments)
    ensures Judge(segments, values) == Defined <==> AllResolve(segments, values)
    ensures Judge(segments, values) == OutOfRange <==> Fails(segments, values)
    decreases |segments|
  {
    if Refers(segments, 0) {
      TailIsTerminated(segments);
      VerdictIsExact(segments[1..], values);
      FirstDecides(segments, values);
    } else {
      assert |segments| == 1;
    }
  }

  /** Both strings of the pair can be expanded. */
  ghost predicate Expands(p: Pair, values: Values) {
    AllResolve(p.orig.segments, values) && AllResolve(p.trans.segments, values)
  }

  /** A string of the pair that is reached refers to a segment value that is not there. */
  ghost predicate Invalidates(p: Pair, values: Values) {
    Fails(p.orig.segments, values) || (AllResolve(p.orig.segments, values) && Fails(p.trans.segments, values))
  }

  lemma PairVerdictIsExact(p: Pair, values: Values)
    requires PairStored(p)
    ensures JudgePair(p, values) == Defined <==> Expands(p, values)
    ensures JudgePair(p, values) == OutOfRange <==> Invalidates(p, values)
  {
    VerdictIsExact(p.orig.segments, values);
    VerdictIsExact(p.trans.segments, values);
  }

  /** The file is refused exactly for a pair that invalidates it. */
  lemma RejectionIsExact(pairs: seq<Pair>, values: Values)
    requires AllStored(pairs)
    ensures !NoneRejected(pairs, values) <==> exists i :: 0 <= i < |pairs| && Invalidates(pairs[i], values)
  {
    hide Invalidates, Expands, JudgePair, PairStored;
    forall i | 0 <= i < |pairs| ensures JudgePair(pairs[i], values) == OutOfRange <==> Invalidates(pairs[i], values) {
      PairVerdictIsExact(pairs[i], values);
    }
  }

  lemma KeptLast(pairs: seq<Pair>, values: Values)
    requires AllStored(pairs) && pairs != []
    ensures var n := |pairs| - 1;
      AllStored(pairs[..n])
      && Kept(pairs, values) == Kept(pairs[..n], values) + if Expands(pairs[n], values) then [pairs[n]] else []
  {
    PairVerdictIsExact(pairs[|pairs| - 1], values);
    hide Expands, JudgePair, PairStored;
  }

  /** at lists the places of the pairs that can be expanded, in order, and kept the pairs there. */
  ghost predicate Picks(pairs: seq<Pair>, values: Values, at: seq<nat>, kept: seq<Pair>) {
    && |at| == |kept| && (forall j, k :: 0 <= j < k < |at| ==> at[j] < at[k])
    && (forall j :: 0 <= j < |at| ==> at[j] < |pairs| && kept[j] == pairs[at[j]])
    && (forall i: nat :: i in at <==> i < |pairs| && Expands(pairs[i], values))
  }

  lemma PicksNext(pairs: seq<Pair>, values: Values, at: seq<nat>, kept: seq<Pair>)
    requires pairs != [] && Picks(pairs[..|pairs| - 1], values, at, kept)
    ensures var n := |pairs| - 1;
      if Expands(pairs[n], values) then Picks(pairs, values, at + [n], kept + [pairs[n]])
      else Picks(pairs, values, at, kept)
  {
    hide Expands;
    var n := |pairs| - 1;
    assert forall i :: 0 <= i < n ==> pairs[..n][i] == pairs[i];
  }

  lemma NothingPicked(pairs: seq<Pair>, values: Values)
    requires pairs == []
    ensures Picks(pairs, values, [], Kept(pairs, values))
  {
  }

  /** What is kept: the pairs that can be expanded, in their order. */
  lemma {:induction false} KeptIsExact(pairs: seq<Pair>, values: Values) returns (at: seq<nat>)
    requires AllStored(pairs)
    ensures Picks(pairs, values, at, Kept(pairs, values))
    decreases |pairs|
  {
    hide Picks, Expands, Kept, AllStored, JudgePair;
    at := [];
    if pairs == [] {
      NothingPicked(pairs, values);
    } else {
      var n := |pairs| - 1;
      KeptLast(pairs, values);
      var before := KeptIsExact(pairs[..n], values);
      PicksNext(pairs, values, before, Kept(pairs[..n], values));
      if Expands(pairs[n], values) {
        at := before + [n];
      } else {
        assert Kept(pairs, values) == Kept(pairs[..n], values);
        at := before;
      }
    }
  }

  /** The value behind segment i. */
  function ValueAt(segments: seq<Segment>, values: Values, i: nat): string
    requires i < |segments|
  {
    if Resolves(segments, values, i) then values[segments[i].sysdepref].value else ""
  }

  /** The bytes of the static segments before segment k, and where it starts in the expansion. */
  function StaticBefore(segments: seq<Segment>, k: nat): nat
    requires k <= |segments|
  {
    if k == 0 then 0 else StaticBefore(segments, k - 1) + segments[k - 1].segsize
  }

  function Place(segments: seq<Segment>, values: Values, k: nat): nat
    requires k <= |segments|
  {
    if k == 0 then 0 else Place(segments, values, k - 1) + segments[k - 1].segsize + |ValueAt(segments, values, k - 1)|
  }

  lemma {:induction false} PlaceInTail(segments: seq<Segment>, values: Values, k: nat)
    requires 0 < k <= |segments|
    ensures Place(segments, values, k)
      == segments[0].segsize + |ValueAt(segments, values, 0)| + Place(segments[1..], values, k - 1)
    ensures StaticBefore(segments, k) == segments[0].segsize + StaticBefore(segments[1..], k - 1)
  {
    if k > 1 {
      PlaceInTail(segments, values, k - 1);
    }
  }

  /** text has the piece at a place. */
  predicate HasAt(text: string, at: nat, piece: string) {
    at + |piece| <= |text| && text[at..at + |piece|] == piece
  }

  /** The part that static segment k and the value behind it make of the expansion. */
  ghost predicate StandsAt(segments: seq<Segment>, bytes: string, values: Values, text: string, k: nat)
    requires k < |segments|
  {
    var from, at, n := StaticBefore(segments, k), Place(segments, values, k), segments[k].segsize;
    && from + n <= |bytes| && HasAt(text, at, bytes[from..from + n])
    && if Refers(segments, k) then Resolves(segments, values, k) && HasAt(text, at + n, ValueAt(segments, values, k))
       else |text| == at + n
  }

  /** Every static segment stands in the expansion behind the earlier ones and their values, its own value behind it. */
  lemma {:induction false} ExpansionIsExact(segments: seq<Segment>, bytes: string, values: Values, k: nat)
    requires Expandable(segments, bytes, values) && k < |segments|
    ensures StandsAt(segments, bytes, values, Expand(segments, bytes, values), k)
    decreases k
  {
    ExpandStep(segments, bytes, values);
    if k > 0 {
      assert Refers(segments, 0) && Resolves(segments, values, 0);
      ExpansionIsExact(segments[1..], bytes[segments[0].segsize..], values, k - 1);
      hide Expand, Judge, Terminated, StaticSize, StandsAt, Expandable;
      var tail := Expand(segments[1..], bytes[segments[0].segsize..], values);
      Shifted(segments, bytes, values, bytes[..segments[0].segsize] + ValueAt(segments, values, 0), tail, k);
    } else {
      hide Expand, Judge, StaticSize;
    }
  }

  lemma Shifted(segments: seq<Segment>, bytes: string, values: Values, head: string, tail: string, k: nat)
    requires 0 < k < |segments| && segments[0].segsize <= |bytes|
    requires |head| == segments[0].segsize + |ValueAt(segments, values, 0)|
    requires StandsAt(segments[1..], bytes[segments[0].segsize..], values, tail, k - 1)
    ensures StandsAt(segments, bytes, values, head + tail, k)
  {
    hide Place, StaticBefore, HasAt, ValueAt, Resolves, Refers;
    PlaceInTail(segments, values, k);
    SameSegment(segments, values, k);
    var n, m := segments[0].segsize, segments[k].segsize;
    var from, at := StaticBefore(segments[1..], k - 1), Place(segments[1..], values, k - 1);
    SliceBehind(bytes, n, from, m);
    HasBehind(head, tail, at, bytes[n + from..n + from + m]);
    if Refers(segments, k) {
      HasBehind(head, tail, at + m, ValueAt(segments, values, k));
    }
  }

  lemma SameSegment(segments: seq<Segment>, values: Values, k: nat)
    requires 0 < k < |segments|
    ensures segments[1..][k - 1] == segments[k] && Refers(segments[1..], k - 1) == Refers(segments, k)
    ensures Resolves(segments[1..], values, k - 1) == Resolves(segments, values, k)
    ensures ValueAt(segments[1..], values, k - 1) == ValueAt(segments, values, k)
  {
  }

  lemma SliceBehind(bytes: string, n: nat, from: nat, m: nat)
    requires n <= |bytes| && from + m <= |bytes[n..]|
    ensures n + from + m <= |bytes| && bytes[n..][from..from + m] == bytes[n + from..n + from + m]
  {
  }

  lemma HasBehind(head: string, tail: string, at: nat, piece: string)
    requires HasAt(tail, at, piece)
    ensures HasAt(head + tail, |head| + at, piece)
  {
    assert (head + tail)[|head| + at..|head| + at + |piece|] == tail[at..at + |piece|];
  }
}
