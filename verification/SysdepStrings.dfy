/**
 Loading the system dependent strings of a catalogue: a sizing pass, one
 allocation, and a filling pass that must use exactly what was measured.
 */
module SysdepStrings {
  import opened Options

  /** SEGMENTS_END */
  const SEGMENTS_END: nat := 0xFFFF_FFFF

  /** `struct segment_pair`: the size of a static segment and the segment value that follows it. */
  datatype Segment = Segment(segsize: nat, sysdepref: nat)

  /** `struct sysdep_string`: the static bytes, and the segments that cut and extend them. */
  datatype SysdepString = SysdepString(bytes: string, segments: seq<Segment>)

  /** In the file the segments end at the first end marker, and the static segments lie inside the static bytes. */
  ghost predicate Terminated(segments: seq<Segment>) {
    && segments != []
    && segments[|segments| - 1].sysdepref == SEGMENTS_END
    && forall i :: 0 <= i < |segments| - 1 ==> segments[i].sysdepref != SEGMENTS_END
  }

  function StaticSize(segments: seq<Segment>): nat {
    if segments == [] then 0 else segments[0].segsize + StaticSize(segments[1..])
  }

  ghost predicate WellStored(s: SysdepString) {
    Terminated(s.segments) && StaticSize(s.segments) <= |s.bytes|
  }

  type Values = seq<Option<string>>

  /** How a string ends up: expandable, dropped for an undefined segment value, or a reason to reject the file. */
  datatype Verdict = Defined | Undefined | OutOfRange

  function Judge(segments: seq<Segment>, values: Values): Verdict {
    if segments == [] || segments[0].sysdepref == SEGMENTS_END then Defined
    else if segments[0].sysdepref >= |values| then OutOfRange
    else if values[segments[0].sysdepref].None? then Undefined
    else Judge(segments[1..], values)
  }

  /** The text a defined string denotes. */
  function Expand(segments: seq<Segment>, bytes: string, values: Values): string
    requires Terminated(segments) && StaticSize(segments) <= |bytes| && Judge(segments, values) == Defined
  {
    var s := segments[0];
    if s.sysdepref == SEGMENTS_END then bytes[..s.segsize]
    else bytes[..s.segsize] + values[s.sysdepref].value + Expand(segments[1..], bytes[s.segsize..], values)
  }

  /** Whether a string is a single static segment, which stays where it is in the file. */
  predicate InFile(s: SysdepString) {
    s.segments == [] || s.segments[0].sysdepref == SEGMENTS_END
  }

  /** The bytes of memory a string needs. */
  function Need(s: SysdepString, values: Values): nat
    requires WellStored(s) && Judge(s.segments, values) == Defined
  {
    if InFile(s) then 0 else |Expand(s.segments, s.bytes, values)|
  }

  lemma TailIsTerminated(segments: seq<Segment>)
    requires Terminated(segments) && segments[0].sysdepref != SEGMENTS_END
    ensures Terminated(segments[1..])
  {
    assert segments[1..][|segments| - 2] == segments[|segments| - 1];
  }

  /** The sizing loop over the segments of one string. */
  method SizeString(s: SysdepString, values: Values) returns (verdict: Verdict, need: nat)
    requires WellStored(s)
    ensures verdict == Judge(s.segments, values)
    ensures verdict == Defined ==> need == Need(s, values)
  {
    need := 0;
    if s.segments[0].sysdepref == SEGMENTS_END {
      return Defined, 0;
    }
    var p := 0;
    ghost var rest := s.bytes;
    while true
      invariant 0 <= p < |s.segments| && Terminated(s.segments[p..])
      invariant StaticSize(s.segments[p..]) <= |rest|
      invariant Judge(s.segments[p..], values) == Judge(s.segments, values)
      invariant Judge(s.segments, values) == Defined ==>
        need + |Expand(s.segments[p..], rest, values)| == |Expand(s.segments, s.bytes, values)|
      decreases |s.segments| - p
    {
      var seg := s.segments[p];
      need := need + seg.segsize;
      if seg.sysdepref == SEGMENTS_END {
        return Defined, need;
      }
      if seg.sysdepref >= |values| {
        return OutOfRange, need;
      }
      if values[seg.sysdepref].None? {
        return Undefined, need;
      }
      need := need + |values[seg.sysdepref].value|;
      TailIsTerminated(s.segments[p..]);
      assert s.segments[p..][1..] == s.segments[p + 1..];
      rest := rest[seg.segsize..];
      p := p + 1;
    }
  }

  /** The validity loop of the filling pass; it does not check the range of references again. */
  method CheckString(s: SysdepString, values: Values) returns (valid: bool)
    requires WellStored(s) && Judge(s.segments, values) != OutOfRange
    ensures valid <==> Judge(s.segments, values) == Defined
  {
    if s.segments[0].sysdepref == SEGMENTS_END {
      return true;
    }
    var p := 0;
    while true
      invariant 0 <= p < |s.segments| && Terminated(s.segments[p..])
      invariant Judge(s.segments[p..], values) == Judge(s.segments, values)
      decreases |s.segments| - p
    {
      var sysdepref := s.segments[p].sysdepref;
      if sysdepref == SEGMENTS_END {
        return true;
      }
      if values[sysdepref].None? {
        return false;
      }
      TailIsTerminated(s.segments[p..]);
      assert s.segments[p..][1..] == s.segments[p + 1..];
      p := p + 1;
    }
  }

  /** An in-memory descriptor: a string left in the file, or a stretch of the allocated memory. */
  datatype Desc = FileDesc(text: string) | MemDesc(pointer: nat, length: nat)

  predicate Inside(d: Desc, limit: nat) {
    d.MemDesc? ==> d.pointer + d.length <= limit
  }

  function Contents(d: Desc, mem: seq<char>): string
    requires Inside(d, |mem|)
  {
    match d
    case FileDesc(text) => text
    case MemDesc(pointer, length) => mem[pointer..pointer + length]
  }

  /** `memcpy` to position `at`. */
  method CopyTo(mem: array<char>, at: nat, src: string)
    requires at + |src| <= mem.Length
    modifies mem
    ensures mem[..] == old(mem[..at]) + src + old(mem[at + |src|..])
  {
    for i := 0 to |src|
      invariant mem[..at] == old(mem[..at]) && mem[at + i..] == old(mem[at + i..])
      invariant mem[at..at + i] == src[..i]
    {
      mem[at + i] := src[i];
    }
    assert mem[..] == mem[..at] + mem[at..at + |src|] + mem[at + |src|..];
  }

  /** Appends src behind what has been written since `from`. */
  method Append(mem: array<char>, from: nat, at: nat, src: string, ghost written: string)
    requires from + |written| == at && at + |src| <= mem.Length && mem[from..at] == written
    modifies mem
    ensures mem[..from] == old(mem[..from]) && mem[from..at + |src|] == written + src
  {
    CopyTo(mem, at, src);
    ghost var now := mem[..];
    assert now[..at] == old(mem[..at]) && now[at..at + |src|] == src;
    assert mem[..from] == now[..at][..from] && mem[from..at] == now[..at][from..];
    assert mem[from..at + |src|] == mem[from..at] + mem[at..at + |src|];
  }

  /** Segments that can be expanded. */
  ghost predicate Expandable(segments: seq<Segment>, bytes: string, values: Values) {
    Terminated(segments) && StaticSize(segments) <= |bytes| && Judge(segments, values) == Defined
  }

  lemma ExpandStep(segments: seq<Segment>, bytes: string, values: Values)
    requires Expandable(segments, bytes, values)
    ensures segments != [] && segments[0].segsize <= |bytes|
    ensures segments[0].sysdepref == SEGMENTS_END ==> Expand(segments, bytes, values) == bytes[..segments[0].segsize]
    ensures segments[0].sysdepref != SEGMENTS_END ==>
      && segments[0].sysdepref < |values| && values[segments[0].sysdepref].Some?
      && Expandable(segments[1..], bytes[segments[0].segsize..], values)
      && Expand(segments, bytes, values) == bytes[..segments[0].segsize] + values[segments[0].sysdepref].value
         + Expand(segments[1..], bytes[segments[0].segsize..], values)
  {
    assert segments != [];
    if segments[0].sysdepref != SEGMENTS_END {
      TailIsTerminated(segments);
      hide Terminated;
      assert StaticSize(segments) == segments[0].segsize + StaticSize(segments[1..]);
      assert Judge(segments[1..], values) == Defined;
      assert Expandable(segments[1..], bytes[segments[0].segsize..], values);
    }
  }

  /** One round of the concatenation loop: a static segment and the value behind it, if any. */
  method FillSegment(seg: Segment, bytes: string, values: Values, mem: array<char>, from: nat, at: nat,
          ghost written: string)
    returns (next: nat)
    requires seg.segsize <= |bytes|
    requires seg.sysdepref != SEGMENTS_END ==> seg.sysdepref < |values| && values[seg.sysdepref].Some?
    requires from + |written| == at && mem.Length >= at + |SegmentText(seg, bytes, values)| && mem[from..at] == written
    modifies mem
    ensures next == at + |SegmentText(seg, bytes, values)|
    ensures mem[..from] == old(mem[..from]) && mem[from..next] == written + SegmentText(seg, bytes, values)
  {
    assert seg.sysdepref == SEGMENTS_END ==> SegmentText(seg, bytes, values) == bytes[..seg.segsize];
    assert seg.sysdepref != SEGMENTS_END ==>
      SegmentText(seg, bytes, values) == bytes[..seg.segsize] + values[seg.sysdepref].value;
    hide SegmentText;
    var here := bytes[..seg.segsize];
    Append(mem, from, at, here, written);
    next := at + seg.segsize;
    if seg.sysdepref != SEGMENTS_END {
      var value := values[seg.sysdepref].value;
      Append(mem, from, next, value, written + here);
      next := next + |value|;
      Associative(written, here, value);
    }
  }

  lemma Associative(a: string, b: string, c: string)
    ensures (a + b) + c == a + (b + c)
  {
  }

  ghost function SegmentText(seg: Segment, bytes: string, values: Values): string
    requires seg.segsize <= |bytes|
    requires seg.sysdepref != SEGMENTS_END ==> seg.sysdepref < |values| && values[seg.sysdepref].Some?
  {
    if seg.sysdepref == SEGMENTS_END then bytes[..seg.segsize]
    else bytes[..seg.segsize] + values[seg.sysdepref].value
  }

  /** The concatenation loop: writes a defined string at mem[at..] and describes it. */
  method FillString(s: SysdepString, values: Values, mem: array<char>, at: nat) returns (desc: Desc, next: nat)
    requires WellStored(s) && Judge(s.segments, values) == Defined && at + Need(s, values) <= mem.Length
    modifies mem
    ensures next == at + Need(s, values) && mem[..at] == old(mem[..at])
    ensures Inside(desc, next) && Contents(desc, mem[..]) == Expand(s.segments, s.bytes, values)
  {
    ExpandStep(s.segments, s.bytes, values);
    if s.segments[0].sysdepref == SEGMENTS_END {
      return FileDesc(s.bytes[..s.segments[0].segsize]), at;
    }
    next := FillSegments(s, values, mem, at);
    desc := MemDesc(at, next - at);
    assert mem[..][at..next] == mem[at..next];
  }

  method FillSegments(s: SysdepString, values: Values, mem: array<char>, at: nat) returns (next: nat)
    requires Expandable(s.segments, s.bytes, values) && at + |Expand(s.segments, s.bytes, values)| <= mem.Length
    modifies mem
    ensures next == at + |Expand(s.segments, s.bytes, values)|
    ensures mem[..at] == old(mem[..at]) && mem[at..next] == Expand(s.segments, s.bytes, values)
  {
    hide Judge, StaticSize, Terminated, Expand, SegmentText;
    ghost var whole := Expand(s.segments, s.bytes, values);
    next := at;
    var p := 0;
    var static_segments := s.bytes;
    ghost var written := "";
    NotEmpty(s.segments, s.bytes, values);
    assert s.segments[0..] == s.segments && written + whole == whole;
    while true
      invariant 0 <= p < |s.segments| && Expandable(s.segments[p..], static_segments, values)
      invariant at <= next == at + |written| && at + |whole| <= mem.Length
      invariant whole == written + Expand(s.segments[p..], static_segments, values)
      invariant mem[..at] == old(mem[..at]) && mem[at..next] == written
      decreases |s.segments| - p
    {
      var seg := s.segments[p];
      assert s.segments[p..][0] == seg && s.segments[p..][1..] == s.segments[p + 1..];
      ExpandSegment(s.segments[p..], static_segments, values);
      ghost var text := SegmentText(seg, static_segments, values);
      next := FillSegment(seg, static_segments, values, mem, at, next, written);
      written := written + text;
      if seg.sysdepref == SEGMENTS_END {
        return;
      }
      static_segments := static_segments[seg.segsize..];
      p := p + 1;
      NotEmpty(s.segments[p..], static_segments, values);
    }
  }

  /** The first segment and what it leaves to expand. */
  lemma ExpandSegment(segments: seq<Segment>, bytes: string, values: Values)
    requires Expandable(segments, bytes, values)
    ensures segments != [] && segments[0].segsize <= |bytes|
    ensures segments[0].sysdepref != SEGMENTS_END ==>
      segments[0].sysdepref < |values| && values[segments[0].sysdepref].Some?
    ensures segments[0].sysdepref == SEGMENTS_END ==>
      Expand(segments, bytes, values) == SegmentText(segments[0], bytes, values)
    ensures segments[0].sysdepref != SEGMENTS_END ==>
      && Expandable(segments[1..], bytes[segments[0].segsize..], values)
      && Expand(segments, bytes, values)
         == SegmentText(segments[0], bytes, values) + Expand(segments[1..], bytes[segments[0].segsize..], values)
  {
    hide Expand;
    ExpandStep(segments, bytes, values);
  }

  lemma NotEmpty(segments: seq<Segment>, bytes: string, values: Values)
    requires Expandable(segments, bytes, values)
    ensures segments != []
  {
  }

  /** An original string and its translation. */
  datatype Pair = Pair(orig: SysdepString, trans: SysdepString)

  ghost predicate PairStored(p: Pair) {
    WellStored(p.orig) && WellStored(p.trans)
  }

  /** The translation is looked at only when the original is defined. */
  function JudgePair(p: Pair, values: Values): Verdict {
    if Judge(p.orig.segments, values) != Defined then Judge(p.orig.segments, values)
    else Judge(p.trans.segments, values)
  }

  ghost predicate AllStored(pairs: seq<Pair>) {
    forall i :: 0 <= i < |pairs| ==> PairStored(pairs[i])
  }

  ghost predicate NoneRejected(pairs: seq<Pair>, values: Values) {
    forall i :: 0 <= i < |pairs| ==> JudgePair(pairs[i], values) != OutOfRange
  }

  /** The pairs that survive, in order. */
  function Kept(pairs: seq<Pair>, values: Values): (r: seq<Pair>)
    ensures |r| <= |pairs| && forall i :: 0 <= i < |r| ==> r[i] in pairs && JudgePair(r[i], values) == Defined
  {
    if pairs == [] then []
    else
      var last := pairs[|pairs| - 1];
      Kept(pairs[..|pairs| - 1], values) + (if JudgePair(last, values) == Defined then [last] else [])
  }

  function PairNeed(p: Pair, values: Values): nat
    requires PairStored(p) && JudgePair(p, values) == Defined
  {
    Need(p.orig, values) + Need(p.trans, values)
  }

  /** The bytes all surviving strings need. */
  function TotalNeed(kept: seq<Pair>, values: Values): nat
    requires forall i :: 0 <= i < |kept| ==> PairStored(kept[i]) && JudgePair(kept[i], values) == Defined
  {
    if kept == [] then 0 else TotalNeed(kept[..|kept| - 1], values) + PairNeed(kept[|kept| - 1], values)
  }

  lemma KeptIsStored(pairs: seq<Pair>, values: Values)
    requires AllStored(pairs)
    ensures forall i :: 0 <= i < |Kept(pairs, values)| ==>
      PairStored(Kept(pairs, values)[i]) && JudgePair(Kept(pairs, values)[i], values) == Defined
  {
  }

  /** One more pair. */
  lemma KeptNext(pairs: seq<Pair>, values: Values, i: nat)
    requires AllStored(pairs) && i < |pairs|
    ensures AllStored(pairs[..i]) && AllStored(pairs[..i + 1])
    ensures var k, k' := Kept(pairs[..i], values), Kept(pairs[..i + 1], values);
      && (forall j :: 0 <= j < |k| ==> PairStored(k[j]) && JudgePair(k[j], values) == Defined)
      && (forall j :: 0 <= j < |k'| ==> PairStored(k'[j]) && JudgePair(k'[j], values) == Defined)
      && (JudgePair(pairs[i], values) != Defined ==> k' == k)
      && (JudgePair(pairs[i], values) == Defined ==>
            k' == k + [pairs[i]] && TotalNeed(k', values) == TotalNeed(k, values) + PairNeed(pairs[i], values))
  {
    KeptIsStored(pairs[..i], values);
    KeptIsStored(pairs[..i + 1], values);
    assert pairs[..i + 1][..i] == pairs[..i];
    var k, k' := Kept(pairs[..i], values), Kept(pairs[..i + 1], values);
    if JudgePair(pairs[i], values) == Defined {
      assert k'[..|k|] == k;
    }
  }

  /** Earlier pairs need no more than all of them. */
  lemma {:induction false} KeptGrows(pairs: seq<Pair>, values: Values, i: nat)
    requires AllStored(pairs) && i <= |pairs|
    ensures AllStored(pairs[..i])
    ensures var k, all := Kept(pairs[..i], values), Kept(pairs, values);
      && (forall j :: 0 <= j < |k| ==> PairStored(k[j]) && JudgePair(k[j], values) == Defined)
      && (forall j :: 0 <= j < |all| ==> PairStored(all[j]) && JudgePair(all[j], values) == Defined)
      && k <= all && TotalNeed(k, values) <= TotalNeed(all, values)
    decreases |pairs| - i
  {
    hide AllStored, PairStored, JudgePair, Kept, TotalNeed, PairNeed;
    KeptIsStored(pairs, values);
    if i == |pairs| {
      assert pairs[..i] == pairs;
    } else {
      KeptNext(pairs, values, i);
      KeptGrows(pairs, values, i + 1);
    }
  }

  /** The bytes the strings of the surviving pairs need. */
  function StringsNeed(pairs: seq<Pair>, values: Values): nat
    requires AllStored(pairs)
  {
    KeptIsStored(pairs, values);
    TotalNeed(Kept(pairs, values), values)
  }

  /** The memory the sizing pass computes: both descriptor tables, the hash table, and the strings. */
  function MemNeed(pairs: seq<Pair>, values: Values, hash_size: nat, desc_size: nat): nat
    requires AllStored(pairs)
  {
    hash_size * 4 + StringsNeed(pairs, values) + 2 * |Kept(pairs, values)| * desc_size
  }

  /** The sizing loop over both strings of a pair. */
  method SizePair(p: Pair, values: Values) returns (verdict: Verdict, need: nat)
    requires PairStored(p)
    ensures verdict == JudgePair(p, values)
    ensures verdict == Defined ==> need == PairNeed(p, values)
  {
    hide Judge, Need;
    var need1 := 0;
    verdict, need := SizeString(p.orig, values);
    if verdict == Defined {
      verdict, need1 := SizeString(p.trans, values);
    }
    need := need + need1;
  }

  /** The sizing pass. */
  method Measure(pairs: seq<Pair>, values: Values, hash_size: nat, desc_size: nat)
    returns (invalid: bool, n_inmem: nat, memneed: nat)
    requires AllStored(pairs)
    ensures invalid <==> !NoneRejected(pairs, values)
    ensures !invalid ==> n_inmem == |Kept(pairs, values)| && memneed == MemNeed(pairs, values, hash_size, desc_size)
  {
    hide Judge, JudgePair, Need, PairNeed, PairStored, Kept, TotalNeed;
    invalid, n_inmem, memneed := false, 0, hash_size * 4;
    NothingKept(values);
    assert pairs[..0] == [];
    for i := 0 to |pairs|
      invariant AllStored(pairs[..i]) && NoneRejected(pairs[..i], values) && n_inmem == |Kept(pairs[..i], values)|
      invariant memneed == hash_size * 4 + StringsNeed(pairs[..i], values)
    {
      KeptNext(pairs, values, i);
      var verdict, need := SizePair(pairs[i], values);
      if verdict == OutOfRange {
        return true, 0, 0;
      }
      if verdict == Defined {
        n_inmem := n_inmem + 1;
        memneed := memneed + need;
      }
    }
    assert pairs[..|pairs|] == pairs;
    memneed := memneed + 2 * n_inmem * desc_size;
  }

  lemma NothingKept(values: Values)
    ensures Kept([], values) == [] && TotalNeed([], values) == 0
  {
  }

  /** A descriptor's text is the expansion of a string. */
  ghost predicate Describes(d: Desc, s: SysdepString, values: Values, mem: seq<char>) {
    && WellStored(s) && Judge(s.segments, values) == Defined
    && Inside(d, |mem|) && Contents(d, mem) == Expand(s.segments, s.bytes, values)
  }

  /** The first |kept| entries of both tables describe the surviving pairs, within the memory used so far. */
  ghost predicate Filled(orig: seq<Desc>, trans: seq<Desc>, kept: seq<Pair>, values: Values, mem: seq<char>) {
    && |orig| == |trans| == |kept|
    && forall i :: 0 <= i < |kept| ==>
      Describes(orig[i], kept[i].orig, values, mem) && Describes(trans[i], kept[i].trans, values, mem)
  }

  /** Bytes written beyond a description leave it as it was. */
  lemma DescribesStays(d: Desc, s: SysdepString, values: Values, mem: seq<char>, mem': seq<char>)
    requires Describes(d, s, values, mem) && mem <= mem'
    ensures Describes(d, s, values, mem')
  {
    if d.MemDesc? {
      assert mem'[d.pointer..d.pointer + d.length] == mem[d.pointer..d.pointer + d.length];
    }
  }

  lemma FilledStays(orig: seq<Desc>, trans: seq<Desc>, kept: seq<Pair>, values: Values, mem: seq<char>, mem': seq<char>)
    requires Filled(orig, trans, kept, values, mem) && mem <= mem'
    ensures Filled(orig, trans, kept, values, mem')
  {
    forall i | 0 <= i < |kept|
      ensures Describes(orig[i], kept[i].orig, values, mem') && Describes(trans[i], kept[i].trans, values, mem')
    {
      DescribesStays(orig[i], kept[i].orig, values, mem, mem');
      DescribesStays(trans[i], kept[i].trans, values, mem, mem');
    }
  }

  /** Fills the k-th entries of both tables with a surviving pair. */
  method FillPair(p: Pair, values: Values, mem: array<char>, at: nat, orig: array<Desc>, trans: array<Desc>, k: nat,
          ghost kept: seq<Pair>)
    returns (next: nat)
    requires PairStored(p) && JudgePair(p, values) == Defined && at + PairNeed(p, values) <= mem.Length
    requires orig != trans && k < orig.Length == trans.Length
    requires Filled(orig[..k], trans[..k], kept, values, mem[..at])
    modifies mem, orig, trans
    ensures next == at + PairNeed(p, values) && mem[..at] == old(mem[..at])
    ensures Filled(orig[..k + 1], trans[..k + 1], kept + [p], values, mem[..next])
  {
    hide Judge, Expand, Need;
    ghost var mem0 := mem[..at];
    var o, mid := FillString(p.orig, values, mem, at);
    ghost var mem1 := mem[..mid];
    DescribedIn(o, p.orig, values, mem[..], mid);
    var t;
    t, next := FillString(p.trans, values, mem, mid);
    DescribedIn(t, p.trans, values, mem[..], next);
    assert mem[..next][..mid] == mem1 && mem1[..at] == mem0;
    assert mem0 <= mem1 <= mem[..next];
    DescribesStays(o, p.orig, values, mem1, mem[..next]);
    FilledStays(orig[..k], trans[..k], kept, values, mem0, mem[..next]);
    ghost var os, ts := orig[..k], trans[..k];
    orig[k] := o;
    trans[k] := t;
    assert orig[..k + 1] == os + [o] && trans[..k + 1] == ts + [t];
  }

  lemma DescribedIn(d: Desc, s: SysdepString, values: Values, mem: seq<char>, next: nat)
    requires WellStored(s) && Judge(s.segments, values) == Defined && next <= |mem|
    requires Inside(d, next) && Contents(d, mem) == Expand(s.segments, s.bytes, values)
    ensures Describes(d, s, values, mem[..next])
  {
    if d.MemDesc? {
      assert mem[..next][d.pointer..d.pointer + d.length] == mem[d.pointer..d.pointer + d.length];
    }
  }

  /** Both strings of a pair. */
  method CheckPair(p: Pair, values: Values) returns (valid: bool)
    requires PairStored(p) && JudgePair(p, values) != OutOfRange
    ensures valid <==> JudgePair(p, values) == Defined
  {
    StoredParts(p);
    valid := CheckString(p.orig, values);
    if valid {
      valid := CheckString(p.trans, values);
    }
  }

  /** The state of the filling pass after some pairs, with `base` bytes in front of the strings. */
  ghost predicate Partly(done: seq<Pair>, values: Values, base: nat, mem: nat,
          orig: seq<Desc>, trans: seq<Desc>, written: seq<char>) {
    var kept := Kept(done, values);
    && AllStored(done)
    && (forall j :: 0 <= j < |kept| ==> PairStored(kept[j]) && JudgePair(kept[j], values) == Defined)
    && mem == base + TotalNeed(kept, values)
    && Filled(orig, trans, kept, values, written)
  }

  /** One pair of the filling pass, written if it survives. */
  method FillNext(pairs: seq<Pair>, values: Values, i: nat, malloced: array<char>, mem: nat,
          orig: array<Desc>, trans: array<Desc>, k: nat, ghost base: nat)
    returns (k': nat, mem': nat)
    requires i < |pairs| && AllStored(pairs) && NoneRejected(pairs, values) && orig != trans
    requires k == |Kept(pairs[..i], values)| && orig.Length == trans.Length == |Kept(pairs, values)|
    requires base + StringsNeed(pairs, values) <= malloced.Length
    requires k <= orig.Length && mem <= malloced.Length
    requires Partly(pairs[..i], values, base, mem, orig[..k], trans[..k], malloced[..mem])
    modifies malloced, orig, trans
    ensures k' == |Kept(pairs[..i + 1], values)| <= orig.Length && mem' <= malloced.Length
    ensures Partly(pairs[..i + 1], values, base, mem', orig[..k'], trans[..k'], malloced[..mem'])
  {
    hide Judge, JudgePair, Need, TotalNeed, Kept, Filled, PairNeed, PairStored;
    k', mem' := k, mem;
    KeptNext(pairs, values, i);
    KeptGrows(pairs, values, i + 1);
    var valid := CheckPair(pairs[i], values);
    if valid {
      mem' := FillPair(pairs[i], values, malloced, mem, orig, trans, k, Kept(pairs[..i], values));
      k' := k + 1;
    }
  }

  /**
   The filling pass. It finds the same pairs valid as the sizing pass did, so
   the abort on a different count is dead; it writes inside the allocation and
   uses it up to the last byte.
   */
  method Fill(pairs: seq<Pair>, values: Values, hash_size: nat, desc_size: nat, n_inmem: nat, memneed: nat)
    returns (orig: array<Desc>, trans: array<Desc>, malloced: array<char>, ghost used: nat)
    requires AllStored(pairs) && NoneRejected(pairs, values)
    requires n_inmem == |Kept(pairs, values)| && memneed == MemNeed(pairs, values, hash_size, desc_size)
    ensures malloced.Length == memneed && used == memneed
    ensures Filled(orig[..], trans[..], Kept(pairs, values), values, malloced[..])
  {
    hide Judge, JudgePair, Need, TotalNeed, Kept, Filled, PairNeed, PairStored;
    malloced := new char[memneed];
    orig := new Desc[n_inmem](_ => FileDesc(""));
    trans := new Desc[n_inmem](_ => FileDesc(""));
    var mem: nat := n_inmem * desc_size + n_inmem * desc_size + hash_size * 4;
    ghost var base: nat := mem;
    var k: nat := 0;
    NothingKept(values);
    NothingFilled(orig[..0], trans[..0], values, malloced[..mem]);
    assert pairs[..0] == [];
    assert base + StringsNeed(pairs, values) == memneed;
    for i := 0 to |pairs|
      invariant k == |Kept(pairs[..i], values)| <= n_inmem && mem <= memneed
      invariant Partly(pairs[..i], values, base, mem, orig[..k], trans[..k], malloced[..mem])
    {
      k, mem := FillNext(pairs, values, i, malloced, mem, orig, trans, k, base);
    }
    assert pairs[..|pairs|] == pairs;
    assert k == n_inmem;
    assert orig[..k] == orig[..] && trans[..k] == trans[..] && malloced[..mem] == malloced[..];
    used := mem;
  }

  lemma NothingFilled(orig: seq<Desc>, trans: seq<Desc>, values: Values, mem: seq<char>)
    requires orig == trans == []
    ensures Filled(orig, trans, [], values, mem)
  {
  }

  lemma StoredParts(p: Pair)
    requires PairStored(p)
    ensures WellStored(p.orig) && WellStored(p.trans)
  {
  }
}
