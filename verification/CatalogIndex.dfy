/**
 Looking up a message: the hash table of a catalogue, its extension by the
 system dependent strings at load time, and the binary search that replaces it
 when a catalogue has no hash table.
 */
module CatalogIndex {
  import opened CStrings
  import opened Options
  import opened ProbeSequence

  newtype Uint32 = x: int | 0 <= x < 0x1_0000_0000

  /** A string descriptor: the C string it points to, and the length it declares. */
  datatype StringDesc = StringDesc(text: string, length: nat)

  /** SWAP: the bytes of a 32-bit number in the other order. */
  function Swap(i: Uint32): Uint32 {
    (i % 0x100) * 0x100_0000 + (i / 0x100 % 0x100) * 0x1_0000 + (i / 0x1_0000 % 0x100) * 0x100 + i / 0x100_0000
  }

  /** The number of four bytes, the least significant first. */
  function OfBytes(b0: Uint32, b1: Uint32, b2: Uint32, b3: Uint32): Uint32
    requires b0 < 0x100 && b1 < 0x100 && b2 < 0x100 && b3 < 0x100
  {
    b0 + 0x100 * b1 + 0x1_0000 * b2 + 0x100_0000 * b3
  }

  lemma SwapReverses(b0: Uint32, b1: Uint32, b2: Uint32, b3: Uint32)
    requires b0 < 0x100 && b1 < 0x100 && b2 < 0x100 && b3 < 0x100
    ensures Swap(OfBytes(b0, b1, b2, b3)) == OfBytes(b3, b2, b1, b0)
  {
    hide Swap;
    var i, c0, c1, c2, c3 := OfBytes(b0, b1, b2, b3) as int, b0 as int, b1 as int, b2 as int, b3 as int;
    FourDigits(i, c0, c1, c2, c3);
    SwapIs(OfBytes(b0, b1, b2, b3), c0, c1, c2, c3);
  }

  lemma SwapIs(i: Uint32, c0: int, c1: int, c2: int, c3: int)
    requires i as int % 0x100 == c0 && i as int / 0x100 % 0x100 == c1
    requires i as int / 0x1_0000 % 0x100 == c2 && i as int / 0x100_0000 == c3
    ensures Swap(i) as int == c3 + 0x100 * c2 + 0x1_0000 * c1 + 0x100_0000 * c0
  {
  }

  lemma FourDigits(i: int, c0: int, c1: int, c2: int, c3: int)
    requires 0 <= c0 < 0x100 && 0 <= c1 < 0x100 && 0 <= c2 < 0x100 && 0 <= c3 < 0x100
    requires i == c0 + 0x100 * c1 + 0x1_0000 * c2 + 0x100_0000 * c3
    ensures i % 0x100 == c0 && i / 0x100 % 0x100 == c1 && i / 0x1_0000 % 0x100 == c2 && i / 0x100_0000 == c3
  {
    Digits(i, c0, c1, c2, c3);
    ModUnique(c1 + 0x100 * c2 + 0x1_0000 * c3, c2 + 0x100 * c3, c1, 0x100);
    ModUnique(c2 + 0x100 * c3, c3, c2, 0x100);
  }

  lemma Digits(i: int, c0: int, c1: int, c2: int, c3: int)
    requires 0 <= c0 < 0x100 && 0 <= c1 < 0x100 && 0 <= c2 < 0x100 && 0 <= c3 < 0x100
    requires i == c0 + 0x100 * c1 + 0x1_0000 * c2 + 0x100_0000 * c3
    ensures i % 0x100 == c0 && i / 0x100 == c1 + 0x100 * c2 + 0x1_0000 * c3
    ensures i / 0x1_0000 == c2 + 0x100 * c3 && i / 0x100_0000 == c3
  {
    ModUnique(i, c1 + 0x100 * c2 + 0x1_0000 * c3, c0, 0x100);
    ModUnique(i, c2 + 0x100 * c3, c0 + 0x100 * c1, 0x1_0000);
    ModUnique(i, c3, c0 + 0x100 * c1 + 0x1_0000 * c2, 0x100_0000);
  }

  /** W: a number of the file in the byte order of the machine. */
  function W(swap: bool, i: Uint32): Uint32 {
    if swap then Swap(i) else i
  }

  /** A number of a file in the other byte order is that of its bytes reversed; one in the same order is itself. */
  lemma BytesAreRead(swap: bool, b0: Uint32, b1: Uint32, b2: Uint32, b3: Uint32)
    requires b0 < 0x100 && b1 < 0x100 && b2 < 0x100 && b3 < 0x100
    ensures W(swap, OfBytes(b0, b1, b2, b3)) == if swap then OfBytes(b3, b2, b1, b0) else OfBytes(b0, b1, b2, b3)
  {
    SwapReverses(b0, b1, b2, b3);
    hide Swap, OfBytes;
  }

  function Decode(swap: bool, s: seq<Uint32>): seq<int> {
    seq(|s|, i requires 0 <= i < |s| => W(swap, s[i]) as int)
  }

  lemma SortedBelow(a: string, b: string, c: string)
    requires Compare(a, b) < 0 && Compare(b, c) < 0
    ensures Compare(a, c) < 0 && Compare(c, a) > 0
  {
    CompareTransitive(a, b, c);
    CompareOrder(a, c);
  }

  /** String i is found by probing: its entry is on its probe path and no slot before it is empty. */
  ghost predicate OnPath(tab: seq<int>, h: nat, i: nat, k: nat)
    requires |tab| > 2
  {
    tab[Probe(h, |tab|, k)] == i + 1 && forall j: nat :: j < k ==> tab[Probe(h, |tab|, j)] != 0
  }

  ghost predicate Findable(tab: seq<int>, h: nat, i: nat)
    requires |tab| > 2
  {
    exists k: nat :: k < |tab| && OnPath(tab, h, i, k)
  }

  /** Entries are string numbers plus one, and every string is findable; hashes are those of the strings. */
  ghost predicate Indexed(tab: seq<int>, hashes: seq<nat>) {
    && |tab| > 2 && Prime(|tab|)
    && (forall s :: 0 <= s < |tab| ==> 0 <= tab[s] <= |hashes|)
    && (forall i :: 0 <= i < |hashes| ==> Findable(tab, hashes[i], i))
  }

  function FreeSlots(tab: seq<int>): set<int> {
    set s | 0 <= s < |tab| && tab[s] == 0
  }

  /** Filling an empty slot leaves a string findable, for its path meets no empty slot. */
  lemma StaysFindable(tab: seq<int>, h: nat, i: nat, slot: int, e: int)
    requires |tab| > 2 && Findable(tab, h, i) && 0 <= slot < |tab| && tab[slot] == 0 && e != 0
    ensures Findable(tab[slot := e], h, i)
  {
    hide Probe;
    var l: nat :| l < |tab| && OnPath(tab, h, i, l);
    assert OnPath(tab[slot := e], h, i, l);
  }

  /** Filling the first empty slot of its path makes a new string findable and loses no other. */
  lemma InsertKeepsIndex(tab: seq<int>, hashes: seq<nat>, h: nat, k: nat)
    requires Indexed(tab, hashes) && k < |tab|
    requires tab[Probe(h, |tab|, k)] == 0 && forall j: nat :: j < k ==> tab[Probe(h, |tab|, j)] != 0
    ensures Indexed(tab[Probe(h, |tab|, k) := |hashes| + 1], hashes + [h])
    ensures FreeSlots(tab[Probe(h, |tab|, k) := |hashes| + 1]) == FreeSlots(tab) - {Probe(h, |tab|, k)}
  {
    hide Probe, Prime;
    var slot, n := Probe(h, |tab|, k), |hashes|;
    var tab' := tab[slot := n + 1];
    assert OnPath(tab', h, n, k);
    assert Findable(tab', h, n);
    hide Findable;
    forall i | 0 <= i < n + 1 ensures Findable(tab', (hashes + [h])[i], i) {
      if i < n {
        assert Findable(tab, hashes[i], i);
        StaysFindable(tab, hashes[i], i, slot, n + 1);
      }
    }
  }

  /** An empty slot ends the search: a findable string was met before it. */
  lemma SearchEnds(tab: seq<int>, h: nat, i: nat, k: nat) returns (l: nat)
    requires |tab| > 2 && Findable(tab, h, i) && tab[Probe(h, |tab|, k)] == 0
    ensures l < k && tab[Probe(h, |tab|, l)] == i + 1
  {
    l :| l < |tab| && OnPath(tab, h, i, l);
  }

  lemma DecodeUpdate(s: seq<Uint32>, i: int, e: Uint32)
    requires 0 <= i < |s|
    ensures Decode(false, s[i := e]) == Decode(false, s)[i := e as int]
  {
  }

  lemma FreeSlotsShrink(tab: seq<int>, slot: int)
    requires slot in FreeSlots(tab)
    ensures |FreeSlots(tab) - {slot}| == |FreeSlots(tab)| - 1
  {
  }

  /** Used slots keep their entries. */
  ghost predicate Extends(new_tab: seq<int>, old_tab: seq<int>) {
    |new_tab| == |old_tab| && forall s :: 0 <= s < |old_tab| && old_tab[s] != 0 ==> new_tab[s] == old_tab[s]
  }

  /** The first k slots on the path are taken. */
  ghost predicate BusyBefore(tab: seq<Uint32>, h: nat, k: nat)
    requires |tab| > 2
  {
    forall j: nat :: j < k ==> tab[Probe(h, |tab|, j)] != 0
  }

  /** The probing loop of the augmentation: the first empty slot on the path of a hash value. */
  method FirstEmpty(tab: array<Uint32>, hash_val: Uint32, ghost free: int) returns (idx: Uint32, ghost k: nat)
    requires 2 < tab.Length < 0x1_0000_0000 && Prime(tab.Length)
    requires 0 <= free < tab.Length && tab[free] == 0
    ensures k < tab.Length && idx as int == Probe(hash_val as nat, tab.Length, k) && tab[idx] == 0
    ensures BusyBefore(tab[..], hash_val as nat, k)
  {
    hide Probe, Incr, Prime;
    var hash_size := tab.Length as Uint32;
    ProbeUnfolds(hash_val as nat, tab.Length, 0);
    idx := hash_val % hash_size;
    var incr := 1 + hash_val % (hash_size - 2);
    ghost var h, m := hash_val as nat, tab.Length;
    ghost var last := EverySlotIsProbed(h, m, free);
    k := 0;
    while tab[idx] != 0
      invariant k <= last && idx as int == Probe(h, m, k) && incr as int == Incr(h, m)
      invariant forall j: nat :: j < k ==> tab[Probe(h, m, j)] != 0
      decreases last - k
    {
      ProbeUnfolds(h, m, k);
      if idx >= hash_size - incr {
        idx := idx - (hash_size - incr);
      } else {
        idx := idx + incr;
      }
      k := k + 1;
    }
  }

  /** Enters string number |hashes| at the first empty slot of its path. */
  method InsertString(tab: array<Uint32>, hash_val: Uint32, entry: Uint32, ghost hashes: seq<nat>)
    requires Indexed(Decode(false, tab[..]), hashes) && entry as int == |hashes| + 1
    requires FreeSlots(Decode(false, tab[..])) != {}
    requires tab.Length < 0x1_0000_0000
    modifies tab
    ensures Indexed(Decode(false, tab[..]), hashes + [hash_val as nat])
    ensures |FreeSlots(Decode(false, tab[..]))| == |FreeSlots(old(Decode(false, tab[..])))| - 1
    ensures Extends(Decode(false, tab[..]), old(Decode(false, tab[..])))
  {
    ghost var before, old_tab := tab[..], Decode(false, tab[..]);
    ghost var free :| free in FreeSlots(old_tab);
    hide Findable;
    var idx;
    ghost var k;
    idx, k := FirstEmpty(tab, hash_val, free);
    EmptySlot(old_tab, idx as int);
    InsertKeepsIndex(old_tab, hashes, hash_val as nat, k);
    FreeSlotsShrink(old_tab, idx as int);
    DecodeUpdate(before, idx as int, entry);
    tab[idx] := entry;
    assert tab[..] == before[idx as int := entry];
  }

  lemma EmptySlot(tab: seq<int>, slot: int)
    requires 0 <= slot < |tab| && tab[slot] == 0
    ensures slot in FreeSlots(tab)
  {
  }

  /** The part of `struct loaded_domain` that locates a message. */
  class LoadedDomain {
    const hash: string -> Uint32
    var orig_tab: seq<StringDesc>
    var orig_sysdep_tab: seq<StringDesc>
    var hash_size: Uint32
    var hash_tab: array?<Uint32>
    var must_swap_hash_tab: bool

    /**
     The state before system dependent strings are looked at: the tables as the file has them; tables of
     up to two slots are ignored.
     */
    constructor (hash: string -> Uint32, orig_tab: seq<StringDesc>, file_hash_tab: array<Uint32>, must_swap: bool)
      requires file_hash_tab.Length < 0x1_0000_0000
      ensures this.hash == hash && this.orig_tab == orig_tab && orig_sysdep_tab == []
      ensures hash_tab == if file_hash_tab.Length > 2 then file_hash_tab else null
      ensures hash_size as int == file_hash_tab.Length && must_swap_hash_tab == must_swap
    {
      this.hash, this.orig_tab, orig_sysdep_tab := hash, orig_tab, [];
      hash_size, must_swap_hash_tab := file_hash_tab.Length as Uint32, must_swap;
      hash_tab := if file_hash_tab.Length > 2 then file_hash_tab else null;
    }

    /** All strings, static ones first. */
    function Strings(): seq<StringDesc>
      reads this
    {
      orig_tab + orig_sysdep_tab
    }

    function HashOf(s: string): nat {
      hash(s) as nat
    }

    function Hashes(strings: seq<StringDesc>): (r: seq<nat>)
      ensures |r| == |strings|
    {
      seq(|strings|, i requires 0 <= i < |strings| => HashOf(strings[i].text))
    }

    /** The hash table in machine byte order. */
    function Table(): seq<int>
      requires hash_tab != null
      reads this, hash_tab
    {
      Decode(must_swap_hash_tab, hash_tab[..])
    }

    /**
     A loaded catalogue: a findable string for every entry and a free slot, or no hash table and no
     system dependent string.
     */
    ghost predicate Valid()
      reads this, hash_tab
    {
      if hash_tab == null then orig_sysdep_tab == []
      else
        && hash_tab.Length == hash_size as int
        && Indexed(Table(), Hashes(Strings()))
        && FreeSlots(Table()) != {}
    }

    /** The comparison of the lookup loop: a length test, then `strcmp`. */
    predicate Matches(msgid: string, i: nat)
      requires i < |Strings()|
      reads this
    {
      if i < |orig_tab| then orig_tab[i].length >= |msgid| && Compare(msgid, orig_tab[i].text) == 0
      else orig_sysdep_tab[i - |orig_tab|].length > |msgid| && Compare(msgid, orig_sysdep_tab[i - |orig_tab|].text) == 0
    }

    /** None of the first k slots on the path of msgid leads to a match. */
    ghost predicate Passed(msgid: string, k: nat)
      requires Valid() && hash_tab != null
      reads this, hash_tab
    {
      forall j: nat, i: nat ::
        j < k && i < |Strings()| && Matches(msgid, i) ==> Table()[Probe(HashOf(msgid), |Table()|, j)] != i + 1
    }

    /** Strings met on the probe path before an empty slot are the only candidates. */
    lemma NothingBeyond(msgid: string, k: nat)
      requires Valid() && hash_tab != null
      requires Table()[Probe(HashOf(msgid), |Table()|, k)] == 0 && Passed(msgid, k)
      ensures forall i: nat :: i < |Strings()| ==> !Matches(msgid, i)
    {
      forall i: nat | i < |Strings()| ensures !Matches(msgid, i) {
        if Matches(msgid, i) {
          CompareOrder(msgid, Strings()[i].text);
          assert Findable(Table(), Hashes(Strings())[i], i);
          var l := SearchEnds(Table(), HashOf(msgid), i, k);
        }
      }
    }

    /** What a probed slot holds. */
    lemma SlotValue(slot: Uint32)
      requires Valid() && hash_tab != null && slot as int < hash_tab.Length
      ensures |Table()| == hash_size as int == hash_tab.Length
      ensures W(must_swap_hash_tab, hash_tab[slot]) as int == Table()[slot] <= |Strings()|
    {
    }

    /** The hashing branch of `_nl_find_msg`. */
    method FindByHash(msgid: string) returns (act: Option<nat>)
      requires Valid() && hash_tab != null
      ensures act.Some? ==> act.value < |Strings()| && Matches(msgid, act.value)
      ensures act.None? ==> forall i: nat :: i < |Strings()| ==> !Matches(msgid, i)
    {
      ghost var free :| free in FreeSlots(Table());
      FreeSlot(free);
      hide Indexed, Compare, Matches, Decode, FreeSlots, Findable, Table, Hashes, W, Prime;
      var hash_val := hash(msgid);
      hide Probe, Incr;
      ProbeUnfolds(hash_val as nat, hash_size as int, 0);
      var idx := hash_val % hash_size;
      var incr := 1 + hash_val % (hash_size - 2);
      ghost var h, m := hash_val as nat, hash_size as int;
      ghost var last := EverySlotIsProbed(h, m, free);
      ghost var k: nat := 0;
      assert Passed(msgid, k);
      hide Passed, HashOf;
      while true
        invariant k <= last && idx as int == Probe(h, m, k) && incr as int == Incr(h, m)
        invariant Passed(msgid, k)
        decreases last - k
      {
        SlotValue(idx);
        assert h == HashOf(msgid) by { HashIs(msgid); }
        var nstr := W(must_swap_hash_tab, hash_tab[idx]);
        if nstr == 0 {
          NothingBeyond(msgid, k);
          return None;
        }
        nstr := nstr - 1;
        if Matches(msgid, nstr as nat) {
          return Some(nstr as nat);
        }
        PassedNext(msgid, k);
        ProbeUnfolds(h, m, k);
        if idx >= hash_size - incr {
          idx := idx - (hash_size - incr);
        } else {
          idx := idx + incr;
        }
        k := k + 1;
      }
    }

    lemma HashIs(msgid: string)
      ensures HashOf(msgid) == hash(msgid) as nat
    {
    }

    lemma PassedNext(msgid: string, k: nat)
      requires Valid() && hash_tab != null && Passed(msgid, k)
      requires var e := Table()[Probe(HashOf(msgid), |Table()|, k)]; e > 0 && !Matches(msgid, e - 1)
      ensures Passed(msgid, k + 1)
    {
    }

    lemma FreeSlot(free: int)
      requires Valid() && hash_tab != null && free in FreeSlots(Table())
      ensures 0 <= free < hash_size as int == |Table()| && Table()[free] == 0
      ensures hash_size > 2 && Prime(hash_size as int)
    {
    }

    /**
     The end of `_nl_load_domain`: a copy of the hash table, extended by the system dependent strings,
     replaces it.
     */
    method AugmentHashTable(inmem: seq<StringDesc>)
      requires Valid() && hash_tab != null && orig_sysdep_tab == []
      requires |FreeSlots(Table())| > |inmem|
      requires |orig_tab| + |inmem| + 1 < 0x1_0000_0000
      modifies this
      ensures Valid() && hash_tab != null && fresh(hash_tab) && !must_swap_hash_tab
      ensures orig_tab == old(orig_tab) && orig_sysdep_tab == inmem && hash_size == old(hash_size)
      ensures Extends(Table(), old(Table()))
      ensures |FreeSlots(Table())| == |FreeSlots(old(Table()))| - |inmem|
    {
      hide Indexed, FreeSlots;
      var inmem_hash_tab := CopyTable();
      ghost var old_tab := Table();
      assert Strings() == orig_tab;
      assert Decode(false, inmem_hash_tab[..]) == old_tab;
      assert Hashes(orig_tab + inmem[..0]) == Hashes(Strings());
      for i := 0 to |inmem|
        invariant unchanged(this) && fresh(inmem_hash_tab) && inmem_hash_tab.Length == hash_size as int
        invariant Indexed(Decode(false, inmem_hash_tab[..]), Hashes(orig_tab + inmem[..i]))
        invariant |FreeSlots(Decode(false, inmem_hash_tab[..]))| == |FreeSlots(old_tab)| - i
        invariant Extends(Decode(false, inmem_hash_tab[..]), old_tab)
      {
        ghost var hashes := Hashes(orig_tab + inmem[..i]);
        InsertString(inmem_hash_tab, hash(inmem[i].text), 1 + |orig_tab| as Uint32 + i as Uint32, hashes);
        assert orig_tab + inmem[..i + 1] == (orig_tab + inmem[..i]) + [inmem[i]];
        assert Hashes(orig_tab + inmem[..i + 1]) == hashes + [HashOf(inmem[i].text)];
      }
      assert inmem[..|inmem|] == inmem;
      orig_sysdep_tab := inmem;
      hash_tab := inmem_hash_tab;
      must_swap_hash_tab := false;
    }

    method CopyTable() returns (a: array<Uint32>)
      requires Valid() && hash_tab != null
      ensures fresh(a) && a.Length == hash_tab.Length && Decode(false, a[..]) == Table()
    {
      a := new Uint32[hash_tab.Length];
      for i := 0 to a.Length
        invariant forall j :: 0 <= j < i ==> a[j] == W(must_swap_hash_tab, hash_tab[j])
      {
        a[i] := W(must_swap_hash_tab, hash_tab[i]);
      }
    }

    /** The branch of `_nl_find_msg` for a catalogue without hash table: binary search in the static strings. */
    method FindBySearch(msgid: string) returns (act: Option<nat>)
      requires Sorted(orig_tab)
      ensures act.Some? ==> act.value < |orig_tab| && Compare(msgid, orig_tab[act.value].text) == 0
      ensures act.None? ==> forall i :: 0 <= i < |orig_tab| ==> Compare(msgid, orig_tab[i].text) != 0
    {
      var bottom, top := 0, |orig_tab|;
      while bottom < top
        invariant 0 <= bottom <= top <= |orig_tab|
        invariant forall i :: 0 <= i < bottom ==> Compare(msgid, orig_tab[i].text) > 0
        invariant forall i :: top <= i < |orig_tab| ==> Compare(msgid, orig_tab[i].text) < 0
      {
        var act := (bottom + top) / 2;
        var cmp_val := Compare(msgid, orig_tab[act].text);
        if cmp_val < 0 {
          forall i | act < i < |orig_tab| ensures Compare(msgid, orig_tab[i].text) < 0 {
            CompareTransitive(msgid, orig_tab[act].text, orig_tab[i].text);
          }
          top := act;
        } else if cmp_val > 0 {
          forall i | 0 <= i < act ensures Compare(msgid, orig_tab[i].text) > 0 {
            CompareOrder(msgid, orig_tab[act].text);
            CompareOrder(msgid, orig_tab[i].text);
            SortedBelow(orig_tab[i].text, orig_tab[act].text, msgid);
          }
          bottom := act + 1;
        } else {
          return Some(act);
        }
      }
      return None;
    }

    /** Descriptors whose declared lengths cover the C strings they point to. */
    ghost predicate Consistent()
      reads this
    {
      && (forall i :: 0 <= i < |orig_tab| ==> orig_tab[i].length >= |orig_tab[i].text|)
      && (forall i :: 0 <= i < |orig_sysdep_tab| ==> orig_sysdep_tab[i].length > |orig_sysdep_tab[i].text|)
    }

    lemma MatchesIsEquality(msgid: string, i: nat)
      requires Consistent() && i < |Strings()|
      ensures Matches(msgid, i) <==> Strings()[i].text == msgid
    {
      CompareOrder(msgid, Strings()[i].text);
    }

    /** The lookup part of `_nl_find_msg`. */
    method FindMsg(msgid: string) returns (act: Option<nat>)
      requires Valid() && Consistent() && (hash_tab == null ==> Sorted(orig_tab))
      ensures Located(Strings(), msgid, act)
    {
      if hash_tab != null {
        act := FindByHash(msgid);
        forall i: nat | i < |Strings()| ensures Matches(msgid, i) <==> Strings()[i].text == msgid {
          MatchesIsEquality(msgid, i);
        }
      } else {
        act := FindBySearch(msgid);
        assert Strings() == orig_tab;
        forall i: nat | i < |orig_tab| ensures Compare(msgid, orig_tab[i].text) == 0 <==> orig_tab[i].text == msgid {
          CompareOrder(msgid, orig_tab[i].text);
        }
      }
    }
  }

  ghost predicate Sorted(strings: seq<StringDesc>) {
    forall i, j :: 0 <= i < j < |strings| ==> Compare(strings[i].text, strings[j].text) < 0
  }

  /** The right answer of a lookup. */
  ghost predicate Located(strings: seq<StringDesc>, msgid: string, act: Option<nat>) {
    match act
    case Some(i) => i < |strings| && strings[i].text == msgid
    case None => forall i :: 0 <= i < |strings| ==> strings[i].text != msgid
  }

  /** Plain search, for comparison. */
  function Scan(strings: seq<StringDesc>, msgid: string, from: nat): Option<nat>
    requires from <= |strings|
    decreases |strings| - from
  {
    if from == |strings| then None
    else if strings[from].text == msgid then Some(from)
    else Scan(strings, msgid, from + 1)
  }

  lemma {:induction false} ScanLocates(strings: seq<StringDesc>, msgid: string, from: nat)
    requires from <= |strings| && forall i :: 0 <= i < from ==> strings[i].text != msgid
    ensures Located(strings, msgid, Scan(strings, msgid, from))
    decreases |strings| - from
  {
    if from < |strings| && strings[from].text != msgid {
      ScanLocates(strings, msgid, from + 1);
    }
  }

  /**
   Where no string occurs twice - in particular in a strictly sorted table -
   every correct lookup gives the index a plain search gives, so hashing and
   binary search agree.
   */
  lemma LookupsAgree(strings: seq<StringDesc>, msgid: string, a: Option<nat>, b: Option<nat>)
    requires Sorted(strings) || forall i, j :: 0 <= i < j < |strings| ==> strings[i].text != strings[j].text
    requires Located(strings, msgid, a) && Located(strings, msgid, b)
    ensures a == b == Scan(strings, msgid, 0)
  {
    ScanLocates(strings, msgid, 0);
    OnlyOne(strings, msgid, a, b);
    OnlyOne(strings, msgid, a, Scan(strings, msgid, 0));
  }

  lemma OnlyOne(strings: seq<StringDesc>, msgid: string, a: Option<nat>, b: Option<nat>)
    requires Sorted(strings) || forall i, j :: 0 <= i < j < |strings| ==> strings[i].text != strings[j].text
    requires Located(strings, msgid, a) && Located(strings, msgid, b)
    ensures a == b
  {
    CompareOrder(msgid, msgid);
  }
}
