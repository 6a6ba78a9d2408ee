/**
 Loading a catalogue with system dependent strings and looking a message up in
 it: the sizing and filling passes, the extension of the hash table, and the
 translation that a lookup gives.
 */
module CatalogLoading {
  import opened CStrings
  import opened Options
  import opened CatalogIndex
  import opened SysdepStrings
  import opened SysdepVerdicts

  /** The C string at the start of some bytes. */
  function CString(bytes: string): string {
    StrTok(bytes, '\0')
  }

  /** A descriptor as the lookup reads it. */
  function Read(d: Desc, mem: seq<char>): StringDesc
    requires Inside(d, |mem|)
  {
    StringDesc(CString(Contents(d, mem)), |Contents(d, mem)|)
  }

  function ReadAll(descs: seq<Desc>, mem: seq<char>): (r: seq<StringDesc>)
    requires forall i :: 0 <= i < |descs| ==> Inside(descs[i], |mem|)
    ensures |r| == |descs| && forall i :: 0 <= i < |r| ==> r[i] == Read(descs[i], mem)
  {
    seq(|descs|, i requires 0 <= i < |descs| && Inside(descs[i], |mem|) => Read(descs[i], mem))
  }

  ghost predicate Survives(p: Pair, values: Values) {
    PairStored(p) && JudgePair(p, values) == Defined
  }

  ghost predicate AllSurvive(kept: seq<Pair>, values: Values) {
    forall i :: 0 <= i < |kept| ==> Survives(kept[i], values)
  }

  /** The bytes of a surviving pair's original, and of its translation. */
  ghost function OrigText(p: Pair, values: Values): string
    requires Survives(p, values)
  {
    Expand(p.orig.segments, p.orig.bytes, values)
  }

  ghost function TransText(p: Pair, values: Values): string
    requires Survives(p, values)
  {
    Expand(p.trans.segments, p.trans.bytes, values)
  }

  /** The descriptors of the surviving originals. */
  ghost predicate Originals(descs: seq<StringDesc>, kept: seq<Pair>, values: Values)
    requires AllSurvive(kept, values)
  {
    && |descs| == |kept|
    && forall i :: 0 <= i < |kept| ==>
      descs[i] == StringDesc(CString(OrigText(kept[i], values)), |OrigText(kept[i], values)|)
  }

  ghost predicate Translations(trans: seq<Desc>, mem: seq<char>, kept: seq<Pair>, values: Values)
    requires AllSurvive(kept, values)
  {
    && |trans| == |kept|
    && forall i :: 0 <= i < |kept| ==> Inside(trans[i], |mem|) && Contents(trans[i], mem) == TransText(kept[i], values)
  }

  /** In the file every original ends in a NUL. */
  ghost predicate Ended(kept: seq<Pair>, values: Values)
    requires AllSurvive(kept, values)
  {
    forall i :: 0 <= i < |kept| ==> '\0' in OrigText(kept[i], values)
  }

  /** What a lookup may answer: the translation of a string that reads as msgid, or nothing when none does. */
  ghost predicate Answers(orig_tab: seq<StringDesc>, trans_tab: seq<string>, kept: seq<Pair>, values: Values,
          msgid: string, result: Option<string>)
    requires |orig_tab| == |trans_tab| && AllSurvive(kept, values)
  {
    match result
    case Some(text) =>
      || (exists i :: 0 <= i < |orig_tab| && orig_tab[i].text == msgid && trans_tab[i] == text)
      || (exists j :: 0 <= j < |kept|
            && CString(OrigText(kept[j], values)) == msgid && TransText(kept[j], values) == text)
    case None =>
      && (forall i :: 0 <= i < |orig_tab| ==> orig_tab[i].text != msgid)
      && (forall j :: 0 <= j < |kept| ==> CString(OrigText(kept[j], values)) != msgid)
  }

  /** A surviving string that is unlike all others is found under its expansion, and gives its expanded translation. */
  lemma SurvivorIsTranslated(orig_tab: seq<StringDesc>, trans_tab: seq<string>, kept: seq<Pair>, values: Values,
          j: nat, result: Option<string>)
    requires |orig_tab| == |trans_tab| && AllSurvive(kept, values) && j < |kept|
    requires Answers(orig_tab, trans_tab, kept, values, CString(OrigText(kept[j], values)), result)
    requires forall i :: 0 <= i < |orig_tab| ==> orig_tab[i].text != CString(OrigText(kept[j], values))
    requires forall i :: 0 <= i < |kept| && i != j ==>
      CString(OrigText(kept[i], values)) != CString(OrigText(kept[j], values))
    ensures result == Some(TransText(kept[j], values))
  {
    hide Survives, OrigText, TransText, CString;
  }

  /** A correct index among static and system dependent strings leads to a correct answer. */
  lemma LocatedAnswers(orig_tab: seq<StringDesc>, sysdep_tab: seq<StringDesc>, trans_tab: seq<string>,
          kept: seq<Pair>, values: Values, msgid: string, act: Option<nat>)
    requires |orig_tab| == |trans_tab| && AllSurvive(kept, values) && Originals(sysdep_tab, kept, values)
    requires Located(orig_tab + sysdep_tab, msgid, act)
    ensures act.Some? ==> act.value < |orig_tab| + |kept|
    ensures Answers(orig_tab, trans_tab, kept, values, msgid,
                    if act.None? then None
                    else if act.value < |orig_tab| then Some(trans_tab[act.value])
                    else Some(TransText(kept[act.value - |orig_tab|], values)))
  {
    hide Survives, OrigText, TransText, CString;
    var strings, n := orig_tab + sysdep_tab, |orig_tab|;
    forall j | 0 <= j < |kept| ensures strings[n + j].text == CString(OrigText(kept[j], values)) {
      assert strings[n + j] == sysdep_tab[j];
    }
    forall i | 0 <= i < n ensures strings[i] == orig_tab[i] {
    }
  }

  lemma KeptSurvive(pairs: seq<Pair>, values: Values)
    requires AllStored(pairs)
    ensures AllSurvive(Kept(pairs, values), values)
  {
    KeptIsStored(pairs, values);
  }

  /** Descriptors of the filled tables read as the expansions. */
  lemma FilledReads(orig: seq<Desc>, trans: seq<Desc>, kept: seq<Pair>, values: Values, mem: seq<char>)
    requires Filled(orig, trans, kept, values, mem) && AllSurvive(kept, values)
    ensures |orig| == |kept| && forall i :: 0 <= i < |orig| ==> Inside(orig[i], |mem|)
    ensures Originals(ReadAll(orig, mem), kept, values)
    ensures Translations(trans, mem, kept, values)
  {
    hide Expand, Judge, CString, Contents, Inside, WellStored;
    forall i | 0 <= i < |kept|
      ensures Inside(orig[i], |mem|) && Contents(orig[i], mem) == OrigText(kept[i], values)
      ensures Inside(trans[i], |mem|) && Contents(trans[i], mem) == TransText(kept[i], values)
    {
      assert Describes(orig[i], kept[i].orig, values, mem) && Describes(trans[i], kept[i].trans, values, mem);
    }
  }

  /** A loaded catalogue with its translations. */
  class Catalog {
    const domain: LoadedDomain
    const trans_tab: seq<string>
    var trans_sysdep_tab: seq<Desc>
    var malloced: array<char>

    constructor (domain: LoadedDomain, trans_tab: seq<string>)
      ensures this.domain == domain && this.trans_tab == trans_tab && trans_sysdep_tab == [] && fresh(malloced)
    {
      this.domain, this.trans_tab, trans_sysdep_tab := domain, trans_tab, [];
      malloced := new char[0];
    }

    /** The catalogue holds its static strings and the surviving pairs. */
    ghost predicate Holds(kept: seq<Pair>, values: Values)
      reads this, domain, domain.hash_tab, malloced
    {
      && domain.Valid() && |domain.orig_tab| == |trans_tab| && AllSurvive(kept, values)
      && Originals(domain.orig_sysdep_tab, kept, values)
      && Translations(trans_sysdep_tab, malloced[..], kept, values)
    }

    /**
     The part of `_nl_load_domain` that deals with system dependent strings; it rejects a
     catalogue without hash table and one that refers to a segment that is not there.
     */
    method LoadSysdep(pairs: seq<Pair>, values: Values, desc_size: nat) returns (invalid: bool)
      requires domain.Valid() && domain.orig_sysdep_tab == [] && trans_sysdep_tab == []
      requires |domain.orig_tab| == |trans_tab| && |trans_tab| + |pairs| + 1 < 0x1_0000_0000
      requires domain.hash_tab != null ==> |FreeSlots(domain.Table())| > |pairs|
      requires AllStored(pairs)
      modifies this, domain
      ensures invalid <==>
        old(domain.hash_tab) == null || exists i :: 0 <= i < |pairs| && Invalidates(pairs[i], values)
      ensures !invalid ==> Holds(Kept(pairs, values), values) && domain.orig_tab == old(domain.orig_tab)
      ensures exists at :: Picks(pairs, values, at, Kept(pairs, values))
    {
      hide LoadedDomain.Valid, Kept, FreeSlots, PairStored, Picks, Invalidates, Filled, Originals, Translations, Read;
      hide Invalidates, NoneRejected, AllStored;
      RejectionIsExact(pairs, values);
      ghost var at := KeptIsExact(pairs, values);
      if domain.hash_tab == null {
        return true;
      }
      var n_inmem, memneed;
      invalid, n_inmem, memneed := Measure(pairs, values, domain.hash_size as nat, desc_size);
      if invalid {
        return;
      }
      ghost var kept := Kept(pairs, values);
      KeptSurvive(pairs, values);
      var orig, trans, mem, _ := Fill(pairs, values, domain.hash_size as nat, desc_size, n_inmem, memneed);
      FilledReads(orig[..], trans[..], kept, values, mem[..]);
      var inmem := ReadAll(orig[..], mem[..]);
      if n_inmem > 0 {
        domain.AugmentHashTable(inmem);
      }
      trans_sysdep_tab, malloced := trans[..], mem;
    }

    /** The locating part of `_nl_find_msg`, up to the translation found. */
    method Find(msgid: string, ghost kept: seq<Pair>, values: Values) returns (result: Option<string>)
      requires Holds(kept, values) && Ended(kept, values)
      requires forall i :: 0 <= i < |domain.orig_tab| ==> domain.orig_tab[i].length >= |domain.orig_tab[i].text|
      requires domain.hash_tab == null ==> CatalogIndex.Sorted(domain.orig_tab)
      ensures Answers(domain.orig_tab, trans_tab, kept, values, msgid, result)
    {
      hide LoadedDomain.Valid, Survives, OrigText, TransText;
      var nstrings := |domain.orig_tab|;
      EndedIsConsistent(kept, values);
      var act := domain.FindMsg(msgid);
      LocatedAnswers(domain.orig_tab, domain.orig_sysdep_tab, trans_tab, kept, values, msgid, act);
      hide Originals, Answers;
      if act.None? {
        return None;
      }
      if act.value < nstrings {
        return Some(trans_tab[act.value]);
      }
      return Some(Contents(trans_sysdep_tab[act.value - nstrings], malloced[..]));
    }

    lemma EndedIsConsistent(kept: seq<Pair>, values: Values)
      requires Holds(kept, values) && Ended(kept, values)
      requires forall i :: 0 <= i < |domain.orig_tab| ==> domain.orig_tab[i].length >= |domain.orig_tab[i].text|
      ensures domain.Consistent()
    {
      hide LoadedDomain.Valid, Survives, OrigText, TransText, Translations;
    }
  }
}
