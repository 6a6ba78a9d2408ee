/**
 `_nl_make_l10nflist` itself: find or create a node, and fill its inheritance
 list by recursion.
 */
module LocaleFiles {
  import opened Argz
  import opened CStrings
  import opened LocaleMasks
  import opened LocaleNames
  import opened LocaleNameBuffer
  import opened LocalePool

  /** The first `count` successors are pool nodes with the names of the requests. */
  ghost predicate Recorded(n: L10nFile, all: set<L10nFile>, requests: seq<Request>, count: nat)
    reads n`successor
  {
    && count <= |requests| < |n.successor|
    && forall i :: 0 <= i < count ==> Is(n.successor[i], all, requests[i])
  }

  ghost predicate Is(s: L10nFile?, all: set<L10nFile>, r: Request) {
    s != null && s in all && s.filename == FileName(r)
  }

  /** The node inherits from exactly the nodes its request asks for, in order. */
  ghost predicate Complete(n: L10nFile, all: set<L10nFile>)
    reads n`successor
  {
    var requests := Successors(n.request);
    && n.filename == FileName(n.request) && |n.successor| == Slots(n.request)
    && Recorded(n, all, requests, |requests|) && n.successor[|requests|] == null
  }

  /** All nodes are complete, but for those under construction. */
  ghost predicate Closed(pool: Pool, open: set<L10nFile>)
    reads pool`members, pool.members`successor
  {
    forall n :: n in pool.members && n !in open ==> Complete(n, pool.members)
  }

  lemma CompleteStays(n: L10nFile, all: set<L10nFile>, all': set<L10nFile>)
    requires Complete(n, all) && all <= all'
    ensures Complete(n, all')
  {
    hide Successors, Slots, FileName;
  }

  lemma RecordedStays(n: L10nFile, all: set<L10nFile>, all': set<L10nFile>, requests: seq<Request>, count: nat)
    requires Recorded(n, all, requests, count) && all <= all'
    ensures Recorded(n, all', requests, count)
  {
    hide FileName;
  }

  function Effective(dirs: seq<string>, locale: Locale): seq<string> {
    if Absolute(locale.language) then [] else dirs
  }

  predicate Absolute(path: string) {
    path != "" && path[0] == '/'
  }

  /** A language that is a path from the root stands for itself; no directory is put in front of it. */
  lemma AbsoluteStands(dirs: seq<string>, mask: Mask, locale: Locale, filename: string)
    ensures "/" <= locale.language ==>
      FileName(Request(Effective(dirs, locale), mask, locale, filename)) == Parts(mask, locale) + "/" + filename
    ensures !("/" <= locale.language) ==> Effective(dirs, locale) == dirs
  {
    hide Parts;
  }

  /** No file to look up: a list of directories, or a codeset that was given unnormalized. */
  predicate Decided(r: Request) {
    |r.dirs| > 1 || (Has(r.mask, XPG_CODESET) && Has(r.mask, XPG_NORM_CODESET))
  }

  /** A new node with room for its successors. */
  method NewNode(dirlist: string, mask: Mask, name: string, ghost r: Request) returns (retval: L10nFile)
    requires dirlist == Pack(r.dirs) && Plain(r.dirs) && mask == r.mask
    ensures fresh(retval) && retval.request == r && retval.filename == name && |retval.successor| == Slots(r)
    ensures retval.decided == Decided(r)
  {
    hide Slots, Pack, Has;
    var dirlist_count := 1;
    if |dirlist| > 0 {
      dirlist_count := Count(dirlist, r.dirs);
    }
    SlotsAre(r, dirlist_count);
    retval := new L10nFile(name, dirlist_count > 1 || (Has(mask, XPG_CODESET) && Has(mask, XPG_NORM_CODESET)),
      dirlist_count * Pow2(Pop(mask as bv16) as nat) + (if dirlist_count > 1 then 1 else 0) + 1, r);
  }

  /** A new node, linked where it belongs. */
  method Allocate(pool: Pool, dirlist: string, mask: Mask, name: string, last: L10nFile?, ghost k: nat,
          ghost r: Request, ghost open: set<L10nFile>)
    returns (retval: L10nFile)
    requires pool.Valid() && k <= |pool.nodes| && Fits(pool.nodes, k, name) && last == NodeAt(pool.nodes, k - 1)
    requires dirlist == Pack(r.dirs) && Plain(r.dirs) && mask == r.mask && Closed(pool, open)
    modifies pool, pool.members`next
    ensures pool.Valid() && fresh(retval) && retval.request == r && retval.filename == name
      && |retval.successor| == Slots(r)
    ensures pool.members == old(pool.members) + {retval} && Closed(pool, open + {retval})
      && retval.decided == Decided(r)
  {
    hide Slots, Fits, Pack, Complete, Decided, Pool.Valid;
    retval := NewNode(dirlist, mask, name, r);
    ghost var was := pool.members;
    pool.Insert(retval, last, k);
    forall n | n in was && n !in open ensures Complete(n, pool.members) {
      assert Complete(n, was);
      CompleteStays(n, was, pool.members);
    }
  }

  lemma SlotsAre(r: Request, d: nat)
    requires d == if r.dirs == [] then 1 else |r.dirs|
    ensures Slots(r) == d * Pow2(Pop(r.mask as bv16) as nat) + (if d > 1 then 1 else 0) + 1
  {
    hide Pop, Pow2;
  }

  /** A node under construction, with its first `entries` successors. */
  ghost predicate Building(pool: Pool, node: L10nFile, requests: seq<Request>, entries: nat, open: set<L10nFile>)
    reads pool, pool.nodes`next, pool.members`successor, node`successor
  {
    && pool.Valid() && Closed(pool, open) && node in pool.members && node in open
    && Recorded(node, pool.members, requests, entries)
  }

  /** Later nodes of the pool, all of them new. */
  twostate predicate Grown(pool: Pool)
    reads pool
  {
    old(pool.members) <= pool.members && fresh(pool.members - old(pool.members))
  }

  ghost function Lists(dirs: seq<string>): nat {
    if |dirs| > 1 then 1 else 0
  }

  ghost predicate Consistent(dirs: seq<string>, locale: Locale) {
    Plain(dirs) && Effective(dirs, locale) == dirs
  }

  /** Among `all`, exactly `found` has the name; nothing has, when it is null. */
  ghost predicate Names(all: set<L10nFile>, name: string, found: L10nFile?) {
    && (found != null ==> found in all)
    && forall n :: n in all ==> (n.filename == name <==> n == found)
  }

  lemma FoundNames(nodes: seq<L10nFile>, members: set<L10nFile>, k: nat, name: string)
    requires members == (set n | n in nodes) && Sorted(nodes) && k < |nodes| && nodes[k].filename == name
    ensures Names(members, name, nodes[k])
  {
    CompareOrder(name, name);
    forall n | n in members && n.filename == name ensures n == nodes[k] {
      var i :| 0 <= i < |nodes| && nodes[i] == n;
    }
  }

  lemma AbsentNames(nodes: seq<L10nFile>, members: set<L10nFile>, k: nat, name: string)
    requires members == (set n | n in nodes) && Fits(nodes, k, name)
    ensures Names(members, name, null)
  {
    FitsMeansAbsent(nodes, k, name);
  }

  /** The full name, and the search for it. */
  method Lookup(pool: Pool, dirlist: string, mask: Mask, locale: Locale, filename: string, ghost dirs: seq<string>)
    returns (name: string, found: L10nFile?, last: L10nFile?, ghost k: nat)
    requires pool.Valid() && dirlist == Pack(dirs) && Plain(dirs)
    ensures name == FileName(Request(dirs, mask, locale, filename)) && Names(pool.members, name, found)
    ensures found != null ==> found in pool.members && found.filename == name
    ensures found == null ==> k <= |pool.nodes| && Fits(pool.nodes, k, name) && last == NodeAt(pool.nodes, k - 1)
  {
    hide FileName, Pack, Fits, Sorted, Names;
    var abs_filename := BuildName(dirlist, mask, locale, filename, dirs);
    name := abs_filename[..abs_filename.Length - 1];
    found, last, k := pool.Find(name);
    if found != null {
      FoundNames(pool.nodes, pool.members, k, name);
    } else {
      AbsentNames(pool.nodes, pool.members, k, name);
    }
  }

  /**
   The node for a request: the one that is there, or a new one with all that
   it inherits from. `open` holds the nodes whose lists are still being filled.
   */
  method MakeL10nflist(pool: Pool, dirlist: string, mask: Mask, locale: Locale, filename: string, do_allocate: bool,
          ghost dirs: seq<string>, ghost open: set<L10nFile>)
    returns (retval: L10nFile?)
    requires pool.Valid() && Closed(pool, open) && dirlist == Pack(dirs) && Plain(dirs)
    modifies pool, pool.members`next
    ensures pool.Valid() && Closed(pool, open) && Grown(pool)
    ensures do_allocate ==> retval != null
    ensures var name := FileName(Request(Effective(dirs, locale), mask, locale, filename));
      && (retval != null ==> retval in pool.members && retval.filename == name)
      && Names(old(pool.members), name, if retval in old(pool.members) then retval else null)
    ensures retval == null || retval in old(pool.members) ==> pool.nodes == old(pool.nodes)
    ensures retval != null && retval !in old(pool.members) ==>
      retval.decided == Decided(Request(Effective(dirs, locale), mask, locale, filename))
    decreases Lists(dirs), mask, 4
  {
    hide Complete, FileName, Pack, Successors, Slots, Fits, Names, Decided, Pool.Valid;
    ghost var used := Effective(dirs, locale);
    var dirlist_used := if Absolute(locale.language) then "" else dirlist;
    var name, found, last;
    ghost var k;
    name, found, last, k := Lookup(pool, dirlist_used, mask, locale, filename, used);
    if found != null || !do_allocate {
      return found;
    }
    retval := Create(pool, dirlist_used, mask, locale, filename, name, last, k, used, open);
  }

  method Create(pool: Pool, dirlist: string, mask: Mask, locale: Locale, filename: string, name: string,
          last: L10nFile?, ghost k: nat, ghost dirs: seq<string>, ghost open: set<L10nFile>)
    returns (retval: L10nFile)
    requires dirlist == Pack(dirs) && Consistent(dirs, locale)
      && name == FileName(Request(dirs, mask, locale, filename))
    requires pool.Valid() && k <= |pool.nodes| && Fits(pool.nodes, k, name) && last == NodeAt(pool.nodes, k - 1)
      && Closed(pool, open)
    modifies pool, pool.members`next
    ensures pool.Valid() && Closed(pool, open) && Grown(pool)
    ensures retval in pool.members && fresh(retval) && retval.filename == name
    ensures retval.decided == Decided(Request(dirs, mask, locale, filename))
    decreases Lists(dirs), mask, 3
  {
    hide Complete, FileName, Pack, Successors, Slots, Fits, Decided, Pool.Valid;
    ghost var r := Request(dirs, mask, locale, filename);
    retval := Allocate(pool, dirlist, mask, name, last, k, r, open);
    NothingRecorded(retval, pool.members, r);
    Fill(pool, retval, dirlist, mask, locale, filename, dirs, open + {retval});
  }

  lemma NothingRecorded(n: L10nFile, all: set<L10nFile>, r: Request)
    requires |n.successor| == Slots(r)
    ensures Recorded(n, all, Successors(r), 0)
  {
    hide Slots, Successors;
    SuccessorsFit(r);
  }

  /** One more successor: `retval->successor[entries++] = ...`. */
  method FillOne(pool: Pool, node: L10nFile, entries: nat, dirlist: string, cnt: Mask, locale: Locale,
          filename: string, ghost dirs: seq<string>, ghost requests: seq<Request>, ghost open: set<L10nFile>)
    requires Building(pool, node, requests, entries, open)
    requires entries < |requests| && requests[entries] == Request(dirs, cnt, locale, filename)
    requires dirlist == Pack(dirs) && Consistent(dirs, locale)
    modifies pool, pool.members`next, node`successor
    ensures Building(pool, node, requests, entries + 1, open) && Grown(pool)
      && |node.successor| == old(|node.successor|)
    decreases Lists(dirs), cnt, 5
  {
    hide Complete, FileName, Pack, Names, Pool.Valid;
    ghost var before := pool.members;
    var file := MakeL10nflist(pool, dirlist, cnt, locale, filename, true, dirs, open);
    RecordedStays(node, before, pool.members, requests, entries);
    node.successor := node.successor[entries := file];
  }

  /** The successors for one mask. */
  method FillRow(pool: Pool, node: L10nFile, entries: nat, dirlist: string, dirlist_count: nat, cnt: Mask,
          locale: Locale, filename: string, ghost r: Request, ghost requests: seq<Request>, ghost open: set<L10nFile>)
    returns (entries': nat)
    requires Building(pool, node, requests, entries, open)
    requires entries + |Row(r, cnt)| <= |requests| && requests[entries..entries + |Row(r, cnt)|] == Row(r, cnt)
    requires dirlist == Pack(r.dirs) && Consistent(r.dirs, locale) && r.locale == locale && r.filename == filename
    requires dirlist_count == DirlistCount(r) && (dirlist_count <= 1 ==> cnt < r.mask)
    modifies pool, pool.members`next, node`successor
    ensures entries' == entries + |Row(r, cnt)|
    ensures Building(pool, node, requests, entries', open) && Grown(pool) && |node.successor| == old(|node.successor|)
    decreases Lists(r.dirs), r.mask, 1
  {
    hide Building, Pack;
    if dirlist_count > 1 {
      entries' := FillList(pool, node, entries, dirlist, cnt, locale, filename, r, requests, open);
    } else {
      assert requests[entries] == requests[entries..entries + |Row(r, cnt)|][0];
      FillOne(pool, node, entries, dirlist, cnt, locale, filename, r.dirs, requests, open);
      entries' := entries + 1;
    }
  }

  /** One successor for each directory of a list. */
  method FillList(pool: Pool, node: L10nFile, entries: nat, dirlist: string, cnt: Mask, locale: Locale,
          filename: string, ghost r: Request, ghost requests: seq<Request>, ghost open: set<L10nFile>)
    returns (entries': nat)
    requires Building(pool, node, requests, entries, open) && |r.dirs| > 1
    requires entries + |r.dirs| <= |requests| && requests[entries..entries + |r.dirs|] == Row(r, cnt)
    requires dirlist == Pack(r.dirs) && Consistent(r.dirs, locale) && r.locale == locale && r.filename == filename
    modifies pool, pool.members`next, node`successor
    ensures entries' == entries + |r.dirs|
    ensures Building(pool, node, requests, entries', open) && Grown(pool) && |node.successor| == old(|node.successor|)
    decreases Lists(r.dirs), r.mask, 0
  {
    hide Building, Pack, Offset;
    entries' := entries;
    ghost var j := 0;
    var dir := Next(dirlist, Null, r.dirs, 0);
    while dir.At?
      invariant j <= |r.dirs| && entries' == entries + j
      invariant dir == if j < |r.dirs| then At(Offset(r.dirs, j)) else Null
      invariant Building(pool, node, requests, entries', open) && Grown(pool)
        && |node.successor| == old(|node.successor|)
      decreases |r.dirs| - j
    {
      var part_len := PieceLength(dirlist, dir.offset, r.dirs, j);
      OnePacked(r.dirs[j], locale, r.dirs, j);
      assert requests[entries + j] == requests[entries..entries + |r.dirs|][j];
      FillOne(pool, node, entries', dirlist[dir.offset..dir.offset + part_len] + "\0", cnt, locale, filename,
        [r.dirs[j]], requests, open);
      entries', j := entries' + 1, j + 1;
      dir := Next(dirlist, dir, r.dirs, j);
    }
  }

  /** `strlen` of an entry. */
  method PieceLength(dirlist: string, offset: nat, ghost dirs: seq<string>, ghost j: nat) returns (n: nat)
    requires dirlist == Pack(dirs) && Plain(dirs) && j < |dirs| && offset == Offset(dirs, j)
    ensures offset + n < |dirlist| && dirlist[offset..offset + n] == dirs[j]
  {
    AtOffset(dirs, j);
    n := EntryLength(dirlist, offset, dirs[j..]);
  }

  lemma OnePacked(dir: string, locale: Locale, dirs: seq<string>, j: nat)
    requires j < |dirs| && dir == dirs[j] && Consistent(dirs, locale)
    ensures Pack([dir]) == dir + "\0" && Consistent([dir], locale)
  {
    assert [dir][1..] == [];
  }

  /** The loop over the masks that the node's mask dominates, from the largest. */
  method Fill(pool: Pool, node: L10nFile, dirlist: string, mask: Mask, locale: Locale, filename: string,
          ghost dirs: seq<string>, ghost open: set<L10nFile>)
    requires dirlist == Pack(dirs) && Consistent(dirs, locale)
    requires node.request == Request(dirs, mask, locale, filename) && |node.successor| == Slots(node.request)
    requires node.filename == FileName(node.request)
    requires Building(pool, node, Successors(node.request), 0, open)
    modifies pool, pool.members`next, node`successor
    ensures pool.Valid() && Closed(pool, open) && Grown(pool) && Complete(node, pool.members)
    decreases Lists(dirs), mask, 2
  {
    hide Building, Pack, FileName, Slots, Row, Rows, Successors, Usable, Complete, Pool.Valid;
    ghost var r := node.request;
    ghost var requests := Successors(r);
    var dirlist_count := 1;
    if |dirlist| > 0 {
      dirlist_count := Count(dirlist, r.dirs);
    }
    var entries: nat := 0;
    var cnt: int := if dirlist_count > 1 then mask else mask - 1;
    AllRows(r);
    while cnt >= 0
      invariant -1 <= cnt <= (if |dirs| > 1 then mask else mask - 1) && entries <= |requests|
      invariant requests[entries..] == Rows(r, cnt + 1)
      invariant Building(pool, node, requests, entries, open) && Grown(pool) && |node.successor| == Slots(r)
      decreases cnt + 1
    {
      if Usable(cnt, mask) {
        RowComesFirst(r, requests, entries, cnt);
        entries := FillRow(pool, node, entries, dirlist, dirlist_count, cnt, locale, filename, r, requests, open);
      } else {
        RowIsSkipped(r, cnt);
      }
      cnt := cnt - 1;
    }
    NoRows(r);
    Finish(pool, node, entries, requests, open);
  }

  lemma AllRows(r: Request)
    ensures Successors(r)[0..] == Rows(r, if |r.dirs| > 1 then r.mask + 1 else r.mask)
  {
  }

  lemma RowIsSkipped(r: Request, cnt: Mask)
    requires !Usable(cnt, r.mask)
    ensures Rows(r, cnt + 1) == Rows(r, cnt)
  {
  }

  lemma NoRows(r: Request)
    ensures Rows(r, 0) == []
  {
  }

  lemma RowComesFirst(r: Request, requests: seq<Request>, entries: nat, cnt: Mask)
    requires entries <= |requests| && requests[entries..] == Rows(r, cnt + 1) && Usable(cnt, r.mask)
    ensures entries + |Row(r, cnt)| <= |requests| && requests[entries..entries + |Row(r, cnt)|] == Row(r, cnt)
    ensures requests[entries + |Row(r, cnt)|..] == Rows(r, cnt)
  {
    hide Row, Usable;
    assert Rows(r, cnt + 1) == Row(r, cnt) + Rows(r, cnt);
    assert requests[entries..entries + |Row(r, cnt)|] == requests[entries..][..|Row(r, cnt)|];
    assert requests[entries + |Row(r, cnt)|..] == requests[entries..][|Row(r, cnt)|..];
  }

  /** The closing NULL. */
  method Finish(pool: Pool, node: L10nFile, entries: nat, ghost requests: seq<Request>, ghost open: set<L10nFile>)
    requires requests == Successors(node.request) && entries == |requests|
      && Building(pool, node, requests, entries, open)
    requires node.filename == FileName(node.request) && |node.successor| == Slots(node.request)
    modifies node`successor
    ensures pool.Valid() && Closed(pool, open) && Complete(node, pool.members)
  {
    hide FileName, Slots, Successors, Pool.Valid;
    node.successor := node.successor[entries := null];
  }

  /** A complete node inherits from nodes with strictly shorter names: inheritance has no cycles. */
  lemma InheritsFromShorter(n: L10nFile, all: set<L10nFile>, i: nat)
    requires Complete(n, all) && i < |Successors(n.request)|
    ensures n.successor[i] != null && n.successor[i] in all && |n.successor[i].filename| < |n.filename|
  {
    hide FileName, Successors, Slots;
    SuccessorsAreShorter(n.request, i);
    assert Is(n.successor[i], all, Successors(n.request)[i]);
  }
}
