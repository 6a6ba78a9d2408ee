/**
 `_nl_make_l10nflist`: the pool of lookup results, a linked list in strictly
 decreasing order of file name, and the inheritance lists of its nodes.
 */
module LocalePool {
  import opened CStrings
  import opened LocaleNames

  /** A smaller name comes later in the list than a name that is smaller than it. */
  lemma CompareDescends(a: string, b: string, c: string)
    requires Compare(a, b) > 0 && Compare(b, c) > 0
    ensures Compare(a, c) > 0
  {
    CompareOrder(a, b);
    CompareOrder(b, c);
    CompareTransitive(c, b, a);
    CompareOrder(c, a);
  }

  class L10nFile {
    const filename: string
    var decided: bool
    var next: L10nFile?
    /** The flexible array at the end of the structure; its length is the allocation. */
    var successor: seq<L10nFile?>
    ghost const request: Request

    constructor (filename: string, decided: bool, slots: nat, ghost request: Request)
      ensures this.filename == filename && this.decided == decided && next == null && this.request == request
      ensures |successor| == slots
    {
      this.filename, this.decided, next, successor := filename, decided, null, seq(slots, _ => null);
      this.request := request;
    }
  }

  /** Node k of the list, or the end. */
  ghost function NodeAt(nodes: seq<L10nFile>, k: int): L10nFile? {
    if 0 <= k < |nodes| then nodes[k] else null
  }

  ghost predicate Sorted(nodes: seq<L10nFile>) {
    forall i, j :: 0 <= i < j < |nodes| ==> Compare(nodes[i].filename, nodes[j].filename) > 0
  }

  ghost function Spliced(nodes: seq<L10nFile>, k: nat, n: L10nFile): seq<L10nFile>
    requires k <= |nodes|
  {
    nodes[..k] + [n] + nodes[k..]
  }

  ghost predicate Above(nodes: seq<L10nFile>, k: nat, name: string) {
    k <= |nodes| && forall i :: 0 <= i < k ==> Compare(nodes[i].filename, name) > 0
  }

  /** Everything before k is greater, everything from k on is smaller. */
  ghost predicate Fits(nodes: seq<L10nFile>, k: nat, name: string) {
    && Above(nodes, k, name)
    && (forall i :: k <= i < |nodes| ==> Compare(name, nodes[i].filename) > 0)
  }

  lemma SplicedSorted(nodes: seq<L10nFile>, k: nat, n: L10nFile)
    requires Sorted(nodes) && Fits(nodes, k, n.filename)
    ensures Sorted(Spliced(nodes, k, n))
  {
  }

  lemma FitsFrom(nodes: seq<L10nFile>, k: nat, name: string)
    requires Sorted(nodes) && Above(nodes, k, name)
    requires k < |nodes| ==> Compare(nodes[k].filename, name) < 0
    ensures Fits(nodes, k, name)
  {
    forall i | k <= i < |nodes| ensures Compare(name, nodes[i].filename) > 0 {
      CompareOrder(name, nodes[k].filename);
      CompareOrder(nodes[k].filename, name);
      if k < i {
        CompareDescends(name, nodes[k].filename, nodes[i].filename);
      }
    }
  }

  lemma AboveNone(nodes: seq<L10nFile>, name: string)
    ensures Above(nodes, 0, name)
  {
  }

  lemma AboveMore(nodes: seq<L10nFile>, k: nat, name: string)
    requires Above(nodes, k, name) && k < |nodes| && Compare(nodes[k].filename, name) > 0
    ensures Above(nodes, k + 1, name)
  {
  }

  lemma NodesDiffer(nodes: seq<L10nFile>)
    requires Sorted(nodes)
    ensures forall i, j :: 0 <= i < |nodes| && 0 <= j < |nodes| && i != j ==> nodes[i] != nodes[j]
  {
    forall i, j | 0 <= i < |nodes| && 0 <= j < |nodes| && i < j ensures nodes[i] != nodes[j] {
      CompareOrder(nodes[i].filename, nodes[j].filename);
    }
  }

  lemma SplicedAt(nodes: seq<L10nFile>, k: nat, n: L10nFile, i: int)
    requires k <= |nodes|
    ensures |Spliced(nodes, k, n)| == |nodes| + 1
    ensures NodeAt(Spliced(nodes, k, n), i)
      == if i < k then NodeAt(nodes, i) else if i == k then n else NodeAt(nodes, i - 1)
  {
  }

  /** Two new links splice a node in. */
  lemma SplicedLinks(nodes: seq<L10nFile>, k: nat, n: L10nFile)
    requires k <= |nodes| && n.next == NodeAt(nodes, k) && (k > 0 ==> nodes[k - 1].next == n)
    requires forall i :: 0 <= i < |nodes| && i != k - 1 ==> nodes[i].next == NodeAt(nodes, i + 1)
    ensures NodeAt(Spliced(nodes, k, n), 0) == if k == 0 then n else NodeAt(nodes, 0)
    ensures forall i :: 0 <= i < |Spliced(nodes, k, n)| ==>
      Spliced(nodes, k, n)[i].next == NodeAt(Spliced(nodes, k, n), i + 1)
  {
    hide Spliced;
    var spliced := Spliced(nodes, k, n);
    SplicedAt(nodes, k, n, 0);
    forall i | 0 <= i < |spliced| ensures spliced[i].next == NodeAt(spliced, i + 1) {
      SplicedAt(nodes, k, n, i);
      SplicedAt(nodes, k, n, i + 1);
    }
  }

  lemma SplicedMembers(nodes: seq<L10nFile>, k: nat, n: L10nFile)
    requires k <= |nodes|
    ensures forall x :: x in Spliced(nodes, k, n) <==> x in nodes || x == n
  {
    assert nodes == nodes[..k] + nodes[k..];
  }

  lemma FitsMeansAbsent(nodes: seq<L10nFile>, k: nat, name: string)
    requires Fits(nodes, k, name)
    ensures forall n :: n in nodes ==> n.filename != name
  {
    CompareOrder(name, name);
  }

  class Pool {
    var head: L10nFile?
    ghost var nodes: seq<L10nFile>
    ghost var members: set<L10nFile>

    ghost predicate Valid()
      reads this, nodes`next
    {
      Linked() && members == (set n | n in nodes)
    }

    ghost predicate Linked()
      reads this`head, this`nodes, nodes`next
    {
      && Sorted(nodes) && head == NodeAt(nodes, 0)
      && forall k :: 0 <= k < |nodes| ==> nodes[k].next == NodeAt(nodes, k + 1)
    }

    constructor ()
      ensures Valid() && nodes == []
    {
      head, nodes, members := null, [], {};
    }

    /** The search: the node with that name, or where it belongs, after `last`. */
    method Find(name: string) returns (found: L10nFile?, last: L10nFile?, ghost k: nat)
      requires Valid()
      ensures k <= |nodes| && last == NodeAt(nodes, k - 1)
      ensures found != null ==> found == NodeAt(nodes, k) && found in members && found.filename == name
      ensures found == null ==> forall n :: n in members ==> n.filename != name
      ensures found == null ==> Fits(nodes, k, name)
    {
      hide Compare, Sorted, Above, Fits;
      found, last, k := head, null, 0;
      AboveNone(nodes, name);
      while found != null
        invariant k <= |nodes| && found == NodeAt(nodes, k) && last == NodeAt(nodes, k - 1)
        invariant Above(nodes, k, name)
        decreases |nodes| - k
      {
        var compare := Compare(found.filename, name);
        if compare == 0 {
          CompareOrder(found.filename, name);
          return;
        }
        if compare < 0 {
          FitsFrom(nodes, k, name);
          FitsMeansAbsent(nodes, k, name);
          found := null;
          return;
        }
        AboveMore(nodes, k, name);
        last, found, k := found, found.next, k + 1;
      }
      FitsFrom(nodes, k, name);
      FitsMeansAbsent(nodes, k, name);
    }

    /** Links n in after `last`. */
    method Insert(n: L10nFile, last: L10nFile?, ghost k: nat)
      requires Valid() && k <= |nodes| && Fits(nodes, k, n.filename) && last == NodeAt(nodes, k - 1) && n !in members
      modifies this, members`next, n`next
      ensures Valid() && nodes == Spliced(old(nodes), k, n) && members == old(members) + {n}
    {
      hide Fits, Spliced, Linked;
      ghost var was := nodes;
      Link(n, last, k);
      members := members + {n};
      SplicedMembers(was, k, n);
    }

    method Link(n: L10nFile, last: L10nFile?, ghost k: nat)
      requires Linked() && k <= |nodes| && Fits(nodes, k, n.filename) && last == NodeAt(nodes, k - 1) && n !in nodes
      modifies this`head, this`nodes, nodes`next, n`next
      ensures Linked() && nodes == Spliced(old(nodes), k, n)
    {
      hide Compare, Sorted, Fits, Above, Spliced;
      SplicedSorted(nodes, k, n);
      NodesDiffer(nodes);
      ghost var was := nodes;
      assert k > 0 ==> last == was[k - 1];
      if last == null {
        n.next := head;
        head := n;
      } else {
        n.next := last.next;
        last.next := n;
      }
      assert forall i :: 0 <= i < |was| && i != k - 1 ==> was[i].next == NodeAt(was, i + 1);
      assert n.next == NodeAt(was, k) && (k > 0 ==> was[k - 1].next == n);
      nodes := Spliced(nodes, k, n);
      SplicedLinks(was, k, n);
    }
  }
}
