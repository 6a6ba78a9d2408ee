/**
 The doubly linked list of callbacks waiting for a nickname.
 */
module CallbackList {
  import opened CStrings
  import opened Options

  /** `strcasecmp(s, t) == 0`. */
  predicate SameNick(s: string, t: string) {
    |s| == |t| && forall i :: 0 <= i < |s| ==> LowerChar(s[i]) == LowerChar(t[i])
  }

  class CallbackItem {
    const nickname: string

    constructor (nickname: string)
      ensures this.nickname == nickname
    {
      this.nickname := nickname;
    }
  }

  class Element {
    const data: CallbackItem
    var prev: Element?
    var next: Element?

    constructor (data: CallbackItem)
      ensures this.data == data && prev == null && next == null
    {
      this.data, prev, next := data, null, null;
    }
  }

  ghost function ElementAt(nodes: seq<Element>, k: int): Element? {
    if 0 <= k < |nodes| then nodes[k] else null
  }

  ghost function Spliced(nodes: seq<Element>, p: nat, e: Element): seq<Element>
    requires p <= |nodes|
  {
    nodes[..p] + [e] + nodes[p..]
  }

  ghost function Without(nodes: seq<Element>, k: nat): seq<Element>
    requires k < |nodes|
  {
    nodes[..k] + nodes[k + 1..]
  }

  ghost predicate Distinct(nodes: seq<Element>) {
    forall i, j :: 0 <= i < j < |nodes| ==> nodes[i] != nodes[j]
  }

  /** The links of all elements but the ones after p - 1 and before q. */
  ghost predicate Chained(nodes: seq<Element>, p: int, q: int)
    reads nodes`next, nodes`prev
  {
    && (forall i :: 0 <= i < |nodes| && i != p - 1 ==> nodes[i].next == ElementAt(nodes, i + 1))
    && (forall i :: 0 <= i < |nodes| && i != q ==> nodes[i].prev == ElementAt(nodes, i - 1))
  }

  class CallbackDList {
    var size: int
    var head: Element?
    var tail: Element?
    ghost var nodes: seq<Element>

    ghost predicate Valid()
      reads this, nodes`next, nodes`prev
    {
      && size == |nodes| && head == ElementAt(nodes, 0) && tail == ElementAt(nodes, |nodes| - 1)
      && Distinct(nodes) && Chained(nodes, -1, -1)
    }

    constructor ()
      ensures Valid() && nodes == []
    {
      size, head, tail, nodes := 0, null, null, [];
    }

    /** Position k of an element, or nothing for an empty list. */
    ghost predicate Stands(element: Element?, k: nat)
      reads this`nodes
    {
      (element == null && k == 0) || (element != null && ElementAt(nodes, k) == element)
    }

    /** The list is `was` with a new element at position p. */
    ghost predicate Inserted(was: seq<Element>, p: nat, data: CallbackItem)
      reads this`nodes
    {
      p <= |was| && p < |nodes| && nodes[p].data == data && nodes == Spliced(was, p, nodes[p])
    }

    /** Behind `element`; refused without an element, unless the list is empty. */
    method InsertNext(element: Element?, data: CallbackItem, ghost k: nat) returns (ok: bool)
      requires Valid() && (nodes == [] || Stands(element, k))
      modifies this, nodes`next, nodes`prev
      ensures Valid() && (ok <==> element != null || old(nodes) == [])
      ensures !ok ==> nodes == old(nodes)
      ensures ok ==> Inserted(old(nodes), if old(nodes) == [] then 0 else k + 1, data)
      ensures ok ==> fresh(nodes[if old(nodes) == [] then 0 else k + 1])
    {
      hide Joined, Spliced, Chained, Distinct;
      if element == null && size != 0 {
        return false;
      }
      ghost var was, p := nodes, if nodes == [] then 0 else k + 1;
      var new_element := new Element(data);
      if size == 0 {
        head, tail := new_element, new_element;
        JoinedAlone(nodes, new_element);
      } else {
        WireNext(element, new_element, k);
        if new_element.next == null {
          tail := new_element;
        }
      }
      size := size + 1;
      ok := true;
      Extend(new_element, p);
      SplicedAt(was, p, new_element, p);
    }

    /** In front of `element`; refused without an element, unless the list is empty. */
    method InsertPrev(element: Element?, data: CallbackItem, ghost k: nat) returns (ok: bool)
      requires Valid() && (nodes == [] || Stands(element, k))
      modifies this, nodes`next, nodes`prev
      ensures Valid() && (ok <==> element != null || old(nodes) == [])
      ensures !ok ==> nodes == old(nodes)
      ensures ok ==> Inserted(old(nodes), if old(nodes) == [] then 0 else k, data)
      ensures ok ==> fresh(nodes[if old(nodes) == [] then 0 else k])
    {
      hide Joined, Spliced, Chained, Distinct;
      if element == null && size != 0 {
        return false;
      }
      ghost var was, p := nodes, if nodes == [] then 0 else k;
      var new_element := new Element(data);
      if size == 0 {
        head, tail := new_element, new_element;
        JoinedAlone(nodes, new_element);
      } else {
        WirePrev(element, new_element, k);
        if new_element.prev == null {
          head := new_element;
        }
      }
      size := size + 1;
      ok := true;
      Extend(new_element, p);
      SplicedAt(was, p, new_element, p);
    }

    /** Takes an element out and gives its data back; refused without one, or from an empty list. */
    method Remove(element: Element?, ghost k: nat) returns (data: Option<CallbackItem>)
      requires Valid() && (nodes == [] || element == null || ElementAt(nodes, k) == element)
      modifies this, nodes`next, nodes`prev
      ensures Valid() && (data.Some? <==> element != null && old(nodes) != [])
      ensures data.None? ==> nodes == old(nodes)
      ensures data.Some? ==> data.value == element.data && k < |old(nodes)| && nodes == Without(old(nodes), k)
    {
      hide Chained, Distinct, Without, Parted;
      if element == null || size == 0 {
        return None;
      }
      data := Some(element.data);
      Unlink(element, k);
      size := size - 1;
      Shrink(k);
    }

    /** The links of a removal, at the head and elsewhere. */
    method Unlink(element: Element, ghost k: nat)
      requires Valid() && k < |nodes| && nodes[k] == element
      modifies this`head, this`tail, nodes`next, nodes`prev
      ensures Parted(nodes, k)
      ensures head == if k == 0 then ElementAt(nodes, 1) else ElementAt(nodes, 0)
      ensures tail == if k == |nodes| - 1 then ElementAt(nodes, |nodes| - 2) else ElementAt(nodes, |nodes| - 1)
    {
      hide Distinct, Chained, Parted;
      Ends(k);
      if element == head {
        UnlinkHead(element);
      } else {
        UnlinkInner(element, k);
      }
    }

    /** How an element tells that it is the first or the last. */
    lemma Ends(k: nat)
      requires Valid() && k < |nodes|
      ensures (nodes[k] == head <==> k == 0) && (nodes[k].prev == null <==> k == 0)
        && (nodes[k].next == null <==> k == |nodes| - 1)
    {
    }

    method UnlinkHead(element: Element)
      requires Valid() && |nodes| > 0 && nodes[0] == element
      modifies this`head, this`tail, nodes`prev
      ensures Parted(nodes, 0) && head == ElementAt(nodes, 1)
      ensures tail == if |nodes| == 1 then null else old(tail)
    {
      head := element.next;
      if head == null {
        tail := null;
      } else {
        element.next.prev := null;
      }
    }

    method UnlinkInner(element: Element, ghost k: nat)
      requires Valid() && 0 < k < |nodes| && nodes[k] == element
      modifies this`tail, nodes`next, nodes`prev
      ensures Parted(nodes, k) && tail == if k == |nodes| - 1 then ElementAt(nodes, k - 1) else old(tail)
    {
      assert element.next == ElementAt(nodes, k + 1) && element.prev == ElementAt(nodes, k - 1);
      element.prev.next := element.next;
      if element.next == null {
        tail := element.prev;
      } else {
        element.next.prev := element.prev;
      }
    }

    ghost method Shrink(k: nat)
      requires k < |nodes| && Distinct(nodes) && Parted(nodes, k) && size == |nodes| - 1
      requires head == if k == 0 then ElementAt(nodes, 1) else ElementAt(nodes, 0)
      requires tail == if k == |nodes| - 1 then ElementAt(nodes, |nodes| - 2) else ElementAt(nodes, |nodes| - 1)
      modifies this`nodes
      ensures Valid() && nodes == Without(old(nodes), k)
    {
      hide Without, Parted, Distinct, Chained;
      WithoutChain(nodes, k);
      WithoutDistinct(nodes, k);
      WithoutAt(nodes, k, 0);
      WithoutAt(nodes, k, |nodes| - 2);
      nodes := Without(nodes, k);
    }

    /** Forward from element k, as long as there is a next one. */
    method Forward(element: Element, nickname: string, ghost k: nat) returns (temp: Element, ghost j: nat)
      requires Valid() && k < |nodes| && nodes[k] == element
      ensures k <= j < |nodes| && nodes[j] == temp && NoneMatches(nodes, k, j, nickname)
      ensures SameNick(temp.data.nickname, nickname) || j == |nodes| - 1
    {
      hide SameNick;
      temp, j := element, k;
      while !SameNick(temp.data.nickname, nickname) && temp.next != null
        invariant k <= j < |nodes| && nodes[j] == temp && NoneMatches(nodes, k, j, nickname)
        decreases |nodes| - j
      {
        temp, j := temp.next, j + 1;
      }
    }

    /** Backward from element k, as long as there is a previous one. */
    method Backward(element: Element, nickname: string, ghost k: nat) returns (temp: Element, ghost j: nat)
      requires Valid() && k < |nodes| && nodes[k] == element
      ensures j <= k && nodes[j] == temp && NoneMatches(nodes, j + 1, k + 1, nickname)
      ensures SameNick(temp.data.nickname, nickname) || j == 0
    {
      hide SameNick;
      temp, j := element, k;
      while !SameNick(temp.data.nickname, nickname)
        invariant j <= k && nodes[j] == temp && NoneMatches(nodes, j + 1, k + 1, nickname)
        decreases j
      {
        if temp.prev != null {
          temp, j := temp.prev, j - 1;
        } else {
          break;
        }
      }
    }

    /**
     Search by nickname: forward from the head or from the middle, backward
     from the tail. From the head it finds the first match of the list, from
     the tail the last, and nothing exactly when there is none.
     */
    method SearchNickname(element: Element?, nickname: string, ghost k: nat) returns (found: Element?, ghost j: nat)
      requires Valid() && (nodes == [] || element == null || ElementAt(nodes, k) == element)
      ensures element == null || nodes == [] ==> found == null
      ensures found != null ==> j < |nodes| && nodes[j] == found && SameNick(found.data.nickname, nickname)
      ensures element != null && nodes != [] && !(k > 0 && k == |nodes| - 1) ==>
        NoneMatches(nodes, k, if found == null then |nodes| else j, nickname) && (found != null ==> k <= j)
      ensures element != null && nodes != [] && k > 0 && k == |nodes| - 1 ==>
        NoneMatches(nodes, if found == null then 0 else j + 1, |nodes|, nickname)
    {
      hide SameNick, Distinct, Chained;
      found, j := null, 0;
      if head == null || tail == null || size == 0 || element == null {
        return;
      }
      Ends(k);
      var temp: Element;
      if element.prev == null {
        temp, j := Forward(element, nickname, k);
      } else if element.next == null {
        temp, j := Backward(element, nickname, k);
      } else {
        temp, j := Forward(element, nickname, k);
      }
      if SameNick(temp.data.nickname, nickname) {
        found := temp;
      }
    }

    /** Empties the list from its tail; the destructor, if there is one, is called with each item once. */
    method Destroy(destroy: bool) returns (destroyed: seq<CallbackItem>)
      requires Valid()
      modifies this, nodes`next, nodes`prev
      ensures Valid() && nodes == [] && |destroyed| == if destroy then |old(nodes)| else 0
      ensures forall i :: 0 <= i < |destroyed| ==> destroyed[i] == old(nodes)[|old(nodes)| - 1 - i].data
    {
      hide Chained, Distinct;
      destroyed := [];
      while size > 0
        invariant Valid() && |nodes| <= |old(nodes)| && nodes == old(nodes)[..|nodes|]
        invariant |destroyed| == if destroy then |old(nodes)| - |nodes| else 0
        invariant forall i :: 0 <= i < |destroyed| ==> destroyed[i] == old(nodes)[|old(nodes)| - 1 - i].data
        decreases |nodes|
      {
        var data := Remove(tail, |nodes| - 1);
        if data.Some? && destroy {
          destroyed := destroyed + [data.value];
        }
      }
    }

    /** The elements after an insertion. */
    ghost method Extend(e: Element, p: nat)
      requires p <= |nodes| && e !in nodes && Distinct(nodes) && Joined(nodes, p, e) && size == |nodes| + 1
      requires head == if p == 0 then e else ElementAt(nodes, 0)
      requires tail == if p == |nodes| then e else ElementAt(nodes, |nodes| - 1)
      modifies this`nodes
      ensures Valid() && nodes == Spliced(old(nodes), p, e)
    {
      hide Spliced, Joined, Distinct, Chained;
      SplicedChain(nodes, p, e);
      SplicedDistinct(nodes, p, e);
      SplicedAt(nodes, p, e, 0);
      SplicedAt(nodes, p, e, |nodes|);
      nodes := Spliced(nodes, p, e);
    }

    /** The links of an insertion behind `element`. */
    method WireNext(element: Element, new_element: Element, ghost k: nat)
      requires Distinct(nodes) && Chained(nodes, -1, -1) && k < |nodes| && nodes[k] == element && new_element !in nodes
      modifies nodes`next, nodes`prev, new_element`next, new_element`prev
      ensures Joined(nodes, k + 1, new_element) && new_element.next == ElementAt(nodes, k + 1)
    {
      new_element.next := element.next;
      new_element.prev := element;
      if element.next != null {
        element.next.prev := new_element;
      }
      element.next := new_element;
    }

    method WirePrev(element: Element, new_element: Element, ghost k: nat)
      requires Distinct(nodes) && Chained(nodes, -1, -1) && k < |nodes| && nodes[k] == element && new_element !in nodes
      modifies nodes`next, nodes`prev, new_element`next, new_element`prev
      ensures Joined(nodes, k, new_element) && new_element.prev == ElementAt(nodes, k - 1)
    {
      new_element.next := element;
      new_element.prev := element.prev;
      if element.prev != null {
        element.prev.next := new_element;
      }
      element.prev := new_element;
    }
  }

  /** e is linked in at position p, and nothing else has changed. */
  ghost predicate Joined(nodes: seq<Element>, p: nat, e: Element)
    reads nodes`next, nodes`prev, e`next, e`prev
  {
    && p <= |nodes| && Chained(nodes, p, p) && e.next == ElementAt(nodes, p) && e.prev == ElementAt(nodes, p - 1)
    && (p > 0 ==> nodes[p - 1].next == e) && (p < |nodes| ==> nodes[p].prev == e)
  }

  /** No element from i on and before j has the nickname, in any case of letters. */
  ghost predicate NoneMatches(nodes: seq<Element>, i: int, j: int, nickname: string) {
    forall m :: i <= m < j && 0 <= m < |nodes| ==> !SameNick(nodes[m].data.nickname, nickname)
  }

  /** The links go past element k, and nothing else has changed. */
  ghost predicate Parted(nodes: seq<Element>, k: nat)
    reads nodes`next, nodes`prev
  {
    && k < |nodes| && Chained(nodes, k, k + 1)
    && (k > 0 ==> nodes[k - 1].next == ElementAt(nodes, k + 1))
    && (k + 1 < |nodes| ==> nodes[k + 1].prev == ElementAt(nodes, k - 1))
  }

  lemma WithoutAt(nodes: seq<Element>, k: nat, i: int)
    requires k < |nodes|
    ensures |Without(nodes, k)| == |nodes| - 1
    ensures ElementAt(Without(nodes, k), i) == if i < k then ElementAt(nodes, i) else ElementAt(nodes, i + 1)
  {
  }

  lemma WithoutDistinct(nodes: seq<Element>, k: nat)
    requires k < |nodes| && Distinct(nodes)
    ensures Distinct(Without(nodes, k))
  {
  }

  lemma WithoutChain(nodes: seq<Element>, k: nat)
    requires Parted(nodes, k)
    ensures Chained(Without(nodes, k), -1, -1)
  {
    var s := Without(nodes, k);
    forall i | 0 <= i < |s| ensures s[i].next == ElementAt(s, i + 1) && s[i].prev == ElementAt(s, i - 1) {
      hide Without;
      WithoutAt(nodes, k, i - 1);
      WithoutAt(nodes, k, i);
      WithoutAt(nodes, k, i + 1);
    }
  }

  lemma JoinedAlone(nodes: seq<Element>, e: Element)
    requires nodes == [] && e.next == null && e.prev == null
    ensures Joined(nodes, 0, e)
  {
  }

  lemma SplicedAt(nodes: seq<Element>, p: nat, e: Element, i: int)
    requires p <= |nodes|
    ensures |Spliced(nodes, p, e)| == |nodes| + 1
    ensures ElementAt(Spliced(nodes, p, e), i) ==
      if i < p then ElementAt(nodes, i) else if i == p then e else ElementAt(nodes, i - 1)
  {
  }

  lemma SplicedDistinct(nodes: seq<Element>, p: nat, e: Element)
    requires p <= |nodes| && Distinct(nodes) && e !in nodes
    ensures Distinct(Spliced(nodes, p, e))
  {
  }

  lemma SplicedChain(nodes: seq<Element>, p: nat, e: Element)
    requires Joined(nodes, p, e)
    ensures Chained(Spliced(nodes, p, e), -1, -1)
  {
    var s := Spliced(nodes, p, e);
    forall i | 0 <= i < |s| ensures s[i].next == ElementAt(s, i + 1) && s[i].prev == ElementAt(s, i - 1) {
      hide Spliced;
      SplicedAt(nodes, p, e, i - 1);
      SplicedAt(nodes, p, e, i);
      SplicedAt(nodes, p, e, i + 1);
    }
  }
}
