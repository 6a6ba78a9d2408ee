/**
 The bot's message queue: a ring of elements around a sentinel. New elements
 go in after the sentinel and old ones leave before it.
 */
module MessageQueue {
  import opened Options

  type Byte = bv8

  /** A counted buffer, as callers pass it and as elements own it. */
  datatype QueueData = QueueData(t_size: nat, data: array?<Byte>)

  predicate Sound(d: QueueData) {
    d.t_size > 0 ==> d.data != null && d.t_size <= d.data.Length
  }

  function Payload(d: QueueData): seq<Byte>
    requires Sound(d)
    reads d.data
  {
    if d.t_size == 0 || d.data == null then [] else d.data[..d.t_size]
  }

  datatype QueueExeStatus = Success | NullPointer

  /** The sentinel, or an element. */
  class Queue {
    var sentinel: Queue
    var next: Queue
    var prev: Queue
    var itr: Queue
    var longCount: int
    var queuedataData: QueueData

    /** Of the sentinel: its elements from the newest, and their payloads from the oldest. */
    ghost var nodes: seq<Queue>
    ghost var datas: seq<QueueData>
    ghost var contents: seq<seq<Byte>>
    ghost var buffers: set<array<Byte>>

    constructor ()
      ensures Valid() && contents == [] && ItrAt(0)
      ensures fresh(nodes) && fresh(buffers)
    {
      sentinel, next, prev, itr, longCount := this, this, this, this, 0;
      queuedataData := QueueData(0, null);
      nodes, datas, contents, buffers := [], [], [], {};
    }

    constructor Element(s: Queue, d: QueueData)
      ensures sentinel == s && queuedataData == d
    {
      sentinel, next, prev, itr, longCount, queuedataData := s, s, s, s, 0, d;
      nodes, datas, contents, buffers := [], [], [], {};
    }

    ghost predicate Ring()
      reads this`sentinel, this`longCount, this`nodes, this`next, this`prev, nodes`next, nodes`prev, nodes`sentinel
    {
      && sentinel == this && longCount == |nodes| && this !in nodes
      && (forall i, j :: 0 <= i < j < |nodes| ==> nodes[i] != nodes[j])
      && (forall k :: 0 <= k <= |nodes| ==> RingAt(this, nodes, k).next == RingAt(this, nodes, k + 1))
      && (forall k :: 0 <= k <= |nodes| ==> RingAt(this, nodes, k + 1).prev == RingAt(this, nodes, k))
      && (forall k :: 0 <= k < |nodes| ==> nodes[k].sentinel == this)
    }

    /** The payloads of the elements, from the newest. */
    ghost predicate Holds()
      reads this`nodes, this`datas, nodes`queuedataData
    {
      |datas| == |nodes| && forall k :: 0 <= k < |nodes| ==> nodes[k].queuedataData == datas[k]
    }

    ghost predicate Valid()
      reads this, nodes, buffers
    {
      Ring() && Holds() && Stored(datas, contents, buffers)
    }

    /** The iterator stands at element k, or at the sentinel. */
    ghost predicate ItrAt(k: nat)
      reads this
    {
      k <= |nodes| && itr == RingAt(this, nodes, k)
    }

    /** A new element for a payload. */
    method AddElement(d: QueueData)
      requires Ring() && Holds()
      modifies this`next, this`prev, this`nodes, this`longCount, this`datas, nodes`prev
      ensures Ring() && Holds() && datas == [d] + old(datas)
      ensures |nodes| == |old(nodes)| + 1 && nodes[1..] == old(nodes) && fresh(nodes[0])
    {
      hide Ring;
      var pqueueNew := new Queue.Element(this, d);
      LinkNewest(pqueueNew);
      datas := [d] + datas;
    }

    /** Appends a copy of the payload. */
    method PushQueue(e: QueueData) returns (status: QueueExeStatus)
      requires Valid() && (e.data != null ==> Sound(e))
      modifies this, nodes
      ensures Valid() && (status.NullPointer? <==> e.t_size > 0 && e.data == null)
      ensures status.NullPointer? ==> contents == old(contents) && nodes == old(nodes) && buffers == old(buffers)
      ensures status.Success? ==> contents == old(contents) + [old(Payload(e))] && fresh(buffers - old(buffers))
      ensures itr == old(itr)
      ensures status.Success? ==> nodes != [] && nodes[1..] == old(nodes) && fresh(nodes[0])
    {
      hide Ring, Holds, Stored, Payload;
      if e.t_size > 0 && e.data == null {
        return NullPointer;
      }
      ghost var payload := Payload(e);
      var d := Copy(e);
      StoredPush(datas, contents, buffers, d);
      AddElement(d);
      contents := contents + [payload];
      buffers := buffers + Buffers(d);
      return Success;
    }

    lemma CountIsSize()
      requires Ring()
      ensures longCount == |nodes|
    {
    }

    /** The oldest element, unlinked. */
    method PopLinks() returns (pqueueOld: Queue)
      requires Ring() && longCount > 0
      modifies this`next, this`prev, this`nodes, this`longCount, nodes`next
      ensures Ring() && old(nodes) == nodes + [pqueueOld] && longCount == |nodes|
    {
      assert prev == RingAt(this, nodes, |nodes|) != sentinel by {
        assert RingAt(this, nodes, |nodes| + 1).prev == RingAt(this, nodes, |nodes|);
      }
      pqueueOld := UnlinkOldest();
    }

    /** Hands over the oldest payload. The wait for a non-empty queue is over. */
    method PopQueue() returns (d: QueueData)
      requires Valid() && longCount > 0
      modifies this, nodes
      ensures Valid() && Sound(d) && old(contents) == [Payload(d)] + contents
      ensures buffers == old(buffers) - Buffers(d) && Buffers(d) <= old(buffers)
      ensures nodes == old(nodes)[..|nodes|] && |nodes| + 1 == |old(nodes)| && itr == old(itr)
    {
      hide Ring, Stored;
      CountIsSize();
      StoredSize(datas, contents, buffers);
      StoredPop(datas, contents, buffers);
      var pqueueOld := PopLinks();
      d := pqueueOld.queuedataData;
      datas := datas[..|datas| - 1];
      contents := contents[1..];
      buffers := buffers - Buffers(d);
    }

    method IsEmptyQueue() returns (ret: bool)
      requires Valid()
      ensures ret <==> contents == []
    {
      hide Stored;
      CountIsSize();
      ret := longCount == 0;
      StoredSize(datas, contents, buffers);
    }

    /** Takes everything out. */
    method FlushQueue()
      requires Valid()
      modifies this, nodes
      ensures Valid() && contents == []
    {
      hide Ring, Holds, Stored;
      var empty := IsEmptyQueue();
      while !empty
        invariant Valid() && (empty <==> contents == [])
        invariant |nodes| <= |old(nodes)| && nodes == old(nodes)[..|nodes|]
        decreases |contents|
      {
        NonEmpty();
        var d := PopQueue();
        empty := IsEmptyQueue();
      }
    }

    lemma NonEmpty()
      requires Valid() && contents != []
      ensures longCount > 0
    {
    }

    /** The next element from the iterator on, newest first; nothing, and no move, at the last one. */
    method GetNextItrQueue(ghost k: nat) returns (d: Option<QueueData>)
      requires Valid() && ItrAt(k)
      modifies this`itr
      ensures Valid() && ItrAt(if k < |nodes| then k + 1 else k)
      ensures if k < |nodes| then d.Some? && Sound(d.value) && Payload(d.value) == contents[|nodes| - 1 - k]
              else d.None?
    {
      d := None;
      assert RingAt(this, nodes, k).next == RingAt(this, nodes, k + 1);
      if longCount != 0 {
        if itr.next != sentinel {
          itr := itr.next;
          d := Some(itr.queuedataData);
          assert Owns(datas[k], buffers, contents[|nodes| - 1 - k]);
        }
      }
    }

    method SetIterToFirst()
      requires Valid()
      modifies this`itr
      ensures Valid() && ItrAt(0)
    {
      itr := sentinel;
    }

    /** A full iteration: every payload once, from the newest to the oldest. */
    method VisitAll() returns (visited: seq<QueueData>)
      requires Valid()
      modifies this`itr
      ensures Valid() && |visited| == |contents|
      ensures forall i :: 0 <= i < |visited| ==>
        Sound(visited[i]) && Payload(visited[i]) == contents[|contents| - 1 - i]
    {
      hide Ring, Holds, Stored, Payload, ItrAt;
      visited := [];
      SetIterToFirst();
      StoredSize(datas, contents, buffers);
      SameSize();
      var d := GetNextItrQueue(0);
      while d.Some?
        invariant Valid() && |visited| <= |nodes| == |contents|
        invariant if |visited| < |nodes| then d.Some? && ItrAt(|visited| + 1) else d.None?
        invariant d.Some? ==> Sound(d.value) && Payload(d.value) == contents[|contents| - 1 - |visited|]
        invariant forall i :: 0 <= i < |visited| ==>
          Sound(visited[i]) && Payload(visited[i]) == contents[|contents| - 1 - i]
        decreases |nodes| - |visited|
      {
        visited := visited + [d.value];
        d := GetNextItrQueue(|visited|);
      }
    }

    lemma SameSize()
      requires Holds()
      ensures |datas| == |nodes|
    {
    }

    /** The links of a push. */
    method LinkNewest(e: Queue)
      requires Ring() && e !in nodes && e != this && e.sentinel == this
      modifies this`next, this`prev, this`nodes, this`longCount, nodes`prev, e`next, e`prev
      ensures Ring() && nodes == [e] + old(nodes) && longCount == old(longCount) + 1
    {
      ghost var was := nodes;
      assert RingAt(this, was, 0) == this;
      assert next == RingAt(this, was, 1);
      e.next := next;
      if longCount == 0 {
        prev := e;
      } else {
        next.prev := e;
      }
      e.prev := this;
      next := e;
      longCount := longCount + 1;
      nodes := [e] + nodes;
      forall k | 0 <= k <= |nodes|
        ensures RingAt(this, nodes, k).next == RingAt(this, nodes, k + 1)
          && RingAt(this, nodes, k + 1).prev == RingAt(this, nodes, k)
      {
        PushedAt(this, was, e, k);
        PushedAt(this, was, e, k + 1);
      }
    }

    /** The links of a pop. */
    method UnlinkOldest() returns (pqueueOld: Queue)
      requires Ring() && |nodes| > 0
      modifies this`next, this`prev, this`nodes, this`longCount, nodes`next
      ensures Ring() && old(nodes) == nodes + [pqueueOld] && longCount == old(longCount) - 1
    {
      ghost var was, n := nodes, |nodes|;
      assert RingAt(this, was, n + 1) == this && RingAt(this, was, n) == was[n - 1];
      pqueueOld := prev;
      prev := pqueueOld.prev;
      assert prev == RingAt(this, was, n - 1);
      prev.next := sentinel;
      longCount := longCount - 1;
      nodes := nodes[..n - 1];
      forall k | 0 <= k <= |nodes|
        ensures RingAt(this, nodes, k).next == RingAt(this, nodes, k + 1)
          && RingAt(this, nodes, k + 1).prev == RingAt(this, nodes, k)
      {
        PoppedAt(this, was, k);
        PoppedAt(this, was, k + 1);
      }
    }
  }

  /** Element k, counted from the newest as 1; the sentinel before and after. */
  ghost function RingAt(sentinel: Queue, nodes: seq<Queue>, k: int): Queue {
    if 1 <= k <= |nodes| then nodes[k - 1] else sentinel
  }

  lemma PushedAt(sentinel: Queue, nodes: seq<Queue>, e: Queue, k: nat)
    requires k <= |nodes| + 2
    ensures RingAt(sentinel, [e] + nodes, k)
      == if k == 0 then sentinel else if k == 1 then e else RingAt(sentinel, nodes, k - 1)
  {
  }

  lemma PoppedAt(sentinel: Queue, nodes: seq<Queue>, k: nat)
    requires k <= |nodes| && nodes != []
    ensures RingAt(sentinel, nodes[..|nodes| - 1], k) == if k < |nodes| then RingAt(sentinel, nodes, k) else sentinel
  {
  }

  ghost predicate Owns(d: QueueData, buffers: set<array<Byte>>, payload: seq<Byte>)
    reads buffers
  {
    Sound(d) && (d.data != null ==> d.data in buffers) && (d.data == null ==> d.t_size == 0) && Payload(d) == payload
  }

  ghost predicate Separate(d: QueueData, e: QueueData) {
    d.data == null || d.data != e.data
  }

  ghost function Buffers(d: QueueData): set<array<Byte>> {
    if d.data == null then {} else {d.data}
  }

  /** Every payload has its own copy. */
  ghost predicate Stored(datas: seq<QueueData>, contents: seq<seq<Byte>>, buffers: set<array<Byte>>)
    reads buffers
  {
    && |contents| == |datas|
    && (forall k :: 0 <= k < |datas| ==> Owns(datas[k], buffers, contents[|datas| - 1 - k]))
    && (forall i, j :: 0 <= i < j < |datas| ==> Separate(datas[i], datas[j]))
  }

  lemma StoredPush(datas: seq<QueueData>, contents: seq<seq<Byte>>, buffers: set<array<Byte>>, d: QueueData)
    requires Stored(datas, contents, buffers) && Sound(d) && (d.data == null ==> d.t_size == 0) && Buffers(d) !! buffers
    ensures Stored([d] + datas, contents + [Payload(d)], buffers + Buffers(d))
  {
  }

  lemma StoredPop(datas: seq<QueueData>, contents: seq<seq<Byte>>, buffers: set<array<Byte>>)
    requires Stored(datas, contents, buffers) && datas != []
    ensures var d := datas[|datas| - 1];
      && Sound(d) && Payload(d) == contents[0] && Buffers(d) <= buffers
      && Stored(datas[..|datas| - 1], contents[1..], buffers - Buffers(d))
  {
  }

  lemma StoredSize(datas: seq<QueueData>, contents: seq<seq<Byte>>, buffers: set<array<Byte>>)
    requires Stored(datas, contents, buffers)
    ensures |contents| == |datas|
  {
  }

  /** `malloc` and `memcpy` of a payload. */
  method Copy(e: QueueData) returns (d: QueueData)
    requires Sound(e)
    ensures Sound(d) && Payload(d) == Payload(e) && d.t_size == e.t_size
    ensures d.data != null ==> fresh(d.data)
    ensures d.data == null <==> d.t_size == 0
  {
    if e.t_size == 0 {
      return QueueData(0, null);
    }
    var data := new Byte[e.t_size];
    for i := 0 to e.t_size
      invariant data[..i] == e.data[..i]
    {
      data[i] := e.data[i];
    }
    d := QueueData(e.t_size, data);
  }
}
