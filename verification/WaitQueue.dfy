/**
 `gl_waitqueue_t`: a queue of events in a ring that grows by reallocation and is
 rotated to offset 0 when it does.
 */
module WaitQueue {
  import opened Options

  class Queue<Event(0)> {
    var events: array<Event>
    var count: nat
    var alloc: nat
    var offset: nat

    /** The slot of the i-th waiting event. */
    function Slot(i: nat): nat
      reads this
    {
      if offset + i >= alloc then offset + i - alloc else offset + i
    }

    ghost predicate Valid()
      reads this
    {
      events.Length == alloc && count <= alloc && (if alloc == 0 then offset == 0 else offset < alloc)
    }

    /** The waiting events, first come first. */
    ghost function Contents(): (s: seq<Event>)
      requires Valid()
      reads this, events
      ensures |s| == count
    {
      seq(count, i requires 0 <= i < count && Valid() reads this, events => events[Slot(i)])
    }

    /** `gl_waitqueue_init` */
    constructor ()
      ensures Valid() && Contents() == [] && fresh(events)
    {
      events := new Event[0];
      count, alloc, offset := 0, 0, 0;
    }

    /** The reallocation of `gl_waitqueue_add`: doubles the array and moves the first waiting event to slot 0. */
    method Grow()
      requires Valid() && count == alloc
      modifies this
      ensures Valid() && Contents() == old(Contents()) && count == old(count) < alloc && fresh(events)
    {
      ghost var was := Contents();
      var new_alloc := 2 * alloc + 1;
      var new_array := Reallocated(new_alloc);
      assert forall j :: 0 <= j < count ==> was[j] == events[Slot(j)] == new_array[Slot(j)];
      if offset > 0 {
        Straighten(new_array, alloc, offset, count, was);
        offset := 0;
      }
      events, alloc := new_array, new_alloc;
      assert forall j :: 0 <= j < count ==> events[Slot(j)] == was[j];
    }

    /** `realloc`: a longer array with the same events in front. */
    method Reallocated(new_alloc: nat) returns (new_array: array<Event>)
      requires Valid() && new_alloc >= alloc
      ensures fresh(new_array) && new_array.Length == new_alloc
      ensures forall j :: 0 <= j < alloc ==> new_array[j] == events[j]
    {
      new_array := new Event[new_alloc];
      for i := 0 to alloc
        invariant forall j :: 0 <= j < i ==> new_array[j] == events[j]
      {
        new_array[i] := events[i];
      }
    }

    /** Brings a ring of `end` slots that starts at `old_offset` into line. */
    static method Straighten(a: array<Event>, end: nat, old_offset: nat, old_count: nat, ghost was: seq<Event>)
      requires 0 < old_offset < end == old_count == |was| && 2 * end < a.Length
      requires forall j :: 0 <= j < old_count ==>
        was[j] == a[if old_offset + j >= end then old_offset + j - end else old_offset + j]
      modifies a
      ensures forall j :: 0 <= j < old_count ==> a[j] == was[j]
    {
      var limit := old_offset + old_count - end;
      Unwrap(a, end, limit);
      forall j | 0 <= j < old_count ensures a[old_offset + j] == was[j] {
        if old_offset + j >= end {
          assert a[end + (old_offset + j - end)] == was[j];
        }
      }
      Rotate(a, old_offset, old_count, was);
    }

    /** Moves the events that had wrapped to where the array used to end. */
    static method Unwrap(a: array<Event>, end: nat, limit: nat)
      requires limit <= end && end + limit <= a.Length
      modifies a
      ensures forall j :: 0 <= j < end ==> a[j] == old(a[j])
      ensures forall j :: 0 <= j < limit ==> a[end + j] == old(a[j])
    {
      for i := 0 to limit
        invariant forall j :: 0 <= j < end ==> a[j] == old(a[j])
        invariant forall j :: 0 <= j < i ==> a[end + j] == old(a[j])
      {
        a[end + i] := a[i];
      }
    }

    /** Moves `old_count` events down by `old_offset`, front to back. */
    static method Rotate(a: array<Event>, old_offset: nat, old_count: nat, ghost was: seq<Event>)
      requires old_offset > 0 && old_offset + old_count <= a.Length && |was| == old_count
      requires forall j :: 0 <= j < old_count ==> a[old_offset + j] == was[j]
      modifies a
      ensures forall j :: 0 <= j < old_count ==> a[j] == was[j]
    {
      for i := 0 to old_count
        invariant forall j :: 0 <= j < i ==> a[j] == was[j]
        invariant forall j :: i <= j < old_count ==> a[old_offset + j] == was[j]
      {
        a[i] := a[old_offset + i];
      }
    }

    /**
     `gl_waitqueue_add`: appends a new event, unless memory (`room`) or the event
     could not be allocated; then nothing waits that did not wait before.
     */
    method Add(room: bool, event: Option<Event>) returns (added: bool)
      requires Valid()
      modifies this, events
      ensures Valid() && (events == old(events) || fresh(events))
      ensures added <==> (old(count < alloc) || room) && event.Some?
      ensures Contents() == if added then old(Contents()) + [event.value] else old(Contents())
    {
      if count == alloc {
        if !room {
          return false;
        }
        Grow();
      }
      if event.None? {
        return false;
      }
      ghost var was := Contents();
      var index := offset + count;
      if index >= alloc {
        index := index - alloc;
      }
      assert forall i :: 0 <= i < count ==> Slot(i) != index;
      events[index] := event.value;
      count := count + 1;
      assert Contents() == was + [event.value];
      return true;
    }

    /** `gl_waitqueue_notify_first`: sets the first event and dequeues it. */
    method NotifyFirst() returns (set_event: Event)
      requires Valid() && count > 0
      modifies this
      ensures Valid() && events == old(events)
      ensures [set_event] + Contents() == old(Contents())
    {
      ghost var was := Contents();
      set_event := events[offset + 0];
      offset := offset + 1;
      count := count - 1;
      if count == 0 || offset == alloc {
        offset := 0;
      }
      assert Contents() == was[1..];
    }

    /** `gl_waitqueue_notify_all`: sets all events, first come first, and dequeues them. */
    method NotifyAll() returns (set_events: seq<Event>)
      requires Valid()
      modifies this
      ensures Valid() && events == old(events)
      ensures set_events == old(Contents()) && Contents() == []
    {
      ghost var was := Contents();
      set_events := [];
      for i := 0 to count
        invariant unchanged(this) && set_events == was[..i]
      {
        var index := offset + i;
        if index >= alloc {
          index := index - alloc;
        }
        set_events := set_events + [events[index]];
      }
      count := 0;
      offset := 0;
    }
  }
}
