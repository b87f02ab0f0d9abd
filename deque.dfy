/** Network::Thread_safe_deque seen from one thread at a time: a double-ended
    queue whose every operation takes the same lock, so each call acts on the
    sequence atomically. The lock itself has no sequential effect and is not
    modelled. */
module Deques {

  class Deque<T> {
    /** m_queue, front first. */
    var contents: seq<T>

    /** Thread_safe_deque(): an empty queue. */
    constructor ()
      ensures contents == []
    {
      contents := [];
    }

    /** front: the first element, without removing it. */
    method Front() returns (x: T)
      requires contents != []
      ensures x == contents[0]
    {
      x := contents[0];
    }

    /** back: the last element, without removing it. */
    method Back() returns (x: T)
      requires contents != []
      ensures x == contents[|contents| - 1]
    {
      x := contents[|contents| - 1];
    }

    /** push_front: `item` becomes the first element. */
    method PushFront(item: T)
      modifies this
      ensures contents == [item] + old(contents)
    {
      contents := [item] + contents;
    }

    /** push_back: `item` becomes the last element. */
    method PushBack(item: T)
      modifies this
      ensures contents == old(contents) + [item]
    {
      contents := contents + [item];
    }

    /** empty */
    method Empty() returns (b: bool)
      ensures b <==> contents == []
    {
      b := |contents| == 0;
    }

    /** count: the number of elements, which is what the source means by it
        (its body calls std::deque::count, which does not exist). */
    method Count() returns (n: nat)
      ensures n == |contents|
      ensures n == 0 <==> contents == []
    {
      n := |contents|;
    }

    /** clear */
    method Clear()
      modifies this
      ensures contents == []
    {
      contents := [];
    }

    /** pop_front: removes and returns the first element. */
    method PopFront() returns (x: T)
      requires contents != []
      modifies this
      ensures x == old(contents)[0] && contents == old(contents)[1..]
      ensures [x] + contents == old(contents)
    {
      x := contents[0];
      contents := contents[1..];
    }

    /** pop_back: removes and returns the last element. */
    method PopBack() returns (x: T)
      requires contents != []
      modifies this
      ensures x == old(contents)[|old(contents)| - 1] && contents == old(contents)[..|old(contents)| - 1]
      ensures contents + [x] == old(contents)
    {
      x := contents[|contents| - 1];
      contents := contents[..|contents| - 1];
    }
  }

  /** The producer/consumer use of the queue: a producer pushes `items` at
      the back, then a consumer that checks empty() before each pop_front
      drains it. It gets every item exactly once, in insertion order. */
  method ProduceThenConsume<T>(items: seq<T>) returns (consumed: seq<T>)
    ensures consumed == items
  {
    var queue := new Deque<T>();
    for i := 0 to |items|
      invariant queue.contents == items[..i]
    {
      queue.PushBack(items[i]);
    }
    consumed := [];
    var empty := queue.Empty();
    while !empty
      invariant empty <==> queue.contents == []
      invariant |consumed| <= |items|
      invariant consumed == items[..|consumed|] && queue.contents == items[|consumed|..]
      decreases |queue.contents|
    {
      var item := queue.PopFront();
      consumed := consumed + [item];
      empty := queue.Empty();
    }
  }
}
