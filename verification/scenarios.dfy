/** Consequences of the queue's contracts over several calls: first-in,
    first-out draining, fixed call sequences (add A, B, C then move A to the
    tail; add A, B then remove A; add A twice), each followed by polls, the
    behaviour after `clear`, and the tombstone that keeps a late `remove` from unlinking a
    node that `poll` already took. */
module Scenarios {
  import opened Collections
  import OrderedSet
  import opened FastRemovalQueue
  import LinkedList

  /** Add the elements of `es` one after the other. */
  method AddEach<E(==)>(q: Queue<E>, es: seq<E>) returns (r: Queue<E>)
    requires Valid(q)
    ensures Valid(r) && Elems(r) == OrderedSet.AddAll(Elems(q), es)
    decreases |es|
  {
    if es == [] {
      r := q;
    } else {
      r := AddEach(q, es[..|es|-1]);
      r := Add(r, es[|es|-1]);
    }
  }

  /** Poll until the queue reports empty: the elements come out oldest
      first, and the queue is left empty. */
  method Drain<E(==)>(q: Queue<E>) returns (r: Queue<E>, out: seq<E>)
    requires Valid(q)
    ensures Valid(r) && Elems(r) == []
    ensures out == Elems(q)
    decreases |Elems(q)|
  {
    var head;
    r, head := Poll(q);
    if head.Some? {
      var rest;
      r, rest := Drain(r);
      out := [head.value] + rest;
    } else {
      out := [];
    }
  }

  /** Add every element of `es` to a new queue, then poll until the queue
      reports empty. What comes out is `es` with repeats dropped, in the
      order of first addition; for distinct elements it is `es` itself. */
  method AddAllThenDrain<E(==)>(es: seq<E>) returns (out: seq<E>)
    ensures out == OrderedSet.AddAll([], es)
    ensures NoDup(out)
    ensures NoDup(es) ==> out == es
  {
    var q := New();
    q := AddEach(q, es);
    IndexMatchesChain(q);
    q, out := Drain(q);
    if NoDup(es) {
      OrderedSet.AddAllDistinct(es);
    }
  }

  /** The abstract side of the next scenario: after adding A, B and C,
      moving A to the tail gives B, C, A. */
  lemma AbstractMoveToTail()
    ensures OrderedSet.Add(OrderedSet.Add(OrderedSet.Add([], 'A'), 'B'), 'C') == ['A', 'B', 'C']
    ensures OrderedSet.MoveToTail(['A', 'B', 'C'], 'A') == ['B', 'C', 'A']
  {
    assert ['A', 'B', 'C'][1..] == ['B', 'C'];
    assert Without(['C'], 'A') == ['C'] && Without(['B', 'C'], 'A') == ['B', 'C'];
  }

  /** Add A, B, C, move A to the tail, then poll four times: B, C, A, and
      then nothing. */
  method MoveToTailOrder() returns (polled: seq<Option<char>>)
    ensures polled == [Some('B'), Some('C'), Some('A'), None]
  {
    AbstractMoveToTail();
    var q := New();
    q := Add(q, 'A');
    q := Add(q, 'B');
    q := Add(q, 'C');
    var moved;
    q, moved := MoveToTail(q, 'A');
    ghost var s := Elems(q);
    assert s == ['B', 'C', 'A'];
    var p1, p2, p3, p4;
    q, p1 := Poll(q);
    assert Elems(q) == s[1..];
    q, p2 := Poll(q);
    assert Elems(q) == s[2..];
    q, p3 := Poll(q);
    assert Elems(q) == [];
    q, p4 := Poll(q);
    polled := [p1, p2, p3, p4];
  }

  /** Add A and B, remove A, then poll twice: B, and then nothing. */
  method RemoveThenPoll() returns (removed: bool, polled: seq<Option<char>>)
    ensures removed
    ensures polled == [Some('B'), None]
  {
    var q := New();
    q := Add(q, 'A');
    q := Add(q, 'B');
    assert Elems(q) == ['A', 'B'];
    q, removed := Remove(q, 'A');
    assert Without(['A', 'B'], 'A') == ['B'] by {
      assert ['A', 'B'][1..] == ['B'];
    }
    var p1, p2;
    q, p1 := Poll(q);
    q, p2 := Poll(q);
    polled := [p1, p2];
  }

  /** Adding an element twice queues it once. */
  method AddTwice() returns (polled: seq<Option<char>>)
    ensures polled == [Some('A'), None]
  {
    var q := New();
    q := Add(q, 'A');
    q := Add(q, 'A');
    var p1, p2;
    q, p1 := Poll(q);
    q, p2 := Poll(q);
    polled := [p1, p2];
  }

  /** Removing an element a second time finds nothing and changes nothing. */
  method RemoveTwice<E(==)>(q: Queue<E>, e: E) returns (first: bool, second: bool, r: Queue<E>)
    requires Valid(q)
    ensures first <==> e in Elems(q)
    ensures !second
    ensures Valid(r) && Elems(r) == OrderedSet.Remove(Elems(q), e)
  {
    var q1, q2;
    q1, first := Remove(q, e);
    IndexMatchesChain(q1);
    q2, second := Remove(q1, e);
    r := q2;
  }

  /** After `clear`, removing or moving any element reports false and
      polling reports an empty queue. */
  method ClearForgets<E(==)>(q: Queue<E>, e: E) returns (removed: bool, moved: bool, polled: Option<E>)
    requires Valid(q)
    ensures !removed && !moved && polled == None
  {
    var c := Clear(q);
    var r1, r2, r3;
    r1, removed := Remove(c, e);
    r2, moved := MoveToTail(c, e);
    r3, polled := Poll(c);
  }

  /** `poll` and `remove` of the same element interleaved at their
      unlocked point: `poll` unlinks and tombstones the first node, `remove`
      then takes the element out of the index and reaches the list with the
      tombstoned node, and `poll` finally finds the index entry gone. The
      tombstone makes the list step of `remove` a no-op that reports
      false, and the end state is the one a plain `poll` produces. */
  method PollRacesRemove<E(==)>(q: Queue<E>) returns (r: Queue<E>, polled: Option<E>, removed: bool)
    requires Valid(q)
    ensures Valid(r)
    ensures (Elems(r), polled) == OrderedSet.Poll(Elems(q))
    ensures !removed
  {
    ghost var hs := Chain(q);
    IndexMatchesChain(q);
    var list, node := LinkedList.RemoveFirst(q.list, hs);
    if node.Some? {
      var value := list.nodes[node.value].value;
      assert value == Elems(q)[0];
      var stale := q.index[value];
      var index := q.index - {value};
      var list', ok := LinkedList.Remove(list, stale, hs[1..]);
      r, polled, removed := Queue(index - {value}, list', q.nextHandle), Some(value), ok;
      assert list' == list && index - {value} == index;
      PollStep(q, hs, list);
    } else {
      r, polled, removed := q, None, false;
    }
  }
}
