/** The public face of `FastRemovalQueue`: an index from element to node
    next to the linked list of module LinkedList.

    Each public method is the sequential composition of its index step and
    its list step, in the order the source performs them (`poll` runs its
    list step first). The representation invariant `Valid` says that some chain
    of handles `Tracks` the queue; `Elems` reads the elements along that
    chain, and every method is proved to act on `Elems` as the matching
    function of module OrderedSet. */
module FastRemovalQueue {
  import opened Collections
  import opened LinkedList
  import OrderedSet

  /** The index (element to node), the list with its node arena, and the
      next unused handle (the allocator behind `new Node<>(element)`). */
  datatype Queue<E> = Queue(index: map<E, Handle>, list: List<E>, nextHandle: Handle)

  /** `hs` is the chain of `q.list`, every handle in the arena was
      allocated before `nextHandle`, and index and chain agree: each indexed
      element maps to a linked node holding it, and the element of each
      linked node is indexed at that very node. */
  ghost predicate Tracks<E>(q: Queue<E>, hs: seq<Handle>) {
    && Links(q.list, hs)
    && (forall h :: h in q.list.nodes ==> h < q.nextHandle)
    && (forall e :: e in q.index ==>
          q.index[e] in hs && q.index[e] in q.list.nodes && q.list.nodes[q.index[e]].value == e)
    && (forall i :: 0 <= i < |hs| ==>
          hs[i] in q.list.nodes && q.list.nodes[hs[i]].value in q.index
          && q.index[q.list.nodes[hs[i]].value] == hs[i])
  }

  /** The representation invariant of the queue. */
  ghost predicate Valid<E>(q: Queue<E>) {
    exists hs :: Tracks(q, hs)
  }

  /** The chain of a valid queue (unique, by `ChainUnique`). */
  ghost function Chain<E>(q: Queue<E>): seq<Handle>
    requires Valid(q)
  {
    var hs :| Tracks(q, hs); hs
  }

  /** The elements held by the nodes `hs`, in order. */
  ghost function Values<E>(nodes: map<Handle, Node<E>>, hs: seq<Handle>): seq<E>
    requires forall i :: 0 <= i < |hs| ==> hs[i] in nodes
  {
    seq(|hs|, i requires 0 <= i < |hs| => nodes[hs[i]].value)
  }

  /** The abstract ordered set a valid queue stands for, oldest first. */
  ghost function Elems<E>(q: Queue<E>): seq<E>
    requires Valid(q)
  {
    Values(q.list.nodes, Chain(q))
  }

  /** Any chain that tracks `q` is the one `Chain` picks. */
  lemma ChainIs<E>(q: Queue<E>, hs: seq<Handle>)
    requires Tracks(q, hs)
    ensures Valid(q) && Chain(q) == hs
  {
    ChainUnique(q.list, Chain(q), hs);
  }

  /** Index/chain correspondence: the index's keys are exactly the elements
      linked in the chain, each key maps to the node holding it, and no
      element is linked twice. */
  lemma IndexMatchesChain<E>(q: Queue<E>)
    requires Valid(q)
    ensures NoDup(Elems(q))
    ensures forall e :: e in q.index <==> e in Elems(q)
    ensures forall i :: 0 <= i < |Elems(q)| ==>
              Elems(q)[i] in q.index && q.index[Elems(q)[i]] == Chain(q)[i]
  {
    var hs := Chain(q);
    var es := Elems(q);
    assert |es| == |hs|;
    forall i, j | 0 <= i < j < |es| ensures es[i] != es[j] {
      assert q.index[es[i]] == hs[i] && q.index[es[j]] == hs[j];
    }
    forall e | e in q.index ensures e in es {
      var i :| 0 <= i < |hs| && hs[i] == q.index[e];
      assert es[i] == e;
    }
  }

  /** Elements read through nodes that kept their values are unchanged. */
  lemma ValuesKept<E>(l: List<E>, r: List<E>, hs: seq<Handle>)
    requires SameValues(l, r)
    requires forall i :: 0 <= i < |hs| ==> hs[i] in l.nodes
    ensures Values(r.nodes, hs) == Values(l.nodes, hs)
  {
  }

  /** Cutting position `k` out of the chain cuts it out of the elements. */
  lemma ValuesCut<E>(nodes: map<Handle, Node<E>>, hs: seq<Handle>, k: nat, hs': seq<Handle>)
    requires forall i :: 0 <= i < |hs| ==> hs[i] in nodes
    requires k < |hs| && hs' == hs[..k] + hs[k+1..]
    ensures forall i :: 0 <= i < |hs'| ==> hs'[i] in nodes
    ensures Values(nodes, hs') == Values(nodes, hs)[..k] + Values(nodes, hs)[k+1..]
  {
    var vs := Values(nodes, hs);
    var vs' := vs[..k] + vs[k+1..];
    assert |hs'| == |vs'|;
    forall i | 0 <= i < |hs'| ensures hs'[i] in nodes && nodes[hs'[i]].value == vs'[i] {
      var j := if i < k then i else i + 1;
      assert hs'[i] == hs[j];
      assert vs'[i] == vs[j];
    }
  }

  /** Appending a node for an element that was not indexed, and indexing
      it there, keeps index and chain in step. */
  lemma AppendTracks<E>(q: Queue<E>, hs: seq<Handle>, e: E, list: List<E>)
    requires Tracks(q, hs)
    requires e !in q.index
    requires Links(list, hs + [q.nextHandle])
    requires list.nodes.Keys == q.list.nodes.Keys + {q.nextHandle}
    requires forall h :: h in q.list.nodes ==> list.nodes[h].value == q.list.nodes[h].value
    requires list.nodes[q.nextHandle].value == e
    ensures Tracks(Queue(q.index[e := q.nextHandle], list, q.nextHandle + 1), hs + [q.nextHandle])
    ensures Values(list.nodes, hs + [q.nextHandle]) == Values(q.list.nodes, hs) + [e]
  {
    var n := q.nextHandle;
    var hs' := hs + [n];
    var r := Queue(q.index[e := n], list, n + 1);
    assert forall i :: 0 <= i < |hs| ==> hs'[i] == hs[i];
    forall i | 0 <= i < |hs'|
      ensures hs'[i] in list.nodes && list.nodes[hs'[i]].value in r.index
      ensures r.index[list.nodes[hs'[i]].value] == hs'[i]
    {
      if i < |hs| {
        assert list.nodes[hs[i]].value == q.list.nodes[hs[i]].value;
      }
    }
    assert Values(list.nodes, hs') == Values(q.list.nodes, hs) + [e];
  }

  /** Unlinking the node at position `k` and dropping its element from the
      index keeps index and chain in step, and drops that element from the
      sequence. */
  lemma DropTracks<E>(q: Queue<E>, hs: seq<Handle>, k: nat, list: List<E>, hs': seq<Handle>)
    requires Tracks(q, hs)
    requires k < |hs| && hs' == hs[..k] + hs[k+1..]
    requires Links(list, hs')
    requires SameValues(q.list, list)
    ensures Tracks(Queue(q.index - {q.list.nodes[hs[k]].value}, list, q.nextHandle), hs')
  {
    var v := q.list.nodes[hs[k]].value;
    var r := Queue(q.index - {v}, list, q.nextHandle);
    assert forall i :: 0 <= i < |hs'| ==> hs'[i] == hs[if i < k then i else i + 1];
    forall e | e in r.index ensures r.index[e] in hs' {
      var j :| 0 <= j < |hs| && hs[j] == q.index[e];
      assert j != k;
      assert hs'[if j < k then j else j - 1] == hs[j];
    }
    forall i | 0 <= i < |hs'|
      ensures list.nodes[hs'[i]].value in r.index && r.index[list.nodes[hs'[i]].value] == hs'[i]
    {
      var j := if i < k then i else i + 1;
      assert hs'[i] == hs[j] && hs[j] != hs[k];
    }
  }

  /** Dropping the first node of a chain drops the first element. */
  lemma ValuesTail<E>(l: List<E>, r: List<E>, hs: seq<Handle>)
    requires SameValues(l, r)
    requires forall i :: 0 <= i < |hs| ==> hs[i] in l.nodes
    requires hs != []
    ensures Values(r.nodes, hs[1..]) == Values(l.nodes, hs)[1..]
    ensures r.nodes[hs[0]].value == Values(l.nodes, hs)[0]
  {
    var vs := Values(l.nodes, hs);
    var tail := Values(r.nodes, hs[1..]);
    assert |tail| == |vs[1..]|;
    forall i | 0 <= i < |tail| ensures tail[i] == vs[1..][i] {
      assert hs[1..][i] == hs[i+1];
    }
  }

  /** Unlinking the first node and dropping its element from the index
      pops the first element. */
  lemma PollStep<E>(q: Queue<E>, hs: seq<Handle>, list: List<E>)
    requires Tracks(q, hs)
    requires hs != []
    requires Links(list, hs[1..])
    requires SameValues(q.list, list)
    ensures hs[0] in list.nodes
    ensures Valid(Queue(q.index - {list.nodes[hs[0]].value}, list, q.nextHandle))
    ensures Elems(Queue(q.index - {list.nodes[hs[0]].value}, list, q.nextHandle))
         == Values(q.list.nodes, hs)[1..]
    ensures list.nodes[hs[0]].value == Values(q.list.nodes, hs)[0]
  {
    var r := Queue(q.index - {q.list.nodes[hs[0]].value}, list, q.nextHandle);
    assert hs[..0] + hs[1..] == hs[1..];
    DropTracks(q, hs, 0, list, hs[1..]);
    ChainIs(r, hs[1..]);
    ValuesTail(q.list, list, hs);
  }

  /** Moving the node at position `k` to the end of the chain keeps index and
      chain in step. */
  lemma MoveTracks<E>(q: Queue<E>, hs: seq<Handle>, k: nat, list: List<E>, hs': seq<Handle>)
    requires Tracks(q, hs)
    requires k < |hs| && hs' == hs[..k] + hs[k+1..] + [hs[k]]
    requires Links(list, hs')
    requires SameValues(q.list, list)
    ensures Tracks(Queue(q.index, list, q.nextHandle), hs')
  {
    assert |hs'| == |hs|;
    forall i | 0 <= i < |hs'|
      ensures hs'[i] in q.list.nodes && q.list.nodes[hs'[i]].value in q.index
      ensures q.index[q.list.nodes[hs'[i]].value] == hs'[i]
    {
      var j := if i < k then i else if i < |hs| - 1 then i + 1 else k;
      if i < k {
        assert hs'[i] == hs[..k][i];
      } else if i < |hs| - 1 {
        assert hs'[i] == hs[k+1..][i - k];
      }
      assert hs'[i] == hs[j];
    }
    forall e | e in q.index ensures q.index[e] in hs' {
      var j :| 0 <= j < |hs| && hs[j] == q.index[e];
      var i := if j < k then j else if j == k then |hs| - 1 else j - 1;
      if j < k {
        assert hs'[i] == hs[..k][j];
      } else if j > k {
        assert hs'[i] == hs[k+1..][j - k - 1];
      }
      assert hs'[i] == hs[j];
    }
  }

  /** Appending a node appends its element. */
  lemma ValuesAppend<E>(nodes: map<Handle, Node<E>>, hs: seq<Handle>, h: Handle)
    requires forall i :: 0 <= i < |hs| ==> hs[i] in nodes
    requires h in nodes
    ensures Values(nodes, hs + [h]) == Values(nodes, hs) + [nodes[h].value]
  {
    assert forall i :: 0 <= i < |hs| ==> (hs + [h])[i] == hs[i];
  }

  /** Whatever acts on the elements as `OrderedSet.Remove` of `e` leaves
      every other indexed element indexed. */
  lemma RemoveKeepsOthers<E>(q: Queue<E>, e: E, r: Queue<E>)
    requires Valid(q) && Valid(r)
    requires Elems(r) == OrderedSet.Remove(Elems(q), e)
    ensures forall x :: x in q.index && x != e ==> x in r.index
  {
    IndexMatchesChain(q);
    IndexMatchesChain(r);
    forall x | x in q.index && x != e ensures x in r.index {
      WithoutKeeps(Elems(q), e, x);
    }
  }

  /** A new, empty queue. */
  method New<E(==)>() returns (q: Queue<E>)
    ensures Valid(q) && Elems(q) == [] && q.index == map[]
  {
    q := Queue(map[], List(map[], None, None), 0);
    ChainIs(q, []);
  }

  /** `add`: `putIfAbsent` of a fresh node; only when the element was absent
      is that node appended. A present element keeps its place and its node. */
  method Add<E>(q: Queue<E>, e: E) returns (r: Queue<E>)
    requires Valid(q)
    ensures Valid(r)
    ensures Elems(r) == OrderedSet.Add(Elems(q), e)
    ensures e in Elems(q) ==> r == q
    ensures e in r.index
  {
    ghost var hs := Chain(q);
    IndexMatchesChain(q);
    var newNode := q.nextHandle;
    if e in q.index {
      // putIfAbsent found the element: the candidate node is dropped.
      r := q;
    } else {
      var index := q.index[e := newNode];
      var arena := q.list.(nodes := q.list.nodes[newNode := Node(e, None, None, false)]);
      LinksFrame(q.list, arena, hs);
      var list := AddNode(arena, newNode, hs);
      r := Queue(index, list, q.nextHandle + 1);

      AppendTracks(q, hs, e, list);
      ChainIs(r, hs + [newNode]);
    }
  }

  /** `moveToTail`: look the element up; if it is indexed, move its node
      to the tail of the list. The index is not touched. */
  method MoveToTail<E>(q: Queue<E>, e: E) returns (r: Queue<E>, moved: bool)
    requires Valid(q)
    ensures Valid(r)
    ensures moved <==> e in Elems(q)
    ensures Elems(r) == OrderedSet.MoveToTail(Elems(q), e)
    ensures r.index == q.index
    ensures !moved ==> r == q
  {
    ghost var hs := Chain(q);
    IndexMatchesChain(q);
    if e in q.index {
      var node := q.index[e];
      var list := LinkedList.MoveToTail(q.list, node, hs);
      r, moved := Queue(q.index, list, q.nextHandle), true;

      ghost var k :| 0 <= k < |hs| && hs[k] == node;
      ghost var rest := hs[..k] + hs[k+1..];
      ghost var es := Elems(q);
      WithoutAt(hs, k);
      WithoutAt(es, k);
      MoveTracks(q, hs, k, list, rest + [node]);
      ChainIs(r, rest + [node]);
      ValuesCut(q.list.nodes, hs, k, rest);
      ValuesAppend(q.list.nodes, rest, node);
      ValuesKept(q.list, list, rest + [node]);
    } else {
      r, moved := q, false;
    }
  }

  /** `remove`: take the element's node out of the index; if there was one,
      remove it from the list (which tombstones it). */
  method Remove<E>(q: Queue<E>, e: E) returns (r: Queue<E>, removed: bool)
    requires Valid(q)
    ensures Valid(r)
    ensures removed <==> e in Elems(q)
    ensures Elems(r) == OrderedSet.Remove(Elems(q), e)
    ensures e !in r.index
    ensures removed ==> e in q.index && q.index[e] in r.list.nodes && r.list.nodes[q.index[e]].deleted
    ensures !removed ==> r == q
  {
    ghost var hs := Chain(q);
    IndexMatchesChain(q);
    var node := if e in q.index then Some(q.index[e]) else None;
    var index := q.index - {e};
    if node.Some? {
      var list, ok := LinkedList.Remove(q.list, node.value, hs);
      r, removed := Queue(index, list, q.nextHandle), ok;

      ghost var k :| 0 <= k < |hs| && hs[k] == node.value;
      ghost var rest := hs[..k] + hs[k+1..];
      ghost var es := Elems(q);
      assert FitsAt(q.list.nodes, hs, k);
      assert |es| == |hs| && es[k] == e;
      WithoutAt(hs, k);
      WithoutAt(es, k);
      DropTracks(q, hs, k, list, rest);
      ChainIs(r, rest);
      ValuesCut(q.list.nodes, hs, k, rest);
      ValuesKept(q.list, list, rest);
    } else {
      assert index == q.index;
      r, removed := q, false;
    }
  }

  /** `poll`: remove the list's first node; if there was one, drop its
      element from the index and return it. */
  method Poll<E>(q: Queue<E>) returns (r: Queue<E>, head: Option<E>)
    requires Valid(q)
    ensures Valid(r)
    ensures (Elems(r), head) == OrderedSet.Poll(Elems(q))
    ensures head.Some? ==> head.value !in r.index
    ensures head.None? ==> r == q
  {
    ghost var hs := Chain(q);
    IndexMatchesChain(q);
    var list, node := RemoveFirst(q.list, hs);
    if node.Some? {
      var value := list.nodes[node.value].value;
      r, head := Queue(q.index - {value}, list, q.nextHandle), Some(value);

      PollStep(q, hs, list);
    } else {
      r, head := Queue(q.index, list, q.nextHandle), None;
    }
  }

  /** `clear`: empty the index, then the list. The nodes are not
      tombstoned; they are only unreachable. */
  method Clear<E>(q: Queue<E>) returns (r: Queue<E>)
    requires Valid(q)
    ensures Valid(r)
    ensures Elems(r) == [] && r.index == map[]
    ensures r.list.nodes == q.list.nodes
  {
    var list := LinkedList.Clear(q.list);
    r := Queue(map[], list, q.nextHandle);
    ChainIs(r, []);
  }
}
