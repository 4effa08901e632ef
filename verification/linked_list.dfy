/** The node arena and the doubly linked list of `FastRemovalQueue`
    (the nested classes `Node` and `DoublyLinkedList`).

    A Java object reference becomes a `Handle` into the arena `nodes`; `null`
    becomes `None`. Every list method runs under the list's single lock, so
    each is modelled as one sequential step from the old list value to the
    new one. The chain a list holds is described by a sequence of handles,
    head first, tied to the pointers by `Links`; that sequence is never
    stored, only passed as a ghost argument. */
module LinkedList {
  import opened Collections

  /** Identity of a node object. */
  type Handle = nat

  /** A node: its element (never changed), its neighbour links and its
      tombstone flag. */
  datatype Node<E> = Node(value: E, prev: Option<Handle>, next: Option<Handle>, deleted: bool)

  /** The arena of every node ever created, plus the list's `head` (oldest)
      and `tail` (newest). Nodes that were unlinked stay in the arena. */
  datatype List<E> = List(nodes: map<Handle, Node<E>>, head: Option<Handle>, tail: Option<Handle>)

  function First(hs: seq<Handle>): Option<Handle> {
    if hs == [] then None else Some(hs[0])
  }

  function Last(hs: seq<Handle>): Option<Handle> {
    if hs == [] then None else Some(hs[|hs|-1])
  }

  /** The handle `prev` must hold for the node at position `i` of chain `hs`. */
  function PrevIn(hs: seq<Handle>, i: int): Option<Handle>
    requires 0 <= i < |hs|
  {
    if i == 0 then None else Some(hs[i-1])
  }

  /** The handle `next` must hold for the node at position `i` of chain `hs`. */
  function NextIn(hs: seq<Handle>, i: int): Option<Handle>
    requires 0 <= i < |hs|
  {
    if i == |hs| - 1 then None else Some(hs[i+1])
  }

  /** The node at position `i` of chain `hs` is in the arena, live, and
      linked to its neighbours in `hs` (`None` past either end). */
  ghost predicate FitsAt<E>(nodes: map<Handle, Node<E>>, hs: seq<Handle>, i: int)
    requires 0 <= i < |hs|
  {
    && hs[i] in nodes
    && nodes[hs[i]].prev == PrevIn(hs, i)
    && nodes[hs[i]].next == NextIn(hs, i)
    && !nodes[hs[i]].deleted
  }

  /** `hs` is exactly the chain of `l`: distinct handles, `head`/`tail` are
      its ends (both `None` when it is empty), and every node of it fits its
      position, so `head.prev` and `tail.next` are `None` and no linked node
      is tombstoned. The arena membership is also stated on its own, although
      `FitsAt` implies it, so that it can be used without naming `FitsAt`. */
  ghost predicate Links<E>(l: List<E>, hs: seq<Handle>) {
    && NoDup(hs)
    && l.head == First(hs)
    && l.tail == Last(hs)
    && (forall i :: 0 <= i < |hs| ==> hs[i] in l.nodes)
    && (forall i :: 0 <= i < |hs| ==> FitsAt(l.nodes, hs, i))
  }

  /** `r` has the same arena as `l` and every node keeps its element. */
  ghost predicate SameValues<E>(l: List<E>, r: List<E>) {
    && r.nodes.Keys == l.nodes.Keys
    && forall h :: h in l.nodes ==> r.nodes[h].value == l.nodes[h].value
  }

  /** Every node outside `except` keeps its tombstone flag. */
  ghost predicate SameTombstones<E>(l: List<E>, r: List<E>, except: set<Handle>)
    requires SameValues(l, r)
  {
    forall h :: h in l.nodes && h !in except ==> r.nodes[h].deleted == l.nodes[h].deleted
  }

  /** Keeping values and tombstones composes over two steps. */
  lemma SameTrans<E>(a: List<E>, b: List<E>, c: List<E>, x: set<Handle>, y: set<Handle>)
    requires SameValues(a, b) && SameTombstones(a, b, x)
    requires SameValues(b, c) && SameTombstones(b, c, y)
    ensures SameValues(a, c) && SameTombstones(a, c, x + y)
  {
  }

  /** A node keeps fitting when it moves from position `i` of `hs` to
      position `j` of `hs'` with the same record and the same neighbours. */
  lemma FitsMoved<E>(nodes: map<Handle, Node<E>>, hs: seq<Handle>, i: nat,
                     nodes': map<Handle, Node<E>>, hs': seq<Handle>, j: nat)
    requires i < |hs| && j < |hs'|
    requires FitsAt(nodes, hs, i)
    requires hs'[j] == hs[i]
    requires hs[i] in nodes' && nodes'[hs[i]] == nodes[hs[i]]
    requires PrevIn(hs', j) == PrevIn(hs, i) && NextIn(hs', j) == NextIn(hs, i)
    ensures FitsAt(nodes', hs', j)
  {
  }

  /** A chain's links survive changes to nodes outside the chain. */
  lemma LinksFrame<E>(l: List<E>, r: List<E>, hs: seq<Handle>)
    requires Links(l, hs)
    requires r.head == l.head && r.tail == l.tail
    requires forall h :: h in hs ==> h in r.nodes && r.nodes[h] == l.nodes[h]
    ensures Links(r, hs)
  {
    forall i | 0 <= i < |hs| ensures FitsAt(r.nodes, hs, i) {
      assert FitsAt(l.nodes, hs, i);
    }
  }

  /** Two chains of the same list agree on their first `k` handles: both
      start at `head` and follow the same `next` links. */
  lemma {:induction false} ChainsAgree<E>(l: List<E>, hs1: seq<Handle>, hs2: seq<Handle>, k: nat)
    requires Links(l, hs1) && Links(l, hs2)
    requires k <= |hs1| && k <= |hs2|
    ensures forall i :: 0 <= i < k ==> hs1[i] == hs2[i]
  {
    if k > 1 {
      ChainsAgree(l, hs1, hs2, k - 1);
      assert FitsAt(l.nodes, hs1, k - 2) && FitsAt(l.nodes, hs2, k - 2);
    }
  }

  /** The pointers determine the chain: a list has at most one. */
  lemma ChainUnique<E>(l: List<E>, hs1: seq<Handle>, hs2: seq<Handle>)
    requires Links(l, hs1) && Links(l, hs2)
    ensures hs1 == hs2
  {
    var m := if |hs1| < |hs2| then |hs1| else |hs2|;
    ChainsAgree(l, hs1, hs2, m);
    assert First(hs1) == First(hs2);
    if m > 0 {
      // The last common node ends both chains or neither.
      assert FitsAt(l.nodes, hs1, m - 1) && FitsAt(l.nodes, hs2, m - 1);
      assert NextIn(hs1, m - 1) == NextIn(hs2, m - 1);
    }
    assert |hs1| == |hs2|;
  }

  /** The node reached from `h` by following `next` `k` times, if the walk
      stays inside the arena. */
  function Forward<E>(l: List<E>, h: Handle, k: nat): Option<Handle>
    decreases k
  {
    if k == 0 then Some(h)
    else if h in l.nodes && l.nodes[h].next.Some? then Forward(l, l.nodes[h].next.value, k - 1)
    else None
  }

  /** The node reached from `h` by following `prev` `k` times. */
  function Backward<E>(l: List<E>, h: Handle, k: nat): Option<Handle>
    decreases k
  {
    if k == 0 then Some(h)
    else if h in l.nodes && l.nodes[h].prev.Some? then Backward(l, l.nodes[h].prev.value, k - 1)
    else None
  }

  /** Following `next` from a linked node walks down the chain. */
  lemma {:induction false} ForwardAlong<E>(l: List<E>, hs: seq<Handle>, i: nat, k: nat)
    requires Links(l, hs)
    requires i + k < |hs|
    ensures Forward(l, hs[i], k) == Some(hs[i+k])
    decreases k
  {
    if k > 0 {
      assert FitsAt(l.nodes, hs, i);
      ForwardAlong(l, hs, i + 1, k - 1);
      assert Forward(l, hs[i], k) == Forward(l, hs[i+1], k - 1);
    }
  }

  /** Following `prev` from a linked node walks up the chain. */
  lemma {:induction false} BackwardAlong<E>(l: List<E>, hs: seq<Handle>, i: nat, k: nat)
    requires Links(l, hs)
    requires k <= i < |hs|
    ensures Backward(l, hs[i], k) == Some(hs[i-k])
    decreases k
  {
    if k > 0 {
      assert FitsAt(l.nodes, hs, i);
      BackwardAlong(l, hs, i - 1, k - 1);
      assert Backward(l, hs[i], k) == Backward(l, hs[i-1], k - 1);
    }
  }

  /** On a linked node, `prev` is the inverse of `next`: the node after
      `a` has `a` before it, and the node before `a` has `a` after it. */
  lemma PrevInvertsNext<E>(l: List<E>, hs: seq<Handle>)
    requires Links(l, hs)
    ensures forall a, b :: a in hs && a in l.nodes && l.nodes[a].next == Some(b) ==>
              b in hs && l.nodes[b].prev == Some(a)
    ensures forall a, b :: a in hs && a in l.nodes && l.nodes[a].prev == Some(b) ==>
              b in hs && l.nodes[b].next == Some(a)
  {
    forall a, b | a in hs && a in l.nodes && l.nodes[a].next == Some(b)
      ensures b in hs && l.nodes[b].prev == Some(a)
    {
      var i :| 0 <= i < |hs| && hs[i] == a;
      assert FitsAt(l.nodes, hs, i);
      assert FitsAt(l.nodes, hs, i + 1);
    }
    forall a, b | a in hs && a in l.nodes && l.nodes[a].prev == Some(b)
      ensures b in hs && l.nodes[b].next == Some(a)
    {
      var i :| 0 <= i < |hs| && hs[i] == a;
      assert FitsAt(l.nodes, hs, i);
      assert FitsAt(l.nodes, hs, i - 1);
    }
  }

  /** Shape of a well-formed list: it is empty exactly when `head` and `tail`
      are both `None`; otherwise `head.prev` and `tail.next` are `None`,
      walking `next` from `head` reaches `tail` and walking `prev` from
      `tail` reaches `head`. */
  lemma WellFormed<E>(l: List<E>, hs: seq<Handle>)
    requires Links(l, hs)
    ensures hs == [] <==> l.head.None?
    ensures l.head.None? <==> l.tail.None?
    ensures l.head.Some? ==>
              && l.head.value in l.nodes && l.tail.value in l.nodes
              && l.nodes[l.head.value].prev.None?
              && l.nodes[l.tail.value].next.None?
              && Forward(l, l.head.value, |hs| - 1) == l.tail
              && Backward(l, l.tail.value, |hs| - 1) == l.head
  {
    if hs != [] {
      assert FitsAt(l.nodes, hs, 0) && FitsAt(l.nodes, hs, |hs| - 1);
      ForwardAlong(l, hs, 0, |hs| - 1);
      BackwardAlong(l, hs, |hs| - 1, |hs| - 1);
    }
  }

  /** No linked node carries the tombstone: a node is tombstoned only once
      it has been unlinked. */
  lemma LinkedLive<E>(l: List<E>, hs: seq<Handle>, h: Handle)
    requires Links(l, hs)
    requires h in hs
    ensures h in l.nodes && !l.nodes[h].deleted
  {
    var i :| 0 <= i < |hs| && hs[i] == h;
    assert FitsAt(l.nodes, hs, i);
  }

  /** `DoublyLinkedList.clear`: forget the chain. Nodes are not tombstoned
      and keep their links; they are simply no longer reachable. */
  method Clear<E>(l: List<E>) returns (r: List<E>)
    ensures Links(r, [])
    ensures r.nodes == l.nodes
  {
    r := List(l.nodes, None, None);
  }

  /** `DoublyLinkedList.add` / `addNode`: link a fresh node as the new tail.
      The caller hands over a live node of the arena whose links are both
      `None` and which is not linked yet. */
  method AddNode<E>(l: List<E>, newNode: Handle, ghost hs: seq<Handle>) returns (r: List<E>)
    requires Links(l, hs)
    requires newNode in l.nodes && newNode !in hs
    requires l.nodes[newNode].prev.None? && l.nodes[newNode].next.None?
    requires !l.nodes[newNode].deleted
    ensures Links(r, hs + [newNode])
    ensures r.tail == Some(newNode)
    ensures SameValues(l, r) && SameTombstones(l, r, {})
  {
    var nodes := l.nodes;
    var head := l.head;
    var currentTail := l.tail;
    var tail := Some(newNode);
    if currentTail.None? {
      head := Some(newNode);
    } else {
      var t := currentTail.value;
      nodes := nodes[newNode := nodes[newNode].(prev := currentTail)];
      nodes := nodes[t := nodes[t].(next := Some(newNode))];
    }
    r := List(nodes, head, tail);

    var hs' := hs + [newNode];
    assert NoDup(hs') by {
      forall i, j | 0 <= i < j < |hs'| ensures hs'[i] != hs'[j] {
        if j == |hs| { assert hs'[i] == hs[i]; }
      }
    }
    forall i | 0 <= i < |hs'| ensures FitsAt(r.nodes, hs', i) {
      if i < |hs| {
        assert FitsAt(l.nodes, hs, i);
        assert hs'[i] == hs[i] != newNode;
        assert PrevIn(hs', i) == PrevIn(hs, i);
        if i < |hs| - 1 {
          assert NextIn(hs', i) == NextIn(hs, i);
          FitsMoved(l.nodes, hs, i, r.nodes, hs', i);
        }
      }
    }
  }

  /** `l` with the `next` link of node `h` replaced; no other field of any
      node, and neither end of the list, changes. */
  function SetNext<E>(l: List<E>, h: Handle, next: Option<Handle>): (r: List<E>)
    requires h in l.nodes
    ensures SameValues(l, r) && SameTombstones(l, r, {})
    ensures r.head == l.head && r.tail == l.tail
    ensures r.nodes[h].prev == l.nodes[h].prev && r.nodes[h].next == next
    ensures forall g :: g in l.nodes && g != h ==> r.nodes[g] == l.nodes[g]
  {
    l.(nodes := l.nodes[h := l.nodes[h].(next := next)])
  }

  /** `l` with the `prev` link of node `h` replaced; no other field of any
      node, and neither end of the list, changes. */
  function SetPrev<E>(l: List<E>, h: Handle, prev: Option<Handle>): (r: List<E>)
    requires h in l.nodes
    ensures SameValues(l, r) && SameTombstones(l, r, {})
    ensures r.head == l.head && r.tail == l.tail
    ensures r.nodes[h].next == l.nodes[h].next && r.nodes[h].prev == prev
    ensures forall g :: g in l.nodes && g != h ==> r.nodes[g] == l.nodes[g]
  {
    l.(nodes := l.nodes[h := l.nodes[h].(prev := prev)])
  }

  /** The pointer surgery of `removeNode`: the node before an unlinked
      node now points forward to the node after it and vice versa, and a
      missing neighbour means the unlinked node was an end, so `head` (or
      `tail`) moves instead. No other node and no value or tombstone
      changes. */
  function Bypass<E>(l: List<E>, prev: Option<Handle>, next: Option<Handle>): (r: List<E>)
    requires prev.Some? ==> prev.value in l.nodes
    requires next.Some? ==> next.value in l.nodes
    ensures SameValues(l, r) && SameTombstones(l, r, {})
    ensures r.head == (if prev.None? then next else l.head)
    ensures r.tail == (if next.None? then prev else l.tail)
    ensures forall h :: h in l.nodes && Some(h) != prev && Some(h) != next ==> r.nodes[h] == l.nodes[h]
    ensures prev.Some? && prev != next ==> r.nodes[prev.value] == l.nodes[prev.value].(next := next)
    ensures next.Some? && prev != next ==> r.nodes[next.value] == l.nodes[next.value].(prev := prev)
  {
    var mid := if prev.Some? then SetNext(l, prev.value, next) else l.(head := next);
    SameTrans(l, mid, if next.Some? then SetPrev(mid, next.value, prev) else mid.(tail := prev), {}, {});
    if next.Some? then SetPrev(mid, next.value, prev) else mid.(tail := prev)
  }

  /** `DoublyLinkedList.removeNode`: unlink a linked node by rewiring its
      neighbours, moving `head`/`tail` when it is an end. The node itself is
      neither tombstoned nor touched: its own links are left as they were. */
  method RemoveNode<E>(l: List<E>, node: Handle, ghost hs: seq<Handle>) returns (r: List<E>)
    requires Links(l, hs)
    requires node in hs
    ensures Links(r, Without(hs, node))
    ensures node in r.nodes && r.nodes[node] == l.nodes[node]
    ensures l.head == Some(node) ==> r.head == l.nodes[node].next
    ensures l.tail == Some(node) ==> r.tail == l.nodes[node].prev
    ensures SameValues(l, r) && SameTombstones(l, r, {})
  {
    ghost var k :| 0 <= k < |hs| && hs[k] == node;
    assert FitsAt(l.nodes, hs, k);
    var prevNode := l.nodes[node].prev;
    var nextNode := l.nodes[node].next;
    r := Bypass(l, prevNode, nextNode);
    BypassCuts(l, hs, k);
    WithoutAt(hs, k);
  }

  /** Bypassing the node at position `k` of the chain cuts that position
      out of the chain and leaves the node's own record alone. */
  lemma BypassCuts<E>(l: List<E>, hs: seq<Handle>, k: nat)
    requires Links(l, hs)
    requires k < |hs|
    ensures PrevIn(hs, k).Some? ==> PrevIn(hs, k).value in l.nodes
    ensures NextIn(hs, k).Some? ==> NextIn(hs, k).value in l.nodes
    ensures Links(Bypass(l, PrevIn(hs, k), NextIn(hs, k)), hs[..k] + hs[k+1..])
    ensures hs[k] in l.nodes && Bypass(l, PrevIn(hs, k), NextIn(hs, k)).nodes[hs[k]] == l.nodes[hs[k]]
  {
    var prevNode, nextNode := PrevIn(hs, k), NextIn(hs, k);
    assert FitsAt(l.nodes, hs, k);
    assert prevNode.Some? && nextNode.Some? ==> prevNode.value != nextNode.value;
    assert prevNode != Some(hs[k]) && nextNode != Some(hs[k]);
    var r := Bypass(l, prevNode, nextNode);
    assert k > 0 ==> r.nodes[hs[k-1]] == l.nodes[hs[k-1]].(next := nextNode);
    assert k < |hs| - 1 ==> r.nodes[hs[k+1]] == l.nodes[hs[k+1]].(prev := prevNode);
    CutLinks(l, hs, k, r);
  }

  /** The proof obligation of `RemoveNode`, stated over the position `k` of
      the unlinked node: when only its neighbours' links and the ends have
      been rewired around it, the list holds the chain with `k` cut out. */
  lemma CutLinks<E>(l: List<E>, hs: seq<Handle>, k: nat, r: List<E>)
    requires Links(l, hs)
    requires k < |hs|
    requires r.head == (if k == 0 then NextIn(hs, k) else l.head)
    requires r.tail == (if k == |hs| - 1 then PrevIn(hs, k) else l.tail)
    requires r.nodes.Keys == l.nodes.Keys
    requires forall h :: h in l.nodes && Some(h) != PrevIn(hs, k) && Some(h) != NextIn(hs, k) ==>
               r.nodes[h] == l.nodes[h]
    requires k > 0 ==> r.nodes[hs[k-1]] == l.nodes[hs[k-1]].(next := NextIn(hs, k))
    requires k < |hs| - 1 ==> r.nodes[hs[k+1]] == l.nodes[hs[k+1]].(prev := PrevIn(hs, k))
    ensures Links(r, hs[..k] + hs[k+1..])
  {
    var hs' := hs[..k] + hs[k+1..];
    assert forall j :: 0 <= j < k ==> hs'[j] == hs[j];
    assert forall j :: k <= j < |hs'| ==> hs'[j] == hs[j+1];
    assert NoDup(hs') by {
      forall i, j | 0 <= i < j < |hs'| ensures hs'[i] != hs'[j] {
        var i0 := if i < k then i else i + 1;
        var j0 := if j < k then j else j + 1;
        assert hs'[i] == hs[i0] && hs'[j] == hs[j0];
      }
    }
    forall i | 0 <= i < |hs'| ensures FitsAt(r.nodes, hs', i) {
      var i0 := if i < k then i else i + 1;
      assert hs'[i] == hs[i0];
      assert FitsAt(l.nodes, hs, i0);
      if i0 == k - 1 {
        assert NextIn(hs', i) == NextIn(hs, k) by {
          if k < |hs| - 1 { assert hs'[k] == hs[k+1]; }
        }
        assert PrevIn(hs', i) == PrevIn(hs, i0) by {
          if i > 0 { assert hs'[i-1] == hs[i-1]; }
        }
      } else if i0 == k + 1 {
        assert PrevIn(hs', i) == PrevIn(hs, k) by {
          if k > 0 { assert hs'[k-1] == hs[k-1]; }
        }
        assert NextIn(hs', i) == NextIn(hs, i0) by {
          if i0 < |hs| - 1 { assert hs'[i+1] == hs[i0+1]; }
        }
      } else {
        assert hs[i0] != hs[k];
        assert Some(hs[i0]) != PrevIn(hs, k) && Some(hs[i0]) != NextIn(hs, k);
        assert PrevIn(hs', i) == PrevIn(hs, i0) by {
          if i > 0 {
            var p := if i - 1 < k then i - 1 else i;
            assert hs'[i-1] == hs[p];
          }
        }
        assert NextIn(hs', i) == NextIn(hs, i0) by {
          if i < |hs'| - 1 {
            var n := if i + 1 < k then i + 1 else i + 2;
            assert hs'[i+1] == hs[n];
          }
        }
        FitsMoved(l.nodes, hs, i0, r.nodes, hs', i);
      }
    }
    assert r.head == First(hs') by {
      if k == 0 && |hs| > 1 { assert hs'[0] == hs[1]; }
    }
    assert r.tail == Last(hs') by {
      if k == |hs| - 1 && k > 0 { assert hs'[|hs'|-1] == hs[k-1]; }
    }
  }

  /** `DoublyLinkedList.remove`: a tombstoned node is refused ("not
      removed", list unchanged); a live one is unlinked and tombstoned. The
      caller passes a node that is tombstoned or linked. */
  method Remove<E>(l: List<E>, node: Handle, ghost hs: seq<Handle>) returns (r: List<E>, removed: bool)
    requires Links(l, hs)
    requires node in l.nodes
    requires !l.nodes[node].deleted ==> node in hs
    ensures SameValues(l, r) && SameTombstones(l, r, {node})
    ensures removed <==> !l.nodes[node].deleted
    ensures !removed ==> r == l
    ensures removed ==> Links(r, Without(hs, node))
    ensures removed ==> r.nodes[node].deleted
  {
    if l.nodes[node].deleted {
      return l, false;
    }
    var unlinked := RemoveNode(l, node, hs);
    r := unlinked.(nodes := unlinked.nodes[node := unlinked.nodes[node].(deleted := true)]);
    removed := true;
    assert node !in Without(hs, node);
    LinksFrame(unlinked, r, Without(hs, node));
  }

  /** `DoublyLinkedList.moveToTail`: unlink a live, linked node, clear its
      links and append it again. The same node is kept: it is never
      tombstoned and keeps its element. */
  method MoveToTail<E>(l: List<E>, node: Handle, ghost hs: seq<Handle>) returns (r: List<E>)
    requires Links(l, hs)
    requires node in hs
    ensures Links(r, Without(hs, node) + [node])
    ensures r.tail == Some(node) && !r.nodes[node].deleted
    ensures SameValues(l, r) && SameTombstones(l, r, {})
  {
    ghost var k :| 0 <= k < |hs| && hs[k] == node;
    assert FitsAt(l.nodes, hs, k);
    var unlinked := RemoveNode(l, node, hs);
    ghost var rest := Without(hs, node);
    var cleared := SetPrev(SetNext(unlinked, node, None), node, None);
    LinksFrame(unlinked, cleared, rest);
    r := AddNode(cleared, node, rest);
    SameTrans(l, unlinked, cleared, {}, {});
    SameTrans(l, cleared, r, {}, {});
  }

  /** `DoublyLinkedList.removeFirst`: unlink the head and return it
      tombstoned, or return `None` on an empty list, changing nothing. */
  method RemoveFirst<E>(l: List<E>, ghost hs: seq<Handle>) returns (r: List<E>, first: Option<Handle>)
    requires Links(l, hs)
    ensures SameValues(l, r)
    ensures hs == [] ==> first == None && r == l
    ensures hs != [] ==> first == Some(hs[0]) && Links(r, hs[1..]) && r.nodes[hs[0]].deleted
    ensures SameTombstones(l, r, if hs == [] then {} else {hs[0]})
  {
    var nodes := l.nodes;
    var head := l.head;
    var tail := l.tail;
    var currentHead := head;
    if head == tail {
      head := None;
      tail := None;
      assert hs != [] ==> hs[0] == hs[|hs|-1];
      assert |hs| <= 1;
    } else {
      assert FitsAt(l.nodes, hs, 0);
      head := nodes[head.value].next;
      nodes := nodes[head.value := nodes[head.value].(prev := None)];
    }
    if currentHead.Some? {
      nodes := nodes[currentHead.value := nodes[currentHead.value].(deleted := true)];
    }
    r := List(nodes, head, tail);
    first := currentHead;

    if |hs| > 1 {
      var hs' := hs[1..];
      forall i | 0 <= i < |hs'| ensures FitsAt(r.nodes, hs', i) {
        assert hs'[i] == hs[i+1] != hs[0];
        assert FitsAt(l.nodes, hs, i + 1);
        if i > 0 {
          assert PrevIn(hs', i) == PrevIn(hs, i + 1);
        }
        if i < |hs'| - 1 {
          assert NextIn(hs', i) == NextIn(hs, i + 1);
        }
      }
      assert NoDup(hs') by {
        forall i, j | 0 <= i < j < |hs'| ensures hs'[i] != hs'[j] {
          assert hs'[i] == hs[i+1] && hs'[j] == hs[j+1];
        }
      }
    }
  }
}
