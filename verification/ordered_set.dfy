/** The abstract behaviour of the queue: a sequence of distinct elements,
    oldest first. Each function is the reference definition that the linked
    implementation in module FastRemovalQueue is proved to refine. */
module OrderedSet {
  import opened Collections

  /** Append `e` unless it is already present; a present element keeps its
      place (adding is not a "touch"). */
  function Add<E(==)>(s: seq<E>, e: E): seq<E> {
    if e in s then s else s + [e]
  }

  /** Take `e` out of its place and put it last; nothing happens when it is
      absent. */
  function MoveToTail<E(==)>(s: seq<E>, e: E): seq<E> {
    if e in s then Without(s, e) + [e] else s
  }

  /** Drop `e`, keeping the order of the rest. */
  function Remove<E(==)>(s: seq<E>, e: E): seq<E> {
    Without(s, e)
  }

  /** Pop the oldest element, if any. */
  function Poll<E>(s: seq<E>): (seq<E>, Option<E>) {
    if s == [] then (s, None) else (s[1..], Some(s[0]))
  }

  /** The sequence obtained by adding `es` one after the other to `s`. */
  function AddAll<E(==)>(s: seq<E>, es: seq<E>): seq<E>
    decreases |es|
  {
    if es == [] then s else Add(AddAll(s, es[..|es|-1]), es[|es|-1])
  }

  /** Appending a new element keeps a sequence free of duplicates. */
  lemma AppendNoDup<E>(s: seq<E>, e: E)
    requires NoDup(s) && e !in s
    ensures NoDup(s + [e])
  {
    forall i, j | 0 <= i < j < |s + [e]| ensures (s + [e])[i] != (s + [e])[j] {
      if j == |s| {
        assert (s + [e])[i] == s[i];
      }
    }
  }

  /** `Add` keeps the sequence free of duplicates and leaves `e` present. */
  lemma AddKeepsNoDup<E>(s: seq<E>, e: E)
    requires NoDup(s)
    ensures NoDup(Add(s, e)) && e in Add(s, e)
  {
    if e !in s {
      AppendNoDup(s, e);
    }
  }

  /** `MoveToTail` keeps the sequence free of duplicates. */
  lemma MoveToTailKeepsNoDup<E>(s: seq<E>, e: E)
    requires NoDup(s)
    ensures NoDup(MoveToTail(s, e))
  {
    WithoutNoDup(s, e);
    AppendNoDup(Without(s, e), e);
  }

  /** `Remove` keeps the sequence free of duplicates and leaves `e`
      absent. */
  lemma RemoveKeepsNoDup<E>(s: seq<E>, e: E)
    requires NoDup(s)
    ensures NoDup(Remove(s, e)) && e !in Remove(s, e)
  {
    WithoutNoDup(s, e);
  }

  /** `Poll` keeps the sequence free of duplicates. */
  lemma PollKeepsNoDup<E>(s: seq<E>)
    requires NoDup(s)
    ensures NoDup(Poll(s).0)
  {
    if s != [] {
      forall i, j | 0 <= i < j < |s[1..]| ensures s[1..][i] != s[1..][j] {
        assert s[1..][i] == s[i+1] && s[1..][j] == s[j+1];
      }
    }
  }

  /** Adding distinct elements one by one to an empty sequence yields them in
      the order they were added: the first-in, first-out order `Poll`
      drains. */
  lemma {:induction false} AddAllDistinct<E>(es: seq<E>)
    requires NoDup(es)
    ensures AddAll([], es) == es
  {
    if es != [] {
      var init, last := es[..|es|-1], es[|es|-1];
      assert NoDup(init) by {
        forall i, j | 0 <= i < j < |init| ensures init[i] != init[j] {
          assert init[i] == es[i] && init[j] == es[j];
        }
      }
      AddAllDistinct(init);
      assert last !in init by {
        forall i | 0 <= i < |init| ensures init[i] != last {
          assert init[i] == es[i];
        }
      }
      assert init + [last] == es;
    }
  }

  /** Adding the same elements again, in any order, changes nothing. */
  lemma {:induction false} AddAllPresent<E>(s: seq<E>, es: seq<E>)
    requires forall i :: 0 <= i < |es| ==> es[i] in s
    ensures AddAll(s, es) == s
  {
    if es != [] {
      var init := es[..|es|-1];
      assert forall i :: 0 <= i < |init| ==> init[i] == es[i];
      AddAllPresent(s, init);
    }
  }
}
