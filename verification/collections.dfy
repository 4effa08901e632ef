/** Small sequence vocabulary shared by the abstract ordered set and the
    linked-list model: an optional value, duplicate-freedom and deletion of
    one value from a sequence. */
module Collections {

  /** A value that may be absent; stands in for a Java `null` reference. */
  datatype Option<+T> = None | Some(value: T)

  /** No value occurs twice in `s`. */
  ghost predicate NoDup<T>(s: seq<T>) {
    forall i, j :: 0 <= i < j < |s| ==> s[i] != s[j]
  }

  /** `s` with every occurrence of `x` dropped, the other values keeping
      their relative order. */
  function Without<T(==)>(s: seq<T>, x: T): (r: seq<T>)
    ensures x !in r
    ensures forall i :: 0 <= i < |r| ==> r[i] in s
    ensures x !in s ==> r == s
    ensures x in s ==> |r| < |s|
  {
    if s == [] then []
    else if s[0] == x then Without(s[1..], x)
    else
      assert s == [s[0]] + s[1..];
      [s[0]] + Without(s[1..], x)
  }

  /** Deleting `x` keeps every other value. */
  lemma {:induction false} WithoutKeeps<T>(s: seq<T>, x: T, y: T)
    requires y in s && y != x
    ensures y in Without(s, x)
  {
    if s[0] != y {
      assert y in s[1..] by {
        var j :| 0 <= j < |s| && s[j] == y;
        assert s[1..][j-1] == y;
      }
      WithoutKeeps(s[1..], x, y);
      if s[0] != x {
        assert Without(s, x) == [s[0]] + Without(s[1..], x);
      }
    }
  }

  /** Dropping the first value keeps a sequence duplicate-free. */
  lemma NoDupTail<T>(s: seq<T>)
    requires NoDup(s) && s != []
    ensures NoDup(s[1..])
  {
    forall a, b | 0 <= a < b < |s[1..]| ensures s[1..][a] != s[1..][b] {
      assert s[1..][a] == s[a+1] && s[1..][b] == s[b+1];
    }
  }

  /** Cutting position `i > 0` out of `s` is cutting position `i - 1` out
      of its tail, behind the first value. */
  lemma CutTail<T>(s: seq<T>, i: nat)
    requires 0 < i < |s|
    ensures s[..i] + s[i+1..] == [s[0]] + (s[1..][..i-1] + s[1..][i..])
  {
    var t := s[1..];
    assert s[..i] == [s[0]] + t[..i-1];
    assert s[i+1..] == t[i..];
  }

  /** In a duplicate-free sequence, deleting the first value drops it. */
  lemma WithoutFirst<T>(s: seq<T>)
    requires NoDup(s) && s != []
    ensures Without(s, s[0]) == s[1..]
  {
    assert s[0] !in s[1..] by {
      forall j | 0 <= j < |s[1..]| ensures s[1..][j] != s[0] {
        assert s[1..][j] == s[j+1];
      }
    }
  }

  /** In a duplicate-free sequence, deleting the value at position `i` is
      cutting that position out. */
  lemma {:induction false} WithoutAt<T>(s: seq<T>, i: nat)
    requires NoDup(s)
    requires i < |s|
    ensures Without(s, s[i]) == s[..i] + s[i+1..]
  {
    var t := s[1..];
    if i == 0 {
      WithoutFirst(s);
    } else {
      NoDupTail(s);
      assert s[0] != s[i];
      assert t[i-1] == s[i];
      WithoutAt(t, i - 1);
      assert Without(s, s[i]) == [s[0]] + Without(t, s[i]);
      CutTail(s, i);
    }
  }

  /** Deleting a value keeps a sequence duplicate-free. */
  lemma {:induction false} WithoutNoDup<T>(s: seq<T>, x: T)
    requires NoDup(s)
    ensures NoDup(Without(s, x))
  {
    if s != [] {
      var t := s[1..];
      assert NoDup(t);
      WithoutNoDup(t, x);
      if s[0] != x {
        var w := Without(t, x);
        assert s[0] !in t;
        assert s[0] !in w;
        forall i, j | 0 <= i < j < |[s[0]] + w|
          ensures ([s[0]] + w)[i] != ([s[0]] + w)[j]
        {
          if i == 0 {
            assert ([s[0]] + w)[j] == w[j-1];
          }
        }
      }
    }
  }
}
