module Sequences {
  predicate NoDuplicates<T(==)>(q: seq<T>) {
    forall i, j :: 0 <= i < j < |q| ==> q[i] != q[j]
  }

  /** q without the first x: QUEUE_REMOVE of an entry, from whichever place it is at. */
  function Without<T(==)>(q: seq<T>, x: T): seq<T> {
    if q == [] then [] else if q[0] == x then q[1..] else [q[0]] + Without(q[1..], x)
  }

  lemma Appended<T>(q: seq<T>, x: T)
    requires NoDuplicates(q) && x !in q
    ensures NoDuplicates(q + [x])
  {
  }

  lemma {:induction false} WithoutIs<T>(q: seq<T>, x: T)
    requires NoDuplicates(q)
    ensures NoDuplicates(Without(q, x))
    ensures forall y :: y in Without(q, x) <==> y in q && y != x
  {
    if q != [] {
      assert q == [q[0]] + q[1..];
      if q[0] != x {
        WithoutIs(q[1..], x);
        var tail := Without(q[1..], x);
        assert q[0] !in tail;
        forall i, j | 0 <= i < j <= |tail| ensures ([q[0]] + tail)[i] != ([q[0]] + tail)[j] {
          assert tail[j - 1] in tail;
        }
      }
    }
  }

  lemma Parts<T>(a: seq<T>, b: seq<T>)
    requires NoDuplicates(a + b)
    ensures NoDuplicates(a) && NoDuplicates(b) && forall x | x in a :: x !in b
  {
    assert forall i :: 0 <= i < |a| ==> (a + b)[i] == a[i];
    assert forall i :: 0 <= i < |b| ==> (a + b)[|a| + i] == b[i];
  }

  lemma Joined<T>(a: seq<T>, b: seq<T>)
    requires NoDuplicates(a) && NoDuplicates(b) && forall x | x in a :: x !in b
    ensures NoDuplicates(a + b)
  {
    forall i, j | 0 <= i < j < |a + b| ensures (a + b)[i] != (a + b)[j] {
      if i < |a| <= j {
        assert (a + b)[i] in a && (a + b)[j] == b[j - |a|];
      }
    }
  }

  lemma {:induction false} NotThere<T>(q: seq<T>, x: T)
    requires x !in q
    ensures Without(q, x) == q
  {
    if q != [] {
      NotThere(q[1..], x);
    }
  }
}
