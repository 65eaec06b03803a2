/** The kernel's `queue_t`, as the sequence of the data pointers its nodes hold, head first. */
module Queue {

  predicate NoDup<T(==)>(q: seq<T>) {
    forall i, j :: 0 <= i < j < |q| ==> q[i] != q[j]
  }

  /** `queue_remove`: unlink the first node that holds `x`. */
  function Remove<T(==)>(q: seq<T>, x: T): (r: seq<T>)
    ensures forall y :: y in r ==> y in q
    ensures forall y :: y in q && y != x ==> y in r
    ensures x !in q ==> r == q
    ensures |r| == if x in q then |q| - 1 else |q|
  {
    if q == [] then []
    else if q[0] == x then q[1..]
    else [q[0]] + Remove(q[1..], x)
  }

  lemma {:induction false} RemoveKeepsNoDup<T>(q: seq<T>, x: T)
    requires NoDup(q)
    ensures NoDup(Remove(q, x)) && x !in Remove(q, x)
  {
    if q != [] && q[0] != x {
      assert NoDup(q[1..]);
      RemoveKeepsNoDup(q[1..], x);
      assert q[0] !in q[1..];
    }
  }

  lemma AppendKeepsNoDup<T>(q: seq<T>, x: T)
    requires NoDup(q) && x !in q
    ensures NoDup(q + [x])
  {}
}
