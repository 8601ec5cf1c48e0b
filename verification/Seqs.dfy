/** Facts about finite sequences that every other module needs: queues of distinct
    elements, removal of one element, and the position of an element. */
module Seqs {

  ghost predicate Distinct<T>(q: seq<T>) {
    forall i, j :: 0 <= i < j < |q| ==> q[i] != q[j]
  }

  /** The position of the first occurrence of `x`. */
  function IndexOf<T(==)>(q: seq<T>, x: T): (i: nat)
    requires x in q
    ensures i < |q| && q[i] == x
  {
    if q[0] == x then 0 else 1 + IndexOf(q[1..], x)
  }

  /** `q` without its element at position `j`. */
  function RemoveAt<T>(q: seq<T>, j: nat): (r: seq<T>)
    requires j < |q|
    ensures |r| == |q| - 1
    ensures forall i :: 0 <= i < |r| ==> r[i] == q[if i < j then i else i + 1]
  {
    q[..j] + q[j + 1..]
  }

  /** `q` without the first occurrence of `x`. */
  function Without<T(==)>(q: seq<T>, x: T): (r: seq<T>)
  {
    if x in q then RemoveAt(q, IndexOf(q, x)) else q
  }

  lemma IndexUnique<T>(q: seq<T>, i: nat)
    requires Distinct(q) && i < |q|
    ensures IndexOf(q, q[i]) == i
  {
  }

  lemma WithoutMembers<T>(q: seq<T>, x: T)
    requires Distinct(q)
    ensures Distinct(Without(q, x))
    ensures forall y :: y in Without(q, x) <==> y in q && y != x
    ensures x in q ==> |Without(q, x)| == |q| - 1
  {
    if x in q {
      var k := IndexOf(q, x);
      var r := Without(q, x);
      forall y | y in q && y != x ensures y in r {
        var i :| 0 <= i < |q| && q[i] == y;
        if i < k { assert r[i] == y; } else { assert r[i - 1] == y; }
      }
    }
  }

  lemma AppendMembers<T>(q: seq<T>, x: T)
    requires Distinct(q) && x !in q
    ensures Distinct(q + [x])
    ensures forall y :: y in q + [x] <==> y in q || y == x
  {
  }

  /** In a queue of distinct members, removing the head is dropping the first cell. */
  lemma WithoutHead<T>(q: seq<T>)
    requires |q| > 0
    ensures Without(q, q[0]) == q[1..]
  {
  }

  /** At most `n` distinct numbers are below `n`. */
  lemma {:induction false} Pigeonhole(q: seq<nat>, n: nat)
    requires Distinct(q) && forall i :: 0 <= i < |q| ==> q[i] < n
    ensures |q| <= n
  {
    if q != [] {
      assert 0 <= q[0] < n;
      WithoutMembers(q, n - 1);
      var r := Without(q, n - 1);
      forall i | 0 <= i < |r| ensures r[i] < n - 1 {
        assert r[i] in r;
      }
      Pigeonhole(r, n - 1);
    }
  }

  lemma SplitAt<T>(left: seq<T>, right: seq<T>)
    requires right != []
    ensures left + right == left + [right[0]] + right[1..]
    ensures (left + right)[|left|..] == right && (left + right)[|left| + 1..] == right[1..]
  {
  }
}
