/** Real-valued embedding vectors and the elementwise arithmetic the matching
    engine performs on them (the numpy operations `zeros`, `+=` and `/=`). */
module Vectors {

  type Vector = seq<real>

  /** The all-zero vector of length `n` (`np.zeros(n)`). */
  function Zeros(n: nat): (v: Vector)
    ensures |v| == n
    ensures IsZero(v)
  {
    seq(n, _ => 0.0)
  }

  predicate IsZero(v: Vector) {
    forall i :: 0 <= i < |v| ==> v[i] == 0.0
  }

  /** Elementwise sum of two vectors of the same length (`u += v`). */
  function Add(u: Vector, v: Vector): (w: Vector)
    requires |u| == |v|
    ensures |w| == |u|
    ensures forall i :: 0 <= i < |w| ==> w[i] == u[i] + v[i]
  {
    seq(|u|, i requires 0 <= i < |u| => u[i] + v[i])
  }

  /** Elementwise division by a non-zero scalar (`u /= d`). */
  function Divide(u: Vector, d: real): (w: Vector)
    requires d != 0.0
    ensures |w| == |u|
    ensures forall i :: 0 <= i < |w| ==> w[i] == u[i] / d
  {
    seq(|u|, i requires 0 <= i < |u| => u[i] / d)
  }

  predicate AllOfLength(vs: seq<Vector>, n: nat) {
    forall k :: 0 <= k < |vs| ==> |vs[k]| == n
  }

  /** The elementwise sum of a list of vectors, accumulated left to right
      from the zero vector. */
  function Sum(vs: seq<Vector>, n: nat): (s: Vector)
    requires AllOfLength(vs, n)
    ensures |s| == n
    decreases |vs|
  {
    if vs == [] then Zeros(n) else Add(Sum(vs[..|vs| - 1], n), vs[|vs| - 1])
  }

  lemma AddZerosRight(u: Vector)
    ensures Add(u, Zeros(|u|)) == u
  {
  }

  lemma AddCommutes(u: Vector, v: Vector)
    requires |u| == |v|
    ensures Add(u, v) == Add(v, u)
  {
  }

  lemma AddAssociates(u: Vector, v: Vector, w: Vector)
    requires |u| == |v| == |w|
    ensures Add(Add(u, v), w) == Add(u, Add(v, w))
  {
  }

  /** Summing a concatenation is adding the sums of the parts. */
  lemma {:induction false} SumAppend(a: seq<Vector>, b: seq<Vector>, n: nat)
    requires AllOfLength(a, n) && AllOfLength(b, n)
    ensures AllOfLength(a + b, n)
    ensures Sum(a + b, n) == Add(Sum(a, n), Sum(b, n))
    decreases |b|
  {
    if b == [] {
      assert a + b == a;
      AddZerosRight(Sum(a, n));
    } else {
      var b' := b[..|b| - 1];
      var x := b[|b| - 1];
      assert (a + b)[..|a + b| - 1] == a + b';
      SumAppend(a, b', n);
      AddAssociates(Sum(a, n), Sum(b', n), x);
    }
  }

  lemma SumSingleton(x: Vector)
    ensures Sum([x], |x|) == x
  {
    assert [x][..0] == [];
  }

  /** Taking one summand out of the middle of the list and adding it last
      gives the same sum. */
  lemma SumRemoveAt(b: seq<Vector>, j: nat, n: nat)
    requires AllOfLength(b, n) && j < |b|
    ensures AllOfLength(b[..j] + b[j + 1..], n)
    ensures Sum(b, n) == Add(Sum(b[..j] + b[j + 1..], n), b[j])
  {
    var left, x, right := b[..j], b[j], b[j + 1..];
    assert b == left + [x] + right;
    SumAppend(left + [x], right, n);
    SumAppend(left, [x], n);
    SumAppend(left, right, n);
    SumSingleton(x);
    AddAssociates(Sum(left, n), x, Sum(right, n));
    AddCommutes(x, Sum(right, n));
    AddAssociates(Sum(left, n), Sum(right, n), x);
  }

  /** Removing equal elements from two lists with equal multisets leaves
      lists with equal multisets. */
  lemma MultisetRemoveAt<T>(a: seq<T>, b: seq<T>, j: nat)
    requires a != [] && j < |b| && b[j] == a[|a| - 1]
    requires multiset(a) == multiset(b)
    ensures multiset(a[..|a| - 1]) == multiset(b[..j] + b[j + 1..])
  {
    var x := a[|a| - 1];
    assert a == a[..|a| - 1] + [x];
    assert b == b[..j] + [x] + b[j + 1..];
    var rest := b[..j] + b[j + 1..];
    assert multiset(b) == multiset(b[..j]) + multiset{x} + multiset(b[j + 1..]);
    assert multiset(rest) == multiset(b[..j]) + multiset(b[j + 1..]);
    assert multiset(a) == multiset(a[..|a| - 1]) + multiset{x};
    var m1, m2 := multiset(a[..|a| - 1]), multiset(rest);
    assert m1 + multiset{x} == m2 + multiset{x};
    forall y ensures m1[y] == m2[y] {
      assert (m1 + multiset{x})[y] == (m2 + multiset{x})[y];
    }
  }

  /** The sum does not depend on the order of the summands. */
  lemma {:induction false} SumPermutation(a: seq<Vector>, b: seq<Vector>, n: nat)
    requires AllOfLength(a, n) && AllOfLength(b, n)
    requires multiset(a) == multiset(b)
    ensures Sum(a, n) == Sum(b, n)
    decreases |a|
  {
    if a == [] {
      assert |b| == |multiset(b)| == 0;
    } else {
      var x := a[|a| - 1];
      assert x in multiset(b);
      var j :| 0 <= j < |b| && b[j] == x;
      MultisetRemoveAt(a, b, j);
      SumPermutation(a[..|a| - 1], b[..j] + b[j + 1..], n);
      SumRemoveAt(b, j, n);
    }
  }
}
