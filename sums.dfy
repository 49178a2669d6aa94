/** Finite sums of reals used to state the accumulate operations and their adjoints. */
module Sums {

  /** f(0) + f(1) + ... + f(n - 1). */
  function Sum(n: nat, f: nat -> real): real
  {
    if n == 0 then 0.0 else Sum(n - 1, f) + f(n - 1)
  }

  /** The inner product u[0] * v[0] + ... of two vectors of equal length. */
  function Dot(u: seq<real>, v: seq<real>): real
    requires |u| == |v|
  {
    if |u| == 0 then 0.0 else Dot(u[..|u| - 1], v[..|v| - 1]) + u[|u| - 1] * v[|v| - 1]
  }

  /** The magnitude of v. */
  function Abs(v: real): real
  {
    if v < 0.0 then -v else v
  }

  /** Element i of s, and 0 outside s. */
  function At(s: seq<real>, i: int): real
  {
    if 0 <= i < |s| then s[i] else 0.0
  }

  lemma {:induction false} SumExt(n: nat, f: nat -> real, g: nat -> real)
    requires forall i: nat :: i < n ==> f(i) == g(i)
    ensures Sum(n, f) == Sum(n, g)
  {
    if n > 0 {
      SumExt(n - 1, f, g);
    }
  }

  lemma {:induction false} SumZero(n: nat, f: nat -> real)
    requires forall i: nat :: i < n ==> f(i) == 0.0
    ensures Sum(n, f) == 0.0
  {
    if n > 0 {
      SumZero(n - 1, f);
    }
  }

  /** Sums are additive: a pointwise sum of terms sums to the sum of the two sums. */
  lemma {:induction false} SumAdd(n: nat, f: nat -> real, g: nat -> real, h: nat -> real)
    requires forall i: nat :: i < n ==> h(i) == f(i) + g(i)
    ensures Sum(n, h) == Sum(n, f) + Sum(n, g)
  {
    if n > 0 {
      SumAdd(n - 1, f, g, h);
    }
  }

  /** A sum whose only possibly non-zero term sits at index k picks out that term. */
  lemma {:induction false} SumPick(n: nat, k: int, g: nat -> real, f: nat -> real)
    requires forall j: nat :: j < n ==> f(j) == (if j == k then g(j) else 0.0)
    ensures Sum(n, f) == (if 0 <= k < n then g(k) else 0.0)
  {
    if n > 0 {
      SumPick(n - 1, k, g, f);
    }
  }

  lemma {:induction false} DotComm(u: seq<real>, v: seq<real>)
    requires |u| == |v|
    ensures Dot(u, v) == Dot(v, u)
  {
    if |u| > 0 {
      DotComm(u[..|u| - 1], v[..|v| - 1]);
    }
  }

  /** The inner product written as a sum over the indices. */
  lemma {:induction false} DotAsSum(u: seq<real>, v: seq<real>, f: nat -> real)
    requires |u| == |v|
    requires forall i: nat :: i < |u| ==> f(i) == u[i] * v[i]
    ensures Dot(u, v) == Sum(|u|, f)
  {
    if |u| > 0 {
      var n := |u| - 1;
      assert forall i: nat :: i < n ==> f(i) == u[..n][i] * v[..n][i];
      DotAsSum(u[..n], v[..n], f);
    }
  }

  lemma Distributes(c: real, x: real, y: real)
    ensures c * (x + y) == c * x + c * y
  {
  }

  /** A common factor of every term comes out of the sum. */
  lemma {:induction false} SumScale(n: nat, c: real, f: nat -> real, h: nat -> real)
    requires forall i: nat :: i < n ==> h(i) == c * f(i)
    ensures Sum(n, h) == c * Sum(n, f)
  {
    if n > 0 {
      SumScale(n - 1, c, f, h);
      Distributes(c, Sum(n - 1, f), f(n - 1));
    }
  }

  lemma {:induction false} SumNonNegative(n: nat, f: nat -> real)
    requires forall i: nat :: i < n ==> 0.0 <= f(i)
    ensures 0.0 <= Sum(n, f)
  {
    if n > 0 {
      SumNonNegative(n - 1, f);
    }
  }

  /** Row i of a doubly indexed term, j |-> g(i, j). */
  function Row(g: (nat, nat) -> real, i: nat): nat -> real
  {
    (j: nat) => g(i, j)
  }

  /** Column j of a doubly indexed term, i |-> g(i, j). */
  function Col(g: (nat, nat) -> real, j: nat): nat -> real
  {
    (i: nat) => g(i, j)
  }

  /** The sums over j < m of each row, as a function of i. */
  function Inner(m: nat, g: (nat, nat) -> real): nat -> real
  {
    (i: nat) => Sum(m, Row(g, i))
  }

  /** The sums over i < n of each column, as a function of j. */
  function Outer(n: nat, g: (nat, nat) -> real): nat -> real
  {
    (j: nat) => Sum(n, Col(g, j))
  }

  /** A double sum can be taken in either order. */
  lemma {:induction false} SumSwap(n: nat, m: nat, g: (nat, nat) -> real)
    ensures Sum(n, Inner(m, g)) == Sum(m, Outer(n, g))
  {
    if n > 0 {
      SumSwap(n - 1, m, g);
      forall j: nat | j < m
        ensures Outer(n, g)(j) == Outer(n - 1, g)(j) + Row(g, n - 1)(j)
      {
        assert Sum(n, Col(g, j)) == Sum(n - 1, Col(g, j)) + g(n - 1, j);
      }
      SumAdd(m, Outer(n - 1, g), Row(g, n - 1), Outer(n, g));
      assert Sum(n, Inner(m, g)) == Sum(n - 1, Inner(m, g)) + Sum(m, Row(g, n - 1));
    } else {
      SumZero(m, Outer(0, g));
    }
  }

  /** r0 with y[0..i) added at positions [b, b + i). */
  ghost function AddedPrefix(r0: seq<real>, b: nat, y: seq<real>, i: nat): (r: seq<real>)
    requires i <= |y| && b + i <= |r0|
    ensures |r| == |r0|
  {
    seq(|r0|, k requires 0 <= k < |r0| => if b <= k < b + i then r0[k] + y[k - b] else r0[k])
  }

  lemma AddedStep(r0: seq<real>, b: nat, y: seq<real>, i: nat, cur: seq<real>)
    requires i < |y| && b + i < |r0| && cur == AddedPrefix(r0, b, y, i)
    ensures cur[b + i := cur[b + i] + y[i]] == AddedPrefix(r0, b, y, i + 1)
  {
  }
}
