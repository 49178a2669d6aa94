/**
 * Compressed matrices as values: the conversion to the other orientation, the
 * matrix-vector product that the accumulate operations add in, and the facts that tie
 * them together (the conversion keeps every entry, applying it twice gives the input
 * back, and the product with the converted arrays is the adjoint of the product with
 * the original ones).
 */
module SparseMatrix {
  import opened Sums
  import opened Compressed

  /** Pointer, index and value arrays of a compressed matrix. */
  datatype Matrix = Matrix(ptr: seq<int>, ind: seq<int>, val: seq<real>)

  /** An n x m matrix compressed along its n-dimension: n + 1 pointers from 0 to nz, never
      decreasing, nz indices below m and nz values. */
  predicate ValidMatrix(n: nat, m: nat, A: Matrix)
  {
    WellFormed(n, m, |A.ind|, A.ptr, A.ind) && |A.val| == |A.ind|
  }

  function EntriesOf(A: Matrix): (E: seq<Entry>)
    requires |A.ptr| > 0 && |A.val| == |A.ind|
    ensures |E| == |A.ind|
  {
    Entries(A.ptr, A.ind, A.val)
  }

  /** Entries sorted stably on their index and compressed along it. */
  function CompressOnMinor(E: seq<Entry>, m: nat): Matrix
  {
    var S := Group(E, Minor, m);
    Matrix(Starts(E, Minor, m), Majors(S), Vals(S))
  }

  /** The other orientation of an n x m compressed matrix: the compressed arrays of its
      m x n transpose. Always again a valid matrix with the same number of entries. */
  function Transpose(n: nat, m: nat, A: Matrix): (T: Matrix)
    requires ValidMatrix(n, m, A)
    ensures ValidMatrix(m, n, T) && |T.ind| == |A.ind|
  {
    TransposeShape(n, m, A);
    CompressOnMinor(EntriesOf(A), m)
  }

  lemma TransposeShape(n: nat, m: nat, A: Matrix)
    requires ValidMatrix(n, m, A)
    ensures var T := CompressOnMinor(EntriesOf(A), m); ValidMatrix(m, n, T) && |T.ind| == |A.ind|
  {
    var E := EntriesOf(A);
    EntriesShape(n, m, |A.ind|, A.ptr, A.ind, A.val);
    assert KeysBelow(E, Minor, m);
    StartsValid(E, Minor, m);
    GroupIsPermutation(E, Minor, m);
    var S := Group(E, Minor, m);
    GroupMembers(E, Minor, m);
    forall p | 0 <= p < |S|
      ensures 0 <= S[p].major < n
    {
      assert S[p] in E;
    }
  }

  // ---------------------------------------------------------------------------------------
  // Rows of a compressed matrix

  /** Row i holds exactly the positions [ptr[i], ptr[i + 1]). */
  lemma RowRun(n: nat, m: nat, A: Matrix, i: nat)
    requires ValidMatrix(n, m, A) && i < n
    ensures forall k :: 0 <= k < |A.ind| ==>
              (Key(EntriesOf(A)[k], Major) == i <==> A.ptr[i] <= k < A.ptr[i + 1])
  {
    forall k | 0 <= k < |A.ind|
      ensures Key(EntriesOf(A)[k], Major) == i <==> A.ptr[i] <= k < A.ptr[i + 1]
    {
      SegmentOfFound(A.ptr, n, |A.ind|, k, 0);
      if A.ptr[i] <= k < A.ptr[i + 1] {
        SegmentOfIs(A.ptr, n, |A.ind|, k, 0, i);
      }
    }
  }

  lemma RowEntries(n: nat, m: nat, A: Matrix, i: nat)
    requires ValidMatrix(n, m, A) && i < n
    ensures 0 <= A.ptr[i] <= A.ptr[i + 1] <= |A.ind|
    ensures Filter(EntriesOf(A), Major, i) == EntriesOf(A)[A.ptr[i]..A.ptr[i + 1]]
  {
    assert A.ptr[0] <= A.ptr[i] <= A.ptr[i + 1] <= A.ptr[n];
    RowRun(n, m, A, i);
    FilterRun(EntriesOf(A), Major, i, A.ptr[i], A.ptr[i + 1]);
  }

  /** The pointer array counts the entries before each row. */
  lemma {:induction false} PointersAreStarts(n: nat, m: nat, A: Matrix, c: nat)
    requires ValidMatrix(n, m, A) && c <= n
    ensures |Group(EntriesOf(A), Major, c)| == A.ptr[c]
  {
    if c > 0 {
      PointersAreStarts(n, m, A, c - 1);
      RowEntries(n, m, A, c - 1);
    }
  }

  lemma SliceVals(S: seq<Entry>, lo: nat, hi: nat)
    requires lo <= hi <= |S|
    ensures Vals(S[lo..hi]) == Vals(S)[lo..hi] && Majors(S[lo..hi]) == Majors(S)[lo..hi]
  {
  }

  /** The values and indices stored for row i are those of the row's entries. */
  lemma RowContents(n: nat, m: nat, A: Matrix, i: nat)
    requires ValidMatrix(n, m, A) && i < n
    ensures 0 <= A.ptr[i] <= A.ptr[i + 1] <= |A.ind|
    ensures A.val[A.ptr[i]..A.ptr[i + 1]] == Vals(Filter(EntriesOf(A), Major, i))
    ensures A.ind[A.ptr[i]..A.ptr[i + 1]] == Minors(Filter(EntriesOf(A), Major, i))
  {
    RowEntries(n, m, A, i);
  }

  function Minors(S: seq<Entry>): seq<int>
  {
    seq(|S|, p requires 0 <= p < |S| => S[p].minor)
  }

  // ---------------------------------------------------------------------------------------
  // The transpose keeps every entry

  /** The entries of the transpose are the input entries in counting-sort order on their
      index, each seen from the other orientation. */
  lemma TransposeEntries(n: nat, m: nat, A: Matrix)
    requires ValidMatrix(n, m, A)
    ensures EntriesOf(Transpose(n, m, A)) == Swapped(Group(EntriesOf(A), Minor, m))
  {
    var E := EntriesOf(A);
    var S := Group(E, Minor, m);
    EntriesShape(n, m, |A.ind|, A.ptr, A.ind, A.val);
    assert KeysBelow(E, Minor, m);
    GroupIsPermutation(E, Minor, m);
    forall p | 0 <= p < |S|
      ensures EntriesOf(Transpose(n, m, A))[p] == Swap(S[p])
    {
      GroupKeyAt(E, Minor, m, p);
    }
  }

  /** Column c of the input, as row c of the transpose: exactly the input entries whose
      index is c, in their input order, with their row indices and values. */
  lemma TransposeColumn(n: nat, m: nat, A: Matrix, c: nat)
    requires ValidMatrix(n, m, A) && c < m
    ensures var T := Transpose(n, m, A);
      && 0 <= T.ptr[c] <= T.ptr[c + 1] <= |T.ind|
      && T.ind[T.ptr[c]..T.ptr[c + 1]] == Majors(Filter(EntriesOf(A), Minor, c))
      && T.val[T.ptr[c]..T.ptr[c + 1]] == Vals(Filter(EntriesOf(A), Minor, c))
  {
    var T := Transpose(n, m, A);
    var E := EntriesOf(A);
    assert T.ptr[0] <= T.ptr[c] <= T.ptr[c + 1] <= T.ptr[m];
    GroupSegment(E, Minor, c, m);
    SliceVals(Group(E, Minor, m), T.ptr[c], T.ptr[c + 1]);
  }

  /** The conversion leaves the indices of every output row in order: the entries of one
      input column are taken in storage order, which is row order. */
  lemma TransposeSorted(n: nat, m: nat, A: Matrix)
    requires ValidMatrix(n, m, A)
    ensures SortedRows(m, Transpose(n, m, A))
  {
    var T := Transpose(n, m, A);
    var E := EntriesOf(A);
    EntriesShape(n, m, |A.ind|, A.ptr, A.ind, A.val);
    forall c, k, l | 0 <= c < m && T.ptr[c] <= k < l < T.ptr[c + 1] && 0 <= k && l < |T.ind|
      ensures T.ind[k] <= T.ind[l]
    {
      TransposeColumn(n, m, A, c);
      var F := Filter(E, Minor, c);
      FilterSortedBy(E, Major, Minor, c);
      var lo := T.ptr[c];
      assert T.ind[k] == Majors(F)[k - lo] && T.ind[l] == Majors(F)[l - lo];
      assert Key(F[k - lo], Major) <= Key(F[l - lo], Major);
    }
  }

  lemma {:induction false} SwappedCount(X: seq<Entry>, x: Entry)
    ensures multiset(Swapped(X))[x] == multiset(X)[Swap(x)]
    decreases |X|
  {
    if |X| > 0 {
      var X' := X[..|X| - 1];
      assert X == X' + [X[|X| - 1]];
      assert Swapped(X) == Swapped(X') + [Swap(X[|X| - 1])];
      SwappedCount(X', x);
    }
  }

  /** The transpose stores the same entries as the input, none lost and none duplicated,
      each with its row and column exchanged. */
  lemma TransposeIsPermutation(n: nat, m: nat, A: Matrix)
    requires ValidMatrix(n, m, A)
    ensures multiset(EntriesOf(Transpose(n, m, A))) == multiset(Swapped(EntriesOf(A)))
  {
    var E := EntriesOf(A);
    var S := Group(E, Minor, m);
    TransposeEntries(n, m, A);
    EntriesShape(n, m, |A.ind|, A.ptr, A.ind, A.val);
    assert KeysBelow(E, Minor, m);
    GroupIsPermutation(E, Minor, m);
    forall x
      ensures multiset(Swapped(S))[x] == multiset(Swapped(E))[x]
    {
      SwappedCount(S, x);
      SwappedCount(E, x);
    }
  }

  // ---------------------------------------------------------------------------------------
  // Converting twice

  /** Within every row the indices never decrease. */
  predicate SortedRows(n: nat, A: Matrix)
    requires |A.ptr| == n + 1
  {
    forall i, k, l :: 0 <= i < n && A.ptr[i] <= k < l < A.ptr[i + 1] && 0 <= k && l < |A.ind| ==>
      A.ind[k] <= A.ind[l]
  }

  lemma SortedRowsLex(n: nat, m: nat, A: Matrix)
    requires ValidMatrix(n, m, A) && SortedRows(n, A)
    ensures Lex(EntriesOf(A))
  {
    var E := EntriesOf(A);
    EntriesShape(n, m, |A.ind|, A.ptr, A.ind, A.val);
    forall k, l | 0 <= k < l < |E|
      ensures LexLe(E[k], E[l])
    {
      assert Key(E[k], Major) <= Key(E[l], Major);
      if E[k].major == E[l].major {
        SegmentOfFound(A.ptr, n, |A.ind|, k, 0);
        SegmentOfFound(A.ptr, n, |A.ind|, l, 0);
      }
    }
  }

  lemma RoundTripGroups(n: nat, m: nat, A: Matrix, c: nat)
    requires ValidMatrix(n, m, A) && SortedRows(n, A)
    ensures Group(EntriesOf(Transpose(n, m, A)), Minor, c) == Swapped(Group(EntriesOf(A), Major, c))
  {
    var E := EntriesOf(A);
    var S := Group(E, Minor, m);
    assert EntriesOf(Transpose(n, m, A)) == Swapped(S) by {
      TransposeEntries(n, m, A);
    }
    assert Group(Swapped(S), Minor, c) == Swapped(Group(S, Major, c)) by {
      GroupSwapped(S, Minor, c);
    }
    assert Group(S, Major, c) == Group(E, Major, c) by {
      SortedRowsLex(n, m, A);
      EntriesShape(n, m, |A.ind|, A.ptr, A.ind, A.val);
      GroupTwice(E, n, m, c);
    }
  }

  /** Converting a matrix whose rows are sorted, and converting the result back, gives the
      original pointers, indices and values. */
  lemma RoundTrip(n: nat, m: nat, A: Matrix)
    requires ValidMatrix(n, m, A) && SortedRows(n, A)
    ensures Transpose(m, n, Transpose(n, m, A)) == A
  {
    var E := EntriesOf(A);
    var T := Transpose(n, m, A);
    var T2 := Transpose(m, n, T);
    assert Group(EntriesOf(T), Minor, n) == Swapped(E) by {
      RoundTripGroups(n, m, A, n);
      EntriesShape(n, m, |A.ind|, A.ptr, A.ind, A.val);
      assert KeysBelow(E, Major, n);
      GroupSorted(E, Major, n);
    }
    assert T2.ind == A.ind && T2.val == A.val;
    forall c | 0 <= c <= n
      ensures T2.ptr[c] == A.ptr[c]
    {
      RoundTripGroups(n, m, A, c);
      PointersAreStarts(n, m, A, c);
    }
  }

  /** Whatever the order of the input rows, converting the result back and forth again
      gives the same result: the conversion's output is always a fixed point of the round
      trip. */
  lemma TransposeRoundTrip(n: nat, m: nat, A: Matrix)
    requires ValidMatrix(n, m, A)
    ensures Transpose(n, m, Transpose(m, n, Transpose(n, m, A))) == Transpose(n, m, A)
  {
    TransposeSorted(n, m, A);
    RoundTrip(m, n, Transpose(n, m, A));
  }

  // ---------------------------------------------------------------------------------------
  // Matrix-vector products

  /** Sum of val[k] * x[ind[k]] over the positions k in [lo, hi). */
  function RowDot(A: Matrix, x: seq<real>, lo: int, hi: int): real
    requires 0 <= lo <= hi <= |A.ind| && |A.val| == |A.ind|
    decreases hi - lo
  {
    if lo == hi then 0.0 else RowDot(A, x, lo, hi - 1) + A.val[hi - 1] * At(x, A.ind[hi - 1])
  }

  /** The product of an n-row compressed matrix with x. */
  function MatVec(n: nat, A: Matrix, x: seq<real>): (y: seq<real>)
    requires ValidPointers(A.ptr, n, |A.ind|) && |A.val| == |A.ind|
    ensures |y| == n
  {
    seq(n, i requires 0 <= i < n => RowDot(A, x, A.ptr[i], A.ptr[i + 1]))
  }

  /** The contribution of one entry to the product with x. */
  function Term(x: seq<real>): Entry -> real
  {
    (e: Entry) => e.val * At(x, e.minor)
  }

  lemma {:induction false} RowDotAsSum(A: Matrix, x: seq<real>, lo: int, hi: int)
    requires 0 <= lo <= hi <= |A.ind| && |A.val| == |A.ind| && |A.ptr| > 0
    ensures RowDot(A, x, lo, hi) == SumOf(EntriesOf(A)[lo..hi], Term(x))
    decreases hi - lo
  {
    if lo < hi {
      var E := EntriesOf(A);
      RowDotAsSum(A, x, lo, hi - 1);
      assert E[lo..hi][..hi - lo - 1] == E[lo..hi - 1];
    }
  }

  /** Row i of the product is the sum of the terms of the entries of row i. */
  lemma MatVecRows(n: nat, m: nat, A: Matrix, x: seq<real>)
    requires ValidMatrix(n, m, A)
    ensures forall i :: 0 <= i < n ==> MatVec(n, A, x)[i] == SumOf(Filter(EntriesOf(A), Major, i), Term(x))
  {
    forall i | 0 <= i < n
      ensures MatVec(n, A, x)[i] == SumOf(Filter(EntriesOf(A), Major, i), Term(x))
    {
      RowEntries(n, m, A, i);
      RowDotAsSum(A, x, A.ptr[i], A.ptr[i + 1]);
    }
  }

  /** <y, A x> as a sum over the entries of y[row] * val * x[col]. */
  lemma DotMatVec(n: nat, m: nat, A: Matrix, x: seq<real>, y: seq<real>)
    requires ValidMatrix(n, m, A) && |y| == n
    ensures Dot(y, MatVec(n, A, x)) == SumOf(EntriesOf(A), WeightedFn(Major, y, Term(x)))
  {
    var E := EntriesOf(A);
    var b := WeightedFn(Major, y, Term(x));
    assert Dot(y, MatVec(n, A, x)) == SumOf(Group(E, Major, n), b) by {
      MatVecRows(n, m, A, x);
      GroupWeighted(E, Major, y, MatVec(n, A, x), Term(x));
    }
    assert SumOf(Group(E, Major, n), b) == SumOf(E, b) by {
      EntriesShape(n, m, |A.ind|, A.ptr, A.ind, A.val);
      assert KeysBelow(E, Major, n);
      GroupSum(E, Major, n, b);
    }
  }

  /** y[row] * val * x[col] is the same term seen from either orientation. */
  lemma WeightedSwap(x: seq<real>, y: seq<real>, e: Entry)
    ensures WeightedFn(Major, y, Term(x))(e) == WeightedFn(Major, x, Term(y))(Swap(e))
  {
    var a, v, c := At(y, e.major), e.val, At(x, e.minor);
    assert WeightedFn(Major, y, Term(x))(e) == a * (v * c);
    var e' := Swap(e);
    assert Key(e', Major) == e.minor && e'.val == v && e'.minor == e.major;
    assert Term(y)(e') == v * a;
    assert WeightedFn(Major, x, Term(y))(e') == c * (v * a);
  }

  /** The product with the transpose is the adjoint of the product with the matrix:
      <y, A x> == <A^T y, x> for every x and y. */
  lemma Adjoint(n: nat, m: nat, A: Matrix, x: seq<real>, y: seq<real>)
    requires ValidMatrix(n, m, A) && |x| == m && |y| == n
    ensures Dot(y, MatVec(n, A, x)) == Dot(MatVec(m, Transpose(n, m, A), y), x)
  {
    var E := EntriesOf(A);
    var T := Transpose(n, m, A);
    var S := Group(E, Minor, m);
    var b, b' := WeightedFn(Major, y, Term(x)), WeightedFn(Major, x, Term(y));
    assert Dot(y, MatVec(n, A, x)) == SumOf(E, b) by {
      DotMatVec(n, m, A, x, y);
    }
    assert Dot(x, MatVec(m, T, y)) == SumOf(EntriesOf(T), b') by {
      DotMatVec(m, n, T, y, x);
    }
    assert SumOf(EntriesOf(T), b') == SumOf(S, b) by {
      TransposeEntries(n, m, A);
      forall e
        ensures b(e) == b'(Swap(e))
      {
        WeightedSwap(x, y, e);
      }
      SumOfSwapped(S, b', b);
    }
    assert SumOf(S, b) == SumOf(E, b) by {
      EntriesShape(n, m, |A.ind|, A.ptr, A.ind, A.val);
      assert KeysBelow(E, Minor, m);
      GroupSum(E, Minor, m, b);
    }
    DotComm(x, MatVec(m, T, y));
  }
}
