/**
 * The sparse block of the linear operator: an nrows x ncols matrix given by its
 * compressed-column arrays, kept in both orientations so that the product and the
 * adjoint product are both row-by-row sums.
 */
module LinopSparse {
  import opened Sums
  import opened Compressed
  import opened SparseMatrix
  import opened Conversion

  /** Size in bytes of one stored index (int32_t). */
  const IndexBytes: nat := 4

  class BlockSparse {
    /** Placement of the block: it reads columns [col, col + ncols) of the input and adds into
        rows [row, row + nrows) of the result. */
    const row: nat
    const col: nat
    const nrows: nat
    const ncols: nat

    /** Number of stored nonzeros. */
    var nnz: nat

    /** Host copy of the compressed rows of the block (derived by the conversion). */
    var hostPtr: seq<int>
    var hostInd: seq<int>
    var hostVal: seq<real>

    /** Host copy of the compressed rows of the transpose, which are the compressed columns the
        block was created from. */
    var hostPtrT: seq<int>
    var hostIndT: seq<int>
    var hostValT: seq<real>

    /** Device copies, empty until Initialize. */
    var devPtr: seq<int>
    var devInd: seq<int>
    var devVal: seq<real>
    var devPtrT: seq<int>
    var devIndT: seq<int>
    var devValT: seq<real>

    /** The block as compressed rows: nrows pointers segments over column indices. */
    function Csr(): Matrix
      reads this`hostPtr, this`hostInd, this`hostVal
    {
      Matrix(hostPtr, hostInd, hostVal)
    }

    /** The block as compressed columns, that is the compressed rows of its transpose. */
    function Csc(): Matrix
      reads this`hostPtrT, this`hostIndT, this`hostValT
    {
      Matrix(hostPtrT, hostIndT, hostValT)
    }

    /** The compressed columns the block was created from are a valid ncols x nrows compressed
        matrix with nnz entries. */
    ghost predicate Valid()
      reads this`hostPtrT, this`hostIndT, this`hostValT, this`nnz
    {
      ValidMatrix(ncols, nrows, Csc()) && |hostIndT| == nnz
    }

    /** The compressed rows are the conversion of the compressed columns. */
    ghost predicate Converted()
      reads this`hostPtr, this`hostInd, this`hostVal, this`hostPtrT, this`hostIndT, this`hostValT, this`nnz
    {
      && Valid()
      && ValidMatrix(nrows, ncols, Csr())
      && Csr() == Transpose(ncols, nrows, Csc())
    }

    /** The device holds both orientations. */
    ghost predicate Ready()
      reads this
    {
      && devPtr == hostPtr && devInd == hostInd && devVal == hostVal
      && devPtrT == hostPtrT && devIndT == hostIndT && devValT == hostValT
    }

    constructor (row: nat, col: nat, nrows: nat, ncols: nat)
      ensures this.row == row && this.col == col && this.nrows == nrows && this.ncols == ncols
      ensures nnz == 0 && hostPtr == hostInd == hostPtrT == hostIndT == [] && hostVal == hostValT == []
      ensures devPtr == devInd == devPtrT == devIndT == [] && devVal == devValT == []
    {
      this.row, this.col, this.nrows, this.ncols := row, col, nrows, ncols;
      nnz := 0;
      hostPtr, hostInd, hostVal, hostPtrT, hostIndT, hostValT := [], [], [], [], [], [];
      devPtr, devInd, devVal, devPtrT, devIndT, devValT := [], [], [], [], [], [];
    }

    /**
     * The m x n block at (row, col) whose compressed columns are (ptr, ind, val): ptr has
     * n + 1 entries, ind and val have nnz, and every row index lies in [0, m). The block keeps
     * the columns as the compressed rows of its transpose; the rows themselves and the device
     * copies are still empty.
     */
    static method CreateFromCSC(row: nat, col: nat, m: nat, n: nat, nnz: nat,
                                val: seq<real>, ptr: seq<int>, ind: seq<int>) returns (b: BlockSparse)
      requires |val| == nnz && WellFormed(n, m, nnz, ptr, ind)
      ensures fresh(b) && b.Valid()
      ensures b.row == row && b.col == col && b.nrows == m && b.ncols == n && b.nnz == nnz
      ensures b.Csc() == Matrix(ptr, ind, val) && b.Csr() == Matrix([], [], [])
      ensures b.devPtr == b.devInd == b.devPtrT == b.devIndT == [] && b.devVal == b.devValT == []
    {
      b := new BlockSparse(row, col, m, n);
      b.nnz := nnz;
      b.hostPtrT, b.hostIndT, b.hostValT := ptr, ind, val;
    }

    /** Runs the conversion on fresh arrays holding the compressed columns of an m x n block and
        returns its compressed rows. */
    static method Convert(m: nat, n: nat, nnz: nat, val: seq<real>, ptr: seq<int>, ind: seq<int>)
      returns (csr: Matrix)
      requires |val| == nnz && WellFormed(n, m, nnz, ptr, ind)
      ensures csr == Transpose(n, m, Matrix(ptr, ind, val))
    {
      var ptrA := new int[n + 1](k requires 0 <= k < n + 1 => ptr[k]);
      var indA := new int[nnz](k requires 0 <= k < nnz => ind[k]);
      var valA := new real[nnz](k requires 0 <= k < nnz => val[k]);
      var ptrOut := new int[m + 1];
      var indOut := new int[nnz];
      var valOut := new real[nnz];
      assert ptrA[..n + 1] == ptr && indA[..nnz] == ind && valA[..nnz] == val;
      Csr2Csc(n, m, nnz, valA, indA, ptrA, valOut, indOut, ptrOut);
      csr := Matrix(ptrOut[..], indOut[..], valOut[..]);
    }

    /** Derives the compressed rows from the compressed columns with the conversion and copies
        both orientations to the device. */
    method Initialize()
      requires Valid()
      modifies this
      ensures Converted() && Ready()
      ensures unchanged(this`nnz, this`hostPtrT, this`hostIndT, this`hostValT)
    {
      DeriveRows();
      Upload();
    }

    /** The conversion step of Initialize. */
    method DeriveRows()
      requires Valid()
      modifies this`hostPtr, this`hostInd, this`hostVal
      ensures Converted()
    {
      var csr := Convert(nrows, ncols, nnz, hostValT, hostPtrT, hostIndT);
      hostPtr, hostInd, hostVal := csr.ptr, csr.ind, csr.val;
    }

    /** The upload step of Initialize. */
    method Upload()
      modifies this`devPtr, this`devInd, this`devVal, this`devPtrT, this`devIndT, this`devValT
      ensures Ready()
    {
      devPtr, devInd, devVal := hostPtr, hostInd, hostVal;
      devPtrT, devIndT, devValT := hostPtrT, hostIndT, hostValT;
    }

    // -------------------------------------------------------------------------------------
    // Row and column sums (alpha = 1)

    /** Sum of the magnitudes in local row r, read from the compressed rows: the magnitudes of
        exactly the entries the block was created with whose row index is r. */
    function RowSum(r: nat): (s: real)
      reads this
      requires Converted() && r < nrows
      ensures 0.0 <= s
      ensures s == SumOf(Filter(EntriesOf(Csc()), Minor, r), Magnitude)
    {
      TransposeColumn(ncols, nrows, Csc(), r);
      MagnitudesSum(Filter(EntriesOf(Csc()), Minor, r));
      AbsSum(hostVal[hostPtr[r]..hostPtr[r + 1]])
    }

    /** Sum of the magnitudes in local column c, read from the compressed columns: the
        magnitudes of exactly the entries of column c. */
    function ColSum(c: nat): (s: real)
      reads this
      requires Valid() && c < ncols
      ensures 0.0 <= s
      ensures s == SumOf(Filter(EntriesOf(Csc()), Major, c), Magnitude)
    {
      RowContents(ncols, nrows, Csc(), c);
      MagnitudesSum(Filter(EntriesOf(Csc()), Major, c));
      AbsSum(hostValT[hostPtrT[c]..hostPtrT[c + 1]])
    }

    /** Device bytes: the index and pointer arrays of both orientations at IndexBytes each
        and their values at valueBytes each. Once initialized, that is 2 nnz indices,
        nrows + ncols + 2 pointers and 2 nnz values. */
    function GpuMemAmount(valueBytes: nat): (b: nat)
      reads this
      ensures Converted() && Ready() ==>
        b == IndexBytes * (2 * nnz + nrows + ncols + 2) + valueBytes * (2 * nnz)
    {
      IndexBytes * (|devInd| + |devIndT| + |devPtr| + |devPtrT|) + valueBytes * (|devVal| + |devValT|)
    }

    // -------------------------------------------------------------------------------------
    // Evaluation

    /** Adds the block times rhs[rhsBegin..rhsEnd) into res[resBegin..resEnd), using the
        compressed rows on the device; nothing else in res changes. */
    method EvalLocalAdd(res: array<real>, resBegin: nat, resEnd: nat, rhs: array<real>, rhsBegin: nat, rhsEnd: nat)
      requires ValidMatrix(nrows, ncols, Csr()) && Ready()
      requires resBegin + nrows == resEnd <= res.Length && rhsBegin + ncols == rhsEnd <= rhs.Length && res != rhs
      modifies res
      ensures forall i :: resBegin <= i < resEnd ==>
        res[i] == old(res[i]) + MatVec(nrows, Csr(), rhs[rhsBegin..rhsEnd])[i - resBegin]
      ensures forall i :: 0 <= i < res.Length && !(resBegin <= i < resEnd) ==> res[i] == old(res[i])
    {
      var A := Matrix(devPtr, devInd, devVal);
      assert A == Csr();
      AddMatVec(nrows, ncols, A, res, resBegin, resEnd, rhs, rhsBegin, rhsEnd);
    }

    /** Adds the transpose of the block times rhs[rhsBegin..rhsEnd) into res[resBegin..resEnd),
        using the compressed columns on the device; nothing else in res changes. */
    method EvalAdjointLocalAdd(res: array<real>, resBegin: nat, resEnd: nat, rhs: array<real>, rhsBegin: nat, rhsEnd: nat)
      requires ValidMatrix(ncols, nrows, Csc()) && Ready()
      requires resBegin + ncols == resEnd <= res.Length && rhsBegin + nrows == rhsEnd <= rhs.Length && res != rhs
      modifies res
      ensures forall i :: resBegin <= i < resEnd ==>
        res[i] == old(res[i]) + MatVec(ncols, Csc(), rhs[rhsBegin..rhsEnd])[i - resBegin]
      ensures forall i :: 0 <= i < res.Length && !(resBegin <= i < resEnd) ==> res[i] == old(res[i])
    {
      var A := Matrix(devPtrT, devIndT, devValT);
      assert A == Csc();
      AddMatVec(ncols, nrows, A, res, resBegin, resEnd, rhs, rhsBegin, rhsEnd);
    }

    /** The adjoint evaluation is the transpose of the forward one: <y, K x> == <K^T y, x>. */
    lemma EvalAdjointIsTranspose(x: seq<real>, y: seq<real>)
      requires Converted() && |x| == ncols && |y| == nrows
      ensures Dot(y, MatVec(nrows, Csr(), x)) == Dot(MatVec(ncols, Csc(), y), x)
    {
      Adjoint(ncols, nrows, Csc(), y, x);
      DotComm(y, MatVec(nrows, Csr(), x));
      DotComm(x, MatVec(ncols, Csc(), y));
    }

    // -------------------------------------------------------------------------------------
    // csr2csc

    /**
     * Converts the n x m matrix with compressed-row arrays (rowStart, colIdx, a) into its
     * compressed-column arrays (colStart, rowIdx, cscA), not in place. When a is null only
     * the pattern (colStart and rowIdx) is produced and cscA is not written.
     */
    static method Csr2Csc(n: nat, m: nat, nz: nat, a: array?<real>, colIdx: array<int>, rowStart: array<int>,
                          cscA: array?<real>, rowIdx: array<int>, colStart: array<int>)
      requires rowStart.Length >= n + 1 && colIdx.Length >= nz && (a != null ==> a.Length >= nz)
      requires colStart.Length == m + 1 && rowIdx.Length == nz
      requires a != null ==> cscA != null && cscA.Length == nz && cscA != a
      requires WellFormed(n, m, nz, rowStart[..n + 1], colIdx[..nz])
      requires colStart != rowStart && colStart != colIdx && colStart != rowIdx
      requires rowIdx != rowStart && rowIdx != colIdx
      modifies colStart, rowIdx, if a != null then {cscA} else {}
      ensures var A := Matrix(old(rowStart[..n + 1]), old(colIdx[..nz]), if a != null then old(a[..nz]) else Zeros(nz));
        var T := Transpose(n, m, A);
        && colStart[..] == T.ptr
        && rowIdx[..] == T.ind
        && (a != null ==> cscA[..] == T.val)
    {
      var starts, cols := rowStart[..n + 1], colIdx[..nz];
      var hasVals := a != null;
      var vals := if a != null then a[..nz] else Zeros(nz);
      ghost var A := Matrix(starts, cols, vals);
      ghost var E := EntriesOf(A);
      InputEntries(n, m, A);
      CountColumns(E, m, nz, cols, colStart);
      PrefixSums(E, m, colStart);
      ScatterBegin(E, m, hasVals, colStart[..], rowIdx[..], ValuesOut(hasVals, cscA));
      Scatter(E, n, m, nz, hasVals, vals, cols, starts, cscA, rowIdx, colStart);
      CursorsDone(E, m, colStart[..]);
      ShiftBack(E, m, colStart);
      PointersDone(n, m, A, colStart[..]);
      IndicesDone(n, m, A, rowIdx[..]);
      if hasVals {
        ValuesDone(n, m, A, ValuesOut(hasVals, cscA));
      }
    }

    /** Zeroes the m + 1 pointers and counts, in slot c + 1, the entries of column c. */
    static method CountColumns(ghost E: seq<Entry>, m: nat, nz: nat, cols: seq<int>, colStart: array<int>)
      requires nz == |E| && MinorsAre(E, cols) && KeysBelow(E, Minor, m) && m + 1 <= colStart.Length
      modifies colStart
      ensures Counted(E, m, |E|, colStart[..])
    {
      var i := 0;
      while i <= m
        invariant 0 <= i <= m + 1
        invariant forall c :: 0 <= c < i ==> colStart[c] == 0
      {
        colStart[i] := 0;
        i := i + 1;
      }
      CountStart(E, m, colStart[..]);
      var j := 0;
      while j < nz
        invariant 0 <= j <= nz
        invariant Counted(E, m, j, colStart[..])
      {
        ghost var cs := colStart[..];
        var k := cols[j];
        assert E[j] in E;
        CountStep(E, m, j, cs);
        colStart[k + 1] := colStart[k + 1] + 1;
        assert colStart[..] == cs[k + 1 := cs[k + 1] + 1];
        j := j + 1;
      }
    }

    /** Turns the counts into the start of every column. */
    static method PrefixSums(ghost E: seq<Entry>, m: nat, colStart: array<int>)
      requires m + 1 <= colStart.Length && Counted(E, m, |E|, colStart[..])
      modifies colStart
      ensures Accumulated(E, m, m, colStart[..])
    {
      AccumulateStart(E, m, colStart[..]);
      var i := 0;
      while i < m
        invariant 0 <= i <= m
        invariant Accumulated(E, m, i, colStart[..])
      {
        ghost var cs := colStart[..];
        AccumulateStep(E, m, i, cs);
        colStart[i + 1] := colStart[i + 1] + colStart[i];
        assert colStart[..] == cs[i + 1 := cs[i + 1] + cs[i]];
        i := i + 1;
      }
    }

    /** The value output when values are converted, and nothing otherwise. */
    static function ValuesOut(hasVals: bool, cscA: array?<real>): seq<real>
      reads cscA
    {
      if hasVals && cscA != null then cscA[..] else []
    }

    /**
     * Walks the rows in order and writes every entry at the cursor of its column. The inputs,
     * which the conversion never writes, are read as the values starts (row pointers), cols
     * (column indices) and vals (values, read only when hasVals).
     */
    static method Scatter(ghost E: seq<Entry>, n: nat, m: nat, nz: nat, hasVals: bool, vals: seq<real>,
                          cols: seq<int>, starts: seq<int>, cscA: array?<real>, rowIdx: array<int>,
                          colStart: array<int>)
      requires nz == |E| && KeysBelow(E, Minor, m)
      requires ValidPointers(starts, n, nz) && RowsAre(E, n, starts)
      requires MinorsAre(E, cols) && (hasVals ==> ValsAre(E, vals))
      requires colStart.Length >= m + 1 && rowIdx.Length >= nz && colStart != rowIdx
      requires hasVals ==> cscA != null && cscA.Length >= nz
      requires Scattered(E, m, 0, hasVals, colStart[..], rowIdx[..], ValuesOut(hasVals, cscA))
      modifies colStart, rowIdx, if hasVals then {cscA} else {}
      ensures Scattered(E, m, nz, hasVals, colStart[..], rowIdx[..], ValuesOut(hasVals, cscA))
    {
      var r := 0;
      while r < n
        invariant 0 <= r <= n
        invariant Scattered(E, m, starts[r], hasVals, colStart[..], rowIdx[..], ValuesOut(hasVals, cscA))
      {
        RowSegment(E, n, starts, r);
        ScatterRow(E, m, nz, starts[r], starts[r + 1], r, hasVals, vals, cols, cscA, rowIdx, colStart);
        r := r + 1;
      }
    }

    /** Places the entries at positions [lo, hi), which all lie in row r. */
    static method ScatterRow(ghost E: seq<Entry>, m: nat, nz: nat, lo: nat, hi: nat, r: nat, hasVals: bool,
                             vals: seq<real>, cols: seq<int>, cscA: array?<real>, rowIdx: array<int>,
                             colStart: array<int>)
      requires nz == |E| && KeysBelow(E, Minor, m) && lo <= hi <= nz
      requires MinorsAre(E, cols) && (hasVals ==> ValsAre(E, vals))
      requires forall j :: lo <= j < hi ==> E[j].major == r
      requires colStart.Length >= m + 1 && rowIdx.Length >= nz && colStart != rowIdx
      requires hasVals ==> cscA != null && cscA.Length >= nz
      requires Scattered(E, m, lo, hasVals, colStart[..], rowIdx[..], ValuesOut(hasVals, cscA))
      modifies colStart, rowIdx, if hasVals then {cscA} else {}
      ensures Scattered(E, m, hi, hasVals, colStart[..], rowIdx[..], ValuesOut(hasVals, cscA))
    {
      var j := lo;
      while j < hi
        invariant lo <= j <= hi
        invariant Scattered(E, m, j, hasVals, colStart[..], rowIdx[..], ValuesOut(hasVals, cscA))
      {
        ScatterOne(E, m, nz, j, r, hasVals, vals, cols, cscA, rowIdx, colStart);
        j := j + 1;
      }
    }

    /** Places entry j, which lies in row r: one step of the inner scatter loop. */
    static method ScatterOne(ghost E: seq<Entry>, m: nat, nz: nat, j: nat, r: nat, hasVals: bool,
                             vals: seq<real>, cols: seq<int>, cscA: array?<real>, rowIdx: array<int>,
                             colStart: array<int>)
      requires nz == |E| && KeysBelow(E, Minor, m) && j < nz && E[j].major == r
      requires MinorsAre(E, cols) && (hasVals ==> ValsAre(E, vals))
      requires colStart.Length >= m + 1 && rowIdx.Length >= nz && colStart != rowIdx
      requires hasVals ==> cscA != null && cscA.Length >= nz
      requires Scattered(E, m, j, hasVals, colStart[..], rowIdx[..], ValuesOut(hasVals, cscA))
      modifies colStart, rowIdx, if hasVals then {cscA} else {}
      ensures Scattered(E, m, j + 1, hasVals, colStart[..], rowIdx[..], ValuesOut(hasVals, cscA))
    {
      ghost var cs, ri, ca := colStart[..], rowIdx[..], ValuesOut(hasVals, cscA);
      var k := cols[j];
      assert E[j] in E;
      var l := colStart[k];
      ScatterStep(E, m, j, hasVals, cs, ri, ca, k, l);
      colStart[k] := l + 1;
      rowIdx[l] := r;
      if hasVals {
        cscA[l] := vals[j];
      }
      assert colStart[..] == cs[k := l + 1];
      assert rowIdx[..] == ri[l := E[j].major];
      assert ValuesOut(hasVals, cscA) == if hasVals then ca[l := E[j].val] else ca;
    }

    /** Moves every pointer one slot up and puts 0 in front: slot c now holds where column
        c starts. */
    static method ShiftBack(ghost E: seq<Entry>, m: nat, colStart: array<int>)
      requires m + 1 <= colStart.Length
      requires forall c :: 0 <= c < m ==> colStart[c] == Before(E, c + 1)
      requires colStart[m] == Before(E, m)
      modifies colStart
      ensures forall c :: 0 <= c <= m ==> colStart[c] == Before(E, c)
    {
      var i := m;
      while i > 0
        invariant 0 <= i <= m
        invariant forall c :: 0 <= c < i ==> colStart[c] == Before(E, c + 1)
        invariant forall c :: i < c <= m ==> colStart[c] == Before(E, c)
      {
        colStart[i] := colStart[i - 1];
        i := i - 1;
      }
      colStart[0] := 0;
    }
  }

  /** The magnitude of a stored value: its contribution to a row or column sum. */
  function Magnitude(e: Entry): real
  {
    Abs(e.val)
  }

  /** Sum of the magnitudes of v. */
  function AbsSum(v: seq<real>): real
  {
    if |v| == 0 then 0.0 else AbsSum(v[..|v| - 1]) + Abs(v[|v| - 1])
  }

  /** Summing the magnitudes of the values of S is summing Magnitude over S, and is never
      negative. */
  lemma {:induction false} MagnitudesSum(S: seq<Entry>)
    ensures AbsSum(Vals(S)) == SumOf(S, Magnitude) && 0.0 <= SumOf(S, Magnitude)
  {
    if |S| > 0 {
      var n := |S| - 1;
      MagnitudesSum(S[..n]);
      assert Vals(S)[..n] == Vals(S[..n]);
    }
  }

  /**
   * Adds the product of the n-row compressed matrix A with x := rhs[rhsBegin..rhsBegin + width)
   * into res[resBegin..resBegin + n), one row at a time; nothing else in res changes.
   */
  method AddMatVec(n: nat, width: nat, A: Matrix, res: array<real>, resBegin: nat, resEnd: nat,
                   rhs: array<real>, rhsBegin: nat, rhsEnd: nat)
    requires ValidMatrix(n, width, A)
    requires resBegin + n == resEnd <= res.Length && rhsBegin + width == rhsEnd <= rhs.Length && res != rhs
    modifies res
    ensures forall i :: resBegin <= i < resEnd ==>
      res[i] == old(res[i]) + MatVec(n, A, rhs[rhsBegin..rhsEnd])[i - resBegin]
    ensures forall i :: 0 <= i < res.Length && !(resBegin <= i < resEnd) ==> res[i] == old(res[i])
  {
    ghost var y := MatVec(n, A, rhs[rhsBegin..rhsEnd]);
    ghost var r0 := res[..];
    var i := 0;
    while i < n
      invariant 0 <= i <= n
      invariant res[..] == AddedPrefix(r0, resBegin, y, i)
    {
      assert A.ptr[i] <= A.ptr[i + 1];
      var s := RowTimes(A, width, rhs, rhsBegin, A.ptr[i], A.ptr[i + 1]);
      ghost var cur := res[..];
      res[resBegin + i] := res[resBegin + i] + s;
      assert res[..] == cur[resBegin + i := cur[resBegin + i] + y[i]];
      AddedStep(r0, resBegin, y, i, cur);
      i := i + 1;
    }
  }

  method RowTimes(A: Matrix, width: nat, rhs: array<real>, rhsBegin: nat, lo: int, hi: int) returns (s: real)
    requires 0 <= lo <= hi <= |A.ind| == |A.val| && rhsBegin + width <= rhs.Length
    requires IndicesBelow(A.ind, width)
    ensures s == RowDot(A, rhs[rhsBegin..rhsBegin + width], lo, hi)
  {
    ghost var x := rhs[rhsBegin..rhsBegin + width];
    s := 0.0;
    var k := lo;
    while k < hi
      invariant lo <= k <= hi
      invariant s == RowDot(A, x, lo, k)
    {
      s := s + A.val[k] * rhs[rhsBegin + A.ind[k]];
      k := k + 1;
    }
  }

  // What the conversion needs to know about the input entries: their indices and values
  // are the input arrays, row r holds the positions [ptr[r], ptr[r + 1]).

  /** The column of entry j is cols[j]. */
  ghost predicate MinorsAre(E: seq<Entry>, cols: seq<int>)
  {
    |E| <= |cols| && forall j :: 0 <= j < |E| ==> E[j].minor == cols[j]
  }

  /** The value of entry j is vals[j]. */
  ghost predicate ValsAre(E: seq<Entry>, vals: seq<real>)
  {
    |E| <= |vals| && forall j :: 0 <= j < |E| ==> E[j].val == vals[j]
  }

  /** The entries at positions [starts[r], starts[r + 1]) lie in row r. */
  ghost predicate RowsAre(E: seq<Entry>, n: nat, starts: seq<int>)
  {
    n < |starts| && forall r, j :: 0 <= r < n && starts[r] <= j < starts[r + 1] && 0 <= j < |E| ==> E[j].major == r
  }

  lemma InputEntries(n: nat, m: nat, A: Matrix)
    requires ValidMatrix(n, m, A)
    ensures var E := EntriesOf(A);
      && KeysBelow(E, Minor, m)
      && MinorsAre(E, A.ind) && ValsAre(E, A.val) && RowsAre(E, n, A.ptr)
      && (forall j :: 0 <= j < |E| ==> E[j].minor == A.ind[j])
  {
    var E := EntriesOf(A);
    EntriesShape(n, m, |A.ind|, A.ptr, A.ind, A.val);
    forall r, j | 0 <= r < n && A.ptr[r] <= j < A.ptr[r + 1]
      ensures E[j].major == r
    {
      SegmentOfIs(A.ptr, n, |A.ind|, j, 0, r);
    }
  }

  /** Row r of a well-formed input is a run of entries of row r. */
  lemma RowSegment(E: seq<Entry>, n: nat, starts: seq<int>, r: nat)
    requires ValidPointers(starts, n, |E|) && RowsAre(E, n, starts) && r < n
    ensures 0 <= starts[r] <= starts[r + 1] <= |E|
    ensures forall j :: starts[r] <= j < starts[r + 1] ==> E[j].major == r
  {
  }

  /** Pointers that hold where every segment of the counting-sort order starts are the
      pointers of the transpose. */
  lemma PointersDone(n: nat, m: nat, A: Matrix, ps: seq<int>)
    requires ValidMatrix(n, m, A) && |ps| == m + 1
    requires forall c :: 0 <= c <= m ==> ps[c] == Before(EntriesOf(A), c)
    ensures ps == Transpose(n, m, A).ptr
  {
  }

  /** Fully placed row indices are the index array of the transpose. */
  lemma IndicesDone(n: nat, m: nat, A: Matrix, out: seq<int>)
    requires ValidMatrix(n, m, A) && |out| == |A.ind|
    requires Placed(EntriesOf(A), m, |A.ind|, out, MajorOf)
    ensures out == Transpose(n, m, A).ind
  {
    var E := EntriesOf(A);
    EntriesShape(n, m, |A.ind|, A.ptr, A.ind, A.val);
    PlacedAll(E, m, out, MajorOf);
    assert out[..|E|] == out;
  }

  /** Fully placed values are the value array of the transpose. */
  lemma ValuesDone(n: nat, m: nat, A: Matrix, out: seq<real>)
    requires ValidMatrix(n, m, A) && |out| == |A.ind|
    requires Placed(EntriesOf(A), m, |A.ind|, out, ValOf)
    ensures out == Transpose(n, m, A).val
  {
    var E := EntriesOf(A);
    EntriesShape(n, m, |A.ind|, A.ptr, A.ind, A.val);
    PlacedAll(E, m, out, ValOf);
    assert out[..|E|] == out;
  }

  /** The values used for the pattern-only conversion. */
  function Zeros(nz: nat): (z: seq<real>)
    ensures |z| == nz
  {
    seq(nz, k => 0.0)
  }

  /** The CSC arrays of the 2 x 2 matrix [[1, 0], [3, 4]]. */
  function SmallCsc(): (A: Matrix)
    ensures ValidMatrix(2, 2, A)
  {
    Matrix([0, 2, 3], [0, 1, 1], [1.0, 3.0, 4.0])
  }

  lemma SmallEntries()
    ensures EntriesOf(SmallCsc()) == [Entry(0, 0, 1.0), Entry(0, 1, 3.0), Entry(1, 1, 4.0)]
  {
  }

  lemma SmallGroups()
    ensures Group(EntriesOf(SmallCsc()), Minor, 2) == EntriesOf(SmallCsc())
    ensures |Group(EntriesOf(SmallCsc()), Minor, 1)| == 1
  {
    var E := EntriesOf(SmallCsc());
    SmallEntries();
    assert E[..2][..1] == E[..1] && E[..1][..0] == [];
    assert Filter(E[..1], Minor, 0) == [E[0]] && Filter(E[..1], Minor, 1) == [];
    assert Filter(E[..2], Minor, 0) == [E[0]] && Filter(E[..2], Minor, 1) == [E[1]];
    assert E[..3] == E;
    assert Filter(E, Minor, 0) == [E[0]];
    assert Filter(E, Minor, 1) == [E[1], E[2]];
  }

  /** Converting the example gives the CSR arrays: row 0 holds (column 0, 1), row 1 holds
      (column 0, 3) and (column 1, 4). */
  lemma SmallTranspose()
    ensures Transpose(2, 2, SmallCsc()) == Matrix([0, 1, 3], [0, 0, 1], [1.0, 3.0, 4.0])
  {
    var E := EntriesOf(SmallCsc());
    SmallEntries();
    SmallGroups();
    var T := Transpose(2, 2, SmallCsc());
    assert T.ptr == Starts(E, Minor, 2);
    assert T.ptr == [0, 1, 3];
    assert T.ind == Majors(E) == [0, 0, 1];
    assert T.val == Vals(E) == [1.0, 3.0, 4.0];
  }

  /** The forward product with (1, 1) is (1, 7) and the adjoint one is (4, 4). */
  lemma SmallProducts()
    ensures MatVec(2, Transpose(2, 2, SmallCsc()), [1.0, 1.0]) == [1.0, 7.0]
    ensures MatVec(2, SmallCsc(), [1.0, 1.0]) == [4.0, 4.0]
  {
    SmallTranspose();
    var T := Transpose(2, 2, SmallCsc());
    assert RowDot(T, [1.0, 1.0], 0, 1) == 1.0;
    assert RowDot(T, [1.0, 1.0], 1, 3) == 7.0;
    assert RowDot(SmallCsc(), [1.0, 1.0], 0, 2) == 4.0;
    assert RowDot(SmallCsc(), [1.0, 1.0], 2, 3) == 4.0;
  }
}
