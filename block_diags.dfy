/**
 * The multi-diagonal block, the operator of MATLAB's speye / spdiags: an nrows x ncols
 * block made of ndiags diagonals, diagonal d starting at column offset_d of row 0 and
 * scaled by factor_d, so that (K x)[i] is the sum over d of factor_d * x[i + offset_d],
 * counting only the diagonals whose column i + offset_d exists. The offsets and factors
 * of every such block of a problem live in one shared constant-memory pool; each block
 * claims the next ndiags slots of it when it is built.
 */
module LinopDiags {
  import opened Sums

  /** One diagonal: its column offset and its factor. */
  datatype Diagonal = Diagonal(offset: int, factor: real)

  // ---------------------------------------------------------------------------------------
  // The operator as values

  /** Term d of row i of K x: factor_d * x[i + offset_d], or 0 when that column is not in x. */
  function ForwardTerm(D: seq<Diagonal>, x: seq<real>, i: int): nat -> real
  {
    (d: nat) => if d < |D| && 0 <= i + D[d].offset < |x| then D[d].factor * x[i + D[d].offset] else 0.0
  }

  /** K x for an n-row block with diagonals D. */
  function Forward(n: nat, D: seq<Diagonal>, x: seq<real>): (y: seq<real>)
    ensures |y| == n
  {
    seq(n, (i: int) => Sum(|D|, ForwardTerm(D, x, i)))
  }

  /** Term d of entry j of K^T y: factor_d * y[j - offset_d], or 0 when that row is not in y. */
  function AdjointTerm(D: seq<Diagonal>, y: seq<real>, j: int): nat -> real
  {
    (d: nat) => if d < |D| && 0 <= j - D[d].offset < |y| then D[d].factor * y[j - D[d].offset] else 0.0
  }

  /** K^T y for an m-column block with diagonals D. */
  function Adjoint(m: nat, D: seq<Diagonal>, y: seq<real>): (x: seq<real>)
    ensures |x| == m
  {
    seq(m, (j: int) => Sum(|D|, AdjointTerm(D, y, j)))
  }

  /** Diagonal d's share of entry (i, j) of K. */
  function Hits(D: seq<Diagonal>, i: int, j: int): nat -> real
  {
    (d: nat) => if d < |D| && j == i + D[d].offset then D[d].factor else 0.0
  }

  /** Entry (i, j) of K: the sum of the factors of the diagonals through it. */
  function Coefficient(D: seq<Diagonal>, i: int, j: int): real
  {
    Sum(|D|, Hits(D, i, j))
  }

  /** The terms of row i of the dense product with x. */
  function RowTerm(D: seq<Diagonal>, x: seq<real>, i: int): nat -> real
  {
    (j: nat) => Coefficient(D, i, j) * At(x, j)
  }

  /** The terms of column j of the dense product of K^T with y. */
  function ColTerm(D: seq<Diagonal>, y: seq<real>, j: int): nat -> real
  {
    (i: nat) => Coefficient(D, i, j) * At(y, i)
  }

  /** Row i of K x spread over the diagonals d and the columns j. */
  function ForwardSpread(D: seq<Diagonal>, x: seq<real>, i: int): (nat, nat) -> real
  {
    (d: nat, j: nat) => if d < |D| && j == i + D[d].offset then D[d].factor * At(x, j) else 0.0
  }

  /** Entry j of K^T y spread over the diagonals d and the rows i. */
  function AdjointSpread(D: seq<Diagonal>, y: seq<real>, j: int): (nat, nat) -> real
  {
    (d: nat, i: nat) => if d < |D| && j == i + D[d].offset then D[d].factor * At(y, i) else 0.0
  }

  /** Term d of row i of K x is the sum of its spread over the columns. */
  lemma ForwardTermSpread(D: seq<Diagonal>, x: seq<real>, i: int, d: nat)
    requires d < |D|
    ensures ForwardTerm(D, x, i)(d) == Sum(|x|, Row(ForwardSpread(D, x, i), d))
  {
    SumPick(|x|, i + D[d].offset, (j: nat) => D[d].factor * At(x, j), Row(ForwardSpread(D, x, i), d));
  }

  /** Row i of the diagonal form of K x is row i of the dense product with the coefficients. */
  lemma ForwardIsDense(D: seq<Diagonal>, x: seq<real>, i: int)
    ensures Sum(|D|, ForwardTerm(D, x, i)) == Sum(|x|, RowTerm(D, x, i))
  {
    var g := ForwardSpread(D, x, i);
    forall d: nat | d < |D|
      ensures ForwardTerm(D, x, i)(d) == Inner(|x|, g)(d)
    {
      ForwardTermSpread(D, x, i, d);
    }
    SumExt(|D|, ForwardTerm(D, x, i), Inner(|x|, g));
    SumSwap(|D|, |x|, g);
    forall j: nat | j < |x|
      ensures Outer(|D|, g)(j) == RowTerm(D, x, i)(j)
    {
      SumScale(|D|, At(x, j), Hits(D, i, j), Col(g, j));
    }
    SumExt(|x|, Outer(|D|, g), RowTerm(D, x, i));
  }

  /** Entry j of the diagonal form of K^T y is column j of the dense product with y. */
  lemma AdjointIsDense(D: seq<Diagonal>, y: seq<real>, j: int)
    ensures Sum(|D|, AdjointTerm(D, y, j)) == Sum(|y|, ColTerm(D, y, j))
  {
    var g := AdjointSpread(D, y, j);
    forall d: nat | d < |D|
      ensures AdjointTerm(D, y, j)(d) == Inner(|y|, g)(d)
    {
      SumPick(|y|, j - D[d].offset, (i: nat) => D[d].factor * At(y, i), Row(g, d));
    }
    SumExt(|D|, AdjointTerm(D, y, j), Inner(|y|, g));
    SumSwap(|D|, |y|, g);
    forall i: nat | i < |y|
      ensures Outer(|D|, g)(i) == ColTerm(D, y, j)(i)
    {
      SumScale(|D|, At(y, i), Hits(D, i, j), Col(g, i));
    }
    SumExt(|y|, Outer(|D|, g), ColTerm(D, y, j));
  }

  lemma Rearrange(a: real, b: real, c: real)
    ensures a * (b * c) == c * (b * a)
  {
  }

  /** The terms y[i] * K[i, j] * x[j] of <y, K x>. */
  function Bilinear(D: seq<Diagonal>, x: seq<real>, y: seq<real>): (nat, nat) -> real
  {
    (i: nat, j: nat) => At(y, i) * RowTerm(D, x, i)(j)
  }

  /** Row i of the double sum is y[i] times row i of the dense product with x. */
  lemma BilinearRow(m: nat, D: seq<Diagonal>, x: seq<real>, y: seq<real>, i: nat)
    ensures Inner(m, Bilinear(D, x, y))(i) == At(y, i) * Sum(m, RowTerm(D, x, i))
  {
    SumScale(m, At(y, i), RowTerm(D, x, i), Row(Bilinear(D, x, y), i));
  }

  /** <y, K x> as the double sum of the terms y[i] * K[i, j] * x[j], row by row. */
  lemma ForwardBilinear(n: nat, m: nat, D: seq<Diagonal>, x: seq<real>, y: seq<real>)
    requires |x| == m && |y| == n
    ensures Dot(y, Forward(n, D, x)) == Sum(n, Inner(m, Bilinear(D, x, y)))
  {
    var Kx := Forward(n, D, x);
    forall i: nat | i < n
      ensures Inner(m, Bilinear(D, x, y))(i) == y[i] * Kx[i]
    {
      BilinearRow(m, D, x, y, i);
      ForwardIsDense(D, x, i);
    }
    DotAsSum(y, Kx, Inner(m, Bilinear(D, x, y)));
  }

  /** Term (i, j) of the double sum is x[j] times term i of column j of the dense K^T y. */
  lemma BilinearEntry(D: seq<Diagonal>, x: seq<real>, y: seq<real>, i: nat, j: nat)
    ensures Col(Bilinear(D, x, y), j)(i) == At(x, j) * ColTerm(D, y, j)(i)
  {
    var a, b, c := At(y, i), Coefficient(D, i, j), At(x, j);
    assert RowTerm(D, x, i)(j) == b * c;
    assert ColTerm(D, y, j)(i) == b * a;
    Rearrange(a, b, c);
  }

  /** Column j of the double sum is x[j] times column j of the dense product of K^T with y. */
  lemma BilinearColumn(n: nat, D: seq<Diagonal>, x: seq<real>, y: seq<real>, j: nat)
    ensures Outer(n, Bilinear(D, x, y))(j) == At(x, j) * Sum(n, ColTerm(D, y, j))
  {
    forall i: nat | i < n
      ensures Col(Bilinear(D, x, y), j)(i) == At(x, j) * ColTerm(D, y, j)(i)
    {
      BilinearEntry(D, x, y, i, j);
    }
    SumScale(n, At(x, j), ColTerm(D, y, j), Col(Bilinear(D, x, y), j));
  }

  /** <K^T y, x> as the same double sum, column by column. */
  lemma AdjointBilinear(n: nat, m: nat, D: seq<Diagonal>, x: seq<real>, y: seq<real>)
    requires |x| == m && |y| == n
    ensures Dot(Adjoint(m, D, y), x) == Sum(m, Outer(n, Bilinear(D, x, y)))
  {
    var Ky := Adjoint(m, D, y);
    forall j: nat | j < m
      ensures Outer(n, Bilinear(D, x, y))(j) == Ky[j] * x[j]
    {
      BilinearColumn(n, D, x, y, j);
      AdjointIsDense(D, y, j);
    }
    DotAsSum(Ky, x, Outer(n, Bilinear(D, x, y)));
  }

  /** The adjoint evaluation is the transpose of the forward one: <y, K x> == <K^T y, x>. */
  lemma AdjointIsTranspose(n: nat, m: nat, D: seq<Diagonal>, x: seq<real>, y: seq<real>)
    requires |x| == m && |y| == n
    ensures Dot(y, Forward(n, D, x)) == Dot(Adjoint(m, D, y), x)
  {
    ForwardBilinear(n, m, D, x, y);
    AdjointBilinear(n, m, D, x, y);
    SumSwap(n, m, Bilinear(D, x, y));
  }

  /** The diagonals of the speye operator: one diagonal at offset 0 with factor 1. */
  function Identity(): seq<Diagonal>
  {
    [Diagonal(0, 1.0)]
  }

  /** The speye operator of a square block adds x itself, forward and adjoint. */
  lemma IdentityOperator(x: seq<real>)
    ensures Forward(|x|, Identity(), x) == x
    ensures Adjoint(|x|, Identity(), x) == x
  {
    forall i | 0 <= i < |x|
      ensures Forward(|x|, Identity(), x)[i] == x[i] && Adjoint(|x|, Identity(), x)[i] == x[i]
    {
      assert Sum(1, ForwardTerm(Identity(), x, i)) == Sum(0, ForwardTerm(Identity(), x, i)) + 1.0 * x[i];
      assert Sum(1, AdjointTerm(Identity(), x, i)) == Sum(0, AdjointTerm(Identity(), x, i)) + 1.0 * x[i];
    }
  }

  // ---------------------------------------------------------------------------------------
  // Row and column sums

  /** Diagonal d's contribution to the sum of magnitudes of row r of a block of the given width. */
  function RowMagnitude(D: seq<Diagonal>, width: nat, r: int): nat -> real
  {
    (d: nat) => if d < |D| && 0 <= r + D[d].offset < width then Abs(D[d].factor) else 0.0
  }

  /** Diagonal d's contribution to the sum of magnitudes of column c of a block of the given height. */
  function ColMagnitude(D: seq<Diagonal>, height: nat, c: int): nat -> real
  {
    (d: nat) => if d < |D| && 0 <= c - D[d].offset < height then Abs(D[d].factor) else 0.0
  }

  /** The same diagonals with the magnitudes of the factors. */
  function Magnitudes(D: seq<Diagonal>): (M: seq<Diagonal>)
    ensures |M| == |D|
  {
    seq(|D|, (d: int) requires 0 <= d < |D| => Diagonal(D[d].offset, Abs(D[d].factor)))
  }

  function Ones(n: nat): (v: seq<real>)
    ensures |v| == n
  {
    seq(n, k => 1.0)
  }

  /** Summing the magnitudes over row r is applying the operator with magnitudes to all ones. */
  lemma RowSumIsProduct(D: seq<Diagonal>, n: nat, width: nat, r: nat)
    requires r < n
    ensures Sum(|D|, RowMagnitude(D, width, r)) == Forward(n, Magnitudes(D), Ones(width))[r]
  {
    var M, u := Magnitudes(D), Ones(width);
    forall d: nat | d < |D|
      ensures RowMagnitude(D, width, r)(d) == ForwardTerm(M, u, r)(d)
    {
      assert M[d].offset == D[d].offset && M[d].factor == Abs(D[d].factor);
      if 0 <= r + D[d].offset < width {
        assert u[r + D[d].offset] == 1.0;
      }
    }
    SumExt(|D|, RowMagnitude(D, width, r), ForwardTerm(M, u, r));
  }

  /** Summing the magnitudes over column c is applying the adjoint with magnitudes to all ones. */
  lemma ColSumIsProduct(D: seq<Diagonal>, m: nat, height: nat, c: nat)
    requires c < m
    ensures Sum(|D|, ColMagnitude(D, height, c)) == Adjoint(m, Magnitudes(D), Ones(height))[c]
  {
    var M, u := Magnitudes(D), Ones(height);
    forall d: nat | d < |D|
      ensures ColMagnitude(D, height, c)(d) == AdjointTerm(M, u, c)(d)
    {
      assert M[d].offset == D[d].offset && M[d].factor == Abs(D[d].factor);
      if 0 <= c - D[d].offset < height {
        assert u[c - D[d].offset] == 1.0;
      }
    }
    SumExt(|D|, ColMagnitude(D, height, c), AdjointTerm(M, u, c));
  }

  // ---------------------------------------------------------------------------------------
  // The constant-memory pool

  /** The total of a sequence of counts. */
  function Total(s: seq<nat>): nat
  {
    if |s| == 0 then 0 else Total(s[..|s| - 1]) + s[|s| - 1]
  }

  lemma TotalStep(s: seq<nat>, k: nat)
    requires k < |s|
    ensures Total(s[..k + 1]) == Total(s[..k]) + s[k]
  {
    assert s[..k + 1][..k] == s[..k];
  }

  lemma {:induction false} TotalGrows(s: seq<nat>, a: nat, b: nat)
    requires a <= b <= |s|
    ensures Total(s[..a]) <= Total(s[..b])
    decreases b - a
  {
    if a < b {
      TotalStep(s, a);
      TotalGrows(s, a + 1, b);
    }
  }

  lemma TotalBelow(s: seq<nat>, k: nat)
    requires k < |s|
    ensures Total(s[..k]) + s[k] <= Total(s)
  {
    TotalStep(s, k);
    TotalGrows(s, k + 1, |s|);
    assert s[..|s|] == s;
  }

  /**
   * Blocks that claimed `claims[0]`, `claims[1]`, ... slots since the last reset start at
   * 0, claims[0], claims[0] + claims[1], ...: the k-th block's slots
   * [Total(claims[..k]), Total(claims[..k]) + claims[k]) lie below the counter and do not
   * overlap those of any later block.
   */
  lemma ClaimsDisjoint(claims: seq<nat>, a: nat, b: nat)
    requires a < b < |claims|
    ensures Total(claims[..a]) + claims[a] <= Total(claims[..b])
    ensures Total(claims[..b]) + claims[b] <= Total(claims)
  {
    TotalStep(claims, a);
    TotalGrows(claims, a + 1, b);
    TotalBelow(claims, b);
  }

  /** The diagonals D are stored in slots base, base + 1, ... of the pool. */
  predicate Holds(slots: map<nat, Diagonal>, base: nat, D: seq<Diagonal>)
  {
    forall k :: base <= k < base + |D| ==> k in slots && slots[k] == D[k - base]
  }

  /** s1 agrees with s0 outside the slots [base, base + n). */
  ghost predicate SameOutside(s0: map<nat, Diagonal>, s1: map<nat, Diagonal>, base: nat, n: nat)
  {
    forall k :: k in s0 || k in s1 ==>
      base <= k < base + n || (k in s0 && k in s1 && s1[k] == s0[k])
  }

  /** Writing one block's slots keeps every block with disjoint slots loaded. */
  lemma HoldsKept(s0: map<nat, Diagonal>, s1: map<nat, Diagonal>, base: nat, D: seq<Diagonal>,
                  base2: nat, n2: nat)
    requires Holds(s0, base, D) && SameOutside(s0, s1, base2, n2)
    requires base + |D| <= base2 || base2 + n2 <= base
    ensures Holds(s1, base, D)
  {
    forall k | base <= k < base + |D|
      ensures k in s1 && s1[k] == D[k - base]
    {
      assert k in s0;
    }
  }

  /** The shared pool of diagonals, and the counter of slots claimed since the last reset. */
  class ConstMem {
    var counter: nat
    /** The diagonal counts of the blocks built since the last reset, in order. */
    ghost var claims: seq<nat>
    var slots: map<nat, Diagonal>

    ghost predicate Valid()
      reads this`counter, this`claims
    {
      counter == Total(claims)
    }

    constructor ()
      ensures counter == 0 && claims == [] && slots == map[] && Valid()
    {
      counter := 0;
      claims := [];
      slots := map[];
    }
  }

  class BlockDiags {
    const row: nat
    const col: nat
    const nrows: nat
    const ncols: nat
    const ndiags: nat
    const offsets: seq<int>
    const factors: seq<real>
    /** The first pool slot of this block. */
    const cmemOffset: nat
    /** The pool the diagonals are copied to. */
    const mem: ConstMem

    /** One offset and one factor per diagonal. */
    predicate Valid()
    {
      |offsets| == ndiags && |factors| == ndiags
    }

    function Diagonals(): (D: seq<Diagonal>)
      requires Valid()
      ensures |D| == ndiags
    {
      seq(ndiags, (d: int) requires 0 <= d < ndiags => Diagonal(offsets[d], factors[d]))
    }

    /** The diagonals are in the block's slots of the pool. */
    ghost predicate Loaded()
      reads mem`slots
    {
      Valid() && Holds(mem.slots, cmemOffset, Diagonals())
    }

    /** Builds the block and claims the next ndiags slots of the pool. */
    constructor (row: nat, col: nat, nrows: nat, ncols: nat, ndiags: nat,
                 offsets: seq<int>, factors: seq<real>, mem: ConstMem)
      requires |offsets| == ndiags && |factors| == ndiags && mem.Valid()
      modifies mem`counter, mem`claims
      ensures this.row == row && this.col == col && this.nrows == nrows && this.ncols == ncols
      ensures this.ndiags == ndiags && this.offsets == offsets && this.factors == factors
      ensures this.mem == mem && Valid()
      ensures cmemOffset == old(mem.counter) == Total(old(mem.claims))
      ensures mem.counter == old(mem.counter) + ndiags
      ensures mem.claims == old(mem.claims) + [ndiags] && mem.Valid()
    {
      this.row := row;
      this.col := col;
      this.nrows := nrows;
      this.ncols := ncols;
      this.ndiags := ndiags;
      this.offsets := offsets;
      this.factors := factors;
      this.cmemOffset := mem.counter;
      this.mem := mem;
      new;
      mem.counter := mem.counter + ndiags;
      mem.claims := mem.claims + [ndiags];
      assert mem.claims[..|mem.claims| - 1] == old(mem.claims);
    }

    /** Starts a new problem: the next block claims slots from 0 again. */
    static method ResetConstMem(mem: ConstMem)
      modifies mem`counter, mem`claims
      ensures mem.counter == 0 && mem.claims == [] && mem.Valid()
    {
      mem.counter := 0;
      mem.claims := [];
    }

    /** Copies the diagonals into the block's slots; every other slot keeps its contents. */
    method Initialize()
      requires Valid()
      modifies mem`slots
      ensures Loaded() && SameOutside(old(mem.slots), mem.slots, cmemOffset, ndiags)
    {
      ghost var s0 := mem.slots;
      ghost var D := Diagonals();
      var d := 0;
      while d < ndiags
        invariant 0 <= d <= ndiags
        invariant Holds(mem.slots, cmemOffset, D[..d])
        invariant SameOutside(s0, mem.slots, cmemOffset, d)
      {
        mem.slots := mem.slots[cmemOffset + d := Diagonal(offsets[d], factors[d])];
        assert D[..d + 1] == D[..d] + [D[d]];
        d := d + 1;
      }
      assert D[..d] == D;
    }

    /** Uses no device memory of its own: the diagonals live in the shared pool. */
    function GpuMemAmount(): (bytes: nat)
      ensures bytes == 0
    {
      0
    }

    /** Sum of the magnitudes of row r (alpha = 1): |factor_d| over the diagonals with a
        column in row r. */
    function RowSum(r: nat): (s: real)
      requires Valid()
      ensures 0.0 <= s
      ensures r < nrows ==> s == Forward(nrows, Magnitudes(Diagonals()), Ones(ncols))[r]
    {
      SumNonNegative(ndiags, RowMagnitude(Diagonals(), ncols, r));
      if r < nrows then RowSumIsProduct(Diagonals(), nrows, ncols, r); Sum(ndiags, RowMagnitude(Diagonals(), ncols, r))
      else Sum(ndiags, RowMagnitude(Diagonals(), ncols, r))
    }

    /** Sum of the magnitudes of column c (alpha = 1): |factor_d| over the diagonals with a
        row in column c. */
    function ColSum(c: nat): (s: real)
      requires Valid()
      ensures 0.0 <= s
      ensures c < ncols ==> s == Adjoint(ncols, Magnitudes(Diagonals()), Ones(nrows))[c]
    {
      SumNonNegative(ndiags, ColMagnitude(Diagonals(), nrows, c));
      if c < ncols then ColSumIsProduct(Diagonals(), ncols, nrows, c); Sum(ndiags, ColMagnitude(Diagonals(), nrows, c))
      else Sum(ndiags, ColMagnitude(Diagonals(), nrows, c))
    }

    /** Row i of K x, reading the diagonals from the pool. */
    method ForwardRow(i: nat, rhs: array<real>, rhsBegin: nat) returns (s: real)
      requires Loaded() && rhsBegin + ncols <= rhs.Length
      ensures s == Sum(ndiags, ForwardTerm(Diagonals(), rhs[rhsBegin..rhsBegin + ncols], i))
    {
      ghost var x := rhs[rhsBegin..rhsBegin + ncols];
      ghost var D := Diagonals();
      s := 0.0;
      var d := 0;
      while d < ndiags
        invariant 0 <= d <= ndiags
        invariant s == Sum(d, ForwardTerm(D, x, i))
      {
        var diag := mem.slots[cmemOffset + d];
        var c := i + diag.offset;
        if 0 <= c < ncols {
          s := s + diag.factor * rhs[rhsBegin + c];
        }
        d := d + 1;
      }
    }

    /** Entry j of K^T y, reading the diagonals from the pool. */
    method AdjointRow(j: nat, rhs: array<real>, rhsBegin: nat) returns (s: real)
      requires Loaded() && rhsBegin + nrows <= rhs.Length
      ensures s == Sum(ndiags, AdjointTerm(Diagonals(), rhs[rhsBegin..rhsBegin + nrows], j))
    {
      ghost var y := rhs[rhsBegin..rhsBegin + nrows];
      ghost var D := Diagonals();
      s := 0.0;
      var d := 0;
      while d < ndiags
        invariant 0 <= d <= ndiags
        invariant s == Sum(d, AdjointTerm(D, y, j))
      {
        var diag := mem.slots[cmemOffset + d];
        var r := j - diag.offset;
        if 0 <= r < nrows {
          s := s + diag.factor * rhs[rhsBegin + r];
        }
        d := d + 1;
      }
    }

    /** Adds K x, x := rhs[rhsBegin..rhsEnd), into res[resBegin..resEnd); nothing else in
        res changes. */
    method EvalLocalAdd(res: array<real>, resBegin: nat, resEnd: nat, rhs: array<real>, rhsBegin: nat, rhsEnd: nat)
      requires Loaded()
      requires resBegin + nrows == resEnd <= res.Length && rhsBegin + ncols == rhsEnd <= rhs.Length && res != rhs
      modifies res
      ensures forall i :: resBegin <= i < resEnd ==>
        res[i] == old(res[i]) + Forward(nrows, Diagonals(), rhs[rhsBegin..rhsEnd])[i - resBegin]
      ensures forall i :: 0 <= i < res.Length && !(resBegin <= i < resEnd) ==> res[i] == old(res[i])
    {
      ghost var y := Forward(nrows, Diagonals(), rhs[rhsBegin..rhsEnd]);
      ghost var r0 := res[..];
      var i := 0;
      while i < nrows
        invariant 0 <= i <= nrows
        invariant res[..] == AddedPrefix(r0, resBegin, y, i)
      {
        var s := ForwardRow(i, rhs, rhsBegin);
        ghost var cur := res[..];
        res[resBegin + i] := res[resBegin + i] + s;
        assert res[..] == cur[resBegin + i := cur[resBegin + i] + y[i]];
        AddedStep(r0, resBegin, y, i, cur);
        i := i + 1;
      }
    }

    /** Adds K^T y, y := rhs[rhsBegin..rhsEnd), into res[resBegin..resEnd); nothing else in
        res changes. */
    method EvalAdjointLocalAdd(res: array<real>, resBegin: nat, resEnd: nat, rhs: array<real>, rhsBegin: nat, rhsEnd: nat)
      requires Loaded()
      requires resBegin + ncols == resEnd <= res.Length && rhsBegin + nrows == rhsEnd <= rhs.Length && res != rhs
      modifies res
      ensures forall j :: resBegin <= j < resEnd ==>
        res[j] == old(res[j]) + Adjoint(ncols, Diagonals(), rhs[rhsBegin..rhsEnd])[j - resBegin]
      ensures forall j :: 0 <= j < res.Length && !(resBegin <= j < resEnd) ==> res[j] == old(res[j])
    {
      ghost var x := Adjoint(ncols, Diagonals(), rhs[rhsBegin..rhsEnd]);
      ghost var r0 := res[..];
      var j := 0;
      while j < ncols
        invariant 0 <= j <= ncols
        invariant res[..] == AddedPrefix(r0, resBegin, x, j)
      {
        var s := AdjointRow(j, rhs, rhsBegin);
        ghost var cur := res[..];
        res[resBegin + j] := res[resBegin + j] + s;
        assert res[..] == cur[resBegin + j := cur[resBegin + j] + x[j]];
        AddedStep(r0, resBegin, x, j, cur);
        j := j + 1;
      }
    }
  }

  /** A square speye block adds its input, forward and adjoint, and every row and column
      has magnitude sum 1. */
  lemma SpeyeBlock(b: BlockDiags, x: seq<real>)
    requires b.Valid() && b.offsets == [0] && b.factors == [1.0] && b.nrows == b.ncols == |x|
    ensures Forward(b.nrows, b.Diagonals(), x) == x && Adjoint(b.ncols, b.Diagonals(), x) == x
    ensures forall r :: 0 <= r < b.nrows ==> b.RowSum(r) == 1.0 && b.ColSum(r) == 1.0
  {
    assert b.Diagonals() == Identity();
    IdentityOperator(x);
    forall r | 0 <= r < b.nrows
      ensures b.RowSum(r) == 1.0 && b.ColSum(r) == 1.0
    {
      assert Sum(1, RowMagnitude(Identity(), b.ncols, r)) == Sum(0, RowMagnitude(Identity(), b.ncols, r)) + 1.0;
      assert Sum(1, ColMagnitude(Identity(), b.nrows, r)) == Sum(0, ColMagnitude(Identity(), b.nrows, r)) + 1.0;
    }
  }

  /** A 2 x 2 speye block maps (1, 2) to (1, 2) and has row and column sums 1. */
  lemma SmallIdentity(b: BlockDiags)
    requires b.Valid() && b.offsets == [0] && b.factors == [1.0] && b.nrows == b.ncols == 2
    ensures Forward(2, b.Diagonals(), [1.0, 2.0]) == [1.0, 2.0]
    ensures b.RowSum(0) == b.RowSum(1) == b.ColSum(0) == b.ColSum(1) == 1.0
  {
    SpeyeBlock(b, [1.0, 2.0]);
  }
}
