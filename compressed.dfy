/**
 * The compressed sparse format and the specification of converting it to the other
 * orientation. A compressed matrix has a pointer array over its "major" dimension and an
 * index array over its "minor" one: for CSR the major dimension is the row and the index
 * array holds column indices; for CSC it is the other way round. The CSC arrays of an
 * m x n matrix are exactly the CSR arrays of its n x m transpose, so one conversion
 * (`csr2csc`) serves both directions.
 */
module Compressed {
  import opened Sums

  /** One stored nonzero: the segment that holds it (`major`), the value of the index array
      at its position (`minor`) and its value. */
  datatype Entry = Entry(major: int, minor: int, val: real)

  datatype Axis = Major | Minor

  function Key(e: Entry, axis: Axis): int
  {
    match axis
    case Major => e.major
    case Minor => e.minor
  }

  /** Pointer array of n segments holding nz entries: n + 1 entries, starting at 0,
      never decreasing and ending at nz. */
  predicate ValidPointers(ptr: seq<int>, n: nat, nz: nat)
  {
    && |ptr| == n + 1
    && ptr[0] == 0
    && ptr[n] == nz
    && forall i, j :: 0 <= i <= j <= n ==> ptr[i] <= ptr[j]
  }

  predicate IndicesBelow(ind: seq<int>, m: nat)
  {
    forall k :: 0 <= k < |ind| ==> 0 <= ind[k] < m
  }

  /** An n x m matrix compressed along its n-dimension with nz stored entries. */
  predicate WellFormed(n: nat, m: nat, nz: nat, ptr: seq<int>, ind: seq<int>)
  {
    ValidPointers(ptr, n, nz) && |ind| == nz && IndicesBelow(ind, m)
  }

  /** The segment [ptr[i], ptr[i + 1]) that holds position k, searched upwards from `from`. */
  function SegmentOf(ptr: seq<int>, k: int, from: nat): nat
    requires from < |ptr|
    decreases |ptr| - from
  {
    if from + 1 >= |ptr| || k < ptr[from + 1] then from else SegmentOf(ptr, k, from + 1)
  }

  /** The stored entries in storage order. */
  function Entries(ptr: seq<int>, ind: seq<int>, val: seq<real>): (E: seq<Entry>)
    requires |ptr| > 0 && |val| == |ind|
    ensures |E| == |ind|
  {
    seq(|ind|, k requires 0 <= k < |ind| => Entry(SegmentOf(ptr, k, 0), ind[k], val[k]))
  }

  /** The entries of E whose key on `axis` is v, in their order in E. */
  function Filter(E: seq<Entry>, axis: Axis, v: int): (F: seq<Entry>)
  {
    if |E| == 0 then []
    else Filter(E[..|E| - 1], axis, v) + (if Key(E[|E| - 1], axis) == v then [E[|E| - 1]] else [])
  }

  /** Counting-sort order on `axis`: first the entries with key 0, then key 1, ..., then
      key N - 1, each group keeping the order of E. */
  function Group(E: seq<Entry>, axis: Axis, N: nat): seq<Entry>
  {
    if N == 0 then [] else Group(E, axis, N - 1) + Filter(E, axis, N - 1)
  }

  /** Where the group of each key starts in Group(E, axis, N), plus the total at the end. */
  function Starts(E: seq<Entry>, axis: Axis, N: nat): seq<int>
  {
    seq(N + 1, c requires 0 <= c <= N => |Group(E, axis, c)|)
  }

  /** The entries of S seen through proj. */
  function Project<T>(S: seq<Entry>, proj: Entry -> T): (r: seq<T>)
    ensures |r| == |S|
  {
    seq(|S|, i requires 0 <= i < |S| => proj(S[i]))
  }

  function MajorOf(e: Entry): int
  {
    e.major
  }

  function ValOf(e: Entry): real
  {
    e.val
  }

  /** The major indices of S. */
  function Majors(S: seq<Entry>): (r: seq<int>)
    ensures |r| == |S| && forall p :: 0 <= p < |S| ==> r[p] == S[p].major
  {
    Project(S, MajorOf)
  }

  /** The values of S. */
  function Vals(S: seq<Entry>): (r: seq<real>)
    ensures |r| == |S| && forall p :: 0 <= p < |S| ==> r[p] == S[p].val
  {
    Project(S, ValOf)
  }

  // ---------------------------------------------------------------------------------------
  // Segments of the pointer array

  lemma {:induction false} SegmentOfIs(ptr: seq<int>, n: nat, nz: nat, k: int, from: nat, i: nat)
    requires ValidPointers(ptr, n, nz)
    requires from <= i < n && ptr[i] <= k < ptr[i + 1]
    ensures SegmentOf(ptr, k, from) == i
    decreases i - from
  {
    if from < i {
      assert ptr[from + 1] <= ptr[i];
      SegmentOfIs(ptr, n, nz, k, from + 1, i);
    }
  }

  /** Every stored position lies in the segment SegmentOf finds for it. */
  lemma {:induction false} SegmentOfFound(ptr: seq<int>, n: nat, nz: nat, k: int, from: nat)
    requires ValidPointers(ptr, n, nz)
    requires from <= n && ptr[from] <= k < nz
    ensures var i := SegmentOf(ptr, k, from); from <= i < n && ptr[i] <= k < ptr[i + 1]
    decreases n - from
  {
    if from + 1 <= n && ptr[from + 1] <= k {
      SegmentOfFound(ptr, n, nz, k, from + 1);
    }
  }

  /** The entries of a well-formed matrix have majors below n, indices below m and are
      ordered by major. */
  lemma EntriesShape(n: nat, m: nat, nz: nat, ptr: seq<int>, ind: seq<int>, val: seq<real>)
    requires WellFormed(n, m, nz, ptr, ind) && |val| == nz
    ensures InRange(Entries(ptr, ind, val), n, m)
    ensures SortedBy(Entries(ptr, ind, val), Major)
  {
    var E := Entries(ptr, ind, val);
    forall k | 0 <= k < nz
      ensures 0 <= E[k].major < n && ptr[E[k].major] <= k < ptr[E[k].major + 1]
    {
      SegmentOfFound(ptr, n, nz, k, 0);
    }
  }

  // ---------------------------------------------------------------------------------------
  // Filter

  predicate InRange(E: seq<Entry>, n: nat, m: nat)
  {
    forall e :: e in E ==> 0 <= e.major < n && 0 <= e.minor < m
  }

  predicate KeysBelow(E: seq<Entry>, axis: Axis, N: nat)
  {
    forall e :: e in E ==> 0 <= Key(e, axis) < N
  }

  /** Filter keeps exactly the entries of E with key v. */
  lemma {:induction false} FilterMembers(E: seq<Entry>, axis: Axis, v: int)
    ensures forall e :: e in Filter(E, axis, v) <==> e in E && Key(e, axis) == v
    decreases |E|
  {
    if |E| > 0 {
      var E' := E[..|E| - 1];
      assert E == E' + [E[|E| - 1]];
      FilterMembers(E', axis, v);
    }
  }

  lemma {:induction false} GroupMembers(E: seq<Entry>, axis: Axis, N: nat)
    ensures forall e :: e in Group(E, axis, N) <==> e in E && 0 <= Key(e, axis) < N
  {
    if N > 0 {
      GroupMembers(E, axis, N - 1);
      FilterMembers(E, axis, N - 1);
    }
  }

  lemma FilterSnoc(E: seq<Entry>, e: Entry, axis: Axis, v: int)
    ensures Filter(E + [e], axis, v) == Filter(E, axis, v) + (if Key(e, axis) == v then [e] else [])
  {
    assert (E + [e])[..|E|] == E;
  }

  lemma {:induction false} FilterAppend(A: seq<Entry>, B: seq<Entry>, axis: Axis, v: int)
    ensures Filter(A + B, axis, v) == Filter(A, axis, v) + Filter(B, axis, v)
    decreases |B|
  {
    if |B| == 0 {
      assert A + B == A;
    } else {
      var B' := B[..|B| - 1];
      assert A + B == (A + B') + [B[|B| - 1]];
      assert B == B' + [B[|B| - 1]];
      FilterSnoc(A + B', B[|B| - 1], axis, v);
      FilterSnoc(B', B[|B| - 1], axis, v);
      FilterAppend(A, B', axis, v);
    }
  }

  lemma FilterEmpty(E: seq<Entry>, axis: Axis, v: int)
    requires forall e :: e in E ==> Key(e, axis) != v
    ensures Filter(E, axis, v) == []
  {
    var F := Filter(E, axis, v);
    FilterMembers(E, axis, v);
  }

  lemma {:induction false} FilterNone(E: seq<Entry>, axis: Axis, v: int)
    requires forall k :: 0 <= k < |E| ==> Key(E[k], axis) != v
    ensures Filter(E, axis, v) == []
    decreases |E|
  {
    if |E| > 0 {
      FilterNone(E[..|E| - 1], axis, v);
    }
  }

  /** Filtering on two keys gives the same result in either order. */
  lemma {:induction false} FilterCommute(E: seq<Entry>, a: Axis, v: int, b: Axis, w: int)
    ensures Filter(Filter(E, a, v), b, w) == Filter(Filter(E, b, w), a, v)
    decreases |E|
  {
    if |E| > 0 {
      var E' := E[..|E| - 1];
      var e := E[|E| - 1];
      FilterCommute(E', a, v, b, w);
      var Fa, Fb := Filter(E', a, v), Filter(E', b, w);
      if Key(e, a) == v {
        assert Filter(E, a, v) == Fa + [e];
        FilterSnoc(Fa, e, b, w);
      } else {
        assert Filter(E, a, v) == Fa;
      }
      if Key(e, b) == w {
        assert Filter(E, b, w) == Fb + [e];
        FilterSnoc(Fb, e, a, v);
      } else {
        assert Filter(E, b, w) == Fb;
      }
    }
  }

  /** Filtering the entries of a prefix keeps a prefix of the filtered entries. */
  lemma FilterPrefix(E: seq<Entry>, j: nat, axis: Axis, v: int)
    requires j <= |E|
    ensures |Filter(E[..j], axis, v)| <= |Filter(E, axis, v)|
    ensures Filter(E, axis, v)[..|Filter(E[..j], axis, v)|] == Filter(E[..j], axis, v)
  {
    assert E == E[..j] + E[j..];
    FilterAppend(E[..j], E[j..], axis, v);
  }

  lemma {:induction false} FilterAll(E: seq<Entry>, axis: Axis, v: int)
    requires forall k :: 0 <= k < |E| ==> Key(E[k], axis) == v
    ensures Filter(E, axis, v) == E
    decreases |E|
  {
    if |E| > 0 {
      FilterAll(E[..|E| - 1], axis, v);
      assert E == E[..|E| - 1] + [E[|E| - 1]];
    }
  }

  /** The entries of a key that occupy one contiguous run are that run. */
  lemma FilterRun(E: seq<Entry>, axis: Axis, v: int, lo: nat, hi: nat)
    requires lo <= hi <= |E|
    requires forall k :: 0 <= k < |E| ==> (Key(E[k], axis) == v <==> lo <= k < hi)
    ensures Filter(E, axis, v) == E[lo..hi]
  {
    var A, B, C := E[..lo], E[lo..hi], E[hi..];
    assert E == A + B + C;
    FilterAppend(A + B, C, axis, v);
    FilterAppend(A, B, axis, v);
    FilterNone(A, axis, v);
    FilterNone(C, axis, v);
    FilterAll(B, axis, v);
  }

  // ---------------------------------------------------------------------------------------
  // Group: the counting-sort order

  /** Group(E, axis, c) is a prefix of Group(E, axis, N), and what follows it has keys >= c. */
  lemma {:induction false} GroupPrefix(E: seq<Entry>, axis: Axis, c: nat, N: nat)
    requires c <= N
    ensures |Group(E, axis, c)| <= |Group(E, axis, N)|
    ensures Group(E, axis, N)[..|Group(E, axis, c)|] == Group(E, axis, c)
    ensures forall p :: |Group(E, axis, c)| <= p < |Group(E, axis, N)| ==>
              Key(Group(E, axis, N)[p], axis) >= c
    decreases N
  {
    if c < N {
      GroupPrefix(E, axis, c, N - 1);
      var G := Group(E, axis, N);
      var G' := Group(E, axis, N - 1);
      assert G == G' + Filter(E, axis, N - 1);
      FilterMembers(E, axis, N - 1);
      forall p | |G'| <= p < |G|
        ensures Key(G[p], axis) >= c
      {
        assert G[p] in Filter(E, axis, N - 1);
      }
    }
  }

  /** Segment c of Group(E, axis, N) is the filter of E on key c. */
  lemma GroupSegment(E: seq<Entry>, axis: Axis, c: nat, N: nat)
    requires c < N
    ensures |Group(E, axis, c)| <= |Group(E, axis, c + 1)| <= |Group(E, axis, N)|
    ensures Group(E, axis, N)[|Group(E, axis, c)|..|Group(E, axis, c + 1)|] == Filter(E, axis, c)
  {
    GroupPrefix(E, axis, c + 1, N);
  }

  lemma {:induction false} GroupOfNothing(axis: Axis, N: nat)
    ensures Group([], axis, N) == []
  {
    if N > 0 {
      GroupOfNothing(axis, N - 1);
    }
  }

  /** e as a multiset when its key is below N, and nothing otherwise. */
  ghost function KeptBelow(e: Entry, axis: Axis, N: nat): multiset<Entry>
  {
    if 0 <= Key(e, axis) < N then multiset{e} else multiset{}
  }

  lemma {:induction false} GroupSnocMultiset(E: seq<Entry>, e: Entry, axis: Axis, N: nat)
    ensures multiset(Group(E + [e], axis, N)) == multiset(Group(E, axis, N)) + KeptBelow(e, axis, N)
  {
    if N > 0 {
      var M: nat := N - 1;
      GroupSnocMultiset(E, e, axis, M);
      GroupSnocMultisetStep(E, e, axis, M);
    }
  }

  lemma GroupSnocMultisetStep(E: seq<Entry>, e: Entry, axis: Axis, M: nat)
    requires multiset(Group(E + [e], axis, M)) == multiset(Group(E, axis, M)) + KeptBelow(e, axis, M)
    ensures multiset(Group(E + [e], axis, M + 1)) == multiset(Group(E, axis, M + 1)) + KeptBelow(e, axis, M + 1)
  {
    var F, F2 := Filter(E, axis, M), Filter(E + [e], axis, M);
    var last := if Key(e, axis) == M then multiset{e} else multiset{};
    FilterSnocMultiset(E, e, axis, M);
    KeptBelowStep(e, axis, M);
    MultisetConcat(Group(E, axis, M), F, Group(E + [e], axis, M), F2, KeptBelow(e, axis, M), last);
    assert Group(E, axis, M + 1) == Group(E, axis, M) + F;
    assert Group(E + [e], axis, M + 1) == Group(E + [e], axis, M) + F2;
  }

  lemma KeptBelowStep(e: Entry, axis: Axis, M: nat)
    ensures KeptBelow(e, axis, M + 1) == KeptBelow(e, axis, M) + (if Key(e, axis) == M then multiset{e} else multiset{})
  {
  }

  lemma FilterSnocMultiset(E: seq<Entry>, e: Entry, axis: Axis, v: int)
    ensures multiset(Filter(E + [e], axis, v)) ==
            multiset(Filter(E, axis, v)) + (if Key(e, axis) == v then multiset{e} else multiset{})
  {
    FilterSnoc(E, e, axis, v);
  }

  lemma MultisetConcat(A: seq<Entry>, B: seq<Entry>, A2: seq<Entry>, B2: seq<Entry>,
                       extraA: multiset<Entry>, extraB: multiset<Entry>)
    requires multiset(A2) == multiset(A) + extraA && multiset(B2) == multiset(B) + extraB
    ensures multiset(A2 + B2) == multiset(A + B) + (extraA + extraB)
  {
  }

  /** The counting-sort order is a permutation of the entries: none lost, none duplicated. */
  lemma {:induction false} GroupIsPermutation(E: seq<Entry>, axis: Axis, N: nat)
    requires KeysBelow(E, axis, N)
    ensures multiset(Group(E, axis, N)) == multiset(E)
    ensures |Group(E, axis, N)| == |E|
    decreases |E|
  {
    if |E| > 0 {
      var E' := E[..|E| - 1];
      assert E == E' + [E[|E| - 1]];
      assert KeysBelow(E', axis, N);
      GroupIsPermutation(E', axis, N);
      GroupSnocMultiset(E', E[|E| - 1], axis, N);
    } else {
      GroupOfNothing(axis, N);
    }
    assert |multiset(Group(E, axis, N))| == |Group(E, axis, N)|;
    assert |multiset(E)| == |E|;
  }

  /** Starts(E, axis, N) is a valid pointer array for the N groups. */
  lemma StartsValid(E: seq<Entry>, axis: Axis, N: nat)
    requires KeysBelow(E, axis, N)
    ensures ValidPointers(Starts(E, axis, N), N, |E|)
  {
    GroupIsPermutation(E, axis, N);
    forall i, j | 0 <= i <= j <= N
      ensures |Group(E, axis, i)| <= |Group(E, axis, j)|
    {
      GroupPrefix(E, axis, i, j);
    }
  }

  /** The segment of Starts(E, axis, N) that holds position p. */
  lemma GroupFind(E: seq<Entry>, axis: Axis, N: nat, p: nat)
    requires KeysBelow(E, axis, N) && p < |E|
    ensures |Group(E, axis, N)| == |E|
    ensures var c := SegmentOf(Starts(E, axis, N), p, 0);
      c < N && |Group(E, axis, c)| <= p < |Group(E, axis, c)| + |Filter(E, axis, c)|
  {
    var P := Starts(E, axis, N);
    StartsValid(E, axis, N);
    SegmentOfFound(P, N, |E|, p, 0);
    var c := SegmentOf(P, p, 0);
    assert P[c] == |Group(E, axis, c)| && P[c + 1] == |Group(E, axis, c + 1)|;
  }

  /** Position p within the segment of key c of the counting-sort order holds the entry of
      rank p - |Group(E, axis, c)| among the entries with key c. */
  lemma GroupAt(E: seq<Entry>, axis: Axis, N: nat, c: nat, p: nat)
    requires c < N && |Group(E, axis, c)| <= p < |Group(E, axis, c)| + |Filter(E, axis, c)|
    ensures p < |Group(E, axis, N)|
    ensures Group(E, axis, N)[p] == Filter(E, axis, c)[p - |Group(E, axis, c)|]
  {
    var G, H, L, F := Group(E, axis, N), Group(E, axis, c + 1), Group(E, axis, c), Filter(E, axis, c);
    assert H == L + F;
    GroupPrefix(E, axis, c + 1, N);
    assert G[p] == G[..|H|][p];
    assert (L + F)[p] == F[p - |L|];
  }

  /** In the counting-sort order, the segment of Starts that holds position p is the key of
      the entry there. */
  lemma GroupKeyAt(E: seq<Entry>, axis: Axis, N: nat, p: nat)
    requires KeysBelow(E, axis, N) && p < |E|
    ensures |Group(E, axis, N)| == |E|
    ensures Key(Group(E, axis, N)[p], axis) == SegmentOf(Starts(E, axis, N), p, 0)
  {
    GroupFind(E, axis, N, p);
    var c := SegmentOf(Starts(E, axis, N), p, 0);
    GroupAt(E, axis, N, c, p);
    var F := Filter(E, axis, c);
    assert Group(E, axis, N)[p] in F;
    FilterMembers(E, axis, c);
  }

  // ---------------------------------------------------------------------------------------
  // Sums over entries

  function SumOf(F: seq<Entry>, f: Entry -> real): real
  {
    if |F| == 0 then 0.0 else SumOf(F[..|F| - 1], f) + f(F[|F| - 1])
  }

  lemma {:induction false} SumOfAppend(A: seq<Entry>, B: seq<Entry>, f: Entry -> real)
    ensures SumOf(A + B, f) == SumOf(A, f) + SumOf(B, f)
    decreases |B|
  {
    if |B| == 0 {
      assert A + B == A;
    } else {
      var B' := B[..|B| - 1];
      assert (A + B)[..|A + B| - 1] == A + B';
      SumOfAppend(A, B', f);
    }
  }

  lemma {:induction false} SumOfScale(F: seq<Entry>, c: real, f: Entry -> real, h: Entry -> real)
    requires forall e :: e in F ==> h(e) == c * f(e)
    ensures SumOf(F, h) == c * SumOf(F, f)
    decreases |F|
  {
    if |F| > 0 {
      var F' := F[..|F| - 1];
      assert forall e :: e in F' ==> e in F;
      SumOfScale(F', c, f, h);
      Distributes(c, SumOf(F', f), f(F[|F| - 1]));
    }
  }

  lemma {:induction false} GroupSnocSum(E: seq<Entry>, e: Entry, axis: Axis, N: nat, f: Entry -> real)
    ensures SumOf(Group(E + [e], axis, N), f) ==
            SumOf(Group(E, axis, N), f) + (if 0 <= Key(e, axis) < N then f(e) else 0.0)
  {
    if N > 0 {
      GroupSnocSum(E, e, axis, N - 1, f);
      FilterSnoc(E, e, axis, N - 1);
      SumOfAppend(Group(E + [e], axis, N - 1), Filter(E + [e], axis, N - 1), f);
      SumOfAppend(Group(E, axis, N - 1), Filter(E, axis, N - 1), f);
      if Key(e, axis) == N - 1 {
        SumOfAppend(Filter(E, axis, N - 1), [e], f);
        assert SumOf([e], f) == f(e) by { assert [e][..0] == []; }
      } else {
        assert Filter(E, axis, N - 1) + [] == Filter(E, axis, N - 1);
      }
    }
  }

  /** Summing over the counting-sort order is summing over the entries. */
  lemma {:induction false} GroupSum(E: seq<Entry>, axis: Axis, N: nat, f: Entry -> real)
    requires KeysBelow(E, axis, N)
    ensures SumOf(Group(E, axis, N), f) == SumOf(E, f)
    decreases |E|
  {
    if |E| > 0 {
      var E' := E[..|E| - 1];
      assert E == E' + [E[|E| - 1]];
      assert KeysBelow(E', axis, N);
      assert 0 <= Key(E[|E| - 1], axis) < N;
      GroupSum(E', axis, N, f);
      GroupSnocSum(E', E[|E| - 1], axis, N, f);
    } else {
      GroupOfNothing(axis, N);
    }
  }

  /** The sum over one key's group, as a function of the key. */
  function KeySums(E: seq<Entry>, axis: Axis, h: Entry -> real): nat -> real
  {
    (c: nat) => SumOf(Filter(E, axis, c), h)
  }

  lemma GroupSumSnoc(E: seq<Entry>, axis: Axis, N: nat, h: Entry -> real)
    requires 0 < N
    ensures SumOf(Group(E, axis, N), h) == SumOf(Group(E, axis, N - 1), h) + SumOf(Filter(E, axis, N - 1), h)
  {
    SumOfAppend(Group(E, axis, N - 1), Filter(E, axis, N - 1), h);
  }

  /** Summing over the counting-sort order is summing the per-key sums. */
  lemma {:induction false} GroupSumByKey(E: seq<Entry>, axis: Axis, N: nat, h: Entry -> real)
    ensures SumOf(Group(E, axis, N), h) == Sum(N, KeySums(E, axis, h))
  {
    if N > 0 {
      GroupSumByKey(E, axis, N - 1, h);
      GroupSumSnoc(E, axis, N, h);
    } else {
      GroupOfNothing(axis, N);
    }
  }

  /** f(e) weighted by w at e's key (0 outside w). */
  function WeightedFn(axis: Axis, w: seq<real>, f: Entry -> real): Entry -> real
  {
    (e: Entry) => At(w, Key(e, axis)) * f(e)
  }

  /** Scaling every term of one key's group scales that group's sum. */
  lemma FilterScale(E: seq<Entry>, axis: Axis, c: int, k: real, f: Entry -> real, h: Entry -> real)
    requires forall e :: Key(e, axis) == c ==> h(e) == k * f(e)
    ensures SumOf(Filter(E, axis, c), h) == k * SumOf(Filter(E, axis, c), f)
  {
    var F := Filter(E, axis, c);
    forall e | e in F
      ensures h(e) == k * f(e)
    {
      FilterMembers(E, axis, c);
    }
    SumOfScale(F, k, f, h);
  }

  /** Inside one key's group every term carries the same weight. */
  lemma FilterWeighted(E: seq<Entry>, axis: Axis, w: seq<real>, f: Entry -> real, c: nat)
    requires c < |w|
    ensures SumOf(Filter(E, axis, c), WeightedFn(axis, w, f)) == w[c] * SumOf(Filter(E, axis, c), f)
  {
    WeightedOnKey(axis, w, f, c);
    FilterScale(E, axis, c, w[c], f, WeightedFn(axis, w, f));
  }

  lemma WeightedOnKey(axis: Axis, w: seq<real>, f: Entry -> real, c: nat)
    requires c < |w|
    ensures forall e :: Key(e, axis) == c ==> WeightedFn(axis, w, f)(e) == w[c] * f(e)
  {
    forall e | Key(e, axis) == c
      ensures WeightedFn(axis, w, f)(e) == w[c] * f(e)
    {
      assert At(w, Key(e, axis)) == w[c];
    }
  }

  /** Weighting the per-key sums s of E by w and adding up gives the sum of the weighted
      terms over the counting-sort order. */
  lemma GroupWeighted(E: seq<Entry>, axis: Axis, w: seq<real>, s: seq<real>, f: Entry -> real)
    requires |s| == |w|
    requires forall c :: 0 <= c < |s| ==> s[c] == SumOf(Filter(E, axis, c), f)
    ensures Dot(w, s) == SumOf(Group(E, axis, |w|), WeightedFn(axis, w, f))
  {
    var h := WeightedFn(axis, w, f);
    forall c: nat | c < |w|
      ensures KeySums(E, axis, h)(c) == w[c] * s[c]
    {
      FilterWeighted(E, axis, w, f, c);
    }
    DotAsSum(w, s, KeySums(E, axis, h));
    GroupSumByKey(E, axis, |w|, h);
  }

  // ---------------------------------------------------------------------------------------
  // Sorted inputs

  predicate SortedBy(E: seq<Entry>, axis: Axis)
  {
    forall i, j :: 0 <= i < j < |E| ==> Key(E[i], axis) <= Key(E[j], axis)
  }

  predicate LexLe(x: Entry, y: Entry)
  {
    x.major < y.major || (x.major == y.major && x.minor <= y.minor)
  }

  /** Ordered by major, and by minor within equal majors. */
  predicate Lex(E: seq<Entry>)
  {
    forall i, j :: 0 <= i < j < |E| ==> LexLe(E[i], E[j])
  }

  /** Filter keeps an order: the entries it picks stay sorted on `order`. */
  lemma {:induction false} FilterSortedBy(E: seq<Entry>, order: Axis, axis: Axis, v: int)
    requires SortedBy(E, order)
    ensures SortedBy(Filter(E, axis, v), order)
    decreases |E|
  {
    if |E| > 0 {
      var E' := E[..|E| - 1];
      var e := E[|E| - 1];
      assert E == E' + [e];
      FilterSortedBy(E', order, axis, v);
      FilterMembers(E', axis, v);
      var F' := Filter(E', axis, v);
      forall x | x in F'
        ensures Key(x, order) <= Key(e, order)
      {
        var i :| 0 <= i < |E'| && E'[i] == x;
        assert E[i] == x;
      }
    }
  }

  lemma {:induction false} FilterLex(E: seq<Entry>, axis: Axis, v: int)
    requires Lex(E)
    ensures Lex(Filter(E, axis, v))
    decreases |E|
  {
    if |E| > 0 {
      var E' := E[..|E| - 1];
      var e := E[|E| - 1];
      assert E == E' + [e];
      FilterLex(E', axis, v);
      FilterSnoc(E', e, axis, v);
      var F' := Filter(E', axis, v);
      FilterMembers(E', axis, v);
      forall x | x in F'
        ensures LexLe(x, e)
      {
        assert x in E';
        var i :| 0 <= i < |E'| && E'[i] == x;
        assert E[i] == x;
      }
    }
  }

  lemma GroupIgnores(E: seq<Entry>, e: Entry, axis: Axis, N: nat)
    requires Key(e, axis) < 0 || Key(e, axis) >= N
    ensures Group(E + [e], axis, N) == Group(E, axis, N)
  {
    if N > 0 {
      GroupIgnores(E, e, axis, N - 1);
      FilterSnoc(E, e, axis, N - 1);
    }
  }

  lemma {:induction false} GroupSnocSorted(E: seq<Entry>, e: Entry, axis: Axis, N: nat)
    requires forall x :: x in E ==> Key(x, axis) <= Key(e, axis)
    requires 0 <= Key(e, axis) < N
    ensures Group(E + [e], axis, N) == Group(E, axis, N) + [e]
  {
    if N - 1 == Key(e, axis) {
      GroupSnocLast(E, e, axis, N);
    } else {
      GroupSnocSorted(E, e, axis, N - 1);
      GroupSnocEarlier(E, e, axis, N);
    }
  }

  /** Appending an entry of the last key puts it at the end of the last group. */
  lemma GroupSnocLast(E: seq<Entry>, e: Entry, axis: Axis, N: nat)
    requires N > 0 && Key(e, axis) == N - 1
    ensures Group(E + [e], axis, N) == Group(E, axis, N) + [e]
  {
    var G, F := Group(E, axis, N - 1), Filter(E, axis, N - 1);
    assert Group(E + [e], axis, N - 1) == G by {
      GroupIgnores(E, e, axis, N - 1);
    }
    assert Filter(E + [e], axis, N - 1) == F + [e] by {
      FilterSnoc(E, e, axis, N - 1);
    }
    assert G + (F + [e]) == (G + F) + [e];
  }

  /** Appending an entry of a smaller key than all of E's is invisible to the last group. */
  lemma GroupSnocEarlier(E: seq<Entry>, e: Entry, axis: Axis, N: nat)
    requires forall x :: x in E ==> Key(x, axis) <= Key(e, axis)
    requires 0 <= Key(e, axis) < N - 1
    requires Group(E + [e], axis, N - 1) == Group(E, axis, N - 1) + [e]
    ensures Group(E + [e], axis, N) == Group(E, axis, N) + [e]
  {
    assert Filter(E + [e], axis, N - 1) == [] && Filter(E, axis, N - 1) == [] by {
      FilterSnoc(E, e, axis, N - 1);
      FilterEmpty(E, axis, N - 1);
    }
  }

  /** Grouping entries that are already ordered by the key leaves them unchanged. */
  lemma {:induction false} GroupSorted(E: seq<Entry>, axis: Axis, N: nat)
    requires SortedBy(E, axis) && KeysBelow(E, axis, N)
    ensures Group(E, axis, N) == E
    decreases |E|
  {
    if |E| > 0 {
      var E' := E[..|E| - 1];
      var e := E[|E| - 1];
      assert E == E' + [e];
      GroupSorted(E', axis, N);
      forall x | x in E'
        ensures Key(x, axis) <= Key(e, axis)
      {
        var i :| 0 <= i < |E'| && E'[i] == x;
        assert E[i] == x;
      }
      GroupSnocSorted(E', e, axis, N);
    } else {
      GroupOfNothing(axis, N);
    }
  }

  lemma {:induction false} FilterGroupCommute(E: seq<Entry>, a: Axis, N: nat, b: Axis, v: int)
    ensures Filter(Group(E, a, N), b, v) == Group(Filter(E, b, v), a, N)
  {
    if N > 0 {
      var G, F := Group(E, a, N - 1), Filter(E, a, N - 1);
      var Eb := Filter(E, b, v);
      var X, Y := Filter(G, b, v), Filter(F, b, v);
      assert Filter(Group(E, a, N), b, v) == X + Y by {
        assert Group(E, a, N) == G + F;
        FilterAppend(G, F, b, v);
      }
      assert X == Group(Eb, a, N - 1) by {
        FilterGroupCommute(E, a, N - 1, b, v);
      }
      assert Y == Filter(Eb, a, N - 1) by {
        FilterCommute(E, a, N - 1, b, v);
      }
    }
  }

  /** Within one major, entries ordered by (major, minor) are ordered by minor. */
  lemma FilterMajorSorted(E: seq<Entry>, v: int)
    requires Lex(E)
    ensures SortedBy(Filter(E, Major, v), Minor)
  {
    var F := Filter(E, Major, v);
    FilterLex(E, Major, v);
    FilterMembers(E, Major, v);
    forall i, j | 0 <= i < j < |F|
      ensures Key(F[i], Minor) <= Key(F[j], Minor)
    {
      assert F[i] in F && F[j] in F;
      assert LexLe(F[i], F[j]);
    }
  }

  /** Picking one major out of the entries sorted on their minor gives the entries of that
      major in their original order. */
  lemma GroupThenFilter(E: seq<Entry>, n: nat, m: nat, v: int)
    requires Lex(E) && InRange(E, n, m)
    ensures Filter(Group(E, Minor, m), Major, v) == Filter(E, Major, v)
  {
    var F := Filter(E, Major, v);
    FilterGroupCommute(E, Minor, m, Major, v);
    FilterMajorSorted(E, v);
    FilterMembers(E, Major, v);
    assert KeysBelow(F, Minor, m);
    GroupSorted(F, Minor, m);
  }

  /** Sorting on the minor key and then on the major key restores entries that were
      ordered by (major, minor): the conversion applied twice is the identity. */
  lemma GroupTwice(E: seq<Entry>, n: nat, m: nat, r: nat)
    requires Lex(E) && InRange(E, n, m)
    ensures Group(Group(E, Minor, m), Major, r) == Group(E, Major, r)
  {
    var G := Group(E, Minor, m);
    forall v | 0 <= v < r
      ensures Filter(G, Major, v) == Filter(E, Major, v)
    {
      GroupThenFilter(E, n, m, v);
    }
    GroupByFilters(G, E, Major, r);
  }

  /** Groupings agree when every group agrees. */
  lemma {:induction false} GroupByFilters(X: seq<Entry>, Y: seq<Entry>, axis: Axis, N: nat)
    requires forall v :: 0 <= v < N ==> Filter(X, axis, v) == Filter(Y, axis, v)
    ensures Group(X, axis, N) == Group(Y, axis, N)
  {
    if N > 0 {
      GroupByFilters(X, Y, axis, N - 1);
    }
  }

  // ---------------------------------------------------------------------------------------
  // Relabelling entries

  /** The same nonzero seen from the other orientation: major and minor exchanged. */
  function Swap(e: Entry): Entry
  {
    Entry(e.minor, e.major, e.val)
  }

  function Swapped(E: seq<Entry>): (W: seq<Entry>)
    ensures |W| == |E|
  {
    seq(|E|, p requires 0 <= p < |E| => Swap(E[p]))
  }

  function Flip(axis: Axis): Axis
  {
    if axis == Major then Minor else Major
  }

  lemma {:induction false} SumOfSwapped(S: seq<Entry>, f: Entry -> real, g: Entry -> real)
    requires forall e :: g(e) == f(Swap(e))
    ensures SumOf(Swapped(S), f) == SumOf(S, g)
    decreases |S|
  {
    if |S| > 0 {
      var S' := S[..|S| - 1];
      assert Swapped(S)[..|S| - 1] == Swapped(S');
      SumOfSwapped(S', f, g);
    }
  }

  lemma SwappedAppend(A: seq<Entry>, B: seq<Entry>)
    ensures Swapped(A + B) == Swapped(A) + Swapped(B)
  {
  }

  /** Filtering the swapped entries on one axis is filtering the entries on the other. */
  lemma {:induction false} FilterSwapped(E: seq<Entry>, axis: Axis, v: int)
    ensures Filter(Swapped(E), axis, v) == Swapped(Filter(E, Flip(axis), v))
    decreases |E|
  {
    if |E| > 0 {
      var E' := E[..|E| - 1];
      var e := E[|E| - 1];
      var F' := Filter(E', Flip(axis), v);
      var tail := if Key(e, Flip(axis)) == v then [e] else [];
      assert Swapped(E) == Swapped(E') + [Swap(e)] by {
        assert E == E' + [e];
        SwappedAppend(E', [e]);
      }
      assert Filter(Swapped(E), axis, v) == Filter(Swapped(E'), axis, v) + Swapped(tail) by {
        FilterSnoc(Swapped(E'), Swap(e), axis, v);
      }
      assert Filter(Swapped(E'), axis, v) == Swapped(F') by {
        FilterSwapped(E', axis, v);
      }
      assert Filter(E, Flip(axis), v) == F' + tail;
      SwappedAppend(F', tail);
    }
  }

  /** Grouping the swapped entries on one axis is grouping the entries on the other. */
  lemma {:induction false} GroupSwapped(E: seq<Entry>, axis: Axis, N: nat)
    ensures Group(Swapped(E), axis, N) == Swapped(Group(E, Flip(axis), N))
  {
    if N > 0 {
      var G, F := Group(E, Flip(axis), N - 1), Filter(E, Flip(axis), N - 1);
      assert Group(Swapped(E), axis, N - 1) == Swapped(G) by {
        GroupSwapped(E, axis, N - 1);
      }
      assert Filter(Swapped(E), axis, N - 1) == Swapped(F) by {
        FilterSwapped(E, axis, N - 1);
      }
      assert Group(E, Flip(axis), N) == G + F;
      SwappedAppend(G, F);
    }
  }

}
