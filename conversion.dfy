/**
 * The states the counting-sort conversion passes through, stated over the entries E of
 * the input (in storage order) and the number m of output segments:
 *
 *  - counting: after the input positions [0, j) have been counted, slot c + 1 of the
 *    output pointer array holds how many of them carry index c;
 *  - prefix sums: the slots up to i hold Before(E, c), the number of entries whose index
 *    is below c, and the slots above i still hold the counts;
 *  - scattering: after positions [0, j) have been placed, slot c holds the next free
 *    output position of segment c, and the entries of E[..j] with index c sit, in their
 *    input order, from Before(E, c) onwards.
 *
 * Each step lemma takes one state to the next, so the conversion loops only apply them.
 */
module Conversion {
  import opened Compressed

  /** How many entries of E have an index below c: where segment c starts in the output. */
  function Before(E: seq<Entry>, c: nat): nat
  {
    |Group(E, Minor, c)|
  }

  // ---------------------------------------------------------------------------------------
  // Counting

  ghost predicate Counted(E: seq<Entry>, m: nat, j: nat, cs: seq<int>)
    requires j <= |E|
  {
    && |cs| >= m + 1
    && cs[0] == 0
    && forall c :: 0 <= c < m ==> cs[c + 1] == |Filter(E[..j], Minor, c)|
  }

  /** Before anything is counted all counts are zero. */
  lemma CountStart(E: seq<Entry>, m: nat, cs: seq<int>)
    requires |cs| >= m + 1
    requires forall c :: 0 <= c <= m ==> cs[c] == 0
    ensures Counted(E, m, 0, cs)
  {
    assert E[..0] == [];
  }

  /** Counting position j adds one to the slot after its index. */
  lemma CountStep(E: seq<Entry>, m: nat, j: nat, cs: seq<int>)
    requires j < |E| && 0 <= E[j].minor < m
    requires Counted(E, m, j, cs)
    ensures Counted(E, m, j + 1, cs[E[j].minor + 1 := cs[E[j].minor + 1] + 1])
  {
    var k := E[j].minor;
    var cs' := cs[k + 1 := cs[k + 1] + 1];
    var E1 := E[..j + 1];
    assert E1 == E[..j] + [E[j]];
    forall c | 0 <= c < m
      ensures cs'[c + 1] == |Filter(E1, Minor, c)|
    {
      FilterSnoc(E[..j], E[j], Minor, c);
    }
  }

  // ---------------------------------------------------------------------------------------
  // Prefix sums

  ghost predicate Accumulated(E: seq<Entry>, m: nat, i: nat, cs: seq<int>)
  {
    && |cs| >= m + 1
    && (forall c :: 0 <= c <= i && c <= m ==> cs[c] == Before(E, c))
    && (forall c :: i < c <= m ==> cs[c] == |Filter(E, Minor, c - 1)|)
  }

  /** The counts of all of E are the first state of the prefix-sum pass. */
  lemma AccumulateStart(E: seq<Entry>, m: nat, cs: seq<int>)
    requires Counted(E, m, |E|, cs)
    ensures Accumulated(E, m, 0, cs)
  {
    assert E[..|E|] == E;
    forall c | 0 < c <= m
      ensures cs[c] == |Filter(E, Minor, c - 1)|
    {
      assert cs[(c - 1) + 1] == |Filter(E[..|E|], Minor, c - 1)|;
    }
  }

  /** Adding slot i into slot i + 1 turns the count of index i into Before(E, i + 1). */
  lemma AccumulateStep(E: seq<Entry>, m: nat, i: nat, cs: seq<int>)
    requires i < m && Accumulated(E, m, i, cs)
    ensures Accumulated(E, m, i + 1, cs[i + 1 := cs[i + 1] + cs[i]])
  {
    assert Group(E, Minor, i + 1) == Group(E, Minor, i) + Filter(E, Minor, i);
  }

  // ---------------------------------------------------------------------------------------
  // Scattering

  /** The next free output position of every segment after E[..j] has been placed. */
  ghost predicate Cursors(E: seq<Entry>, m: nat, j: nat, cs: seq<int>)
    requires j <= |E|
  {
    && |cs| >= m + 1
    && cs[m] == Before(E, m)
    && forall c :: 0 <= c < m ==> cs[c] == Before(E, c) + |Filter(E[..j], Minor, c)|
  }

  lemma ProjectAppend<T>(A: seq<Entry>, B: seq<Entry>, proj: Entry -> T)
    ensures Project(A + B, proj) == Project(A, proj) + Project(B, proj)
  {
  }

  /** Where the entries of E[..j] have been placed, seen through proj: segment c of the
      output starts with the entries of E[..j] that have index c, in their input order. */
  ghost predicate Placed<T>(E: seq<Entry>, m: nat, j: nat, out: seq<T>, proj: Entry -> T)
    requires j <= |E|
  {
    forall c :: 0 <= c < m ==>
      && Before(E, c) + |Filter(E[..j], Minor, c)| <= |out|
      && out[Before(E, c)..Before(E, c) + |Filter(E[..j], Minor, c)|] == Project(Filter(E[..j], Minor, c), proj)
  }

  /** The prefix sums are the cursors before anything is placed. */
  lemma ScatterStart<T>(E: seq<Entry>, m: nat, cs: seq<int>, out: seq<T>, proj: Entry -> T)
    requires KeysBelow(E, Minor, m) && |out| >= |E|
    requires Accumulated(E, m, m, cs)
    ensures Cursors(E, m, 0, cs) && Placed(E, m, 0, out, proj)
  {
    assert E[..0] == [];
    forall c | 0 <= c < m
      ensures Before(E, c) <= |out|
    {
      BeforeBound(E, m, c);
    }
  }

  /** Segment k ends where segment k + 1 starts: Before(E, k) + |Filter(E, Minor, k)|. */
  lemma BeforeNext(E: seq<Entry>, k: nat)
    ensures Before(E, k + 1) == Before(E, k) + |Filter(E, Minor, k)|
  {
    assert Group(E, Minor, k + 1) == Group(E, Minor, k) + Filter(E, Minor, k);
  }

  lemma BeforeMono(E: seq<Entry>, c: nat, k: nat)
    requires c <= k
    ensures Before(E, c) <= Before(E, k)
  {
    GroupPrefix(E, Minor, c, k);
  }

  lemma BeforeBound(E: seq<Entry>, m: nat, c: nat)
    requires KeysBelow(E, Minor, m) && c <= m
    ensures Before(E, c) <= Before(E, m) == |E|
  {
    BeforeMono(E, c, m);
    GroupIsPermutation(E, Minor, m);
  }

  /** The entries of index c among E[..j] fill at most segment c. */
  lemma PrefixInSegment(E: seq<Entry>, j: nat, c: nat)
    requires j <= |E|
    ensures Before(E, c) + |Filter(E[..j], Minor, c)| <= Before(E, c + 1)
  {
    FilterPrefix(E, j, Minor, c);
    BeforeNext(E, c);
  }

  /** The slot that entry j goes to lies inside the segment of its index, after the
      entries of that index that came before it. */
  lemma SlotInSegment(E: seq<Entry>, m: nat, j: nat)
    requires KeysBelow(E, Minor, m) && j < |E| && 0 <= E[j].minor < m
    ensures var k := E[j].minor;
      Before(E, k) + |Filter(E[..j], Minor, k)| < Before(E, k + 1) <= |E|
  {
    var k := E[j].minor;
    assert E[..j + 1] == E[..j] + [E[j]];
    FilterSnoc(E[..j], E[j], Minor, k);
    PrefixInSegment(E, j + 1, k);
    BeforeBound(E, m, k + 1);
  }

  /** Placing entry j moves the cursor of its index one on. */
  lemma CursorStep(E: seq<Entry>, m: nat, j: nat, cs: seq<int>, k: int)
    requires j < |E| && k == E[j].minor && 0 <= k < m
    requires Cursors(E, m, j, cs)
    ensures cs[k] == Before(E, k) + |Filter(E[..j], Minor, k)|
    ensures Cursors(E, m, j + 1, cs[k := cs[k] + 1])
  {
    var E1 := E[..j + 1];
    assert E1 == E[..j] + [E[j]];
    forall c | 0 <= c < m
      ensures Filter(E1, Minor, c) == Filter(E[..j], Minor, c) + (if c == k then [E[j]] else [])
    {
      FilterSnoc(E[..j], E[j], Minor, c);
    }
  }

  /** Writing entry j at its cursor extends the placed entries by E[j]. */
  lemma PlaceStep<T>(E: seq<Entry>, m: nat, j: nat, out: seq<T>, proj: Entry -> T, l: int)
    requires KeysBelow(E, Minor, m) && j < |E| && 0 <= E[j].minor < m && |out| >= |E|
    requires l == Before(E, E[j].minor) + |Filter(E[..j], Minor, E[j].minor)|
    requires Placed(E, m, j, out, proj)
    ensures 0 <= l < |out| && Placed(E, m, j + 1, out[l := proj(E[j])], proj)
  {
    var k := E[j].minor;
    SlotInSegment(E, m, j);
    var out' := out[l := proj(E[j])];
    var E1 := E[..j + 1];
    forall c | 0 <= c < m
      ensures Before(E, c) + |Filter(E1, Minor, c)| <= |out'|
      ensures out'[Before(E, c)..Before(E, c) + |Filter(E1, Minor, c)|] == Project(Filter(E1, Minor, c), proj)
    {
      PlaceOne(E, m, j, out, proj, c);
    }
  }

  lemma PlaceOne<T>(E: seq<Entry>, m: nat, j: nat, out: seq<T>, proj: Entry -> T, c: nat)
    requires KeysBelow(E, Minor, m) && j < |E| && 0 <= E[j].minor < m && |out| >= |E| && c < m
    requires Before(E, c) + |Filter(E[..j], Minor, c)| <= |out|
    requires out[Before(E, c)..Before(E, c) + |Filter(E[..j], Minor, c)|] == Project(Filter(E[..j], Minor, c), proj)
    ensures Before(E, E[j].minor) + |Filter(E[..j], Minor, E[j].minor)| < |out|
    ensures var k := E[j].minor; var l := Before(E, k) + |Filter(E[..j], Minor, k)|;
      var out' := out[l := proj(E[j])];
      && Before(E, c) + |Filter(E[..j + 1], Minor, c)| <= |out'|
      && out'[Before(E, c)..Before(E, c) + |Filter(E[..j + 1], Minor, c)|] == Project(Filter(E[..j + 1], Minor, c), proj)
  {
    SlotInSegment(E, m, j);
    if c == E[j].minor {
      PlaceSame(E, m, j, out, proj);
    } else {
      PlaceOther(E, m, j, out, proj, c);
    }
  }

  /** Entry j lands right after the entries of its own index placed so far. */
  lemma PlaceSame<T>(E: seq<Entry>, m: nat, j: nat, out: seq<T>, proj: Entry -> T)
    requires j < |E| && 0 <= E[j].minor
    requires var k := E[j].minor; Before(E, k) + |Filter(E[..j], Minor, k)| < |out|
    requires var k := E[j].minor;
      out[Before(E, k)..Before(E, k) + |Filter(E[..j], Minor, k)|] == Project(Filter(E[..j], Minor, k), proj)
    ensures var k := E[j].minor; var l := Before(E, k) + |Filter(E[..j], Minor, k)|;
      var out' := out[l := proj(E[j])];
      && |Filter(E[..j + 1], Minor, k)| == |Filter(E[..j], Minor, k)| + 1
      && out'[Before(E, k)..l + 1] == Project(Filter(E[..j + 1], Minor, k), proj)
  {
    var k := E[j].minor;
    var F := Filter(E[..j], Minor, k);
    var a := Before(E, k);
    var l := a + |F|;
    var out' := out[l := proj(E[j])];
    var F1 := Filter(E[..j + 1], Minor, k);
    assert F1 == F + [E[j]] by {
      assert E[..j + 1] == E[..j] + [E[j]];
      FilterSnoc(E[..j], E[j], Minor, k);
    }
    calc {
      out'[a..l + 1];
      out'[a..l] + [out'[l]];
      { assert out'[a..l] == out[a..l]; }
      out[a..l] + [proj(E[j])];
      Project(F, proj) + [proj(E[j])];
      { ProjectSnoc(F, E[j], proj); }
      Project(F1, proj);
    }
  }

  /** Entry j lands outside the part of segment c filled so far, for every other index c. */
  lemma PlaceOther<T>(E: seq<Entry>, m: nat, j: nat, out: seq<T>, proj: Entry -> T, c: nat)
    requires j < |E| && 0 <= E[j].minor < m && c < m && c != E[j].minor
    requires var k := E[j].minor; Before(E, k) + |Filter(E[..j], Minor, k)| < Before(E, k + 1) <= |out|
    requires Before(E, c) + |Filter(E[..j], Minor, c)| <= |out|
    requires out[Before(E, c)..Before(E, c) + |Filter(E[..j], Minor, c)|] == Project(Filter(E[..j], Minor, c), proj)
    ensures var k := E[j].minor; var l := Before(E, k) + |Filter(E[..j], Minor, k)|;
      var out' := out[l := proj(E[j])];
      && Filter(E[..j + 1], Minor, c) == Filter(E[..j], Minor, c)
      && out'[Before(E, c)..Before(E, c) + |Filter(E[..j], Minor, c)|] == Project(Filter(E[..j], Minor, c), proj)
  {
    var k := E[j].minor;
    assert Filter(E[..j + 1], Minor, c) == Filter(E[..j], Minor, c) by {
      assert E[..j + 1] == E[..j] + [E[j]];
      FilterSnoc(E[..j], E[j], Minor, c);
    }
    SlotOutside(E, j, c, k);
    UpdateOutside(out, Before(E, k) + |Filter(E[..j], Minor, k)|, proj(E[j]),
      Before(E, c), Before(E, c) + |Filter(E[..j], Minor, c)|);
  }

  /** The filled part of segment c and the free slot of segment k != c do not overlap. */
  lemma SlotOutside(E: seq<Entry>, j: nat, c: nat, k: nat)
    requires j <= |E| && c != k
    requires Before(E, k) + |Filter(E[..j], Minor, k)| < Before(E, k + 1)
    ensures var l := Before(E, k) + |Filter(E[..j], Minor, k)|;
      l < Before(E, c) || Before(E, c) + |Filter(E[..j], Minor, c)| <= l
  {
    PrefixInSegment(E, j, c);
    if c < k {
      BeforeMono(E, c + 1, k);
    } else {
      BeforeMono(E, k + 1, c);
    }
  }

  /** Writing one slot leaves every slice that does not contain it unchanged. */
  lemma UpdateOutside<T>(out: seq<T>, l: nat, x: T, a: nat, b: nat)
    requires l < |out| && a <= b <= |out| && (l < a || b <= l)
    ensures out[l := x][a..b] == out[a..b]
  {
  }

  lemma ProjectSnoc<T>(S: seq<Entry>, e: Entry, proj: Entry -> T)
    ensures Project(S + [e], proj) == Project(S, proj) + [proj(e)]
  {
  }

  /** The output up to segment c is the projection of the counting-sort order of E up to c. */
  ghost predicate PrefixPlaced<T>(E: seq<Entry>, out: seq<T>, proj: Entry -> T, c: nat)
  {
    Before(E, c) <= |out| && out[..Before(E, c)] == Project(Group(E, Minor, c), proj)
  }

  /** Segment c of the output holds the projection of the entries of index c, in order. */
  ghost predicate SegmentPlaced<T>(E: seq<Entry>, out: seq<T>, proj: Entry -> T, c: nat)
  {
    && Before(E, c) + |Filter(E, Minor, c)| <= |out|
    && out[Before(E, c)..Before(E, c) + |Filter(E, Minor, c)|] == Project(Filter(E, Minor, c), proj)
  }

  /** Once every entry is placed, the output up to segment c is the projection of the
      counting-sort order of E on its index, up to key c. */
  lemma {:induction false} PlacedPrefix<T>(E: seq<Entry>, m: nat, out: seq<T>, proj: Entry -> T, c: nat)
    requires c <= m && Placed(E, m, |E|, out, proj)
    ensures PrefixPlaced(E, out, proj, c)
  {
    if c > 0 {
      PlacedPrefix(E, m, out, proj, c - 1);
      PlacedSegment(E, m, out, proj, c - 1);
      PrefixStep(E, out, proj, c - 1);
    } else {
      assert Group(E, Minor, 0) == [];
    }
  }

  /** Segment c of the output, once every entry is placed. */
  lemma PlacedSegment<T>(E: seq<Entry>, m: nat, out: seq<T>, proj: Entry -> T, c: nat)
    requires c < m && Placed(E, m, |E|, out, proj)
    ensures SegmentPlaced(E, out, proj, c)
  {
    assert E[..|E|] == E;
  }

  /** The output up to segment c, followed by segment c, is the output up to segment c + 1. */
  lemma PrefixStep<T>(E: seq<Entry>, out: seq<T>, proj: Entry -> T, c: nat)
    requires PrefixPlaced(E, out, proj, c) && SegmentPlaced(E, out, proj, c)
    ensures PrefixPlaced(E, out, proj, c + 1)
  {
    var G, F := Group(E, Minor, c), Filter(E, Minor, c);
    var a := Before(E, c);
    assert Group(E, Minor, c + 1) == G + F;
    ProjectConcat(out, a, a + |F|, G, F, proj);
  }

  /** Two adjacent slices of out that project G and F together project G + F. */
  lemma ProjectConcat<T>(out: seq<T>, a: nat, b: nat, G: seq<Entry>, F: seq<Entry>, proj: Entry -> T)
    requires a == |G| && b == a + |F| <= |out|
    requires out[..a] == Project(G, proj)
    requires out[a..b] == Project(F, proj)
    ensures out[..b] == Project(G + F, proj)
  {
    assert out[..b] == out[..a] + out[a..b];
    ProjectAppend(G, F, proj);
  }

  /** Once every entry is placed, the output is the projection of the counting-sort order
      of E on its index. */
  lemma PlacedAll<T>(E: seq<Entry>, m: nat, out: seq<T>, proj: Entry -> T)
    requires KeysBelow(E, Minor, m) && |out| >= |E|
    requires Placed(E, m, |E|, out, proj)
    ensures out[..|E|] == Project(Group(E, Minor, m), proj)
  {
    PlacedPrefix(E, m, out, proj, m);
    BeforeBound(E, m, m);
    assert PrefixPlaced(E, out, proj, m);
  }

  /** After the scatter every cursor stands at the start of the next segment. */
  lemma CursorsDone(E: seq<Entry>, m: nat, cs: seq<int>)
    requires Cursors(E, m, |E|, cs)
    ensures forall c :: 0 <= c < m ==> cs[c] == Before(E, c + 1)
  {
    assert E[..|E|] == E;
    forall c | 0 <= c < m
      ensures cs[c] == Before(E, c + 1)
    {
      BeforeNext(E, c);
    }
  }

  /** The state of the scatter loop over the output pointers cs, row indices ri and, when
      values are converted, values ca. */
  ghost predicate Scattered(E: seq<Entry>, m: nat, j: nat, hasVals: bool, cs: seq<int>, ri: seq<int>, ca: seq<real>)
    requires j <= |E|
  {
    && Cursors(E, m, j, cs)
    && Placed(E, m, j, ri, MajorOf)
    && (hasVals ==> Placed(E, m, j, ca, ValOf))
  }

  /** The prefix sums start the scatter. */
  lemma ScatterBegin(E: seq<Entry>, m: nat, hasVals: bool, cs: seq<int>, ri: seq<int>, ca: seq<real>)
    requires KeysBelow(E, Minor, m) && |ri| >= |E| && (hasVals ==> |ca| >= |E|)
    requires Accumulated(E, m, m, cs)
    ensures Scattered(E, m, 0, hasVals, cs, ri, ca)
  {
    ScatterStart(E, m, cs, ri, MajorOf);
    if hasVals {
      ScatterStart(E, m, cs, ca, ValOf);
    }
  }

  /** Writing entry j at the cursor l of its index k and moving that cursor on is one step
      of the scatter. */
  lemma ScatterStep(E: seq<Entry>, m: nat, j: nat, hasVals: bool, cs: seq<int>, ri: seq<int>, ca: seq<real>,
                    k: int, l: int)
    requires KeysBelow(E, Minor, m) && j < |E| && k == E[j].minor
    requires |ri| >= |E| && (hasVals ==> |ca| >= |E|)
    requires Scattered(E, m, j, hasVals, cs, ri, ca)
    requires 0 <= k < |cs| && l == cs[k]
    ensures 0 <= k < m && 0 <= l < |E|
    ensures Scattered(E, m, j + 1, hasVals, cs[k := l + 1], ri[l := E[j].major],
                      if hasVals then ca[l := E[j].val] else ca)
  {
    assert E[j] in E;
    SlotInSegment(E, m, j);
    CursorStep(E, m, j, cs, k);
    PlaceStep(E, m, j, ri, MajorOf, l);
    if hasVals {
      PlaceStep(E, m, j, ca, ValOf, l);
    }
  }
}
