/** Index space primitives: integer vectors, centering flags and the box type
    that a box list collects.  A box denotes the finite set of lattice points
    lying between its two corners, inclusive; the centering flags only matter
    to the transforms that convert between cell and node indexing. */
module Boxes {

  /** Number of spatial dimensions (AMREX_SPACEDIM); fixed at three. */
  const SpaceDim: nat := 3

  /** A point of the index lattice or a per-dimension integer parameter. */
  type IntVect = v: seq<int> | |v| == SpaceDim witness [0, 0, 0]

  /** Per-dimension centering: `true` means node-centred, `false` cell-centred. */
  type IndexType = t: seq<bool> | |t| == SpaceDim witness [false, false, false]

  function CellType(): (t: IndexType)
    ensures forall d :: 0 <= d < SpaceDim ==> !t[d]
  {
    seq(SpaceDim, d => false)
  }

  function NodeType(): (t: IndexType)
    ensures forall d :: 0 <= d < SpaceDim ==> t[d]
  {
    seq(SpaceDim, d => true)
  }

  /** The same integer in every dimension. */
  function Uniform(n: int): (v: IntVect)
    ensures forall d :: 0 <= d < SpaceDim ==> v[d] == n
  {
    seq(SpaceDim, d => n)
  }

  datatype Box = Box(lo: IntVect, hi: IntVect, typ: IndexType)

  function Min(a: int, b: int): int { if a <= b then a else b }
  function Max(a: int, b: int): int { if a <= b then b else a }

  /** The lattice point `p` lies in box `b`. */
  predicate InBox(b: Box, p: IntVect) {
    forall d :: 0 <= d < SpaceDim ==> b.lo[d] <= p[d] <= b.hi[d]
  }

  /** Box validity: the lower corner does not exceed the upper one. */
  predicate Ok(b: Box) {
    forall d :: 0 <= d < SpaceDim ==> b.lo[d] <= b.hi[d]
  }

  /** Number of lattice indices the box spans in direction `d`. */
  function Length(b: Box, d: nat): int
    requires d < SpaceDim
  {
    b.hi[d] - b.lo[d] + 1
  }

  /** The lattice point `p` lies in some member of `bs`: the region of a list
      of boxes is the union of its members. */
  predicate Covers(bs: seq<Box>, p: IntVect) {
    exists k :: 0 <= k < |bs| && InBox(bs[k], p)
  }

  /** Two lists of boxes denote the same region. */
  ghost predicate SameRegion(a: seq<Box>, b: seq<Box>) {
    forall p :: Covers(a, p) <==> Covers(b, p)
  }

  /** Box intersection (`b1 & b2`): the type of the first operand is kept. */
  function Intersect(a: Box, b: Box): (r: Box)
    ensures r.typ == a.typ
    ensures forall p :: InBox(r, p) <==> InBox(a, p) && InBox(b, p)
  {
    Box(seq(SpaceDim, d requires 0 <= d < SpaceDim => Max(a.lo[d], b.lo[d])),
        seq(SpaceDim, d requires 0 <= d < SpaceDim => Min(a.hi[d], b.hi[d])),
        a.typ)
  }

  predicate Intersects(a: Box, b: Box) {
    Ok(Intersect(a, b))
  }

  /** Box containment (`A.contains(a)`), corner by corner. */
  predicate ContainsBox(outer: Box, inner: Box) {
    forall d :: 0 <= d < SpaceDim ==> outer.lo[d] <= inner.lo[d] && inner.hi[d] <= outer.hi[d]
  }

  /** Smallest box holding both corners pairs (`Box::minBox`). */
  function Hull(a: Box, b: Box): (r: Box)
    ensures r.typ == a.typ
    ensures ContainsBox(r, a) && ContainsBox(r, b)
  {
    Box(seq(SpaceDim, d requires 0 <= d < SpaceDim => Min(a.lo[d], b.lo[d])),
        seq(SpaceDim, d requires 0 <= d < SpaceDim => Max(a.hi[d], b.hi[d])),
        a.typ)
  }

  function SetLo(b: Box, d: nat, v: int): Box
    requires d < SpaceDim
  {
    b.(lo := b.lo[d := v])
  }

  function SetHi(b: Box, d: nat, v: int): Box
    requires d < SpaceDim
  {
    b.(hi := b.hi[d := v])
  }

  /** No two members of `bs` intersect (the box-level test `isDisjoint` performs). */
  predicate Disjoint(bs: seq<Box>) {
    forall i, j :: 0 <= i < j < |bs| ==> !Intersects(bs[i], bs[j])
  }

  /** No lattice point lies in two members of `bs`. */
  ghost predicate NoSharedPoint(bs: seq<Box>) {
    forall i, j, p :: 0 <= i < j < |bs| && InBox(bs[i], p) ==> !InBox(bs[j], p)
  }

  predicate AllOk(bs: seq<Box>) {
    forall k :: 0 <= k < |bs| ==> Ok(bs[k])
  }

  predicate AllOfType(bs: seq<Box>, t: IndexType) {
    forall k :: 0 <= k < |bs| ==> bs[k].typ == t
  }

  /** Every member of `bs` lies inside `outer`. */
  predicate AllInside(bs: seq<Box>, outer: Box) {
    forall k :: 0 <= k < |bs| ==> ContainsBox(outer, bs[k])
  }

  // ---------------------------------------------------------------------------
  // Lemmas relating the corner-level predicates to the lattice-point semantics.

  /** A box is valid exactly when it holds a lattice point. */
  lemma OkIffHasPoint(b: Box)
    ensures Ok(b) <==> exists p :: InBox(b, p)
  {
    if Ok(b) {
      assert InBox(b, b.lo);
    }
  }

  /** Boxes intersect exactly when they share a lattice point. */
  lemma IntersectsIffSharedPoint(a: Box, b: Box)
    ensures Intersects(a, b) <==> exists p :: InBox(a, p) && InBox(b, p)
  {
    OkIffHasPoint(Intersect(a, b));
  }

  /** Corner containment implies containment of every lattice point; for a
      valid inner box the converse holds too. */
  lemma ContainsBoxMeaning(outer: Box, inner: Box)
    ensures ContainsBox(outer, inner) ==> forall p :: InBox(inner, p) ==> InBox(outer, p)
    ensures Ok(inner) && (forall p :: InBox(inner, p) ==> InBox(outer, p)) ==> ContainsBox(outer, inner)
  {
    if Ok(inner) && (forall p :: InBox(inner, p) ==> InBox(outer, p)) {
      assert InBox(inner, inner.lo);
      assert InBox(inner, inner.hi);
    }
  }

  /** Whether two boxes intersect does not depend on their order. */
  lemma IntersectsSymmetric(a: Box, b: Box)
    ensures Intersects(a, b) <==> Intersects(b, a)
  {
    IntersectsIffSharedPoint(a, b);
    IntersectsIffSharedPoint(b, a);
  }

  /** Corner containment is reflexive ... */
  lemma ContainsBoxRefl(a: Box)
    ensures ContainsBox(a, a)
  {
  }

  /** ... and transitive. */
  lemma ContainsBoxTrans(a: Box, b: Box, c: Box)
    requires ContainsBox(a, b) && ContainsBox(b, c)
    ensures ContainsBox(a, c)
  {
  }

  /** Boxes whose ranges in one direction do not overlap do not intersect. */
  lemma ApartInDir(a: Box, c: Box, d: nat)
    requires d < SpaceDim && (a.hi[d] < c.lo[d] || c.hi[d] < a.lo[d])
    ensures !Intersects(a, c)
  {
    assert Intersect(a, c).lo[d] > Intersect(a, c).hi[d];
  }

  /** Boxes inside two non-intersecting boxes do not intersect either. */
  lemma InsideKeepsApart(outerA: Box, a: Box, outerB: Box, b: Box)
    requires ContainsBox(outerA, a) && ContainsBox(outerB, b)
    requires !Intersects(outerA, outerB)
    ensures !Intersects(a, b)
  {
    var d :| 0 <= d < SpaceDim && Intersect(outerA, outerB).lo[d] > Intersect(outerA, outerB).hi[d];
    assert Intersect(a, b).lo[d] > Intersect(a, b).hi[d];
  }

  lemma CoversEmpty(p: IntVect)
    ensures !Covers([], p)
  {
  }

  lemma CoversSingleton(b: Box, p: IntVect)
    ensures Covers([b], p) <==> InBox(b, p)
  {
    if InBox(b, p) {
      assert [b][0] == b;
    }
  }

  /** The region of a concatenation is the union of the regions. */
  lemma CoversAppend(a: seq<Box>, b: seq<Box>, p: IntVect)
    ensures Covers(a + b, p) <==> Covers(a, p) || Covers(b, p)
  {
    if Covers(a + b, p) {
      var k :| 0 <= k < |a + b| && InBox((a + b)[k], p);
      if k < |a| {
        assert a[k] == (a + b)[k];
      } else {
        assert b[k - |a|] == (a + b)[k];
      }
    }
    if Covers(a, p) {
      var k :| 0 <= k < |a| && InBox(a[k], p);
      assert (a + b)[k] == a[k];
    }
    if Covers(b, p) {
      var k :| 0 <= k < |b| && InBox(b[k], p);
      assert (a + b)[|a| + k] == b[k];
    }
  }

  lemma CoversAppendAll(a: seq<Box>, b: seq<Box>)
    ensures forall p :: Covers(a + b, p) <==> Covers(a, p) || Covers(b, p)
  {
    forall p
      ensures Covers(a + b, p) <==> Covers(a, p) || Covers(b, p)
    {
      CoversAppend(a, b, p);
    }
  }

  /** `isDisjoint` (no two members intersect) means exactly that no lattice
      point belongs to two members. */
  lemma DisjointIffNoSharedPoint(bs: seq<Box>)
    ensures Disjoint(bs) <==> NoSharedPoint(bs)
  {
    forall i, j | 0 <= i < j < |bs|
      ensures !Intersects(bs[i], bs[j]) <==> forall p :: InBox(bs[i], p) ==> !InBox(bs[j], p)
    {
      IntersectsIffSharedPoint(bs[i], bs[j]);
    }
  }

  /** Two disjoint lists whose members are pairwise apart concatenate to a
      disjoint list. */
  lemma DisjointAppend(a: seq<Box>, b: seq<Box>)
    requires Disjoint(a) && Disjoint(b)
    requires forall i, j :: 0 <= i < |a| && 0 <= j < |b| ==> !Intersects(a[i], b[j])
    ensures Disjoint(a + b)
  {
    forall i, j | 0 <= i < j < |a + b|
      ensures !Intersects((a + b)[i], (a + b)[j])
    {
      if j < |a| {
        assert (a + b)[i] == a[i] && (a + b)[j] == a[j];
      } else if i < |a| {
        assert (a + b)[i] == a[i] && (a + b)[j] == b[j - |a|];
      } else {
        assert (a + b)[i] == b[i - |a|] && (a + b)[j] == b[j - |a|];
      }
    }
  }

  lemma AppendKeeps(a: seq<Box>, b: seq<Box>, o: Box, t: IndexType)
    ensures AllOk(a) && AllOk(b) ==> AllOk(a + b)
    ensures AllInside(a, o) && AllInside(b, o) ==> AllInside(a + b, o)
    ensures AllOfType(a, t) && AllOfType(b, t) ==> AllOfType(a + b, t)
  {
    assert forall k :: |a| <= k < |a + b| ==> (a + b)[k] == b[k - |a|];
  }

  /** A box is apart from every member of a list when it shares no lattice
      point with the list's region. */
  lemma ApartFromRegion(x: Box, bs: seq<Box>)
    requires forall p :: InBox(x, p) ==> !Covers(bs, p)
    ensures forall j :: 0 <= j < |bs| ==> !Intersects(x, bs[j])
  {
    forall j | 0 <= j < |bs|
      ensures !Intersects(x, bs[j])
    {
      IntersectsIffSharedPoint(x, bs[j]);
    }
  }

  /** A valid list denotes an empty region only when it has no members. */
  lemma EmptyRegionOfValidList(bs: seq<Box>)
    requires AllOk(bs)
    requires forall p :: !Covers(bs, p)
    ensures |bs| == 0
  {
    if |bs| > 0 {
      assert InBox(bs[0], bs[0].lo);
      assert Covers(bs, bs[0].lo);
    }
  }

  /** In a disjoint list the first member shares no point with the others,
      and the others stay disjoint. */
  lemma PrefixApart(bs: seq<Box>)
    requires |bs| > 0 && Disjoint(bs)
    ensures Disjoint(bs[1..])
    ensures forall p :: InBox(bs[0], p) ==> !Covers(bs[1..], p)
  {
    forall i, k | 0 <= i < k < |bs| - 1
      ensures !Intersects(bs[1..][i], bs[1..][k])
    {
      assert bs[i + 1] == bs[1..][i] && bs[k + 1] == bs[1..][k];
    }
    forall p | InBox(bs[0], p)
      ensures !Covers(bs[1..], p)
    {
      forall k | 0 <= k < |bs| - 1
        ensures !InBox(bs[1..][k], p)
      {
        assert bs[k + 1] == bs[1..][k];
        IntersectsIffSharedPoint(bs[0], bs[k + 1]);
      }
    }
  }
}
