/** Set algebra on box lists: difference, complement, intersection, removal
    of empty members and of overlap, and containment.  Every operation is
    stated against the lattice-point region of its operands. */
module SetAlgebra {
  import opened Boxes
  import opened BoxLists
  import opened Carving

  /** `b` itself when valid, nothing otherwise: the starting point of a
      complement. */
  function Start(b: Box): (r: seq<Box>)
    ensures AllOk(r) && Disjoint(r) && AllInside(r, b) && AllOfType(r, b.typ)
    ensures forall p :: Covers(r, p) <==> InBox(b, p)
  {
    ContainsBoxRefl(b);
    OkIffHasPoint(b);
    forall p
      ensures Covers([b], p) <==> InBox(b, p)
    {
      CoversSingleton(b, p);
    }
    if Boxes.Ok(b) then [b] else []
  }

  /** `boxDiff(b1, b2)`: the part of `b1` outside `b2`, as disjoint valid
      boxes inside `b1`, typed like `b1`. */
  function BoxDiff(b1: Box, b2: Box): (r: BoxList)
    ensures r.btype == b1.typ && BoxLists.Ok(r) && IsDisjoint(r)
    ensures AllInside(r.boxes, b1)
    ensures Size(r) <= 2 * SpaceDim
    ensures forall p :: InRegion(r, p) <==> InBox(b1, p) && !InBox(b2, p)
  {
    DiffExact(b1, b2);
    BoxList(Diff(b1, b2), b1.typ)
  }

  /** `complementIn(b, bl)`: the part of `b` covered by no member of `bl`, as
      disjoint valid boxes inside `b`, typed like `b`. */
  function ComplementIn(b: Box, bl: BoxList): (r: BoxList)
    requires b.typ == bl.btype
    ensures r.btype == b.typ && BoxLists.Ok(r) && IsDisjoint(r)
    ensures AllInside(r.boxes, b)
    ensures forall p :: InRegion(r, p) <==> InBox(b, p) && !InRegion(bl, p)
  {
    DiffAllExact(Start(b), bl.boxes);
    DiffAllKeeps(Start(b), bl.boxes, b, b.typ);
    BoxList(DiffAll(Start(b), bl.boxes), b.typ)
  }

  /** `parallelComplementIn`: the same set operation as `complementIn`; the
      threads only change how the work is scheduled. */
  function ParallelComplementIn(b: Box, bl: BoxList): (r: BoxList)
    requires b.typ == bl.btype
    ensures r.btype == b.typ && BoxLists.Ok(r) && IsDisjoint(r)
    ensures AllInside(r.boxes, b)
    ensures forall p :: InRegion(r, p) <==> InBox(b, p) && !InRegion(bl, p)
  {
    ComplementIn(b, bl)
  }

  /** When some member of `bl` contains `b`, nothing of `b` is left. */
  lemma ComplementInOfCoveringMember(b: Box, bl: BoxList, k: nat)
    requires b.typ == bl.btype
    requires k < Size(bl) && ContainsBox(bl.boxes[k], b)
    ensures IsEmpty(ComplementIn(b, bl))
  {
    var r := ComplementIn(b, bl);
    ContainsBoxMeaning(bl.boxes[k], b);
    forall p
      ensures !Covers(r.boxes, p)
    {
      if InBox(b, p) {
        assert InRegion(bl, p);
      }
    }
    EmptyRegionOfValidList(r.boxes);
  }

  // ---------------------------------------------------------------------------
  // Intersection

  /** Every box of `bs` intersected with `b`, in order. */
  function Clip(bs: seq<Box>, b: Box): (r: seq<Box>)
    ensures |r| == |bs|
    ensures forall k :: 0 <= k < |r| ==> r[k] == Boxes.Intersect(bs[k], b)
  {
    seq(|bs|, k requires 0 <= k < |bs| => Boxes.Intersect(bs[k], b))
  }

  lemma ClipRegion(bs: seq<Box>, b: Box)
    ensures forall p :: Covers(Clip(bs, b), p) <==> Covers(bs, p) && InBox(b, p)
    ensures AllInside(Clip(bs, b), b)
    ensures forall t :: AllOfType(bs, t) ==> AllOfType(Clip(bs, b), t)
  {
    var r := Clip(bs, b);
    forall p
      ensures Covers(r, p) <==> Covers(bs, p) && InBox(b, p)
    {
      if Covers(r, p) {
        var k :| 0 <= k < |r| && InBox(r[k], p);
        assert InBox(bs[k], p);
      }
      if Covers(bs, p) && InBox(b, p) {
        var k :| 0 <= k < |bs| && InBox(bs[k], p);
        assert InBox(r[k], p);
      }
    }
  }

  /** `intersect(b)`: each member replaced by its intersection with `b`.
      Members whose intersection is empty stay as empty boxes until
      `removeEmpty`. */
  function IntersectBox(bl: BoxList, b: Box): (r: BoxList)
    requires b.typ == bl.btype
    ensures Size(r) == Size(bl) && r.btype == bl.btype
    ensures Typed(bl) ==> Typed(r)
    ensures AllInside(r.boxes, b)
    ensures forall p :: InRegion(r, p) <==> InRegion(bl, p) && InBox(b, p)
  {
    ClipRegion(bl.boxes, b);
    BoxList(Clip(bl.boxes, b), bl.btype)
  }

  /** Intersecting twice with the same box changes nothing more: the second
      call returns exactly the first call's list. */
  lemma IntersectBoxIdempotent(bl: BoxList, b: Box)
    requires b.typ == bl.btype
    ensures IntersectBox(IntersectBox(bl, b), b) == IntersectBox(bl, b)
  {
    var once := IntersectBox(bl, b);
    var twice := IntersectBox(once, b);
    forall k | 0 <= k < Size(once)
      ensures twice.boxes[k] == once.boxes[k]
    {
      var x := once.boxes[k];
      var y := twice.boxes[k];
      assert y.lo == x.lo;
      assert y.hi == x.hi;
    }
  }

  /** The complement of `bl` in `b` and the intersection of `bl` with `b`
      split `b`: each point of `b` lies in exactly one of the two, and no
      complement box meets a member of `bl`. */
  lemma ComplementAndIntersectionSplitBox(b: Box, bl: BoxList)
    requires b.typ == bl.btype
    ensures forall p :: InBox(b, p) ==>
      (InRegion(ComplementIn(b, bl), p) <==> !InRegion(IntersectBox(bl, b), p))
    ensures forall p :: InRegion(ComplementIn(b, bl), p) || InRegion(IntersectBox(bl, b), p) ==> InBox(b, p)
    ensures forall i, j :: 0 <= i < Size(ComplementIn(b, bl)) && 0 <= j < Size(bl) ==>
      !Intersects(ComplementIn(b, bl).boxes[i], bl.boxes[j])
  {
    var c := ComplementIn(b, bl);
    forall i | 0 <= i < Size(c)
      ensures forall j :: 0 <= j < Size(bl) ==> !Intersects(c.boxes[i], bl.boxes[j])
    {
      forall p | InBox(c.boxes[i], p)
        ensures !Covers(bl.boxes, p)
      {
        assert InRegion(c, p);
      }
      ApartFromRegion(c.boxes[i], bl.boxes);
    }
  }

  /** All pairwise intersections of members of `xs` with members of `ys`,
      row by row. */
  function Pairwise(xs: seq<Box>, ys: seq<Box>): (r: seq<Box>)
    ensures |r| == |xs| * |ys|
  {
    if |xs| == 0 then []
    else
      var rest := Pairwise(xs[1..], ys);
      assert |xs| * |ys| == |ys| + |xs[1..]| * |ys|;
      Clip(ys, xs[0]) + rest
  }

  lemma {:induction false} PairwiseRegion(xs: seq<Box>, ys: seq<Box>, t: IndexType)
    ensures forall p :: Covers(Pairwise(xs, ys), p) <==> Covers(xs, p) && Covers(ys, p)
    ensures AllOfType(ys, t) ==> AllOfType(Pairwise(xs, ys), t)
  {
    if |xs| > 0 {
      var head := Clip(ys, xs[0]);
      PairwiseRegion(xs[1..], ys, t);
      ClipRegion(ys, xs[0]);
      CoversAppendAll(head, Pairwise(xs[1..], ys));
      assert [xs[0]] + xs[1..] == xs;
      CoversAppendAll([xs[0]], xs[1..]);
      forall p
        ensures Covers([xs[0]], p) <==> InBox(xs[0], p)
      {
        CoversSingleton(xs[0], p);
      }
      if AllOfType(ys, t) {
        AppendKeeps(head, Pairwise(xs[1..], ys), xs[0], t);
      }
    }
  }

  /** `intersect(bl)` with another list of the same type: the region becomes
      the intersection of the two regions. */
  function IntersectList(bl: BoxList, other: BoxList): (r: BoxList)
    requires other.btype == bl.btype
    ensures Size(r) == Size(bl) * Size(other) && r.btype == bl.btype
    ensures Typed(other) ==> Typed(r)
    ensures forall p :: InRegion(r, p) <==> InRegion(bl, p) && InRegion(other, p)
  {
    PairwiseRegion(bl.boxes, other.boxes, bl.btype);
    BoxList(Pairwise(bl.boxes, other.boxes), bl.btype)
  }

  // ---------------------------------------------------------------------------
  // Removing empty members

  /** `a` is `b` with some elements deleted, the rest kept in order. */
  ghost predicate Subsequence(a: seq<Box>, b: seq<Box>)
    decreases |b|
  {
    if |a| == 0 then true
    else if |b| == 0 then false
    else (a[0] == b[0] && Subsequence(a[1..], b[1..])) || Subsequence(a, b[1..])
  }

  /** Number of valid members of `bs`. */
  function CountValid(bs: seq<Box>): nat
  {
    if |bs| == 0 then 0 else (if Boxes.Ok(bs[0]) then 1 else 0) + CountValid(bs[1..])
  }

  /** The valid members of `bs`, in order. */
  function KeepValid(bs: seq<Box>): (r: seq<Box>)
    ensures AllOk(r)
    ensures Subsequence(r, bs)
    ensures |r| == CountValid(bs)
    ensures forall p :: Covers(r, p) <==> Covers(bs, p)
    ensures forall t :: AllOfType(bs, t) ==> AllOfType(r, t)
  {
    if |bs| == 0 then []
    else
      var rest := KeepValid(bs[1..]);
      assert [bs[0]] + bs[1..] == bs;
      CoversAppendAll([bs[0]], bs[1..]);
      forall p
        ensures Covers([bs[0]], p) <==> InBox(bs[0], p)
      {
        CoversSingleton(bs[0], p);
      }
      if Boxes.Ok(bs[0]) then
        var r := [bs[0]] + rest;
        assert r[1..] == rest;
        CoversAppendAll([bs[0]], rest);
        forall t | AllOfType(bs, t)
          ensures AllOfType(r, t)
        {
          assert AllOfType(bs[1..], t);
        }
        r
      else
        OkIffHasPoint(bs[0]);
        forall t | AllOfType(bs, t)
          ensures AllOfType(rest, t)
        {
          assert AllOfType(bs[1..], t);
        }
        rest
  }

  /** `removeEmpty`: drops exactly the empty members, keeping the others in
      order; the region does not change. */
  function RemoveEmpty(bl: BoxList): (r: BoxList)
    ensures r.btype == bl.btype
    ensures AllOk(r.boxes) && Subsequence(r.boxes, bl.boxes) && Size(r) == CountValid(bl.boxes)
    ensures Typed(bl) ==> BoxLists.Ok(r)
    ensures forall p :: InRegion(r, p) <==> InRegion(bl, p)
  {
    BoxList(KeepValid(bl.boxes), bl.btype)
  }

  // ---------------------------------------------------------------------------
  // Removing overlap

  /** Adds the members of `rest` one by one to the disjoint list `acc`, each
      reduced to its part outside what `acc` already covers. */
  function Disjointify(acc: seq<Box>, rest: seq<Box>): seq<Box>
    decreases |rest|
  {
    if |rest| == 0 then acc
    else Disjointify(acc + DiffAll(Start(rest[0]), acc), rest[1..])
  }

  lemma {:induction false} DisjointifyExact(acc: seq<Box>, rest: seq<Box>, t: IndexType)
    requires AllOk(acc) && Disjoint(acc)
    ensures forall p :: Covers(Disjointify(acc, rest), p) <==> Covers(acc, p) || Covers(rest, p)
    ensures AllOk(Disjointify(acc, rest)) && Disjoint(Disjointify(acc, rest))
    ensures AllOfType(acc, t) && AllOfType(rest, t) ==> AllOfType(Disjointify(acc, rest), t)
    decreases |rest|
  {
    if |rest| > 0 {
      var x := rest[0];
      var added := DiffAll(Start(x), acc);
      DiffAllExact(Start(x), acc);
      DiffAllKeeps(Start(x), acc, x, x.typ);
      forall i, j | 0 <= i < |acc| && 0 <= j < |added|
        ensures !Intersects(acc[i], added[j])
      {
        ApartFromRegion(added[j], acc);
        IntersectsSymmetric(acc[i], added[j]);
      }
      DisjointAppend(acc, added);
      AppendKeeps(acc, added, x, t);
      CoversAppendAll(acc, added);
      DisjointifyExact(acc + added, rest[1..], t);
      assert [x] + rest[1..] == rest;
      CoversAppendAll([x], rest[1..]);
      forall p
        ensures Covers([x], p) <==> InBox(x, p)
      {
        CoversSingleton(x, p);
      }
      if AllOfType(rest, t) {
        assert AllOfType(rest[1..], t);
      }
    }
  }

  /** `removeOverlap`: a list with the same region whose members do not
      overlap. */
  function RemoveOverlap(bl: BoxList): (r: BoxList)
    ensures r.btype == bl.btype
    ensures AllOk(r.boxes) && IsDisjoint(r)
    ensures Typed(bl) ==> Typed(r)
    ensures forall p :: InRegion(r, p) <==> InRegion(bl, p)
  {
    DisjointifyExact([], bl.boxes, bl.btype);
    BoxList(Disjointify([], bl.boxes), bl.btype)
  }

  // ---------------------------------------------------------------------------
  // Containment

  /** `contains(other)`: every member of `other` is used up by the members of
      `bl`, i.e. leaves nothing when carved against them. */
  predicate Contains(bl: BoxList, other: BoxList)
    requires other.btype == bl.btype
  {
    forall k :: 0 <= k < Size(other) ==> |DiffAll(Start(other.boxes[k]), bl.boxes)| == 0
  }

  /** `contains` holds exactly when the region of `other` lies within the
      region of `bl`. */
  lemma ContainsMeaning(bl: BoxList, other: BoxList)
    requires other.btype == bl.btype
    ensures Contains(bl, other) <==> forall p :: InRegion(other, p) ==> InRegion(bl, p)
  {
    forall k | 0 <= k < Size(other)
      ensures |DiffAll(Start(other.boxes[k]), bl.boxes)| == 0 <==>
              forall p :: InBox(other.boxes[k], p) ==> InRegion(bl, p)
    {
      var r := DiffAll(Start(other.boxes[k]), bl.boxes);
      DiffAllExact(Start(other.boxes[k]), bl.boxes);
      if forall p :: InBox(other.boxes[k], p) ==> InRegion(bl, p) {
        EmptyRegionOfValidList(r);
      }
    }
    if forall p :: InRegion(other, p) ==> InRegion(bl, p) {
      forall k, p | 0 <= k < Size(other) && InBox(other.boxes[k], p)
        ensures InRegion(bl, p)
      {
        assert InRegion(other, p);
      }
    }
  }
}
