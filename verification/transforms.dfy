/** Geometric transforms of boxes and of box lists: refinement and
    coarsening by an integer ratio, growth, translation and conversion
    between cell and node centring.  A list transform applies the box
    transform to every member and keeps the order and the number of
    members. */
module Transforms {
  import opened Boxes
  import opened BoxLists
  import opened Arith

  /** The indices of fine cells `lo * r .. (hi + 1) * r - 1` are exactly those
      whose coarse cell `x / r` lies in `lo .. hi`. */
  lemma CellRangeRefines(lo: int, hi: int, r: int, x: int)
    requires r >= 1
    ensures lo * r <= x <= (hi + 1) * r - 1 <==> lo <= x / r <= hi
  {
    FloorLower(lo, r, x);
    FloorLower(hi + 1, r, x);
  }

  /** Upward-rounding division, used for the upper corner of node-centred
      boxes. */
  function CeilDiv(a: int, r: int): (q: int)
    requires r >= 1
    ensures (q - 1) * r < a <= q * r
  {
    assert a == (a / r) * r + a % r;
    if a % r == 0 then a / r else a / r + 1
  }

  /** Scaling the rounded-up quotient back does not fall below `a`, and
      gives `a` back when `r` divides it. */
  lemma CeilScale(a: int, r: int)
    requires r >= 1
    ensures CeilDiv(a, r) * r >= a
    ensures a % r == 0 ==> CeilDiv(a, r) * r == a
  {
    assert a == (a / r) * r + a % r;
  }

  // ---------------------------------------------------------------------------
  // Box transforms

  /** A refinement or coarsening ratio: at least one in every direction. */
  predicate Positive(r: IntVect) {
    forall d :: 0 <= d < SpaceDim ==> r[d] >= 1
  }

  /** `Box::refine`: the lower corner is scaled; the upper corner of a
      cell-centred direction is moved to the last fine cell of the last
      coarse cell, that of a node-centred direction is scaled. */
  function RefineBox(b: Box, r: IntVect): (f: Box)
    requires Positive(r)
    ensures f.typ == b.typ
    ensures forall d :: 0 <= d < SpaceDim ==> f.lo[d] == b.lo[d] * r[d]
    ensures forall d :: 0 <= d < SpaceDim && b.typ[d] ==> f.hi[d] == b.hi[d] * r[d]
    ensures forall d :: 0 <= d < SpaceDim && !b.typ[d] ==> f.hi[d] == (b.hi[d] + 1) * r[d] - 1
  {
    Box(seq(SpaceDim, d requires 0 <= d < SpaceDim => b.lo[d] * r[d]),
        seq(SpaceDim, d requires 0 <= d < SpaceDim =>
          if b.typ[d] then b.hi[d] * r[d] else (b.hi[d] + 1) * r[d] - 1),
        b.typ)
  }

  /** `Box::coarsen`: corners are divided rounding down, except the upper
      corner of a node-centred direction, which rounds up. */
  function CoarsenBox(b: Box, r: IntVect): (c: Box)
    requires Positive(r)
    ensures c.typ == b.typ
    ensures forall d :: 0 <= d < SpaceDim ==> c.lo[d] == b.lo[d] / r[d]
    ensures forall d :: 0 <= d < SpaceDim && b.typ[d] ==> c.hi[d] == CeilDiv(b.hi[d], r[d])
    ensures forall d :: 0 <= d < SpaceDim && !b.typ[d] ==> c.hi[d] == b.hi[d] / r[d]
  {
    Box(seq(SpaceDim, d requires 0 <= d < SpaceDim => b.lo[d] / r[d]),
        seq(SpaceDim, d requires 0 <= d < SpaceDim =>
          if b.typ[d] then CeilDiv(b.hi[d], r[d]) else b.hi[d] / r[d]),
        b.typ)
  }

  /** The coarse point holding the fine point `p`. */
  function CoarsenPoint(p: IntVect, r: IntVect): (q: IntVect)
    requires Positive(r)
    ensures forall d :: 0 <= d < SpaceDim ==> q[d] * r[d] <= p[d] < (q[d] + 1) * r[d]
  {
    var q := seq(SpaceDim, d requires 0 <= d < SpaceDim => p[d] / r[d]);
    assert forall d :: 0 <= d < SpaceDim ==> p[d] == q[d] * r[d] + p[d] % r[d];
    q
  }

  function ScalePoint(p: IntVect, r: IntVect): IntVect {
    seq(SpaceDim, d requires 0 <= d < SpaceDim => p[d] * r[d])
  }

  /** Coarsening undoes refinement exactly. */
  lemma CoarsenRefineBox(b: Box, r: IntVect)
    requires Positive(r)
    ensures CoarsenBox(RefineBox(b, r), r) == b
  {
    var c := CoarsenBox(RefineBox(b, r), r);
    forall d | 0 <= d < SpaceDim
      ensures c.lo[d] == b.lo[d] && c.hi[d] == b.hi[d]
    {
      DivUnique(b.lo[d] * r[d], r[d], b.lo[d], 0);
      if b.typ[d] {
        DivUnique(b.hi[d] * r[d], r[d], b.hi[d], 0);
      } else {
        DivUnique((b.hi[d] + 1) * r[d] - 1, r[d], b.hi[d], r[d] - 1);
      }
    }
  }

  /** The corners of `b` lie on the coarse lattice of ratio `r`: the lower
      corner, and the upper corner (of the last cell, for cell centring). */
  predicate Aligned(b: Box, r: IntVect)
    requires Positive(r)
  {
    forall d :: 0 <= d < SpaceDim ==>
      b.lo[d] % r[d] == 0 && (if b.typ[d] then b.hi[d] else b.hi[d] + 1) % r[d] == 0
  }

  /** Refining a coarsened box gives back a box containing the original, and
      exactly the original when its corners are aligned with the ratio. */
  lemma RefineCoarsenBox(b: Box, r: IntVect)
    requires Positive(r)
    ensures ContainsBox(RefineBox(CoarsenBox(b, r), r), b)
    ensures Aligned(b, r) ==> RefineBox(CoarsenBox(b, r), r) == b
  {
    var f := RefineBox(CoarsenBox(b, r), r);
    forall d | 0 <= d < SpaceDim
      ensures f.lo[d] <= b.lo[d] && b.hi[d] <= f.hi[d]
      ensures Aligned(b, r) ==> f.lo[d] == b.lo[d] && f.hi[d] == b.hi[d]
    {
      FloorScale(b.lo[d], r[d]);
      if b.typ[d] {
        CeilScale(b.hi[d], r[d]);
      } else {
        CellTop(b.hi[d], r[d]);
      }
    }
    assert f.lo == b.lo && f.hi == b.hi ==> f == b;
  }

  /** Cell-centred refinement, point by point: a fine cell lies in the refined
      box exactly when its coarse cell lies in the box. */
  lemma RefineCellsMeaning(b: Box, r: IntVect, p: IntVect)
    requires Positive(r) && b.typ == CellType()
    ensures InBox(RefineBox(b, r), p) <==> InBox(b, CoarsenPoint(p, r))
  {
    var f := RefineBox(b, r);
    var q := CoarsenPoint(p, r);
    forall d | 0 <= d < SpaceDim
      ensures f.lo[d] <= p[d] <= f.hi[d] <==> b.lo[d] <= q[d] <= b.hi[d]
    {
      CellRangeRefines(b.lo[d], b.hi[d], r[d], p[d]);
    }
  }

  /** Every point of a box, scaled by the ratio, lies in the refined box;
      every point of a box, coarsened, lies in the coarsened box. */
  lemma RefineCoarsenKeepPoints(b: Box, r: IntVect, p: IntVect)
    requires Positive(r) && InBox(b, p)
    ensures InBox(RefineBox(b, r), ScalePoint(p, r))
    ensures InBox(CoarsenBox(b, r), CoarsenPoint(p, r))
  {
    var s := ScalePoint(p, r);
    var f := RefineBox(b, r);
    var c := CoarsenBox(b, r);
    var q := CoarsenPoint(p, r);
    forall d | 0 <= d < SpaceDim
      ensures f.lo[d] <= s[d] <= f.hi[d]
      ensures c.lo[d] <= q[d] <= c.hi[d]
    {
      MulMono(b.lo[d], p[d], r[d]);
      MulMono(p[d], b.hi[d], r[d]);
      DivMono(b.lo[d], p[d], r[d]);
      DivMono(p[d], b.hi[d], r[d]);
    }
  }

  /** `Box::grow`: each side moves outward by `v` (inward where negative). */
  function GrowBox(b: Box, v: IntVect): (g: Box)
    ensures g.typ == b.typ
    ensures forall d :: 0 <= d < SpaceDim ==> g.lo[d] == b.lo[d] - v[d] && g.hi[d] == b.hi[d] + v[d]
  {
    Box(seq(SpaceDim, d requires 0 <= d < SpaceDim => b.lo[d] - v[d]),
        seq(SpaceDim, d requires 0 <= d < SpaceDim => b.hi[d] + v[d]),
        b.typ)
  }

  function Negate(v: IntVect): (n: IntVect)
    ensures forall d :: 0 <= d < SpaceDim ==> n[d] == -v[d]
  {
    seq(SpaceDim, d requires 0 <= d < SpaceDim => -v[d])
  }

  /** `p` is within `v[d]` of `q` in every direction `d`. */
  predicate Near(p: IntVect, q: IntVect, v: IntVect) {
    forall d :: 0 <= d < SpaceDim ==> -v[d] <= p[d] - q[d] <= v[d]
  }

  /** The point of `b` nearest to `p`, direction by direction. */
  function Clamp(p: IntVect, b: Box): IntVect {
    seq(SpaceDim, d requires 0 <= d < SpaceDim => Max(b.lo[d], Min(p[d], b.hi[d])))
  }

  /** Growing a valid box by a non-negative amount adds exactly the points
      within that distance of the box. */
  lemma GrowMeaning(b: Box, v: IntVect, p: IntVect)
    requires Boxes.Ok(b)
    requires forall d :: 0 <= d < SpaceDim ==> v[d] >= 0
    ensures InBox(GrowBox(b, v), p) <==> exists q :: InBox(b, q) && Near(p, q, v)
  {
    if InBox(GrowBox(b, v), p) {
      var q := Clamp(p, b);
      assert InBox(b, q) && Near(p, q, v);
    }
  }

  /** Growing by `v` and then by `-v` restores the box. */
  lemma GrowShrinkBox(b: Box, v: IntVect)
    ensures GrowBox(GrowBox(b, v), Negate(v)) == b
  {
    var g := GrowBox(GrowBox(b, v), Negate(v));
    assert g.lo == b.lo && g.hi == b.hi;
  }

  /** `Box::shift(dir, n)`: translation by `n` cells in direction `dir`. */
  function ShiftBox(b: Box, dir: nat, n: int): (s: Box)
    requires dir < SpaceDim
    ensures s.typ == b.typ
  {
    b.(lo := b.lo[dir := b.lo[dir] + n], hi := b.hi[dir := b.hi[dir] + n])
  }

  /** A point lies in the shifted box exactly when the point moved back lies
      in the original. */
  lemma ShiftMeaning(b: Box, dir: nat, n: int, p: IntVect)
    requires dir < SpaceDim
    ensures InBox(ShiftBox(b, dir, n), p) <==> InBox(b, p[dir := p[dir] - n])
  {
  }

  lemma ShiftBackBox(b: Box, dir: nat, n: int)
    requires dir < SpaceDim
    ensures ShiftBox(ShiftBox(b, dir, n), dir, -n) == b
  {
    var s := ShiftBox(ShiftBox(b, dir, n), dir, -n);
    assert s.lo == b.lo && s.hi == b.hi;
  }

  function Flag(x: bool): int { if x then 1 else 0 }

  /** `Box::convert`: the centring becomes `t`; the upper corner grows by one
      in each direction that turns from cell to node and shrinks by one in
      each direction that turns from node to cell. */
  function ConvertBox(b: Box, t: IndexType): (c: Box)
    ensures c.typ == t && c.lo == b.lo
  {
    Box(b.lo, seq(SpaceDim, d requires 0 <= d < SpaceDim => b.hi[d] + Flag(t[d]) - Flag(b.typ[d])), t)
  }

  /** Converting back to the original centring restores the box. */
  lemma ConvertBackBox(b: Box, t: IndexType)
    ensures ConvertBox(ConvertBox(b, t), b.typ) == b
  {
    var c := ConvertBox(ConvertBox(b, t), b.typ);
    assert c.hi == b.hi;
  }

  /** `Box::surroundingNodes(dir)`: a cell-centred direction becomes
      node-centred, its upper corner moving to the last node; a node-centred
      direction is left alone. */
  function SurroundingNodesInBox(b: Box, dir: nat): (s: Box)
    requires dir < SpaceDim
  {
    if b.typ[dir] then b else Box(b.lo, b.hi[dir := b.hi[dir] + 1], b.typ[dir := true])
  }

  /** `Box::enclosedCells(dir)`: a node-centred direction becomes
      cell-centred, its upper corner moving to the last cell. */
  function EnclosedCellsInBox(b: Box, dir: nat): (s: Box)
    requires dir < SpaceDim
  {
    if !b.typ[dir] then b else Box(b.lo, b.hi[dir := b.hi[dir] - 1], b.typ[dir := false])
  }

  /** `Box::surroundingNodes()`: every direction node-centred. */
  function SurroundingNodesBox(b: Box): Box {
    SurroundingNodesInBox(SurroundingNodesInBox(SurroundingNodesInBox(b, 0), 1), 2)
  }

  /** `Box::enclosedCells()`: every direction cell-centred. */
  function EnclosedCellsBox(b: Box): Box {
    EnclosedCellsInBox(EnclosedCellsInBox(EnclosedCellsInBox(b, 0), 1), 2)
  }

  /** The one-direction conversions are conversions to the type with that
      one flag changed. */
  lemma SurroundingNodesInIsConvert(b: Box, dir: nat)
    requires dir < SpaceDim
    ensures SurroundingNodesInBox(b, dir) == ConvertBox(b, b.typ[dir := true])
  {
    var s := SurroundingNodesInBox(b, dir);
    var n := ConvertBox(b, b.typ[dir := true]);
    assert s.hi == n.hi;
  }

  lemma EnclosedCellsInIsConvert(b: Box, dir: nat)
    requires dir < SpaceDim
    ensures EnclosedCellsInBox(b, dir) == ConvertBox(b, b.typ[dir := false])
  {
    var s := EnclosedCellsInBox(b, dir);
    var c := ConvertBox(b, b.typ[dir := false]);
    assert s.hi == c.hi;
  }

  /** The all-direction conversions are conversions to the all-node and
      all-cell types. */
  lemma SurroundingNodesIsConvert(b: Box)
    ensures SurroundingNodesBox(b) == ConvertBox(b, NodeType())
  {
    var s := SurroundingNodesBox(b);
    var n := ConvertBox(b, NodeType());
    assert s.typ == n.typ;
    assert s.hi == n.hi;
  }

  lemma EnclosedCellsIsConvert(b: Box)
    ensures EnclosedCellsBox(b) == ConvertBox(b, CellType())
  {
    var e := EnclosedCellsBox(b);
    var c := ConvertBox(b, CellType());
    assert e.typ == c.typ;
    assert e.hi == c.hi;
  }

  /** Enclosing the cells of the surrounding nodes of a cell-centred box
      restores it. */
  lemma EnclosedOfSurroundingBox(b: Box)
    requires b.typ == CellType()
    ensures EnclosedCellsBox(SurroundingNodesBox(b)) == b
  {
    SurroundingNodesIsConvert(b);
    EnclosedCellsIsConvert(SurroundingNodesBox(b));
    ConvertBackBox(b, NodeType());
  }

  // ---------------------------------------------------------------------------
  // List transforms

  function MapBoxes(bs: seq<Box>, f: Box -> Box): (r: seq<Box>)
    ensures |r| == |bs|
    ensures forall k :: 0 <= k < |r| ==> r[k] == f(bs[k])
  {
    seq(|bs|, k requires 0 <= k < |bs| => f(bs[k]))
  }

  /** `refine(ratio)`, and the free function `refine(bl, ratio)` applied to a
      copy: every member refined; type and length kept. */
  function Refine(bl: BoxList, r: IntVect): (f: BoxList)
    requires Positive(r)
    ensures f.btype == bl.btype && Size(f) == Size(bl)
    ensures Typed(bl) ==> Typed(f)
    ensures forall k, p :: 0 <= k < Size(bl) && InBox(bl.boxes[k], p) ==>
      InBox(f.boxes[k], ScalePoint(p, r))
  {
    var f := BoxList(MapBoxes(bl.boxes, b => RefineBox(b, r)), bl.btype);
    forall k, p | 0 <= k < Size(bl) && InBox(bl.boxes[k], p)
      ensures InBox(f.boxes[k], ScalePoint(p, r))
    {
      RefineCoarsenKeepPoints(bl.boxes[k], r, p);
    }
    f
  }

  /** `coarsen(ratio)`: every member coarsened; type and length kept. */
  function Coarsen(bl: BoxList, r: IntVect): (c: BoxList)
    requires Positive(r)
    ensures c.btype == bl.btype && Size(c) == Size(bl)
    ensures Typed(bl) ==> Typed(c)
    ensures forall k, p :: 0 <= k < Size(bl) && InBox(bl.boxes[k], p) ==>
      InBox(c.boxes[k], CoarsenPoint(p, r))
  {
    var c := BoxList(MapBoxes(bl.boxes, b => CoarsenBox(b, r)), bl.btype);
    forall k, p | 0 <= k < Size(bl) && InBox(bl.boxes[k], p)
      ensures InBox(c.boxes[k], CoarsenPoint(p, r))
    {
      RefineCoarsenKeepPoints(bl.boxes[k], r, p);
    }
    c
  }

  /** The scalar-ratio forms `refine(int)` and `coarsen(int)`: the same
      ratio in every direction. */
  function RefineBy(bl: BoxList, ratio: int): (f: BoxList)
    requires ratio >= 1
    ensures f.btype == bl.btype && Size(f) == Size(bl)
    ensures Typed(bl) ==> Typed(f)
    ensures forall k, p :: 0 <= k < Size(bl) && InBox(bl.boxes[k], p) ==>
      InBox(f.boxes[k], ScalePoint(p, Uniform(ratio)))
  {
    Refine(bl, Uniform(ratio))
  }

  function CoarsenBy(bl: BoxList, ratio: int): (c: BoxList)
    requires ratio >= 1
    ensures c.btype == bl.btype && Size(c) == Size(bl)
    ensures Typed(bl) ==> Typed(c)
    ensures forall k, p :: 0 <= k < Size(bl) && InBox(bl.boxes[k], p) ==>
      InBox(c.boxes[k], CoarsenPoint(p, Uniform(ratio)))
  {
    Coarsen(bl, Uniform(ratio))
  }

  /** Coarsening a refined list gives back the list, member for member. */
  lemma CoarsenRefine(bl: BoxList, r: IntVect)
    requires Positive(r)
    ensures Coarsen(Refine(bl, r), r) == bl
  {
    var c := Coarsen(Refine(bl, r), r);
    forall k | 0 <= k < Size(bl)
      ensures c.boxes[k] == bl.boxes[k]
    {
      CoarsenRefineBox(bl.boxes[k], r);
    }
  }

  /** The scalar forms round-trip as the vector forms do. */
  lemma CoarsenByRefineBy(bl: BoxList, ratio: int)
    requires ratio >= 1
    ensures CoarsenBy(RefineBy(bl, ratio), ratio) == bl
  {
    CoarsenRefine(bl, Uniform(ratio));
  }

  /** Refining a coarsened list covers every original member, and gives back
      the list exactly when every member is aligned with the ratio. */
  lemma RefineCoarsen(bl: BoxList, r: IntVect)
    requires Positive(r)
    ensures forall k :: 0 <= k < Size(bl) ==> ContainsBox(Refine(Coarsen(bl, r), r).boxes[k], bl.boxes[k])
    ensures (forall k :: 0 <= k < Size(bl) ==> Aligned(bl.boxes[k], r)) ==> Refine(Coarsen(bl, r), r) == bl
  {
    var f := Refine(Coarsen(bl, r), r);
    forall k | 0 <= k < Size(bl)
      ensures ContainsBox(f.boxes[k], bl.boxes[k])
      ensures Aligned(bl.boxes[k], r) ==> f.boxes[k] == bl.boxes[k]
    {
      RefineCoarsenBox(bl.boxes[k], r);
    }
  }

  /** For a cell-centred list, the refined region is exactly the set of fine
      cells whose coarse cell lies in the region. */
  lemma RefineRegion(bl: BoxList, r: IntVect, p: IntVect)
    requires Positive(r) && Typed(bl) && bl.btype == CellType()
    ensures InRegion(Refine(bl, r), p) <==> InRegion(bl, CoarsenPoint(p, r))
  {
    var f := Refine(bl, r);
    forall k | 0 <= k < Size(bl)
      ensures InBox(f.boxes[k], p) <==> InBox(bl.boxes[k], CoarsenPoint(p, r))
    {
      RefineCellsMeaning(bl.boxes[k], r, p);
    }
  }

  /** `accrete(sz)`, and the free function `accrete(bl, sz)`: every member
      grown by `sz`; type and length kept. */
  function Accrete(bl: BoxList, v: IntVect): (g: BoxList)
    ensures g.btype == bl.btype && Size(g) == Size(bl)
    ensures Typed(bl) ==> Typed(g)
    ensures (forall d :: 0 <= d < SpaceDim ==> v[d] >= 0) ==>
      forall k :: 0 <= k < Size(bl) ==> ContainsBox(g.boxes[k], bl.boxes[k])
  {
    BoxList(MapBoxes(bl.boxes, b => GrowBox(b, v)), bl.btype)
  }

  /** The scalar form `accrete(int)`: the same growth in every direction. */
  function AccreteBy(bl: BoxList, sz: int): (g: BoxList)
    ensures g.btype == bl.btype && Size(g) == Size(bl)
    ensures Typed(bl) ==> Typed(g)
    ensures sz >= 0 ==> forall k :: 0 <= k < Size(bl) ==> ContainsBox(g.boxes[k], bl.boxes[k])
  {
    Accrete(bl, Uniform(sz))
  }

  /** Growing by `v` and then by `-v` restores the list. */
  lemma AccreteShrink(bl: BoxList, v: IntVect)
    ensures Accrete(Accrete(bl, v), Negate(v)) == bl
  {
    var g := Accrete(Accrete(bl, v), Negate(v));
    forall k | 0 <= k < Size(bl)
      ensures g.boxes[k] == bl.boxes[k]
    {
      GrowShrinkBox(bl.boxes[k], v);
    }
  }
  /** Growing by `sz` and then by `-sz` restores the list. */
  lemma AccreteByShrink(bl: BoxList, sz: int)
    ensures AccreteBy(AccreteBy(bl, sz), -sz) == bl
  {
    assert Negate(Uniform(sz)) == Uniform(-sz);
    AccreteShrink(bl, Uniform(sz));
  }


  /** For valid members and a non-negative `v`, the accreted region is the set
      of points within `v` of the region. */
  lemma AccreteRegion(bl: BoxList, v: IntVect, p: IntVect)
    requires AllOk(bl.boxes)
    requires forall d :: 0 <= d < SpaceDim ==> v[d] >= 0
    ensures InRegion(Accrete(bl, v), p) <==> exists q :: InRegion(bl, q) && Near(p, q, v)
  {
    var g := Accrete(bl, v);
    if InRegion(g, p) {
      var k :| 0 <= k < Size(g) && InBox(g.boxes[k], p);
      GrowMeaning(bl.boxes[k], v, p);
      var q :| InBox(bl.boxes[k], q) && Near(p, q, v);
      assert InRegion(bl, q);
    }
    if exists q :: InRegion(bl, q) && Near(p, q, v) {
      var q :| InRegion(bl, q) && Near(p, q, v);
      var k :| 0 <= k < Size(bl) && InBox(bl.boxes[k], q);
      GrowMeaning(bl.boxes[k], v, p);
      assert InBox(g.boxes[k], p);
    }
  }

  /** `shift(dir, nzones)`: every member translated. */
  function Shift(bl: BoxList, dir: nat, n: int): (s: BoxList)
    requires dir < SpaceDim
    ensures s.btype == bl.btype && Size(s) == Size(bl)
    ensures Typed(bl) ==> Typed(s)
  {
    BoxList(MapBoxes(bl.boxes, b => ShiftBox(b, dir, n)), bl.btype)
  }

  /** The shifted region is the region moved by `n` in direction `dir`. */
  lemma ShiftRegion(bl: BoxList, dir: nat, n: int, p: IntVect)
    requires dir < SpaceDim
    ensures InRegion(Shift(bl, dir, n), p) <==> InRegion(bl, p[dir := p[dir] - n])
  {
    var s := Shift(bl, dir, n);
    forall k | 0 <= k < Size(bl)
      ensures InBox(s.boxes[k], p) <==> InBox(bl.boxes[k], p[dir := p[dir] - n])
    {
      ShiftMeaning(bl.boxes[k], dir, n, p);
    }
  }

  lemma ShiftBack(bl: BoxList, dir: nat, n: int)
    requires dir < SpaceDim
    ensures Shift(Shift(bl, dir, n), dir, -n) == bl
  {
    var s := Shift(Shift(bl, dir, n), dir, -n);
    forall k | 0 <= k < Size(bl)
      ensures s.boxes[k] == bl.boxes[k]
    {
      ShiftBackBox(bl.boxes[k], dir, n);
    }
  }

  /** `convert(typ)`: every member converted, and the list takes the new
      type, so the result always keeps the container invariant. */
  function Convert(bl: BoxList, t: IndexType): (c: BoxList)
    ensures c.btype == t && Size(c) == Size(bl) && Typed(c)
  {
    BoxList(MapBoxes(bl.boxes, b => ConvertBox(b, t)), t)
  }

  /** Converting a typed list back to its own type restores it. */
  lemma ConvertBack(bl: BoxList, t: IndexType)
    requires Typed(bl)
    ensures Convert(Convert(bl, t), bl.btype) == bl
  {
    var c := Convert(Convert(bl, t), bl.btype);
    forall k | 0 <= k < Size(bl)
      ensures c.boxes[k] == bl.boxes[k]
    {
      ConvertBackBox(bl.boxes[k], t);
    }
  }

  /** `surroundingNodes()` and `enclosedCells()`: all directions node- or
      cell-centred; `surroundingNodes(dir)` and `enclosedCells(dir)`: the one
      direction only. */
  function SurroundingNodes(bl: BoxList): (s: BoxList)
    ensures s.btype == NodeType() && Size(s) == Size(bl) && Typed(s)
    ensures s == Convert(bl, NodeType())
  {
    var s := BoxList(MapBoxes(bl.boxes, SurroundingNodesBox), NodeType());
    forall k | 0 <= k < Size(bl)
      ensures s.boxes[k] == ConvertBox(bl.boxes[k], NodeType())
    {
      SurroundingNodesIsConvert(bl.boxes[k]);
    }
    s
  }

  function EnclosedCells(bl: BoxList): (s: BoxList)
    ensures s.btype == CellType() && Size(s) == Size(bl) && Typed(s)
    ensures s == Convert(bl, CellType())
  {
    var s := BoxList(MapBoxes(bl.boxes, EnclosedCellsBox), CellType());
    forall k | 0 <= k < Size(bl)
      ensures s.boxes[k] == ConvertBox(bl.boxes[k], CellType())
    {
      EnclosedCellsIsConvert(bl.boxes[k]);
    }
    s
  }

  function SurroundingNodesIn(bl: BoxList, dir: nat): (s: BoxList)
    requires dir < SpaceDim
    ensures s.btype == bl.btype[dir := true] && Size(s) == Size(bl)
    ensures Typed(bl) ==> s == Convert(bl, bl.btype[dir := true])
  {
    var s := BoxList(MapBoxes(bl.boxes, b => SurroundingNodesInBox(b, dir)), bl.btype[dir := true]);
    forall k | 0 <= k < Size(bl)
      ensures s.boxes[k] == ConvertBox(bl.boxes[k], bl.boxes[k].typ[dir := true])
    {
      SurroundingNodesInIsConvert(bl.boxes[k], dir);
    }
    s
  }

  function EnclosedCellsIn(bl: BoxList, dir: nat): (s: BoxList)
    requires dir < SpaceDim
    ensures s.btype == bl.btype[dir := false] && Size(s) == Size(bl)
    ensures Typed(bl) ==> s == Convert(bl, bl.btype[dir := false])
  {
    var s := BoxList(MapBoxes(bl.boxes, b => EnclosedCellsInBox(b, dir)), bl.btype[dir := false]);
    forall k | 0 <= k < Size(bl)
      ensures s.boxes[k] == ConvertBox(bl.boxes[k], bl.boxes[k].typ[dir := false])
    {
      EnclosedCellsInIsConvert(bl.boxes[k], dir);
    }
    s
  }

  /** Enclosing the cells of the surrounding nodes of a cell-centred list
      restores it. */
  lemma EnclosedOfSurrounding(bl: BoxList)
    requires Typed(bl) && bl.btype == CellType()
    ensures EnclosedCells(SurroundingNodes(bl)) == bl
  {
    var e := EnclosedCells(SurroundingNodes(bl));
    forall k | 0 <= k < Size(bl)
      ensures e.boxes[k] == bl.boxes[k]
    {
      EnclosedOfSurroundingBox(bl.boxes[k]);
    }
  }
}
