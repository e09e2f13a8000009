/** The box list container: an ordered sequence of boxes that all share one
    index type.  Its region is the union of its members; order and
    repetition matter to equality but not to the region. */
module BoxLists {
  import opened Boxes

  datatype BoxList = BoxList(boxes: seq<Box>, btype: IndexType)

  /** The invariant the container keeps: every member has the list's index type. */
  predicate Typed(bl: BoxList) {
    AllOfType(bl.boxes, bl.btype)
  }

  /** The lattice point `p` lies in the region of `bl`. */
  predicate InRegion(bl: BoxList, p: IntVect) {
    Covers(bl.boxes, p)
  }

  // ---------------------------------------------------------------------------
  // Construction

  /** An empty list of cell-centred boxes. */
  function Empty(): (r: BoxList)
    ensures Typed(r) && r.btype == CellType()
    ensures Size(r) == 0 && forall p :: !InRegion(r, p)
  {
    BoxList([], CellType())
  }

  /** An empty list of boxes of type `btyp`. */
  function OfType(btyp: IndexType): (r: BoxList)
    ensures Typed(r) && r.btype == btyp
    ensures Size(r) == 0 && forall p :: !InRegion(r, p)
  {
    BoxList([], btyp)
  }

  /** The list holding the single box `bx`. */
  function Single(bx: Box): (r: BoxList)
    ensures Typed(r) && r.btype == bx.typ && Size(r) == 1
    ensures forall p :: InRegion(r, p) <==> InBox(bx, p)
  {
    var r := BoxList([bx], bx.typ);
    assert forall p :: InRegion(r, p) <==> InBox(bx, p) by {
      forall p
        ensures InRegion(r, p) <==> InBox(bx, p)
      {
        CoversSingleton(bx, p);
      }
    }
    r
  }

  /** A list taking over the boxes `bxs`; its type is that of the first box,
      cell-centred when there is none. */
  function FromBoxes(bxs: seq<Box>): (r: BoxList)
    ensures r.boxes == bxs
    ensures |bxs| > 0 ==> r.btype == bxs[0].typ
    ensures |bxs| == 0 ==> r.btype == CellType()
    ensures (forall i, j :: 0 <= i < j < |bxs| ==> bxs[i].typ == bxs[j].typ) ==> Typed(r)
  {
    BoxList(bxs, if |bxs| > 0 then bxs[0].typ else CellType())
  }

  // ---------------------------------------------------------------------------
  // Container operations

  function Size(bl: BoxList): nat {
    |bl.boxes|
  }

  predicate IsEmpty(bl: BoxList) {
    |bl.boxes| == 0
  }

  predicate IsNotEmpty(bl: BoxList) {
    !IsEmpty(bl)
  }

  function IxType(bl: BoxList): IndexType {
    bl.btype
  }

  /** An empty list has an empty region, and a list with an empty region has
      no valid member. */
  lemma EmptyMeansNoRegion(bl: BoxList)
    ensures IsEmpty(bl) ==> forall p :: !InRegion(bl, p)
    ensures (forall p :: !InRegion(bl, p)) ==> forall k :: 0 <= k < Size(bl) ==> !Boxes.Ok(bl.boxes[k])
  {
    forall k | 0 <= k < Size(bl) && Boxes.Ok(bl.boxes[k])
      ensures exists p :: InRegion(bl, p)
    {
      assert InBox(bl.boxes[k], bl.boxes[k].lo);
      assert InRegion(bl, bl.boxes[k].lo);
    }
  }

  /** Appends `bn`, whose type must be the list's. */
  function PushBack(bl: BoxList, bn: Box): (r: BoxList)
    requires bn.typ == bl.btype
    ensures r.boxes == bl.boxes + [bn] && r.btype == bl.btype
    ensures Typed(bl) ==> Typed(r)
    ensures forall p :: InRegion(r, p) <==> InRegion(bl, p) || InBox(bn, p)
  {
    var r := BoxList(bl.boxes + [bn], bl.btype);
    assert forall p :: InRegion(r, p) <==> InRegion(bl, p) || InBox(bn, p) by {
      forall p
        ensures InRegion(r, p) <==> InRegion(bl, p) || InBox(bn, p)
      {
        CoversAppend(bl.boxes, [bn], p);
        CoversSingleton(bn, p);
      }
    }
    r
  }

  /** The first member. */
  function Front(bl: BoxList): (b: Box)
    requires IsNotEmpty(bl)
    ensures b in bl.boxes
    ensures Typed(bl) ==> b.typ == bl.btype
  {
    bl.boxes[0]
  }

  /** Appends copies of the members of `other`, which must share the list's type. */
  function Join(bl: BoxList, other: BoxList): (r: BoxList)
    requires other.btype == bl.btype
    ensures r.boxes == bl.boxes + other.boxes && r.btype == bl.btype
    ensures Typed(bl) && Typed(other) ==> Typed(r)
    ensures forall p :: InRegion(r, p) <==> InRegion(bl, p) || InRegion(other, p)
  {
    var r := BoxList(bl.boxes + other.boxes, bl.btype);
    CoversAppendAll(bl.boxes, other.boxes);
    AppendKeeps(bl.boxes, other.boxes, Box(Uniform(0), Uniform(0), bl.btype), bl.btype);
    r
  }

  /** Appends the boxes `bxs`, each of which must have the list's type. */
  function JoinBoxes(bl: BoxList, bxs: seq<Box>): (r: BoxList)
    requires AllOfType(bxs, bl.btype)
    ensures r.boxes == bl.boxes + bxs && r.btype == bl.btype
    ensures Typed(bl) ==> Typed(r)
    ensures forall p :: InRegion(r, p) <==> InRegion(bl, p) || Covers(bxs, p)
  {
    Join(bl, BoxList(bxs, bl.btype))
  }

  /** Moves the members of `other` to the end of the list: the first result is
      the extended list, the second what is left of `other` (no boxes, its
      type unchanged). */
  function Catenate(bl: BoxList, other: BoxList): (r: (BoxList, BoxList))
    requires other.btype == bl.btype
    ensures r.0.boxes == bl.boxes + other.boxes && r.0.btype == bl.btype
    ensures IsEmpty(r.1) && r.1.btype == other.btype
    ensures Typed(bl) && Typed(other) ==> Typed(r.0)
    ensures forall p :: InRegion(r.0, p) <==> InRegion(bl, p) || InRegion(other, p)
  {
    (Join(bl, other), other.(boxes := []))
  }

  /** Removes every member; the type is kept. */
  function Clear(bl: BoxList): (r: BoxList)
    ensures IsEmpty(r) && r.btype == bl.btype && Typed(r)
  {
    bl.(boxes := [])
  }

  /** Changes the type of an empty list. */
  function Set(bl: BoxList, ixtyp: IndexType): (r: BoxList)
    requires IsEmpty(bl)
    ensures IxType(r) == ixtyp && IsEmpty(r) && Typed(r)
  {
    BoxList(bl.boxes, ixtyp)
  }

  /** Exchanges the contents and types of two lists. */
  function Swap(a: BoxList, b: BoxList): (r: (BoxList, BoxList))
    ensures r.0.boxes == b.boxes && r.0.btype == b.btype
    ensures r.1.boxes == a.boxes && r.1.btype == a.btype
  {
    (b, a)
  }

  /** How the constructors and container operations set the count and the
      emptiness queries. */
  lemma SizeCounts(bl: BoxList, bn: Box, other: BoxList)
    ensures IsEmpty(bl) <==> Size(bl) == 0
    ensures IsNotEmpty(bl) <==> Size(bl) > 0
    ensures Size(Empty()) == 0 && Size(Single(bn)) == 1 && Size(Clear(bl)) == 0
    ensures bn.typ == bl.btype ==> Size(PushBack(bl, bn)) == Size(bl) + 1
    ensures other.btype == bl.btype ==> Size(Join(bl, other)) == Size(bl) + Size(other)
  {
  }

  /** The index type the constructors give, the container operations keep,
      and the members of a well-typed list share. */
  lemma IxTypeKept(bl: BoxList, bn: Box, other: BoxList, t: IndexType)
    ensures IxType(Empty()) == CellType() && IxType(OfType(t)) == t && IxType(Single(bn)) == bn.typ
    ensures IxType(Clear(bl)) == IxType(bl)
    ensures bn.typ == bl.btype ==> IxType(PushBack(bl, bn)) == IxType(bl)
    ensures other.btype == bl.btype ==> IxType(Join(bl, other)) == IxType(bl)
    ensures Typed(bl) && IsNotEmpty(bl) ==> IxType(bl) == Front(bl).typ
  {
  }

  /** List equality compares the members in order, not the regions. */
  predicate Equal(a: BoxList, b: BoxList) {
    a.boxes == b.boxes
  }

  predicate NotEqual(a: BoxList, b: BoxList) {
    !Equal(a, b)
  }

  /** Two lists are equal exactly when they have the same members in the
      same order, and not equal otherwise. */
  lemma EqualMeaning(a: BoxList, b: BoxList)
    ensures Equal(a, b) <==> Size(a) == Size(b) && forall k :: 0 <= k < Size(a) ==> a.boxes[k] == b.boxes[k]
    ensures NotEqual(a, b) <==> !Equal(a, b)
  {
  }

  /** Equal lists denote the same region; the converse fails: the same
      region listed in another order is not equal. */
  lemma EqualIsStrongerThanSameRegion(a: BoxList, b: BoxList)
    ensures Equal(a, b) ==> SameRegion(a.boxes, b.boxes)
    ensures var x := Box(Uniform(0), Uniform(0), a.btype);
            var y := Box(Uniform(1), Uniform(1), a.btype);
            SameRegion([x, y], [y, x]) && NotEqual(BoxList([x, y], a.btype), BoxList([y, x], a.btype))
  {
    var x := Box(Uniform(0), Uniform(0), a.btype);
    var y := Box(Uniform(1), Uniform(1), a.btype);
    CoversAppendAll([x], [y]);
    CoversAppendAll([y], [x]);
    forall p
      ensures Covers([x], p) <==> InBox(x, p)
      ensures Covers([y], p) <==> InBox(y, p)
    {
      CoversSingleton(x, p);
      CoversSingleton(y, p);
    }
    assert [x] + [y] == [x, y] && [y] + [x] == [y, x];
    assert x.lo[0] != y.lo[0];
    assert [x, y][0] != [y, x][0];
  }

  // ---------------------------------------------------------------------------
  // Queries

  /** Every member is valid and has the list's type (vacuously so for an
      empty list). */
  predicate Ok(bl: BoxList) {
    AllOk(bl.boxes) && Typed(bl)
  }

  /** `ok` of an empty list, of a list with one more box, and of a joined
      list, in terms of the parts. */
  lemma OkComposes(bl: BoxList, bn: Box, other: BoxList)
    ensures IsEmpty(bl) ==> Ok(bl)
    ensures bn.typ == bl.btype ==> (Ok(PushBack(bl, bn)) <==> Ok(bl) && Boxes.Ok(bn))
    ensures other.btype == bl.btype ==> (Ok(Join(bl, other)) <==> Ok(bl) && Ok(other))
  {
    if bn.typ == bl.btype {
      var r := PushBack(bl, bn);
      assert r.boxes[|bl.boxes|] == bn;
      assert forall k :: 0 <= k < |bl.boxes| ==> r.boxes[k] == bl.boxes[k];
    }
    if other.btype == bl.btype {
      var r := Join(bl, other);
      assert forall k :: 0 <= k < |bl.boxes| ==> r.boxes[k] == bl.boxes[k];
      assert forall k :: 0 <= k < |other.boxes| ==> r.boxes[|bl.boxes| + k] == other.boxes[k];
    }
  }

  /** No two members intersect. */
  predicate IsDisjoint(bl: BoxList) {
    Disjoint(bl.boxes)
  }

  /** `isDisjoint` holds exactly when no lattice point lies in two members. */
  lemma IsDisjointMeaning(bl: BoxList)
    ensures IsDisjoint(bl) <==>
      forall i, j, p :: 0 <= i < j < Size(bl) && InBox(bl.boxes[i], p) ==> !InBox(bl.boxes[j], p)
  {
    DisjointIffNoSharedPoint(bl.boxes);
  }

  /** Corner-wise hull of a non-empty sequence of boxes. */
  function Bounds(bs: seq<Box>): (r: Box)
    requires |bs| > 0
    ensures r.typ == bs[0].typ
    ensures AllInside(bs, r)
    ensures forall d :: 0 <= d < SpaceDim ==> exists k :: 0 <= k < |bs| && r.lo[d] == bs[k].lo[d]
    ensures forall d :: 0 <= d < SpaceDim ==> exists k :: 0 <= k < |bs| && r.hi[d] == bs[k].hi[d]
  {
    if |bs| == 1 then bs[0]
    else
      var rest := Bounds(bs[1..]);
      var r := Hull(bs[0], rest);
      assert forall k :: 1 <= k < |bs| ==> bs[k] == bs[1..][k - 1];
      forall k | 1 <= k < |bs|
        ensures ContainsBox(r, bs[k])
      {
        ContainsBoxTrans(r, rest, bs[k]);
      }
      forall d | 0 <= d < SpaceDim
        ensures exists k :: 0 <= k < |bs| && r.lo[d] == bs[k].lo[d]
        ensures exists k :: 0 <= k < |bs| && r.hi[d] == bs[k].hi[d]
      {
        var j :| 0 <= j < |bs[1..]| && rest.lo[d] == bs[1..][j].lo[d];
        var j' :| 0 <= j' < |bs[1..]| && rest.hi[d] == bs[1..][j'].hi[d];
        if r.lo[d] != bs[0].lo[d] {
          assert r.lo[d] == bs[j + 1].lo[d];
        }
        if r.hi[d] != bs[0].hi[d] {
          assert r.hi[d] == bs[j' + 1].hi[d];
        }
      }
      r
  }

  /** The smallest box containing every member; an empty list yields an
      empty box of the list's type. */
  function MinimalBox(bl: BoxList): (r: Box)
    ensures AllInside(bl.boxes, r)
    ensures Typed(bl) ==> r.typ == bl.btype
    ensures IsEmpty(bl) ==> !Boxes.Ok(r)
    ensures forall p :: InRegion(bl, p) ==> InBox(r, p)
  {
    if IsEmpty(bl) then
      var r := Box(Uniform(1), Uniform(0), bl.btype);
      assert r.lo[0] > r.hi[0];
      r
    else
      var r := Bounds(bl.boxes);
      forall p | InRegion(bl, p)
        ensures InBox(r, p)
      {
        var k :| 0 <= k < |bl.boxes| && InBox(bl.boxes[k], p);
        ContainsBoxMeaning(r, bl.boxes[k]);
      }
      r
  }

  /** Of the boxes containing every member of a non-empty list, the minimal
      box is the smallest: each of them contains it. */
  lemma MinimalBoxIsLeast(bl: BoxList, outer: Box)
    requires IsNotEmpty(bl)
    requires AllInside(bl.boxes, outer)
    ensures ContainsBox(outer, MinimalBox(bl))
  {
    var r := MinimalBox(bl);
    forall d | 0 <= d < SpaceDim
      ensures outer.lo[d] <= r.lo[d] && r.hi[d] <= outer.hi[d]
    {
      var j :| 0 <= j < |bl.boxes| && r.lo[d] == bl.boxes[j].lo[d];
      var j' :| 0 <= j' < |bl.boxes| && r.hi[d] == bl.boxes[j'].hi[d];
      assert ContainsBox(outer, bl.boxes[j]) && ContainsBox(outer, bl.boxes[j']);
    }
  }
}
