/** Splitting boxes: the tile constructor, the two chopping constructors
    and `maxSize`.  Every one of them replaces a box by pieces that cover
    exactly the same lattice points without overlapping. */
module Chopping {
  import opened Boxes
  import opened BoxLists
  import opened Spans
  import opened Arith

  /** How a side is cut: into tiles of exactly `size` indices from the low
      end (the last tile takes the remainder), or into the fewest balanced
      pieces of at most `chunk` indices. */
  datatype CutRule = TileBy(size: IntVect) | LimitTo(chunk: IntVect)

  /** The longest side a piece may keep in direction `d`. */
  function Limit(rule: CutRule, d: nat): int
    requires d < SpaceDim
  {
    match rule
    case TileBy(size) => size[d]
    case LimitTo(chunk) => chunk[d]
  }

  predicate ValidRule(rule: CutRule) {
    forall d :: 0 <= d < SpaceDim ==> Limit(rule, d) >= 1
  }

  /** Every member of `bs` has at most `n` indices in direction `d`. */
  predicate BoundedIn(bs: seq<Box>, d: nat, n: int)
    requires d < SpaceDim
  {
    forall k :: 0 <= k < |bs| ==> Length(bs[k], d) <= n
  }

  /** Every member of `bs` ends at index `v` in direction `d`. */
  predicate EndsAt(bs: seq<Box>, d: nat, v: int)
    requires d < SpaceDim
  {
    forall k :: 0 <= k < |bs| ==> bs[k].hi[d] == v
  }

  /** Every member of `bs` is a full tile of `size` indices in direction `d`,
      or the remainder tile ending at `v`. */
  predicate TileShaped(bs: seq<Box>, d: nat, size: int, v: int)
    requires d < SpaceDim
  {
    forall k :: 0 <= k < |bs| ==> Length(bs[k], d) == size || bs[k].hi[d] == v
  }

  /** The cuts of a side longer than the rule allows. */
  function Cuts(b: Box, d: nat, rule: CutRule): (ss: seq<Span>)
    requires d < SpaceDim && ValidRule(rule) && Length(b, d) > Limit(rule, d)
    ensures Partitions(ss, b.lo[d], b.hi[d])
    ensures forall k :: 0 <= k < |ss| ==> SpanLength(ss[k]) <= Limit(rule, d)
    ensures rule.TileBy? ==> forall k :: 0 <= k < |ss| ==> SpanLength(ss[k]) == rule.size[d] || ss[k].hi == b.hi[d]
  {
    match rule
    case TileBy(size) =>
      var ss := TileSpans(b.lo[d], b.hi[d], size[d]);
      assert forall k :: 0 <= k < |ss| - 1 ==> SpanLength(ss[k]) == size[d];
      ss
    case LimitTo(chunk) =>
      var len := Length(b, d);
      ChunkCount(len, chunk[d]);
      EvenSpans(b.lo[d], b.hi[d], (len + chunk[d] - 1) / chunk[d])
  }

  /** Box `b` cut in direction `d` when its side there is too long, and left
      whole otherwise. */
  function Pieces(b: Box, d: nat, rule: CutRule): (r: seq<Box>)
    requires d < SpaceDim && ValidRule(rule)
    ensures BoundedIn(r, d, Limit(rule, d))
    ensures forall k :: 0 <= k < |r| ==> SameExtentExcept(r[k], b, d)
    ensures AllOfType(r, b.typ)
    ensures rule.TileBy? ==> TileShaped(r, d, rule.size[d], b.hi[d])
  {
    if Length(b, d) <= Limit(rule, d) then [b]
    else SplitBox(b, d, Cuts(b, d, rule))
  }

  lemma PiecesPartition(b: Box, d: nat, rule: CutRule)
    requires d < SpaceDim && ValidRule(rule)
    ensures forall p :: Covers(Pieces(b, d, rule), p) <==> InBox(b, p)
    ensures Disjoint(Pieces(b, d, rule))
    ensures AllInside(Pieces(b, d, rule), b)
    ensures Boxes.Ok(b) ==> AllOk(Pieces(b, d, rule))
  {
    if Length(b, d) > Limit(rule, d) {
      SplitBoxPartition(b, d, Cuts(b, d, rule));
    } else {
      forall p
        ensures Covers([b], p) <==> InBox(b, p)
      {
        CoversSingleton(b, p);
      }
      ContainsBoxRefl(b);
    }
  }

  /** Every member of `bs` cut in direction `d`, in order. */
  function SplitAll(bs: seq<Box>, d: nat, rule: CutRule): (r: seq<Box>)
    requires d < SpaceDim && ValidRule(rule)
    decreases |bs|
  {
    if |bs| == 0 then [] else Pieces(bs[0], d, rule) + SplitAll(bs[1..], d, rule)
  }

  /** Cutting every member keeps the region. */
  lemma {:induction false} SplitAllKeeps(bs: seq<Box>, d: nat, rule: CutRule)
    requires d < SpaceDim && ValidRule(rule)
    ensures forall p :: Covers(SplitAll(bs, d, rule), p) <==> Covers(bs, p)
    decreases |bs|
  {
    if |bs| > 0 {
      var b := bs[0];
      var head := Pieces(b, d, rule);
      var tail := SplitAll(bs[1..], d, rule);
      assert [b] + bs[1..] == bs;
      PiecesPartition(b, d, rule);
      SplitAllKeeps(bs[1..], d, rule);
      CoversAppendAll(head, tail);
      CoversAppendAll([b], bs[1..]);
      forall p
        ensures Covers([b], p) <==> InBox(b, p)
      {
        CoversSingleton(b, p);
      }
    }
  }

  /** Cutting every member keeps validity and typing. */
  lemma SplitAllValid(bs: seq<Box>, d: nat, rule: CutRule, t: IndexType)
    requires d < SpaceDim && ValidRule(rule)
    ensures AllOk(bs) ==> AllOk(SplitAll(bs, d, rule))
    ensures AllOfType(bs, t) ==> AllOfType(SplitAll(bs, d, rule), t)
  {
    var r := SplitAll(bs, d, rule);
    forall k | 0 <= k < |r|
      ensures (AllOk(bs) ==> Boxes.Ok(r[k])) && (AllOfType(bs, t) ==> r[k].typ == t)
    {
      var i, j := SplitAllOrigin(bs, d, rule, k);
      PiecesPartition(bs[i], d, rule);
    }
  }

  /** Cutting every member of a disjoint list leaves it disjoint. */
  lemma {:induction false} SplitAllDisjoint(bs: seq<Box>, d: nat, rule: CutRule)
    requires d < SpaceDim && ValidRule(rule)
    ensures Disjoint(bs) ==> Disjoint(SplitAll(bs, d, rule))
    decreases |bs|
  {
    if |bs| > 0 && Disjoint(bs) {
      var b := bs[0];
      var head := Pieces(b, d, rule);
      var tail := SplitAll(bs[1..], d, rule);
      PiecesPartition(b, d, rule);
      PrefixApart(bs);
      SplitAllDisjoint(bs[1..], d, rule);
      SplitAllKeeps(bs[1..], d, rule);
      forall i, j | 0 <= i < |head| && 0 <= j < |tail|
        ensures !Intersects(head[i], tail[j])
      {
        ContainsBoxMeaning(b, head[i]);
        ApartFromRegion(head[i], tail);
      }
      DisjointAppend(head, tail);
    }
  }

  /** The lists of `xss` one after the other. */
  function Flatten(xss: seq<seq<Box>>): seq<Box> {
    if |xss| == 0 then [] else xss[0] + Flatten(xss[1..])
  }

  /** Every member of a flattened list is the `j`-th member of some list
      `xss[i]`. */
  lemma {:induction false} FlattenOrigin(xss: seq<seq<Box>>, k: nat) returns (i: nat, j: nat)
    requires k < |Flatten(xss)|
    ensures i < |xss| && j < |xss[i]| && Flatten(xss)[k] == xss[i][j]
    decreases |xss|
  {
    if k < |xss[0]| {
      i, j := 0, k;
    } else {
      var i', j' := FlattenOrigin(xss[1..], k - |xss[0]|);
      i, j := i' + 1, j';
    }
  }

  /** The pieces of every member of `bs`, member by member. */
  function PiecesOf(bs: seq<Box>, d: nat, rule: CutRule): (xss: seq<seq<Box>>)
    requires d < SpaceDim && ValidRule(rule)
    ensures |xss| == |bs| && forall i :: 0 <= i < |bs| ==> xss[i] == Pieces(bs[i], d, rule)
  {
    seq(|bs|, i requires 0 <= i < |bs| => Pieces(bs[i], d, rule))
  }

  lemma {:induction false} SplitAllIsFlatten(bs: seq<Box>, d: nat, rule: CutRule)
    requires d < SpaceDim && ValidRule(rule)
    ensures SplitAll(bs, d, rule) == Flatten(PiecesOf(bs, d, rule))
    decreases |bs|
  {
    if |bs| > 0 {
      SplitAllIsFlatten(bs[1..], d, rule);
      assert PiecesOf(bs, d, rule)[1..] == PiecesOf(bs[1..], d, rule);
    }
  }

  /** Every member of `SplitAll(bs, d, rule)` is the `j`-th piece of some
      member `bs[i]`. */
  lemma SplitAllOrigin(bs: seq<Box>, d: nat, rule: CutRule, k: nat) returns (i: nat, j: nat)
    requires d < SpaceDim && ValidRule(rule)
    requires k < |SplitAll(bs, d, rule)|
    ensures i < |bs| && j < |Pieces(bs[i], d, rule)|
    ensures SplitAll(bs, d, rule)[k] == Pieces(bs[i], d, rule)[j]
  {
    SplitAllIsFlatten(bs, d, rule);
    i, j := FlattenOrigin(PiecesOf(bs, d, rule), k);
  }

  /** Cutting in direction `d` bounds every side in `d`. */
  lemma SplitAllBounded(bs: seq<Box>, d: nat, rule: CutRule)
    requires d < SpaceDim && ValidRule(rule)
    ensures BoundedIn(SplitAll(bs, d, rule), d, Limit(rule, d))
  {
    var r := SplitAll(bs, d, rule);
    forall k | 0 <= k < |r|
      ensures Length(r[k], d) <= Limit(rule, d)
    {
      var i, j := SplitAllOrigin(bs, d, rule, k);
      assert BoundedIn(Pieces(bs[i], d, rule), d, Limit(rule, d));
    }
  }

  /** A member of `SplitAll(bs, d, rule)` has the extent of some member
      `bs[i]` in every direction `e` other than `d`. */
  lemma SplitAllExtent(bs: seq<Box>, d: nat, rule: CutRule, e: nat, k: nat) returns (i: nat)
    requires d < SpaceDim && e < SpaceDim && e != d && ValidRule(rule)
    requires k < |SplitAll(bs, d, rule)|
    ensures i < |bs|
    ensures SplitAll(bs, d, rule)[k].lo[e] == bs[i].lo[e] && SplitAll(bs, d, rule)[k].hi[e] == bs[i].hi[e]
  {
    var j;
    i, j := SplitAllOrigin(bs, d, rule, k);
    assert SameExtentExcept(Pieces(bs[i], d, rule)[j], bs[i], d);
  }

  /** Cutting in direction `d` leaves the extents in direction `e != d` as
      they were: a bound on the sides, a common end, or the tile shape in
      `e` survives. */
  lemma SplitAllKeepsBound(bs: seq<Box>, d: nat, rule: CutRule, e: nat, n: int)
    requires d < SpaceDim && e < SpaceDim && e != d && ValidRule(rule)
    requires BoundedIn(bs, e, n)
    ensures BoundedIn(SplitAll(bs, d, rule), e, n)
  {
    var r := SplitAll(bs, d, rule);
    forall k | 0 <= k < |r|
      ensures Length(r[k], e) <= n
    {
      var i := SplitAllExtent(bs, d, rule, e, k);
      assert Length(bs[i], e) <= n;
    }
  }

  lemma SplitAllKeepsEnd(bs: seq<Box>, d: nat, rule: CutRule, e: nat, v: int)
    requires d < SpaceDim && e < SpaceDim && e != d && ValidRule(rule)
    requires EndsAt(bs, e, v)
    ensures EndsAt(SplitAll(bs, d, rule), e, v)
  {
    var r := SplitAll(bs, d, rule);
    forall k | 0 <= k < |r|
      ensures r[k].hi[e] == v
    {
      var i := SplitAllExtent(bs, d, rule, e, k);
      assert bs[i].hi[e] == v;
    }
  }

  lemma SplitAllKeepsTiles(bs: seq<Box>, d: nat, rule: CutRule, e: nat, size: int, v: int)
    requires d < SpaceDim && e < SpaceDim && e != d && ValidRule(rule)
    requires TileShaped(bs, e, size, v)
    ensures TileShaped(SplitAll(bs, d, rule), e, size, v)
  {
    var r := SplitAll(bs, d, rule);
    forall k | 0 <= k < |r|
      ensures Length(r[k], e) == size || r[k].hi[e] == v
    {
      var i := SplitAllExtent(bs, d, rule, e, k);
      assert Length(bs[i], e) == size || bs[i].hi[e] == v;
    }
  }

  /** Tiling direction `d` of boxes that all end at `v` there produces full
      tiles and remainder tiles ending at `v`. */
  lemma SplitAllTiles(bs: seq<Box>, d: nat, size: IntVect, v: int)
    requires d < SpaceDim && ValidRule(TileBy(size))
    ensures EndsAt(bs, d, v) ==> TileShaped(SplitAll(bs, d, TileBy(size)), d, size[d], v)
  {
    if EndsAt(bs, d, v) {
      var r := SplitAll(bs, d, TileBy(size));
      forall k | 0 <= k < |r|
        ensures Length(r[k], d) == size[d] || r[k].hi[d] == v
      {
        var i, j := SplitAllOrigin(bs, d, TileBy(size), k);
        assert TileShaped(Pieces(bs[i], d, TileBy(size)), d, size[d], bs[i].hi[d]);
      }
    }
  }

  /** Directions `n - 1` down to `0` cut in turn. */
  function SplitDims(bs: seq<Box>, rule: CutRule, n: nat): seq<Box>
    requires n <= SpaceDim && ValidRule(rule)
    decreases n
  {
    if n == 0 then bs else SplitDims(SplitAll(bs, n - 1, rule), rule, n - 1)
  }

  /** Every member is within the rule's limit in every direction from `n` on. */
  predicate BoundedFrom(bs: seq<Box>, rule: CutRule, n: nat) {
    forall e :: n <= e < SpaceDim ==> BoundedIn(bs, e, Limit(rule, e))
  }

  /** Tile shape in every direction from `n` on, and the common end `bx.hi`
      in the directions below `n`, which are still uncut. */
  predicate TilingFrom(bs: seq<Box>, size: IntVect, bx: Box, n: nat) {
    && (forall e :: n <= e < SpaceDim ==> TileShaped(bs, e, size[e], bx.hi[e]))
    && (forall e :: 0 <= e < n && e < SpaceDim ==> EndsAt(bs, e, bx.hi[e]))
  }

  /** Cutting direction after direction keeps the region, validity, typing
      and disjointness. */
  lemma {:induction false} SplitDimsRegion(bs: seq<Box>, rule: CutRule, n: nat)
    requires n <= SpaceDim && ValidRule(rule)
    ensures forall p :: Covers(SplitDims(bs, rule, n), p) <==> Covers(bs, p)
    decreases n
  {
    if n > 0 {
      var s := SplitAll(bs, n - 1, rule);
      SplitAllKeeps(bs, n - 1, rule);
      SplitDimsRegion(s, rule, n - 1);
      assert SplitDims(bs, rule, n) == SplitDims(s, rule, n - 1);
    }
  }

  lemma {:induction false} SplitDimsValid(bs: seq<Box>, rule: CutRule, n: nat)
    requires n <= SpaceDim && ValidRule(rule)
    ensures AllOk(bs) ==> AllOk(SplitDims(bs, rule, n))
    decreases n
  {
    if n > 0 {
      var s := SplitAll(bs, n - 1, rule);
      SplitAllValid(bs, n - 1, rule, CellType());
      SplitDimsValid(s, rule, n - 1);
      assert SplitDims(bs, rule, n) == SplitDims(s, rule, n - 1);
    }
  }

  lemma {:induction false} SplitDimsTyped(bs: seq<Box>, rule: CutRule, n: nat, t: IndexType)
    requires n <= SpaceDim && ValidRule(rule)
    ensures AllOfType(bs, t) ==> AllOfType(SplitDims(bs, rule, n), t)
    decreases n
  {
    if n > 0 {
      var s := SplitAll(bs, n - 1, rule);
      SplitAllValid(bs, n - 1, rule, t);
      SplitDimsTyped(s, rule, n - 1, t);
      assert SplitDims(bs, rule, n) == SplitDims(s, rule, n - 1);
    }
  }

  lemma {:induction false} SplitDimsDisjoint(bs: seq<Box>, rule: CutRule, n: nat)
    requires n <= SpaceDim && ValidRule(rule)
    ensures Disjoint(bs) ==> Disjoint(SplitDims(bs, rule, n))
    decreases n
  {
    if n > 0 && Disjoint(bs) {
      var s := SplitAll(bs, n - 1, rule);
      SplitAllDisjoint(bs, n - 1, rule);
      SplitDimsDisjoint(s, rule, n - 1);
    }
  }

  /** One cutting step bounds direction `n - 1` and keeps the bounds above. */
  lemma SplitStepBounds(bs: seq<Box>, rule: CutRule, n: nat)
    requires 0 < n <= SpaceDim && ValidRule(rule)
    requires BoundedFrom(bs, rule, n)
    ensures BoundedFrom(SplitAll(bs, n - 1, rule), rule, n - 1)
  {
    forall e | n - 1 <= e < SpaceDim
      ensures BoundedIn(SplitAll(bs, n - 1, rule), e, Limit(rule, e))
    {
      if e == n - 1 {
        SplitAllBounded(bs, e, rule);
      } else {
        SplitAllKeepsBound(bs, n - 1, rule, e, Limit(rule, e));
      }
    }
  }

  lemma {:induction false} SplitDimsBounds(bs: seq<Box>, rule: CutRule, n: nat)
    requires n <= SpaceDim && ValidRule(rule)
    requires BoundedFrom(bs, rule, n)
    ensures BoundedFrom(SplitDims(bs, rule, n), rule, 0)
    decreases n
  {
    if n > 0 {
      SplitStepBounds(bs, rule, n);
      SplitDimsBounds(SplitAll(bs, n - 1, rule), rule, n - 1);
    }
  }

  /** A tiling step in direction `n - 1` keeps the tile shape above it ... */
  lemma SplitStepShape(bs: seq<Box>, size: IntVect, bx: Box, n: nat)
    requires 0 < n <= SpaceDim && ValidRule(TileBy(size))
    requires forall e :: n <= e < SpaceDim ==> TileShaped(bs, e, size[e], bx.hi[e])
    ensures forall e :: n <= e < SpaceDim ==>
      TileShaped(SplitAll(bs, n - 1, TileBy(size)), e, size[e], bx.hi[e])
  {
    forall e | n <= e < SpaceDim
      ensures TileShaped(SplitAll(bs, n - 1, TileBy(size)), e, size[e], bx.hi[e])
    {
      SplitAllKeepsTiles(bs, n - 1, TileBy(size), e, size[e], bx.hi[e]);
    }
  }

  /** ... and the common ends below it. */
  lemma SplitStepEnds(bs: seq<Box>, size: IntVect, bx: Box, n: nat)
    requires 0 < n <= SpaceDim && ValidRule(TileBy(size))
    requires forall e :: 0 <= e < n ==> EndsAt(bs, e, bx.hi[e])
    ensures forall e :: 0 <= e < n - 1 ==> EndsAt(SplitAll(bs, n - 1, TileBy(size)), e, bx.hi[e])
  {
    forall e | 0 <= e < n - 1
      ensures EndsAt(SplitAll(bs, n - 1, TileBy(size)), e, bx.hi[e])
    {
      SplitAllKeepsEnd(bs, n - 1, TileBy(size), e, bx.hi[e]);
    }
  }

  lemma {:induction false} SplitDimsTiles(bs: seq<Box>, size: IntVect, bx: Box, n: nat)
    requires n <= SpaceDim && ValidRule(TileBy(size))
    requires TilingFrom(bs, size, bx, n)
    ensures TilingFrom(SplitDims(bs, TileBy(size), n), size, bx, 0)
    decreases n
  {
    if n > 0 {
      var s := SplitAll(bs, n - 1, TileBy(size));
      SplitAllTiles(bs, n - 1, size, bx.hi[n - 1]);
      SplitStepShape(bs, size, bx, n);
      SplitStepEnds(bs, size, bx, n);
      assert TilingFrom(s, size, bx, n - 1);
      SplitDimsTiles(s, size, bx, n - 1);
    }
  }

  // ---------------------------------------------------------------------------
  // The operations

  /** Bounds per direction, restated per member. */
  lemma BoundedEverywhere(bs: seq<Box>, rule: CutRule)
    requires forall d :: 0 <= d < SpaceDim ==> BoundedIn(bs, d, Limit(rule, d))
    ensures forall k, d :: 0 <= k < |bs| && 0 <= d < SpaceDim ==> Length(bs[k], d) <= Limit(rule, d)
  {
    forall k, d | 0 <= k < |bs| && 0 <= d < SpaceDim
      ensures Length(bs[k], d) <= Limit(rule, d)
    {
      assert BoundedIn(bs, d, Limit(rule, d));
    }
  }

  /** Every member of `bs` cut in every direction. */
  function SplitEvery(bs: seq<Box>, rule: CutRule, t: IndexType): (r: seq<Box>)
    requires ValidRule(rule)
    ensures forall p :: Covers(r, p) <==> Covers(bs, p)
    ensures forall k, d :: 0 <= k < |r| && 0 <= d < SpaceDim ==> Length(r[k], d) <= Limit(rule, d)
    ensures AllOk(bs) ==> AllOk(r)
    ensures AllOfType(bs, t) ==> AllOfType(r, t)
    ensures Disjoint(bs) ==> Disjoint(r)
  {
    SplitDimsRegion(bs, rule, SpaceDim);
    SplitDimsValid(bs, rule, SpaceDim);
    SplitDimsTyped(bs, rule, SpaceDim, t);
    SplitDimsDisjoint(bs, rule, SpaceDim);
    SplitDimsBounds(bs, rule, SpaceDim);
    BoundedEverywhere(SplitDims(bs, rule, SpaceDim), rule);
    SplitDims(bs, rule, SpaceDim)
  }

  /** `maxSize(chunk)`: every member cut until no side is longer than
      `chunk`; the region, the container invariant, validity and
      disjointness are kept.  `maxSize(int)` is the same with one chunk in
      every direction. */
  function MaxSize(bl: BoxList, chunk: IntVect): (r: BoxList)
    requires forall d :: 0 <= d < SpaceDim ==> chunk[d] >= 1
    ensures r.btype == bl.btype
    ensures forall k, d :: 0 <= k < Size(r) && 0 <= d < SpaceDim ==> Length(r.boxes[k], d) <= chunk[d]
    ensures forall p :: InRegion(r, p) <==> InRegion(bl, p)
    ensures Typed(bl) ==> Typed(r)
    ensures AllOk(bl.boxes) ==> AllOk(r.boxes)
    ensures IsDisjoint(bl) ==> IsDisjoint(r)
  {
    var rule := LimitTo(chunk);
    assert forall d :: 0 <= d < SpaceDim ==> Limit(rule, d) == chunk[d];
    BoxList(SplitEvery(bl.boxes, rule, bl.btype), bl.btype)
  }

  // ---------------------------------------------------------------------------
  // Tiling

  /** `BoxList(bx, tilesize)`: the tiles of `bx`, each direction cut from the
      low end into tiles of exactly `ts` indices, the remainder tile at the
      high end; an empty box gives an empty list. */
  function Tiles(bx: Box, ts: IntVect): (r: BoxList)
    requires forall d :: 0 <= d < SpaceDim ==> ts[d] >= 1
    ensures Typed(r) && r.btype == bx.typ
    ensures forall p :: InRegion(r, p) <==> InBox(bx, p)
    ensures AllOk(r.boxes) && IsDisjoint(r)
    ensures forall k, d :: 0 <= k < Size(r) && 0 <= d < SpaceDim ==> Length(r.boxes[k], d) <= ts[d]
  {
    var rule := TileBy(ts);
    assert forall d :: 0 <= d < SpaceDim ==> Limit(rule, d) == ts[d];
    if !Boxes.Ok(bx) then
      assert forall p :: !InBox(bx, p) by {
        OkIffHasPoint(bx);
      }
      OfType(bx.typ)
    else
      assert forall p :: Covers([bx], p) <==> InBox(bx, p) by {
        forall p
          ensures Covers([bx], p) <==> InBox(bx, p)
        {
          CoversSingleton(bx, p);
        }
      }
      BoxList(SplitEvery([bx], rule, bx.typ), bx.typ)
  }

  /** Every tile is full size in each direction or ends at the upper corner
      of `bx` there: the remainder sits at the high end. */
  lemma TilesShape(bx: Box, ts: IntVect)
    requires forall d :: 0 <= d < SpaceDim ==> ts[d] >= 1
    ensures forall k, d :: 0 <= k < Size(Tiles(bx, ts)) && 0 <= d < SpaceDim ==>
      Length(Tiles(bx, ts).boxes[k], d) == ts[d] || Tiles(bx, ts).boxes[k].hi[d] == bx.hi[d]
  {
    if Boxes.Ok(bx) {
      var rule := TileBy(ts);
      assert TilingFrom([bx], ts, bx, SpaceDim);
      SplitDimsTiles([bx], ts, bx, SpaceDim);
      var r := Tiles(bx, ts).boxes;
      assert r == SplitDims([bx], rule, SpaceDim);
      forall k, d | 0 <= k < |r| && 0 <= d < SpaceDim
        ensures Length(r[k], d) == ts[d] || r[k].hi[d] == bx.hi[d]
      {
        assert TileShaped(r, d, ts[d], bx.hi[d]);
      }
    }
  }

  // ---------------------------------------------------------------------------
  // Chopping into a number of pieces

  /** The direction in which `b` is longest, the lowest such on a tie. */
  function LongestDir(b: Box): (d: nat)
    ensures d < SpaceDim
  {
    if Length(b, 0) >= Length(b, 1) && Length(b, 0) >= Length(b, 2) then 0
    else if Length(b, 1) >= Length(b, 2) then 1
    else 2
  }

  lemma LongestDirIsLongest(b: Box)
    ensures forall e :: 0 <= e < SpaceDim ==> Length(b, e) <= Length(b, LongestDir(b))
    ensures forall e :: 0 <= e < LongestDir(b) ==> Length(b, e) < Length(b, LongestDir(b))
  {
  }

  /** `b` cut across its longest side `len >= 2` into a low part of `cut`
      indices and a high part holding the rest. */
  function Halves(b: Box, d: nat, cut: int): (r: seq<Box>)
    requires d < SpaceDim
    ensures |r| == 2
  {
    [SetHi(b, d, b.lo[d] + cut - 1), SetLo(b, d, b.lo[d] + cut)]
  }

  /** The two parts cover exactly `b`, do not overlap, lie inside it with
      its type and are valid when it is. */
  lemma HalvesMeaning(b: Box, d: nat, cut: int)
    requires d < SpaceDim && 1 <= cut < Length(b, d)
    ensures forall p :: Covers(Halves(b, d, cut), p) <==> InBox(b, p)
    ensures !Intersects(Halves(b, d, cut)[0], Halves(b, d, cut)[1])
    ensures ContainsBox(b, Halves(b, d, cut)[0]) && ContainsBox(b, Halves(b, d, cut)[1])
    ensures Halves(b, d, cut)[0].typ == b.typ && Halves(b, d, cut)[1].typ == b.typ
    ensures Boxes.Ok(b) ==> Boxes.Ok(Halves(b, d, cut)[0]) && Boxes.Ok(Halves(b, d, cut)[1])
  {
    var ss := [Span(b.lo[d], b.lo[d] + cut - 1), Span(b.lo[d] + cut, b.hi[d])];
    SplitBoxPartition(b, d, ss);
    var r := SplitBox(b, d, ss);
    assert r[0].lo == b.lo && r[0].hi == Halves(b, d, cut)[0].hi;
    assert r[1].hi == b.hi && r[1].lo == Halves(b, d, cut)[1].lo;
  }

  /** How much of a side of `len >= 2` indices the low part receives when
      `n` pieces are shared out `n / 2` to the low part: the proportional
      share `len * (n / 2) / n`, kept within the side. */
  function ChopCut(len: int, n: int): (c: int)
    requires len >= 2 && n >= 2
    ensures 1 <= c < len
  {
    Max(1, Min(Quot(Times(len, n / 2), n), len - 1))
  }

  /** The cut is the proportional share, kept within the side. */
  lemma ChopCutShare(len: int, n: int)
    requires len >= 2 && n >= 2
    ensures ChopCut(len, n) == Max(1, Min(len * (n / 2) / n, len - 1))
  {
    TimesIsMul(len, n / 2);
    QuotIsDiv(len * (n / 2), n);
  }

  /** When the side has at least as many indices as pieces, each part of
      the cut has at least as many indices as the pieces it receives. */
  lemma CutShares(len: int, n: int)
    requires 2 <= n <= len
    ensures n / 2 <= ChopCut(len, n)
    ensures n - n / 2 <= len - ChopCut(len, n)
  {
    ChopCutShare(len, n);
    ShareBounds(len, n);
  }

  /** The proportional share of `n / 2` pieces out of `n` on a side of
      `len >= n` indices is at least `n / 2` and leaves at least `n - n / 2`. */
  lemma ShareBounds(len: int, n: int)
    requires 2 <= n <= len
    ensures n / 2 <= len * (n / 2) / n <= len - (n - n / 2)
  {
    var h := n / 2;
    var q := len * h / n;
    MulMono(n, len, h);
    FloorLower(h, n, len * h);
    assert h <= q;
    FloorScale(len * h, n);
    assert q * n <= len * h;
    MulMono(n, len, n - h);
    assert len * (n - h) == len * n - len * h;
    assert n * (n - h) == n * n - n * h;
    var m := len - n + h + 1;
    assert m * n == len * n - n * n + h * n + n;
    if q >= m {
      MulMono(m, q, n);
      assert false;
    }
  }

  /** `b` is still cut when `n` pieces are asked for: more than one, and a
      longest side of at least two indices. */
  predicate Splittable(b: Box, n: int) {
    n > 1 && Length(b, LongestDir(b)) >= 2
  }

  /** The two parts of one bisection step: `b` cut across its longest side,
      the low part receiving the share `ChopCut` of it. */
  function Bisect(b: Box, n: int): (h: seq<Box>)
    requires Splittable(b, n)
    ensures |h| == 2
  {
    var d := LongestDir(b);
    Halves(b, d, ChopCut(Length(b, d), n))
  }

  lemma BisectMeaning(b: Box, n: int)
    requires Splittable(b, n)
    ensures forall p :: InBox(Bisect(b, n)[0], p) || InBox(Bisect(b, n)[1], p) <==> InBox(b, p)
    ensures !Intersects(Bisect(b, n)[0], Bisect(b, n)[1])
    ensures ContainsBox(b, Bisect(b, n)[0]) && ContainsBox(b, Bisect(b, n)[1])
    ensures Bisect(b, n)[0].typ == b.typ && Bisect(b, n)[1].typ == b.typ
    ensures Boxes.Ok(b) ==> Boxes.Ok(Bisect(b, n)[0]) && Boxes.Ok(Bisect(b, n)[1])
  {
    var d := LongestDir(b);
    var h := Bisect(b, n);
    HalvesMeaning(b, d, ChopCut(Length(b, d), n));
    forall p
      ensures InBox(h[0], p) || InBox(h[1], p) <==> Covers(h, p)
    {
      assert h == [h[0]] + [h[1]];
      CoversAppend([h[0]], [h[1]], p);
      CoversSingleton(h[0], p);
      CoversSingleton(h[1], p);
    }
  }

  /** Recursive bisection: the box is cut across its longest side, the low
      part receiving `n / 2` of the pieces and a matching share of the
      side, until one piece is asked for or the side cannot be cut. */
  function Chopped(b: Box, n: int): (r: seq<Box>)
    decreases n
  {
    if !Splittable(b, n) then [b]
    else Chopped(Bisect(b, n)[0], n / 2) + Chopped(Bisect(b, n)[1], n - n / 2)
  }

  /** The pieces cover exactly the chopped box. */
  lemma {:induction false} ChoppedRegion(b: Box, n: int)
    ensures forall p :: Covers(Chopped(b, n), p) <==> InBox(b, p)
    decreases n
  {
    if !Splittable(b, n) {
      forall p
        ensures Covers([b], p) <==> InBox(b, p)
      {
        CoversSingleton(b, p);
      }
    } else {
      var h := Bisect(b, n);
      BisectMeaning(b, n);
      ChoppedRegion(h[0], n / 2);
      ChoppedRegion(h[1], n - n / 2);
      CoversAppendAll(Chopped(h[0], n / 2), Chopped(h[1], n - n / 2));
    }
  }

  /** The pieces lie inside the chopped box, keep its type, and are valid
      when it is. */
  lemma {:induction false} ChoppedInside(b: Box, n: int)
    ensures AllInside(Chopped(b, n), b)
    ensures AllOfType(Chopped(b, n), b.typ)
    ensures Boxes.Ok(b) ==> AllOk(Chopped(b, n))
    decreases n
  {
    if !Splittable(b, n) {
      ContainsBoxRefl(b);
    } else {
      var h := Bisect(b, n);
      BisectMeaning(b, n);
      var lo := Chopped(h[0], n / 2);
      var hi := Chopped(h[1], n - n / 2);
      ChoppedInside(h[0], n / 2);
      ChoppedInside(h[1], n - n / 2);
      forall k | 0 <= k < |lo|
        ensures ContainsBox(b, lo[k])
      {
        ContainsBoxTrans(b, h[0], lo[k]);
      }
      forall k | 0 <= k < |hi|
        ensures ContainsBox(b, hi[k])
      {
        ContainsBoxTrans(b, h[1], hi[k]);
      }
      AppendKeeps(lo, hi, b, b.typ);
    }
  }

  /** No two pieces overlap. */
  lemma {:induction false} ChoppedDisjoint(b: Box, n: int)
    ensures Disjoint(Chopped(b, n))
    decreases n
  {
    if Splittable(b, n) {
      var h := Bisect(b, n);
      BisectMeaning(b, n);
      var lo := Chopped(h[0], n / 2);
      var hi := Chopped(h[1], n - n / 2);
      ChoppedDisjoint(h[0], n / 2);
      ChoppedDisjoint(h[1], n - n / 2);
      ChoppedInside(h[0], n / 2);
      ChoppedInside(h[1], n - n / 2);
      forall i, j | 0 <= i < |lo| && 0 <= j < |hi|
        ensures !Intersects(lo[i], hi[j])
      {
        InsideKeepsApart(h[0], lo[i], h[1], hi[j]);
      }
      DisjointAppend(lo, hi);
    }
  }

  /** There are at least one and at most `n` pieces. */
  lemma {:induction false} ChoppedCount(b: Box, n: int)
    ensures 1 <= |Chopped(b, n)| <= Max(n, 1)
    decreases n
  {
    if Splittable(b, n) {
      var h := Bisect(b, n);
      ChoppedCount(h[0], n / 2);
      ChoppedCount(h[1], n - n / 2);
    }
  }

  /** When the longest side has at least `n` indices, bisection yields
      exactly `n` pieces. */
  lemma {:induction false} ChoppedExact(b: Box, n: int)
    requires 1 <= n <= Length(b, LongestDir(b))
    ensures |Chopped(b, n)| == n
    decreases n
  {
    if n >= 2 {
      var d := LongestDir(b);
      var len := Length(b, d);
      CutShares(len, n);
      var h := Bisect(b, n);
      assert Length(h[0], d) == ChopCut(len, n) && Length(h[1], d) == len - ChopCut(len, n);
      LongestDirIsLongest(h[0]);
      LongestDirIsLongest(h[1]);
      ChoppedExact(h[0], n / 2);
      ChoppedExact(h[1], n - n / 2);
    }
  }

  /** `BoxList(bx, nboxes)`: `bx` chopped into at most `nboxes` pieces,
      exactly `nboxes` when its longest side has that many indices. */
  function Chop(bx: Box, nboxes: int): (r: BoxList)
    ensures Typed(r) && r.btype == bx.typ
    ensures forall p :: InRegion(r, p) <==> InBox(bx, p)
    ensures IsDisjoint(r) && AllInside(r.boxes, bx)
    ensures Boxes.Ok(bx) ==> AllOk(r.boxes)
    ensures 1 <= Size(r) <= Max(nboxes, 1)
    ensures 1 <= nboxes <= Length(bx, LongestDir(bx)) ==> Size(r) == nboxes
  {
    ChoppedRegion(bx, nboxes);
    ChoppedInside(bx, nboxes);
    ChoppedDisjoint(bx, nboxes);
    ChoppedCount(bx, nboxes);
    if 1 <= nboxes <= Length(bx, LongestDir(bx)) then
      ChoppedExact(bx, nboxes);
      BoxList(Chopped(bx, nboxes), bx.typ)
    else
      BoxList(Chopped(bx, nboxes), bx.typ)
  }

  /** The box `(0,0)`-`(9,9)` of one layer chopped into four: four boxes
      of 5 by 5 cells, the first direction split first. */
  lemma ChopTenByTenIntoFour()
    ensures Chop(Box([0, 0, 0], [9, 9, 0], CellType()), 4).boxes ==
      [Box([0, 0, 0], [4, 4, 0], CellType()), Box([0, 5, 0], [4, 9, 0], CellType()),
       Box([5, 0, 0], [9, 4, 0], CellType()), Box([5, 5, 0], [9, 9, 0], CellType())]
  {
    var b := Box([0, 0, 0], [9, 9, 0], CellType());
    assert LongestDir(b) == 0 && ChopCut(10, 4) == 5;
    var h := Bisect(b, 4);
    assert h[0] == Box([0, 0, 0], [4, 9, 0], CellType());
    assert h[1] == Box([5, 0, 0], [9, 9, 0], CellType());
    assert LongestDir(h[0]) == 1 && LongestDir(h[1]) == 1 && ChopCut(10, 2) == 5;
    var l := Bisect(h[0], 2);
    var u := Bisect(h[1], 2);
    assert l[0] == Box([0, 0, 0], [4, 4, 0], CellType());
    assert l[1] == Box([0, 5, 0], [4, 9, 0], CellType());
    assert u[0] == Box([5, 0, 0], [9, 4, 0], CellType());
    assert u[1] == Box([5, 5, 0], [9, 9, 0], CellType());
    assert Chopped(h[0], 2) == [l[0], l[1]];
    assert Chopped(h[1], 2) == [u[0], u[1]];
  }

  /** A column of three cells shared out to four pieces gives three. */
  lemma ChopColumnIntoFour()
    ensures |Chopped(Box([0, 0, 0], [0, 2, 0], CellType()), 4)| == 3
  {
    var b := Box([0, 0, 0], [0, 2, 0], CellType());
    assert LongestDir(b) == 1 && ChopCut(3, 4) == 1;
    var l := Bisect(b, 4);
    assert l[0] == Box([0, 0, 0], [0, 0, 0], CellType());
    assert l[1] == Box([0, 1, 0], [0, 2, 0], CellType());
    assert |Chopped(l[0], 2)| == 1;
    ChoppedExact(l[1], 2);
  }

  /** A block of 2 by 2 cells chopped into three gives three. */
  lemma ChopSquareIntoThree()
    ensures |Chopped(Box([1, 1, 0], [2, 2, 0], CellType()), 3)| == 3
  {
    var b := Box([1, 1, 0], [2, 2, 0], CellType());
    assert LongestDir(b) == 0 && ChopCut(2, 3) == 1;
    var v := Bisect(b, 3);
    assert v[0] == Box([1, 1, 0], [1, 2, 0], CellType());
    assert v[1] == Box([2, 1, 0], [2, 2, 0], CellType());
    assert |Chopped(v[0], 1)| == 1;
    ChoppedExact(v[1], 2);
  }

  /** A block of 2 by 3 cells chopped into five gives five. */
  lemma ChopBlockIntoFive()
    ensures |Chopped(Box([1, 0, 0], [2, 2, 0], CellType()), 5)| == 5
  {
    var b := Box([1, 0, 0], [2, 2, 0], CellType());
    assert LongestDir(b) == 1 && ChopCut(3, 5) == 1;
    var u := Bisect(b, 5);
    assert u[0] == Box([1, 0, 0], [2, 0, 0], CellType());
    assert u[1] == Box([1, 1, 0], [2, 2, 0], CellType());
    ChoppedExact(u[0], 2);
    ChopSquareIntoThree();
  }

  /** Fewer pieces than asked for: the box of 3 by 3 cells chopped into
      nine gives eight, because its first cut leaves one column of three
      cells to share four pieces. */
  lemma ChopThreeByThreeIntoNine()
    ensures Size(Chop(Box([0, 0, 0], [2, 2, 0], CellType()), 9)) == 8
  {
    var b := Box([0, 0, 0], [2, 2, 0], CellType());
    assert LongestDir(b) == 0 && ChopCut(3, 9) == 1;
    var h := Bisect(b, 9);
    assert h[0] == Box([0, 0, 0], [0, 2, 0], CellType());
    assert h[1] == Box([1, 0, 0], [2, 2, 0], CellType());
    ChopColumnIntoFour();
    ChopBlockIntoFive();
  }

  /** `BoxList(bx, nboxes, dir)`: `bx` cut across direction `dir` into
      `nboxes` slabs, or as many as its side there allows, whose widths
      differ by at most one index. */
  function ChopInDir(bx: Box, nboxes: int, dir: nat): (r: BoxList)
    requires dir < SpaceDim
    ensures Typed(r) && r.btype == bx.typ
    ensures forall p :: InRegion(r, p) <==> InBox(bx, p)
    ensures IsDisjoint(r) && AllInside(r.boxes, bx)
    ensures Boxes.Ok(bx) ==> AllOk(r.boxes)
    ensures forall k :: 0 <= k < Size(r) ==> SameExtentExcept(r.boxes[k], bx, dir)
  {
    var len := Length(bx, dir);
    if nboxes <= 1 || len < 1 then
      Single(bx)
    else
      var ss := EvenSpans(bx.lo[dir], bx.hi[dir], Min(nboxes, len));
      SplitBoxPartition(bx, dir, ss);
      BoxList(SplitBox(bx, dir, ss), bx.typ)
  }

  /** There are `nboxes` slabs, or one per index of the side when it is
      shorter, and their widths differ by at most one index. */
  lemma ChopInDirBalanced(bx: Box, nboxes: int, dir: nat)
    requires dir < SpaceDim
    ensures Length(bx, dir) >= 1 ==> Size(ChopInDir(bx, nboxes, dir)) == Max(1, Min(nboxes, Length(bx, dir)))
    ensures forall i, j :: 0 <= i < Size(ChopInDir(bx, nboxes, dir)) && 0 <= j < Size(ChopInDir(bx, nboxes, dir)) ==>
      Length(ChopInDir(bx, nboxes, dir).boxes[i], dir) <= Length(ChopInDir(bx, nboxes, dir).boxes[j], dir) + 1
  {
    var len := Length(bx, dir);
    if nboxes > 1 && len >= 1 {
      var ss := EvenSpans(bx.lo[dir], bx.hi[dir], Min(nboxes, len));
      var r := ChopInDir(bx, nboxes, dir).boxes;
      assert r == SplitBox(bx, dir, ss);
      forall i | 0 <= i < |r|
        ensures Length(r[i], dir) == SpanLength(ss[i])
      {
      }
    }
  }

  /** The 10 by 10 cell box chopped into three: the first cut gives one
      piece 3 cells wide and two pieces 7 cells wide, so the piece sizes
      differ by more than one cell in both directions. */
  lemma ChopTenByTenIntoThree()
    ensures Chop(Box([0, 0, 0], [9, 9, 0], CellType()), 3).boxes ==
      [Box([0, 0, 0], [2, 9, 0], CellType()), Box([3, 0, 0], [9, 4, 0], CellType()),
       Box([3, 5, 0], [9, 9, 0], CellType())]
  {
    var b := Box([0, 0, 0], [9, 9, 0], CellType());
    assert LongestDir(b) == 0 && ChopCut(10, 3) == 3;
    var h := Bisect(b, 3);
    assert h[0] == Box([0, 0, 0], [2, 9, 0], CellType());
    assert h[1] == Box([3, 0, 0], [9, 9, 0], CellType());
    assert LongestDir(h[1]) == 1 && ChopCut(10, 2) == 5;
    var u := Bisect(h[1], 2);
    assert u[0] == Box([3, 0, 0], [9, 4, 0], CellType());
    assert u[1] == Box([3, 5, 0], [9, 9, 0], CellType());
    assert Chopped(h[0], 1) == [h[0]];
    assert Chopped(h[1], 2) == [u[0], u[1]];
  }
}
