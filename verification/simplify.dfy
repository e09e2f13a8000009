/** Coalescing of a box list: two valid boxes that agree in every direction
    but one, and abut face to face in that one, are replaced by the single
    box they form together. */
module Simplify {
  import opened Boxes
  import opened BoxLists

  /** How many later boxes the non-exhaustive pass inspects for a partner.
      The exhaustive (`best`) pass inspects all of them. */
  const DefaultLookahead: nat := 100

  /** `a` and `b` have the same extent in every direction except `d`, and
      in `d` one ends where the other begins. */
  predicate AbutIn(a: Box, b: Box, d: nat)
    requires d < SpaceDim
  {
    && (a.hi[d] + 1 == b.lo[d] || b.hi[d] + 1 == a.lo[d])
    && forall e :: 0 <= e < SpaceDim && e != d ==> a.lo[e] == b.lo[e] && a.hi[e] == b.hi[e]
  }

  /** Two boxes can be merged: both are valid and they abut in some direction. */
  predicate CanJoin(a: Box, b: Box) {
    Boxes.Ok(a) && Boxes.Ok(b) && exists d :: 0 <= d < SpaceDim && AbutIn(a, b, d)
  }

  /** The hull of two mergeable boxes is a valid box holding exactly their
      points. */
  lemma JoinIsUnion(a: Box, b: Box)
    requires CanJoin(a, b)
    ensures Boxes.Ok(Hull(a, b))
    ensures forall p :: InBox(Hull(a, b), p) <==> InBox(a, p) || InBox(b, p)
  {
    var d :| 0 <= d < SpaceDim && AbutIn(a, b, d);
    var h := Hull(a, b);
    forall p | InBox(h, p)
      ensures InBox(a, p) || InBox(b, p)
    {
      assert forall e :: 0 <= e < SpaceDim && e != d ==> a.lo[e] <= p[e] <= a.hi[e];
      assert forall e :: 0 <= e < SpaceDim && e != d ==> b.lo[e] <= p[e] <= b.hi[e];
      if p[d] <= a.hi[d] && a.lo[d] <= p[d] {
        assert InBox(a, p);
      } else {
        assert b.lo[d] <= p[d] <= b.hi[d];
        assert InBox(b, p);
      }
    }
  }

  lemma CanJoinSymmetric(a: Box, b: Box)
    ensures CanJoin(a, b) <==> CanJoin(b, a)
  {
    if CanJoin(a, b) {
      var d :| 0 <= d < SpaceDim && AbutIn(a, b, d);
      assert AbutIn(b, a, d);
    }
    if CanJoin(b, a) {
      var d :| 0 <= d < SpaceDim && AbutIn(b, a, d);
      assert AbutIn(a, b, d);
    }
  }

  /** A box apart from both members of a mergeable pair is apart from their
      merged box. */
  lemma JoinKeepsApart(a: Box, b: Box, c: Box)
    requires CanJoin(a, b) && !Intersects(a, c) && !Intersects(b, c)
    ensures !Intersects(Hull(a, b), c) && !Intersects(c, Hull(a, b))
  {
    JoinIsUnion(a, b);
    IntersectsIffSharedPoint(a, c);
    IntersectsIffSharedPoint(b, c);
    IntersectsIffSharedPoint(Hull(a, b), c);
    IntersectsSymmetric(Hull(a, b), c);
  }

  /** Index of the first box among `rest[from..limit]` that can merge with
      `a`, or `limit` when there is none. */
  function FindPartner(a: Box, rest: seq<Box>, from: nat, limit: nat): (j: nat)
    requires from <= limit <= |rest|
    ensures from <= j <= limit
    ensures j < limit ==> CanJoin(a, rest[j])
    ensures forall i :: from <= i < j ==> !CanJoin(a, rest[i])
    decreases limit - from
  {
    if from == limit then limit
    else if CanJoin(a, rest[from]) then from
    else FindPartner(a, rest, from + 1, limit)
  }

  /** One pass over `bs`: each box in turn is merged into the first of the
      next `depth` boxes it can join, that box becoming their hull and the
      box itself leaving the list.  Returns the new list and the number of
      merges. */
  function MergePass(bs: seq<Box>, depth: nat): (res: (seq<Box>, nat))
    ensures |res.0| + res.1 == |bs|
    ensures res.1 == 0 ==> res.0 == bs
    decreases |bs|
  {
    if |bs| == 0 then ([], 0)
    else
      var a := bs[0];
      var rest := bs[1..];
      var limit := Min(depth, |rest|);
      var j := FindPartner(a, rest, 0, limit);
      if j < limit then
        var sub := MergePass(rest[j := Hull(rest[j], a)], depth);
        (sub.0, sub.1 + 1)
      else
        var sub := MergePass(rest, depth);
        assert [a] + rest == bs;
        ([a] + sub.0, sub.1)
  }

  /** Merging into `rest[j]` keeps the region, validity, typing and
      disjointness of the list `[a] + rest`. */
  lemma MergeStep(a: Box, rest: seq<Box>, j: nat, t: IndexType)
    requires j < |rest| && CanJoin(a, rest[j])
    ensures forall p :: Covers(rest[j := Hull(rest[j], a)], p) <==> Covers([a] + rest, p)
    ensures AllOk(rest) ==> AllOk(rest[j := Hull(rest[j], a)])
    ensures AllOfType(rest, t) ==> AllOfType(rest[j := Hull(rest[j], a)], t)
    ensures Disjoint([a] + rest) ==> Disjoint(rest[j := Hull(rest[j], a)])
  {
    var m := rest[j := Hull(rest[j], a)];
    var b := rest[j];
    CanJoinSymmetric(a, b);
    JoinIsUnion(b, a);
    forall p
      ensures Covers(m, p) <==> Covers([a] + rest, p)
    {
      CoversAppend([a], rest, p);
      CoversSingleton(a, p);
      if Covers(m, p) {
        var k :| 0 <= k < |m| && InBox(m[k], p);
        if k != j {
          assert InBox(rest[k], p);
        }
      }
      if Covers(rest, p) {
        var k :| 0 <= k < |rest| && InBox(rest[k], p);
        if k != j {
          assert InBox(m[k], p);
        } else {
          assert InBox(m[j], p);
        }
      }
      if InBox(a, p) {
        assert InBox(m[j], p);
      }
    }
    if Disjoint([a] + rest) {
      var all := [a] + rest;
      forall i, k | 0 <= i < k < |m|
        ensures !Intersects(m[i], m[k])
      {
        assert all[i + 1] == rest[i] && all[k + 1] == rest[k];
        if i == j {
          assert all[0] == a;
          IntersectsSymmetric(b, rest[k]);
          JoinKeepsApart(b, a, rest[k]);
        } else if k == j {
          assert all[0] == a;
          IntersectsSymmetric(a, rest[i]);
          IntersectsSymmetric(rest[i], b);
          JoinKeepsApart(b, a, rest[i]);
        }
      }
    }
  }

  /** Putting back a box that shares no point with the rest of a disjoint
      list in front of a disjoint list with the same region as that rest
      gives a disjoint list. */
  lemma PrependApart(a: Box, rest: seq<Box>, sub: seq<Box>)
    requires Disjoint([a] + rest) && Disjoint(sub)
    requires forall p :: Covers(sub, p) <==> Covers(rest, p)
    ensures Disjoint([a] + sub)
  {
    var bs := [a] + rest;
    assert bs[0] == a && bs[1..] == rest;
    PrefixApart(bs);
    ApartFromRegion(a, sub);
    DisjointAppend([a], sub);
  }

  /** A merging pass keeps the region, validity and typing of the list. */
  lemma {:induction false} MergePassKeeps(bs: seq<Box>, depth: nat, t: IndexType)
    ensures forall p :: Covers(MergePass(bs, depth).0, p) <==> Covers(bs, p)
    ensures AllOk(bs) ==> AllOk(MergePass(bs, depth).0)
    ensures AllOfType(bs, t) ==> AllOfType(MergePass(bs, depth).0, t)
    decreases |bs|
  {
    if |bs| > 0 {
      var a := bs[0];
      var rest := bs[1..];
      assert [a] + rest == bs;
      var limit := Min(depth, |rest|);
      var j := FindPartner(a, rest, 0, limit);
      if j < limit {
        MergeStep(a, rest, j, t);
        MergePassKeeps(rest[j := Hull(rest[j], a)], depth, t);
      } else {
        var sub := MergePass(rest, depth);
        MergePassKeeps(rest, depth, t);
        CoversAppendAll([a], sub.0);
        CoversAppendAll([a], rest);
        AppendKeeps([a], sub.0, a, t);
      }
    }
  }

  /** A merging pass over a disjoint list leaves it disjoint. */
  lemma {:induction false} MergePassDisjoint(bs: seq<Box>, depth: nat)
    ensures Disjoint(bs) ==> Disjoint(MergePass(bs, depth).0)
    decreases |bs|
  {
    if |bs| > 0 && Disjoint(bs) {
      var a := bs[0];
      var rest := bs[1..];
      assert [a] + rest == bs;
      var limit := Min(depth, |rest|);
      var j := FindPartner(a, rest, 0, limit);
      if j < limit {
        MergeStep(a, rest, j, a.typ);
        MergePassDisjoint(rest[j := Hull(rest[j], a)], depth);
      } else {
        PrefixApart(bs);
        MergePassDisjoint(rest, depth);
        MergePassKeeps(rest, depth, a.typ);
        PrependApart(a, rest, MergePass(rest, depth).0);
      }
    }
  }

  /** A pass that reports no merge found no pair of boxes within `depth`
      places of each other that could be merged. */
  lemma {:induction false} MergePassComplete(bs: seq<Box>, depth: nat)
    ensures MergePass(bs, depth).1 == 0 ==>
      forall i, j :: 0 <= i < j < |bs| && j - i <= depth ==> !CanJoin(bs[i], bs[j])
    decreases |bs|
  {
    if |bs| > 0 && MergePass(bs, depth).1 == 0 {
      var a := bs[0];
      var rest := bs[1..];
      var limit := Min(depth, |rest|);
      assert FindPartner(a, rest, 0, limit) == limit;
      MergePassComplete(rest, depth);
      forall i, j | 0 <= i < j < |bs| && j - i <= depth
        ensures !CanJoin(bs[i], bs[j])
      {
        assert bs[j] == rest[j - 1];
        if i > 0 {
          assert bs[i] == rest[i - 1];
        }
      }
    }
  }

  /** `simplify(best)`: one merging pass, exhaustive when `best`, otherwise
      looking `DefaultLookahead` boxes ahead.  Returns the new list and the
      number of merges; every merge removes one box, and the region, the
      container invariant, validity and disjointness are kept.  No merge is
      reported only when no two boxes within the window can be merged. */
  function SimplifyList(bl: BoxList, best: bool): (res: (BoxList, nat))
    ensures res.0.btype == bl.btype
    ensures Size(res.0) + res.1 == Size(bl)
    ensures forall p :: InRegion(res.0, p) <==> InRegion(bl, p)
    ensures Typed(bl) ==> Typed(res.0)
    ensures BoxLists.Ok(bl) ==> BoxLists.Ok(res.0)
    ensures IsDisjoint(bl) ==> IsDisjoint(res.0)
    ensures res.1 == 0 ==> forall i, j :: 0 <= i < j < Size(bl) && (best || j - i <= DefaultLookahead) ==>
      !CanJoin(bl.boxes[i], bl.boxes[j])
  {
    var depth := if best then Size(bl) else DefaultLookahead;
    MergePassComplete(bl.boxes, depth);
    MergePassKeeps(bl.boxes, depth, bl.btype);
    MergePassDisjoint(bl.boxes, depth);
    var pass := MergePass(bl.boxes, depth);
    (BoxList(pass.0, bl.btype), pass.1)
  }

  /** `ordered_simplify`: the pass that compares each box with its successor
      only, which finds the merges of a list sorted so that mergeable boxes
      are neighbours.  No merge is reported only when no two neighbours can
      be merged. */
  function OrderedSimplify(bl: BoxList): (res: (BoxList, nat))
    ensures res.0.btype == bl.btype
    ensures Size(res.0) + res.1 == Size(bl)
    ensures forall p :: InRegion(res.0, p) <==> InRegion(bl, p)
    ensures Typed(bl) ==> Typed(res.0)
    ensures BoxLists.Ok(bl) ==> BoxLists.Ok(res.0)
    ensures IsDisjoint(bl) ==> IsDisjoint(res.0)
    ensures res.1 == 0 ==> forall i :: 0 <= i < Size(bl) - 1 ==> !CanJoin(bl.boxes[i], bl.boxes[i + 1])
  {
    MergePassComplete(bl.boxes, 1);
    MergePassKeeps(bl.boxes, 1, bl.btype);
    MergePassDisjoint(bl.boxes, 1);
    var pass := MergePass(bl.boxes, 1);
    (BoxList(pass.0, bl.btype), pass.1)
  }

  /** Two neighbouring mergeable boxes are coalesced into one by either pass. */
  lemma NeighboursMerge(a: Box, b: Box, best: bool)
    requires CanJoin(a, b) && a.typ == b.typ
    ensures SimplifyList(BoxList([a, b], a.typ), best) == (BoxList([Hull(b, a)], a.typ), 1)
    ensures OrderedSimplify(BoxList([a, b], a.typ)) == (BoxList([Hull(b, a)], a.typ), 1)
  {
    var bs := [a, b];
    assert bs[1..] == [b];
    assert FindPartner(a, [b], 0, 1) == 0;
    assert [b][0 := Hull(b, a)] == [Hull(b, a)];
    assert MergePass([Hull(b, a)], 1) == ([Hull(b, a)], 0);
    assert MergePass([Hull(b, a)], DefaultLookahead) == ([Hull(b, a)], 0);
    assert MergePass([Hull(b, a)], 2) == ([Hull(b, a)], 0);
  }
}
