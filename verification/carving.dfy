/** The box difference that underlies `boxDiff`, `complementIn` and
    `removeOverlap`.  A box is carved against another one direction at a
    time, from the highest direction down: in each direction the slab below
    and the slab above the other box are split off and kept, and the middle
    part is carried on to the next direction.  What is left at the end lies
    inside the other box and is dropped. */
module Carving {
  import opened Boxes

  /** In every direction from `i` up, the range of `w` lies within that of `b`. */
  predicate InsideFrom(w: Box, b: Box, i: nat) {
    forall d :: i <= d < SpaceDim ==> b.lo[d] <= w.lo[d] && w.hi[d] <= b.hi[d]
  }

  /** Slabs of `w` outside `b` in directions `i - 1` down to `0`. */
  function Carve(w: Box, b: Box, i: nat): (r: seq<Box>)
    requires i <= SpaceDim
    ensures |r| <= 2 * i
    ensures AllOfType(r, w.typ)
    decreases i
  {
    if i == 0 then []
    else
      var d := i - 1;
      var slabs := LowSlab(w, b, d) + HighSlab(w, b, d);
      var rest := Carve(Middle(w, b, d), b, d);
      AppendKeeps(slabs, rest, w, w.typ);
      slabs + rest
  }

  /** The slab of `w` below `b` in direction `d`, if any. */
  function LowSlab(w: Box, b: Box, d: nat): seq<Box>
    requires d < SpaceDim
  {
    if w.lo[d] < b.lo[d] then [SetHi(w, d, b.lo[d] - 1)] else []
  }

  /** The slab of `w` above `b` in direction `d`, if any. */
  function HighSlab(w: Box, b: Box, d: nat): seq<Box>
    requires d < SpaceDim
  {
    if b.hi[d] < w.hi[d] then [SetLo(w, d, b.hi[d] + 1)] else []
  }

  /** The part of `w` carried on to the next direction after carving direction
      `d`: its range in `d` is the overlap of the ranges of `w` and `b`. */
  function Middle(w: Box, b: Box, d: nat): Box
    requires d < SpaceDim
  {
    SetHi(SetLo(w, d, Max(w.lo[d], b.lo[d])), d, Min(w.hi[d], b.hi[d]))
  }

  /** The ranges of `w` and `b` in direction `d` overlap. */
  predicate MeetIn(w: Box, b: Box, d: nat)
    requires d < SpaceDim
  {
    b.lo[d] <= w.hi[d] && w.lo[d] <= b.hi[d] && b.lo[d] <= b.hi[d]
  }

  lemma MeetEverywhere(w: Box, b: Box)
    requires Intersects(w, b)
    ensures forall d :: 0 <= d < SpaceDim ==> MeetIn(w, b, d)
  {
    forall d | 0 <= d < SpaceDim
      ensures MeetIn(w, b, d)
    {
      assert Intersect(w, b).lo[d] <= Intersect(w, b).hi[d];
    }
  }

  /** The two slabs of one carving step are valid, inside `w`, apart from
      each other, and lie below and above `b` in direction `d`. */
  lemma SlabShape(w: Box, b: Box, d: nat)
    requires d < SpaceDim && Ok(w) && MeetIn(w, b, d)
    ensures AllOk(LowSlab(w, b, d) + HighSlab(w, b, d))
    ensures AllInside(LowSlab(w, b, d) + HighSlab(w, b, d), w)
    ensures Disjoint(LowSlab(w, b, d) + HighSlab(w, b, d))
    ensures forall k :: 0 <= k < |LowSlab(w, b, d) + HighSlab(w, b, d)| ==>
      var s := (LowSlab(w, b, d) + HighSlab(w, b, d))[k];
      s.hi[d] < b.lo[d] || s.lo[d] > b.hi[d]
  {
    var low := LowSlab(w, b, d);
    var high := HighSlab(w, b, d);
    if |low| == 1 && |high| == 1 {
      assert Intersect(low[0], high[0]).lo[d] > Intersect(low[0], high[0]).hi[d];
    }
  }

  /** The middle part is valid, inside `w`, level with `b` in direction `d`,
      and meets `b` exactly where `w` does. */
  lemma MiddleShape(w: Box, b: Box, d: nat)
    requires d < SpaceDim && Ok(w) && Intersects(w, b)
    ensures Ok(Middle(w, b, d)) && ContainsBox(w, Middle(w, b, d))
    ensures Intersects(Middle(w, b, d), b)
    ensures b.lo[d] <= Middle(w, b, d).lo[d] && Middle(w, b, d).hi[d] <= b.hi[d]
    ensures forall p :: InBox(Middle(w, b, d), p) <==> InBox(w, p) && b.lo[d] <= p[d] <= b.hi[d]
  {
    MeetEverywhere(w, b);
    var m := Middle(w, b, d);
    forall e | 0 <= e < SpaceDim
      ensures m.lo[e] <= m.hi[e]
    {
      if e != d {
        assert m.lo[e] == w.lo[e] && m.hi[e] == w.hi[e];
      } else {
        assert MeetIn(w, b, e);
        assert w.lo[e] <= w.hi[e];
      }
    }
    assert Intersect(m, b) == Intersect(w, b);
  }

  /** The middle part lies within the range of `b` from direction `d` up. */
  lemma MiddleInsideFrom(w: Box, b: Box, d: nat)
    requires d < SpaceDim && InsideFrom(w, b, d + 1) && MeetIn(w, b, d)
    ensures InsideFrom(Middle(w, b, d), b, d)
  {
    var m := Middle(w, b, d);
    forall e | d <= e < SpaceDim
      ensures b.lo[e] <= m.lo[e] && m.hi[e] <= b.hi[e]
    {
      if e != d {
        assert m.lo[e] == w.lo[e] && m.hi[e] == w.hi[e];
      }
    }
  }

  /** The slabs of one carving step cover the points of `w` outside the range
      of `b` in direction `d`. */
  lemma SlabRegion(w: Box, b: Box, d: nat, p: IntVect)
    requires d < SpaceDim && MeetIn(w, b, d)
    ensures Covers(LowSlab(w, b, d) + HighSlab(w, b, d), p) <==>
      InBox(w, p) && (p[d] < b.lo[d] || b.hi[d] < p[d])
  {
    CoversAppend(LowSlab(w, b, d), HighSlab(w, b, d), p);
    CoversSingleton(SetHi(w, d, b.lo[d] - 1), p);
    CoversSingleton(SetLo(w, d, b.hi[d] + 1), p);
  }

  lemma CarveStepDisjoint(w: Box, b: Box, d: nat, rest: seq<Box>)
    requires d < SpaceDim && Ok(w) && Intersects(w, b)
    requires Disjoint(rest) && AllInside(rest, Middle(w, b, d))
    ensures Disjoint(LowSlab(w, b, d) + HighSlab(w, b, d) + rest)
  {
    var m := Middle(w, b, d);
    var slabs := LowSlab(w, b, d) + HighSlab(w, b, d);
    MeetEverywhere(w, b);
    MiddleShape(w, b, d);
    SlabShape(w, b, d);
    forall x, y | 0 <= x < |slabs| && 0 <= y < |rest|
      ensures !Intersects(slabs[x], rest[y])
    {
      assert ContainsBox(m, rest[y]);
      ApartInDir(slabs[x], rest[y], d);
    }
    DisjointAppend(slabs, rest);
  }

  lemma CarveStepRegion(w: Box, b: Box, d: nat, rest: seq<Box>)
    requires d < SpaceDim && Ok(w) && Intersects(w, b)
    requires forall p :: Covers(rest, p) <==> InBox(Middle(w, b, d), p) && !InBox(b, p)
    ensures forall p :: Covers(LowSlab(w, b, d) + HighSlab(w, b, d) + rest, p) <==> InBox(w, p) && !InBox(b, p)
  {
    MeetEverywhere(w, b);
    MiddleShape(w, b, d);
    forall p
      ensures Covers(LowSlab(w, b, d) + HighSlab(w, b, d) + rest, p) <==> InBox(w, p) && !InBox(b, p)
    {
      CoversAppend(LowSlab(w, b, d) + HighSlab(w, b, d), rest, p);
      SlabRegion(w, b, d, p);
    }
  }

  lemma CarveStepInside(w: Box, b: Box, d: nat, rest: seq<Box>)
    requires d < SpaceDim && Ok(w) && Intersects(w, b)
    requires AllOk(rest) && AllInside(rest, Middle(w, b, d))
    ensures AllOk(LowSlab(w, b, d) + HighSlab(w, b, d) + rest)
    ensures AllInside(LowSlab(w, b, d) + HighSlab(w, b, d) + rest, w)
  {
    var m := Middle(w, b, d);
    var slabs := LowSlab(w, b, d) + HighSlab(w, b, d);
    MeetEverywhere(w, b);
    MiddleShape(w, b, d);
    SlabShape(w, b, d);
    forall k | 0 <= k < |rest|
      ensures ContainsBox(w, rest[k])
    {
      ContainsBoxTrans(w, m, rest[k]);
    }
    AppendKeeps(slabs, rest, w, w.typ);
  }

  /** The slabs carved from a valid box `w` that meets `b` are valid, lie
      inside `w`, do not overlap, and cover exactly the points of `w` outside
      `b`. */
  lemma CarveExact(w: Box, b: Box, i: nat)
    requires i <= SpaceDim
    requires Ok(w) && Intersects(w, b) && InsideFrom(w, b, i)
    ensures forall p :: Covers(Carve(w, b, i), p) <==> InBox(w, p) && !InBox(b, p)
    ensures AllOk(Carve(w, b, i)) && AllInside(Carve(w, b, i), w)
    ensures Disjoint(Carve(w, b, i))
  {
    CarveRegion(w, b, i);
    CarveInside(w, b, i);
    CarveDisjoint(w, b, i);
  }

  lemma {:induction false} CarveRegion(w: Box, b: Box, i: nat)
    requires i <= SpaceDim
    requires Ok(w) && Intersects(w, b) && InsideFrom(w, b, i)
    ensures forall p :: Covers(Carve(w, b, i), p) <==> InBox(w, p) && !InBox(b, p)
    decreases i
  {
    if i == 0 {
      assert ContainsBox(b, w);
      ContainsBoxMeaning(b, w);
    } else {
      var d := i - 1;
      var m := Middle(w, b, d);
      MiddleShape(w, b, d);
      MeetEverywhere(w, b);
      MiddleInsideFrom(w, b, d);
      CarveRegion(m, b, d);
      var rest := Carve(m, b, d);
      CarveStepRegion(w, b, d, rest);
    }
  }

  lemma {:induction false} CarveInside(w: Box, b: Box, i: nat)
    requires i <= SpaceDim
    requires Ok(w) && Intersects(w, b)
    ensures AllOk(Carve(w, b, i)) && AllInside(Carve(w, b, i), w)
    decreases i
  {
    if i > 0 {
      var d := i - 1;
      var m := Middle(w, b, d);
      MiddleShape(w, b, d);
      CarveInside(m, b, d);
      var rest := Carve(m, b, d);
      CarveStepInside(w, b, d, rest);
    }
  }

  lemma {:induction false} CarveDisjoint(w: Box, b: Box, i: nat)
    requires i <= SpaceDim
    requires Ok(w) && Intersects(w, b)
    ensures Disjoint(Carve(w, b, i))
    decreases i
  {
    if i > 0 {
      var d := i - 1;
      var m := Middle(w, b, d);
      MiddleShape(w, b, d);
      CarveDisjoint(m, b, d);
      CarveInside(m, b, d);
      var rest := Carve(m, b, d);
      CarveStepDisjoint(w, b, d, rest);
    }
  }

  /** The pieces of `b1` outside `b2`: nothing for an invalid `b1` or one
      that `b2` contains, `b1` itself when the boxes do not meet, the carved
      slabs otherwise. */
  function Diff(b1: Box, b2: Box): (r: seq<Box>)
    ensures |r| <= 2 * SpaceDim
    ensures AllOfType(r, b1.typ)
  {
    if !Ok(b1) || ContainsBox(b2, b1) then []
    else if !Intersects(b1, b2) then [b1]
    else Carve(b1, b2, SpaceDim)
  }

  lemma DiffExact(b1: Box, b2: Box)
    ensures forall p :: Covers(Diff(b1, b2), p) <==> InBox(b1, p) && !InBox(b2, p)
    ensures AllOk(Diff(b1, b2)) && AllInside(Diff(b1, b2), b1)
    ensures Disjoint(Diff(b1, b2))
  {
    if !Ok(b1) {
      OkIffHasPoint(b1);
    } else if ContainsBox(b2, b1) {
      ContainsBoxMeaning(b2, b1);
    } else if !Intersects(b1, b2) {
      IntersectsIffSharedPoint(b1, b2);
      forall p
        ensures Covers([b1], p) <==> InBox(b1, p)
      {
        CoversSingleton(b1, p);
      }
    } else {
      CarveExact(b1, b2, SpaceDim);
    }
  }

  /** Every box of `ws` carved against `m`, concatenated in order. */
  function DiffEach(ws: seq<Box>, m: Box): seq<Box>
  {
    if |ws| == 0 then [] else Diff(ws[0], m) + DiffEach(ws[1..], m)
  }

  lemma {:induction false} DiffEachExact(ws: seq<Box>, m: Box)
    ensures forall p :: Covers(DiffEach(ws, m), p) <==> Covers(ws, p) && !InBox(m, p)
    ensures AllOk(DiffEach(ws, m))
    ensures Disjoint(ws) ==> Disjoint(DiffEach(ws, m))
  {
    if |ws| > 0 {
      var head := Diff(ws[0], m);
      var rest := DiffEach(ws[1..], m);
      DiffExact(ws[0], m);
      DiffEachExact(ws[1..], m);
      CoversAppendAll(head, rest);
      CoversAppendAll([ws[0]], ws[1..]);
      assert [ws[0]] + ws[1..] == ws;
      forall p
        ensures Covers([ws[0]], p) <==> InBox(ws[0], p)
      {
        CoversSingleton(ws[0], p);
      }
      if Disjoint(ws) {
        assert Disjoint(ws[1..]);
        DisjointIffNoSharedPoint(ws);
        forall x | 0 <= x < |head|
          ensures forall y :: 0 <= y < |rest| ==> !Intersects(head[x], rest[y])
        {
          ContainsBoxMeaning(ws[0], head[x]);
          forall p | InBox(head[x], p)
            ensures !Covers(ws[1..], p)
          {
          }
          ApartFromRegion(head[x], rest);
        }
        DisjointAppend(head, rest);
      }
    }
  }

  /** Carving keeps the pieces inside whatever held the original boxes, and of
      their type. */
  lemma {:induction false} DiffEachKeeps(ws: seq<Box>, m: Box, o: Box, t: IndexType)
    ensures AllInside(ws, o) ==> AllInside(DiffEach(ws, m), o)
    ensures AllOfType(ws, t) ==> AllOfType(DiffEach(ws, m), t)
  {
    if |ws| > 0 {
      var head := Diff(ws[0], m);
      DiffExact(ws[0], m);
      DiffEachKeeps(ws[1..], m, o, t);
      if AllInside(ws, o) {
        forall k | 0 <= k < |head|
          ensures ContainsBox(o, head[k])
        {
          ContainsBoxTrans(o, ws[0], head[k]);
        }
      }
    }
  }

  /** The boxes `ws` carved successively against every member of `ms`. */
  function DiffAll(ws: seq<Box>, ms: seq<Box>): seq<Box>
    decreases |ms|
  {
    if |ms| == 0 then ws else DiffAll(DiffEach(ws, ms[0]), ms[1..])
  }

  /** Carving against a list removes exactly the list's region, and keeps the
      pieces valid and disjoint. */
  lemma {:induction false} DiffAllExact(ws: seq<Box>, ms: seq<Box>)
    requires AllOk(ws)
    ensures forall p :: Covers(DiffAll(ws, ms), p) <==> Covers(ws, p) && !Covers(ms, p)
    ensures AllOk(DiffAll(ws, ms))
    ensures Disjoint(ws) ==> Disjoint(DiffAll(ws, ms))
    decreases |ms|
  {
    if |ms| > 0 {
      var next := DiffEach(ws, ms[0]);
      DiffEachExact(ws, ms[0]);
      DiffAllExact(next, ms[1..]);
      assert [ms[0]] + ms[1..] == ms;
      CoversAppendAll([ms[0]], ms[1..]);
      forall p
        ensures Covers([ms[0]], p) <==> InBox(ms[0], p)
      {
        CoversSingleton(ms[0], p);
      }
    }
  }

  lemma {:induction false} DiffAllKeeps(ws: seq<Box>, ms: seq<Box>, o: Box, t: IndexType)
    ensures AllInside(ws, o) ==> AllInside(DiffAll(ws, ms), o)
    ensures AllOfType(ws, t) ==> AllOfType(DiffAll(ws, ms), t)
    decreases |ms|
  {
    if |ms| > 0 {
      DiffEachKeeps(ws, ms[0], o, t);
      DiffAllKeeps(DiffEach(ws, ms[0]), ms[1..], o, t);
    }
  }
}
