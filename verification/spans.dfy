/** One-dimensional cuts of an index range, and the box split they induce.
    Every chopping operation of a box list (tiling, chopping into a number
    of pieces, `maxSize`) cuts boxes one direction at a time along such a
    partition of the box's index range in that direction. */
module Spans {
  import opened Boxes

  /** The inclusive index range `lo..hi`. */
  datatype Span = Span(lo: int, hi: int)

  function SpanLength(s: Span): int {
    s.hi - s.lo + 1
  }

  /** `ss` cuts the range `lo..hi` into non-empty, consecutive pieces listed
      from low to high. */
  predicate Partitions(ss: seq<Span>, lo: int, hi: int) {
    && |ss| >= 1
    && ss[0].lo == lo
    && ss[|ss| - 1].hi == hi
    && (forall k :: 0 <= k < |ss| ==> ss[k].lo <= ss[k].hi)
    && (forall k :: 0 <= k < |ss| - 1 ==> ss[k].hi + 1 == ss[k + 1].lo)
  }

  lemma {:induction false} PartitionStep(ss: seq<Span>, lo: int, hi: int, i: nat, j: nat)
    requires Partitions(ss, lo, hi)
    requires i < j < |ss|
    ensures ss[i].hi < ss[j].lo
    decreases j - i
  {
    if j > i + 1 {
      PartitionStep(ss, lo, hi, i, j - 1);
    }
  }

  /** The pieces of a partition are ordered, apart, and inside the range. */
  lemma PartitionOrdered(ss: seq<Span>, lo: int, hi: int)
    requires Partitions(ss, lo, hi)
    ensures forall i, j :: 0 <= i < j < |ss| ==> ss[i].hi < ss[j].lo
    ensures forall k :: 0 <= k < |ss| ==> lo <= ss[k].lo && ss[k].hi <= hi
  {
    forall i, j | 0 <= i < j < |ss|
      ensures ss[i].hi < ss[j].lo
    {
      PartitionStep(ss, lo, hi, i, j);
    }
  }

  predicate InSpan(s: Span, x: int) {
    s.lo <= x <= s.hi
  }

  lemma {:induction false} PartitionLocate(ss: seq<Span>, lo: int, hi: int, m: nat, x: int)
    requires Partitions(ss, lo, hi)
    requires m < |ss| && ss[m].lo <= x <= hi
    ensures exists k :: m <= k < |ss| && InSpan(ss[k], x)
    decreases |ss| - m
  {
    if x > ss[m].hi {
      PartitionLocate(ss, lo, hi, m + 1, x);
    } else {
      assert InSpan(ss[m], x);
    }
  }

  /** Every index of the range lies in some piece, and only those do. */
  lemma PartitionCovers(ss: seq<Span>, lo: int, hi: int, x: int)
    requires Partitions(ss, lo, hi)
    ensures (exists k :: 0 <= k < |ss| && InSpan(ss[k], x)) <==> lo <= x <= hi
  {
    PartitionOrdered(ss, lo, hi);
    if lo <= x <= hi {
      PartitionLocate(ss, lo, hi, 0, x);
    }
  }

  /** Fixed-size cuts: pieces of exactly `size` indices from the low end, the
      remainder (if any) in a shorter last piece. */
  function TileSpans(lo: int, hi: int, size: int): (ss: seq<Span>)
    requires lo <= hi && size >= 1
    ensures Partitions(ss, lo, hi)
    ensures forall k :: 0 <= k < |ss| ==> SpanLength(ss[k]) <= size
    ensures forall k :: 0 <= k < |ss| - 1 ==> SpanLength(ss[k]) == size
    decreases hi - lo
  {
    if hi - lo + 1 <= size then [Span(lo, hi)]
    else
      var rest := TileSpans(lo + size, hi, size);
      var ss := [Span(lo, lo + size - 1)] + rest;
      assert forall k :: 1 <= k < |ss| ==> ss[k] == rest[k - 1];
      ss
  }

  /** Tile `k` starts `k` whole tiles above the low end. */
  lemma {:induction false} TileSpansStarts(lo: int, hi: int, size: int)
    requires lo <= hi && size >= 1
    ensures forall k :: 0 <= k < |TileSpans(lo, hi, size)| ==> TileSpans(lo, hi, size)[k].lo == lo + k * size
    decreases hi - lo
  {
    var ss := TileSpans(lo, hi, size);
    if hi - lo + 1 > size {
      var rest := TileSpans(lo + size, hi, size);
      TileSpansStarts(lo + size, hi, size);
      forall k | 1 <= k < |ss|
        ensures ss[k].lo == lo + k * size
      {
        assert ss[k] == rest[k - 1];
        assert (k - 1) * size + size == k * size;
      }
    }
  }

  /** Total length of balanced pieces number `k` to `n - 1`. */
  function EvenTotal(k: nat, n: nat, q: nat, e: nat): int
    decreases n - k
  {
    if k >= n then 0 else (if k < e then q + 1 else q) + EvenTotal(k + 1, n, q, e)
  }

  lemma {:induction false} EvenTotalClosed(k: nat, n: nat, q: nat, e: nat)
    requires k <= n && e <= n
    ensures EvenTotal(k, n, q, e) == (n - k) * q + Max(e - k, 0)
    decreases n - k
  {
    if k < n {
      EvenTotalClosed(k + 1, n, q, e);
      assert (n - k) * q == (n - (k + 1)) * q + q;
    }
  }

  /** Balanced cuts of `lo..hi`: pieces number `k` to `n - 1`, where piece
      `i` has `q + 1` indices when `i < e` and `q` otherwise. */
  function EvenFrom(lo: int, hi: int, k: nat, n: nat, q: nat, e: nat): (ss: seq<Span>)
    requires k < n && q >= 1
    requires hi - lo + 1 == EvenTotal(k, n, q, e)
    ensures |ss| == n - k
    ensures Partitions(ss, lo, hi)
    ensures forall i :: 0 <= i < |ss| ==> SpanLength(ss[i]) == if k + i < e then q + 1 else q
    decreases n - k
  {
    var size := if k < e then q + 1 else q;
    var first := Span(lo, lo + size - 1);
    if k + 1 == n then
      assert EvenTotal(k + 1, n, q, e) == 0;
      [first]
    else
      var rest := EvenFrom(lo + size, hi, k + 1, n, q, e);
      var ss := [first] + rest;
      assert forall i :: 1 <= i < |ss| ==> ss[i] == rest[i - 1];
      ss
  }

  /** The range `lo..hi` cut into `n` pieces whose lengths differ by at most
      one: the first `len % n` pieces have one index more than the others. */
  function EvenSpans(lo: int, hi: int, n: nat): (ss: seq<Span>)
    requires 1 <= n <= hi - lo + 1
    ensures |ss| == n
    ensures Partitions(ss, lo, hi)
    ensures forall k :: 0 <= k < |ss| ==>
      SpanLength(ss[k]) == if k < (hi - lo + 1) % n then (hi - lo + 1) / n + 1 else (hi - lo + 1) / n
  {
    var len := hi - lo + 1;
    var q := len / n;
    var e := len % n;
    assert len == n * q + e;
    assert q >= 1;
    EvenTotalClosed(0, n, q, e);
    EvenFrom(lo, hi, 0, n, q, e)
  }

  /** `a` and `b` have the same extent in every direction other than `d`. */
  predicate SameExtentExcept(a: Box, b: Box, d: nat) {
    forall e :: 0 <= e < SpaceDim && e != d ==> a.lo[e] == b.lo[e] && a.hi[e] == b.hi[e]
  }

  /** Box `b` cut in direction `d` along the pieces of `ss`. */
  function SplitBox(b: Box, d: nat, ss: seq<Span>): (r: seq<Box>)
    requires d < SpaceDim
    ensures |r| == |ss|
    ensures forall k :: 0 <= k < |r| ==> r[k].lo[d] == ss[k].lo && r[k].hi[d] == ss[k].hi
    ensures forall k :: 0 <= k < |r| ==> SameExtentExcept(r[k], b, d)
    ensures AllOfType(r, b.typ)
  {
    seq(|ss|, k requires 0 <= k < |ss| => SetHi(SetLo(b, d, ss[k].lo), d, ss[k].hi))
  }

  /** Splitting a box along a partition of its range yields disjoint pieces
      inside it that together cover exactly the box; the pieces of a valid
      box are valid. */
  lemma SplitBoxPartition(b: Box, d: nat, ss: seq<Span>)
    requires d < SpaceDim
    requires Partitions(ss, b.lo[d], b.hi[d])
    ensures forall p :: Covers(SplitBox(b, d, ss), p) <==> InBox(b, p)
    ensures Disjoint(SplitBox(b, d, ss))
    ensures AllInside(SplitBox(b, d, ss), b)
    ensures Ok(b) ==> AllOk(SplitBox(b, d, ss))
  {
    SplitBoxRegion(b, d, ss);
    SplitBoxDisjoint(b, d, ss);
    SplitBoxInside(b, d, ss);
  }

  lemma SplitBoxRegion(b: Box, d: nat, ss: seq<Span>)
    requires d < SpaceDim
    requires Partitions(ss, b.lo[d], b.hi[d])
    ensures forall p :: Covers(SplitBox(b, d, ss), p) <==> InBox(b, p)
  {
    var r := SplitBox(b, d, ss);
    PartitionOrdered(ss, b.lo[d], b.hi[d]);
    forall p | InBox(b, p)
      ensures Covers(r, p)
    {
      PartitionCovers(ss, b.lo[d], b.hi[d], p[d]);
      var k :| 0 <= k < |ss| && InSpan(ss[k], p[d]);
      assert InBox(r[k], p);
    }
    forall p | Covers(r, p)
      ensures InBox(b, p)
    {
      var k :| 0 <= k < |r| && InBox(r[k], p);
      SplitBoxPieceInside(b, d, ss, k);
    }
  }

  /** Piece `k` lies inside `b`. */
  lemma SplitBoxPieceInside(b: Box, d: nat, ss: seq<Span>, k: nat)
    requires d < SpaceDim
    requires Partitions(ss, b.lo[d], b.hi[d])
    requires k < |ss|
    ensures ContainsBox(b, SplitBox(b, d, ss)[k])
  {
    PartitionOrdered(ss, b.lo[d], b.hi[d]);
    assert SameExtentExcept(SplitBox(b, d, ss)[k], b, d);
  }

  lemma SplitBoxDisjoint(b: Box, d: nat, ss: seq<Span>)
    requires d < SpaceDim
    requires Partitions(ss, b.lo[d], b.hi[d])
    ensures Disjoint(SplitBox(b, d, ss))
  {
    var r := SplitBox(b, d, ss);
    PartitionOrdered(ss, b.lo[d], b.hi[d]);
    forall i, j | 0 <= i < j < |r|
      ensures !Intersects(r[i], r[j])
    {
      assert Intersect(r[i], r[j]).lo[d] > Intersect(r[i], r[j]).hi[d];
    }
  }

  lemma SplitBoxInside(b: Box, d: nat, ss: seq<Span>)
    requires d < SpaceDim
    requires Partitions(ss, b.lo[d], b.hi[d])
    ensures AllInside(SplitBox(b, d, ss), b)
    ensures Ok(b) ==> AllOk(SplitBox(b, d, ss))
  {
    var r := SplitBox(b, d, ss);
    forall k | 0 <= k < |r|
      ensures ContainsBox(b, r[k])
    {
      SplitBoxPieceInside(b, d, ss, k);
    }
  }
}
