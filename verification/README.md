# AMReX BoxList — a Dafny model of the box-set algebra

AMReX describes regions of a structured-grid index space as lists of boxes.
A box is an axis-aligned rectangle of the integer lattice. It has a low and a
high corner and an `IndexType`, which says per direction whether the box is
cell- or node-centred. A `BoxList` is an ordered sequence of boxes that all
share one `IndexType`. The region it denotes is the union of its members.

This project models the `BoxList` class and its companion free functions from
`Src/Base/AMReX_BoxList.H`. It covers:

- the container operations;
- the validity queries;
- the set algebra: complement, difference, intersection, removal of empty and
  overlapping boxes;
- the per-box transforms: refine, coarsen, accrete, shift, and the centring
  conversions;
- coalescing (`simplify`);
- splitting: `maxSize`, and the tile and chop constructors.

Every list operation is a pure function on an immutable value. Its meaning is
stated over the lattice points it covers.

## Layout

- `boxes.dfy` (module `Boxes`): boxes over a fixed `SpaceDim = 3`.
  - `InBox(b, p)`: lattice-point membership, `lo <= p <= hi` componentwise.
  - Box validity, intersection, hull and containment.
  - `Covers` / `Disjoint`: lists of boxes read as point sets.
- `boxlists.dfy` (module `BoxLists`): the `BoxList` value.
  - `Typed`: the class invariant, stated as a predicate.
  - Constructors, container operations, `ok`, `isDisjoint` and `minimalBox`.
- `spans.dfy` (module `Spans`): partitions of an integer range into
  consecutive spans. Fixed-size spans are used for tiles; balanced spans for
  `maxSize` and directional chopping.
- `arith.dfy` (module `Arith`): the division and multiplication facts the
  refine/coarsen and splitting proofs rely on.
- `carving.dfy` (module `Carving`): `boxDiff` as slab carving, and folds of it
  over lists.
- `setalgebra.dfy` (module `SetAlgebra`): `complementIn`, `intersect`,
  `removeEmpty`, `removeOverlap`, `contains`.
- `transforms.dfy` (module `Transforms`): refine, coarsen, accrete, shift,
  convert, `surroundingNodes`, `enclosedCells`.
- `simplify.dfy` (module `Simplify`): merging of face-adjacent boxes.
- `chopping.dfy` (module `Chopping`): `maxSize`, the tile constructor, and the
  `nboxes` constructors with and without a direction.

## Conventions chosen

The implementation file `Src/Base/AMReX_BoxList.cpp` is not part of this
model, and neither is `AMReX_Box.H`. The algorithms below therefore follow
the header's doc comments, and where those are silent they are our own
choice.

**Boxes**
- A box's points are the lattice points between its corners, whatever its
  centring.
- Cell-centred refinement maps `[lo, hi]` to `[lo*r, (hi+1)*r-1]`.
  Node-centred refinement maps it to `[lo*r, hi*r]`.
- Coarsening floors `lo`. For a node-centred direction it rounds `hi` up;
  for a cell-centred direction it floors `hi`.
- Converting a cell direction to node adds one to `hi`. Converting node to
  cell subtracts one.

**Constructors and type handling**
- A list built from a vector of boxes takes the type of its first box, or
  the cell type when the vector is empty.
- List-level `convert`, `surroundingNodes` and `enclosedCells` also set the
  list's `IndexType` to the new type.
- `minimalBox` of an empty list returns an invalid box (`lo = 1`, `hi = 0`).
  It has no precondition.

**`boxDiff` and `complementIn`**
- `boxDiff(b1, b2)` carves `b1` direction by direction into at most two
  slabs per direction lying outside `b2`.
- `complementIn(b, bl)` folds `boxDiff` over the members of `bl`.
- `removeOverlap` adds each box, minus the boxes already kept, to the result
  in turn.

**`simplify`**
- `simplify(best)` is one pass, as the header's comment describes. Each box
  in turn merges into the first later box it can join.
- With `best` the pass looks at every later box. Otherwise it looks at the
  next `DefaultLookahead = 100` boxes; the constant is our own.
- `ordered_simplify` looks at the next box only.

**`maxSize` and the `nboxes` constructors**
- `maxSize` cuts every direction into `ceil(len/chunk)` balanced pieces.
- The tile constructor cuts fixed-size tiles from the low end and leaves the
  remainder last.
- The `nboxes` constructor bisects along the longest direction (lowest index
  on ties). The low half gets `n/2` of the pieces, at a proportional cut.
- The directional `nboxes` constructor cuts `min(n, len)` balanced slabs.

## Model

| member | source | states |
|---|---|---|
| BoxLists.Empty | Src/Base/AMReX_BoxList.H:61-62 | the default list is cell-typed, has no boxes and covers no point |
| BoxLists.Single | Src/Base/AMReX_BoxList.H:64-65 | a one-box list takes the box's type and covers exactly the box's points |
| BoxLists.OfType | Src/Base/AMReX_BoxList.H:67-68 | an empty list of the requested type, covering no point |
| BoxLists.FromBoxes | Src/Base/AMReX_BoxList.H:73-74 | keeps the given boxes in order; boxes that share a type give a well-typed list |
| Chopping.Tiles | Src/Base/AMReX_BoxList.H:76-77 | the tiles are valid, pairwise disjoint, of the box's type, cover exactly the box, and no side exceeds the tile size |
| Chopping.TilesShape | Src/Base/AMReX_BoxList.H:76-77 | in every direction each tile has the full tile size or ends at the box's high end, so the remainder sits at the high end |
| Chopping.Chop | Src/Base/AMReX_BoxList.H:79-80 | the pieces are disjoint, lie inside the box and cover exactly it; their number is between 1 and nboxes, and exactly nboxes when the longest side has at least nboxes indices |
| Chopping.ChoppedRegion | Src/Base/AMReX_BoxList.H:79-80 | recursive bisection covers exactly the original box |
| Chopping.ChoppedDisjoint | Src/Base/AMReX_BoxList.H:79-80 | recursive bisection yields pairwise disjoint pieces |
| Chopping.ChoppedInside | Src/Base/AMReX_BoxList.H:79-80 | every piece lies in the box, has its type, and is valid when the box is |
| Chopping.ChoppedCount | Src/Base/AMReX_BoxList.H:79-80 | bisection never yields more pieces than asked for, and at least one |
| Chopping.ChoppedExact | Src/Base/AMReX_BoxList.H:79-80 | when the longest side has at least n indices, bisection yields exactly n pieces |
| Chopping.CutShares | Src/Base/AMReX_BoxList.H:79-80 | on a side with at least as many indices as pieces, each part of a cut has at least as many indices as the pieces it receives |
| Chopping.ChopThreeByThreeIntoNine | Src/Base/AMReX_BoxList.H:79-80 | the count can fall short: the 3×3 cell box chopped into 9 gives 8 pieces |
| Chopping.BisectMeaning | Src/Base/AMReX_BoxList.H:79-80 | one bisection step splits a box into two disjoint halves inside it whose union is the box |
| Chopping.ChopTenByTenIntoFour | Src/Base/AMReX_BoxList.H:79-80 | the 10×10 cell box chopped into 4 gives the four 5×5 quadrants |
| Chopping.ChopTenByTenIntoThree | Src/Base/AMReX_BoxList.H:79-80 | the 10×10 cell box chopped into 3 gives pieces 3×10, 7×5 and 7×5, so piece sizes are not balanced per direction |
| Chopping.ChopInDir | Src/Base/AMReX_BoxList.H:82-83 | slabs cut only in the given direction: disjoint, inside the box, covering exactly it, each with the box's extent in every other direction |
| Chopping.ChopInDirBalanced | Src/Base/AMReX_BoxList.H:82-83 | a side of length at least one gets max(1, min(nboxes, length)) slabs: exactly nboxes when 1 <= nboxes <= length, one per index when nboxes is larger; any two slab widths differ by at most one |
| BoxLists.PushBack | Src/Base/AMReX_BoxList.H:92-93 | needs a box of the list's type; the result is the old list with the box appended, type unchanged, region grown by exactly the box |
| BoxLists.Front | Src/Base/AMReX_BoxList.H:95-97 | needs a non-empty list; the result is a member of it, of the list's type |
| BoxLists.Join | Src/Base/AMReX_BoxList.H:99-100 | appends the other list; the region is the union of both regions |
| BoxLists.JoinBoxes | Src/Base/AMReX_BoxList.H:101-102 | appends boxes of the list's type; the region grows by exactly their union |
| BoxLists.Catenate | Src/Base/AMReX_BoxList.H:103-104 | the first list gains the other's boxes and region, and the other is left empty with its type |
| BoxLists.Clear | Src/Base/AMReX_BoxList.H:106-107 | no boxes remain and the type is kept |
| BoxLists.Size | Src/Base/AMReX_BoxList.H:108-109 | the number of members; how each operation changes it is stated by SizeCounts |
| BoxLists.SizeCounts | Src/Base/AMReX_BoxList.H:106-109 | the constructors give 0 or 1 members, clear gives 0, push_back adds one, join adds the other's count, and the emptiness queries agree with the count |
| BoxLists.IsEmpty | Src/Base/AMReX_BoxList.H:128-129 | no members; its meaning for the region is stated by EmptyMeansNoRegion |
| BoxLists.IsNotEmpty | Src/Base/AMReX_BoxList.H:130-131 | the negation of isEmpty; SizeCounts states it is a positive count |
| BoxLists.EmptyMeansNoRegion | Src/Base/AMReX_BoxList.H:128-131 | an empty list covers nothing; a list covering nothing holds only invalid boxes |
| BoxLists.Ok | Src/Base/AMReX_BoxList.H:118-123 | every member is valid and has the list's type; OkComposes states it for the empty list, push_back and join |
| BoxLists.OkComposes | Src/Base/AMReX_BoxList.H:118-123 | the empty list is ok; appending keeps ok exactly when the new box is valid; joining two lists is ok exactly when both are |
| BoxLists.Equal | Src/Base/AMReX_BoxList.H:124-125 | member-wise equality of the two lists; EqualMeaning states it element by element |
| BoxLists.NotEqual | Src/Base/AMReX_BoxList.H:126-127 | the negation of equality, as EqualMeaning states |
| BoxLists.EqualMeaning | Src/Base/AMReX_BoxList.H:124-127 | two lists are equal exactly when they have the same count and the same member at every position, and not equal exactly when they are not equal |
| BoxLists.EqualIsStrongerThanSameRegion | Src/Base/AMReX_BoxList.H:124-127 | equal lists cover the same region; the converse fails, shown on one concrete pair of lists that list the same two boxes in opposite orders |
| BoxLists.IsDisjoint | Src/Base/AMReX_BoxList.H:132-133 | no two members intersect; IsDisjointMeaning states it on lattice points |
| BoxLists.IsDisjointMeaning | Src/Base/AMReX_BoxList.H:132-133 | isDisjoint holds exactly when no lattice point lies in two members |
| SetAlgebra.Contains | Src/Base/AMReX_BoxList.H:134-135 | subtracting this list's boxes from each member of the other list leaves nothing; ContainsMeaning states it on lattice points |
| SetAlgebra.ContainsMeaning | Src/Base/AMReX_BoxList.H:134-135 | contains holds exactly when every point of the other list's region lies in this list's region |
| SetAlgebra.IntersectBox | Src/Base/AMReX_BoxList.H:136-137 | clips every member to the box: same size and type, every member inside the box, region equal to the old region intersected with the box |
| SetAlgebra.IntersectBoxIdempotent | Src/Base/AMReX_BoxList.H:136-137 | intersecting twice with the same box gives the same list as once |
| SetAlgebra.ClipRegion | Src/Base/AMReX_BoxList.H:33-34 | clipping a box sequence to a box covers exactly the common points and keeps the boxes' type |
| SetAlgebra.IntersectList | Src/Base/AMReX_BoxList.H:138-139 | the region is exactly the intersection of both regions; one member per pair of members, of the list's type |
| SetAlgebra.PairwiseRegion | Src/Base/AMReX_BoxList.H:138-139 | the pairwise intersections of two sequences cover exactly the points both cover |
| SetAlgebra.RemoveEmpty | Src/Base/AMReX_BoxList.H:140-141 | keeps exactly the valid boxes in their order, with the type and region unchanged |
| SetAlgebra.KeepValid | Src/Base/AMReX_BoxList.H:140-141 | the kept boxes are valid, form a subsequence, number the valid boxes, and cover the same points |
| SetAlgebra.BoxDiff | Src/Base/AMReX_BoxList.H:22-25 | at most 2·SpaceDim valid, disjoint boxes inside b1 that cover exactly the points of b1 not in b2 |
| Carving.DiffExact | Src/Base/AMReX_BoxList.H:22-23 | the carved slabs cover exactly b1 minus b2, are valid, lie inside b1 and are disjoint |
| Carving.CarveRegion | Src/Base/AMReX_BoxList.H:22-23 | carving direction by direction covers exactly the working box minus the cut box |
| Carving.CarveDisjoint | Src/Base/AMReX_BoxList.H:22-23 | the slabs of a carving are pairwise disjoint |
| Carving.CarveInside | Src/Base/AMReX_BoxList.H:22-23 | the slabs of a carving are valid and inside the working box |
| Carving.DiffEachExact | Src/Base/AMReX_BoxList.H:19-20 | subtracting one box from every member covers exactly the old region minus that box, and keeps disjointness |
| Carving.DiffAllExact | Src/Base/AMReX_BoxList.H:19-20 | subtracting every box of a list covers exactly the old region minus that list's region, and keeps disjointness |
| SetAlgebra.ComplementIn | Src/Base/AMReX_BoxList.H:143-144 | valid, disjoint boxes of b's type inside b that cover exactly the points of b outside the list's region |
| SetAlgebra.ComplementInOfCoveringMember | Src/Base/AMReX_BoxList.H:19-20 | if some member contains b, the complement is empty |
| SetAlgebra.ComplementAndIntersectionSplitBox | Src/Base/AMReX_BoxList.H:33-34 | each point of b lies in exactly one of the complement and the intersection; both lie in b; the complement meets no member of the list |
| SetAlgebra.ParallelComplementIn | Src/Base/AMReX_BoxList.H:146-147 | has the same region, validity and disjointness guarantees as the sequential complement |
| SetAlgebra.RemoveOverlap | Src/Base/AMReX_BoxList.H:39-40 | the result is valid and disjoint, keeps the type, and covers exactly the same points |
| SetAlgebra.DisjointifyExact | Src/Base/AMReX_BoxList.H:39-40 | adding each box minus the kept ones covers the union, stays valid and disjoint, and keeps the type |
| Transforms.Refine | Src/Base/AMReX_BoxList.H:152-153 | size and type are kept, and each point of a member maps, scaled, into the refined member |
| Transforms.RefineBy | Src/Base/AMReX_BoxList.H:27-28 | size and type are kept, and each point of a member maps, scaled by the ratio in every direction, into the refined member |
| Transforms.Coarsen | Src/Base/AMReX_BoxList.H:156-157 | size and type are kept, and each point of a member maps, divided, into the coarsened member |
| Transforms.CoarsenBy | Src/Base/AMReX_BoxList.H:30-31 | size and type are kept, and each point of a member maps, divided by the ratio in every direction, into the coarsened member |
| Transforms.CoarsenByRefineBy | Src/Base/AMReX_BoxList.H:27-31 | coarsening a list refined by an integer ratio by the same ratio gives back the list |
| Transforms.CoarsenRefine | Src/Base/AMReX_BoxList.H:150-157 | coarsening a refined list by the same ratio gives back the list |
| Transforms.RefineCoarsen | Src/Base/AMReX_BoxList.H:150-157 | refining a coarsened list contains every original member, and gives it back exactly when the members are aligned to the ratio |
| Transforms.RefineRegion | Src/Base/AMReX_BoxList.H:152-153 | a fine point lies in a refined cell list exactly when its coarse parent lies in the list |
| Transforms.CoarsenRefineBox | Src/Base/AMReX_BoxList.H:150-157 | per box, coarsening undoes refinement |
| Transforms.RefineCoarsenBox | Src/Base/AMReX_BoxList.H:150-157 | per box, refining a coarsened box contains it, with equality for aligned boxes |
| Transforms.RefineCellsMeaning | Src/Base/AMReX_BoxList.H:152-153 | a refined cell box holds exactly the fine points whose coarse parent is in the box |
| Transforms.RefineCoarsenKeepPoints | Src/Base/AMReX_BoxList.H:150-157 | a point of a box maps into the refined box when scaled and into the coarsened box when divided |
| Transforms.Accrete | Src/Base/AMReX_BoxList.H:159-160 | size and type are kept; growing by a non-negative amount contains each original member |
| Transforms.AccreteBy | Src/Base/AMReX_BoxList.H:36-37 | size and type are kept, and growing by a non-negative amount contains each original member |
| Transforms.AccreteByShrink | Src/Base/AMReX_BoxList.H:36-37 | growing by sz and then by -sz gives back the list |
| Transforms.AccreteRegion | Src/Base/AMReX_BoxList.H:158-160 | the grown region is exactly the points within the growth distance of the original region |
| Transforms.AccreteShrink | Src/Base/AMReX_BoxList.H:158-160 | growing by v and then by -v gives back the list |
| Transforms.GrowMeaning | Src/Base/AMReX_BoxList.H:158-160 | a grown valid box holds exactly the points within the growth distance of the box |
| Transforms.Shift | Src/Base/AMReX_BoxList.H:161-163 | size and type are kept |
| Transforms.ShiftRegion | Src/Base/AMReX_BoxList.H:161-163 | a point lies in the shifted region exactly when the point moved back lies in the original region |
| Transforms.ShiftBack | Src/Base/AMReX_BoxList.H:161-163 | shifting by n and then by -n gives back the list |
| Transforms.Convert | Src/Base/AMReX_BoxList.H:205-206 | the list takes the new type and stays well-typed, with the same size |
| Transforms.ConvertBack | Src/Base/AMReX_BoxList.H:205-206 | converting a well-typed list and converting back gives back the list |
| Transforms.ConvertBackBox | Src/Base/AMReX_BoxList.H:205-206 | per box, converting to a type and back restores the box |
| Transforms.SurroundingNodes | Src/Base/AMReX_BoxList.H:191-195 | the result is node-typed, and it is the conversion to the node type |
| Transforms.SurroundingNodesIn | Src/Base/AMReX_BoxList.H:196-200 | only the given direction becomes nodal, and that is the conversion to that type |
| Transforms.EnclosedCells | Src/Base/AMReX_BoxList.H:201-202 | the result is cell-typed, and it is the conversion to the cell type |
| Transforms.EnclosedCellsIn | Src/Base/AMReX_BoxList.H:203-204 | only the given direction becomes cell-centred, and that is the conversion to that type |
| Transforms.EnclosedOfSurrounding | Src/Base/AMReX_BoxList.H:191-202 | the enclosed cells of the surrounding nodes of a cell list are the list itself |
| Simplify.JoinIsUnion | Src/Base/AMReX_BoxList.H:169-173 | two valid face-adjacent boxes that agree elsewhere merge into a valid box holding exactly their points |
| Simplify.FindPartner | Src/Base/AMReX_BoxList.H:174-176 | finds the first mergeable box within the lookahead window, or reports that none exists there |
| Simplify.MergeStep | Src/Base/AMReX_BoxList.H:169-173 | one merge keeps the region, validity, typing and disjointness |
| Simplify.MergePassKeeps | Src/Base/AMReX_BoxList.H:221-222 | a merging pass keeps the region, validity and typing |
| Simplify.MergePass | Src/Base/AMReX_BoxList.H:221-222 | the pass's count and its result size add up to the input size, and no merge leaves the list unchanged |
| Simplify.MergePassDisjoint | Src/Base/AMReX_BoxList.H:221-222 | a merging pass over a disjoint list leaves it disjoint |
| Simplify.MergePassComplete | Src/Base/AMReX_BoxList.H:221-222 | a pass that reports no merge found no mergeable pair within the lookahead window |
| Simplify.SimplifyList | Src/Base/AMReX_BoxList.H:169-178 | returns a merge count k with new size = old size - k; the region, type, ok and disjointness are kept; k is 0 only when no two boxes within the window (the whole list with best) can be merged |
| Simplify.OrderedSimplify | Src/Base/AMReX_BoxList.H:179-180 | the neighbour-only pass keeps what simplify keeps, and reports no merge only when no two neighbours can be merged |
| Simplify.NeighboursMerge | Src/Base/AMReX_BoxList.H:169-180 | two neighbouring mergeable boxes are coalesced into one by either pass, with one merge reported |
| Chopping.MaxSize | Src/Base/AMReX_BoxList.H:183-184 | keeps the type, region, ok and disjointness, and leaves every side at most chunk in its direction |
| Chopping.SplitEvery | Src/Base/AMReX_BoxList.H:181-184 | splitting every direction keeps the region, validity, typing and disjointness and bounds every side |
| Chopping.SplitDimsRegion | Src/Base/AMReX_BoxList.H:181-184 | splitting directions one after another keeps the covered points |
| Chopping.SplitDimsDisjoint | Src/Base/AMReX_BoxList.H:181-184 | splitting directions one after another keeps disjointness |
| Chopping.SplitDimsBounds | Src/Base/AMReX_BoxList.H:181-184 | after splitting, every direction is bounded by its limit |
| BoxLists.MinimalBox | Src/Base/AMReX_BoxList.H:185-186 | contains every member and every covered point, has the list's type, and is invalid for an empty list |
| BoxLists.MinimalBoxIsLeast | Src/Base/AMReX_BoxList.H:185-186 | any box containing all members of a non-empty list contains the minimal box |
| BoxLists.Bounds | Src/Base/AMReX_BoxList.H:185-186 | each corner component of the bounding box is attained by some member, and every member lies inside it |
| BoxLists.IxType | Src/Base/AMReX_BoxList.H:187-188 | the list's type; IxTypeKept states what the constructors give and the operations keep |
| BoxLists.IxTypeKept | Src/Base/AMReX_BoxList.H:187-188 | the constructors give the default, requested or box type; clear, push_back and join keep the type; a well-typed list's front has it |
| BoxLists.Set | Src/Base/AMReX_BoxList.H:189-190 | needs an empty list; the result has the new type and is still empty |
| BoxLists.Swap | Src/Base/AMReX_BoxList.H:213-216 | the two lists exchange their boxes and their types |

## Left out

- `Bcast` is a distributed broadcast collective with nothing sequential to state.
- `parallelComplementIn` is not threaded. `SetAlgebra.ParallelComplementIn` is the sequential complement.
- The `BoxArray` constructor and the `BoxArray` overloads of `complementIn` and `parallelComplementIn` are left out. `BoxArray` is not part of this model.
- The r-value overload of `complementIn` is left out. It differs from the by-reference one only in memory handling.
- `operator<<` is left out. It is stream output.
- `reserve`, `capacity`, the iterators and `data()` are left out. They are storage details with no effect on the region.
- `shiftHalf` is left out. Half-cell shifts depend on `Box` centring rules that are not part of this model.
- The `boxDiff` overload that fills a caller's list is modelled only as the returning one.
- `maxSize(int)` is `Chopping.MaxSize` with `Uniform(chunk)`. It is not a separate member.
- The member forms `refine(int)`, `coarsen(int)` and `accrete(int)` are not separate members. They are `RefineBy`, `CoarsenBy` and `AccreteBy`, the models of the free functions.
- Ratios for refine and coarsen are required to be positive. A zero or negative ratio has no meaning for a box.
- Fixed-width integer overflow (`int`, `Long`) is not modelled. Coordinates and counts are unbounded integers.
- Box validity, intersection, hull, refinement and centring conversion come from `AMReX_Box.H`, which is not part of this model. They are defined here directly on the lattice-point semantics.
- `BoxLists.Front`: states that the result is a member of the list, not that it is the first.
- `Chopping.Chop`: gives fewer than `nboxes` pieces when a bisection step leaves a part whose longest side has fewer indices than the pieces it receives. For example, a 3×3 cell box chopped into 9 gives 8 pieces (`ChopThreeByThreeIntoNine`). Exactly `nboxes` pieces is proved only when the longest side has at least `nboxes` indices.
- `Chopping.Chop`: piece sizes do not differ by at most one lattice unit per direction. The header promises only `nboxes` boxes covering `bx`; bisecting across the longest side at a proportional cut is this model's choice, since the implementation file is not part of it. The 10×10 cell box chopped into 3 gives pieces 3×10, 7×5 and 7×5 (`ChopTenByTenIntoThree`).
- `Chopping.ChopInDir`: gives one slab per index when `nboxes` exceeds the side's length, because more slabs would have to be empty boxes.
- `Chopping.ChopInDirBalanced`: states `min(nboxes, length)` slabs, not `nboxes`, for the same reason.
- `Simplify.SimplifyList`: is a single pass, as the header's comment says. It does not repeat until no merge is possible, so the result need not be maximally merged. A merge is guaranteed only when some mergeable pair lies within the window; pairs that become mergeable after a merge, or lie beyond the window, may remain.
- `Simplify.OrderedSimplify`: does not model the sorting the caller is expected to have done. The pass is correct for any order; sortedness only affects how many merges it finds.
- `Chopping.MaxSize`: says nothing about the order of the pieces or how a box is cut beyond balanced spans. Any power-of-two refinement the implementation may apply is not modelled.
- `BoxLists.MinimalBox`: on an empty list it returns an invalid box instead of failing.
- `SetAlgebra.IntersectBox`: keeps members whose intersection with the box is invalid, so the count is unchanged. The header does not say whether such members are dropped. `removeEmpty` drops them.
- `SetAlgebra.IntersectList`: keeps every pairwise intersection, including invalid ones, so the count is the product of the two counts. The header does not say whether such members are dropped. `removeEmpty` drops them.
