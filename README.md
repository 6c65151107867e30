# Atlas box geometry

A Dafny model of the integer rectangle geometry that the msdf atlas generator's
maximal-rectangles bin packer rests on (`msdf-atlasgen/box.h`). The packer keeps
a pool of free regions, places each glyph box into one of them, splits every
free region that the placed box overlaps into leftover strips, and prunes free
regions contained in others. This model covers the primitives it uses for that:

- `Box` is the `box<size_t>` record of `msdf-atlasgen/box.h:28-41` (corner `x`, `y`, extents `width`, `height`),
  with `Top` and `Right` as its exclusive far edges. A box covers the cells of
  `[x, x + width) × [y, y + height)`, written `In(px, py, b)`. `InGrown(px, py, b, s)`
  is the same box grown by the spacing margin `s` on all four sides.
- `Overlap(a, b, spacing)` is the placement test. Boxes collide unless one lies
  wholly to one side of the other with at least `spacing` between them.
- `MakeSplits(a, b, spacing)` is `make_splits`. It cuts free region `a` around
  the placed box `b` into at most four strips: left, right, above and below.
  Each strip is kept `spacing` clear of `b`, and the strips may overlap.
- `CanFit` (capacity only), `Contains` (the pruning test), `Same` (`operator==`)
  and `Scaled` (`box::scale` over natural numbers).

What is proved:

- The placement test and containment agree with their readings as sets of cells.
  Two non-empty boxes overlap at `spacing` exactly when some cell of one lies in
  the other grown by `spacing`. A non-empty box is contained in another exactly
  when all of its cells are cells of the other.
- Overlap is symmetric and monotone in the spacing. Boxes that only share an
  edge do not overlap at spacing 0.
- Splitting yields exactly the strips the source pushes, in its order, and
  nothing else affects the result. When `a` overlaps `b`, each strip is
  maximal: any larger box inside `a` around it collides with `b`. There are at most four strips. Each strip spans the full height or the
  full width of `a`, and each is non-empty when `a` is. Each strip is clear of
  `b`, and when `a` overlaps `b` each strip lies inside `a`. Together the strips
  cover every cell of `a` that is not within `spacing` of `b`. With the
  previous facts, this means that for an overlapping `a` the union of the strips
  is exactly `a` minus `b` grown by `spacing`. These are the facts behind the
  packer's "no overlap" and "no lost free space" guarantees.
- Containment implies capacity, and it is reflexive, transitive and
  antisymmetric up to `operator==`. Capacity is the same as the box fitting at
  the region's corner. Scaling by a positive factor keeps containment
  as it was, and keeps overlap as it was when the spacing is scaled too.

`make_splits` clears its output vector before it pushes strips into it. The
model's `MakeSplits` therefore returns a new sequence and takes no prior
contents as input.

## Model

| member | source | states |
|---|---|---|
| `AtlasBox.Top` | msdf-atlasgen/box.h:30 | Its body is the source expression `y + height`. It is the exclusive far edge along y: for a non-empty box the row just before it is in the box and the row at it is not. |
| `AtlasBox.Right` | msdf-atlasgen/box.h:31 | Its body is the source expression `x + width`. It is the exclusive far edge along x: for a non-empty box the column just before it is in the box and the column at it is not. |
| `AtlasBox.Overlap` | msdf-atlasgen/box.h:43-45 | Its body is the source expression: the negation of the four "separated by at least `spacing`" tests. |
| `AtlasBox.CanFit` | msdf-atlasgen/box.h:67-69 | Its body is the source expression: width and height of `a` at least those of `b`. |
| `AtlasBox.Contains` | msdf-atlasgen/box.h:67-73 | Its body is the source expression: all four edges of `b` within those of `a`. Whenever it holds, `can_fit(a, b)` holds too. |
| `AtlasBox.Splits` | msdf-atlasgen/box.h:50-64 | Its body lists the four guarded strips in the order they are pushed: left, right, above, below. |
| `AtlasBox.SplitsShape` | msdf-atlasgen/box.h:50-64 | At most four strips. Each spans `a`'s full height or full width, and each is non-empty when `a` is. Each is clear of `b` at `spacing`. When `a` overlaps `b`, each lies inside `a`. |
| `AtlasBox.SplitsCover` | msdf-atlasgen/box.h:50-64 | Every cell of `a` that is not within `spacing` of `b` lies in some strip. |
| `AtlasBox.SplitsMaximal` | msdf-atlasgen/box.h:50-64 | When `a` overlaps `b`, each strip is maximal. Any strictly larger box inside `a` that contains a strip overlaps `b` at `spacing`. |
| `AtlasBox.OverlapIffSharedCell` | msdf-atlasgen/box.h:43-45 | Two non-empty boxes overlap at `spacing` iff some cell of `a` lies in `b` grown by `spacing` (both directions). |
| `AtlasBox.ClearHasNoGrownCell` | msdf-atlasgen/box.h:43-45 | A box that does not overlap `b` at `spacing` has no cell within `spacing` of `b`. |
| `AtlasBox.OverlapSymmetric` | msdf-atlasgen/box.h:43-45 | `overlap(a, b, s) == overlap(b, a, s)`. |
| `AtlasBox.OverlapMonotone` | msdf-atlasgen/box.h:44 | Boxes that overlap at spacing `s` also overlap at every `t >= s`. |
| `AtlasBox.TouchingDoNotOverlap` | msdf-atlasgen/box.h:44 | With spacing 0, boxes that only share an edge do not overlap. |
| `AtlasBox.MakeSplits` | msdf-atlasgen/box.h:47-65 | The result is exactly `Splits(a, b, spacing)`, so it depends on nothing but the three inputs. There are at most four strips. Each spans `a`'s full height or full width, and each is non-empty when `a` is. Each strip is clear of `b` at `spacing` and has no cell within `spacing` of `b`. When `a` overlaps `b`, each strip lies inside `a`. Every cell of `a` outside `b` grown by `spacing` lies in some strip. |
| `AtlasBox.Same` | msdf-atlasgen/box.h:75-77 | Field-by-field equality holds exactly when the two boxes are equal values. |
| `AtlasBox.CanFitIffPlacedAtCorner` | msdf-atlasgen/box.h:67-69 | `can_fit(a, b)` holds exactly when `b`'s size, placed at `a`'s corner, is contained in `a`. |
| `AtlasBox.ContainsIffCellSubset` | msdf-atlasgen/box.h:71-73 | A non-empty `b` is contained in `a` iff every cell of `b` is a cell of `a` (both directions). |
| `AtlasBox.ContainsReflexive` | msdf-atlasgen/box.h:71-73 | Every box contains itself. |
| `AtlasBox.ContainsTransitive` | msdf-atlasgen/box.h:71-73 | `contains(a, b)` and `contains(b, c)` imply `contains(a, c)`. |
| `AtlasBox.ContainsAntisymmetric` | msdf-atlasgen/box.h:71-77 | Mutual containment implies `a == b` per `operator==`. |
| `AtlasBox.Scaled` | msdf-atlasgen/box.h:33-38 | Scaling multiplies the far edges `Right` and `Top` by the factor too. |
| `AtlasBox.ScaledContains` | msdf-atlasgen/box.h:33-38 | Scaling both boxes by a positive factor leaves `contains` unchanged, in both directions. |
| `AtlasBox.ScaledOverlap` | msdf-atlasgen/box.h:33-38 | Scaling both boxes by a positive factor and the spacing with them, leaves `overlap` unchanged, in both directions. |

## Left out

- `size_t` wrap-around: coordinates are unbounded naturals. The model does not capture a sum such as `a.right() + spacing` that wraps past the largest `size_t`. The subtractions in `make_splits` are guarded by strict comparisons. They never wrap, provided the sums in those comparisons (`a.x + spacing`, `b.right() + spacing`, `b.top() + spacing`, `a.y + spacing`) do not wrap themselves.
- `box::scale` is modelled only over natural numbers, as a function `Scaled` that returns the scaled box. The generator applies it to `box<double>`, and floating point is not modelled. Because `box` is a plain value record, updating it in place is the same as replacing it with the returned value.
- `AtlasBox.MakeSplits`: strips are stated to lie inside `a` only when `a` overlaps `b`. Without an overlap, any of the four strips can extend past `a`. The left strip can pass `a`'s right edge, the right strip its left edge, the upper strip its lower edge and the lower strip its upper edge. The packer that calls `make_splits` (in `binpacking.h`) is not part of this model, so the model cannot show which regions it passes in.
- The packer driver itself (region selection, input ordering, pruning loop) is in `binpacking.h`, which is not part of this model. The same applies to the search for the largest glyph height.
- Font loading, distance-field bitmap generation, descriptor serialization, PNG output and the command line in `msdf-atlasgen/main.cpp` are I/O or calls into external libraries. They are not modelled.
