/** Integer rectangle geometry behind the atlas's maximal-rectangles bin packer:
    the box record, the placement test with a spacing margin, the split of a free
    region around a newly placed box, and the capacity and containment tests used
    when choosing and pruning free regions. */
module AtlasBox {

  /** A box at corner (x, y). It covers the cells of the half-open ranges
      [x, x + width) × [y, y + height). */
  datatype Box = Box(x: nat, y: nat, width: nat, height: nat)

  /** Exclusive far edge along y: in a non-empty box the row just before it
      belongs to the box and the row at it does not. */
  function Top(b: Box): (r: nat)
    ensures NonEmpty(b) ==> In(b.x, r - 1, b) && !In(b.x, r, b)
  {
    b.y + b.height
  }

  /** Exclusive far edge along x: in a non-empty box the column just before it
      belongs to the box and the column at it does not. */
  function Right(b: Box): (r: nat)
    ensures NonEmpty(b) ==> In(r - 1, b.y, b) && !In(r, b.y, b)
  {
    b.x + b.width
  }

  predicate NonEmpty(b: Box) { b.width > 0 && b.height > 0 }

  /** Cell (px, py) lies in `b`: it is one of the `width` columns from `x`
      and one of the `height` rows from `y`. */
  predicate In(px: int, py: int, b: Box) {
    b.x <= px < b.x + b.width && b.y <= py < b.y + b.height
  }

  /** Cell (px, py) lies in `b` grown by `margin` on all four sides. The grown
      box may reach below 0, hence integer coordinates. */
  predicate InGrown(px: int, py: int, b: Box, margin: nat) {
    b.x - margin <= px < Right(b) + margin && b.y - margin <= py < Top(b) + margin
  }

  // ---------------------------------------------------------------------------
  // Placement test

  /** `a` and `b` overlap unless one lies entirely to one side of the other with
      at least `spacing` between them. */
  predicate Overlap(a: Box, b: Box, spacing: nat) {
    !(Right(a) + spacing <= b.x || Right(b) + spacing <= a.x ||
      Top(a) + spacing <= b.y || Top(b) + spacing <= a.y)
  }

  lemma OverlapSymmetric(a: Box, b: Box, spacing: nat)
    ensures Overlap(a, b, spacing) == Overlap(b, a, spacing)
  {
  }

  /** A wider margin only makes more boxes collide. */
  lemma OverlapMonotone(a: Box, b: Box, s: nat, t: nat)
    requires s <= t
    ensures Overlap(a, b, s) ==> Overlap(a, b, t)
  {
  }

  /** With no margin, boxes that only share an edge do not overlap. */
  lemma TouchingDoNotOverlap(a: Box, b: Box)
    requires Right(a) == b.x || Right(b) == a.x || Top(a) == b.y || Top(b) == a.y
    ensures !Overlap(a, b, 0)
  {
  }

  /** The cell reading of the placement test: two non-empty boxes overlap at
      `spacing` exactly when some cell of `a` lies in `b` grown by `spacing`. */
  lemma OverlapIffSharedCell(a: Box, b: Box, spacing: nat)
    requires NonEmpty(a) && NonEmpty(b)
    ensures Overlap(a, b, spacing) <==>
              exists px, py :: In(px, py, a) && InGrown(px, py, b, spacing)
  {
    if Overlap(a, b, spacing) {
      var px := if a.x < b.x - spacing then b.x - spacing else a.x;
      var py := if a.y < b.y - spacing then b.y - spacing else a.y;
      assert In(px, py, a) && InGrown(px, py, b, spacing);
    }
  }

  /** A box that does not overlap `b` at `spacing` has no cell within
      `spacing` of `b`. */
  lemma ClearHasNoGrownCell(c: Box, b: Box, spacing: nat)
    requires !Overlap(c, b, spacing)
    ensures forall px, py :: In(px, py, c) ==> !InGrown(px, py, b, spacing)
  {
  }

  // ---------------------------------------------------------------------------
  // Capacity, containment and equality

  /** `b` is no wider and no taller than `a`; positions are ignored. */
  predicate CanFit(a: Box, b: Box) {
    a.width >= b.width && a.height >= b.height
  }

  /** All four edges of `b` lie within those of `a`; then `b` also fits `a`. */
  predicate Contains(a: Box, b: Box)
    ensures Contains(a, b) ==> CanFit(a, b)
  {
    b.x >= a.x && b.y >= a.y && Right(b) <= Right(a) && Top(b) <= Top(a)
  }

  /** Field-by-field equality; it coincides with equality of box values. */
  function Same(a: Box, b: Box): (r: bool)
    ensures r <==> a == b
  {
    a.x == b.x && a.y == b.y && a.width == b.width && a.height == b.height
  }

  /** `b` fits `a` exactly when `b`'s size, placed at `a`'s corner, lies in `a`. */
  lemma CanFitIffPlacedAtCorner(a: Box, b: Box)
    ensures CanFit(a, b) <==> Contains(a, Box(a.x, a.y, b.width, b.height))
  {
  }

  /** The cell reading of containment: a non-empty `b` is contained in `a`
      exactly when every cell of `b` is a cell of `a`. */
  lemma ContainsIffCellSubset(a: Box, b: Box)
    requires NonEmpty(b)
    ensures Contains(a, b) <==> forall px, py :: In(px, py, b) ==> In(px, py, a)
  {
    if forall px, py :: In(px, py, b) ==> In(px, py, a) {
      assert In(b.x, b.y, b);
      assert In(Right(b) - 1, Top(b) - 1, b);
    }
  }

  lemma ContainsReflexive(a: Box)
    ensures Contains(a, a)
  {
  }

  lemma ContainsTransitive(a: Box, b: Box, c: Box)
    requires Contains(a, b) && Contains(b, c)
    ensures Contains(a, c)
  {
  }

  lemma ContainsAntisymmetric(a: Box, b: Box)
    requires Contains(a, b) && Contains(b, a)
    ensures Same(a, b)
  {
  }

  // ---------------------------------------------------------------------------
  // Scaling

  /** The box with every coordinate and extent multiplied by `factor`. */
  function Scaled(b: Box, factor: nat): (r: Box)
    ensures Right(r) == Right(b) * factor && Top(r) == Top(b) * factor
  {
    Box(b.x * factor, b.y * factor, b.width * factor, b.height * factor)
  }

  /** Multiplying by a positive factor preserves and reflects `<=`. */
  lemma {:induction false} MulPreservesLe(p: nat, q: nat, factor: nat)
    requires factor > 0
    ensures p <= q <==> p * factor <= q * factor
    decreases factor
  {
    if factor > 1 {
      MulPreservesLe(p, q, factor - 1);
      assert p * factor == p * (factor - 1) + p;
      assert q * factor == q * (factor - 1) + q;
    }
  }

  /** Scaling both boxes by a positive factor keeps containment as it was. */
  lemma ScaledContains(a: Box, b: Box, factor: nat)
    requires factor > 0
    ensures Contains(a, b) <==> Contains(Scaled(a, factor), Scaled(b, factor))
  {
    MulPreservesLe(a.x, b.x, factor);
    MulPreservesLe(a.y, b.y, factor);
    MulPreservesLe(Right(b), Right(a), factor);
    MulPreservesLe(Top(b), Top(a), factor);
  }

  /** Scaling both boxes by a positive factor, and the margin with them, keeps
      the placement test as it was. */
  lemma ScaledOverlap(a: Box, b: Box, spacing: nat, factor: nat)
    requires factor > 0
    ensures Overlap(a, b, spacing) <==>
              Overlap(Scaled(a, factor), Scaled(b, factor), spacing * factor)
  {
    assert (Right(a) + spacing) * factor == Right(a) * factor + spacing * factor;
    assert (Right(b) + spacing) * factor == Right(b) * factor + spacing * factor;
    assert (Top(a) + spacing) * factor == Top(a) * factor + spacing * factor;
    assert (Top(b) + spacing) * factor == Top(b) * factor + spacing * factor;
    MulPreservesLe(Right(a) + spacing, b.x, factor);
    MulPreservesLe(Right(b) + spacing, a.x, factor);
    MulPreservesLe(Top(a) + spacing, b.y, factor);
    MulPreservesLe(Top(b) + spacing, a.y, factor);
  }

  // ---------------------------------------------------------------------------
  // Splitting a free region around a placed box

  /** The strips that splitting `a` around `b` yields, in the order they are
      pushed: the widest strip left of `b`, then right of it, above it and
      below it, each present exactly when there is room for it beside `b`
      grown by `spacing`. */
  function Splits(a: Box, b: Box, spacing: nat): seq<Box>
  {
    (if a.x + spacing < b.x then [Box(a.x, a.y, b.x - a.x - spacing, a.height)] else []) +
    (if Right(a) > Right(b) + spacing
     then [Box(Right(b) + spacing, a.y, Right(a) - Right(b) - spacing, a.height)] else []) +
    (if Top(a) > Top(b) + spacing
     then [Box(a.x, Top(b) + spacing, a.width, Top(a) - Top(b) - spacing)] else []) +
    (if a.y + spacing < b.y then [Box(a.x, a.y, a.width, b.y - a.y - spacing)] else [])
  }

  /** Each strip is maximal: when `a` overlaps `b`, any larger box inside `a`
      that contains a strip collides with `b` at `spacing`. */
  lemma SplitsMaximal(a: Box, b: Box, spacing: nat)
    requires Overlap(a, b, spacing)
    ensures forall c, d :: c in Splits(a, b, spacing) && Contains(a, d) && Contains(d, c) && d != c ==>
              Overlap(d, b, spacing)
  {
  }

  /** What each strip is: at most four of them, each spanning `a`'s full height
      or full width, non-empty when `a` is, clear of `b` at `spacing`, and
      inside `a` when `a` overlaps `b`. */
  lemma SplitsShape(a: Box, b: Box, spacing: nat)
    ensures |Splits(a, b, spacing)| <= 4
    ensures forall c :: c in Splits(a, b, spacing) ==>
              (c.y == a.y && c.height == a.height) || (c.x == a.x && c.width == a.width)
    ensures NonEmpty(a) ==> forall c :: c in Splits(a, b, spacing) ==> NonEmpty(c)
    ensures forall c :: c in Splits(a, b, spacing) ==> !Overlap(c, b, spacing)
    ensures Overlap(a, b, spacing) ==> forall c :: c in Splits(a, b, spacing) ==> Contains(a, c)
  {
  }

  /** The strips cover every cell of `a` that is not within `spacing` of `b`. */
  lemma SplitsCover(a: Box, b: Box, spacing: nat)
    ensures forall px, py :: In(px, py, a) && !InGrown(px, py, b, spacing) ==>
              exists c :: c in Splits(a, b, spacing) && In(px, py, c)
  {
    var result := Splits(a, b, spacing);
    forall px, py | In(px, py, a) && !InGrown(px, py, b, spacing)
      ensures exists c :: c in result && In(px, py, c)
    {
      if px < b.x - spacing {
        assert In(px, py, Box(a.x, a.y, b.x - a.x - spacing, a.height));
      } else if px >= Right(b) + spacing {
        assert In(px, py, Box(Right(b) + spacing, a.y, Right(a) - Right(b) - spacing, a.height));
      } else if py >= Top(b) + spacing {
        assert In(px, py, Box(a.x, Top(b) + spacing, a.width, Top(a) - Top(b) - spacing));
      } else {
        assert In(px, py, Box(a.x, a.y, a.width, b.y - a.y - spacing));
      }
    }
  }

  /** Splits free region `a` around placed box `b` into at most four strips (left,
      right, above, below), each kept `spacing` clear of `b`. The strips may
      overlap each other; together they cover every cell of `a` that is not
      within `spacing` of `b`. The result is built afresh, so nothing but `a`,
      `b` and `spacing` affects it. */
  method MakeSplits(a: Box, b: Box, spacing: nat) returns (result: seq<Box>)
    ensures result == Splits(a, b, spacing)
    ensures |result| <= 4
    ensures forall c :: c in result ==>
              (c.y == a.y && c.height == a.height) || (c.x == a.x && c.width == a.width)
    ensures NonEmpty(a) ==> forall c :: c in result ==> NonEmpty(c)
    ensures forall c :: c in result ==> !Overlap(c, b, spacing)
    ensures forall c, px, py :: c in result && In(px, py, c) ==> !InGrown(px, py, b, spacing)
    ensures Overlap(a, b, spacing) ==> forall c :: c in result ==> Contains(a, c)
    ensures forall px, py :: In(px, py, a) && !InGrown(px, py, b, spacing) ==>
              exists c :: c in result && In(px, py, c)
  {
    result := [];

    if a.x + spacing < b.x {
      result := result + [Box(a.x, a.y, b.x - a.x - spacing, a.height)];
    }

    if Right(a) > Right(b) + spacing {
      result := result + [Box(Right(b) + spacing, a.y, Right(a) - Right(b) - spacing, a.height)];
    }

    if Top(a) > Top(b) + spacing {
      result := result + [Box(a.x, Top(b) + spacing, a.width, Top(a) - Top(b) - spacing)];
    }

    if a.y + spacing < b.y {
      result := result + [Box(a.x, a.y, a.width, b.y - a.y - spacing)];
    }

    assert result == Splits(a, b, spacing);
    SplitsShape(a, b, spacing);
    SplitsCover(a, b, spacing);
    forall c | c in result {
      ClearHasNoGrownCell(c, b, spacing);
    }
  }
}
