/**
 CPU affinities: rectangles within a grid of CPU nodes, and their translation from one
 grid to another. Coordinates are 32-bit integers, dimensions 32-bit unsigned values, and
 mixed expressions are evaluated as unsigned ones, as in C++.
 */
module Affinity {
  import opened Arithmetic
  import opened MachineWords

  /** Conversion of a 32-bit unsigned value to a signed one. */
  function S32(x: nat): int {
    if x < TWO_31 then x else x - TWO_32
  }

  datatype Space = Space(width: nat, height: nat) {
    function Total(): nat {
      U32(width * height)
    }

    /** The dimensions are nonzero, and neither they nor their product leave their types. */
    predicate Sane() {
      0 < width < TWO_31 && 0 < height < TWO_31 && width * height < TWO_32
    }

    function LocationOfIndex(index: int): Location
      requires width > 0 && height > 0
    {
      Location(U32(index) % width, U32(index) / width % height, 1, 1)
    }
  }

  datatype Location = Location(xpos: int, ypos: int, width: nat, height: nat) {
    /** The fields are values of their C++ types. */
    predicate Typed() {
      && 0 - TWO_31 <= xpos < TWO_31 && 0 - TWO_31 <= ypos < TWO_31
      && width < TWO_32 && height < TWO_32
    }

    predicate Within(space: Space) {
      var x1, x2 := xpos, S32(U32(xpos + width - 1));
      var y1, y2 := ypos, S32(U32(ypos + height - 1));
      && x1 >= 0 && x1 <= x2 && U32(x2) < space.width
      && y1 >= 0 && y1 <= y2 && U32(y2) < space.height
    }

    /** The cell in column `x` and row `y` belongs to the location. */
    predicate Covers(x: int, y: int) {
      xpos <= x < xpos + width && ypos <= y < ypos + height
    }
  }

  predicate Disjoint(a: Location, b: Location) {
    || a.xpos + a.width <= b.xpos || b.xpos + b.width <= a.xpos
    || a.ypos + a.height <= b.ypos || b.ypos + b.height <= a.ypos
  }

  function ScaleCoordinate(x: int, from: nat, to: nat): int
    requires from > 0
  {
    S32(U32(U32(x) * to) / from)
  }

  function ScaleTo(space: Space, location: Location, target: Space): Location {
    if space.Total() == 0 then Location(0, 0, 0, 0)
    else
      assert space.width > 0 && space.height > 0;
      var x1, y1 := location.xpos, location.ypos;
      var x2, y2 := S32(U32(location.width + x1)), S32(U32(location.height + y1));
      var scaledX1 := ScaleCoordinate(x1, space.width, target.width);
      var scaledY1 := ScaleCoordinate(y1, space.height, target.height);
      var scaledX2 := ScaleCoordinate(x2, space.width, target.width);
      var scaledY2 := ScaleCoordinate(y2, space.height, target.height);
      Location(scaledX1, scaledY1, Max(scaledX2 - scaledX1, 1), Max(scaledY2 - scaledY1, 1))
  }

  /** Only an own space without nodes, in 32-bit arithmetic, yields the invalid default location. */
  lemma ScaledLocationIsInvalidIff(space: Space, location: Location, target: Space)
    ensures space.width * space.height % 0x1_0000_0000 == 0 <==>
            ScaleTo(space, location, target) == Location(0, 0, 0, 0)
    ensures space.width * space.height % 0x1_0000_0000 != 0 ==>
            ScaleTo(space, location, target).width >= 1 && ScaleTo(space, location, target).height >= 1
  {
    assert U32(space.width * space.height) == space.Total();
  }

  /** The products computed while scaling fit their type. */
  predicate ProductsInRange(space: Space, target: Space) {
    && space.Sane() && target.Sane()
    && space.width * target.width < TWO_32 && space.height * target.height < TWO_32
  }

  // ---- what `Within` means ---------------------------------------------------------------

  /** The interval is not empty, and lies below the limit as well as within the signed coordinates. */
  predicate Inside(pos: int, size: nat, limit: nat) {
    0 <= pos && 1 <= size && pos + size <= limit && pos + size <= TWO_31
  }

  lemma AxisWithinMeaning(pos: int, size: nat, limit: nat)
    requires 0 - TWO_31 <= pos < TWO_31 && size < TWO_32 && limit < TWO_32
    ensures var end := S32(U32(pos + size - 1));
            (pos >= 0 && pos <= end && U32(end) < limit) <==> Inside(pos, size, limit)
  {
    if pos >= 0 && pos + size > TWO_32 {
      assert U32(pos + size - 1) == pos + size - 1 - TWO_32;
    }
  }

  /** For all values of the C++ types, empty and huge spaces included. */
  lemma WithinMeaning(l: Location, space: Space)
    requires l.Typed() && space.width < TWO_32 && space.height < TWO_32
    ensures l.Within(space) <==> Inside(l.xpos, l.width, space.width) && Inside(l.ypos, l.height, space.height)
  {
    AxisWithinMeaning(l.xpos, l.width, space.width);
    AxisWithinMeaning(l.ypos, l.height, space.height);
  }

  // ---- scaling in one dimension ------------------------------------------------------------

  function Scaled(x: nat, from: nat, to: nat): nat
    requires from > 0
  {
    x * to / from
  }

  /** Scaled(x) is the number of target columns that end at or before x/from of the width. */
  lemma ScaledMeaning(x: nat, from: nat, to: nat, t: nat)
    requires from > 0
    ensures t <= Scaled(x, from, to) <==> t * from <= x * to
  {
    var q := Scaled(x, from, to);
    assert q * from <= x * to < (q + 1) * from;
    if t <= q {
      MulMonotonic(t, q, from);
    } else {
      MulMonotonic(q + 1, t, from);
    }
  }

  lemma ScaledMonotonic(x: nat, y: nat, from: nat, to: nat)
    requires from > 0 && x <= y
    ensures Scaled(x, from, to) <= Scaled(y, from, to)
  {
    ScaledMeaning(x, from, to, Scaled(x, from, to));
    MulMonotonic(x, y, to);
    ScaledMeaning(y, from, to, Scaled(x, from, to));
  }

  lemma ScaledEnds(from: nat, to: nat)
    requires from > 0
    ensures Scaled(0, from, to) == 0 && Scaled(from, from, to) == to
  {
    ScaledMeaning(from, from, to, to);
    ScaledMeaning(from, from, to, to + 1);
    assert (to + 1) * from == from * to + from;
  }

  /** Towards a target that is no smaller, distinct coordinates stay distinct. */
  lemma ScaledStrictlyMonotonic(x: nat, y: nat, from: nat, to: nat)
    requires 0 < from <= to && x < y
    ensures Scaled(x, from, to) < Scaled(y, from, to)
  {
    var q := Scaled(x, from, to);
    ScaledMeaning(x, from, to, q);
    assert (q + 1) * from == q * from + from;
    assert (x + 1) * to == x * to + to;
    MulMonotonic(x + 1, y, to);
    ScaledMeaning(y, from, to, q + 1);
  }

  /** Inside the grid, a column scales to a column inside the target. */
  lemma ScaledInside(x: nat, from: nat, to: nat)
    requires x < from && 0 < to
    ensures Scaled(x, from, to) < to
  {
    ScaledMeaning(x, from, to, to);
    MulMonotonic(x + 1, from, to);
    assert (x + 1) * to == x * to + to;
  }

  lemma ScaledSelf(x: nat, n: nat)
    requires n > 0
    ensures Scaled(x, n, n) == x
  {
    ScaledMeaning(x, n, n, x);
    ScaledMeaning(x, n, n, x + 1);
    assert (x + 1) * n == x * n + n;
  }

  lemma CoordinateIsScaled(x: nat, from: nat, to: nat)
    requires x <= from && 0 < from < TWO_31 && 0 < to < TWO_31 && from * to < TWO_32
    ensures S32(U32(x)) == x && ScaleCoordinate(x, from, to) == Scaled(x, from, to) <= to
  {
    MulMonotonic(x, from, to);
    ScaledMonotonic(x, from, from, to);
    ScaledEnds(from, to);
  }

  lemma AxisScalesExactly(pos: nat, size: nat, from: nat, to: nat)
    requires 1 <= size && pos + size <= from < TWO_31 && 0 < to < TWO_31 && from * to < TWO_32
    ensures ScaleCoordinate(pos, from, to) == Scaled(pos, from, to) < to
    ensures ScaleCoordinate(S32(U32(size + pos)), from, to) == Scaled(pos + size, from, to) <= to
  {
    CoordinateIsScaled(pos, from, to);
    CoordinateIsScaled(pos + size, from, to);
    ScaledInside(pos, from, to);
  }

  lemma SaneSpaceIsNotEmpty(space: Space)
    requires space.Sane()
    ensures space.Total() != 0
  {
    MulMonotonic(1, space.width, space.height);
    assert 1 * space.height <= space.width * space.height;
  }

  /** On valid locations and products in range, the 32-bit evaluation is the exact one. */
  lemma ScaleToIsExact(space: Space, l: Location, target: Space)
    requires ProductsInRange(space, target) && l.Typed() && l.Within(space)
    ensures 0 <= l.xpos && 0 <= l.ypos
    ensures var x1, x2 := Scaled(l.xpos, space.width, target.width), Scaled(l.xpos + l.width, space.width, target.width);
            var y1, y2 := Scaled(l.ypos, space.height, target.height), Scaled(l.ypos + l.height, space.height, target.height);
            && ScaleTo(space, l, target) == Location(x1, y1, Max(x2 - x1, 1), Max(y2 - y1, 1))
            && x1 < target.width && x2 <= target.width && y1 < target.height && y2 <= target.height
  {
    WithinMeaning(l, space);
    SaneSpaceIsNotEmpty(space);
    AxisScalesExactly(l.xpos, l.width, space.width, target.width);
    AxisScalesExactly(l.ypos, l.height, space.height, target.height);
  }

  // ---- main results ------------------------------------------------------------------------

  lemma ScaledLocationIsWithinTarget(space: Space, l: Location, target: Space)
    requires ProductsInRange(space, target) && l.Typed() && l.Within(space)
    ensures ScaleTo(space, l, target).Typed() && ScaleTo(space, l, target).Within(target)
  {
    WithinMeaning(l, space);
    ScaleToIsExact(space, l, target);
    WithinMeaning(ScaleTo(space, l, target), target);
  }

  lemma ScalingToOwnSpaceIsIdentity(space: Space, l: Location)
    requires ProductsInRange(space, space) && l.Typed() && l.Within(space)
    ensures ScaleTo(space, l, space) == l
  {
    WithinMeaning(l, space);
    ScaleToIsExact(space, l, space);
    ScaledSelf(l.xpos, space.width);
    ScaledSelf(l.xpos + l.width, space.width);
    ScaledSelf(l.ypos, space.height);
    ScaledSelf(l.ypos + l.height, space.height);
  }

  lemma WholeSpaceScalesToWholeTarget(space: Space, target: Space)
    requires ProductsInRange(space, target)
    ensures ScaleTo(space, Location(0, 0, space.width, space.height), target)
            == Location(0, 0, target.width, target.height)
  {
    var whole := Location(0, 0, space.width, space.height);
    WithinMeaning(whole, space);
    ScaleToIsExact(space, whole, target);
    ScaledEnds(space.width, target.width);
    ScaledEnds(space.height, target.height);
  }

  /** Location `s` has exactly the scaled corners of location `l`. */
  predicate CornersScaled(space: Space, l: Location, target: Space, s: Location)
    requires space.width > 0 && space.height > 0
  {
    && 0 <= l.xpos && 0 <= l.ypos
    && s.xpos == Scaled(l.xpos, space.width, target.width)
    && s.xpos + s.width == Scaled(l.xpos + l.width, space.width, target.width)
    && s.ypos == Scaled(l.ypos, space.height, target.height)
    && s.ypos + s.height == Scaled(l.ypos + l.height, space.height, target.height)
  }

  /** Towards a target that is no smaller, both corners scale exactly: the size is never rounded up. */
  lemma GrowingScalesCorners(space: Space, l: Location, target: Space)
    requires ProductsInRange(space, target) && l.Typed() && l.Within(space)
    requires space.width <= target.width && space.height <= target.height
    ensures CornersScaled(space, l, target, ScaleTo(space, l, target))
  {
    WithinMeaning(l, space);
    ScaleToIsExact(space, l, target);
    ScaledStrictlyMonotonic(l.xpos, l.xpos + l.width, space.width, target.width);
    ScaledStrictlyMonotonic(l.ypos, l.ypos + l.height, space.height, target.height);
  }

  lemma ScaledCornersAreDisjoint(space: Space, target: Space, a: Location, b: Location, s: Location, t: Location)
    requires space.width > 0 && space.height > 0
    requires CornersScaled(space, a, target, s) && CornersScaled(space, b, target, t) && Disjoint(a, b)
    ensures Disjoint(s, t)
  {
    if a.xpos + a.width <= b.xpos {
      ScaledMonotonic(a.xpos + a.width, b.xpos, space.width, target.width);
    } else if b.xpos + b.width <= a.xpos {
      ScaledMonotonic(b.xpos + b.width, a.xpos, space.width, target.width);
    } else if a.ypos + a.height <= b.ypos {
      ScaledMonotonic(a.ypos + a.height, b.ypos, space.height, target.height);
    } else {
      ScaledMonotonic(b.ypos + b.height, a.ypos, space.height, target.height);
    }
  }

  lemma GrowingKeepsDisjoint(space: Space, a: Location, b: Location, target: Space)
    requires ProductsInRange(space, target)
    requires a.Typed() && a.Within(space) && b.Typed() && b.Within(space)
    requires space.width <= target.width && space.height <= target.height
    requires Disjoint(a, b)
    ensures Disjoint(ScaleTo(space, a, target), ScaleTo(space, b, target))
  {
    GrowingScalesCorners(space, a, target);
    GrowingScalesCorners(space, b, target);
    ScaledCornersAreDisjoint(space, target, a, b, ScaleTo(space, a, target), ScaleTo(space, b, target));
  }

  predicate ValidIn(l: Location, space: Space) {
    l.Typed() && l.Within(space)
  }

  /** Scaling keeps all disjoint pairs disjoint exactly if the target is no smaller in both dimensions. */
  lemma DisjointnessIsKeptIff(space: Space, target: Space)
    requires ProductsInRange(space, target)
    ensures (forall a, b :: ValidIn(a, space) && ValidIn(b, space) && Disjoint(a, b) ==>
              Disjoint(ScaleTo(space, a, target), ScaleTo(space, b, target)))
            <==> (space.width <= target.width && space.height <= target.height)
  {
    if space.width <= target.width && space.height <= target.height {
      forall a, b | ValidIn(a, space) && ValidIn(b, space) && Disjoint(a, b)
        ensures Disjoint(ScaleTo(space, a, target), ScaleTo(space, b, target))
      {
        GrowingKeepsDisjoint(space, a, b, target);
      }
    } else {
      var first := Location(0, 0, 1, 1);
      var second := if target.width < space.width then Location(1, 0, 1, 1) else Location(0, 1, 1, 1);
      WithinMeaning(first, space);
      WithinMeaning(second, space);
      ScaleToIsExact(space, first, target);
      ScaleToIsExact(space, second, target);
      ScaledEnds(space.width, target.width);
      ScaledEnds(space.height, target.height);
      ScaledMeaning(1, space.width, target.width, 1);
      ScaledMeaning(1, space.height, target.height, 1);
      assert ValidIn(first, space) && ValidIn(second, space) && Disjoint(first, second);
      assert !Disjoint(ScaleTo(space, first, target), ScaleTo(space, second, target));
    }
  }

  /** The column of the source grid whose scaled image contains target column `t`. */
  function SourceColumn(t: nat, from: nat, to: nat): nat
    requires 0 < from && 0 < to
  {
    ((t + 1) * from - 1) / to
  }

  lemma SourceColumnContains(t: nat, from: nat, to: nat)
    requires 0 < from && t < to
    ensures var c := SourceColumn(t, from, to);
            c < from && Scaled(c, from, to) <= t < Scaled(c + 1, from, to)
  {
    var n := (t + 1) * from - 1;
    var c := SourceColumn(t, from, to);
    assert c * to <= n < (c + 1) * to;
    ScaledMeaning(c, from, to, t + 1);
    ScaledMeaning(c + 1, from, to, t + 1);
    MulMonotonic(t + 1, to, from);
    if from <= c {
      MulMonotonic(from, c, to);
    }
  }

  /** Towards a target that is no smaller, the scaled source cells partition the target grid. */
  lemma GrowingPartitionsTarget(space: Space, target: Space, tx: nat, ty: nat)
    requires ProductsInRange(space, target)
    requires space.width <= target.width && space.height <= target.height
    requires tx < target.width && ty < target.height
    ensures exists x, y ::
              && ValidIn(Location(x, y, 1, 1), space)
              && ScaleTo(space, Location(x, y, 1, 1), target).Covers(tx, ty)
    ensures forall x, y, x', y' ::
              ValidIn(Location(x, y, 1, 1), space) && ValidIn(Location(x', y', 1, 1), space)
              && ScaleTo(space, Location(x, y, 1, 1), target).Covers(tx, ty)
              && ScaleTo(space, Location(x', y', 1, 1), target).Covers(tx, ty)
              ==> x == x' && y == y'
  {
    var cx := SourceColumn(tx, space.width, target.width);
    var cy := SourceColumn(ty, space.height, target.height);
    SourceColumnContains(tx, space.width, target.width);
    SourceColumnContains(ty, space.height, target.height);
    var cell := Location(cx, cy, 1, 1);
    WithinMeaning(cell, space);
    GrowingScalesCorners(space, cell, target);
    assert ValidIn(cell, space) && ScaleTo(space, cell, target).Covers(tx, ty);
    forall x, y, x', y' |
      ValidIn(Location(x, y, 1, 1), space) && ValidIn(Location(x', y', 1, 1), space)
      && ScaleTo(space, Location(x, y, 1, 1), target).Covers(tx, ty)
      && ScaleTo(space, Location(x', y', 1, 1), target).Covers(tx, ty)
      ensures x == x' && y == y'
    {
      var a, b := Location(x, y, 1, 1), Location(x', y', 1, 1);
      if Disjoint(a, b) {
        GrowingKeepsDisjoint(space, a, b, target);
      }
    }
  }

  lemma CellCoordinates(n: nat, x: nat, y: nat, w: nat, h: nat)
    requires x < w && y < h && n == y * w + x && n < TWO_32
    ensures U32(n) % w == x && U32(n) / w % h == y
  {
    Quotient(y, w, x);
    Quotient(0, h, y);
  }

  lemma LocationOfCellNumber(space: Space, x: nat, y: nat)
    requires x < space.width && y < space.height && y * space.width + x < TWO_32
    ensures space.LocationOfIndex(y * space.width + x) == Location(x, y, 1, 1)
  {
    CellCoordinates(y * space.width + x, x, y, space.width, space.height);
  }

  /** `LocationOfIndex` enumerates the grid row by row, and hits every cell. */
  lemma IndexEnumeratesGrid(space: Space, index: nat)
    requires space.Sane() && index < space.height * space.width
    ensures var l := space.LocationOfIndex(index);
            l.Within(space) && l.width == l.height == 1 && l.ypos * space.width + l.xpos == index
  {
    NumberedCell(index, space.width, space.height);
    var x, y := index % space.width, index / space.width;
    LocationOfCellNumber(space, x, y);
    WithinMeaning(Location(x, y, 1, 1), space);
  }

  lemma Regroup(t: nat, h: nat, y: nat, w: nat, r: nat)
    ensures (t * h + y) * w + r == t * (h * w) + (y * w + r)
  {
    assert (t * h + y) * w == t * h * w + y * w;
    assert t * h * w == t * (h * w);
  }

  /** The number of a cell in the `t`-th repetition of a grid. */
  lemma RepeatedCell(n: nat, t: nat, y: nat, x: nat, w: nat, h: nat)
    requires x < w && y < h && n == (t * h + y) * w + x
    ensures n % w == x && n / w % h == y && n % (h * w) == y * w + x
  {
    var cells, cell := h * w, y * w + x;
    Quotient(t * h + y, w, x);
    Quotient(t, h, y);
    CellNumber(y, x, w, h);
    Regroup(t, h, y, w, x);
    Quotient(t, cells, cell);
  }

  lemma RowsAndRepetitions(n: nat, w: nat, h: nat) returns (t: nat, y: nat, x: nat)
    requires w > 0 && h > 0
    ensures x < w && y < h && n == (t * h + y) * w + x
  {
    var q := n / w;
    t, y, x := q / h, q % h, n % w;
    assert q == t * h + y && n == q * w + x;
  }

  lemma RepeatedPosition(n: nat, w: nat, h: nat, m: nat)
    requires w > 0 && h > 0 && m == n % (h * w)
    ensures n % w == m % w && n / w % h == m / w % h && m <= n
  {
    var t, y, x := RowsAndRepetitions(n, w, h);
    RepeatedCell(n, t, y, x, w, h);
    CellNumber(y, x, w, h);
    SmallRemainder(y, h);
  }

  lemma LocationOfSmallIndex(space: Space, n: nat)
    requires space.Sane() && n < TWO_32
    ensures space.LocationOfIndex(n) == Location(n % space.width, n / space.width % space.height, 1, 1)
  {
    assert U32(n) == n;
  }

  /** An index behind the last node wraps around. */
  lemma IndexWraps(space: Space, index: nat)
    requires space.Sane() && index < TWO_32
    ensures space.LocationOfIndex(index) == space.LocationOfIndex(index % (space.height * space.width))
  {
    var m := index % (space.height * space.width);
    RepeatedPosition(index, space.width, space.height, m);
    LocationOfSmallIndex(space, index);
    LocationOfSmallIndex(space, m);
  }
}
