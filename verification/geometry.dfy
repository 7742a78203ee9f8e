/** Map geometry shared by the 2-d tree and the grid clustering code.
    Map points are modelled with whole-number coordinates. The tree, the
    quadrant classifier and the grid decide by comparisons alone, so there the
    ordering of the integers stands in for the ordering of the doubles. The
    cell-size normalisation also uses `fmod` and `ceil`; it is modelled for
    whole-number coordinates and sizes only. */
module Geometry {

  datatype MapPoint = MapPoint(x: int, y: int)
  datatype MapSize = MapSize(width: int, height: int)
  datatype MapRect = MapRect(origin: MapPoint, size: MapSize)

  /** The two tree axes; `X` is axis 0 and `Y` is axis 1. */
  datatype Axis = X | Y

  function AxisIndex(axis: Axis): (i: nat)
    ensures i < 2
  {
    if axis == X then 0 else 1
  }

  /** `axis ^ 1`: the complementary axis. */
  function Complement(axis: Axis): (r: Axis)
    ensures r != axis
    ensures AxisIndex(r) == 1 - AxisIndex(axis)
  {
    if axis == X then Y else X
  }

  /** The splitting axis of a tree level: X at the root, the complementary
      axis one level further down. */
  function AxisAtLevel(level: nat): Axis
  {
    if level == 0 then X else Complement(AxisAtLevel(level - 1))
  }

  /** The build picks the axis of a level with `(level & 1) == 0 ? X : Y`:
      X exactly on even levels. */
  lemma {:induction false} AxisAtLevelParity(level: nat)
    ensures AxisAtLevel(level) == (if level % 2 == 0 then X else Y)
  {
    if level > 0 {
      AxisAtLevelParity(level - 1);
    }
  }

  /** Consecutive levels split on complementary axes. */
  lemma AxisAlternates(level: nat)
    ensures AxisAtLevel(level + 1) == Complement(AxisAtLevel(level))
    ensures Complement(AxisAtLevel(level + 1)) == AxisAtLevel(level)
  {
  }

  /** The coordinate of `p` on `axis`. */
  function Coord(p: MapPoint, axis: Axis): int
  {
    match axis
    case X => p.x
    case Y => p.y
  }

  /** Byte offsets of the `x` and `y` fields inside a map point: a map point
      is two consecutive 8-byte doubles. */
  const MapPointOffsets: seq<nat> := [0, 8]

  /** The double stored `offset` bytes into a map point. */
  function FieldAtOffset(p: MapPoint, offset: nat): int
    requires offset == 0 || offset == 8
  {
    if offset == 0 then p.x else p.y
  }

  /** `MKMapPointGetCoordinateForAxis`: reads the coordinate through the table
      of field offsets indexed by the axis number. */
  function CoordForAxis(p: MapPoint, axis: Axis): (v: int)
    ensures v == Coord(p, axis)
  {
    FieldAtOffset(p, MapPointOffsets[AxisIndex(axis)])
  }

  /** `q * b` is a multiple of `b`. */
  lemma MultipleHasNoRemainder(q: int, b: int)
    requires b > 0
    ensures (q * b) % b == 0
  {
    var m := q * b;
    var d := m / b;
    var r := m % b;
    assert m == d * b + r;
    assert (q - d) * b == r by {
      assert (q - d) * b == q * b - d * b;
    }
    MulSign(q - d, b);
  }

  lemma NextMultiple(m: int, b: int)
    requires b > 0 && m % b == 0
    ensures (m + b) % b == 0
  {
    var q := m / b;
    assert m == q * b;
    assert m + b == (q + 1) * b;
    MultipleHasNoRemainder(q + 1, b);
  }

  lemma MulSign(k: int, b: int)
    requires b > 0
    ensures k >= 1 ==> k * b >= b
    ensures k <= -1 ==> k * b <= -b
  {
    if k >= 1 {
      assert k * b == (k - 1) * b + b;
    } else if k <= -1 {
      assert k * b == (k + 1) * b - b;
    }
  }

  /** C `fmod` on whole numbers: the remainder of truncating division, which
      carries the sign of the dividend. */
  function FMod(a: int, b: int): (r: int)
    requires b > 0
    ensures a >= 0 ==> 0 <= r < b
    ensures a < 0 ==> -b < r <= 0
    ensures (a - r) % b == 0
  {
    if a >= 0 then
      MultipleHasNoRemainder(a / b, b);
      a % b
    else
      MultipleHasNoRemainder(-((-a) / b), b);
      assert a + (-a) % b == -((-a) / b) * b;
      -((-a) % b)
  }

  /** The origin coordinate moved onto the lattice of cells of width `cell`
      (`v - fmod(v, cell)`). */
  function AlignOrigin(v: int, cell: int): (r: int)
    requires cell > 0
    ensures r % cell == 0
    ensures v >= 0 ==> v - cell < r <= v
    ensures v < 0 ==> v <= r < v + cell
  {
    v - FMod(v, cell)
  }

  /** The extent grown so that it spans whole cells
      (`v + (cell - fmod(v, cell))`). */
  function GrowToCells(v: int, cell: int): (r: int)
    requires cell > 0
    ensures r % cell == 0
    ensures v >= 0 ==> v < r <= v + cell
    ensures v >= 0 && v % cell == 0 ==> r == v + cell
  {
    var f := FMod(v, cell);
    NextMultiple(v - f, cell);
    v + (cell - f)
  }

  /** Snaps the origin of `mapRect` onto the cell lattice and grows its size
      so that it spans whole cells. */
  function NormalizeToCellSize(mapRect: MapRect, cellSize: MapSize): (r: MapRect)
    requires cellSize.width > 0 && cellSize.height > 0
    ensures r.size.width % cellSize.width == 0
    ensures r.size.height % cellSize.height == 0
    ensures r.origin.x % cellSize.width == 0
    ensures r.origin.y % cellSize.height == 0
    ensures mapRect.origin.x >= 0 ==>
              mapRect.origin.x - cellSize.width < r.origin.x <= mapRect.origin.x
    ensures mapRect.origin.y >= 0 ==>
              mapRect.origin.y - cellSize.height < r.origin.y <= mapRect.origin.y
    ensures mapRect.origin.x < 0 ==>
              mapRect.origin.x <= r.origin.x < mapRect.origin.x + cellSize.width
    ensures mapRect.origin.y < 0 ==>
              mapRect.origin.y <= r.origin.y < mapRect.origin.y + cellSize.height
    ensures mapRect.size.width >= 0 ==>
              mapRect.size.width < r.size.width <= mapRect.size.width + cellSize.width
    ensures mapRect.size.height >= 0 ==>
              mapRect.size.height < r.size.height <= mapRect.size.height + cellSize.height
  {
    MapRect(MapPoint(AlignOrigin(mapRect.origin.x, cellSize.width),
                     AlignOrigin(mapRect.origin.y, cellSize.height)),
            MapSize(GrowToCells(mapRect.size.width, cellSize.width),
                    GrowToCells(mapRect.size.height, cellSize.height)))
  }

  /** A size that already spans whole cells still gains one more cell. */
  lemma NormalizeAlignedSizeGrowsByOneCell(mapRect: MapRect, cellSize: MapSize)
    requires cellSize.width > 0 && cellSize.height > 0
    requires mapRect.size.width >= 0 && mapRect.size.width % cellSize.width == 0
    requires mapRect.size.height >= 0 && mapRect.size.height % cellSize.height == 0
    ensures NormalizeToCellSize(mapRect, cellSize).size
            == MapSize(mapRect.size.width + cellSize.width, mapRect.size.height + cellSize.height)
  {
  }

  /** An origin already on the lattice is left where it is. */
  lemma NormalizeAlignedOriginIsFixed(mapRect: MapRect, cellSize: MapSize)
    requires cellSize.width > 0 && cellSize.height > 0
    requires mapRect.origin.x % cellSize.width == 0
    requires mapRect.origin.y % cellSize.height == 0
    ensures NormalizeToCellSize(mapRect, cellSize).origin == mapRect.origin
  {
    var x := mapRect.origin.x;
    var w := cellSize.width;
    if x < 0 {
      assert (-x) % w == 0 by { DivisibleNegation(x, w); }
    }
    var y := mapRect.origin.y;
    var h := cellSize.height;
    if y < 0 {
      assert (-y) % h == 0 by { DivisibleNegation(y, h); }
    }
  }

  lemma DivisibleNegation(a: int, b: int)
    requires b > 0 && a % b == 0
    ensures (-a) % b == 0
  {
    var q := a / b;
    assert a == q * b;
    assert -a == (-q) * b;
    MultipleHasNoRemainder(-q, b);
  }

  /** x and width depend only on the cell width, y and height only on the cell
      height. */
  lemma NormalizeAxesIndependent(r1: MapRect, c1: MapSize, r2: MapRect, c2: MapSize)
    requires c1.width > 0 && c1.height > 0 && c2.width > 0 && c2.height > 0
    ensures r1.origin.x == r2.origin.x && r1.size.width == r2.size.width && c1.width == c2.width ==>
              NormalizeToCellSize(r1, c1).origin.x == NormalizeToCellSize(r2, c2).origin.x &&
              NormalizeToCellSize(r1, c1).size.width == NormalizeToCellSize(r2, c2).size.width
    ensures r1.origin.y == r2.origin.y && r1.size.height == r2.size.height && c1.height == c2.height ==>
              NormalizeToCellSize(r1, c1).origin.y == NormalizeToCellSize(r2, c2).origin.y &&
              NormalizeToCellSize(r1, c1).size.height == NormalizeToCellSize(r2, c2).size.height
  {
  }
}
