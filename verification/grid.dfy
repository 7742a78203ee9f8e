/** The geometry of the clustering grid: which quadrant of a cell a point
    falls in, the constant tables that say which neighbouring cells and
    which of their quadrants can touch a cluster, the neighbour offsets as
    stored in 16-bit fields, and the order on cell positions. Both versions
    of the grid header share all of it. */
module Grid {
  import opened Geometry

  /** The four quadrants of a cell, named as in the header's picture:
      2 1 on top, 3 4 below; map y grows southwards. */
  datatype Quadrant = One | Two | Three | Four

  /** The quadrant flags, `1 << 0` to `1 << 3`. */
  function Bit(q: Quadrant): (b: bv8)
  {
    match q
    case One => 1 << 0
    case Two => 1 << 1
    case Three => 1 << 2
    case Four => 1 << 3
  }

  /** The east-west side of a quadrant: +1 east, -1 west. */
  function SideX(q: Quadrant): int
  {
    if q == One || q == Four then 1 else -1
  }

  /** The north-south side of a quadrant: -1 north, +1 south. */
  function SideY(q: Quadrant): int
  {
    if q == One || q == Two then -1 else 1
  }

  /** The quadrant on the given sides of a cell's centre. */
  function QuadrantAt(east: bool, south: bool): Quadrant
  {
    if east then (if south then Four else One) else (if south then Three else Two)
  }

  /** The number of set bits of a flag mask. */
  function PopCount(m: bv8): nat
    decreases m
  {
    if m == 0 then 0 else (if m & 1 == 1 then 1 else 0) + PopCount(m >> 1)
  }

  /** Each quadrant flag is a single bit of its own. */
  lemma BitsAreSingle(q: Quadrant, p: Quadrant)
    ensures Bit(q) in {1, 2, 4, 8} && PopCount(Bit(q)) == 1
    ensures Bit(q) & Bit(p) != 0 <==> q == p
  {
  }

  /** The quadrant of the cell `mapRect` that `point` falls in. The centre
      lies half a width and half a height from the origin; comparing doubled
      coordinates states that without rounding. A point on a centre line
      counts as east of it, or south of it. */
  function QuadrantForPoint(mapRect: MapRect, point: MapPoint): (q: Quadrant)
    ensures SideX(q) == 1 <==> 2 * point.x >= 2 * mapRect.origin.x + mapRect.size.width
    ensures SideY(q) == 1 <==> 2 * point.y >= 2 * mapRect.origin.y + mapRect.size.height
  {
    if 2 * point.x >= 2 * mapRect.origin.x + mapRect.size.width then
      if 2 * point.y >= 2 * mapRect.origin.y + mapRect.size.height then Four else One
    else
      if 2 * point.y >= 2 * mapRect.origin.y + mapRect.size.height then Three else Two
  }

  /** The quadrant found is the one on the point's side of each centre line,
      and its flag is one of the four single bits. */
  lemma QuadrantSides(mapRect: MapRect, point: MapPoint)
    ensures var q := QuadrantForPoint(mapRect, point);
            && (SideX(q) == 1 <==> 2 * point.x >= 2 * mapRect.origin.x + mapRect.size.width)
            && (SideY(q) == 1 <==> 2 * point.y >= 2 * mapRect.origin.y + mapRect.size.height)
            && Bit(q) in {1, 2, 4, 8}
  {
  }

  /** The centre itself belongs to the south-east quadrant. */
  lemma CentreIsSouthEast(mapRect: MapRect, point: MapPoint)
    requires 2 * point.x == 2 * mapRect.origin.x + mapRect.size.width
    requires 2 * point.y == 2 * mapRect.origin.y + mapRect.size.height
    ensures QuadrantForPoint(mapRect, point) == Four
  {
  }

  /** The neighbours are numbered counterclockwise from the east, as in the
      header's picture: 3 2 1 above, 4 and 0 beside, 5 6 7 below. These are
      their column offset (east +1) and row offset (south +1). */
  function NeighbourDx(k: nat): int
    requires k < 8
  {
    if k == 0 || k == 1 || k == 7 then 1 else if 3 <= k <= 5 then -1 else 0
  }

  function NeighbourDy(k: nat): int
    requires k < 8
  {
    if 1 <= k <= 3 then -1 else if 5 <= k <= 7 then 1 else 0
  }

  /** For each neighbour, the quadrants of that neighbour that face the
      current cell. */
  const ConformityTable: seq<bv8> := [
    Bit(Two) | Bit(Three),
    Bit(Three),
    Bit(Three) | Bit(Four),
    Bit(Four),
    Bit(One) | Bit(Four),
    Bit(One),
    Bit(One) | Bit(Two),
    Bit(Two)
  ]

  /** A quadrant of neighbour `k` faces the current cell when, on each axis
      where the neighbour is offset, the quadrant lies on the side turned
      back towards the current cell. */
  predicate Faces(k: nat, q: Quadrant)
    requires k < 8
  {
    (NeighbourDx(k) == 0 || SideX(q) == -NeighbourDx(k))
    && (NeighbourDy(k) == 0 || SideY(q) == -NeighbourDy(k))
  }

  /** The conformity table names exactly the facing quadrants: two for an
      edge neighbour (even number), one for a corner neighbour (odd). */
  lemma ConformityIsFacing(k: nat, q: Quadrant)
    requires k < 8
    ensures |ConformityTable| == 8
    ensures ConformityTable[k] & Bit(q) != 0 <==> Faces(k, q)
    ensures PopCount(ConformityTable[k]) == if k % 2 == 0 then 2 else 1
  {
  }

  /** Index of a quadrant in the adjacency table: quadrant One is row 0. */
  function QuadrantIndex(q: Quadrant): (i: nat)
    ensures i < 4
  {
    match q
    case One => 0
    case Two => 1
    case Three => 2
    case Four => 3
  }

  /** For a cluster in each quadrant, the neighbours worth checking. */
  const AdjacencyTable: seq<seq<nat>> := [
    [0, 1, 2],
    [2, 3, 4],
    [4, 5, 6],
    [6, 7, 0]
  ]

  /** Row `q` is the three consecutive neighbours starting at `2q`, wrapping
      around to 0; together the rows name every neighbour. */
  lemma AdjacencyRows(q: nat)
    requires q < 4
    ensures |AdjacencyTable| == 4 && AdjacencyTable[q] == [2 * q, 2 * q + 1, (2 * q + 2) % 8]
  {
  }

  lemma AdjacencyCovers(k: nat)
    requires k < 8
    ensures exists q :: 0 <= q < 4 && k in AdjacencyTable[q]
  {
    assert k in AdjacencyTable[k / 2];
  }

  /** A neighbour is listed for a quadrant exactly when it lies on that
      quadrant's sides of the cell: beside, above or below it, or at its
      corner. */
  lemma AdjacencyIsNearSide(q: Quadrant, k: nat)
    requires k < 8
    ensures k in AdjacencyTable[QuadrantIndex(q)]
            <==> (NeighbourDx(k) == 0 || NeighbourDx(k) == SideX(q))
                 && (NeighbourDy(k) == 0 || NeighbourDy(k) == SideY(q))
  {
  }

  /** The value a C integer becomes when stored in a `uint16_t`. */
  function U16(v: int): (u: nat)
    ensures u < 0x1_0000
  {
    v % 0x1_0000
  }

  /** A `uint16_t` read back as a signed 16-bit value. */
  function Signed16(u: nat): int
    requires u < 0x1_0000
  {
    if u >= 0x8000 then u - 0x1_0000 else u
  }

  /** The neighbour offsets as the header stores them: column offset, then
      row offset, each written as -1, 0 or 1 into a `uint16_t`, so -1 is
      held as 0xFFFF. The grid is indexed `[col][row]`: the column index
      runs north to south and the row index west to east. */
  const DeltaTable: seq<(nat, nat)> := [
    (U16(0), U16(1)),
    (U16(-1), U16(1)),
    (U16(-1), U16(0)),
    (U16(-1), U16(-1)),
    (U16(0), U16(-1)),
    (U16(1), U16(-1)),
    (U16(1), U16(0)),
    (U16(1), U16(1))
  ]

  /** Read as signed values, the stored offsets are those of the picture. */
  lemma DeltasMatchLayout(k: nat)
    requires k < 8
    ensures |DeltaTable| == 8 && DeltaTable[k].0 < 0x1_0000 && DeltaTable[k].1 < 0x1_0000
    ensures Signed16(DeltaTable[k].0) == NeighbourDy(k) && Signed16(DeltaTable[k].1) == NeighbourDx(k)
  {
  }

  /** The eight offsets are distinct, non-zero and within one cell. */
  lemma NeighboursDistinct(j: nat, k: nat)
    requires j < 8 && k < 8
    ensures (NeighbourDx(k), NeighbourDy(k)) != (0, 0)
    ensures -1 <= NeighbourDx(k) <= 1 && -1 <= NeighbourDy(k) <= 1
    ensures (NeighbourDx(j), NeighbourDy(j)) == (NeighbourDx(k), NeighbourDy(k)) <==> j == k
  {
  }

  /** Every offset in {-1, 0, 1} other than (0, 0) is one of the eight. */
  lemma NeighboursComplete(dx: int, dy: int)
    requires -1 <= dx <= 1 && -1 <= dy <= 1 && (dx, dy) != (0, 0)
    ensures exists k :: 0 <= k < 8 && NeighbourDx(k) == dx && NeighbourDy(k) == dy
  {
    var k :| k in {0, 1, 2, 3, 4, 5, 6, 7} && NeighbourDx(k) == dx && NeighbourDy(k) == dy;
  }

  /** A cell position: `row` is the west-east index and `col` the
      north-south one; both fields are `uint16_t`. */
  datatype Position = Position(row: nat, col: nat)

  predicate Fits(p: Position)
  {
    p.row < 0x1_0000 && p.col < 0x1_0000
  }

  /** The position of neighbour `k`, each sum stored back into a
      `uint16_t` field. */
  function NeighbourPosition(p: Position, k: nat): (n: Position)
    requires k < 8
    ensures Fits(n)
  {
    Position(U16(p.row + DeltaTable[k].1), U16(p.col + DeltaTable[k].0))
  }

  /** Around an inner cell of a grid whose margin indices still fit 16 bits
      the stored offsets wrap back to the true neighbour, and every neighbour
      lies inside the grid including its one-cell margin. */
  lemma NeighbourInside(p: Position, k: nat, sizeX: nat, sizeY: nat)
    requires k < 8 && sizeX + 1 < 0x1_0000 && sizeY + 1 < 0x1_0000
    requires 1 <= p.row <= sizeX && 1 <= p.col <= sizeY
    ensures NeighbourPosition(p, k) == Position(p.row + NeighbourDx(k), p.col + NeighbourDy(k))
    ensures NeighbourPosition(p, k).row <= sizeX + 1 && NeighbourPosition(p, k).col <= sizeY + 1
  {
    DeltasMatchLayout(k);
  }

  datatype Ordering = Ascending | Same | Descending

  function Flip(o: Ordering): Ordering
  {
    match o
    case Ascending => Descending
    case Same => Same
    case Descending => Ascending
  }

  /** Positions compare by column, then by row: the lexicographic order on
      `(col, row)`. */
  function Compare(a: Position, b: Position): (o: Ordering)
    ensures o == Ascending <==> a.col < b.col || (a.col == b.col && a.row < b.row)
    ensures o == Descending <==> a.col > b.col || (a.col == b.col && a.row > b.row)
    ensures o == Same <==> a == b
  {
    if a.col < b.col then Ascending
    else if a.col > b.col then Descending
    else if a.row < b.row then Ascending
    else if a.row > b.row then Descending
    else Same
  }

  /** The two fields laid out row first, read as one little-endian 32-bit
      word: the column is the high half. */
  function Key(p: Position): nat
  {
    p.col * 0x1_0000 + p.row
  }

  /** The comparison orders positions as their packed words. */
  lemma CompareByKey(a: Position, b: Position)
    requires Fits(a) && Fits(b)
    ensures Compare(a, b) == Ascending <==> Key(a) < Key(b)
    ensures Compare(a, b) == Same <==> Key(a) == Key(b)
    ensures Compare(a, b) == Descending <==> Key(a) > Key(b)
  {
    if a.col < b.col {
      assert Key(a) < (a.col + 1) * 0x1_0000 <= Key(b);
    } else if a.col > b.col {
      assert Key(b) < (b.col + 1) * 0x1_0000 <= Key(a);
    }
  }

  /** The comparison is a total order: `Same` exactly for equal positions,
      swapping the arguments flips the answer, and it is transitive. */
  lemma CompareIsTotalOrder(a: Position, b: Position, c: Position)
    ensures Compare(a, b) == Same <==> a == b
    ensures Compare(b, a) == Flip(Compare(a, b))
    ensures Compare(a, b) == Ascending && Compare(b, c) == Ascending ==> Compare(a, c) == Ascending
  {
  }
}
