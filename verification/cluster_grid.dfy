/** The cluster grid: a `(sizeY + 2) x (sizeX + 2)` array of cells whose
    one-cell margin is blank, so that the merge pass can look at all eight
    neighbours of an inner cell without bounds checks. The grid is indexed
    `[col][row]`, the column index running north to south. The older version
    holds pointers into a separate cluster storage filled by a bump
    allocator; the newer one holds the clusters themselves and marks the
    margin by a state field. */
module ClusterGrid {
  import opened Wrappers
  import opened Geometry

  /** The grid has `sizeY + 2` columns of `sizeX + 2` cells each. */
  predicate Shaped<C>(g: seq<seq<C>>, sizeX: nat, sizeY: nat)
  {
    |g| == sizeY + 2 && forall col :: 0 <= col < |g| ==> |g[col]| == sizeX + 2
  }

  /** Whether cell `[col][row]` belongs to the one-cell margin. */
  predicate InMargin(sizeX: nat, sizeY: nat, col: nat, row: nat)
  {
    col == 0 || col == sizeY + 1 || row == 0 || row == sizeX + 1
  }

  /** Every cell of `column` is `v`. */
  ghost predicate Filled<C>(column: seq<C>, v: C)
  {
    forall row :: 0 <= row < |column| ==> column[row] == v
  }

  /** The cells of a fresh grid. Column `col` is allocated holding
      `garbage[col]`, which stands for whatever the allocator hands back, cell
      by cell; its first and last cell are then overwritten through `mark`;
      finally the first and last columns are cleared to all-zero cells
      `zero`. */
  method Layout<C>(sizeX: nat, sizeY: nat, garbage: seq<seq<C>>, mark: C -> C, zero: C) returns (g: seq<seq<C>>)
    requires Shaped(garbage, sizeX, sizeY)
    ensures Shaped(g, sizeX, sizeY)
    ensures Filled(g[0], zero) && Filled(g[sizeY + 1], zero)
    ensures forall col :: 1 <= col <= sizeY ==>
              g[col][0] == mark(garbage[col][0]) && g[col][sizeX + 1] == mark(garbage[col][sizeX + 1])
    ensures forall col, row :: 1 <= col <= sizeY && 1 <= row <= sizeX ==> g[col][row] == garbage[col][row]
  {
    g := [];
    var col := 0;
    while col < sizeY + 2
      invariant col <= sizeY + 2 && |g| == col
      invariant forall c :: 0 <= c < col ==> |g[c]| == sizeX + 2
      invariant forall c :: 0 <= c < col ==>
                  g[c][0] == mark(garbage[c][0]) && g[c][sizeX + 1] == mark(garbage[c][sizeX + 1])
      invariant forall c, row :: 0 <= c < col && 1 <= row <= sizeX ==> g[c][row] == garbage[c][row]
    {
      var cells := garbage[col];
      cells := cells[0 := mark(cells[0])];
      cells := cells[sizeX + 1 := mark(cells[sizeX + 1])];
      g := g + [cells];
      col := col + 1;
    }
    g := g[0 := seq(sizeX + 2, _ => zero)];
    g := g[sizeY + 1 := seq(sizeX + 2, _ => zero)];
  }

  /** The older grid: cells hold an index into the cluster storage or NULL
      (`None`); the storage has room for `sizeX * sizeY` clusters of which
      the first `used` are handed out. */
  datatype SlotGrid = SlotGrid(cells: seq<seq<Option<nat>>>, capacity: nat, used: nat)

  /** Every margin cell of the older grid is NULL. */
  predicate NullMargin(g: seq<seq<Option<nat>>>, sizeX: nat, sizeY: nat)
    requires Shaped(g, sizeX, sizeY)
  {
    forall col, row :: 0 <= col < sizeY + 2 && 0 <= row < sizeX + 2 && InMargin(sizeX, sizeY, col, row) ==> g[col][row].None?
  }

  /** What the validation inspects: the first and last column cell by cell,
      then the first and last cell of every column. */
  predicate NullEdges(g: seq<seq<Option<nat>>>, sizeX: nat, sizeY: nat)
    requires Shaped(g, sizeX, sizeY)
  {
    AllNull(g[0]) && AllNull(g[sizeY + 1])
    && forall col :: 0 <= col < sizeY + 2 ==> g[col][0].None? && g[col][sizeX + 1].None?
  }

  /** Every cell of `column` is NULL. */
  predicate AllNull(column: seq<Option<nat>>)
  {
    forall row :: 0 <= row < |column| ==> column[row].None?
  }

  /** The edges the validation inspects are exactly the margin. */
  lemma NullMarginIsEdges(g: seq<seq<Option<nat>>>, sizeX: nat, sizeY: nat)
    requires Shaped(g, sizeX, sizeY)
    ensures NullMargin(g, sizeX, sizeY) <==> NullEdges(g, sizeX, sizeY)
  {
    var top, bottom := g[0], g[sizeY + 1];
    if NullEdges(g, sizeX, sizeY) {
      forall col, row | 0 <= col < sizeY + 2 && 0 <= row < sizeX + 2 && InMargin(sizeX, sizeY, col, row)
        ensures g[col][row].None?
      {
        if col == 0 {
          assert g[col] == top && top[row].None?;
        } else if col == sizeY + 1 {
          assert g[col] == bottom && bottom[row].None?;
        } else {
          assert g[col][0].None? && g[col][sizeX + 1].None?;
        }
      }
    }
    if NullMargin(g, sizeX, sizeY) {
      forall row | 0 <= row < sizeX + 2
        ensures top[row].None? && bottom[row].None?
      {
        assert InMargin(sizeX, sizeY, 0, row) && InMargin(sizeX, sizeY, sizeY + 1, row);
      }
      assert forall col :: 0 <= col < sizeY + 2 ==> InMargin(sizeX, sizeY, col, 0) && InMargin(sizeX, sizeY, col, sizeX + 1);
    }
  }

  /** The older debug validation of the margin; `ok` is whether every one
      of its assertions holds. */
  method ValidateNullMargin(g: seq<seq<Option<nat>>>, sizeX: nat, sizeY: nat) returns (ok: bool)
    requires Shaped(g, sizeX, sizeY)
    ensures ok <==> NullMargin(g, sizeX, sizeY)
  {
    NullMarginIsEdges(g, sizeX, sizeY);
    var top, bottom := g[0], g[sizeY + 1];
    var row := 0;
    while row < sizeX + 2
      invariant row <= sizeX + 2
      invariant forall r :: 0 <= r < row ==> top[r].None? && bottom[r].None?
    {
      if !top[row].None? || !bottom[row].None? {
        return false;
      }
      row := row + 1;
    }
    var col := 0;
    while col < sizeY + 2
      invariant col <= sizeY + 2
      invariant forall c :: 0 <= c < col ==> g[c][0].None? && g[c][sizeX + 1].None?
    {
      if !g[col][0].None? || !g[col][sizeX + 1].None? {
        return false;
      }
      col := col + 1;
    }
    return true;
  }

  /** The older create: `used` starts at 0 and every margin cell is NULL;
      the inner cells keep what the allocator left in them, `garbage`. */
  method CreateSlotGrid(sizeX: nat, sizeY: nat, garbage: seq<seq<Option<nat>>>) returns (cg: SlotGrid)
    requires Shaped(garbage, sizeX, sizeY)
    ensures Shaped(cg.cells, sizeX, sizeY)
    ensures cg.used == 0 && cg.capacity == sizeX * sizeY
    ensures NullMargin(cg.cells, sizeX, sizeY)
    ensures forall col, row :: 1 <= col <= sizeY && 1 <= row <= sizeX ==> cg.cells[col][row] == garbage[col][row]
  {
    var cells := Layout(sizeX, sizeY, garbage, _ => None, None);
    NullMarginIsEdges(cells, sizeX, sizeY);
    assert AllNull(cells[0]) && AllNull(cells[sizeY + 1]);
    cg := SlotGrid(cells, sizeX * sizeY, 0);
  }

  /** The state of a cluster in the newer grid. */
  datatype ClusterState = Empty | HasData | Merged

  /** A cluster cell of the newer grid; `quadrant` is 0 or one quadrant
      flag. */
  datatype Cluster = Cluster(mapRect: MapRect, annotationIndex: nat, state: ClusterState, quadrant: nat)

  /** A cell whose bytes are all zero: its state field reads as `Empty`. */
  const ZeroCluster := Cluster(MapRect(MapPoint(0, 0), MapSize(0, 0)), 0, Empty, 0)

  /** Every margin cell of the newer grid has state `Empty`. */
  predicate EmptyMargin(g: seq<seq<Cluster>>, sizeX: nat, sizeY: nat)
    requires Shaped(g, sizeX, sizeY)
  {
    forall col, row :: 0 <= col < sizeY + 2 && 0 <= row < sizeX + 2 && InMargin(sizeX, sizeY, col, row) ==> g[col][row].state == Empty
  }

  /** What the validation inspects: the first and last column cell by cell,
      then the first and last cell of every column. */
  predicate EmptyEdges(g: seq<seq<Cluster>>, sizeX: nat, sizeY: nat)
    requires Shaped(g, sizeX, sizeY)
  {
    AllEmpty(g[0]) && AllEmpty(g[sizeY + 1])
    && forall col :: 0 <= col < sizeY + 2 ==> g[col][0].state == Empty && g[col][sizeX + 1].state == Empty
  }

  /** Every cell of `column` has state `Empty`. */
  predicate AllEmpty(column: seq<Cluster>)
  {
    forall row :: 0 <= row < |column| ==> column[row].state == Empty
  }

  /** The edges the validation inspects are exactly the margin. */
  lemma EmptyMarginIsEdges(g: seq<seq<Cluster>>, sizeX: nat, sizeY: nat)
    requires Shaped(g, sizeX, sizeY)
    ensures EmptyMargin(g, sizeX, sizeY) <==> EmptyEdges(g, sizeX, sizeY)
  {
    var top, bottom := g[0], g[sizeY + 1];
    if EmptyEdges(g, sizeX, sizeY) {
      forall col, row | 0 <= col < sizeY + 2 && 0 <= row < sizeX + 2 && InMargin(sizeX, sizeY, col, row)
        ensures g[col][row].state == Empty
      {
        if col == 0 {
          assert g[col] == top && top[row].state == Empty;
        } else if col == sizeY + 1 {
          assert g[col] == bottom && bottom[row].state == Empty;
        } else {
          assert g[col][0].state == Empty && g[col][sizeX + 1].state == Empty;
        }
      }
    }
    if EmptyMargin(g, sizeX, sizeY) {
      forall row | 0 <= row < sizeX + 2
        ensures top[row].state == Empty && bottom[row].state == Empty
      {
        assert InMargin(sizeX, sizeY, 0, row) && InMargin(sizeX, sizeY, sizeY + 1, row);
      }
      assert forall col :: 0 <= col < sizeY + 2 ==> InMargin(sizeX, sizeY, col, 0) && InMargin(sizeX, sizeY, col, sizeX + 1);
    }
  }

  /** The newer debug validation of the margin; `ok` is whether every one
      of its assertions holds. */
  method ValidateEmptyMargin(g: seq<seq<Cluster>>, sizeX: nat, sizeY: nat) returns (ok: bool)
    requires Shaped(g, sizeX, sizeY)
    ensures ok <==> EmptyMargin(g, sizeX, sizeY)
  {
    EmptyMarginIsEdges(g, sizeX, sizeY);
    var top, bottom := g[0], g[sizeY + 1];
    var row := 0;
    while row < sizeX + 2
      invariant row <= sizeX + 2
      invariant forall r :: 0 <= r < row ==> top[r].state == Empty && bottom[r].state == Empty
    {
      if top[row].state != Empty || bottom[row].state != Empty {
        return false;
      }
      row := row + 1;
    }
    var col := 0;
    while col < sizeY + 2
      invariant col <= sizeY + 2
      invariant forall c :: 0 <= c < col ==> g[c][0].state == Empty && g[c][sizeX + 1].state == Empty
    {
      if g[col][0].state != Empty || g[col][sizeX + 1].state != Empty {
        return false;
      }
      col := col + 1;
    }
    return true;
  }

  /** The newer create, which insists on at least one inner cell: the
      first and last cell of every column get state `Empty` and keep the
      rest of what the allocator left, `garbage`; the first and last columns
      are zeroed whole; the inner cells keep `garbage`. Every margin cell
      ends up `Empty`. */
  method CreateClusterGrid(sizeX: nat, sizeY: nat, garbage: seq<seq<Cluster>>) returns (g: seq<seq<Cluster>>)
    requires sizeX > 0 && sizeY > 0
    requires Shaped(garbage, sizeX, sizeY)
    ensures Shaped(g, sizeX, sizeY)
    ensures EmptyMargin(g, sizeX, sizeY)
    ensures Filled(g[0], ZeroCluster) && Filled(g[sizeY + 1], ZeroCluster)
    ensures forall col :: 1 <= col <= sizeY ==>
              g[col][0] == garbage[col][0].(state := Empty) && g[col][sizeX + 1] == garbage[col][sizeX + 1].(state := Empty)
    ensures forall col, row :: 1 <= col <= sizeY && 1 <= row <= sizeX ==> g[col][row] == garbage[col][row]
  {
    g := Layout(sizeX, sizeY, garbage, (c: Cluster) => c.(state := Empty), ZeroCluster);
    assert ZeroCluster.state == Empty;
    EmptyMarginIsEdges(g, sizeX, sizeY);
    assert AllEmpty(g[0]) && AllEmpty(g[sizeY + 1]);
  }

  /** Whether `used` fits its `uint16_t` field. */
  predicate UsedFits(cg: SlotGrid)
  {
    cg.used < 0x1_0000
  }

  /** Cell creation as written: hands out the slot at `used` and increments
      the 16-bit field, which wraps from 65535 to 0. */
  function CellCreateAsWritten(cg: SlotGrid): (r: (SlotGrid, nat))
    requires UsedFits(cg)
    ensures UsedFits(r.0) && r.0.cells == cg.cells && r.0.capacity == cg.capacity
    ensures r.1 == cg.used
  {
    (cg.(used := (cg.used + 1) % 0x1_0000), cg.used)
  }

  /** `n` cell creations as written, returning the slots in the order they
      were handed out. */
  function CreateCellsAsWritten(cg: SlotGrid, n: nat): (r: (SlotGrid, seq<nat>))
    requires UsedFits(cg)
    ensures UsedFits(r.0) && |r.1| == n
    decreases n
  {
    if n == 0 then (cg, [])
    else
      var (g1, s) := CellCreateAsWritten(cg);
      var (g2, ss) := CreateCellsAsWritten(g1, n - 1);
      (g2, [s] + ss)
  }

  /** As written, the `i`-th slot is the start plus `i`, wrapped at 65536. */
  lemma {:induction false} AsWrittenSlots(cg: SlotGrid, n: nat, i: nat)
    requires UsedFits(cg) && i < n
    ensures CreateCellsAsWritten(cg, n).1[i] == (cg.used + i) % 0x1_0000
    decreases n
  {
    if i > 0 {
      var g1 := CellCreateAsWritten(cg).0;
      AsWrittenSlots(g1, n - 1, i - 1);
      assert CreateCellsAsWritten(cg, n).1[i] == CreateCellsAsWritten(g1, n - 1).1[i - 1];
      WrapStep(cg.used, i - 1);
    }
  }

  lemma WrapStep(u: nat, k: nat)
    requires u < 0x1_0000
    ensures ((u + 1) % 0x1_0000 + k) % 0x1_0000 == (u + 1 + k) % 0x1_0000
  {
    if u + 1 == 0x1_0000 {
      assert (u + 1 + k) % 0x1_0000 == k % 0x1_0000;
    }
  }

  /** A grid with more than 65536 inner cells can hand out its first slot
      twice: creating as many clusters as the storage holds returns slot 0
      both first and 65537th, so two clusters share one storage cell. */
  lemma AsWrittenReusesSlot(cg: SlotGrid)
    requires cg.used == 0 && cg.capacity > 0x1_0000
    ensures var slots := CreateCellsAsWritten(cg, cg.capacity).1;
            slots[0] == slots[0x1_0000] == 0
  {
    AsWrittenSlots(cg, cg.capacity, 0);
    AsWrittenSlots(cg, cg.capacity, 0x1_0000);
  }

  /** Cell creation as intended: the caller guarantees a free slot, and the
      count of slots in use grows by one without wrapping. */
  function CellCreate(cg: SlotGrid): (r: (SlotGrid, nat))
    requires cg.used < cg.capacity
    ensures r.1 < cg.capacity && r.1 == cg.used
    ensures r.0 == cg.(used := cg.used + 1)
  {
    (cg.(used := cg.used + 1), cg.used)
  }

  /** `n` cell creations, returning the slots in the order they were handed
      out; the caller guarantees that the storage has room for them. */
  function CreateCells(cg: SlotGrid, n: nat): (r: (SlotGrid, seq<nat>))
    requires cg.used + n <= cg.capacity
    ensures r.0 == cg.(used := cg.used + n)
    ensures |r.1| == n && forall i :: 0 <= i < n ==> r.1[i] == cg.used + i
    decreases n
  {
    if n == 0 then (cg, [])
    else
      var (g1, s) := CellCreate(cg);
      var (g2, ss) := CreateCells(g1, n - 1);
      (g2, [s] + ss)
  }

  /** The slots handed out are consecutive, distinct, and inside the
      storage: no two clusters share a storage cell. */
  lemma SlotsDistinct(cg: SlotGrid, n: nat, i: nat, j: nat)
    requires cg.used + n <= cg.capacity && i < n && j < n
    ensures CreateCells(cg, n).1[i] < cg.capacity
    ensures CreateCells(cg, n).1[i] == CreateCells(cg, n).1[j] <==> i == j
  {
  }
}
