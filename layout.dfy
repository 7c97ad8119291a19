/**
 * The market layout: a grid 24 columns wide and 16 rows high, 384 cells,
 * read row by row. The cell in column x, row y has flat index y * 24 + x.
 */
module Layout {
  import opened Types
  import TableIds

  const Width: nat := 24
  const Height: nat := 16
  const CellCount: nat := 384

  /** The column and row of the cell with flat index `idx`. */
  function Column(idx: nat): nat { idx % Width }
  function Row(idx: nat): nat { idx / Width }

  /** Flat index and cell coordinates determine each other inside the grid. */
  lemma IndexMapping(idx: nat)
    requires idx < CellCount
    ensures Column(idx) < Width && Row(idx) < Height
    ensures Row(idx) * Width + Column(idx) == idx
  {
  }

  /** Going from a cell to its flat index and back gives the same cell. */
  lemma CellMapping(x: nat, y: nat)
    requires x < Width && y < Height
    ensures y * Width + x < CellCount
    ensures Column(y * Width + x) == x && Row(y * Width + x) == y
  {
  }

  /** The table a grid build creates for the cell in column x, row y. */
  function CellTable(x: nat, y: nat, status: TableStatus): Table
  {
    Table(TableIds.TableId(x, y), x, y, status, Absent)
  }

  /** The full build: one table per cell in reading order, all with the same status. */
  function Cells(status: TableStatus): seq<Table>
  {
    seq(CellCount, i requires 0 <= i < CellCount => CellTable(Column(i), Row(i), status))
  }

  /**
   * The nested build loop (rows outer, columns inner) that makes one table
   * per cell, all with the same status and without a reservationId.
   */
  method BuildCells(status: TableStatus) returns (ts: seq<Table>)
    ensures ts == Cells(status)
  {
    ts := [];
    for y := 0 to Height
      invariant |ts| == y * Width
      invariant forall i :: 0 <= i < |ts| ==> ts[i] == CellTable(Column(i), Row(i), status)
    {
      for x := 0 to Width
        invariant |ts| == y * Width + x
        invariant forall i :: 0 <= i < |ts| ==> ts[i] == CellTable(Column(i), Row(i), status)
      {
        CellMapping(x, y);
        ts := ts + [CellTable(x, y, status)];
      }
    }
  }

  /**
   * A full build has 384 entries; the entry at index y * 24 + x is the
   * table of column x, row y, named "{x}-{y}", with the build's status and
   * no reservationId.
   */
  lemma CellsPlacement(status: TableStatus, x: nat, y: nat)
    requires x < Width && y < Height
    ensures |Cells(status)| == 384
    ensures Cells(status)[y * Width + x] == Table(TableIds.TableId(x, y), x, y, status, Absent)
  {
    CellMapping(x, y);
  }

  /** Every entry of a full build lies inside the grid, has the build's status and no reservationId. */
  lemma CellsEntries(status: TableStatus)
    ensures forall i :: 0 <= i < |Cells(status)| ==>
              var t := Cells(status)[i];
              t.x < Width && t.y < Height && t.status == status && t.reservationId == Absent
              && t.id == TableIds.TableId(t.x, t.y)
  {
    forall i | 0 <= i < CellCount
      ensures Cells(status)[i].x < Width && Cells(status)[i].y < Height
    {
      IndexMapping(i);
    }
  }

  /** A full build names its 384 tables with pairwise distinct ids. */
  lemma CellsIdsDistinct(status: TableStatus)
    ensures forall i, j :: 0 <= i < j < |Cells(status)| ==> Cells(status)[i].id != Cells(status)[j].id
  {
    var ts := Cells(status);
    forall i, j | 0 <= i < j < |ts|
      ensures ts[i].id != ts[j].id
    {
      IndexMapping(i);
      IndexMapping(j);
      TableIds.TableIdInjective(Column(i), Row(i), Column(j), Row(j));
    }
  }
}
