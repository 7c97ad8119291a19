/**
 * The fixture data: a full 24 x 16 grid of blocked tables and an empty
 * reservation list.
 */
module MockData {
  import opened Types
  import opened Layout
  import TableIds
  import Grid

  /** `mockTables`: the row-by-row build of the grid, every cell blocked. */
  method MockTables() returns (ts: seq<Table>)
    ensures ts == Cells(Blocked)
  {
    ts := BuildCells(Blocked);
  }

  /**
   * The mock grid has 384 entries; the one at index y * 24 + x is "{x}-{y}"
   * at column x, row y; every entry is blocked and has no reservationId;
   * no two share an id.
   */
  lemma MockTablesShape(x: nat, y: nat)
    requires x < Width && y < Height
    ensures |Cells(Blocked)| == 384
    ensures Cells(Blocked)[y * Width + x] == Table(TableIds.TableId(x, y), x, y, Blocked, Absent)
    ensures forall i :: 0 <= i < |Cells(Blocked)| ==>
              Cells(Blocked)[i].status == Blocked && Cells(Blocked)[i].reservationId == Absent
    ensures forall i, j :: 0 <= i < j < |Cells(Blocked)| ==> Cells(Blocked)[i].id != Cells(Blocked)[j].id
  {
    CellsPlacement(Blocked, x, y);
    CellsEntries(Blocked);
    CellsIdsDistinct(Blocked);
  }

  /** `mockReservations`: no reservations. */
  function MockReservations(): (rs: seq<Reservation>)
    ensures |rs| == 0
  {
    []
  }

  /**
   * The mock board: with the mock reservations, every mock table is drawn
   * in the blocked colour and its tooltip calls it free.
   */
  lemma MockBoardIsBlocked(i: nat)
    requires i < |Cells(Blocked)|
    ensures Grid.TableColor(Cells(Blocked)[i], MockReservations()) == Grid.StatusClass(Blocked)
    ensures Grid.Tooltip(Cells(Blocked)[i], MockReservations()) == "Volný stůl"
  {
    CellsEntries(Blocked);
  }
}
