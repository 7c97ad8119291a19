/**
 * The grid initialisation route: POST builds and writes the full grid of
 * available tables, DELETE removes every stored table, PATCH overwrites the
 * single record "0-8", GET lists the stored records. Each handler answers
 * with success or failure; the messages are not modelled.
 */
module InitRoute {
  import opened Types
  import opened Services
  import opened Layout
  import TableIds

  /** The store with every listed id removed, except where the removal was refused. */
  function Removed(m: map<string, Table>, ids: seq<string>, refused: set<string>): map<string, Table>
  {
    map k | k in m && !(k in ids && k !in refused) :: m[k]
  }

  /** One more removal on top of the earlier ones. */
  lemma RemovedStep(m: map<string, Table>, ids: seq<string>, i: nat, refused: set<string>)
    requires i < |ids|
    ensures Removed(m, ids[..i + 1], refused)
            == if ids[i] in refused then Removed(m, ids[..i], refused) else Removed(m, ids[..i], refused) - {ids[i]}
  {
    assert ids[..i + 1] == ids[..i] + [ids[i]];
  }

  /** Removing a listing of every stored id leaves exactly the refused records. */
  lemma RemovedCovering(m: map<string, Table>, ids: seq<string>, refused: set<string>)
    requires forall k :: k in m ==> k in ids
    ensures Removed(m, ids, refused) == Kept(m, refused)
  {
  }

  /** The records whose removal is refused: exactly the stored ones under a refused id. */
  function Kept(m: map<string, Table>, refused: set<string>): (r: map<string, Table>)
    ensures r.Keys == m.Keys * refused
    ensures forall k :: k in r ==> r[k] == m[k]
  {
    map k | k in m && k in refused :: m[k]
  }

  /** Every removal of a listing of exactly the stored ids succeeds iff no stored id is refused. */
  lemma DeleteSucceeds(m: map<string, Table>, ids: seq<string>, refused: set<string>)
    requires forall k :: k in m ==> k in ids
    requires forall i :: 0 <= i < |ids| ==> ids[i] in m
    ensures (forall i :: 0 <= i < |ids| ==> ids[i] !in refused) <==> m.Keys !! refused
  {
    if forall i :: 0 <= i < |ids| ==> ids[i] !in refused {
      forall k | k in m ensures k !in refused {
        var j :| 0 <= j < |ids| && ids[j] == k;
      }
    }
  }

  /**
   * `POST`: build the 384 available tables row by row and write each whole
   * record (all writes are issued together); succeed when every write does.
   * The answer's count is the number of tables built.
   */
  method Post(svc: Services, refused: set<string>) returns (ok: bool, count: nat)
    requires svc.Valid()
    modifies svc
    ensures svc.Valid() && svc.reservations == old(svc.reservations)
    ensures count == CellCount
    ensures svc.tables == Put(old(svc.tables), Cells(Available), refused)
    ensures ok <==> forall i :: 0 <= i < CellCount ==> Cells(Available)[i].id !in refused
  {
    var tables := BuildCells(Available);
    ok := WriteEach(svc, tables, refused);
    count := |tables|;
  }

  /**
   * A successful POST leaves the cell in column x, row y stored as exactly
   * `{id: "{x}-{y}", x, y, status: available}`: the whole record is
   * replaced, so any earlier reservationId is gone. Ids outside the grid
   * keep their records.
   */
  lemma PostStoresGrid(m: map<string, Table>, refused: set<string>, x: nat, y: nat, k: string)
    requires forall i :: 0 <= i < CellCount ==> Cells(Available)[i].id !in refused
    requires x < Width && y < Height
    ensures var id := TableIds.TableId(x, y);
            id in Put(m, Cells(Available), refused)
            && Put(m, Cells(Available), refused)[id] == Table(id, x, y, Available, Absent)
    ensures k in m && (forall i :: 0 <= i < CellCount ==> Cells(Available)[i].id != k) ==>
              k in Put(m, Cells(Available), refused) && Put(m, Cells(Available), refused)[k] == m[k]
  {
    var ts := Cells(Available);
    CellsPlacement(Available, x, y);
    CellsIdsDistinct(Available);
    var t := ts[y * Width + x];
    PutWritten(m, ts, refused, t);
    if k in m && (forall i :: 0 <= i < CellCount ==> ts[i].id != k) {
      PutUntouched(m, ts, refused, k);
    }
  }

  /**
   * `DELETE`: list the stored tables, issue one removal per record and
   * count them; succeed when every removal does. The count is the number
   * of tables that were stored.
   */
  method Delete(svc: Services, refused: set<string>) returns (ok: bool, count: nat)
    requires svc.Valid()
    modifies svc
    ensures svc.Valid() && svc.reservations == old(svc.reservations)
    ensures count == |old(svc.tables)|
    ensures ok <==> old(svc.tables).Keys !! refused
    ensures svc.tables == Kept(old(svc.tables), refused)
    ensures ok ==> svc.tables == map[]
  {
    var existing := svc.GetTables();
    ghost var m := svc.tables;
    SnapshotCoversStore(m, existing);
    ok, count := RemoveEach(svc, existing, refused);
    RemovedCovering(m, IdsOf(existing), refused);
    DeleteSucceeds(m, IdsOf(existing), refused);
    if ok {
      assert svc.tables.Keys == {};
    }
  }

  /** The `forEach` of `DELETE`: one removal per listed record, counted. */
  method RemoveEach(svc: Services, existing: seq<Table>, refused: set<string>) returns (ok: bool, count: nat)
    requires svc.Valid()
    modifies svc
    ensures svc.Valid() && svc.reservations == old(svc.reservations)
    ensures svc.tables == Removed(old(svc.tables), IdsOf(existing), refused)
    ensures ok <==> forall j :: 0 <= j < |existing| ==> IdsOf(existing)[j] !in refused
    ensures count == |existing|
  {
    ghost var ids := IdsOf(existing);
    ok := true;
    count := 0;
    for i := 0 to |existing|
      invariant svc.Valid() && svc.reservations == old(svc.reservations)
      invariant svc.tables == Removed(old(svc.tables), ids[..i], refused)
      invariant ok <==> forall j :: 0 <= j < i ==> ids[j] !in refused
      invariant count == i
    {
      RemovedStep(old(svc.tables), ids, i, refused);
      var removed := svc.DeleteTable(existing[i].id, refused);
      ok := ok && removed;
      count := count + 1;
    }
    assert ids[..|existing|] == ids;
  }

  /** The record `PATCH` writes. */
  function ZeroEight(): Table
  {
    Table("0-8", 0, 8, Available, Absent)
  }

  /** The record `PATCH` writes is the available cell of column 0, row 8 as a full build would make it. */
  lemma ZeroEightIsGridCell()
    ensures ZeroEight() == CellTable(0, 8, Available)
    ensures ZeroEight() == Cells(Available)[8 * Width + 0]
  {
    TableIds.TableIdZeroEight();
    CellsPlacement(Available, 0, 8);
  }

  /** `PATCH`: overwrite record "0-8" with `{id: "0-8", x: 0, y: 8, status: available}`; other tables are untouched. */
  method Patch(svc: Services, refused: set<string>) returns (ok: bool)
    requires svc.Valid()
    modifies svc
    ensures svc.Valid() && svc.reservations == old(svc.reservations)
    ensures ok <==> "0-8" !in refused
    ensures svc.tables == if ok then old(svc.tables)["0-8" := ZeroEight()] else old(svc.tables)
  {
    ok := svc.AddTable(ZeroEight(), refused);
  }

  /** `GET`: the data of every stored table, each once; the store is not touched. */
  method Get(svc: Services) returns (ts: seq<Table>)
    requires svc.Valid()
    ensures |ts| == |svc.tables|
    ensures forall i :: 0 <= i < |ts| ==> ts[i].id in svc.tables && svc.tables[ts[i].id] == ts[i]
    ensures forall k :: k in svc.tables ==> exists i :: 0 <= i < |ts| && ts[i].id == k
  {
    ts := svc.GetTables();
  }
}
