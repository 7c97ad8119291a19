/**
 * The table grid component's state and handlers: the two editor selection
 * lists (existing tables by id, empty cells by coordinates), the drag
 * rectangle, the bulk status change and bulk creation, and the single-table
 * dialogs. The props `editorMode` and `isAdmin` are fixed for an instance.
 */
module Editor {
  import opened Types
  import opened Services
  import opened Grid
  import opened Layout
  import TableIds
  import Admin
  import opened ReservationOrder

  /** The tables a bulk creation makes: one per selected cell, named "{x}-{y}", of the chosen status. */
  function NewTables(cs: seq<Coord>, status: TableStatus): (ts: seq<Table>)
    ensures |ts| == |cs|
    ensures forall i :: 0 <= i < |cs| ==> ts[i] == CellTable(cs[i].x, cs[i].y, status)
  {
    seq(|cs|, i requires 0 <= i < |cs| => CellTable(cs[i].x, cs[i].y, status))
  }

  /**
   * After a bulk creation, every selected cell whose write was accepted
   * holds its new table, read back exactly; every id no selected cell names
   * keeps its record.
   */
  lemma BulkAddReadsBack(m: map<string, Table>, cs: seq<Coord>, status: TableStatus, refused: set<string>)
    ensures forall c :: c in cs && TableIds.TableId(c.x, c.y) !in refused ==>
              var id := TableIds.TableId(c.x, c.y);
              id in Put(m, NewTables(cs, status), refused)
              && Put(m, NewTables(cs, status), refused)[id] == Table(id, c.x, c.y, status, Absent)
    ensures forall k :: k in m && (forall c :: c in cs ==> TableIds.TableId(c.x, c.y) != k) ==>
              k in Put(m, NewTables(cs, status), refused) && Put(m, NewTables(cs, status), refused)[k] == m[k]
  {
    var ts := NewTables(cs, status);
    forall c | c in cs && TableIds.TableId(c.x, c.y) !in refused
      ensures var id := TableIds.TableId(c.x, c.y);
              id in Put(m, ts, refused) && Put(m, ts, refused)[id] == Table(id, c.x, c.y, status, Absent)
    {
      var t := CellTable(c.x, c.y, status);
      var i :| 0 <= i < |cs| && cs[i] == c;
      assert ts[i] == t;
      forall j | 0 <= j < |ts| && ts[j].id == t.id
        ensures ts[j] == t
      {
        TableIds.TableIdInjective(cs[j].x, cs[j].y, c.x, c.y);
      }
      PutWritten(m, ts, refused, t);
    }
    forall k | k in m && (forall c :: c in cs ==> TableIds.TableId(c.x, c.y) != k)
      ensures k in Put(m, ts, refused) && Put(m, ts, refused)[k] == m[k]
    {
      forall i | 0 <= i < |ts|
        ensures ts[i].id != k
      {
        assert cs[i] in cs;
      }
      PutUntouched(m, ts, refused, k);
    }
  }

  /** The component's own table list after a bulk status change: the listed ids get the status. */
  function WithStatus(ts: seq<Table>, ids: seq<string>, status: TableStatus): (out: seq<Table>)
    ensures |out| == |ts|
    ensures forall i :: 0 <= i < |ts| ==> out[i] == if ts[i].id in ids then ts[i].(status := status) else ts[i]
  {
    seq(|ts|, i requires 0 <= i < |ts| => if ts[i].id in ids then ts[i].(status := status) else ts[i])
  }

  /** The component's own table list after a single edit: every entry with that id is replaced. */
  function Replaced(ts: seq<Table>, t: Table): (out: seq<Table>)
    ensures |out| == |ts|
    ensures forall i :: 0 <= i < |ts| ==> out[i] == if ts[i].id == t.id then t else ts[i]
  {
    seq(|ts|, i requires 0 <= i < |ts| => if ts[i].id == t.id then t else ts[i])
  }

  /**
   * The bulk status change keeps the component's list in step with the
   * store: every local entry that matched its stored record before still
   * matches it after the batch.
   */
  lemma WithStatusMirrors(ts: seq<Table>, m: map<string, Table>, ids: seq<string>, status: TableStatus)
    ensures forall i :: 0 <= i < |ts| && ts[i].id in m && m[ts[i].id] == ts[i] ==>
              ts[i].id in PatchAll(m, ids, StatusOnlyPatch(status))
              && PatchAll(m, ids, StatusOnlyPatch(status))[ts[i].id] == WithStatus(ts, ids, status)[i]
  {
  }

  /**
   * The single edit keeps the component's list in step with the store when
   * the dialog's table matched its stored record: every local entry that
   * matched before still matches after the write.
   */
  lemma ReplacedMirrors(ts: seq<Table>, m: map<string, Table>, t: Table, status: TableStatus)
    requires t.id in m && m[t.id] == t
    ensures var after := m[t.id := m[t.id].(status := status)];
            forall i :: 0 <= i < |ts| && ts[i].id in m && m[ts[i].id] == ts[i] ==>
              ts[i].id in after && after[ts[i].id] == Replaced(ts, t.(status := status))[i]
  {
  }

  /** The inclusive rectangle between the drag anchor and the entered cell, as `Math.min`/`Math.max` give it. */
  function Min(a: nat, b: nat): nat { if a <= b then a else b }
  function Max(a: nat, b: nat): nat { if a <= b then b else a }

  class TableGrid {
    var tables: seq<Table>
    var reservations: seq<Reservation>
    var editDialog: Option<Table>
    var addDialog: Option<Coord>
    var editorSelected: seq<string>
    var emptySelected: seq<Coord>
    var dragSelecting: bool
    var dragStart: Option<Coord>
    var bulkDialog: bool
    var bulkAddDialog: bool
    const editorMode: bool
    const isAdmin: bool

    /** The component once its data has loaded: no selection, no drag, no dialog open. */
    constructor (editorMode: bool, isAdmin: bool, tables: seq<Table>, reservations: seq<Reservation>)
      ensures this.editorMode == editorMode && this.isAdmin == isAdmin
      ensures this.tables == tables && this.reservations == reservations
      ensures editDialog == None && addDialog == None && editorSelected == [] && emptySelected == []
      ensures !dragSelecting && dragStart == None && !bulkDialog && !bulkAddDialog
    {
      this.editorMode := editorMode;
      this.isAdmin := isAdmin;
      this.tables := tables;
      this.reservations := reservations;
      editDialog := None;
      addDialog := None;
      editorSelected := [];
      emptySelected := [];
      dragSelecting := false;
      dragStart := None;
      bulkDialog := false;
      bulkAddDialog := false;
    }

    /** `handleEditorTableClick`: toggle the table's id in the editor selection, in editor mode only. */
    method EditorTableClick(t: Table)
      modifies this`editorSelected
      ensures editorSelected == if editorMode then Toggle(old(editorSelected), t.id) else old(editorSelected)
      ensures editorMode ==> (t.id in editorSelected <==> t.id !in old(editorSelected))
    {
      if !editorMode {
        return;
      }
      ToggleMembership(editorSelected, t.id, t.id);
      editorSelected := Toggle(editorSelected, t.id);
    }

    /** `handleEmptyCellClick`: toggle the cell in the empty-cell selection, in editor mode only. */
    method EmptyCellClick(x: nat, y: nat)
      modifies this`emptySelected
      ensures emptySelected == if editorMode then Toggle(old(emptySelected), Coord(x, y)) else old(emptySelected)
      ensures editorMode ==> (Coord(x, y) in emptySelected <==> Coord(x, y) !in old(emptySelected))
    {
      if !editorMode {
        return;
      }
      ToggleMembership(emptySelected, Coord(x, y), Coord(x, y));
      emptySelected := Toggle(emptySelected, Coord(x, y));
    }

    /** `handleMouseDown`: start a drag at the cell; an empty cell becomes the only selected one. */
    method MouseDown(x: nat, y: nat, isEmpty: bool)
      modifies this`dragSelecting, this`dragStart, this`emptySelected, this`editorSelected
      ensures !editorMode ==> dragSelecting == old(dragSelecting) && dragStart == old(dragStart)
                              && emptySelected == old(emptySelected) && editorSelected == old(editorSelected)
      ensures editorMode ==> dragSelecting && dragStart == Some(Coord(x, y)) && editorSelected == []
                             && emptySelected == (if isEmpty then [Coord(x, y)] else [])
    {
      if !editorMode {
        return;
      }
      dragSelecting := true;
      dragStart := Some(Coord(x, y));
      if isEmpty {
        emptySelected := [Coord(x, y)];
        editorSelected := [];
      } else {
        editorSelected := [];
        emptySelected := [];
      }
    }

    /**
     * `handleMouseEnter`: during a drag, recompute the selection from
     * scratch over the inclusive rectangle between the anchor and this
     * cell. The entered cell's kind decides which list is filled; the other
     * list is cleared.
     */
    method MouseEnter(x: nat, y: nat, isEmpty: bool)
      modifies this`emptySelected, this`editorSelected
      ensures !(editorMode && dragSelecting && dragStart.Some?) ==>
                emptySelected == old(emptySelected) && editorSelected == old(editorSelected)
      ensures editorMode && dragSelecting && dragStart.Some? ==>
                var a := dragStart.value;
                var x1 := Min(a.x, x);
                var x2 := Max(a.x, x);
                var y1 := Min(a.y, y);
                var y2 := Max(a.y, y);
                && (isEmpty ==> emptySelected == RectCells(Occupied(tables), x1, x2, y1, y2 + 1, true) && editorSelected == [])
                && (!isEmpty ==> editorSelected == IdsAt(tables, RectCells(Occupied(tables), x1, x2, y1, y2 + 1, false))
                                 && emptySelected == [])
                && (emptySelected == [] || editorSelected == [])
    {
      if !editorMode || !dragSelecting || dragStart.None? {
        return;
      }
      var a := dragStart.value;
      var x1 := Min(a.x, x);
      var x2 := Max(a.x, x);
      var y1 := Min(a.y, y);
      var y2 := Max(a.y, y);
      if isEmpty {
        var selected := ScanEmpty(tables, x1, x2, y1, y2);
        emptySelected := selected;
        editorSelected := [];
      } else {
        var selected := ScanOccupied(tables, x1, x2, y1, y2);
        editorSelected := selected;
        emptySelected := [];
      }
    }

    /** `handleMouseUp`: end the drag; the selections stay as they are. */
    method MouseUp()
      modifies this`dragSelecting, this`dragStart
      ensures editorMode ==> !dragSelecting && dragStart == None
      ensures !editorMode ==> dragSelecting == old(dragSelecting) && dragStart == old(dragStart)
    {
      if !editorMode {
        return;
      }
      dragSelecting := false;
      dragStart := None;
    }

    /**
     * `handleBulkStatus`: one batch setting the status of exactly the
     * selected tables, then the same change in the component's list, then
     * the dialog closes and the selection is cleared. An empty selection
     * does nothing; a failed batch skips the rest.
     */
    method BulkStatus(svc: Services, status: TableStatus, refused: set<string>)
      requires svc.Valid()
      modifies this`tables, this`bulkDialog, this`editorSelected, svc
      ensures svc.Valid() && svc.reservations == old(svc.reservations)
      ensures var sel := old(editorSelected);
              var written := |sel| > 0 && Writable(old(svc.tables), sel, refused);
              && svc.tables == (if written then PatchAll(old(svc.tables), sel, StatusOnlyPatch(status)) else old(svc.tables))
              && tables == (if written then WithStatus(old(tables), sel, status) else old(tables))
              && editorSelected == (if written then [] else sel)
              && bulkDialog == (if written then false else old(bulkDialog))
    {
      if |editorSelected| == 0 {
        return;
      }
      var ok := svc.UpdateTables(editorSelected, StatusOnlyPatch(status), refused);
      if !ok {
        return;
      }
      tables := WithStatus(tables, editorSelected, status);
      bulkDialog := false;
      editorSelected := [];
    }

    /**
     * `handleBulkAdd`: write one new table per selected empty cell (all
     * writes are issued, as `Promise.all` starts them together), then, if
     * all of them succeeded, append them to the component's list, close the
     * dialog and clear the empty-cell selection.
     */
    method BulkAdd(svc: Services, status: TableStatus, refused: set<string>)
      requires svc.Valid()
      modifies this`tables, this`bulkAddDialog, this`emptySelected, svc
      ensures svc.Valid() && svc.reservations == old(svc.reservations)
      ensures var added := NewTables(old(emptySelected), status);
              var written := |added| > 0 && forall i :: 0 <= i < |added| ==> added[i].id !in refused;
              && svc.tables == Put(old(svc.tables), added, refused)
              && tables == (if written then old(tables) + added else old(tables))
              && emptySelected == (if written then [] else old(emptySelected))
              && bulkAddDialog == (if written then false else old(bulkAddDialog))
    {
      if |emptySelected| == 0 {
        return;
      }
      var added := NewTables(emptySelected, status);
      var ok := WriteEach(svc, added, refused);
      if !ok {
        return;
      }
      tables := tables + added;
      bulkAddDialog := false;
      emptySelected := [];
    }

    /**
     * `handleTableClick`: in editor mode open the edit dialog; otherwise
     * report the click's effect on the selection or the reservation detail.
     */
    method TableClick(t: Table, selectedTables: seq<string>) returns (effect: ClickEffect)
      modifies this`editDialog
      ensures effect == ClickOutcome(editorMode, isAdmin, t, reservations, selectedTables)
      ensures editDialog == if editorMode then Some(t) else old(editDialog)
    {
      effect := ClickOutcome(editorMode, isAdmin, t, reservations, selectedTables);
      if editorMode {
        editDialog := Some(t);
      }
    }

    /**
     * `handleEditStatus`: with an open dialog and an edit callback, hand the
     * dialog's table with the new status to the dashboard, then replace it
     * in the component's list (the dashboard swallows failures, so this
     * happens either way); the dialog closes in every case.
     */
    method EditStatus(svc: Services, dash: Admin.AdminDashboard?, status: TableStatus, refused: set<string>)
      requires svc.Valid()
      modifies this`tables, this`editDialog, svc, dash
      ensures svc.Valid()
      ensures editDialog == None
      ensures old(editDialog).Some? && dash != null ==>
                var t := old(editDialog).value;
                var written := t.id in old(svc.tables) && t.id !in refused;
                && svc.tables == (if written then old(svc.tables)[t.id := old(svc.tables)[t.id].(status := status)]
                                  else old(svc.tables))
                && svc.reservations == (if written then NewestFirst(old(svc.reservations)) else old(svc.reservations))
                && dash.reservations == (if written then svc.reservations else old(dash.reservations))
                && tables == Replaced(old(tables), t.(status := status))
      ensures !(old(editDialog).Some? && dash != null) ==>
                svc.tables == old(svc.tables) && svc.reservations == old(svc.reservations) && tables == old(tables)
                && (dash != null ==> dash.reservations == old(dash.reservations))
      ensures dash != null ==> dash.processing == old(dash.processing) && dash.reservationDetail == old(dash.reservationDetail)
    {
      if editDialog.Some? && dash != null {
        var updated := editDialog.value.(status := status);
        dash.EditTable(svc, updated, refused);
        tables := Replaced(tables, updated);
      }
      editDialog := None;
    }

    /** `handleAddTable`: write the new table "{x}-{y}" whole, then append it and close the dialog. */
    method AddTable(svc: Services, x: nat, y: nat, status: TableStatus, refused: set<string>)
      requires svc.Valid()
      modifies this`tables, this`addDialog, svc
      ensures svc.Valid() && svc.reservations == old(svc.reservations)
      ensures var t := CellTable(x, y, status);
              var written := t.id !in refused;
              && svc.tables == (if written then old(svc.tables)[t.id := t] else old(svc.tables))
              && tables == (if written then old(tables) + [t] else old(tables))
              && addDialog == (if written then None else old(addDialog))
    {
      var t := CellTable(x, y, status);
      var ok := svc.AddTable(t, refused);
      if ok {
        tables := tables + [t];
        addDialog := None;
      }
    }
  }
}
