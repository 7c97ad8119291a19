/**
 * The administration dashboard: its handlers chain awaited service calls
 * and notifications; the first step that fails skips every later step
 * (the rest of the `try` block) without undoing the earlier ones, and the
 * `finally` block always clears the busy marker.
 */
module Admin {
  import opened Types
  import opened Services
  import opened ReservationOrder
  import opened Notify
  import Grid

  /** The `processing` marker: nothing, or the key of the action under way. */
  datatype Busy = Idle | BusyWith(key: string)

  /** The buttons a reservation card can show. */
  datatype Action = ApproveAction | RejectAction | DeleteAction

  /** The buttons of a reservation card: approve and reject only while it is pending, delete always. */
  function Actions(r: Reservation): (acts: seq<Action>)
    ensures ApproveAction in acts <==> r.status == ReservationStatus.Pending
    ensures RejectAction in acts <==> r.status == ReservationStatus.Pending
    ensures DeleteAction in acts
  {
    if r.status == ReservationStatus.Pending then [ApproveAction, RejectAction, DeleteAction] else [DeleteAction]
  }

  /** A card's buttons are disabled while an action on that same reservation is under way. */
  predicate ActionsEnabled(r: Reservation, processing: Busy)
  {
    processing != BusyWith(r.id)
  }

  /** The busy marker of one reservation never disables the buttons of a reservation with another id. */
  lemma OtherCardsStayEnabled(r: Reservation, s: Reservation)
    requires r.id != s.id
    ensures !ActionsEnabled(r, BusyWith(r.id)) && ActionsEnabled(s, BusyWith(r.id))
  {
  }

  /** `getStatusColor`: the badge class of a status text; an unknown text gets grey. */
  function StatusColor(status: string): string
  {
    if status == "pending" then "bg-yellow-100 text-yellow-800"
    else if status == "approved" then "bg-green-100 text-green-800"
    else if status == "rejected" then "bg-red-100 text-red-800"
    else "bg-gray-100 text-gray-800"
  }

  /** The three statuses get three different badge colours, none of them the grey fallback. */
  lemma StatusColorsDistinct(a: ReservationStatus, b: ReservationStatus)
    ensures StatusColor(StatusName(a)) == StatusColor(StatusName(b)) <==> a == b
    ensures StatusColor(StatusName(a)) != "bg-gray-100 text-gray-800"
  {
  }

  /** The notice `handleDelete` sends first: a cancellation, only for an approved reservation it knows. */
  function DeleteNotice(rs: seq<Reservation>, id: string): (n: Option<Notification>)
    ensures n.Some? <==> exists j :: 0 <= j < |rs| && rs[j].id == id && FindById(rs, id).value.status == Approved
    ensures n.Some? ==> FindById(rs, id).Some? && n.value == CancellationFor(FindById(rs, id).value)
  {
    match FindById(rs, id)
    case Some(r) => if r.status == Approved then Some(CancellationFor(r)) else None
    case None => None
  }

  class AdminDashboard {
    /** The dashboard's own copy of the reservation list, as last loaded. */
    var reservations: seq<Reservation>
    var processing: Busy
    var reservationDetail: Option<Reservation>

    constructor ()
      ensures reservations == [] && processing == Idle && reservationDetail == None
    {
      reservations := [];
      processing := Idle;
      reservationDetail := None;
    }

    /** `loadReservations`: ask the service for its list (which sorts it) and keep a copy. */
    method Load(svc: Services)
      modifies this`reservations, svc
      ensures reservations == svc.reservations == NewestFirst(old(svc.reservations))
      ensures svc.tables == old(svc.tables)
    {
      reservations := svc.GetReservations();
    }

    /**
     * `handleApprove`: the reservation becomes approved, then its tables
     * become reserved and linked to it in one batch, then one approval
     * notice goes out, then the list is reloaded.
     */
    method Approve(svc: Services, mail: Outbox, r: Reservation, now: nat, refused: set<string>, reached: bool)
      requires svc.Valid()
      modifies this`reservations, this`processing, svc, mail
      ensures svc.Valid()
      ensures var updated := UpdatedList(old(svc.reservations), r.id, StatusPatch(Approved), now);
              var written := Writable(old(svc.tables), r.tableIds, refused);
              && svc.tables == (if written then PatchAll(old(svc.tables), r.tableIds, ApprovePatch(r.id)) else old(svc.tables))
              && mail.sent == old(mail.sent) + (if written && reached then [DecisionFor(r, true)] else [])
              && svc.reservations == (if written && reached then NewestFirst(updated) else updated)
              && reservations == (if written && reached then svc.reservations else old(reservations))
      ensures processing == Idle
    {
      processing := BusyWith(r.id);
      svc.UpdateReservation(r.id, StatusPatch(Approved), now);
      var written := svc.UpdateTables(r.tableIds, ApprovePatch(r.id), refused);
      if written {
        var sent := mail.Send(DecisionFor(r, true), reached);
        if sent {
          Load(svc);
        }
      }
      processing := Idle;
    }

    /**
     * `handleReject`: the reservation becomes rejected, then its tables
     * become blocked in one batch whose reservationId is `undefined`, then
     * one rejection notice goes out, then the list is reloaded.
     */
    method Reject(svc: Services, mail: Outbox, r: Reservation, now: nat, refused: set<string>, reached: bool)
      requires svc.Valid()
      modifies this`reservations, this`processing, svc, mail
      ensures svc.Valid()
      ensures var updated := UpdatedList(old(svc.reservations), r.id, StatusPatch(Rejected), now);
              var written := Writable(old(svc.tables), r.tableIds, refused)
                             && (|r.tableIds| == 0 || svc.onUndefined == FieldIgnored);
              && svc.tables == (if written then PatchAll(old(svc.tables), r.tableIds, RejectPatch()) else old(svc.tables))
              && mail.sent == old(mail.sent) + (if written && reached then [DecisionFor(r, false)] else [])
              && svc.reservations == (if written && reached then NewestFirst(updated) else updated)
              && reservations == (if written && reached then svc.reservations else old(reservations))
      ensures processing == Idle
    {
      processing := BusyWith(r.id);
      svc.UpdateReservation(r.id, StatusPatch(Rejected), now);
      var written := svc.UpdateTables(r.tableIds, RejectPatch(), refused);
      if written {
        var sent := mail.Send(DecisionFor(r, false), reached);
        if sent {
          Load(svc);
        }
      }
      processing := Idle;
    }

    /**
     * `handleDelete`: after a confirmed prompt, a cancellation notice for an
     * approved reservation goes out first, then the service deletes the
     * reservation, then the list is reloaded. A declined prompt does nothing.
     */
    method Delete(svc: Services, mail: Outbox, id: string, confirmed: bool, reached: bool, refused: set<string>)
      requires svc.Valid()
      modifies this`reservations, this`processing, svc, mail
      ensures svc.Valid()
      ensures !confirmed ==>
                svc.tables == old(svc.tables) && svc.reservations == old(svc.reservations)
                && mail.sent == old(mail.sent) && reservations == old(reservations) && processing == old(processing)
      ensures confirmed ==>
                var notice := DeleteNotice(old(reservations), id);
                var proceeds := notice.None? || reached;
                var ids := ReleasedIds(old(svc.reservations), id);
                var k := FirstUnwritable(old(svc.tables), ids, refused);
                var deleted := proceeds && k == |ids|;
                && mail.sent == old(mail.sent) + (if notice.Some? && reached then [notice.value] else [])
                && svc.tables == (if proceeds then PatchAll(old(svc.tables), ids[..k], ReleasePatch()) else old(svc.tables))
                && svc.reservations == (if deleted then NewestFirst(WithoutId(old(svc.reservations), id)) else old(svc.reservations))
                && reservations == (if deleted then svc.reservations else old(reservations))
                && processing == Idle
    {
      if !confirmed {
        assert PatchAll(svc.tables, [], ReleasePatch()) == svc.tables;
        return;
      }
      processing := BusyWith(id);
      var found := FindById(reservations, id);
      if found.Some? && found.value.status == Approved {
        var sent := mail.Send(CancellationFor(found.value), reached);
        if !sent {
          processing := Idle;
          return;
        }
      }
      var deleted := svc.DeleteReservation(id, refused);
      if deleted {
        Load(svc);
      }
      processing := Idle;
    }

    /**
     * `handleDeleteAll`: after a confirmed prompt the service frees every
     * listed table and empties its list, then the list is reloaded. No
     * notification is ever sent.
     */
    method DeleteAll(svc: Services, mail: Outbox, confirmed: bool, refused: set<string>)
      requires svc.Valid()
      modifies this`reservations, this`processing, svc
      ensures svc.Valid()
      ensures mail.sent == old(mail.sent)
      ensures !confirmed ==>
                svc.tables == old(svc.tables) && svc.reservations == old(svc.reservations)
                && reservations == old(reservations) && processing == old(processing)
      ensures confirmed ==>
                var ids := AllTableIds(old(svc.reservations));
                var k := FirstUnwritable(old(svc.tables), ids, refused);
                && svc.tables == PatchAll(old(svc.tables), ids[..k], ReleasePatch())
                && (k == |ids| ==> svc.reservations == [] && reservations == [])
                && (k < |ids| ==> svc.reservations == old(svc.reservations) && reservations == old(reservations))
                && processing == Idle
    {
      if !confirmed {
        return;
      }
      processing := BusyWith("all");
      var ok := svc.DeleteAllReservations(refused);
      if ok {
        Load(svc);
      }
      processing := Idle;
    }

    /** `handleEditTable`: patch the status of that one table, then reload; a failure is swallowed. */
    method EditTable(svc: Services, table: Table, refused: set<string>)
      requires svc.Valid()
      modifies this`reservations, svc
      ensures svc.Valid()
      ensures var written := table.id in old(svc.tables) && table.id !in refused;
              && svc.tables == (if written then old(svc.tables)[table.id := old(svc.tables)[table.id].(status := table.status)]
                                else old(svc.tables))
              && svc.reservations == (if written then NewestFirst(old(svc.reservations)) else old(svc.reservations))
              && reservations == (if written then svc.reservations else old(reservations))
    {
      var ok := svc.UpdateTable(table.id, StatusOnlyPatch(table.status), refused);
      if ok {
        Load(svc);
      }
    }

    /** `handleResetTables`: after a confirmed prompt, block every table and remove every link, then reload. */
    method ResetTables(svc: Services, confirmed: bool, refused: set<string>)
      requires svc.Valid()
      modifies this`reservations, this`processing, svc
      ensures svc.Valid()
      ensures !confirmed ==>
                svc.tables == old(svc.tables) && svc.reservations == old(svc.reservations)
                && reservations == old(reservations) && processing == old(processing)
      ensures confirmed ==>
                var reset := old(svc.tables).Keys !! refused;
                && svc.tables == (if reset then map k | k in old(svc.tables) :: Patched(old(svc.tables)[k], ResetPatch())
                                  else old(svc.tables))
                && svc.reservations == (if reset then NewestFirst(old(svc.reservations)) else old(svc.reservations))
                && reservations == (if reset then svc.reservations else old(reservations))
                && processing == Idle
    {
      if !confirmed {
        return;
      }
      processing := BusyWith("reset");
      var ok := svc.ResetTables(refused);
      if ok {
        Load(svc);
      }
      processing := Idle;
    }

    /** `handleTableReservationClick`: show the first reservation listing the table; keep the detail if there is none. */
    method TableReservationClick(tableId: string)
      modifies this`reservationDetail
      ensures var found := Grid.FirstListing(reservations, tableId);
              reservationDetail == if found.Some? then found else old(reservationDetail)
    {
      var found := Grid.FirstListing(reservations, tableId);
      if found.Some? {
        reservationDetail := found;
      }
    }
  }

  /** Approving stamps each listed table: reserved and linked to the reservation; every other table is untouched. */
  lemma ApproveReservesTables(m: map<string, Table>, ids: seq<string>, id: string, k: string)
    requires k in m
    ensures k in ids ==> PatchAll(m, ids, ApprovePatch(id))[k] == m[k].(status := Reserved, reservationId := Linked(id))
    ensures k !in ids ==> PatchAll(m, ids, ApprovePatch(id))[k] == m[k]
  {
  }

  /**
   * Rejecting blocks each listed table and never removes its reservationId:
   * the `undefined` value is not the `null` that means removal.
   */
  lemma RejectKeepsLinks(m: map<string, Table>, ids: seq<string>, k: string)
    requires k in m
    ensures k in ids ==> PatchAll(m, ids, RejectPatch())[k] == m[k].(status := Blocked)
    ensures PatchAll(m, ids, RejectPatch())[k].reservationId == m[k].reservationId
  {
  }
}
