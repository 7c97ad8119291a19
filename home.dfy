/**
 * The public booking page: the visitor's table selection, the booking form,
 * and the submit sequence (create the reservation, stamp its tables again,
 * send the confirmation).
 */
module Home {
  import opened Types
  import opened Services
  import opened Notify
  import TableIds

  /** A toast message shown to the visitor. */
  datatype Toast = ErrorToast(message: string) | SuccessToast(message: string)

  const EmptySelectionMessage := "Vyberte alespoň jeden stůl"
  const SuccessMessage := "Rezervace byla úspěšně odeslána!"
  const FailureMessage := "Došlo k chybě při vytváření rezervace"

  /** The draft a submit creates: the selected tables, the form's contact data, status pending. */
  function DraftFor(selected: seq<string>, data: Contact): (d: ReservationDraft)
    ensures d.tableIds == selected && d.status == ReservationStatus.Pending
    ensures d.firstName == data.firstName && d.lastName == data.lastName
    ensures d.phone == data.phone && d.email == data.email
  {
    ReservationDraft(selected, data.firstName, data.lastName, data.phone, data.email, ReservationStatus.Pending)
  }

  /** The confirmation sent after a booking: to the submitted address, counting the selected tables. */
  function ConfirmationFor(selected: seq<string>, data: Contact): (n: Notification)
    ensures n.Confirmation? && n.to == data.email && n.tableCount == |selected|
  {
    Confirmation(data.email, data.firstName, data.lastName, |selected|)
  }

  /**
   * The page's follow-up batch repeats the stamp `createReservation` already
   * committed: it finds the same documents the first batch found (so it
   * fails only where the store now refuses a write), and when it commits it
   * changes nothing more.
   */
  lemma FollowUpStampIsIdle(m: map<string, Table>, ids: seq<string>, id: string, refused: set<string>)
    ensures Writable(PatchAll(m, ids, StampPatch(id)), ids, refused) <==> Writable(m, ids, refused)
    ensures PatchAll(PatchAll(m, ids, StampPatch(id)), ids, StampPatch(id)) == PatchAll(m, ids, StampPatch(id))
  {
    PatchAllIdempotent(m, ids, StampPatch(id));
    forall i | 0 <= i < |ids|
      ensures ids[i] in PatchAll(m, ids, StampPatch(id)) <==> ids[i] in m
    {
      PatchAllFrame(m, ids, StampPatch(id), ids[i]);
    }
  }

  class HomePage {
    var selectedTables: seq<string>
    var showForm: bool
    var loading: bool

    constructor ()
      ensures selectedTables == [] && !showForm && !loading
    {
      selectedTables := [];
      showForm := false;
      loading := false;
    }

    /** `handleTableSelect`: the grid reports the new selection. */
    method TableSelect(tableIds: seq<string>)
      modifies this`selectedTables
      ensures selectedTables == tableIds
    {
      selectedTables := tableIds;
    }

    /**
     * `handleFormSubmit`. An empty selection only shows an error. Otherwise:
     * create a pending reservation for the selected tables and the form's
     * data, stamp the selected tables a second time, send one confirmation
     * to the submitted address; on success clear the selection and close the
     * form, on any failure keep both and show an error. `refused` is what
     * the store refuses during the first batch, `refusedAgain` during the
     * second.
     */
    method FormSubmit(svc: Services, mail: Outbox, data: Contact, now: nat,
                      refused: set<string>, refusedAgain: set<string>, reached: bool)
      returns (toast: Toast)
      requires svc.Valid()
      modifies this, svc, mail
      ensures svc.Valid()
      ensures |old(selectedTables)| == 0 ==>
                toast == ErrorToast(EmptySelectionMessage)
                && svc.tables == old(svc.tables) && svc.reservations == old(svc.reservations)
                && mail.sent == old(mail.sent)
                && selectedTables == old(selectedTables) && showForm == old(showForm) && loading == old(loading)
      ensures |old(selectedTables)| > 0 ==>
                var sel := old(selectedTables);
                var id := TableIds.Decimal(now);
                var written := Writable(old(svc.tables), sel, refused);
                var stamped := written && Writable(old(svc.tables), sel, refusedAgain);
                var done := stamped && reached;
                && svc.reservations == old(svc.reservations) + [NewReservation(DraftFor(sel, data), now)]
                && svc.tables == (if written then PatchAll(old(svc.tables), sel, StampPatch(id)) else old(svc.tables))
                && mail.sent == old(mail.sent) + (if done then [ConfirmationFor(sel, data)] else [])
                && toast == (if done then SuccessToast(SuccessMessage) else ErrorToast(FailureMessage))
                && selectedTables == (if done then [] else sel)
                && showForm == (if done then false else old(showForm))
                && !loading
    {
      if |selectedTables| == 0 {
        toast := ErrorToast(EmptySelectionMessage);
        return;
      }
      loading := true;
      ghost var before := svc.tables;
      var id, created := svc.CreateReservation(DraftFor(selectedTables, data), now, refused);
      var done := false;
      if created {
        FollowUpStampIsIdle(before, selectedTables, id, refusedAgain);
        var stamped := svc.UpdateTables(selectedTables, StampPatch(id), refusedAgain);
        if stamped {
          var sent := mail.Send(ConfirmationFor(selectedTables, data), reached);
          done := sent;
        }
      }
      if done {
        toast := SuccessToast(SuccessMessage);
        selectedTables := [];
        showForm := false;
      } else {
        toast := ErrorToast(FailureMessage);
      }
      loading := false;
    }

    /** `handleFormCancel`: close the form and clear the selection. */
    method FormCancel()
      modifies this`showForm, this`selectedTables
      ensures !showForm && selectedTables == []
    {
      showForm := false;
      selectedTables := [];
    }

    /** `handleClearSelection`: clear the selection; the form stays as it is. */
    method ClearSelection()
      modifies this`selectedTables
      ensures selectedTables == []
    {
      selectedTables := [];
    }
  }
}
