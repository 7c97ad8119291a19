/**
 * Notification e-mails as abstract events. The templates and the delivery
 * route are not part of this model: a notification records its kind, its
 * recipient, the greeting's names, the approval flag and the table count
 * the templates print.
 */
module Notify {
  import opened Types

  datatype Notification =
    | Confirmation(to: string, firstName: string, lastName: string, tableCount: nat)
    | Decision(to: string, firstName: string, lastName: string, approved: bool, tableCount: nat)
    | Cancellation(to: string, firstName: string, lastName: string, tableCount: nat)

  /** The approval or rejection notice about a reservation. */
  function DecisionFor(r: Reservation, approved: bool): (n: Notification)
    ensures n.Decision? && n.to == r.email && n.approved == approved && n.tableCount == |r.tableIds|
  {
    Decision(r.email, r.firstName, r.lastName, approved, |r.tableIds|)
  }

  /** The cancellation notice about a reservation. */
  function CancellationFor(r: Reservation): (n: Notification)
    ensures n.Cancellation? && n.to == r.email && n.tableCount == |r.tableIds|
  {
    Cancellation(r.email, r.firstName, r.lastName, |r.tableIds|)
  }

  /** The e-mail endpoint, seen from the client: the notifications it has received, in order. */
  class Outbox {
    var sent: seq<Notification>

    constructor ()
      ensures sent == []
    {
      sent := [];
    }

    /**
     * One request to the e-mail endpoint. `reached` says whether the
     * request's promise resolved; a rejected one throws into the caller and
     * counts as not received.
     */
    method Send(n: Notification, reached: bool) returns (ok: bool)
      modifies this
      ensures ok == reached
      ensures sent == old(sent) + (if reached then [n] else [])
    {
      ok := reached;
      if reached {
        sent := sent + [n];
      }
    }
  }
}
