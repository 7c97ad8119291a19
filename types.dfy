/**
 * Record shapes and status enumerations of the table-reservation board:
 * a table is one cell of the 24 x 16 market grid, a reservation is a
 * visitor's request to occupy one or more tables.
 */
module Types {

  datatype Option<T> = None | Some(value: T)

  /** The six statuses a table record may carry. */
  datatype TableStatus = Available | Reserved | Permanent | Entrance | Pending | Blocked

  /** The three statuses of a reservation request. */
  datatype ReservationStatus = Pending | Approved | Rejected

  /**
   * The optional, nullable `reservationId` field of a table: not there at
   * all, there with the value null, or there with a reservation id.
   */
  datatype ReservationLink = Absent | Null | Linked(id: string)

  /** A stored table record `{id, x, y, status, reservationId?}`. */
  datatype Table = Table(id: string, x: nat, y: nat, status: TableStatus, reservationId: ReservationLink)

  /** A stored reservation; the two timestamps are milliseconds. */
  datatype Reservation = Reservation(
    id: string,
    tableIds: seq<string>,
    firstName: string,
    lastName: string,
    phone: string,
    email: string,
    status: ReservationStatus,
    createdAt: nat,
    updatedAt: nat)

  /** A reservation before the service gives it an id and timestamps. */
  datatype ReservationDraft = ReservationDraft(
    tableIds: seq<string>,
    firstName: string,
    lastName: string,
    phone: string,
    email: string,
    status: ReservationStatus)

  /** The contact data the booking form submits. */
  datatype Contact = Contact(firstName: string, lastName: string, phone: string, email: string)

  /**
   * The `reservationId` part of a partial table update: the key is missing,
   * present with `undefined`, present with `null`, or present with an id.
   */
  datatype LinkPatch = KeepLink | UndefinedLink | NullLink | SetLink(id: string)

  /** A partial table update, in the two fields its callers ever send. */
  datatype TablePatch = TablePatch(status: Option<TableStatus>, reservationId: LinkPatch)

  /**
   * A partial reservation update. `updatedAt` has no slot: the service
   * overwrites it after merging, so a value given for it never survives.
   */
  datatype ReservationPatch = ReservationPatch(
    id: Option<string>,
    tableIds: Option<seq<string>>,
    firstName: Option<string>,
    lastName: Option<string>,
    phone: Option<string>,
    email: Option<string>,
    status: Option<ReservationStatus>,
    createdAt: Option<nat>)

  /** A patch that only sets the status of a reservation. */
  function StatusPatch(s: ReservationStatus): ReservationPatch
  {
    ReservationPatch(None, None, None, None, None, None, Some(s), None)
  }

  /** The status text a reservation shows (`Status: pending` and so on). */
  function StatusName(s: ReservationStatus): (r: string)
    ensures r in {"pending", "approved", "rejected"}
  {
    match s
    case Pending => "pending"
    case Approved => "approved"
    case Rejected => "rejected"
  }

  /** A table status is one of exactly six values. */
  lemma TableStatusCases(s: TableStatus)
    ensures s == Available || s == Reserved || s == Permanent || s == Entrance
         || s == TableStatus.Pending || s == Blocked
  {
  }

  /** A reservation status is one of exactly three values. */
  lemma ReservationStatusCases(s: ReservationStatus)
    ensures s == ReservationStatus.Pending || s == Approved || s == Rejected
  {
  }

  /** Absent, null and an id are three distinct states of `reservationId`. */
  lemma ReservationLinkStates(l: ReservationLink)
    ensures l.Absent? || l.Null? || l.Linked?
    ensures Absent != Null && (forall s :: Linked(s) != Absent && Linked(s) != Null)
  {
  }

  /** Status names are pairwise distinct, so the shown text determines the status. */
  lemma StatusNameInjective(a: ReservationStatus, b: ReservationStatus)
    ensures StatusName(a) == StatusName(b) ==> a == b
  {
  }
}
