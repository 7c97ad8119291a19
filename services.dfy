/**
 * The service layer: a document store holding one table record per id, and
 * the process-wide list of reservations. Every operation that can fail
 * reports it through its boolean result (a rejected promise in the source);
 * a failed operation keeps whatever it had already written.
 *
 * Store failures are an input: `refused` is the set of document ids whose
 * writes the store refuses. A partial update of a document that does not
 * exist is refused as well, and a batch commits all of its updates or none.
 */
module Services {
  import opened Types
  import opened ReservationOrder
  import TableIds

  /**
   * What the document store does with a field written as `undefined`:
   * drop it (the field keeps its value) or refuse the whole write. The
   * source does not configure this, so the model leaves it open.
   */
  datatype UndefinedEffect = FieldIgnored | WriteRefused

  // ---- Table patches ----------------------------------------------------

  /** The record a partial update leaves behind; a `null` reservationId deletes the field. */
  function Patched(t: Table, p: TablePatch): Table
  {
    t.(status := if p.status.Some? then p.status.value else t.status,
       reservationId :=
         match p.reservationId
         case KeepLink => t.reservationId
         case UndefinedLink => t.reservationId
         case NullLink => Absent
         case SetLink(id) => Linked(id))
  }

  /** Whether the store takes the patch at all. */
  predicate PatchAccepted(p: TablePatch, effect: UndefinedEffect)
  {
    !(p.reservationId.UndefinedLink? && effect == WriteRefused)
  }

  /** The whole table store after the same patch is applied to every listed id. */
  function PatchAll(m: map<string, Table>, ids: seq<string>, p: TablePatch): map<string, Table>
  {
    map k | k in m :: if k in ids then Patched(m[k], p) else m[k]
  }

  /** Every listed document exists and none of them is refused. */
  predicate Writable(m: map<string, Table>, ids: seq<string>, refused: set<string>)
  {
    forall i :: 0 <= i < |ids| ==> ids[i] in m && ids[i] !in refused
  }

  /** The position of the first listed id whose write fails, or |ids| if none does. */
  function FirstUnwritable(m: map<string, Table>, ids: seq<string>, refused: set<string>): (k: nat)
    ensures k <= |ids|
    ensures Writable(m, ids[..k], refused)
    ensures k < |ids| ==> ids[k] !in m || ids[k] in refused
  {
    if ids == [] then 0
    else if ids[0] !in m || ids[0] in refused then 0
    else
      var k := FirstUnwritable(m, ids[1..], refused);
      assert ids[..k + 1] == [ids[0]] + ids[1..][..k];
      k + 1
  }

  /** Reservations stamp their tables: still available, now linked to the reservation. */
  function StampPatch(reservationId: string): TablePatch
  {
    TablePatch(Some(Available), SetLink(reservationId))
  }

  /** Deleting a reservation frees its tables: available, reservationId removed. */
  function ReleasePatch(): TablePatch
  {
    TablePatch(Some(Available), NullLink)
  }

  /** Resetting the board blocks every table and removes every reservationId. */
  function ResetPatch(): TablePatch
  {
    TablePatch(Some(Blocked), NullLink)
  }

  /** Approving a reservation reserves its tables for it. */
  function ApprovePatch(reservationId: string): TablePatch
  {
    TablePatch(Some(Reserved), SetLink(reservationId))
  }

  /** Rejecting a reservation blocks its tables and writes reservationId as `undefined`. */
  function RejectPatch(): TablePatch
  {
    TablePatch(Some(Blocked), UndefinedLink)
  }

  /** A patch of the status field alone. */
  function StatusOnlyPatch(s: TableStatus): TablePatch
  {
    TablePatch(Some(s), KeepLink)
  }

  /** A `null` reservationId removes the field; any other value never does, unless it was already absent. */
  lemma NullPatchDeletes(t: Table, p: TablePatch)
    ensures p.reservationId.NullLink? ==> Patched(t, p).reservationId == Absent
    ensures p.reservationId.UndefinedLink? ==> Patched(t, p).reservationId == t.reservationId
    ensures p.reservationId.SetLink? ==> Patched(t, p).reservationId == Linked(p.reservationId.id)
    ensures p.reservationId.KeepLink? ==> Patched(t, p).reservationId == t.reservationId
  {
  }

  /** A patch never touches id and coordinates, and applying it twice equals applying it once. */
  lemma PatchedIdempotent(t: Table, p: TablePatch)
    ensures Patched(t, p).id == t.id && Patched(t, p).x == t.x && Patched(t, p).y == t.y
    ensures Patched(Patched(t, p), p) == Patched(t, p)
  {
  }

  /** Staging one more update of a batch, on top of the earlier ones, as the store applies it. */
  lemma PatchAllStep(m: map<string, Table>, ids: seq<string>, i: nat, p: TablePatch)
    requires i < |ids|
    ensures var before := PatchAll(m, ids[..i], p);
            PatchAll(m, ids[..i + 1], p)
            == if ids[i] in before then before[ids[i] := Patched(before[ids[i]], p)] else before
  {
    var before := PatchAll(m, ids[..i], p);
    var after := PatchAll(m, ids[..i + 1], p);
    assert ids[..i + 1] == ids[..i] + [ids[i]];
    var expected := if ids[i] in before then before[ids[i] := Patched(before[ids[i]], p)] else before;
    forall k | k in m
      ensures after[k] == expected[k]
    {
      if k == ids[i] && k in ids[..i] {
        PatchedIdempotent(m[k], p);
      }
    }
  }

  /** The same patch sent again to the same ids changes nothing more. */
  lemma PatchAllIdempotent(m: map<string, Table>, ids: seq<string>, p: TablePatch)
    ensures PatchAll(PatchAll(m, ids, p), ids, p) == PatchAll(m, ids, p)
  {
    var once := PatchAll(m, ids, p);
    forall k | k in m && k in ids
      ensures PatchAll(once, ids, p)[k] == once[k]
    {
      PatchedIdempotent(m[k], p);
    }
  }

  /** A batch patch keeps the ids, patches exactly the listed tables and leaves the rest as they were. */
  lemma PatchAllFrame(m: map<string, Table>, ids: seq<string>, p: TablePatch, k: string)
    ensures PatchAll(m, ids, p).Keys == m.Keys
    ensures k in m && k in ids ==> PatchAll(m, ids, p)[k] == Patched(m[k], p)
    ensures k in m && k !in ids ==> PatchAll(m, ids, p)[k] == m[k]
  {
  }

  // ---- Reservation list -------------------------------------------------

  /** The index of the first reservation with this id, as `findIndex` gives it. */
  function IndexOf(rs: seq<Reservation>, id: string): (r: Option<nat>)
    ensures r.Some? ==> r.value < |rs| && rs[r.value].id == id
                        && forall j :: 0 <= j < r.value ==> rs[j].id != id
    ensures r.None? ==> forall j :: 0 <= j < |rs| ==> rs[j].id != id
  {
    if rs == [] then None
    else if rs[0].id == id then Some(0)
    else
      match IndexOf(rs[1..], id)
      case None => None
      case Some(i) => Some(i + 1)
  }

  /** The first reservation with this id, as `find` gives it. */
  function FindById(rs: seq<Reservation>, id: string): (r: Option<Reservation>)
    ensures r.Some? <==> exists j :: 0 <= j < |rs| && rs[j].id == id
    ensures r.Some? ==> exists j :: 0 <= j < |rs| && rs[j] == r.value && rs[j].id == id
                                   && forall i :: 0 <= i < j ==> rs[i].id != id
  {
    match IndexOf(rs, id)
    case None => None
    case Some(i) => Some(rs[i])
  }

  /** A stored reservation with the given fields spread over it and `updatedAt` renewed. */
  function Merge(r: Reservation, p: ReservationPatch, now: nat): Reservation
  {
    Reservation(
      if p.id.Some? then p.id.value else r.id,
      if p.tableIds.Some? then p.tableIds.value else r.tableIds,
      if p.firstName.Some? then p.firstName.value else r.firstName,
      if p.lastName.Some? then p.lastName.value else r.lastName,
      if p.phone.Some? then p.phone.value else r.phone,
      if p.email.Some? then p.email.value else r.email,
      if p.status.Some? then p.status.value else r.status,
      if p.createdAt.Some? then p.createdAt.value else r.createdAt,
      now)
  }

  /** The list after `updateReservation(id, p)` at time `now`. */
  function UpdatedList(rs: seq<Reservation>, id: string, p: ReservationPatch, now: nat): seq<Reservation>
  {
    match IndexOf(rs, id)
    case None => rs
    case Some(i) => rs[i := Merge(rs[i], p, now)]
  }

  /**
   * An update changes nothing for an unknown id; for a known id it merges
   * the fields into the first match, renews its `updatedAt`, and keeps the
   * length and every other reservation.
   */
  lemma UpdatedListEffect(rs: seq<Reservation>, id: string, p: ReservationPatch, now: nat)
    ensures (forall j :: 0 <= j < |rs| ==> rs[j].id != id) ==> UpdatedList(rs, id, p, now) == rs
    ensures |UpdatedList(rs, id, p, now)| == |rs|
    ensures forall j :: 0 <= j < |rs| ==>
              UpdatedList(rs, id, p, now)[j]
              == if IndexOf(rs, id) == Some(j) then Merge(rs[j], p, now) else rs[j]
    ensures IndexOf(rs, id).Some? ==>
              var r := UpdatedList(rs, id, p, now)[IndexOf(rs, id).value];
              r.updatedAt == now && (p.status.Some? ==> r.status == p.status.value)
  {
  }

  /** The list with every reservation of this id filtered out. */
  function WithoutId(rs: seq<Reservation>, id: string): (out: seq<Reservation>)
    ensures |out| <= |rs|
    ensures forall r :: r in out <==> r in rs && r.id != id
    ensures forall r :: multiset(out)[r] == if r.id == id then 0 else multiset(rs)[r]
  {
    if rs == [] then []
    else
      var rest := WithoutId(rs[..|rs| - 1], id);
      assert rs == rs[..|rs| - 1] + [rs[|rs| - 1]];
      assert multiset(rs) == multiset(rs[..|rs| - 1]) + multiset{rs[|rs| - 1]};
      if rs[|rs| - 1].id == id then rest else rest + [rs[|rs| - 1]]
  }

  /** Filtering a concatenation filters each part, in order. */
  lemma {:induction false} WithoutIdConcat(a: seq<Reservation>, b: seq<Reservation>, id: string)
    ensures WithoutId(a + b, id) == WithoutId(a, id) + WithoutId(b, id)
  {
    if b == [] {
      assert a + b == a;
    } else {
      var front := b[..|b| - 1];
      var last := b[|b| - 1];
      var tail := if last.id == id then [] else [last];
      assert WithoutId(a + b, id) == WithoutId(a + front, id) + tail by {
        var ab := a + b;
        assert ab[..|ab| - 1] == a + front;
        assert ab[|ab| - 1] == last;
        WithoutIdLast(ab, id);
      }
      assert WithoutId(b, id) == WithoutId(front, id) + tail by {
        WithoutIdLast(b, id);
      }
      WithoutIdConcat(a, front, id);
    }
  }

  /** Unfolding the filter once at the end of the list. */
  lemma WithoutIdLast(rs: seq<Reservation>, id: string)
    requires rs != []
    ensures WithoutId(rs, id) == WithoutId(rs[..|rs| - 1], id) + (if rs[|rs| - 1].id == id then [] else [rs[|rs| - 1]])
  {
  }

  /** Filtering one reservation keeps it exactly when its id is another; with the concatenation law this fixes the result. */
  lemma WithoutIdOne(r: Reservation, id: string)
    ensures WithoutId([r], id) == if r.id == id then [] else [r]
  {
    assert [r][..0] == [];
  }

  /** Filtering out an id nobody has leaves the list as it was. */
  lemma {:induction false} WithoutAbsentId(rs: seq<Reservation>, id: string)
    requires forall j :: 0 <= j < |rs| ==> rs[j].id != id
    ensures WithoutId(rs, id) == rs
  {
    if rs != [] {
      WithoutAbsentId(rs[..|rs| - 1], id);
      assert rs == rs[..|rs| - 1] + [rs[|rs| - 1]];
    }
  }

  /** The tables that deleting this id releases: those of the first reservation with it. */
  function ReleasedIds(rs: seq<Reservation>, id: string): seq<string>
  {
    match FindById(rs, id)
    case None => []
    case Some(r) => r.tableIds
  }

  /** Every table id of every reservation, in list order. */
  function AllTableIds(rs: seq<Reservation>): (ids: seq<string>)
    ensures forall i, t :: 0 <= i < |rs| && t in rs[i].tableIds ==> t in ids
    ensures forall t :: t in ids ==> exists i :: 0 <= i < |rs| && t in rs[i].tableIds
  {
    if rs == [] then []
    else
      var flat := AllTableIds(rs[..|rs| - 1]);
      AllTableIdsStep(rs, rs[..|rs| - 1], flat, flat + rs[|rs| - 1].tableIds);
      flat + rs[|rs| - 1].tableIds
  }

  /** Appending the last reservation's ids to the flattening of the others flattens the whole list. */
  lemma AllTableIdsStep(rs: seq<Reservation>, front: seq<Reservation>, flat: seq<string>, ids: seq<string>)
    requires |rs| > 0 && front == rs[..|rs| - 1] && ids == flat + rs[|rs| - 1].tableIds
    requires forall i, t :: 0 <= i < |front| && t in front[i].tableIds ==> t in flat
    requires forall t :: t in flat ==> exists i :: 0 <= i < |front| && t in front[i].tableIds
    ensures forall i, t :: 0 <= i < |rs| && t in rs[i].tableIds ==> t in ids
    ensures forall t :: t in ids ==> exists i :: 0 <= i < |rs| && t in rs[i].tableIds
  {
    var last := |rs| - 1;
    forall i, t | 0 <= i < |rs| && t in rs[i].tableIds
      ensures t in ids
    {
      if i < last {
        assert front[i] == rs[i];
      }
    }
    forall t | t in ids
      ensures exists i :: 0 <= i < |rs| && t in rs[i].tableIds
    {
      if t in flat {
        var i :| 0 <= i < |front| && t in front[i].tableIds;
        assert front[i] == rs[i];
      } else {
        assert t in rs[last].tableIds;
      }
    }
  }

  /** The reservation `createReservation` adds for a draft at time `now`; its id is the time in decimal. */
  function NewReservation(d: ReservationDraft, now: nat): Reservation
  {
    Reservation(TableIds.Decimal(now), d.tableIds, d.firstName, d.lastName, d.phone, d.email,
                d.status, now, now)
  }

  /**
   * A partial listing of the store: `ts` holds each record whose id is not
   * in `remaining` exactly once, and nothing else.
   */
  ghost predicate Listed(m: map<string, Table>, ts: seq<Table>, remaining: set<string>)
  {
    && remaining <= m.Keys
    && |ts| + |remaining| == |m.Keys|
    && (forall i :: 0 <= i < |ts| ==> ts[i].id in m && m[ts[i].id] == ts[i] && ts[i].id !in remaining)
    && (forall k :: k in m && k !in remaining ==> exists i :: 0 <= i < |ts| && ts[i].id == k)
    && (forall i, j :: 0 <= i < j < |ts| ==> ts[i].id != ts[j].id)
  }

  /** Listing one more stored record, under its own id, keeps the listing exact. */
  lemma ListedStep(m: map<string, Table>, ts: seq<Table>, remaining: set<string>, k: string)
    requires Listed(m, ts, remaining) && k in remaining && m[k].id == k
    ensures Listed(m, ts + [m[k]], remaining - {k})
  {
    var next := ts + [m[k]];
    assert |remaining - {k}| == |remaining| - 1;
    forall k' | k' in m && k' !in remaining - {k}
      ensures exists i :: 0 <= i < |next| && next[i].id == k'
    {
      if k' == k {
        assert next[|ts|].id == k;
      } else {
        var i :| 0 <= i < |ts| && ts[i].id == k';
        assert next[i] == ts[i];
      }
    }
  }

  // ---- The service --------------------------------------------------------

  class Services {
    var tables: map<string, Table>
    var reservations: seq<Reservation>
    const onUndefined: UndefinedEffect

    /** Every stored table sits under its own id. */
    ghost predicate Valid()
      reads this
    {
      forall k :: k in tables ==> tables[k].id == k
    }

    /** The service as it starts: the tables in the store, the reservations saved in the browser. */
    constructor (onUndefined: UndefinedEffect, stored: map<string, Table>, saved: seq<Reservation>)
      requires forall k :: k in stored ==> stored[k].id == k
      ensures Valid()
      ensures this.onUndefined == onUndefined && tables == stored && reservations == saved
    {
      this.onUndefined := onUndefined;
      tables := stored;
      reservations := saved;
    }

    /** `updateTable`: patch one existing table; a `null` reservationId becomes field removal. */
    method UpdateTable(tableId: string, patch: TablePatch, refused: set<string>) returns (ok: bool)
      requires Valid()
      modifies this
      ensures Valid()
      ensures ok <==> tableId in old(tables) && tableId !in refused && PatchAccepted(patch, onUndefined)
      ensures tables == if ok then old(tables)[tableId := Patched(old(tables)[tableId], patch)] else old(tables)
      ensures reservations == old(reservations)
    {
      ok := tableId in tables && tableId !in refused && PatchAccepted(patch, onUndefined);
      if ok {
        tables := tables[tableId := Patched(tables[tableId], patch)];
      }
    }

    /**
     * `updateTables`: stage the same patch for every id, then commit the
     * batch as one step. An empty id list stages nothing, so the store never
     * sees the patch and the empty batch commits.
     */
    method UpdateTables(tableIds: seq<string>, patch: TablePatch, refused: set<string>) returns (ok: bool)
      requires Valid()
      modifies this
      ensures Valid()
      ensures ok <==> Writable(old(tables), tableIds, refused) && (|tableIds| == 0 || PatchAccepted(patch, onUndefined))
      ensures tables == if ok then PatchAll(old(tables), tableIds, patch) else old(tables)
      ensures reservations == old(reservations)
    {
      var batch := StageBatch(tables, tableIds, patch);
      ok := Writable(tables, tableIds, refused) && (|tableIds| == 0 || PatchAccepted(patch, onUndefined));
      if ok {
        tables := batch;
      }
    }

    /** `getTables`: the stored records, each once, in no promised order. */
    method GetTables() returns (ts: seq<Table>)
      requires Valid()
      ensures |ts| == |tables|
      ensures forall i :: 0 <= i < |ts| ==> ts[i].id in tables && tables[ts[i].id] == ts[i]
      ensures forall k :: k in tables ==> exists i :: 0 <= i < |ts| && ts[i].id == k
      ensures forall i, j :: 0 <= i < j < |ts| ==> ts[i].id != ts[j].id
    {
      var remaining := tables.Keys;
      ts := [];
      while remaining != {}
        invariant Listed(tables, ts, remaining)
        decreases |remaining|
      {
        var k :| k in remaining;
        ListedStep(tables, ts, remaining, k);
        ts := ts + [tables[k]];
        remaining := remaining - {k};
      }
    }

    /** `resetTables`: one batch over the stored records setting `blocked` and removing reservationId. */
    method ResetTables(refused: set<string>) returns (ok: bool)
      requires Valid()
      modifies this
      ensures Valid()
      ensures ok <==> tables.Keys !! refused
      ensures ok ==> tables == map k | k in old(tables) :: Patched(old(tables)[k], ResetPatch())
      ensures !ok ==> tables == old(tables)
      ensures reservations == old(reservations)
    {
      var snapshot := GetTables();
      var ids := IdsOf(snapshot);
      var batch := StageBatch(tables, ids, ResetPatch());
      SnapshotCoversStore(tables, snapshot);
      PatchAllCovering(tables, ids, ResetPatch());
      ok := tables.Keys !! refused;
      if ok {
        tables := batch;
      }
    }

    /** `addTable`: write the whole record under its id, creating or overwriting it. */
    method AddTable(t: Table, refused: set<string>) returns (ok: bool)
      requires Valid()
      modifies this
      ensures Valid()
      ensures ok <==> t.id !in refused
      ensures tables == if ok then old(tables)[t.id := t] else old(tables)
      ensures reservations == old(reservations)
    {
      ok := t.id !in refused;
      if ok {
        tables := tables[t.id := t];
      }
    }

    /** Remove one table document (the init route's bulk delete). */
    method DeleteTable(tableId: string, refused: set<string>) returns (ok: bool)
      requires Valid()
      modifies this
      ensures Valid()
      ensures ok <==> tableId !in refused
      ensures tables == if ok then old(tables) - {tableId} else old(tables)
      ensures reservations == old(reservations)
    {
      ok := tableId !in refused;
      if ok {
        tables := tables - {tableId};
      }
    }

    /** `getReservations`: sort the list in place, newest first, and hand it out. */
    method GetReservations() returns (rs: seq<Reservation>)
      modifies this
      ensures rs == reservations == NewestFirst(old(reservations))
      ensures multiset(rs) == multiset(old(reservations)) && NewestFirstOrdered(rs)
      ensures tables == old(tables)
    {
      reservations := NewestFirst(reservations);
      rs := reservations;
    }

    /**
     * `createReservation`: append the new reservation, then stamp its tables
     * in one batch. If the batch fails, the reservation stays appended.
     */
    method CreateReservation(draft: ReservationDraft, now: nat, refused: set<string>)
      returns (id: string, ok: bool)
      requires Valid()
      modifies this
      ensures Valid()
      ensures id == TableIds.Decimal(now)
      ensures reservations == old(reservations) + [NewReservation(draft, now)]
      ensures ok <==> Writable(old(tables), draft.tableIds, refused)
      ensures tables == if ok then PatchAll(old(tables), draft.tableIds, StampPatch(id)) else old(tables)
    {
      var r := NewReservation(draft, now);
      reservations := reservations + [r];
      ok := UpdateTables(draft.tableIds, StampPatch(r.id), refused);
      id := r.id;
    }

    /** `updateReservation`: merge the fields into the first reservation with this id, if any. */
    method UpdateReservation(id: string, data: ReservationPatch, now: nat)
      modifies this
      ensures reservations == UpdatedList(old(reservations), id, data, now)
      ensures tables == old(tables)
    {
      var index := IndexOf(reservations, id);
      if index.Some? {
        reservations := reservations[index.value := Merge(reservations[index.value], data, now)];
      }
    }

    /** Free the listed tables one awaited write at a time; the first failing write ends the run. */
    method ReleaseTables(ids: seq<string>, refused: set<string>) returns (ok: bool)
      requires Valid()
      modifies this
      ensures Valid()
      ensures var k := FirstUnwritable(old(tables), ids, refused);
              && (ok <==> k == |ids|)
              && tables == PatchAll(old(tables), ids[..k], ReleasePatch())
      ensures reservations == old(reservations)
    {
      var i := 0;
      while i < |ids|
        invariant 0 <= i <= |ids|
        invariant Valid()
        invariant Writable(old(tables), ids[..i], refused)
        invariant tables == PatchAll(old(tables), ids[..i], ReleasePatch())
        invariant reservations == old(reservations)
      {
        PatchAllStep(old(tables), ids, i, ReleasePatch());
        var written := UpdateTable(ids[i], ReleasePatch(), refused);
        if !written {
          FirstUnwritableAt(old(tables), ids, refused, i);
          return false;
        }
        assert ids[..i + 1] == ids[..i] + [ids[i]];
        i := i + 1;
      }
      assert ids[..i] == ids;
      FirstUnwritableAt(old(tables), ids, refused, i);
      ok := true;
    }

    /**
     * `deleteReservation`: free the tables of the first reservation with this
     * id, then filter every reservation with this id out. A failing write
     * stops the deletion before the list is touched.
     */
    method DeleteReservation(id: string, refused: set<string>) returns (ok: bool)
      requires Valid()
      modifies this
      ensures Valid()
      ensures var ids := ReleasedIds(old(reservations), id);
              var k := FirstUnwritable(old(tables), ids, refused);
              && (ok <==> k == |ids|)
              && tables == PatchAll(old(tables), ids[..k], ReleasePatch())
              && reservations == if ok then WithoutId(old(reservations), id) else old(reservations)
    {
      var found := FindById(reservations, id);
      if found.Some? {
        var released := ReleaseTables(found.value.tableIds, refused);
        if !released {
          return false;
        }
      } else {
        assert PatchAll(tables, [], ReleasePatch()) == tables;
      }
      reservations := WithoutId(reservations, id);
      ok := true;
    }

    /**
     * `deleteAllReservations`: free every table of every reservation, in
     * list order, then empty the list. A failing write stops it before the
     * list is emptied.
     */
    method DeleteAllReservations(refused: set<string>) returns (ok: bool)
      requires Valid()
      modifies this
      ensures Valid()
      ensures var ids := AllTableIds(old(reservations));
              var k := FirstUnwritable(old(tables), ids, refused);
              && (ok <==> k == |ids|)
              && tables == PatchAll(old(tables), ids[..k], ReleasePatch())
              && reservations == if ok then [] else old(reservations)
    {
      var rs := reservations;
      var flat := AllTableIds(rs);
      assert rs[..0] == [];
      assert PatchAll(tables, [], ReleasePatch()) == tables;
      for i := 0 to |rs|
        invariant Valid()
        invariant reservations == rs == old(reservations)
        invariant Writable(old(tables), AllTableIds(rs[..i]), refused)
        invariant tables == PatchAll(old(tables), AllTableIds(rs[..i]), ReleasePatch())
      {
        var ids := rs[i].tableIds;
        ghost var before := tables;
        var released := ReleaseTables(ids, refused);
        FirstUnwritableSameKeys(before, old(tables), ids, refused);
        ghost var k := FirstUnwritable(old(tables), ids, refused);
        PatchAllConcat(old(tables), AllTableIds(rs[..i]), ids[..k], ReleasePatch());
        if !released {
          DeleteAllStops(old(tables), rs, i, refused);
          return false;
        }
        DeleteAllContinues(old(tables), rs, i, refused);
      }
      assert rs[..|rs|] == rs;
      assert FirstUnwritable(old(tables), [], refused) == 0;
      assert flat[..|flat|] == flat;
      reservations := [];
      ok := true;
    }
  }

  /** Two runs of writes that each succeed make a run that succeeds. */
  lemma WritableConcat(m: map<string, Table>, a: seq<string>, b: seq<string>, refused: set<string>)
    requires Writable(m, a, refused) && Writable(m, b, refused)
    ensures Writable(m, a + b, refused)
  {
    forall i | 0 <= i < |a + b|
      ensures (a + b)[i] in m && (a + b)[i] !in refused
    {
      if i >= |a| {
        assert (a + b)[i] == b[i - |a|];
      }
    }
  }

  /** Cutting a list behind a known prefix `a + b`. */
  lemma PrefixSlice(flat: seq<string>, a: seq<string>, b: seq<string>, k: nat)
    requires a + b <= flat && k <= |b|
    ensures |a| + k <= |flat| && flat[..|a| + k] == a + b[..k]
  {
    assert flat[..|a| + k] == (a + b)[..|a| + k];
  }

  /**
   * Inside `deleteAllReservations`, a failing write in the run of
   * reservation i is the first failing write of the whole run.
   */
  lemma DeleteAllStops(m: map<string, Table>, rs: seq<Reservation>, i: nat, refused: set<string>)
    requires i < |rs| && Writable(m, AllTableIds(rs[..i]), refused)
    requires FirstUnwritable(m, rs[i].tableIds, refused) < |rs[i].tableIds|
    ensures var done := AllTableIds(rs[..i]);
            var k := FirstUnwritable(m, rs[i].tableIds, refused);
            var all := FirstUnwritable(m, AllTableIds(rs), refused);
            all == |done| + k < |AllTableIds(rs)| && AllTableIds(rs)[..all] == done + rs[i].tableIds[..k]
  {
    var done := AllTableIds(rs[..i]);
    var ids := rs[i].tableIds;
    var k := FirstUnwritable(m, ids, refused);
    var flat := AllTableIds(rs);
    AllTableIdsPrefix(rs, i);
    PrefixSlice(flat, done, ids, k);
    WritableConcat(m, done, ids[..k], refused);
    assert flat[|done| + k] == (done + ids)[|done| + k] == ids[k];
    FirstUnwritableAt(m, flat, refused, |done| + k);
  }

  /** Inside `deleteAllReservations`, a run that succeeds extends the freed prefix by one reservation. */
  lemma DeleteAllContinues(m: map<string, Table>, rs: seq<Reservation>, i: nat, refused: set<string>)
    requires i < |rs| && Writable(m, AllTableIds(rs[..i]), refused)
    requires FirstUnwritable(m, rs[i].tableIds, refused) == |rs[i].tableIds|
    ensures Writable(m, AllTableIds(rs[..i + 1]), refused)
    ensures AllTableIds(rs[..i + 1]) == AllTableIds(rs[..i]) + rs[i].tableIds[..|rs[i].tableIds|]
  {
    var ids := rs[i].tableIds;
    AllTableIdsPrefix(rs, i);
    assert ids[..|ids|] == ids;
    WritableConcat(m, AllTableIds(rs[..i]), ids, refused);
  }

  /** The ids of a list of records, in order. */
  function IdsOf(ts: seq<Table>): (ids: seq<string>)
    ensures |ids| == |ts| && forall i :: 0 <= i < |ts| ==> ids[i] == ts[i].id
  {
    if ts == [] then [] else [ts[0].id] + IdsOf(ts[1..])
  }

  /** A snapshot that holds every stored record lists every stored id. */
  lemma SnapshotCoversStore(m: map<string, Table>, snapshot: seq<Table>)
    requires forall k :: k in m ==> exists i :: 0 <= i < |snapshot| && snapshot[i].id == k
    ensures forall k :: k in m ==> k in IdsOf(snapshot)
  {
    forall k | k in m
      ensures k in IdsOf(snapshot)
    {
      var j :| 0 <= j < |snapshot| && snapshot[j].id == k;
      assert IdsOf(snapshot)[j] == k;
    }
  }

  /** A batch that lists every stored id patches the whole store. */
  lemma PatchAllCovering(m: map<string, Table>, ids: seq<string>, p: TablePatch)
    requires forall k :: k in m ==> k in ids
    ensures PatchAll(m, ids, p) == map k | k in m :: Patched(m[k], p)
  {
  }

  /** Two batches with the same patch amount to one batch over both lists. */
  lemma PatchAllConcat(m: map<string, Table>, a: seq<string>, b: seq<string>, p: TablePatch)
    ensures PatchAll(PatchAll(m, a, p), b, p) == PatchAll(m, a + b, p)
  {
    forall k | k in m && k in a && k in b
      ensures PatchAll(PatchAll(m, a, p), b, p)[k] == PatchAll(m, a + b, p)[k]
    {
      PatchedIdempotent(m[k], p);
    }
  }

  /** Whether a write can fail depends only on which documents exist. */
  lemma {:induction false} FirstUnwritableSameKeys(m1: map<string, Table>, m2: map<string, Table>,
                                                    ids: seq<string>, refused: set<string>)
    requires m1.Keys == m2.Keys
    ensures FirstUnwritable(m1, ids, refused) == FirstUnwritable(m2, ids, refused)
  {
    if ids != [] {
      FirstUnwritableSameKeys(m1, m2, ids[1..], refused);
    }
  }

  /** The first failure in `a + b` is the first one in `a`, or else |a| past the first one in `b`. */
  lemma FirstUnwritableConcat(m: map<string, Table>, a: seq<string>, b: seq<string>, refused: set<string>)
    ensures var ka := FirstUnwritable(m, a, refused);
            FirstUnwritable(m, a + b, refused)
            == if ka < |a| then ka else |a| + FirstUnwritable(m, b, refused)
  {
    var ka := FirstUnwritable(m, a, refused);
    var ab := a + b;
    if ka < |a| {
      assert ab[..ka] == a[..ka];
      assert ab[ka] == a[ka];
      FirstUnwritableAt(m, ab, refused, ka);
    } else {
      var kb := FirstUnwritable(m, b, refused);
      assert a[..ka] == a;
      assert ab[..|a| + kb] == a + b[..kb];
      assert |a| + kb < |ab| ==> ab[|a| + kb] == b[kb];
      FirstUnwritableAt(m, ab, refused, |a| + kb);
    }
  }

  /** The first failing write is the one right after the run of successful ones. */
  lemma FirstUnwritableAt(m: map<string, Table>, ids: seq<string>, refused: set<string>, i: nat)
    requires i <= |ids| && Writable(m, ids[..i], refused)
    requires i < |ids| ==> ids[i] !in m || ids[i] in refused
    ensures FirstUnwritable(m, ids, refused) == i
  {
  }

  /** The flattened ids of a longer prefix extend those of the shorter one. */
  lemma AllTableIdsPrefix(rs: seq<Reservation>, i: nat)
    requires i < |rs|
    ensures AllTableIds(rs[..i + 1]) == AllTableIds(rs[..i]) + rs[i].tableIds
    ensures AllTableIds(rs[..i]) + rs[i].tableIds <= AllTableIds(rs)
  {
    assert rs[..i + 1][..i] == rs[..i];
    AllTableIdsPrefixOf(rs, i + 1);
  }

  /** Flattening a prefix gives a prefix of the flattened list. */
  lemma {:induction false} AllTableIdsPrefixOf(rs: seq<Reservation>, i: nat)
    requires i <= |rs|
    ensures AllTableIds(rs[..i]) <= AllTableIds(rs)
  {
    if i < |rs| {
      var front := rs[..|rs| - 1];
      assert front[..i] == rs[..i];
      AllTableIdsPrefixOf(front, i);
    } else {
      assert rs[..i] == rs;
    }
  }

  // ---- Whole-record writes and patch interplay ----------------------------

  /** The store after whole records are written one after another; a refused write leaves its id as it was. */
  function Put(m: map<string, Table>, ts: seq<Table>, refused: set<string>): map<string, Table>
  {
    if ts == [] then m
    else
      var before := Put(m, ts[..|ts| - 1], refused);
      var t := ts[|ts| - 1];
      if t.id in refused then before else before[t.id := t]
  }

  /** Writing one more record on top of the earlier writes. */
  lemma PutStep(m: map<string, Table>, ts: seq<Table>, i: nat, refused: set<string>)
    requires i < |ts|
    ensures Put(m, ts[..i + 1], refused)
            == if ts[i].id in refused then Put(m, ts[..i], refused) else Put(m, ts[..i], refused)[ts[i].id := ts[i]]
  {
    assert ts[..i + 1][..i] == ts[..i];
  }

  /** An id that no accepted write names keeps its record, or stays absent. */
  lemma {:induction false} PutUntouched(m: map<string, Table>, ts: seq<Table>, refused: set<string>, k: string)
    requires forall i :: 0 <= i < |ts| ==> ts[i].id != k || k in refused
    ensures (k in Put(m, ts, refused)) == (k in m)
    ensures k in m ==> Put(m, ts, refused)[k] == m[k]
  {
    if ts != [] {
      PutUntouched(m, ts[..|ts| - 1], refused, k);
    }
  }

  /** A record written and not refused is read back exactly, when every write to its id carries the same record. */
  lemma {:induction false} PutWritten(m: map<string, Table>, ts: seq<Table>, refused: set<string>, t: Table)
    requires t in ts && t.id !in refused
    requires forall i :: 0 <= i < |ts| && ts[i].id == t.id ==> ts[i] == t
    ensures t.id in Put(m, ts, refused) && Put(m, ts, refused)[t.id] == t
  {
    var front := ts[..|ts| - 1];
    if ts[|ts| - 1] != t {
      assert t in front;
      PutWritten(m, front, refused, t);
    }
  }

  /** Whole-record writes keep every record under its own id. */
  lemma {:induction false} PutValid(m: map<string, Table>, ts: seq<Table>, refused: set<string>)
    requires forall k :: k in m ==> m[k].id == k
    ensures forall k :: k in Put(m, ts, refused) ==> Put(m, ts, refused)[k].id == k
  {
    if ts != [] {
      PutValid(m, ts[..|ts| - 1], refused);
    }
  }

  /** After a reset every stored table is blocked and has no reservationId; ids and coordinates stay. */
  lemma ResetBlocksEverything(m: map<string, Table>)
    ensures var r := map k | k in m :: Patched(m[k], ResetPatch());
            && r.Keys == m.Keys
            && forall k :: k in r ==>
                 r[k].status == Blocked && r[k].reservationId == Absent
                 && r[k].id == m[k].id && r[k].x == m[k].x && r[k].y == m[k].y
  {
  }

  /** A status-only patch changes the status of each listed table and nothing else, its reservationId included. */
  lemma StatusOnlyKeepsLinks(m: map<string, Table>, ids: seq<string>, s: TableStatus, k: string)
    ensures k in m && k in ids ==> PatchAll(m, ids, StatusOnlyPatch(s))[k] == m[k].(status := s)
  {
  }

  /** A patch that sets both status and reservationId (or removes it) overrides any earlier patch entirely. */
  lemma PatchAllOverride(m: map<string, Table>, ids: seq<string>, p: TablePatch, q: TablePatch)
    requires q.status.Some? && (q.reservationId.NullLink? || q.reservationId.SetLink?)
    ensures PatchAll(PatchAll(m, ids, p), ids, q) == PatchAll(m, ids, q)
  {
  }

  /**
   * Rejecting the tables a reservation stamped blocks them but leaves them
   * linked to that reservation: the `undefined` reservationId is not a
   * removal.
   */
  lemma RejectKeepsStamp(m: map<string, Table>, ids: seq<string>, id: string, k: string)
    requires k in m && k in ids
    ensures var t := PatchAll(PatchAll(m, ids, StampPatch(id)), ids, RejectPatch())[k];
            t.status == Blocked && t.reservationId == Linked(id)
  {
  }

  /** Releasing after approval leaves the tables as if they had only been released. */
  lemma ReleaseAfterApprove(m: map<string, Table>, ids: seq<string>, id: string)
    ensures PatchAll(PatchAll(m, ids, ApprovePatch(id)), ids, ReleasePatch()) == PatchAll(m, ids, ReleasePatch())
    ensures forall k :: k in m && k in ids ==>
              PatchAll(m, ids, ReleasePatch())[k].status == Available
              && PatchAll(m, ids, ReleasePatch())[k].reservationId == Absent
  {
    PatchAllOverride(m, ids, ApprovePatch(id), ReleasePatch());
  }

  /**
   * A batch of whole-record writes, one `addTable` per record in order (the
   * batch runs as one `Promise.all`); it succeeds when every write does.
   */
  method WriteEach(svc: Services, ts: seq<Table>, refused: set<string>) returns (ok: bool)
    requires svc.Valid()
    modifies svc
    ensures svc.Valid() && svc.reservations == old(svc.reservations)
    ensures svc.tables == Put(old(svc.tables), ts, refused)
    ensures ok <==> forall i :: 0 <= i < |ts| ==> ts[i].id !in refused
  {
    ok := true;
    for i := 0 to |ts|
      invariant svc.Valid() && svc.reservations == old(svc.reservations)
      invariant svc.tables == Put(old(svc.tables), ts[..i], refused)
      invariant ok <==> forall j :: 0 <= j < i ==> ts[j].id !in refused
    {
      PutStep(old(svc.tables), ts, i, refused);
      var written := svc.AddTable(ts[i], refused);
      ok := ok && written;
    }
    assert ts[..|ts|] == ts;
  }

  /**
   * The staging loop of a batch: the same patch is set on every listed
   * document that exists, one after another, without touching the store.
   */
  method StageBatch(m: map<string, Table>, ids: seq<string>, p: TablePatch) returns (batch: map<string, Table>)
    ensures batch == PatchAll(m, ids, p)
  {
    batch := m;
    var i := 0;
    while i < |ids|
      invariant 0 <= i <= |ids|
      invariant batch == PatchAll(m, ids[..i], p)
    {
      PatchAllStep(m, ids, i, p);
      if ids[i] in batch {
        batch := batch[ids[i] := Patched(batch[ids[i]], p)];
      }
      i := i + 1;
    }
    assert ids[..i] == ids;
  }
}
