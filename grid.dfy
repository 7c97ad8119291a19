/**
 * The pure side of the table grid: looking tables up by cell, the colour
 * and tooltip of a table, the rendered 24 x 16 grid, toggling a selection
 * list, the cells of a drag rectangle, and what a click on a table means.
 */
module Grid {
  import opened Types
  import opened Layout

  /** A grid cell by column and row. */
  datatype Coord = Coord(x: nat, y: nat)

  // ---- Looking tables up ------------------------------------------------

  /** The index of the first table standing on cell (x, y). */
  function IndexAt(tables: seq<Table>, x: nat, y: nat): (r: Option<nat>)
    ensures r.Some? ==> r.value < |tables| && tables[r.value].x == x && tables[r.value].y == y
                        && forall j :: 0 <= j < r.value ==> !(tables[j].x == x && tables[j].y == y)
    ensures r.None? ==> forall j :: 0 <= j < |tables| ==> !(tables[j].x == x && tables[j].y == y)
  {
    if tables == [] then None
    else if tables[0].x == x && tables[0].y == y then Some(0)
    else
      match IndexAt(tables[1..], x, y)
      case None => None
      case Some(i) => Some(i + 1)
  }

  /** The first table standing on cell (x, y), as `tables.find` gives it. */
  function FindAt(tables: seq<Table>, x: nat, y: nat): (r: Option<Table>)
    ensures r.Some? <==> exists j :: 0 <= j < |tables| && tables[j].x == x && tables[j].y == y
    ensures r.Some? ==> r.value in tables && r.value.x == x && r.value.y == y
    ensures r.Some? ==> exists j :: 0 <= j < |tables| && tables[j] == r.value
                                    && forall i :: 0 <= i < j ==> !(tables[i].x == x && tables[i].y == y)
  {
    match IndexAt(tables, x, y)
    case None => None
    case Some(i) => Some(tables[i])
  }

  /** `getTableIdByXY`: the id of the first table on the cell, or null. */
  function TableIdAt(tables: seq<Table>, x: nat, y: nat): (r: Option<string>)
    ensures r.Some? <==> exists j :: 0 <= j < |tables| && tables[j].x == x && tables[j].y == y
    ensures r.Some? ==> exists j :: 0 <= j < |tables| && tables[j].x == x && tables[j].y == y
                                    && tables[j].id == r.value
                                    && forall i :: 0 <= i < j ==> !(tables[i].x == x && tables[i].y == y)
  {
    match FindAt(tables, x, y)
    case None => None
    case Some(t) => Some(t.id)
  }

  /** Whether some reservation of the given status lists the table, as `reservations.some` decides it. */
  function Lists(rs: seq<Reservation>, tableId: string, s: ReservationStatus): (b: bool)
    ensures b <==> exists i :: 0 <= i < |rs| && tableId in rs[i].tableIds && rs[i].status == s
  {
    if rs == [] then false
    else (tableId in rs[0].tableIds && rs[0].status == s) || Lists(rs[1..], tableId, s)
  }

  /** The index of the first reservation listing the table, whatever its status. */
  function ListingIndex(rs: seq<Reservation>, tableId: string): (r: Option<nat>)
    ensures r.Some? ==> r.value < |rs| && tableId in rs[r.value].tableIds
                        && forall j :: 0 <= j < r.value ==> tableId !in rs[j].tableIds
    ensures r.None? ==> forall j :: 0 <= j < |rs| ==> tableId !in rs[j].tableIds
  {
    if rs == [] then None
    else if tableId in rs[0].tableIds then Some(0)
    else
      match ListingIndex(rs[1..], tableId)
      case None => None
      case Some(i) => Some(i + 1)
  }

  /** The first reservation listing the table, as `reservations.find(r => r.tableIds.includes(id))` gives it. */
  function FirstListing(rs: seq<Reservation>, tableId: string): (r: Option<Reservation>)
    ensures r.Some? <==> exists j :: 0 <= j < |rs| && tableId in rs[j].tableIds
    ensures r.Some? ==> r.value in rs && tableId in r.value.tableIds
  {
    match ListingIndex(rs, tableId)
    case None => None
    case Some(i) => Some(rs[i])
  }

  /** `find` picks the earliest reservation listing the table. */
  lemma FirstListingIsEarliest(rs: seq<Reservation>, tableId: string, i: nat)
    requires i < |rs| && tableId in rs[i].tableIds
    requires forall j :: 0 <= j < i ==> tableId !in rs[j].tableIds
    ensures FirstListing(rs, tableId) == Some(rs[i])
  {
    var k := ListingIndex(rs, tableId);
    assert k.Some?;
    assert !(k.value < i) && !(i < k.value);
  }

  // ---- Colour and tooltip -----------------------------------------------

  const ApprovedClass := "bg-red-200 cursor-not-allowed"
  const PendingClass := "bg-blue-400 hover:bg-blue-500"

  /** The class a table gets from its own status when no live reservation lists it. */
  function StatusClass(s: TableStatus): string
  {
    match s
    case Available => "bg-blue-600 hover:bg-blue-700"
    case Reserved => "bg-red-200 cursor-not-allowed"
    case Blocked => "bg-white text-gray-400 border-gray-200"
    case Permanent => "bg-gray-400 cursor-not-allowed"
    case Entrance => "bg-green-500 cursor-not-allowed"
    case Pending => "bg-gray-300"
  }

  /** `getTableColor`: an approved listing first, then a pending one, then the table's status. */
  function TableColor(t: Table, rs: seq<Reservation>): string
  {
    if Lists(rs, t.id, Approved) then ApprovedClass
    else if Lists(rs, t.id, ReservationStatus.Pending) then PendingClass
    else StatusClass(t.status)
  }

  /**
   * The colour priority: an approved reservation listing the table wins
   * over everything, a pending one over the table's status, and a table
   * whose listings are all rejected is coloured by its status alone.
   */
  lemma ColorPriority(t: Table, rs: seq<Reservation>)
    ensures (exists i :: 0 <= i < |rs| && t.id in rs[i].tableIds && rs[i].status == Approved)
              ==> TableColor(t, rs) == "bg-red-200 cursor-not-allowed"
    ensures ((forall i :: 0 <= i < |rs| && t.id in rs[i].tableIds ==> rs[i].status != Approved)
             && (exists i :: 0 <= i < |rs| && t.id in rs[i].tableIds && rs[i].status == ReservationStatus.Pending))
              ==> TableColor(t, rs) == "bg-blue-400 hover:bg-blue-500"
    ensures (forall i :: 0 <= i < |rs| && t.id in rs[i].tableIds ==> rs[i].status == Rejected)
              ==> TableColor(t, rs) == StatusClass(t.status)
  {
  }

  /** Dropping a reservation of another status does not change whether one of status s lists the table. */
  lemma ListsDrop(rs: seq<Reservation>, i: nat, tableId: string, s: ReservationStatus)
    requires i < |rs| && rs[i].status != s
    ensures Lists(rs[..i] + rs[i + 1..], tableId, s) == Lists(rs, tableId, s)
  {
    var rest := rs[..i] + rs[i + 1..];
    assert forall j :: 0 <= j < i ==> rest[j] == rs[j];
    assert forall j :: i <= j < |rest| ==> rest[j] == rs[j + 1];
    if Lists(rs, tableId, s) {
      var j :| 0 <= j < |rs| && tableId in rs[j].tableIds && rs[j].status == s;
      if j < i {
        assert rest[j] == rs[j];
      } else {
        assert rest[j - 1] == rs[j];
      }
    }
  }

  /** A rejected reservation never changes a table's colour: dropping it leaves every colour as it was. */
  lemma RejectedIgnored(t: Table, rs: seq<Reservation>, i: nat)
    requires i < |rs| && rs[i].status == Rejected
    ensures TableColor(t, rs[..i] + rs[i + 1..]) == TableColor(t, rs)
  {
    ListsDrop(rs, i, t.id, Approved);
    ListsDrop(rs, i, t.id, ReservationStatus.Pending);
  }

  /** A table of status `reserved` looks exactly like one with an approved reservation. */
  lemma ReservedLooksApproved(t: Table, rs: seq<Reservation>)
    requires t.status == Reserved
    requires !Lists(rs, t.id, ReservationStatus.Pending)
    ensures TableColor(t, rs) == "bg-red-200 cursor-not-allowed"
  {
  }

  /** The contact card a tooltip shows for a reservation. */
  function ContactCard(r: Reservation): string
  {
    r.firstName + " " + r.lastName + "\n" + r.phone + "\n" + r.email + "\nStatus: " + StatusName(r.status)
  }

  /** `getTableTooltip`: entrance and permanent tables have fixed texts, others the first listing or "free". */
  function Tooltip(t: Table, rs: seq<Reservation>): string
  {
    if t.status == Entrance then "Vchod"
    else if t.status == Permanent then "Permanentně rezervováno"
    else
      match FirstListing(rs, t.id)
      case Some(r) => ContactCard(r)
      case None => "Volný stůl"
  }

  /**
   * The tooltip of an ordinary table shows the earliest reservation listing
   * it, of any status (a rejected one included), and "free" when none does;
   * entrance and permanent tables ignore reservations.
   */
  lemma TooltipShows(t: Table, rs: seq<Reservation>)
    ensures t.status == Entrance ==> Tooltip(t, rs) == "Vchod"
    ensures t.status == Permanent ==> Tooltip(t, rs) == "Permanentně rezervováno"
    ensures t.status != Entrance && t.status != Permanent
            && (forall j :: 0 <= j < |rs| ==> t.id !in rs[j].tableIds)
            ==> Tooltip(t, rs) == "Volný stůl"
    ensures forall i :: 0 <= i < |rs| && t.id in rs[i].tableIds
                        && (forall j :: 0 <= j < i ==> t.id !in rs[j].tableIds)
                        && t.status != Entrance && t.status != Permanent
                        ==> Tooltip(t, rs) == ContactCard(rs[i])
  {
    forall i | 0 <= i < |rs| && t.id in rs[i].tableIds
               && (forall j :: 0 <= j < i ==> t.id !in rs[j].tableIds)
      ensures FirstListing(rs, t.id) == Some(rs[i])
    {
      FirstListingIsEarliest(rs, t.id, i);
    }
  }

  /** A contact card ends with the reservation's status, so the tooltip tells the three statuses apart. */
  lemma ContactCardStatus(r: Reservation)
    ensures var card := ContactCard(r);
            var tail := "\nStatus: " + StatusName(r.status);
            |tail| <= |card| && card[|card| - |tail|..] == tail
  {
  }

  // ---- The rendered grid --------------------------------------------------

  /** The grid the component renders: row y, column x holds the first table on that cell, or null. */
  function Rows(tables: seq<Table>): seq<seq<Option<Table>>>
  {
    seq(Height, y requires 0 <= y < Height => seq(Width, x requires 0 <= x < Width => FindAt(tables, x, y)))
  }

  /** The rows laid end to end, as `grid.flat()` does. */
  function Flatten<T>(rows: seq<seq<T>>): seq<T>
  {
    if rows == [] then [] else rows[0] + Flatten(rows[1..])
  }

  /** Laying rows of width 24 end to end puts row i / 24, column i % 24 at position i. */
  lemma {:induction false} FlattenIndex<T>(rows: seq<seq<T>>, i: nat)
    requires forall r :: 0 <= r < |rows| ==> |rows[r]| == Width
    ensures |Flatten(rows)| == |rows| * Width
    ensures i < |rows| * Width ==> Flatten(rows)[i] == rows[i / Width][i % Width]
  {
    if rows != [] {
      if i < Width {
        FlattenIndex(rows[1..], 0);
      } else {
        FlattenIndex(rows[1..], i - Width);
        assert (i - Width) / Width == i / Width - 1;
        assert (i - Width) % Width == i % Width;
      }
    }
  }

  /** Cell idx of the flattened grid holds the first table whose column is idx % 24 and whose row is idx / 24. */
  lemma GridCell(tables: seq<Table>, idx: nat)
    requires idx < CellCount
    ensures |Flatten(Rows(tables))| == CellCount
    ensures Flatten(Rows(tables))[idx] == FindAt(tables, Column(idx), Row(idx))
  {
    var rows := Rows(tables);
    FlattenIndex(rows, idx);
    IndexMapping(idx);
  }

  // ---- Toggling a selection -----------------------------------------------

  /** The list with every copy of `e` filtered out, order kept. */
  function Without<T(==,!new)>(l: seq<T>, e: T): (out: seq<T>)
    ensures |out| <= |l|
    ensures forall x :: x in out <==> x in l && x != e
    ensures forall x :: multiset(out)[x] == if x == e then 0 else multiset(l)[x]
  {
    if l == [] then []
    else
      var rest := Without(l[..|l| - 1], e);
      assert l == l[..|l| - 1] + [l[|l| - 1]];
      assert multiset(l) == multiset(l[..|l| - 1]) + multiset{l[|l| - 1]};
      if l[|l| - 1] == e then rest else rest + [l[|l| - 1]]
  }

  /** Filtering a concatenation filters each part; with the one-element case this fixes the result, order included. */
  lemma {:induction false} WithoutConcat<T(!new)>(a: seq<T>, b: seq<T>, e: T)
    ensures Without(a + b, e) == Without(a, e) + Without(b, e)
    ensures Without([e], e) == [] && forall x :: x != e ==> Without([x], e) == [x]
  {
    assert [e][..0] == [];
    forall x | x != e
      ensures Without([x], e) == [x]
    {
      assert [x][..0] == [];
    }
    if b == [] {
      assert a + b == a;
    } else {
      var front := b[..|b| - 1];
      WithoutConcat(a, front, e);
      assert (a + b)[..|a + b| - 1] == a + front;
      assert (a + b)[|a + b| - 1] == b[|b| - 1];
    }
  }

  /** Filtering out something the list does not hold leaves the list as it was. */
  lemma {:induction false} WithoutAbsent<T(!new)>(l: seq<T>, e: T)
    requires e !in l
    ensures Without(l, e) == l
  {
    if l != [] {
      WithoutAbsent(l[..|l| - 1], e);
      assert l == l[..|l| - 1] + [l[|l| - 1]];
    }
  }

  /** Filtering out the element just appended to a list that did not hold it gives the list back. */
  lemma WithoutAppended<T(!new)>(l: seq<T>, e: T)
    requires e !in l
    ensures Without(l + [e], e) == l
  {
    assert (l + [e])[..|l|] == l;
    WithoutAbsent(l, e);
  }

  /** No element occurs twice. */
  predicate Distinct<T(==,!new)>(l: seq<T>)
  {
    forall i, j :: 0 <= i < j < |l| ==> l[i] != l[j]
  }

  /** Filtering keeps a list free of duplicates. */
  lemma {:induction false} WithoutDistinct<T(!new)>(l: seq<T>, e: T)
    requires Distinct(l)
    ensures Distinct(Without(l, e))
  {
    if l != [] {
      var front := l[..|l| - 1];
      WithoutDistinct(front, e);
      var rest := Without(front, e);
      assert l[|l| - 1] !in front;
      assert l[|l| - 1] !in rest;
    }
  }

  /** Remove the element if it is there, append it otherwise: the click-toggle of every selection list. */
  function Toggle<T(==,!new)>(l: seq<T>, e: T): seq<T>
  {
    if e in l then Without(l, e) else l + [e]
  }

  /** After a toggle the element is there exactly when it was not before; nothing else changes membership. */
  lemma ToggleMembership<T(!new)>(l: seq<T>, e: T, x: T)
    ensures x in Toggle(l, e) <==> if x == e then e !in l else x in l
  {
  }

  /** Toggling an absent element twice gives back exactly the list it started from. */
  lemma ToggleTwiceAbsent<T(!new)>(l: seq<T>, e: T)
    requires e !in l
    ensures Toggle(Toggle(l, e), e) == l
  {
    WithoutAppended(l, e);
  }

  /**
   * Toggling a present element twice restores which elements are there,
   * but the element comes back at the end of the list.
   */
  lemma ToggleTwicePresent<T(!new)>(l: seq<T>, e: T)
    requires e in l
    ensures Toggle(Toggle(l, e), e) == Without(l, e) + [e]
    ensures forall x :: x in Toggle(Toggle(l, e), e) <==> x in l
  {
  }

  /** A toggle never introduces a duplicate. */
  lemma ToggleDistinct<T(!new)>(l: seq<T>, e: T)
    requires Distinct(l)
    ensures Distinct(Toggle(l, e))
  {
    if e in l {
      WithoutDistinct(l, e);
    }
  }

  // ---- Drag rectangles ----------------------------------------------------

  /** The cells that hold a table. */
  function Occupied(tables: seq<Table>): set<Coord>
  {
    set t | t in tables :: Coord(t.x, t.y)
  }

  /** A cell is occupied exactly when `tables.find` finds a table on it. */
  lemma OccupiedCells(tables: seq<Table>, x: nat, y: nat)
    ensures Coord(x, y) in Occupied(tables) <==> FindAt(tables, x, y).Some?
  {
    if FindAt(tables, x, y).Some? {
      var t := FindAt(tables, x, y).value;
      assert Coord(t.x, t.y) in Occupied(tables);
    }
    if Coord(x, y) in Occupied(tables) {
      var t :| t in tables && Coord(t.x, t.y) == Coord(x, y);
      var j :| 0 <= j < |tables| && tables[j] == t;
      assert tables[j].x == x && tables[j].y == y;
    }
  }

  /** Whether cell (x, y) is the kind of cell a drag collects: empty ones, or ones with a table. */
  predicate Wanted(occupied: set<Coord>, x: nat, y: nat, empty: bool)
  {
    (Coord(x, y) !in occupied) == empty
  }

  /** The wanted cells of row y from column x1 up to, not including, column xEnd, left to right. */
  function RunCells(occupied: set<Coord>, y: nat, x1: nat, xEnd: nat, empty: bool): seq<Coord>
    decreases xEnd
  {
    if xEnd <= x1 then []
    else RunCells(occupied, y, x1, xEnd - 1, empty)
         + (if Wanted(occupied, xEnd - 1, y, empty) then [Coord(xEnd - 1, y)] else [])
  }

  /** The wanted cells of columns x1..x2 in rows y1 up to, not including, yEnd, row by row. */
  function RectCells(occupied: set<Coord>, x1: nat, x2: nat, y1: nat, yEnd: nat, empty: bool): seq<Coord>
    decreases yEnd
  {
    if yEnd <= y1 then []
    else RectCells(occupied, x1, x2, y1, yEnd - 1, empty) + RunCells(occupied, yEnd - 1, x1, x2 + 1, empty)
  }

  /** A cell of a run is a wanted cell of that row inside the run. */
  lemma {:induction false} RunMembers(occupied: set<Coord>, y: nat, x1: nat, xEnd: nat, empty: bool, c: Coord)
    ensures c in RunCells(occupied, y, x1, xEnd, empty)
            <==> c.y == y && x1 <= c.x < xEnd && Wanted(occupied, c.x, c.y, empty)
  {
    if xEnd > x1 {
      var front := RunCells(occupied, y, x1, xEnd - 1, empty);
      var last := if Wanted(occupied, xEnd - 1, y, empty) then [Coord(xEnd - 1, y)] else [];
      RunMembers(occupied, y, x1, xEnd - 1, empty, c);
      assert c in front + last <==> c in front || c in last;
    }
  }

  /**
   * The cells a drag collects are exactly the wanted cells of the inclusive
   * rectangle: columns x1..x2, rows y1 up to yEnd.
   */
  lemma {:induction false} RectMembers(occupied: set<Coord>, x1: nat, x2: nat, y1: nat, yEnd: nat, empty: bool, c: Coord)
    ensures c in RectCells(occupied, x1, x2, y1, yEnd, empty)
            <==> x1 <= c.x <= x2 && y1 <= c.y < yEnd && Wanted(occupied, c.x, c.y, empty)
  {
    if yEnd > y1 {
      var front := RectCells(occupied, x1, x2, y1, yEnd - 1, empty);
      var run := RunCells(occupied, yEnd - 1, x1, x2 + 1, empty);
      assert RectCells(occupied, x1, x2, y1, yEnd, empty) == front + run;
      RectMembers(occupied, x1, x2, y1, yEnd - 1, empty, c);
      RunMembers(occupied, yEnd - 1, x1, x2 + 1, empty, c);
      if c.y == yEnd - 1 {
        assert c !in front;
      } else {
        assert c !in run;
      }
    }
  }

  /** Cell a comes strictly before cell b when the grid is read row by row. */
  predicate Before(a: Coord, b: Coord)
  {
    a.y < b.y || (a.y == b.y && a.x < b.x)
  }

  /** Strictly increasing in reading order, hence also free of duplicates. */
  predicate RowMajor(cs: seq<Coord>)
  {
    forall i, j :: 0 <= i < j < |cs| ==> Before(cs[i], cs[j])
  }

  /** Every cell of a run lies in its row, left of its end. */
  lemma {:induction false} RunBounds(occupied: set<Coord>, y: nat, x1: nat, xEnd: nat, empty: bool)
    ensures forall c :: c in RunCells(occupied, y, x1, xEnd, empty) ==> c.y == y && c.x < xEnd
  {
    forall c | c in RunCells(occupied, y, x1, xEnd, empty)
      ensures c.y == y && c.x < xEnd
    {
      RunMembers(occupied, y, x1, xEnd, empty, c);
    }
  }

  /** A run lists its cells left to right. */
  lemma {:induction false} RunRowMajor(occupied: set<Coord>, y: nat, x1: nat, xEnd: nat, empty: bool)
    ensures RowMajor(RunCells(occupied, y, x1, xEnd, empty))
  {
    if xEnd > x1 {
      RunRowMajor(occupied, y, x1, xEnd - 1, empty);
      RunBounds(occupied, y, x1, xEnd - 1, empty);
      var front := RunCells(occupied, y, x1, xEnd - 1, empty);
      var last := if Wanted(occupied, xEnd - 1, y, empty) then [Coord(xEnd - 1, y)] else [];
      forall i, j | 0 <= i < |front| && 0 <= j < |last|
        ensures Before(front[i], last[j])
      {
        assert front[i] in front;
      }
      RowMajorConcat(front, last);
    }
  }

  /** Two reading-order lists, the first wholly before the second, make one. */
  lemma RowMajorConcat(a: seq<Coord>, b: seq<Coord>)
    requires RowMajor(a) && RowMajor(b)
    requires forall i, j :: 0 <= i < |a| && 0 <= j < |b| ==> Before(a[i], b[j])
    ensures RowMajor(a + b)
  {
    forall i, j | 0 <= i < j < |a + b|
      ensures Before((a + b)[i], (a + b)[j])
    {
      if j < |a| {
        assert (a + b)[i] == a[i] && (a + b)[j] == a[j];
      } else if i < |a| {
        assert (a + b)[i] == a[i] && (a + b)[j] == b[j - |a|];
      } else {
        assert (a + b)[i] == b[i - |a|] && (a + b)[j] == b[j - |a|];
      }
    }
  }

  /** A drag lists the cells it collects row by row, each row left to right, each cell once. */
  lemma {:induction false} RectRowMajor(occupied: set<Coord>, x1: nat, x2: nat, y1: nat, yEnd: nat, empty: bool)
    ensures RowMajor(RectCells(occupied, x1, x2, y1, yEnd, empty))
  {
    if yEnd > y1 {
      var front := RectCells(occupied, x1, x2, y1, yEnd - 1, empty);
      var run := RunCells(occupied, yEnd - 1, x1, x2 + 1, empty);
      RectRowMajor(occupied, x1, x2, y1, yEnd - 1, empty);
      RunRowMajor(occupied, yEnd - 1, x1, x2 + 1, empty);
      RunBounds(occupied, yEnd - 1, x1, x2 + 1, empty);
      forall i, j | 0 <= i < |front| && 0 <= j < |run|
        ensures Before(front[i], run[j])
      {
        RectMembers(occupied, x1, x2, y1, yEnd - 1, empty, front[i]);
        assert run[j] in run;
      }
      RowMajorConcat(front, run);
    }
  }

  /** The id of the first table on each listed cell (cells without a table give the empty string). */
  function IdsAt(tables: seq<Table>, cs: seq<Coord>): (ids: seq<string>)
    ensures |ids| == |cs|
    ensures forall i :: 0 <= i < |cs| && FindAt(tables, cs[i].x, cs[i].y).Some?
                        ==> ids[i] == FindAt(tables, cs[i].x, cs[i].y).value.id
  {
    if cs == [] then []
    else
      var last := cs[|cs| - 1];
      IdsAt(tables, cs[..|cs| - 1])
      + [match FindAt(tables, last.x, last.y) case Some(t) => t.id case None => ""]
  }

  /** Collecting one more occupied cell appends the id of its table. */
  lemma IdsAtAppend(tables: seq<Table>, cs: seq<Coord>, c: Coord)
    requires FindAt(tables, c.x, c.y).Some?
    ensures IdsAt(tables, cs + [c]) == IdsAt(tables, cs) + [FindAt(tables, c.x, c.y).value.id]
  {
    assert (cs + [c])[..|cs|] == cs;
  }

  /** The rows of the run being scanned, then the part of the current row scanned so far. */
  function ScannedCells(occupied: set<Coord>, x1: nat, x2: nat, y1: nat, yy: nat, xx: nat, empty: bool): seq<Coord>
  {
    RectCells(occupied, x1, x2, y1, yy, empty) + RunCells(occupied, yy, x1, xx, empty)
  }

  /** Scanning one more cell of the current row. */
  lemma ScanStep(occupied: set<Coord>, x1: nat, x2: nat, y1: nat, yy: nat, xx: nat, empty: bool)
    requires x1 <= xx
    ensures ScannedCells(occupied, x1, x2, y1, yy, xx + 1, empty)
            == ScannedCells(occupied, x1, x2, y1, yy, xx, empty)
               + (if Wanted(occupied, xx, yy, empty) then [Coord(xx, yy)] else [])
  {
  }

  /** Before a row, nothing of it is scanned; after its last column, the rectangle reaches the next row. */
  lemma RowEnds(occupied: set<Coord>, x1: nat, x2: nat, y1: nat, yy: nat, empty: bool)
    requires y1 <= yy && x1 <= x2
    ensures ScannedCells(occupied, x1, x2, y1, yy, x1, empty) == RectCells(occupied, x1, x2, y1, yy, empty)
    ensures ScannedCells(occupied, x1, x2, y1, yy, x2 + 1, empty) == RectCells(occupied, x1, x2, y1, yy + 1, empty)
  {
    assert RectCells(occupied, x1, x2, y1, yy, empty) + [] == RectCells(occupied, x1, x2, y1, yy, empty);
  }

  /**
   * The nested scan of `handleMouseEnter` on an empty cell: the empty cells
   * of the rectangle, row by row. The bounds come from `Math.min` and
   * `Math.max`, so they are ordered.
   */
  method ScanEmpty(tables: seq<Table>, x1: nat, x2: nat, y1: nat, y2: nat) returns (selected: seq<Coord>)
    requires x1 <= x2 && y1 <= y2
    ensures selected == RectCells(Occupied(tables), x1, x2, y1, y2 + 1, true)
  {
    ghost var occ := Occupied(tables);
    selected := [];
    for yy := y1 to y2 + 1
      invariant selected == RectCells(occ, x1, x2, y1, yy, true)
    {
      RowEnds(occ, x1, x2, y1, yy, true);
      for xx := x1 to x2 + 1
        invariant selected == ScannedCells(occ, x1, x2, y1, yy, xx, true)
      {
        ScanStep(occ, x1, x2, y1, yy, xx, true);
        OccupiedCells(tables, xx, yy);
        if FindAt(tables, xx, yy).None? {
          selected := selected + [Coord(xx, yy)];
        } else {
          assert selected + [] == selected;
        }
      }
    }
  }

  /**
   * The nested scan of `handleMouseEnter` on a table: the ids of the tables
   * in the rectangle, row by row.
   */
  method ScanOccupied(tables: seq<Table>, x1: nat, x2: nat, y1: nat, y2: nat) returns (selected: seq<string>)
    requires x1 <= x2 && y1 <= y2
    ensures selected == IdsAt(tables, RectCells(Occupied(tables), x1, x2, y1, y2 + 1, false))
  {
    ghost var occ := Occupied(tables);
    selected := [];
    ghost var cells: seq<Coord> := [];
    for yy := y1 to y2 + 1
      invariant cells == RectCells(occ, x1, x2, y1, yy, false)
      invariant selected == IdsAt(tables, cells)
    {
      RowEnds(occ, x1, x2, y1, yy, false);
      for xx := x1 to x2 + 1
        invariant cells == ScannedCells(occ, x1, x2, y1, yy, xx, false)
        invariant selected == IdsAt(tables, cells)
      {
        ScanStep(occ, x1, x2, y1, yy, xx, false);
        OccupiedCells(tables, xx, yy);
        var table := FindAt(tables, xx, yy);
        if table.Some? {
          IdsAtAppend(tables, cells, Coord(xx, yy));
          cells := cells + [Coord(xx, yy)];
          selected := selected + [table.value.id];
        } else {
          assert cells + [] == cells;
        }
      }
    }
  }

  // ---- Clicking a table ---------------------------------------------------

  /** What a click on a table does besides the editor dialog state. */
  datatype ClickEffect =
    | NoEffect
    | SelectionChange(selected: seq<string>)    // `onTableSelect(newSelected)`
    | ReservationDetail(tableId: string)          // `onTableReservationClick(table.id)`
    | EditDialog(table: Table)                    // `setEditDialog({table, open: true})`

  /** `handleTableClick`: editor, admin and public branches in the order the source tests them. */
  function ClickOutcome(editorMode: bool, isAdmin: bool, t: Table, rs: seq<Reservation>,
                        selected: seq<string>): ClickEffect
  {
    if editorMode then EditDialog(t)
    else if isAdmin then
      if t.status == Reserved || t.status == Permanent || FirstListing(rs, t.id).Some?
      then ReservationDetail(t.id) else NoEffect
    else if t.status == Available && !Lists(rs, t.id, Approved) then SelectionChange(Toggle(selected, t.id))
    else NoEffect
  }

  /**
   * A public click changes the selection exactly when the table is
   * available and no approved reservation lists it, and then toggles the
   * table; an admin click never changes the selection.
   */
  lemma ClickSelectionRule(editorMode: bool, isAdmin: bool, t: Table, rs: seq<Reservation>, selected: seq<string>)
    ensures !editorMode && !isAdmin ==>
              (ClickOutcome(editorMode, isAdmin, t, rs, selected).SelectionChange?
               <==> t.status == Available
                    && forall i :: 0 <= i < |rs| && t.id in rs[i].tableIds ==> rs[i].status != Approved)
    ensures ClickOutcome(editorMode, isAdmin, t, rs, selected).SelectionChange? ==>
              ClickOutcome(editorMode, isAdmin, t, rs, selected).selected == Toggle(selected, t.id)
    ensures isAdmin ==> !ClickOutcome(editorMode, isAdmin, t, rs, selected).SelectionChange?
  {
  }

  /** An admin click opens the reservation detail exactly for reserved or permanent tables and listed tables. */
  lemma AdminClickRule(t: Table, rs: seq<Reservation>, selected: seq<string>)
    ensures ClickOutcome(false, true, t, rs, selected).ReservationDetail?
            <==> t.status == Reserved || t.status == Permanent
                 || exists j :: 0 <= j < |rs| && t.id in rs[j].tableIds
  {
  }

  // ---- Editor status choices ----------------------------------------------

  /** The four statuses the editor's dialogs offer, in button order. */
  const EditorStatusChoices: seq<TableStatus> := [Available, Blocked, Permanent, Entrance]

  /** The declared statuses `pending` and `reserved` can never be chosen in the editor. */
  lemma EditorChoicesExclude()
    ensures |EditorStatusChoices| == 4
    ensures TableStatus.Pending !in EditorStatusChoices && Reserved !in EditorStatusChoices
    ensures forall s :: s in EditorStatusChoices <==> s != TableStatus.Pending && s != Reserved
  {
  }
}
