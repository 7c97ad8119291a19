# Table reservation board — a verified model

This project models the core of a web application for booking tables at a
fair. The hall is a 24 × 16 grid of cells, and a cell may hold a table.

- **Public page.** Visitors pick available tables and submit their contact
  data. This creates a *pending* reservation and stamps its tables with the
  reservation's id.
- **Administration dashboard.** Administrators approve, reject or delete
  reservations. They can also delete every reservation, edit a table's
  status, or reset the board.
- **Grid editor.** Staff select existing tables by click or drag rectangle
  and change their status in bulk. They select empty cells the same way and
  create tables on them in bulk.
- **Init route.** An HTTP route builds the full grid of available tables,
  deletes every table, overwrites table `0-8`, or lists the stored tables.
- **Fixture data.** A mock module holds a full grid of blocked tables and
  no reservations.

The modules follow the program's files:

| module | file(s) | form |
|---|---|---|
| `Types` | `types.dfy` | records and status enumerations |
| `TableIds` | `ids.dfy` | decimal rendering of numbers; table ids `"{x}-{y}"` |
| `ReservationOrder` | `order.dfy` | the newest-first ordering of reservations |
| `Services` | `services.dfy` | class `Services`: the table store (`map<string, Table>`) and the reservation list (`seq<Reservation>`) |
| `Layout` | `layout.dfy` | the 24 × 16 index mapping and the row-by-row grid build |
| `Grid` | `grid.dfy` | pure grid logic: lookup, colour, tooltip, toggling, drag rectangles, click effects |
| `Notify` | `notify.dfy` | notifications as abstract events, collected by an `Outbox` |
| `Admin` | `admin.dfy` | class `AdminDashboard` and its handlers |
| `Editor` | `editor.dfy` | class `TableGrid`: the grid component's state and handlers |
| `Home` | `home.dfy` | class `HomePage`: the public page's selection and submit |
| `InitRoute` | `init_route.dfy` | the four handlers of the init route |
| `MockData` | `mock_data.dfy` | the fixture data |

## How the model works

**Failures are inputs.** Every store operation takes `refused`, the set of
document ids whose writes the store refuses.

- A partial update of a document that does not exist fails as well.
- A batch commits all of its updates or none of them.
- A notification either reaches its endpoint or not (`reached`).
- A browser `confirm()` prompt is a boolean input.
- The clock is a `now: nat` parameter. A new reservation's id is `now` in
  decimal.

**Handlers are try blocks.** A handler runs its awaited steps in order. The
first failing step skips the rest without undoing the earlier writes, and the
`finally` block always clears the busy marker. Each handler's `ensures`
gives the new state for every failure the model takes as an input: a
refused write in each awaited store call, an undelivered notification, a
declined prompt.

**The `undefined` write.** `handleReject` writes `reservationId: undefined`
(src/components/AdminDashboard.tsx:56). The code cannot show what the store
does with that field. The constant `Services.onUndefined` leaves it open: the
store either ignores the field or refuses the write. Either way it is never
the `null` path that deletes the field (src/lib/services.ts:15,26).

**Reject keeps the link.** A rejected reservation's tables are blocked but
keep their link to it (`Services.RejectKeepsStamp`, `Admin.RejectKeepsLinks`).
The reject handler writes `reservationId: undefined` under the comment
"Vrátíme na výchozí stav" (src/components/AdminDashboard.tsx:55-56), not the
`null` that deletes the field, so the link stays.

## Model

| member | source | states |
|---|---|---|
| Types.TableStatusCases | src/types/index.ts:5 | a table status is one of exactly six values |
| Types.ReservationStatusCases | src/types/index.ts:16 | a reservation status is one of exactly three values |
| Types.ReservationLinkStates | src/types/index.ts:6 | reservationId is absent, `null` or a string: three distinct states |
| Types.StatusName | src/types/index.ts:16 | a reservation status renders as "pending", "approved" or "rejected" |
| Types.StatusNameInjective | src/types/index.ts:16 | different statuses render differently |
| TableIds.Decimal | src/lib/services.ts:92 | the decimal rendering of a number is non-empty and all digits |
| TableIds.DecimalRoundTrip | src/lib/services.ts:92 | parsing a rendered number gives the number back |
| TableIds.DecimalInjective | src/lib/services.ts:92 | different times give different reservation ids |
| TableIds.TableIdInjective | src/app/api/init/route.ts:13 | `"{x}-{y}"` names exactly one cell: equal ids iff equal coordinates |
| TableIds.TableIdZeroEight | src/app/api/init/route.ts:66 | the id of column 0, row 8 is "0-8" |
| ReservationOrder.Insert | src/lib/services.ts:86 | inserting into a sorted list adds exactly that reservation |
| ReservationOrder.InsertOrdered | src/lib/services.ts:86 | inserting keeps the list newest first |
| ReservationOrder.NewestFirst | src/lib/services.ts:86 | the sort is a permutation, ordered by `createdAt`, newest first |
| ReservationOrder.NewestFirstSameMembers | src/lib/services.ts:86 | sorting neither adds nor drops a reservation |
| ReservationOrder.NewestFirstStable | src/lib/services.ts:86 | the sort is stable: reservations created at the same time keep their relative order |
| Services.NullPatchDeletes | src/lib/services.ts:12-19 | only a `null` reservationId removes the field; `undefined` and omission keep it; a string sets it |
| Services.Patched | src/lib/services.ts:12-19 | the record a partial update leaves; its properties are stated by Services.NullPatchDeletes and Services.PatchedIdempotent |
| Services.PatchedIdempotent | src/lib/services.ts:21-32 | a patch keeps id and coordinates, and applying it twice equals applying it once |
| Services.PatchAllFrame | src/lib/services.ts:21-32 | a batch keeps the set of ids, patches exactly the listed tables, and leaves every other table as it was |
| Services.PatchAll | src/lib/services.ts:21-32 | the store after one batch; its properties are stated by Services.PatchAllFrame, Services.PatchAllIdempotent and Services.PatchAllOverride |
| Services.PatchAllIdempotent | src/lib/services.ts:98-101 | the same batch sent twice leaves the state of one batch |
| Services.PatchAllOverride | src/lib/services.ts:21-32 | a patch that sets both status and reservationId cancels any earlier patch of the same ids |
| Services.FirstUnwritable | src/lib/services.ts:120-125 | the writes before this position all succeed, and the one at it fails |
| Services.IndexOf | src/lib/services.ts:106 | `findIndex`: the first position with the id, or none when no reservation has it |
| Services.FindById | src/lib/services.ts:118 | `find`: a reservation with the id exists iff one is found, and the one found is the first in the list with that id |
| Services.UpdatedListEffect | src/lib/services.ts:105-115 | an unknown id changes nothing; a known id merges the fields into the first match and renews `updatedAt`; the length and every other reservation stay |
| Services.Merge | src/lib/services.ts:108-112 | the spread of the patch over the stored reservation with `updatedAt` renewed; stated through Services.UpdatedListEffect |
| Services.UpdatedList | src/lib/services.ts:105-115 | the list after `updateReservation`; stated by Services.UpdatedListEffect |
| Services.WithoutId | src/lib/services.ts:127 | `filter` drops every reservation with the id and keeps every other one as often as it occurs |
| Services.WithoutIdConcat | src/lib/services.ts:127 | filtering a concatenation filters each part and keeps their order |
| Services.WithoutIdOne | src/lib/services.ts:127 | one reservation is kept exactly when its id is another; with the concatenation law this fixes the filtered list, order included |
| Services.WithoutAbsentId | src/lib/services.ts:127 | filtering out an id no reservation has leaves the list as it was |
| Services.AllTableIds | src/lib/services.ts:132-138 | the flattened ids are exactly the tables that some reservation lists: every such table is included and nothing else is |
| Services.PutWritten | src/app/api/init/route.ts:21-26 | a whole-record write that is not refused reads back exactly, provided every write to that id carries the same record |
| Services.PutUntouched | src/app/api/init/route.ts:21-26 | an id that no accepted write names keeps its record, or stays absent |
| Services.PutValid | src/lib/services.ts:44-47 | whole-record writes keep every record under its own id |
| Services.StatusOnlyKeepsLinks | src/components/AdminDashboard.tsx:101 | a status-only patch changes the status of each listed table and keeps its reservationId |
| Services.ResetBlocksEverything | src/lib/services.ts:34-42 | after a reset every table is blocked with no reservationId; ids and coordinates are unchanged |
| Services.RejectKeepsStamp | src/components/AdminDashboard.tsx:54-57 | tables stamped for a reservation and then rejected are blocked but still linked to it |
| Services.ReleaseAfterApprove | src/lib/services.ts:117-129 | releasing approved tables leaves them available with no reservationId, as if they had only been released |
| Services.Services.UpdateTable | src/lib/services.ts:12-19 | succeeds iff the document exists, is not refused and the store takes the patch; on success only the named table changes |
| Services.Services.UpdateTables | src/lib/services.ts:21-32 | one atomic commit: it succeeds iff every listed document exists and is writable and, for a non-empty list, the store takes the patch; on success every listed table is patched and nothing else changes; on failure nothing changes |
| Services.StageBatch | src/lib/services.ts:21-30 | staging the batch sets the same patch on every listed document that exists, and the store is not touched until the commit |
| Services.Services.GetTables | src/lib/services.ts:7-10 | every stored record appears exactly once, and nothing else does |
| Services.Services.ResetTables | src/lib/services.ts:34-42 | one batch over every stored table: blocked, reservationId removed, the same ids, the reservations untouched |
| Services.Services.AddTable | src/lib/services.ts:44-47 | the whole record at `table.id` is replaced by the table; nothing else changes |
| Services.Services.DeleteTable | src/app/api/init/route.ts:47 | removes exactly that document unless the removal is refused |
| Services.Services.GetReservations | src/lib/services.ts:84-87 | sorts the list in place as a permutation, newest first, and returns it |
| Services.Services.CreateReservation | src/lib/services.ts:89-103 | appends exactly one reservation with the given fields and id `now`; returns that id; the batch sets every listed table to available and linked to it, or changes nothing |
| Services.Services.UpdateReservation | src/lib/services.ts:105-115 | the list becomes the merged list; the tables are untouched |
| Services.Services.ReleaseTables | src/lib/services.ts:120-125 | frees the listed tables in order up to the first failing write, and succeeds iff there is none |
| Services.Services.DeleteReservation | src/lib/services.ts:117-129 | frees the first match's tables up to the first failure; on success removes exactly the reservations with the id; an unknown id changes no table |
| Services.Services.DeleteAllReservations | src/lib/services.ts:131-142 | frees the tables of every reservation in list order up to the first failure; on success the list is empty |
| Layout.IndexMapping | src/components/TableGrid.tsx:292-294 | for idx < 384: column idx % 24 < 24, row idx / 24 < 16, and row * 24 + column = idx |
| Layout.CellMapping | src/components/TableGrid.tsx:292-294 | column x, row y sits at index y * 24 + x < 384 and maps back to (x, y) |
| Layout.BuildCells | src/app/api/init/route.ts:8-19 | the nested row-by-row loop builds exactly the grid of cell tables |
| Layout.CellsPlacement | src/app/api/init/route.ts:9-17 | the build has 384 entries; index y * 24 + x holds `"{x}-{y}"` at (x, y) with the chosen status |
| Layout.Cells | src/app/api/init/route.ts:9-17 | the row-by-row build of the 24 x 16 grid; stated by Layout.CellsPlacement, Layout.CellsEntries and Layout.CellsIdsDistinct |
| Layout.CellsEntries | src/app/api/init/route.ts:12-17 | every entry lies inside the grid, has the chosen status and no reservationId, and is named after its coordinates |
| Layout.CellsIdsDistinct | src/app/api/init/route.ts:12-17 | the 384 ids are pairwise distinct |
| Grid.IndexAt | src/components/TableGrid.tsx:271 | the first table on the cell, or none when no table is there |
| Grid.FindAt | src/components/TableGrid.tsx:98 | `find`: a table is found iff some table stands on the cell, and the found one is the first in the list on that cell |
| Grid.TableIdAt | src/components/TableGrid.tsx:97-100 | an id is returned iff a table stands on the cell, and it is the id of the first table in the list on that cell |
| Grid.Lists | src/components/TableGrid.tsx:18-25 | `some` holds iff a reservation of that status lists the table |
| Grid.ListingIndex | src/components/TableGrid.tsx:55 | the first reservation listing the table, or none when none does |
| Grid.FirstListing | src/components/TableGrid.tsx:55 | a reservation is found iff some reservation lists the table, and the found one does |
| Grid.FirstListingIsEarliest | src/components/AdminDashboard.tsx:138 | `find` returns the earliest listing reservation |
| Grid.ColorPriority | src/components/TableGrid.tsx:16-49 | an approved listing gives red whatever the status; otherwise a pending one gives light blue; with only rejected listings the status decides |
| Grid.TableColor | src/components/TableGrid.tsx:16-49 | `getTableColor`; its branch order is stated by Grid.ColorPriority, Grid.RejectedIgnored and Grid.ReservedLooksApproved |
| Grid.RejectedIgnored | src/components/TableGrid.tsx:16-49 | dropping a rejected reservation never changes a table's colour |
| Grid.ListsDrop | src/components/TableGrid.tsx:18-25 | whether some reservation of one status lists a table does not depend on a reservation of another status |
| Grid.ReservedLooksApproved | src/components/TableGrid.tsx:27-39 | a reserved table with no pending listing looks like an approved one |
| Grid.TooltipShows | src/components/TableGrid.tsx:51-61 | entrance and permanent tables have fixed texts; others show the earliest listing reservation of any status, or "free" |
| Grid.Tooltip | src/components/TableGrid.tsx:51-61 | `getTableTooltip`; stated by Grid.TooltipShows |
| Grid.ContactCardStatus | src/components/TableGrid.tsx:57 | the contact card ends with the reservation's status |
| Grid.ContactCard | src/components/TableGrid.tsx:57 | the contact card text; stated by Grid.ContactCardStatus |
| Grid.FlattenIndex | src/components/TableGrid.tsx:292 | flattening rows of width 24 puts row i / 24, column i % 24 at position i |
| Grid.GridCell | src/components/TableGrid.tsx:266-274 | cell idx of the flattened grid is the first table at (idx % 24, idx / 24), or null |
| Grid.Without | src/components/TableGrid.tsx:107 | `filter` drops every copy of the element and keeps every other element as often as it occurs |
| Grid.WithoutConcat | src/components/TableGrid.tsx:107 | filtering a concatenation filters each part, in order; a one-element list is kept exactly when it is another element |
| Grid.WithoutAbsent | src/components/TableGrid.tsx:107 | filtering out an absent element leaves the list as it was |
| Grid.WithoutDistinct | src/components/TableGrid.tsx:107 | filtering keeps a list free of duplicates |
| Grid.ToggleMembership | src/components/TableGrid.tsx:103-123 | after a toggle the element is present iff it was absent; no other element changes membership |
| Grid.Toggle | src/components/TableGrid.tsx:105-108 | the toggle of every selection list; stated by Grid.ToggleMembership, Grid.ToggleTwiceAbsent, Grid.ToggleTwicePresent and Grid.ToggleDistinct |
| Grid.ToggleTwiceAbsent | src/components/TableGrid.tsx:103-123 | toggling an absent element twice restores the list exactly |
| Grid.ToggleTwicePresent | src/components/TableGrid.tsx:103-123 | toggling a present element twice restores membership and moves the element to the end |
| Grid.ToggleDistinct | src/components/TableGrid.tsx:103-123 | a toggle never introduces a duplicate |
| Grid.RunMembers | src/components/TableGrid.tsx:149-153 | one row of the scan collects exactly the wanted cells between its bounds |
| Grid.RectMembers | src/components/TableGrid.tsx:140-168 | a drag collects exactly the wanted cells of the inclusive rectangle |
| Grid.RectRowMajor | src/components/TableGrid.tsx:147-165 | a drag lists its cells in row-major order, each once |
| Grid.IdsAt | src/components/TableGrid.tsx:161-162 | each scanned cell with a table gives that table's id, in order |
| Grid.ScanEmpty | src/components/TableGrid.tsx:147-154 | the nested loop collects the empty cells of the rectangle, row by row |
| Grid.OccupiedCells | src/components/TableGrid.tsx:151-152 | a cell counts as occupied exactly when `tables.find` finds a table on it |
| Grid.ScanOccupied | src/components/TableGrid.tsx:158-164 | the nested loop collects the ids of the tables in the rectangle, row by row |
| Grid.ClickSelectionRule | src/components/TableGrid.tsx:205-228 | a public click changes the selection iff the table is available and no approved reservation lists it, and then toggles it; an admin click never does |
| Grid.ClickOutcome | src/components/TableGrid.tsx:205-228 | `handleTableClick`; stated by Grid.ClickSelectionRule and Grid.AdminClickRule |
| Grid.AdminClickRule | src/components/TableGrid.tsx:210-216 | an admin click opens the detail iff the table is reserved, permanent, or listed by a reservation |
| Grid.EditorChoicesExclude | src/components/TableGrid.tsx:388-391 | the editor offers four statuses, never pending or reserved |
| Notify.Outbox.Send | src/lib/email.ts:194-203 | a notice is recorded exactly when it reaches the endpoint, and then the send succeeds |
| Admin.Actions | src/components/AdminDashboard.tsx:239-266 | approve and reject are shown iff the reservation is pending; delete always |
| Admin.OtherCardsStayEnabled | src/components/AdminDashboard.tsx:243 | the busy marker of one reservation disables its own buttons and no other card's |
| Admin.StatusColorsDistinct | src/components/AdminDashboard.tsx:123-134 | the three statuses get three distinct badge colours, none of them the grey default |
| Admin.StatusColor | src/components/AdminDashboard.tsx:123-134 | `getStatusColor`; stated by Admin.StatusColorsDistinct |
| Admin.DeleteNotice | src/components/AdminDashboard.tsx:72-75 | a cancellation is due iff the first known reservation with the id is approved |
| Admin.AdminDashboard.Load | src/components/AdminDashboard.tsx:22-31 | the dashboard holds the service's list, sorted newest first; the tables are untouched |
| Admin.AdminDashboard.Approve | src/components/AdminDashboard.tsx:33-48 | status approved, then tables reserved and linked, then exactly one approval notice, then reload; a failure skips the later steps and keeps the earlier ones |
| Admin.AdminDashboard.Reject | src/components/AdminDashboard.tsx:50-65 | status rejected, then tables blocked with reservationId `undefined` (a reservation without tables commits the empty batch whatever the store does with `undefined`), then one rejection notice, then reload; the same failure rule |
| Admin.AdminDashboard.Delete | src/components/AdminDashboard.tsx:67-83 | a declined prompt changes nothing; otherwise a cancellation goes out first for an approved reservation only, then the deletion, then reload |
| Admin.AdminDashboard.DeleteAll | src/components/AdminDashboard.tsx:85-97 | no notification is sent; a confirmed run frees every listed table and leaves no reservation, or stops at the first failure |
| Admin.AdminDashboard.EditTable | src/components/AdminDashboard.tsx:99-107 | only the status of that one table changes |
| Admin.AdminDashboard.ResetTables | src/components/AdminDashboard.tsx:109-121 | a declined prompt changes nothing; otherwise the board is reset and reloaded |
| Admin.AdminDashboard.TableReservationClick | src/components/AdminDashboard.tsx:137-140 | shows the first reservation listing the table; with none, the detail is unchanged |
| Admin.ApproveReservesTables | src/components/AdminDashboard.tsx:37-40 | approval sets each listed table to reserved and linked; every other table is unchanged |
| Admin.RejectKeepsLinks | src/components/AdminDashboard.tsx:54-57 | rejection blocks each listed table and never removes a reservationId |
| Editor.BulkAddReadsBack | src/components/TableGrid.tsx:190-203 | each accepted new table reads back exactly; every id no selected cell names keeps its record |
| Editor.WithStatusMirrors | src/components/TableGrid.tsx:178-187 | the local `map` after a bulk status change agrees with the store after the batch on every entry that agreed with it before |
| Editor.ReplacedMirrors | src/components/TableGrid.tsx:230-243 | when the dialog's table matched its stored record, the local `map` after the edit agrees with the store after the write on every entry that agreed before |
| Editor.TableGrid.EditorTableClick | src/components/TableGrid.tsx:103-110 | toggles the id in editor mode, so it is present iff it was absent; does nothing otherwise |
| Editor.TableGrid.EmptyCellClick | src/components/TableGrid.tsx:113-123 | toggles the cell in editor mode, so it is present iff it was absent; does nothing otherwise |
| Editor.TableGrid.MouseDown | src/components/TableGrid.tsx:126-137 | starts the drag; an empty cell becomes the only selected cell and the table selection is empty; otherwise both are empty |
| Editor.TableGrid.MouseEnter | src/components/TableGrid.tsx:140-168 | recomputes from scratch the kind the entered cell names over the inclusive rectangle, clears the other, and leaves one list empty |
| Editor.TableGrid.MouseUp | src/components/TableGrid.tsx:171-175 | ends the drag and leaves the selections alone |
| Editor.TableGrid.BulkStatus | src/components/TableGrid.tsx:178-187 | an empty selection changes nothing; otherwise exactly the selected tables get the status, in the store and locally, and the selection is cleared |
| Editor.TableGrid.BulkAdd | src/components/TableGrid.tsx:190-203 | an empty selection changes nothing; otherwise every new table is written; if all writes succeed they are appended and the selection is cleared |
| Services.WriteEach | src/components/TableGrid.tsx:199 | a `Promise.all` of whole-record writes leaves the store as the writes in order make it, refused ids untouched, and succeeds iff no id is refused |
| Editor.TableGrid.TableClick | src/components/TableGrid.tsx:205-228 | the click's effect is the one decided by the editor, admin and public rules |
| Editor.TableGrid.EditStatus | src/components/TableGrid.tsx:230-243 | with an open dialog and a dashboard, the dashboard patches that table's status and, when written, re-sorts and reloads the reservations; the local list replaces the table; otherwise nothing changes; the dialog always closes |
| Editor.TableGrid.AddTable | src/components/TableGrid.tsx:246-256 | writes the whole new table `"{x}-{y}"`, then appends it and closes the dialog |
| Home.FollowUpStampIsIdle | src/app/page.tsx:43-46 | the follow-up stamp finds the same documents the first batch found, and when it commits it leaves the tables as the first stamp did |
| Home.HomePage.TableSelect | src/app/page.tsx:18-20 | the selection becomes the reported one |
| Home.HomePage.FormSubmit | src/app/page.tsx:22-60 | an empty selection only gives an error; otherwise a pending reservation with the form data, a first and a second stamp each of which can fail, then exactly one confirmation to the submitted address; success clears the selection and closes the form, any failure keeps them and shows the error toast |
| Home.HomePage.FormCancel | src/app/page.tsx:62-65 | closes the form and clears the selection |
| Home.HomePage.ClearSelection | src/app/page.tsx:67-69 | clears the selection only |
| InitRoute.Post | src/app/api/init/route.ts:5-38 | writes the 384 available cell tables whole, counts 384, and succeeds iff no write is refused |
| InitRoute.PostStoresGrid | src/app/api/init/route.ts:21-26 | after a successful build every cell holds exactly its available table, so any old reservationId is gone; other ids keep their records |
| InitRoute.Delete | src/app/api/init/route.ts:40-60 | removes every stored table not refused; the count is the number of tables that existed; success iff none is refused, leaving the store empty |
| InitRoute.RemoveEach | src/app/api/init/route.ts:46-50 | issues one removal per listed record and counts them |
| InitRoute.DeleteSucceeds | src/app/api/init/route.ts:51 | all removals succeed iff no stored id is refused |
| InitRoute.ZeroEightIsGridCell | src/app/api/init/route.ts:65-70 | the record written is the available table of column 0, row 8, as the full build makes it |
| InitRoute.Patch | src/app/api/init/route.ts:62-80 | record "0-8" becomes exactly `{id: "0-8", x: 0, y: 8, status: available}`; nothing else changes |
| InitRoute.Get | src/app/api/init/route.ts:82-95 | every stored table appears, each once, and the store is untouched |
| MockData.MockTables | src/lib/mockData.ts:4-15 | the fixture is the row-by-row grid of blocked tables |
| MockData.MockTablesShape | src/lib/mockData.ts:6-15 | 384 entries; index y * 24 + x holds `"{x}-{y}"` at (x, y); all blocked, none with a reservationId, all ids distinct |
| MockData.MockBoardIsBlocked | src/lib/mockData.ts:4-18 | with no mock reservations, every mock table is drawn in the blocked colour and its tooltip says it is free |

## Left out

- I/O is reduced to its observable effect. The Firestore calls (`getDocs`, `setDoc`, `writeBatch`, `deleteField`) become map updates. The localStorage load and save become the reservation list, and the 500 ms delay is dropped.
- A `getDocs` call is never refused here, because only writes fail in this model.
- The store's handling of an `undefined` field is the `onUndefined` parameter, because the code cannot show it.
- Notifications are abstract events (kind, recipient, first and last name, approval flag, table count). Email templates, nodemailer and the email routes are out of scope. A fetch that resolves counts as delivered whatever its HTTP status.
- The session helper and its placeholder credential, `confirm()` (a boolean input), and the CSS outside the two colour mappings are not modelled. The booking page's three toast texts are modelled (`Home.Toast`); how a toast is displayed is not.
- The read-only and form-only components and the admin and test pages are not modelled.
- `Date.now()` and `new Date()` are a `now` parameter. The model makes no claim that reservation ids are unique.
- `Promise.all` in `handleBulkAdd` and in the init `POST` and `DELETE` is modelled as sequential, independent writes. They are all issued, and the run succeeds iff none fails.
- Services.Services.GetTables: promises no order, because the store's document order is not visible in the code.
- Admin.AdminDashboard.Load: the dashboard keeps a copy of the service's list. JavaScript shares the same array between the two, and that aliasing is not modelled.
- Editor.TableGrid.EditStatus: modelled as an operation. The model does not claim it is reachable: the render sends editor clicks to `handleEditorTableClick`, so the edit dialog never opens.
- Editor.TableGrid.AddTable: modelled as an operation. The model does not claim it is reachable: nothing ever opens the add dialog.
- The props `editorMode` and `isAdmin` are fixed for a `TableGrid` instance. The dashboard's editor-mode switch is not modelled.
- The model does not use the order of browser events (for example, mouse-down before click).
- The `TableGrid` load effect, which reads tables and reservations on mount, is the constructor's arguments.
