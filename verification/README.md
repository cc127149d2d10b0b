# Barbería: a verified model of the booking application and of its vendored byte primitives

This project models, in Dafny 4.11, the parts of the repository whose behaviour spans several functions or whole runs,
and proves what they keep.

**The browser booking client** (`src/services/barberiaApi.js`)

- `Scheduling` holds appointments, the reading of `HH:MM` and the conflict test; `Merge` the id-keyed merge of the
  remote and the local list; `BarberiaApi` the client itself as a class over one storage cell.
- `BookingProtocol` models `createAppointment` as two atomic steps, snapshot and check-and-write, with any number of
  calls between their steps. Reads and writes of the storage may fail.
- `BookingConservation` says what one booking, and a run of bookings one after the other, adds to the list shown,
  `BookingOverlap` which bookings survive any interleaving; `BookingCapacity` how many bookings one barber can have on
  one day; `RemoteChange` what a remote list shows that is not the one the bookings were checked against;
  `FetchedRuns` runs in which every call fetches a remote list of its own.

**The React application** (`frontend/src`)

- `Registros` and `DbSimulada` are the persisted record store, `ApiCliente` the layer that calls an unreliable backend
  before the store.
- `Reserva` is the five-step wizard, the confirmations and the status changes as one state machine; `Aplicacion` has the
  two components as classes whose methods perform its actions; `Precios` and `Cuentas` cover discounts, prices and the
  projected revenue; `Catalogo` the filter and the stable sort of the catalogue.

**The vendored MariaDB headers with inline bodies**

- `Bits`, `ByteOrder`, `Korr`, `Store` (byte order), `Alineacion` (alignment), `CString` (bounded copy and append),
  `Uuid` (UUID text) and `IoCache` (buffered I/O).

The theorems about runs of the booking client, of the store and of the application quantify over every sequence of
steps, with failing reads, failing writes and every network outcome. Three kinds ask for more, and say so: the
conservation theorems are about calls of client 1 under new ids over a remote list whose records of client 1 have ids;
a prudent run (`SinDobleReserva`) does not meet a failing read, while `SinDoblesExactlyWhenSegura` covers those too; and
the stream theorems of the buffered I/O are about successful calls. Inputs from outside (network answers, the clock,
storage failures, the random reservation code) are parameters of the steps.

## What the code does that its texts do not say

- The message asks for "at least 40 minutes", but exactly 40 minutes is refused (`ConflictMeaning`).
- Separation does not need fresh ids: a snapshot that is written back always wins over older copies. It does need that
  no remote record of client 1 without id conflicts with itself (`WriteKeepsSeparation`), and that the remote list does
  not change under the stored one: after a loss of the server, or any other change, the new list must avoid the stored
  bookings (`ChangeAfterRunSafeExactlyWhen`, `ServerLossSafeExactlyWhen`).
- A booking that the server stores comes back under the server's id and conflicts with its own local copy, unless the
  two ids are the same (`ServerCopySafeExactlyWhen`, `ServerIdMustAgree`).
- Overlapping bookings can both be accepted and one of them lost (`OverlapLosesABooking`). So can bookings that do not
  overlap: a read of the storage that fails yields an empty list, so the call is checked against the remote list alone
  and its write drops what was stored (`FailedReadLosesABooking`). A run conserves its bookings exactly when every
  accepted write is seen by the snapshots of all later accepted ones, and no failed read drops what the storage showed
  at the start (`RunConservesExactlyWhen`; one call after the other, `SerialRunsConserve`).
- The confirmation button of the wizard works again while the booking is still on its way, so two clicks double-book
  (`DoubleClickDoubleBooks`); restoring the data meanwhile, or reviving a cancelled appointment, is safe only when the
  block is free (`RestoreWhilePendingSafeExactlyWhen`, `ReviveSafeExactlyWhenFree`).
- A booking of the wizard that cannot read the storage but can write it replaces all stored appointments by the initial
  ones and itself (`BookingWithoutReadStartsOver`).
- The id of a deleted row may be given out again (`DeletedIdReusedExactlyWhen`).
- The shipped appointment at 15:30 occupies no block, since all blocks begin on the hour (`InitialOccupancy`).
- An appointment with a 100% discount is projected at its full price (`BookedValueIsTotalExactlyWhen`).
- `safe_strcat` returns 1 for an empty source when the buffer is full, although its comment promises 0
  (`NoFlagExactlyWhen`); `safe_strcpy` asks for a size above 0, but with a size of one it reads the
  character in front of the buffer and misses the truncation when that is a NUL (`SafeStrcpy`).

## Model

| member | source | states |
|---|---|---|
| Scheduling.ValidHoraMinutes | src/services/barberiaApi.js:23-26 | splitting and converting a well-formed `HH:MM` gives exactly its minute of the day |
| Scheduling.FormatHoraRoundTrip | src/services/barberiaApi.js:23-26 | every minute of the day is the value of some well-formed text |
| Scheduling.TimeOfParts | src/services/barberiaApi.js:23-26 | for any text: the parts before and behind the first colon are hours and minutes, further parts do not count, a missing part is 0, the empty text is midnight, a part that is no number gives no time |
| Scheduling.ConflictMeaning | src/services/barberiaApi.js:28-46 | for well-formed hours two appointments conflict if and only if they share barber and day and are at most 40 minutes apart; symmetric |
| Merge.MergeMeetsSpecification | src/services/barberiaApi.js:77-89 | for every list each id is shown once, ordered by first positions, with the record at its last position, then the records without id in order |
| Merge.MergeSpecificationUnique | src/services/barberiaApi.js:77-89 | that specification by positions has only one solution |
| MergeLaws.MergeIdempotent | src/services/barberiaApi.js:77-89 | merging a merged list changes nothing, for every input |
| MergeLaws.MergeWithItself | src/services/barberiaApi.js:76-89 | merging a list with a copy of itself changes nothing if and only if every record has an id |
| MergeLaws.KeysAppend | src/services/barberiaApi.js:76-87 | the keys of remote plus local: the remote ones in order, then the new local ones in order |
| MergeLaws.LastAppend | src/services/barberiaApi.js:76-87 | the local record wins over the remote one under the same id |
| MergeLaws.ViewMembers | src/services/barberiaApi.js:75-89 | every shown record is remote, or stored and of the client |
| MergeLaws.LocalIsFilter | src/services/barberiaApi.js:75 | the stored records that are merged are those whose clienteId is the number asked for, in order |
| BookingProtocol.WriteKeepsSeparation | src/services/barberiaApi.js:102-112 | an accepted write keeps the merged view conflict-free if and only if no remote record of client 1 without id conflicts with itself |
| BookingProtocol.NewAppointmentIsBooking | src/services/barberiaApi.js:93-100 | the record built is the one with the new id, the state PENDIENTE, the payload's client, barber, day and hour, and its names or their defaults |
| BookingProtocol.ConflictOfPayload | src/services/barberiaApi.js:28-46 | a booking of a valid hour is in conflict if and only if the list holds a record of the payload's barber and day at most 40 minutes from the payload's hour |
| BookingProtocol.NextKeepsInv | src/services/barberiaApi.js:92-112 | each step of any call keeps storage, view and all snapshots in flight conflict-free |
| BookingProtocol.RunsStaySeparated | src/services/barberiaApi.js:70-112 | in every interleaving of any number of calls, with failing reads and writes and any ids, storage and view stay conflict-free |
| BookingProtocol.RunsKeepFortyMinutes | src/services/barberiaApi.js:70-112 | from an empty storage and a remote list with ids, appointments of one barber and day stay more than 40 minutes apart in storage and view |
| BookingConservation.AcceptedIsInserted | src/services/barberiaApi.js:75-112 | an accepted booking of client 1 under a new id makes the next view the old one with exactly it inserted behind the remote part |
| BookingConservation.ConservedExactlyWhen | src/services/barberiaApi.js:75-112 | the next view is the old one plus the booking if and only if the booking is of client 1 under a new id and no remote record of client 1 lacks an id |
| BookingConservation.SerialRunsConserve | src/services/barberiaApi.js:92-133 | after calls of client 1 one after the other, under distinct new ids and with any failing reads and writes, over a remote list whose records of client 1 have ids, the view holds what it held plus exactly the accepted and stored bookings if and only if no booking was accepted on a failed read while the storage added something to the view |
| BookingOverlap.SurvivesExactlyWhenSeen | src/services/barberiaApi.js:92-112 | after any interleaving of such calls, with any failing reads and writes, the view holds what the chain of snapshots behind the last write started from, the stored list or nothing after a failed read, plus exactly the bookings on that chain |
| BookingOverlap.LostExactlyWhenOverlapped | src/services/barberiaApi.js:102-112 | for every run at all: fewer bookings survive than were accepted and stored if and only if some accepted write is not seen by the snapshot of a later one, because it falls between the two steps of that call or the read of that call failed; else they are the same list |
| BookingOverlap.RunConservesExactlyWhen | src/services/barberiaApi.js:92-112 | after any interleaving of such calls, with any failing reads and writes, the view holds what it held plus all accepted and stored bookings if and only if every accepted write is seen by all later ones and the chain starts from a list that shows what the storage showed |
| BookingOverlap.ReadRunsStartStored | src/services/barberiaApi.js:6-13 | when no read fails the chain starts from the stored list, so only an overlap loses bookings |
| BookingOverlap.FailedReadLosesABooking | src/services/barberiaApi.js:6-13 | for all pairs of bookings of client 1, a call after the other whose read fails is accepted and keeps only itself |
| BookingOverlap.OverlapLosesABooking | src/services/barberiaApi.js:102-112 | for all pairs of bookings of client 1, overlapping calls from an empty shop accept both and keep only the second |
| RemoteChange.ViewSeparatedExactlyWhen | src/services/barberiaApi.js:70-90 | for every remote list, stored list and client the view is conflict-free if and only if the remote records not replaced by a stored one are, the stored ones are, and none of the former conflicts with one of the latter |
| RemoteChange.ChangeAfterRunSafeExactlyWhen | src/services/barberiaApi.js:48-63 | after any interleaving over one remote list, another conflict-free list is shown without conflicts if and only if none of its records that stay visible conflicts with a stored one |
| RemoteChange.ServerCopySafeExactlyWhen | src/services/barberiaApi.js:111-133 | once the server lists its copy of an accepted booking, the view stays conflict-free if and only if the copy has the id of a stored record or the booking cannot conflict with itself |
| RemoteChange.ServerIdMustAgree | src/services/barberiaApi.js:93-133 | for a valid hour and a server id not shown before, the two copies of a booking conflict exactly when the ids differ |
| FetchedRuns.SameListSameRun | src/services/barberiaApi.js:70-112 | runs in which every call fetches the same list are the runs of the protocol over that list |
| FetchedRuns.SnapshotCleanExactlyWhen | src/services/barberiaApi.js:70-102 | a snapshot of a conflict-free list and a conflict-free storage is conflict-free if and only if no visible remote record conflicts with a stored one |
| FetchedRuns.StorageSafeExactlyWhen | src/services/barberiaApi.js:70-112 | in every interleaving in which each call fetches a conflict-free list of its own, the storage is conflict-free at every point if and only if each accepted call that is written had fetched a list that avoids the storage it read |
| BookingCapacity.Packing | src/services/barberiaApi.js:43-45 | points of an interval at pairwise distance of 41 or more: how many fit |
| BookingCapacity.OneChairAtMost36 | src/services/barberiaApi.js:23-46 | a conflict-free list of one barber's day has at most 36 appointments |
| BookingCapacity.RunsRespectCapacity | src/services/barberiaApi.js:92-112 | no interleaving ever stores or shows more than 36 for one barber and day |
| BookingCapacity.CapacityIsReached | src/services/barberiaApi.js:92-112 | for every n up to 36 a run of bookings reaches n |
| BarberiaApi.BarberiaApi.GetAppointments | src/services/barberiaApi.js:70-90 | the loop over Map and array yields the specified merge of the server's list with the stored records of the client; of those alone for another JSON value, and of the fallback list with them when the server does not answer |
| BarberiaApi.BarberiaApi.CheckAndWrite | src/services/barberiaApi.js:103-112 | refuses exactly on a conflict and then leaves the storage alone, otherwise stores the appointment in front of the snapshot |
| BarberiaApi.BarberiaApi.CreateAppointment | src/services/barberiaApi.js:92-133 | a booking of a valid hour is refused if and only if the merged view of the server's answer and the storage holds a record of the payload's barber and day at most 40 minutes away; else the record of the payload, new id and PENDIENTE, is stored in front of that view when the write succeeds, and returned when the POST fails; storage as of the two protocol steps in a row |
| BarberiaApi.FallbackIsSafe | src/data/mockData.js:122-151 | the list used when the server does not answer meets the hypotheses of the run theorems |
| BarberiaApi.FallbackRefusesExactly | src/data/mockData.js:122-151 | without server and storage exactly these bookings are refused: barber 1 on 2026-11-02 from 9:50 to 11:10, barber 2 on 2026-11-04 from 16:20 to 17:40 |
| BarberiaApi.ServerLossSafeExactlyWhen | src/services/barberiaApi.js:48-63 | after any run over any remote list, losing the server keeps the view conflict-free if and only if no fallback record, save one replaced under its id, conflicts with a stored one |
| Registros.MaxIdBounds | frontend/src/data/dbSimulada.js:316 | the fold over the ids yields 0 or an id that is there and bounds all |
| Registros.CrearRefines | frontend/src/data/dbSimulada.js:309-325 | creating adds one entry under the id after all live ids |
| Registros.ActualizarRefines | frontend/src/data/dbSimulada.js:334-349 | updating changes exactly the entry of the id, if there is one |
| Registros.ActualizarKeepsIds | frontend/src/data/dbSimulada.js:341-345 | updating keeps every id at its position |
| Registros.EliminarRefines | frontend/src/data/dbSimulada.js:357-369 | deleting removes exactly the entry of the id, and the list gets shorter exactly then |
| Registros.SinIdRemovesOneRow | frontend/src/data/dbSimulada.js:362 | deleting takes out exactly one row and keeps the order of the others |
| Registros.DeletedIdReusedExactlyWhen | frontend/src/data/dbSimulada.js:316-320 | a deleted id is given out again next if and only if it was the greatest and its predecessor is live (or it was 1) |
| DbSimulada.CorridaValida | frontend/src/data/dbSimulada.js:251-377 | in every run, with any failed reads and writes, stored ids stay positive and distinct |
| DbSimulada.SiguienteRefines | frontend/src/data/dbSimulada.js:251-377 | one operation takes the specified step on maps from id to record; a lost write changes nothing; after a failed read the blob stays or is a step from the initial data |
| DbSimulada.CorridaRefines | frontend/src/data/dbSimulada.js:251-377 | the same at every point of every run, with lost writes and failed reads |
| DbSimulada.SeedsOnce | frontend/src/data/dbSimulada.js:251-263 | only a first load that can read and write stores the initial data |
| DbSimulada.MissingRowWritesNothing | frontend/src/data/dbSimulada.js:334-369 | an update or deletion of a missing row writes nothing beyond what its load stored |
| DbSimulada.DbSimulada.CargarBaseDatos | frontend/src/data/dbSimulada.js:251-263 | what a load returns and stores when the cell is empty, readable or failing |
| DbSimulada.DbSimulada.PersistirBaseDatos | frontend/src/data/dbSimulada.js:268-274 | the cell holds the data, or the old text when the write fails |
| DbSimulada.DbSimulada.ObtenerTodos | frontend/src/data/dbSimulada.js:285-288 | returns the loaded collection, empty when it does not exist |
| DbSimulada.DbSimulada.ObtenerPorId | frontend/src/data/dbSimulada.js:296-301 | the lookup in the map that the loaded collection stands for |
| DbSimulada.DbSimulada.Crear | frontend/src/data/dbSimulada.js:309-325 | appends the record under an id above every live one, whatever id came in |
| DbSimulada.DbSimulada.Actualizar | frontend/src/data/dbSimulada.js:334-349 | spreads the changes over the first row with the id and keeps the id; null when there is none |
| DbSimulada.DbSimulada.Eliminar | frontend/src/data/dbSimulada.js:357-369 | answers true exactly when the map has the id |
| DbSimulada.DbSimulada.RestablecerDatos | frontend/src/data/dbSimulada.js:374-377 | stores the initial data; a failing write throws and changes nothing |
| ApiCliente.RunsAgree | frontend/src/services/api.js:87-134 | two runs of the same orders under any two network patterns end with identical appointments and identical id lists everywhere |
| ApiCliente.SiguienteAgrees | frontend/src/services/api.js:282-341 | one order keeps that agreement |
| ApiCliente.ContentsAgreeExactlyWhenEchoed | frontend/src/services/api.js:87-102 | a creation online stores what an offline one stores if and only if the server echoes the fields or the write is lost |
| ApiCliente.UpdatesAgreeExactlyWhen | frontend/src/services/api.js:104-119 | an update online stores what an offline one stores if and only if there is no such row, the write is lost, or the server's body has the same effect on every field of the row |
| ApiCliente.Api.VerificarEstadoBackend | frontend/src/services/api.js:43-53 | the flag tells whether the answer was a success |
| ApiCliente.Api.ListarServicios | frontend/src/services/api.js:63-75 | which list is returned and how the flag moves; an error status leaves it alone |
| ApiCliente.Api.CrearEn | frontend/src/services/api.js:87-102 | exactly one local creation, of the server's body or of what was sent |
| ApiCliente.Api.ActualizarEn | frontend/src/services/api.js:104-119 | exactly one local update |
| ApiCliente.Api.EliminarDe | frontend/src/services/api.js:121-134 | exactly one local deletion; a success status answers true even for a missing row |
| ApiCliente.Api.AgendarCita | frontend/src/services/api.js:282-319 | whatever the network does: the record returned, and stored last when the write succeeds, has the state CONFIRMADA, the new code and every other field as sent, under an id above all others |
| ApiCliente.Api.CambiarEstadoDe | frontend/src/services/api.js:321-341 | exactly one local status update: the row gets the new state and keeps its other fields, the other rows stay |
| Precios.DescuentoIsNearest | frontend/src/pages/BookingPage.jsx:85 | the discount is the integer nearest to the exact percentage, the upper one on a tie |
| Precios.DescuentoAcotado | frontend/src/pages/BookingPage.jsx:84-86 | for percentages 0..100 discount and total add up, lie in 0..price, and the total is within half a peso |
| Precios.TotalMonotone | frontend/src/pages/BookingPage.jsx:84-86 | a higher percentage never raises the total |
| Precios.TotalNonNegativeExactlyWhen | frontend/src/pages/BookingPage.jsx:84-86 | for any percentage from 0 the total is non-negative if and only if price * (percentage - 100) < 50 |
| Precios.PrimerCuponDecide | frontend/src/pages/BookingPage.jsx:93-102 | the first active promotion under the code decides; none gives 0 |
| Precios.ValeExactlyWhen | frontend/src/pages/BookingPage.jsx:94 | a promotion is valid for a code if and only if it is not switched off and the texts between the blanks agree up to case |
| Precios.CouponIgnoresCaseAndBlanks | frontend/src/pages/BookingPage.jsx:93-102 | the case of the code and blanks around it make no difference to the percentage |
| Precios.TrimSplits | frontend/src/pages/BookingPage.jsx:94 | trimming cuts blanks in front and behind and leaves none at the ends |
| Precios.BlankCodePoints | frontend/src/pages/BookingPage.jsx:140 | which characters trimming takes for blanks |
| Reserva.NuevaOcupa | frontend/src/pages/BookingPage.jsx:105-112 | a stored booking occupies exactly its own block, barber and day |
| Reserva.NuevaOcupaBarbero | frontend/src/pages/BookingPage.jsx:105-112 | the same by numbers: a stored booking occupies its block for its own barber only |
| Reserva.DecimalInjective | frontend/src/pages/BookingPage.jsx:107 | different barber numbers have different texts |
| Reserva.DecimalRoundTrip | frontend/src/pages/BookingPage.jsx:107 | a printed number is read back |
| Reserva.SameBarber | frontend/src/pages/BookingPage.jsx:107 | the barber test holds for the same number or a text that writes it, and for no missing field |
| Reserva.OccupiedExactlyWhen | frontend/src/pages/BookingPage.jsx:105-112 | a block is occupied if and only if some appointment of that barber number and day that is not cancelled has an hour beginning with it |
| Reserva.AgendarSafeExactlyWhenFree | frontend/src/pages/BookingPage.jsx:105-112 | a booking keeps the days free of double bookings if and only if its block is free when it is stored |
| Reserva.CambioMantieneLibre | frontend/src/App.jsx:163-171 | a status change that revives nothing occupies no new block |
| Reserva.ReviveSafeExactlyWhenFree | frontend/src/pages/AdminDashboardPage.jsx:457-468 | reviving a cancelled appointment is safe if and only if its own turn is still free |
| Reserva.WizardStepKeeps | frontend/src/pages/BookingPage.jsx:115-157 | inside the wizard the step stays in 1..5 and from step 4 on the chosen block is free |
| Reserva.AvanzaExactlyWhen | frontend/src/pages/BookingPage.jsx:115-152 | from which step the wizard moves on, and that it does one step: step 5 is entered only with three texts that are not blank and a valid e-mail |
| Reserva.ControlsOfSteps | frontend/src/pages/BookingPage.jsx:154-400 | every control sets its own field on its own step and nothing else |
| Reserva.MountedPage | frontend/src/pages/BookingPage.jsx:18-65 | the state of a freshly mounted page |
| Reserva.LoginKeepsTyped | frontend/src/pages/BookingPage.jsx:67-76 | a login keeps what was typed and fills the rest |
| Reserva.PedidoKeepsChoice | frontend/src/pages/BookingPage.jsx:164-183 | the confirmation is for the page's barber, day and hour, the client it is given and the page's price |
| Reserva.FieldsOfPedido | frontend/src/pages/BookingPage.jsx:164-183 | the record sent on has exactly these fields |
| Reserva.RefusedDay | frontend/src/pages/BookingPage.jsx:186-194 | a confirmation for 2099-01-01 stores nothing; every other one is booked, and the reload decides what is shown |
| Reserva.ActionsOfApp | frontend/src/App.jsx:83-186 | what every other action of the application changes and leaves alone |
| Reserva.EjecutarKeepsBien | frontend/src/App.jsx:83-186 | every prudent action, whose reads succeed, keeps the invariant of the whole application |
| Reserva.SinDobleReserva | frontend/src/App.jsx:115-186 | in every prudent run, whose reads succeed, no two active appointments of one barber and day occupy the same block |
| Reserva.CitasInicialesSinDobles | frontend/src/data/dbSimulada.js:167-208 | the shipped appointments are free of double bookings |
| Reserva.InitialOccupancy | frontend/src/data/dbSimulada.js:167-208 | of all blocks the shipped appointments occupy only that of barber 1 at 11:00 on 2026-11-05 |
| Reserva.PrudentFromFirstStart | frontend/src/data/dbSimulada.js:167-208 | so every prudent run from a first start is safe |
| Reserva.ActionSafeExactlyWhen | frontend/src/App.jsx:115-186 | an action, with any failing reads and writes, keeps the stored days free of double bookings if and only if a booking it writes finds its block free, and an appointment it revives its turn, among the appointments its operation loads |
| Reserva.SinDoblesExactlyWhenSegura | frontend/src/App.jsx:83-186 | a run, with any number of confirmations outstanding and any failing reads and writes, stores and shows no double booking at any point if and only if each of its actions meets that condition |
| Reserva.BookingWithoutReadStartsOver | frontend/src/data/dbSimulada.js:251-263 | a booking that cannot read but can write leaves the initial appointments and itself |
| Reserva.DoubleClickDoubleBooks | frontend/src/pages/BookingPage.jsx:186-194 | from every good state at step 5, two clicks before the first booking is done double-book |
| Reserva.RestoreWhilePendingSafeExactlyWhen | frontend/src/App.jsx:183-186 | restoring the data under an outstanding confirmation is safe if and only if the initial data leave its block free |
| Reserva.RunsIgnoreNetwork | frontend/src/services/api.js:282-341 | runs that differ only in the answers to bookings and status changes end in the same state |
| Cuentas.CuentasSiempreCuadran | frontend/src/pages/BookingPage.jsx:165-183 | in every run with percentages in 0..100 and any failing reads and writes every stored and every shown appointment has price = discount + total, 0 <= total <= price |
| Cuentas.CitasInicialesCuadran | frontend/src/data/dbSimulada.js:167-208 | the shipped appointments have it too |
| Cuentas.CambioMueve | frontend/src/services/api.js:321-341 | a status change moves the revenue by minus the value on cancelling an active record, plus on reviving, else by nothing |
| Cuentas.SecondCancellationChangesNothing | frontend/src/services/api.js:321-341 | only the first cancellation subtracts |
| Cuentas.IngresosMasPerdido | frontend/src/pages/AdminDashboardPage.jsx:48 | projected revenue plus the value of cancelled records is the value of all records |
| Cuentas.ValueOfRecord | frontend/src/pages/AdminDashboardPage.jsx:48 | a record counts with its total when that is a number other than 0, else with its price, else with 0 |
| Cuentas.LibroCuadra | frontend/src/pages/AdminDashboardPage.jsx:48 | over every run with any failing reads and writes the revenue of the stored appointments is the value booked so far minus the value of what is cancelled now, where a restore or a write after a failed read starts over with the initial bookings; the shown revenue too when the shown appointments are the stored ones |
| Cuentas.BookedValueIsTotalExactlyWhen | frontend/src/pages/AdminDashboardPage.jsx:48 | a booking counts with its total if and only if the total is not 0 or the price is 0 |
| Aplicacion.BookingPage.constructor | frontend/src/pages/BookingPage.jsx:18-76 | the state of a freshly mounted page, contact fields filled from the logged-in user and the preselected coupon applied |
| Aplicacion.BookingPage.RellenarContacto | frontend/src/pages/BookingPage.jsx:67-76 | a login fills exactly the contact fields that are still untouched |
| Aplicacion.BookingPage.ValidarCupon | frontend/src/pages/BookingPage.jsx:93-102 | the search loop sets the specified percentage and nothing else |
| Aplicacion.BookingPage.AvanzarPaso | frontend/src/pages/BookingPage.jsx:115-152 | performs the advance action, with every refusal; step 4 only when no appointment of that barber number takes the block, step 5 only with three texts that are not blank |
| Aplicacion.BookingPage.RetrocederPaso | frontend/src/pages/BookingPage.jsx:154-157 | performs the back action |
| Aplicacion.BookingPage.ElegirHora | frontend/src/pages/BookingPage.jsx:385-400 | sets the hour if and only if no appointment of that barber number that is not cancelled takes the block |
| Aplicacion.BookingPage.NuevaCita | frontend/src/pages/BookingPage.jsx:164-183 | the record sent on: the page's barber, day and hour, the given client, prices that fit together |
| Aplicacion.App.constructor | frontend/src/App.jsx:61-75 | the start state, with the initial appointments when the read fails |
| Aplicacion.App.ManejarConfirmacionFinal | frontend/src/pages/BookingPage.jsx:160-194 | performs the click |
| Aplicacion.App.FinalizarReserva | frontend/src/App.jsx:115-125 | performs the booking or refusal after the timer, reloads and leaves the page, with any failing read of either |
| Aplicacion.App.HandleCambiarEstadoCita | frontend/src/App.jsx:163-171 | performs the status change and reloads the appointments, with any failing read of either |
| Aplicacion.App.HandleRestablecerDatos | frontend/src/App.jsx:183-186 | performs the restore and the reload, whose read may fail; a failing write leaves everything |
| Aplicacion.App.Mantenimiento | frontend/src/App.jsx:127-161 | performs an operation on another collection and its reload, and leaves the shown appointments as they are |
| Aplicacion.App.Recorrer | frontend/src/App.jsx:83-186 | a whole session performs the run of the state machine, so it ends without stored or shown double bookings whenever a theorem about runs applies |
| Catalogo.OrdenadoIsStable | frontend/src/pages/ServicesCatalogPage.jsx:24-29 | the sort is a sorted, stable permutation of its input |
| Catalogo.StableSortUnique | frontend/src/pages/ServicesCatalogPage.jsx:24-29 | two sorted lists with the same groups of equal elements are equal, so any stable algorithm gives this result |
| Catalogo.MostradosIsTheStableSort | frontend/src/pages/ServicesCatalogPage.jsx:16-30 | a list is a stable sort of the matching services if and only if it is the one shown |
| Catalogo.MostradosIsPermutation | frontend/src/pages/ServicesCatalogPage.jsx:16-30 | exactly the matching services are shown, each as often as it occurs |
| Catalogo.PrecioAscOrder | frontend/src/pages/ServicesCatalogPage.jsx:25 | by price upward no dearer service stands before a cheaper one, and those of one price keep the source order |
| Catalogo.PrecioDescOrder | frontend/src/pages/ServicesCatalogPage.jsx:26 | by price downward no cheaper service stands before a dearer one, and those of one price keep the source order |
| Catalogo.DuracionOrder | frontend/src/pages/ServicesCatalogPage.jsx:27 | by duration no longer service stands before a shorter one, and those of one duration keep the source order |
| Catalogo.CoincideExactlyWhen | frontend/src/pages/ServicesCatalogPage.jsx:18-22 | a service matches if and only if it is of the chosen category, or all are wanted, and the search text stands in its name or description, whatever the case |
| Catalogo.DefectoKeepsOrder | frontend/src/pages/ServicesCatalogPage.jsx:28 | the default order keeps the order of the source |
| Catalogo.FilterCommutesWithSort | frontend/src/pages/ServicesCatalogPage.jsx:17-29 | filtering before or after the stable sort gives the same list |
| Bits.OrDisjoint | mariadb-10.11.2-winx64/include/mysql/server/byte_order_generic.h:36-64 | joining bits below a position with bits from it on is addition |
| Bits.AndHighMask | mariadb-10.11.2-winx64/include/mysql/server/my_global.h:835-836 | masking with the complement of 2^k - 1 clears the low k bits |
| ByteOrder.ShiftOrIsLE | mariadb-10.11.2-winx64/include/mysql/server/byte_order_generic.h:36-64 | for any number of bytes that fits the word, shift-and-or is the little-endian value |
| ByteOrder.DecodeEncode | mariadb-10.11.2-winx64/include/mysql/server/byte_order_generic.h:65-96 | decoding an encoded value gives it back modulo the width, for any width and sign |
| ByteOrder.EncodeDecode | mariadb-10.11.2-winx64/include/mysql/server/byte_order_generic.h:65-96 | encoding a decoded byte string gives it back |
| ByteOrder.SwapReadsBigEndian | mariadb-10.11.2-winx64/include/mysql/server/byte_order_generic_x86_64.h:90-123 | shifting a little-endian value to the top and swapping reads any up to eight bytes high byte first |
| Korr.UnsignedDecodersAgree | mariadb-10.11.2-winx64/include/mysql/server/byte_order_generic_x86_64.h:31-51 | portable and fast unsigned decoders of 2, 3, 4, 5, 6 and 8 bytes agree with the little-endian value |
| Korr.SignedDecodersAgree | mariadb-10.11.2-winx64/include/mysql/server/byte_order_generic_x86_64.h:21-52 | the portable and the fast signed 2-, 4- and 8-byte decoders are the two's complement value of exactly their bytes |
| Korr.SignedRanges | mariadb-10.11.2-winx64/include/mysql/server/byte_order_generic_x86_64.h:21-52 | the ranges of two's complement numbers of 2, 3, 4 and 8 bytes |
| Korr.Sint3korrIsSigned24 | mariadb-10.11.2-winx64/include/mysql/server/byte_order_generic.h:23-30 | sint3korr is the 24-bit two's complement value of its bytes |
| Korr.MiDecodersReadBigEndian | mariadb-10.11.2-winx64/include/mysql/server/byte_order_generic_x86_64.h:90-123 | mi_uint5korr to mi_uint8korr are the big-endian value of exactly N bytes, the little-endian decoder on the reversed bytes |
| Store.Int2storePortable | mariadb-10.11.2-winx64/include/mysql/server/byte_order_generic.h:65-68 | writes the low two bytes and nothing else |
| Store.Int3storePortable | mariadb-10.11.2-winx64/include/mysql/server/byte_order_generic.h:69-73 | writes the low three bytes and nothing else |
| Store.Int4storePortable | mariadb-10.11.2-winx64/include/mysql/server/byte_order_generic.h:74-78 | writes the low four bytes and nothing else |
| Store.Int5storePortable | mariadb-10.11.2-winx64/include/mysql/server/byte_order_generic.h:79-84 | writes the low five bytes and nothing else |
| Store.Int6storePortable | mariadb-10.11.2-winx64/include/mysql/server/byte_order_generic.h:85-91 | writes the low six bytes and nothing else |
| Store.Int8storePortable | mariadb-10.11.2-winx64/include/mysql/server/byte_order_generic.h:92-96 | two four-byte stores are one eight-byte store |
| Store.Int2storeFast | mariadb-10.11.2-winx64/include/mysql/server/byte_order_generic_x86_64.h:54-56 | the same memory as the portable form |
| Store.Int3storeFast | mariadb-10.11.2-winx64/include/mysql/server/byte_order_generic_x86_64.h:58-61 | the same memory as the portable form, for negative values too |
| Store.Int4storeFast | mariadb-10.11.2-winx64/include/mysql/server/byte_order_generic_x86_64.h:63-65 | the same memory as the portable form |
| Store.Int5storeFast | mariadb-10.11.2-winx64/include/mysql/server/byte_order_generic_x86_64.h:67-70 | a word and a byte are one five-byte store |
| Store.Int6storeFast | mariadb-10.11.2-winx64/include/mysql/server/byte_order_generic_x86_64.h:72-75 | a word and a half word are one six-byte store |
| Store.Int8storeFast | mariadb-10.11.2-winx64/include/mysql/server/byte_order_generic_x86_64.h:77-79 | the same memory as the portable form |
| Store.LoadAfterStore | mariadb-10.11.2-winx64/include/mysql/server/byte_order_generic_x86_64.h:31-79 | at every offset every unsigned decoder, portable or fast, returns the value in range that the store of its size wrote |
| Store.SignedLoadAfterStore | mariadb-10.11.2-winx64/include/mysql/server/byte_order_generic_x86_64.h:21-79 | at every offset every signed decoder, sint3korr too, returns every two's complement value that the store of its size wrote |
| Alineacion.AlignIsLeastMultiple | mariadb-10.11.2-winx64/include/mysql/server/my_global.h:835 | MY_ALIGN is the least multiple of a power of two not below its argument |
| Alineacion.AlignDownIsGreatestMultiple | mariadb-10.11.2-winx64/include/mysql/server/my_global.h:836 | MY_ALIGN_DOWN is the greatest multiple not above its argument |
| Alineacion.AlignRoundsUpExactlyWhen | mariadb-10.11.2-winx64/include/mysql/server/my_global.h:835 | MY_ALIGN rounds up if and only if the sum fits the word; on overflow it is 0 |
| CString.SafeStrcpy | mariadb-10.11.2-winx64/include/mysql/server/m_string.h:228-249 | leaves the source's prefix padded with NULs, touches nothing else, reads inside the source; the flag tells truncation if and only if the size is two or more, the source is empty, or no NUL stands in front of the buffer |
| CString.SafeStrcat | mariadb-10.11.2-winx64/include/mysql/server/m_string.h:259-265 | appends what fits, keeps the buffer terminated, touches nothing behind it, and always gives the inner copy a size of two or more |
| CString.CatAllIsPrefix | mariadb-10.11.2-winx64/include/mysql/server/m_string.h:259-265 | any sequence of appends leaves exactly the first n - 1 characters of the whole concatenation |
| CString.NoFlagExactlyWhen | mariadb-10.11.2-winx64/include/mysql/server/m_string.h:251-265 | no call returns 1 if and only if everything fits and the buffer was not full before the last call; real truncation always raises a flag |
| CString.SafeStrcatAll | mariadb-10.11.2-winx64/include/mysql/server/m_string.h:251-265 | appending a sequence of sources in place leaves the first n - 1 characters of the whole concatenation, and some call returned 1 exactly when they did not fit or the buffer was full before the last call |
| Uuid.MyUuid2str | mariadb-10.11.2-winx64/include/mysql/server/my_sys.h:1044-1055 | the shifting-mask loop writes exactly the layout, and nothing behind it |
| Uuid.WrittenIsLayout | mariadb-10.11.2-winx64/include/mysql/server/my_sys.h:1047-1054 | byte by byte with separators after bytes 3, 5, 7 and 9 is the 8-4-4-4-12 layout |
| Uuid.HexByteDigits | mariadb-10.11.2-winx64/include/mysql/server/my_sys.h:1048-1050 | a byte is written as two lower-case hexadecimal digits, the high one first |
| Uuid.DashPositions | mariadb-10.11.2-winx64/include/mysql/server/my_sys.h:1035-1038 | dashes stand at positions 8, 13, 18 and 23 and nowhere else |
| Uuid.DecodeLayout | mariadb-10.11.2-winx64/include/mysql/server/my_sys.h:1044-1055 | a decoder gives the sixteen bytes back from both forms |
| Uuid.LayoutInjective | mariadb-10.11.2-winx64/include/mysql/server/my_sys.h:1044-1055 | the text determines the bytes |
| IoCache.WritesAreAStream | mariadb-10.11.2-winx64/include/mysql/server/my_sys.h:525-558 | over every sequence of successful writes, flushed plus pending bytes are everything written and the tell is their length |
| IoCache.ReadsAreAStream | mariadb-10.11.2-winx64/include/mysql/server/my_sys.h:514-548 | over every sequence of successful reads the next bytes of the file come out without a gap |
| IoCache.SplitReadsAgree | mariadb-10.11.2-winx64/include/mysql/server/my_sys.h:514-548 | however a read is split, the same bytes come out |
| IoCache.IoCache.MyBRead | mariadb-10.11.2-winx64/include/mysql/server/my_sys.h:514-523 | the fast path is a read step of the stream model and is taken exactly when the bytes are buffered |
| IoCache.IoCache.MyBGet | mariadb-10.11.2-winx64/include/mysql/server/my_sys.h:540-548 | the same for one byte |
| IoCache.IoCache.MyBWrite | mariadb-10.11.2-winx64/include/mysql/server/my_sys.h:525-538 | the fast path is a write step of the stream model and is taken exactly when there is room |
| IoCache.IoCache.MyBWriteByte | mariadb-10.11.2-winx64/include/mysql/server/my_sys.h:550-558 | one byte is a write step of the stream model, after a successful flush when there is no room; it fails exactly when a needed flush fails |
| IoCache.IoCache.MyBTell | mariadb-10.11.2-winx64/include/mysql/server/my_sys.h:576-583 | the position in the stream model less `request_pos`, so that position if and only if `request_pos` is the start of the buffer; for both kinds of cache |

## Left out

- Aplicacion.BookingPage.constructor: surname and RUN are left out, because no modelled code reads them; the ids chosen for lack of a preselection are parameters.
- Aplicacion.BookingPage.RellenarContacto: surname and RUN are left out, because no modelled code reads them.
- Aplicacion.BookingPage.NuevaCita: the record's service, branch, contact and coupon fields are left out, because no modelled code reads them.
- Aplicacion.App.constructor: loads the appointments only; the other collections and the backend check feed nothing that is modelled.
- Aplicacion.App.ManejarConfirmacionFinal: does not disable the button during the 700 ms timer, which only allows more runs.
- CString.SafeStrcpy: a buffer of size one at the very start of its memory is excluded, because the code then reads in front of it.
- IoCache.IoCache.MyBWriteByte: says nothing of the buffers after a failing flush, because its body is not in the header.
- Number: decimal text only (the empty text is 0); signs, fractions, exponents, hexadecimal and surrounding blanks, which `Number` also reads, count as NaN here.
- Records: JSON text is the value it writes; the payload fields that no modelled code reads (client name, mail, telephone) are left out.
- The in-memory objects that dbSimulada hands out are copies; they are values here, so aliasing does not arise.
- `String(id)` in dbSimulada: ids are integers, whose texts are distinct.
- Prices and percentages are integers and `p / 100` is exact, so binary rounding of the quotient is not modelled; a price that is not a number is outside the model.
- The e-mail pattern is an input of the advance step; upper and lower case are those of ASCII letters (blanks are those of the standard).
- A total or price stored as text, which `||` and `+` would treat as text, counts as absent in the revenue.
- The handlers for services, barbers, branches and promotions in App.jsx add nothing to the client and store methods; in the state machine they are one maintenance action on another collection.
- The 700 ms timer and the network call of a confirmation are one gap between click and booking.
- The slow paths of the buffered I/O (`_my_b_read`, `_my_b_get`, `_my_b_write`, `my_b_flush_io_cache`) are not part of this model; they enter as contracts.
- `_dig_vec_lower` is declared but not defined in the headers; it is taken to be the lower-case hexadecimal digits.
- An x86 load or store of a word is the little-endian value of its bytes; unaligned access, pointers and aliasing of macro arguments are not modelled.
- Rendering, routing, logins, the Spring services and the database scripts: no property of this depth.
