# Hotel booking core in Dafny

This project models the application core of a hotel booking service. The
service keeps three kinds of record: rooms, guests and bookings. A booking
ties one guest to one room for a stay, from a start date to an end date.
Three managers carry out the use cases:

- `BookingManager` creates, reads, lists, deletes and re-dates bookings.
- `RoomManager` creates, deletes, reads and lists rooms.
- `GuestManager` creates, reads, lists and deletes guests.

Each use case except `DeleteBooking`, which answers with a plain
`bool`, answers with a response: a success flag, a message (the
service's own wording, some of it in Portuguese), an error code and
optionally the data. The model keeps each manager's exact order of checks
and catch clauses.

Module layout, following the program's structure:

- `Time`: `DateTime` as a count of ticks (100 ns). `DateOf` models the
  `.Date` truncation to midnight. `Overlaps` is the half-open overlap of
  two stays.
- `Exceptions`: the domain exceptions, plus `StoreError` for a failure
  raised by the database. `Result` models "returns or throws".
- `Responses`: the `ErrorCode` enumeration with its numeric values, and
  the response shape.
- `Records`: the row each table stores. Guest rows are the guest DTO.
- `Tables`: generic keyed row sequences. It defines lookup, removal and
  replacement, and proves how each update changes a lookup.
- `Store`: an in-memory stand-in for the repositories.
  - `BookingTable`, `RoomTable` and `GuestTable` are classes whose rows and
    next identity the methods reassign.
  - `HotelStore` adds the booking repository's queries.
  - `Refers` is referential integrity: every stored booking names a
    stored room and a stored guest.
- `BookingDomain`: the `Booking` entity (class).
  - Its `Start`/`End` setters truncate to the date.
  - Its state machine is `ChangeState`, with its transition table.
  - `Validate` and `Save` model the entity's own validation and save.
- `RoomDomain`: the `Room` entity (class), its validation, its save and
  its availability test.
- `BookingDtos`, `RoomDtos`: the two DTO mappings and their round trips.
- `BookingManagement`, `RoomManagement`, `GuestManagement`: the three
  managers, as classes over one `HotelStore`.

A database failure on a write is a parameter `fault: Option<string>`.
`None` means the write succeeds; `Some(m)` means the repository throws
with message `m`. The clock (`DateTime.UtcNow`) is a parameter `now`.

Points where the model follows the code rather than what its tests or
its error codes lead one to expect:

- `RoomManager.CreateRoom` validates nothing, although
  `ApplicationTest/RoomManagerTests.cs:47-101` expect it to refuse a
  missing name, a bad level and a bad price. The unavailable-room case of
  `RoomManagerTests.cs:104-122` is refused through the repository's
  exception, as any store failure is, and differs from the test only in the
  message prefix "Erro ao criar sala: ".
- `RoomManager.DeleteRoom` does not check for bookings of the room, although
  `Response.cs:19` declares `CANNOT_DELETE_ROOM_WITH_BOOKINGS`.
  - The deployed database has a `Restrict` foreign key from bookings to
    rooms (`BookingConfiguration.cs:13-16`, migration
    `20241107235806_AdicionarRelacionamentoBookingRoom.cs:17-23`). There the
    delete is refused, which the model can only express as a `fault`.
  - The model's store has no such key. In it the delete succeeds and leaves
    the booking without its room (`RoomManagement.DeleteRoomCanOrphanBookings`).
- `UpdateBooking` is blocked only when the one booking the overlap query
  returns is a different booking. When the query returns the booking being
  moved, a real conflict behind it goes unnoticed (see "## Findings"). This
  holds for any query that returns a single booking, whatever its order.
  CreateBooking has no such hole: a booking it admits never double-books a
  room (`BookingManagement.AdmittedKeepsNoOverlap`).
- The booking managers compare the request's raw times, but the entity
  truncates to whole days.
  - CreateBooking: a same-day request passes the first check, then fails
    in `Booking.Validate`.
  - UpdateBooking: the same request stores a stay whose start equals its
    end.
  - `BookingManagement.SameDayRequest` states both outcomes.
- `Booking.Validate` compares the truncated start with the untruncated
  `PlacedAt`.
- `BookingDto.MapToEntity` copies `PlacedAt` and `Status` from the
  request, so the clock reading made by the entity's constructor is
  always overwritten.
- `UpdateBooking` calls an `Update` that the booking repository interface
  does not declare. The model gives `BookingTable` an `Update` that
  replaces the row with the same identity.
- `GetBookingByRoomAndDateRange` is declared but its implementation is not
  part of this model. It is modelled as the first stored booking of the
  room whose stay overlaps the requested one (half-open), whatever its
  status. `Room.IsAvailableForDates`, in contrast, counts only paid
  bookings (`RoomDomain.CanceledBookingOnlyBlocksTheStore`).

## Model

| member | source | states |
|---|---|---|
| Time.DateOf | BookingService/Core/Domain/Booking/Entities/Booking.cs:22-32 | the date of a time is midnight of the same day: a date no later than the time, less than one day before it |
| Time.DateOfUnique | BookingService/Core/Domain/Booking/Entities/Booking.cs:22-32 | a date within the day before a time is that time's date |
| Time.DateOfDate | BookingService/Core/Domain/Booking/Entities/Booking.cs:34-37 | truncating a time that is already a date leaves it unchanged |
| Time.DateOfIdempotent | BookingService/Core/Domain/Booking/Entities/Booking.cs:34-37 | truncating twice is truncating once |
| Time.DateOfMonotone | BookingService/Core/Domain/Booking/Entities/Booking.cs:22-32 | truncation keeps the order of times |
| Time.ApartAfterTruncation | BookingService/Core/Application/Booking/BookingManager.cs:58-71 | a stored stay of whole days that does not overlap the requested times does not overlap their dates either |
| Responses.Value | BookingService/Core/Application/Response.cs:3-27 | each error code's numeric value lies in 0..14; only the unset code has value 0 |
| Responses.ValueInjective | BookingService/Core/Application/Response.cs:3-27 | no two error codes share a numeric value |
| Responses.Failure | BookingService/Core/Application/Response.cs:28-34 | a failure response is unsuccessful and carries no data |
| Tables.Find | BookingService/Adapters/Data/Booking/BookingRepository.cs:22-28 | a lookup finds a row exactly when one has that identity, and the row it returns is stored and has that identity |
| Tables.FindUnique | BookingService/Core/Domain/Booking/Ports/IBookingRepository.cs:5 | with unique identities, looking up a stored row's identity returns that row |
| Tables.Remove | BookingService/Adapters/Data/Booking/BookingRepository.cs:39-48 | deletion keeps exactly the rows whose identity differs from the deleted one |
| Tables.RemoveKeepsKeys | BookingService/Adapters/Data/Booking/BookingRepository.cs:39-48 | deletion keeps identities unique and below the next identity |
| Tables.Replace | BookingService/Core/Application/Booking/BookingManager.cs:248 | an update keeps the table's length and every row's identity |
| Tables.AppendKeepsKeys | BookingService/Adapters/Data/Booking/BookingRepository.cs:15-20 | inserting a row with the next identity keeps identities unique and below the new next identity |
| Tables.FindAfterAppend | BookingService/Adapters/Data/Booking/BookingRepository.cs:15-20 | after an insert, the new identity finds the new row and every other lookup is unchanged |
| Tables.FindAfterRemove | BookingService/Adapters/Data/Booking/BookingRepository.cs:39-48 | after a delete, the deleted identity finds nothing and every other lookup is unchanged |
| Tables.FindAfterReplace | BookingService/Core/Application/Booking/BookingManager.cs:248 | after an update, the updated identity finds the new row when it was stored, and every other lookup is unchanged |
| Store.BookingTable.Create | BookingService/Core/Domain/Booking/Ports/IBookingRepository.cs:6 | a failing insert throws its error and changes nothing; otherwise the row is appended under the next identity, which is returned |
| Store.BookingTable.Update | BookingService/Core/Application/Booking/BookingManager.cs:248 | a failing update throws and changes nothing; otherwise the row with the same identity is replaced |
| Store.BookingTable.Delete | BookingService/Adapters/Data/Booking/BookingRepository.cs:39-48 | a failing delete throws and changes nothing; otherwise the row is removed and the result says whether it existed |
| Store.RoomTable.Create | BookingService/Core/Domain/Room/Ports/IRoomRepository.cs:6 | as for bookings: throw and change nothing, or append under the next identity and return it (whatever Id the room carries) |
| Store.RoomTable.Delete | BookingService/Adapters/Data/Room/RoomRepository.cs:21-30 | throw and change nothing, or remove the room and say whether it existed |
| Store.GuestTable.Create | BookingService/Core/Domain/Guest/Ports/IGuestRepository.cs:9 | throw and change nothing, or append under the next identity and return it |
| Store.GuestTable.Delete | BookingService/Core/Domain/Guest/Ports/IGuestRepository.cs:10 | throw and change nothing, or remove the guest and say whether it existed |
| Store.FirstOverlap | BookingService/Core/Domain/Booking/Ports/IBookingRepository.cs:11 | the conflict found is a stored booking of the room that overlaps the stay; none is found only when no booking of the room overlaps |
| Store.OtherOverlap | BookingService/Core/Application/Booking/BookingManager.cs:228-233 | the overlap query without the booking being moved: it finds a booking of the room, other than that one, overlapping the stay exactly when one exists |
| Store.AppendKeepsNoOverlap | BookingService/Core/Application/Booking/BookingManager.cs:58-93 | adding a booking that overlaps no stored booking of its room keeps every room free of double bookings |
| Store.HotelStore.RoomExists | BookingService/Core/Domain/Booking/Ports/IBookingRepository.cs:9 | true exactly when the Rooms table holds a room with that identity |
| Store.HotelStore.GuestExists | BookingService/Core/Domain/Booking/Ports/IBookingRepository.cs:10 | true exactly when the Guests table holds a guest with that identity |
| Store.HotelStore.HasBookingsForGuest | BookingService/Core/Domain/Booking/Ports/IBookingRepository.cs:12 | false exactly when no stored booking names the guest |
| Store.ReplaceRefers | BookingService/Core/Application/Booking/BookingManager.cs:243-248 | re-dating a booking keeps every booking's room and guest stored |
| Store.RemoveGuestRefers | BookingService/Core/Application/Guest/GuestManager.cs:113-155 | deleting a guest with no bookings keeps every booking's guest stored |
| Store.AppendGuestRefers | BookingService/Core/Application/Guest/GuestManager.cs:22-73 | adding a guest keeps every booking's room and guest stored |
| Store.AppendRoomRefers | BookingService/Core/Application/Room/RoomManager.cs:18-40 | adding a room keeps every booking's room and guest stored |
| BookingDomain.NextStatus | BookingService/Core/Domain/Booking/Entities/Booking.cs:50-63 | an action moves the status along the transition table when the pair is listed there, and otherwise leaves it; the status changes exactly for the listed pairs |
| BookingDomain.TerminalIsFinal | BookingService/Core/Domain/Booking/Entities/Booking.cs:52-61 | no sequence of actions leaves Finished or Refounded |
| BookingDomain.PaidIsIrrevocable | BookingService/Core/Domain/Booking/Entities/Booking.cs:52-61 | from Paid, every sequence of actions stays among Paid, Finished and Refounded |
| BookingDomain.CanceledLeavesOnlyByReopen | BookingService/Core/Domain/Booking/Entities/Booking.cs:52-61 | a canceled booking stays canceled under any actions other than Reopen |
| BookingDomain.Validate | BookingService/Core/Domain/Booking/Entities/Booking.cs:65-79 | validation passes exactly for admissible bookings; an empty or inverted stay, or one starting before it was placed, fails on dates first; then a non-positive room, then a non-positive guest |
| BookingDomain.Booking.constructor | BookingService/Core/Domain/Booking/Entities/Booking.cs:14-18 | a new booking is Created, placed at the current time, with every other property zero and no room or guest loaded |
| BookingDomain.Booking.Load | BookingService/Adapters/Data/Booking/BookingRepository.cs:22-28 | a loaded booking holds the stored row and has its room and guest loaded |
| BookingDomain.Booking.SetStart | BookingService/Core/Domain/Booking/Entities/Booking.cs:22-26 | setting Start stores the date of the value and changes nothing else |
| BookingDomain.Booking.SetEnd | BookingService/Core/Domain/Booking/Entities/Booking.cs:28-32 | setting End stores the date of the value and changes nothing else |
| BookingDomain.Booking.StartDateOnly | BookingService/Core/Domain/Booking/Entities/Booking.cs:34 | the date of Start is Start itself, since the setter already truncated it |
| BookingDomain.Booking.EndDateOnly | BookingService/Core/Domain/Booking/Entities/Booking.cs:37 | the date of End is End itself |
| BookingDomain.Booking.CurrentStatus | BookingService/Core/Domain/Booking/Entities/Booking.cs:45-47 | the current status is the stored status; the getter promises nothing beyond that identity |
| BookingDomain.Booking.ChangeState | BookingService/Core/Domain/Booking/Entities/Booking.cs:50-63 | the new status is the transition table's successor and nothing else changes |
| BookingDomain.Booking.Save | BookingService/Core/Domain/Booking/Entities/Booking.cs:81-93 | an invalid booking throws its validation error and writes nothing; a booking that already has an identity writes nothing; a new one is inserted and takes the identity the store assigns, or the store's error is thrown |
| RoomDomain.Conflicts | BookingService/Core/Domain/Room/Entities/Room.cs:26-28 | a booking conflicts with a stay exactly when it is paid and overlaps it |
| RoomDomain.Validate | BookingService/Core/Domain/Room/Entities/Room.cs:39-68 | validation passes exactly for well-formed rooms; it reports an empty name first, then a non-positive level, then a missing or non-positive price |
| RoomDomain.BookingsOf | BookingService/Adapters/Data/Room/RoomRepository.cs:32-38 | a room's loaded bookings are exactly the stored bookings of that room |
| RoomDomain.Room.constructor | BookingService/Core/Domain/Room/Entities/Room.cs:10-16 | a new room has default properties, no price and no bookings |
| RoomDomain.Room.Load | BookingService/Adapters/Data/Room/RoomRepository.cs:32-38 | a loaded room holds the stored row and the bookings of that room |
| RoomDomain.Room.IsAvailableForDates | BookingService/Core/Domain/Room/Entities/Room.cs:19-36 | the room is available exactly when it is not in maintenance and none of its bookings is paid and overlapping; otherwise RoomNotAvailableException is thrown, and the answer is never false |
| RoomDomain.Room.Save | BookingService/Core/Domain/Room/Entities/Room.cs:70-82 | an invalid room throws its validation error; a room with an identity writes nothing; a new one is inserted and takes its identity, or the store's error is thrown |
| RoomDomain.NoStoredOverlapMeansAvailable | BookingService/Core/Domain/Room/Entities/Room.cs:19-36 | a room loaded from the store, not in maintenance, for which the store finds no overlapping booking, is available for those dates |
| RoomDomain.CanceledBookingOnlyBlocksTheStore | BookingService/Core/Domain/Booking/Ports/IBookingRepository.cs:11 | a canceled booking makes the store report a conflict while the room itself reports availability |
| BookingDtos.EntityRecord | BookingService/Core/Application/Booking/Dtos/BookingDto.cs:29-41 | the entity built from a DTO has the dates of the DTO's times and every other property copied |
| BookingDtos.MapToEntity | BookingService/Core/Application/Booking/Dtos/BookingDto.cs:29-41 | mapping a DTO yields a fresh, valid booking holding that record, with no room or guest loaded |
| BookingDtos.MapToDto | BookingService/Core/Application/Booking/Dtos/BookingDto.cs:15-27 | the DTO's room and guest come from the loaded navigations; when these match the keys, the DTO is the record's DTO |
| BookingDtos.EntityOfDtoOf | BookingService/Core/Application/Booking/Dtos/BookingDto.cs:15-41 | mapping a stored booking to a DTO and back returns the booking |
| BookingDtos.DtoRoundTrip | BookingService/Core/Application/Booking/Dtos/BookingDto.cs:15-41 | mapping a DTO to an entity and back returns the DTO exactly when its start and end are dates |
| BookingDtos.EntityRecordIdempotent | BookingService/Core/Application/Booking/Dtos/BookingDto.cs:15-41 | a second round trip through the entity changes nothing |
| RoomDtos.EntityRecord | BookingService/Core/Application/Room/Dtos/RoomDto.cs:16-30 | the room built from a DTO has a price made of the DTO's value and currency, and the other properties copied |
| RoomDtos.MapToEntity | BookingService/Core/Application/Room/Dtos/RoomDto.cs:16-30 | mapping a DTO yields a fresh room with that record and no bookings, and mapping it back returns the DTO |
| RoomDtos.MapToDto | BookingService/Core/Application/Room/Dtos/RoomDto.cs:32-43 | mapping a priced room to a DTO and back returns the room's record |
| BookingManagement.Redated | BookingService/Core/Application/Booking/BookingManager.cs:243-244 | re-dating stores the dates (midnights) of the requested start and end, no later than the requested times, and leaves every other property of the booking as it was |
| BookingManagement.CreateFailure | BookingService/Core/Application/Booking/BookingManager.cs:95-147 | each of the five caught domain exceptions (invalid dates, room not found, guest not found, room in maintenance, room not available) maps to its own code and message; every other exception leaves the code unset and reports its own message after the generic prefix |
| BookingManagement.Admitted | BookingService/Core/Application/Booking/BookingManager.cs:83-93 | the stored booking has the assigned identity, the requested room and guest, the dates of the requested times, and the request's PlacedAt and Status (so a client can store a booking that is already Paid) |
| BookingManagement.SameDayRequest | BookingService/Core/Application/Booking/BookingManager.cs:27-35 | a request whose start and end fall on the same day fails the entity validation, which CreateBooking reports as COULD_NOT_STORE_DATA once the earlier checks pass; UpdateBooking re-dates the booking to an empty stay |
| BookingManagement.AdmittedKeepsNoOverlap | BookingService/Core/Application/Booking/BookingManager.cs:58-93 | a booking admitted after the overlap query found nothing double-books no room, although the query compared raw times and the booking stores whole days |
| BookingManagement.UpdateBlocked | BookingService/Core/Application/Booking/BookingManager.cs:228-241 | the update guard as written: a blocked update always has a real conflict, another booking of the room overlapping the new stay |
| BookingManagement.UpdateGuardMissesHiddenConflict | BookingService/Core/Application/Booking/BookingManager.cs:228-248 | the converse fails: a room without double bookings, an update the guard lets through, and a written table in which two bookings of the room overlap |
| BookingManagement.CorrectedUpdateKeepsNoOverlap | BookingService/Core/Application/Booking/BookingManager.cs:228-248 | with the guard that ignores only the booking being moved, re-dating keeps every room free of double bookings |
| BookingManagement.BookingManager.CreateBooking | BookingService/Core/Application/Booking/BookingManager.cs:23-148 | the checks run in order (dates, room, maintenance, overlap, guest) and each failure writes nothing; then the save either fails with the mapped error or appends the admitted booking under the next identity; other bookings and referential integrity are kept; no room becomes double-booked; a booking is stored only when every check and validation passed |
| BookingManagement.BookingManager.SaveRequest | BookingService/Core/Application/Booking/BookingManager.cs:83-93 | after the checks pass, saving either fails with the mapped error and writes nothing, succeeds without writing for a request that has an identity, or appends the admitted booking, which is then found under its new identity; no room becomes double-booked |
| BookingManagement.BookingManager.StoredRowsAreDates | BookingService/Core/Domain/Booking/Entities/Booking.cs:22-32 | every stored booking's start and end are dates |
| BookingManagement.BookingManager.GetBooking | BookingService/Core/Application/Booking/BookingManager.cs:150-167 | success exactly when the booking is stored, and then the data is that booking's DTO |
| BookingManagement.BookingManager.GetAllBookings | BookingService/Core/Application/Booking/BookingManager.cs:169-184 | one successful response per stored booking, in order, each carrying that booking's DTO |
| BookingManagement.BookingManager.DeleteBooking | BookingService/Core/Application/Booking/BookingManager.cs:186-203 | the answer is true exactly when the booking was stored and the delete did not fail; then only that booking is gone and referential integrity is kept |
| BookingManagement.BookingManager.UpdateBooking | BookingService/Core/Application/Booking/BookingManager.cs:205-264 | a missing booking, an inverted range, or a different booking returned by the overlap query for the booking's stored room each fail without writing; otherwise the booking is re-dated in place, or the store's error is reported; no other booking changes; when no other booking of the room overlaps the new stay, no room is double-booked afterwards |
| BookingManagement.BookingManager.WriteDates | BookingService/Core/Application/Booking/BookingManager.cs:243-263 | the loaded booking is re-dated and replaced in the table, and the response carries its DTO; a failing update reports the error and writes nothing |
| RoomManagement.RoomManager.CreateRoom | BookingService/Core/Application/Room/RoomManager.cs:18-40 | any room is inserted without validation under the next identity, which the response carries; a failing insert reports its error and writes nothing; no error code is ever set |
| RoomManagement.RoomManager.DeleteRoom | BookingService/Core/Application/Room/RoomManager.cs:42-72 | a missing room is reported as not found; otherwise the room is removed whatever bookings refer to it, or the store's error is reported |
| RoomManagement.RoomManager.StoredRoomsHavePrice | BookingService/Core/Application/Room/Dtos/RoomDto.cs:16-30 | every stored room has a price, since rooms enter the store only through the DTO mapping |
| RoomManagement.RoomManager.GetRoom | BookingService/Core/Application/Room/RoomManager.cs:75-95 | success exactly when the room is stored, and then the DTO maps back to the stored room; otherwise the not-found message |
| RoomManagement.RoomManager.GetAllRooms | BookingService/Core/Application/Room/RoomManager.cs:97-112 | one successful response per stored room, in order, each carrying that room's DTO |
| RoomManagement.DeleteRoomCanOrphanBookings | BookingService/Core/Application/Room/RoomManager.cs:42-72 | in a store without the bookings-to-rooms foreign key, DeleteRoom deletes a room that a stored booking names and reports success, leaving the booking without its room |
| GuestManagement.CreateFailure | BookingService/Core/Application/Guest/GuestManager.cs:37-72 | each validation exception maps to its own code and message; any other exception becomes COULD_NOT_STORE_DATA |
| GuestManagement.GuestManager.CreateGuest | BookingService/Core/Application/Guest/GuestManager.cs:22-73 | with Guest.Save taken to validate and then insert only a guest without an identity: an invalid guest is refused with its mapped error and nothing is written; a guest with an identity is answered without an insert; otherwise it is inserted under the next identity, or the store's failure becomes COULD_NOT_STORE_DATA |
| GuestManagement.GuestManager.GetGuest | BookingService/Core/Application/Guest/GuestManager.cs:75-94 | success exactly when the guest is stored, and then the data is that guest; otherwise GUEST_NOT_FOUND |
| GuestManagement.GuestManager.GetAllGuests | BookingService/Core/Application/Guest/GuestManager.cs:96-111 | one successful response per stored guest, in order, each carrying that guest |
| GuestManagement.GuestManager.DeleteGuest | BookingService/Core/Application/Guest/GuestManager.cs:113-155 | a missing guest is GUEST_NOT_FOUND; a guest with bookings is refused with CANNOT_DELETE_GUEST_WITH_BOOKINGS; otherwise the guest is removed, or COULD_NOT_DELETE is reported; referential integrity is kept |

## Findings

| source | as written | input that shows it | evidently intended | confidence | as-written member | corrected member |
|---|---|---|---|---|---|---|
| BookingService/Core/Application/Booking/BookingManager.cs:228-233 | the update is blocked only when the single booking returned by the overlap query is a different booking | room 7 holds booking 1 for days 1-3 and booking 2 for days 5-7; moving booking 1 to days 2-6, the query returns booking 1 itself, the update goes through and the two bookings overlap | the update is blocked when any other booking of the room overlaps the new stay | high: whatever single booking the query returns, take two disjoint bookings of one room and a stay overlapping both; moving the returned one onto that stay passes the guard and double-books the room; not executed | BookingManagement.UpdateGuardMissesHiddenConflict | BookingManagement.CorrectedUpdateKeepsNoOverlap |

## Left out

- Asynchrony and concurrency: every repository call completes before the next starts. The check-then-insert race between two concurrent CreateBooking calls is not modelled.
- The HTTP controllers, the program's start-up, Entity Framework, its configuration and its migrations are not part of this model. The repositories are the in-memory `Store`.
- Store reads never fail. Only writes (insert, update, delete) may fail, through the `fault` parameter. A foreign-key refusal by the database appears only as such a fault.
- The `Guest` entity, its `PersonId` value object, its own validation and the guest DTO mapping are not part of this model. `GuestManager` takes the entity's validation as a function parameter, and guests are stored as their DTO.
- `RoomManager.UpdateRoom` is declared by the room manager interface but has no implementation, so it is not modelled. `IRoomRepository.Update` is used by no modelled operation.
- The test projects' expectations are not modelled.
- `decimal` prices are integers. `DateTime` is an unbounded tick count: there is no `MaxValue` and no `DateTimeKind`.
- Exceptions: the messages of the domain exceptions are taken as empty. A response whose message the source leaves null carries the empty string.
- CreateBooking and CreateRoom write the assigned identity into the caller's request object. The model returns the request with that identity in the response data instead of mutating it.
- Navigations: a booking's `Room` and `Guest` are modelled by their identities alone. A room's `Bookings` holds booking rows.
- BookingDtos.MapToDto: requires the room and guest navigations to be loaded. The source would raise a null reference otherwise, and the repository always loads them.
- RoomDtos.MapToDto: requires a price. The source would raise a null reference otherwise, and every stored room has one (`StoredRoomsHavePrice`).
- Store.FirstOverlap: assumes the unimplemented `GetBookingByRoomAndDateRange` returns the first overlapping booking of the room in storage order, counting every status.
- RoomDomain.Room.IsAvailable: a predicate (not in maintenance) without a contract of its own; `IsAvailableForDates` states its meaning.
- Store.RoomTable.Create: stores a room under the next identity whatever Id it carries. The repository inserts the room with its own key, which an identity column would refuse; that refusal is not modelled.
- RoomManagement.RoomManager.CreateRoom: a request with a non-zero Id is inserted under a fresh identity, as `Store.RoomTable.Create` does; the database's refusal of an explicit key is not modelled.
- GuestManagement.GuestManager.CreateGuest: `GuestManager.cs:28` calls a `Guest.Save` that is not part of this model (the `Guest` entity declares none). It is taken to work like `Booking.Save` and `Room.Save`: validate, then insert only a guest whose Id is 0.
- RoomManagement.DeleteRoomCanOrphanBookings: holds in the model's store, which has no foreign keys. The deployed `Restrict` key refuses that delete, and RoomManager then reports the failure; the model expresses this only as a `fault`.
- Store.HotelStore.RoomExists, Store.HotelStore.GuestExists, Store.HotelStore.HasBookingsForGuest: the implementations of these declarations are not part of this model. They are taken to be lookups in the tables. As a result `RoomExists` implies that the room lookup finds the room, so the branch of CreateBooking that continues with a null room (`BookingManager.cs:47-48`, exercised by `BookingManagerTests.cs:142-163`) cannot be reached in the model.
