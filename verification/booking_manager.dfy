/** Application/Booking/BookingManager.cs: admission, update, lookup and deletion of bookings. */
module BookingManagement {

  import opened Options
  import opened Time
  import opened Exceptions
  import opened Records
  import opened Responses
  import Tables
  import Store
  import opened BookingDomain
  import opened BookingDtos

  const CreatedMessage := "Reserva criada com sucesso!"
  const DatesMessage := "Start date cannot be before the booking End date."
  const NoRoomMessage := "The specified room does not exist."
  const MaintenanceMessage := "The selected room is under maintenance and cannot be booked."
  const BookedMessage := "The selected room is already booked for the requested dates."
  const NoGuestMessage := "The specified guest does not exist."
  const UpdatedMessage := "Booking dates updated successfully."
  const NotFoundMessage := "Booking not found."
  const RangeMessage := "End date must be after the start date."
  const TakenMessage := "The room is already booked for the requested dates."
  const NoRoomIdMessage := "Room id must be defined."
  const CreateErrorPrefix := "Error creating a booking: "
  const UpdateErrorPrefix := "Error updating booking dates: "

  /** The stored booking after UpdateBooking has set its dates through the truncating setters. */
  function Redated(b: BookingRecord, request: BookingDto): (u: BookingRecord)
    ensures u.start == DateOf(request.start) && u.end == DateOf(request.end)
    ensures u.start <= request.start && u.end <= request.end
    ensures u.(start := b.start, end := b.end) == b
  {
    b.(start := DateOf(request.start), end := DateOf(request.end))
  }

  /**
   * The response CreateBooking's catch clauses build from an exception that
   * escapes Booking.Save: the domain exceptions keep a code, every other
   * exception reports its message and leaves ErrorCode unset.
   */
  function CreateFailure(ex: Exception): (r: Response<BookingDto>)
    ensures !r.success && r.data.None?
    ensures r.errorCode == Unset <==>
              ex !in {InvalidBookingDatesException, RoomNotFoundException, GuestNotFoundException,
                      RoomInMaintenanceException, RoomNotAvailableException}
    ensures ex == InvalidBookingDatesException ==> r == Failure(CouldNotStoreData, DatesMessage)
    ensures ex == RoomNotFoundException ==> r == Failure(RoomNotFound, NoRoomIdMessage)
    ensures ex == GuestNotFoundException ==> r == Failure(GuestNotFound, NoGuestMessage)
    ensures ex == RoomInMaintenanceException ==> r == Failure(RoomInMaintenance, MaintenanceMessage)
    ensures ex == RoomNotAvailableException ==> r == Failure(RoomNotAvailable, BookedMessage)
    ensures r.errorCode == Unset ==> r == Failure(Unset, CreateErrorPrefix + Message(ex))
    ensures ex.StoreError? ==> r == Failure(Unset, CreateErrorPrefix + ex.message)
  {
    match ex
    case InvalidBookingDatesException => Failure(CouldNotStoreData, DatesMessage)
    case RoomNotFoundException => Failure(RoomNotFound, NoRoomIdMessage)
    case GuestNotFoundException => Failure(GuestNotFound, NoGuestMessage)
    case RoomInMaintenanceException => Failure(RoomInMaintenance, MaintenanceMessage)
    case RoomNotAvailableException => Failure(RoomNotAvailable, BookedMessage)
    case _ => Failure(Unset, CreateErrorPrefix + Message(ex))
  }

  /** The record Booking.Save would store for a request that passed every check. */
  function Admitted(request: BookingDto, id: int): (b: BookingRecord)
    ensures b.id == id && b.roomId == request.roomId && b.guestId == request.guestId
    ensures b.start == DateOf(request.start) && b.end == DateOf(request.end)
    ensures b.placedAt == request.placedAt && b.status == request.status
  {
    EntityRecord(request).(id := id)
  }

  /**
   * Both operations compare the request's raw times, but the entity stores
   * whole days. A request whose dates fall on the same day passes that
   * comparison; CreateBooking then fails in Booking.Validate with
   * COULD_NOT_STORE_DATA, while UpdateBooking stores an empty stay.
   */
  lemma SameDayRequest(b: BookingRecord, request: BookingDto)
    requires request.start < request.end && DateOf(request.start) == DateOf(request.end)
    ensures CreateFailure(Validate(EntityRecord(request)).value) == Failure(CouldNotStoreData, DatesMessage)
    ensures Redated(b, request).start == Redated(b, request).end
  {
  }

  /**
   * A booking admitted by CreateBooking keeps every room free of double
   * bookings: the overlap query compared the raw request times with stored
   * stays that are whole days, so the truncated stay misses them too.
   */
  lemma {:induction false} AdmittedKeepsNoOverlap(rows: seq<BookingRecord>, request: BookingDto, id: int)
    requires Store.NoOverlap(rows)
    requires forall i :: 0 <= i < |rows| ==> IsDate(rows[i].start) && IsDate(rows[i].end)
    requires Store.FirstOverlap(rows, request.roomId, request.start, request.end).None?
    ensures Store.NoOverlap(rows + [Admitted(request, id)])
  {
    var row := Admitted(request, id);
    forall i | 0 <= i < |rows| && rows[i].roomId == row.roomId
      ensures !Overlaps(rows[i].start, rows[i].end, row.start, row.end)
    {
      ApartAfterTruncation(rows[i].start, rows[i].end, request.start, request.end);
    }
    Store.AppendKeepsNoOverlap(rows, row);
  }

  /**
   * UpdateBooking's guard as written: the one booking the overlap query
   * returns for the stay is a booking other than the one being moved. A
   * blocked update always has a real conflict behind it; the converse fails
   * (UpdateGuardMissesHiddenConflict).
   */
  function UpdateBlocked(rows: seq<BookingRecord>, bookingId: int, roomId: int, request: BookingDto): (r: bool)
    ensures r ==> exists i :: 0 <= i < |rows| && rows[i].id != bookingId && rows[i].roomId == roomId
                              && Overlaps(rows[i].start, rows[i].end, request.start, request.end)
  {
    var conflict := Store.FirstOverlap(rows, roomId, request.start, request.end);
    conflict.Some? && conflict.value.id != bookingId
  }

  /**
   * The guard lets a conflicting update through. Room 7 holds booking 1 for
   * days 1-3 and booking 2 for days 5-7; moving booking 1 to days 2-6, the
   * overlap query returns booking 1 itself, so the update is not blocked,
   * and the table it writes has the two bookings overlapping.
   */
  lemma UpdateGuardMissesHiddenConflict()
    ensures var a := BookingRecord(1, 0, 1 * TicksPerDay, 3 * TicksPerDay, 7, 3, Created);
            var b := BookingRecord(2, 0, 5 * TicksPerDay, 7 * TicksPerDay, 7, 4, Paid);
            var request := BookingDto(1, 0, 2 * TicksPerDay, 6 * TicksPerDay, 7, 3, Created);
            && Store.NoOverlap([a, b])
            && !UpdateBlocked([a, b], 1, 7, request)
            && !Store.NoOverlap(Tables.Replace([a, b], BookingKey, Redated(a, request)))
  {
    var a := BookingRecord(1, 0, 1 * TicksPerDay, 3 * TicksPerDay, 7, 3, Created);
    var b := BookingRecord(2, 0, 5 * TicksPerDay, 7 * TicksPerDay, 7, 4, Paid);
    var request := BookingDto(1, 0, 2 * TicksPerDay, 6 * TicksPerDay, 7, 3, Created);
    assert Store.FirstOverlap([a, b], 7, request.start, request.end) == Some(a);
    var u := Redated(a, request);
    DateOfDate(2 * TicksPerDay);
    DateOfDate(6 * TicksPerDay);
    var written := Tables.Replace([a, b], BookingKey, u);
    assert written[0] == u && written[1] == b;
  }

  /**
   * The intended guard: no booking of the room other than the one being
   * moved overlaps the requested stay. With it, an update keeps every room
   * free of double bookings.
   */
  lemma CorrectedUpdateKeepsNoOverlap(rows: seq<BookingRecord>, existing: BookingRecord, request: BookingDto)
    requires Store.NoOverlap(rows) && Tables.UniqueKeys(rows, BookingKey)
    requires forall i :: 0 <= i < |rows| ==> IsDate(rows[i].start) && IsDate(rows[i].end)
    requires Store.OtherOverlap(rows, existing.id, existing.roomId, request.start, request.end).None?
    ensures Store.NoOverlap(Tables.Replace(rows, BookingKey, Redated(existing, request)))
  {
    var u := Redated(existing, request);
    var r := Tables.Replace(rows, BookingKey, u);
    forall i, j | 0 <= i < |r| && 0 <= j < |r| && i != j && r[i].roomId == r[j].roomId
      ensures !Overlaps(r[i].start, r[i].end, r[j].start, r[j].end)
    {
      if rows[i].id == u.id && rows[j].id == u.id {
        assert false;
      } else if rows[i].id == u.id {
        assert r[i] == u && r[j] == rows[j];
        ApartAfterTruncation(rows[j].start, rows[j].end, request.start, request.end);
      } else if rows[j].id == u.id {
        assert r[j] == u && r[i] == rows[i];
        ApartAfterTruncation(rows[i].start, rows[i].end, request.start, request.end);
      } else {
        assert r[i] == rows[i] && r[j] == rows[j];
      }
    }
  }

  class BookingManager {
    const store: Store.HotelStore

    constructor (store: Store.HotelStore)
      ensures this.store == store
    {
      this.store := store;
    }

    /**
     * CreateBooking. The checks run in order and the first that fails
     * decides the response; none of them writes. A request that passes them
     * all is mapped to an entity and saved: Save's validation exceptions and
     * a database failure are caught and mapped by CreateFailure, and a
     * request that already carries an Id is reported as created without
     * being stored. `now` is the clock the Booking constructor reads.
     */
    method CreateBooking(request: BookingDto, now: Ticks, fault: Option<string>) returns (r: Response<BookingDto>)
      requires store.Valid()
      modifies store.bookings
      ensures store.Valid()
      // 1. the raw dates
      ensures request.end <= request.start ==>
                r == Failure(CouldNotStoreData, DatesMessage) && unchanged(store.bookings)
      // 2. the room exists
      ensures request.start < request.end && !old(store.RoomExists(request.roomId)) ==>
                r == Failure(RoomNotFound, NoRoomMessage) && unchanged(store.bookings)
      // 3. the room is not in maintenance
      ensures request.start < request.end && old(store.RoomExists(request.roomId))
              && old(store.rooms.Get(request.roomId)).value.inMaintenance ==>
                r == Failure(RoomInMaintenance, MaintenanceMessage) && unchanged(store.bookings)
      // 4. no stored booking overlaps
      ensures request.start < request.end && old(store.RoomExists(request.roomId))
              && !old(store.rooms.Get(request.roomId)).value.inMaintenance
              && old(store.GetBookingByRoomAndDateRange(request.roomId, request.start, request.end)).Some? ==>
                r == Failure(RoomNotAvailable, BookedMessage) && unchanged(store.bookings)
      // 5. the guest exists
      ensures request.start < request.end && old(store.RoomExists(request.roomId))
              && !old(store.rooms.Get(request.roomId)).value.inMaintenance
              && old(store.GetBookingByRoomAndDateRange(request.roomId, request.start, request.end)).None?
              && !old(store.GuestExists(request.guestId)) ==>
                r == Failure(GuestNotFound, NoGuestMessage) && unchanged(store.bookings)
      // 6. Booking.Save
      ensures old(Passes(request)) ==>
                var entity := EntityRecord(request);
                && (Validate(entity).Some? ==> r == CreateFailure(Validate(entity).value) && unchanged(store.bookings))
                && (Validate(entity).None? && request.id != 0 ==>
                      r == Response(true, CreatedMessage, Unset, Some(request)) && unchanged(store.bookings))
                && (Validate(entity).None? && request.id == 0 && fault.Some? ==>
                      r == CreateFailure(StoreError(fault.value)) && unchanged(store.bookings))
                && (Validate(entity).None? && request.id == 0 && fault.None? ==>
                      && r == Response(true, CreatedMessage, Unset, Some(request.(id := old(store.bookings.nextId))))
                      && store.bookings.rows == old(store.bookings.rows) + [Admitted(request, old(store.bookings.nextId))]
                      && store.bookings.Get(old(store.bookings.nextId)) == Some(Admitted(request, old(store.bookings.nextId)))
                      && store.bookings.nextId == old(store.bookings.nextId) + 1)
      ensures forall other :: other != old(store.bookings.nextId) ==> store.bookings.Get(other) == old(store.bookings.Get(other))
      ensures old(store.Referential()) ==> store.Referential()
      ensures old(Store.NoOverlap(store.bookings.rows)) ==> Store.NoOverlap(store.bookings.rows)
      // a booking is stored only when every check and the validation passed
      ensures store.bookings.rows != old(store.bookings.rows) ==>
                old(Passes(request)) && Admissible(EntityRecord(request)) && r.success
    {
      if request.end <= request.start {
        return Failure(CouldNotStoreData, DatesMessage);
      }
      if !store.RoomExists(request.roomId) {
        return Failure(RoomNotFound, NoRoomMessage);
      }
      var room := store.rooms.Get(request.roomId);
      if room.Some? && room.value.inMaintenance {
        return Failure(RoomInMaintenance, MaintenanceMessage);
      }
      var existing := store.GetBookingByRoomAndDateRange(request.roomId, request.start, request.end);
      if existing.Some? {
        return Failure(RoomNotAvailable, BookedMessage);
      }
      if !store.GuestExists(request.guestId) {
        return Failure(GuestNotFound, NoGuestMessage);
      }
      r := SaveRequest(request, now, fault);
    }

    /**
     * The last step of CreateBooking: the request is mapped to an entity,
     * Booking.Save runs, the request's Id is set to the booking's and the
     * request is returned.
     */
    method SaveRequest(request: BookingDto, now: Ticks, fault: Option<string>) returns (r: Response<BookingDto>)
      requires store.Valid() && Passes(request)
      modifies store.bookings
      ensures store.Valid()
      ensures var entity := EntityRecord(request);
              && (Validate(entity).Some? ==> r == CreateFailure(Validate(entity).value) && unchanged(store.bookings))
              && (Validate(entity).None? && request.id != 0 ==>
                    r == Response(true, CreatedMessage, Unset, Some(request)) && unchanged(store.bookings))
              && (Validate(entity).None? && request.id == 0 && fault.Some? ==>
                    r == CreateFailure(StoreError(fault.value)) && unchanged(store.bookings))
              && (Validate(entity).None? && request.id == 0 && fault.None? ==>
                    var id := old(store.bookings.nextId);
                    && r == Response(true, CreatedMessage, Unset, Some(request.(id := id)))
                    && store.bookings.rows == old(store.bookings.rows) + [Admitted(request, id)]
                    && store.bookings.Get(id) == Some(Admitted(request, id))
                    && store.bookings.nextId == id + 1)
      ensures forall other :: other != old(store.bookings.nextId) ==> store.bookings.Get(other) == old(store.bookings.Get(other))
      ensures old(store.Referential()) ==> store.Referential()
      ensures old(Store.NoOverlap(store.bookings.rows)) ==> Store.NoOverlap(store.bookings.rows)
    {
      var booking := MapToEntity(request, now);
      ghost var rows := store.bookings.rows;
      assert Store.FirstOverlap(rows, request.roomId, request.start, request.end).None?;
      var thrown := booking.Save(store.bookings, fault);
      if thrown.Some? {
        return CreateFailure(thrown.value);
      }
      if store.bookings.rows != rows {
        assert forall other :: store.bookings.Get(other) ==
                 if other == booking.id then Some(booking.Record()) else Tables.Find(rows, BookingKey, other) by {
          forall other {
            Tables.FindAfterAppend(rows, BookingKey, booking.Record(), other);
          }
        }
        assert Store.NoOverlap(rows) ==> Store.NoOverlap(store.bookings.rows) by {
          if Store.NoOverlap(rows) {
            AdmittedKeepsNoOverlap(rows, request, booking.id);
          }
        }
      }
      r := Response(true, CreatedMessage, Unset, Some(request.(id := booking.id)));
    }

    /** A stored booking, as the repository loads it; its dates are whole days. */
    lemma StoredRowsAreDates(id: int)
      requires store.bookings.Valid() && store.bookings.Get(id).Some?
      ensures IsDate(store.bookings.Get(id).value.start) && IsDate(store.bookings.Get(id).value.end)
    {
      var rows := store.bookings.rows;
      var b := store.bookings.Get(id).value;
      var i :| 0 <= i < |rows| && rows[i] == b;
    }

    /** GetBooking: the stored booking's DTO, or a bare failure (no code, no message) when there is none. */
    method GetBooking(bookingId: int) returns (r: Response<BookingDto>)
      requires store.Valid()
      ensures r.success <==> store.bookings.Get(bookingId).Some?
      ensures r.success ==> r == Response(true, "", Unset, Some(DtoOf(store.bookings.Get(bookingId).value)))
      ensures !r.success ==> r == Failure(Unset, "")
    {
      var row := store.bookings.Get(bookingId);
      if row.None? {
        return Failure(Unset, "");
      }
      StoredRowsAreDates(bookingId);
      var booking := new Booking.Load(row.value);
      r := Response(true, "", Unset, Some(MapToDto(booking)));
    }

    /** GetAllBookings: one successful response per stored booking, in store order. */
    method GetAllBookings() returns (responses: seq<Response<BookingDto>>)
      requires store.Valid()
      ensures |responses| == |store.bookings.rows|
      ensures forall i :: 0 <= i < |responses| ==>
                responses[i] == Response(true, "", Unset, Some(DtoOf(store.bookings.rows[i])))
    {
      var rows := store.bookings.rows;
      responses := [];
      for k := 0 to |rows|
        invariant |responses| == k
        invariant forall i :: 0 <= i < k ==> responses[i] == Response(true, "", Unset, Some(DtoOf(rows[i])))
      {
        var booking := new Booking.Load(rows[k]);
        responses := responses + [Response(true, "", Unset, Some(MapToDto(booking)))];
      }
    }

    /**
     * DeleteBooking: false when there is no such booking or the database
     * fails, true after deleting it. Only that booking goes away.
     */
    method DeleteBooking(bookingId: int, fault: Option<string>) returns (deleted: bool)
      requires store.Valid()
      modifies store.bookings
      ensures store.Valid()
      ensures deleted <==> old(store.bookings.Get(bookingId)).Some? && fault.None?
      ensures !deleted ==> unchanged(store.bookings)
      ensures deleted ==> store.bookings.rows == Tables.Remove(old(store.bookings.rows), BookingKey, bookingId)
      ensures deleted ==> store.bookings.Get(bookingId).None?
      ensures old(store.Referential()) ==> store.Referential()
      ensures forall other :: other != bookingId ==> store.bookings.Get(other) == old(store.bookings.Get(other))
    {
      var booking := store.bookings.Get(bookingId);
      if booking.None? {
        return false;
      }
      var removed := store.bookings.Delete(bookingId, fault);
      if removed.Throw? {
        return false;
      }
      forall other {
        Tables.FindAfterRemove(old(store.bookings.rows), BookingKey, bookingId, other);
      }
      deleted := true;
    }

    /** The update's conflict: the overlap query, run with the stored booking's room, finds another booking. */
    /**
     * UpdateBooking. The booking must exist, the raw dates must be ordered
     * and no other booking of its stored room may overlap them; none of
     * these checks writes. Then the loaded entity's Start and End are set
     * (truncating them) and written back: only those two properties change.
     */
    method UpdateBooking(bookingId: int, request: BookingDto, fault: Option<string>) returns (r: Response<BookingDto>)
      requires store.Valid()
      modifies store.bookings
      ensures store.Valid()
      ensures old(store.bookings.Get(bookingId)).None? ==>
                r == Failure(BookingNotFound, NotFoundMessage) && unchanged(store.bookings)
      ensures old(store.bookings.Get(bookingId)).Some? && request.end <= request.start ==>
                r == Failure(CouldNotStoreData, RangeMessage) && unchanged(store.bookings)
      ensures old(store.bookings.Get(bookingId)).Some? && request.start < request.end
              && old(UpdateBlocked(store.bookings.rows, bookingId, store.bookings.Get(bookingId).value.roomId, request)) ==>
                r == Failure(RoomNotAvailable, TakenMessage) && unchanged(store.bookings)
      ensures old(store.bookings.Get(bookingId)).Some? && request.start < request.end
              && !old(UpdateBlocked(store.bookings.rows, bookingId, store.bookings.Get(bookingId).value.roomId, request)) ==>
                var updated := Redated(old(store.bookings.Get(bookingId)).value, request);
                && (fault.Some? ==>
                      r == Failure(Unset, UpdateErrorPrefix + fault.value) && unchanged(store.bookings))
                && (fault.None? ==>
                      && r == Response(true, UpdatedMessage, Unset, Some(DtoOf(updated)))
                      && store.bookings.rows == Tables.Replace(old(store.bookings.rows), BookingKey, updated)
                      && store.bookings.Get(bookingId) == Some(updated))
      ensures forall other :: other != bookingId ==> store.bookings.Get(other) == old(store.bookings.Get(other))
      ensures old(store.Referential()) ==> store.Referential()
      // when no other booking of the room overlaps the new stay, no room is double-booked afterwards
      ensures old(store.bookings.Get(bookingId)).Some? && old(Store.NoOverlap(store.bookings.rows))
              && old(Store.OtherOverlap(store.bookings.rows, bookingId, store.bookings.Get(bookingId).value.roomId,
                                        request.start, request.end)).None? ==>
                Store.NoOverlap(store.bookings.rows)
    {
      var existing := store.bookings.Get(bookingId);
      if existing.None? {
        return Failure(BookingNotFound, NotFoundMessage);
      }
      if request.end <= request.start {
        return Failure(CouldNotStoreData, RangeMessage);
      }
      var conflict := store.GetBookingByRoomAndDateRange(existing.value.roomId, request.start, request.end);
      if conflict.Some? && conflict.value.id != bookingId {
        return Failure(RoomNotAvailable, TakenMessage);
      }
      ghost var rows := store.bookings.rows;
      r := WriteDates(bookingId, existing.value, request, fault);
      assert Store.NoOverlap(rows) && Store.OtherOverlap(rows, bookingId, existing.value.roomId, request.start, request.end).None?
             ==> Store.NoOverlap(store.bookings.rows) by {
        if Store.NoOverlap(rows) && Store.OtherOverlap(rows, bookingId, existing.value.roomId, request.start, request.end).None? {
          CorrectedUpdateKeepsNoOverlap(rows, existing.value, request);
        }
      }
    }

    /**
     * The second half of UpdateBooking: the loaded booking's Start and End
     * are set and the booking is written back.
     */
    method WriteDates(bookingId: int, existing: BookingRecord, request: BookingDto, fault: Option<string>)
      returns (r: Response<BookingDto>)
      requires store.Valid() && store.bookings.Get(bookingId) == Some(existing)
      modifies store.bookings
      ensures store.Valid()
      ensures fault.Some? ==>
                r == Failure(Unset, UpdateErrorPrefix + fault.value) && unchanged(store.bookings)
      ensures fault.None? ==>
                && r == Response(true, UpdatedMessage, Unset, Some(DtoOf(Redated(existing, request))))
                && store.bookings.rows == Tables.Replace(old(store.bookings.rows), BookingKey, Redated(existing, request))
                && store.bookings.Get(bookingId) == Some(Redated(existing, request))
      ensures forall other :: other != bookingId ==> store.bookings.Get(other) == old(store.bookings.Get(other))
      ensures old(store.Referential()) ==> store.Referential()
    {
      StoredRowsAreDates(bookingId);
      var booking := new Booking.Load(existing);
      booking.SetStart(request.start);
      booking.SetEnd(request.end);
      ghost var updated := Redated(existing, request);
      ghost var rows := store.bookings.rows;
      var thrown := store.bookings.Update(booking.Record(), fault);
      if thrown.Some? {
        return Failure(Unset, UpdateErrorPrefix + Message(thrown.value));
      }
      assert forall other :: store.bookings.Get(other) ==
               if other == bookingId then Some(updated) else Tables.Find(rows, BookingKey, other) by {
        forall other {
          Tables.FindAfterReplace(rows, BookingKey, updated, other);
        }
      }
      assert old(store.Referential()) ==> store.Referential() by {
        if old(store.Referential()) {
          var i :| 0 <= i < |rows| && rows[i] == existing;
          Store.ReplaceRefers(rows, updated, store.rooms.rows, store.guests.rows);
        }
      }
      r := Response(true, UpdatedMessage, Unset, Some(MapToDto(booking)));
    }

    /** The checks CreateBooking runs before saving, all passed. */
    predicate Passes(request: BookingDto)
      reads store, store.rooms, store.bookings, store.guests
    {
      && request.start < request.end
      && store.RoomExists(request.roomId)
      && !store.rooms.Get(request.roomId).value.inMaintenance
      && store.GetBookingByRoomAndDateRange(request.roomId, request.start, request.end).None?
      && store.GuestExists(request.guestId)
    }
  }
}
