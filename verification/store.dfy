/**
 * The repositories (IBookingRepository, IRoomRepository, IGuestRepository)
 * as an in-memory database: one table object per entity, each holding its
 * rows in store order and the next identity it hands out.
 *
 * Every write takes `fault`: Some(m) means the database throws an exception
 * with message m (a lost connection, a violated foreign key, ...) and nothing
 * is written. Reads do not fail.
 */
module Store {

  import opened Options
  import opened Time
  import opened Exceptions
  import opened Records
  import Tables

  /** The Bokings table. Bookings are stored with day-truncated dates, as the entity's setters leave them. */
  class BookingTable {
    var rows: seq<BookingRecord>
    var nextId: int

    ghost predicate Valid()
      reads this
    {
      && 0 < nextId
      && Tables.KeysBelow(rows, BookingKey, nextId)
      && Tables.UniqueKeys(rows, BookingKey)
      && forall i :: 0 <= i < |rows| ==> IsDate(rows[i].start) && IsDate(rows[i].end)
    }

    constructor ()
      ensures Valid() && rows == []
    {
      rows := [];
      nextId := 1;
    }

    /** IBookingRepository.Get: the booking with that Id, None for null. */
    function Get(id: int): Option<BookingRecord>
      reads this
    {
      Tables.Find(rows, BookingKey, id)
    }

    /** IBookingRepository.Create: inserts the booking; the database assigns the next identity and returns it. */
    method Create(b: BookingRecord, fault: Option<string>) returns (r: Result<int>)
      requires Valid() && IsDate(b.start) && IsDate(b.end)
      modifies this
      ensures Valid()
      ensures fault.Some? ==> r == Throw(StoreError(fault.value)) && unchanged(this)
      ensures fault.None? ==> && r == Ok(old(nextId))
                              && rows == old(rows) + [b.(id := old(nextId))]
                              && nextId == old(nextId) + 1
    {
      if fault.Some? {
        return Throw(StoreError(fault.value));
      }
      var row := b.(id := nextId);
      Tables.AppendKeepsKeys(rows, BookingKey, row, nextId);
      rows := rows + [row];
      r := Ok(nextId);
      nextId := nextId + 1;
    }

    /** Update: writes the booking over the stored row with its Id. */
    method Update(b: BookingRecord, fault: Option<string>) returns (thrown: Option<Exception>)
      requires Valid() && IsDate(b.start) && IsDate(b.end)
      modifies this
      ensures Valid()
      ensures fault.Some? ==> thrown == Some(StoreError(fault.value)) && unchanged(this)
      ensures fault.None? ==> && thrown.None?
                              && rows == Tables.Replace(old(rows), BookingKey, b)
                              && nextId == old(nextId)
    {
      if fault.Some? {
        return Some(StoreError(fault.value));
      }
      rows := Tables.Replace(rows, BookingKey, b);
      thrown := None;
    }

    /** IBookingRepository.Delete: removes the booking; true when it was found. */
    method Delete(id: int, fault: Option<string>) returns (r: Result<bool>)
      requires Valid()
      modifies this
      ensures Valid()
      ensures fault.Some? ==> r == Throw(StoreError(fault.value)) && unchanged(this)
      ensures fault.None? ==> && r == Ok(old(Get(id)).Some?)
                              && rows == Tables.Remove(old(rows), BookingKey, id)
                              && nextId == old(nextId)
    {
      if fault.Some? {
        return Throw(StoreError(fault.value));
      }
      r := Ok(Get(id).Some?);
      Tables.RemoveKeepsKeys(rows, BookingKey, id, nextId);
      rows := Tables.Remove(rows, BookingKey, id);
    }
  }

  /** The Rooms table. Every stored room has a Price: rooms only enter it through a DTO mapping or a validated Save. */
  class RoomTable {
    var rows: seq<RoomRecord>
    var nextId: int

    ghost predicate Valid()
      reads this
    {
      && 0 < nextId
      && Tables.KeysBelow(rows, RoomKey, nextId)
      && Tables.UniqueKeys(rows, RoomKey)
      && forall i :: 0 <= i < |rows| ==> rows[i].price.Some?
    }

    constructor ()
      ensures Valid() && rows == []
    {
      rows := [];
      nextId := 1;
    }

    /** IRoomRepository.Get. */
    function Get(id: int): Option<RoomRecord>
      reads this
    {
      Tables.Find(rows, RoomKey, id)
    }

    /** IRoomRepository.Create. */
    method Create(room: RoomRecord, fault: Option<string>) returns (r: Result<int>)
      requires Valid() && room.price.Some?
      modifies this
      ensures Valid()
      ensures fault.Some? ==> r == Throw(StoreError(fault.value)) && unchanged(this)
      ensures fault.None? ==> && r == Ok(old(nextId))
                              && rows == old(rows) + [room.(id := old(nextId))]
                              && nextId == old(nextId) + 1
    {
      if fault.Some? {
        return Throw(StoreError(fault.value));
      }
      var row := room.(id := nextId);
      Tables.AppendKeepsKeys(rows, RoomKey, row, nextId);
      rows := rows + [row];
      r := Ok(nextId);
      nextId := nextId + 1;
    }

    /** IRoomRepository.Delete. */
    method Delete(id: int, fault: Option<string>) returns (r: Result<bool>)
      requires Valid()
      modifies this
      ensures Valid()
      ensures fault.Some? ==> r == Throw(StoreError(fault.value)) && unchanged(this)
      ensures fault.None? ==> && r == Ok(old(Get(id)).Some?)
                              && rows == Tables.Remove(old(rows), RoomKey, id)
                              && nextId == old(nextId)
    {
      if fault.Some? {
        return Throw(StoreError(fault.value));
      }
      r := Ok(Get(id).Some?);
      Tables.RemoveKeepsKeys(rows, RoomKey, id, nextId);
      rows := Tables.Remove(rows, RoomKey, id);
    }
  }

  /** The Guests table. */
  class GuestTable {
    var rows: seq<GuestDto>
    var nextId: int

    ghost predicate Valid()
      reads this
    {
      && 0 < nextId
      && Tables.KeysBelow(rows, GuestKey, nextId)
      && Tables.UniqueKeys(rows, GuestKey)
    }

    constructor ()
      ensures Valid() && rows == []
    {
      rows := [];
      nextId := 1;
    }

    /** IGuestRepository.Get. */
    function Get(id: int): Option<GuestDto>
      reads this
    {
      Tables.Find(rows, GuestKey, id)
    }

    /** IGuestRepository.Create. */
    method Create(guest: GuestDto, fault: Option<string>) returns (r: Result<int>)
      requires Valid()
      modifies this
      ensures Valid()
      ensures fault.Some? ==> r == Throw(StoreError(fault.value)) && unchanged(this)
      ensures fault.None? ==> && r == Ok(old(nextId))
                              && rows == old(rows) + [guest.(id := old(nextId))]
                              && nextId == old(nextId) + 1
    {
      if fault.Some? {
        return Throw(StoreError(fault.value));
      }
      var row := guest.(id := nextId);
      Tables.AppendKeepsKeys(rows, GuestKey, row, nextId);
      rows := rows + [row];
      r := Ok(nextId);
      nextId := nextId + 1;
    }

    /** IGuestRepository.Delete. */
    method Delete(id: int, fault: Option<string>) returns (r: Result<bool>)
      requires Valid()
      modifies this
      ensures Valid()
      ensures fault.Some? ==> r == Throw(StoreError(fault.value)) && unchanged(this)
      ensures fault.None? ==> && r == Ok(old(Get(id)).Some?)
                              && rows == Tables.Remove(old(rows), GuestKey, id)
                              && nextId == old(nextId)
    {
      if fault.Some? {
        return Throw(StoreError(fault.value));
      }
      r := Ok(Get(id).Some?);
      Tables.RemoveKeepsKeys(rows, GuestKey, id, nextId);
      rows := Tables.Remove(rows, GuestKey, id);
    }
  }

  /**
   * The first booking in `rows` for room `roomId` whose stored interval
   * overlaps [start, end), whatever its status.
   */
  function FirstOverlap(rows: seq<BookingRecord>, roomId: int, start: Ticks, end: Ticks): (r: Option<BookingRecord>)
    ensures r.Some? ==> && r.value in rows
                        && r.value.roomId == roomId
                        && Overlaps(r.value.start, r.value.end, start, end)
    ensures r.None? ==> forall i :: 0 <= i < |rows| ==>
                          !(rows[i].roomId == roomId && Overlaps(rows[i].start, rows[i].end, start, end))
  {
    if |rows| == 0 then None
    else if rows[0].roomId == roomId && Overlaps(rows[0].start, rows[0].end, start, end) then Some(rows[0])
    else
      var r := FirstOverlap(rows[1..], roomId, start, end);
      assert forall i :: 0 < i < |rows| ==> rows[i] == rows[1..][i - 1];
      r
  }

  /**
   * The first booking in `rows` for room `roomId`, other than booking
   * `bookingId`, whose stored interval overlaps [start, end): the
   * overlap query with the booking being moved left out.
   */
  function OtherOverlap(rows: seq<BookingRecord>, bookingId: int, roomId: int, start: Ticks, end: Ticks): (r: Option<BookingRecord>)
    ensures r.Some? ==> && r.value in rows
                        && r.value.id != bookingId
                        && r.value.roomId == roomId
                        && Overlaps(r.value.start, r.value.end, start, end)
    ensures r.None? ==> forall i :: 0 <= i < |rows| && rows[i].id != bookingId ==>
                          !(rows[i].roomId == roomId && Overlaps(rows[i].start, rows[i].end, start, end))
  {
    FirstOverlap(Tables.Remove(rows, BookingKey, bookingId), roomId, start, end)
  }

  /** No two stored bookings of one room overlap. */
  ghost predicate NoOverlap(rows: seq<BookingRecord>) {
    forall i, j :: 0 <= i < |rows| && 0 <= j < |rows| && i != j && rows[i].roomId == rows[j].roomId ==>
      !Overlaps(rows[i].start, rows[i].end, rows[j].start, rows[j].end)
  }

  /** Appending a booking that overlaps no stored booking of its room keeps the rooms free of double bookings. */
  lemma AppendKeepsNoOverlap(rows: seq<BookingRecord>, row: BookingRecord)
    requires NoOverlap(rows)
    requires forall i :: 0 <= i < |rows| && rows[i].roomId == row.roomId ==>
               !Overlaps(rows[i].start, rows[i].end, row.start, row.end)
    ensures NoOverlap(rows + [row])
  {
    var r := rows + [row];
    forall i, j | 0 <= i < |r| && 0 <= j < |r| && i != j && r[i].roomId == r[j].roomId
      ensures !Overlaps(r[i].start, r[i].end, r[j].start, r[j].end)
    {
      if i < |rows| && j < |rows| {
        assert r[i] == rows[i] && r[j] == rows[j];
      } else if i < |rows| {
        assert r[i] == rows[i] && r[j] == row;
      } else {
        assert r[j] == rows[j] && r[i] == row;
      }
    }
  }

  /** Every booking row names a room row and a guest row by Id. */
  ghost predicate Refers(bookingRows: seq<BookingRecord>, roomRows: seq<RoomRecord>, guestRows: seq<GuestDto>) {
    forall i :: 0 <= i < |bookingRows| ==>
      Tables.HasKey(roomRows, RoomKey, bookingRows[i].roomId) && Tables.HasKey(guestRows, GuestKey, bookingRows[i].guestId)
  }

  /** Writing a row over another keeps every reference valid when the new row's room and guest are stored. */
  lemma ReplaceRefers(rows: seq<BookingRecord>, row: BookingRecord, roomRows: seq<RoomRecord>, guestRows: seq<GuestDto>)
    requires Refers(rows, roomRows, guestRows)
    requires Tables.HasKey(roomRows, RoomKey, row.roomId) && Tables.HasKey(guestRows, GuestKey, row.guestId)
    ensures Refers(Tables.Replace(rows, BookingKey, row), roomRows, guestRows)
  {
    var r := Tables.Replace(rows, BookingKey, row);
    forall i | 0 <= i < |r|
      ensures Tables.HasKey(roomRows, RoomKey, r[i].roomId) && Tables.HasKey(guestRows, GuestKey, r[i].guestId)
    {
      assert r[i] == row || r[i] == rows[i];
    }
  }

  /** Deleting a guest that no booking names keeps every reference valid. */
  lemma {:induction false} RemoveGuestRefers(rows: seq<BookingRecord>, roomRows: seq<RoomRecord>, guestRows: seq<GuestDto>, id: int)
    requires Refers(rows, roomRows, guestRows)
    requires forall i :: 0 <= i < |rows| ==> rows[i].guestId != id
    ensures Refers(rows, roomRows, Tables.Remove(guestRows, GuestKey, id))
  {
    forall i | 0 <= i < |rows|
      ensures Tables.HasKey(Tables.Remove(guestRows, GuestKey, id), GuestKey, rows[i].guestId)
    {
      Tables.FindAfterRemove(guestRows, GuestKey, id, rows[i].guestId);
    }
  }

  /** Inserting a guest keeps every reference valid. */
  lemma AppendGuestRefers(rows: seq<BookingRecord>, roomRows: seq<RoomRecord>, guestRows: seq<GuestDto>, guest: GuestDto)
    requires Refers(rows, roomRows, guestRows)
    ensures Refers(rows, roomRows, guestRows + [guest])
  {
    forall i | 0 <= i < |rows|
      ensures Tables.HasKey(guestRows + [guest], GuestKey, rows[i].guestId)
    {
      var j :| 0 <= j < |guestRows| && GuestKey(guestRows[j]) == rows[i].guestId;
      assert (guestRows + [guest])[j] == guestRows[j];
    }
  }

  /** Inserting a room keeps every reference valid. */
  lemma AppendRoomRefers(rows: seq<BookingRecord>, roomRows: seq<RoomRecord>, guestRows: seq<GuestDto>, room: RoomRecord)
    requires Refers(rows, roomRows, guestRows)
    ensures Refers(rows, roomRows + [room], guestRows)
  {
    forall i | 0 <= i < |rows|
      ensures Tables.HasKey(roomRows + [room], RoomKey, rows[i].roomId)
    {
      var j :| 0 <= j < |roomRows| && RoomKey(roomRows[j]) == rows[i].roomId;
      assert (roomRows + [room])[j] == roomRows[j];
    }
  }

  /** The database behind the three repositories. */
  class HotelStore {
    const bookings: BookingTable
    const rooms: RoomTable
    const guests: GuestTable

    ghost predicate Valid()
      reads bookings, rooms, guests
    {
      bookings.Valid() && rooms.Valid() && guests.Valid()
    }

    constructor ()
      ensures Valid() && fresh(bookings) && fresh(rooms) && fresh(guests)
      ensures bookings.rows == [] && rooms.rows == [] && guests.rows == []
    {
      bookings := new BookingTable();
      rooms := new RoomTable();
      guests := new GuestTable();
    }

    /** IBookingRepository.RoomExists: the Rooms table holds a room with that Id. */
    predicate RoomExists(roomId: int)
      reads rooms
      ensures RoomExists(roomId) <==> exists i :: 0 <= i < |rooms.rows| && rooms.rows[i].id == roomId
    {
      rooms.Get(roomId).Some?
    }

    /** IBookingRepository.GuestExists: the Guests table holds a guest with that Id. */
    predicate GuestExists(guestId: int)
      reads guests
      ensures GuestExists(guestId) <==> exists i :: 0 <= i < |guests.rows| && guests.rows[i].id == guestId
    {
      guests.Get(guestId).Some?
    }

    /**
     * IBookingRepository.GetBookingByRoomAndDateRange: a stored booking of the
     * room whose interval overlaps [start, end) (half-open), or None.
     */
    function GetBookingByRoomAndDateRange(roomId: int, start: Ticks, end: Ticks): Option<BookingRecord>
      reads bookings
    {
      FirstOverlap(bookings.rows, roomId, start, end)
    }

    /** Every stored booking refers to a stored room and a stored guest (the foreign keys of the Bokings table). */
    ghost predicate Referential()
      reads bookings, rooms, guests
    {
      Refers(bookings.rows, rooms.rows, guests.rows)
    }

    /** IBookingRepository.HasBookingsForGuest: some stored booking names the guest. */
    predicate HasBookingsForGuest(guestId: int)
      reads bookings
      ensures !HasBookingsForGuest(guestId) <==> forall b :: b in bookings.rows ==> b.guestId != guestId
    {
      exists i :: 0 <= i < |bookings.rows| && bookings.rows[i].guestId == guestId
    }
  }
}
