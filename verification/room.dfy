/** Domain/Room/Entities/Room.cs: the room entity, its availability test and its validation. */
module RoomDomain {

  import opened Options
  import opened Time
  import opened Exceptions
  import opened Records
  import Store

  /**
   * The condition inside IsAvailableForDates' Any: the booking is paid and
   * the requested dates are not entirely before or after it.
   */
  function Conflicts(b: BookingRecord, start: Ticks, end: Ticks): (r: bool)
    ensures r <==> b.status == Paid && Overlaps(b.start, b.end, start, end)
  {
    b.status == Paid && !(end <= b.start || start >= b.end)
  }

  /** ValidateName: string.IsNullOrEmpty (a null name is the empty string here). */
  function ValidateName(r: RoomRecord): Option<Exception> {
    if |r.name| == 0 then Some(InvalidRoomNameException) else None
  }

  /** ValidateLevel. */
  function ValidateLevel(r: RoomRecord): Option<Exception> {
    if r.level <= 0 then Some(InvalidRoomLevelException) else None
  }

  /** ValidatePrice: a missing price or a price that is not positive. */
  function ValidatePrice(r: RoomRecord): Option<Exception> {
    if r.price.None? || r.price.value.value <= 0 then Some(InvalidRoomPriceException) else None
  }

  /** A room Save accepts. */
  predicate WellFormed(r: RoomRecord) {
    |r.name| > 0 && r.level > 0 && r.price.Some? && r.price.value.value > 0
  }

  /**
   * Validate: the exception it throws, None when it returns. The name is
   * checked first, then the level, then the price.
   */
  function Validate(r: RoomRecord): (e: Option<Exception>)
    ensures e.None? <==> WellFormed(r)
    ensures e == Some(InvalidRoomNameException) <==> |r.name| == 0
    ensures e == Some(InvalidRoomLevelException) <==> |r.name| > 0 && r.level <= 0
    ensures e == Some(InvalidRoomPriceException) <==>
              |r.name| > 0 && r.level > 0 && (r.price.None? || r.price.value.value <= 0)
  {
    if ValidateName(r).Some? then ValidateName(r)
    else if ValidateLevel(r).Some? then ValidateLevel(r)
    else ValidatePrice(r)
  }

  /** The bookings of room `roomId` among `rows`, in store order: what Include(r => r.Bookings) loads. */
  function BookingsOf(rows: seq<BookingRecord>, roomId: int): (r: seq<BookingRecord>)
    ensures forall j :: 0 <= j < |r| ==> r[j] in rows && r[j].roomId == roomId
    ensures forall i :: 0 <= i < |rows| && rows[i].roomId == roomId ==> rows[i] in r
  {
    if |rows| == 0 then []
    else
      var tail := BookingsOf(rows[1..], roomId);
      assert forall i :: 0 < i < |rows| ==> rows[i] == rows[1..][i - 1];
      if rows[0].roomId == roomId then [rows[0]] + tail else tail
  }

  /** The Room entity; `bookings` is its Bookings collection. */
  class Room {
    var id: int
    var name: string
    var level: int
    var inMaintenance: bool
    var price: Option<Price>
    var bookings: seq<BookingRecord>

    function Record(): RoomRecord
      reads this
    {
      RoomRecord(id, name, level, inMaintenance, price)
    }

    /** new Room(): every property at its default and no bookings. */
    constructor ()
      ensures Record() == RoomRecord(0, "", 0, false, None) && bookings == []
    {
      id, name, level, inMaintenance, price := 0, "", 0, false, None;
      bookings := [];
    }

    /** The entity IRoomRepository.Get materialises: the stored row with its bookings included. */
    constructor Load(row: RoomRecord, bookingRows: seq<BookingRecord>)
      ensures Record() == row && bookings == BookingsOf(bookingRows, row.id)
    {
      id, name, level, inMaintenance, price := row.id, row.name, row.level, row.inMaintenance, row.price;
      bookings := BookingsOf(bookingRows, row.id);
    }

    /** IsAvailable: a room in maintenance is not available. */
    predicate IsAvailable()
      reads this
    {
      !inMaintenance
    }

    /**
     * IsAvailableForDates: throws RoomNotAvailableException when the room is
     * in maintenance or a paid booking overlaps [start, end); otherwise
     * returns true. It never returns false.
     */
    function IsAvailableForDates(start: Ticks, end: Ticks): (r: Result<bool>)
      reads this
      ensures r.Ok? ==> r.value
      ensures r.Throw? ==> r.ex == RoomNotAvailableException
      ensures r.Ok? <==> IsAvailable() && forall i :: 0 <= i < |bookings| ==>
                !(bookings[i].status == Paid && Overlaps(bookings[i].start, bookings[i].end, start, end))
    {
      if inMaintenance then Throw(RoomNotAvailableException)
      else if exists i :: 0 <= i < |bookings| && Conflicts(bookings[i], start, end) then Throw(RoomNotAvailableException)
      else Ok(true)
    }

    /**
     * Save: validates, then inserts through the repository only when Id is 0
     * and takes the Id it returns. A room with an Id is left as it is.
     */
    method Save(table: Store.RoomTable, fault: Option<string>) returns (thrown: Option<Exception>)
      requires table.Valid()
      modifies this, table
      ensures table.Valid()
      ensures bookings == old(bookings)
      ensures Validate(old(Record())).Some? ==>
                thrown == Validate(old(Record())) && unchanged(this) && unchanged(table)
      ensures Validate(old(Record())).None? && old(id) != 0 ==>
                thrown.None? && unchanged(this) && unchanged(table)
      ensures Validate(old(Record())).None? && old(id) == 0 && fault.Some? ==>
                thrown == Some(StoreError(fault.value)) && unchanged(this) && unchanged(table)
      ensures Validate(old(Record())).None? && old(id) == 0 && fault.None? ==>
                && thrown.None?
                && Record() == old(Record()).(id := old(table.nextId))
                && table.rows == old(table.rows) + [Record()]
                && table.nextId == old(table.nextId) + 1
    {
      thrown := Validate(Record());
      if thrown.Some? {
        return;
      }
      if id == 0 {
        var created := table.Create(Record(), fault);
        if created.Throw? {
          return Some(created.ex);
        }
        id := created.value;
      }
    }
  }

  /**
   * The repository's overlap query is stricter than the entity's test: when
   * the store holds no booking of the room overlapping [start, end), whatever
   * its status, the loaded room is available for those dates unless it is in
   * maintenance.
   */
  lemma {:induction false} NoStoredOverlapMeansAvailable(room: Room, rows: seq<BookingRecord>, start: Ticks, end: Ticks)
    requires room.bookings == BookingsOf(rows, room.id)
    requires Store.FirstOverlap(rows, room.id, start, end).None?
    requires !room.inMaintenance
    ensures room.IsAvailableForDates(start, end) == Ok(true)
  {
    forall j | 0 <= j < |room.bookings|
      ensures !Conflicts(room.bookings[j], start, end)
    {
      var b := room.bookings[j];
      var i :| 0 <= i < |rows| && rows[i] == b;
    }
  }

  /** The converse fails: a canceled booking blocks the repository's query but not the entity's test. */
  lemma CanceledBookingOnlyBlocksTheStore()
    ensures var rows := [BookingRecord(1, 0, 0, TicksPerDay, 7, 3, Canceled)];
            && Store.FirstOverlap(rows, 7, 0, TicksPerDay).Some?
            && forall j :: 0 <= j < |BookingsOf(rows, 7)| ==> !Conflicts(BookingsOf(rows, 7)[j], 0, TicksPerDay)
  {
  }
}
