/** Application/Booking/Dtos/BookingDto.cs: the booking as the API carries it, and its two mappings. */
module BookingDtos {

  import opened Options
  import opened Time
  import opened Records
  import opened BookingDomain

  /** BookingDto: the dates are whatever the client sent, not necessarily whole days. */
  datatype BookingDto = BookingDto(
    id: int,
    placedAt: Ticks,
    start: Ticks,
    end: Ticks,
    roomId: int,
    guestId: int,
    status: Status)

  /**
   * The entity MapToEntity builds, as a record: the properties are copied
   * and the Start and End setters truncate the dates to their day.
   */
  function EntityRecord(d: BookingDto): (r: BookingRecord)
    ensures IsDate(r.start) && r.start <= d.start < r.start + TicksPerDay
    ensures IsDate(r.end) && r.end <= d.end < r.end + TicksPerDay
    ensures (r.id, r.placedAt, r.roomId, r.guestId, r.status) == (d.id, d.placedAt, d.roomId, d.guestId, d.status)
  {
    BookingRecord(d.id, d.placedAt, DateOf(d.start), DateOf(d.end), d.roomId, d.guestId, d.status)
  }

  /** The DTO of a stored booking whose navigations agree with its foreign keys. */
  function DtoOf(b: BookingRecord): BookingDto {
    BookingDto(b.id, b.placedAt, b.start, b.end, b.roomId, b.guestId, b.status)
  }

  /**
   * MapToEntity: a new Booking whose initializer assigns every property.
   * The constructor's PlacedAt (the clock) and Status are overwritten by
   * the DTO's; Room and Guest are not loaded.
   */
  method MapToEntity(d: BookingDto, now: Ticks) returns (b: Booking)
    ensures fresh(b) && b.Valid()
    ensures b.Record() == EntityRecord(d)
    ensures b.room.None? && b.guest.None?
  {
    b := new Booking(now);
    b.id := d.id;
    b.placedAt := d.placedAt;
    b.SetStart(d.start);
    b.SetEnd(d.end);
    b.roomId := d.roomId;
    b.guestId := d.guestId;
    b.status := d.status;
  }

  /**
   * MapToDto: RoomId and GuestId come from the loaded Room and Guest, so
   * both navigations must be loaded; when they agree with the foreign keys
   * the DTO is the booking's own record.
   */
  function MapToDto(b: Booking): (d: BookingDto)
    reads b
    requires b.room.Some? && b.guest.Some?
    ensures d.roomId == b.room.value && d.guestId == b.guest.value
    ensures b.room == Some(b.roomId) && b.guest == Some(b.guestId) ==> d == DtoOf(b.Record())
  {
    BookingDto(b.id, b.placedAt, b.start, b.end, b.room.value, b.guest.value, b.status)
  }

  /** Mapping a stored booking to its DTO and back gives the booking again. */
  lemma {:induction false} EntityOfDtoOf(b: BookingRecord)
    requires IsDate(b.start) && IsDate(b.end)
    ensures EntityRecord(DtoOf(b)) == b
  {
    DateOfDate(b.start);
    DateOfDate(b.end);
  }

  /** A DTO survives the round trip through the entity exactly when its dates are whole days. */
  lemma {:induction false} DtoRoundTrip(d: BookingDto)
    ensures DtoOf(EntityRecord(d)) == d <==> IsDate(d.start) && IsDate(d.end)
  {
    if IsDate(d.start) && IsDate(d.end) {
      DateOfDate(d.start);
      DateOfDate(d.end);
    }
  }

  /** Mapping to the entity is idempotent on the dates: truncating twice is truncating once. */
  lemma {:induction false} EntityRecordIdempotent(d: BookingDto)
    ensures EntityRecord(DtoOf(EntityRecord(d))) == EntityRecord(d)
  {
    EntityOfDtoOf(EntityRecord(d));
  }
}
