/**
 * The column values of the entities as the repositories store them. The
 * entity classes (Booking, Room) hold the same values in fields that their
 * methods update; the store keeps one record per row.
 */
module Records {

  import opened Options
  import opened Time

  /** Domain.Enums.Status, with the source's spelling. */
  datatype Status = Created | Paid | Canceled | Finished | Refounded

  /** The scalar properties of a Booking. */
  datatype BookingRecord = BookingRecord(
    id: int,
    placedAt: Ticks,
    start: Ticks,
    end: Ticks,
    roomId: int,
    guestId: int,
    status: Status)

  /**
   * Domain.Room.ValueObjects.Price. The decimal amount is an integer here and
   * the currency is the integer behind the AcceptedCurrencies enum (a C# cast
   * from int to an enum keeps the integer, named or not).
   */
  datatype Price = Price(value: int, currency: int)

  /** The scalar properties of a Room; a null Price is None. */
  datatype RoomRecord = RoomRecord(
    id: int,
    name: string,
    level: int,
    inMaintenance: bool,
    price: Option<Price>)

  /** The guest as its DTO carries it; the Guest entity and its mapping are not part of this model. */
  datatype GuestDto = GuestDto(
    id: int,
    name: string,
    surname: string,
    email: string,
    idNumber: int,
    idTypeCode: int)

  function BookingKey(b: BookingRecord): int { b.id }
  function RoomKey(r: RoomRecord): int { r.id }
  function GuestKey(g: GuestDto): int { g.id }
}
