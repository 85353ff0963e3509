/** Application/Room/Dtos/RoomDto.cs: the room as the API carries it, and its two mappings. */
module RoomDtos {

  import opened Options
  import opened Records
  import opened RoomDomain

  /** RoomDto: the price is flattened into its amount and the integer of its currency. */
  datatype RoomDto = RoomDto(
    id: int,
    name: string,
    level: int,
    inMaintenance: bool,
    priceValue: int,
    currencyCode: int)

  /**
   * The entity MapToEntity builds, as a record. It always has a Price, and
   * mapping it back gives the DTO again.
   */
  function EntityRecord(d: RoomDto): (r: RoomRecord)
    ensures r.price.Some?
    ensures r.id == d.id && r.name == d.name && r.level == d.level && r.inMaintenance == d.inMaintenance
    ensures r.price.value == Price(d.priceValue, d.currencyCode)
  {
    RoomRecord(d.id, d.name, d.level, d.inMaintenance, Some(Price(d.priceValue, d.currencyCode)))
  }

  /** MapToEntity: a new Room with the DTO's properties, a Price built from it and no bookings. */
  method MapToEntity(d: RoomDto) returns (room: Room)
    ensures fresh(room)
    ensures room.Record() == EntityRecord(d) && room.bookings == []
    ensures room.price.Some? && MapToDto(room) == d
  {
    room := new Room();
    room.id := d.id;
    room.name := d.name;
    room.level := d.level;
    room.inMaintenance := d.inMaintenance;
    room.price := Some(Price(d.priceValue, d.currencyCode));
  }

  /**
   * MapToDto: reads the Price, so it must be present. The DTO maps back to
   * the room's own record: no property is lost.
   */
  function MapToDto(room: Room): (d: RoomDto)
    reads room
    requires room.price.Some?
    ensures EntityRecord(d) == room.Record()
  {
    RoomDto(room.id, room.name, room.level, room.inMaintenance, room.price.value.value, room.price.value.currency)
  }
}
