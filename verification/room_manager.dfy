/**
 * Application/Room/RoomManager.cs: creation, deletion and lookup of rooms.
 * No response of this manager assigns ErrorCode.
 */
module RoomManagement {

  import opened Options
  import opened Time
  import opened Exceptions
  import opened Records
  import opened Responses
  import Tables
  import Store
  import opened RoomDomain
  import opened RoomDtos

  const CreatedMessage := "Sala criada com sucesso!"
  const DeletedMessage := "Sala deletada com sucesso."
  const FoundMessage := "Sala encontrada com sucesso!"
  const MissingMessage := "Sala não encontrada."
  const CreateErrorPrefix := "Erro ao criar sala: "
  const DeleteErrorPrefix := "Erro ao deletar sala: "

  class RoomManager {
    const store: Store.HotelStore

    constructor (store: Store.HotelStore)
      ensures this.store == store
    {
      this.store := store;
    }

    /**
     * CreateRoom: maps the request to an entity and inserts it as it is; the
     * room is not validated. The response carries the request with the
     * identity the database assigned; a database failure reports its message.
     */
    method CreateRoom(request: RoomDto, fault: Option<string>) returns (r: Response<RoomDto>)
      requires store.Valid()
      modifies store.rooms
      ensures store.Valid()
      ensures r.errorCode == Unset
      ensures fault.Some? ==>
                r == Failure(Unset, CreateErrorPrefix + fault.value) && unchanged(store.rooms)
      ensures fault.None? ==>
                var id := old(store.rooms.nextId);
                && r == Response(true, CreatedMessage, Unset, Some(request.(id := id)))
                && store.rooms.rows == old(store.rooms.rows) + [EntityRecord(request.(id := id))]
                && store.rooms.Get(id) == Some(EntityRecord(request.(id := id)))
                && store.rooms.nextId == id + 1
      ensures forall other :: other != old(store.rooms.nextId) ==> store.rooms.Get(other) == old(store.rooms.Get(other))
      ensures old(store.Referential()) ==> store.Referential()
    {
      var room := MapToEntity(request);
      ghost var rows := store.rooms.rows;
      ghost var referential := store.Referential();
      var created := store.rooms.Create(room.Record(), fault);
      if created.Throw? {
        return Failure(Unset, CreateErrorPrefix + Message(created.ex));
      }
      assert referential ==> store.Referential() by {
        if referential {
          Store.AppendRoomRefers(store.bookings.rows, rows, store.guests.rows, room.Record().(id := created.value));
        }
      }
      assert forall other :: store.rooms.Get(other) ==
               if other == created.value then Some(EntityRecord(request.(id := created.value)))
               else Tables.Find(rows, RoomKey, other) by {
        forall other {
          Tables.FindAfterAppend(rows, RoomKey, room.Record().(id := created.value), other);
        }
      }
      r := Response(true, CreatedMessage, Unset, Some(request.(id := created.value)));
    }

    /**
     * DeleteRoom: a missing room is reported without deleting anything;
     * otherwise the room is deleted. Its bookings are not looked at.
     */
    method DeleteRoom(roomId: int, fault: Option<string>) returns (r: Response<RoomDto>)
      requires store.Valid()
      modifies store.rooms
      ensures store.Valid()
      ensures r.errorCode == Unset && r.data.None?
      ensures old(store.rooms.Get(roomId)).None? ==>
                r == Failure(Unset, MissingMessage) && unchanged(store.rooms)
      ensures old(store.rooms.Get(roomId)).Some? && fault.Some? ==>
                r == Failure(Unset, DeleteErrorPrefix + fault.value) && unchanged(store.rooms)
      ensures old(store.rooms.Get(roomId)).Some? && fault.None? ==>
                && r == Response(true, DeletedMessage, Unset, None)
                && store.rooms.rows == Tables.Remove(old(store.rooms.rows), RoomKey, roomId)
                && store.rooms.Get(roomId).None?
      ensures forall other :: other != roomId ==> store.rooms.Get(other) == old(store.rooms.Get(other))
    {
      var room := store.rooms.Get(roomId);
      if room.None? {
        return Failure(Unset, MissingMessage);
      }
      ghost var rows := store.rooms.rows;
      var removed := store.rooms.Delete(roomId, fault);
      if removed.Throw? {
        return Failure(Unset, DeleteErrorPrefix + Message(removed.ex));
      }
      assert forall other :: store.rooms.Get(other) == if other == roomId then None else Tables.Find(rows, RoomKey, other) by {
        forall other {
          Tables.FindAfterRemove(rows, RoomKey, roomId, other);
        }
      }
      r := Response(true, DeletedMessage, Unset, None);
    }

    /** Every stored room has a Price, so MapToDto can read it. */
    lemma StoredRoomsHavePrice(id: int)
      requires store.rooms.Valid() && store.rooms.Get(id).Some?
      ensures store.rooms.Get(id).value.price.Some?
    {
      var rows := store.rooms.rows;
      var i :| 0 <= i < |rows| && rows[i] == store.rooms.Get(id).value;
    }

    /**
     * GetRoom: the DTO of the stored room, which maps back to exactly the
     * stored row, or a failure when there is none.
     */
    method GetRoom(roomId: int) returns (r: Response<RoomDto>)
      requires store.Valid()
      ensures r.errorCode == Unset
      ensures r.success <==> store.rooms.Get(roomId).Some?
      ensures !r.success ==> r == Failure(Unset, MissingMessage)
      ensures r.success ==> && r.message == FoundMessage && r.data.Some?
                            && EntityRecord(r.data.value) == store.rooms.Get(roomId).value
    {
      var row := store.rooms.Get(roomId);
      if row.None? {
        return Failure(Unset, MissingMessage);
      }
      StoredRoomsHavePrice(roomId);
      var room := new Room.Load(row.value, store.bookings.rows);
      r := Response(true, FoundMessage, Unset, Some(MapToDto(room)));
    }

    /**
     * GetAllRooms: one successful response per stored room, in store order;
     * each DTO maps back to its row. The rooms are loaded without their
     * bookings.
     */
    method GetAllRooms() returns (responses: seq<Response<RoomDto>>)
      requires store.Valid()
      ensures |responses| == |store.rooms.rows|
      ensures forall i :: 0 <= i < |responses| ==>
                && responses[i].success && responses[i].message == "" && responses[i].errorCode == Unset
                && responses[i].data.Some? && EntityRecord(responses[i].data.value) == store.rooms.rows[i]
    {
      var rows := store.rooms.rows;
      responses := [];
      for k := 0 to |rows|
        invariant |responses| == k
        invariant forall i :: 0 <= i < k ==>
                    && responses[i].success && responses[i].message == "" && responses[i].errorCode == Unset
                    && responses[i].data.Some? && EntityRecord(responses[i].data.value) == rows[i]
      {
        var room := new Room.Load(rows[k], []);
        responses := responses + [Response(true, "", Unset, Some(MapToDto(room)))];
      }
    }
  }

  /**
   * DeleteRoom does not look at bookings. In a database without a foreign
   * key from bookings to rooms, deleting a room that a booking refers to
   * succeeds and leaves that booking without its room.
   */
  method DeleteRoomCanOrphanBookings() returns (deleted: bool, orphaned: bool)
    ensures deleted && orphaned
  {
    var store := new Store.HotelStore();
    var roomId := store.rooms.Create(RoomRecord(0, "A", 1, false, Some(Price(100, 0))), None);
    var guestId := store.guests.Create(GuestDto(0, "N", "S", "e", 1, 1), None);
    var bookingId := store.bookings.Create(BookingRecord(0, 0, 0, TicksPerDay, roomId.value, guestId.value, Paid), None);
    var manager := new RoomManager(store);
    var r := manager.DeleteRoom(roomId.value, None);
    deleted := r.success;
    orphaned := store.bookings.Get(bookingId.value).Some? && !store.RoomExists(store.bookings.Get(bookingId.value).value.roomId);
  }
}
