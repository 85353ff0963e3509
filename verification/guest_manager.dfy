/**
 * Application/Guest/GuestManager.cs: creation, lookup and deletion of
 * guests. The Guest entity and its validation rules are not part of this
 * model: `validate` stands for the exception Guest.Save's validation throws
 * for a request, None when it accepts it.
 */
module GuestManagement {

  import opened Options
  import opened Exceptions
  import opened Records
  import opened Responses
  import Tables
  import Store

  const NoGuestMessage := "No guest record was found with the given id"
  const InvalidIdMessage := "The passed ID is not valid"
  const MissingMessage := "Missing passed required information"
  const InvalidEmailMessage := "The given email is not valid"
  const SaveErrorMessage := "There was an error when saving to DB"
  const HasBookingsMessage := "Cannot delete guest because they have existing bookings."
  const DeleteErrorMessage := "There was an error when deleting the guest record"
  const DeletedMessage := "Guest deleted successfully"

  /** The response CreateGuest's catch clauses build from an exception: every one of them is reported with a code. */
  function CreateFailure(ex: Exception): (r: Response<GuestDto>)
    ensures !r.success && r.data.None? && r.errorCode != Unset
    ensures ex == InvalidPersonDocumentIdException ==> r == Failure(InvalidPersonId, InvalidIdMessage)
    ensures ex == Exception.MissingRequiredInformation ==>
              r == Failure(Responses.MissingRequiredInformation, MissingMessage)
    ensures ex == InvalidEmailException ==> r == Failure(InvalidEmail, InvalidEmailMessage)
    ensures ex != InvalidPersonDocumentIdException && ex != Exception.MissingRequiredInformation && ex != InvalidEmailException ==>
              r == Failure(CouldNotStoreData, SaveErrorMessage)
  {
    match ex
    case InvalidPersonDocumentIdException => Failure(InvalidPersonId, InvalidIdMessage)
    case MissingRequiredInformation => Failure(Responses.MissingRequiredInformation, MissingMessage)
    case InvalidEmailException => Failure(InvalidEmail, InvalidEmailMessage)
    case _ => Failure(CouldNotStoreData, SaveErrorMessage)
  }

  class GuestManager {
    const store: Store.HotelStore
    const validate: GuestDto -> Option<Exception>

    constructor (store: Store.HotelStore, validate: GuestDto -> Option<Exception>)
      ensures this.store == store && this.validate == validate
    {
      this.store := store;
      this.validate := validate;
    }

    /**
     * CreateGuest: Guest.Save validates, then inserts only when Id is 0; the
     * response carries the request with the guest's Id. Every exception,
     * the database's included, is mapped by CreateFailure.
     */
    method CreateGuest(request: GuestDto, fault: Option<string>) returns (r: Response<GuestDto>)
      requires store.Valid()
      modifies store.guests
      ensures store.Valid()
      ensures validate(request).Some? ==>
                r == CreateFailure(validate(request).value) && unchanged(store.guests)
      ensures validate(request).None? && request.id != 0 ==>
                r == Response(true, "", Unset, Some(request)) && unchanged(store.guests)
      ensures validate(request).None? && request.id == 0 && fault.Some? ==>
                r == CreateFailure(StoreError(fault.value)) && unchanged(store.guests)
      ensures validate(request).None? && request.id == 0 && fault.None? ==>
                var id := old(store.guests.nextId);
                && r == Response(true, "", Unset, Some(request.(id := id)))
                && store.guests.rows == old(store.guests.rows) + [request.(id := id)]
                && store.guests.Get(id) == Some(request.(id := id))
                && store.guests.nextId == id + 1
      ensures forall other :: other != old(store.guests.nextId) ==> store.guests.Get(other) == old(store.guests.Get(other))
      ensures old(store.Referential()) ==> store.Referential()
    {
      var thrown := validate(request);
      if thrown.Some? {
        return CreateFailure(thrown.value);
      }
      var id := request.id;
      if id == 0 {
        ghost var rows := store.guests.rows;
        ghost var referential := store.Referential();
        var created := store.guests.Create(request, fault);
        if created.Throw? {
          return CreateFailure(created.ex);
        }
        id := created.value;
        assert referential ==> store.Referential() by {
          if referential {
            Store.AppendGuestRefers(store.bookings.rows, store.rooms.rows, rows, request.(id := id));
          }
        }
        assert forall other :: store.guests.Get(other) ==
                 if other == id then Some(request.(id := id)) else Tables.Find(rows, GuestKey, other) by {
          forall other {
            Tables.FindAfterAppend(rows, GuestKey, request.(id := id), other);
          }
        }
      }
      r := Response(true, "", Unset, Some(request.(id := id)));
    }

    /** GetGuest: the stored guest, or GUEST_NOT_FOUND. */
    method GetGuest(guestId: int) returns (r: Response<GuestDto>)
      ensures r.success <==> store.guests.Get(guestId).Some?
      ensures r.success ==> r == Response(true, "", Unset, store.guests.Get(guestId))
      ensures !r.success ==> r == Failure(GuestNotFound, NoGuestMessage)
    {
      var guest := store.guests.Get(guestId);
      if guest.None? {
        return Failure(GuestNotFound, NoGuestMessage);
      }
      r := Response(true, "", Unset, guest);
    }

    /** GetAllGuests: one successful response per stored guest, in store order. */
    method GetAllGuests() returns (responses: seq<Response<GuestDto>>)
      ensures |responses| == |store.guests.rows|
      ensures forall i :: 0 <= i < |responses| ==>
                responses[i] == Response(true, "", Unset, Some(store.guests.rows[i]))
    {
      var rows := store.guests.rows;
      responses := [];
      for k := 0 to |rows|
        invariant |responses| == k
        invariant forall i :: 0 <= i < k ==> responses[i] == Response(true, "", Unset, Some(rows[i]))
      {
        responses := responses + [Response(true, "", Unset, Some(rows[k]))];
      }
    }

    /**
     * DeleteGuest: a missing guest, then a guest with bookings, is refused
     * without deleting; otherwise the guest is deleted. A database failure
     * is COULD_NOT_DELETE. No booking is left without its guest.
     */
    method DeleteGuest(guestId: int, fault: Option<string>) returns (r: Response<GuestDto>)
      requires store.Valid()
      modifies store.guests
      ensures store.Valid()
      ensures r.data.None?
      ensures old(store.guests.Get(guestId)).None? ==>
                r == Failure(GuestNotFound, NoGuestMessage) && unchanged(store.guests)
      ensures old(store.guests.Get(guestId)).Some? && store.HasBookingsForGuest(guestId) ==>
                && r == Failure(CannotDeleteGuestWithBookings, HasBookingsMessage)
                && unchanged(store.guests)
      ensures old(store.guests.Get(guestId)).Some? && !store.HasBookingsForGuest(guestId) && fault.Some? ==>
                r == Failure(CouldNotDelete, DeleteErrorMessage) && unchanged(store.guests)
      ensures old(store.guests.Get(guestId)).Some? && !store.HasBookingsForGuest(guestId) && fault.None? ==>
                && r == Response(true, DeletedMessage, Unset, None)
                && store.guests.rows == Tables.Remove(old(store.guests.rows), GuestKey, guestId)
                && store.guests.Get(guestId).None?
      ensures forall other :: other != guestId ==> store.guests.Get(other) == old(store.guests.Get(other))
      ensures old(store.Referential()) ==> store.Referential()
    {
      var guest := store.guests.Get(guestId);
      if guest.None? {
        return Failure(GuestNotFound, NoGuestMessage);
      }
      if store.HasBookingsForGuest(guestId) {
        return Failure(CannotDeleteGuestWithBookings, HasBookingsMessage);
      }
      ghost var rows := store.guests.rows;
      ghost var referential := store.Referential();
      var removed := store.guests.Delete(guestId, fault);
      if removed.Throw? {
        return Failure(CouldNotDelete, DeleteErrorMessage);
      }
      assert forall other :: store.guests.Get(other) == if other == guestId then None else Tables.Find(rows, GuestKey, other) by {
        forall other {
          Tables.FindAfterRemove(rows, GuestKey, guestId, other);
        }
      }
      assert referential ==> store.Referential() by {
        if referential {
          Store.RemoveGuestRefers(store.bookings.rows, store.rooms.rows, rows, guestId);
        }
      }
      r := Response(true, DeletedMessage, Unset, None);
    }
  }
}
