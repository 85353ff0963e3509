/**
 * The exceptions the core raises and catches. The domain exception classes
 * (Domain.Booking.Exceptions, Domain.Room.Exceptions, Domain.Guest.Exceptions)
 * carry no data; every other exception, in practice one raised by the
 * database, is StoreError with its message.
 */
module Exceptions {

  datatype Exception =
    | InvalidBookingDatesException
    | RoomNotFoundException
    | GuestNotFoundException
    | RoomInMaintenanceException
    | RoomNotAvailableException
    | InvalidRoomNameException
    | InvalidRoomLevelException
    | InvalidRoomPriceException
    | InvalidPersonDocumentIdException
    | MissingRequiredInformation
    | InvalidEmailException
    | StoreError(message: string)

  /**
   * Exception.Message. The domain exception classes are not part of this
   * model, so their message is taken to be empty.
   */
  function Message(ex: Exception): string {
    if ex.StoreError? then ex.message else ""
  }

  /** The value of a call that returns normally, or the exception it throws. */
  datatype Result<+T> = Ok(value: T) | Throw(ex: Exception)
}
