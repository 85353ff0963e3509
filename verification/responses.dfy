/** Application/Response.cs: the error codes and the response every manager returns. */
module Responses {

  import opened Options

  /**
   * The ErrorCode enum. Unset is the enum's default value 0, which is not one
   * of its named members; a response that never assigns ErrorCode carries it.
   */
  datatype ErrorCode =
    | Unset
    | NotFound
    | CouldNotStoreData
    | InvalidPersonId
    | MissingRequiredInformation
    | InvalidEmail
    | GuestNotFound
    | CouldNotDelete
    | RoomNotFound
    | InvalidPrice
    | RoomInMaintenance
    | RoomNotAvailable
    | CannotDeleteRoomWithBookings
    | CannotDeleteGuestWithBookings
    | BookingNotFound

  /** The integer value of each code as the enum declares it. */
  function Value(code: ErrorCode): (v: int)
    ensures 0 <= v <= 14
    ensures v == 0 <==> code == Unset
  {
    match code
    case Unset => 0
    case NotFound => 1
    case CouldNotStoreData => 2
    case InvalidPersonId => 3
    case MissingRequiredInformation => 4
    case InvalidEmail => 5
    case GuestNotFound => 6
    case CouldNotDelete => 7
    case RoomNotFound => 8
    case InvalidPrice => 9
    case RoomInMaintenance => 10
    case RoomNotAvailable => 11
    case CannotDeleteRoomWithBookings => 12
    case CannotDeleteGuestWithBookings => 13
    case BookingNotFound => 14
  }

  /** The named members have pairwise distinct values, so callers can tell every outcome apart. */
  lemma ValueInjective(a: ErrorCode, b: ErrorCode)
    requires Value(a) == Value(b)
    ensures a == b
  {
  }

  /**
   * A response: Success, Message and ErrorCode, plus the payload its subclass
   * adds (BookingData, RoomData, Data). A Message or payload that is never
   * assigned (null in the source) is "" and None here.
   */
  datatype Response<+T> = Response(success: bool, message: string, errorCode: ErrorCode, data: Option<T>)

  /** A failed response with a code and a message and no payload. */
  function Failure<T>(code: ErrorCode, message: string): (r: Response<T>)
    ensures !r.success && r.data.None?
  {
    Response(false, message, code, None)
  }
}
