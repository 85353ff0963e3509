/** Domain/Booking/Entities/Booking.cs: the booking entity and its status machine. */
module BookingDomain {

  import opened Options
  import opened Time
  import opened Exceptions
  import opened Records
  import Store

  /** Domain.Enums.Action, with the source's spelling. */
  datatype Action = Pay | Finish | Cancel | Refound | Reopen

  /** The transitions ChangeState knows; every other (status, action) pair is a no-op. */
  const Transitions: map<(Status, Action), Status> := map[
    (Created, Pay) := Paid,
    (Created, Cancel) := Canceled,
    (Paid, Finish) := Finished,
    (Paid, Refound) := Refounded,
    (Canceled, Reopen) := Created]

  /** The status ChangeState assigns: the switch expression over (Status, action). */
  function NextStatus(s: Status, a: Action): (r: Status)
    ensures (s, a) in Transitions ==> r == Transitions[(s, a)]
    ensures (s, a) !in Transitions ==> r == s
    ensures r != s <==> (s, a) in Transitions
  {
    match (s, a)
    case (Created, Pay) => Paid
    case (Created, Cancel) => Canceled
    case (Paid, Finish) => Finished
    case (Paid, Refound) => Refounded
    case (Canceled, Reopen) => Created
    case _ => s
  }

  /** The status after ChangeState has been called with each action in turn. */
  function Run(s: Status, actions: seq<Action>): Status
    decreases |actions|
  {
    if |actions| == 0 then s else Run(NextStatus(s, actions[0]), actions[1..])
  }

  /** Finished and Refounded have no outgoing transition: no sequence of actions leaves them. */
  lemma {:induction false} TerminalIsFinal(s: Status, actions: seq<Action>)
    requires s == Finished || s == Refounded
    ensures Run(s, actions) == s
    decreases |actions|
  {
    if |actions| > 0 {
      TerminalIsFinal(NextStatus(s, actions[0]), actions[1..]);
    }
  }

  /** Once paid, a booking can only be finished or refounded: it never returns to Created or Canceled. */
  lemma {:induction false} PaidIsIrrevocable(s: Status, actions: seq<Action>)
    requires s == Paid || s == Finished || s == Refounded
    ensures Run(s, actions) in {Paid, Finished, Refounded}
    decreases |actions|
  {
    if |actions| > 0 {
      PaidIsIrrevocable(NextStatus(s, actions[0]), actions[1..]);
    }
  }

  /** A canceled booking becomes bookable again only by Reopen, which takes it back to Created. */
  lemma {:induction false} CanceledLeavesOnlyByReopen(actions: seq<Action>)
    requires forall i :: 0 <= i < |actions| ==> actions[i] != Reopen
    ensures Run(Canceled, actions) == Canceled
    decreases |actions|
  {
    if |actions| > 0 {
      CanceledLeavesOnlyByReopen(actions[1..]);
    }
  }

  /** The invariants a booking must satisfy to be saved. */
  predicate Admissible(b: BookingRecord) {
    b.start < b.end && b.placedAt <= b.start && b.roomId > 0 && b.guestId > 0
  }

  /**
   * Booking.Validate: the exception it throws, None when it returns. The
   * checks run in order and the first failure wins: the dates before the
   * room, the room before the guest.
   */
  function Validate(b: BookingRecord): (r: Option<Exception>)
    ensures r.None? <==> Admissible(b)
    ensures b.end <= b.start || b.start < b.placedAt ==> r == Some(InvalidBookingDatesException)
    ensures r == Some(RoomNotFoundException) <==> b.start < b.end && b.placedAt <= b.start && b.roomId <= 0
    ensures r == Some(GuestNotFoundException) <==> b.start < b.end && b.placedAt <= b.start && b.roomId > 0 && b.guestId <= 0
  {
    if b.start >= b.end then Some(InvalidBookingDatesException)
    else if b.start < b.placedAt then Some(InvalidBookingDatesException)
    else if b.roomId <= 0 then Some(RoomNotFoundException)
    else if b.guestId <= 0 then Some(GuestNotFoundException)
    else None
  }

  /**
   * The Booking entity. `start` and `end` are the backing fields _start and
   * _end; `room` and `guest` stand for the Room and Guest navigation
   * properties by the Id of the loaded entity, None when not loaded.
   */
  class Booking {
    var id: int
    var placedAt: Ticks
    var start: Ticks
    var end: Ticks
    var roomId: int
    var guestId: int
    var room: Option<int>
    var guest: Option<int>
    var status: Status

    /** The setters only ever store dates. */
    ghost predicate Valid()
      reads this
    {
      IsDate(start) && IsDate(end)
    }

    function Record(): BookingRecord
      reads this
    {
      BookingRecord(id, placedAt, start, end, roomId, guestId, status)
    }

    /** new Booking(): status Created, placed now; the other properties keep their defaults. */
    constructor (now: Ticks)
      ensures Valid()
      ensures Record() == BookingRecord(0, now, 0, 0, 0, 0, Created)
      ensures room.None? && guest.None?
    {
      id, placedAt, start, end := 0, now, 0, 0;
      roomId, guestId := 0, 0;
      room, guest := None, None;
      status := Created;
    }

    /** The entity the repository materialises from a stored row, Room and Guest included. */
    constructor Load(row: BookingRecord)
      requires IsDate(row.start) && IsDate(row.end)
      ensures Valid() && Record() == row
      ensures room == Some(row.roomId) && guest == Some(row.guestId)
    {
      id, placedAt, start, end := row.id, row.placedAt, row.start, row.end;
      roomId, guestId := row.roomId, row.guestId;
      room, guest := Some(row.roomId), Some(row.guestId);
      status := row.status;
    }

    /** The Start setter: stores the value truncated to its day. */
    method SetStart(v: Ticks)
      modifies this
      ensures Valid() == IsDate(old(end))
      ensures Record() == old(Record()).(start := DateOf(v))
      ensures room == old(room) && guest == old(guest)
    {
      start := DateOf(v);
    }

    /** The End setter: stores the value truncated to its day. */
    method SetEnd(v: Ticks)
      modifies this
      ensures Valid() == IsDate(old(start))
      ensures Record() == old(Record()).(end := DateOf(v))
      ensures room == old(room) && guest == old(guest)
    {
      end := DateOf(v);
    }

    /** StartDateOnly (Start.Date): the stored start already is a date. */
    function StartDateOnly(): (d: Ticks)
      reads this
      requires Valid()
      ensures d == start
    {
      DateOfDate(start);
      DateOf(start)
    }

    /** EndDateOnly (End.Date): the stored end already is a date. */
    function EndDateOnly(): (d: Ticks)
      reads this
      requires Valid()
      ensures d == end
    {
      DateOfDate(end);
      DateOf(end)
    }

    /** CurrentStatus: a read-only view of Status. */
    function CurrentStatus(): (s: Status)
      reads this
      ensures s == status
    {
      status
    }

    /** ChangeState: applies the transition table to Status; an unmapped pair leaves it as it is. */
    method ChangeState(action: Action)
      modifies this
      ensures status == NextStatus(old(status), action)
      ensures Record() == old(Record()).(status := status)
      ensures room == old(room) && guest == old(guest)
    {
      status := NextStatus(status, action);
    }

    /**
     * Save: validates, then inserts through the repository only when Id is 0
     * and takes the Id the repository returns. A booking with an Id is left
     * as it is and nothing is written.
     */
    method Save(table: Store.BookingTable, fault: Option<string>) returns (thrown: Option<Exception>)
      requires Valid() && table.Valid()
      modifies this, table
      ensures Valid() && table.Valid()
      ensures room == old(room) && guest == old(guest)
      ensures Validate(old(Record())).Some? ==>
                thrown == Validate(old(Record())) && unchanged(this) && unchanged(table)
      ensures Validate(old(Record())).None? && old(id) != 0 ==>
                thrown.None? && unchanged(this) && unchanged(table)
      ensures Validate(old(Record())).None? && old(id) == 0 && fault.Some? ==>
                thrown == Some(StoreError(fault.value)) && unchanged(this) && unchanged(table)
      ensures Validate(old(Record())).None? && old(id) == 0 && fault.None? ==>
                && thrown.None?
                && Record() == old(Record()).(id := old(table.nextId))
                && table.rows == old(table.rows) + [Record()]
                && table.nextId == old(table.nextId) + 1
    {
      thrown := Validate(Record());
      if thrown.Some? {
        return;
      }
      if id == 0 {
        var created := table.Create(Record(), fault);
        if created.Throw? {
          return Some(created.ex);
        }
        id := created.value;
      }
    }
  }
}
