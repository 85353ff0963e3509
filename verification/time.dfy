/**
 * DateTime values as ticks: 100-nanosecond intervals since 0001-01-01 00:00,
 * the representation .NET's DateTime keeps (DateTime.Ticks).
 */
module Time {

  type Ticks = nat

  /** 24 * 60 * 60 * 10^7 ticks. */
  const TicksPerDay: nat := 864_000_000_000

  /** The instant is a midnight, i.e. it has no time of day. */
  predicate IsDate(t: Ticks) {
    t % TicksPerDay == 0
  }

  /** DateTime.Date: the same day with its time of day set to midnight. */
  function DateOf(t: Ticks): (d: Ticks)
    ensures IsDate(d)
    ensures d <= t < d + TicksPerDay
  {
    t - t % TicksPerDay
  }

  /** A midnight at most one day before `t` is the date of `t`: the date is unique. */
  lemma DateOfUnique(t: Ticks, d: Ticks)
    requires IsDate(d) && d <= t < d + TicksPerDay
    ensures DateOf(t) == d
  {
    var e := DateOf(t);
    var k: int, m: int := d / TicksPerDay, e / TicksPerDay;
    assert d - e == (k - m) * TicksPerDay;
    assert d < e + TicksPerDay && e < d + TicksPerDay;
  }

  /** Truncating a value that already is a date changes nothing. */
  lemma DateOfDate(t: Ticks)
    requires IsDate(t)
    ensures DateOf(t) == t
  {
    DateOfUnique(t, t);
  }

  /** Truncation is idempotent. */
  lemma DateOfIdempotent(t: Ticks)
    ensures DateOf(DateOf(t)) == DateOf(t)
  {
    DateOfDate(DateOf(t));
  }

  /** Truncation keeps the order of instants (not strictly: one day collapses to one point). */
  lemma DateOfMonotone(a: Ticks, b: Ticks)
    requires a <= b
    ensures DateOf(a) <= DateOf(b)
  {
    if DateOf(b) < DateOf(a) {
      DateOfUnique(b, DateOf(a));
    }
  }

  /** The half-open intervals [s1, e1) and [s2, e2) share an instant. */
  predicate Overlaps(s1: Ticks, e1: Ticks, s2: Ticks, e2: Ticks) {
    s1 < e2 && s2 < e1
  }

  /**
   * A stay between two dates that does not overlap [start, end) does not
   * overlap the whole days of start and end either.
   */
  lemma ApartAfterTruncation(s: Ticks, e: Ticks, start: Ticks, end: Ticks)
    requires IsDate(s) && IsDate(e) && !Overlaps(s, e, start, end)
    ensures !Overlaps(s, e, DateOf(start), DateOf(end))
  {
    if s < end {
      DateOfMonotone(e, start);
      DateOfDate(e);
    }
  }
}
