/**
 * The component's local list of bookings, one entry per booked hour, and the two things
 * it does with it: the availability test and the entries a confirmed booking appends.
 */
module Bookings {
  import opened Wrappers
  import opened HourText
  import opened Selection

  /** One booked hour; `date` is the ISO day ("2025-10-22") of the selected calendar date. */
  datatype Booking = Booking(id: string, date: string, hour: int, clientName: string, clientEmail: string)

  /** Some booking of the list holds `hour` on day `d` (`Array.prototype.some`). */
  function BookedOn(bookings: seq<Booking>, d: string, hour: int): (b: bool)
    ensures b <==> exists i :: 0 <= i < |bookings| && bookings[i].date == d && bookings[i].hour == hour
  {
    if bookings == [] then false
    else
      var b := BookedOn(bookings[1..], d, hour);
      assert forall i :: 1 <= i < |bookings| ==> bookings[i] == bookings[1..][i - 1];
      (bookings[0].date == d && bookings[0].hour == hour) || b
  }

  /** `isSlotBooked`: never booked without a selected date; otherwise booked exactly when some
      booking holds that hour on the selected day. */
  function IsBooked(date: Option<string>, bookings: seq<Booking>, hour: int): (b: bool)
    ensures date.None? ==> !b
    ensures date.Some? ==> (b <==> exists i :: 0 <= i < |bookings| && bookings[i].date == date.value && bookings[i].hour == hour)
  {
    match date
    case None => false
    case Some(d) => BookedOn(bookings, d, hour)
  }

  /**
   * The id of a new booking: the clock reading, a dash, the hour. For a non-negative clock
   * and hour the dash is the only non-digit, and the digits before and after it read back as
   * the clock and the hour.
   */
  function BookingId(clock: int, hour: int): (id: string)
    ensures clock >= 0 && hour >= 0 ==>
      var k := |NumberString(clock)|;
      && k < |id| && id[k] == '-'
      && (forall i :: 0 <= i < |id| && i != k ==> IsDigit(id[i]))
      && AllDigits(id[..k]) && DigitsValue(id[..k]) == clock
      && AllDigits(id[k + 1..]) && DigitsValue(id[k + 1..]) == hour
  {
    var c, h := NumberString(clock), NumberString(hour);
    var id := c + "-" + h;
    assert id[..|c|] == c && id[|c| + 1..] == h;
    id
  }

  /** The entries a confirmed booking creates: one per selected hour, in selection order,
      all on the same day and for the same client. */
  function NewBookings(d: string, slots: seq<int>, name: string, email: string, clock: int): (r: seq<Booking>)
    ensures |r| == |slots|
    ensures forall i :: 0 <= i < |r| ==>
      r[i] == Booking(BookingId(clock, slots[i]), d, slots[i], name, email)
  {
    if slots == [] then []
    else
      [Booking(BookingId(clock, slots[0]), d, slots[0], name, email)] + NewBookings(d, slots[1..], name, email, clock)
  }

  /** With a non-negative clock reading, the entries of one commit of a selection without
      repeats have pairwise distinct ids. */
  lemma {:induction false} NewBookingIdsDistinct(d: string, slots: seq<int>, name: string, email: string, clock: int)
    requires NoDup(slots) && clock >= 0
    requires forall i :: 0 <= i < |slots| ==> slots[i] >= 0
    ensures var r := NewBookings(d, slots, name, email, clock);
      forall i, j :: 0 <= i < j < |r| ==> r[i].id != r[j].id
  {
    var r := NewBookings(d, slots, name, email, clock);
    forall i, j | 0 <= i < j < |r| ensures r[i].id != r[j].id {
      BookingIdInjective(clock, slots[i], slots[j]);
    }
  }

  /** With one clock reading, two non-negative hours give the same id exactly when they are equal. */
  lemma {:induction false} BookingIdInjective(clock: int, h1: int, h2: int)
    requires clock >= 0 && h1 >= 0 && h2 >= 0
    ensures BookingId(clock, h1) == BookingId(clock, h2) <==> h1 == h2
  {
    var k := |NumberString(clock)|;
    var a, b := BookingId(clock, h1), BookingId(clock, h2);
    if a == b {
      assert a[k + 1..] == b[k + 1..];
    }
  }

  /**
   * After a commit, an hour is booked on a day exactly when it was booked before or it is one
   * of the committed hours on the committed day: the new entries book the selection and
   * nothing else, and no earlier booking is lost.
   */
  lemma {:induction false} CommitBooks(bookings: seq<Booking>, d: string, slots: seq<int>, name: string, email: string, clock: int,
                    day: string, hour: int)
    ensures BookedOn(bookings + NewBookings(d, slots, name, email, clock), day, hour)
        <==> BookedOn(bookings, day, hour) || (day == d && hour in slots)
  {
    var added := NewBookings(d, slots, name, email, clock);
    var all := bookings + added;
    if hour in slots && day == d {
      var k :| 0 <= k < |slots| && slots[k] == hour;
      assert all[|bookings| + k] == added[k];
    }
    if BookedOn(all, day, hour) {
      var i :| 0 <= i < |all| && all[i].date == day && all[i].hour == hour;
      if i >= |bookings| {
        assert all[i] == added[i - |bookings|];
        assert slots[i - |bookings|] == hour;
      } else {
        assert all[i] == bookings[i];
      }
    }
    if BookedOn(bookings, day, hour) {
      var i :| 0 <= i < |bookings| && bookings[i].date == day && bookings[i].hour == hour;
      assert all[i] == bookings[i];
    }
  }

  /** No selected hour is booked on the selected day. */
  predicate SelectionUnbooked(date: Option<string>, bookings: seq<Booking>, slots: seq<int>) {
    forall h :: h in slots ==> !IsBooked(date, bookings, h)
  }

  /** A click (ignored on a booked hour, a toggle otherwise) never brings a booked hour into a
      selection that had none. */
  lemma {:induction false} ClickKeepsUnbooked(date: Option<string>, bookings: seq<Booking>, slots: seq<int>, hour: int)
    requires SelectionUnbooked(date, bookings, slots)
    ensures SelectionUnbooked(date, bookings,
                              if IsBooked(date, bookings, hour) then slots else Toggle(slots, hour))
  {
  }

  /**
   * The commit does not look at the existing bookings: committing a selection that holds an
   * hour already booked on that day leaves two entries for the same day and hour.
   */
  lemma {:induction false} CommitDoesNotRecheck(bookings: seq<Booking>, d: string, slots: seq<int>, name: string, email: string,
                             clock: int, k: int)
    requires 0 <= k < |slots| && IsBooked(Some(d), bookings, slots[k])
    ensures var all := bookings + NewBookings(d, slots, name, email, clock);
      exists i, j :: 0 <= i < j < |all| && all[i].date == all[j].date == d && all[i].hour == all[j].hour
  {
    var all := bookings + NewBookings(d, slots, name, email, clock);
    var i :| 0 <= i < |bookings| && bookings[i].date == d && bookings[i].hour == slots[k];
    var j := |bookings| + k;
    assert all[i] == bookings[i];
    assert all[j] == NewBookings(d, slots, name, email, clock)[k];
    assert 0 <= i < j < |all| && all[i].date == all[j].date == d && all[i].hour == all[j].hour;
  }
}
