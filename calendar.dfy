/**
 * The booking component's state and its handlers. Every React state setter becomes an
 * assignment to a field; the handlers become methods whose postconditions give the new
 * state in terms of the functions of the Selection, Bookings and Reserve modules.
 */
module Calendar {
  import opened Wrappers
  import opened Selection
  import opened Bookings
  import opened Reserve

  /** How the confirmation e-mail request ended. The handler only reports it to the user. */
  datatype EmailOutcome = Sent | Refused | Unreachable

  class BookingCalendar {
    /** The ISO day of the calendar's selected date, if any. */
    var selectedDate: Option<string>
    /** The selected hours, in the order of the clicks until the next sort. */
    var selectedSlots: seq<int>
    /** The bookings made in this component, one entry per booked hour. */
    var bookings: seq<Booking>
    var clientName: string
    var clientEmail: string
    var dialogOpen: bool

    /** The selection never holds an hour twice. */
    ghost predicate Valid()
      reads this
    {
      NoDup(selectedSlots)
    }

    /** Initial state: today selected, nothing selected, booked or typed, dialog closed. */
    constructor (today: string)
      ensures Valid()
      ensures selectedDate == Some(today) && selectedSlots == [] && bookings == []
      ensures clientName == "" && clientEmail == "" && !dialogOpen
    {
      selectedDate := Some(today);
      selectedSlots := [];
      bookings := [];
      clientName := "";
      clientEmail := "";
      dialogOpen := false;
    }

    /** The calendar's `onSelect`: picking a day, or clearing it. The selection is kept. */
    method SelectDate(date: Option<string>)
      requires Valid()
      modifies this`selectedDate
      ensures Valid() && selectedDate == date
    {
      selectedDate := date;
    }

    method SetClientName(name: string)
      requires Valid()
      modifies this`clientName
      ensures Valid() && clientName == name
    {
      clientName := name;
    }

    method SetClientEmail(email: string)
      requires Valid()
      modifies this`clientEmail
      ensures Valid() && clientEmail == email
    {
      clientEmail := email;
    }

    /** The dialog's `onOpenChange` and its "Annuler" button. */
    method SetDialogOpen(open: bool)
      requires Valid()
      modifies this`dialogOpen
      ensures Valid() && dialogOpen == open
    {
      dialogOpen := open;
    }

    /** `isSlotSelected` (`includes`): the hour occurs at some position of the selection. */
    function IsSlotSelected(hour: int): (b: bool)
      reads this
      ensures b <==> exists i :: 0 <= i < |selectedSlots| && selectedSlots[i] == hour
    {
      hour in selectedSlots
    }

    /**
     * `handleSlotClick`: a booked hour is ignored; otherwise a selected hour is removed and an
     * unselected one appended. The selection stays free of repeats, and a selection holding no
     * booked hour still holds none.
     */
    method HandleSlotClick(hour: int)
      requires Valid()
      modifies this`selectedSlots
      ensures Valid()
      ensures IsBooked(selectedDate, bookings, hour) ==> selectedSlots == old(selectedSlots)
      ensures !IsBooked(selectedDate, bookings, hour) ==> selectedSlots == Toggle(old(selectedSlots), hour)
      ensures !IsBooked(selectedDate, bookings, hour) ==> (IsSlotSelected(hour) <==> !old(IsSlotSelected(hour)))
      ensures forall y :: y != hour ==> (IsSlotSelected(y) <==> old(IsSlotSelected(y)))
      ensures SelectionUnbooked(selectedDate, bookings, old(selectedSlots))
          ==> SelectionUnbooked(selectedDate, bookings, selectedSlots)
    {
      if SelectionUnbooked(selectedDate, bookings, selectedSlots) {
        ClickKeepsUnbooked(selectedDate, bookings, selectedSlots, hour);
      }
      if IsBooked(selectedDate, bookings, hour) {
        return;
      }
      ToggleNoDup(selectedSlots, hour);
      if hour in selectedSlots {
        selectedSlots := Without(selectedSlots, hour);
      } else {
        selectedSlots := selectedSlots + [hour];
      }
    }

    /** `handleOpenDialog`: the dialog opens only on a non-empty selection. */
    method HandleOpenDialog()
      requires Valid()
      modifies this`dialogOpen
      ensures Valid()
      ensures dialogOpen == (old(dialogOpen) || selectedSlots != [])
    {
      if |selectedSlots| > 0 {
        dialogOpen := true;
      }
    }

    /**
     * The in-place `sort((a, b) => a - b)` the component performs on its selection while
     * rendering the dialog's slot list: ascending numeric order, same hours.
     */
    method SortSelection()
      requires Valid()
      modifies this`selectedSlots
      ensures Valid()
      ensures SortedAsc(selectedSlots)
      ensures multiset(selectedSlots) == multiset(old(selectedSlots))
    {
      SortAscNoDup(selectedSlots);
      selectedSlots := SortAsc(selectedSlots);
    }

    /**
     * The guard of `handleBooking`: a date, a selection, a name and an e-mail (a JavaScript
     * string is truthy exactly when it is not empty). A commit that passes it has a day to
     * record and at least one hour to book.
     */
    function CanBook(): (b: bool)
      reads this
      ensures b ==> selectedDate.Some? && |selectedSlots| > 0
    {
      selectedDate.Some? && selectedSlots != [] && clientName != "" && clientEmail != ""
    }

    /**
     * `handleBooking`: without a date, a selection, a name and an e-mail nothing happens.
     * Otherwise one booking per selected hour is appended, every selected hour is then booked
     * on the selected day, and the dialog, the form and the selection are reset, whatever the
     * e-mail request came to. `clock` stands for the `Date.now()` reading in the ids.
     */
    method HandleBooking(clock: int, email: EmailOutcome)
      requires Valid()
      modifies this
      ensures Valid()
      ensures !old(CanBook()) ==> unchanged(this)
      ensures old(CanBook()) ==>
        && bookings == old(bookings) + NewBookings(old(selectedDate).value, old(selectedSlots),
                                                    old(clientName), old(clientEmail), clock)
        && selectedDate == old(selectedDate)
        && selectedSlots == [] && clientName == "" && clientEmail == "" && !dialogOpen
      ensures old(CanBook()) ==>
        forall h :: h in old(selectedSlots) ==> IsBooked(selectedDate, bookings, h)
    {
      if !CanBook() {
        return;
      }
      var dateStr := selectedDate.value;
      var newBookings := NewBookings(dateStr, selectedSlots, clientName, clientEmail, clock);
      forall h | h in selectedSlots
        ensures BookedOn(bookings + newBookings, dateStr, h)
      {
        CommitBooks(bookings, dateStr, selectedSlots, clientName, clientEmail, clock, dateStr, h);
      }
      // The e-mail request goes here; its outcome only decides which message is shown.
      bookings := bookings + newBookings;
      dialogOpen := false;
      clientName := "";
      clientEmail := "";
      selectedSlots := [];
    }
  }

  /** The commit guard is stricter than the guard of "Valider la sélection": in every state
      where a commit may proceed, a reservation would be sent for the same day and hours. */
  lemma CommitGuardStricter(c: BookingCalendar)
    requires c.CanBook()
    ensures MergeSelection(c.selectedDate, c.selectedSlots).Some?
  {
  }
}
