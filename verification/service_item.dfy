/**
 The state of the booking sheet of one service and the pure parts of the
 component around the filter: the chosen date-time, the list of buttons, the
 reset when the sheet closes and the guard of the confirm button.
 */
module ServiceItem {
  import opened Options
  import opened Time
  import opened Catalog
  import opened Availability

  /**
   The Date `set(selectDay, {hours, minutes})` produces: the selected day at
   the parsed hour and minute, or an invalid date when the time text does not
   read as a number pair.
   */
  datatype Stamp = At(day: int, time: TimeOfDay) | InvalidDate

  /** The sheet's state: chosen day and time, the day's bookings, and whether it is open. */
  datatype Sheet = Sheet(selectDay: Option<int>, selectTime: Option<string>, dayBooking: seq<Booking>, open: bool)

  /** What `createBooking` is asked to store. */
  datatype BookingRequest = BookingRequest(serviceId: string, date: Stamp)

  /**
   How a press of the confirm button ends: nothing sent, the request stored,
   or the request refused by the storage layer.
   */
  datatype Attempt = Skipped | Created(request: BookingRequest) | Rejected(request: BookingRequest)

  /**
   `selectedDate`: defined only when a day and a non-empty time are chosen
   (the empty string is falsy), and then the day with the time read from the
   chosen text.
   */
  function SelectedDate(s: Sheet): (r: Option<Stamp>)
    ensures r.Some? <==> s.selectDay.Some? && s.selectTime.Some? && s.selectTime.value != ""
    ensures r.Some? ==> (r.value.At? <==> ParseTime(s.selectTime.value).Some?)
    ensures r.Some? && r.value.At? ==>
              r.value.day == s.selectDay.value && r.value.time.Valid() && FormatTime(r.value.time) == s.selectTime.value
  {
    if s.selectDay.None? || s.selectTime.None? || s.selectTime.value == "" then None
    else
      match ParseTime(s.selectTime.value)
      case Some(t) =>
        FormatParse(s.selectTime.value);
        Some(At(s.selectDay.value, t))
      case None => Some(InvalidDate)
  }

  /**
   `timeList`: no buttons until a day is chosen; then the catalog entries the
   filter offers for that day and the bookings held for it, in catalog order.
   */
  function TimeList(s: Sheet, now: Clock): (r: seq<string>)
    ensures s.selectDay.None? ==> r == []
    ensures IsSubsequence(r, TIME_LIST)
    ensures forall x :: x in r <==>
              s.selectDay.Some? && x in TIME_LIST && Offered(Query(s.dayBooking, s.selectDay.value, now), x)
  {
    if s.selectDay.None? then [] else GetTimeList(Query(s.dayBooking, s.selectDay.value, now))
  }

  /**
   `handleBookingSheetOpenChange`: closing the sheet forgets the chosen day and
   time and the fetched bookings.
   */
  function OnOpenChange(s: Sheet): (r: Sheet)
    ensures !r.open && r.selectDay.None? && r.selectTime.None? && |r.dayBooking| == 0
    ensures SelectedDate(r).None?
    ensures forall now :: TimeList(r, now) == []
  {
    Sheet(None, None, [], false)
  }

  /**
   `handleCreateBooking`: without a selected date nothing is sent and nothing
   changes; otherwise the selected date is sent for the service, and the sheet
   is reset only when the storage layer accepts it (a refusal leaves the state
   as it was). `storageAccepts` stands for the outcome of the database call.
   */
  function HandleCreateBooking(s: Sheet, serviceId: string, storageAccepts: bool): (r: (Attempt, Sheet))
    ensures r.0.Skipped? <==> SelectedDate(s).None?
    ensures r.0.Skipped? ==> r.1 == s
    ensures !r.0.Skipped? ==> r.0.request == BookingRequest(serviceId, SelectedDate(s).value)
    ensures r.0.Created? <==> SelectedDate(s).Some? && storageAccepts
    ensures r.0.Created? ==> r.1 == OnOpenChange(s)
    ensures r.0.Rejected? ==> r.1 == s
  {
    match SelectedDate(s)
    case None => (Skipped, s)
    case Some(date) =>
      var request := BookingRequest(serviceId, date);
      if storageAccepts then (Created(request), OnOpenChange(s)) else (Rejected(request), s)
  }

  /** Nothing is sent unless both a day and a time were chosen. */
  lemma RequestNeedsDayAndTime(s: Sheet, serviceId: string, storageAccepts: bool)
    requires !HandleCreateBooking(s, serviceId, storageAccepts).0.Skipped?
    ensures s.selectDay.Some? && s.selectTime.Some?
  {
  }

  /** After the sheet is reset, confirming sends nothing. */
  lemma NothingSentAfterReset(s: Sheet, serviceId: string, storageAccepts: bool)
    ensures HandleCreateBooking(OnOpenChange(s), serviceId, storageAccepts) == (Skipped, OnOpenChange(s))
  {
  }

  /**
   A time picked from the buttons yields a valid date on the chosen day whose
   time of day is open: not booked among the day's bookings and, when the day
   is today, not already past. That is the request a confirm sends.
   */
  lemma PickedSlotIsOpen(s: Sheet, now: Clock, serviceId: string)
    requires s.selectDay.Some? && s.selectTime.Some?
    requires s.selectTime.value in TimeList(s, now)
    ensures SelectedDate(s).Some? && SelectedDate(s).value.At?
    ensures SelectedDate(s).value.day == s.selectDay.value
    ensures Open(Query(s.dayBooking, s.selectDay.value, now), SelectedDate(s).value.time)
    ensures HandleCreateBooking(s, serviceId, true).0
            == Created(BookingRequest(serviceId, SelectedDate(s).value))
  {
    var x := s.selectTime.value;
    assert ParseTime(x).Some?;
  }
}
