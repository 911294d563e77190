/**
 Worked cases of the availability filter, stated for every clock reading and
 booking day they cover.
 */
module Scenarios {
  import opened Options
  import opened Time
  import opened Catalog
  import opened Availability

  /** Under a single 09:00 booking on another day, catalog slot i is offered iff it is not slot 2. */
  lemma NineBookingVerdict(q: Query, i: nat)
    requires !IsToday(q.selectDay, q.now) && |q.bookings| == 1 && q.bookings[0].time == TimeOfDay(9, 0)
    requires i < 21
    ensures WellFormed(TIME_LIST)
    ensures Offered(q, TIME_LIST[i]) <==> i != 2
  {
    CatalogShape();
    assert SlotTime(TIME_LIST[i]) == CatalogSlot(i);
    SingleBookingRemovesOnlyItsSlot(q, TIME_LIST[i]);
  }

  /** A booking at 09:00 on another day than today removes "09:00" and nothing else. */
  lemma BookingAtNineRemovesOnlyNine(bookingDay: int, selectDay: int, now: Clock)
    requires selectDay != now.day
    ensures GetTimeList(Query([Booking(bookingDay, TimeOfDay(9, 0))], selectDay, now))
            == TIME_LIST[..2] + TIME_LIST[3..]
  {
    var q := Query([Booking(bookingDay, TimeOfDay(9, 0))], selectDay, now);
    CatalogShape();
    forall i | 0 <= i < |TIME_LIST| ensures Offered(q, TIME_LIST[i]) <==> i != 2 {
      NineBookingVerdict(q, i);
    }
    DropsOne(TIME_LIST, q, 2);
  }

  /** In particular a booking at 09:00 leaves 09:30 bookable. */
  lemma BookingAtNineKeepsNineThirty(bookingDay: int, selectDay: int, now: Clock)
    requires selectDay != now.day
    ensures "09:30" in GetTimeList(Query([Booking(bookingDay, TimeOfDay(9, 0))], selectDay, now))
    ensures "09:00" !in GetTimeList(Query([Booking(bookingDay, TimeOfDay(9, 0))], selectDay, now))
  {
    var q := Query([Booking(bookingDay, TimeOfDay(9, 0))], selectDay, now);
    CatalogShape();
    NineBookingVerdict(q, 3);
    NineBookingVerdict(q, 2);
    assert TIME_LIST[3] == "09:30" && TIME_LIST[2] == "09:00";
  }

  /** Today at 10:07 with no bookings: 08:00 to 10:00 are gone, 10:30 onward remain. */
  lemma TodayAtTenOhSeven(day: int, subMinuteMs: int, lagMs: nat)
    requires 0 <= subMinuteMs < MsPerMinute && lagMs < MsPerMinute
    ensures GetTimeList(Query([], day, Clock(day, 10 * MsPerHour + 7 * MsPerMinute + subMinuteMs, lagMs)))
            == TIME_LIST[5..]
  {
    var now := Clock(day, 10 * MsPerHour + 7 * MsPerMinute + subMinuteMs, lagMs);
    var q := Query([], day, now);
    assert now.Valid() && now.Minute() == 607;
    CatalogShape();
    forall i | 0 <= i < |TIME_LIST| ensures Offered(q, TIME_LIST[i]) <==> 5 <= i {
      assert SlotTime(TIME_LIST[i]) == CatalogSlot(i);
      TodayDropsPastSlots(q, TIME_LIST[i]);
    }
    DropsPrefix(TIME_LIST, q, 5);
  }

  /** The three-slot catalog with a 09:00 booking on a later day keeps 08:00 and 08:30. */
  lemma BookingExclusionExample(bookingDay: int, selectDay: int, now: Clock)
    requires selectDay > now.day
    ensures WellFormed(["08:00", "08:30", "09:00"])
    ensures Available(["08:00", "08:30", "09:00"], Query([Booking(bookingDay, TimeOfDay(9, 0))], selectDay, now))
            == ["08:00", "08:30"]
  {
    var q := Query([Booking(bookingDay, TimeOfDay(9, 0))], selectDay, now);
    var c := ["08:00", "08:30", "09:00"];
    assert ParseTime("08:00") == Some(TimeOfDay(8, 0));
    assert ParseTime("08:30") == Some(TimeOfDay(8, 30));
    assert ParseTime("09:00") == Some(TimeOfDay(9, 0));
    assert c[1..] == ["08:30", "09:00"] && c[1..][1..] == ["09:00"] && c[1..][1..][1..] == [];
    assert Offered(q, "08:00") && Offered(q, "08:30") && !Offered(q, "09:00");
  }

  /**
   Today at 09:15 with a 09:30 booking: 08:00 to 09:00 are past, 09:30 is
   booked, only 10:00 remains.
   */
  lemma CombinedExample(day: int, subMinuteMs: int, lagMs: nat)
    requires 0 <= subMinuteMs < MsPerMinute && lagMs < MsPerMinute
    ensures WellFormed(["08:00", "08:30", "09:00", "09:30", "10:00"])
    ensures Available(["08:00", "08:30", "09:00", "09:30", "10:00"],
                      Query([Booking(day, TimeOfDay(9, 30))], day, Clock(day, 9 * MsPerHour + 15 * MsPerMinute + subMinuteMs, lagMs)))
            == ["10:00"]
  {
    var now := Clock(day, 9 * MsPerHour + 15 * MsPerMinute + subMinuteMs, lagMs);
    var q := Query([Booking(day, TimeOfDay(9, 30))], day, now);
    assert now.Valid() && now.Minute() == 555;
    var c := ["08:00", "08:30", "09:00", "09:30", "10:00"];
    assert ParseTime("08:00") == Some(TimeOfDay(8, 0));
    assert ParseTime("08:30") == Some(TimeOfDay(8, 30));
    assert ParseTime("09:00") == Some(TimeOfDay(9, 0));
    assert ParseTime("09:30") == Some(TimeOfDay(9, 30));
    assert ParseTime("10:00") == Some(TimeOfDay(10, 0));
    TodayDropsPastSlots(q, "08:00");
    TodayDropsPastSlots(q, "08:30");
    TodayDropsPastSlots(q, "09:00");
    TodayDropsPastSlots(q, "10:00");
    var gone, kept := c[..4], c[4..];
    assert c == gone + kept;
    assert gone == ["08:00", "08:30", "09:00", "09:30"] && kept == ["10:00"];
    NoneOffered(gone, q);
    AllOffered(kept, q);
    AvailableAppend(gone, kept, q);
  }
}
