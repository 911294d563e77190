/**
 The availability filter of the booking sheet (`getTimeList`): from the slot
 catalog it drops the slots that are already past when the selected day is
 today, and the slots some existing booking occupies.
 */
module Availability {
  import opened Options
  import opened Time
  import opened Catalog

  /**
   An existing booking of the service, as the filter sees it: its calendar day
   and its time of day (seconds are never looked at).
   */
  datatype Booking = Booking(day: int, time: TimeOfDay)

  /** Everything the filter reads besides the catalog. */
  datatype Query = Query(bookings: seq<Booking>, selectDay: int, now: Clock)

  /** `a` is obtained from `b` by deleting entries: nothing added, order kept. */
  predicate IsSubsequence<T(==)>(a: seq<T>, b: seq<T>)
    decreases |b|
  {
    |a| == 0 || (|b| > 0 && ((a[0] == b[0] && IsSubsequence(a[1..], b[1..])) || IsSubsequence(a, b[1..])))
  }

  /**
   `bookings.some(...)`: some booking has exactly the hour and the minute of
   the slot; its day is not compared.
   */
  function HasBookingAt(bookings: seq<Booking>, t: TimeOfDay): (r: bool)
    ensures r <==> exists i :: 0 <= i < |bookings| && bookings[i].time.hour == t.hour && bookings[i].time.minute == t.minute
  {
    if |bookings| == 0 then false
    else (bookings[0].time.hour == t.hour && bookings[0].time.minute == t.minute) || HasBookingAt(bookings[1..], t)
  }

  /** The times of day the bookings occupy. */
  function BookedTimes(bookings: seq<Booking>): set<TimeOfDay> {
    set i | 0 <= i < |bookings| :: bookings[i].time
  }

  /** Whether a booking occupies a slot is a question about the booked times only. */
  lemma HasBookingAtBookedTimes(bookings: seq<Booking>, t: TimeOfDay)
    ensures HasBookingAt(bookings, t) <==> t in BookedTimes(bookings)
  {
    if HasBookingAt(bookings, t) {
      var i :| 0 <= i < |bookings| && bookings[i].time.hour == t.hour && bookings[i].time.minute == t.minute;
      assert bookings[i].time == t;
    }
  }

  /**
   The filter's callback: a slot stays open unless it is past on today's date
   or already booked. In minutes: it is closed when the selected day is the
   clock's day and the slot's minute is behind the second clock reading, or
   when some booking has its hour and minute.
   */
  function Open(q: Query, t: TimeOfDay): (open: bool)
    ensures q.now.Valid() ==>
              (open <==>
                 !(q.selectDay == q.now.day && (t.Minutes() - q.now.Minute()) * MsPerMinute < q.now.lagMs) &&
                 !(exists i :: 0 <= i < |q.bookings| && q.bookings[i].time.hour == t.hour && q.bookings[i].time.minute == t.minute))
  {
    !(IsPastToday(t, q.now) && IsToday(q.selectDay, q.now)) && !HasBookingAt(q.bookings, t)
  }

  /** A catalog entry is offered when it reads as a time and that time is open. */
  predicate Offered(q: Query, s: string) {
    ParseTime(s).Some? && Open(q, ParseTime(s).value)
  }

  /**
   `TIME_LIST.filter(...)` over an arbitrary well-formed catalog: one pass from
   left to right keeping the offered entries.
   */
  function Available(catalog: seq<string>, q: Query): (r: seq<string>)
    requires WellFormed(catalog)
    ensures |r| <= |catalog|
    ensures IsSubsequence(r, catalog)
    ensures forall s :: s in r <==> s in catalog && Offered(q, s)
  {
    if |catalog| == 0 then []
    else
      var rest := Available(catalog[1..], q);
      if Offered(q, catalog[0]) then [catalog[0]] + rest else rest
  }

  /** `getTimeList`: the filter applied to the fixed catalog. */
  function GetTimeList(q: Query): (r: seq<string>)
    ensures IsSubsequence(r, TIME_LIST)
    ensures WellFormed(r) && StrictlyIncreasing(r)
    ensures forall s :: s in r <==> s in TIME_LIST && Offered(q, s)
  {
    CatalogShape();
    var r := Available(TIME_LIST, q);
    SubsequenceOfIncreasing(r, TIME_LIST);
    r
  }

  /** A subsequence of a well-formed increasing catalog is itself one. */
  lemma {:induction false} SubsequenceOfIncreasing(a: seq<string>, b: seq<string>)
    requires WellFormed(b) && StrictlyIncreasing(b)
    requires IsSubsequence(a, b)
    ensures WellFormed(a) && StrictlyIncreasing(a)
    ensures forall s :: s in a ==> s in b
    decreases |b|
  {
    if |a| == 0 {
    } else if a[0] == b[0] && IsSubsequence(a[1..], b[1..]) {
      SubsequenceOfIncreasing(a[1..], b[1..]);
      forall j | 1 <= j < |a|
        ensures SlotTime(a[0]).Minutes() < SlotTime(a[j]).Minutes()
      {
        assert a[j] in a[1..];
        var k :| 0 <= k < |b[1..]| && b[1..][k] == a[j];
        assert b[k + 1] == a[j];
      }
      assert a == [a[0]] + a[1..] && b == [b[0]] + b[1..];
    } else {
      SubsequenceOfIncreasing(a, b[1..]);
    }
  }

  /** The first entry of an increasing well-formed sequence is its earliest. */
  lemma FirstIsEarliest(a: seq<string>, s: string)
    requires WellFormed(a) && StrictlyIncreasing(a)
    requires s in a
    ensures SlotTime(a[0]).Minutes() <= SlotTime(s).Minutes()
  {
    var k :| 0 <= k < |a| && a[k] == s;
  }

  /**
   Two increasing well-formed sequences with the same members are equal: the
   order of the filter's output is fixed by its members.
   */
  lemma {:induction false} IncreasingDeterminedByMembers(a: seq<string>, b: seq<string>)
    requires WellFormed(a) && StrictlyIncreasing(a)
    requires WellFormed(b) && StrictlyIncreasing(b)
    requires forall s :: s in a <==> s in b
    ensures a == b
    decreases |a|
  {
    if |a| > 0 {
      assert a[0] in b;
    }
    if |b| > 0 {
      assert b[0] in a;
    }
    if |a| > 0 && |b| > 0 {
      FirstIsEarliest(a, b[0]);
      FirstIsEarliest(b, a[0]);
      ParseInjective(a[0], b[0]);
      forall s
        ensures s in a[1..] <==> s in b[1..]
      {
        InTail(a, s);
        InTail(b, s);
      }
      IncreasingDeterminedByMembers(a[1..], b[1..]);
      assert a == [a[0]] + a[1..] && b == [b[0]] + b[1..];
    }
  }

  /** In an increasing sequence, the tail holds every member but the first. */
  lemma InTail(a: seq<string>, s: string)
    requires WellFormed(a) && StrictlyIncreasing(a) && |a| > 0
    ensures s in a[1..] <==> s in a && s != a[0]
  {
    if s in a[1..] {
      var k :| 0 <= k < |a[1..]| && a[1..][k] == s;
      assert a[k + 1] == s;
    }
    if s in a && s != a[0] {
      var m :| 0 <= m < |a| && a[m] == s;
      assert a[1..][m - 1] == s;
    }
  }

  /**
   The filter's output is characterised by its members: any order-preserving
   selection from an increasing catalog that holds exactly the offered
   entries is the filter's output.
   */
  lemma AvailableCharacterisation(catalog: seq<string>, q: Query, r: seq<string>)
    requires WellFormed(catalog) && StrictlyIncreasing(catalog)
    requires IsSubsequence(r, catalog)
    requires forall s :: s in r <==> s in catalog && Offered(q, s)
    ensures r == Available(catalog, q)
  {
    var a := Available(catalog, q);
    SubsequenceOfIncreasing(r, catalog);
    SubsequenceOfIncreasing(a, catalog);
    IncreasingDeterminedByMembers(r, a);
  }

  /** Filtering a concatenation filters each part. */
  lemma {:induction false} AvailableAppend(a: seq<string>, b: seq<string>, q: Query)
    requires WellFormed(a) && WellFormed(b)
    ensures WellFormed(a + b)
    ensures Available(a + b, q) == Available(a, q) + Available(b, q)
    decreases |a|
  {
    assert WellFormed(a + b) by {
      forall i | 0 <= i < |a + b|
        ensures ParseTime((a + b)[i]).Some?
      {
        if i < |a| {
          assert (a + b)[i] == a[i];
        } else {
          assert (a + b)[i] == b[i - |a|];
        }
      }
    }
    if |a| == 0 {
      assert a + b == b;
    } else {
      assert (a + b)[1..] == a[1..] + b;
      AvailableAppend(a[1..], b, q);
    }
  }

  /** An entry-wise verdict settles the whole pass: all offered keeps everything. */
  lemma {:induction false} AllOffered(catalog: seq<string>, q: Query)
    requires WellFormed(catalog)
    requires forall i :: 0 <= i < |catalog| ==> Offered(q, catalog[i])
    ensures Available(catalog, q) == catalog
    decreases |catalog|
  {
    if |catalog| > 0 {
      assert Offered(q, catalog[0]);
      AllOffered(catalog[1..], q);
    }
  }

  /** None offered keeps nothing. */
  lemma {:induction false} NoneOffered(catalog: seq<string>, q: Query)
    requires WellFormed(catalog)
    requires forall i :: 0 <= i < |catalog| ==> !Offered(q, catalog[i])
    ensures Available(catalog, q) == []
    decreases |catalog|
  {
    if |catalog| > 0 {
      assert !Offered(q, catalog[0]);
      NoneOffered(catalog[1..], q);
    }
  }

  /** When exactly the entries from position k on are offered, the pass keeps that suffix. */
  lemma DropsPrefix(catalog: seq<string>, q: Query, k: nat)
    requires WellFormed(catalog) && k <= |catalog|
    requires forall i :: 0 <= i < |catalog| ==> (Offered(q, catalog[i]) <==> k <= i)
    ensures Available(catalog, q) == catalog[k..]
  {
    var front, back := catalog[..k], catalog[k..];
    assert catalog == front + back;
    forall i | 0 <= i < |front| ensures !Offered(q, front[i]) {
      assert front[i] == catalog[i];
    }
    forall i | 0 <= i < |back| ensures Offered(q, back[i]) {
      assert back[i] == catalog[i + k];
    }
    NoneOffered(front, q);
    AllOffered(back, q);
    AvailableAppend(front, back, q);
  }

  /** When every entry but the one at position k is offered, the pass removes just that one. */
  lemma DropsOne(catalog: seq<string>, q: Query, k: nat)
    requires WellFormed(catalog) && k < |catalog|
    requires forall i :: 0 <= i < |catalog| ==> (Offered(q, catalog[i]) <==> i != k)
    ensures Available(catalog, q) == catalog[..k] + catalog[k + 1..]
  {
    var front, one, back := catalog[..k], [catalog[k]], catalog[k + 1..];
    assert catalog == front + (one + back);
    forall i | 0 <= i < |front| ensures Offered(q, front[i]) {
      assert front[i] == catalog[i];
    }
    forall i | 0 <= i < |back| ensures Offered(q, back[i]) {
      assert back[i] == catalog[i + k + 1];
    }
    AllOffered(front, q);
    AllOffered(back, q);
    NoneOffered(one, q);
    AvailableAppend(one, back, q);
    AvailableAppend(front, one + back, q);
  }

  /** A day other than today loses no slot to the clock. */
  lemma OtherDayIgnoresClock(q: Query, t: TimeOfDay)
    requires !IsToday(q.selectDay, q.now)
    ensures Open(q, t) <==> !HasBookingAt(q.bookings, t)
  {
  }

  /**
   When the selected day is not today and there are no bookings, the filter
   returns its catalog unchanged.
   */
  lemma {:induction false} OtherDayNoBookingsIsWholeCatalog(catalog: seq<string>, q: Query)
    requires WellFormed(catalog)
    requires !IsToday(q.selectDay, q.now) && |q.bookings| == 0
    ensures Available(catalog, q) == catalog
    decreases |catalog|
  {
    if |catalog| > 0 {
      assert Offered(q, catalog[0]);
      OtherDayNoBookingsIsWholeCatalog(catalog[1..], q);
    }
  }

  /** For the fixed catalog: another day with no bookings offers all 21 slots. */
  lemma OtherDayNoBookingsIsTimeList(q: Query)
    requires !IsToday(q.selectDay, q.now) && |q.bookings| == 0
    ensures GetTimeList(q) == TIME_LIST
  {
    CatalogShape();
    OtherDayNoBookingsIsWholeCatalog(TIME_LIST, q);
  }

  /**
   On today's date every slot strictly before the clock's minute is dropped;
   a slot strictly after it is dropped only for a booking, provided the two
   clock readings are less than a minute apart.
   */
  lemma TodayDropsPastSlots(q: Query, s: string)
    requires IsToday(q.selectDay, q.now) && q.now.Valid()
    requires ParseTime(s).Some?
    ensures SlotTime(s).Minutes() < q.now.Minute() ==> !Offered(q, s)
    ensures SlotTime(s).Minutes() > q.now.Minute() && q.now.lagMs < MsPerMinute ==>
              (Offered(q, s) <==> !HasBookingAt(q.bookings, SlotTime(s)))
  {
    PastSlots(SlotTime(s), q.now);
  }

  /**
   A booking removes exactly the slot with its hour and minute: with a single
   booking on another day than today, an entry is offered iff it reads as a
   different time from the booking's.
   */
  lemma SingleBookingRemovesOnlyItsSlot(q: Query, s: string)
    requires !IsToday(q.selectDay, q.now) && |q.bookings| == 1
    requires ParseTime(s).Some?
    ensures Offered(q, s) <==> SlotTime(s) != q.bookings[0].time
  {
  }

  /**
   The filter reads the bookings only through the times they occupy: their
   order, repetitions and days do not matter.
   */
  lemma BookedTimesDetermineResult(catalog: seq<string>, q1: Query, q2: Query)
    requires WellFormed(catalog)
    requires q1.selectDay == q2.selectDay && q1.now == q2.now
    requires BookedTimes(q1.bookings) == BookedTimes(q2.bookings)
    ensures Available(catalog, q1) == Available(catalog, q2)
  {
    forall s | s in catalog
      ensures Offered(q1, s) <==> Offered(q2, s)
    {
      if ParseTime(s).Some? {
        HasBookingAtBookedTimes(q1.bookings, SlotTime(s));
        HasBookingAtBookedTimes(q2.bookings, SlotTime(s));
      }
    }
    SameOfferDetermineResult(catalog, q1, q2);
  }

  lemma {:induction false} SameOfferDetermineResult(catalog: seq<string>, q1: Query, q2: Query)
    requires WellFormed(catalog)
    requires forall s :: s in catalog ==> (Offered(q1, s) <==> Offered(q2, s))
    ensures Available(catalog, q1) == Available(catalog, q2)
    decreases |catalog|
  {
    if |catalog| > 0 {
      assert catalog[0] in catalog;
      SameOfferDetermineResult(catalog[1..], q1, q2);
    }
  }

  /** Reordering or repeating the bookings leaves the result unchanged. */
  lemma PermutedBookingsSameResult(catalog: seq<string>, q: Query, bookings: seq<Booking>)
    requires WellFormed(catalog)
    requires forall b :: b in bookings <==> b in q.bookings
    ensures Available(catalog, q.(bookings := bookings)) == Available(catalog, q)
  {
    var q2 := q.(bookings := bookings);
    assert BookedTimes(bookings) == BookedTimes(q.bookings) by {
      forall t | t in BookedTimes(bookings)
        ensures t in BookedTimes(q.bookings)
      {
        var i :| 0 <= i < |bookings| && bookings[i].time == t;
        assert bookings[i] in q.bookings;
      }
      forall t | t in BookedTimes(q.bookings)
        ensures t in BookedTimes(bookings)
      {
        var i :| 0 <= i < |q.bookings| && q.bookings[i].time == t;
        assert q.bookings[i] in bookings;
      }
    }
    BookedTimesDetermineResult(catalog, q2, q);
  }

  /** `booking.some(...)` as the scan the source runs: it stops at the first match. */
  method ScanBookings(bookings: seq<Booking>, t: TimeOfDay) returns (booked: bool)
    ensures booked <==> HasBookingAt(bookings, t)
  {
    booked := false;
    var k := 0;
    while k < |bookings| && !booked
      invariant 0 <= k <= |bookings|
      invariant booked <==> HasBookingAt(bookings[..k], t)
    {
      booked := bookings[k].time.hour == t.hour && bookings[k].time.minute == t.minute;
      k := k + 1;
    }
    assert booked <==> HasBookingAt(bookings, t) by {
      if !booked {
        assert bookings[..k] == bookings;
      } else {
        assert HasBookingAt(bookings[..k], t);
        var j :| 0 <= j < k && bookings[..k][j].time.hour == t.hour && bookings[..k][j].time.minute == t.minute;
        assert bookings[j] == bookings[..k][j];
      }
    }
  }

  /**
   `getTimeList` as the single left-to-right pass the source writes: a loop
   over the catalog with an inner scan of the bookings.
   */
  method ComputeTimeList(catalog: seq<string>, q: Query) returns (r: seq<string>)
    requires WellFormed(catalog)
    ensures r == Available(catalog, q)
  {
    r := [];
    var i := 0;
    while i < |catalog|
      invariant 0 <= i <= |catalog|
      invariant r == Available(catalog[..i], q)
    {
      var t := ParseTime(catalog[i]).value;
      var past := IsPastToday(t, q.now) && IsToday(q.selectDay, q.now);
      var booked := ScanBookings(q.bookings, t);
      assert Offered(q, catalog[i]) <==> !past && !booked;
      AvailableAppend(catalog[..i], [catalog[i]], q);
      assert catalog[..i + 1] == catalog[..i] + [catalog[i]];
      if !past && !booked {
        r := r + [catalog[i]];
      }
      i := i + 1;
    }
    assert catalog[..i] == catalog;
  }
}
