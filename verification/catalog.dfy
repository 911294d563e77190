/**
 The fixed slot catalog of the booking sheet: every half hour from 08:00 to
 18:00, as the zero-padded strings the buttons display.
 */
module Catalog {
  import opened Options
  import opened Time

  const TIME_LIST: seq<string> := [
    "08:00", "08:30", "09:00", "09:30", "10:00", "10:30", "11:00",
    "11:30", "12:00", "12:30", "13:00", "13:30", "14:00", "14:30",
    "15:00", "15:30", "16:00", "16:30", "17:00", "17:30", "18:00"
  ]

  /** Every entry of the catalog reads as a time of day. */
  predicate WellFormed(c: seq<string>) {
    forall i :: 0 <= i < |c| ==> ParseTime(c[i]).Some?
  }

  /** The time of day an entry of a well-formed catalog stands for. */
  function SlotTime(s: string): (t: TimeOfDay)
    requires ParseTime(s).Some?
    ensures t.Valid()
  {
    ParseTime(s).value
  }

  /** Entries are in strictly increasing order of their time of day. */
  predicate StrictlyIncreasing(c: seq<string>)
    requires WellFormed(c)
  {
    forall i, j :: 0 <= i < j < |c| ==> SlotTime(c[i]).Minutes() < SlotTime(c[j]).Minutes()
  }

  /** The time of day of the i-th catalog slot: 08:00 plus i half hours. */
  function CatalogSlot(i: nat): (t: TimeOfDay)
    requires i < 21
    ensures t.Valid() && t.Minutes() == 480 + 30 * i
  {
    var t := TimeOfDay(8 + i / 2, 30 * (i % 2));
    assert i == 2 * (i / 2) + i % 2;
    t
  }

  /** The catalog is exactly the text of the 21 half-hour slots from 08:00. */
  lemma CatalogIsHalfHours()
    ensures |TIME_LIST| == 21
    ensures forall i :: 0 <= i < 21 ==> TIME_LIST[i] == FormatTime(CatalogSlot(i))
  {
    forall i | 0 <= i < 21
      ensures TIME_LIST[i] == FormatTime(CatalogSlot(i))
    {
      SlotText(i);
    }
  }

  /** The text of catalog entry i, one slot at a time. */
  lemma SlotText(i: nat)
    requires i < 21
    ensures TIME_LIST[i] == FormatTime(CatalogSlot(i))
  {
    var t := CatalogSlot(i);
    assert t.hour / 10 == (8 + i / 2) / 10 && t.hour % 10 == (8 + i / 2) % 10;
    if i % 2 == 0 {
      assert t.minute / 10 == 0 && t.minute % 10 == 0;
    } else {
      assert t.minute / 10 == 3 && t.minute % 10 == 0;
    }
    if i < 4 {
      assert t.hour / 10 == 0 && t.hour % 10 == 8 + i / 2;
    } else {
      assert t.hour / 10 == 1 && t.hour % 10 == i / 2 - 2;
    }
  }

  /**
   The catalog has 21 entries, entry i reads as hour 8 + i/2 and minute
   30 * (i % 2), and the entries are strictly increasing and distinct.
   */
  lemma CatalogShape()
    ensures |TIME_LIST| == 21
    ensures WellFormed(TIME_LIST)
    ensures forall i :: 0 <= i < 21 ==> ParseTime(TIME_LIST[i]) == Some(TimeOfDay(8 + i / 2, 30 * (i % 2)))
    ensures StrictlyIncreasing(TIME_LIST)
    ensures forall i, j :: 0 <= i < j < |TIME_LIST| ==> TIME_LIST[i] != TIME_LIST[j]
  {
    CatalogIsHalfHours();
    forall i | 0 <= i < 21
      ensures ParseTime(TIME_LIST[i]) == Some(CatalogSlot(i))
    {
      ParseFormat(CatalogSlot(i));
    }
  }
}
