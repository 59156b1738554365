/** Week anchoring for the rotation (src/App.tsx, generateSchedule): the start
    date is moved forward to a Monday. Dates are whole day numbers counted from
    1970-01-01, a Thursday; weekdays run 0 = Sunday .. 6 = Saturday. */
module WeekAnchor {

  /** The weekday of a day number, 0 = Sunday .. 6 = Saturday. */
  function Weekday(day: int): (w: nat)
    ensures w < 7
  {
    (day + 4) % 7
  }

  /** Days to add to reach Monday: none on a Monday, otherwise (8 - weekday) mod 7. */
  function MondayOffset(weekday: nat): (offset: nat)
    requires weekday < 7
    ensures offset < 7
    ensures (weekday + offset) % 7 == 1
    ensures offset == (8 - weekday) % 7
  {
    if weekday == 1 then 0 else (8 - weekday) % 7
  }

  /** Moving a day number forward shifts its weekday by the same amount, modulo 7. */
  lemma WeekdayShift(day: int, k: nat)
    ensures Weekday(day + k) == (Weekday(day) + k) % 7
  {
    var q := (day + 4) / 7;
    assert day + 4 == 7 * q + Weekday(day);
    assert day + k + 4 == 7 * q + (Weekday(day) + k);
  }

  /** The Monday the rotation starts on. */
  function AnchorMonday(start: int): (monday: int)
    ensures Weekday(monday) == 1
    ensures start <= monday <= start + 6
    ensures forall d :: start <= d < monday ==> Weekday(d) != 1
  {
    var offset := MondayOffset(Weekday(start));
    WeekdayShift(start, offset);
    forall d | start <= d < start + offset ensures Weekday(d) != 1 {
      WeekdayShift(start, d - start);
    }
    start + offset
  }

  /** The anchoring step of one rotation run, written as the application computes it:
      a Monday is kept, any other day moves forward by (8 - weekday) mod 7. */
  method StartOfWeek(startDay: int) returns (monday: int)
    ensures monday == AnchorMonday(startDay)
  {
    var weekday := Weekday(startDay);
    var dayOffset := (8 - weekday) % 7;
    monday := startDay + (if weekday == 1 then 0 else dayOffset);
  }

  /** The Monday of the week (Monday to Sunday) that contains the day. */
  function MondayOfWeek(day: int): (monday: int)
    ensures Weekday(monday) == 1
    ensures monday <= day <= monday + 6
  {
    var back := (Weekday(day) + 6) % 7;
    WeekdayShift(day - back, back);
    day - back
  }

  /** The anchor is the Monday of the start's own week only when the start is a
      Monday; on any other day it is the Monday of the following week. */
  lemma AnchorIsNextWeeksMonday(start: int)
    ensures Weekday(start) == 1 ==> AnchorMonday(start) == MondayOfWeek(start)
    ensures Weekday(start) != 1 ==> AnchorMonday(start) == MondayOfWeek(start) + 7
  {
  }

  /** A Wednesday start: the week's Monday is two days earlier, the anchor five days later. */
  lemma WednesdayStart(start: int)
    requires Weekday(start) == 3
    ensures MondayOfWeek(start) == start - 2
    ensures AnchorMonday(start) == start + 5
  {
    AnchorIsNextWeeksMonday(start);
  }

  /** A Monday stays put, a Sunday moves one day, a Saturday two. */
  lemma AnchorEdgeCases(start: int)
    ensures Weekday(start) == 1 ==> AnchorMonday(start) == start
    ensures Weekday(start) == 0 ==> AnchorMonday(start) == start + 1
    ensures Weekday(start) == 6 ==> AnchorMonday(start) == start + 2
  {
  }
}
