/** The checks the interactive layer applies before it builds an activity and
    hands it to the schedule: first every field's range, then that the end
    comes after the start, compared hour first and minute second. */
module InputValidation {

  import opened Activities
  import opened Schedules

  datatype Verdict =
    | Accepted
    | OutOfRange         // some field outside its range
    | EndNotAfterStart   // the end does not come after the start

  /** Day in 1..7, hours in 0..23, minutes in 0..59. */
  predicate InRange(day: int, startHour: int, startMinute: int, endHour: int, endMinute: int) {
    && 1 <= day <= 7
    && 0 <= startHour <= 23 && 0 <= startMinute <= 59
    && 0 <= endHour <= 23 && 0 <= endMinute <= 59
  }

  /** The two checks in the order the source applies them. The order check
      compares hours and then minutes; on in-range input that is exactly the
      comparison of minutes since midnight. */
  function Check(day: int, startHour: int, startMinute: int, endHour: int, endMinute: int): (r: Verdict)
    ensures r == OutOfRange <==> !InRange(day, startHour, startMinute, endHour, endMinute)
    ensures r == EndNotAfterStart <==>
      InRange(day, startHour, startMinute, endHour, endMinute) && startHour * 60 + startMinute >= endHour * 60 + endMinute
    ensures r == Accepted <==>
      InRange(day, startHour, startMinute, endHour, endMinute) && startHour * 60 + startMinute < endHour * 60 + endMinute
  {
    if day < 1 || day > 7 || startHour < 0 || startHour > 23 ||
       startMinute < 0 || startMinute > 59 || endHour < 0 || endHour > 23 ||
       endMinute < 0 || endMinute > 59 then
      OutOfRange
    else if startHour > endHour || (startHour == endHour && startMinute >= endMinute) then
      EndNotAfterStart
    else
      Accepted
  }

  /** An accepted entry builds a well-formed activity on a valid day, whatever
      its name and location, and adding it keeps a consistent schedule
      consistent. */
  lemma AcceptedAddKeepsConsistent(s: Schedule, name: string, day: int, startHour: int, startMinute: int,
                                   endHour: int, endMinute: int, location: string)
    requires Check(day, startHour, startMinute, endHour, endMinute) == Accepted
    requires Consistent(s.activities)
    ensures WellFormed(Activity(name, day, startHour, startMinute, endHour, endMinute, location))
    ensures ValidDay(day)
    ensures Consistent(Add(s, Activity(name, day, startHour, startMinute, endHour, endMinute, location)).schedule.activities)
  {
    AddPreservesConsistent(s, Activity(name, day, startHour, startMinute, endHour, endMinute, location));
  }
}
