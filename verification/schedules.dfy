/** The schedule (`Horario`): a display name and the activities in insertion
    order, with insertion that rejects conflicts, removal by name, the per-day
    and whole-week listings, and the free-slot query. Each operation returns
    the data the source prints. */
module Schedules {

  import opened Options
  import Sequences
  import opened Activities
  import opened DayViews
  import opened FreeSlots

  datatype Schedule = Schedule(name: string, activities: seq<Activity>)

  /** The source's default display name. */
  const DefaultName: string := "Mi Horario"

  /** A new schedule: the default name, no activities, and so trivially
      free of conflicts. */
  function Empty(): (s: Schedule)
    ensures s.name == "Mi Horario" && |s.activities| == 0
    ensures Consistent(s.activities)
  {
    Schedule(DefaultName, [])
  }

  /** Outcome of an insertion: the schedule afterwards and, on rejection, the
      first stored activity found in conflict with the candidate. */
  datatype AddResult =
    | Added(schedule: Schedule)
    | Rejected(schedule: Schedule, conflict: Activity)

  /** Insert `a` unless some stored activity conflicts with it; the scan runs
      in insertion order and stops at the first conflict. */
  function Add(s: Schedule, a: Activity): (r: AddResult)
    ensures r.Rejected? <==> exists i :: 0 <= i < |s.activities| && ConflictsWith(s.activities[i], a)
    ensures r.Rejected? ==> r.schedule == s
    ensures r.Rejected? ==>
      exists i :: (0 <= i < |s.activities| && s.activities[i] == r.conflict &&
                   ConflictsWith(r.conflict, a) &&
                   forall j :: 0 <= j < i ==> !ConflictsWith(s.activities[j], a))
    ensures r.Added? ==> r.schedule.name == s.name && r.schedule.activities == s.activities + [a]
  {
    match Sequences.FirstIndex(s.activities, (x: Activity) => ConflictsWith(x, a))
    case Some(i) => Rejected(s, s.activities[i])
    case None => Added(s.(activities := s.activities + [a]))
  }

  /** Insertion keeps the schedule conflict-free and well-formed, provided the
      candidate itself is well-formed. */
  lemma AddPreservesConsistent(s: Schedule, a: Activity)
    requires Consistent(s.activities)
    requires WellFormed(a)
    ensures Consistent(Add(s, a).schedule.activities)
  {
    var r := Add(s, a);
    if r.Added? {
      var t := s.activities + [a];
      assert r.schedule.activities == t;
      forall i, j | 0 <= i < |t| && 0 <= j < |t| && i != j
        ensures !ConflictsWith(t[i], t[j])
      {
        if i == |s.activities| {
          ConflictSymmetric(t[i], t[j]);
          assert t[j] == s.activities[j];
        } else if j == |s.activities| {
          assert t[i] == s.activities[i];
        }
      }
    }
  }

  /** Outcome of a removal by name. */
  datatype RemoveResult =
    | Removed(schedule: Schedule)
    | NotFound(schedule: Schedule)

  /** Remove the first activity whose name equals `name` exactly. */
  function Remove(s: Schedule, name: string): (r: RemoveResult)
    ensures r.Removed? <==> exists i :: 0 <= i < |s.activities| && s.activities[i].name == name
    ensures r.NotFound? ==> r.schedule == s
    ensures r.Removed? ==> r.schedule.name == s.name && |r.schedule.activities| == |s.activities| - 1
    ensures r.Removed? ==>
      exists i :: (0 <= i < |s.activities| && s.activities[i].name == name &&
                   (forall j :: 0 <= j < i ==> s.activities[j].name != name) &&
                   r.schedule.activities == s.activities[..i] + s.activities[i + 1..])
  {
    match Sequences.FirstIndex(s.activities, (x: Activity) => x.name == name)
    case Some(i) => Removed(s.(activities := Sequences.RemoveAt(s.activities, i)))
    case None => NotFound(s)
  }

  /** Removal only takes activities away, so the invariant is kept. */
  lemma RemovePreservesConsistent(s: Schedule, name: string)
    requires Consistent(s.activities)
    ensures Consistent(Remove(s, name).schedule.activities)
    ensures multiset(Remove(s, name).schedule.activities) <= multiset(s.activities)
  {
    match Sequences.FirstIndex(s.activities, (x: Activity) => x.name == name)
    case Some(i) =>
      var t := Sequences.RemoveAt(s.activities, i);
      assert Remove(s, name).schedule.activities == t;
      ConsistentSubMultiset(s.activities, t);
    case None =>
  }

  /** Day numbers the interactive layer accepts. */
  predicate ValidDay(day: int) {
    1 <= day <= 7
  }

  /** The one-day listing (`mostrarDia`): `None` for a day outside 1..7,
      otherwise the activities of that day ordered by start minute. */
  function DayView(s: Schedule, day: int): (r: Option<seq<Activity>>)
    ensures r.None? <==> !ValidDay(day)
    ensures r.Some? ==> SortedByStart(r.value)
    ensures r.Some? ==> forall x :: multiset(r.value)[x] == if x.day == day then multiset(s.activities)[x] else 0
  {
    if day < 1 || day > 7 then None
    else Some(ActivitiesOfDay(s.activities, day))
  }

  /** The whole-week listing (`mostrarHorario`): `None` for an empty
      schedule, otherwise one sorted list per day, Monday first. An activity
      whose day lies outside 1..7 appears in no list. */
  function WeekView(s: Schedule): (r: Option<seq<seq<Activity>>>)
    ensures r.None? <==> |s.activities| == 0
    ensures r.Some? ==> |r.value| == 7
    ensures r.Some? ==> forall d :: 0 <= d < 7 ==> SortedByStart(r.value[d])
    ensures r.Some? ==> forall d, x :: 0 <= d < 7 ==> (x in r.value[d] <==> x in s.activities && x.day == d + 1)
    ensures r.Some? ==> forall d, x :: 0 <= d < 7 ==>
      multiset(r.value[d])[x] == if x.day == d + 1 then multiset(s.activities)[x] else 0
  {
    if |s.activities| == 0 then None
    else
      var days := seq(7, d requires 0 <= d < 7 => ActivitiesOfDay(s.activities, d + 1));
      assert forall d, x :: 0 <= d < 7 ==> (x in days[d] <==> multiset(days[d])[x] > 0);
      Some(days)
  }

  /** Result of the free-slot query on a valid day. */
  datatype FreeTime =
    | WholeDayFree
    | Slots(slots: seq<Slot>)

  /** The free-slot query (`buscarHuecosLibres`): `None` for a day outside
      1..7, the whole-day answer when the day has no activities, otherwise the
      gaps of the day's start-ordered activities. */
  function FindFreeSlots(s: Schedule, day: int): (r: Option<FreeTime>)
    ensures r.None? <==> !ValidDay(day)
    ensures r == Some(WholeDayFree) <==> ValidDay(day) && forall x :: x in s.activities ==> x.day != day
    ensures r.Some? && r.value.Slots? ==> forall k :: 0 <= k < |r.value.slots| ==>
      r.value.slots[k].start < r.value.slots[k].end
  {
    if day < 1 || day > 7 then None
    else
      var v := ActivitiesOfDay(s.activities, day);
      if |v| == 0 then
        assert forall x :: x in s.activities ==> x.day != day by {
          forall x | x in s.activities ensures x.day != day {
            assert multiset(v)[x] == 0;
          }
        }
        Some(WholeDayFree)
      else
        assert v[0] in multiset(v);
        Some(Slots(GapsOf(v)))
  }

  /** When the activities of the queried day are free of conflicts and
      well-formed, the reported slots come in ascending order and none shares
      a minute with any activity of that day. Other days may break the
      invariant, as a loaded file can. */
  lemma FreeSlotsAreFree(s: Schedule, day: int)
    requires ValidDay(day)
    requires Consistent(FilterDay(s.activities, day))
    ensures FindFreeSlots(s, day).Some?
    ensures FindFreeSlots(s, day).value.Slots? ==> Ascending(FindFreeSlots(s, day).value.slots)
    ensures FindFreeSlots(s, day).value.Slots? ==>
      forall k, x :: 0 <= k < |FindFreeSlots(s, day).value.slots| && x in s.activities && x.day == day ==>
        !Meets(FindFreeSlots(s, day).value.slots[k], x)
  {
    var v := ActivitiesOfDay(s.activities, day);
    if |v| > 0 {
      assert FindFreeSlots(s, day) == Some(Slots(GapsOf(v)));
      DayGapsFree(s, day);
    } else {
      forall x | x in s.activities ensures x.day != day {
        assert multiset(v)[x] == 0;
      }
    }
  }

  /** The gaps of a non-empty day view whose activities are free of
      conflicts and well-formed ascend and avoid every activity of that day. */
  lemma DayGapsFree(s: Schedule, day: int)
    requires Consistent(FilterDay(s.activities, day))
    requires |ActivitiesOfDay(s.activities, day)| > 0
    ensures Ascending(GapsOf(ActivitiesOfDay(s.activities, day)))
    ensures forall k, x :: 0 <= k < |GapsOf(ActivitiesOfDay(s.activities, day))| && x in s.activities && x.day == day ==>
      !Meets(GapsOf(ActivitiesOfDay(s.activities, day))[k], x)
  {
    var v := ActivitiesOfDay(s.activities, day);
    var g := GapsOf(v);
    DayViewChained(s.activities, day);
    GapsFree(v);
    GapsAscending(v);
    forall k, x | 0 <= k < |g| && x in s.activities && x.day == day
      ensures !Meets(g[k], x)
    {
      assert multiset(v)[x] > 0;
      var j :| 0 <= j < |v| && v[j] == x;
    }
  }

  /** Every minute of the 8:00-22:00 window at which no activity of that day
      runs is reported free: by the whole-day answer or inside some slot.
      This holds for any schedule, consistent or not. */
  lemma FreeSlotsCoverFreeTime(s: Schedule, day: int, m: int)
    requires ValidDay(day)
    requires WindowStart <= m < WindowEnd
    requires forall x :: x in s.activities ==> !Occupies(x, Instant(day, m))
    ensures FindFreeSlots(s, day) == Some(WholeDayFree) ||
      (FindFreeSlots(s, day).Some? && FindFreeSlots(s, day).value.Slots? &&
       exists k :: 0 <= k < |FindFreeSlots(s, day).value.slots| && InSlot(FindFreeSlots(s, day).value.slots[k], m))
  {
    var v := ActivitiesOfDay(s.activities, day);
    if |v| > 0 {
      forall j | 0 <= j < |v| ensures !(StartMinutes(v[j]) <= m < EndMinutes(v[j])) {
        assert multiset(v)[v[j]] > 0;
        assert !Occupies(v[j], Instant(day, m));
      }
      GapsComplete(v, m);
    }
  }

  /** The slots do not depend on how `std::sort` orders the day: any
      start-ordered arrangement of a conflict-free, well-formed day's
      activities yields the same gaps. */
  lemma SlotsIndependentOfSortOrder(s: Schedule, day: int, p: seq<Activity>)
    requires Consistent(FilterDay(s.activities, day))
    requires ValidDay(day)
    requires |p| > 0
    requires SortedByStart(p)
    requires multiset(p) == multiset(FilterDay(s.activities, day))
    ensures FindFreeSlots(s, day) == Some(Slots(GapsOf(p)))
  {
    var v := ActivitiesOfDay(s.activities, day);
    assert multiset(v) == multiset(p);
    DayViewChained(s.activities, day);
    SortedOrderUnique(v, p);
  }
}
