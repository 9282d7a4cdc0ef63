/** Worked examples of the schedule operations on small inputs. */
module Scenarios {

  import opened Options
  import opened Activities
  import opened Schedules
  import opened FreeSlots
  import DayViews

  /** 9:00-10:00 overlaps 8:00-9:30 on the same day, so the second add is
      rejected and the first activity is reported; 9:30-10:00 only touches
      it and is accepted. */
  lemma AddRejectsOverlapAcceptsTouching()
    ensures
      var math := Activity("Math", 1, 8, 0, 9, 30, "Room A");
      var s := Add(Empty(), math).schedule;
      && s.activities == [math]
      && Add(s, Activity("Physics", 1, 9, 0, 10, 0, "Room B")) == Rejected(s, math)
      && Add(s, Activity("Physics", 1, 9, 30, 10, 0, "Room B")).Added?
  {
    var math := Activity("Math", 1, 8, 0, 9, 30, "Room A");
    var s := Add(Empty(), math).schedule;
    assert s.activities == [math];
    assert ConflictsWith(s.activities[0], Activity("Physics", 1, 9, 0, 10, 0, "Room B"));
    var touching := Activity("Physics", 1, 9, 30, 10, 0, "Room B");
    assert !ConflictsWith(s.activities[0], touching);
  }

  /** A day holding only 10:00-11:00 is free 8:00-10:00 and 11:00-22:00; a
      day with nothing is wholly free; day 9 is refused. */
  lemma FreeSlotsOfSmallDays()
    ensures
      var s := Schedule("Week", [Activity("Chem", 2, 10, 0, 11, 0, "Lab")]);
      && FindFreeSlots(s, 2) == Some(Slots([Slot(480, 600), Slot(660, 1320)]))
      && FindFreeSlots(s, 3) == Some(WholeDayFree)
      && FindFreeSlots(s, 9) == None
  {
    var chem := Activity("Chem", 2, 10, 0, 11, 0, "Lab");
    var s := Schedule("Week", [chem]);
    assert [chem][1..] == [];
    assert DayViews.FilterDay([chem], 2) == [chem];
    assert DayViews.SortByStart([chem]) == [chem];
    assert InnerGaps([chem]) == [];
    assert DayViews.ActivitiesOfDay(s.activities, 2) == [chem];
    assert StartMinutes(chem) == 600 && EndMinutes(chem) == 660;
    assert GapsOf([chem]) == [Slot(480, 600)] + [] + [Slot(660, 1320)];
    assert GapsOf([chem]) == [Slot(480, 600), Slot(660, 1320)];
    assert FindFreeSlots(s, 3) == Some(WholeDayFree);
  }

  /** Removing "Math" leaves "Physics"; removing it again finds nothing. */
  lemma RemoveFirstThenNotFound()
    ensures
      var math := Activity("Math", 1, 8, 0, 9, 30, "Room A");
      var physics := Activity("Physics", 1, 9, 30, 10, 0, "Room B");
      var once := Remove(Schedule("Week", [math, physics]), "Math");
      && once == Removed(Schedule("Week", [physics]))
      && Remove(once.schedule, "Math") == NotFound(once.schedule)
  {
    var math := Activity("Math", 1, 8, 0, 9, 30, "Room A");
    var physics := Activity("Physics", 1, 9, 30, 10, 0, "Room B");
    assert [math, physics][0].name == "Math";
    assert [physics][0].name != "Math";
  }

  /** Two overlapping Monday activities, as a loaded file may hold, break the
      whole-week invariant but leave Tuesday's activities conflict-free, so
      the free-slot guarantees still apply to Tuesday. */
  lemma OverlapOnOtherDay()
    ensures
      var s := [Activity("Math", 1, 8, 0, 10, 0, "Room A"), Activity("Art", 1, 9, 0, 11, 0, "Room B"),
                Activity("Chem", 2, 10, 0, 11, 0, "Lab")];
      && !Consistent(s)
      && Consistent(DayViews.FilterDay(s, 2))
  {
    var math := Activity("Math", 1, 8, 0, 10, 0, "Room A");
    var art := Activity("Art", 1, 9, 0, 11, 0, "Room B");
    var chem := Activity("Chem", 2, 10, 0, 11, 0, "Lab");
    var s := [math, art, chem];
    assert ConflictsWith(s[0], s[1]);
    assert !Disjoint(s);
    assert DayViews.FilterDay([chem], 2) == [chem] by {
      assert [chem][1..] == [];
    }
    assert DayViews.FilterDay([art, chem], 2) == [chem] by {
      assert [art, chem][1..] == [chem];
    }
    assert DayViews.FilterDay(s, 2) == [chem] by {
      assert s[1..] == [art, chem];
    }
    assert Consistent([chem]) by {
      assert WellFormed(chem);
    }
  }
}
