/** One timed event on one weekday (`Actividad`), the overlap rule between two
    of them (`conflictoCon`), and the no-overlap invariant a schedule keeps. */
module Activities {

  import Sequences

  /** Day 1 is Monday and 7 is Sunday; hours and minutes are kept as entered.
      Nothing in the record itself enforces any range. */
  datatype Activity = Activity(
    name: string,
    day: int,
    startHour: int,
    startMinute: int,
    endHour: int,
    endMinute: int,
    location: string)

  /** Minutes since midnight at which the activity starts. */
  function StartMinutes(a: Activity): int {
    a.startHour * 60 + a.startMinute
  }

  /** Minutes since midnight at which the activity ends. */
  function EndMinutes(a: Activity): int {
    a.endHour * 60 + a.endMinute
  }

  /** The activity lasts at least one minute (the interactive layer only
      builds activities that satisfy this). */
  predicate WellFormed(a: Activity) {
    StartMinutes(a) < EndMinutes(a)
  }

  /** A moment of the week: a day number and a minute of that day. */
  datatype Instant = Instant(day: int, minute: int)

  /** The activity occupies the minute starting at `t`: its interval is half-open. */
  predicate Occupies(a: Activity, t: Instant) {
    t.day == a.day && StartMinutes(a) <= t.minute < EndMinutes(a)
  }

  /** The conflict rule: activities on different days never conflict; on the
      same day, their half-open minute intervals must intersect. */
  function ConflictsWith(a: Activity, b: Activity): (r: bool)
    ensures r ==> a.day == b.day
    ensures EndMinutes(a) <= StartMinutes(b) ==> !r
    ensures EndMinutes(b) <= StartMinutes(a) ==> !r
  {
    if a.day != b.day then false
    else
      var startA, endA := StartMinutes(a), EndMinutes(a);
      var startB, endB := StartMinutes(b), EndMinutes(b);
      startA < endB && startB < endA
  }

  /** The rule does not depend on which activity is asked. */
  lemma ConflictSymmetric(a: Activity, b: Activity)
    ensures ConflictsWith(a, b) == ConflictsWith(b, a)
  {
  }

  /** Two well-formed activities conflict exactly when some minute of the
      week is occupied by both. */
  lemma ConflictIffSharedMinute(a: Activity, b: Activity)
    requires WellFormed(a) && WellFormed(b)
    ensures ConflictsWith(a, b) <==> exists t :: Occupies(a, t) && Occupies(b, t)
  {
    if ConflictsWith(a, b) {
      assert a.day == b.day && StartMinutes(a) < EndMinutes(b) && StartMinutes(b) < EndMinutes(a);
      var m := if StartMinutes(a) < StartMinutes(b) then StartMinutes(b) else StartMinutes(a);
      assert Occupies(a, Instant(a.day, m)) && Occupies(b, Instant(a.day, m));
    }
  }

  /** No two entries at distinct positions conflict. */
  ghost predicate Disjoint(s: seq<Activity>) {
    forall i, j :: 0 <= i < |s| && 0 <= j < |s| && i != j ==> !ConflictsWith(s[i], s[j])
  }

  /** Every entry has a valid day and starts before it ends. */
  ghost predicate AllWellFormed(s: seq<Activity>) {
    forall i :: 0 <= i < |s| ==> WellFormed(s[i])
  }

  /** The schedule invariant the add path maintains. */
  ghost predicate Consistent(s: seq<Activity>) {
    Disjoint(s) && AllWellFormed(s)
  }

  /** Conflict-freedom depends only on which activities are present, with
      their counts: it carries over to any sub-multiset, so to every
      permutation, filter and removal. */
  lemma DisjointSubMultiset(a: seq<Activity>, b: seq<Activity>)
    requires multiset(b) <= multiset(a)
    requires Disjoint(a)
    ensures Disjoint(b)
  {
    forall i, j | 0 <= i < |b| && 0 <= j < |b| && i != j
      ensures !ConflictsWith(b[i], b[j])
    {
      if b[i] == b[j] {
        var lo, hi := if i < j then i else j, if i < j then j else i;
        Sequences.CountAtLeastTwo(b, lo, hi);
        var i', j' := Sequences.TwoPositions(a, b[i]);
        assert a[i'] == b[i] && a[j'] == b[j];
      } else {
        assert b[i] in multiset(a) && b[j] in multiset(a);
        var i' :| 0 <= i' < |a| && a[i'] == b[i];
        var j' :| 0 <= j' < |a| && a[j'] == b[j];
        assert i' != j';
      }
    }
  }

  /** The invariant likewise survives passing to a sub-multiset. */
  lemma ConsistentSubMultiset(a: seq<Activity>, b: seq<Activity>)
    requires multiset(b) <= multiset(a)
    requires Consistent(a)
    ensures Consistent(b)
  {
    DisjointSubMultiset(a, b);
    forall i | 0 <= i < |b| ensures WellFormed(b[i]) {
      assert b[i] in multiset(a);
      var k :| 0 <= k < |a| && a[k] == b[i];
    }
  }
}
