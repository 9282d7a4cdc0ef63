/** The per-day view shared by the full listing, the one-day listing and the
    free-slot search: keep the activities of one day, then order them by start
    minute. The source sorts with `std::sort`, which is not stable, so only
    sortedness and permutation are promised; `SortedOrderUnique` shows that on
    a conflict-free day the order is nonetheless determined. */
module DayViews {

  import Sequences
  import opened Activities

  /** Non-decreasing start minutes. */
  ghost predicate SortedByStart(s: seq<Activity>) {
    forall i, j :: 0 <= i < j < |s| ==> StartMinutes(s[i]) <= StartMinutes(s[j])
  }

  /** The activities of `s` held on `day`, with their multiplicities. */
  function FilterDay(s: seq<Activity>, day: int): (r: seq<Activity>)
    ensures forall x :: multiset(r)[x] == if x.day == day then multiset(s)[x] else 0
    ensures forall i :: 0 <= i < |r| ==> r[i].day == day
    ensures multiset(r) <= multiset(s)
  {
    if |s| == 0 then []
    else
      assert s == [s[0]] + s[1..];
      if s[0].day == day then [s[0]] + FilterDay(s[1..], day)
      else FilterDay(s[1..], day)
  }

  /** Insert `x` in front of the first entry that does not start earlier. */
  function InsertByStart(x: Activity, s: seq<Activity>): (r: seq<Activity>)
    requires SortedByStart(s)
    ensures SortedByStart(r)
    ensures multiset(r) == multiset(s) + multiset{x}
  {
    if |s| == 0 then [x]
    else if StartMinutes(x) <= StartMinutes(s[0]) then [x] + s
    else
      var rest := InsertByStart(x, s[1..]);
      assert s == [s[0]] + s[1..];
      InsertKeepsLowerBound(x, s[1..], rest, StartMinutes(s[0]));
      [s[0]] + rest
  }

  /** A bound below every start in `s` and below `x` stays below every start
      in `r` when `r` holds the same activities as `s` plus `x`. */
  lemma InsertKeepsLowerBound(x: Activity, s: seq<Activity>, r: seq<Activity>, bound: int)
    requires multiset(r) == multiset(s) + multiset{x}
    requires bound <= StartMinutes(x)
    requires forall i :: 0 <= i < |s| ==> bound <= StartMinutes(s[i])
    ensures forall i :: 0 <= i < |r| ==> bound <= StartMinutes(r[i])
  {
    forall i | 0 <= i < |r| ensures bound <= StartMinutes(r[i]) {
      assert r[i] in multiset(r);
      if r[i] != x {
        assert r[i] in multiset(s);
        var k :| 0 <= k < |s| && s[k] == r[i];
      }
    }
  }

  /** Order the activities by start minute (one admissible outcome of `std::sort`). */
  function SortByStart(s: seq<Activity>): (r: seq<Activity>)
    ensures SortedByStart(r)
    ensures multiset(r) == multiset(s)
  {
    if |s| == 0 then []
    else
      assert s == [s[0]] + s[1..];
      InsertByStart(s[0], SortByStart(s[1..]))
  }

  /** The day view: the activities of `day`, ordered by start minute. */
  function ActivitiesOfDay(s: seq<Activity>, day: int): (r: seq<Activity>)
    ensures SortedByStart(r)
    ensures forall x :: multiset(r)[x] == if x.day == day then multiset(s)[x] else 0
    ensures multiset(r) <= multiset(s)
  {
    SortByStart(FilterDay(s, day))
  }

  /** Every earlier activity ends no later than any later one starts. */
  ghost predicate Chained(s: seq<Activity>) {
    forall i, j :: 0 <= i < j < |s| ==> EndMinutes(s[i]) <= StartMinutes(s[j])
  }

  /** No two entries at distinct positions start at the same minute. */
  ghost predicate DistinctStarts(s: seq<Activity>) {
    forall i, j :: 0 <= i < |s| && 0 <= j < |s| && i != j ==> StartMinutes(s[i]) != StartMinutes(s[j])
  }

  /** On a sorted, conflict-free, well-formed sequence each activity finishes
      before the next one begins, and no two start together. */
  lemma SortedConsistentIsChained(s: seq<Activity>, day: int)
    requires SortedByStart(s)
    requires Consistent(s)
    requires forall i :: 0 <= i < |s| ==> s[i].day == day
    ensures Chained(s)
    ensures DistinctStarts(s)
  {
    forall i, j | 0 <= i < |s| && 0 <= j < |s| && i != j
      ensures StartMinutes(s[i]) != StartMinutes(s[j])
    {
      assert !ConflictsWith(s[i], s[j]);
      assert WellFormed(s[i]) && WellFormed(s[j]) && s[i].day == s[j].day;
    }
    forall i, j | 0 <= i < j < |s|
      ensures EndMinutes(s[i]) <= StartMinutes(s[j])
    {
      assert !ConflictsWith(s[i], s[j]);
      assert WellFormed(s[j]) && s[i].day == s[j].day;
    }
  }

  /** A schedule that keeps the invariant keeps it on every single day, so
      the day-local hypotheses below follow from the whole-week one. */
  lemma ConsistentDay(s: seq<Activity>, day: int)
    requires Consistent(s)
    ensures Consistent(FilterDay(s, day))
  {
    ConsistentSubMultiset(s, FilterDay(s, day));
  }

  /** When the activities of one day are free of conflicts and well-formed,
      whatever the other days hold, that day's view is chained, well-formed
      and has distinct starts. */
  lemma DayViewChained(s: seq<Activity>, day: int)
    requires Consistent(FilterDay(s, day))
    ensures Chained(ActivitiesOfDay(s, day)) && DistinctStarts(ActivitiesOfDay(s, day))
    ensures forall i :: 0 <= i < |ActivitiesOfDay(s, day)| ==> WellFormed(ActivitiesOfDay(s, day)[i])
  {
    var v := ActivitiesOfDay(s, day);
    assert multiset(v) == multiset(FilterDay(s, day));
    ConsistentSubMultiset(FilterDay(s, day), v);
    forall i | 0 <= i < |v| ensures v[i].day == day {
      assert multiset(v)[v[i]] > 0;
    }
    SortedConsistentIsChained(v, day);
  }

  /** Two sorted sequences holding the same activities, with starts pairwise
      distinct, are equal: sorting a conflict-free day has one outcome, however
      ties would have been broken. */
  lemma {:induction false} SortedOrderUnique(a: seq<Activity>, b: seq<Activity>)
    requires multiset(a) == multiset(b)
    requires SortedByStart(a) && SortedByStart(b)
    requires DistinctStarts(a)
    ensures a == b
  {
    assert |a| == |multiset(a)| == |multiset(b)| == |b|;
    if |a| > 0 {
      SameHead(a, b);
      TailsAgree(a, b);
      SortedOrderUnique(a[1..], b[1..]);
      assert a == [a[0]] + a[1..] && b == [b[0]] + b[1..];
    }
  }

  /** The tails left after a shared head keep every hypothesis of
      `SortedOrderUnique`. */
  lemma TailsAgree(a: seq<Activity>, b: seq<Activity>)
    requires |a| > 0 && |b| > 0 && a[0] == b[0]
    requires multiset(a) == multiset(b)
    requires SortedByStart(a) && SortedByStart(b)
    requires DistinctStarts(a)
    ensures multiset(a[1..]) == multiset(b[1..])
    ensures SortedByStart(a[1..]) && SortedByStart(b[1..])
    ensures DistinctStarts(a[1..])
  {
    Sequences.TailMultiset(a);
    Sequences.TailMultiset(b);
    forall p, q | 0 <= p < |a[1..]| && 0 <= q < |a[1..]| && p != q
      ensures StartMinutes(a[1..][p]) != StartMinutes(a[1..][q])
    {
      assert a[1..][p] == a[p + 1] && a[1..][q] == a[q + 1];
    }
  }

  /** Under the hypotheses of `SortedOrderUnique`, both sequences begin with
      the same activity: the one with the least start. */
  lemma SameHead(a: seq<Activity>, b: seq<Activity>)
    requires |a| > 0 && multiset(a) == multiset(b)
    requires SortedByStart(a) && SortedByStart(b)
    requires DistinctStarts(a)
    ensures |b| > 0 && a[0] == b[0]
  {
    assert a[0] in multiset(b);
    var j :| 0 <= j < |b| && b[j] == a[0];
    assert b[0] in multiset(a);
    var i :| 0 <= i < |a| && a[i] == b[0];
    assert StartMinutes(a[0]) <= StartMinutes(a[i]);
    assert StartMinutes(b[0]) <= StartMinutes(b[j]);
  }
}
