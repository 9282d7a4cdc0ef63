/** The free-slot search of `buscarHuecosLibres`: over one day's activities,
    sorted by start, it reports the gap before the first activity, the gaps
    between consecutive activities, and the gap after the last one, measured
    against the fixed 8:00-22:00 window. The gaps between activities are not
    clipped to that window, and the leading and trailing gaps are anchored at
    the first activity's start and the last activity's end as written. */
module FreeSlots {

  import opened Activities
  import opened DayViews

  /** 8:00, the start of the daytime window, in minutes since midnight. */
  const WindowStart: int := 8 * 60
  /** 22:00, the end of the daytime window. */
  const WindowEnd: int := 22 * 60

  /** A half-open interval of minutes [start, end). */
  datatype Slot = Slot(start: int, end: int)

  predicate InSlot(g: Slot, m: int) {
    g.start <= m < g.end
  }

  /** The slot and the activity's interval share a minute. */
  predicate Meets(g: Slot, a: Activity) {
    g.start < EndMinutes(a) && StartMinutes(a) < g.end
  }

  /** Some activity of `v` runs during minute `m`. */
  ghost predicate Covered(v: seq<Activity>, m: int) {
    exists j :: 0 <= j < |v| && StartMinutes(v[j]) <= m < EndMinutes(v[j])
  }

  /** Every slot starts no earlier than any earlier slot ends. */
  ghost predicate Ascending(g: seq<Slot>) {
    forall k, l :: 0 <= k < l < |g| ==> g[k].end <= g[l].start
  }

  /** The gaps between consecutive activities, each reported only when the
      next activity starts strictly after the previous one ends. */
  function InnerGaps(v: seq<Activity>): (r: seq<Slot>)
    ensures forall k :: 0 <= k < |r| ==> r[k].start < r[k].end
  {
    if |v| < 2 then []
    else
      var rest := InnerGaps(v[1..]);
      (if StartMinutes(v[1]) > EndMinutes(v[0]) then [Slot(EndMinutes(v[0]), StartMinutes(v[1]))] else [])
      + rest
  }

  /** All free slots of a non-empty, start-ordered day. Every slot is
      non-empty and each bound is a window bound or an activity bound. */
  function GapsOf(v: seq<Activity>): (r: seq<Slot>)
    requires |v| > 0
    ensures forall k :: 0 <= k < |r| ==> r[k].start < r[k].end
  {
    var first := StartMinutes(v[0]);
    var last := EndMinutes(v[|v| - 1]);
    (if first > WindowStart then [Slot(WindowStart, first)] else [])
    + InnerGaps(v)
    + (if last < WindowEnd then [Slot(last, WindowEnd)] else [])
  }

  /** The gap between the activities at positions i and i + 1. */
  function Between(v: seq<Activity>, i: nat): Slot
    requires i + 1 < |v|
  {
    Slot(EndMinutes(v[i]), StartMinutes(v[i + 1]))
  }

  /** Each inner gap is the gap between some pair of neighbours. */
  lemma {:induction false} InnerGapsAreBetween(v: seq<Activity>)
    ensures forall k :: 0 <= k < |InnerGaps(v)| ==>
      exists i :: 0 <= i < |v| - 1 && InnerGaps(v)[k] == Between(v, i)
  {
    if |v| >= 2 {
      var t := v[1..];
      InnerGapsAreBetween(t);
      var rest := InnerGaps(t);
      var head := if StartMinutes(v[1]) > EndMinutes(v[0]) then [Between(v, 0)] else [];
      assert InnerGaps(v) == head + rest;
      forall k | 0 <= k < |InnerGaps(v)|
        ensures exists i :: 0 <= i < |v| - 1 && InnerGaps(v)[k] == Between(v, i)
      {
        if k >= |head| {
          var i :| 0 <= i < |t| - 1 && rest[k - |head|] == Between(t, i);
          assert Between(t, i) == Between(v, i + 1);
        } else {
          assert InnerGaps(v)[k] == Between(v, 0);
        }
      }
    } else {
      assert InnerGaps(v) == [];
    }
  }

  /** Conversely, every positive gap between neighbours is reported, wherever
      it falls relative to the window. */
  lemma {:induction false} InnerGapsReported(v: seq<Activity>, i: nat)
    requires i + 1 < |v| && StartMinutes(v[i + 1]) > EndMinutes(v[i])
    ensures Between(v, i) in InnerGaps(v)
  {
    var t := v[1..];
    var head := if StartMinutes(v[1]) > EndMinutes(v[0]) then [Between(v, 0)] else [];
    assert InnerGaps(v) == head + InnerGaps(t);
    if i > 0 {
      assert t[i - 1] == v[i] && t[i] == v[i + 1];
      InnerGapsReported(t, i - 1);
      assert Between(t, i - 1) == Between(v, i);
    }
  }

  /** The inner-gap direction lifted to the whole result. */
  lemma GapsReported(v: seq<Activity>, i: nat)
    requires i + 1 < |v| && StartMinutes(v[i + 1]) > EndMinutes(v[i])
    ensures Between(v, i) in GapsOf(v)
  {
    InnerGapsReported(v, i);
    var first := StartMinutes(v[0]);
    var last := EndMinutes(v[|v| - 1]);
    var lead := if first > WindowStart then [Slot(WindowStart, first)] else [];
    var trail := if last < WindowEnd then [Slot(last, WindowEnd)] else [];
    assert GapsOf(v) == lead + InnerGaps(v) + trail;
  }

  /** The shape of the result: every slot is the leading candidate
      [8:00, first start), the gap between two neighbours, or the trailing
      candidate [last end, 22:00), and has positive length, so each is
      reported only when its candidate is non-empty. */
  lemma GapsAreCandidates(v: seq<Activity>)
    requires |v| > 0
    ensures forall k :: 0 <= k < |GapsOf(v)| ==>
      GapsOf(v)[k].start < GapsOf(v)[k].end &&
      (GapsOf(v)[k] == Slot(WindowStart, StartMinutes(v[0])) ||
       (exists i :: 0 <= i < |v| - 1 && GapsOf(v)[k] == Between(v, i)) ||
       GapsOf(v)[k] == Slot(EndMinutes(v[|v| - 1]), WindowEnd))
  {
    InnerGapsAreBetween(v);
    var first := StartMinutes(v[0]);
    var last := EndMinutes(v[|v| - 1]);
    var lead := if first > WindowStart then [Slot(WindowStart, first)] else [];
    var inner := InnerGaps(v);
    var trail := if last < WindowEnd then [Slot(last, WindowEnd)] else [];
    var r := GapsOf(v);
    assert r == lead + inner + trail;
    forall k | |lead| <= k < |lead| + |inner| ensures r[k] == inner[k - |lead|] {
    }
  }

  /** On a chained day of well-formed activities, the gap after position i
      shares no minute with any activity. */
  lemma BetweenIsFree(v: seq<Activity>, i: nat, j: nat)
    requires Chained(v) && AllWellFormed(v)
    requires i + 1 < |v| && j < |v|
    ensures !Meets(Between(v, i), v[j])
  {
    if j < i {
      assert EndMinutes(v[j]) <= StartMinutes(v[i]) && WellFormed(v[i]);
    } else if j > i + 1 {
      assert EndMinutes(v[i + 1]) <= StartMinutes(v[j]) && WellFormed(v[i + 1]);
    }
  }

  /** On a chained day every activity lies between the first start and the
      last end. */
  lemma WithinFirstAndLast(v: seq<Activity>, j: nat)
    requires Chained(v) && AllWellFormed(v)
    requires j < |v|
    ensures StartMinutes(v[0]) <= StartMinutes(v[j]) && EndMinutes(v[j]) <= EndMinutes(v[|v| - 1])
  {
    assert WellFormed(v[0]) && WellFormed(v[j]) && WellFormed(v[|v| - 1]);
  }

  /** On a chained day the inner gaps lie between the first activity's end
      and the last one's start, and come in order. */
  lemma {:induction false} InnerGapsOrdered(v: seq<Activity>)
    requires |v| > 0 && Chained(v) && AllWellFormed(v)
    ensures forall k :: 0 <= k < |InnerGaps(v)| ==>
      EndMinutes(v[0]) <= InnerGaps(v)[k].start && InnerGaps(v)[k].end <= StartMinutes(v[|v| - 1])
    ensures Ascending(InnerGaps(v))
  {
    if |v| >= 2 {
      var t := v[1..];
      assert Chained(t) && AllWellFormed(t) by {
        assert forall i :: 0 <= i < |t| ==> t[i] == v[i + 1];
      }
      InnerGapsOrdered(t);
      var rest := InnerGaps(t);
      var head := if StartMinutes(v[1]) > EndMinutes(v[0]) then [Between(v, 0)] else [];
      var r := InnerGaps(v);
      assert r == head + rest;
      assert t[0] == v[1] && t[|t| - 1] == v[|v| - 1];
      assert EndMinutes(v[0]) <= StartMinutes(v[1]) && WellFormed(v[1]);
      WithinFirstAndLast(v, 1);
      forall k | 0 <= k < |r|
        ensures EndMinutes(v[0]) <= r[k].start && r[k].end <= StartMinutes(v[|v| - 1])
      {
        if k >= |head| {
          assert r[k] == rest[k - |head|];
        }
      }
      forall k, l | 0 <= k < l < |r| ensures r[k].end <= r[l].start {
        assert r[l] == rest[l - |head|];
        if k >= |head| {
          assert r[k] == rest[k - |head|];
        }
      }
    } else {
      assert InnerGaps(v) == [];
    }
  }

  /** On a chained day of well-formed activities no slot shares a minute with
      any activity of the day. */
  lemma GapsFree(v: seq<Activity>)
    requires |v| > 0 && Chained(v) && AllWellFormed(v)
    ensures forall k, j :: 0 <= k < |GapsOf(v)| && 0 <= j < |v| ==> !Meets(GapsOf(v)[k], v[j])
  {
    GapsAreCandidates(v);
    var r := GapsOf(v);
    forall k, j | 0 <= k < |r| && 0 <= j < |v| ensures !Meets(r[k], v[j]) {
      WithinFirstAndLast(v, j);
      if r[k] != Slot(WindowStart, StartMinutes(v[0])) && r[k] != Slot(EndMinutes(v[|v| - 1]), WindowEnd) {
        var i :| 0 <= i < |v| - 1 && r[k] == Between(v, i);
        BetweenIsFree(v, i, j);
      }
    }
  }

  /** On a chained day of well-formed activities the slots come in order. */
  lemma GapsAscending(v: seq<Activity>)
    requires |v| > 0 && Chained(v) && AllWellFormed(v)
    ensures Ascending(GapsOf(v))
  {
    InnerGapsOrdered(v);
    var first := StartMinutes(v[0]);
    var last := EndMinutes(v[|v| - 1]);
    var lead := if first > WindowStart then [Slot(WindowStart, first)] else [];
    var inner := InnerGaps(v);
    var trail := if last < WindowEnd then [Slot(last, WindowEnd)] else [];
    var r := GapsOf(v);
    assert r == lead + inner + trail;
    WithinFirstAndLast(v, |v| - 1);
    assert first <= EndMinutes(v[0]) by { assert WellFormed(v[0]); }
    assert StartMinutes(v[|v| - 1]) <= last by { assert WellFormed(v[|v| - 1]); }
    forall k, l | 0 <= k < l < |r| ensures r[k].end <= r[l].start {
      if |lead| <= l < |lead| + |inner| {
        assert r[l] == inner[l - |lead|];
      }
      if |lead| <= k < |lead| + |inner| {
        assert r[k] == inner[k - |lead|];
      }
    }
  }

  /** Any uncovered minute between the first start and the last end falls in
      one of the inner gaps; this needs no ordering of the activities. */
  lemma {:induction false} InnerGapsComplete(v: seq<Activity>, m: int)
    requires |v| > 0
    requires StartMinutes(v[0]) <= m < EndMinutes(v[|v| - 1])
    requires !Covered(v, m)
    ensures exists k :: 0 <= k < |InnerGaps(v)| && InSlot(InnerGaps(v)[k], m)
  {
    // A single activity would cover m, so there are at least two.
    if |v| > 1 {
      var t := v[1..];
      var rest := InnerGaps(t);
      var head := if StartMinutes(v[1]) > EndMinutes(v[0]) then [Slot(EndMinutes(v[0]), StartMinutes(v[1]))] else [];
      assert InnerGaps(v) == head + rest;
      assert !(StartMinutes(v[0]) <= m < EndMinutes(v[0]));
      if m < StartMinutes(v[1]) {
        assert InSlot(InnerGaps(v)[0], m);
      } else {
        assert t[|t| - 1] == v[|v| - 1];
        forall j | 0 <= j < |t| ensures !(StartMinutes(t[j]) <= m < EndMinutes(t[j])) {
          assert t[j] == v[j + 1];
        }
        InnerGapsComplete(t, m);
        var k :| 0 <= k < |rest| && InSlot(rest[k], m);
        assert InnerGaps(v)[|head| + k] == rest[k];
      }
    }
  }

  /** Every minute of the window that no activity covers lies in some slot. */
  lemma GapsComplete(v: seq<Activity>, m: int)
    requires |v| > 0
    requires WindowStart <= m < WindowEnd
    requires !Covered(v, m)
    ensures exists k :: 0 <= k < |GapsOf(v)| && InSlot(GapsOf(v)[k], m)
  {
    var first := StartMinutes(v[0]);
    var last := EndMinutes(v[|v| - 1]);
    var lead := if first > WindowStart then [Slot(WindowStart, first)] else [];
    var inner := InnerGaps(v);
    var trail := if last < WindowEnd then [Slot(last, WindowEnd)] else [];
    var r := GapsOf(v);
    assert r == lead + inner + trail;
    if m < first {
      assert InSlot(r[0], m);
    } else if m >= last {
      assert r[|r| - 1] == Slot(last, WindowEnd);
    } else {
      InnerGapsComplete(v, m);
      var k :| 0 <= k < |inner| && InSlot(inner[k], m);
      assert r[|lead| + k] == inner[k];
    }
  }

  /** An inner gap is reported wherever it falls, even outside the window:
      activities at 1:00-2:00 and 3:00-4:00 yield the gap 2:00-3:00. */
  lemma InnerGapNotClipped(name: string, place: string)
    ensures Slot(120, 180) in GapsOf([Activity(name, 1, 1, 0, 2, 0, place), Activity(name, 1, 3, 0, 4, 0, place)])
  {
    var v := [Activity(name, 1, 1, 0, 2, 0, place), Activity(name, 1, 3, 0, 4, 0, place)];
    assert InnerGaps(v[1..]) == [];
    assert InnerGaps(v) == [Slot(120, 180)];
  }
}
