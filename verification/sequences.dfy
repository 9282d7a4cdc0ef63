/** Generic facts about sequences used by the schedule model: the first-match
    search that `std::find_if` and the conflict scan both perform, removal at
    an index, and how multiset counts relate to positions. */
module Sequences {

  import opened Options

  /** Index of the first element satisfying `p`, scanning from the front and
      stopping at the first hit, or `None` when no element does. */
  function FirstIndex<T>(s: seq<T>, p: T -> bool): (r: Option<nat>)
    ensures r.Some? ==> r.value < |s| && p(s[r.value])
    ensures r.Some? ==> forall j :: 0 <= j < r.value ==> !p(s[j])
    ensures r.None? <==> forall j :: 0 <= j < |s| ==> !p(s[j])
  {
    if |s| == 0 then None
    else if p(s[0]) then Some(0)
    else
      match FirstIndex(s[1..], p)
      case None => None
      case Some(i) => Some(i + 1)
  }

  /** The sequence without its element at position `i`, others kept in order. */
  function RemoveAt<T>(s: seq<T>, i: nat): (r: seq<T>)
    requires i < |s|
    ensures |r| == |s| - 1
    ensures forall j :: 0 <= j < i ==> r[j] == s[j]
    ensures forall j :: i <= j < |r| ==> r[j] == s[j + 1]
    ensures multiset(r) + multiset{s[i]} == multiset(s)
  {
    assert s == s[..i] + [s[i]] + s[i + 1..];
    s[..i] + s[i + 1..]
  }

  /** Two distinct positions holding the same value give that value a count of at least two. */
  lemma CountAtLeastTwo<T>(s: seq<T>, i: nat, j: nat)
    requires i < j < |s| && s[i] == s[j]
    ensures multiset(s)[s[i]] >= 2
  {
    assert s == s[..j] + [s[j]] + s[j + 1..];
    assert s[i] in s[..j];
    assert multiset(s) == multiset(s[..j]) + multiset{s[j]} + multiset(s[j + 1..]);
  }

  /** Conversely, a value counted at least twice sits at two distinct positions. */
  lemma {:induction false} TwoPositions<T>(s: seq<T>, x: T) returns (i: nat, j: nat)
    requires multiset(s)[x] >= 2
    ensures i < j < |s| && s[i] == x && s[j] == x
  {
    assert s == [s[0]] + s[1..];
    if s[0] == x {
      assert multiset(s[1..])[x] >= 1;
      assert x in multiset(s[1..]);
      var k :| 0 <= k < |s[1..]| && s[1..][k] == x;
      i, j := 0, k + 1;
    } else {
      assert multiset(s[1..])[x] >= 2;
      var i', j' := TwoPositions(s[1..], x);
      i, j := i' + 1, j' + 1;
    }
  }

  /** Dropping the head removes one copy of it. */
  lemma TailMultiset<T>(s: seq<T>)
    requires |s| > 0
    ensures multiset(s[1..]) == multiset(s) - multiset{s[0]}
  {
    assert s == [s[0]] + s[1..];
  }

  /** Apply `f` to every element, failing as soon as one application fails. */
  function MapAll<T, U>(s: seq<T>, f: T -> Option<U>): (r: Option<seq<U>>)
    ensures r.Some? <==> forall i :: 0 <= i < |s| ==> f(s[i]).Some?
    ensures r.Some? ==> |r.value| == |s|
    ensures r.Some? ==> forall i :: 0 <= i < |s| ==> f(s[i]) == Some(r.value[i])
  {
    if |s| == 0 then Some([])
    else
      var head := f(s[0]);
      var tail := MapAll(s[1..], f);
      assert forall i :: 1 <= i < |s| ==> s[i] == s[1..][i - 1];
      if head.None? || tail.None? then None
      else Some([head.value] + tail.value)
  }

  /** When `f` maps each element of `t` to the element of `s` at the same
      position, mapping `f` over `t` gives `s`. */
  lemma MapAllYields<T, U>(t: seq<T>, s: seq<U>, f: T -> Option<U>)
    requires |t| == |s|
    requires forall i :: 0 <= i < |t| ==> f(t[i]) == Some(s[i])
    ensures MapAll(t, f) == Some(s)
  {
    var r := MapAll(t, f);
    assert r.value == s by {
      forall i | 0 <= i < |s| ensures r.value[i] == s[i] {
        assert f(t[i]) == Some(r.value[i]);
      }
    }
  }
}
