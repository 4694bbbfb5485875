/** The lithosphere locator: the linear scan over a radius column for the
    first shell whose bottom lies at or below the target radius and whose next
    radius lies above it, with the nearest-below tie-break. */
module Locator {
  import opened Types

  datatype LocateError =
    | NoBracket     // the scan ends without a bracketing pair; the index stays unassigned
    | IndexPastEnd  // the last radius is at or below the target, so the scan reads past the end

  /** Position i ends the scan: its radius is at or below the target and the
      next radius, if there is one, lies above the target. */
  predicate Stops(s: seq<real>, t: real, i: int) {
    0 <= i < |s| && s[i] <= t && (i + 1 == |s| || t < s[i + 1])
  }

  /** The first position at or after `from` that ends the scan. */
  function FirstStop(s: seq<real>, t: real, from: nat): (r: Option<nat>)
    requires from <= |s|
    ensures r.Some? ==> from <= r.value < |s| && Stops(s, t, r.value)
    ensures r.Some? ==> forall j :: from <= j < r.value ==> !Stops(s, t, j)
    ensures r.None? ==> forall j :: from <= j < |s| ==> !Stops(s, t, j)
    decreases |s| - from
  {
    if from == |s| then None
    else if Stops(s, t, from) then Some(from)
    else FirstStop(s, t, from + 1)
  }

  /** The choice between the two radii lo = s[i] and hi = s[i + 1] that
      bracket the target: the lower index on an exact match or when the target
      is no farther from lo than from hi, the upper one otherwise. */
  function Nearer(lo: real, hi: real, t: real, i: nat): (k: nat)
    requires lo <= t < hi
    ensures k == i || k == i + 1
    ensures k == i <==> t - lo <= hi - t
    ensures (k == i ==> t - lo <= (hi - lo) / 2.0) && (k == i + 1 ==> hi - t < (hi - lo) / 2.0)
  {
    if lo == t then i
    else if t - lo <= hi - t then i
    else i + 1
  }

  /** What the scan yields for radius column s and target radius t. */
  function LocateSpec(s: seq<real>, t: real): (r: Result<nat, LocateError>)
    ensures r.Ok? ==> r.value < |s|
  {
    match FirstStop(s, t, 0)
    case None => Err(NoBracket)
    case Some(i) => if i + 1 == |s| then Err(IndexPastEnd) else Ok(Nearer(s[i], s[i + 1], t, i))
  }

  /** The scan over the radius array, stopping at the first bracketing pair.
      As in the script, radius[i + 1] is only read once radius[i] is at or
      below the target. */
  method Locate(radius: array<real>, target: real) returns (r: Result<nat, LocateError>)
    ensures r == LocateSpec(radius[..], target)
    ensures r.Ok? ==> r.value < radius.Length
  {
    var i := 0;
    while i < radius.Length
      invariant 0 <= i <= radius.Length
      invariant FirstStop(radius[..], target, 0) == FirstStop(radius[..], target, i)
    {
      if radius[i] <= target {
        if i + 1 == radius.Length {
          return Err(IndexPastEnd);
        }
        if radius[i + 1] > target {
          if radius[i] == target {
            r := Ok(i);
          } else if target - radius[i] <= radius[i + 1] - target {
            r := Ok(i);
          } else {
            r := Ok(i + 1);
          }
          return;
        }
      }
      i := i + 1;
    }
    r := Err(NoBracket);
  }

  // ---- Properties of the scan ----

  /** A located index comes from the first bracketing pair s[i] <= t < s[i + 1],
      is one of its two ends, and is within half the bracket width of the
      target. */
  lemma LocatedIsNearestOfFirstBracket(s: seq<real>, t: real)
    requires LocateSpec(s, t).Ok?
    ensures var i := FirstStop(s, t, 0).value;
      var k := LocateSpec(s, t).value;
      i + 1 < |s| && s[i] <= t < s[i + 1] &&
      (forall j :: 0 <= j < i ==> !(s[j] <= t < s[j + 1])) &&
      (k == i || k == i + 1) &&
      (k == i <==> t - s[i] <= s[i + 1] - t) &&
      -(s[i + 1] - s[i]) / 2.0 <= s[k] - t <= (s[i + 1] - s[i]) / 2.0
  {
    var i := FirstStop(s, t, 0).value;
    forall j | 0 <= j < i ensures !(s[j] <= t < s[j + 1]) {
      assert !Stops(s, t, j);
    }
  }

  /** If the first radius is at or below the target and the last above it, a
      stop exists before the last position. */
  lemma {:induction false} StopBeforeEnd(s: seq<real>, t: real, from: nat)
    requires from < |s| && s[from] <= t < s[|s| - 1]
    ensures FirstStop(s, t, from).Some? && FirstStop(s, t, from).value + 1 < |s|
    decreases |s| - from
  {
    if !Stops(s, t, from) {
      StopBeforeEnd(s, t, from + 1);
    }
  }

  /** A target inside the profile's span, s[0] <= t < s[last], is always
      located; this holds whatever the order of the radii. */
  lemma InRangeLocated(s: seq<real>, t: real)
    requires |s| > 0 && s[0] <= t < s[|s| - 1]
    ensures LocateSpec(s, t).Ok?
  {
    StopBeforeEnd(s, t, 0);
  }

  /** For nondecreasing radii and a target inside the span, the located radius
      is nearest to the target among all radii. */
  lemma SortedLocatesNearest(s: seq<real>, t: real)
    requires Nondecreasing(s)
    requires |s| > 0 && s[0] <= t < s[|s| - 1]
    ensures LocateSpec(s, t).Ok?
    ensures var k := LocateSpec(s, t).value;
      forall j :: 0 <= j < |s| ==> Abs(s[k] - t) <= Abs(s[j] - t)
  {
    InRangeLocated(s, t);
    var i := FirstStop(s, t, 0).value;
    var k := LocateSpec(s, t).value;
    forall j | 0 <= j < |s|
      ensures Abs(s[k] - t) <= Abs(s[j] - t)
    {
      if j <= i {
        assert s[j] <= s[i];
      } else {
        assert s[i + 1] <= s[j];
      }
    }
  }

  /** An exact match with a radius below the last one is returned as is. */
  lemma ExactMatch(s: seq<real>, j: nat)
    requires StrictlyIncreasing(s)
    requires j + 1 < |s|
    ensures LocateSpec(s, s[j]) == Ok(j)
  {
    var t := s[j];
    assert Stops(s, t, j);
    assert FirstStop(s, t, 0).value <= j;
  }

  /** A target strictly below every radius of a nondecreasing column, such as
      a thickness larger than the surface radius over a profile starting at
      radius 0, finds no bracket. */
  lemma {:induction false} TooThick(s: seq<real>, d: real)
    requires Nondecreasing(s)
    requires |s| > 0 && d > s[|s| - 1] - s[0]
    ensures LocateSpec(s, s[|s| - 1] - d) == Err(NoBracket)
  {
    var t := s[|s| - 1] - d;
    assert forall j :: 0 <= j < |s| ==> !Stops(s, t, j) by {
      forall j | 0 <= j < |s| ensures !Stops(s, t, j) {
        assert s[0] <= s[j];
      }
    }
    NoStopNone(s, t, 0);
  }

  /** With no stopping position, the scan finds nothing. */
  lemma {:induction false} NoStopNone(s: seq<real>, t: real, from: nat)
    requires from <= |s|
    requires forall j :: from <= j < |s| ==> !Stops(s, t, j)
    ensures FirstStop(s, t, from).None?
    decreases |s| - from
  {
    if from < |s| {
      NoStopNone(s, t, from + 1);
    }
  }

  /** A thickness of zero or less over a nondecreasing column puts the target
      at or above the surface radius, and the scan runs past the end. */
  lemma NotThick(s: seq<real>, d: real)
    requires Nondecreasing(s)
    requires |s| > 0 && d <= 0.0
    ensures LocateSpec(s, s[|s| - 1] - d) == Err(IndexPastEnd)
  {
    var t := s[|s| - 1] - d;
    assert Stops(s, t, |s| - 1);
  }

  /** With a positive thickness measured from the last radius, the scan never
      reads past the end. */
  lemma PositiveThicknessInBounds(s: seq<real>, d: real)
    requires |s| > 0 && d > 0.0
    ensures LocateSpec(s, s[|s| - 1] - d) != Err(IndexPastEnd)
  {
  }

  /** The tie-break on radii 0, 10, 20, 30 and target 15: the lower index wins. */
  lemma TieBreakExample()
    ensures LocateSpec([0.0, 10.0, 20.0, 30.0], 15.0) == Ok(1)
  {
    var s := [0.0, 10.0, 20.0, 30.0];
    assert !Stops(s, 15.0, 0);
    assert Stops(s, 15.0, 1);
  }
}
