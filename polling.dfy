/**
 * The polling wrappers `image_find` and `image_vanish`: deadline-bounded
 * retry loops around single-match search. Wall-clock time is a sequence of
 * readings of `now()` (one before the loop, one after each search) and each
 * search consumes the next capture outcome.
 */
module Polling {
  import opened Wrappers
  import opened Geometry
  import opened SingleMatch

  predicate ValidShots(shots: seq<Screenshot>)
  {
    forall k :: 0 <= k < |shots| ==> ValidShot(shots[k])
  }

  /**
   * The clock eventually reads at or past `deadline`, and there is a capture
   * for every search made before that reading.
   */
  predicate ClockReaches(clock: seq<real>, shots: seq<Screenshot>, deadline: real)
  {
    |clock| > 0 && clock[|clock| - 1] >= deadline && |shots| >= |clock| - 1
  }

  /** `image_find`'s test of a search result: only `x` is compared with -1. */
  predicate HasX(loc: Location)
  {
    loc.x != -1
  }

  /** `image_vanish`'s test: present unless `x` or `y` is -1. */
  predicate Present(loc: Location)
  {
    loc.x != -1 && loc.y != -1
  }

  /** What `match_template` answers for each capture in turn. */
  ghost function Searches(pattern: Pattern, region: Rectangle, shots: seq<Screenshot>): (results: seq<Location>)
    requires ValidShots(shots)
    ensures |results| == |shots|
    ensures forall k :: 0 <= k < |shots| ==> results[k] == MatchTemplate(pattern, Some(region), shots[k])
  {
    seq(|shots|, k requires 0 <= k < |shots| => MatchTemplate(pattern, Some(region), shots[k]))
  }

  /**
   * Search `k` runs (every reading up to `k` is before the deadline), every
   * earlier result failed `image_find`'s test, and result `k` passes it.
   */
  ghost predicate FindsAt(clock: seq<real>, results: seq<Location>, deadline: real, k: nat)
  {
    k < |clock| && k < |results| &&
    (forall j :: 0 <= j <= k ==> clock[j] < deadline) &&
    (forall j :: 0 <= j < k ==> !HasX(results[j])) &&
    HasX(results[k])
  }

  /**
   * Reading `k` is the first at or past the deadline and no result before it
   * passed `image_find`'s test.
   */
  ghost predicate FindExpiresAt(clock: seq<real>, results: seq<Location>, deadline: real, k: nat)
  {
    k < |clock| && k <= |results| && clock[k] >= deadline &&
    (forall j :: 0 <= j < k ==> clock[j] < deadline && !HasX(results[j]))
  }

  /** The two ways `image_find`'s loop can end exclude each other. */
  lemma FindOutcomesExclusive(clock: seq<real>, results: seq<Location>, deadline: real, k1: nat, k2: nat)
    ensures !(FindsAt(clock, results, deadline, k1) && FindExpiresAt(clock, results, deadline, k2))
  {
  }

  /**
   * `datetime.timedelta(seconds=t)`: the duration in whole microseconds,
   * rounded to the nearest one with ties going to the even count.
   */
  function Microseconds(seconds: real): (n: int)
    ensures n as real - 0.5 <= seconds * 1000000.0 <= n as real + 0.5
    ensures seconds * 1000000.0 == n as real - 0.5 || seconds * 1000000.0 == n as real + 0.5 ==> n % 2 == 0
  {
    var scaled := seconds * 1000000.0;
    var below := scaled.Floor;
    var fraction := scaled - below as real;
    if fraction < 0.5 then below
    else if fraction > 0.5 then below + 1
    else if below % 2 == 0 then below
    else below + 1
  }

  /** `start + timedelta(seconds=seconds)`. */
  function Deadline(start: real, seconds: real): real
  {
    start + Microseconds(seconds) as real / 1000000.0
  }

  /**
   * A timeout of at most half a microsecond rounds to an empty duration, so
   * the deadline is not after the start.
   */
  lemma ShortTimeoutRoundsToZero(start: real, seconds: real)
    requires seconds <= 0.0000005
    ensures Microseconds(seconds) <= 0 && Deadline(start, seconds) <= start
  {
  }

  /**
   * `image_find`: nothing when the pattern does not fit the region; otherwise
   * the first search result whose `x` is not -1, or nothing once the clock
   * reaches `start + timedelta(seconds=timeout)` (the configured default when
   * no timeout is given).
   */
  method ImageFind(pattern: Pattern, timeout: Option<real>, autoWaitTimeout: real, region: Rectangle,
                   clock: seq<real>, shots: seq<Screenshot>) returns (r: Option<Location>)
    requires ValidShots(shots)
    requires |clock| > 0
    requires ClockReaches(clock, shots, Deadline(clock[0], if timeout.Some? then timeout.value else autoWaitTimeout))
    ensures !PatternSizeCorrect(pattern, region) ==> r == None
    ensures (if timeout.Some? then timeout.value else autoWaitTimeout) <= 0.0000005 ==> r == None
    ensures r.Some? ==>
              var deadline := Deadline(clock[0], if timeout.Some? then timeout.value else autoWaitTimeout);
              var results := Searches(pattern, region, shots);
              exists k: nat :: FindsAt(clock, results, deadline, k) && r.value == results[k]
    ensures r.None? && PatternSizeCorrect(pattern, region) ==>
              var deadline := Deadline(clock[0], if timeout.Some? then timeout.value else autoWaitTimeout);
              exists k: nat :: FindExpiresAt(clock, Searches(pattern, region, shots), deadline, k)
  {
    if !PatternSizeCorrect(pattern, region) {
      return None;
    }
    var seconds := if timeout.Some? then timeout.value else autoWaitTimeout;
    var startTime := clock[0];
    var endTime := Deadline(startTime, seconds);
    if seconds <= 0.0000005 {
      ShortTimeoutRoundsToZero(startTime, seconds);
    }
    r := SearchUntilFound(pattern, region, clock, shots, endTime);
  }

  /** The loop of `image_find`: search until a result has an `x` other than -1 or the deadline passes. */
  method SearchUntilFound(pattern: Pattern, region: Rectangle, clock: seq<real>, shots: seq<Screenshot>, endTime: real)
    returns (r: Option<Location>)
    requires ValidShots(shots) && ClockReaches(clock, shots, endTime)
    ensures clock[0] >= endTime ==> r == None
    ensures r.Some? ==>
              var results := Searches(pattern, region, shots);
              exists k: nat :: FindsAt(clock, results, endTime, k) && r.value == results[k]
    ensures r.None? ==> exists k: nat :: FindExpiresAt(clock, Searches(pattern, region, shots), endTime, k)
  {
    var i := 0;
    var startTime := clock[0];
    ghost var results := Searches(pattern, region, shots);
    while startTime < endTime
      invariant 0 <= i < |clock| && startTime == clock[i]
      invariant forall j :: 0 <= j < i ==> clock[j] < endTime && !HasX(results[j])
      decreases |clock| - i
    {
      var pos := MatchTemplate(pattern, Some(region), shots[i]);
      assert pos == results[i];
      i := i + 1;
      startTime := clock[i];
      if pos.x != -1 {
        assert FindsAt(clock, results, endTime, i - 1);
        return Some(pos);
      }
    }
    assert FindExpiresAt(clock, results, endTime, i);
    return None;
  }

  /**
   * Search `k` runs, every earlier search still saw the pattern, and search
   * `k` does not.
   */
  ghost predicate VanishesAt(clock: seq<real>, results: seq<Location>, deadline: real, k: nat)
  {
    k < |clock| && k < |results| &&
    (forall j :: 0 <= j <= k ==> clock[j] < deadline) &&
    (forall j :: 0 <= j < k ==> Present(results[j])) &&
    !Present(results[k])
  }

  /**
   * Reading `k` is the first at or past the deadline and every search
   * before it still saw the pattern.
   */
  ghost predicate VanishExpiresAt(clock: seq<real>, results: seq<Location>, deadline: real, k: nat)
  {
    k < |clock| && k <= |results| && clock[k] >= deadline &&
    (forall j :: 0 <= j < k ==> clock[j] < deadline && Present(results[j]))
  }

  /** The two ways `image_vanish`'s loop can end exclude each other. */
  lemma VanishOutcomesExclusive(clock: seq<real>, results: seq<Location>, deadline: real, k1: nat, k2: nat)
    ensures !(VanishesAt(clock, results, deadline, k1) && VanishExpiresAt(clock, results, deadline, k2))
  {
  }

  /**
   * `image_vanish`: nothing when the pattern does not fit the region;
   * otherwise `True` as soon as a search no longer sees the pattern, and
   * nothing (never `False`) when the deadline passes while it is still seen.
   */
  method ImageVanish(pattern: Pattern, timeout: real, region: Rectangle,
                     clock: seq<real>, shots: seq<Screenshot>) returns (r: Option<bool>)
    requires ValidShots(shots)
    requires |clock| > 0 && ClockReaches(clock, shots, Deadline(clock[0], timeout))
    ensures r != Some(false)
    ensures !PatternSizeCorrect(pattern, region) ==> r == None
    ensures timeout <= 0.0000005 ==> r == None
    ensures r == Some(true) ==>
              var deadline := Deadline(clock[0], timeout);
              exists k: nat :: VanishesAt(clock, Searches(pattern, region, shots), deadline, k)
    ensures r == None && PatternSizeCorrect(pattern, region) ==>
              var deadline := Deadline(clock[0], timeout);
              exists k: nat :: VanishExpiresAt(clock, Searches(pattern, region, shots), deadline, k)
  {
    if !PatternSizeCorrect(pattern, region) {
      return None;
    }
    var startTime := clock[0];
    var endTime := Deadline(startTime, timeout);
    if timeout <= 0.0000005 {
      ShortTimeoutRoundsToZero(startTime, timeout);
    }
    var patternFound := WaitWhilePresent(pattern, region, clock, shots, endTime);
    return if patternFound then None else Some(true);
  }

  /** The loop of `image_vanish`: search until the pattern is gone or the deadline passes. */
  method WaitWhilePresent(pattern: Pattern, region: Rectangle, clock: seq<real>, shots: seq<Screenshot>, endTime: real)
    returns (patternFound: bool)
    requires ValidShots(shots) && ClockReaches(clock, shots, endTime)
    ensures clock[0] >= endTime ==> patternFound
    ensures patternFound ==> exists k: nat :: VanishExpiresAt(clock, Searches(pattern, region, shots), endTime, k)
    ensures !patternFound ==> exists k: nat :: VanishesAt(clock, Searches(pattern, region, shots), endTime, k)
  {
    patternFound := true;
    var i := 0;
    var startTime := clock[0];
    ghost var results := Searches(pattern, region, shots);
    ghost var vanishedAt: nat := 0;
    while patternFound && startTime < endTime
      invariant 0 <= i < |clock| && startTime == clock[i]
      invariant forall j :: 0 <= j < i ==> clock[j] < endTime
      invariant patternFound ==> forall j :: 0 <= j < i ==> Present(results[j])
      invariant !patternFound ==> VanishesAt(clock, results, endTime, vanishedAt)
      decreases |clock| - i
    {
      var imageFound := MatchTemplate(pattern, Some(region), shots[i]);
      assert imageFound == results[i];
      patternFound := imageFound.x != -1 && imageFound.y != -1;
      vanishedAt := i;
      i := i + 1;
      startTime := clock[i];
    }
    if patternFound {
      assert VanishExpiresAt(clock, results, endTime, i);
    }
  }
}
