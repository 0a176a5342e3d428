/** The stroke detector of the rowing computer: an accelerometer sample
    above the threshold starts a stroke, strokes closer than the debounce
    delay to the previous in-stroke sample are ignored, and the stroke
    rate is computed from the strokes of the last ten seconds.

    The magnitude of the acceleration is abstracted to whether it is
    above the 2.0 m/s^2 threshold; `ticks_ms` is an injected clock and
    `ticks_diff` plain subtraction on two times (see `SinceLast` for None).
 */
module Stroke {
  import opened Wrappers
  import opened PyFloat
  import opened PyText

  /** Strokes older than this many ms are forgotten. */
  const Window: int := 10000
  /** A new stroke must start more than this many ms after the last
      in-stroke sample. */
  const Delay: int := 200
  /** The displayed rate never reaches this. */
  const RateCap: int := 100

  datatype Tracker = Tracker(
    strokes: seq<int>,           // start times of the recent strokes, in ms
    inStroke: bool,              // the last sample was above the threshold
    lastInStroke: Option<int>)   // time of the last sample above the threshold

  function Init(): (t: Tracker)
    ensures t.strokes == [] && !t.inStroke && t.lastInStroke.None?
  {
    Tracker([], false, None)
  }

  predicate Increasing(s: seq<int>) {
    forall i, j :: 0 <= i < j < |s| ==> s[i] < s[j]
  }

  /** The strokes kept at time `now`: those at most `Window` ms old, in
      their order. */
  function Recent(s: seq<int>, now: int): (r: seq<int>)
    ensures forall x :: x in r <==> x in s && now - x <= Window
    ensures Increasing(s) ==> Increasing(r)
    ensures |r| <= |s|
  {
    if |s| == 0 then []
    else
      var rest := Recent(s[1..], now);
      assert forall x :: x in s[1..] ==> x in s;
      if now - s[0] > Window then rest
      else
        assert Increasing(s) ==> Increasing([s[0]] + rest) by {
          if Increasing(s) { ConsIncreasing(s, rest); }
        }
        [s[0]] + rest
  }

  /** Keeping the head of an increasing sequence in front of a subset of
      its tail keeps it increasing. */
  lemma ConsIncreasing(s: seq<int>, rest: seq<int>)
    requires |s| > 0 && Increasing(s) && Increasing(rest)
    requires forall x :: x in rest ==> x in s[1..]
    ensures Increasing([s[0]] + rest)
  {
    forall x | x in rest ensures s[0] < x {
      var k :| 0 <= k < |s[1..]| && s[1..][k] == x;
      assert s[k + 1] == x;
    }
    var r := [s[0]] + rest;
    forall i, j | 0 <= i < j < |r| ensures r[i] < r[j] {
      if i == 0 { assert r[j] == rest[j - 1] && rest[j - 1] in rest; }
      else { assert r[i] == rest[i - 1] && r[j] == rest[j - 1]; }
    }
  }

  /** The pruning loop: indices are visited from the last to the first and
      each stroke older than the window is deleted in place. */
  method Prune(s: seq<int>, now: int) returns (r: seq<int>)
    ensures r == Recent(s, now)
  {
    r := s;
    var idx := |s|;
    while idx > 0
      invariant 0 <= idx <= |s|
      invariant r == s[..idx] + Recent(s[idx..], now)
    {
      idx := idx - 1;
      assert r[idx] == s[idx];
      PruneStep(s, r, idx, now);
      if now - r[idx] > Window {
        r := r[..idx] + r[idx + 1..];
      }
    }
    assert s[..0] == [] && s[0..] == s;
  }

  /** One step of the pruning loop: deleting or keeping index `idx`
      moves the boundary between the visited and the unvisited strokes. */
  lemma PruneStep(s: seq<int>, r: seq<int>, idx: int, now: int)
    requires 0 <= idx < |s|
    requires r == s[..idx + 1] + Recent(s[idx + 1..], now)
    ensures now - s[idx] > Window ==> r[..idx] + r[idx + 1..] == s[..idx] + Recent(s[idx..], now)
    ensures now - s[idx] <= Window ==> r == s[..idx] + Recent(s[idx..], now)
  {
    assert s[idx..][1..] == s[idx + 1..];
    assert s[..idx + 1] == s[..idx] + [s[idx]];
  }

  /** The time since the last in-stroke sample, as `ticks_diff` gives
      it. Before the first such sample the source passes `None`, which
      `ticks_diff` does not check: it reads the object's bits as a small
      int, so the device gets a number that depends on the tick and on
      where `None` lives, here the parameter `noneDiff`. */
  function SinceLast(t: Tracker, now: int, noneDiff: int): (d: int)
    ensures t.lastInStroke.Some? ==> d + t.lastInStroke.value == now
    ensures t.lastInStroke.None? ==> d == noneDiff
  {
    match t.lastInStroke
    case Some(last) => now - last
    case None => noneDiff
  }

  /** One sample at time `now`: the new state and whether a stroke was
      counted (the `STROKE` alert). `noneDiff` is what `ticks_diff`
      returns for a `None` last time. */
  function DataTick(t: Tracker, above: bool, now: int, noneDiff: int): (r: (Tracker, bool))
    ensures t.lastInStroke.Some? ==>
              (r.1 <==> above && !t.inStroke && now - t.lastInStroke.value > Delay)
    ensures t.lastInStroke.None? ==> (r.1 <==> above && !t.inStroke && noneDiff > Delay)
    ensures r.0.inStroke == above
    ensures above ==> r.0.lastInStroke == Some(now)
    ensures !above ==> r.0.lastInStroke == t.lastInStroke
    ensures r.1 ==> now in r.0.strokes
    ensures forall x :: x in r.0.strokes <==> (x in t.strokes || (r.1 && x == now)) && now - x <= Window
  {
    var counted := above && !t.inStroke && SinceLast(t, now, noneDiff) > Delay;
    var added := if counted then t.strokes + [now] else t.strokes;
    var last := if above then Some(now) else t.lastInStroke;
    (Tracker(Recent(added, now), above, last), counted)
  }

  /** Whatever `ticks_diff` makes of `None`, the first sample above the
      threshold after start-up does not disturb the strokes: there are
      none yet, and at most this one is counted. */
  lemma FirstStroke(now: int, noneDiff: int)
    ensures var r := DataTick(Init(), true, now, noneDiff);
            && r.0.lastInStroke == Some(now)
            && (r.1 <==> noneDiff > Delay)
            && r.0.strokes == (if noneDiff > Delay then [now] else [])
  {
  }

  /** The state the tracker keeps between samples at time `now`: strokes
      strictly increasing, none older than the window or in the future,
      and none after the last in-stroke time. */
  predicate Valid(t: Tracker, now: int) {
    && Increasing(t.strokes)
    && (forall i :: 0 <= i < |t.strokes| ==> now - Window <= t.strokes[i] <= now)
    && (|t.strokes| > 0 ==> t.lastInStroke.Some? && t.strokes[|t.strokes| - 1] <= t.lastInStroke.value)
    && (t.lastInStroke.Some? ==> t.lastInStroke.value <= now)
  }

  lemma InitValid(now: int)
    ensures Valid(Init(), now)
  {
  }

  /** A sample taken no earlier than the previous one keeps the tracker
      valid. */
  lemma TickValid(t: Tracker, above: bool, prev: int, now: int, noneDiff: int)
    requires Valid(t, prev) && prev <= now
    ensures Valid(DataTick(t, above, now, noneDiff).0, now)
  {
    var counted := DataTick(t, above, now, noneDiff).1;
    var added := if counted then t.strokes + [now] else t.strokes;
    AddedIncreasing(t, prev, now, counted);
    var r := DataTick(t, above, now, noneDiff).0;
    assert r.strokes == Recent(added, now);
    KeptInWindow(added, now);
    if |r.strokes| > 0 && !above {
      LastKeptBefore(t, prev, r.strokes);
    }
  }

  /** A stroke counted at `now` comes after every stored one. */
  lemma AddedIncreasing(t: Tracker, prev: int, now: int, counted: bool)
    requires Valid(t, prev) && prev <= now
    requires counted && t.lastInStroke.Some? ==> now > t.lastInStroke.value
    ensures var added := if counted then t.strokes + [now] else t.strokes;
            Increasing(added) && forall x :: x in added ==> x <= now
  {
    if counted {
      forall i | 0 <= i < |t.strokes| ensures t.strokes[i] < now {
        assert t.strokes[i] <= t.strokes[|t.strokes| - 1];
      }
    }
  }

  lemma KeptInWindow(s: seq<int>, now: int)
    requires forall x :: x in s ==> x <= now
    ensures var r := Recent(s, now); forall i :: 0 <= i < |r| ==> now - Window <= r[i] <= now
  {
    var r := Recent(s, now);
    forall i | 0 <= i < |r| ensures now - Window <= r[i] <= now {
      assert r[i] in r;
    }
  }

  /** Strokes kept from a valid state end no later than its last
      in-stroke time. */
  lemma LastKeptBefore(t: Tracker, prev: int, kept: seq<int>)
    requires Valid(t, prev) && |kept| > 0
    requires forall x :: x in kept ==> x in t.strokes
    ensures t.lastInStroke.Some? && kept[|kept| - 1] <= t.lastInStroke.value
  {
    var x := kept[|kept| - 1];
    assert x in kept;
    var k :| 0 <= k < |t.strokes| && t.strokes[k] == x;
    assert t.strokes[k] <= t.strokes[|t.strokes| - 1];
  }

  // ---------------------------------------------------------------------
  // Rate

  /** Strokes per minute over the stored strokes: 0 for fewer than two,
      a ZeroDivisionError when the first and last coincide, otherwise the
      whole number of strokes per minute, shown as at most 99. */
  function StrokeRate(s: seq<int>): (r: Result<int>)
    ensures |s| < 2 ==> r == Ok(0)
    ensures |s| >= 2 ==> (r.Err? <==> s[|s| - 1] == s[0])
    ensures r.Err? ==> r.error == ZeroDivisionError
    ensures r.Ok? ==> r.value < RateCap
    ensures |s| >= 2 && s[|s| - 1] < s[0] ==> r.Ok? && r.value <= 0
    ensures |s| >= 2 && s[|s| - 1] > s[0] ==>
              var w := s[|s| - 1] - s[0];
              && r.Ok? && r.value >= 0
              && (60000 * |s| >= RateCap * w ==> r.value == RateCap - 1)
              && (60000 * |s| < RateCap * w ==> r.value * w <= 60000 * |s| < r.value * w + w)
  {
    if |s| < 2 then Ok(0)
    else
      var window := s[|s| - 1] - s[0];
      if window == 0 then Err(ZeroDivisionError)
      else
        // int(60000. / window * n): the real quotient truncated toward zero
        var sr := if window > 0 then TruncDiv(60000 * |s|, window) else -TruncDiv(60000 * |s|, -window);
        assert window > 0 && 60000 * |s| >= RateCap * window ==> sr >= RateCap by {
          if window > 0 && 60000 * |s| >= RateCap * window {
            QuotientAtLeast(60000 * |s|, window, RateCap);
          }
        }
        Ok(if sr >= RateCap then RateCap - 1 else sr)
  }

  /** A quotient reaches `k` once the dividend is `k` times the divisor. */
  lemma QuotientAtLeast(a: nat, w: int, k: nat)
    requires w > 0 && a >= k * w
    ensures TruncDiv(a, w) >= k
  {
    var q := TruncDiv(a, w);
    if q < k {
      assert (k - (q + 1)) * w >= 0 by { NonNegProduct(k - (q + 1), w); }
    }
  }

  /** `in_motion`: the stroke rate is above 0. */
  function InMotion(s: seq<int>): (r: Result<bool>)
    ensures r.Err? <==> StrokeRate(s).Err?
    ensures r.Err? ==> r.error == ZeroDivisionError
    ensures r.Ok? ==> (r.value <==> StrokeRate(s).value > 0)
  {
    var rate :- StrokeRate(s);
    Ok(rate > 0)
  }

  /** For a valid tracker the rate never fails and the boat is in motion
      exactly when two strokes fall within the last ten seconds. */
  lemma MotionOfValid(t: Tracker, now: int)
    requires Valid(t, now)
    ensures StrokeRate(t.strokes).Ok? && 0 <= StrokeRate(t.strokes).value < RateCap
    ensures InMotion(t.strokes) == Ok(|t.strokes| >= 2)
  {
    var s := t.strokes;
    if |s| >= 2 {
      var w := s[|s| - 1] - s[0];
      assert 0 < w <= Window;
    }
  }
}
