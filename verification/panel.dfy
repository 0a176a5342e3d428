/** The helpers of the main program that feed the display and the power
    button: the battery table lookup, the split of the chronometer's ms
    into hours, minutes, seconds and tenths, and the long-press detector
    that puts the device to sleep.

    Battery voltages are integer millivolts; `ticks_ms` is an injected
    clock and `ticks_diff` plain subtraction.
 */
module Panel {
  import opened Wrappers
  import opened PyText
  import opened PyFloat

  // ---------------------------------------------------------------------
  // Battery

  /** A row of the battery table: at or above `mv` millivolts the battery
      is shown as `perc` percent. */
  datatype Row = Row(mv: int, perc: int)

  const VoltPerc: seq<Row> := [
    Row(4200, 100), Row(4100, 90), Row(4000, 80), Row(3900, 60), Row(3800, 40),
    Row(3700, 20), Row(3600, 10), Row(3500, 5), Row(3000, 0)]

  /** Thresholds strictly falling and percents not rising down the table. */
  predicate Descending(t: seq<Row>) {
    forall i, j :: 0 <= i < j < |t| ==> t[j].mv < t[i].mv && t[j].perc <= t[i].perc
  }

  lemma TableDescending()
    ensures Descending(VoltPerc)
  {
  }

  /** The percent of the first row whose threshold the voltage reaches. */
  function Percent(t: seq<Row>, v: int): (r: Option<int>)
    ensures r.None? <==> forall i :: 0 <= i < |t| ==> v < t[i].mv
    ensures r.Some? ==> exists i :: 0 <= i < |t| && t[i].mv <= v && r.value == t[i].perc
                                    && forall j :: 0 <= j < i ==> v < t[j].mv
    decreases |t|
  {
    if |t| == 0 then None
    else if t[0].mv <= v then Some(t[0].perc)
    else
      var r := Percent(t[1..], v);
      FirstRowShifts(t, v, r);
      r
  }

  /** A row found past the first, when the first is above the voltage, is
      the first row of the whole table the voltage reaches. */
  lemma FirstRowShifts(t: seq<Row>, v: int, r: Option<int>)
    requires |t| > 0 && v < t[0].mv
    requires r.None? <==> forall i :: 0 <= i < |t[1..]| ==> v < t[1..][i].mv
    requires r.Some? ==> exists i :: 0 <= i < |t[1..]| && t[1..][i].mv <= v && r.value == t[1..][i].perc
                                     && forall j :: 0 <= j < i ==> v < t[1..][j].mv
    ensures r.None? <==> forall i :: 0 <= i < |t| ==> v < t[i].mv
    ensures r.Some? ==> exists i :: 0 <= i < |t| && t[i].mv <= v && r.value == t[i].perc
                                    && forall j :: 0 <= j < i ==> v < t[j].mv
  {
    assert forall i :: 1 <= i < |t| ==> t[i] == t[1..][i - 1];
    if r.Some? {
      var i :| 0 <= i < |t[1..]| && t[1..][i].mv <= v && r.value == t[1..][i].perc
               && forall j :: 0 <= j < i ==> v < t[1..][j].mv;
      assert t[i + 1] == t[1..][i];
      forall j | 0 <= j < i + 1 ensures v < t[j].mv {
        if j > 0 { assert t[j] == t[1..][j - 1]; }
      }
    }
  }

  /** The loop over `VOLT_PERC` with its `break`. */
  method BatteryPercent(v: int) returns (bp: Option<int>)
    ensures bp == Percent(VoltPerc, v)
  {
    bp := None;
    var table := VoltPerc;
    var i := 0;
    while i < |table|
      invariant 0 <= i <= |table|
      invariant bp.None?
      invariant Percent(table, v) == Percent(table[i..], v)
    {
      PercentFrom(table, i, v);
      if v >= table[i].mv {
        bp := Some(table[i].perc);
        return;
      }
      i := i + 1;
    }
  }

  /** One step of the scan: the row at `i` matches, or the scan moves on. */
  lemma PercentFrom(t: seq<Row>, i: nat, v: int)
    requires i < |t|
    ensures t[i].mv <= v ==> Percent(t[i..], v) == Some(t[i].perc)
    ensures v < t[i].mv ==> Percent(t[i..], v) == Percent(t[i + 1..], v)
  {
    assert t[i..][0] == t[i];
    assert t[i..][1..] == t[i + 1..];
  }

  /** None is below every percent. */
  predicate AtMost(a: Option<int>, b: Option<int>) {
    a.None? || (b.Some? && a.value <= b.value)
  }

  /** A higher voltage never shows a lower percent, and below the lowest
      threshold there is no percent at all. */
  lemma PercentMonotone(v1: int, v2: int)
    requires v1 <= v2
    ensures AtMost(Percent(VoltPerc, v1), Percent(VoltPerc, v2))
    ensures v1 < 3000 ==> Percent(VoltPerc, v1).None?
    ensures v1 >= 3000 ==> Percent(VoltPerc, v1).Some?
  {
    TableDescending();
    Monotone(VoltPerc, v1, v2);
  }

  lemma {:induction false} Monotone(t: seq<Row>, v1: int, v2: int)
    requires Descending(t) && v1 <= v2
    ensures AtMost(Percent(t, v1), Percent(t, v2))
    decreases |t|
  {
    if |t| > 0 && t[0].mv > v1 {
      var rest := t[1..];
      assert Descending(rest) by {
        forall i, j | 0 <= i < j < |rest| ensures rest[j].mv < rest[i].mv && rest[j].perc <= rest[i].perc {
          assert rest[i] == t[i + 1] && rest[j] == t[j + 1];
        }
      }
      if t[0].mv > v2 {
        Monotone(rest, v1, v2);
      } else {
        var r := Percent(rest, v1);
        if r.Some? {
          var i :| 0 <= i < |rest| && rest[i].mv <= v1 && r.value == rest[i].perc;
          assert rest[i] == t[i + 1];
        }
      }
    }
  }

  // ---------------------------------------------------------------------
  // Chronometer display

  const MsPerHour: int := 3_600_000
  const MsPerMin: int := 60_000
  const MsPerSec: int := 1000

  datatype Split = Split(hrs: int, mins: int, sec: int, rem: int)

  /** The display split: each part is `int()` of a division, so it is
      truncated toward zero, and its ms are subtracted before the next. */
  function SplitMs(ms: int): (r: Split)
    ensures r.hrs * MsPerHour + r.mins * MsPerMin + r.sec * MsPerSec + r.rem == ms
    ensures ms >= 0 ==> r.hrs >= 0 && 0 <= r.mins < 60 && 0 <= r.sec < 60 && 0 <= r.rem < 1000
    ensures ms < 0 ==> r.hrs <= 0 && -60 < r.mins <= 0 && -60 < r.sec <= 0 && -1000 < r.rem <= 0
  {
    var hrs := TruncDiv(ms, MsPerHour);
    var m1 := ms - hrs * MsPerHour;
    var mins := TruncDiv(m1, MsPerMin);
    var m2 := m1 - mins * MsPerMin;
    var sec := TruncDiv(m2, MsPerSec);
    Split(hrs, mins, sec, m2 - sec * MsPerSec)
  }

  /** Python's `round(n / 100)`: to the nearest integer, ties to even. */
  function RoundHundredth(n: int): (q: int)
    ensures 2 * (n - 100 * q) <= 100 && -100 <= 2 * (n - 100 * q)
    ensures 2 * (n - 100 * q) == 100 ==> q % 2 == 0
    ensures 2 * (n - 100 * q) == -100 ==> q % 2 == 0
  {
    var f := n / 100;
    var r := n - 100 * f;
    if 2 * r < 100 then f
    else if 2 * r > 100 then f + 1
    else if f % 2 == 0 then f else f + 1
  }

  /** The tenths the display shows: `round(rem / 100)`. */
  function Tenths(rem: int): (t: int)
    ensures 0 <= rem < 1000 ==> 0 <= t <= 10
    ensures 2 * (rem - 100 * t) <= 100 && -100 <= 2 * (rem - 100 * t)
  {
    RoundHundredth(rem)
  }

  /** `'{:02}'` of an int: at least two characters, zero-padded. */
  function Pad2(n: int): (s: string)
    ensures 0 <= n < 10 ==> s == "0" + Decimal(n)
    ensures !(0 <= n < 10) ==> s == Decimal(n)
  {
    if 0 <= n < 10 then "0" + Decimal(n) else Decimal(n)
  }

  /** The chronometer text as written: `h:mm:ss.t` with `t` the rounded
      tenths. */
  function ChronoTextAsWritten(ms: int): (r: string)
    ensures ms >= 0 ==> |r| >= 2 && (r[|r| - 2] == '.' <==> SplitMs(ms).rem < 950)
  {
    var p := SplitMs(ms);
    var t := Tenths(p.rem);
    var r := Decimal(p.hrs) + ":" + Pad2(p.mins) + ":" + Pad2(p.sec) + "." + Decimal(t);
    if ms < 0 then r
    else
      TenthsBelowTen(p.rem);
      TenthsField(t);
      r
  }

  /** The rounded tenths of a remainder stay a single digit exactly below
      950 ms. */
  lemma TenthsBelowTen(rem: int)
    requires 0 <= rem < 1000
    ensures Tenths(rem) < 10 <==> rem < 950
  {
  }

  /** The tenths field ends the text: one digit after the point below 10,
      and `10` at 10. */
  lemma TenthsField(t: int)
    requires 0 <= t <= 10
    ensures t < 10 ==> Decimal(t) == [DigitChar(t)]
    ensures t == 10 ==> Decimal(t) == "10"
  {
    if t == 10 {
      assert DecimalDigits(1) == "1";
      assert DecimalDigits(0) == "0";
    }
  }

  /** From 950 ms past a second the rounded tenths is 10, so the one-digit
      field shows two digits and the time reads as ten tenths. */
  lemma TenthsReachTen()
    ensures Tenths(950) == 10 && Tenths(999) == 10
    ensures SplitMs(950) == Split(0, 0, 0, 950)
    ensures ChronoTextAsWritten(950) == "0:00:00.10"
  {
    assert Decimal(0) == "0";
    assert Decimal(10) == "10" by {
      assert DecimalDigits(1) == "1";
      assert DecimalDigits(0) == "0";
    }
  }

  /** The chronometer text as evidently intended: the time is rounded to
      the nearest tenth before the split, so the tenths digit stays a
      single digit and carries into the seconds. */
  function ChronoText(ms: int): (r: (Split, string))
    requires ms >= 0
    ensures 0 <= r.0.rem < 10 && 0 <= r.0.sec < 60 && 0 <= r.0.mins < 60 && r.0.hrs >= 0
    ensures var shown := r.0.hrs * MsPerHour + r.0.mins * MsPerMin + r.0.sec * MsPerSec + r.0.rem * 100;
            2 * (ms - shown) <= 100 && -100 <= 2 * (ms - shown)
    ensures r.1 == Decimal(r.0.hrs) + ":" + Pad2(r.0.mins) + ":" + Pad2(r.0.sec) + "." + Decimal(r.0.rem)
  {
    var tenths := RoundHundredth(ms);
    var p := SplitMs(tenths * 100);
    // p.rem is a whole number of hundreds: the tenths digit
    var digit := tenths - p.hrs * 36000 - p.mins * 600 - p.sec * 10;
    DigitOfRounded(tenths, p.hrs, p.mins, p.sec, p.rem);
    var s := Split(p.hrs, p.mins, p.sec, digit);
    (s, Decimal(p.hrs) + ":" + Pad2(p.mins) + ":" + Pad2(p.sec) + "." + Decimal(digit))
  }

  /** Splitting a whole number of tenths leaves whole hundreds of ms. */
  lemma DigitOfRounded(t: int, hrs: int, mins: int, sec: int, rem: int)
    requires hrs * 3_600_000 + mins * 60_000 + sec * 1000 + rem == t * 100
    requires 0 <= rem < 1000
    ensures rem == 100 * (t - hrs * 36000 - mins * 600 - sec * 10)
    ensures 0 <= t - hrs * 36000 - mins * 600 - sec * 10 < 10
  {
  }

  /** The text as written and the corrected one agree exactly when the
      remainder is below 950 ms: then rounding the remainder alone gives
      the same digit as rounding the whole time; from 950 on the written
      one shows `10`. */
  lemma AsWrittenAgrees(ms: int)
    requires ms >= 0
    ensures ChronoTextAsWritten(ms) == ChronoText(ms).1 <==> SplitMs(ms).rem < 950
  {
    var p := SplitMs(ms);
    if p.rem < 950 {
      SameSplitBelow(ms);
    } else {
      var c := ChronoText(ms).1;
      CorrectedEnd(ms);
      assert ChronoTextAsWritten(ms)[|ChronoTextAsWritten(ms)| - 2] != '.';
    }
  }

  /** Below 950 ms past the second, rounding the whole time lands in the
      same second, on the digit the remainder rounds to. */
  lemma SameSplitBelow(ms: int)
    requires ms >= 0 && SplitMs(ms).rem < 950
    ensures var p := SplitMs(ms);
            ChronoText(ms).0 == Split(p.hrs, p.mins, p.sec, Tenths(p.rem))
  {
    var p := SplitMs(ms);
    var t := Tenths(p.rem);
    TenthsBelowTen(p.rem);
    var whole := p.hrs * 36000 + p.mins * 600 + p.sec * 10;
    RoundShift(p.rem, t, whole);
    SplitUnique(RoundHundredth(ms) * 100, Split(p.hrs, p.mins, p.sec, 100 * t));
    CorrectedSplit(ms);
  }

  /** The corrected split is the split of the rounded time, with the
      tenths digit in place of its remainder. */
  lemma CorrectedSplit(ms: int)
    requires ms >= 0
    ensures var tenths := RoundHundredth(ms);
            var q := SplitMs(tenths * 100);
            ChronoText(ms).0 == Split(q.hrs, q.mins, q.sec, tenths - q.hrs * 36000 - q.mins * 600 - q.sec * 10)
  {
  }

  /** The corrected text has the point second from the end. */
  lemma CorrectedEnd(ms: int)
    requires ms >= 0
    ensures var c := ChronoText(ms).1; |c| >= 2 && c[|c| - 2] == '.'
  {
    var r := ChronoText(ms);
    assert Decimal(r.0.rem) == [DigitChar(r.0.rem)];
  }

  /** Rounding is the same after adding a whole even number of hundreds,
      and the rounded value is the only one within half a hundred with
      ties to even. */
  lemma RoundShift(rem: int, t: int, whole: int)
    requires t == RoundHundredth(rem)
    requires whole % 2 == 0
    ensures RoundHundredth(100 * whole + rem) == whole + t
  {
    var q := RoundHundredth(100 * whole + rem);
    var d := q - (whole + t);
    assert -100 <= 100 * d <= 100;
  }

  /** For ms >= 0 the split with minutes and seconds in 0..59 and a
      remainder in 0..999 is the only one. */
  lemma SplitUnique(ms: int, s: Split)
    requires ms >= 0 && s.hrs >= 0 && 0 <= s.mins < 60 && 0 <= s.sec < 60 && 0 <= s.rem < 1000
    requires s.hrs * MsPerHour + s.mins * MsPerMin + s.sec * MsPerSec + s.rem == ms
    ensures SplitMs(ms) == s
  {
    var p := SplitMs(ms);
    assert p.hrs == s.hrs;
    assert p.mins == s.mins;
    assert p.sec == s.sec;
  }

  /** The corrected text always ends in a single tenths digit. */
  lemma ChronoTextOneDigit(ms: int)
    requires ms >= 0
    ensures var r := ChronoText(ms); |Decimal(r.0.rem)| == 1
  {
    var d := ChronoText(ms).0.rem;
    assert Decimal(d) == DecimalDigits(d) == [DigitChar(d)];
  }

  // ---------------------------------------------------------------------
  // Power button

  /** The long-press detector: the previous pin level and the time the
      current press started. */
  datatype Button = Button(prev: bool, pStart: Option<int>)

  /** Pressed for longer than this many ms, the release puts the device to
      sleep. */
  const LongPress: int := 2000

  function ButtonInit(): (b: Button)
    ensures !b.prev && b.pStart.None?
  {
    Button(false, None)
  }

  /** A press under way has a start time. */
  predicate ButtonValid(b: Button) {
    b.prev ==> b.pStart.Some?
  }

  /** One poll of the pin at time `now`: the new state and whether sleep
      is triggered. */
  function ButtonStep(b: Button, pressed: bool, now: int): (r: (Button, bool))
    requires ButtonValid(b)
    ensures ButtonValid(r.0) && r.0.prev == pressed
    ensures pressed && !b.prev ==> r.0.pStart == Some(now)
    ensures !(pressed && !b.prev) ==> r.0.pStart == b.pStart
    ensures r.1 <==> !pressed && b.prev && now - b.pStart.value > LongPress
  {
    var start := if pressed && !b.prev then Some(now) else b.pStart;
    var sleep := !pressed && b.prev && now - b.pStart.value > LongPress;
    (Button(pressed, start), sleep)
  }

  /** A poll: the pin level and when it was read. */
  datatype Poll = Poll(pressed: bool, at: int)

  function Replay(ps: seq<Poll>): (b: Button)
    ensures ButtonValid(b)
    decreases |ps|
  {
    if |ps| == 0 then ButtonInit()
    else ButtonStep(Replay(ps[..|ps| - 1]), ps[|ps| - 1].pressed, ps[|ps| - 1].at).0
  }

  /** The time of the last poll at which the pin went from released to
      pressed (the pin reads released before the first poll). */
  function LastRise(ps: seq<Poll>): Option<int>
    decreases |ps|
  {
    if |ps| == 0 then None
    else if ps[|ps| - 1].pressed && (|ps| == 1 || !ps[|ps| - 2].pressed) then Some(ps[|ps| - 1].at)
    else LastRise(ps[..|ps| - 1])
  }

  /** After any polls the detector remembers the last level and the start
      of the last press. */
  lemma {:induction false} ReplayState(ps: seq<Poll>)
    ensures Replay(ps).prev == (|ps| > 0 && ps[|ps| - 1].pressed)
    ensures Replay(ps).pStart == LastRise(ps)
    decreases |ps|
  {
    if |ps| > 0 {
      var init := ps[..|ps| - 1];
      ReplayState(init);
      if |ps| > 1 {
        assert init[|init| - 1] == ps[|ps| - 2];
      }
    }
  }

  /** The press that began at poll `k` is still held at the last poll. */
  predicate HeldFrom(ps: seq<Poll>, k: int) {
    && 0 <= k < |ps| && (k == 0 || !ps[k - 1].pressed)
    && forall j :: k <= j < |ps| ==> ps[j].pressed
  }

  /** The press the last rise started is still held: every poll since
      reads pressed. */
  lemma {:induction false} HeldSinceRise(ps: seq<Poll>)
    requires |ps| > 0 && ps[|ps| - 1].pressed
    ensures LastRise(ps).Some?
    ensures exists k :: HeldFrom(ps, k) && ps[k].at == LastRise(ps).value
    decreases |ps|
  {
    var n := |ps|;
    if n == 1 || !ps[n - 2].pressed {
      assert HeldFrom(ps, n - 1);
    } else {
      var init := ps[..n - 1];
      assert init[|init| - 1] == ps[n - 2];
      HeldSinceRise(init);
      var k :| HeldFrom(init, k) && init[k].at == LastRise(init).value;
      assert ps[k] == init[k];
      assert k > 0 ==> ps[k - 1] == init[k - 1];
      forall j | k <= j < n ensures ps[j].pressed {
        if j < n - 1 { assert ps[j] == init[j]; }
      }
      assert HeldFrom(ps, k);
    }
  }

  /** Sleep is triggered exactly by a release after a press that started
      more than 2000 ms before it. */
  lemma SleepOnLongPress(ps: seq<Poll>, x: Poll)
    ensures ButtonStep(Replay(ps), x.pressed, x.at).1
            <==> |ps| > 0 && ps[|ps| - 1].pressed && !x.pressed && LastRise(ps).Some? && x.at - LastRise(ps).value > LongPress
  {
    ReplayState(ps);
  }
}
