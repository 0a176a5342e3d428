/** The rowing chronometer: it accumulates the time between ticks, but
    only over intervals opened by a tick at which its enabler (the
    stroke tracker's "in motion") held. The clock is injected as the time
    of each tick and `ticks_diff` is plain subtraction.
 */
module Chrono {
  import opened Wrappers

  datatype Chrono = Chrono(
    total: int,           // accumulated ms
    tLast: Option<int>)   // time of the tick that opened the current interval

  function Init(): (c: Chrono)
    ensures c.total == 0 && c.tLast.None?
  {
    Chrono(0, None)
  }

  /** One tick at time `curr` with the enabler's answer `en`: the open
      interval, if any, is added, and a new one is opened only when
      enabled. */
  function Tick(c: Chrono, en: bool, curr: int): (r: Chrono)
    ensures c.tLast.Some? ==> r.total - c.total == curr - c.tLast.value
    ensures c.tLast.None? ==> r.total == c.total
    ensures r.tLast.Some? <==> en
    ensures en ==> r.tLast == Some(curr)
  {
    var total := if c.tLast.Some? then c.total + (curr - c.tLast.value) else c.total;
    Chrono(total, if en then Some(curr) else None)
  }

  /** Reading `time` ticks first and returns the new total: the open
      interval up to `curr` is counted in the value read. */
  function Time(c: Chrono, en: bool, curr: int): (r: (Chrono, int))
    ensures r.1 == c.total + (if c.tLast.Some? then curr - c.tLast.value else 0)
    ensures r.0.total == r.1 && r.0.tLast == (if en then Some(curr) else None)
  {
    var c' := Tick(c, en, curr);
    (c', c'.total)
  }

  /** A tick taken no earlier than the interval it closes never lowers the
      total. */
  lemma TickMonotone(c: Chrono, en: bool, curr: int)
    requires c.tLast.Some? ==> c.tLast.value <= curr
    ensures Tick(c, en, curr).total >= c.total
  {
  }

  /** What the enabler answered at a tick, and when the tick happened. */
  datatype Sample = Sample(en: bool, at: int)

  function Run(c: Chrono, ss: seq<Sample>): (r: Chrono)
    ensures |ss| == 0 ==> r == c
    decreases |ss|
  {
    if |ss| == 0 then c else Run(Tick(c, ss[0].en, ss[0].at), ss[1..])
  }

  /** The enabled time of a run of ticks, counted independently: each gap
      between consecutive ticks whose first tick was enabled. */
  function Enabled(ss: seq<Sample>): (t: int)
    decreases |ss|
  {
    if |ss| < 2 then 0
    else (if ss[0].en then ss[1].at - ss[0].at else 0) + Enabled(ss[1..])
  }

  predicate NonDecreasing(ss: seq<Sample>) {
    forall i, j :: 0 <= i < j < |ss| ==> ss[i].at <= ss[j].at
  }

  /** From a chronometer just created, the total after a run of ticks is
      the enabled time of the run, and the last interval is open exactly
      when the last tick was enabled. */
  lemma RunTotal(ss: seq<Sample>)
    ensures Run(Init(), ss).total == Enabled(ss)
    ensures Run(Init(), ss).tLast == if |ss| > 0 && ss[|ss| - 1].en then Some(ss[|ss| - 1].at) else None
  {
    RunFrom(Init(), ss);
  }

  /** The same from any state: the interval it left open is closed by the
      first tick of the run. */
  lemma {:induction false} RunFrom(c: Chrono, ss: seq<Sample>)
    ensures Run(c, ss).total == c.total + (if c.tLast.Some? && |ss| > 0 then ss[0].at - c.tLast.value else 0) + Enabled(ss)
    ensures Run(c, ss).tLast == if |ss| == 0 then c.tLast else if ss[|ss| - 1].en then Some(ss[|ss| - 1].at) else None
    decreases |ss|
  {
    if |ss| > 0 {
      var c1 := Tick(c, ss[0].en, ss[0].at);
      RunFrom(c1, ss[1..]);
      if |ss| > 1 {
        assert ss[1..][0] == ss[1];
        assert ss[1..][|ss[1..]| - 1] == ss[|ss| - 1];
      }
    }
  }

  /** Enabled time is never negative when the clock does not go back. */
  lemma {:induction false} EnabledNonNegative(ss: seq<Sample>)
    requires NonDecreasing(ss)
    ensures Enabled(ss) >= 0
    decreases |ss|
  {
    if |ss| >= 2 {
      assert NonDecreasing(ss[1..]) by {
        forall i, j | 0 <= i < j < |ss[1..]| ensures ss[1..][i].at <= ss[1..][j].at {
          assert ss[1..][i] == ss[i + 1] && ss[1..][j] == ss[j + 1];
        }
      }
      EnabledNonNegative(ss[1..]);
      assert ss[0].at <= ss[1].at;
    }
  }

  /** With a clock that does not go back, the total shown never
      decreases from one reading to a later one. */
  lemma RunMonotone(ss: seq<Sample>, k: nat)
    requires NonDecreasing(ss) && k <= |ss|
    ensures Run(Init(), ss[..k]).total <= Run(Init(), ss).total
  {
    assert Run(Init(), ss[..k]).total == Enabled(ss[..k]) by { RunTotal(ss[..k]); }
    assert Run(Init(), ss).total == Enabled(ss) by { RunTotal(ss); }
    EnabledPrefix(ss, k);
  }

  /** A prefix of the ticks has no more enabled time than all of them. */
  lemma EnabledPrefix(ss: seq<Sample>, k: nat)
    requires NonDecreasing(ss) && k <= |ss|
    ensures Enabled(ss[..k]) <= Enabled(ss)
  {
    EnabledSplit(ss, k);
    assert Enabled(ss[k..]) >= 0 by {
      assert NonDecreasing(ss[k..]) by {
        forall i, j | 0 <= i < j < |ss[k..]| ensures ss[k..][i].at <= ss[k..][j].at {
          assert ss[k..][i] == ss[k + i] && ss[k..][j] == ss[k + j];
        }
      }
      EnabledNonNegative(ss[k..]);
    }
    assert 0 < k < |ss| ==> ss[k - 1].at <= ss[k].at;
  }

  /** The enabled time splits at any tick: the gap across the split is
      counted when the tick before it was enabled. */
  lemma {:induction false} EnabledSplit(ss: seq<Sample>, k: nat)
    requires k <= |ss|
    ensures Enabled(ss) == Enabled(ss[..k]) + (if 0 < k < |ss| && ss[k - 1].en then ss[k].at - ss[k - 1].at else 0) + Enabled(ss[k..])
    decreases k
  {
    if k == 0 {
      assert ss[k..] == ss;
    } else if k == |ss| {
      assert ss[..k] == ss;
    } else {
      var tail := ss[1..];
      EnabledSplit(tail, k - 1);
      assert tail[..k - 1] == ss[1..k];
      assert tail[k - 1..] == ss[k..];
      if k > 1 {
        assert ss[..k][1..] == ss[1..k];
        assert tail[k - 2] == ss[k - 1] && tail[k - 1] == ss[k];
      }
    }
  }
}
