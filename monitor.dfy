/**
  Bookkeeping of the simulation monitor (pycycle/monitor.py).

  `SplitTime` is the divmod chain of print_time on a whole number of
  milliseconds.  `Monitor` keeps the history of times and peak slip rates, a
  sliding window of the most recent snapshots and a stack of plot frames; after
  the first call the frames are interpolated between the last two snapshots on a
  grid of step `dt` chosen by the velocity regime.  Printing and plotting are
  not modelled.
*/
module Monitoring {
  import opened Arith

  // ---------------------------------------------------------------------------
  // print_time

  const MsPerSecond: int := 1000
  const MsPerMinute: int := 1000 * 60
  const MsPerHour: int := 1000 * 60 * 60
  const MsPerDay: int := 1000 * 60 * 60 * 24
  const MsPerYear: int := 1000 * 60 * 60 * 24 * 365

  datatype Duration = Duration(years: int, days: int, hours: int, minutes: int, seconds: int, millis: int)

  /** The components add back up to the total. */
  function Total(d: Duration): int
  {
    d.years * MsPerYear + d.days * MsPerDay + d.hours * MsPerHour +
    d.minutes * MsPerMinute + d.seconds * MsPerSecond + d.millis
  }

  /** Every component below the year lies in its clock range. */
  predicate InRange(d: Duration)
  {
    0 <= d.days < 365 && 0 <= d.hours < 24 && 0 <= d.minutes < 60 &&
    0 <= d.seconds < 60 && 0 <= d.millis < 1000
  }

  /**
    The divmod chain of print_time on a millisecond total (Python's divmod by a
    positive divisor is floor division, which is Dafny's `/` and `%` here).
  */
  function SplitTime(total: int): (d: Duration)
    ensures Total(d) == total
    ensures InRange(d)
    ensures total >= 0 ==> d.years >= 0
  {
    var years := total / MsPerYear;
    var r := total % MsPerYear;
    var days := r / MsPerDay;
    var r1 := r % MsPerDay;
    var hours := r1 / MsPerHour;
    var r2 := r1 % MsPerHour;
    var minutes := r2 / MsPerMinute;
    var r3 := r2 % MsPerMinute;
    Duration(years, days, hours, minutes, r3 / MsPerSecond, r3 % MsPerSecond)
  }

  /** The decomposition is the only one with components in range. */
  lemma SplitTimeUnique(total: int, d: Duration)
    requires Total(d) == total && InRange(d)
    ensures d == SplitTime(total)
  {
    var belowMinute := d.seconds * MsPerSecond + d.millis;
    DivModUnique(belowMinute, d.seconds, d.millis, MsPerSecond);
    var belowHour := d.minutes * MsPerMinute + belowMinute;
    DivModUnique(belowHour, d.minutes, belowMinute, MsPerMinute);
    var belowDay := d.hours * MsPerHour + belowHour;
    DivModUnique(belowDay, d.hours, belowHour, MsPerHour);
    var belowYear := d.days * MsPerDay + belowDay;
    DivModUnique(belowYear, d.days, belowDay, MsPerDay);
    DivModUnique(total, d.years, belowYear, MsPerYear);
  }

  /** Floor division and remainder are the only quotient and remainder in range. */
  lemma DivModUnique(n: int, q: int, r: int, m: int)
    requires m > 0 && n == q * m + r && 0 <= r < m
    ensures q == n / m && r == n % m
  {
    var q0, r0 := n / m, n % m;
    DivModBasic(n, m);
    assert q * m - q0 * m == r0 - r;
    assert (q - q0) * m == q * m - q0 * m;
    if q > q0 {
      MulAtLeast(q - q0, m);
    } else if q < q0 {
      MulAtLeast(q0 - q, m);
    }
  }

  lemma MulAtLeast(a: int, m: int)
    requires a >= 1 && m > 0
    ensures a * m >= m
  {
  }

  lemma DivModBasic(n: int, m: int)
    requires m > 0
    ensures n == (n / m) * m + n % m && 0 <= n % m < m
  {
  }

  // ---------------------------------------------------------------------------
  // Snapshots, thresholds and plot frames

  /** One call of the monitor: time, displacement, slip rate, state and traction. */
  datatype Snapshot = Snapshot(t: real, u: seq<real>, v: seq<real>, psi: seq<real>, tau: seq<real>)

  /** A velocity regime: the peak slip rate above which it applies, its colour and its frame step. */
  datatype Threshold = Threshold(vthresh: real, color: string, dt: real)

  datatype PlotEntry = PlotEntry(color: string, t: real, u: seq<real>, v: seq<real>, psi: seq<real>, tau: seq<real>)

  predicate SameShape(a: Snapshot, b: Snapshot)
  {
    |a.u| == |b.u| && |a.v| == |b.v| && |a.psi| == |b.psi| && |a.tau| == |b.tau|
  }

  /** v.max(). */
  function Max(s: seq<real>): (m: real)
    requires |s| > 0
    ensures m in s
    ensures forall k :: 0 <= k < |s| ==> s[k] <= m
  {
    if |s| == 1 then s[0]
    else
      var rest := Max(s[..|s| - 1]);
      if s[|s| - 1] > rest then s[|s| - 1] else rest
  }

  // ---------------------------------------------------------------------------
  // Regime selection

  /**
    The regime that applies at peak slip rate vmax: the last threshold after the
    first whose vthresh lies below vmax, or the first threshold if there is none.
  */
  function RegimeIndex(thresholds: seq<Threshold>, vmax: real): (k: nat)
    requires |thresholds| > 0
    ensures k < |thresholds|
    ensures k > 0 ==> vmax > thresholds[k].vthresh
    ensures forall j :: k < j < |thresholds| ==> vmax <= thresholds[j].vthresh
  {
    var last := |thresholds| - 1;
    if last == 0 then 0
    else if vmax > thresholds[last].vthresh then last
    else RegimeIndex(thresholds[..last], vmax)
  }

  /** The loop that reassigns creg while scanning thresholds[1:]. */
  method SelectRegime(thresholds: seq<Threshold>, vmax: real) returns (regime: Threshold)
    requires |thresholds| > 0
    ensures regime == thresholds[RegimeIndex(thresholds, vmax)]
  {
    regime := thresholds[0];
    for i := 1 to |thresholds|
      invariant regime == thresholds[RegimeIndex(thresholds[..i], vmax)]
    {
      assert thresholds[..i + 1][..i] == thresholds[..i];
      if vmax > thresholds[i].vthresh {
        regime := thresholds[i];
      }
    }
    assert thresholds[..|thresholds|] == thresholds;
  }

  // ---------------------------------------------------------------------------
  // Frame times

  /** How many more passes the interpolation loop makes from tx. */
  function Steps(tx: real, t2: real, dt: real): (n: nat)
    requires dt > 0.0
    ensures n > 0 <==> tx < t2
  {
    if tx < t2 then
      QuotientPositive(t2 - tx, dt);
      Ceil((t2 - tx) / dt)
    else 0
  }

  /** Each pass of the loop brings it one step closer to t2. */
  lemma StepsDecrease(tx: real, t2: real, dt: real)
    requires dt > 0.0 && tx < t2
    ensures Steps(tx + dt, t2, dt) == Steps(tx, t2, dt) - 1
  {
    if tx + dt < t2 {
      ShiftQuotient(t2 - tx, dt);
      assert t2 - (tx + dt) == (t2 - tx) - dt;
    } else {
      var q := (t2 - tx) / dt;
      assert q * dt == t2 - tx;
      if q > 1.0 {
        MulStrict(1.0, q, dt);
      }
    }
  }

  /**
    The times the interpolation loop visits from tx, advancing by dt while below
    t2, and keeps when they lie above t1.
  */
  function GridTimes(tx: real, t1: real, t2: real, dt: real): (r: seq<real>)
    requires dt > 0.0
    // at most one kept time per pass of the loop
    ensures |r| <= Steps(tx, t2, dt)
    decreases Steps(tx, t2, dt)
  {
    if tx < t2 then
      StepsDecrease(tx, t2, dt);
      (if t1 < tx then [tx] else []) + GridTimes(tx + dt, t1, t2, dt)
    else []
  }

  /** One pass of the loop: the visit at tx, then the visits from tx + dt. */
  lemma GridTimesUnfold(tx: real, t1: real, t2: real, dt: real)
    requires dt > 0.0 && tx < t2
    ensures GridTimes(tx, t1, t2, dt) == (if t1 < tx then [tx] else []) + GridTimes(tx + dt, t1, t2, dt)
  {
  }

  /** Every time in the list lies strictly between t1 and t2. */
  predicate Within(times: seq<real>, t1: real, t2: real)
  {
    forall j :: 0 <= j < |times| ==> t1 < times[j] < t2
  }

  /** Every kept time lies strictly between t1 and t2 and not before the start. */
  lemma {:induction false} GridTimesBounds(tx: real, t1: real, t2: real, dt: real)
    requires dt > 0.0
    ensures Within(GridTimes(tx, t1, t2, dt), t1, t2)
    ensures forall j :: 0 <= j < |GridTimes(tx, t1, t2, dt)| ==> tx <= GridTimes(tx, t1, t2, dt)[j]
    decreases Steps(tx, t2, dt)
  {
    if tx < t2 {
      StepsDecrease(tx, t2, dt);
      GridTimesBounds(tx + dt, t1, t2, dt);
    }
  }

  /** Once the loop has passed t1 it keeps every time it visits, so kept times are dt apart. */
  lemma {:induction false} GridTimesSpacing(tx: real, t1: real, t2: real, dt: real)
    requires dt > 0.0
    ensures forall j :: 0 <= j < |GridTimes(tx, t1, t2, dt)| - 1 ==>
      GridTimes(tx, t1, t2, dt)[j + 1] == GridTimes(tx, t1, t2, dt)[j] + dt
    decreases Steps(tx, t2, dt)
  {
    if tx < t2 {
      StepsDecrease(tx, t2, dt);
      GridTimesSpacing(tx + dt, t1, t2, dt);
      var rest := GridTimes(tx + dt, t1, t2, dt);
      if t1 < tx && |rest| > 0 {
        if tx + dt < t2 {
          StepsDecrease(tx + dt, t2, dt);
          assert rest[0] == tx + dt;
        }
      }
    }
  }

  /** Kept times are strictly increasing. */
  lemma {:induction false} GridTimesIncreasing(tx: real, t1: real, t2: real, dt: real)
    requires dt > 0.0
    ensures forall i, j :: 0 <= i < j < |GridTimes(tx, t1, t2, dt)| ==>
      GridTimes(tx, t1, t2, dt)[i] < GridTimes(tx, t1, t2, dt)[j]
    decreases Steps(tx, t2, dt)
  {
    if tx < t2 {
      StepsDecrease(tx, t2, dt);
      GridTimesIncreasing(tx + dt, t1, t2, dt);
      GridTimesBounds(tx + dt, t1, t2, dt);
      var rest := GridTimes(tx + dt, t1, t2, dt);
      if t1 < tx {
        var r := GridTimes(tx, t1, t2, dt);
        assert r == [tx] + rest;
        forall i, j | 0 <= i < j < |r|
          ensures r[i] < r[j]
        {
          assert r[j] == rest[j - 1];
          if i > 0 {
            assert r[i] == rest[i - 1];
          }
        }
      }
    }
  }

  /** Every grid time tx + k dt strictly between t1 and t2 is kept: no frame is skipped. */
  lemma {:induction false} GridTimesComplete(tx: real, t1: real, t2: real, dt: real, k: nat)
    requires dt > 0.0 && t1 < tx + k as real * dt < t2
    ensures tx + k as real * dt in GridTimes(tx, t1, t2, dt)
    decreases k
  {
    var x := tx + k as real * dt;
    NonNegMul(k as real, dt);
    assert tx < t2;
    StepsDecrease(tx, t2, dt);
    GridTimesUnfold(tx, t1, t2, dt);
    var head: seq<real> := if t1 < tx then [tx] else [];
    var rest := GridTimes(tx + dt, t1, t2, dt);
    if k == 0 {
      assert x == tx && head == [tx];
      assert x in head;
    } else {
      var j: nat := k - 1;
      assert j as real == k as real - 1.0;
      assert (tx + dt) + j as real * dt == x;
      GridTimesComplete(tx + dt, t1, t2, dt, j);
      assert x in rest;
    }
    assert x in head + rest;
  }

  // ---------------------------------------------------------------------------
  // Interpolated frames

  /** The weights [1 - (tx - t1) / (t2 - t1), (tx - t1) / (t2 - t1)] of the two snapshots. */
  function Weights(tx: real, t1: real, t2: real): (w: (real, real))
    requires t1 != t2
    ensures w.0 + w.1 == 1.0
    // the second weight is the fraction of [t1, t2] that lies before tx
    ensures w.1 * (t2 - t1) == tx - t1
  {
    (1.0 - (tx - t1) / (t2 - t1), (tx - t1) / (t2 - t1))
  }

  /** Strictly between the two snapshot times, both weights lie in (0, 1) and sum to 1. */
  lemma WeightsConvex(tx: real, t1: real, t2: real)
    requires t1 < tx < t2
    ensures 0.0 < Weights(tx, t1, t2).0 < 1.0 && 0.0 < Weights(tx, t1, t2).1 < 1.0
    ensures Weights(tx, t1, t2).0 + Weights(tx, t1, t2).1 == 1.0
  {
    QuotientPositive(tx - t1, t2 - t1);
    QuotientBelowOne(tx - t1, t2 - t1);
  }

  /** np.average([a, b], axis=0, weights=[w0, w1]). */
  function Average(a: seq<real>, b: seq<real>, w0: real, w1: real): (r: seq<real>)
    requires |a| == |b| && w0 + w1 != 0.0
    ensures |r| == |a|
  {
    seq(|a|, k requires 0 <= k < |a| => (w0 * a[k] + w1 * b[k]) / (w0 + w1))
  }

  /** A convex combination of two reals lies between them. */
  lemma ConvexBetween(x: real, y: real, w0: real, w1: real)
    requires 0.0 <= w0 && 0.0 <= w1 && w0 + w1 == 1.0
    ensures var m := (w0 * x + w1 * y) / (w0 + w1);
      (x <= m <= y) || (y <= m <= x)
  {
    var c := w0 * x + w1 * y;
    assert c / (w0 + w1) == c;
    MulBoth(w0 + w1, 1.0, x);
    MulBoth(w0 + w1, 1.0, y);
    assert w0 * x + w1 * x == x && w0 * y + w1 * y == y;
    if x <= y {
      NonNegMul(w1, y - x);
      NonNegMul(w0, y - x);
      assert c - x == w1 * (y - x);
      assert y - c == w0 * (y - x);
    } else {
      NonNegMul(w1, x - y);
      NonNegMul(w0, x - y);
      assert x - c == w1 * (x - y);
      assert c - y == w0 * (x - y);
    }
  }

  /** With convex weights, every averaged entry lies between the two entries it blends. */
  lemma AverageBetween(a: seq<real>, b: seq<real>, w0: real, w1: real)
    requires |a| == |b| && 0.0 <= w0 && 0.0 <= w1 && w0 + w1 == 1.0
    ensures forall k :: 0 <= k < |a| ==>
      (a[k] <= Average(a, b, w0, w1)[k] <= b[k]) || (b[k] <= Average(a, b, w0, w1)[k] <= a[k])
  {
    forall k | 0 <= k < |a|
      ensures (a[k] <= Average(a, b, w0, w1)[k] <= b[k]) || (b[k] <= Average(a, b, w0, w1)[k] <= a[k])
    {
      ConvexBetween(a[k], b[k], w0, w1);
    }
  }

  /** The frame at time tx, strictly between the two snapshots, blending all four fields. */
  function Frame(color: string, tx: real, prev: Snapshot, cur: Snapshot): (e: PlotEntry)
    requires SameShape(prev, cur) && prev.t < tx < cur.t
    ensures e.color == color && e.t == tx
    ensures |e.u| == |cur.u| && |e.v| == |cur.v| && |e.psi| == |cur.psi| && |e.tau| == |cur.tau|
  {
    WeightsConvex(tx, prev.t, cur.t);
    var w := Weights(tx, prev.t, cur.t);
    PlotEntry(color, tx,
      Average(prev.u, cur.u, w.0, w.1), Average(prev.v, cur.v, w.0, w.1),
      Average(prev.psi, cur.psi, w.0, w.1), Average(prev.tau, cur.tau, w.0, w.1))
  }

  function Frames(times: seq<real>, prev: Snapshot, cur: Snapshot, color: string): (r: seq<PlotEntry>)
    requires SameShape(prev, cur)
    requires Within(times, prev.t, cur.t)
    ensures |r| == |times|
    ensures forall j :: 0 <= j < |r| ==> r[j].t == times[j] && r[j].color == color
  {
    seq(|times|, j requires 0 <= j < |times| => Frame(color, times[j], prev, cur))
  }

  /** The state of the interpolation loop at tx: `emitted` kept so far, the rest still to visit. */
  ghost predicate Emitting(emitted: seq<real>, added: seq<PlotEntry>, tx: real, all: seq<real>,
                           prev: Snapshot, cur: Snapshot, color: string, dt: real)
  {
    dt > 0.0 && SameShape(prev, cur) && Within(emitted, prev.t, cur.t)
    && emitted + GridTimes(tx, prev.t, cur.t, dt) == all
    && added == Frames(emitted, prev, cur, color)
  }

  /** One pass of the loop keeps Emitting. */
  lemma EmitStep(emitted: seq<real>, added: seq<PlotEntry>, tx: real, all: seq<real>,
                 prev: Snapshot, cur: Snapshot, color: string, dt: real)
    requires Emitting(emitted, added, tx, all, prev, cur, color, dt) && tx < cur.t
    ensures prev.t < tx ==>
      Emitting(emitted + [tx], added + [Frame(color, tx, prev, cur)], tx + dt, all, prev, cur, color, dt)
    ensures !(prev.t < tx) ==> Emitting(emitted, added, tx + dt, all, prev, cur, color, dt)
  {
    GridTimesUnfold(tx, prev.t, cur.t, dt);
    if prev.t < tx {
      var e := emitted + [tx];
      assert Within(e, prev.t, cur.t) by {
        forall j | 0 <= j < |e|
          ensures prev.t < e[j] < cur.t
        {
          if j < |emitted| {
            assert e[j] == emitted[j];
          }
        }
      }
      assert e + GridTimes(tx + dt, prev.t, cur.t, dt) == all;
      assert Frames(e, prev, cur, color) == added + [Frame(color, tx, prev, cur)];
    }
  }

  /**
    The while-loop of the monitor: from t0 + dt, in steps of dt, while below the
    current snapshot time, emit a frame whenever past the previous snapshot time.
  */
  method Interpolate(t0: real, prev: Snapshot, cur: Snapshot, regime: Threshold) returns (added: seq<PlotEntry>)
    requires regime.dt > 0.0 && SameShape(prev, cur)
    ensures Within(GridTimes(t0 + regime.dt, prev.t, cur.t, regime.dt), prev.t, cur.t)
    ensures added == Frames(GridTimes(t0 + regime.dt, prev.t, cur.t, regime.dt), prev, cur, regime.color)
  {
    var t1, t2, dt := prev.t, cur.t, regime.dt;
    ghost var all := GridTimes(t0 + dt, t1, t2, dt);
    GridTimesBounds(t0 + dt, t1, t2, dt);
    var tx := t0 + dt;
    ghost var emitted: seq<real> := [];
    added := [];
    while tx < t2
      invariant Emitting(emitted, added, tx, all, prev, cur, regime.color, dt)
      decreases Steps(tx, t2, dt)
    {
      StepsDecrease(tx, t2, dt);
      EmitStep(emitted, added, tx, all, prev, cur, regime.color, dt);
      if t1 < tx {
        added := added + [Frame(regime.color, tx, prev, cur)];
        emitted := emitted + [tx];
      }
      tx := tx + dt;
    }
    assert emitted == all;
  }

  // ---------------------------------------------------------------------------
  // The monitor

  /** sol_stack holds at most this many snapshots after a call. */
  const Window: nat := 9

  function WindowLength(calls: nat): nat
  {
    if calls < Window then calls else Window
  }

  /** Plot frames in strictly increasing time order. */
  predicate Increasing(frames: seq<PlotEntry>)
  {
    forall i, j :: 0 <= i < j < |frames| ==> frames[i].t < frames[j].t
  }

  /** Appending increasing frames that all come after the last one keeps the plot stack increasing. */
  lemma AppendFrames(frames: seq<PlotEntry>, added: seq<PlotEntry>)
    requires Increasing(frames) && Increasing(added)
    requires forall j :: 0 <= j < |added| ==> frames == [] || frames[|frames| - 1].t < added[j].t
    ensures Increasing(frames + added)
  {
    var all := frames + added;
    forall i, j | 0 <= i < j < |all|
      ensures all[i].t < all[j].t
    {
      if j >= |frames| {
        assert all[j] == added[j - |frames|];
        if i >= |frames| {
          assert all[i] == added[i - |frames|];
        } else {
          assert all[i].t <= frames[|frames| - 1].t;
        }
      }
    }
  }

  /** Appending a snapshot and dropping the oldest beyond the window keeps the last WindowLength snapshots. */
  lemma WindowSlides(h: seq<Snapshot>, snap: Snapshot)
    ensures var s := h[|h| - WindowLength(|h|)..] + [snap];
      (if |s| >= Window + 1 then s[1..] else s) == (h + [snap])[|h| + 1 - WindowLength(|h| + 1)..]
  {
    var s := h[|h| - WindowLength(|h|)..] + [snap];
    if |h| >= Window {
      assert s[1..] == (h + [snap])[|h| + 1 - Window..];
    } else {
      assert s == h + [snap];
    }
  }

  /** The lists a monitor keeps: times, peak slip rates, the snapshot window and the plot frames. */
  datatype State = State(t: seq<real>, v: seq<real>, solStack: seq<Snapshot>, pltStack: seq<PlotEntry>)

  /** The regimes are non-empty and every frame step is positive. */
  predicate GoodThresholds(thresholds: seq<Threshold>)
  {
    |thresholds| > 0 && forall k :: 0 <= k < |thresholds| ==> thresholds[k].dt > 0.0
  }

  /**
    The invariant of a monitor that has been called with the snapshots in
    `history`: t and v record every call, sol_stack holds the last
    WindowLength(calls) snapshots in arrival order, there is a plot frame once
    there has been a call, and plot frames are in increasing time order.
  */
  predicate Consistent(thresholds: seq<Threshold>, st: State, history: seq<Snapshot>)
  {
    GoodThresholds(thresholds) &&
    Recorded(st.t, st.v, history) &&
    st.solStack == history[|history| - WindowLength(|history|)..] &&
    (st.pltStack == [] <==> history == []) &&
    Increasing(st.pltStack)
  }

  /** t and v hold the time and the peak slip rate of every call, in order. */
  predicate Recorded(t: seq<real>, v: seq<real>, history: seq<Snapshot>)
  {
    |t| == |history| && |v| == |history| &&
    forall i :: 0 <= i < |history| ==> |history[i].v| > 0 && t[i] == history[i].t && v[i] == Max(history[i].v)
  }

  /** Appending a call's time and peak slip rate keeps the record. */
  lemma RecordedExtends(t: seq<real>, v: seq<real>, history: seq<Snapshot>, snap: Snapshot)
    requires Recorded(t, v, history) && |snap.v| > 0
    ensures Recorded(t + [snap.t], v + [Max(snap.v)], history + [snap])
  {
    var h := history + [snap];
    forall i | 0 <= i < |h|
      ensures |h[i].v| > 0 && (t + [snap.t])[i] == h[i].t && (v + [Max(snap.v)])[i] == Max(h[i].v)
    {
      if i < |history| {
        assert h[i] == history[i];
      }
    }
  }

  /** What a call may be given: a non-empty slip rate, shaped like the previous snapshot. */
  predicate Admissible(st: State, snap: Snapshot)
  {
    |snap.v| > 0 && (st.solStack != [] ==> SameShape(st.solStack[|st.solStack| - 1], snap))
  }

  /** The regime selected for a snapshot. */
  function Regime(thresholds: seq<Threshold>, snap: Snapshot): (r: Threshold)
    requires |thresholds| > 0 && |snap.v| > 0
    ensures r in thresholds
  {
    thresholds[RegimeIndex(thresholds, Max(snap.v))]
  }

  /** The frame times of a call after the first: from the last frame time, between the two latest snapshots. */
  function NextTimes(thresholds: seq<Threshold>, st: State, snap: Snapshot): (r: seq<real>)
    requires GoodThresholds(thresholds) && |snap.v| > 0 && st.pltStack != [] && st.solStack != []
    ensures Within(r, st.solStack[|st.solStack| - 1].t, snap.t)
    ensures forall j :: 0 <= j < |r| ==> st.pltStack[|st.pltStack| - 1].t < r[j]
    ensures forall i, j :: 0 <= i < j < |r| ==> r[i] < r[j]
    ensures forall j :: 0 <= j < |r| - 1 ==> r[j + 1] == r[j] + Regime(thresholds, snap).dt
  {
    var regime := Regime(thresholds, snap);
    var t0 := st.pltStack[|st.pltStack| - 1].t;
    var t1 := st.solStack[|st.solStack| - 1].t;
    GridTimesBounds(t0 + regime.dt, t1, snap.t, regime.dt);
    GridTimesIncreasing(t0 + regime.dt, t1, snap.t, regime.dt);
    GridTimesSpacing(t0 + regime.dt, t1, snap.t, regime.dt);
    GridTimes(t0 + regime.dt, t1, snap.t, regime.dt)
  }

  /**
    The plot stack after a call: the first frame at the snapshot time, or the
    frames interpolated between the two latest snapshots.
  */
  function NextPlot(thresholds: seq<Threshold>, st: State, snap: Snapshot): (r: seq<PlotEntry>)
    requires GoodThresholds(thresholds) && Admissible(st, snap)
    // frames are only ever appended, and the first call stores one
    ensures st.pltStack <= r && r != []
  {
    var regime := Regime(thresholds, snap);
    var sol := st.solStack + [snap];
    if st.pltStack == [] then [PlotEntry(regime.color, snap.t, snap.u, snap.v, snap.psi, snap.tau)]
    else if |sol| >= 2 then
      assert sol[|sol| - 2] == st.solStack[|st.solStack| - 1];
      st.pltStack + Frames(NextTimes(thresholds, st, snap), sol[|sol| - 2], snap, regime.color)
    else st.pltStack
  }

  /** The snapshot window after a call: the snapshot pushed, the oldest dropped beyond the window. */
  function SlideWindow(st: State, snap: Snapshot): (r: seq<Snapshot>)
    // never empty, ends with snap, and at most Window long if the old window was
    ensures 0 < |r| <= |st.solStack| + 1 && r[|r| - 1] == snap
    ensures |st.solStack| <= Window ==> |r| <= Window
  {
    var sol := st.solStack + [snap];
    if |sol| >= Window + 1 then sol[1..] else sol
  }

  /** The state after one call of the monitor with snapshot `snap`. */
  function Next(thresholds: seq<Threshold>, st: State, snap: Snapshot): (r: State)
    requires GoodThresholds(thresholds) && Admissible(st, snap)
    ensures |r.t| == |st.t| + 1 && |r.v| == |st.v| + 1
    ensures st.pltStack <= r.pltStack && 0 < |r.solStack| && r.solStack[|r.solStack| - 1] == snap
  {
    State(st.t + [snap.t], st.v + [Max(snap.v)], SlideWindow(st, snap), NextPlot(thresholds, st, snap))
  }

  /** A call appends the time and the peak slip rate to t and v. */
  lemma NextRecorded(thresholds: seq<Threshold>, st: State, history: seq<Snapshot>, snap: Snapshot)
    requires GoodThresholds(thresholds) && Admissible(st, snap) && Recorded(st.t, st.v, history)
    ensures Next(thresholds, st, snap).t == st.t + [snap.t] && Next(thresholds, st, snap).v == st.v + [Max(snap.v)]
    ensures Recorded(Next(thresholds, st, snap).t, Next(thresholds, st, snap).v, history + [snap])
  {
    RecordedExtends(st.t, st.v, history, snap);
  }

  /** A call leaves sol_stack holding the last min(calls, 9) snapshots, ending with the new one. */
  lemma NextWindow(thresholds: seq<Threshold>, st: State, history: seq<Snapshot>, snap: Snapshot)
    requires GoodThresholds(thresholds) && Admissible(st, snap)
    requires st.solStack == history[|history| - WindowLength(|history|)..]
    ensures var h := history + [snap];
      Next(thresholds, st, snap).solStack == h[|h| - WindowLength(|h|)..]
    ensures |Next(thresholds, st, snap).solStack| == WindowLength(|history| + 1)
    ensures Next(thresholds, st, snap).solStack[|Next(thresholds, st, snap).solStack| - 1] == snap
  {
    var h := history + [snap];
    assert Next(thresholds, st, snap).solStack == SlideWindow(st, snap);
    WindowSlides(history, snap);
    assert SlideWindow(st, snap) == h[|h| - WindowLength(|h|)..];
  }

  /** After a call there is a plot frame, and the frames stay in increasing time order. */
  lemma NextPlotOrdered(thresholds: seq<Threshold>, st: State, snap: Snapshot)
    requires GoodThresholds(thresholds) && Admissible(st, snap) && Increasing(st.pltStack)
    requires st.pltStack != [] ==> st.solStack != []
    ensures Next(thresholds, st, snap).pltStack != []
    ensures Increasing(Next(thresholds, st, snap).pltStack)
  {
    if st.pltStack != [] {
      var times := NextTimes(thresholds, st, snap);
      var frames := Frames(times, st.solStack[|st.solStack| - 1], snap, Regime(thresholds, snap).color);
      assert Next(thresholds, st, snap).pltStack == st.pltStack + frames;
      assert Increasing(frames);
      AppendFrames(st.pltStack, frames);
    }
  }

  /** A call keeps the monitor consistent. */
  lemma NextConsistent(thresholds: seq<Threshold>, st: State, history: seq<Snapshot>, snap: Snapshot)
    requires Consistent(thresholds, st, history) && Admissible(st, snap)
    ensures Consistent(thresholds, Next(thresholds, st, snap), history + [snap])
  {
    var next, h := Next(thresholds, st, snap), history + [snap];
    assert Recorded(next.t, next.v, h) by { NextRecorded(thresholds, st, history, snap); }
    assert next.solStack == h[|h| - WindowLength(|h|)..] by { NextWindow(thresholds, st, history, snap); }
    assert next.pltStack != [] && Increasing(next.pltStack) by {
      assert st.pltStack != [] ==> |st.solStack| == WindowLength(|history|) > 0;
      NextPlotOrdered(thresholds, st, snap);
    }
  }

  /** The first call pushes exactly one frame: the current snapshot in the selected regime's colour. */
  lemma NextFirstFrame(thresholds: seq<Threshold>, st: State, snap: Snapshot)
    requires GoodThresholds(thresholds) && Admissible(st, snap) && st.pltStack == []
    ensures Next(thresholds, st, snap).pltStack ==
      [PlotEntry(Regime(thresholds, snap).color, snap.t, snap.u, snap.v, snap.psi, snap.tau)]
  {
  }

  /**
    A later call keeps the earlier frames and pushes frames strictly between the
    two latest snapshot times, after the last frame, dt apart, in the selected
    regime's colour (GridTimesComplete: no grid time of that span is skipped).
  */
  lemma NextLaterFrames(thresholds: seq<Threshold>, st: State, snap: Snapshot)
    requires GoodThresholds(thresholds) && Admissible(st, snap) && st.pltStack != [] && st.solStack != []
    ensures var next := Next(thresholds, st, snap);
      var added := next.pltStack[|st.pltStack|..];
      var t0 := st.pltStack[|st.pltStack| - 1].t;
      var prev := st.solStack[|st.solStack| - 1];
      |next.pltStack| >= |st.pltStack| && next.pltStack[..|st.pltStack|] == st.pltStack &&
      (forall j :: 0 <= j < |added| ==>
        prev.t < added[j].t < snap.t && t0 < added[j].t && added[j].color == Regime(thresholds, snap).color) &&
      (forall j :: 0 <= j < |added| - 1 ==> added[j + 1].t == added[j].t + Regime(thresholds, snap).dt)
  {
    var times := NextTimes(thresholds, st, snap);
    var frames := Frames(times, st.solStack[|st.solStack| - 1], snap, Regime(thresholds, snap).color);
    var next := Next(thresholds, st, snap);
    assert next.pltStack == st.pltStack + frames;
    assert next.pltStack[|st.pltStack|..] == frames;
    assert next.pltStack[..|st.pltStack|] == st.pltStack;
  }

  /** Every blended field of a frame lies entrywise between the two snapshots it interpolates. */
  lemma FrameBetween(color: string, tx: real, prev: Snapshot, cur: Snapshot)
    requires SameShape(prev, cur) && prev.t < tx < cur.t
    ensures var e := Frame(color, tx, prev, cur);
      (forall k :: 0 <= k < |e.u| ==> (prev.u[k] <= e.u[k] <= cur.u[k]) || (cur.u[k] <= e.u[k] <= prev.u[k])) &&
      (forall k :: 0 <= k < |e.v| ==> (prev.v[k] <= e.v[k] <= cur.v[k]) || (cur.v[k] <= e.v[k] <= prev.v[k])) &&
      (forall k :: 0 <= k < |e.psi| ==> (prev.psi[k] <= e.psi[k] <= cur.psi[k]) || (cur.psi[k] <= e.psi[k] <= prev.psi[k])) &&
      (forall k :: 0 <= k < |e.tau| ==> (prev.tau[k] <= e.tau[k] <= cur.tau[k]) || (cur.tau[k] <= e.tau[k] <= prev.tau[k]))
  {
    WeightsConvex(tx, prev.t, cur.t);
    var w := Weights(tx, prev.t, cur.t);
    AverageBetween(prev.u, cur.u, w.0, w.1);
    AverageBetween(prev.v, cur.v, w.0, w.1);
    AverageBetween(prev.psi, cur.psi, w.0, w.1);
    AverageBetween(prev.tau, cur.tau, w.0, w.1);
  }

  class Monitor {
    var t: seq<real>
    var v: seq<real>
    var solStack: seq<Snapshot>
    var pltStack: seq<PlotEntry>
    const thresholds: seq<Threshold>
    /** Every snapshot the monitor has been called with. */
    ghost var history: seq<Snapshot>

    function Current(): State
      reads this
    {
      State(t, v, solStack, pltStack)
    }

    ghost predicate Valid()
      reads this
    {
      Consistent(thresholds, Current(), history)
    }

    constructor (thresholds: seq<Threshold>)
      requires GoodThresholds(thresholds)
      ensures Valid() && this.thresholds == thresholds
      ensures t == [] && v == [] && solStack == [] && pltStack == [] && history == []
    {
      t := [];
      v := [];
      solStack := [];
      pltStack := [];
      this.thresholds := thresholds;
      history := [];
    }

    /** One call of the monitor with the solver's current time and fields. */
    method Call(time: real, u: seq<real>, vel: seq<real>, psi: seq<real>, tau: seq<real>)
      requires Valid() && Admissible(Current(), Snapshot(time, u, vel, psi, tau))
      modifies this
      ensures Current() == Next(thresholds, old(Current()), Snapshot(time, u, vel, psi, tau))
      ensures history == old(history) + [Snapshot(time, u, vel, psi, tau)]
      ensures Valid()
    {
      var snap := Snapshot(time, u, vel, psi, tau);
      ghost var h := history + [snap];
      var next := Step(thresholds, Current(), snap);
      NextConsistent(thresholds, Current(), history, snap);
      assert Consistent(thresholds, next, h);
      t, v, solStack, pltStack := next.t, next.v, next.solStack, next.pltStack;
      history := h;
      assert Current() == next;
    }
  }

  /**
    The plot-stack part of a monitor call: push the first frame, or interpolate
    between the previous snapshot and this one.
  */
  method PushFrames(thresholds: seq<Threshold>, st: State, snap: Snapshot, regime: Threshold)
    returns (pltStack: seq<PlotEntry>)
    requires GoodThresholds(thresholds) && Admissible(st, snap)
    requires regime == Regime(thresholds, snap)
    ensures pltStack == NextPlot(thresholds, st, snap)
  {
    var solStack := st.solStack + [snap];
    pltStack := st.pltStack;
    if |pltStack| == 0 {
      pltStack := pltStack + [PlotEntry(regime.color, snap.t, snap.u, snap.v, snap.psi, snap.tau)];
    } else if |solStack| >= 2 {
      var t0 := pltStack[|pltStack| - 1].t;
      var prev := solStack[|solStack| - 2];
      var added := Interpolate(t0, prev, snap, regime);
      assert added == Frames(NextTimes(thresholds, st, snap), prev, snap, regime.color);
      pltStack := pltStack + added;
    }
  }

  /**
    The body of a monitor call on the lists it updates: append the time and the
    peak slip rate, push the snapshot, select the regime, push the first frame
    or the interpolated frames, and drop the oldest snapshot beyond the window.
  */
  method Step(thresholds: seq<Threshold>, st: State, snap: Snapshot) returns (next: State)
    requires GoodThresholds(thresholds) && Admissible(st, snap)
    ensures next == Next(thresholds, st, snap)
  {
    var vmax := Max(snap.v);
    var t := st.t + [snap.t];
    var v := st.v + [vmax];
    var solStack := st.solStack + [snap];
    var regime := SelectRegime(thresholds, vmax);
    var pltStack := PushFrames(thresholds, st, snap, regime);
    if |solStack| >= Window + 1 {
      solStack := solStack[1..];
    }
    next := State(t, v, solStack, pltStack);
  }
}
