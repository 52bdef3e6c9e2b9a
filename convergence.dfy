/**
 * Convergence detection. Before every round the trial computes the current
 * mean wait n and compares it with the retained mean `prev` (initially 0):
 *   - n and prev both 0: the streak grows; 20 checks in a row stop the trial;
 *   - both nonzero and prev / n < 1.02: the streak grows while it is below 4,
 *     keeping prev as the anchor; with a streak of 4 the trial stops;
 *   - otherwise: the streak restarts at 0, anchored at n.
 * The reported value is the final prev, which on stopping is n.
 */
module Convergence {

  /** Checks in a row with a zero mean that stop a trial. */
  const ZeroStreak: int := 20
  /** Streak that, followed by one more check in the band, stops a trial. */
  const BandStreak: int := 4
  /** The band: a mean n is close to the anchor prev when prev / n < Band. */
  const Band: real := 1.02

  /** What one check decides: go on with new bookkeeping, or stop and report. */
  datatype Decision = Continue(prev: real, stable: int) | Stop(prev: real)

  /**
   * One check, given the current mean n, the retained mean prev and the
   * streak length stable. Stopping reports the current mean; otherwise
   * either the streak restarts anchored at the current mean, or the streak
   * grows by one and the anchor is kept.
   */
  function Check(n: real, prev: real, stable: int): (d: Decision)
    ensures d.Stop? ==> d.prev == n
    ensures d.Continue? ==> (d.prev == n && d.stable == 0) || (d.prev == prev && d.stable == stable + 1)
  {
    if n == 0.0 && prev == 0.0 then
      if stable + 1 == ZeroStreak then Stop(n) else Continue(prev, stable + 1)
    else if n != 0.0 && prev != 0.0 then
      if prev / n < Band && stable < BandStreak then Continue(prev, stable + 1)
      else if prev / n < Band && stable >= BandStreak then Stop(n)
      else Continue(n, 0)
    else
      Continue(n, 0)
  }

  /** The state of the detector after a sequence of checks. */
  datatype Outcome = Running(prev: real, stable: int) | Stopped(value: real, at: nat)

  /**
   * The detector run over the means of successive checks, starting from
   * prev = 0 and an empty streak; it stops at the first check that says so.
   */
  function Monitor(means: seq<real>): Outcome
  {
    if means == [] then Running(0.0, 0)
    else
      match Monitor(means[..|means| - 1])
      case Stopped(v, k) => Stopped(v, k)
      case Running(prev, stable) =>
        match Check(means[|means| - 1], prev, stable)
        case Stop(v) => Stopped(v, |means| - 1)
        case Continue(prev', stable') => Running(prev', stable')
  }

  /** A running detector handles one more check by applying Check to it. */
  lemma MonitorOneMore(means: seq<real>, n: real)
    requires Monitor(means).Running?
    ensures Monitor(means + [n]) ==
      match Check(n, Monitor(means).prev, Monitor(means).stable)
      case Stop(v) => Stopped(v, |means|)
      case Continue(prev', stable') => Running(prev', stable')
  {
  }

  /** Once the detector has stopped, later checks do not change its outcome. */
  lemma {:induction false} MonitorStaysStopped(means: seq<real>, k: nat)
    requires k <= |means| && Monitor(means[..k]).Stopped?
    ensures Monitor(means) == Monitor(means[..k])
  {
    if k < |means| {
      var init := means[..|means| - 1];
      assert init[..k] == means[..k];
      MonitorStaysStopped(init, k);
    } else {
      assert means[..k] == means;
    }
  }

  /**
   * What the bookkeeping records after the checks `means`: with prev = 0, the
   * last `stable` means were 0; otherwise prev is the mean `stable` checks
   * before the last, and every mean since then is nonzero and in the band.
   */
  ghost predicate Tracking(means: seq<real>, prev: real, stable: int)
  {
    if prev == 0.0 then
      0 <= stable < ZeroStreak && stable <= |means| &&
      forall j :: |means| - stable <= j < |means| ==> means[j] == 0.0
    else
      0 <= stable <= BandStreak && stable < |means| &&
      means[|means| - stable - 1] == prev &&
      forall j :: |means| - stable <= j < |means| ==> means[j] != 0.0 && prev / means[j] < Band
  }

  /** While the detector runs, its bookkeeping is as Tracking describes. */
  lemma {:induction false} MonitorTracks(means: seq<real>)
    ensures Monitor(means).Running? ==> Tracking(means, Monitor(means).prev, Monitor(means).stable)
  {
    if means != [] {
      var init := means[..|means| - 1];
      MonitorTracks(init);
      assert forall j :: 0 <= j < |init| ==> means[j] == init[j];
    }
  }

  /**
   * A stop reported at check k is backed by a sustained run: either the means
   * of the last 20 checks were all 0 and 0 is reported, or the mean five
   * checks earlier is a nonzero anchor and each of the five means since then
   * is nonzero and in the band relative to it, and the last one is reported.
   */
  ghost predicate SustainedAt(means: seq<real>, k: int, v: real)
  {
    0 <= k < |means| && v == means[k] &&
    (v == 0.0 ==>
      ZeroStreak - 1 <= k && forall j :: k - (ZeroStreak - 1) <= j <= k ==> means[j] == 0.0) &&
    (v != 0.0 ==>
      BandStreak + 1 <= k && means[k - BandStreak - 1] != 0.0 &&
      forall j :: k - BandStreak <= j <= k ==> means[j] != 0.0 && means[k - BandStreak - 1] / means[j] < Band)
  }

  /** Every stop of the detector is backed by a sustained run. */
  lemma {:induction false} StopIsSustained(means: seq<real>)
    ensures Monitor(means).Stopped? ==> SustainedAt(means, Monitor(means).at, Monitor(means).value)
  {
    if means != [] {
      var init := means[..|means| - 1];
      assert forall j :: 0 <= j < |init| ==> means[j] == init[j];
      StopIsSustained(init);
      MonitorTracks(init);
    }
  }

  /**
   * Checks whose means are all 0 run with a growing streak and prev kept at 0,
   * and the 20th such check stops the trial reporting 0.
   */
  lemma {:induction false} ZeroMeansStopAtTwenty(k: nat)
    requires k <= ZeroStreak
    ensures Monitor(seq(k, _ => 0.0)) == if k < ZeroStreak then Running(0.0, k) else Stopped(0.0, ZeroStreak - 1)
  {
    if k > 0 {
      ZeroMeansStopAtTwenty(k - 1);
      assert seq(k, _ => 0.0)[..k - 1] == seq(k - 1, _ => 0.0);
    }
  }

  /**
   * From any point where the detector runs with prev = 0 and streak s, the
   * next 20 - s zero means stop it, reporting 0 at the last of them.
   */
  lemma {:induction false} ZeroRunStops(ms: seq<real>, k: nat, s: int)
    requires 0 <= s < ZeroStreak && k + ZeroStreak - s <= |ms|
    requires Monitor(ms[..k]) == Running(0.0, s)
    requires forall j :: k <= j < k + ZeroStreak - s ==> ms[j] == 0.0
    ensures Monitor(ms[..k + ZeroStreak - s]) == Stopped(0.0, k + ZeroStreak - s - 1)
    decreases ZeroStreak - s
  {
    assert ms[..k + 1][..k] == ms[..k];
    if s < ZeroStreak - 1 {
      ZeroRunStops(ms, k + 1, s + 1);
    }
  }

  /**
   * From any check k where the detector anchors at a nonzero mean a, five
   * further means, each nonzero and in the band relative to a, stop it at the
   * last of them, reporting that mean.
   */
  lemma BandRunStops(ms: seq<real>, k: nat, a: real)
    requires k + BandStreak + 2 <= |ms| && a != 0.0
    requires Monitor(ms[..k + 1]) == Running(a, 0)
    requires forall j :: k + 1 <= j <= k + BandStreak + 1 ==> ms[j] != 0.0 && a / ms[j] < Band
    ensures Monitor(ms[..k + BandStreak + 2]) == Stopped(ms[k + BandStreak + 1], k + BandStreak + 1)
  {
    forall i | k + 1 <= i <= k + BandStreak + 1 ensures ms[..i + 1][..i] == ms[..i] { }
    assert Monitor(ms[..k + 2]) == Running(a, 1);
    assert Monitor(ms[..k + 3]) == Running(a, 2);
    assert Monitor(ms[..k + 4]) == Running(a, 3);
    assert Monitor(ms[..k + 5]) == Running(a, 4);
  }

  /**
   * The first check of a trial sees mean 0; if every later mean is the same
   * nonzero v, the second check anchors at v, four more grow the streak, and
   * the seventh check stops the trial reporting v.
   */
  lemma SteadyMeanStops(v: real)
    requires v != 0.0
    ensures Monitor([0.0, v, v, v, v, v, v]) == Stopped(v, 6)
  {
    var ms := [0.0, v, v, v, v, v, v];
    assert v / v == 1.0;
    forall k | 1 <= k <= 7 ensures ms[..k][..k - 1] == ms[..k - 1] { }
    assert Monitor(ms[..1]) == Running(0.0, 1);
    assert Monitor(ms[..2]) == Running(v, 0);
    assert Monitor(ms[..3]) == Running(v, 1);
    assert Monitor(ms[..4]) == Running(v, 2);
    assert Monitor(ms[..5]) == Running(v, 3);
    assert Monitor(ms[..6]) == Running(v, 4);
    assert ms[..7] == ms;
  }

  /**
   * For positive means, the band test is one-sided: the streak restarts
   * exactly when the mean has fallen so that prev >= 1.02 * n, and a mean that
   * has not fallen below prev never restarts it, however much it has risen.
   */
  lemma BandIsOneSided(n: real, prev: real, stable: int)
    requires 0.0 < n && 0.0 < prev && 0 <= stable
    ensures Check(n, prev, stable) == Continue(n, 0) <==> prev >= Band * n
    ensures prev <= n ==> Check(n, prev, stable) != Continue(n, 0)
  {
    var q := prev / n;
    assert q * n == prev;
    assert q < Band <==> prev < Band * n;
    assert prev <= n ==> q <= 1.0;
  }

  /**
   * Two zero means, then a nonzero anchor a followed by five means, each
   * nonzero and in the band relative to a: the detector stops at the last of
   * them and reports it.
   */
  lemma SustainedMeansStop(ms: seq<real>)
    requires |ms| == 8 && ms[0] == 0.0 && ms[1] == 0.0 && ms[2] != 0.0
    requires forall j :: 3 <= j < 8 ==> ms[j] != 0.0 && ms[2] / ms[j] < Band
    ensures Monitor(ms) == Stopped(ms[7], 7)
  {
    forall k | 1 <= k <= 8 ensures ms[..k][..k - 1] == ms[..k - 1] { }
    assert Monitor(ms[..1]) == Running(0.0, 1);
    assert Monitor(ms[..2]) == Running(0.0, 2);
    assert Monitor(ms[..3]) == Running(ms[2], 0);
    assert Monitor(ms[..4]) == Running(ms[2], 1);
    assert Monitor(ms[..5]) == Running(ms[2], 2);
    assert Monitor(ms[..6]) == Running(ms[2], 3);
    assert Monitor(ms[..7]) == Running(ms[2], 4);
    assert ms[..8] == ms;
  }
}
