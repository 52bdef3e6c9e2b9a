/**
 * One trial for a fixed processor count p and module count m: reset the
 * arrays, then repeat "check convergence, run a round" until the detector
 * stops, and report its value.
 *
 * The random generator is replaced by supplied draws: `meanDraws` holds the
 * per-processor Gaussian means drawn at the reset, and `draws[c]` holds, for
 * every processor, the draw it would use if it is idle in round c. A trial
 * that has not converged when the draws run out reports nothing.
 */
module Trial {
  import opened Arbiter
  import opened Rounds
  import opened MeanWait
  import opened Convergence

  datatype Option<T> = None | Some(value: T)

  /** Every round supplies one draw per processor. */
  ghost predicate WellFormedDraws(draws: seq<seq<int>>, p: nat)
  {
    forall c :: 0 <= c < |draws| ==> |draws[c]| == p
  }

  /** The per-processor means a trial uses: drawn in Gaussian mode, left at 0 otherwise. */
  ghost function MeanTable(dist: Distribution, meanDraws: seq<int>): (t: seq<int>)
    ensures |t| == |meanDraws|
  {
    if dist.Gaussian? then meanDraws else seq(|meanDraws|, _ => 0)
  }

  /** The state of a trial after c rounds. */
  ghost function StateAfter(p: nat, m: int, dist: Distribution, means: seq<int>, draws: seq<seq<int>>, c: nat): (s: Snapshot)
    requires |means| == p && WellFormedDraws(draws, p) && c <= |draws|
    ensures s.Sized(p)
  {
    if c == 0 then Reset(p) else Round(StateAfter(p, m, dist, means, draws, c - 1), p, m, dist, means, draws[c - 1])
  }

  /** After any number of rounds, the trial invariant holds. */
  lemma {:induction false} InvariantAfter(p: nat, m: int, dist: Distribution, means: seq<int>, draws: seq<seq<int>>, c: nat)
    requires |means| == p && WellFormedDraws(draws, p) && c <= |draws|
    ensures TrialInvariant(StateAfter(p, m, dist, means, draws, c), p, c)
  {
    if c == 0 {
      ResetSatisfiesInvariant(p);
    } else {
      InvariantAfter(p, m, dist, means, draws, c - 1);
      RoundPreservesInvariant(StateAfter(p, m, dist, means, draws, c - 1), p, c - 1, m, dist, means, draws[c - 1]);
    }
  }

  /** The mean wait seen by the check before round c. */
  ghost function MeanAt(p: nat, m: int, dist: Distribution, means: seq<int>, draws: seq<seq<int>>, c: nat): real
    requires 1 <= p && |means| == p && WellFormedDraws(draws, p) && c <= |draws|
  {
    Mean(StateAfter(p, m, dist, means, draws, c).waits, p, c)
  }

  /**
   * The mean wait seen by the check before round c lies in [0, 1): a
   * processor waits at most every round but its first.
   */
  lemma MeanAfterInUnitRange(p: nat, m: int, dist: Distribution, means: seq<int>, draws: seq<seq<int>>, c: nat)
    requires 1 <= p && |means| == p && WellFormedDraws(draws, p) && c <= |draws|
    ensures 0.0 <= MeanAt(p, m, dist, means, draws, c) < 1.0
  {
    var s := StateAfter(p, m, dist, means, draws, c);
    InvariantAfter(p, m, dist, means, draws, c);
    MeanZeroIffNoWaits(s.waits, p, c);
    if c > 0 {
      MeanBelowOne(s.waits, p, c);
    }
  }

  /** The means seen by the first k checks of a trial. */
  ghost function ObservedMeans(p: nat, m: int, dist: Distribution, means: seq<int>, draws: seq<seq<int>>, k: nat): (ms: seq<real>)
    requires 1 <= p && |means| == p && WellFormedDraws(draws, p) && k <= |draws| + 1
    ensures |ms| == k
  {
    if k == 0 then [] else ObservedMeans(p, m, dist, means, draws, k - 1) + [MeanAt(p, m, dist, means, draws, k - 1)]
  }

  /** The check before round c observes the mean wait of the state after c rounds. */
  lemma {:induction false} ObservedMeanAt(p: nat, m: int, dist: Distribution, means: seq<int>, draws: seq<seq<int>>, k: nat, c: nat)
    requires 1 <= p && |means| == p && WellFormedDraws(draws, p) && c < k <= |draws| + 1
    ensures ObservedMeans(p, m, dist, means, draws, k)[c] == MeanAt(p, m, dist, means, draws, c)
  {
    if c < k - 1 {
      ObservedMeanAt(p, m, dist, means, draws, k - 1, c);
    }
  }

  /**
   * Round c of a trial, in place: the request phase with that round's draws,
   * then the grant phase; the arrays go from the state after c rounds to the
   * state after c + 1.
   */
  method PlayRound(processors: array<int>, waits: array<int>, priority: array<int>, means: array<int>,
                   p: nat, m: int, dist: Distribution, draws: seq<seq<int>>, c: nat)
    requires processors != waits && processors != priority && waits != priority
    requires means != processors && means != waits && means != priority
    requires processors.Length == p && waits.Length == p && priority.Length == p
    requires means.Length == p && WellFormedDraws(draws, p) && c < |draws|
    requires View(processors, waits, priority) == StateAfter(p, m, dist, means[..], draws, c)
    modifies processors, waits, priority
    ensures View(processors, waits, priority) == StateAfter(p, m, dist, means[..], draws, c + 1)
  {
    IssueRequests(processors, waits, priority, means, dist, draws[c]);
    GrantAccess(processors, waits, priority, p, m);
  }

  /**
   * The arrays of a new trial, zero-filled as Java allocates them, then reset;
   * in Gaussian mode the means are drawn.
   */
  method NewTrial(p: nat, dist: Distribution, meanDraws: seq<int>)
    returns (processors: array<int>, waits: array<int>, priority: array<int>, means: array<int>)
    requires |meanDraws| == p
    ensures fresh(processors) && fresh(waits) && fresh(priority) && fresh(means)
    ensures processors != waits && processors != priority && waits != priority
    ensures means != processors && means != waits && means != priority
    ensures processors.Length == p && waits.Length == p && priority.Length == p && means.Length == p
    ensures View(processors, waits, priority) == Reset(p)
    ensures means[..] == MeanTable(dist, meanDraws)
  {
    processors := new int[p](_ => 0);
    waits := new int[p](_ => 0);
    priority := new int[p](_ => 0);
    means := new int[p](_ => 0);
    ResetTrial(processors, waits, priority, means, dist, meanDraws);
  }

  /**
   * The rest of a trial from the check before round c, with the detector's
   * retained mean prev and streak stable: check the mean wait of the state
   * after c rounds, then stop, give up after the check before the last
   * supplied round has been played, or go on.
   */
  ghost function RunFrom(p: nat, m: int, dist: Distribution, means: seq<int>, draws: seq<seq<int>>,
                         c: nat, prev: real, stable: int): Outcome
    requires 1 <= p && |means| == p && WellFormedDraws(draws, p) && c <= |draws|
    decreases |draws| - c
  {
    match Check(MeanAt(p, m, dist, means, draws, c), prev, stable)
    case Stop(v) => Stopped(v, c)
    case Continue(prev', stable') =>
      if c == |draws| then Running(prev', stable') else RunFrom(p, m, dist, means, draws, c + 1, prev', stable')
  }

  /** The outcome of a trial: the detector starts with prev = 0 and an empty streak. */
  ghost function TrialOutcome(p: nat, m: int, dist: Distribution, means: seq<int>, draws: seq<seq<int>>): Outcome
    requires 1 <= p && |means| == p && WellFormedDraws(draws, p)
  {
    RunFrom(p, m, dist, means, draws, 0, 0.0, 0)
  }

  /**
   * Given the means ms that the checks before rounds 0 .. |draws| observe,
   * the rest of a trial from a check c where the detector, run over the
   * means before it, is still running with prev and stable, ends as the
   * detector run over all of ms.
   */
  lemma {:induction false} RunFromIsMonitor(p: nat, m: int, dist: Distribution, means: seq<int>, draws: seq<seq<int>>,
                                            ms: seq<real>, c: nat, prev: real, stable: int)
    requires 1 <= p && |means| == p && WellFormedDraws(draws, p) && c <= |draws|
    requires |ms| == |draws| + 1 && forall j :: 0 <= j < |ms| ==> ms[j] == MeanAt(p, m, dist, means, draws, j)
    requires Monitor(ms[..c]) == Running(prev, stable)
    ensures RunFrom(p, m, dist, means, draws, c, prev, stable) == Monitor(ms)
    decreases |draws| - c
  {
    assert ms[c] == MeanAt(p, m, dist, means, draws, c);
    assert ms[..c] + [ms[c]] == ms[..c + 1];
    MonitorOneMore(ms[..c], ms[c]);
    match Check(ms[c], prev, stable)
    case Stop(_) =>
      MonitorStaysStopped(ms, c + 1);
    case Continue(prev', stable') =>
      if c == |draws| {
        assert ms[..c + 1] == ms;
      } else {
        RunFromIsMonitor(p, m, dist, means, draws, ms, c + 1, prev', stable');
      }
  }

  /**
   * A trial stops at the first check where the detector, run over the
   * observed means, stops; it reports the mean wait of that check, which lies
   * in [0, 1) and is backed by a sustained run of means.
   */
  lemma TrialOutcomeIsMonitor(p: nat, m: int, dist: Distribution, means: seq<int>, draws: seq<seq<int>>)
    requires 1 <= p && |means| == p && WellFormedDraws(draws, p)
    ensures TrialOutcome(p, m, dist, means, draws) == Monitor(ObservedMeans(p, m, dist, means, draws, |draws| + 1))
    ensures var o := TrialOutcome(p, m, dist, means, draws);
      o.Stopped? ==>
        o.at <= |draws| && o.value == MeanAt(p, m, dist, means, draws, o.at) && 0.0 <= o.value < 1.0 &&
        SustainedAt(ObservedMeans(p, m, dist, means, draws, |draws| + 1), o.at, o.value)
  {
    var ms := ObservedMeans(p, m, dist, means, draws, |draws| + 1);
    forall j | 0 <= j < |ms| ensures ms[j] == MeanAt(p, m, dist, means, draws, j) {
      ObservedMeanAt(p, m, dist, means, draws, |draws| + 1, j);
    }
    assert ms[..0] == [];
    RunFromIsMonitor(p, m, dist, means, draws, ms, 0, 0.0, 0);
    StopIsSustained(ms);
    var o := Monitor(ms);
    if o.Stopped? {
      MeanAfterInUnitRange(p, m, dist, means, draws, o.at);
    }
  }

  /**
   * A trial in place: reset, then before each round check convergence. It
   * reports the value the trial's outcome stops with, found after `rounds`
   * rounds, or nothing if the draws run out first.
   */
  method RunTrial(p: nat, m: int, dist: Distribution, meanDraws: seq<int>, draws: seq<seq<int>>)
    returns (result: Option<real>, ghost rounds: nat)
    requires 1 <= p && |meanDraws| == p && WellFormedDraws(draws, p)
    ensures TrialOutcome(p, m, dist, MeanTable(dist, meanDraws), draws).Stopped? ==>
      result == Some(TrialOutcome(p, m, dist, MeanTable(dist, meanDraws), draws).value)
    ensures TrialOutcome(p, m, dist, MeanTable(dist, meanDraws), draws).Running? ==> result == None
    ensures rounds == match TrialOutcome(p, m, dist, MeanTable(dist, meanDraws), draws)
      case Stopped(_, at) => at
      case Running(_, _) => |draws|
  {
    var processors, waits, priority, means := NewTrial(p, dist, meanDraws);
    ghost var table := MeanTable(dist, meanDraws);

    var prev: real := 0.0;
    var stable := 0;
    var c := 0;
    while true
      invariant 0 <= c <= |draws|
      invariant processors.Length == p && waits.Length == p && priority.Length == p && means.Length == p
      invariant means[..] == table
      invariant View(processors, waits, priority) == StateAfter(p, m, dist, table, draws, c)
      invariant TrialOutcome(p, m, dist, table, draws) == RunFrom(p, m, dist, table, draws, c, prev, stable)
      modifies processors, waits, priority
      decreases |draws| - c
    {
      var n := AvgCheck(waits, p, c);
      assert n == MeanAt(p, m, dist, table, draws, c);
      var d := Check(n, prev, stable);
      if d.Stop? {
        return Some(d.prev), c;
      }
      prev, stable := d.prev, d.stable;
      if c == |draws| {
        return None, c;
      }
      PlayRound(processors, waits, priority, means, p, m, dist, draws, c);
      c := c + 1;
    }
  }

  // ---------------------------------------------------------------------------
  // Two processors sharing one module

  /**
   * The pair trial: two processors, one module, and a uniform generator on
   * [0, 1), whose draws always pick module 0.
   */
  ghost predicate PairTrial(p: nat, m: int, dist: Distribution, means: seq<int>, draws: seq<seq<int>>)
  {
    p == 2 && m == 1 && dist == Uniform && means == [0, 0] &&
    forall c :: 0 <= c < |draws| ==> draws[c] == [0, 0]
  }

  /**
   * After c >= 1 rounds with two processors and one module, processor c % 2
   * is pending on module 0 and the other one was just granted it; together
   * they have waited c - 1 rounds.
   */
  ghost predicate PairAlternates(s: Snapshot, c: int)
  {
    var j := c % 2;
    s.Sized(2) &&
    s.requests[j] == 0 && s.priority[j] <= 2 &&
    s.requests[1 - j] == Idle && s.priority[1 - j] == 2 &&
    s.waits[0] + s.waits[1] == c - 1
  }

  /** The first round: both processors request module 0 and processor 0 wins the tie. */
  lemma PairFirstRound()
    ensures PairAlternates(Round(Reset(2), 2, 1, Uniform, [0, 0], [0, 0]), 1)
  {
    var r := Requested(Reset(2), Uniform, [0, 0], [0, 0]);
    var t := Granted(r, 2, 1);
    assert r.requests == [0, 0] && r.priority == [0, 0] && r.waits == [0, 0];
    RequestPhaseEffect(Reset(2), Uniform, [0, 0], [0, 0], 0);
    RequestPhaseEffect(Reset(2), Uniform, [0, 0], [0, 0], 1);
    GrantedUpToAt(r, 2, 1);
    assert IsWinner(r.requests, r.priority, 2, 0, 0);
    WinnerUnique(r.requests, r.priority, 2, 0, 0, Winner(r.requests, r.priority, 2, 0));
    assert GrantedBelow(r, 2, 1, 0) && !GrantedBelow(r, 2, 1, 1);
    assert t.requests[1] == 0 && t.priority[1] <= 2 && t.requests[0] == Idle && t.priority[0] == 2;
  }

  /**
   * A later round: the pending processor now has the lower priority and is
   * granted; the other one requests module 0 and waits.
   */
  lemma PairNextRound(s: Snapshot, c: int)
    requires PairAlternates(s, c)
    ensures PairAlternates(Round(s, 2, 1, Uniform, [0, 0], [0, 0]), c + 1)
  {
    var j := c % 2;
    assert (c + 1) % 2 == 1 - j;
    var r := Requested(s, Uniform, [0, 0], [0, 0]);
    var t := Granted(r, 2, 1);
    RequestPhaseEffect(s, Uniform, [0, 0], [0, 0], 0);
    RequestPhaseEffect(s, Uniform, [0, 0], [0, 0], 1);
    GrantedUpToAt(r, 2, 1);
    assert r.requests[j] == 0 && r.priority[j] == s.priority[j] - 1 && r.waits[j] == s.waits[j] + 1;
    assert r.requests[1 - j] == 0 && r.priority[1 - j] == 2 && r.waits[1 - j] == s.waits[1 - j];
    assert IsWinner(r.requests, r.priority, 2, 0, j);
    WinnerUnique(r.requests, r.priority, 2, 0, j, Winner(r.requests, r.priority, 2, 0));
    assert GrantedBelow(r, 2, 1, j) && !GrantedBelow(r, 2, 1, 1 - j);
    assert t.requests[1 - j] == 0 && t.priority[1 - j] <= 2 && t.requests[j] == Idle && t.priority[j] == 2;
    assert t.waits[0] + t.waits[1] == c;
  }

  /** The first round of the pair trial starts the alternation. */
  lemma PairStartsAlternating(p: nat, m: int, dist: Distribution, means: seq<int>, draws: seq<seq<int>>)
    requires PairTrial(p, m, dist, means, draws) && 1 <= |draws|
    ensures WellFormedDraws(draws, p)
    ensures PairAlternates(StateAfter(p, m, dist, means, draws, 1), 1)
  {
    assert draws[0] == [0, 0];
    PairFirstRound();
  }

  /** Each further round of the pair trial keeps the alternation going. */
  lemma PairKeepsAlternating(p: nat, m: int, dist: Distribution, means: seq<int>, draws: seq<seq<int>>, c: nat)
    requires PairTrial(p, m, dist, means, draws) && 2 <= c <= |draws|
    requires WellFormedDraws(draws, p) && PairAlternates(StateAfter(p, m, dist, means, draws, c - 1), c - 1)
    ensures PairAlternates(StateAfter(p, m, dist, means, draws, c), c)
  {
    assert draws[c - 1] == [0, 0];
    PairNextRound(StateAfter(p, m, dist, means, draws, c - 1), c - 1);
  }

  /** After every round of the pair trial, the processors alternate. */
  lemma {:induction false} PairAlternatesAfter(p: nat, m: int, dist: Distribution, means: seq<int>, draws: seq<seq<int>>, c: nat)
    requires PairTrial(p, m, dist, means, draws) && 1 <= c <= |draws|
    ensures WellFormedDraws(draws, p)
    ensures PairAlternates(StateAfter(p, m, dist, means, draws, c), c)
  {
    if c == 1 {
      PairStartsAlternating(p, m, dist, means, draws);
    } else {
      PairAlternatesAfter(p, m, dist, means, draws, c - 1);
      PairKeepsAlternating(p, m, dist, means, draws, c);
    }
  }

  /** In the pair trial, the mean wait after c >= 1 rounds is (c - 1) / 2c. */
  lemma PairMean(p: nat, m: int, dist: Distribution, means: seq<int>, draws: seq<seq<int>>, c: nat)
    requires PairTrial(p, m, dist, means, draws) && 1 <= c <= |draws|
    ensures WellFormedDraws(draws, p)
    ensures MeanAt(p, m, dist, means, draws, c) == ((c - 1) as real) / ((2 * c) as real)
  {
    PairAlternatesAfter(p, m, dist, means, draws, c);
    var w := StateAfter(p, m, dist, means, draws, c).waits;
    assert w[..p] == [w[0], w[1]];
    assert [w[0], w[1]][..1] == [w[0]] && [w[0]][..0] == [];
    assert Sum([w[0]]) == w[0];
    assert Sum([w[0], w[1]]) == w[0] + w[1];
    assert w[0] + w[1] == c - 1;
    assert c * p == 2 * c;
  }

  /** From the third check on, a pair-trial mean is in the band around 1/4. */
  lemma PairMeanInBand(c: nat)
    requires 3 <= c
    ensures ((c - 1) as real) / ((2 * c) as real) != 0.0
    ensures (1.0 / 4.0) / (((c - 1) as real) / ((2 * c) as real)) < Band
  {
  }

  /**
   * In the pair trial, the detector anchored at 1/4 with streak c - 3 at the
   * check before round c stays in the band up to the check before round 7,
   * where it stops reporting 3/7.
   */
  lemma {:induction false} PairStopsAfterAnchor(p: nat, m: int, dist: Distribution, means: seq<int>, draws: seq<seq<int>>, c: nat)
    requires PairTrial(p, m, dist, means, draws) && 7 <= |draws| && 3 <= c <= 7
    ensures WellFormedDraws(draws, p)
    ensures RunFrom(p, m, dist, means, draws, c, 1.0 / 4.0, c - 3) == Stopped(3.0 / 7.0, 7)
    decreases 7 - c
  {
    PairMean(p, m, dist, means, draws, c);
    PairMeanInBand(c);
    if c < 7 {
      PairStopsAfterAnchor(p, m, dist, means, draws, c + 1);
    }
  }

  /**
   * The pair trial is deterministic: its means are 0, 0, 1/4, 1/3, 3/8, 2/5,
   * 5/12, 3/7; the detector anchors at 1/4 and stops at the check after seven
   * rounds reporting 3/7, while the mean is still rising towards 1/2.
   */
  lemma PairTrialReportsThreeSevenths(p: nat, m: int, dist: Distribution, means: seq<int>, draws: seq<seq<int>>)
    requires PairTrial(p, m, dist, means, draws) && 7 <= |draws|
    ensures WellFormedDraws(draws, p)
    ensures TrialOutcome(p, m, dist, means, draws) == Stopped(3.0 / 7.0, 7)
  {
    PairStopsAfterAnchor(p, m, dist, means, draws, 3);
    PairMean(p, m, dist, means, draws, 1);
    PairMean(p, m, dist, means, draws, 2);
    assert MeanAt(p, m, dist, means, draws, 0) == 0.0;
    assert MeanAt(p, m, dist, means, draws, 1) == 0.0;
    assert MeanAt(p, m, dist, means, draws, 2) == 1.0 / 4.0;
    assert RunFrom(p, m, dist, means, draws, 2, 0.0, 2) == Stopped(3.0 / 7.0, 7);
    assert RunFrom(p, m, dist, means, draws, 1, 0.0, 1) == Stopped(3.0 / 7.0, 7);
  }
}
