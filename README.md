# Processing elements vs memory modules — a verified model of the simulation core

The simulator estimates how long processors wait for exclusive access to
shared memory modules. A trial fixes p processors and m modules. It resets
three per-processor arrays: `processors` (the requested module, or -1 when
idle), `waits` and `priority`. It then repeats two steps:

- check convergence of the mean wait;
- run a round. In a round, every idle processor requests a module (a uniform
  draw on [0, m), or a per-processor Gaussian draw folded to be non-negative).
  Every pending processor waits once more and its priority drops by one. Then
  modules 0 .. m-1 in turn go to the arbiter's winner: the requester with the
  lowest priority, with the lowest index winning a tie. The winner becomes
  idle with priority p.

The trial reports the mean wait at which the detector stops.

The Dafny modules follow the structure of `Main.java`:

- `Arbiter` (`arbiter.dfy`) models `getNextProcessor`. It is a read-only scan
  over the two arrays, proved equal to a declarative `Winner` that picks the
  best candidate.
- `Rounds` (`rounds.dfy`) models the reset and the two phases of a round. They
  are loops over arrays, each proved against a value-level function
  (`Reset`, `Requested`, `Granted`, `Round` over a `Snapshot` of the
  arrays). The file also proves the invariants that a round keeps.
- `MeanWait` (`mean_wait.dfy`) models `avgCheck`. The loop is proved to
  compute the mean of the waits over c rounds and p processors, treating
  doubles as exact reals.
- `Convergence` (`convergence.dfy`) models the stopping rule. `Check` is one
  decision. `Monitor` is the detector run over a sequence of observed means.
- `Trial` (`trial.dfy`) models one trial in place: `RunTrial` is the
  `while (true)` loop, proved against the functional `TrialOutcome`. Lemmas
  connect that outcome to `Monitor` over the means the trial observes. The
  file also works out the two-processor, one-module trial completely.

The random generator cannot be modelled. Its values are supplied instead:
`meanDraws` holds the per-processor Gaussian means drawn at the reset, and
`draws[c][i]` is the draw processor i uses if it is idle in round c. For a
Gaussian trial this draw is the scaled and rounded deviation. A trial that
has not stopped when the draws run out reports `None`.

The band test `prev / n < 1.02` is one-sided: it accepts any rise of the
mean and restarts the streak only when the mean has fallen so that
`prev >= 1.02 * n` (`BandIsOneSided`).

One consequence: with two processors and one module, the mean wait after c
rounds is (c - 1) / 2c, which rises towards 1/2. The detector nevertheless
anchors at 1/4 and stops after seven rounds, reporting 3/7
(`PairTrialReportsThreeSevenths`).

## Model

| member | source | states |
|---|---|---|
| Arbiter.GetNextProcessor | src/dev/samatyseck/Main.java:177-190 | the scan returns exactly the declarative winner of the module (no requester gives -1, otherwise a processor index in [0, p)); it changes no array |
| Arbiter.Winner | src/dev/samatyseck/Main.java:178-189 | the result is -1 exactly when no processor requests the module with a priority below p + 1; otherwise it is such a requester, and no other requester has a lower priority or an equal priority and a lower index |
| Arbiter.BestOfFirstExists | src/dev/samatyseck/Main.java:183-188 | among the first k processors, when one is a candidate, one candidate beats all the others, so the scan always has a best choice |
| Arbiter.WinnerUnique | src/dev/samatyseck/Main.java:179-180 | the tie-break makes the winner unique |
| Arbiter.WinnerDependsOnlyOnRequesters | src/dev/samatyseck/Main.java:136-144 | the winner of a module depends only on which processors request it and on their priorities, so granting one module never changes another module's winner |
| Arbiter.EveryRequesterAdmitted | src/dev/samatyseck/Main.java:181-189 | when every priority is at most p, the starting bound p + 1 excludes nobody: -1 exactly when nobody requests the module, otherwise a processor that requests it |
| Rounds.Fold | src/dev/samatyseck/Main.java:124-126 | the Gaussian sign fold is never negative, equals the draw or its negation, and is not clamped below m |
| Rounds.RequestPhaseEffect | src/dev/samatyseck/Main.java:118-135 | per processor: an idle one gets a new request (the uniform draw itself, or a non-negative Gaussian address) with its counters unchanged; a pending one keeps its request, its waits grow by 1 and its priority drops by 1 |
| Rounds.RequestedUpToAt | src/dev/samatyseck/Main.java:118-135 | after the loop has handled processors 0 .. k-1, those are updated as one step says and the others are untouched |
| Rounds.IssueRequests | src/dev/samatyseck/Main.java:118-135 | the in-place request loop leaves the arrays in the state of the request phase applied to the arrays before it |
| Rounds.GrantedUpToAt | src/dev/samatyseck/Main.java:136-144 | after modules 0 .. k-1 are granted in turn, exactly the processors that won a module below k against the state before the phase are idle with priority p; every other processor keeps its request and priority |
| Rounds.GrantAccess | src/dev/samatyseck/Main.java:136-144 | the in-place grant loop leaves the arrays in the state of the grant phase, and leaves `waits` untouched |
| Rounds.GrantIsExclusive | src/dev/samatyseck/Main.java:136-144 | two processors granted in one round requested different modules, and a granted processor had the lowest priority among its module's requesters (the lowest index on a tie) |
| Rounds.OutOfRangeNotGranted | src/dev/samatyseck/Main.java:136-144 | a request outside [0, m) is never granted: its request and priority survive the grant phase |
| Rounds.RequestedModuleIsGranted | src/dev/samatyseck/Main.java:136-144 | with all priorities at most p, every requested module in [0, m) is granted to one of its requesters |
| Rounds.OutOfRangeWaitsEachRound | src/dev/samatyseck/Main.java:118-144 | a processor holding an out-of-range request stays pending in every round: same request, one more wait, priority one lower |
| Rounds.ResetTrial | src/dev/samatyseck/Main.java:69-78 | after the reset every processor is idle with no waits and priority 0; `means` holds the mean draws in Gaussian mode and is untouched otherwise |
| Rounds.ResetSatisfiesInvariant | src/dev/samatyseck/Main.java:69-78 | the reset state satisfies the trial invariant for zero rounds |
| Rounds.RoundPreservesInvariant | src/dev/samatyseck/Main.java:118-145 | a round keeps priorities at most p and waits in [0, c); each wait count grows by exactly 1 for a processor pending at the start of the round and otherwise stays the same, so waits never decrease |
| MeanWait.AvgCheck | src/dev/samatyseck/Main.java:163-175 | the loop computes the total waits over c * p, and 0 when c = 0 |
| MeanWait.MeanZeroIffNoWaits | src/dev/samatyseck/Main.java:163-175 | the mean wait is never negative, is 0 before any round, and after that is 0 exactly when no processor has waited |
| MeanWait.MeanBelowOne | src/dev/samatyseck/Main.java:163-175 | when each processor waited fewer than c rounds, the mean is below 1 |
| MeanWait.SumNonNegative | src/dev/samatyseck/Main.java:170-172 | non-negative wait counts have a non-negative total |
| MeanWait.SumZeroIffAllZero | src/dev/samatyseck/Main.java:170-172 | non-negative wait counts total 0 exactly when every one is 0 |
| MeanWait.SumBelow | src/dev/samatyseck/Main.java:170-172 | counts each below c total less than c times their number |
| Convergence.Check | src/dev/samatyseck/Main.java:94-116 | one check either stops, reporting the current mean, or goes on: anchored at the current mean with a fresh streak, or keeping the anchor with the streak one longer |
| Convergence.MonitorStaysStopped | src/dev/samatyseck/Main.java:97-106 | once the detector stops (the loop breaks), later means do not change its outcome |
| Convergence.MonitorTracks | src/dev/samatyseck/Main.java:95-116 | while running, a zero anchor means the last `stable` means were 0; a nonzero anchor is the mean `stable` checks back, and every mean since is nonzero and in the band |
| Convergence.StopIsSustained | src/dev/samatyseck/Main.java:95-106 | every stop is backed by either 20 zero means in a row, or a nonzero anchor followed by five nonzero means in the band, the last of which is reported |
| Convergence.ZeroMeansStopAtTwenty | src/dev/samatyseck/Main.java:95-100 | zero means keep the detector running with a growing streak until the 20th check, which stops reporting 0 |
| Convergence.ZeroRunStops | src/dev/samatyseck/Main.java:95-100 | from any check where the detector runs with prev = 0 and streak s, 20 - s further zero means stop it, reporting 0 |
| Convergence.BandRunStops | src/dev/samatyseck/Main.java:101-106 | from any check where the detector anchors at a nonzero mean, five further nonzero means in its band stop it at the last one, reporting that mean |
| Convergence.SteadyMeanStops | src/dev/samatyseck/Main.java:101-106 | a first zero mean followed by a steady nonzero mean v stops at the seventh check, reporting v |
| Convergence.SustainedMeansStop | src/dev/samatyseck/Main.java:95-116 | two zero means, then a nonzero anchor and five means in its band, stop the detector at the last one |
| Convergence.BandIsOneSided | src/dev/samatyseck/Main.java:101-112 | for positive means the streak restarts exactly when prev >= 1.02 * n, and never when the mean has not fallen |
| Trial.PlayRound | src/dev/samatyseck/Main.java:118-145 | one round in place takes the arrays from the state after c rounds to the state after c + 1 |
| Trial.NewTrial | src/dev/samatyseck/Main.java:62-78 | the arrays of a trial, distinct and of length p, are in the reset state, with the means drawn in Gaussian mode and 0 otherwise |
| Trial.InvariantAfter | src/dev/samatyseck/Main.java:69-145 | after any number of rounds the trial invariant holds |
| Trial.MeanAfterInUnitRange | src/dev/samatyseck/Main.java:94 | every mean the check observes lies in [0, 1) |
| Trial.ObservedMeanAt | src/dev/samatyseck/Main.java:94 | the check before round c observes the mean wait of the state after c rounds |
| Trial.RunFromIsMonitor | src/dev/samatyseck/Main.java:90-146 | the rest of a trial from a check where the detector still runs ends as the detector run over all the observed means |
| Trial.TrialOutcomeIsMonitor | src/dev/samatyseck/Main.java:86-146 | a trial's outcome is the detector over its observed means; a stop reports the mean observed at that check, which lies in [0, 1) and is backed by a sustained run |
| Trial.RunTrial | src/dev/samatyseck/Main.java:69-146 | the in-place trial reports the value its outcome stops with, after that many rounds, or nothing when the draws run out first |
| Trial.PairStartsAlternating | src/dev/samatyseck/Main.java:118-144 | with two processors and one module, the first round grants processor 0 on the tie and leaves processor 1 pending |
| Trial.PairKeepsAlternating | src/dev/samatyseck/Main.java:118-144 | each later round grants the pending processor and leaves the other one pending, adding one wait in total |
| Trial.PairAlternatesAfter | src/dev/samatyseck/Main.java:118-145 | after every round c >= 1 of the pair trial the processors alternate, with c - 1 waits in total |
| Trial.PairMean | src/dev/samatyseck/Main.java:163-175 | the pair trial's mean wait after c >= 1 rounds is (c - 1) / 2c |
| Trial.PairStopsAfterAnchor | src/dev/samatyseck/Main.java:101-106 | anchored at 1/4, the pair trial stays in the band and stops at the check after seven rounds |
| Trial.PairTrialReportsThreeSevenths | src/dev/samatyseck/Main.java:86-146 | the pair trial stops after seven rounds and reports 3/7 |

## Left out

- `main` and the sweeps over p in {2, 4, ..., 64} and m in 1 .. 2048, with the CSV output, are not modelled. They are I/O around a trial and add nothing to its logic.
- `java.util.Random` is not modelled. Its draws are parameters: the uniform `nextInt(m)`, the Gaussian deviation already scaled by sqrt(m / p^2) and rounded, and the means drawn at the reset. Whether a uniform draw lies in [0, m) is therefore the caller's concern.
- Doubles are modelled as exact reals, so rounding in `avgCheck` and in the band quotient is not captured. The Gaussian scaling, `Math.round` and the conversion to int are folded into the supplied draw.
- Java's 32-bit ints are modelled as unbounded. The model does not capture overflow of the wait and priority counters, nor the fold leaving `Integer.MIN_VALUE` negative.
- MeanWait.AvgCheck: requires p >= 1. With p = 0 the Java returns NaN after the first round, and the simulation never runs with p = 0.
- Trial.RunTrial: termination of the `while (true)` loop is not modelled. The supplied draws bound the number of rounds, and a trial still running when they run out reports `None`.
- Trial.NewTrial: allocates fresh arrays per trial, whereas the Java reuses the same arrays across module counts. The reset overwrites all three state arrays, so the state a trial starts from is the same. In uniform mode the means array is only ever the zeros Java allocated.
