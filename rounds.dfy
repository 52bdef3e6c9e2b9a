/**
 * One round of the simulation, over the three per-processor arrays of a
 * trial: `processors` (the module each processor requests, or Idle),
 * `waits` (rounds spent waiting) and `priority` (lower wins).
 *
 * A round has two phases: idle processors issue a request while pending
 * ones count one more round of waiting, then every module 0 .. m-1 is
 * granted to its arbiter's winner.
 */
module Rounds {
  import opened Arbiter

  /** Request value of a processor that is not waiting for any module. */
  const Idle: int := -1

  /** Where requests come from: a uniform draw, or a per-processor Gaussian. */
  datatype Distribution = Uniform | Gaussian

  /** The per-processor state of a trial, as values. */
  datatype Snapshot = Snapshot(requests: seq<int>, waits: seq<int>, priority: seq<int>)
  {
    ghost predicate Sized(p: nat) {
      |requests| == p && |waits| == p && |priority| == p
    }
  }

  /** The three arrays of a trial, read as a Snapshot. */
  ghost function View(processors: array<int>, waits: array<int>, priority: array<int>): Snapshot
    reads processors, waits, priority
  {
    Snapshot(processors[..], waits[..], priority[..])
  }

  /** The state at the start of a trial: all idle, no waits, priority 0. */
  ghost function Reset(p: nat): (s: Snapshot)
    ensures s.Sized(p)
  {
    Snapshot(seq(p, _ => Idle), seq(p, _ => 0), seq(p, _ => 0))
  }

  // ---------------------------------------------------------------------------
  // Request generation

  /**
   * The sign fold of the Gaussian generator: a negative address is replaced by
   * its absolute value, never clamped below the module count.
   */
  function Fold(v: int): (r: int)
    ensures 0 <= r && (r == v || r == -v)
  {
    if v < 0 then -v else v
  }

  /**
   * The module an idle processor requests. For Uniform, `draw` is the value of
   * the uniform generator on [0, m). For Gaussian, `draw` is the Gaussian
   * deviation, already scaled and rounded to an integer, around the processor's
   * fixed `mean`.
   */
  function NewRequest(dist: Distribution, mean: int, draw: int): int
  {
    match dist
    case Uniform => draw
    case Gaussian => Fold(draw + mean)
  }

  /**
   * The request phase for processor i alone: an idle processor issues a new
   * request; a pending one keeps it, its priority drops by one and its wait
   * count grows by one.
   */
  ghost function RequestOne(s: Snapshot, dist: Distribution, means: seq<int>, draws: seq<int>, i: int): (t: Snapshot)
    requires s.Sized(|draws|) && |means| == |draws| && 0 <= i < |draws|
    ensures t.Sized(|draws|)
  {
    if s.requests[i] == Idle then
      s.(requests := s.requests[i := NewRequest(dist, means[i], draws[i])])
    else
      s.(waits := s.waits[i := s.waits[i] + 1], priority := s.priority[i := s.priority[i] - 1])
  }

  /** The request phase for processors 0 .. k-1, in order. */
  ghost function RequestedUpTo(s: Snapshot, dist: Distribution, means: seq<int>, draws: seq<int>, k: nat): (t: Snapshot)
    requires s.Sized(|draws|) && |means| == |draws| && k <= |draws|
    ensures t.Sized(|draws|)
  {
    if k == 0 then s else RequestOne(RequestedUpTo(s, dist, means, draws, k - 1), dist, means, draws, k - 1)
  }

  /** The request phase of a round, for every processor. */
  ghost function Requested(s: Snapshot, dist: Distribution, means: seq<int>, draws: seq<int>): (t: Snapshot)
    requires s.Sized(|draws|) && |means| == |draws|
    ensures t.Sized(|draws|)
  {
    RequestedUpTo(s, dist, means, draws, |draws|)
  }

  /**
   * After the request phase for processors 0 .. k-1, those processors are
   * updated as RequestOne says and the others are untouched.
   */
  lemma {:induction false} RequestedUpToAt(s: Snapshot, dist: Distribution, means: seq<int>, draws: seq<int>, k: nat, i: int)
    requires s.Sized(|draws|) && |means| == |draws| && k <= |draws| && 0 <= i < |draws|
    ensures var t := RequestedUpTo(s, dist, means, draws, k);
      if i < k then
        t.requests[i] == (if s.requests[i] == Idle then NewRequest(dist, means[i], draws[i]) else s.requests[i]) &&
        t.waits[i] == (if s.requests[i] == Idle then s.waits[i] else s.waits[i] + 1) &&
        t.priority[i] == (if s.requests[i] == Idle then s.priority[i] else s.priority[i] - 1)
      else
        t.requests[i] == s.requests[i] && t.waits[i] == s.waits[i] && t.priority[i] == s.priority[i]
  {
    if k > 0 {
      RequestedUpToAt(s, dist, means, draws, k - 1, i);
    }
  }

  /**
   * Per processor, the request phase either issues a request (Gaussian ones are
   * never negative; uniform ones are the draw) and leaves both counters alone,
   * or keeps the request and moves one unit of priority into the wait count.
   */
  lemma RequestPhaseEffect(s: Snapshot, dist: Distribution, means: seq<int>, draws: seq<int>, i: int)
    requires s.Sized(|draws|) && |means| == |draws| && 0 <= i < |draws|
    ensures var t := Requested(s, dist, means, draws);
      if s.requests[i] == Idle then
        (dist.Uniform? ==> t.requests[i] == draws[i]) &&
        (dist.Gaussian? ==> t.requests[i] >= 0) &&
        t.waits[i] == s.waits[i] && t.priority[i] == s.priority[i]
      else
        t.requests[i] == s.requests[i] &&
        t.waits[i] == s.waits[i] + 1 && t.priority[i] == s.priority[i] - 1
  {
    RequestedUpToAt(s, dist, means, draws, |draws|, i);
  }

  // ---------------------------------------------------------------------------
  // Granting

  /** Processor i is granted its module in the grant phase of modules 0 .. k-1. */
  ghost predicate GrantedBelow(s: Snapshot, p: nat, k: int, i: int)
    requires s.Sized(p)
  {
    0 <= i < p && 0 <= s.requests[i] < k && Winner(s.requests, s.priority, p, s.requests[i]) == i
  }

  /**
   * The grant of memory module `mem` on the current state: its winner, if any,
   * becomes idle with priority p; nothing else changes.
   */
  ghost function GrantOne(s: Snapshot, p: nat, mem: int): (t: Snapshot)
    requires s.Sized(p)
    ensures t.Sized(p) && t.waits == s.waits
  {
    var w := Winner(s.requests, s.priority, p, mem);
    if w == NoProcessor then s
    else s.(requests := s.requests[w := Idle], priority := s.priority[w := p])
  }

  /** The grant phase for modules 0 .. k-1, in order, each on the state the previous left. */
  ghost function GrantedUpTo(s: Snapshot, p: nat, k: int): (t: Snapshot)
    requires s.Sized(p)
    ensures t.Sized(p) && t.waits == s.waits
    decreases k
  {
    if k <= 0 then s else GrantOne(GrantedUpTo(s, p, k - 1), p, k - 1)
  }

  /** The grant phase of a round, for modules 0 .. m-1. */
  ghost function Granted(s: Snapshot, p: nat, m: int): (t: Snapshot)
    requires s.Sized(p)
    ensures t.Sized(p) && t.waits == s.waits
  {
    GrantedUpTo(s, p, m)
  }

  /**
   * Granting one module never changes who wins a later one, so the grant
   * phase for modules 0 .. k-1 makes exactly the processors granted against
   * the state before the phase idle with priority p, and leaves every other
   * processor unchanged.
   */
  lemma {:induction false} GrantedUpToAt(s: Snapshot, p: nat, k: int)
    requires s.Sized(p)
    ensures forall i :: 0 <= i < p ==>
      if GrantedBelow(s, p, k, i) then GrantedUpTo(s, p, k).requests[i] == Idle && GrantedUpTo(s, p, k).priority[i] == p
      else GrantedUpTo(s, p, k).requests[i] == s.requests[i] && GrantedUpTo(s, p, k).priority[i] == s.priority[i]
    decreases k
  {
    if k > 0 {
      GrantedUpToAt(s, p, k - 1);
      var t := GrantedUpTo(s, p, k - 1);
      WinnerDependsOnlyOnRequesters(t.requests, t.priority, s.requests, s.priority, p, k - 1);
    }
  }

  /**
   * Access is exclusive: two processors granted in the same round requested
   * different modules; and a granted processor had the lowest priority among
   * the requesters of its module (lowest index on a tie).
   */
  lemma GrantIsExclusive(s: Snapshot, p: nat, m: int, i: int, j: int)
    requires s.Sized(p)
    requires GrantedBelow(s, p, m, i) && GrantedBelow(s, p, m, j)
    ensures s.requests[i] == s.requests[j] ==> i == j
    ensures forall q :: 0 <= q < p && s.requests[q] == s.requests[i] ==>
              s.priority[i] <= s.priority[q] && (q < i ==> s.priority[i] < s.priority[q])
  {
    assert IsWinner(s.requests, s.priority, p, s.requests[i], i);
    forall q | 0 <= q < p && s.requests[q] == s.requests[i]
      ensures s.priority[i] <= s.priority[q] && (q < i ==> s.priority[i] < s.priority[q])
    {
      if s.priority[q] <= p {
        assert Candidate(s.requests, s.priority, p, s.requests[i], q);
      }
    }
  }

  /**
   * A request outside [0, m) is never granted; such a processor keeps its
   * request and its priority through the grant phase.
   */
  lemma OutOfRangeNotGranted(s: Snapshot, p: nat, m: int, i: int)
    requires s.Sized(p) && 0 <= i < p
    requires s.requests[i] < 0 || m <= s.requests[i]
    ensures Granted(s, p, m).requests[i] == s.requests[i]
    ensures Granted(s, p, m).priority[i] == s.priority[i]
  {
    GrantedUpToAt(s, p, m);
  }

  /**
   * With every priority at most p, each module in [0, m) that somebody
   * requests is granted to exactly one of its requesters.
   */
  lemma RequestedModuleIsGranted(s: Snapshot, p: nat, m: int, k: int, j: int)
    requires s.Sized(p) && 0 <= k < m && 0 <= j < p && s.requests[j] == k
    requires forall i :: 0 <= i < p ==> s.priority[i] <= p
    ensures exists w :: GrantedBelow(s, p, m, w) && s.requests[w] == k
  {
    EveryRequesterAdmitted(s.requests, s.priority, p, k);
    var w := Winner(s.requests, s.priority, p, k);
    assert GrantedBelow(s, p, m, w) && s.requests[w] == k;
  }

  /** A whole round: the request phase, then the grant phase. */
  ghost function Round(s: Snapshot, p: nat, m: int, dist: Distribution, means: seq<int>, draws: seq<int>): (t: Snapshot)
    requires s.Sized(p) && |means| == p && |draws| == p
    ensures t.Sized(p)
  {
    Granted(Requested(s, dist, means, draws), p, m)
  }

  // ---------------------------------------------------------------------------
  // Invariants of a trial

  /**
   * What holds after c rounds of a trial: every priority is at most p, and a
   * wait count lies in [0, c); before the first round every processor is idle
   * with no waits, since waiting starts only after a first request.
   */
  ghost predicate TrialInvariant(s: Snapshot, p: nat, c: int)
  {
    s.Sized(p) && 0 <= c &&
    forall i :: 0 <= i < p ==>
      s.priority[i] <= p && 0 <= s.waits[i] &&
      if c == 0 then s.waits[i] == 0 && s.requests[i] == Idle else s.waits[i] < c
  }

  /** The reset state satisfies the invariant with no rounds run. */
  lemma ResetSatisfiesInvariant(p: nat)
    ensures TrialInvariant(Reset(p), p, 0)
  {
  }

  /**
   * A round keeps the invariant with the round count one higher, and no wait
   * count ever decreases: it grows by exactly one for a processor pending at
   * the start of the round and stays the same for an idle one.
   */
  lemma RoundPreservesInvariant(s: Snapshot, p: nat, c: int, m: int, dist: Distribution, means: seq<int>, draws: seq<int>)
    requires TrialInvariant(s, p, c) && |means| == p && |draws| == p
    ensures TrialInvariant(Round(s, p, m, dist, means, draws), p, c + 1)
    ensures forall i :: 0 <= i < p ==>
      Round(s, p, m, dist, means, draws).waits[i] == s.waits[i] + (if s.requests[i] == Idle then 0 else 1)
  {
    var r := Requested(s, dist, means, draws);
    var t := Round(s, p, m, dist, means, draws);
    GrantedUpToAt(r, p, m);
    forall i | 0 <= i < p
      ensures t.priority[i] <= p && 0 <= t.waits[i] < c + 1
      ensures t.waits[i] == s.waits[i] + (if s.requests[i] == Idle then 0 else 1)
    {
      RequestPhaseEffect(s, dist, means, draws, i);
    }
  }

  /**
   * A processor whose request lies outside [0, m) and is not Idle stays
   * pending for every later round: its request never changes and it waits
   * one more round each time.
   */
  lemma OutOfRangeWaitsEachRound(s: Snapshot, p: nat, m: int, dist: Distribution, means: seq<int>, draws: seq<int>, i: int)
    requires s.Sized(p) && |means| == p && |draws| == p && 0 <= i < p
    requires s.requests[i] != Idle && (s.requests[i] < 0 || m <= s.requests[i])
    ensures Round(s, p, m, dist, means, draws).requests[i] == s.requests[i]
    ensures Round(s, p, m, dist, means, draws).waits[i] == s.waits[i] + 1
    ensures Round(s, p, m, dist, means, draws).priority[i] == s.priority[i] - 1
  {
    var r := Requested(s, dist, means, draws);
    RequestPhaseEffect(s, dist, means, draws, i);
    OutOfRangeNotGranted(r, p, m, i);
  }

  // ---------------------------------------------------------------------------
  // The in-place operations

  /**
   * The reset at the start of a trial: every processor idle, no waits,
   * priority 0; in Gaussian mode each processor also draws its fixed mean.
   */
  method ResetTrial(processors: array<int>, waits: array<int>, priority: array<int>, means: array<int>,
                    dist: Distribution, meanDraws: seq<int>)
    requires processors != waits && processors != priority && waits != priority
    requires means != processors && means != waits && means != priority
    requires waits.Length == processors.Length && priority.Length == processors.Length
    requires means.Length == processors.Length && |meanDraws| == processors.Length
    modifies processors, waits, priority, means
    ensures View(processors, waits, priority) == Reset(processors.Length)
    ensures means[..] == if dist.Gaussian? then meanDraws else old(means[..])
  {
    var p := processors.Length;
    for i := 0 to p
      invariant forall j :: 0 <= j < i ==> processors[j] == Idle && waits[j] == 0 && priority[j] == 0
      invariant forall j :: 0 <= j < p ==> means[j] == if dist.Gaussian? && j < i then meanDraws[j] else old(means[j])
    {
      processors[i] := Idle;
      waits[i] := 0;
      priority[i] := 0;
      if dist.Gaussian? {
        means[i] := meanDraws[i];
      }
    }
  }

  /** The request phase of a round, in place. */
  method IssueRequests(processors: array<int>, waits: array<int>, priority: array<int>, means: array<int>,
                       dist: Distribution, draws: seq<int>)
    requires processors != waits && processors != priority && waits != priority
    requires means != processors && means != waits && means != priority
    requires waits.Length == processors.Length && priority.Length == processors.Length
    requires means.Length == processors.Length && |draws| == processors.Length
    modifies processors, waits, priority
    ensures View(processors, waits, priority) == Requested(old(View(processors, waits, priority)), dist, means[..], draws)
  {
    var p := processors.Length;
    ghost var s := View(processors, waits, priority);
    for i := 0 to p
      invariant View(processors, waits, priority) == RequestedUpTo(s, dist, means[..], draws, i)
    {
      if processors[i] == Idle {
        processors[i] := NewRequest(dist, means[i], draws[i]);
      } else {
        priority[i] := priority[i] - 1;
        waits[i] := waits[i] + 1;
      }
    }
  }

  /**
   * The grant phase of a round, in place: modules 0 .. m-1 in turn each go to
   * the arbiter's winner over the current arrays.
   */
  method GrantAccess(processors: array<int>, waits: array<int>, priority: array<int>, p: nat, m: int)
    requires processors != waits && processors != priority && waits != priority
    requires processors.Length == p && waits.Length == p && priority.Length == p
    modifies processors, priority
    ensures View(processors, waits, priority) == Granted(old(View(processors, waits, priority)), p, m)
  {
    ghost var s := View(processors, waits, priority);
    var k := 0;
    while k < m
      invariant 0 <= k && (k <= m || k == 0)
      invariant View(processors, waits, priority) == GrantedUpTo(s, p, k)
    {
      var proc := GetNextProcessor(k, p, processors, priority);
      if proc != NoProcessor {
        processors[proc] := Idle;
        priority[proc] := p;
      }
      k := k + 1;
    }
  }
}
