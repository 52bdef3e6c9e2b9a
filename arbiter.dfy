/**
 * The arbiter: for one memory module, pick the requesting processor that has
 * waited longest, i.e. the one with the strictly lowest priority value; among
 * equal priorities the lowest processor index wins.
 */
module Arbiter {

  /** Result of the arbiter when no processor requests the module. */
  const NoProcessor: int := -1

  /**
   * Processor i is admitted by the scan for memory module `mem`: it requests the module
   * and its priority is below the scan's starting bound p + 1.
   */
  ghost predicate Candidate(processors: seq<int>, priority: seq<int>, p: int, mem: int, i: int)
    requires p <= |processors| && p <= |priority|
  {
    0 <= i < p && processors[i] == mem && priority[i] < p + 1
  }

  /** Processor w beats processor i: lower priority, or equal priority and a lower index. */
  ghost predicate Beats(priority: seq<int>, w: int, i: int)
    requires 0 <= w < |priority| && 0 <= i < |priority|
  {
    priority[w] <= priority[i] && (i < w ==> priority[w] < priority[i])
  }

  /** w is the best candidate among processors 0 .. k-1. */
  ghost predicate BestOfFirst(processors: seq<int>, priority: seq<int>, p: int, mem: int, k: int, w: int)
    requires p <= |processors| && p <= |priority|
  {
    0 <= w < k && Candidate(processors, priority, p, mem, w) &&
    forall i :: 0 <= i < k && Candidate(processors, priority, p, mem, i) ==> Beats(priority, w, i)
  }

  /** w is the processor the module is granted to. */
  ghost predicate IsWinner(processors: seq<int>, priority: seq<int>, p: int, mem: int, w: int)
    requires p <= |processors| && p <= |priority|
  {
    BestOfFirst(processors, priority, p, mem, p, w)
  }

  /** Among the first k processors, some candidate beats every other one. */
  lemma {:induction false} BestOfFirstExists(processors: seq<int>, priority: seq<int>, p: int, mem: int, k: int)
    requires p <= |processors| && p <= |priority| && k <= p
    requires exists i :: 0 <= i < k && Candidate(processors, priority, p, mem, i)
    ensures exists w :: BestOfFirst(processors, priority, p, mem, k, w)
  {
    if exists i :: 0 <= i < k - 1 && Candidate(processors, priority, p, mem, i) {
      BestOfFirstExists(processors, priority, p, mem, k - 1);
      var w :| BestOfFirst(processors, priority, p, mem, k - 1, w);
      if Candidate(processors, priority, p, mem, k - 1) && priority[k - 1] < priority[w] {
        assert BestOfFirst(processors, priority, p, mem, k, k - 1);
      } else {
        assert BestOfFirst(processors, priority, p, mem, k, w);
      }
    } else {
      assert BestOfFirst(processors, priority, p, mem, k, k - 1);
    }
  }

  /** There is at most one winner per module. */
  lemma WinnerUnique(processors: seq<int>, priority: seq<int>, p: int, mem: int, w1: int, w2: int)
    requires p <= |processors| && p <= |priority|
    requires IsWinner(processors, priority, p, mem, w1)
    requires IsWinner(processors, priority, p, mem, w2)
    ensures w1 == w2
  {
  }

  /**
   * The processor granted memory module `mem`, or NoProcessor when no processor is a
   * candidate for it.
   */
  ghost function Winner(processors: seq<int>, priority: seq<int>, p: int, mem: int): (w: int)
    requires p <= |processors| && p <= |priority|
    ensures w == NoProcessor <==> forall i :: !Candidate(processors, priority, p, mem, i)
    ensures w != NoProcessor ==> IsWinner(processors, priority, p, mem, w)
  {
    if exists i :: Candidate(processors, priority, p, mem, i) then
      BestOfFirstExists(processors, priority, p, mem, p);
      var w :| BestOfFirst(processors, priority, p, mem, p, w);
      w
    else
      NoProcessor
  }

  /**
   * The winner depends only on which processors request module `mem` and on
   * their priorities: changing any other processor does not change it.
   */
  lemma WinnerDependsOnlyOnRequesters(processors1: seq<int>, priority1: seq<int>,
                                      processors2: seq<int>, priority2: seq<int>, p: int, mem: int)
    requires p <= |processors1| && p <= |priority1| && p <= |processors2| && p <= |priority2|
    requires forall i :: 0 <= i < p ==> (processors1[i] == mem <==> processors2[i] == mem)
    requires forall i :: 0 <= i < p && processors1[i] == mem ==> priority1[i] == priority2[i]
    ensures Winner(processors1, priority1, p, mem) == Winner(processors2, priority2, p, mem)
  {
    var w1 := Winner(processors1, priority1, p, mem);
    var w2 := Winner(processors2, priority2, p, mem);
    assert forall i :: Candidate(processors1, priority1, p, mem, i) <==> Candidate(processors2, priority2, p, mem, i);
    if w1 != NoProcessor {
      assert IsWinner(processors2, priority2, p, mem, w1);
      WinnerUnique(processors2, priority2, p, mem, w1, w2);
    }
  }

  /**
   * When every priority is at most p (which the simulation maintains), the
   * bound p + 1 admits every requester: the module goes to nobody exactly when
   * nobody requests it, and otherwise to a processor that requests it.
   */
  lemma EveryRequesterAdmitted(processors: seq<int>, priority: seq<int>, p: int, mem: int)
    requires p <= |processors| && p <= |priority|
    requires forall i :: 0 <= i < p ==> priority[i] <= p
    ensures Winner(processors, priority, p, mem) == NoProcessor
            <==> forall i :: 0 <= i < p ==> processors[i] != mem
    ensures Winner(processors, priority, p, mem) != NoProcessor ==>
            0 <= Winner(processors, priority, p, mem) < p &&
            processors[Winner(processors, priority, p, mem)] == mem
  {
    var w := Winner(processors, priority, p, mem);
    if w == NoProcessor {
      forall i | 0 <= i < p ensures processors[i] != mem {
        assert !Candidate(processors, priority, p, mem, i);
      }
    }
  }

  /**
   * The scan of the arbiter: returns the winner of memory module `mem` among processors
   * 0 .. p-1 and changes nothing.
   */
  method GetNextProcessor(mem: int, p: int, processors: array<int>, priority: array<int>) returns (minProc: int)
    requires p <= processors.Length && p <= priority.Length
    ensures minProc == Winner(processors[..], priority[..], p, mem)
    ensures minProc == NoProcessor || 0 <= minProc < p
  {
    minProc := NoProcessor;
    var minPriority := p + 1;
    var proc := 0;
    while proc < p
      invariant 0 <= proc && (proc <= p || proc == 0)
      invariant minProc == NoProcessor ==> minPriority == p + 1
      invariant minProc == NoProcessor ==>
                forall i :: 0 <= i < proc ==> !Candidate(processors[..], priority[..], p, mem, i)
      invariant minProc != NoProcessor ==>
                BestOfFirst(processors[..], priority[..], p, mem, proc, minProc) &&
                minPriority == priority[minProc]
    {
      if processors[proc] == mem && priority[proc] < minPriority {
        minProc := proc;
        minPriority := priority[proc];
      }
      proc := proc + 1;
    }
    if minProc != NoProcessor {
      WinnerUnique(processors[..], priority[..], p, mem, minProc, Winner(processors[..], priority[..], p, mem));
    }
  }
}
