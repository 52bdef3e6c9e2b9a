/**
 * The mean wait of a trial: the fraction of the c rounds run so far that a
 * processor spent waiting, averaged over the p processors. Floating-point
 * quotients are modelled as exact reals.
 */
module MeanWait {

  /** Sum of a sequence of wait counts. */
  function Sum(xs: seq<int>): int
  {
    if xs == [] then 0 else Sum(xs[..|xs| - 1]) + xs[|xs| - 1]
  }

  /** The mean wait after c rounds: 0 before any round, else total waits over c * p. */
  ghost function Mean(waits: seq<int>, p: int, c: int): real
    requires 1 <= p <= |waits|
  {
    if c == 0 then 0.0 else (Sum(waits[..p]) as real) / ((c * p) as real)
  }

  /** Wait counts that are never negative sum to a non-negative total. */
  lemma {:induction false} SumNonNegative(xs: seq<int>)
    requires forall i :: 0 <= i < |xs| ==> 0 <= xs[i]
    ensures 0 <= Sum(xs)
  {
    if xs != [] {
      SumNonNegative(xs[..|xs| - 1]);
    }
  }

  /** Non-negative wait counts sum to zero exactly when every one is zero. */
  lemma {:induction false} SumZeroIffAllZero(xs: seq<int>)
    requires forall i :: 0 <= i < |xs| ==> 0 <= xs[i]
    ensures Sum(xs) == 0 <==> forall i :: 0 <= i < |xs| ==> xs[i] == 0
  {
    if xs != [] {
      var init := xs[..|xs| - 1];
      SumZeroIffAllZero(init);
      SumNonNegative(init);
      if Sum(xs) == 0 {
        forall i | 0 <= i < |xs| ensures xs[i] == 0 {
          if i < |xs| - 1 {
            assert xs[i] == init[i];
          }
        }
      } else {
        assert !(forall i :: 0 <= i < |init| ==> init[i] == 0) || xs[|xs| - 1] != 0;
      }
    }
  }

  /** Counts each below c sum to less than c times their number. */
  lemma {:induction false} SumBelow(xs: seq<int>, c: int)
    requires forall i :: 0 <= i < |xs| ==> xs[i] < c
    ensures xs != [] ==> Sum(xs) < c * |xs|
  {
    if |xs| > 1 {
      SumBelow(xs[..|xs| - 1], c);
    }
  }

  /**
   * The mean wait is 0 before the first round, and after that it is never
   * negative and is 0 exactly when no processor has waited.
   */
  lemma MeanZeroIffNoWaits(waits: seq<int>, p: int, c: int)
    requires 1 <= p <= |waits| && 0 <= c
    requires forall i :: 0 <= i < p ==> 0 <= waits[i]
    ensures c == 0 ==> Mean(waits, p, c) == 0.0
    ensures 0.0 <= Mean(waits, p, c)
    ensures 0 < c ==> (Mean(waits, p, c) == 0.0 <==> forall i :: 0 <= i < p ==> waits[i] == 0)
  {
    var w := waits[..p];
    SumNonNegative(w);
    SumZeroIffAllZero(w);
    assert forall i :: 0 <= i < p ==> waits[i] == w[i];
  }

  /** When every processor waited fewer than c of the c rounds, the mean wait is below 1. */
  lemma MeanBelowOne(waits: seq<int>, p: int, c: int)
    requires 1 <= p <= |waits| && 0 < c
    requires forall i :: 0 <= i < p ==> waits[i] < c
    ensures Mean(waits, p, c) < 1.0
  {
    var w := waits[..p];
    SumBelow(w, c);
    QuotientBelowOne(Sum(w) as real, (c * p) as real);
  }

  /** Quotients with the same divisor add up as their numerators do. */
  lemma AddQuotients(x: int, y: int, c: int)
    requires c != 0
    ensures (x as real) / (c as real) + (y as real) / (c as real) == ((x + y) as real) / (c as real)
  {
  }

  /** Dividing by c and then by p is dividing by c * p. */
  lemma DivideTwice(x: int, c: int, p: int)
    requires c != 0 && p != 0
    ensures (x as real) / (c as real) / (p as real) == (x as real) / ((c * p) as real)
  {
    DivideByProduct(x as real, c as real, p as real, (c * p) as real);
  }

  /** Real division twice is division by the product. */
  lemma DivideByProduct(x: real, a: real, b: real, d: real)
    requires a != 0.0 && b != 0.0 && d == a * b
    ensures x / a / b == x / d
  {
  }

  /** A quotient whose numerator is below its positive divisor is below 1. */
  lemma QuotientBelowOne(x: real, d: real)
    requires 0.0 < d && x < d
    ensures x / d < 1.0
  {
  }

  /**
   * The mean-wait computation: the average over processors 0 .. p-1 of each
   * processor's waits divided by c, and 0 when no round has run.
   */
  method AvgCheck(waits: array<int>, p: int, c: int) returns (r: real)
    requires 1 <= p <= waits.Length
    ensures r == Mean(waits[..], p, c)
  {
    var totalWait: real := 0.0;
    if c == 0 {
      return 0.0;
    }
    for i := 0 to p
      invariant totalWait == (Sum(waits[..i]) as real) / (c as real)
    {
      assert waits[..i + 1][..i] == waits[..i];
      assert Sum(waits[..i + 1]) == Sum(waits[..i]) + waits[i];
      AddQuotients(Sum(waits[..i]), waits[i], c);
      totalWait := totalWait + (waits[i] as real) / (c as real);
    }
    assert waits[..p] == waits[..][..p];
    DivideTwice(Sum(waits[..p]), c, p);
    r := totalWait / (p as real);
  }
}
