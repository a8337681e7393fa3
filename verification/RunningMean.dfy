/** The running average latencies of internal/core/sync/metrics/metrics.go: kept in 64-bit
    durations, each step dividing by the new count and dropping the fraction. */
module RunningMean {

  /** 2^63: one more than the largest duration. */
  const LIMIT := 0x8000_0000_0000_0000

  function Wrap(x: int): int { (x + LIMIT) % (2 * LIMIT) - LIMIT }

  /** Division of the source: towards zero. */
  function Quotient(a: int, n: nat): int
    requires n > 0
  {
    if a >= 0 then a / n else -((-a) / n)
  }

  function Next(avg: int, n: nat, latency: int): int
    requires n > 0
  {
    Quotient(Wrap(Wrap(avg * (n - 1)) + latency), n)
  }

  /** The average kept after these latencies. */
  function Average(ls: seq<int>): int {
    if ls == [] then 0 else Next(Average(ls[..|ls|-1]), |ls|, ls[|ls|-1])
  }

  function Sum(ls: seq<int>): int {
    if ls == [] then 0 else Sum(ls[..|ls|-1]) + ls[|ls|-1]
  }

  predicate Durations(ls: seq<int>) { forall i :: 0 <= i < |ls| ==> ls[i] >= 0 }

  /** What is lost by dropping fractions: the sum less count times average. */
  function Lost(ls: seq<int>): int { Sum(ls) - Average(ls) * |ls| }

  lemma QuotientLoses(a: nat, n: nat)
    requires n > 0
    ensures Quotient(a, n) == a / n >= 0 && 0 <= a - Quotient(a, n) * n <= n - 1
  {
    assert a == a / n * n + a % n;
  }

  lemma WrapInRange(x: int)
    requires -LIMIT <= x < LIMIT
    ensures Wrap(x) == x
  {
  }

  lemma NextLoses(avg: int, n: nat, latency: int)
    requires n > 0 && avg >= 0 && latency >= 0 && avg * (n - 1) + latency < LIMIT
    ensures avg * (n - 1) >= 0
    ensures Next(avg, n, latency) == (avg * (n - 1) + latency) / n >= 0
    ensures 0 <= avg * (n - 1) + latency - Next(avg, n, latency) * n <= n - 1
  {
    hide Wrap, Quotient;
    var a := avg * (n - 1);
    Product(avg, n - 1);
    WrapInRange(a);
    WrapInRange(a + latency);
    QuotientLoses(a + latency, n);
  }

  lemma Product(a: nat, b: nat)
    ensures a * b >= 0
  {
  }

  function Triangle(n: nat): nat { if n == 0 then 0 else Triangle(n - 1) + (n - 1) }

  lemma {:induction false} TriangleIs(n: nat)
    ensures 2 * Triangle(n) == n * (n - 1)
  {
    if n > 0 {
      TriangleIs(n - 1);
      assert n * (n - 1) == (n - 1) * (n - 2) + 2 * (n - 1);
    }
  }

  /** One step neither starts from nor runs into a number that is too large. */
  predicate Fits(avg: int, n: nat, l: int)
    requires n > 0
  {
    avg >= 0 && l >= 0 && avg * (n - 1) + l < LIMIT
  }

  /** No step of the run overflows. */
  predicate AllFit(ls: seq<int>) {
    ls == [] || (AllFit(ls[..|ls|-1]) && Fits(Average(ls[..|ls|-1]), |ls|, ls[|ls|-1]))
  }

  /** As long as no step overflows, each loses at most one less than the count. */
  lemma {:induction false} LossIsBounded(ls: seq<int>)
    requires AllFit(ls)
    ensures Average(ls) >= 0 && 0 <= Lost(ls) <= Triangle(|ls|)
  {
    hide Wrap, Next;
    if ls != [] {
      var n := |ls|;
      var rest, l := ls[..n-1], ls[n-1];
      LossIsBounded(rest);
      NextLoses(Average(rest), n, l);
    }
  }

  /** After n latencies the average is at most (n - 1) / 2 below the true mean, and never above it. */
  lemma AverageNearMean(ls: seq<int>)
    requires |ls| > 0 && AllFit(ls)
    ensures var n := |ls|;
            n * Average(ls) <= Sum(ls) && 2 * (Sum(ls) - n * Average(ls)) <= n * (n - 1)
  {
    hide AllFit, Average, Sum, Triangle;
    LossIsBounded(ls);
    TriangleIs(|ls|);
  }

  /** In particular nothing overflows as long as the latencies add up to less than 2^63. */
  lemma {:induction false} SmallSumsFit(ls: seq<int>)
    requires Durations(ls) && Sum(ls) < LIMIT
    ensures AllFit(ls) && Sum(ls) >= 0
  {
    hide Average;
    if ls != [] {
      var rest := ls[..|ls|-1];
      SumsGrow(rest);
      SmallSumsFit(rest);
      LossIsBounded(rest);
    }
  }

  lemma {:induction false} SumsGrow(ls: seq<int>)
    requires Durations(ls)
    ensures Sum(ls) >= 0
  {
    if ls != [] { SumsGrow(ls[..|ls|-1]); }
  }

  lemma Between(avg: int, n: nat, l: int, lo: int, hi: int)
    requires n > 0 && lo <= avg <= hi && lo <= l <= hi
    ensures lo <= (avg * (n - 1) + l) / n <= hi
  {
    var a := avg * (n - 1) + l;
    assert lo * (n - 1) <= avg * (n - 1) <= hi * (n - 1) by { Monotone(lo, avg, n - 1); Monotone(avg, hi, n - 1); }
    assert lo * n <= a <= hi * n by { assert lo * n == lo * (n - 1) + lo && hi * n == hi * (n - 1) + hi; }
    QuotientBetween(a, n, lo, hi);
  }

  lemma Monotone(a: int, b: int, m: nat)
    requires a <= b
    ensures a * m <= b * m
  {
  }

  lemma QuotientBetween(a: int, n: nat, lo: int, hi: int)
    requires n > 0 && lo * n <= a <= hi * n
    ensures lo <= a / n <= hi
  {
    var q, r := a / n, a % n;
    assert a == q * n + r;
    assert (q + 1) * n == q * n + n && (hi + 1) * n == hi * n + n;
    if q < lo { Monotone(q + 1, lo, n); }
    if q > hi { Monotone(hi + 1, q, n); }
  }

  lemma NextWithin(avg: int, n: nat, l: int, lo: int, hi: int)
    requires n > 0 && Fits(avg, n, l) && lo <= l <= hi && (n > 1 ==> lo <= avg <= hi)
    ensures lo <= Next(avg, n, l) <= hi
  {
    hide Next;
    NextLoses(avg, n, l);
    if n > 1 { Between(avg, n, l, lo, hi); }
  }

  /** The average lies between any bounds all latencies lie between. */
  lemma {:induction false} AverageWithin(ls: seq<int>, lo: int, hi: int)
    requires |ls| > 0 && AllFit(ls)
    requires forall i :: 0 <= i < |ls| ==> lo <= ls[i] <= hi
    ensures lo <= Average(ls) <= hi
  {
    hide Next, Fits;
    var n := |ls|;
    var rest, l := ls[..n-1], ls[n-1];
    if n > 1 { AverageWithin(rest, lo, hi); }
    NextWithin(Average(rest), n, l, lo, hi);
  }

  function Climbing(n: nat): (ls: seq<int>)
    ensures |ls| == n && forall i :: 0 <= i < n ==> ls[i] == i
  {
    if n == 0 then [] else Climbing(n - 1) + [n - 1]
  }

  /** The bound is reached for every count: latencies 0, 1, 2, ... are reported as 0 on average. */
  lemma {:induction false} BoundIsReached(n: nat)
    requires n < 0x8000_0000
    ensures Durations(Climbing(n)) && AllFit(Climbing(n))
    ensures Average(Climbing(n)) == 0 && Lost(Climbing(n)) == Sum(Climbing(n)) == Triangle(n) < LIMIT
  {
    hide Wrap, Next, Fits;
    if n > 0 {
      BoundIsReached(n - 1);
      assert Climbing(n)[..n-1] == Climbing(n - 1);
      StaysZero(n);
    }
    TriangleIs(n);
    Squares(n);
  }

  lemma StaysZero(n: nat)
    requires 0 < n < 0x8000_0000
    ensures Fits(0, n, n - 1) && Next(0, n, n - 1) == 0
  {
    hide Next;
    assert 0 * (n - 1) == 0;
    NextLoses(0, n, n - 1);
  }

  lemma Squares(n: nat)
    requires n < 0x8000_0000
    ensures n * (n - 1) < LIMIT
  {
    if n > 0 { Monotone(n, 0x8000_0000, n - 1); }
  }

  // ---------- The wrapper ----------

  class Wrapper {
    var readCount: nat
    var writeCount: nat
    var errorCount: nat
    var avgRead: int
    var avgWrite: int
    ghost var readTimes: seq<int>
    ghost var writeTimes: seq<int>

    ghost predicate Valid()
      reads this
    {
      && readCount == |readTimes| && writeCount == |writeTimes|
      && Durations(readTimes) && Durations(writeTimes)
      && avgRead == Average(readTimes) && avgWrite == Average(writeTimes)
    }

    constructor ()
      ensures Valid() && readTimes == [] && writeTimes == [] && errorCount == 0
    {
      readCount, writeCount, errorCount := 0, 0, 0;
      avgRead, avgWrite := 0, 0;
      readTimes, writeTimes := [], [];
    }

    /** A read of the variable took `latency`; a failed one counts like any other. */
    method Get(latency: nat, failed: bool)
      requires Valid()
      modifies this
      ensures Valid() && readTimes == old(readTimes) + [latency] && writeTimes == old(writeTimes)
      ensures errorCount == old(errorCount) + if failed then 1 else 0
      ensures Fits(old(avgRead), readCount, latency) ==> avgRead == (old(avgRead) * old(readCount) + latency) / readCount
      ensures AllFit(readTimes) ==>
        readCount * avgRead <= Sum(readTimes) && 2 * (Sum(readTimes) - readCount * avgRead) <= readCount * (readCount - 1)
    {
      readCount := readCount + 1;
      if Fits(avgRead, readCount, latency) { NextLoses(avgRead, readCount, latency); }
      avgRead := Next(avgRead, readCount, latency);
      if failed {
        errorCount := errorCount + 1;
      }
      readTimes := readTimes + [latency];
      assert readTimes[..|readTimes|-1] == old(readTimes);
      if AllFit(readTimes) { AverageNearMean(readTimes); }
    }

    method Set(latency: nat, failed: bool)
      requires Valid()
      modifies this
      ensures Valid() && writeTimes == old(writeTimes) + [latency] && readTimes == old(readTimes)
      ensures errorCount == old(errorCount) + if failed then 1 else 0
      ensures Fits(old(avgWrite), writeCount, latency) ==> avgWrite == (old(avgWrite) * old(writeCount) + latency) / writeCount
      ensures AllFit(writeTimes) ==>
        writeCount * avgWrite <= Sum(writeTimes) && 2 * (Sum(writeTimes) - writeCount * avgWrite) <= writeCount * (writeCount - 1)
    {
      writeCount := writeCount + 1;
      if Fits(avgWrite, writeCount, latency) { NextLoses(avgWrite, writeCount, latency); }
      avgWrite := Next(avgWrite, writeCount, latency);
      if failed {
        errorCount := errorCount + 1;
      }
      writeTimes := writeTimes + [latency];
      assert writeTimes[..|writeTimes|-1] == old(writeTimes);
      if AllFit(writeTimes) { AverageNearMean(writeTimes); }
    }
  }
}
