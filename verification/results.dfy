/**
 What `addResult` records for an address that answered: the address, its
 kept samples and their average, `(sum / count).toFixed(0)`.

 The samples are whole milliseconds and at most three, so the quotient is
 a non-negative number that `toFixed(0)` rounds to the nearest integer,
 taking the larger one on a tie. The model computes that integer exactly;
 its text is `DecimalString` of it, and `parseFloat` of that text, which
 `exportResults` sorts by, gives the integer back (`ParseDecimalString`).
 */
module Results {
  import opened Bits

  /** One entry of `results`. */
  datatype Result = Result(ip: string, pings: seq<nat>, avg: nat)

  function Sum(xs: seq<nat>): nat {
    if |xs| == 0 then 0 else Sum(xs[..|xs| - 1]) + xs[|xs| - 1]
  }

  function Minimum(xs: seq<nat>): (m: nat)
    requires |xs| > 0
    ensures m in xs && forall k :: 0 <= k < |xs| ==> m <= xs[k]
  {
    if |xs| == 1 then xs[0]
    else
      var m := Minimum(xs[..|xs| - 1]);
      assert forall k :: 0 <= k < |xs| - 1 ==> xs[..|xs| - 1][k] == xs[k];
      if xs[|xs| - 1] < m then xs[|xs| - 1] else m
  }

  function Maximum(xs: seq<nat>): (m: nat)
    requires |xs| > 0
    ensures m in xs && forall k :: 0 <= k < |xs| ==> xs[k] <= m
  {
    if |xs| == 1 then xs[0]
    else
      var m := Maximum(xs[..|xs| - 1]);
      assert forall k :: 0 <= k < |xs| - 1 ==> xs[..|xs| - 1][k] == xs[k];
      if xs[|xs| - 1] > m then xs[|xs| - 1] else m
  }

  /**
   `(sum / count).toFixed(0)` as an integer: the mean rounded half up. The
   bounds say that `r - 1/2 <= sum / count < r + 1/2`.
   */
  function Average(pings: seq<nat>): (r: nat)
    requires |pings| > 0
    ensures |pings| * (2 * r - 1) <= 2 * Sum(pings) < |pings| * (2 * r + 1)
  {
    var n, s := |pings|, Sum(pings);
    var r := Quotient(2 * s + n, 2 * n);
    assert 2 * n * r <= 2 * s + n < 2 * n * r + 2 * n by {
      QuotientBounds(2 * s + n, 2 * n);
    }
    r
  }

  /** `a / d` rounded down, counted by repeated subtraction. */
  function Quotient(a: nat, d: nat): nat
    requires d > 0
    decreases a
  {
    if a < d then 0 else 1 + Quotient(a - d, d)
  }

  /** `addResult(ip, pings)`: the entry pushed onto `results`. */
  function Record(ip: string, pings: seq<nat>): (r: Result)
    requires |pings| > 0
    ensures r.ip == ip && r.pings == pings
    ensures r.avg == Average(pings)
  {
    Result(ip, pings, Average(pings))
  }

  // ---------------------------------------------------------------------
  // Properties of the average
  // ---------------------------------------------------------------------

  /** The quotient is the one of division with a remainder in `[0, d)`. */
  lemma {:induction false} QuotientBounds(a: nat, d: nat)
    requires d > 0
    ensures d * Quotient(a, d) <= a < d * Quotient(a, d) + d
    decreases a
  {
    if a >= d {
      QuotientBounds(a - d, d);
      MulSuccRight(d, Quotient(a - d, d));
    }
  }

  lemma MulSuccRight(d: int, q: int)
    ensures d * (1 + q) == d * q + d
  {
  }

  lemma MulLess(n: int, x: int, y: int)
    requires n > 0 && n * x < n * y
    ensures x < y
  {
    if x >= y {
      MulMonotone(n, y, x);
    }
  }

  lemma Distribute(n: int, x: int, c: int)
    ensures n * (2 * x + c) == 2 * (n * x) + n * c
  {
  }

  /** The rounding bounds pin the average down: no other integer meets them. */
  lemma AverageUnique(pings: seq<nat>, r: int)
    requires |pings| > 0
    requires |pings| * (2 * r - 1) <= 2 * Sum(pings) < |pings| * (2 * r + 1)
    ensures r == Average(pings)
  {
    var n: int, a: int := |pings|, Average(pings);
    MulLess(n, 2 * a - 1, 2 * r + 1);
    MulLess(n, 2 * r - 1, 2 * a + 1);
  }

  lemma {:induction false} SumBounds(xs: seq<nat>, lo: nat, hi: nat)
    requires forall k :: 0 <= k < |xs| ==> lo <= xs[k] <= hi
    ensures |xs| * lo <= Sum(xs) <= |xs| * hi
    decreases |xs|
  {
    if |xs| > 0 {
      var init, m := xs[..|xs| - 1], |xs| - 1;
      assert forall k :: 0 <= k < |init| ==> init[k] == xs[k];
      SumBounds(init, lo, hi);
      MulSucc(m, lo);
      MulSucc(m, hi);
    }
  }

  lemma MulSucc(m: int, c: int)
    ensures (m + 1) * c == m * c + c
  {
  }

  /** The average lies between the smallest and the largest sample. */
  lemma AverageBetween(pings: seq<nat>)
    requires |pings| > 0
    ensures Minimum(pings) <= Average(pings) <= Maximum(pings)
  {
    SumWithin(pings);
    AverageWithin(pings, Minimum(pings), Maximum(pings));
  }

  lemma SumWithin(pings: seq<nat>)
    requires |pings| > 0
    ensures |pings| * Minimum(pings) <= Sum(pings) <= |pings| * Maximum(pings)
  {
    SumBounds(pings, Minimum(pings), Maximum(pings));
  }

  /** A sum within `[n * lo, n * hi]` has its rounded mean in `[lo, hi]`. */
  lemma AverageWithin(pings: seq<nat>, lo: nat, hi: nat)
    requires |pings| > 0
    requires |pings| * lo <= Sum(pings) <= |pings| * hi
    ensures lo <= Average(pings) <= hi
  {
    RoundedBetween(|pings|, Average(pings), Sum(pings), lo, hi);
  }

  /**
   A mean within `[n * lo, n * hi]`, rounded to `r` as `Average` does, lies
   in `[lo, hi]`.
   */
  lemma RoundedBetween(n: int, r: int, sum: int, lo: int, hi: int)
    requires n > 0
    requires n * (2 * r - 1) <= 2 * sum < n * (2 * r + 1)
    requires n * lo <= sum <= n * hi
    ensures lo <= r <= hi
  {
    Distribute(n, lo, 0);
    MulLess(n, 2 * lo + 0, 2 * r + 1);
    Distribute(n, hi, 1);
    MulLess(n, 2 * r - 1, 2 * hi + 1);
  }

  /**
   The entry `addResult` records carries an average within half a unit of
   the mean of its own samples, and between the fastest and the slowest.
   */
  lemma RecordAverage(ip: string, pings: seq<nat>)
    requires |pings| > 0
    ensures var r := Record(ip, pings);
      && |r.pings| * (2 * r.avg - 1) <= 2 * Sum(r.pings) < |r.pings| * (2 * r.avg + 1)
      && Minimum(r.pings) <= r.avg <= Maximum(r.pings)
  {
    AverageBetween(pings);
  }

  /** All samples equal: the average is that sample. */
  lemma AverageOfEqual(pings: seq<nat>, v: nat)
    requires |pings| > 0 && forall k :: 0 <= k < |pings| ==> pings[k] == v
    ensures Average(pings) == v
  {
    SumBounds(pings, v, v);
    AverageUnique(pings, v);
  }
}
