/** The arithmetic of the allotment run: how many shares each application of
    one IPO receives, given the requests in store order and the share pool. */
module Allocation {
  import opened Base

  /** The shares one request receives when the whole run has demand `demand`.

      Full allotment when demand fits the pool. Otherwise
      floor(req * pool / demand), computed exactly: the implementation multiplies the
      request by the floating-point ratio pool / demand and floors the
      product, and this exact quotient is the value that computation intends.
      A negative demand above a negative pool gives a ratio above 1, floored
      the same way. The remainder left by truncation is not redistributed.
      A demand of exactly 0 below the pool makes the implementation's ratio
      -Infinity and its product infinite or NaN, which no integer stands for;
      -1 takes its place. */
  function Entitlement(req: int, pool: int, demand: int): int {
    if demand <= pool then req
    else if demand > 0 then req * pool / demand
    else if demand < 0 then (-(req * pool)) / (-demand)
    else -1
  }

  function Shares(reqs: seq<int>, pool: int, demand: int): (r: seq<int>)
    ensures |r| == |reqs|
    ensures forall i :: 0 <= i < |reqs| ==> r[i] == Entitlement(reqs[i], pool, demand)
  {
    if reqs == [] then [] else [Entitlement(reqs[0], pool, demand)] + Shares(reqs[1..], pool, demand)
  }

  /** The allotment of every request of the run, in the order of the requests. */
  function Plan(reqs: seq<int>, pool: int): seq<int> {
    Shares(reqs, pool, Sum(reqs))
  }

  // Integer facts behind the pro-rata bounds.

  lemma FloorBounds(x: int, d: int)
    requires d > 0
    ensures d * (x / d) <= x < d * (x / d) + d
  {
  }

  lemma MulCancel(d: int, a: int, b: int)
    requires d > 0
    requires d * a <= d * b
    ensures a <= b
  {
    assert d * a - d * b == d * (a - b);
    if a > b {
      assert false;
    }
  }

  lemma MulLess(d: int, a: int, b: int)
    requires d > 0
    requires d * a < d * b
    ensures a < b
  {
    assert d * a - d * b == d * (a - b);
    if a >= b {
      assert false;
    }
  }

  lemma DivAtMost(x: int, d: int, r: int)
    requires d > 0
    requires x <= d * r
    ensures x / d <= r
  {
    FloorBounds(x, d);
    MulCancel(d, x / d, r);
  }

  lemma DivMonotone(x: int, y: int, d: int)
    requires d > 0
    requires x <= y
    ensures x / d <= y / d
  {
    FloorBounds(x, d);
    FloorBounds(y, d);
    assert d * (x / d) < d * (y / d + 1);
    MulLess(d, x / d, y / d + 1);
  }

  lemma {:induction false} ScaleDemand(reqs: seq<int>, pool: int)
    ensures Sum(ScaledReqs(reqs, pool)) == pool * Sum(reqs)
  {
    if reqs != [] {
      ScaleDemand(reqs[1..], pool);
      assert pool * (reqs[0] + Sum(reqs[1..])) == pool * reqs[0] + pool * Sum(reqs[1..]);
    }
  }

  function ScaledReqs(reqs: seq<int>, pool: int): seq<int> {
    if reqs == [] then [] else [reqs[0] * pool] + ScaledReqs(reqs[1..], pool)
  }

  /** Each pro-rata share, multiplied back by the demand, lies within one demand below the exact product. */
  lemma {:induction false} ProRataSumBounds(reqs: seq<int>, pool: int, demand: int)
    requires 0 < demand && pool < demand
    ensures demand * Sum(Shares(reqs, pool, demand)) <= Sum(ScaledReqs(reqs, pool))
    ensures demand * Sum(Shares(reqs, pool, demand)) > Sum(ScaledReqs(reqs, pool)) - |reqs| * demand
            || reqs == []
  {
    if reqs != [] {
      var s := Shares(reqs, pool, demand);
      var rest := Shares(reqs[1..], pool, demand);
      ProRataSumBounds(reqs[1..], pool, demand);
      var x := reqs[0] * pool;
      FloorBounds(x, demand);
      assert s[0] == x / demand;
      assert s[1..] == rest;
      assert Sum(s) == s[0] + Sum(rest);
      assert Sum(ScaledReqs(reqs, pool)) == x + Sum(ScaledReqs(reqs[1..], pool));
      SumStep(demand, x / demand, Sum(rest), x, Sum(ScaledReqs(reqs[1..], pool)), |reqs[1..]|);
    }
  }

  /** The arithmetic of one step of ProRataSumBounds. */
  lemma SumStep(d: int, s0: int, restSum: int, x: int, restScaled: int, n: nat)
    requires d > 0
    requires d * s0 <= x < d * s0 + d
    requires d * restSum <= restScaled
    requires d * restSum > restScaled - n * d || (n == 0 && restSum == 0 && restScaled == 0)
    ensures d * (s0 + restSum) <= x + restScaled
    ensures d * (s0 + restSum) > x + restScaled - (n + 1) * d
  {
    assert d * (s0 + restSum) == d * s0 + d * restSum;
    assert (n + 1) * d == n * d + d;
  }

  /** Capacity: whatever the demand, a non-negative pool is never over-allotted. */
  lemma PlanWithinPool(reqs: seq<int>, pool: int)
    requires pool >= 0
    ensures Sum(Plan(reqs, pool)) <= pool
  {
    var d := Sum(reqs);
    if d <= pool {
      assert Plan(reqs, pool) == reqs;
    } else {
      ProRataSumBounds(reqs, pool, d);
      ScaleDemand(reqs, pool);
      UpperFromScaled(d, Sum(Plan(reqs, pool)), pool);
    }
  }

  lemma UpperFromScaled(d: int, total: int, pool: int)
    requires d > 0 && d * total <= pool * d
    ensures total <= pool
  {
    assert pool * d == d * pool;
    MulCancel(d, total, pool);
  }

  lemma LowerFromScaled(d: int, total: int, pool: int, n: int)
    requires d > 0 && d * total > pool * d - n * d
    ensures pool - n < total
  {
    assert pool * d - n * d == d * (pool - n);
    MulLess(d, pool - n, total);
  }

  /** For a non-negative factor, multiplication keeps the order. */
  lemma MulMonotone(a: int, b: int, c: int)
    requires a <= b && c >= 0
    ensures a * c <= b * c
  {
    assert b * c - a * c == (b - a) * c;
  }

  /** When demand fits the pool, every request is allotted in full. */
  lemma FullAllotment(reqs: seq<int>, pool: int)
    requires Sum(reqs) <= pool
    ensures Plan(reqs, pool) == reqs
  {
  }

  lemma EntitlementBounds(r: int, pool: int, d: int)
    requires 0 <= pool < d && r >= 0
    ensures d * Entitlement(r, pool, d) <= r * pool < d * (Entitlement(r, pool, d) + 1)
    ensures 0 <= Entitlement(r, pool, d) <= r
  {
    var x := r * pool;
    assert x >= 0;
    assert x <= d * r by {
      assert d * r - x == r * (d - pool);
    }
    FloorBounds(x, d);
    DivAtMost(x, d, r);
  }

  /** A negative demand above a negative pool is a ratio above one: the share is the
      floor of the exact product, and at least the (non-negative) request. */
  lemma NegativeDemandShare(r: int, pool: int, d: int)
    requires pool < d < 0 && r >= 0
    ensures d * Entitlement(r, pool, d) >= r * pool > d * (Entitlement(r, pool, d) + 1)
    ensures Entitlement(r, pool, d) >= r
  {
    var e := Entitlement(r, pool, d);
    FloorBounds(-(r * pool), -d);
    assert (-d) * e <= -(r * pool) < (-d) * e + (-d);
    assert (-(r * pool)) - (-d) * r == r * (d - pool);
    assert (-d) * e + (-d) == (-d) * (e + 1);
    MulLess(-d, r, e + 1);
  }

  /** When demand exceeds a non-negative pool, each share is the floor of the
      exact pro-rata entitlement, between zero and the request. */
  lemma ProRataShare(reqs: seq<int>, pool: int, i: int)
    requires pool >= 0 && Sum(reqs) > pool
    requires 0 <= i < |reqs| && reqs[i] >= 0
    ensures Sum(reqs) * Plan(reqs, pool)[i] <= reqs[i] * pool < Sum(reqs) * (Plan(reqs, pool)[i] + 1)
    ensures 0 <= Plan(reqs, pool)[i] <= reqs[i]
  {
    EntitlementBounds(reqs[i], pool, Sum(reqs));
  }

  /** Truncation loses less than one share per application: in the pro-rata
      case the pool exceeds the allotted total by less than the number of applications. */
  lemma TruncationLoss(reqs: seq<int>, pool: int)
    requires Sum(reqs) > pool && Sum(reqs) > 0
    ensures pool - |reqs| < Sum(Plan(reqs, pool))
  {
    var d := Sum(reqs);
    ProRataSumBounds(reqs, pool, d);
    ScaleDemand(reqs, pool);
    assert reqs != [];
    LowerFromScaled(d, Sum(Plan(reqs, pool)), pool, |reqs|);
  }

  /** A larger request never receives fewer shares. */
  lemma PlanMonotone(reqs: seq<int>, pool: int, i: int, j: int)
    requires pool >= 0
    requires 0 <= i < |reqs| && 0 <= j < |reqs| && reqs[i] <= reqs[j]
    ensures Plan(reqs, pool)[i] <= Plan(reqs, pool)[j]
  {
    var d := Sum(reqs);
    if d > pool {
      var x, y := reqs[i] * pool, reqs[j] * pool;
      assert Plan(reqs, pool)[i] == x / d && Plan(reqs, pool)[j] == y / d;
      MulMonotone(reqs[i], reqs[j], pool);
      DivMonotone(x, y, d);
    }
  }

  /** Requests of at least one share each make a demand of at least one share per request. */
  lemma {:induction false} DemandOfPositive(reqs: seq<int>)
    requires forall i :: 0 <= i < |reqs| ==> reqs[i] >= 1
    ensures Sum(reqs) >= |reqs|
  {
    if reqs != [] {
      assert forall i :: 0 <= i < |reqs[1..]| ==> reqs[1..][i] == reqs[i + 1];
      DemandOfPositive(reqs[1..]);
    }
  }

  /** A negative pool gives every request a negative share, which the allotment guard refuses. */
  lemma NegativePool(reqs: seq<int>, pool: int, i: int)
    requires pool < 0
    requires forall j :: 0 <= j < |reqs| ==> reqs[j] >= 1
    requires 0 <= i < |reqs|
    ensures Plan(reqs, pool)[i] < 0
  {
    DemandOfPositive(reqs);
    var d := Sum(reqs);
    var x := reqs[i] * pool;
    assert x < 0;
    FloorBounds(x, d);
    MulLess(d, x / d, 0);
  }

  /** With a non-negative pool every request of at least one share is allotted between zero and its request. */
  lemma PlanWithinRequests(reqs: seq<int>, pool: int, i: int)
    requires pool >= 0
    requires forall j :: 0 <= j < |reqs| ==> reqs[j] >= 1
    requires 0 <= i < |reqs|
    ensures 0 <= Plan(reqs, pool)[i] <= reqs[i]
  {
    if Sum(reqs) > pool {
      ProRataShare(reqs, pool, i);
    }
  }
}
