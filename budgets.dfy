/** Budget arithmetic of Hyperband: powers of eta, rung budgets, the integer
    floor-logarithm behind s_max, survivor counts and bracket sizes. */
module Budgets {

  /** b^e */
  function Pow(b: nat, e: nat): (r: nat)
    ensures b >= 1 ==> r >= 1
  {
    if e == 0 then 1 else b * Pow(b, e - 1)
  }

  /** r_i = min_budget * eta^i, the budget of rung i of a bracket. */
  function RungBudget(minBudget: real, eta: nat, i: nat): real {
    minBudget * Pow(eta, i) as real
  }

  /** Powers of an eta above 1 strictly increase. */
  lemma {:induction false} PowIncreasing(eta: nat, i: nat, j: nat)
    requires eta > 1 && i < j
    ensures Pow(eta, i) < Pow(eta, j)
  {
    if j == i + 1 {
      assert Pow(eta, j) == eta * Pow(eta, i);
    } else {
      PowIncreasing(eta, i, j - 1);
      assert Pow(eta, j) == eta * Pow(eta, j - 1);
    }
  }

  /** For eta > 1 and a positive minimum budget the rung budgets strictly increase in i. */
  lemma RungBudgetsIncrease(minBudget: real, eta: nat, i: nat, j: nat)
    requires minBudget > 0.0 && eta > 1 && i < j
    ensures RungBudget(minBudget, eta, i) < RungBudget(minBudget, eta, j)
  {
    PowIncreasing(eta, i, j);
    assert (Pow(eta, i) as real) < (Pow(eta, j) as real);
  }

  /** Each rung budget is eta times the previous one. */
  lemma RungBudgetNext(minBudget: real, eta: nat, i: nat)
    ensures RungBudget(minBudget, eta, i + 1) == RungBudget(minBudget, eta, i) * eta as real
  {
    assert Pow(eta, i + 1) == eta * Pow(eta, i);
    assert (Pow(eta, i + 1) as real) == (eta as real) * (Pow(eta, i) as real);
  }

  /** A bracket started at min_budget = max_budget / eta^s reaches max_budget at rung s. */
  lemma RungBudgetReaches(maxBudget: real, eta: nat, s: nat)
    requires eta >= 1
    ensures RungBudget(maxBudget / Pow(eta, s) as real, eta, s) == maxBudget
  {
  }

  /** Powers of an eta greater than 1 do not decrease. */
  lemma PowMonotone(eta: nat, i: nat, j: nat)
    requires eta > 1 && i <= j
    ensures Pow(eta, i) <= Pow(eta, j)
  {
    if i < j {
      PowIncreasing(eta, i, j);
    }
  }

  lemma MulMonotone(c: nat, a: nat, b: nat)
    requires a <= b
    ensures c * a <= c * b
  {
  }

  lemma MulStrictMonotone(c: nat, a: nat, b: nat)
    requires a < b && c > 0
    ensures c * a < c * b
  {
  }

  /** s_max = floor(log_eta(m)), computed on integers: the largest s with eta^s <= m. */
  function FloorLog(eta: nat, m: nat): (s: nat)
    requires eta >= 2 && m >= 1
    ensures Pow(eta, s) <= m < Pow(eta, s + 1)
  {
    FloorLogFrom(eta, m, 0)
  }

  /** The largest s' >= s with eta^s' <= m, searched upwards from s. */
  function FloorLogFrom(eta: nat, m: nat, s: nat): (r: nat)
    requires eta >= 2 && Pow(eta, s) <= m
    ensures Pow(eta, r) <= m < Pow(eta, r + 1)
    decreases m - Pow(eta, s)
  {
    if m < Pow(eta, s + 1) then s
    else
      PowIncreasing(eta, s, s + 1);
      FloorLogFrom(eta, m, s + 1)
  }

  /** floor(log_eta(m)) is the only s with eta^s <= m < eta^(s+1). */
  lemma FloorLogUnique(eta: nat, m: nat, s: nat)
    requires eta >= 2 && m >= 1 && Pow(eta, s) <= m < Pow(eta, s + 1)
    ensures FloorLog(eta, m) == s
  {
    var t := FloorLog(eta, m);
    if t < s {
      PowMonotone(eta, t + 1, s);
    } else if t > s {
      PowMonotone(eta, s + 1, t);
    }
  }

  /** Multiplying the maximum budget by eta adds one to s_max. */
  lemma FloorLogScale(eta: nat, m: nat)
    requires eta >= 2 && m >= 1
    ensures eta * m >= 1
    ensures FloorLog(eta, eta * m) == FloorLog(eta, m) + 1
  {
    var s := FloorLog(eta, m);
    assert Pow(eta, s + 1) == eta * Pow(eta, s);
    assert Pow(eta, s + 2) == eta * Pow(eta, s + 1);
    MulMonotone(eta, Pow(eta, s), m);
    MulStrictMonotone(eta, m, Pow(eta, s + 1));
    FloorLogUnique(eta, eta * m, s + 1);
  }

  /** Scaling a budget by eta on naturals and on reals agree. */
  lemma RealOfProduct(eta: nat, m: nat)
    ensures (eta * m) as real == m as real * eta as real
  {
  }

  /** ceil(a / d) on naturals: the least q with a <= d * q. */
  function CeilDiv(a: nat, d: nat): (q: nat)
    requires d > 0
    ensures a <= d * q
    ensures q == 0 || d * (q - 1) < a
  {
    var q := (a + d - 1) / d;
    assert a + d - 1 == d * q + (a + d - 1) % d;
    assert d * (q - 1) == d * q - d;
    q
  }

  /** n = ceil((b / max_budget) * (eta^s / (s + 1))), the number of candidates
      bracket s starts with, computed exactly on naturals. */
  function BracketSize(b: nat, maxBudget: nat, eta: nat, s: nat): nat
    requires maxBudget >= 1
  {
    CeilDiv(b * Pow(eta, s), maxBudget * (s + 1))
  }

  /** The bracket size is the least n with b * eta^s <= n * max_budget * (s + 1).
      Kept apart from BracketSize so that code using the size does not carry
      these products with it. */
  lemma BracketSizeLeast(b: nat, maxBudget: nat, eta: nat, s: nat)
    requires maxBudget >= 1
    ensures b * Pow(eta, s) <= (maxBudget * (s + 1)) * BracketSize(b, maxBudget, eta, s)
    ensures BracketSize(b, maxBudget, eta, s) == 0
            || (maxBudget * (s + 1)) * (BracketSize(b, maxBudget, eta, s) - 1) < b * Pow(eta, s)
  {
  }

  /** With b = (s_max + 1) * max_budget, the size n of bracket s <= s_max is at
      least eta^s. The sampler is asked for n less the history's candidates, and
      may deliver fewer. */
  lemma BracketSizeCoversRungs(sMax: nat, maxBudget: nat, eta: nat, s: nat)
    requires maxBudget >= 1 && s <= sMax
    ensures BracketSize((sMax + 1) * maxBudget, maxBudget, eta, s) >= Pow(eta, s)
  {
    var b := (sMax + 1) * maxBudget;
    var d := maxBudget * (s + 1);
    var p := Pow(eta, s);
    var n := BracketSize(b, maxBudget, eta, s);
    assert d > 0 by { MulStrictMonotone(maxBudget, 0, s + 1); }
    assert d * p <= b * p by {
      MulMonotone(maxBudget, s + 1, sMax + 1);
      MulMonotone(p, d, b);
    }
    assert b * p <= d * n by { BracketSizeLeast(b, maxBudget, eta, s); }
    CeilAtLeast(b * p, d, n, p);
  }

  /** A ceiling of a / d is at least any p with d * p <= a. */
  lemma CeilAtLeast(a: nat, d: nat, n: nat, p: nat)
    requires d > 0 && a <= d * n && d * p <= a
    ensures n >= p
  {
    if n < p {
      MulStrictMonotone(d, n, p);
    }
  }

  /** A rung of at least eta^(j+1) candidates keeps at least eta^j of them; from
      n >= eta^s, rung s - 1 keeps at least one. */
  lemma SurvivorsCover(n: nat, eta: nat, j: nat)
    requires eta >= 1 && n >= Pow(eta, j + 1)
    ensures n / eta >= Pow(eta, j)
  {
    var p := Pow(eta, j);
    assert Pow(eta, j + 1) == eta * p;
    var q := n / eta;
    assert n == eta * q + n % eta;
    if q < p {
      MulMonotone(eta, q + 1, p);
    }
  }
}
