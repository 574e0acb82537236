/** Incremental Hyperband: the brackets s = s_max .. 0 sharing one maximum budget,
    their extension when the maximum budget grows, and the fold of the bracket
    winners into an incumbent. */
module Orchestrator {
  import opened Lists
  import opened Budgets
  import opened Candidates
  import opened Halving

  /** The outcome of a Hyperband pass: the incumbent (None when no bracket found a
      candidate), or the index of a bracket that returned no candidate once an
      incumbent existed, where the comparison dereferences the missing result. */
  datatype Outcome<T> = Incumbent(best: Option<T>) | NoResult(bracket: nat)

  /** The incumbent fold over the bracket results' scores at the maximum budget,
      in bracket order (None: the bracket returned no candidate). The incumbent is
      named by its bracket index; a result replaces it only when strictly smaller. */
  function Fold(results: seq<Option<real>>): (f: Outcome<nat>)
    ensures f.Incumbent? && f.best.Some? ==> f.best.value < |results| && results[f.best.value].Some?
    ensures f.NoResult? ==> f.bracket < |results| && results[f.bracket].None?
  {
    if results == [] then Incumbent(None)
    else
      var init, last := results[..|results| - 1], results[|results| - 1];
      Step(Fold(init), init, last)
  }

  /** One bracket's comparison: `incumbent is None or result < incumbent`. */
  function Step(acc: Outcome<nat>, init: seq<Option<real>>, last: Option<real>): (f: Outcome<nat>)
    requires acc.Incumbent? && acc.best.Some? ==> acc.best.value < |init| && init[acc.best.value].Some?
    requires acc.NoResult? ==> acc.bracket < |init| && init[acc.bracket].None?
    ensures f.Incumbent? && f.best.Some? ==> f.best.value <= |init|
    ensures f.Incumbent? && f.best == Some(|init|) ==> last.Some?
    ensures f.Incumbent? && f.best.Some? && f.best.value < |init| ==> acc == f
    ensures f.NoResult? ==> acc == f || (f.bracket == |init| && last.None?)
    ensures acc == Incumbent(None) ==> f == Incumbent(if last.None? then None else Some(|init|))
    ensures acc.Incumbent? && acc.best.Some? && last.Some? ==>
      (f.best == Some(|init|) <==> last.value < init[acc.best.value].value)
    ensures acc.NoResult? ==> f == acc
    ensures acc.Incumbent? && acc.best.Some? && last.None? ==> f == NoResult(|init|)
    ensures acc.Incumbent? && acc.best.Some? && last.Some? && !(last.value < init[acc.best.value].value) ==> f == acc
  {
    match acc
    case NoResult(j) => NoResult(j)
    case Incumbent(None) => Incumbent(if last.None? then None else Some(|init|))
    case Incumbent(Some(t)) =>
      if last.None? then NoResult(|init|)
      else if last.value < init[t].value then Incumbent(Some(|init|))
      else Incumbent(Some(t))
  }

  /** Fold yields no incumbent exactly when every bracket returned None. */
  lemma {:induction false} FoldEmpty(results: seq<Option<real>>)
    ensures Fold(results) == Incumbent(None) <==> forall j :: 0 <= j < |results| ==> results[j].None?
  {
    if results != [] {
      var init := results[..|results| - 1];
      FoldEmpty(init);
      FoldNoneAbsorbs(init);
      forall j | 0 <= j < |init| ensures init[j] == results[j] {
      }
    }
  }

  /** A fold that ends anywhere but at "no incumbent" has seen some bracket return a candidate. */
  lemma {:induction false} FoldNoneAbsorbs(results: seq<Option<real>>)
    ensures Fold(results) != Incumbent(None) ==> exists j :: 0 <= j < |results| && results[j].Some?
  {
    if results != [] {
      var init := results[..|results| - 1];
      FoldNoneAbsorbs(init);
      if Fold(results) != Incumbent(None) && Fold(init) != Incumbent(None) {
        var j :| 0 <= j < |init| && init[j].Some?;
        assert results[j] == init[j];
      }
    }
  }

  /** The fold fails exactly when some bracket returned None after an earlier bracket
      returned a candidate; it names the first such bracket. */
  lemma {:induction false} FoldFails(results: seq<Option<real>>)
    ensures Fold(results).NoResult? <==>
      exists i, j :: 0 <= i < j < |results| && results[i].Some? && results[j].None?
    ensures Fold(results).NoResult? ==>
      exists i :: 0 <= i < Fold(results).bracket && results[i].Some?
    ensures Fold(results).NoResult? ==>
      forall j :: 0 <= j < Fold(results).bracket && results[j].None? ==>
        forall i :: 0 <= i < j ==> results[i].None?
  {
    if results != [] {
      var n := |results| - 1;
      var init, last := results[..n], results[n];
      FoldFails(init);
      FoldEmpty(init);
      assert forall j :: 0 <= j < n ==> init[j] == results[j];
      if Fold(init).Incumbent? && Fold(init).best.Some? {
        var t := Fold(init).best.value;
        assert results[t].Some?;
      }
    }
  }

  /** A fold that has not failed can only fail at the next bracket played. */
  lemma FoldStops(results: seq<Option<real>>, last: Option<real>)
    requires Fold(results).Incumbent?
    ensures Fold(results + [last]).NoResult? ==> Fold(results + [last]).bracket == |results|
  {
    assert (results + [last])[..|results|] == results;
  }

  /** The final incumbent has the least score of all bracket results, and strictly
      less than every result before it: among equal scores the earliest bracket wins. */
  lemma {:induction false} FoldLeast(results: seq<Option<real>>)
    requires Fold(results).Incumbent? && Fold(results).best.Some?
    ensures forall j :: 0 <= j < |results| && results[j].Some? ==>
      results[Fold(results).best.value].value <= results[j].value
    ensures forall j :: 0 <= j < Fold(results).best.value && results[j].Some? ==>
      results[Fold(results).best.value].value < results[j].value
  {
    var n := |results| - 1;
    var init, last := results[..n], results[n];
    assert forall j :: 0 <= j < n ==> init[j] == results[j];
    var t := Fold(results).best.value;
    match Fold(init)
    case NoResult(_) =>
    case Incumbent(None) =>
      FoldEmpty(init);
    case Incumbent(Some(u)) =>
      FoldLeast(init);
  }

  /** The fold's outcome in terms of the bracket winners themselves. */
  function Lift(f: Outcome<nat>, winners: seq<Option<Candidate>>): (o: Outcome<Candidate>)
    requires f.Incumbent? && f.best.Some? ==> f.best.value < |winners|
    ensures o.NoResult? <==> f.NoResult?
    ensures o.NoResult? ==> o.bracket == f.bracket
    ensures f.Incumbent? && f.best.Some? ==> o == Incumbent(winners[f.best.value])
    ensures f == Incumbent(None) ==> o == Incumbent(None)
  {
    match f
    case NoResult(j) => NoResult(j)
    case Incumbent(None) => Incumbent(None)
    case Incumbent(Some(t)) => Incumbent(winners[t])
  }

  /** The measure's counters run through the brackets' trails in order: the first
      trail starts at (inv, budget), each next one starts where the one before
      ended, and the last ends at (invNow, budgetNow). */
  ghost predicate Chained(trails: seq<seq<Trace>>, inv: nat, budget: real, invNow: nat, budgetNow: real) {
    if trails == [] then invNow == inv && budgetNow == budget
    else
      var last := trails[|trails| - 1];
      && last != []
      && Chained(trails[..|trails| - 1], inv, budget, last[0].invocations, last[0].budget)
      && last[|last| - 1].invocations == invNow && last[|last| - 1].budget == budgetNow
  }

  /** A trail that starts where the chain ends extends the chain to its own end. */
  lemma ChainedExtend(trails: seq<seq<Trace>>, inv: nat, budget: real, trail: seq<Trace>, invNow: nat, budgetNow: real)
    requires trail != [] && Chained(trails, inv, budget, trail[0].invocations, trail[0].budget)
    requires trail[|trail| - 1].invocations == invNow && trail[|trail| - 1].budget == budgetNow
    ensures Chained(trails + [trail], inv, budget, invNow, budgetNow)
  {
    assert (trails + [trail])[..|trails|] == trails;
  }

  /** A bracket's trail starts from t0: each candidate of its history H holds the
      scores start gives it, and each candidate cs sampled for it holds none. */
  ghost predicate StartsFrom(t0: Trace, H: seq<Candidate>, cs: seq<Candidate>, start: Snapshot) {
    && (forall c :: c in H ==> c in start && c in t0.scores && t0.scores[c] == start[c])
    && (forall c :: c in cs ==> c in t0.scores && t0.scores[c] == map[])
  }

  /** Each trail j starts from the scores start gives the candidates of before[j]
      and from none for the candidates of samples[j]. */
  ghost predicate Started(trails: seq<seq<Trace>>, before: seq<seq<Candidate>>, samples: seq<seq<Candidate>>, start: Snapshot) {
    && |trails| <= |before| && |trails| <= |samples|
    && forall j {:trigger StartsFrom(trails[j][0], before[j], samples[j], start)} :: 0 <= j < |trails| ==>
         trails[j] != [] && StartsFrom(trails[j][0], before[j], samples[j], start)
  }

  /** Wraps each sampled configuration in a new candidate with no scores. */
  method NewCandidates(payloads: seq<Payload>) returns (cs: seq<Candidate>)
    ensures |cs| == |payloads|
    ensures forall t :: 0 <= t < |cs| ==> fresh(cs[t]) && cs[t].payload == payloads[t] && cs[t].performanceMap == map[]
    ensures Distinct(cs)
  {
    cs := [];
    for j := 0 to |payloads|
      invariant |cs| == j
      invariant forall t :: 0 <= t < j ==> fresh(cs[t]) && cs[t].payload == payloads[t] && cs[t].performanceMap == map[]
      invariant Distinct(cs)
    {
      var c := new Candidate(payloads[j]);
      cs := cs + [c];
    }
  }

  /** Bracket j of a list for s_max, eta and max_budget: s = s_max - j,
      min_budget * eta^s == max_budget, sharing the evaluator and the policy, minimising. */
  ghost predicate Placed(bracket: SuccessiveHalving, j: nat, sMax: nat, eta: nat, maxBudget: nat,
                         measure: BudgetTrackingPerformanceMeasure, policy: Policy)
    reads bracket
  {
    && bracket.Valid() && bracket.BracketInvariant()
    && bracket.s + j == sMax && bracket.eta == eta && bracket.maxBudget == maxBudget as real
    && bracket.measure == measure && bracket.minimize && bracket.policy == policy
  }

  /** increaseMaximumBudget on every bracket of the list, in order: a list placed for
      s_max and max_budget becomes placed for s_max + 1 and eta * max_budget. */
  method IncreaseAll(bs: seq<SuccessiveHalving>, sMax: nat, eta: nat, maxBudget: nat,
                     measure: BudgetTrackingPerformanceMeasure, policy: Policy)
    requires Distinct(bs)
    requires forall j :: 0 <= j < |bs| ==> Placed(bs[j], j, sMax, eta, maxBudget, measure, policy)
    modifies bs
    ensures forall j :: 0 <= j < |bs| ==> Placed(bs[j], j, sMax + 1, eta, eta * maxBudget, measure, policy)
    ensures forall j :: 0 <= j < |bs| ==> bs[j].oldCandidates == old(bs[j].oldCandidates)
  {
    for j := 0 to |bs|
      invariant forall t :: 0 <= t < j ==> Placed(bs[t], t, sMax + 1, eta, eta * maxBudget, measure, policy)
      invariant forall t :: j <= t < |bs| ==> Placed(bs[t], t, sMax, eta, maxBudget, measure, policy)
      invariant forall t :: 0 <= t < |bs| ==> bs[t].oldCandidates == old(bs[t].oldCandidates)
    {
      Extend(bs[j], j, sMax, eta, maxBudget, measure, policy);
    }
  }

  /** increaseMaximumBudget on one bracket: placed for s_max and max_budget, it
      becomes placed for s_max + 1 and eta * max_budget. */
  method Extend(bracket: SuccessiveHalving, j: nat, sMax: nat, eta: nat, maxBudget: nat,
                measure: BudgetTrackingPerformanceMeasure, policy: Policy)
    requires Placed(bracket, j, sMax, eta, maxBudget, measure, policy)
    modifies bracket`maxBudget, bracket`s
    ensures Placed(bracket, j, sMax + 1, eta, eta * maxBudget, measure, policy)
  {
    RealOfProduct(eta, maxBudget);
    bracket.IncreaseMaximumBudget();
  }

  /** samples[j] are new candidates holding the payloads drawn for bracket j's
      request, in order. */
  ghost predicate SamplesDrawn(requests: seq<int>, samples: seq<seq<Candidate>>, sample: (nat, int) -> seq<Payload>)
  {
    && |requests| == |samples|
    && forall j :: 0 <= j < |samples| ==>
         && |samples[j]| == |sample(j, requests[j])|
         && forall t :: 0 <= t < |samples[j]| ==> samples[j][t].payload == sample(j, requests[j])[t]
  }

  /** The candidates sampled for the next bracket's request extend the samples drawn. */
  lemma SamplesExtend(requests: seq<int>, samples: seq<seq<Candidate>>, sample: (nat, int) -> seq<Payload>,
                      request: int, cs: seq<Candidate>)
    requires SamplesDrawn(requests, samples, sample)
    requires |cs| == |sample(|samples|, request)|
    requires forall t :: 0 <= t < |cs| ==> cs[t].payload == sample(|samples|, request)[t]
    ensures SamplesDrawn(requests + [request], samples + [cs], sample)
  {
    forall j | 0 <= j < |samples| + 1
      ensures && |(samples + [cs])[j]| == |sample(j, (requests + [request])[j])|
              && forall t :: 0 <= t < |(samples + [cs])[j]| ==> (samples + [cs])[j][t].payload == sample(j, (requests + [request])[j])[t]
    {
      if j < |samples| {
        assert (samples + [cs])[j] == samples[j] && (requests + [request])[j] == requests[j];
      }
    }
  }

  /** The brackets s = s_max .. 0 of a fresh instance, in that order, each with an
      empty history and min_budget = max_budget / eta^s. */
  method NewBrackets(sMax: nat, eta: nat, maxBudget: nat, measure: BudgetTrackingPerformanceMeasure, policy: Policy)
    returns (bs: seq<SuccessiveHalving>)
    requires eta >= 2
    ensures |bs| == sMax + 1 && Distinct(bs)
    ensures forall j :: 0 <= j < |bs| ==> Placed(bs[j], j, sMax, eta, maxBudget, measure, policy)
    ensures forall j :: 0 <= j < |bs| ==> fresh(bs[j]) && bs[j].oldCandidates == []
    ensures forall j :: 0 <= j < |bs| ==> bs[j].minBudget == maxBudget as real / Pow(eta, sMax - j) as real
  {
    bs := [];
    for t := 0 to sMax + 1
      invariant |bs| == t && Distinct(bs)
      invariant forall j :: 0 <= j < t ==> Placed(bs[j], j, sMax, eta, maxBudget, measure, policy)
      invariant forall j :: 0 <= j < t ==> fresh(bs[j]) && bs[j].oldCandidates == []
      invariant forall j :: 0 <= j < t ==> bs[j].minBudget == maxBudget as real / Pow(eta, sMax - j) as real
    {
      var s := sMax - t;
      var r := maxBudget as real / Pow(eta, s) as real;
      RungBudgetReaches(maxBudget as real, eta, s);
      var bracket := new SuccessiveHalving(s, r, maxBudget as real, eta, measure, true, policy);
      bs := bs + [bracket];
    }
  }

  class IDHyperband {
    var maxBudget: nat
    const eta: nat
    const measure: BudgetTrackingPerformanceMeasure
    const conservative: bool
    const strict: bool
    var sMax: nat
    var b: nat
    var brackets: seq<SuccessiveHalving>

    /** The policy of every bracket this instance builds. */
    function BracketPolicy(): (p: Policy)
      ensures conservative <==> p.Conservative?
      ensures p.Conservative? ==> p.strict == strict
    {
      if conservative then Conservative(strict) else Efficient
    }

    /** How many new candidates bracket j asks the sampler for when its history
        is H: the bracket size n less the candidates it already holds. */
    function Request(j: nat, H: seq<Candidate>): int
      requires maxBudget >= 1 && j <= sMax
      reads this
    {
      BracketSize(b, maxBudget, eta, sMax - j) - |H|
    }

    /** Bracket j of the list: s = s_max - j, min_budget * eta^s == max_budget, sharing
        the instance's eta, maximum budget and evaluator, minimising. */
    ghost predicate BracketOk(bracket: SuccessiveHalving, j: nat)
      reads this, bracket
    {
      Placed(bracket, j, sMax, eta, maxBudget, measure, BracketPolicy())
    }

    /** s_max = floor(log_eta(max_budget)), b = (s_max + 1) * max_budget, and one
        bracket per s = s_max .. 0, in that order; no candidate is in two brackets'
        histories, as every bracket samples its own. */
    ghost predicate Valid()
      reads this, brackets
    {
      && eta >= 2 && maxBudget >= 1
      && sMax == FloorLog(eta, maxBudget) && b == (sMax + 1) * maxBudget
      && |brackets| == sMax + 1 && Distinct(brackets)
      && (forall j :: 0 <= j < |brackets| ==> BracketOk(brackets[j], j))
      && forall j, k, c :: 0 <= j < k < |brackets| && c in brackets[j].oldCandidates ==> c !in brackets[k].oldCandidates
    }

    /** Every candidate held in some bracket's history. */
    ghost function Histories(): set<Candidate>
      reads this, brackets
    {
      set bracket, c | bracket in brackets && c in bracket.oldCandidates :: c
    }

    /** The brackets' histories, in bracket order. */
    ghost function HistoryList(): (r: seq<seq<Candidate>>)
      reads this, brackets
      ensures |r| == |brackets| && forall j :: 0 <= j < |brackets| ==> r[j] == brackets[j].oldCandidates
    {
      seq(|brackets|, j requires 0 <= j < |brackets| reads this, brackets => brackets[j].oldCandidates)
    }

    /** The scores every candidate of the histories holds. */
    ghost function Scores(): (m: Snapshot)
      reads this, brackets, Histories()
      ensures forall c :: c in Histories() ==> c in m && m[c] == c.performanceMap
    {
      map c | c in Histories() :: c.performanceMap
    }

    /** Bracket j still holds the history before[j], whose candidates hold the
        scores start gives them. */
    ghost predicate Kept(j: nat, before: seq<seq<Candidate>>, start: Snapshot)
      requires j < |brackets| && j < |before|
      reads this, brackets, before[j]
    {
      && brackets[j].oldCandidates == before[j]
      && forall c :: c in before[j] ==> c in start && c.performanceMap == start[c]
    }

    constructor (maxBudget: nat, eta: nat, measure: BudgetTrackingPerformanceMeasure, conservative: bool, strict: bool)
      requires maxBudget >= 1 && eta >= 2
      ensures Valid()
      ensures this.maxBudget == maxBudget && this.eta == eta && this.measure == measure
      ensures this.conservative == conservative && this.strict == strict
      ensures forall j :: 0 <= j < |brackets| ==> fresh(brackets[j]) && brackets[j].oldCandidates == []
      ensures forall j :: 0 <= j < |brackets| ==> brackets[j].minBudget == maxBudget as real / Pow(eta, sMax - j) as real
    {
      this.maxBudget := maxBudget;
      this.eta := eta;
      this.measure := measure;
      this.conservative := conservative;
      this.strict := strict;
      var sMax := FloorLog(eta, maxBudget);
      this.sMax := sMax;
      b := (sMax + 1) * maxBudget;
      var bs := NewBrackets(sMax, eta, maxBudget, measure, if conservative then Conservative(strict) else Efficient);
      brackets := bs;
    }

    /** Multiplies the maximum budget by eta, extends every bracket by one rung and
        appends a new bracket s = 0 that starts at the new maximum budget. */
    method IncrementMaxBudget()
      requires Valid()
      modifies this, brackets
      ensures Valid()
      ensures maxBudget == eta * old(maxBudget) && sMax == old(sMax) + 1 && b == (sMax + 1) * maxBudget
      ensures |brackets| == old(|brackets|) + 1 && brackets[..|brackets| - 1] == old(brackets)
      ensures forall j :: 0 <= j < |brackets| - 1 ==> brackets[j].oldCandidates == old(brackets[j].oldCandidates)
      ensures fresh(brackets[|brackets| - 1])
      ensures brackets[|brackets| - 1].minBudget == maxBudget as real && brackets[|brackets| - 1].oldCandidates == []
    {
      FloorLogScale(eta, maxBudget);
      IncreaseAll(brackets, sMax, eta, maxBudget, measure, BracketPolicy());
      maxBudget := eta * maxBudget;
      sMax := sMax + 1;
      b := (sMax + 1) * maxBudget;
      var bracket := new SuccessiveHalving(0, maxBudget as real, maxBudget as real, eta, measure, true, BracketPolicy());
      ghost var kept := brackets;
      brackets := brackets + [bracket];
      AppendedValid(kept, bracket);
    }

    /** Appending a bracket placed as bracket |kept|, new and with an empty history,
        to a list whose histories are disjoint keeps the instance valid. */
    lemma AppendedValid(kept: seq<SuccessiveHalving>, bracket: SuccessiveHalving)
      requires eta >= 2 && maxBudget >= 1 && sMax == FloorLog(eta, maxBudget) && b == (sMax + 1) * maxBudget
      requires brackets == kept + [bracket] && |kept| == sMax && Distinct(kept) && bracket !in kept
      requires forall j :: 0 <= j < |kept| ==> BracketOk(kept[j], j)
      requires BracketOk(bracket, |kept|) && bracket.oldCandidates == []
      requires forall j, k, c :: 0 <= j < k < |kept| && c in kept[j].oldCandidates ==> c !in kept[k].oldCandidates
      ensures Valid()
    {
      forall j | 0 <= j < |brackets| ensures BracketOk(brackets[j], j) {
        if j < |kept| {
          assert brackets[j] == kept[j];
        }
      }
      forall j, k, c | 0 <= j < k < |brackets| && c in brackets[j].oldCandidates ensures c !in brackets[k].oldCandidates {
        if k < |kept| {
          assert brackets[j] == kept[j] && brackets[k] == kept[k];
        }
      }
      DistinctConcat(kept, [bracket]);
    }

    /** Bracket i's turn in hyperband, on the bracket alone: it samples
        n - len(old_candidates) new candidates, with
        n = ceil(b / max_budget * eta^s / (s + 1)), adds them to the bracket's
        history and runs the bracket's rungs along the ghost trail, from the scores
        the history held (none for the new candidates) and the measure's counters
        to those they hold now. The result is the best candidate at the maximum
        budget. No score recorded before is lost or changed. */
    method RunBracket(bracket: SuccessiveHalving, i: nat, sample: (nat, int) -> seq<Payload>)
      returns (result: Option<Candidate>, ghost request: int, ghost cs: seq<Candidate>, ghost trail: seq<Trace>)
      requires maxBudget >= 1 && BracketOk(bracket, i)
      modifies bracket`oldCandidates, bracket.oldCandidates, measure
      ensures bracket.Valid()
      ensures request == Request(i, old(bracket.oldCandidates))
      ensures |cs| == |sample(i, request)|
      ensures forall t :: 0 <= t < |cs| ==> fresh(cs[t]) && cs[t].payload == sample(i, request)[t]
      ensures bracket.oldCandidates == old(bracket.oldCandidates) + cs
      ensures bracket.BestAtMax(result)
      ensures result.Some? ==> maxBudget as real in result.value.performanceMap
      ensures bracket.RanAlong(trail)
      ensures trail[0].invocations == old(measure.invocAcc) && trail[0].budget == old(measure.budgetAcc)
      ensures trail[bracket.s + 1].invocations == measure.invocAcc && trail[bracket.s + 1].budget == measure.budgetAcc
      ensures forall c :: c in old(bracket.oldCandidates) ==> c in trail[0].scores && trail[0].scores[c] == old(c.performanceMap)
      ensures forall c :: c in cs ==> c in trail[0].scores && trail[0].scores[c] == map[]
      ensures forall c :: c in old(bracket.oldCandidates) ==> bracket.Grown(old(c.performanceMap), c.performanceMap, c.payload)
    {
      assert bracket.s == sMax - i;
      var n := BracketSize(b, maxBudget, eta, bracket.s);
      var restN := n - bracket.GetFirstIterationN();
      request := restN;
      assert request == Request(i, bracket.oldCandidates);
      var candidates := NewCandidates(sample(i, restN));
      cs := candidates;
      ghost var survivors;
      assert bracket.maxBudget == maxBudget as real;
      result, survivors, trail := bracket.Run(candidates);
      assert bracket.maxBudget == maxBudget as real;
      bracket.BestScored(result);
    }

    /** Bracket i's turn seen from the instance: bracket i is played as RunBracket
        says, every other bracket and its history is untouched and the instance
        stays valid. */
    method PlayBracket(bracket: SuccessiveHalving, i: nat, sample: (nat, int) -> seq<Payload>)
      returns (result: Option<Candidate>, ghost request: int, ghost cs: seq<Candidate>, ghost trail: seq<Trace>)
      requires Valid() && i < |brackets| && bracket == brackets[i]
      modifies bracket`oldCandidates, bracket.oldCandidates, measure
      ensures Valid()
      ensures forall j :: 0 <= j < |brackets| && j != i ==> unchanged(brackets[j])
      ensures forall j, c :: 0 <= j < |brackets| && j != i && c in brackets[j].oldCandidates ==> unchanged(c)
      ensures request == Request(i, old(bracket.oldCandidates))
      ensures |cs| == |sample(i, request)|
      ensures forall t :: 0 <= t < |cs| ==> fresh(cs[t]) && cs[t].payload == sample(i, request)[t]
      ensures bracket.oldCandidates == old(bracket.oldCandidates) + cs
      ensures bracket.BestAtMax(result)
      ensures result.Some? ==> maxBudget as real in result.value.performanceMap
      ensures bracket.RanAlong(trail)
      ensures trail[0].invocations == old(measure.invocAcc) && trail[0].budget == old(measure.budgetAcc)
      ensures trail[bracket.s + 1].invocations == measure.invocAcc && trail[bracket.s + 1].budget == measure.budgetAcc
      ensures forall c :: c in old(bracket.oldCandidates) ==> c in trail[0].scores && trail[0].scores[c] == old(c.performanceMap)
      ensures forall c :: c in cs ==> c in trail[0].scores && trail[0].scores[c] == map[]
    {
      assert BracketOk(bracket, i);
      result, request, cs, trail := RunBracket(bracket, i, sample);
      forall j | 0 <= j < |brackets| && j != i ensures unchanged(brackets[j]) {
        assert brackets[j] != bracket;
      }
      forall j, c | 0 <= j < |brackets| && j != i && c in brackets[j].oldCandidates ensures unchanged(c) {
        assert c !in old(bracket.oldCandidates);
      }
      GrownValid(i, cs);
    }

    /** Bracket j has been played: its history H, as hyperband found it, grew by
        the candidates cs sampled for request = n - len(H); its result winner is
        the best candidate at the maximum budget of the grown history and score
        that candidate's score there; and its rungs ran along trail, which starts
        from the scores start gives H and from none for cs. */
    ghost predicate Played(j: nat, H: seq<Candidate>, winner: Option<Candidate>, score: Option<real>,
                           request: int, cs: seq<Candidate>, trail: seq<Trace>, start: Snapshot)
      requires j < |brackets|
      reads this, brackets, brackets[j].oldCandidates
    {
      && maxBudget >= 1 && j <= sMax
      && brackets[j].oldCandidates == H + cs
      && request == Request(j, H)
      && brackets[j].BestAtMax(winner) && Reported(winner, score)
      && brackets[j].RanAlong(trail) && trail != [] && StartsFrom(trail[0], H, cs, start)
    }

    /** A played bracket stays played, with the same result, score and trail,
        while neither it nor any candidate of its history changes. */
    twostate lemma PlayedStays(j: nat, new H: seq<Candidate>, new winner: Option<Candidate>, new score: Option<real>,
                               new request: int, new cs: seq<Candidate>, new trail: seq<Trace>, new start: Snapshot)
      requires old(allocated(H)) && old(allocated(winner)) && old(allocated(cs)) && old(allocated(trail)) && old(allocated(start))
      requires unchanged(this) && j < |brackets| && unchanged(brackets[j])
      requires forall c :: c in brackets[j].oldCandidates ==> unchanged(c)
      requires old(Played(j, H, winner, score, request, cs, trail, start))
      ensures Played(j, H, winner, score, request, cs, trail, start)
    {
      assert old(brackets[j].oldCandidates) == H + cs;
      assert brackets[j].oldCandidates == H + cs;
      assert old(brackets[j].BestAtMax(winner));
      BestKept(brackets[j], winner);
      assert old(brackets[j].RanAlong(trail));
      RanKept(brackets[j], trail);
      assert old(Reported(winner, score));
      if winner.Some? {
        var t :| 0 <= t < |brackets[j].oldCandidates| && brackets[j].oldCandidates[t] == winner.value;
        assert unchanged(winner.value);
      }
      assert Reported(winner, score);
    }

    /** The brackets played before i and bracket i, once played, are the
        brackets played before i + 1. */
    lemma PlayedAppend(i: nat, before: seq<seq<Candidate>>, winners: seq<Option<Candidate>>, results: seq<Option<real>>,
                       requests: seq<int>, samples: seq<seq<Candidate>>, trails: seq<seq<Trace>>, start: Snapshot,
                       result: Option<Candidate>, score: Option<real>, request: int, cs: seq<Candidate>, trail: seq<Trace>)
      requires i < |brackets| && i < |before| && |winners| == |results| == |requests| == |samples| == |trails| == i
      requires forall j {:trigger Played(j, before[j], winners[j], results[j], requests[j], samples[j], trails[j], start)} :: 0 <= j < i ==>
        Played(j, before[j], winners[j], results[j], requests[j], samples[j], trails[j], start)
      requires Played(i, before[i], result, score, request, cs, trail, start)
      ensures forall j {:trigger Played(j, before[j], (winners + [result])[j], (results + [score])[j], (requests + [request])[j], (samples + [cs])[j], (trails + [trail])[j], start)} :: 0 <= j < i + 1 ==>
        Played(j, before[j], (winners + [result])[j], (results + [score])[j], (requests + [request])[j],
               (samples + [cs])[j], (trails + [trail])[j], start)
    {
      forall j | 0 <= j < i + 1
        ensures Played(j, before[j], (winners + [result])[j], (results + [score])[j], (requests + [request])[j],
                       (samples + [cs])[j], (trails + [trail])[j], start)
      {
        if j < i {
          assert Played(j, before[j], winners[j], results[j], requests[j], samples[j], trails[j], start);
        }
      }
    }

    /** A bracket not played yet stays so while neither it nor any candidate of
        its history changes. */
    twostate lemma KeptStays(j: nat, new before: seq<seq<Candidate>>, new start: Snapshot)
      requires old(allocated(before)) && old(allocated(start))
      requires unchanged(this) && j < |brackets| && j < |before| && unchanged(brackets[j])
      requires forall c :: c in brackets[j].oldCandidates ==> unchanged(c)
      requires old(Kept(j, before, start))
      ensures Kept(j, before, start)
    {
    }

    /** Every bracket played so far, j < |winners|, returned winners[j]: the best
        candidate at the maximum budget of its history as it stands. */
    ghost predicate WinnersBest(winners: seq<Option<Candidate>>)
      reads this, brackets, Histories()
    {
      HistoriesHold();
      |winners| <= |brackets| && forall j :: 0 <= j < |winners| ==> brackets[j].BestAtMax(winners[j])
    }

    /** Every bracket played so far, j < |trails|, ran its rungs along trails[j]
        over its history as it stands. */
    ghost predicate BracketsRan(trails: seq<seq<Trace>>)
      reads this, brackets, Histories()
    {
      HistoriesHold();
      |trails| <= |brackets| && forall j {:trigger brackets[j].RanAlong(trails[j])} :: 0 <= j < |trails| ==> brackets[j].RanAlong(trails[j])
    }

    /** results[j] is the score of winners[j] at the maximum budget, None for no result. */
    ghost predicate ScoresReported(winners: seq<Option<Candidate>>, results: seq<Option<real>>)
      reads this, set j | 0 <= j < |winners| && winners[j].Some? :: winners[j].value
    {
      |winners| == |results| && forall j :: 0 <= j < |results| ==> Reported(winners[j], results[j])
    }

    /** Each bracket played so far, j < |samples|, requested n - len(old_candidates)
        new candidates, with n the bracket size and before[j] its history when
        hyperband started, and its history grew by samples[j]; the brackets not
        played yet kept theirs. */
    ghost predicate HistoriesGrown(before: seq<seq<Candidate>>, requests: seq<int>, samples: seq<seq<Candidate>>)
      reads this, brackets
    {
      && maxBudget >= 1 && |before| == |brackets| == sMax + 1 && |requests| == |samples| <= |brackets|
      && (forall j :: 0 <= j < |samples| ==>
            && requests[j] == Request(j, before[j])
            && brackets[j].oldCandidates == before[j] + samples[j])
      && forall j :: |samples| <= j < |brackets| ==> brackets[j].oldCandidates == before[j]
    }

    /** An instance stays valid when one bracket's history grows by new candidates
        and nothing else about the brackets changes. */
    twostate lemma GrownValid(i: nat, new cs: seq<Candidate>)
      requires old(Valid()) && unchanged(this) && i < |brackets|
      requires forall j :: 0 <= j < |brackets| && j != i ==> unchanged(brackets[j])
      requires brackets[i].Valid() && brackets[i].s == old(brackets[i].s) && brackets[i].maxBudget == old(brackets[i].maxBudget)
      requires brackets[i].oldCandidates == old(brackets[i].oldCandidates) + cs
      requires forall t :: 0 <= t < |cs| ==> !old(allocated(cs[t]))
      ensures Valid()
    {
      forall j | 0 <= j < |brackets| ensures BracketOk(brackets[j], j) {
        assert old(BracketOk(brackets[j], j));
      }
      forall j, k, c | 0 <= j < k < |brackets| && c in brackets[j].oldCandidates
        ensures c !in brackets[k].oldCandidates
      {
        if j == i && c in cs {
          assert !old(allocated(c));
          assert old(allocated(brackets[k].oldCandidates));
        } else if k == i {
          assert old(allocated(brackets[j].oldCandidates));
        }
      }
    }

    /** A bracket's result stays the best at the maximum budget while neither the
        bracket nor any candidate of its history changes. */
    twostate lemma BestKept(new bracket: SuccessiveHalving, new w: Option<Candidate>)
      requires old(allocated(bracket)) && old(allocated(w))
      requires unchanged(bracket) && forall c :: c in bracket.oldCandidates ==> unchanged(c)
      requires old(bracket.BestAtMax(w))
      ensures bracket.BestAtMax(w)
    {
      assert bracket.oldCandidates == old(bracket.oldCandidates);
      forall t | 0 <= t < |bracket.oldCandidates| ensures bracket.oldCandidates[t].performanceMap == old(bracket.oldCandidates[t].performanceMap) {
        assert bracket.oldCandidates[t] in bracket.oldCandidates;
      }
    }

    /** A bracket's rungs still ran along a trail while neither the bracket nor any
        candidate of its history changes. */
    twostate lemma RanKept(new bracket: SuccessiveHalving, new trail: seq<Trace>)
      requires old(allocated(bracket)) && old(allocated(trail))
      requires unchanged(bracket) && forall c :: c in bracket.oldCandidates ==> unchanged(c)
      requires old(bracket.RanAlong(trail))
      ensures bracket.RanAlong(trail)
    {
      assert bracket.oldCandidates == old(bracket.oldCandidates);
      assert Snap(bracket.oldCandidates) == old(Snap(bracket.oldCandidates));
    }

    /** hyperband(candidate_sampling): plays every bracket in order. Bracket j's
        result is the best candidate at the maximum budget of its history, grown by
        the candidates sampled for it. A bracket result becomes the incumbent when
        there is none yet or its score at the maximum budget is strictly smaller,
        so the outcome is the lifted fold of the bracket scores; the pass stops at
        the first bracket that returns no candidate once an incumbent exists. The
        ghost trails are the rung states each played bracket ran through: they
        hand the measure's counters on from one bracket to the next, and every
        score a candidate gained during the pass is the evaluator's. The brackets
        not played keep their histories and scores. */
    method Hyperband(sample: (nat, int) -> seq<Payload>)
      returns (outcome: Outcome<Candidate>, ghost before: seq<seq<Candidate>>, ghost winners: seq<Option<Candidate>>,
               ghost results: seq<Option<real>>, ghost requests: seq<int>, ghost samples: seq<seq<Candidate>>,
               ghost trails: seq<seq<Trace>>)
      requires Valid()
      modifies brackets, Histories(), measure
      ensures Valid()
      ensures |before| == |brackets| && forall j :: 0 <= j < |brackets| ==> before[j] == old(brackets[j].oldCandidates)
      ensures |winners| == |results| == |requests| == |samples| == |trails| <= |brackets|
      ensures outcome.Incumbent? ==> |results| == |brackets|
      ensures outcome.NoResult? ==> |results| == outcome.bracket + 1
      ensures WinnersBest(winners) && ScoresReported(winners, results)
      ensures HistoriesGrown(before, requests, samples) && SamplesDrawn(requests, samples, sample)
      ensures Fold(results).Incumbent? && Fold(results).best.Some? ==> Fold(results).best.value < |winners|
      ensures outcome == Lift(Fold(results), winners)
      ensures BracketsRan(trails) && Started(trails, before, samples, old(Scores()))
      ensures Chained(trails, old(measure.invocAcc), old(measure.budgetAcc), measure.invocAcc, measure.budgetAcc)
      ensures forall j :: |trails| <= j < |brackets| ==> Kept(j, before, old(Scores()))
      ensures forall j, c :: 0 <= j < |trails| && c in before[j] ==> brackets[j].Grown(old(c.performanceMap), c.performanceMap, c.payload)
      ensures forall j, c :: 0 <= j < |trails| && c in samples[j] ==> brackets[j].Grown(map[], c.performanceMap, c.payload)
    {
      outcome := Incumbent(None);
      winners, results, requests, samples, trails := [], [], [], [], [];
      HistoriesHold();
      before := HistoryList();
      AllKept(before);
      ghost var start, inv0, budget0 := Scores(), measure.invocAcc, measure.budgetAcc;
      var i := 0;
      while i < |brackets| && outcome.Incumbent?
        invariant 0 <= i <= |brackets| && Valid()
        invariant |before| == |brackets| && forall j :: 0 <= j < |brackets| ==> before[j] == old(brackets[j].oldCandidates)
        invariant |winners| == |results| == |requests| == |samples| == |trails| == i
        invariant outcome.NoResult? ==> i == outcome.bracket + 1
        invariant forall j {:trigger Played(j, before[j], winners[j], results[j], requests[j], samples[j], trails[j], start)} :: 0 <= j < i ==> Played(j, before[j], winners[j], results[j], requests[j], samples[j], trails[j], start)
        invariant forall j :: i <= j < |brackets| ==> Kept(j, before, start)
        invariant SamplesDrawn(requests, samples, sample)
        invariant Fold(results).Incumbent? && Fold(results).best.Some? ==> Fold(results).best.value < |winners|
        invariant outcome == Lift(Fold(results), winners)
        invariant inv0 == old(measure.invocAcc) && budget0 == old(measure.budgetAcc) && start == old(Scores())
        invariant Chained(trails, inv0, budget0, measure.invocAcc, measure.budgetAcc)
      {
        ghost var result, score, request, cs, trail;
        assert Kept(i, before, start);
        outcome, result, score, request, cs, trail :=
          PlayRound(brackets[i], i, outcome, sample, before, winners, results, requests, samples,
                    trails, inv0, budget0, start);
        FoldStops(results, score);
        assert outcome.NoResult? ==> outcome.bracket == i;
        winners := winners + [result];
        results := results + [score];
        requests := requests + [request];
        samples := samples + [cs];
        trails := trails + [trail];
        i := i + 1;
      }
      PassFacts(before, winners, results, requests, samples, trails, start);
      PassScores(before, samples, trails, start);
    }

    /** Before any bracket is played, each keeps its history and the scores it holds. */
    lemma AllKept(before: seq<seq<Candidate>>)
      requires |before| == |brackets| && forall j :: 0 <= j < |brackets| ==> before[j] == brackets[j].oldCandidates
      ensures forall j :: 0 <= j < |brackets| ==> Kept(j, before, Scores())
    {
      forall j | 0 <= j < |brackets| ensures Kept(j, before, Scores()) {
        forall c | c in before[j] ensures c in Histories() {
          assert brackets[j] in brackets;
        }
      }
    }

    /** The facts Played bundles, stated across the brackets played: their winners,
        scores, histories and trails, and where the trails started. */
    lemma PassFacts(before: seq<seq<Candidate>>, winners: seq<Option<Candidate>>, results: seq<Option<real>>,
                    requests: seq<int>, samples: seq<seq<Candidate>>, trails: seq<seq<Trace>>, start: Snapshot)
      requires maxBudget >= 1 && |before| == |brackets| == sMax + 1
      requires |winners| == |results| == |requests| == |samples| == |trails| <= |brackets|
      requires forall j {:trigger Played(j, before[j], winners[j], results[j], requests[j], samples[j], trails[j], start)} :: 0 <= j < |trails| ==> Played(j, before[j], winners[j], results[j], requests[j], samples[j], trails[j], start)
      requires forall j :: |trails| <= j < |brackets| ==> Kept(j, before, start)
      ensures WinnersBest(winners) && ScoresReported(winners, results) && HistoriesGrown(before, requests, samples)
      ensures BracketsRan(trails) && Started(trails, before, samples, start)
    {
      HistoriesHold();
      forall j | 0 <= j < |trails|
        ensures brackets[j].BestAtMax(winners[j]) && Reported(winners[j], results[j]) && brackets[j].RanAlong(trails[j])
        ensures trails[j] != [] && StartsFrom(trails[j][0], before[j], samples[j], start)
        ensures requests[j] == Request(j, before[j])
        ensures brackets[j].oldCandidates == before[j] + samples[j]
      {
        assert Played(j, before[j], winners[j], results[j], requests[j], samples[j], trails[j], start);
      }
      forall j | |trails| <= j < |brackets| ensures brackets[j].oldCandidates == before[j] {
        assert Kept(j, before, start);
      }
    }

    /** Over a pass that started from the scores start records, every candidate of
        a played bracket's history only gained scores, each the evaluator's, and
        every candidate sampled for it gained all it holds that way. */
    twostate lemma PassScores(new before: seq<seq<Candidate>>, new samples: seq<seq<Candidate>>,
                              new trails: seq<seq<Trace>>, new start: Snapshot)
      requires old(allocated(before)) && old(allocated(start))
      requires |before| == old(|brackets|) && forall j :: 0 <= j < |before| ==> before[j] == old(brackets[j].oldCandidates)
      requires start == old(Scores())
      requires |trails| == |samples| <= |brackets| == |before|
      requires forall j :: 0 <= j < |samples| ==> brackets[j].oldCandidates == before[j] + samples[j]
      requires BracketsRan(trails) && Started(trails, before, samples, start)
      ensures forall j, c :: 0 <= j < |trails| && c in before[j] ==> brackets[j].Grown(old(c.performanceMap), c.performanceMap, c.payload)
      ensures forall j, c :: 0 <= j < |trails| && c in samples[j] ==> brackets[j].Grown(map[], c.performanceMap, c.payload)
    {
      PassGrown(trails);
      forall j, c | 0 <= j < |trails| && c in before[j] ensures brackets[j].Grown(old(c.performanceMap), c.performanceMap, c.payload) {
        assert old(brackets[j] in brackets && c in brackets[j].oldCandidates);
        assert brackets[j].RanAlong(trails[j]) && c in brackets[j].oldCandidates;
        assert StartsFrom(trails[j][0], before[j], samples[j], start);
      }
      forall j, c | 0 <= j < |trails| && c in samples[j] ensures brackets[j].Grown(map[], c.performanceMap, c.payload) {
        assert brackets[j].RanAlong(trails[j]) && c in brackets[j].oldCandidates;
        assert StartsFrom(trails[j][0], before[j], samples[j], start);
      }
    }

    /** Across the brackets that ran, every candidate of a history only gained
        scores from those its bracket's trail started with, and every score it
        gained is the evaluator's. */
    lemma PassGrown(trails: seq<seq<Trace>>)
      requires BracketsRan(trails)
      ensures forall j, c :: 0 <= j < |trails| && c in brackets[j].oldCandidates ==>
                trails[j] != [] && c in trails[j][0].scores && brackets[j].Grown(trails[j][0].scores[c], c.performanceMap, c.payload)
    {
      forall j | 0 <= j < |trails|
        ensures forall c :: c in brackets[j].oldCandidates ==>
                  trails[j] != [] && c in trails[j][0].scores && brackets[j].Grown(trails[j][0].scores[c], c.performanceMap, c.payload)
      {
        brackets[j].RanGrown(trails[j]);
      }
    }

    /** One pass of the loop in hyperband: bracket i is played and its result is
        compared with the incumbent. The brackets played so far stay Played and
        bracket i joins them; the brackets after it stay Kept. */
    method PlayRound(bracket: SuccessiveHalving, i: nat, outcome: Outcome<Candidate>, sample: (nat, int) -> seq<Payload>,
                     ghost before: seq<seq<Candidate>>, ghost winners: seq<Option<Candidate>>, ghost results: seq<Option<real>>,
                     ghost requests: seq<int>, ghost samples: seq<seq<Candidate>>,
                     ghost trails: seq<seq<Trace>>, ghost inv0: nat, ghost budget0: real, ghost start: Snapshot)
      returns (next: Outcome<Candidate>, ghost result: Option<Candidate>, ghost score: Option<real>,
               ghost request: int, ghost cs: seq<Candidate>, ghost trail: seq<Trace>)
      requires Valid() && i < |brackets| && bracket == brackets[i] && outcome.Incumbent?
      requires |before| == |brackets| && |winners| == |results| == |requests| == |samples| == |trails| == i
      requires forall j {:trigger Played(j, before[j], winners[j], results[j], requests[j], samples[j], trails[j], start)} :: 0 <= j < i ==> Played(j, before[j], winners[j], results[j], requests[j], samples[j], trails[j], start)
      requires forall j :: i <= j < |brackets| ==> Kept(j, before, start)
      requires SamplesDrawn(requests, samples, sample)
      requires Fold(results).Incumbent? && Fold(results).best.Some? ==> Fold(results).best.value < |winners|
      requires outcome == Lift(Fold(results), winners)
      requires Chained(trails, inv0, budget0, measure.invocAcc, measure.budgetAcc)
      modifies bracket`oldCandidates, bracket.oldCandidates, measure
      ensures Valid()
      ensures forall j {:trigger Played(j, before[j], (winners + [result])[j], (results + [score])[j], (requests + [request])[j], (samples + [cs])[j], (trails + [trail])[j], start)} :: 0 <= j < i + 1 ==>
                Played(j, before[j], (winners + [result])[j], (results + [score])[j], (requests + [request])[j],
                       (samples + [cs])[j], (trails + [trail])[j], start)
      ensures forall j :: i + 1 <= j < |brackets| ==> Kept(j, before, start)
      ensures SamplesDrawn(requests + [request], samples + [cs], sample)
      ensures forall t :: 0 <= t < |cs| ==> fresh(cs[t])
      ensures Fold(results + [score]).Incumbent? && Fold(results + [score]).best.Some? ==> Fold(results + [score]).best.value < |winners| + 1
      ensures next == Lift(Fold(results + [score]), winners + [result])
      ensures Chained(trails + [trail], inv0, budget0, measure.invocAcc, measure.budgetAcc)
    {
      ghost var inv1, budget1 := measure.invocAcc, measure.budgetAcc;
      assert Kept(i, before, start);
      ghost var H := bracket.oldCandidates;
      assert H == before[i];
      var r;
      r, request, cs, trail := PlayBracket(bracket, i, sample);
      result := r;
      score := if r.None? then None else Some(r.value.performanceMap[maxBudget as real]);
      assert |trail| == bracket.s + 2 by { assert bracket.RanAlong(trail); }
      assert trail[0].invocations == inv1 && trail[0].budget == budget1;
      ChainedExtend(trails, inv0, budget0, trail, measure.invocAcc, measure.budgetAcc);
      forall j {:trigger Played(j, before[j], winners[j], results[j], requests[j], samples[j], trails[j], start)} | 0 <= j < i ensures Played(j, before[j], winners[j], results[j], requests[j], samples[j], trails[j], start) {
        PlayedStays(j, before[j], winners[j], results[j], requests[j], samples[j], trails[j], start);
      }
      assert bracket.oldCandidates == before[i] + cs;
      assert StartsFrom(trail[0], before[i], cs, start);
      assert Reported(result, score);
      assert maxBudget >= 1 && i <= sMax;
      assert old(bracket.oldCandidates) == H;
      assert request == Request(i, before[i]);
      assert brackets[i].BestAtMax(result);
      assert brackets[i].RanAlong(trail) && trail != [];
      assert brackets[i].oldCandidates == before[i] + cs;
      assert Played(i, before[i], result, score, request, cs, trail, start);
      PlayedAppend(i, before, winners, results, requests, samples, trails, start, result, score, request, cs, trail);
      forall j | i + 1 <= j < |brackets| ensures Kept(j, before, start) {
        KeptStays(j, before, start);
      }
      SamplesExtend(requests, samples, sample, request, cs);
      forall j | 0 <= j < i ensures Reported(winners[j], results[j]) {
        assert Played(j, before[j], winners[j], results[j], requests[j], samples[j], trails[j], start);
      }
      NextIncumbentFolds(outcome, result, i, winners, results);
      next := NextIncumbent(outcome, r, i);
    }

    /** The comparison after bracket i returned result: it becomes the incumbent
        when there is none yet or its score at the maximum budget is strictly
        smaller; a missing result once an incumbent exists ends the pass (the
        comparison dereferences it). */
    function NextIncumbent(outcome: Outcome<Candidate>, result: Option<Candidate>, i: nat): (next: Outcome<Candidate>)
      requires outcome.Incumbent?
      requires result.Some? ==> maxBudget as real in result.value.performanceMap
      requires outcome.best.Some? ==> maxBudget as real in outcome.best.value.performanceMap
      reads this, (if result.Some? then {result.value} else {}), (if outcome.best.Some? then {outcome.best.value} else {})
      ensures next == outcome || next == Incumbent(result) || next == NoResult(i)
    {
      if outcome.best.None? then Incumbent(result)
      else if result.None? then NoResult(i)
      else if result.value.GetPerformance(maxBudget as real).value < outcome.best.value.GetPerformance(maxBudget as real).value
      then Incumbent(result)
      else outcome
    }

    /** The comparison is one step of the fold over the bracket scores: lifting the
        fold of the scores so far and taking the comparison with bracket i's result
        gives the lifted fold of the scores including bracket i's. */
    lemma NextIncumbentFolds(outcome: Outcome<Candidate>, result: Option<Candidate>, i: nat,
                             winners: seq<Option<Candidate>>, results: seq<Option<real>>)
      requires outcome.Incumbent? && |winners| == |results| == i
      requires ScoresReported(winners, results)
      requires Fold(results).Incumbent? && Fold(results).best.Some? ==> Fold(results).best.value < |winners|
      requires outcome == Lift(Fold(results), winners)
      requires result.Some? ==> maxBudget as real in result.value.performanceMap
      ensures outcome.best.Some? ==> maxBudget as real in outcome.best.value.performanceMap
      ensures NextIncumbent(outcome, result, i)
              == Lift(Fold(results + [if result.None? then None else Some(result.value.performanceMap[maxBudget as real])]),
                      winners + [result])
    {
      var all := results + [if result.None? then None else Some(result.value.performanceMap[maxBudget as real])];
      assert all[..|all| - 1] == results;
    }

    /** Each history element is in Histories(). */
    lemma HistoriesHold()
      ensures forall j, t :: 0 <= j < |brackets| && 0 <= t < |brackets[j].oldCandidates| ==>
        brackets[j].oldCandidates[t] in Histories()
    {
      forall j, t | 0 <= j < |brackets| && 0 <= t < |brackets[j].oldCandidates|
        ensures brackets[j].oldCandidates[t] in Histories()
      {
        var bracket := brackets[j];
        assert bracket in brackets && bracket.oldCandidates[t] in bracket.oldCandidates;
      }
    }

    /** A bracket result and its score at the maximum budget, as compared. */
    ghost predicate Reported(winner: Option<Candidate>, score: Option<real>)
      reads this, if winner.Some? then {winner.value} else {}
    {
      && (winner.None? <==> score.None?)
      && (winner.Some? ==> maxBudget as real in winner.value.performanceMap
                           && score.value == winner.value.performanceMap[maxBudget as real])
    }
  }
}
