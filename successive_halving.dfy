/** One Hyperband bracket: Successive Halving over rungs i = 0 .. s with budgets
    r_i = min_budget * eta^i, keeping floor(n_i / eta) candidates per rung, under
    the efficient or the conservative promotion policy. */
module Halving {
  import opened Lists
  import opened Ranking
  import opened Budgets
  import opened Candidates

  datatype Option<T> = None | Some(value: T)

  /** The two subclasses of the source: EfficientSuccessiveHalving, and
      ConservativeSuccessiveHalving with its strict flag. */
  datatype Policy = Efficient | Conservative(strict: bool)

  /** computeParams' tuple (n_i, r_i, r_i1, k). */
  datatype RungParams = RungParams(n: nat, r: real, rNext: real, k: nat)

  /** Every element of xs occurs in ys. */
  predicate Within<T(==)>(xs: seq<T>, ys: seq<T>) {
    forall x :: x in xs ==> x in ys
  }

  /** The scores of some candidates at one moment: each one's performance map. */
  type Snapshot = map<Candidate, map<real, real>>

  /** Where a bracket's rungs end: the last rung's survivors, the history's scores
      and the measure's invocation and budget counters. */
  datatype Trace = Trace(survivors: seq<Candidate>, scores: Snapshot, invocations: nat, budget: real)

  /** The current scores of the candidates of cs. */
  ghost function Snap(cs: seq<Candidate>): (m: Snapshot)
    reads cs
    ensures forall c :: c in cs ==> c in m && m[c] == c.performanceMap
    ensures forall c :: c in m ==> c in cs
  {
    map c | c in cs :: c.performanceMap
  }

  /** In the snapshot m, candidate c holds a score at budget b. */
  predicate Has(m: Snapshot, c: Candidate, b: real) {
    c in m && b in m[c]
  }

  /** The candidates of cs that hold a score at budget b in m, in order. */
  function ScoredAt(cs: seq<Candidate>, m: Snapshot, b: real): seq<Candidate> {
    if cs == [] then []
    else
      var init, last := cs[..|cs| - 1], cs[|cs| - 1];
      ScoredAt(init, m, b) + (if Has(m, last, b) then [last] else [])
  }

  /** ScoredAt takes exactly the candidates of cs that hold a score at b. */
  lemma {:induction false} ScoredAtMembers(cs: seq<Candidate>, m: Snapshot, b: real)
    ensures forall c :: c in ScoredAt(cs, m, b) ==> c in cs && Has(m, c, b)
    ensures forall c :: c in cs && Has(m, c, b) ==> c in ScoredAt(cs, m, b)
    ensures multiset(ScoredAt(cs, m, b)) <= multiset(cs)
  {
    if cs != [] {
      var init, last := cs[..|cs| - 1], cs[|cs| - 1];
      assert cs == init + [last];
      ScoredAtMembers(init, m, b);
    }
  }

  /** The history candidates outside current that hold a score at b in m, in history order. */
  function Readmitted(history: seq<Candidate>, current: seq<Candidate>, m: Snapshot, b: real): seq<Candidate> {
    if history == [] then []
    else
      var init, last := history[..|history| - 1], history[|history| - 1];
      Readmitted(init, current, m, b) + (if last !in current && Has(m, last, b) then [last] else [])
  }

  /** Readmitted takes exactly the history candidates outside current that hold a score at b. */
  lemma {:induction false} ReadmittedMembers(history: seq<Candidate>, current: seq<Candidate>, m: Snapshot, b: real)
    ensures forall c :: c in Readmitted(history, current, m, b) ==> c in history && c !in current && Has(m, c, b)
    ensures forall c :: c in history && c !in current && Has(m, c, b) ==> c in Readmitted(history, current, m, b)
    ensures multiset(Readmitted(history, current, m, b)) <= multiset(history)
  {
    if history != [] {
      var init, last := history[..|history| - 1], history[|history| - 1];
      assert history == init + [last];
      ReadmittedMembers(init, current, m, b);
    }
  }

  /** A conservative rung's pool: the rung, followed unless strict by the
      readmitted history candidates. */
  function Pool(history: seq<Candidate>, current: seq<Candidate>, m: Snapshot, b: real, strict: bool): seq<Candidate> {
    current + (if strict then [] else Readmitted(history, current, m, b))
  }

  /** How many candidates of cs hold no score at b in m: the evaluations a rung makes. */
  function Missing(cs: seq<Candidate>, m: Snapshot, b: real): (n: nat)
    ensures n <= |cs|
  {
    if cs == [] then 0
    else Missing(cs[..|cs| - 1], m, b) + (if Has(m, cs[|cs| - 1], b) then 0 else 1)
  }

  /** The budget charged for evaluating at b every candidate of cs that holds no score there. */
  function Charged(cs: seq<Candidate>, m: Snapshot, b: real): real {
    if cs == [] then 0.0
    else Charged(cs[..|cs| - 1], m, b) + (if Has(m, cs[|cs| - 1], b) then 0.0 else b)
  }

  /** Extending the prefix by cs[j] adds one to the count, and b to the charge,
      exactly when cs[j] holds no score at b. */
  lemma CountNext(cs: seq<Candidate>, j: nat, m: Snapshot, b: real)
    requires j < |cs|
    ensures Missing(cs[..j + 1], m, b) == Missing(cs[..j], m, b) + (if Has(m, cs[j], b) then 0 else 1)
    ensures Charged(cs[..j + 1], m, b) == Charged(cs[..j], m, b) + (if Has(m, cs[j], b) then 0.0 else b)
  {
    assert cs[..j + 1][..j] == cs[..j];
  }

  /** n additions of b. */
  function Times(n: nat, b: real): real {
    if n == 0 then 0.0 else Times(n - 1, b) + b
  }

  /** n additions of b make n times b. */
  lemma {:induction false} TimesIsProduct(n: nat, b: real)
    ensures Times(n, b) == n as real * b
  {
    if n > 0 {
      TimesIsProduct(n - 1, b);
      assert n as real * b == (n - 1) as real * b + b;
    }
  }

  /** Each missing score adds b to the charge. */
  lemma {:induction false} ChargedIsRepeatedBudget(cs: seq<Candidate>, m: Snapshot, b: real)
    ensures Charged(cs, m, b) == Times(Missing(cs, m, b), b)
  {
    if cs != [] {
      ChargedIsRepeatedBudget(cs[..|cs| - 1], m, b);
    }
  }

  /** Each missing score is charged b: the total is their count times b. */
  lemma ChargedIsCountTimesBudget(cs: seq<Candidate>, m: Snapshot, b: real)
    ensures Charged(cs, m, b) == Missing(cs, m, b) as real * b
  {
    ChargedIsRepeatedBudget(cs, m, b);
    TimesIsProduct(Missing(cs, m, b), b);
  }

  /** ScoredAt, Missing and Charged over cs depend only on which candidates of cs
      hold a score at b. */
  lemma {:induction false} Agree(cs: seq<Candidate>, m1: Snapshot, m2: Snapshot, b: real)
    requires forall c :: c in cs ==> (Has(m1, c, b) <==> Has(m2, c, b))
    ensures ScoredAt(cs, m1, b) == ScoredAt(cs, m2, b)
    ensures Missing(cs, m1, b) == Missing(cs, m2, b)
    ensures Charged(cs, m1, b) == Charged(cs, m2, b)
  {
    if cs != [] {
      Agree(cs[..|cs| - 1], m1, m2, b);
    }
  }

  /** Each candidate's current score at b, the sort key of a rung. */
  function Scores(cs: seq<Candidate>, b: real): (key: map<Candidate, real>)
    reads cs
    requires forall c :: c in cs ==> b in c.performanceMap
    ensures Keyed(cs, key)
    ensures forall c :: c in cs ==> key[c] == c.performanceMap[b]
  {
    map c | c in cs :: c.performanceMap[b]
  }

  /** Each candidate's score at b in the snapshot m. */
  function KeyAt(cs: seq<Candidate>, m: Snapshot, b: real): (key: map<Candidate, real>)
    requires forall c :: c in cs ==> c in m && b in m[c]
    ensures Keyed(cs, key)
  {
    map c | c in cs :: m[c][b]
  }

  /** The sort key read from the candidates is the one their snapshot gives. */
  lemma ScoresMatch(cs: seq<Candidate>, m: Snapshot, b: real)
    requires forall c :: c in cs ==> c in m && m[c] == c.performanceMap && b in m[c]
    ensures Scores(cs, b) == KeyAt(cs, m, b)
  {
  }

  /** The efficient rung's survivors: the promoted-ahead candidates, topped up to k
      with the best of the rest when they are fewer than k. */
  function Fill<T>(promoted: seq<T>, rest: seq<T>, key: map<T, real>, minimize: bool, k: nat): (next: seq<T>)
    requires Keyed(rest, key) && k <= |promoted| + |rest|
  {
    promoted + (if |promoted| < k then Best(rest, key, minimize, k - |promoted|) else [])
  }

  /** Fill keeps the promoted candidates and tops them up from the rest only. */
  lemma FillWithin<T>(promoted: seq<T>, rest: seq<T>, key: map<T, real>, minimize: bool, k: nat)
    requires Keyed(rest, key) && k <= |promoted| + |rest|
    ensures forall x :: x in Fill(promoted, rest, key, minimize, k) ==> x in promoted || x in rest
    ensures |Fill(promoted, rest, key, minimize, k)| == if |promoted| < k then k else |promoted|
  {
    if |promoted| < k {
      BestWithin(rest, key, minimize, k - |promoted|);
      PoppedAreBest(rest, key, minimize, k - |promoted|);
    }
  }

  /** The survivors of an efficient rung: the promoted candidates, topped up to k
      with the best of the evaluated rest by their scores at r once every one of
      them holds one and there are enough. */
  function EfficientNext(promoted: seq<Candidate>, rest: seq<Candidate>, after: Snapshot, r: real,
                         minimize: bool, k: nat): seq<Candidate>
  {
    if (forall c :: c in rest ==> c in after && r in after[c]) && k <= |promoted| + |rest| then
      Fill(promoted, rest, KeyAt(rest, after, r), minimize, k)
    else promoted
  }

  /** Once every evaluated candidate holds a score at r and there are enough, the
      efficient pick is the fill of the promoted ones from the rest. */
  lemma EfficientNextIs(promoted: seq<Candidate>, rest: seq<Candidate>, after: Snapshot, r: real,
                        minimize: bool, k: nat, next: seq<Candidate>)
    requires (forall c :: c in rest ==> c in after && r in after[c]) && k <= |promoted| + |rest|
    requires next == Fill(promoted, rest, KeyAt(rest, after, r), minimize, k)
    ensures next == EfficientNext(promoted, rest, after, r, minimize, k)
  {
  }

  /** The survivors of a conservative rung: the best k of the pool by their scores
      at r once every one of them holds one and there are enough. */
  function ConservativeNext(pool: seq<Candidate>, after: Snapshot, r: real, minimize: bool, k: nat): seq<Candidate>
  {
    if (forall c :: c in pool ==> c in after && r in after[c]) && k <= |pool| then
      Best(pool, KeyAt(pool, after, r), minimize, k)
    else []
  }

  lemma EfficientNextWithin(promoted: seq<Candidate>, rest: seq<Candidate>, after: Snapshot, r: real,
                            minimize: bool, k: nat)
    ensures forall c :: c in EfficientNext(promoted, rest, after, r, minimize, k) ==> c in promoted || c in rest
    ensures (forall c :: c in rest ==> c in after && r in after[c]) && k <= |promoted| + |rest| ==>
      |EfficientNext(promoted, rest, after, r, minimize, k)| >= k
  {
    if (forall c :: c in rest ==> c in after && r in after[c]) && k <= |promoted| + |rest| {
      FillWithin(promoted, rest, KeyAt(rest, after, r), minimize, k);
    }
  }

  lemma ConservativeNextWithin(pool: seq<Candidate>, after: Snapshot, r: real, minimize: bool, k: nat)
    ensures forall c :: c in ConservativeNext(pool, after, r, minimize, k) ==> c in pool
    ensures (forall c :: c in pool ==> c in after && r in after[c]) && k <= |pool| ==>
      |ConservativeNext(pool, after, r, minimize, k)| == k
  {
    if (forall c :: c in pool ==> c in after && r in after[c]) && k <= |pool| {
      BestWithin(pool, KeyAt(pool, after, r), minimize, k);
      PoppedAreBest(pool, KeyAt(pool, after, r), minimize, k);
    }
  }

  /** Once every pooled candidate holds a score at r and there are enough, the
      conservative pick is the best k of the pool. */
  lemma ConservativeNextIs(pool: seq<Candidate>, after: Snapshot, r: real, minimize: bool, k: nat, next: seq<Candidate>)
    requires (forall c :: c in pool ==> c in after && r in after[c]) && k <= |pool|
    requires next == Best(pool, KeyAt(pool, after, r), minimize, k)
    ensures next == ConservativeNext(pool, after, r, minimize, k)
  {
  }

  /** The performance map after evaluating at b when no score was recorded there. */
  function WithScore(before: map<real, real>, score: real, b: real): map<real, real> {
    if b in before then before else before[b := score]
  }

  /** The scores after evaluating the candidates of ev one after another at b with
      the evaluator f; a candidate gains f's score at b only where it had none. */
  function Evaluate(ev: seq<Candidate>, m: Snapshot, f: (Payload, real) -> real, b: real): Snapshot {
    if ev == [] then m
    else
      var init, c := ev[..|ev| - 1], ev[|ev| - 1];
      var prev := Evaluate(init, m, f, b);
      if c in prev then prev[c := WithScore(prev[c], f(c.payload, b), b)] else prev
  }

  /** Evaluate touches only the candidates of ev, and each of them once: a second
      evaluation at the same budget finds the score already recorded. */
  lemma {:induction false} EvaluateSpec(ev: seq<Candidate>, m: Snapshot, f: (Payload, real) -> real, b: real)
    ensures Evaluate(ev, m, f, b).Keys == m.Keys
    ensures forall c :: c in m ==>
      Evaluate(ev, m, f, b)[c] == if c in ev then WithScore(m[c], f(c.payload, b), b) else m[c]
  {
    if ev != [] {
      var init, last := ev[..|ev| - 1], ev[|ev| - 1];
      assert ev == init + [last];
      EvaluateSpec(init, m, f, b);
    }
  }

  class SuccessiveHalving {
    var s: nat
    const minBudget: real
    var maxBudget: real
    const eta: nat
    const measure: BudgetTrackingPerformanceMeasure
    const minimize: bool
    const policy: Policy
    var oldCandidates: seq<Candidate>

    /** The object invariant: eta is a usable elimination factor and the history
        holds each candidate once. */
    ghost predicate Valid()
      reads this
    {
      eta >= 1 && Distinct(oldCandidates)
    }

    /** The bracket invariant min_budget * eta^s == max_budget: the last rung runs at the maximum budget. */
    ghost predicate BracketInvariant()
      reads this
    {
      RungBudget(minBudget, eta, s) == maxBudget
    }

    /** Scores recorded after `before` only add budgets, and each added score is the evaluator's. */
    ghost predicate Grown(before: map<real, real>, after: map<real, real>, payload: Payload) {
      && (forall b :: b in before ==> b in after && after[b] == before[b])
      && (forall b :: b in after && b !in before ==> after[b] == measure.evalFunc(payload, b))
    }

    /** Growth composes: scores grown twice have grown once. */
    lemma GrownTrans(before: map<real, real>, mid: map<real, real>, after: map<real, real>, payload: Payload)
      requires Grown(before, mid, payload) && Grown(mid, after, payload)
      ensures Grown(before, after, payload)
    {
      forall b | b in after && b !in before
        ensures after[b] == measure.evalFunc(payload, b)
      {
        if b in mid {
          assert mid[b] == measure.evalFunc(payload, b);
        }
      }
    }

    constructor (s: nat, minBudget: real, maxBudget: real, eta: nat,
                 measure: BudgetTrackingPerformanceMeasure, minimize: bool, policy: Policy)
      requires eta >= 1
      ensures Valid()
      ensures this.s == s && this.minBudget == minBudget && this.maxBudget == maxBudget && this.eta == eta
      ensures this.measure == measure && this.minimize == minimize && this.policy == policy
      ensures oldCandidates == []
    {
      this.s := s;
      this.minBudget := minBudget;
      this.maxBudget := maxBudget;
      this.eta := eta;
      this.measure := measure;
      this.minimize := minimize;
      this.policy := policy;
      oldCandidates := [];
    }

    /** The challenger's score at budget is strictly better than the incumbent's. */
    function IsBetter(challenger: Candidate, incumbent: Candidate, budget: real): (r: bool)
      reads challenger, incumbent
      requires budget in challenger.performanceMap && budget in incumbent.performanceMap
      ensures r <==> Better(minimize, challenger.performanceMap[budget], incumbent.performanceMap[budget])
      ensures r ==> challenger != incumbent && !Better(minimize, incumbent.performanceMap[budget], challenger.performanceMap[budget])
    {
      var a, b := challenger.performanceMap[budget], incumbent.performanceMap[budget];
      if minimize then a < b else a > b
    }

    /** A rung's size, its budget, the next rung's budget and how many survive it. */
    function ComputeParams(candidateList: seq<Candidate>, i: nat): (p: RungParams)
      requires eta >= 1
      ensures p.n == |candidateList|
      ensures p.r == RungBudget(minBudget, eta, i) && p.rNext == RungBudget(minBudget, eta, i + 1)
      ensures p.k * eta <= p.n < (p.k + 1) * eta
      ensures p.k <= p.n
    {
      var n := |candidateList|;
      var r := minBudget * (Pow(eta, i) as real);
      RungBudgetNext(minBudget, eta, i);
      assert n == eta * (n / eta) + n % eta;
      RungParams(n, r, r * eta as real, n / eta)
    }

    /** How many candidates the bracket already holds. */
    function GetFirstIterationN(): (n: nat)
      reads this
      ensures n == |oldCandidates|
    {
      |oldCandidates|
    }

    /** Extends the bracket by one rung at eta times the maximum budget. */
    method IncreaseMaximumBudget()
      modifies this`maxBudget, this`s
      ensures maxBudget == old(maxBudget) * eta as real && s == old(s) + 1
      ensures old(BracketInvariant()) ==> BracketInvariant()
    {
      RungBudgetNext(minBudget, eta, s);
      maxBudget := maxBudget * eta as real;
      s := s + 1;
    }

    /** The history candidate with the best score at the maximum budget, the
        earliest one among equals; None when no candidate was scored there. */
    method GetBestCandidateForMaximumBudget() returns (best: Option<Candidate>)
      ensures BestAtMax(best)
    {
      best := None;
      ghost var at := 0;
      var j := 0;
      while j < |oldCandidates|
        invariant 0 <= j <= |oldCandidates|
        invariant best.None? <==> forall t :: 0 <= t < j ==> maxBudget !in oldCandidates[t].performanceMap
        invariant best.Some? ==> at < j && oldCandidates[at] == best.value && FirstBest(oldCandidates[..j], at, maxBudget)
      {
        var c := oldCandidates[j];
        if maxBudget in c.performanceMap {
          if best.None? || IsBetter(c, best.value, maxBudget) {
            best := Some(c);
            at := j;
          }
        }
        j := j + 1;
      }
      assert oldCandidates[..j] == oldCandidates;
    }

    /** cs[t] holds a score at b, no candidate of cs is strictly better there, and
        every scored candidate before it is strictly worse. */
    ghost predicate FirstBest(cs: seq<Candidate>, t: nat, b: real)
      reads cs
    {
      && t < |cs| && b in cs[t].performanceMap
      && (forall j :: 0 <= j < |cs| && b in cs[j].performanceMap ==>
            !Better(minimize, cs[j].performanceMap[b], cs[t].performanceMap[b]))
      && (forall j :: 0 <= j < t && b in cs[j].performanceMap ==>
            Better(minimize, cs[t].performanceMap[b], cs[j].performanceMap[b]))
    }

    /** best is what getBestCandidateForMaximumBudget makes of the history as it
        stands: None exactly when no candidate holds a score at the maximum budget,
        otherwise the earliest of the candidates with the best score there. */
    ghost predicate BestAtMax(best: Option<Candidate>)
      reads this, oldCandidates
    {
      && (best.None? <==> forall c :: c in oldCandidates ==> maxBudget !in c.performanceMap)
      && (best.Some? ==> exists t :: 0 <= t < |oldCandidates| && oldCandidates[t] == best.value
                                     && FirstBest(oldCandidates, t, maxBudget))
    }

    /** The best candidate at the maximum budget holds a score there. */
    lemma BestScored(best: Option<Candidate>)
      requires BestAtMax(best)
      ensures best.Some? ==> maxBudget in best.value.performanceMap
    {
    }

    /** The loop body of a rung's evaluation: evaluates c at r unless a score is recorded there. */
    method EnsureScored(c: Candidate, r: real)
      modifies c, measure
      ensures c.performanceMap == WithScore(old(c.performanceMap), measure.evalFunc(c.payload, r), r)
      ensures r in old(c.performanceMap) ==> unchanged(measure)
      ensures r !in old(c.performanceMap) ==>
        measure.invocAcc == old(measure.invocAcc) + 1 && measure.budgetAcc == old(measure.budgetAcc) + r
    {
      if r !in c.performanceMap {
        var score := measure.Evaluate(c.payload, r);
        c.StorePerformance(r, score);
      }
    }

    /** Evaluates, through the measure, every candidate of cs that has no score at r
        yet, charging one invocation and r for each of them. */
    method EvaluateMissing(cs: seq<Candidate>, r: real)
      requires Distinct(cs)
      modifies cs, measure
      ensures forall c :: c in cs ==>
        c.performanceMap == WithScore(old(c.performanceMap), measure.evalFunc(c.payload, r), r)
      ensures measure.invocAcc == old(measure.invocAcc) + Missing(cs, old(Snap(cs)), r)
      ensures measure.budgetAcc == old(measure.budgetAcc) + Charged(cs, old(Snap(cs)), r)
      ensures forall c :: c in oldCandidates && c !in cs ==> unchanged(c)
    {
      ghost var before := Snap(cs);
      var j := 0;
      while j < |cs|
        invariant 0 <= j <= |cs|
        invariant forall t :: 0 <= t < j ==>
          cs[t].performanceMap == WithScore(before[cs[t]], measure.evalFunc(cs[t].payload, r), r)
        invariant forall t :: j <= t < |cs| ==> cs[t].performanceMap == before[cs[t]]
        invariant measure.invocAcc == old(measure.invocAcc) + Missing(cs[..j], before, r)
        invariant measure.budgetAcc == old(measure.budgetAcc) + Charged(cs[..j], before, r)
      {
        CountNext(cs, j, before, r);
        EnsureScored(cs[j], r);
        j := j + 1;
      }
      assert cs[..j] == cs;
    }

    /** The candidates of the rung already scored at the next rung's budget, in rung order. */
    method CollectPromotions(candidateList: seq<Candidate>, rNext: real) returns (promotions: seq<Candidate>)
      ensures promotions == ScoredAt(candidateList, Snap(candidateList), rNext)
    {
      promotions := [];
      var j := 0;
      while j < |candidateList|
        invariant 0 <= j <= |candidateList|
        invariant promotions == ScoredAt(candidateList[..j], Snap(candidateList), rNext)
      {
        assert candidateList[..j + 1][..j] == candidateList[..j];
        if rNext in candidateList[j].performanceMap {
          promotions := promotions + [candidateList[j]];
        }
        j := j + 1;
      }
      assert candidateList[..j] == candidateList;
    }

    /** Removes each promoted candidate from the rung with list.remove: what is left
        is the rung without the promoted candidates, in rung order. */
    method RemovePromoted(candidateList: seq<Candidate>, promotions: seq<Candidate>) returns (remaining: seq<Candidate>)
      requires Distinct(candidateList) && Distinct(promotions) && Within(promotions, candidateList)
      ensures remaining == Without(candidateList, Elems(promotions))
      ensures |remaining| == |candidateList| - |promotions|
    {
      remaining := candidateList;
      var j := 0;
      WithoutNothing(candidateList);
      assert Elems(promotions[..0]) == {};
      while j < |promotions|
        invariant 0 <= j <= |promotions|
        invariant remaining == Without(candidateList, Elems(promotions[..j]))
        invariant |remaining| == |candidateList| - j
      {
        RemoveNext(candidateList, promotions, j);
        remaining := RemoveFirst(remaining, promotions[j]);
        j := j + 1;
      }
      assert promotions[..j] == promotions;
    }

    /** The first half of an efficient rung: the promoted-ahead candidates and the
        rung without them, both drawn from the rung without repetition. */
    method SplitPromoted(candidateList: seq<Candidate>, rNext: real)
      returns (promotions: seq<Candidate>, remaining: seq<Candidate>)
      requires Distinct(candidateList)
      ensures promotions == ScoredAt(candidateList, Snap(candidateList), rNext)
      ensures remaining == Without(candidateList, Elems(promotions))
      ensures Distinct(promotions) && Distinct(remaining)
      ensures Within(promotions, candidateList)
      ensures forall j :: 0 <= j < |remaining| ==> remaining[j] in candidateList
      ensures forall c :: c in remaining ==> c !in promotions
      ensures |remaining| == |candidateList| - |promotions|
    {
      promotions := CollectPromotions(candidateList, rNext);
      ScoredAtMembers(candidateList, Snap(candidateList), rNext);
      DistinctSub(candidateList, promotions);
      remaining := RemovePromoted(candidateList, promotions);
      DistinctWithout(candidateList, Elems(promotions));
    }

    /** The second half of an efficient rung: sorts the evaluated rest by score at r
        and pops from it until the promotions hold k candidates. */
    method FillPromotions(promotions: seq<Candidate>, remaining: seq<Candidate>, r: real, k: nat)
      returns (next: seq<Candidate>)
      requires forall c :: c in remaining ==> r in c.performanceMap
      requires Distinct(promotions) && Distinct(remaining) && forall c :: c in remaining ==> c !in promotions
      requires k <= |promotions| + |remaining|
      ensures next == Fill(promotions, remaining, Scores(remaining, r), minimize, k)
      ensures |next| == if |promotions| < k then k else |promotions|
      ensures Distinct(next) && forall c :: c in next ==> c in promotions || c in remaining
      ensures forall c :: c in next[|promotions|..] ==> c in remaining
      ensures forall a, b :: a in next[|promotions|..] && b in remaining && b !in next ==> !IsBetter(b, a, r)
    {
      if |promotions| < k {
        var top := SelectBest(remaining, r, k - |promotions|);
        next := promotions + top;
        DistinctConcat(promotions, top);
        assert next[|promotions|..] == top;
      } else {
        next := promotions;
      }
    }

    /** Appends the last m elements of the sorted list, popping them one by one. */
    method PopInto(acc: seq<Candidate>, ranked: seq<Candidate>, m: nat) returns (next: seq<Candidate>)
      requires m <= |ranked|
      ensures next == acc + PopTail(ranked, m)
    {
      var rest := ranked;
      next := acc;
      var j := 0;
      while j < m
        invariant 0 <= j <= m
        invariant next == acc + PopTail(ranked, j)
        invariant rest == ranked[..|ranked| - j]
      {
        next := next + [rest[|rest| - 1]];
        rest := rest[..|rest| - 1];
        j := j + 1;
      }
    }

    /** Sorts the pool by score at r (worst first) and pops m candidates: the m best,
        best first, ties broken in favour of the later pool position. */
    method SelectBest(pool: seq<Candidate>, r: real, m: nat) returns (top: seq<Candidate>)
      requires forall c :: c in pool ==> r in c.performanceMap
      requires Distinct(pool) && m <= |pool|
      ensures top == Best(pool, Scores(pool, r), minimize, m)
      ensures |top| == m && Distinct(top) && Within(top, pool)
      ensures forall a, b :: a in top && b in pool && b !in top ==> !IsBetter(b, a, r)
      ensures forall j, l :: 0 <= j < l < m ==> !IsBetter(top[l], top[j], r)
    {
      var key := Scores(pool, r);
      var ranked := SortBy(pool, key, minimize);
      top := PopInto([], ranked, m);
      BestAtBudget(pool, r, m);
    }

    /** The m candidates Best keeps at budget r are m distinct pool members, none
        beaten by a candidate left behind, best first. */
    lemma BestAtBudget(pool: seq<Candidate>, r: real, m: nat)
      requires forall c :: c in pool ==> r in c.performanceMap
      requires Distinct(pool) && m <= |pool|
      ensures |Best(pool, Scores(pool, r), minimize, m)| == m
      ensures Distinct(Best(pool, Scores(pool, r), minimize, m))
      ensures Within(Best(pool, Scores(pool, r), minimize, m), pool)
      ensures forall a, b :: a in Best(pool, Scores(pool, r), minimize, m) && b in pool && b !in Best(pool, Scores(pool, r), minimize, m) ==>
        !IsBetter(b, a, r)
      ensures forall j, l :: 0 <= j < l < m ==>
        !IsBetter(Best(pool, Scores(pool, r), minimize, m)[l], Best(pool, Scores(pool, r), minimize, m)[j], r)
    {
      var key := Scores(pool, r);
      var top := Best(pool, key, minimize, m);
      PoppedAreBest(pool, key, minimize, m);
      DistinctSub(pool, top);
      forall c | c in top ensures c in pool {
        assert c in multiset(top);
      }
    }

    /** The non-strict conservative widening: appends every history candidate that
        is not in the rung and already holds a score at r. */
    method Widen(candidateList: seq<Candidate>, r: real) returns (widened: seq<Candidate>)
      requires Valid()
      ensures widened == candidateList + Readmitted(oldCandidates, candidateList, Snap(oldCandidates), r)
    {
      widened := candidateList;
      var j := 0;
      while j < |oldCandidates|
        invariant 0 <= j <= |oldCandidates|
        invariant widened == candidateList + Readmitted(oldCandidates[..j], candidateList, Snap(oldCandidates), r)
      {
        var c := oldCandidates[j];
        ghost var sofar := Readmitted(oldCandidates[..j], candidateList, Snap(oldCandidates), r);
        assert oldCandidates[..j + 1][..j] == oldCandidates[..j];
        assert Readmitted(oldCandidates[..j + 1], candidateList, Snap(oldCandidates), r)
            == sofar + (if c !in candidateList && r in c.performanceMap then [c] else []);
        assert c !in sofar by {
          ReadmittedMembers(oldCandidates[..j], candidateList, Snap(oldCandidates), r);
          forall t | 0 <= t < j ensures oldCandidates[t] != c {
          }
        }
        assert (c in widened) == (c in candidateList);
        if c !in widened && r in c.performanceMap {
          widened := widened + [c];
        }
        j := j + 1;
      }
      assert oldCandidates[..j] == oldCandidates;
    }

    /** The evaluation step of an efficient rung: every candidate left after the
        promotions is evaluated at r where no score is recorded; the promoted-ahead
        candidates are not touched. */
    method EvaluateRest(candidateList: seq<Candidate>, promotions: seq<Candidate>, remaining: seq<Candidate>, r: real)
      requires Distinct(remaining) && remaining == Without(candidateList, Elems(promotions))
      requires forall j :: 0 <= j < |remaining| ==> remaining[j] in candidateList
      modifies candidateList, measure
      ensures forall c :: c in candidateList ==>
        (c.performanceMap == if c in promotions then old(c.performanceMap)
                             else WithScore(old(c.performanceMap), measure.evalFunc(c.payload, r), r))
      ensures forall c :: c in remaining ==> r in c.performanceMap
      ensures measure.invocAcc == old(measure.invocAcc) + Missing(remaining, old(Snap(remaining)), r)
      ensures measure.budgetAcc == old(measure.budgetAcc) + Charged(remaining, old(Snap(remaining)), r)
      ensures forall c :: c in oldCandidates && c !in candidateList ==> c.performanceMap == old(c.performanceMap)
    {
      EvaluateMissing(remaining, r);
    }

    /** One rung of the efficient policy. Candidates already scored at the next
        rung's budget are promoted ahead without evaluation; the rest are evaluated
        at r_i where no score is recorded, and the best of them fill the promotions
        up to k = floor(n_i / eta). */
    method EfficientRung(candidateList: seq<Candidate>, i: nat)
      returns (next: seq<Candidate>, ghost r: real, ghost k: nat, ghost promoted: seq<Candidate>, ghost rest: seq<Candidate>)
      requires eta >= 1 && Distinct(candidateList)
      modifies candidateList, measure
      ensures r == RungBudget(minBudget, eta, i) && k == ComputeParams(candidateList, i).k
      ensures promoted == ScoredAt(candidateList, old(Snap(candidateList)), RungBudget(minBudget, eta, i + 1))
      ensures rest == Without(candidateList, Elems(promoted))
      ensures forall c :: c in candidateList ==>
        (c.performanceMap == if c in promoted then old(c.performanceMap)
                             else WithScore(old(c.performanceMap), measure.evalFunc(c.payload, r), r))
      ensures forall c :: c in oldCandidates && c !in candidateList ==> c.performanceMap == old(c.performanceMap)
      ensures measure.invocAcc == old(measure.invocAcc) + Missing(rest, old(Snap(rest)), r)
      ensures measure.budgetAcc == old(measure.budgetAcc) + Charged(rest, old(Snap(rest)), r)
      ensures forall c :: c in rest ==> r in c.performanceMap
      ensures |promoted| < k ==> k - |promoted| <= |rest|
      ensures next == Fill(promoted, rest, Scores(rest, r), minimize, k)
      ensures |next| == if |promoted| < k then k else |promoted|
      ensures Distinct(next) && Within(next, candidateList)
    {
      var p := ComputeParams(candidateList, i);
      r, k := p.r, p.k;
      var promotions, remaining := SplitPromoted(candidateList, p.rNext);
      promoted, rest := promotions, remaining;
      EvaluateRest(candidateList, promotions, remaining, p.r);
      next := FillPromotions(promotions, remaining, p.r, p.k);
    }

    /** The pool a conservative rung ranks: the rung itself, widened unless strict. */
    method WidenPool(candidateList: seq<Candidate>, r: real, strict: bool) returns (pool: seq<Candidate>)
      requires Valid() && Distinct(candidateList) && Within(candidateList, oldCandidates)
      ensures pool == Pool(oldCandidates, candidateList, Snap(oldCandidates), r, strict)
      ensures Distinct(pool) && Within(pool, oldCandidates)
      ensures forall c :: c in pool && c !in candidateList ==> r in c.performanceMap
    {
      pool := candidateList;
      if !strict {
        pool := Widen(candidateList, r);
        ReadmittedMembers(oldCandidates, candidateList, Snap(oldCandidates), r);
        DistinctSub(oldCandidates, Readmitted(oldCandidates, candidateList, Snap(oldCandidates), r));
        DistinctConcat(candidateList, Readmitted(oldCandidates, candidateList, Snap(oldCandidates), r));
      }
    }

    /** One rung of the conservative policy: every candidate of the rung is evaluated
        at r_i where no score is recorded; unless strict, history candidates outside
        the rung that already hold a score at r_i compete too; the best
        k = floor(n_i / eta) survive. */
    method ConservativeRung(candidateList: seq<Candidate>, i: nat, strict: bool)
      returns (next: seq<Candidate>, ghost r: real, ghost k: nat, ghost pool: seq<Candidate>)
      requires Valid() && Distinct(candidateList) && Within(candidateList, oldCandidates)
      modifies candidateList, measure
      ensures r == RungBudget(minBudget, eta, i) && k == ComputeParams(candidateList, i).k
      ensures forall c :: c in candidateList ==> c.performanceMap == WithScore(old(c.performanceMap), measure.evalFunc(c.payload, r), r)
      ensures forall c :: c in oldCandidates && c !in candidateList ==> c.performanceMap == old(c.performanceMap)
      ensures measure.invocAcc == old(measure.invocAcc) + Missing(candidateList, old(Snap(candidateList)), r)
      ensures measure.budgetAcc == old(measure.budgetAcc) + Charged(candidateList, old(Snap(candidateList)), r)
      ensures pool == Pool(oldCandidates, candidateList, Snap(oldCandidates), r, strict)
      ensures Within(pool, oldCandidates) && forall c :: c in pool ==> r in c.performanceMap
      ensures k <= |pool|
      ensures next == Best(pool, Scores(pool, r), minimize, k)
      ensures |next| == k && Distinct(next) && Within(next, oldCandidates)
      ensures forall a, b :: a in next && b in pool && b !in next ==> !IsBetter(b, a, r)
    {
      var p := ComputeParams(candidateList, i);
      r, k := p.r, p.k;
      EvaluateMissing(candidateList, p.r);
      var widened := WidenPool(candidateList, p.r, strict);
      pool := widened;
      next := SelectBest(widened, p.r, p.k);
    }

    /** The candidates rung i evaluates, in rung order: under the efficient policy
        the rung without those already scored at the next rung's budget, under the
        conservative policy the whole rung. */
    function Evaluated(i: nat, L: seq<Candidate>, before: Snapshot): (ev: seq<Candidate>)
      ensures forall c :: c in ev ==> c in L && !(policy.Efficient? && Has(before, c, RungBudget(minBudget, eta, i + 1)))
      ensures forall c :: c in L && !(policy.Efficient? && Has(before, c, RungBudget(minBudget, eta, i + 1))) ==> c in ev
    {
      if policy.Efficient? then
        var promoted := ScoredAt(L, before, RungBudget(minBudget, eta, i + 1));
        ScoredAtMembers(L, before, RungBudget(minBudget, eta, i + 1));
        Without(L, Elems(promoted))
      else L
    }

    /** The history's scores after rung i on the list L: each candidate the rung
        evaluates gains the evaluator's score at r_i where it had none. */
    function AfterRung(i: nat, L: seq<Candidate>, before: Snapshot): (after: Snapshot)
      ensures after.Keys == before.Keys
      ensures forall c :: c in before ==> Grown(before[c], after[c], c.payload)
      ensures forall c :: c in before && c in Evaluated(i, L, before) ==> Has(after, c, RungBudget(minBudget, eta, i))
      ensures forall c :: c in before && c !in Evaluated(i, L, before) ==> after[c] == before[c]
    {
      EvaluateSpec(Evaluated(i, L, before), before, measure.evalFunc, RungBudget(minBudget, eta, i));
      Evaluate(Evaluated(i, L, before), before, measure.evalFunc, RungBudget(minBudget, eta, i))
    }

    /** Scores that changed exactly as rung i changes them are AfterRung's. */
    lemma AfterRungIs(i: nat, L: seq<Candidate>, before: Snapshot, after: Snapshot)
      requires after.Keys == before.Keys
      requires forall c :: c in before ==>
        after[c] == if c in Evaluated(i, L, before)
                    then WithScore(before[c], measure.evalFunc(c.payload, RungBudget(minBudget, eta, i)), RungBudget(minBudget, eta, i))
                    else before[c]
      ensures after == AfterRung(i, L, before)
    {
      EvaluateSpec(Evaluated(i, L, before), before, measure.evalFunc, RungBudget(minBudget, eta, i));
    }

    /** The survivors of rung i on the list L of a bracket whose history is H, the
        history's scores being `before`: under the efficient policy the candidates
        already scored at the next rung's budget, topped up to floor(|L| / eta) with
        the best of the evaluated rest; under the conservative policy the best
        floor(|L| / eta) of the rung, widened unless strict by the history
        candidates already scored at r_i. Ranking uses the scores after the rung. */
    function Survivors(i: nat, H: seq<Candidate>, L: seq<Candidate>, before: Snapshot): seq<Candidate>
      requires eta >= 1
    {
      var r, after := RungBudget(minBudget, eta, i), AfterRung(i, L, before);
      if policy.Efficient? then
        EfficientNext(ScoredAt(L, before, RungBudget(minBudget, eta, i + 1)), Evaluated(i, L, before), after, r, minimize, ComputeParams(L, i).k)
      else
        ConservativeNext(Pool(H, L, after, r, policy.strict), after, r, minimize, ComputeParams(L, i).k)
    }

    /** For a rung drawn without repetition from the history, whose scores are all
        known, the policy always finds enough scored candidates: Survivors never
        takes its fallback, and keeps floor(|L| / eta) candidates under the
        conservative policy and at least that many under the efficient one. */
    lemma SurvivorsDefined(i: nat, H: seq<Candidate>, L: seq<Candidate>, before: Snapshot)
      requires eta >= 1 && Distinct(L) && Within(L, H) && forall c :: c in H ==> c in before
      ensures var r, after := RungBudget(minBudget, eta, i), AfterRung(i, L, before);
        if policy.Efficient? then
          var promoted, rest := ScoredAt(L, before, RungBudget(minBudget, eta, i + 1)), Evaluated(i, L, before);
          && (forall c :: c in rest ==> c in after && r in after[c])
          && ComputeParams(L, i).k <= |promoted| + |rest|
        else
          var pool := Pool(H, L, after, r, policy.strict);
          && (forall c :: c in pool ==> c in after && r in after[c])
          && ComputeParams(L, i).k <= |pool|
      ensures policy.Conservative? ==> |Survivors(i, H, L, before)| == ComputeParams(L, i).k
      ensures policy.Efficient? ==> |Survivors(i, H, L, before)| >= ComputeParams(L, i).k
    {
      if policy.Efficient? {
        EfficientDefined(i, H, L, before);
      } else {
        ConservativeDefined(i, H, L, before);
      }
    }

    /** SurvivorsDefined under the efficient policy. */
    lemma EfficientDefined(i: nat, H: seq<Candidate>, L: seq<Candidate>, before: Snapshot)
      requires eta >= 1 && policy.Efficient? && Distinct(L) && Within(L, H) && forall c :: c in H ==> c in before
      ensures var r, after := RungBudget(minBudget, eta, i), AfterRung(i, L, before);
        var promoted, rest := ScoredAt(L, before, RungBudget(minBudget, eta, i + 1)), Evaluated(i, L, before);
        && (forall c :: c in rest ==> c in after && r in after[c])
        && ComputeParams(L, i).k <= |promoted| + |rest|
      ensures |Survivors(i, H, L, before)| >= ComputeParams(L, i).k
    {
      var r, k, after := RungBudget(minBudget, eta, i), ComputeParams(L, i).k, AfterRung(i, L, before);
      var promoted := ScoredAt(L, before, RungBudget(minBudget, eta, i + 1));
      ScoredAtMembers(L, before, RungBudget(minBudget, eta, i + 1));
      DistinctSub(L, promoted);
      WithoutCount(L, promoted, |promoted|);
      assert promoted[..|promoted|] == promoted;
      EfficientNextWithin(promoted, Evaluated(i, L, before), after, r, minimize, k);
    }

    /** SurvivorsDefined under the conservative policy. */
    lemma ConservativeDefined(i: nat, H: seq<Candidate>, L: seq<Candidate>, before: Snapshot)
      requires eta >= 1 && policy.Conservative? && Distinct(L) && Within(L, H) && forall c :: c in H ==> c in before
      ensures var r, after := RungBudget(minBudget, eta, i), AfterRung(i, L, before);
        var pool := Pool(H, L, after, r, policy.strict);
        && (forall c :: c in pool ==> c in after && r in after[c])
        && ComputeParams(L, i).k <= |pool|
      ensures |Survivors(i, H, L, before)| == ComputeParams(L, i).k
    {
      var r, k, after := RungBudget(minBudget, eta, i), ComputeParams(L, i).k, AfterRung(i, L, before);
      var pool := Pool(H, L, after, r, policy.strict);
      ReadmittedMembers(H, L, after, r);
      ConservativeNextWithin(pool, after, r, minimize, k);
    }

    /** The survivors of rung i come from the history and, once the rung has run,
        hold a score at r_i or, under the efficient policy, at the next rung's budget. */
    lemma SurvivorsScored(i: nat, H: seq<Candidate>, L: seq<Candidate>, before: Snapshot)
      requires eta >= 1 && Within(L, H) && forall c :: c in H ==> c in before
      ensures Within(Survivors(i, H, L, before), H)
      ensures Finished(i, Survivors(i, H, L, before), AfterRung(i, L, before))
    {
      var r, r1, k, after := RungBudget(minBudget, eta, i), RungBudget(minBudget, eta, i + 1), ComputeParams(L, i).k, AfterRung(i, L, before);
      var next := Survivors(i, H, L, before);
      if policy.Efficient? {
        var promoted, rest := ScoredAt(L, before, r1), Evaluated(i, L, before);
        ScoredAtMembers(L, before, r1);
        EfficientNextWithin(promoted, rest, after, r, minimize, k);
        forall c | c in next
          ensures c in H && (Has(after, c, r) || Has(after, c, r1))
        {
          if c in promoted {
            assert Grown(before[c], after[c], c.payload);
          }
        }
      } else {
        var pool := Pool(H, L, after, r, policy.strict);
        ReadmittedMembers(H, L, after, r);
        ConservativeNextWithin(pool, after, r, minimize, k);
      }
    }

    /** The efficient rung's pick, made on the scores after the rung, is Survivors. */
    lemma EfficientSurvivorsIs(i: nat, H: seq<Candidate>, L: seq<Candidate>, before: Snapshot,
                               promoted: seq<Candidate>, rest: seq<Candidate>, after: Snapshot, next: seq<Candidate>)
      requires eta >= 1 && policy.Efficient?
      requires promoted == ScoredAt(L, before, RungBudget(minBudget, eta, i + 1))
      requires rest == Evaluated(i, L, before) && after == AfterRung(i, L, before)
      requires forall c :: c in rest ==> c in after && RungBudget(minBudget, eta, i) in after[c]
      requires ComputeParams(L, i).k <= |promoted| + |rest|
      requires next == Fill(promoted, rest, KeyAt(rest, after, RungBudget(minBudget, eta, i)), minimize, ComputeParams(L, i).k)
      ensures next == Survivors(i, H, L, before)
    {
      EfficientNextIs(promoted, rest, after, RungBudget(minBudget, eta, i), minimize, ComputeParams(L, i).k, next);
    }

    /** The conservative rung's pick, made on the scores after the rung, is Survivors. */
    lemma ConservativeSurvivorsIs(i: nat, H: seq<Candidate>, L: seq<Candidate>, before: Snapshot,
                                  after: Snapshot, pool: seq<Candidate>, next: seq<Candidate>)
      requires eta >= 1 && policy.Conservative?
      requires after == AfterRung(i, L, before)
      requires pool == Pool(H, L, after, RungBudget(minBudget, eta, i), policy.strict)
      requires forall c :: c in pool ==> c in after && RungBudget(minBudget, eta, i) in after[c]
      requires ComputeParams(L, i).k <= |pool|
      requires next == Best(pool, KeyAt(pool, after, RungBudget(minBudget, eta, i)), minimize, ComputeParams(L, i).k)
      ensures next == Survivors(i, H, L, before)
    {
      ConservativeNextIs(pool, after, RungBudget(minBudget, eta, i), minimize, ComputeParams(L, i).k, next);
    }

    /** After rung i every survivor holds a score at the rung's budget, or, under
        the efficient policy, at the next rung's budget. */
    ghost predicate Finished(i: nat, next: seq<Candidate>, after: Snapshot) {
      forall c :: c in next ==>
        Has(after, c, RungBudget(minBudget, eta, i))
        || (policy.Efficient? && Has(after, c, RungBudget(minBudget, eta, i + 1)))
    }

    /** One rung, rung i, of a bracket whose history is H, from the state t: the
        rung takes t's survivors and the scores t holds, and the measure's counters
        grow by the evaluations the rung pays for. */
    function Advance(i: nat, H: seq<Candidate>, t: Trace): Trace
      requires eta >= 1
    {
      Trace(Survivors(i, H, t.survivors, t.scores), AfterRung(i, t.survivors, t.scores),
            t.invocations + Missing(Evaluated(i, t.survivors, t.scores), t.scores, RungBudget(minBudget, eta, i)),
            t.budget + Charged(Evaluated(i, t.survivors, t.scores), t.scores, RungBudget(minBudget, eta, i)))
    }

    /** A state whose parts are those rung i produces from t is Advance(i, H, t). */
    lemma AdvanceIs(i: nat, H: seq<Candidate>, t: Trace, next: seq<Candidate>, after: Snapshot, invocations: nat, budget: real)
      requires eta >= 1
      requires next == Survivors(i, H, t.survivors, t.scores) && after == AfterRung(i, t.survivors, t.scores)
      requires invocations == t.invocations + Missing(Evaluated(i, t.survivors, t.scores), t.scores, RungBudget(minBudget, eta, i))
      requires budget == t.budget + Charged(Evaluated(i, t.survivors, t.scores), t.scores, RungBudget(minBudget, eta, i))
      ensures Trace(next, after, invocations, budget) == Advance(i, H, t)
    {
    }

    /** Rung j of a bracket whose history is H leads from trail[j] to trail[j + 1]. */
    ghost predicate Link(j: nat, H: seq<Candidate>, trail: seq<Trace>)
      requires eta >= 1 && j + 1 < |trail|
    {
      trail[j + 1] == Advance(j, H, trail[j])
    }

    /** The rungs 0 .. last ran along trail over the history H: rung 0 takes the
        whole history and the trail holds a score map for each history candidate,
        and each rung is Advance of the state before it. */
    ghost predicate Ran(last: nat, H: seq<Candidate>, trail: seq<Trace>) {
      && eta >= 1 && |trail| == last + 2
      && trail[0].survivors == H && trail[0].scores.Keys == Elems(H)
      && forall j {:trigger Link(j, H, trail)} :: 0 <= j <= last ==> Link(j, H, trail)
    }

    /** The rungs 0 .. s ran along trail over the history, and the last state holds
        the scores the history holds now. */
    ghost predicate RanAlong(trail: seq<Trace>)
      reads this, oldCandidates
    {
      Ran(s, oldCandidates, trail) && trail[s + 1].scores == Snap(oldCandidates)
    }

    /** Along a trail the rungs ran, each history candidate's scores only grew,
        from those the trail started with to those it holds now, and every score
        added is the evaluator's. */
    lemma RanGrown(trail: seq<Trace>)
      requires RanAlong(trail)
      ensures forall c :: c in oldCandidates ==> c in trail[0].scores && Grown(trail[0].scores[c], c.performanceMap, c.payload)
    {
      forall j {:trigger Advance(j, oldCandidates, trail[j])} | 0 <= j <= s
        ensures trail[j + 1] == Advance(j, oldCandidates, trail[j])
      {
        assert Link(j, oldCandidates, trail);
      }
      TrailFacts(s, oldCandidates, trail);
    }

    /** What the rungs 0 .. last of a trail from t0 = trail[0] leave behind: the
        survivors come from the history and are Finished, and every candidate's
        scores have only grown. */
    lemma TrailFacts(last: nat, H: seq<Candidate>, trail: seq<Trace>)
      requires eta >= 1 && |trail| == last + 2
      requires forall j {:trigger Advance(j, H, trail[j])} :: 0 <= j <= last ==> trail[j + 1] == Advance(j, H, trail[j])
      requires Within(trail[0].survivors, H) && forall c :: c in H ==> c in trail[0].scores
      ensures Within(trail[last + 1].survivors, H)
      ensures Finished(last, trail[last + 1].survivors, trail[last + 1].scores)
      ensures trail[last + 1].scores.Keys == trail[0].scores.Keys
      ensures forall c :: c in trail[0].scores ==> Grown(trail[0].scores[c], trail[last + 1].scores[c], c.payload)
    {
      TrailFinished(0, last, H, trail);
      TrailGrown(0, last, H, trail);
    }

    /** From state i of a linked trail on, the survivors stay within the history,
        and the last rung's survivors hold the scores that rung promises. */
    lemma {:induction false} TrailFinished(i: nat, last: nat, H: seq<Candidate>, trail: seq<Trace>)
      requires eta >= 1 && i <= last && |trail| == last + 2
      requires forall j {:trigger Advance(j, H, trail[j])} :: 0 <= j <= last ==> trail[j + 1] == Advance(j, H, trail[j])
      requires Within(trail[i].survivors, H) && forall c :: c in H ==> c in trail[i].scores
      ensures Within(trail[last + 1].survivors, H)
      ensures Finished(last, trail[last + 1].survivors, trail[last + 1].scores)
      decreases last - i
    {
      StepFinished(i, last, H, trail);
      if i < last {
        TrailFinished(i + 1, last, H, trail);
      }
    }

    /** Rung i of a linked trail keeps the survivors within the history and the
        history's candidates scored, and its survivors hold the scores it promises. */
    lemma StepFinished(i: nat, last: nat, H: seq<Candidate>, trail: seq<Trace>)
      requires eta >= 1 && i <= last && |trail| == last + 2
      requires forall j {:trigger Advance(j, H, trail[j])} :: 0 <= j <= last ==> trail[j + 1] == Advance(j, H, trail[j])
      requires Within(trail[i].survivors, H) && forall c :: c in H ==> c in trail[i].scores
      ensures Within(trail[i + 1].survivors, H) && forall c :: c in H ==> c in trail[i + 1].scores
      ensures Finished(i, trail[i + 1].survivors, trail[i + 1].scores)
    {
      assert trail[i + 1] == Advance(i, H, trail[i]);
      SurvivorsScored(i, H, trail[i].survivors, trail[i].scores);
    }

    /** From state i of a linked trail on, the scores keep their candidates and
        only gain the evaluator's scores. */
    lemma {:induction false} TrailGrown(i: nat, last: nat, H: seq<Candidate>, trail: seq<Trace>)
      requires eta >= 1 && i <= last && |trail| == last + 2
      requires forall j {:trigger Advance(j, H, trail[j])} :: 0 <= j <= last ==> trail[j + 1] == Advance(j, H, trail[j])
      ensures trail[last + 1].scores.Keys == trail[i].scores.Keys
      ensures forall c :: c in trail[i].scores ==> Grown(trail[i].scores[c], trail[last + 1].scores[c], c.payload)
      decreases last - i
    {
      StepGrown(i, last, H, trail);
      if i < last {
        TrailGrown(i + 1, last, H, trail);
        forall c | c in trail[i].scores
          ensures Grown(trail[i].scores[c], trail[last + 1].scores[c], c.payload)
        {
          GrownTrans(trail[i].scores[c], trail[i + 1].scores[c], trail[last + 1].scores[c], c.payload);
        }
      }
    }

    /** Rung i of a linked trail keeps the history's candidates and only adds the
        evaluator's scores. */
    lemma StepGrown(i: nat, last: nat, H: seq<Candidate>, trail: seq<Trace>)
      requires eta >= 1 && i <= last && |trail| == last + 2
      requires forall j {:trigger Advance(j, H, trail[j])} :: 0 <= j <= last ==> trail[j + 1] == Advance(j, H, trail[j])
      ensures trail[i + 1].scores.Keys == trail[i].scores.Keys
      ensures forall c :: c in trail[i].scores ==> Grown(trail[i].scores[c], trail[i + 1].scores[c], c.payload)
    {
      assert trail[i + 1] == Advance(i, H, trail[i]);
    }

    /** Rung i under the bracket's policy, proved against Survivors and AfterRung on
        the scores of the whole history. */
    method Rung(candidateList: seq<Candidate>, i: nat) returns (next: seq<Candidate>)
      requires Valid() && Distinct(candidateList) && Within(candidateList, oldCandidates)
      modifies candidateList, measure
      ensures Trace(next, Snap(oldCandidates), measure.invocAcc, measure.budgetAcc)
           == Advance(i, oldCandidates, old(Trace(candidateList, Snap(oldCandidates), measure.invocAcc, measure.budgetAcc)))
      ensures Distinct(next) && Within(next, oldCandidates)
    {
      if policy.Efficient? {
        next := EfficientStep(candidateList, i);
      } else {
        next := ConservativeStep(candidateList, i);
      }
    }

    /** What an efficient rung did to the candidates, read on the history's scores:
        the promoted and the evaluated candidates are those Evaluated names, the
        scores are AfterRung's and the counters grew as that rung charges. */
    twostate lemma EfficientScores(new L: seq<Candidate>, new i: nat, new promoted: seq<Candidate>, new rest: seq<Candidate>, new r: real)
      requires old(allocated(L)) && old(allocated(rest))
      requires policy.Efficient? && unchanged(this) && Within(L, oldCandidates)
      requires r == RungBudget(minBudget, eta, i)
      requires promoted == ScoredAt(L, old(Snap(L)), RungBudget(minBudget, eta, i + 1))
      requires rest == Without(L, Elems(promoted))
      requires forall c :: c in L ==>
        (c.performanceMap == if c in promoted then old(c.performanceMap)
                             else WithScore(old(c.performanceMap), measure.evalFunc(c.payload, r), r))
      requires forall c :: c in oldCandidates && c !in L ==> c.performanceMap == old(c.performanceMap)
      ensures promoted == ScoredAt(L, old(Snap(oldCandidates)), RungBudget(minBudget, eta, i + 1))
      ensures rest == Evaluated(i, L, old(Snap(oldCandidates)))
      ensures Missing(rest, old(Snap(rest)), r) == Missing(rest, old(Snap(oldCandidates)), r)
      ensures Charged(rest, old(Snap(rest)), r) == Charged(rest, old(Snap(oldCandidates)), r)
      ensures Snap(oldCandidates) == AfterRung(i, L, old(Snap(oldCandidates)))
    {
      Agree(L, old(Snap(L)), old(Snap(oldCandidates)), RungBudget(minBudget, eta, i + 1));
      Agree(rest, old(Snap(rest)), old(Snap(oldCandidates)), r);
      forall c | c in old(Snap(oldCandidates))
        ensures Snap(oldCandidates)[c] == if c in rest then WithScore(old(Snap(oldCandidates))[c], measure.evalFunc(c.payload, r), r)
                                          else old(Snap(oldCandidates))[c]
      {
        if c in L {
          assert c in rest <==> c !in promoted;
        }
      }
      AfterRungIs(i, L, old(Snap(oldCandidates)), Snap(oldCandidates));
    }

    /** Rung for the efficient policy. */
    method EfficientStep(candidateList: seq<Candidate>, i: nat) returns (next: seq<Candidate>)
      requires policy.Efficient? && Valid() && Distinct(candidateList) && Within(candidateList, oldCandidates)
      modifies candidateList, measure
      ensures Trace(next, Snap(oldCandidates), measure.invocAcc, measure.budgetAcc)
           == Advance(i, oldCandidates, old(Trace(candidateList, Snap(oldCandidates), measure.invocAcc, measure.budgetAcc)))
      ensures Distinct(next) && Within(next, oldCandidates)
    {
      ghost var r, k, promoted, rest;
      next, r, k, promoted, rest := EfficientRung(candidateList, i);
      EfficientScores(candidateList, i, promoted, rest, r);
      ghost var before, after := old(Snap(oldCandidates)), Snap(oldCandidates);
      ScoresMatch(rest, after, r);
      EfficientSurvivorsIs(i, oldCandidates, candidateList, before, promoted, rest, after, next);
      AdvanceIs(i, oldCandidates, old(Trace(candidateList, Snap(oldCandidates), measure.invocAcc, measure.budgetAcc)),
                next, Snap(oldCandidates), measure.invocAcc, measure.budgetAcc);
    }

    /** What a conservative rung did to the scores, read against its starting
        snapshot: every candidate of L was evaluated, the scores are AfterRung's and
        the counters grew as that rung charges. */
    twostate lemma ConservativeScores(new L: seq<Candidate>, new i: nat, new r: real)
      requires old(allocated(L))
      requires policy.Conservative? && unchanged(this) && Within(L, oldCandidates)
      requires r == RungBudget(minBudget, eta, i)
      requires forall c :: c in L ==> c.performanceMap == WithScore(old(c.performanceMap), measure.evalFunc(c.payload, r), r)
      requires forall c :: c in oldCandidates && c !in L ==> c.performanceMap == old(c.performanceMap)
      ensures Evaluated(i, L, old(Snap(oldCandidates))) == L
      ensures Missing(L, old(Snap(L)), r) == Missing(L, old(Snap(oldCandidates)), r)
      ensures Charged(L, old(Snap(L)), r) == Charged(L, old(Snap(oldCandidates)), r)
      ensures Snap(oldCandidates) == AfterRung(i, L, old(Snap(oldCandidates)))
    {
      Agree(L, old(Snap(L)), old(Snap(oldCandidates)), r);
      assert Evaluated(i, L, old(Snap(oldCandidates))) == L;
      forall c | c in old(Snap(oldCandidates))
        ensures Snap(oldCandidates)[c] == if c in L then WithScore(old(Snap(oldCandidates))[c], measure.evalFunc(c.payload, r), r)
                                          else old(Snap(oldCandidates))[c]
      {
      }
      AfterRungIs(i, L, old(Snap(oldCandidates)), Snap(oldCandidates));
    }

    /** Rung for the conservative policy. */
    method ConservativeStep(candidateList: seq<Candidate>, i: nat) returns (next: seq<Candidate>)
      requires policy.Conservative? && Valid() && Distinct(candidateList) && Within(candidateList, oldCandidates)
      modifies candidateList, measure
      ensures Trace(next, Snap(oldCandidates), measure.invocAcc, measure.budgetAcc)
           == Advance(i, oldCandidates, old(Trace(candidateList, Snap(oldCandidates), measure.invocAcc, measure.budgetAcc)))
      ensures Distinct(next) && Within(next, oldCandidates)
    {
      ghost var r, k, pool;
      next, r, k, pool := ConservativeRung(candidateList, i, policy.strict);
      ConservativeScores(candidateList, i, r);
      ghost var before, after := old(Snap(oldCandidates)), Snap(oldCandidates);
      ScoresMatch(pool, after, r);
      ConservativeSurvivorsIs(i, oldCandidates, candidateList, before, after, pool, next);
      AdvanceIs(i, oldCandidates, old(Trace(candidateList, Snap(oldCandidates), measure.invocAcc, measure.budgetAcc)),
                next, after, measure.invocAcc, measure.budgetAcc);
    }

    /** A trail linked by Advance up to rung i stays linked when the state rung i
        reaches is appended. */
    lemma TrailExtends(H: seq<Candidate>, trail: seq<Trace>, i: nat, reached: Trace)
      requires eta >= 1 && |trail| == i + 1
      requires forall j {:trigger Advance(j, H, trail[j])} :: 0 <= j < i ==> trail[j + 1] == Advance(j, H, trail[j])
      requires reached == Advance(i, H, trail[i])
      ensures forall j {:trigger Advance(j, H, (trail + [reached])[j])} :: 0 <= j <= i ==> (trail + [reached])[j + 1] == Advance(j, H, (trail + [reached])[j])
    {
      LinksKept(H, trail, i, reached);
      LinkAdded(H, trail, i, reached);
    }

    /** The appended state is linked to the trail's last one. */
    lemma LinkAdded(H: seq<Candidate>, trail: seq<Trace>, i: nat, reached: Trace)
      requires eta >= 1 && |trail| == i + 1 && reached == Advance(i, H, trail[i])
      ensures forall j {:trigger Advance(j, H, (trail + [reached])[j])} :: j == i ==> (trail + [reached])[j + 1] == Advance(j, H, (trail + [reached])[j])
    {
      assert (trail + [reached])[i] == trail[i] && (trail + [reached])[i + 1] == reached;
    }

    /** Appending to a trail keeps each of its earlier links. */
    lemma LinksKept(H: seq<Candidate>, trail: seq<Trace>, i: nat, reached: Trace)
      requires eta >= 1 && |trail| == i + 1
      requires forall j {:trigger Advance(j, H, trail[j])} :: 0 <= j < i ==> trail[j + 1] == Advance(j, H, trail[j])
      ensures forall j {:trigger Advance(j, H, (trail + [reached])[j])} :: 0 <= j < i ==> (trail + [reached])[j + 1] == Advance(j, H, (trail + [reached])[j])
    {
      forall j {:trigger Advance(j, H, (trail + [reached])[j])} | 0 <= j < i
        ensures (trail + [reached])[j + 1] == Advance(j, H, (trail + [reached])[j])
      {
        assert (trail + [reached])[j] == trail[j] && (trail + [reached])[j + 1] == trail[j + 1];
      }
    }

    /** The rung loop of successiveHalving over the whole history: rung 0 takes the
        history and rung i + 1 the survivors of rung i, up to rung s. The ghost trail
        records the survivors, the history's scores and the measure's counters before
        rung 0 and after every rung, each state being Advance of the one before. */
    method RunRungs() returns (survivors: seq<Candidate>, ghost trail: seq<Trace>)
      requires Valid()
      modifies oldCandidates, measure
      ensures |trail| == s + 2
      ensures trail[0] == old(Trace(oldCandidates, Snap(oldCandidates), measure.invocAcc, measure.budgetAcc))
      ensures trail[s + 1] == Trace(survivors, Snap(oldCandidates), measure.invocAcc, measure.budgetAcc)
      ensures forall j {:trigger Advance(j, oldCandidates, trail[j])} :: 0 <= j <= s ==> trail[j + 1] == Advance(j, oldCandidates, trail[j])
    {
      survivors := oldCandidates;
      trail := [Trace(oldCandidates, Snap(oldCandidates), measure.invocAcc, measure.budgetAcc)];
      for i := 0 to s + 1
        invariant Distinct(survivors) && Within(survivors, oldCandidates)
        invariant |trail| == i + 1
        invariant trail[0] == old(Trace(oldCandidates, Snap(oldCandidates), measure.invocAcc, measure.budgetAcc))
        invariant trail[i] == Trace(survivors, Snap(oldCandidates), measure.invocAcc, measure.budgetAcc)
        invariant forall j {:trigger Advance(j, oldCandidates, trail[j])} :: 0 <= j < i ==> trail[j + 1] == Advance(j, oldCandidates, trail[j])
      {
        // Rung modifies its list's candidates: the indexed form lets the frame check see them in the history.
        assert forall k :: 0 <= k < |survivors| ==> survivors[k] in oldCandidates;
        survivors := Rung(survivors, i);
        ghost var reached := Trace(survivors, Snap(oldCandidates), measure.invocAcc, measure.budgetAcc);
        TrailExtends(oldCandidates, trail, i, reached);
        trail := trail + [reached];
      }
    }

    /** Appends the new candidates to the history. */
    method Merge(candidates: seq<Candidate>)
      requires Valid() && Distinct(candidates)
      requires forall c :: c in candidates ==> c !in oldCandidates
      modifies this`oldCandidates
      ensures Valid() && oldCandidates == old(oldCandidates) + candidates
    {
      var j := 0;
      while j < |candidates|
        invariant 0 <= j <= |candidates|
        invariant oldCandidates == old(oldCandidates) + candidates[..j]
      {
        oldCandidates := oldCandidates + [candidates[j]];
        j := j + 1;
      }
      assert candidates[..j] == candidates;
      DistinctConcat(old(oldCandidates), candidates);
    }

    /** successiveHalving(candidates): appends the new candidates to the history,
        runs rungs 0 .. s over the whole history under the bracket's policy and
        reports the best candidate scored at the maximum budget. The trail holds
        the state before each rung and after the last: it starts from the history
        as the call finds it, each rung is Advance, and it ends with the survivors
        of rung s, the history's scores and the measure's counters. */
    method Run(candidates: seq<Candidate>) returns (best: Option<Candidate>, ghost survivors: seq<Candidate>,
                                                    ghost trail: seq<Trace>)
      requires Valid() && Distinct(candidates)
      requires forall c :: c in candidates ==> c !in oldCandidates
      modifies this`oldCandidates, oldCandidates, candidates, measure
      ensures Valid()
      ensures oldCandidates == old(oldCandidates) + candidates
      ensures |trail| == s + 2
      ensures trail[0].survivors == oldCandidates
      ensures trail[0].invocations == old(measure.invocAcc) && trail[0].budget == old(measure.budgetAcc)
      ensures trail[0].scores.Keys == Elems(oldCandidates)
      ensures forall c :: c in oldCandidates ==> trail[0].scores[c] == old(c.performanceMap)
      ensures trail[s + 1] == Trace(survivors, Snap(oldCandidates), measure.invocAcc, measure.budgetAcc)
      ensures forall j {:trigger Advance(j, oldCandidates, trail[j])} :: 0 <= j <= s ==> trail[j + 1] == Advance(j, oldCandidates, trail[j])
      ensures Within(survivors, oldCandidates) && Finished(s, survivors, Snap(oldCandidates))
      ensures forall c :: c in oldCandidates ==> Grown(old(c.performanceMap), c.performanceMap, c.payload)
      ensures BestAtMax(best)
      ensures RanAlong(trail)
    {
      ghost var start := Snap(oldCandidates + candidates);
      Merge(candidates);
      assert Snap(oldCandidates) == start;
      survivors, trail := RunRungs();
      TrailFacts(s, oldCandidates, trail);
      forall j | 0 <= j <= s ensures Link(j, oldCandidates, trail) {
        assert trail[j + 1] == Advance(j, oldCandidates, trail[j]);
      }
      best := GetBestCandidateForMaximumBudget();
    }
  }
}
