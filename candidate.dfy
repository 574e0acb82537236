/** A candidate (an opaque configuration with the scores measured for it, by
    budget) and the evaluator wrapper that counts invocations and budget spent. */
module Candidates {

  /** The configuration a candidate stands for; the scheduler never looks inside. */
  type Payload

  /** The outcome of a performance lookup: the score, or the budget was never recorded. */
  datatype Lookup = Score(value: real) | KeyNotFound

  class Candidate {
    const payload: Payload
    var performanceMap: map<real, real>

    constructor (payload: Payload)
      ensures this.payload == payload && performanceMap == map[]
    {
      this.payload := payload;
      performanceMap := map[];
    }

    /** Records the score measured at a budget. */
    method StorePerformance(budget: real, performance: real)
      modifies this
      ensures GetPerformance(budget) == Score(performance)
      ensures forall b :: b != budget ==> GetPerformance(b) == old(GetPerformance(b))
      ensures performanceMap.Keys == old(performanceMap.Keys) + {budget}
      ensures performanceMap == old(performanceMap)[budget := performance]
    {
      performanceMap := performanceMap[budget := performance];
    }

    /** The score recorded at a budget; a KeyNotFound lookup stands for the KeyError raised. */
    function GetPerformance(budget: real): (r: Lookup)
      reads this
      ensures r.KeyNotFound? <==> budget !in performanceMap
      ensures r.Score? ==> performanceMap[budget] == r.value
    {
      if budget in performanceMap then Score(performanceMap[budget]) else KeyNotFound
    }
  }

  /** Wraps the evaluation function and accounts for every call made through it. */
  class BudgetTrackingPerformanceMeasure {
    const evalFunc: (Payload, real) -> real
    var budgetAcc: real
    var invocAcc: nat

    constructor (evalFunc: (Payload, real) -> real)
      ensures this.evalFunc == evalFunc && budgetAcc == 0.0 && invocAcc == 0
    {
      this.evalFunc := evalFunc;
      budgetAcc := 0.0;
      invocAcc := 0;
    }

    /** Charges one invocation and the budget, then returns the evaluation function's score unchanged. */
    method Evaluate(candidate: Payload, budget: real) returns (score: real)
      modifies this
      ensures invocAcc == old(invocAcc) + 1
      ensures budgetAcc == old(budgetAcc) + budget
      ensures score == evalFunc(candidate, budget)
    {
      invocAcc := invocAcc + 1;
      budgetAcc := budgetAcc + budget;
      score := evalFunc(candidate, budget);
    }

    /** The total budget charged since construction or the last reset. */
    function GetAccumulatedBudget(): (total: real)
      reads this
      ensures total == budgetAcc
    {
      budgetAcc
    }

    /** Clears the budget total; the invocation count is kept. */
    method ResetAccumulatedBudget()
      modifies this
      ensures budgetAcc == 0.0 && invocAcc == old(invocAcc)
    {
      budgetAcc := 0.0;
    }
  }
}
