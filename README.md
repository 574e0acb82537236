# Incremental Hyperband (iDHB) in Dafny

This project models `idhb.py`, an implementation of incremental Hyperband for hyperparameter optimisation:

- **Candidate and measure.** A `Candidate` wraps an opaque configuration together with the scores measured for it, keyed by budget. The `BudgetTrackingPerformanceMeasure` wraps the evaluation function and counts invocations and budget spent.
- **Successive Halving bracket.** A `SuccessiveHalving` bracket runs rungs `i = 0 .. s`:
  - rung `i` runs at budget `r_i = min_budget * eta^i`;
  - `k = floor(n_i / eta)` candidates survive each rung;
  - every candidate ever given to the bracket is kept in its history (`old_candidates`), so later calls resume from the stored scores.
- **Two promotion policies:**
  - **Efficient** promotes candidates already scored at the next budget without evaluating them, and fills the rest with the best of the remaining candidates by their score at `r_i`. Those already scored at `r_i` are not evaluated again.
  - **Conservative** ranks every candidate of the rung. Unless strict, it also lets history candidates that already hold a score at `r_i` compete again.
- **`IDHyperband`** owns brackets `s = s_max .. 0`. `incrementMaxBudget` multiplies the maximum budget by `eta`, extends every bracket by one rung and appends a new `s = 0` bracket. `hyperband` plays the brackets in order and keeps an incumbent that a bracket result replaces only when its score at the maximum budget is strictly smaller.

Modules and files:

- `Lists` (`lists.dfy`) — distinctness and `list.remove` as a filter.
- `Ranking` (`ranking.dfy`) — the stable `sorted(..., reverse=minimize)` and repeated `pop()`; proves the popped candidates are the best ones.
- `Budgets` (`budgets.dfy`) — integer powers, rung budgets, `s_max` as an integer floor-logarithm, and the bracket size `n`.
- `Candidates` (`candidate.dfy`) — `Candidate` and `BudgetTrackingPerformanceMeasure` as classes with mutable fields.
- `Halving` (`successive_halving.dfy`) — the bracket as a class.
  - The loops inside one rung are methods proved against specification functions (`ScoredAt`, `Without`, `Readmitted`, `Pool`, `Fill`, `Best`, `Missing`, `Charged`).
  - One rung is the function `Advance` on a `Trace` (the survivors, the history's scores and the measure's counters). `Rung` is proved to perform `Advance`.
  - The loop over rungs, `RunRungs`, returns a ghost trail: it starts from the whole history and its scores, and each state is `Advance` of the one before. `TrailFacts` proves what the last rung leaves: survivors drawn from the history, each scored at the last rung's budget (or, for an efficient bracket, already at the next one), and scores that only grew.
- `Orchestrator` (`hyperband.dfy`):
  - `IDHyperband` as a class;
  - the pass of `hyperband` as a loop over the brackets. Each bracket's result is its best candidate at the maximum budget (`BestAtMax`), and its history grows by the candidates sampled for it.
  - The incumbent comparison is also stated as the fold `Fold` over the scores of those results, with its lemmas. The pass's outcome is proved to be that fold, lifted back to the winners (`Lift`).

Budgets are reals. Candidate identity is object identity, as with Python's `in` and `list.remove` on objects that define no `__eq__`. Two source calls become parameters:

- The evaluation function is the `evalFunc` of the measure. The brackets' own `eval_func` calls (idhb.py:114, 146) are modelled as the measure's `evaluate`, so every bracket evaluation is charged to the measure's counters. `idhb.py` does not fix this; it is a modelling choice that assumes the caller passes the measure's `evaluate` as `eval_func`.
- The sampler `candidate_sampling.get(bracket, n)` is a function parameter `sample` that returns configurations. The model wraps each one in a new `Candidate`.

## Model

| member | source | states |
|---|---|---|
| Candidates.Candidate.constructor | idhb.py:7-9 | a new candidate holds its configuration and no scores |
| Candidates.Candidate.StorePerformance | idhb.py:11-12 | the score is recorded at the budget, overwriting any earlier one; every other budget's lookup is unchanged |
| Candidates.Candidate.GetPerformance | idhb.py:14-15 | the lookup fails (the KeyError) exactly when no score is recorded at the budget; otherwise it is the recorded score |
| Candidates.BudgetTrackingPerformanceMeasure.constructor | idhb.py:25-28 | both counters start at zero |
| Candidates.BudgetTrackingPerformanceMeasure.Evaluate | idhb.py:30-33 | one invocation and the budget are charged, and the evaluation function's score is returned unchanged |
| Candidates.BudgetTrackingPerformanceMeasure.GetAccumulatedBudget | idhb.py:35-36 | returns the budget charged so far |
| Candidates.BudgetTrackingPerformanceMeasure.ResetAccumulatedBudget | idhb.py:38-39 | clears the budget total and keeps the invocation count |
| Budgets.RungBudgetNext | idhb.py:78-79 | `r_{i+1} = r_i * eta`: the budget computeParams calls r_i1 is the next rung's budget |
| Budgets.RungBudgetsIncrease | idhb.py:78 | for eta > 1 and a positive minimum budget, the rung budgets strictly increase, so different rungs never share a score key |
| Budgets.FloorLog | idhb.py:180 | s_max is the largest s with eta^s <= max_budget |
| Budgets.FloorLogUnique | idhb.py:180 | s_max is the only s with eta^s <= max_budget < eta^(s+1) |
| Budgets.FloorLogScale | idhb.py:198-200 | multiplying max_budget by eta adds exactly one to floor(log_eta(max_budget)), so the incremented s_max equals the s_max a fresh instance would compute |
| Budgets.BracketSizeLeast | idhb.py:215-218 | the bracket size n is the least natural with b * eta^s <= n * max_budget * (s + 1), i.e. ceil(b / max_budget * eta^s / (s + 1)) |
| Budgets.BracketSizeCoversRungs | idhb.py:215-218 | with b = (s_max + 1) * max_budget, the size n of every bracket s <= s_max is at least eta^s. This bounds n, the number the bracket's first rung aims for; the sampler itself is asked for n - len(old_candidates) |
| Budgets.SurvivorsCover | idhb.py:80 | a rung of at least eta^(j+1) candidates keeps k = floor(n_i / eta) >= eta^j of them. Applied rung by rung from n >= eta^s, rung s - 1 keeps at least one; the last rung s may keep none |
| Budgets.RungBudgetReaches | idhb.py:185 | min_budget = max_budget / eta^s makes rung s run at exactly max_budget |
| Lists.RemoveFirst | idhb.py:110 | list.remove drops one occurrence: the length falls by one and the multiset loses exactly that element |
| Lists.RemoveFirstWithout | idhb.py:109-110 | on a distinct list, removing a not-yet-removed element is the same as filtering it out |
| Lists.RemoveNext | idhb.py:109-110 | each list.remove of the promotion loop finds its element, and afterwards the promotions so far have been filtered out |
| Lists.DistinctWithout | idhb.py:109-110 | filtering keeps a list duplicate-free |
| Lists.WithoutCount | idhb.py:109-110 | removing j distinct rung members leaves j fewer candidates |
| Ranking.SortBy | idhb.py:119 | the sorted list is a permutation of the input |
| Ranking.SortByOrdered | idhb.py:119 | the sorted list runs from worst to best: no element is strictly better than a later one |
| Ranking.InsertOrdered | idhb.py:119 | insertion keeps the worst-to-best order |
| Ranking.PopTail | idhb.py:120-121 | m pops return the last m elements, last first |
| Ranking.PopTailSplit | idhb.py:120-121 | the popped elements and what remains partition the sorted list |
| Ranking.PoppedAreBest | idhb.py:119-121 | sorting then popping m gives m input elements, none beaten by an element left behind, in best-first order |
| Halving.ScoredAtMembers | idhb.py:106-108 | the promotions are exactly the rung's candidates scored at r_i1, in rung order, and the rung supplies them |
| Halving.ReadmittedMembers | idhb.py:153-155 | the readmitted candidates are exactly the history candidates outside the rung that hold a score at r_i |
| Halving.CountNext | idhb.py:112-115 | one more rung candidate adds one evaluation and r_i to the charge exactly when it holds no score at r_i |
| Halving.TimesIsProduct | idhb.py:32 | adding the budget n times makes n times the budget |
| Halving.ChargedIsRepeatedBudget | idhb.py:112-115 | a rung charges r_i once per candidate lacking a score at r_i |
| Halving.ChargedIsCountTimesBudget | idhb.py:112-115 | a rung's evaluations charge r_i times the number of candidates that lacked a score at r_i |
| Halving.Agree | idhb.py:106-115 | which candidates are promoted, evaluated and charged depends only on which of them hold a score at the budget |
| Halving.FillWithin | idhb.py:119-123 | the efficient survivors come from the promotions or the rest, and number max(#promotions, k) |
| Halving.EfficientNextWithin | idhb.py:119-123 | the efficient pick draws only on the promotions and the evaluated rest, and keeps at least k once the rest is scored |
| Halving.ConservativeNextWithin | idhb.py:159-164 | the conservative pick draws only on the pool, and keeps exactly k once the pool is scored |
| Halving.EvaluateSpec | idhb.py:112-115 | evaluating a list at a budget touches only its candidates, each gaining the evaluator's score where it had none; a repeat finds the score recorded |
| Halving.SuccessiveHalving.constructor | idhb.py:44-53 | a bracket starts with its parameters and an empty history |
| Halving.SuccessiveHalving.GrownTrans | idhb.py:112-115 | scores that were only added to, by the evaluator, twice in a row were only added to once |
| Halving.SuccessiveHalving.IsBetter | idhb.py:58-62 | true exactly when the challenger's score is strictly smaller (minimising) or strictly larger (maximising); it then differs from the incumbent and is not beaten back |
| Halving.SuccessiveHalving.IncreaseMaximumBudget | idhb.py:64-66 | max_budget is multiplied by eta and s grows by one; min_budget * eta^s == max_budget is preserved |
| Halving.SuccessiveHalving.GetBestCandidateForMaximumBudget | idhb.py:68-74 | None exactly when no history candidate is scored at max_budget; otherwise a scored candidate that no candidate beats, strictly better than every scored candidate before it, so the earliest wins ties |
| Halving.SuccessiveHalving.ComputeParams | idhb.py:76-81 | n_i is the rung size, r_i and r_i1 are the budgets of rungs i and i+1, and k = floor(n_i / eta) (k * eta <= n_i < (k+1) * eta) |
| Halving.SuccessiveHalving.GetFirstIterationN | idhb.py:83-84 | the number of candidates in the history |
| Halving.SuccessiveHalving.EnsureScored | idhb.py:112-115 | evaluates and stores a score only when none is recorded at r, charging the measure exactly then |
| Halving.SuccessiveHalving.EvaluateMissing | idhb.py:144-147 | every rung candidate ends up with the evaluator's score at r where none was recorded; the others keep theirs; the counters grow by the number missing and their budget; history candidates outside the rung are untouched |
| Halving.SuccessiveHalving.CollectPromotions | idhb.py:105-108 | the promotions are the rung candidates scored at r_i1, in rung order |
| Halving.SuccessiveHalving.RemovePromoted | idhb.py:109-110 | the list.remove loop leaves the rung minus the promotions, in rung order |
| Halving.SuccessiveHalving.SplitPromoted | idhb.py:103-110 | promotions and the remaining rung split the rung, disjoint and duplicate-free |
| Halving.SuccessiveHalving.EvaluateRest | idhb.py:112-115 | only the non-promoted candidates are evaluated, only where r_i is missing; promoted candidates keep their scores |
| Halving.SuccessiveHalving.FillPromotions | idhb.py:119-123 | the promotions topped up to k with the best of the rest; size max(#promotions, k); no candidate left behind beats one that was popped |
| Halving.SuccessiveHalving.PopInto | idhb.py:120-121 | the pop loop appends the sorted list's last m elements, last first |
| Halving.SuccessiveHalving.SelectBest | idhb.py:159-164 | the top k of the pool: k distinct pool members, none beaten by one left behind, best first |
| Halving.SuccessiveHalving.BestAtBudget | idhb.py:159-164 | what sorting and popping keep, stated at a budget in terms of isBetter |
| Halving.SuccessiveHalving.Widen | idhb.py:152-155 | the rung followed by the history candidates outside it that hold a score at r_i, in history order |
| Halving.SuccessiveHalving.WidenPool | idhb.py:152-155 | strict mode readmits nothing; otherwise only absent, already-scored history candidates are readmitted; the pool stays duplicate-free within the history |
| Halving.SuccessiveHalving.EfficientRung | idhb.py:101-123 | one efficient rung: the promoted-ahead candidates are not evaluated; the rest are evaluated where r_i is missing; the pops never underflow; the result is the promotions topped up to k with the best of the rest |
| Halving.SuccessiveHalving.ConservativeRung | idhb.py:142-167 | one conservative rung: all rung candidates are scored at r_i; the pool is the rung plus, when not strict, the readmitted history; exactly k of the best survive |
| Halving.SuccessiveHalving.Evaluated | idhb.py:106-113 | the candidates a rung evaluates: under the efficient policy exactly the rung members not scored at r_i1, under the conservative policy the whole rung (idhb.py:144) |
| Halving.SuccessiveHalving.AfterRung | idhb.py:112-115 | after a rung the history's candidates are the same, their scores only grew by the evaluator's, every evaluated candidate holds a score at r_i and the others are untouched (likewise idhb.py:144-147) |
| Halving.SuccessiveHalving.AfterRungIs | idhb.py:112-115 | scores changed exactly as the rung's evaluations change them are the scores after the rung |
| Halving.SuccessiveHalving.SurvivorsDefined | idhb.py:119-121 | for a duplicate-free rung drawn from the history, the policy finds enough scored candidates: the pops never underflow; exactly k survive a conservative rung (idhb.py:163-164) and at least k an efficient one |
| Halving.SuccessiveHalving.SurvivorsScored | idhb.py:100-123 | a rung's survivors come from the history and hold a score at r_i or, under the efficient policy, at r_i1 |
| Halving.SuccessiveHalving.TrailFacts | idhb.py:100-123 | after rungs 0 .. s from the history, the survivors come from the history and hold a score at the last rung's budget (or at the next one, efficient), and every history candidate's scores only grew by the evaluator's |
| Halving.SuccessiveHalving.TrailFinished | idhb.py:100-123 | from any rung on, the survivors stay within the history and the last rung's survivors hold the scores it promises |
| Halving.SuccessiveHalving.StepFinished | idhb.py:101-123 | one rung keeps the survivors within the history and its survivors hold their rung's score |
| Halving.SuccessiveHalving.TrailGrown | idhb.py:100-123 | from any rung on, the candidates keep every score they held and gain only the evaluator's |
| Halving.SuccessiveHalving.StepGrown | idhb.py:112-115 | one rung keeps every score and adds only the evaluator's |
| Halving.SuccessiveHalving.Rung | idhb.py:101-167 | rung i under the bracket's policy: its survivors, the history's new scores and the counters are Advance of the state it starts from; the survivors are duplicate-free and drawn from the history |
| Halving.SuccessiveHalving.EfficientStep | idhb.py:101-123 | an efficient rung, read on the whole history's scores, performs Advance |
| Halving.SuccessiveHalving.EfficientScores | idhb.py:105-115 | an efficient rung's promotions and evaluations, read on its own candidates, are those Evaluated and AfterRung name on the whole history |
| Halving.SuccessiveHalving.ConservativeStep | idhb.py:142-167 | a conservative rung, read on the whole history's scores, performs Advance |
| Halving.SuccessiveHalving.ConservativeScores | idhb.py:144-147 | a conservative rung evaluates its whole list, and the history's new scores are AfterRung's |
| Halving.SuccessiveHalving.TrailExtends | idhb.py:100 | appending the state the next rung reaches keeps the trail linked rung by rung |
| Halving.SuccessiveHalving.RunRungs | idhb.py:100-167 | rung 0 takes the whole history and its scores, rung i + 1 takes rung i's survivors and scores, up to rung s; the ghost trail records every state, each Advance of the one before |
| Halving.SuccessiveHalving.RanGrown | idhb.py:100-123 | along a trail the rungs ran, every history candidate only gained scores from those it held at the trail's start, each the evaluator's at the budget it was added for |
| Halving.SuccessiveHalving.Merge | idhb.py:93-98 | the new candidates are appended to the history, which stays duplicate-free |
| Halving.SuccessiveHalving.Run | idhb.py:92-168 | successiveHalving: the history is extended by the new candidates; the rungs run from that history as RunRungs states; the final survivors come from the history and are scored at the last rung; no earlier score is lost or changed; the result is None exactly when nothing is scored at max_budget, otherwise the earliest best candidate there |
| Orchestrator.Fold | idhb.py:212-244 | the incumbent index refers to a bracket that returned a candidate; a failure index refers to one that returned None |
| Orchestrator.Step | idhb.py:235-244 | one comparison, every case: with no incumbent the new result is adopted (None stays None); with an incumbent and a result, the result is adopted exactly when its score is strictly smaller and the incumbent kept otherwise; with an incumbent and no result the pass fails at this bracket; a failure stays as it is |
| Orchestrator.FoldEmpty | idhb.py:212-244 | no incumbent exactly when every bracket returned None |
| Orchestrator.FoldNoneAbsorbs | idhb.py:235-244 | a fold ending anywhere but at "no incumbent" has seen some bracket return a candidate |
| Orchestrator.FoldFails | idhb.py:235-236 | the comparison fails exactly when a bracket returns None after an earlier one returned a candidate, and it names the first such bracket |
| Orchestrator.FoldLeast | idhb.py:235-244 | the final incumbent's score is <= every bracket result's score and strictly < every earlier one: the earliest bracket wins ties, whatever minimize says |
| Orchestrator.Lift | idhb.py:212-247 | the fold's outcome stated on the winners: the same failure index, and the incumbent is the winner of the bracket the fold names |
| Orchestrator.NewCandidates | idhb.py:227 | every sampled configuration becomes a new, distinct candidate with no scores |
| Orchestrator.IncreaseAll | idhb.py:202-203 | every bracket is extended by one rung; bracket j stays at s = s_max - j with the new max_budget; histories are untouched |
| Orchestrator.Extend | idhb.py:203 | one bracket extended by one rung keeps its place in the list for the new s_max and max_budget |
| Orchestrator.SamplesExtend | idhb.py:227 | the candidates sampled for the next bracket's request extend the record of what was sampled so far |
| Orchestrator.ChainedExtend | idhb.py:30-33 | a bracket trail that starts from the counters where the chain of earlier trails ends extends the chain to its own end: the measure's counters run on from bracket to bracket |
| Orchestrator.NewBrackets | idhb.py:183-191 | brackets s = s_max .. 0 in order, each with an empty history and min_budget = max_budget / eta^s, reaching max_budget at rung s |
| Orchestrator.IDHyperband.BracketPolicy | idhb.py:187-190 | conservative instances build conservative brackets with their strict flag, others efficient ones |
| Orchestrator.IDHyperband.constructor | idhb.py:172-191 | s_max = floor(log_eta(max_budget)), b = (s_max + 1) * max_budget, and one fresh bracket per s = s_max .. 0 |
| Orchestrator.IDHyperband.IncrementMaxBudget | idhb.py:198-209 | max_budget *= eta, s_max += 1, b is recomputed; the old brackets keep their place and history; a fresh s = 0 bracket at the new maximum budget is appended; the instance invariant holds |
| Orchestrator.IDHyperband.AppendedValid | idhb.py:205-209 | appending a new, empty bracket placed for s = 0 to brackets whose histories are disjoint keeps the instance invariant |
| Orchestrator.IDHyperband.RunBracket | idhb.py:214-231 | the sampler is asked for n - len(old_candidates) candidates for bracket i; the new candidates carry the sampled configurations and are appended to the history; the bracket runs its rungs from that history along a ghost trail that starts from the scores the history held (none for the new candidates) and the measure's counters and ends at those they hold now; the result is the best candidate at max_budget of the grown history, scored there; every history candidate only gained scores, each the evaluator's |
| Orchestrator.IDHyperband.PlayBracket | idhb.py:213-231 | bracket i's turn as RunBracket states it (request, new candidates, grown history, trail, result), with every other bracket and the candidates of their histories untouched and the instance invariant kept |
| Orchestrator.IDHyperband.GrownValid | idhb.py:227-231 | growing one bracket's history by new candidates keeps the instance invariant, histories staying disjoint |
| Orchestrator.IDHyperband.BestKept | idhb.py:231 | a bracket's result stays the best of its history while neither the bracket nor its candidates change |
| Orchestrator.IDHyperband.PlayedStays | idhb.py:213-231 | what was recorded for a played bracket (result best at max_budget with its score, request, grown history, trail and its start) stays true while neither that bracket nor its candidates change |
| Orchestrator.IDHyperband.KeptStays | idhb.py:213-231 | a bracket not played yet keeps its history and its candidates' scores while neither it nor its candidates change |
| Orchestrator.IDHyperband.PlayRound | idhb.py:213-244 | one pass of the loop: bracket i is played and compared; what is recorded for each bracket played so far (its result, score, request, new candidates, history and trail) is extended by bracket i's and stays true for the earlier ones; the brackets not played yet keep their histories and scores; the trails chain the measure's counters; the new incumbent is the lifted fold of all scores so far |
| Orchestrator.IDHyperband.NextIncumbent | idhb.py:235-244 | the comparison keeps the incumbent, adopts bracket i's result, or fails at bracket i |
| Orchestrator.IDHyperband.NextIncumbentFolds | idhb.py:235-244 | the comparison with bracket i's result is one step of the fold over the bracket scores, lifted to the winners |
| Orchestrator.IDHyperband.PassFacts | idhb.py:211-247 | across the brackets played in a pass: each result is the best at max_budget with its score, each history grew by the candidates sampled for its request, each trail ran and started from the pass's scores; the unplayed brackets kept their histories |
| Orchestrator.IDHyperband.PassGrown | idhb.py:211-231 | across the brackets that ran, every history candidate only gained scores from those its bracket's trail started with, each the evaluator's |
| Orchestrator.IDHyperband.PassScores | idhb.py:211-231 | over a pass, every candidate of a played bracket's old history only gained scores, and every candidate sampled for it holds only the evaluator's scores |
| Orchestrator.IDHyperband.Hyperband | idhb.py:211-247 | plays the brackets in order; bracket j's history grows by the candidates sampled for its request n - len(old_candidates); its rungs run along trail j, which starts from the scores the pass started with and continues the measure's counters where trail j - 1 ended; its result is the best candidate at max_budget of that grown history; every candidate of a played bracket only gained scores, each the evaluator's, and the brackets not played keep theirs; the outcome is the fold of those results' scores at max_budget: the strictly smallest, the earliest among equals, or a failure at the first bracket that returns None after an incumbent exists, where the pass stops: no later bracket is sampled or run, and each keeps its history and scores |

## Left out

- Floating point. Budgets, scores and `r_i` are exact reals, and `b`, `max_budget` and `eta` are naturals.
  - `s_max` is the exact integer floor-logarithm. `math.log` in floating point can round an exact power down, for example `log(1000, 10)` is just below 3.
  - `n = ceil(b / max_budget * eta^s / (s + 1))` is computed exactly on naturals.
  - A fractional `max_budget` is not modelled.
- `Orchestrator.IDHyperband.constructor`: requires `max_budget >= 1` and `eta >= 2`. `math.log` raises or divides by zero otherwise; that error path is not modelled.
- `Halving.SuccessiveHalving.ComputeParams`: requires `eta >= 1`. The source divides by `eta` and raises `ZeroDivisionError` for 0; that error path is not modelled.
- `Orchestrator.IDHyperband.Hyperband`: when a bracket returns None after an incumbent exists, the source dereferences None. The model returns the outcome `NoResult(i)` instead of the exception, and like the exception it ends the pass at bracket i. The model does not prove that a bracket always returns a candidate, and it cannot: the sampler may return fewer configurations than it is asked for, or none. `BracketSizeCoversRungs` and `SurvivorsCover` bound only the size n the first rung aims for, not what the sampler delivers, and the last rung may keep no candidate.
- `Orchestrator.IDHyperband.Hyperband`: does not state that the candidates sampled over the whole pass are new objects. Freshness is stated per bracket, by `RunBracket`, `PlayBracket` and `PlayRound`.
- The sampler of `main.py` is not part of this model. Its `get(bracket, n)` becomes the function parameter `sample`; each configuration it returns is wrapped in a new candidate, as that sampler does.
- The evaluation function is a pure function parameter of the measure. Its own side effects, and a failing evaluation, are not modelled. A caller that gives the brackets an `eval_func` other than the measure's `evaluate` is not modelled.
- The `debug` flag, `setDebug` and every `print`, `__repr__` and `getCandidate` (the configuration is the `payload` field) are not modelled. Neither is the base class's `successiveHalving`, which only raises "not implemented"; the policy datatype selects the subclass behaviour instead.
- `minimize` is always true for the brackets `IDHyperband` builds, as the source's default. The bracket model keeps the flag general.
- `Ranking.SortBy`: stability (equal scores keep their input order) is built into the definition, but no separate lemma proves it. Which of several equal-score candidates a rung keeps follows the definition, not a proved property.
