# Tabu Search on Langermann and Gramacy & Lee — a Dafny model

This project models the decision logic of the two Tabu Search implementations of the
Langermann optimisation toolkit and proves properties of it:

- the 2-D engine `tabu_search` of `TabuLangermann.py`: Gaussian neighbour generation
  clamped into the box [0, 10]², the proximity-based tabu test, candidate selection with
  the asymmetric aspiration rule, the FIFO-bounded tabu list seeded with the start point,
  the best-so-far update and the history of best values — including the case where a
  round selects no candidate, the current point becomes `None` and the next round raises
  a `TypeError` when it indexes it;
- the 1-D script `BusquedaTabuEjemplo.py`: ±step neighbours clipped into [0.5, 2.5],
  exact-equality tabu membership with aspiration, first-minimum selection, the early
  `break` when no neighbour is admissible, the tabu list that starts empty, and best
  tracking.

The objective functions are parameters (`f: Point -> real`, `f: real -> real`); the
random draws are inputs: `Draw(zx, zy)` is the pair of standard-normal deviates behind
`random.gauss(mu, sigma) = mu + z * sigma`, one batch per round, and the uniformly drawn
start point is an argument. Python's `None` is `Option.None`, `float("inf")` as the
initial `candidate_value` is the absence of a candidate, and `math.sqrt` in `is_tabu` is
replaced by the equivalent squared comparison (`TabuMemory.NearIsEuclidean` proves the
equivalence).

Files: `outcomes.dfy` (Option, Result), `bounds.dfy` (clamp and `numpy.clip`),
`fifo.dfy` (append-then-evict list), `plane.dfy` (points, neighbour generation),
`tabu_memory.dfy` (`is_tabu`), `selection.dfy` (one round's candidate selection),
`engine.dfy` (`tabu_search`), `line_search.dfy` (the 1-D script).

The model follows the code: non-positive `num_iterations`, `num_neighbors` or `tabu_size`
are not rejected (`range` of a negative count is empty), and a round without a candidate
is not resolved by any policy; when at least one neighbour is requested, the next round
raises, and when the candidate-less round is the last one the search returns normally.

## Model

| member | source | states |
|---|---|---|
| Bounds.Clamp | TabuLangermann.py:97-98 | the clamped coordinate lies in [lo, hi], equals the input inside the interval and the nearer bound outside it |
| Bounds.Clip | BusquedaTabuEjemplo.py:18 | `numpy.clip` gives a value in [lo, hi] that equals the input inside the interval and the nearer bound outside it |
| Fifo.Push | TabuLangermann.py:207-211 | append-then-evict appends when there is room, otherwise drops exactly the oldest entry; the newest entry is last; with capacity ≥ 1 a list of length 1..capacity stays within 1..capacity |
| Fifo.PushExtendsWindow | BusquedaTabuEjemplo.py:54-56 | pushing onto the newest `cap` entries of a history gives the newest `cap` entries of the extended history, so the list always holds the latest points, oldest first |
| Fifo.WindowEnds | BusquedaTabuEjemplo.py:54-56 | the newest entries of a history are empty only for an empty history, and otherwise end with the newest entry |
| Plane.GenerateNeighbors | TabuLangermann.py:68-102 | exactly `num_neighbors` points (none for a non-positive count), every coordinate in [0, 10] for any position and noise, each coordinate the Gaussian sample when it is inside the box and the nearer bound otherwise; a `None` position raises exactly when at least one neighbour is requested |
| TabuMemory.IsTabu | TabuLangermann.py:106-135 | the front-to-back scan with early return is true iff some entry is strictly within the tolerance; false on an empty list |
| TabuMemory.NearIsEuclidean | TabuLangermann.py:125-131 | for the non-negative square root of dx²+dy², `dist < tolerance` holds iff tolerance > 0 and dx²+dy² < tolerance² |
| TabuMemory.ScanOrderIrrelevant | TabuLangermann.py:123-135 | two tabu lists holding the same points, in any order and with any repetition, give the same answer |
| Selection.Select | TabuLangermann.py:183-200 | a selected candidate is one of the neighbours, its recorded value is the objective at that neighbour, and it is either not tabu or beats the global best |
| Selection.NoCandidateIffAllBlocked | TabuLangermann.py:183-200 | no candidate is selected iff every neighbour is tabu and none has a value below the global best |
| Selection.ImprovesIffSomeNeighbourImproves | TabuLangermann.py:183-200 | the selected candidate's value is below the global best iff some neighbour's value is |
| Selection.CandidateIffSomeFree | TabuLangermann.py:191-200 | when no tabu neighbour beats the global best, a candidate is selected iff some neighbour is not tabu |
| Selection.FirstFreeMinimumWithoutAspiration | TabuLangermann.py:197-200 | when no tabu neighbour beats the global best, the selection is the first non-tabu neighbour of minimum value among the non-tabu ones |
| Selection.NoImprovementMeansFreeMinimum | TabuLangermann.py:186-200 | a selected candidate that does not beat the global best is no worse than any non-tabu neighbour |
| Selection.SoleImproverIsSelected | TabuLangermann.py:192-196 | when exactly one neighbour beats the global best, it is selected, tabu or not (aspiration) |
| Selection.AspirantResetsScan | TabuLangermann.py:187-200 | a tabu neighbour whose value beats the global best is taken whatever the running candidate is, so the selection equals the selection over the neighbours from that one on: an earlier, better non-tabu candidate or an earlier, better aspirant is discarded and the last aspirant wins over earlier ones |
| Selection.AspirantMeetsLaterFree | TabuLangermann.py:187-200 | after a neighbour taken by aspiration, with no later aspirant, a later non-tabu neighbour still replaces it when strictly better: the selection is the best of the later non-tabu neighbours if that beats the aspirant, otherwise the aspirant |
| Selection.LaterTabuDisplacesBetterFreeCandidate | TabuLangermann.py:192-200 | a concrete run in which a later tabu neighbour with aspiration replaces an earlier, better non-tabu candidate |
| Engine.Init | TabuLangermann.py:160-175 | the state before the first round satisfies every relation the rounds keep, with history `[f(start)]`, the start point as current and best point, and a tabu list seeded with the start point alone |
| Engine.Iterate | TabuLangermann.py:178-219 | a round raises iff the current point is None and a neighbour is requested; otherwise it appends the new best to the history, never raises the best value, pushes the adopted point (or None) onto the tabu list FIFO-style, changes the best point only to the adopted candidate, keeps best ≤ adopted value, and keeps the best point in the box |
| Engine.RoundAdoptsSelection | TabuLangermann.py:180-216 | a round from a defined current point adopts exactly `Select` (the aspiration-rule scan) over the neighbours generated around it, checked against the tabu list as it was before the round; in consequence the current point becomes None exactly when every neighbour is tabu and none beats the best value; an adopted point is one of the neighbours, carries its objective value, and is non-tabu or beats the best; the best value improves exactly when some neighbour beats it; a non-improving adopted point is no worse than any non-tabu neighbour (a round from a None current point is covered by Engine.Iterate: it raises, or with no neighbours requested keeps None) |
| Engine.RunFrom | TabuLangermann.py:178-219 | a sequence of rounds grows the history by one entry per round keeping its prefix, keeps the tabu-length bound and the consistency of best value, best point and history, and raises only when neighbours are requested; with no neighbours it never raises and never moves the best point |
| Engine.CrashPersists | TabuLangermann.py:178-180 | once a round has raised, the rounds after it change nothing in the outcome |
| Engine.CrashFollowsMissingCandidate | TabuLangermann.py:93 | a run that raises in round k had selected no candidate in round k-1, with at least one neighbour requested |
| Engine.CrashIffMissingCandidate | TabuLangermann.py:178-204 | a run raises in round k iff neighbours are requested and the rounds before k ended with no current point, so a round that selects no candidate is harmless only when it is the final round |
| Engine.Outcome | TabuLangermann.py:160-230 | the rounds run from the initial state either return a history of `num_iterations + 1` entries that starts at the start value, never rises and ends at the best value, which is the objective at the best point, or raise in a round after the first and only when neighbours are requested |
| Engine.TabuSearch | TabuLangermann.py:138-230 | the result is that of the rounds run in order; a normal return has `num_iterations + 1` history entries starting at the start value, non-increasing, ending at `best_value`, with `best_value` the objective at `best`, no greater than the start value, `initial_point` the start point, and `best` in the box when the start is; it raises only in a round after the first and only when neighbours are requested; with no neighbours it returns the start point |
| LineSearch.Neighbours | BusquedaTabuEjemplo.py:16-19 | exactly `[clip(x+paso), clip(x-paso)]`, each within the limits |
| LineSearch.Admissible | BusquedaTabuEjemplo.py:39 | a value is admissible iff it is a neighbour and is not in the tabu list or beats the best value; the list is no longer than the neighbour list, and when every neighbour passes it is unchanged, order included |
| LineSearch.AdmissibleMeansAspiring | BusquedaTabuEjemplo.py:39 | the admissible values of a pass are exactly the clipped step-up and step-down points that are not tabu or beat the best value |
| LineSearch.FirstMinIndexIsFirstMin | BusquedaTabuEjemplo.py:44 | the index `min(..., key=objetivo)` lands on has the least value and no earlier entry has that value |
| LineSearch.Choose | BusquedaTabuEjemplo.py:36-44 | a pass finds no neighbour to move to iff none is admissible; the one it finds is a neighbour of the current point and lies within [0.5, 2.5] |
| LineSearch.AdvanceAdoptsFirstMinimum | BusquedaTabuEjemplo.py:39-44 | the neighbour a pass moves to is the first admissible one of least value |
| LineSearch.Adopt | BusquedaTabuEjemplo.py:45-56 | the adopted point becomes current and joins the path and the tabu list FIFO-style; the best value never rises, is no greater than the adopted point's value, changes the best point only to the adopted point, and remains the objective at the best point |
| LineSearch.Advance | BusquedaTabuEjemplo.py:36-56 | a pass breaks iff no neighbour is admissible; a completed pass adds exactly one path entry |
| LineSearch.TieGoesToStepUp | BusquedaTabuEjemplo.py:44 | when both neighbours are admissible and equally good, the step up is adopted |
| LineSearch.StepKeepsTracked | BusquedaTabuEjemplo.py:47-56 | a step that appends an in-limits point, pushes it onto the tabu list and lowers the best only to it keeps the path in the limits, the best point on the path and minimal over it, and the tabu list equal to the newest ten adopted points |
| LineSearch.AdvanceKeepsTracked | BusquedaTabuEjemplo.py:36-56 | every completed pass of the loop keeps those relations |
| LineSearch.FollowsIsUnique | BusquedaTabuEjemplo.py:35-56 | the loop is deterministic: two traces of passes from the same start and of the same length coincide, so the trace `Search` returns is the only one |
| LineSearch.BestNeverRises | BusquedaTabuEjemplo.py:50-52 | along the loop, `mejor_valor` never rises from one pass to any later one |
| LineSearch.Search | BusquedaTabuEjemplo.py:27-56 | the returned trace starts at the initial loop variables and each entry is one pass applied to the previous one; it has 1 to `maxIter + 1` entries, fewer than `maxIter + 1` exactly when the loop broke early, and then no neighbour of the last point was admissible; the path has one entry per trace entry, starts at the start point and lies within [0.5, 2.5]; `mejor_valor` is the objective at `mejor_x`, which lies on the path and is its minimum; the tabu list is the newest at most ten points adopted after the start, is empty only before the first pass, and ends with the latest adopted point |

## Left out

- The objective functions `evaluate_langermann` and `gramacy_lee`: exponential and trigonometric floating-point formulas; they are parameters of the model.
- The random draws (`random.gauss`, `random.uniform`): passed in as deviates and as the start point; their distribution is not modelled.
- Floating-point rounding, NaN and infinities: coordinates, steps and objective values are exact reals. One consequence for the 1-D search: its tabu test is exact equality, and in doubles `(x + 0.05) - 0.05` can differ from `x`, so the program may fail to block a step back to an earlier point that the exact-real model always blocks.
- Plane.GenerateNeighbors: requires at least `num_neighbors` draws, standing in for the unbounded random stream.
- Engine.TabuSearch: requires one batch of draws per round for the same reason; the start point is not required to lie in the box, so the box property is stated conditionally.
- Engine.Iterate: states that the best value is no greater than the newest adopted value; that it is no greater than every earlier adopted value follows from the non-increasing best value but is not stated as a lemma of its own.
- LineSearch.Search: requires the start point within [0.5, 2.5], which `random.uniform(0.5, 2.5)` guarantees. The pass limit is a parameter `maxIter`; the script fixes it at `MAX_ITER = 100`.
- The statistical harness (`SimulationTabu.py`, `SimulationGradient.py`): sweeps and `numpy` mean/standard deviation over repeated random runs, printing.
- Gradient descent (`GradientDescent.py`): finite-difference floating-point numerics.
- Plotting (`PlotLangermann.py`, the tail of `BusquedaTabuEjemplo.py`) and the drivers `Solver.py` and `Test.py`: presentation and printing only.
