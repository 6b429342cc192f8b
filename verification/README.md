# Interval-reduction line searches, modelled in Dafny

This project models the three line-search routines of `methods.py`:
dichotomic search, golden-section search and Fibonacci search. It also
models the Fibonacci helpers `fibonacci_of` and `fibonacci_seq` that the
Fibonacci search relies on.

Each search narrows a bracket `[a, b]` around the minimum point of an
objective `f`. On each pass it compares `f` at two probe points `lm` and
`mu` and keeps the part of the bracket on the side of the smaller value.

- **Dichotomic search.** The probes sit `eps` to either side of the
  midpoint, so they coincide when `eps == 0`.
- **Golden-section and Fibonacci main passes.** The probes lie strictly
  inside the bracket and in order.
- **Fibonacci final step.** The second probe is `lm + eps`. It can lie
  outside the bracket, and even to the right of the input `b`.

When the searches stop:

- The dichotomic and golden loops stop once the bracket is narrower than
  the target length `l`.
- The Fibonacci search first fixes a number of passes `n`. Its main loop
  exits at pass `k == n - 2`, and one final step follows. `n` is chosen so
  that the final bracket is narrower than `l`.

Each search returns:

- the midpoint of the final bracket,
- the number of objective calls,
- the table of rows `(k, a, b, lm, mu, f(lm), f(mu))` recorded along the way.

Modelling choices:

- The objective is an arbitrary total function `real -> real`.
- Arithmetic is exact `real`.
- Precondition failures are values of `SearchError` inside a `Result`,
  one constructor per check, in the order the code makes the checks.
- The golden ratio is a parameter `alpha` with `0 < alpha < 1` and
  `alpha * alpha == 1 - alpha`.

Modules:

- `SearchTypes` (`search_types.dfy`):
  - the row, outcome and error types;
  - the per-row and consecutive-row properties of a table;
  - the step shared by the golden-section and Fibonacci searches;
  - unimodality of an objective.
- `Fibonacci` (`fibonacci.dfy`): `fibonacci_of` as `Fib`, with the
  convention `F(0) = F(1) = 1`, and `fibonacci_seq` as `FibonacciSeq`.
- `Dichotomic` (`dichotomic.dfy`): `dichotomic_search`.
- `Golden` (`golden.dfy`): `golden_search`.
- `FibonacciSearch` (`fibonacci_search.dfy`): `fibonacci_search`, including:
  - the computation of the pass count `n`;
  - the ratio table;
  - the main passes with their early exit at `k == n - 2`;
  - the final `lm + eps` step.

Every search states the same kinds of property:

- **Error cases.** The exact error for each failed check, and success
  exactly when all checks pass.
- **Trace shape.**
  - numbered rows, each holding the objective's values at its own probes;
  - the first row on the input bracket;
  - each later row on the bracket the previous comparison kept.
- **Narrowing.**
  - every bracket lies inside the input bracket;
  - the width shrinks by the method's factor;
  - the final bracket is narrower than `l`.
- **Call count**, as a function of the number of rows.
- **Result.** Take an objective that is unimodal on the reals, with its
  minimum point in `[a, b]`. The returned point lies within `l / 2` of that
  minimum point, with two exceptions:
  - the dichotomic search promises this only when `eps > 0`;
  - for the Fibonacci search the minimum point may lie up to `l / 2 + eps`
    to the right.
  Unimodality is stated over all reals because the Fibonacci final probe
  `lm + eps` can leave `[a, b]`.

The dichotomic and golden loops run over real-valued brackets. Their
termination measure is the floor of a real quantity that drops by at least
one per pass. The Fibonacci loop terminates on `n - k`.

Facts about the code that the model keeps:

- `fibonacci_of` uses `F(0) = F(1) = 1`, so `fibonacci_of(10)` is 89.
- The checks run in this order: `eps`, then `l`, then the interval. The
  dichotomic search then also checks `l > 2 eps`.
- The Fibonacci search rejects `eps == 0` and `l == 0`, with the "should
  not be negative" messages.
- The dichotomic and golden loops compare `b - a < l` exactly.

## Model

| member | source | states |
|---|---|---|
| Fibonacci.Fib | methods.py:266-276 | `fibonacci_of`: the Fibonacci numbers with `F(0) = F(1) = 1`; every value is at least 1 and at least its index |
| Fibonacci.FibTen | methods.py:276 | with this convention the tenth number is 89 |
| Fibonacci.FibStrictlyIncreasing | methods.py:276 | from index 1 on the numbers strictly increase |
| Fibonacci.FibMonotone | methods.py:276 | from index 0 on the numbers never decrease |
| Fibonacci.FibonacciSeq | methods.py:279-288 | `fibonacci_seq(n)` has `n + 1` entries and entry `i` is `F(i)` |
| SearchTypes.SectionNextShape | methods.py:119-142 | the golden and Fibonacci comparison (also methods.py:208-233) keeps one end of the bracket and moves the other to a probe; with ordered probes the kept part holds the probe with the smaller value, the left one on a tie |
| SearchTypes.SectionKeeps | methods.py:119-142 | with ordered probes holding true values, keeping `[lm, b]` when `f(lm) > f(mu)` and `[a, mu]` otherwise never discards the minimum point of a unimodal objective |
| Dichotomic.NextShape | methods.py:57-62 | the dichotomic comparison keeps one end of the bracket and moves the other to a probe; with ordered probes the kept part holds the probe with the smaller value, the right one on a tie |
| Dichotomic.PassNarrows | methods.py:43-63 | a pass on a bracket at least `l > 2 eps` wide keeps a bracket strictly inside it, of width `(b - a) / 2 + eps`, hence strictly narrower |
| Dichotomic.MeasureHalves | methods.py:43-65 | the quantity `2 (w - 2 eps) / (l - 2 eps)` halves per pass, so it drops by at least one and stays non-negative; the loop terminates |
| Dichotomic.AppendPass | methods.py:51-55 | the row of the next pass, taken on the bracket the table ends on, extends a trace to a trace that stays inside `[a, b]` |
| Dichotomic.NextKeeps | methods.py:57-62 | with `lm < mu` the dichotomic comparison keeps the minimum point of a unimodal objective |
| Dichotomic.KeepsMinimiserAt | methods.py:43-65 | for `eps > 0` every row's bracket contains the minimum point of a unimodal objective that starts in `[a, b]` |
| Dichotomic.KeepsMinimiser | methods.py:43-65 | the final bracket contains that minimum point too |
| Dichotomic.Concludes | methods.py:45-67 | a final bracket narrower than `l` puts its midpoint within `l / 2` of that minimum point |
| Dichotomic.Search | methods.py:7-67 | the four precondition failures in the code's order, and success iff all checks pass; on success the rows form a trace inside `[a, b]` with two calls per row, and the final bracket lies in `[a, b]` and is narrower than `l`; the point is its midpoint, within `l / 2` of the minimum point of a unimodal objective when `eps > 0` |
| Golden.GoldenAboveHalf | methods.py:99 | the golden ratio exceeds one half |
| Golden.PlacementOrdered | methods.py:104-105 | probes at fractions `1 - alpha` and `alpha` of a proper bracket lie strictly inside it and in order |
| Golden.Pass | methods.py:119-144 | one golden pass: pass number plus one, the bracket the comparison keeps, and the surviving probe carried into the other slot with its value; when the held values were the objective's, they still are |
| Golden.PassWidth | methods.py:119-142 | a pass keeps the bracket the comparison selects and multiplies its width by exactly `alpha` |
| Golden.PassFacts | methods.py:119-147 | because `alpha * alpha == 1 - alpha`, the carried-over probe lands in golden position; the new row has both probes placed, in order and inside the old bracket, with their true objective values |
| Golden.MeasureShrinks | methods.py:112-147 | the floor of `w / ((1 - alpha) l)` drops on every pass and stays non-negative; the loop terminates |
| Golden.AppendPass | methods.py:113 | the row of the next pass extends a trace to a trace that stays inside `[a, b]` |
| Golden.LoopStepTrace | methods.py:112-147 | one pass taken while the bracket is at least `l` wide extends the trace by its row |
| Golden.LoopStepMeasure | methods.py:112-147 | one pass lowers the termination measure |
| Golden.KeepsMinimiser | methods.py:119-142 | every row's bracket contains the minimum point of a unimodal objective that starts in `[a, b]` |
| Golden.Concludes | methods.py:112-149 | a last bracket narrower than `l` puts its midpoint within `l / 2` of that minimum point |
| Golden.Narrow | methods.py:112-147 | the loop records a trace inside `[a, b]`, calls the objective once per row after the first, and ends on a bracket narrower than `l` |
| Golden.Search | methods.py:70-149 | the three precondition failures in the code's order, and success iff all checks pass; on success every row is placed, with true values, and `alpha` times as wide as the row before; every row but the last is at least `l` wide and the last is narrower; calls are rows plus one; the point is the last midpoint, within `l / 2` of the minimum point of a unimodal objective |
| FibonacciSearch.Budget | methods.py:186-191 | the pass count is the least `n >= 1` with `F(n) > (b - a) / l` |
| FibonacciSearch.UnitsIsProduct | methods.py:196-197 | `F(j)` units summed by the recurrence equal `F(j)` times the unit |
| FibonacciSearch.RatioOfUnits | methods.py:196-197 | the ratio `F(p) / F(q)` of a `F(q)`-unit bracket is `F(p)` units |
| FibonacciSearch.UnitSpans | methods.py:196-197 | `F(n)` units of `(b - a) / F(n)` span the input bracket |
| FibonacciSearch.PlacedOrdered | methods.py:204-242 | before the last main pass, the probes of a row in place lie strictly inside its bracket and in order |
| FibonacciSearch.Probe | methods.py:196-197 | a probe at ratio `fib[i] / fib[j]` along a bracket of `F(j)` units lies `F(i)` units from its left end |
| FibonacciSearch.Initial | methods.py:196-201 | the first row spans `[a, b]` with probes `F(n-2)` and `F(n-1)` units in and their true values |
| FibonacciSearch.Step | methods.py:204-242 | pass `k` keeps the bracket the comparison selects, narrower and inside the old one, carries the surviving probe and its value across, and leaves a row in place for pass `k + 1`; both held values are the objective's values even on the exit pass `k == n - 2`, which makes no call, because there the two probes coincide |
| FibonacciSearch.AppendMain | methods.py:205 | a main row in place, on the bracket the rows end on, extends them |
| FibonacciSearch.Passes | methods.py:196-242 | the main stage records `n - 2` rows in place, ends on a row for pass `n - 1` whose `lm` value is true, and makes `n - 1` calls |
| FibonacciSearch.Finish | methods.py:244-254 | the final row completes the table: a two-unit bracket with `lm` at its midpoint and `mu = lm + eps` |
| FibonacciSearch.FinalStep | methods.py:256-261 | the final step splits the bracket at `lm`, whatever `mu` is, and keeps `[lm, b]` exactly when `f(lm) > f(mu)` (or `lm` is the left end) and `[a, lm]` otherwise |
| FibonacciSearch.TraceWidths | methods.py:204-254 | row `i` (pass `i + 1`) is `F(n - i) / F(n)` of the input bracket wide |
| FibonacciSearch.FinalWidth | methods.py:189 | since `F(n) > (b - a) / l`, the final unit `(b - a) / F(n)` is shorter than `l` |
| FibonacciSearch.MainKeepsMinimiser | methods.py:204-242 | every main row's bracket contains the minimum point of a unimodal objective that starts in `[a, b]` |
| FibonacciSearch.KeepsMinimiser | methods.py:244-261 | after the final step the minimum point lies in the kept bracket or at most `eps` to its right |
| FibonacciSearch.Concludes | methods.py:244-261 | the kept final bracket lies in `[a, b]`, is one unit wide, and holds the minimum point up to `eps` on the right |
| FibonacciSearch.Search | methods.py:152-263 | the three precondition failures in the code's order, and success iff all pass; on success the call count is the least `n` with `F(n) > (b - a) / l`; the `n - 1` rows form the table; the final bracket lies in `[a, b]` and is one unit `(b - a) / F(n)` wide, less than `l`; the point is its midpoint, and the minimum point of a unimodal objective lies less than `l / 2` to its left or less than `l / 2 + eps` to its right |

## Left out

- The driver in `main.py` is not part of this model: its parameter grids, printing, logging and handling of assertion failures are I/O. So are the sample objectives `func1` and `func2`, which depend on float32 limits.
- The `PrettyTable` construction is not modelled. The table is the ordered sequence of its rows.
- `functools.cache` on `fibonacci_of` is a memo with no observable effect. `Fib` is the plain recursion.
- float32 rounding and `np.sqrt(5)` are not modelled. Arithmetic is exact, and the golden ratio is a parameter characterised by `alpha * alpha == 1 - alpha`.
- The error messages themselves are not modelled, only which check failed.
- Golden.Search: requires `l != 0` when the other checks pass. With `l == 0` the code passes its checks but its loop can never exit.
- FibonacciSearch.Search: requires `b - a >= 2 l` when the checks pass. With fewer than three passes the code reads the table at negative indices, and its exit test `k == n - 2` is never met.
- Dichotomic.Search: the bound towards the minimum point is stated only for `eps > 0`. With `eps == 0` both probes coincide, ties move right, and the minimum point can be discarded.
- FibonacciSearch.Search: the bound towards the minimum point allows an extra `eps` on one side. The final step compares `lm` with `lm + eps`, and when `f(lm) <= f(lm + eps)` it keeps `[a, lm]`, although the minimum may lie between `lm` and `lm + eps`.
- Golden.Search: does not give the closed form `alpha^(k-1) (b - a)` for the width of row `k`. It states the per-pass factor `alpha`, from which the closed form follows.
