/** `fibonacci_search`: like the golden-section search, but the probes divide
    the bracket in ratios of consecutive Fibonacci numbers that change from
    pass to pass; after `n - 2` passes the two probes meet at the midpoint,
    and a last step compares the midpoint with a point `eps` to its right.

    Throughout, `u = (b - a) / F(n)` is the unit of the run: at pass `k` the
    bracket is `F(n - k + 1)` units wide and the probes sit `F(n - k - 1)` and
    `F(n - k)` units from its left end. */
module FibonacciSearch {
  import opened SearchTypes
  import opened Fibonacci

  /** The number of passes `n`: the least `n >= 1` with `F(n) > (b - a) / l`,
      found by counting up from 1. */
  method Budget(a: real, b: real, l: real) returns (n: nat)
    requires 0.0 < l
    ensures 1 <= n
    ensures Fib(n) as real > (b - a) / l
    ensures forall m :: 1 <= m < n ==> Fib(m) as real <= (b - a) / l
  {
    n := 1;
    var fibN := Fib(n);
    while !(fibN as real > (b - a) / l)
      invariant 1 <= n && fibN == Fib(n)
      invariant forall m :: 1 <= m < n ==> Fib(m) as real <= (b - a) / l
      decreases ((b - a) / l).Floor - n
    {
      n := n + 1;
      fibN := Fib(n);
    }
  }

  /** The table handed to the search holds F(0), ..., F(n). */
  predicate IsTable(fib: seq<nat>, n: nat) {
    |fib| == n + 1 && forall i :: 0 <= i <= n ==> fib[i] == Fib(i)
  }

  /** `F(j)` units of length `u`, summed by the Fibonacci recurrence so
      that reasoning about it stays linear in `u`. */
  function Units(j: nat, u: real): (r: real)
    ensures 0.0 < r <==> 0.0 < u
  {
    if j < 2 then u else Units(j - 1, u) + Units(j - 2, u)
  }

  /** `Units(j, u)` is `F(j) u`; the value `y` of `F(j)` is passed in so
      that the product is formed on a plain variable. */
  lemma {:induction false} UnitsIsProduct(j: nat, u: real, y: real)
    requires y == Fib(j) as real
    ensures Units(j, u) == y * u
  {
    if j >= 2 {
      var y1, y2 := Fib(j - 1) as real, Fib(j - 2) as real;
      UnitsIsProduct(j - 1, u, y1);
      UnitsIsProduct(j - 2, u, y2);
      Distributes(y, y1, y2, u);
    }
  }

  // The small lemmas below state one arithmetic step each on plain
  // variables, so that the solver never has to reason about products or
  // quotients of compound terms.

  lemma Distributes(y: real, y1: real, y2: real, u: real)
    requires y == y1 + y2
    ensures y * u == y1 * u + y2 * u
  {
  }

  /** A row of pass `k <= n - 1` in unit `u`: the bracket is `F(n - k + 1)`
      units wide, the probes `F(n - k - 1)` and `F(n - k)` units from its
      left end. */
  predicate Placed(r: Row, n: nat, u: real) {
    && 1 <= r.k && r.k + 1 <= n
    && r.b - r.a == Units(n - r.k + 1, u)
    && r.lm == r.a + Units(n - r.k - 1, u)
    && r.mu == r.a + Units(n - r.k, u)
  }

  /** The final step: keep `[lm, b]` when `f(lm) > f(mu)`, otherwise `[a, lm]`.
      The bracket is split at `lm`, whatever `mu` is, and one of its two
      parts is kept. */
  function FinalStep(r: Row): (p: (real, real))
    ensures (p.0 == r.a && p.1 == r.lm) || (p.0 == r.lm && p.1 == r.b)
    ensures p.0 == r.lm <==> r.flm > r.fmu || r.a == r.lm
  {
    if r.flm > r.fmu then (r.lm, r.b) else (r.a, r.lm)
  }

  /** The unit of a run on `[a, b]` with `n` passes. */
  function Unit(a: real, b: real, n: nat): real {
    (b - a) / Fib(n) as real
  }

  /** The rows of the main loop, passes `1 ..`: numbered, each in place for
      its pass with the objective's values, inside `[a, b]`, the first on
      `[a, b]` and each later one on the bracket the previous pass kept. */
  predicate MainRows(f: real -> real, a: real, b: real, n: nat, u: real, rows: seq<Row>) {
    && |rows| >= 1
    && Numbered(rows)
    && AllCached(f, rows)
    && Inside(a, b, rows)
    && rows[0].a == a && rows[0].b == b
    && (forall i :: 0 <= i < |rows| ==> Placed(rows[i], n, u))
    && Chained(rows, SectionNext)
  }

  /** The whole table of a run with `n >= 3` passes: the `n - 2` main rows,
      then the row of the final step, taken on the bracket the last main pass
      kept, two units wide, with `lm` at its midpoint and `mu = lm + eps`. */
  predicate IsTrace(f: real -> real, a: real, b: real, eps: real, n: nat, u: real, rows: seq<Row>) {
    && 3 <= n && |rows| == n - 1
    && Units(n, u) == b - a
    && MainRows(f, a, b, n, u, rows[..n - 2])
    && var last := rows[n - 2];
       && last.k == n - 1
       && Cached(f, last)
       && (last.a, last.b) == SectionNext(rows[n - 3])
       && last.b - last.a == 2.0 * u
       && last.lm == Midpoint(last.a, last.b)
       && last.mu == last.lm + eps
  }

  /** Placing a probe with the ratio `F(p) / F(q)` (given as `x / y`) in a
      bracket of `F(q)` units (`wq`) puts it `F(p)` units (`wp`) from the
      left end. */
  lemma RatioOfUnits(p: nat, q: nat, u: real, x: real, y: real, wq: real, wp: real)
    requires x == Fib(p) as real && y == Fib(q) as real
    requires wq == Units(q, u) && wp == Units(p, u)
    ensures (x / y) * wq == wp
  {
    UnitsIsProduct(p, u, x);
    UnitsIsProduct(q, u, y);
    ScaleCancels(x, y, u, wq, wp);
  }

  /** `(x / y) * (y u) == x u` for `y >= 1`. */
  lemma ScaleCancels(x: real, y: real, u: real, yu: real, xu: real)
    requires 1.0 <= y && yu == y * u && xu == x * u
    ensures (x / y) * yu == xu
  {
    var z := x / y;
    assert z * y == x;
    assert z * (y * u) == (z * y) * u;
  }

  /** Solver aid: a quotient times its divisor. */
  lemma QuotientTimes(w: real, y: real, u: real)
    requires 1.0 <= y && u == w / y
    ensures y * u == w
  {
  }

  /** The recurrence, with the three indices named; a solver aid. */
  lemma UnitsAdd(m: nat, m1: nat, m2: nat, u: real)
    requires 2 <= m && m1 == m - 1 && m2 == m - 2
    ensures Units(m, u) == Units(m1, u) + Units(m2, u)
  {
  }

  /** `Placed` restated with the three indices named, so that callers can
      relate it to `Units` terms they already hold; a solver aid. */
  lemma PlacedIndices(r: Row, n: nat, u: real, up: nat, here: nat, down: nat)
    requires 1 <= r.k && r.k + 1 <= n
    requires up == n - r.k + 1 && here == n - r.k && down == n - r.k - 1
    ensures Placed(r, n, u) <==>
              && r.b - r.a == Units(up, u)
              && r.lm == r.a + Units(down, u)
              && r.mu == r.a + Units(here, u)
  {
  }

  /** Before the last pass the probes are strictly inside the bracket and
      in order. */
  lemma PlacedOrdered(r: Row, n: nat, u: real)
    requires 0.0 < u && Placed(r, n, u) && r.k + 2 <= n
    ensures r.a < r.lm < r.mu < r.b
  {
    var m := n - r.k;
    PlacedIndices(r, n, u, m + 1, m, m - 1);
    UnitsAdd(m + 1, m, m - 1, u);
    UnitsAdd(m, m - 1, m - 2, u);
  }

  /** `F(n)` units of the run on `[a, b]` span the input bracket. */
  lemma UnitSpans(a: real, b: real, n: nat)
    ensures Units(n, Unit(a, b, n)) == b - a
  {
    var y := Fib(n) as real;
    UnitsIsProduct(n, Unit(a, b, n), y);
    QuotientTimes(b - a, y, Unit(a, b, n));
  }

  /** A probe `F(i) / F(j)` of the way along a bracket of `F(j)` units that
      starts at `from`: it lies `F(i)` units from `from`. */
  method Probe(fib: seq<nat>, n: nat, i: nat, j: nat, from: real, w: real, ghost u: real) returns (x: real)
    requires IsTable(fib, n) && i <= n && j <= n && w == Units(j, u)
    ensures x == from + Units(i, u)
  {
    var num, den := fib[i] as real, fib[j] as real;
    x := from + num / den * w;
    RatioOfUnits(i, j, u, num, den, w, Units(i, u));
  }

  /** The initial stage: probes at the ratios `F(n-2) / F(n)` and
      `F(n-1) / F(n)` of the input bracket, and the objective at both. The
      row is in place for pass 1. */
  method Initial(f: real -> real, fib: seq<nat>, a: real, b: real, n: nat, ghost u: real) returns (r: Row)
    requires IsTable(fib, n) && 3 <= n && Units(n, u) == b - a
    ensures r.k == 1 && r.a == a && r.b == b
    ensures Placed(r, n, u) && Cached(f, r)
  {
    var lm := Probe(fib, n, n - 2, n, a, b - a, u);
    var mu := Probe(fib, n, n - 1, n, a, b - a, u);
    r := Row(1, a, b, lm, mu, f(lm), f(mu));
    PlacedIndices(r, n, u, n, n - 1, n - 2);
  }

  /** Pass `k` of the main stage. When `f(lm) > f(mu)` it keeps `[lm, b]`,
      moves `mu` and its value into the `lm` slot and places the new `mu`
      at the ratio `F(n-k-1) / F(n-k)` of the new bracket; otherwise it
      keeps `[a, mu]`, moves `lm` into the `mu` slot and places the new
      `lm` at the ratio `F(n-k-2) / F(n-k)`. The objective is called at the
      new probe except on the last pass, `k == n - 2`, whose probe slot
      keeps the value it held. The row it returns is again in place, and
      both values it holds are right even on the last pass: there the two
      probes coincide, at the midpoint of the bracket. */
  method Step(f: real -> real, fib: seq<nat>, n: nat, r: Row, ghost u: real) returns (next: Row)
    requires IsTable(fib, n) && 0.0 < u
    requires r.k + 2 <= n && Placed(r, n, u) && Cached(f, r)
    ensures next.k == r.k + 1
    ensures (next.a, next.b) == SectionNext(r)
    ensures r.a <= next.a < next.b <= r.b
    ensures r.flm > r.fmu ==> next.lm == r.mu && next.flm == r.fmu
    ensures r.flm <= r.fmu ==> next.mu == r.lm && next.fmu == r.flm
    ensures Placed(next, n, u)
    ensures next.flm == f(next.lm) && next.fmu == f(next.mu)
    ensures r.k + 2 == n ==> next.lm == next.mu
  {
    var k := r.k;
    ghost var m := n - k;
    PlacedIndices(r, n, u, m + 1, m, m - 1);
    if r.flm > r.fmu {
      UnitsAdd(m + 1, m, m - 1, u);
      var mu := Probe(fib, n, n - k - 1, n - k, r.lm, r.b - r.lm, u);
      var fmu := if k == n - 2 then r.fmu else f(mu);
      next := Row(k + 1, r.lm, r.b, r.mu, mu, r.fmu, fmu);
      UnitsAdd(m, m - 1, m - 2, u);
    } else {
      var lm := Probe(fib, n, n - k - 2, n - k, r.a, r.mu - r.a, u);
      var flm := if k == n - 2 then r.flm else f(lm);
      next := Row(k + 1, r.a, r.mu, lm, r.lm, flm, r.flm);
    }
    PlacedIndices(next, n, u, m, m - 1, m - 2);
  }

  /** A main pass taken on the bracket the rows end on extends them. */
  lemma AppendMain(f: real -> real, a: real, b: real, n: nat, u: real, rows: seq<Row>, row: Row)
    requires MainRows(f, a, b, n, u, rows)
    requires row.k == |rows| + 1 && Cached(f, row) && Placed(row, n, u)
    requires (row.a, row.b) == SectionNext(rows[|rows| - 1])
    requires a <= row.a < row.b <= b
    ensures MainRows(f, a, b, n, u, rows + [row])
  {
    AppendNumbered(rows, row);
    AppendCached(f, rows, row);
    AppendInside(a, b, rows, row);
    AppendChained(rows, row, SectionNext);
    var rows' := rows + [row];
    forall i | 0 <= i < |rows'|
      ensures Placed(rows'[i], n, u)
    {
      if i < |rows| {
        assert rows'[i] == rows[i];
      }
    }
  }

  /** The row of the final step completes the table: after the last main
      pass the bracket is two units wide and `lm` sits at its midpoint. */
  lemma Finish(f: real -> real, a: real, b: real, eps: real, n: nat, u: real, rows: seq<Row>, p: Row, last: Row)
    requires 3 <= n && |rows| == n - 2 && Units(n, u) == b - a && MainRows(f, a, b, n, u, rows)
    requires p.k == n - 1 && Placed(p, n, u) && p.flm == f(p.lm)
    requires (p.a, p.b) == SectionNext(rows[n - 3])
    requires last == Row(p.k, p.a, p.b, p.lm, p.lm + eps, p.flm, f(p.lm + eps))
    ensures IsTrace(f, a, b, eps, n, u, rows + [last])
  {
    var rows' := rows + [last];
    assert rows'[..n - 2] == rows;
    assert MainRows(f, a, b, n, u, rows'[..n - 2]);
    assert rows'[n - 2] == last && rows'[n - 3] == rows[n - 3];
    PlacedIndices(p, n, u, 2, 1, 0);
    UnitsAdd(2, 1, 0, u);
    assert last.b - last.a == 2.0 * u && last.lm == last.a + u;
  }

  /** Solver aid: a lower bound on a quotient. */
  lemma QuotientAtLeast(w: real, l: real, c: real)
    requires 0.0 < l && c * l <= w
    ensures c <= w / l
  {
    assert (w / l) * l == w;
  }

  /** After the final step one unit is left, and it is shorter than `l`. */
  lemma FinalWidth(a: real, b: real, l: real, n: nat)
    requires a < b && 0.0 < l && Fib(n) as real > (b - a) / l
    ensures Unit(a, b, n) < l
  {
    QuotientBelow(b - a, l, Fib(n) as real);
  }

  /** From `y > w / l` with `w, l > 0` follows `w / y < l`. */
  lemma QuotientBelow(w: real, l: real, y: real)
    requires 0.0 < w && 0.0 < l && w / l < y
    ensures w / y < l
  {
    var q := w / l;
    assert q * l == w;
    assert 0.0 < q;
    assert 0.0 < y;
    assert (y - q) * l > 0.0;
    assert y * l > w;
    var z := w / y;
    assert z * y == w;
    assert z * y < l * y;
  }

  /** Row `i` of a table, the row of pass `i + 1`, is `F(n - i) / F(n)` of
      the input bracket wide: each pass takes the width from `F(n - k + 1)`
      to `F(n - k)` parts of `F(n)`, the final row included. The two
      Fibonacci numbers and the two widths are passed in as `x`, `y`, `w`
      and `w0`. */
  lemma TraceWidths(f: real -> real, a: real, b: real, eps: real, n: nat, u: real, rows: seq<Row>, i: nat,
                    x: real, y: real, w0: real, w: real)
    requires IsTrace(f, a, b, eps, n, u, rows) && i < |rows|
    requires x == Fib(n - i) as real && y == Fib(n) as real
    requires w0 == b - a && w == rows[i].b - rows[i].a
    ensures w == (x / y) * w0
  {
    if i < n - 2 {
      var r := rows[i];
      assert r == rows[..n - 2][i];
      assert Placed(r, n, u) && r.k == i + 1;
      RatioOfUnits(n - i, n, u, x, y, w0, w);
    } else {
      assert Fib(2) == 2;
      RatioOfUnits(2, n, u, x, y, w0, w);
    }
  }

  /** Every main row brackets the minimum point of a unimodal objective that
      lies in the input bracket. */
  lemma {:induction false} MainKeepsMinimiser(f: real -> real, a: real, b: real, n: nat, u: real, rows: seq<Row>, xs: real, i: nat)
    requires MainRows(f, a, b, n, u, rows) && |rows| + 2 <= n && 0.0 < u
    requires Unimodal(f, xs) && a <= xs <= b && i < |rows|
    ensures rows[i].a <= xs <= rows[i].b
  {
    if i > 0 {
      MainKeepsMinimiser(f, a, b, n, u, rows, xs, i - 1);
      var r := rows[i - 1];
      assert Placed(r, n, u) && Cached(f, r) && r.k == i;
      PlacedOrdered(r, n, u);
      SectionKeeps(f, xs, r);
    }
  }

  /** After the final step the minimum point lies in the bracket kept or at
      most `eps` to its right: when `f(lm) <= f(lm + eps)` the step keeps
      `[a, lm]` although the minimum may lie between `lm` and `lm + eps`. */
  lemma KeepsMinimiser(f: real -> real, a: real, b: real, eps: real, n: nat, u: real, rows: seq<Row>, xs: real)
    requires IsTrace(f, a, b, eps, n, u, rows) && a < b && 0.0 < eps
    requires Unimodal(f, xs) && a <= xs <= b
    ensures FinalStep(rows[n - 2]).0 <= xs <= FinalStep(rows[n - 2]).1 + eps
  {
    var main := rows[..n - 2];
    assert 0.0 < u;
    MainKeepsMinimiser(f, a, b, n, u, main, xs, n - 3);
    var r := main[n - 3];
    assert r == rows[n - 3];
    assert Placed(r, n, u) && Cached(f, r) && r.k == n - 2;
    PlacedOrdered(r, n, u);
    SectionKeeps(f, xs, r);
  }

  /** The passes before the final one: the first row, then one `Step` per
      pass up to pass `n - 1`, whose row is returned apart from the others
      since the final step replaces its right probe. Each pass after the
      first makes one objective call. */
  method Passes(f: real -> real, fib: seq<nat>, a: real, b: real, n: nat, ghost u: real)
    returns (rows: seq<Row>, row: Row, calls: nat)
    requires IsTable(fib, n) && 3 <= n && 0.0 < u && Units(n, u) == b - a
    ensures |rows| == n - 2 && MainRows(f, a, b, n, u, rows)
    ensures row.k == n - 1 && Placed(row, n, u) && row.flm == f(row.lm)
    ensures (row.a, row.b) == SectionNext(rows[n - 3])
    ensures calls == n - 1
  {
    row := Initial(f, fib, a, b, n, u);
    calls := 2;
    rows := [];
    while true
      invariant 1 <= row.k && row.k + 2 <= n
      invariant |rows| == row.k - 1 && calls == row.k + 1
      invariant MainRows(f, a, b, n, u, rows + [row])
      decreases n - row.k
    {
      assert (rows + [row])[|rows|] == row;
      assert Placed(row, n, u) && Cached(f, row);
      var next := Step(f, fib, n, row, u);
      rows := rows + [row];
      if row.k + 2 == n {
        row := next;
        break;
      }
      calls := calls + 1;
      AppendMain(f, a, b, n, u, rows, next);
      row := next;
    }
  }

  /** The bracket the final step keeps lies in `[a, b]` and is one unit
      wide; for a unimodal objective with its minimum point in `[a, b]` it
      holds that point, up to `eps` on the right. */
  lemma Concludes(f: real -> real, a: real, b: real, eps: real, n: nat, u: real, rows: seq<Row>)
    requires IsTrace(f, a, b, eps, n, u, rows) && a < b && 0.0 < eps
    ensures var (lo, hi) := FinalStep(rows[n - 2]);
            && a <= lo < hi <= b
            && hi - lo == u
            && forall xs :: Unimodal(f, xs) && a <= xs <= b ==> lo <= xs <= hi + eps
  {
    assert 0.0 < u;
    var r := rows[n - 3];
    assert r == rows[..n - 2][n - 3];
    assert Placed(r, n, u) && a <= r.a && r.b <= b && r.k == n - 2;
    PlacedOrdered(r, n, u);
    forall xs | Unimodal(f, xs) && a <= xs <= b
      ensures FinalStep(rows[n - 2]).0 <= xs <= FinalStep(rows[n - 2]).1 + eps
    {
      KeepsMinimiser(f, a, b, eps, n, u, rows, xs);
    }
  }

  method Search(f: real -> real, a: real, b: real, eps: real, l: real) returns (res: Result<Outcome>)
    requires 0.0 < eps && 0.0 < l && a < b ==> 2.0 * l <= b - a
    ensures eps <= 0.0 ==> res == Failure(NegativeEps)
    ensures 0.0 < eps && l <= 0.0 ==> res == Failure(NegativeLength)
    ensures 0.0 < eps && 0.0 < l && b <= a ==> res == Failure(InvalidInterval(a, b))
    ensures res.Success? <==> 0.0 < eps && 0.0 < l && a < b
    ensures res.Success? ==>
              var n := res.value.calls;
              && Fib(n) as real > (b - a) / l
              && (forall m :: 1 <= m < n ==> Fib(m) as real <= (b - a) / l)
              && IsTrace(f, a, b, eps, n, Unit(a, b, n), res.value.trace)
    ensures res.Success? ==>
              var n := res.value.calls;
              var (lo, hi) := FinalStep(res.value.trace[n - 2]);
              && a <= lo < hi <= b
              && hi - lo == Unit(a, b, n) < l
              && res.value.point == Midpoint(lo, hi)
    ensures res.Success? ==>
              forall xs :: Unimodal(f, xs) && a <= xs <= b ==>
                -l / 2.0 - eps < res.value.point - xs < l / 2.0
  {
    if eps <= 0.0 {
      return Failure(NegativeEps);
    }
    if l <= 0.0 {
      return Failure(NegativeLength);
    }
    if b <= a {
      return Failure(InvalidInterval(a, b));
    }

    var n := Budget(a, b, l);
    assert 3 <= n by {
      assert Fib(1) == 1 && Fib(2) == 2;
      QuotientAtLeast(b - a, l, 2.0);
    }
    var fib := FibonacciSeq(n);
    ghost var u := Unit(a, b, n);
    assert 0.0 < u;
    UnitSpans(a, b, n);

    var rows, row, calls := Passes(f, fib, a, b, n, u);

    // Final step: compare `lm` with the point `eps` to its right.
    var last := Row(row.k, row.a, row.b, row.lm, row.lm + eps, row.flm, f(row.lm + eps));
    calls := calls + 1;
    Finish(f, a, b, eps, n, u, rows, row, last);
    rows := rows + [last];
    var lo, hi := row.a, row.b;
    if last.flm > last.fmu {
      lo := last.lm;
    } else {
      hi := last.lm;
    }
    FinalWidth(a, b, l, n);
    Concludes(f, a, b, eps, n, u, rows);
    return Success(Outcome(Midpoint(lo, hi), calls, rows));
  }
}
