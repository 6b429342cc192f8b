/** `golden_search`: the probes divide the bracket in the golden ratio, so
    after each comparison one of them is already in place for the next pass
    and only one new objective call is needed. */
module Golden {
  import opened SearchTypes

  /** The contraction factor `(sqrt 5 - 1) / 2`, characterised exactly as the
      root of `x * x == 1 - x` in `(0, 1)`. */
  predicate IsGoldenRatio(alpha: real) {
    0.0 < alpha < 1.0 && alpha * alpha == 1.0 - alpha
  }

  /** The probes of a row sit at fractions `1 - alpha` and `alpha` of its
      bracket, strictly inside it and in order. */
  predicate ProbesPlaced(r: Row, alpha: real) {
    && r.lm == r.a + (1.0 - alpha) * (r.b - r.a)
    && r.mu == r.a + alpha * (r.b - r.a)
    && r.a < r.lm < r.mu < r.b
  }

  /** The table of a run from `[a, b]`: one numbered row per pass, the first
      on the input bracket, every row with its probes in golden position and
      their objective values, and every row but the last at least `l` wide
      and followed by the bracket its comparison kept, `alpha` times as wide. */
  predicate IsTrace(f: real -> real, a: real, b: real, alpha: real, l: real, rows: seq<Row>) {
    && |rows| >= 1
    && Numbered(rows)
    && AllCached(f, rows)
    && rows[0].a == a && rows[0].b == b
    && (forall i :: 0 <= i < |rows| ==> ProbesPlaced(rows[i], alpha))
    && (forall i :: 0 <= i < |rows| - 1 ==> rows[i].b - rows[i].a >= l)
    && (forall i :: 0 <= i < |rows| - 1 ==>
          rows[i + 1].b - rows[i + 1].a == alpha * (rows[i].b - rows[i].a))
    && Chained(rows, SectionNext)
  }

  lemma GoldenAboveHalf(alpha: real)
    requires IsGoldenRatio(alpha)
    ensures 0.5 < alpha
  {
  }

  /** Golden placement of the probes in a proper bracket puts them strictly
      inside it and in order. */
  lemma PlacementOrdered(lo: real, hi: real, alpha: real)
    requires IsGoldenRatio(alpha) && lo < hi
    ensures lo < lo + (1.0 - alpha) * (hi - lo) < lo + alpha * (hi - lo) < hi
  {
    GoldenAboveHalf(alpha);
    var w := hi - lo;
    assert (1.0 - alpha) * w > 0.0;
    assert alpha * w - (1.0 - alpha) * w == (2.0 * alpha - 1.0) * w;
    assert (2.0 * alpha - 1.0) * w > 0.0;
    assert w - alpha * w == (1.0 - alpha) * w;
  }

  /** One narrowing pass: keep the part of the bracket on the side of the
      smaller cached value, let the surviving probe take over the other role
      with its cached value, and evaluate the objective at the one new probe.
      The held values therefore stay attached to their points. */
  function Pass(f: real -> real, r: Row, alpha: real): (next: Row)
    ensures next.k == r.k + 1
    ensures (next.a, next.b) == SectionNext(r)
    ensures r.flm > r.fmu ==> next.lm == r.mu && next.flm == r.fmu
    ensures r.flm <= r.fmu ==> next.mu == r.lm && next.fmu == r.flm
    ensures Cached(f, r) ==> Cached(f, next)
  {
    if r.flm > r.fmu then
      var mu := r.lm + alpha * (r.b - r.lm);
      Row(r.k + 1, r.lm, r.b, r.mu, mu, r.fmu, f(mu))
    else
      var lm := r.a + (1.0 - alpha) * (r.mu - r.a);
      Row(r.k + 1, r.a, r.mu, lm, r.lm, f(lm), r.flm)
  }

  /** A pass keeps the bracket its comparison selects and shrinks it by
      exactly `alpha`. */
  lemma PassWidth(f: real -> real, r: Row, alpha: real)
    requires ProbesPlaced(r, alpha)
    ensures (Pass(f, r, alpha).a, Pass(f, r, alpha).b) == SectionNext(r)
    ensures Pass(f, r, alpha).b - Pass(f, r, alpha).a == alpha * (r.b - r.a)
  {
  }

  /** A pass keeps the bracket its comparison selects, shrinks it by exactly
      `alpha`, and, because `alpha * alpha == 1 - alpha`, the probe it carries
      over lands in golden position in the new bracket, so the new row is
      again placed and its cached values are again the objective's values. */
  lemma PassFacts(f: real -> real, r: Row, alpha: real)
    requires IsGoldenRatio(alpha) && ProbesPlaced(r, alpha) && Cached(f, r)
    ensures (Pass(f, r, alpha).a, Pass(f, r, alpha).b) == SectionNext(r)
    ensures Pass(f, r, alpha).b - Pass(f, r, alpha).a == alpha * (r.b - r.a)
    ensures r.a <= Pass(f, r, alpha).a < Pass(f, r, alpha).b <= r.b
    ensures Pass(f, r, alpha).k == r.k + 1
    ensures ProbesPlaced(Pass(f, r, alpha), alpha) && Cached(f, Pass(f, r, alpha))
  {
    var w := r.b - r.a;
    var n := Pass(f, r, alpha);
    assert alpha * (alpha * w) == (1.0 - alpha) * w by {
      assert alpha * (alpha * w) == (alpha * alpha) * w;
    }
    if r.flm > r.fmu {
      assert n.b - n.a == alpha * w;
      assert (1.0 - alpha) * (alpha * w) == alpha * w - alpha * (alpha * w);
      assert n.lm == n.a + (1.0 - alpha) * (n.b - n.a);
    } else {
      assert n.b - n.a == alpha * w;
      assert n.mu == n.a + alpha * (n.b - n.a);
    }
    PlacementOrdered(n.a, n.b, alpha);
  }

  /** Termination metric of the loop: the floor of `w / ((1 - alpha) l)`. */
  function Measure(w: real, alpha: real, l: real): int
    requires alpha < 1.0 && 0.0 < l
  {
    (w / ((1.0 - alpha) * l)).Floor
  }

  /** Solver aid: a quotient of a larger by a smaller positive number. */
  lemma AtLeastOne(w: real, l: real)
    requires 0.0 < l <= w
    ensures w / l >= 1.0
  {
  }

  /** The real measure `w / ((1 - alpha) l)` is multiplied by `alpha` on each
      pass, so it drops by `w / l >= 1` without going negative, and its floor
      drops. */
  lemma MeasureShrinks(w: real, w': real, alpha: real, l: real)
    requires 0.0 < alpha < 1.0 && 0.0 < l <= w && w' == alpha * w
    ensures 0 <= Measure(w', alpha, l) < Measure(w, alpha, l)
  {
    var d := (1.0 - alpha) * l;
    var y := w / d;
    var y' := w' / d;
    assert y - y' == w / l by {
      assert y - y' == (w - w') / d;
      assert w - w' == (1.0 - alpha) * w;
    }
    AtLeastOne(w, l);
    FloorDrops(y, y');
  }

  /** Adding the row of the next pass keeps the table a trace of the run. */
  lemma AppendPass(f: real -> real, a: real, b: real, alpha: real, l: real, rows: seq<Row>, row: Row)
    requires IsTrace(f, a, b, alpha, l, rows) && Inside(a, b, rows)
    requires rows[|rows| - 1].b - rows[|rows| - 1].a >= l
    requires row.k == |rows| + 1 && Cached(f, row) && ProbesPlaced(row, alpha)
    requires (row.a, row.b) == SectionNext(rows[|rows| - 1]) && a <= row.a && row.b <= b
    requires row.b - row.a == alpha * (rows[|rows| - 1].b - rows[|rows| - 1].a)
    ensures IsTrace(f, a, b, alpha, l, rows + [row]) && Inside(a, b, rows + [row])
  {
    AppendNumbered(rows, row);
    AppendCached(f, rows, row);
    AppendInside(a, b, rows, row);
    AppendChained(rows, row, SectionNext);
    AppendPlaced(rows, row, alpha);
    AppendWidths(alpha, l, rows, row);
  }

  lemma AppendPlaced(rows: seq<Row>, row: Row, alpha: real)
    requires forall i :: 0 <= i < |rows| ==> ProbesPlaced(rows[i], alpha)
    requires ProbesPlaced(row, alpha)
    ensures forall i :: 0 <= i < |rows + [row]| ==> ProbesPlaced((rows + [row])[i], alpha)
  {
    var rows' := rows + [row];
    forall i | 0 <= i < |rows'|
      ensures ProbesPlaced(rows'[i], alpha)
    {
      if i < |rows| {
        assert rows'[i] == rows[i];
      }
    }
  }

  lemma AppendWidths(alpha: real, l: real, rows: seq<Row>, row: Row)
    requires |rows| >= 1
    requires forall i :: 0 <= i < |rows| - 1 ==> rows[i].b - rows[i].a >= l
    requires forall i :: 0 <= i < |rows| - 1 ==>
               rows[i + 1].b - rows[i + 1].a == alpha * (rows[i].b - rows[i].a)
    requires rows[|rows| - 1].b - rows[|rows| - 1].a >= l
    requires row.b - row.a == alpha * (rows[|rows| - 1].b - rows[|rows| - 1].a)
    ensures var rows' := rows + [row];
            && (forall i :: 0 <= i < |rows'| - 1 ==> rows'[i].b - rows'[i].a >= l)
            && (forall i :: 0 <= i < |rows'| - 1 ==>
                  rows'[i + 1].b - rows'[i + 1].a == alpha * (rows'[i].b - rows'[i].a))
  {
    var rows' := rows + [row];
    forall i | 0 <= i < |rows'| - 1
      ensures rows'[i].b - rows'[i].a >= l
      ensures rows'[i + 1].b - rows'[i + 1].a == alpha * (rows'[i].b - rows'[i].a)
    {
      assert rows'[i] == rows[i];
      if i < |rows| - 1 {
        assert rows'[i + 1] == rows[i + 1];
      } else {
        assert rows'[i + 1] == row;
      }
    }
  }

  /** One pass of the loop, taken while the last row is at least `l` wide,
      extends the trace by the pass's row. */
  lemma LoopStepTrace(f: real -> real, a: real, b: real, alpha: real, l: real, rows: seq<Row>)
    requires IsGoldenRatio(alpha)
    requires IsTrace(f, a, b, alpha, l, rows) && Inside(a, b, rows)
    requires rows[|rows| - 1].b - rows[|rows| - 1].a >= l
    ensures var next := Pass(f, rows[|rows| - 1], alpha);
            && next.k == rows[|rows| - 1].k + 1
            && IsTrace(f, a, b, alpha, l, rows + [next])
            && Inside(a, b, rows + [next])
  {
    var row := rows[|rows| - 1];
    PassFacts(f, row, alpha);
    AppendPass(f, a, b, alpha, l, rows, Pass(f, row, alpha));
  }

  /** One pass of the loop lowers the termination metric, which stays
      non-negative. */
  lemma LoopStepMeasure(f: real -> real, alpha: real, l: real, row: Row)
    requires IsGoldenRatio(alpha) && ProbesPlaced(row, alpha) && 0.0 < l <= row.b - row.a
    ensures var next := Pass(f, row, alpha);
            0 <= Measure(next.b - next.a, alpha, l) < Measure(row.b - row.a, alpha, l)
  {
    var next := Pass(f, row, alpha);
    PassWidth(f, row, alpha);
    MeasureShrinks(row.b - row.a, next.b - next.a, alpha, l);
  }

  /** Every row of a trace brackets the minimum point of a unimodal objective
      that lies in the input bracket. */
  lemma {:induction false} KeepsMinimiser(f: real -> real, a: real, b: real, alpha: real, l: real, rows: seq<Row>, xs: real, i: nat)
    requires IsTrace(f, a, b, alpha, l, rows)
    requires Unimodal(f, xs) && a <= xs <= b && i < |rows|
    ensures rows[i].a <= xs <= rows[i].b
  {
    if i > 0 {
      KeepsMinimiser(f, a, b, alpha, l, rows, xs, i - 1);
      assert ProbesPlaced(rows[i - 1], alpha) && Cached(f, rows[i - 1]);
      SectionKeeps(f, xs, rows[i - 1]);
    }
  }

  /** Once the last bracket is narrower than `l`, its midpoint is within
      `l / 2` of the minimum point of a unimodal objective in `[a, b]`. */
  lemma Concludes(f: real -> real, a: real, b: real, alpha: real, l: real, rows: seq<Row>)
    requires IsTrace(f, a, b, alpha, l, rows)
    requires rows[|rows| - 1].b - rows[|rows| - 1].a < l
    ensures var last := rows[|rows| - 1];
            forall xs :: Unimodal(f, xs) && a <= xs <= b ==>
              -l / 2.0 < Midpoint(last.a, last.b) - xs < l / 2.0
  {
    forall xs | Unimodal(f, xs) && a <= xs <= b
      ensures rows[|rows| - 1].a <= xs <= rows[|rows| - 1].b
    {
      KeepsMinimiser(f, a, b, alpha, l, rows, xs, |rows| - 1);
    }
  }

  /** The loop of the search: starting from the first row, pass after pass
      while the bracket is at least `l` wide, one objective call per pass. */
  method Narrow(f: real -> real, a: real, b: real, alpha: real, l: real, first: Row)
    returns (rows: seq<Row>, calls: nat)
    requires IsGoldenRatio(alpha) && 0.0 < l
    requires first.k == 1 && first.a == a && first.b == b
    requires ProbesPlaced(first, alpha) && Cached(f, first)
    ensures IsTrace(f, a, b, alpha, l, rows) && Inside(a, b, rows)
    ensures calls == |rows| - 1
    ensures rows[|rows| - 1].b - rows[|rows| - 1].a < l
  {
    var row := first;
    rows := [row];
    calls := 0;
    while row.b - row.a >= l
      invariant |rows| == row.k && calls == row.k - 1
      invariant IsTrace(f, a, b, alpha, l, rows) && Inside(a, b, rows)
      invariant rows[|rows| - 1] == row
      decreases Measure(row.b - row.a, alpha, l)
    {
      LoopStepTrace(f, a, b, alpha, l, rows);
      LoopStepMeasure(f, alpha, l, row);
      var next := Pass(f, row, alpha);
      calls := calls + 1;
      rows := rows + [next];
      row := next;
    }
  }

  method Search(f: real -> real, a: real, b: real, eps: real, l: real, alpha: real)
    returns (res: Result<Outcome>)
    requires IsGoldenRatio(alpha)
    requires 0.0 <= eps && a < b ==> l != 0.0
    ensures eps < 0.0 ==> res == Failure(NegativeEps)
    ensures 0.0 <= eps && l < 0.0 ==> res == Failure(NegativeLength)
    ensures 0.0 <= eps && 0.0 <= l && b <= a ==> res == Failure(InvalidInterval(a, b))
    ensures res.Success? <==> 0.0 <= eps && 0.0 <= l && a < b
    ensures res.Success? ==>
              && IsTrace(f, a, b, alpha, l, res.value.trace)
              && Inside(a, b, res.value.trace)
              && res.value.calls == |res.value.trace| + 1
    ensures res.Success? ==>
              var last := res.value.trace[|res.value.trace| - 1];
              && last.b - last.a < l
              && res.value.point == Midpoint(last.a, last.b)
    ensures res.Success? ==>
              forall xs :: Unimodal(f, xs) && a <= xs <= b ==>
                -l / 2.0 < res.value.point - xs < l / 2.0
  {
    if eps < 0.0 {
      return Failure(NegativeEps);
    }
    if l < 0.0 {
      return Failure(NegativeLength);
    }
    if b <= a {
      return Failure(InvalidInterval(a, b));
    }

    var lm := a + (1.0 - alpha) * (b - a);
    var mu := a + alpha * (b - a);
    var flm := f(lm);
    var fmu := f(mu);
    var calls: nat := 2;
    PlacementOrdered(a, b, alpha);
    var first := Row(1, a, b, lm, mu, flm, fmu);
    var rows, more := Narrow(f, a, b, alpha, l, first);
    calls := calls + more;
    var row := rows[|rows| - 1];
    Concludes(f, a, b, alpha, l, rows);
    return Success(Outcome(Midpoint(row.a, row.b), calls, rows));
  }
}
