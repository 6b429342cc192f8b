/** `dichotomic_search`: every pass evaluates the objective at two points
    `eps` to either side of the bracket's midpoint and keeps the half (plus
    `eps`) on the side of the smaller value. */
module Dichotomic {
  import opened SearchTypes

  /** Bracket kept after comparing a row's probes: `[a, mu]` when
      `f(lm) < f(mu)`, otherwise `[lm, b]` (ties move right). */
  function Next(r: Row): (real, real) {
    if r.flm < r.fmu then (r.a, r.mu) else (r.lm, r.b)
  }

  /** One end of the bracket stays, the other moves to a probe, and with
      ordered probes the kept part holds the probe with the smaller value
      (the right one on a tie). */
  lemma NextShape(r: Row)
    ensures Next(r).0 == r.a || Next(r).1 == r.b
    ensures r.a <= r.lm <= r.mu <= r.b ==>
              && (r.flm < r.fmu ==> Next(r).0 <= r.lm <= Next(r).1)
              && (r.fmu <= r.flm ==> Next(r).0 <= r.mu <= Next(r).1)
  {
  }

  /** A row of a narrowing pass: the bracket was at least `l` wide and the
      probes sit `eps` to either side of its midpoint. */
  predicate PassRow(r: Row, eps: real, l: real) {
    && r.b - r.a >= l
    && r.lm == Midpoint(r.a, r.b) - eps
    && r.mu == Midpoint(r.a, r.b) + eps
  }

  /** The table of a run from `[a, b]`: one numbered row per narrowing pass,
      the first on the input bracket, each later one on the bracket the
      previous pass kept, with the objective values of its own probes. */
  predicate IsTrace(f: real -> real, a: real, b: real, eps: real, l: real, rows: seq<Row>) {
    && Numbered(rows)
    && AllCached(f, rows)
    && (forall i :: 0 <= i < |rows| ==> PassRow(rows[i], eps, l))
    && (|rows| > 0 ==> rows[0].a == a && rows[0].b == b)
    && Chained(rows, Next)
  }

  /** The bracket the search ends on: the input when no pass ran, otherwise
      what the last pass kept. */
  function FinalBracket(a: real, b: real, rows: seq<Row>): (real, real) {
    if |rows| == 0 then (a, b) else Next(rows[|rows| - 1])
  }

  /** One pass replaces a bracket of width `w >= l > 2 eps` by one strictly
      inside it, of width `w / 2 + eps`. */
  lemma PassNarrows(r: Row, eps: real, l: real)
    requires 0.0 <= eps && 2.0 * eps < l
    requires PassRow(r, eps, l)
    ensures r.a <= Next(r).0 < Next(r).1 <= r.b
    ensures Next(r).1 - Next(r).0 == (r.b - r.a) / 2.0 + eps
    ensures Next(r).1 - Next(r).0 < r.b - r.a
  {
  }

  /** The termination measure `2 (w - 2 eps) / (l - 2 eps)` halves on each
      pass, and so drops by at least one, without going negative, while
      `w >= l`. */
  lemma MeasureHalves(w: real, eps: real, l: real)
    requires 0.0 <= eps && 2.0 * eps < l && l <= w
    ensures 2.0 * ((w / 2.0 + eps) - 2.0 * eps) / (l - 2.0 * eps)
            <= 2.0 * (w - 2.0 * eps) / (l - 2.0 * eps) - 1.0
    ensures 0.0 <= 2.0 * ((w / 2.0 + eps) - 2.0 * eps) / (l - 2.0 * eps)
  {
    var d := l - 2.0 * eps;
    var y := 2.0 * (w - 2.0 * eps) / d;
    assert (w - 2.0 * eps) / d >= 1.0 by {
      assert w - 2.0 * eps >= d;
    }
    assert 2.0 * ((w / 2.0 + eps) - 2.0 * eps) == w - 2.0 * eps;
    assert (w - 2.0 * eps) / d == y / 2.0;
  }

  /** Adding the row of the next pass, taken on the bracket the table ends
      on, keeps the table a trace of the run. */
  lemma AppendPass(f: real -> real, a: real, b: real, eps: real, l: real, rows: seq<Row>, row: Row)
    requires IsTrace(f, a, b, eps, l, rows) && Inside(a, b, rows)
    requires 0.0 <= eps && 2.0 * eps < l
    requires row.k == |rows| + 1 && Cached(f, row) && PassRow(row, eps, l)
    requires (row.a, row.b) == FinalBracket(a, b, rows) && a <= row.a < row.b <= b
    ensures IsTrace(f, a, b, eps, l, rows + [row]) && Inside(a, b, rows + [row])
  {
    var rows' := rows + [row];
    forall i | 0 <= i < |rows'| - 1
      ensures (rows'[i + 1].a, rows'[i + 1].b) == Next(rows'[i])
    {
      if i < |rows| - 1 {
        assert rows'[i + 1] == rows[i + 1] && rows'[i] == rows[i];
      } else {
        assert rows'[i] == rows[|rows| - 1];
      }
    }
  }

  /** With `eps > 0` the probes differ, and the pass keeps the minimum point
      of a unimodal objective in the bracket. */
  lemma NextKeeps(f: real -> real, xs: real, r: Row)
    requires Unimodal(f, xs) && Cached(f, r) && r.lm < r.mu && r.a <= xs <= r.b
    ensures Next(r).0 <= xs <= Next(r).1
  {
  }

  /** Every row of a trace with `eps > 0` brackets the minimum point of a
      unimodal objective that lies in the input bracket. */
  lemma {:induction false} KeepsMinimiserAt(f: real -> real, a: real, b: real, eps: real, l: real, rows: seq<Row>, xs: real, i: nat)
    requires IsTrace(f, a, b, eps, l, rows) && 0.0 < eps
    requires Unimodal(f, xs) && a <= xs <= b && i < |rows|
    ensures rows[i].a <= xs <= rows[i].b
  {
    if i > 0 {
      KeepsMinimiserAt(f, a, b, eps, l, rows, xs, i - 1);
      assert PassRow(rows[i - 1], eps, l) && Cached(f, rows[i - 1]);
      NextKeeps(f, xs, rows[i - 1]);
    }
  }

  /** So does the bracket the search ends on. */
  lemma KeepsMinimiser(f: real -> real, a: real, b: real, eps: real, l: real, rows: seq<Row>, xs: real)
    requires IsTrace(f, a, b, eps, l, rows) && 0.0 < eps
    requires Unimodal(f, xs) && a <= xs <= b
    ensures FinalBracket(a, b, rows).0 <= xs <= FinalBracket(a, b, rows).1
  {
    if |rows| > 0 {
      var last := rows[|rows| - 1];
      KeepsMinimiserAt(f, a, b, eps, l, rows, xs, |rows| - 1);
      assert PassRow(last, eps, l) && Cached(f, last);
      NextKeeps(f, xs, last);
    }
  }

  /** Once the final bracket is narrower than `l`, its midpoint is within
      `l / 2` of the minimum point of a unimodal objective in `[a, b]`. */
  lemma Concludes(f: real -> real, a: real, b: real, eps: real, l: real, rows: seq<Row>)
    requires IsTrace(f, a, b, eps, l, rows) && 0.0 < eps
    requires FinalBracket(a, b, rows).1 - FinalBracket(a, b, rows).0 < l
    ensures var (lo, hi) := FinalBracket(a, b, rows);
            forall xs :: Unimodal(f, xs) && a <= xs <= b ==>
              -l / 2.0 < Midpoint(lo, hi) - xs < l / 2.0
  {
    forall xs | Unimodal(f, xs) && a <= xs <= b
      ensures FinalBracket(a, b, rows).0 <= xs <= FinalBracket(a, b, rows).1
    {
      KeepsMinimiser(f, a, b, eps, l, rows, xs);
    }
  }

  method Search(f: real -> real, a: real, b: real, eps: real, l: real) returns (res: Result<Outcome>)
    ensures eps < 0.0 ==> res == Failure(NegativeEps)
    ensures 0.0 <= eps && l < 0.0 ==> res == Failure(NegativeLength)
    ensures 0.0 <= eps && 0.0 <= l && b <= a ==> res == Failure(InvalidInterval(a, b))
    ensures 0.0 <= eps && 0.0 <= l && a < b && l <= 2.0 * eps ==> res == Failure(LengthNotAboveTwiceEps)
    ensures res.Success? <==> 0.0 <= eps && 0.0 <= l && a < b && 2.0 * eps < l
    ensures res.Success? ==>
              && IsTrace(f, a, b, eps, l, res.value.trace)
              && Inside(a, b, res.value.trace)
              && res.value.calls == 2 * |res.value.trace|
    ensures res.Success? ==>
              var (lo, hi) := FinalBracket(a, b, res.value.trace);
              && a <= lo < hi <= b
              && hi - lo < l
              && res.value.point == Midpoint(lo, hi)
    ensures res.Success? && 0.0 < eps ==>
              forall xs :: Unimodal(f, xs) && a <= xs <= b ==>
                -l / 2.0 < res.value.point - xs < l / 2.0
  {
    if eps < 0.0 {
      return Failure(NegativeEps);
    }
    if l < 0.0 {
      return Failure(NegativeLength);
    }
    if b <= a {
      return Failure(InvalidInterval(a, b));
    }
    if l <= 2.0 * eps {
      return Failure(LengthNotAboveTwiceEps);
    }

    var calls: nat := 0;
    var k: nat := 1;
    var rows: seq<Row> := [];
    var lo, hi := a, b;
    while hi - lo >= l
      invariant a <= lo < hi <= b
      invariant |rows| == k - 1 && calls == 2 * (k - 1)
      invariant IsTrace(f, a, b, eps, l, rows)
      invariant Inside(a, b, rows)
      invariant (lo, hi) == FinalBracket(a, b, rows)
      decreases (2.0 * (hi - lo - 2.0 * eps) / (l - 2.0 * eps)).Floor
    {
      ghost var y := 2.0 * (hi - lo - 2.0 * eps) / (l - 2.0 * eps);
      var lm := Midpoint(lo, hi) - eps;
      var mu := Midpoint(lo, hi) + eps;
      var flm := f(lm);
      var fmu := f(mu);
      calls := calls + 2;
      var row := Row(k, lo, hi, lm, mu, flm, fmu);
      AppendPass(f, a, b, eps, l, rows, row);
      PassNarrows(row, eps, l);
      rows := rows + [row];
      if flm < fmu {
        hi := mu;
      } else {
        lo := lm;
      }
      k := k + 1;
      MeasureHalves(row.b - row.a, eps, l);
      FloorDrops(y, 2.0 * (hi - lo - 2.0 * eps) / (l - 2.0 * eps));
    }
    if 0.0 < eps {
      Concludes(f, a, b, eps, l, rows);
    }
    return Success(Outcome(Midpoint(lo, hi), calls, rows));
  }
}
