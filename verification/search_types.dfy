/** Values shared by the three interval-reduction searches: the rows of the
    iteration table, the outcome of a search, and the precondition failures. */
module SearchTypes {

  /** One row of the iteration table: the pass number `k`, the bracket
      `[a, b]`, the two probe points and the objective values held for them. */
  datatype Row = Row(k: nat, a: real, b: real, lm: real, mu: real, flm: real, fmu: real)

  /** What a search returns: the estimate of the minimum point, the number of
      objective calls made, and the table rows in the order they were added. */
  datatype Outcome = Outcome(point: real, calls: nat, trace: seq<Row>)

  /** One constructor per precondition check of the source. `NegativeEps` and
      `NegativeLength` carry the source's wording, although the Fibonacci
      search also raises them for a zero `eps` or `l`. */
  datatype SearchError =
    | NegativeEps
    | NegativeLength
    | InvalidInterval(a: real, b: real)
    | LengthNotAboveTwiceEps

  /** A search either completes with an outcome or stops at a failed check. */
  datatype Result<+T> = Success(value: T) | Failure(error: SearchError)

  function Midpoint(a: real, b: real): real {
    (a + b) / 2.0
  }

  /** The values held in a row are the objective at the row's probe points. */
  predicate Cached(f: real -> real, r: Row) {
    r.flm == f(r.lm) && r.fmu == f(r.mu)
  }

  predicate AllCached(f: real -> real, rows: seq<Row>) {
    forall i :: 0 <= i < |rows| ==> Cached(f, rows[i])
  }

  /** Rows are numbered 1, 2, 3, ... in the order they were added. */
  predicate Numbered(rows: seq<Row>) {
    forall i :: 0 <= i < |rows| ==> rows[i].k == i + 1
  }

  /** Every recorded bracket is proper and lies inside `[a0, b0]`. */
  predicate Inside(a0: real, b0: real, rows: seq<Row>) {
    forall i :: 0 <= i < |rows| ==> a0 <= rows[i].a < rows[i].b <= b0
  }

  /** The step shared by the golden-section and the Fibonacci search: keep
      `[lm, b]` when `f(lm) > f(mu)`, otherwise keep `[a, mu]`. */
  function SectionNext(r: Row): (real, real) {
    if r.flm > r.fmu then (r.lm, r.b) else (r.a, r.mu)
  }

  /** One end of the bracket stays, the other moves to a probe, and with
      ordered probes the kept part holds the probe with the smaller value
      (the left one on a tie). */
  lemma SectionNextShape(r: Row)
    ensures SectionNext(r).0 == r.a || SectionNext(r).1 == r.b
    ensures r.a <= r.lm <= r.mu <= r.b ==>
              && (r.fmu < r.flm ==> SectionNext(r).0 <= r.mu <= SectionNext(r).1)
              && (r.flm <= r.fmu ==> SectionNext(r).0 <= r.lm <= SectionNext(r).1)
  {
  }

  /** Consecutive rows are linked by `next`: each row's bracket is what the
      step applied to the row before it kept. */
  predicate Chained(rows: seq<Row>, next: Row -> (real, real)) {
    forall i :: 0 <= i < |rows| - 1 ==> (rows[i + 1].a, rows[i + 1].b) == next(rows[i])
  }

  // Appending a row keeps each of the per-row and consecutive-row
  // properties above, given that the new row has it.

  lemma AppendNumbered(rows: seq<Row>, row: Row)
    requires Numbered(rows) && row.k == |rows| + 1
    ensures Numbered(rows + [row])
  {
    var rows' := rows + [row];
    forall i | 0 <= i < |rows'|
      ensures rows'[i].k == i + 1
    {
      if i < |rows| {
        assert rows'[i] == rows[i];
      }
    }
  }

  lemma AppendCached(f: real -> real, rows: seq<Row>, row: Row)
    requires AllCached(f, rows) && Cached(f, row)
    ensures AllCached(f, rows + [row])
  {
    var rows' := rows + [row];
    forall i | 0 <= i < |rows'|
      ensures Cached(f, rows'[i])
    {
      if i < |rows| {
        assert rows'[i] == rows[i];
      }
    }
  }

  lemma AppendInside(a0: real, b0: real, rows: seq<Row>, row: Row)
    requires Inside(a0, b0, rows) && a0 <= row.a < row.b <= b0
    ensures Inside(a0, b0, rows + [row])
  {
    var rows' := rows + [row];
    forall i | 0 <= i < |rows'|
      ensures a0 <= rows'[i].a < rows'[i].b <= b0
    {
      if i < |rows| {
        assert rows'[i] == rows[i];
      }
    }
  }

  lemma AppendChained(rows: seq<Row>, row: Row, next: Row -> (real, real))
    requires Chained(rows, next)
    requires |rows| > 0 ==> (row.a, row.b) == next(rows[|rows| - 1])
    ensures Chained(rows + [row], next)
  {
    var rows' := rows + [row];
    forall i | 0 <= i < |rows'| - 1
      ensures (rows'[i + 1].a, rows'[i + 1].b) == next(rows'[i])
    {
      assert rows'[i] == rows[i];
      if i < |rows| - 1 {
        assert rows'[i + 1] == rows[i + 1];
      }
    }
  }

  /** `f` strictly decreases up to `xs` and strictly increases from `xs` on,
      so `xs` is its one minimum point. */
  ghost predicate Unimodal(f: real -> real, xs: real) {
    && (forall x, y :: x < y <= xs ==> f(x) > f(y))
    && (forall x, y :: xs <= x < y ==> f(x) < f(y))
  }

  /** With the probes in order and their true values held, the step shared by
      the golden-section and Fibonacci searches keeps the minimum point of a
      unimodal objective in the bracket. */
  lemma SectionKeeps(f: real -> real, xs: real, r: Row)
    requires Unimodal(f, xs) && Cached(f, r) && r.lm < r.mu && r.a <= xs <= r.b
    ensures SectionNext(r).0 <= xs <= SectionNext(r).1
  {
  }

  /** A real-valued loop measure whose floor is a termination metric: when
      a pass lowers the measure by at least one, its floor drops. */
  lemma FloorDrops(y: real, y': real)
    requires y' <= y - 1.0
    ensures y'.Floor < y.Floor
  {
  }
}
