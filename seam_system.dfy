/** What `poissonSeamRemoval` asks of the sparse least-squares solver:
    the rows each grid cell contributes, in terms of cells, and the
    integer-indexed system (rows, columns, triplets, right-hand side) that
    results once cells are numbered by the grid indexer. */
module SeamSystem {
  import opened Grid
  import opened Indexer
  import opened RowMajor

  /** A single-precision sample of the height field; `NaN` is "no data". */
  datatype Sample = NaN | Num(v: real)

  function Plus(a: Sample, b: Sample): Sample {
    if a.NaN? || b.NaN? then NaN else Num(a.v + b.v)
  }

  /** `a -= n * v` on a sample. */
  function MinusTimes(a: Sample, n: nat, v: real): Sample {
    Plus(a, Num(-(n as real) * v))
  }

  /** One coefficient of one row, on the unknown of a cell. */
  datatype Term = Term(cell: Point, coeff: int)

  /** One row of the overdetermined system: `sum coeff * x(cell) = rhs`. */
  datatype Row = Row(terms: seq<Term>, rhs: Sample)

  /** A triplet `(row, cell, value)` before cells are numbered. */
  datatype CellTriplet = CellTriplet(row: nat, cell: Point, coeff: int)

  /** An Eigen triplet `(row, col, value)`. */
  datatype Triplet = Triplet(row: nat, col: nat, value: int)

  /** The sparse system handed to the solver: a `rows` by `cols` matrix
      given by its triplets, and the right-hand side. */
  datatype System = System(rows: nat, cols: nat, triplets: seq<Triplet>, b: seq<Sample>)

  /** The three fields the solver reads, all of extent `h` by `w`. */
  ghost predicate Shaped(S: seq<seq<Sample>>, M: seq<seq<bool>>, K: seq<seq<bool>>, h: nat, w: nat) {
    IsGrid(S, h, w) && IsGrid(M, h, w) && IsGrid(K, h, w)
  }

  /** `bound.contains(q) && mask(q)`. */
  predicate Masked(M: seq<seq<bool>>, q: Point, h: nat, w: nat)
    requires IsGrid(M, h, w)
  {
    InBounds(q, h, w) && M[q.y][q.x]
  }

  /** Some in-bounds 4-neighbour of `p` is masked. */
  predicate HasMaskedNeighbour(M: seq<seq<bool>>, p: Point, h: nat, w: nat)
    requires IsGrid(M, h, w)
  {
    Masked(M, Add(p, Delta[0]), h, w) || Masked(M, Add(p, Delta[1]), h, w) ||
    Masked(M, Add(p, Delta[2]), h, w) || Masked(M, Add(p, Delta[3]), h, w)
  }

  /** The unit terms of the `dx`/`dy` block of `p`: one on each of `p + d`
      and `p - d`, in that order, that is in bounds and masked. */
  function AxisUnits(M: seq<seq<bool>>, p: Point, d: Point, h: nat, w: nat): seq<Term>
    requires IsGrid(M, h, w)
  {
    (if Masked(M, Add(p, d), h, w) then [Term(Add(p, d), 1)] else []) +
    (if Masked(M, Sub(p, d), h, w) then [Term(Sub(p, d), 1)] else [])
  }

  /** The running sum `dx`/`dy` before `count * pvalue` is subtracted: from
      0, the sample of each contributing neighbour added in turn, so that an
      undefined neighbour makes it undefined. */
  function AxisSum(S: seq<seq<Sample>>, M: seq<seq<bool>>, p: Point, d: Point, h: nat, w: nat): Sample
    requires IsGrid(S, h, w) && IsGrid(M, h, w)
  {
    var s1 := if Masked(M, Add(p, d), h, w) then Plus(Num(0.0), At(S, Add(p, d), h, w)) else Num(0.0);
    if Masked(M, Sub(p, d), h, w) then Plus(s1, At(S, Sub(p, d), h, w)) else s1
  }

  /** The gradient row of masked cell `p` along axis `d`: coefficient 1 on
      each masked neighbour along the axis and `count` on `p` itself; the
      right-hand side is the neighbours' sum minus `count * S[p]`, forced
      to 0 where the seam mask is set; no row when no neighbour is masked. */
  function AxisRows(S: seq<seq<Sample>>, M: seq<seq<bool>>, K: seq<seq<bool>>, h: nat, w: nat,
                    p: Point, d: Point): seq<Row>
    requires Shaped(S, M, K, h, w) && InBounds(p, h, w) && At(S, p, h, w).Num?
  {
    var units := AxisUnits(M, p, d, h, w);
    if units == [] then []
    else
      var rhs := if At(K, p, h, w) then Num(0.0)
                 else MinusTimes(AxisSum(S, M, p, d, h, w), |units|, At(S, p, h, w).v);
      [Row(units + [Term(p, |units|)], rhs)]
  }

  /** The rows contributed by the visit of cell `p`. */
  function CellRows(S: seq<seq<Sample>>, M: seq<seq<bool>>, K: seq<seq<bool>>, h: nat, w: nat,
                    p: Point): seq<Row>
    requires Shaped(S, M, K, h, w) && InBounds(p, h, w)
  {
    if At(S, p, h, w).NaN? then []
    else if At(M, p, h, w) then AxisRows(S, M, K, h, w, p, Point(1, 0)) + AxisRows(S, M, K, h, w, p, Point(0, 1))
    else if HasMaskedNeighbour(M, p, h, w) then [Row([Term(p, 1)], At(S, p, h, w))]
    else []
  }

  /** The rows of each visit, as a total map over cells. */
  ghost function Visit(S: seq<seq<Sample>>, M: seq<seq<bool>>, K: seq<seq<bool>>, h: nat, w: nat): Point -> seq<Row> {
    p => if Shaped(S, M, K, h, w) && InBounds(p, h, w) then CellRows(S, M, K, h, w, p) else []
  }

  /** All rows, in the row-major order in which the cells are visited. */
  ghost function AllRows(S: seq<seq<Sample>>, M: seq<seq<bool>>, K: seq<seq<bool>>, h: nat, w: nat): seq<Row> {
    Prefix(Visit(S, M, K, h, w), h, w, h, 0)
  }

  /** The triplets of the terms of one row, numbered `r`. */
  function RowTriplets(terms: seq<Term>, r: nat): seq<CellTriplet>
  {
    seq(|terms|, k requires 0 <= k < |terms| =>
      CellTriplet(r, terms[k].cell, terms[k].coeff))
  }

  /** The triplet list of a sequence of rows numbered from 0. */
  function Flatten(rows: seq<Row>): seq<CellTriplet> {
    if rows == [] then []
    else Flatten(rows[..|rows| - 1]) + RowTriplets(rows[|rows| - 1].terms, |rows| - 1)
  }

  function Rhs(rows: seq<Row>): seq<Sample>
  {
    seq(|rows|, k requires 0 <= k < |rows| => rows[k].rhs)
  }

  function Cells(ts: seq<CellTriplet>): seq<Point>
  {
    seq(|ts|, k requires 0 <= k < |ts| => ts[k].cell)
  }

  /** The variable ids: every cell named by a triplet, in first-touch order. */
  ghost function SpecIds(S: seq<seq<Sample>>, M: seq<seq<bool>>, K: seq<seq<bool>>, h: nat, w: nat): seq<Point>
    requires Shaped(S, M, K, h, w)
  {
    Dedup(Cells(Flatten(AllRows(S, M, K, h, w))))
  }

  /** Numbers the cells of the triplets by their position in `ids`. */
  function Encode(ts: seq<CellTriplet>, ids: seq<Point>): (es: seq<Triplet>)
    requires forall k :: 0 <= k < |ts| ==> ts[k].cell in ids
    ensures |es| == |ts|
  {
    seq(|ts|, k requires 0 <= k < |ts| && ts[k].cell in ids =>
      Triplet(ts[k].row, IndexOf(ids, ts[k].cell), ts[k].coeff))
  }

  lemma CellsInIds(ts: seq<CellTriplet>)
    ensures forall k :: 0 <= k < |ts| ==> ts[k].cell in Dedup(Cells(ts))
  {
    forall k | 0 <= k < |ts| ensures ts[k].cell in Dedup(Cells(ts)) {
      assert Cells(ts)[k] == ts[k].cell;
    }
  }

  /** The system `poissonSeamRemoval` builds from its three fields. */
  ghost function SpecSystem(S: seq<seq<Sample>>, M: seq<seq<bool>>, K: seq<seq<bool>>, h: nat, w: nat): System
    requires Shaped(S, M, K, h, w)
  {
    var rows := AllRows(S, M, K, h, w);
    var ts := Flatten(rows);
    CellsInIds(ts);
    System(|rows|, |SpecIds(S, M, K, h, w)|, Encode(ts, SpecIds(S, M, K, h, w)), Rhs(rows))
  }

  /** The solver returns one value per column, as Eigen sizes `x`. */
  ghost predicate SolverShape(solve: System -> seq<Sample>) {
    forall sys :: |solve(sys)| == sys.cols
  }

  /** `S` with each cell `ids[i]` overwritten by `x[i]`. */
  ghost function WrittenBack(S: seq<seq<Sample>>, ids: seq<Point>, x: seq<Sample>, h: nat, w: nat): (r: seq<seq<Sample>>)
    requires IsGrid(S, h, w) && |x| == |ids|
    ensures IsGrid(r, h, w)
  {
    seq(h, i requires 0 <= i < h => seq(w, j requires 0 <= j < w =>
      if Point(j, i) in ids then x[IndexOf(ids, Point(j, i))] else S[i][j]))
  }

  /** The field after `poissonSeamRemoval(S, M, K)` with solver `solve`. */
  ghost function SeamRemoval(S: seq<seq<Sample>>, M: seq<seq<bool>>, K: seq<seq<bool>>, h: nat, w: nat,
                             solve: System -> seq<Sample>): (r: seq<seq<Sample>>)
    requires Shaped(S, M, K, h, w) && SolverShape(solve)
    ensures IsGrid(r, h, w)
  {
    var x := solve(SpecSystem(S, M, K, h, w));
    assert |x| == |SpecIds(S, M, K, h, w)|;
    WrittenBack(S, SpecIds(S, M, K, h, w), x, h, w)
  }
}
