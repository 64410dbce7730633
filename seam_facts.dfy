/** Properties of the system that `poissonSeamRemoval` assembles. */
module SeamFacts {
  import opened Grid
  import opened RowMajor
  import opened Indexer
  import opened SeamSystem

  // ---------------------------------------------------------------------
  // Shape of the system: row and column indices stay inside the matrix.

  lemma {:induction false} FlattenRowsBelow(rows: seq<Row>)
    ensures forall t :: t in Flatten(rows) ==> t.row < |rows|
  {
    if rows != [] {
      FlattenRowsBelow(rows[..|rows| - 1]);
    }
  }

  /** `b_list.size() == row`, every triplet's row index is below `row` and
      every column index below `idToPoint.size()`: the triplets fit the
      `row` by `idToPoint.size()` matrix the solver is given. */
  lemma SystemFits(S: seq<seq<Sample>>, M: seq<seq<bool>>, K: seq<seq<bool>>, h: nat, w: nat)
    requires Shaped(S, M, K, h, w)
    ensures var sys := SpecSystem(S, M, K, h, w);
      && |sys.b| == sys.rows
      && sys.cols == |SpecIds(S, M, K, h, w)|
      && forall t :: t in sys.triplets ==> t.row < sys.rows && t.col < sys.cols
  {
    var rows := AllRows(S, M, K, h, w);
    var ts := Flatten(rows);
    FlattenRowsBelow(rows);
    var sys := SpecSystem(S, M, K, h, w);
    var ids := SpecIds(S, M, K, h, w);
    CellsInIds(ts);
    forall t | t in sys.triplets ensures t.row < sys.rows && t.col < sys.cols {
      var k :| 0 <= k < |sys.triplets| && sys.triplets[k] == t;
      assert t == Triplet(ts[k].row, IndexOf(ids, ts[k].cell), ts[k].coeff);
      assert ts[k] in ts;
    }
  }

  // ---------------------------------------------------------------------
  // The rows of one cell.

  function Indicator(b: bool): nat { if b then 1 else 0 }

  /** A masked, defined cell emits a gradient row along an axis exactly when
      one of its two neighbours on that axis is in bounds and masked. The
      row has coefficient 1 on each such neighbour and the neighbour count
      on the cell itself; its right-hand side is 0 on a seam cell, undefined
      when a contributing neighbour is, and otherwise the neighbours' sum
      minus count times the cell's own value. */
  lemma GradientRow(S: seq<seq<Sample>>, M: seq<seq<bool>>, K: seq<seq<bool>>, h: nat, w: nat,
                    p: Point, d: Point)
    requires Shaped(S, M, K, h, w) && InBounds(p, h, w) && At(S, p, h, w).Num?
    ensures var f, b := Add(p, d), Sub(p, d);
      var n := Indicator(Masked(M, f, h, w)) + Indicator(Masked(M, b, h, w));
      var rows := AxisRows(S, M, K, h, w, p, d);
      && |rows| == (if n > 0 then 1 else 0)
      && (n > 0 ==>
        && |rows[0].terms| == n + 1
        && rows[0].terms[n] == Term(p, n)
        && (Masked(M, f, h, w) ==> rows[0].terms[0] == Term(f, 1))
        && (Masked(M, b, h, w) ==> rows[0].terms[n - 1] == Term(b, 1))
        && (At(K, p, h, w) ==> rows[0].rhs == Num(0.0))
        && (!At(K, p, h, w) ==>
              if (Masked(M, f, h, w) && At(S, f, h, w).NaN?) || (Masked(M, b, h, w) && At(S, b, h, w).NaN?)
              then rows[0].rhs == NaN
              else rows[0].rhs == Num((if Masked(M, f, h, w) then At(S, f, h, w).v else 0.0)
                                      + (if Masked(M, b, h, w) then At(S, b, h, w).v else 0.0)
                                      - (n as real) * At(S, p, h, w).v)))
  {
    var f, b := Add(p, d), Sub(p, d);
    assert |AxisUnits(M, p, d, h, w)| == Indicator(Masked(M, f, h, w)) + Indicator(Masked(M, b, h, w));
  }

  // ---------------------------------------------------------------------
  // Whole-system facts.

  /** With an all-false mask no rows, triplets or ids are created. */
  lemma EmptyMaskEmptySystem(S: seq<seq<Sample>>, M: seq<seq<bool>>, K: seq<seq<bool>>, h: nat, w: nat)
    requires Shaped(S, M, K, h, w)
    requires forall p :: InBounds(p, h, w) ==> !At(M, p, h, w)
    ensures AllRows(S, M, K, h, w) == []
    ensures SpecIds(S, M, K, h, w) == []
    ensures SpecSystem(S, M, K, h, w) == System(0, 0, [], [])
  {
    var f := Visit(S, M, K, h, w);
    forall p | InBounds(p, h, w) ensures f(p) == [] {
      assert !Masked(M, Add(p, Delta[0]), h, w) && !Masked(M, Add(p, Delta[1]), h, w) &&
             !Masked(M, Add(p, Delta[2]), h, w) && !Masked(M, Add(p, Delta[3]), h, w);
    }
    Empty(f, h, w, h, 0);
    assert Flatten([]) == [];
    assert Dedup(Cells([])) == [];
  }

  /** The seam mask is consulted only on masked cells: two seam masks that
      agree there give the same system. In particular a seam mask disjoint
      from the mask, as `placePatch` builds it, forces no right-hand side
      to 0 and gives the system of an all-false seam mask. */
  lemma SeamOnlyOnMask(S: seq<seq<Sample>>, M: seq<seq<bool>>, K: seq<seq<bool>>, K': seq<seq<bool>>, h: nat, w: nat)
    requires Shaped(S, M, K, h, w) && IsGrid(K', h, w)
    requires forall p :: InBounds(p, h, w) && At(M, p, h, w) ==> At(K, p, h, w) == At(K', p, h, w)
    ensures AllRows(S, M, K, h, w) == AllRows(S, M, K', h, w)
    ensures SpecIds(S, M, K, h, w) == SpecIds(S, M, K', h, w)
    ensures SpecSystem(S, M, K, h, w) == SpecSystem(S, M, K', h, w)
  {
    var f, g := Visit(S, M, K, h, w), Visit(S, M, K', h, w);
    forall p | InBounds(p, h, w) ensures f(p) == g(p) {
      if At(S, p, h, w).Num? && At(M, p, h, w) {
        assert AxisRows(S, M, K, h, w, p, Point(1, 0)) == AxisRows(S, M, K', h, w, p, Point(1, 0));
        assert AxisRows(S, M, K, h, w, p, Point(0, 1)) == AxisRows(S, M, K', h, w, p, Point(0, 1));
      }
    }
    Congruent(f, g, h, w, h, 0);
  }

  /** A cell that is undefined during its own visit emits nothing; an
      unmasked, defined cell emits one row, with coefficient 1 on itself
      and right-hand side its own value, exactly when some in-bounds
      4-neighbour is masked, and nothing otherwise. */
  lemma VisitRows(S: seq<seq<Sample>>, M: seq<seq<bool>>, K: seq<seq<bool>>, h: nat, w: nat, p: Point)
    requires Shaped(S, M, K, h, w) && InBounds(p, h, w)
    ensures At(S, p, h, w).NaN? ==> CellRows(S, M, K, h, w, p) == []
    ensures At(S, p, h, w).Num? && !At(M, p, h, w) ==>
      CellRows(S, M, K, h, w, p) ==
        if exists k :: 0 <= k < 4 && Masked(M, Add(p, Delta[k]), h, w)
        then [Row([Term(p, 1)], At(S, p, h, w))] else []
  {
    if exists k :: 0 <= k < 4 && Masked(M, Add(p, Delta[k]), h, w) {
      var k :| 0 <= k < 4 && Masked(M, Add(p, Delta[k]), h, w);
      assert HasMaskedNeighbour(M, p, h, w);
    } else {
      assert !Masked(M, Add(p, Delta[0]), h, w) && !Masked(M, Add(p, Delta[1]), h, w);
      assert !Masked(M, Add(p, Delta[2]), h, w) && !Masked(M, Add(p, Delta[3]), h, w);
    }
  }

  /** The write-back sets the cell of each id `k` to `x[k]` and leaves
      every cell without an id as it was. */
  lemma WrittenBackExactly(S: seq<seq<Sample>>, ids: seq<Point>, x: seq<Sample>, h: nat, w: nat)
    requires IsGrid(S, h, w) && |x| == |ids| && NoDup(ids)
    ensures forall k :: 0 <= k < |ids| && InBounds(ids[k], h, w) ==> At(WrittenBack(S, ids, x, h, w), ids[k], h, w) == x[k]
    ensures forall c :: InBounds(c, h, w) && c !in ids ==> At(WrittenBack(S, ids, x, h, w), c, h, w) == At(S, c, h, w)
  {
    forall k | 0 <= k < |ids| && InBounds(ids[k], h, w)
      ensures At(WrittenBack(S, ids, x, h, w), ids[k], h, w) == x[k]
    {
      IndexOfNoDup(ids, k);
    }
  }

  /** With an all-false mask the seam removal leaves the field unchanged. */
  lemma EmptyMaskUnchanged(S: seq<seq<Sample>>, M: seq<seq<bool>>, K: seq<seq<bool>>, h: nat, w: nat,
                           solve: System -> seq<Sample>)
    requires Shaped(S, M, K, h, w) && SolverShape(solve)
    requires forall p :: InBounds(p, h, w) ==> !At(M, p, h, w)
    ensures SeamRemoval(S, M, K, h, w, solve) == S
  {
    EmptyMaskEmptySystem(S, M, K, h, w);
    var r := SeamRemoval(S, M, K, h, w, solve);
    forall i, j | 0 <= i < h && 0 <= j < w ensures r[i][j] == S[i][j] {
      assert Point(j, i) !in SpecIds(S, M, K, h, w);
    }
    GridExt(r, S, h, w);
  }

  /** Sum of `coeff * S[cell]` over the terms. */
  function Dot(terms: seq<Term>, S: seq<seq<Sample>>, h: nat, w: nat): real
    requires IsGrid(S, h, w)
    requires forall k :: 0 <= k < |terms| ==> InBounds(terms[k].cell, h, w) && At(S, terms[k].cell, h, w).Num?
  {
    if terms == [] then 0.0
    else Dot(terms[..|terms| - 1], S, h, w) + (terms[|terms| - 1].coeff as real) * At(S, terms[|terms| - 1].cell, h, w).v
  }

  /** Sum of the coefficients of the terms. */
  function CoeffSum(terms: seq<Term>): int {
    if terms == [] then 0 else CoeffSum(terms[..|terms| - 1]) + terms[|terms| - 1].coeff
  }

  /** On a constant field the left side of a row is its coefficient sum
      times the constant. */
  lemma {:induction false} DotFlat(terms: seq<Term>, S: seq<seq<Sample>>, h: nat, w: nat, c: real)
    requires IsGrid(S, h, w)
    requires forall k :: 0 <= k < |terms| ==> InBounds(terms[k].cell, h, w) && At(S, terms[k].cell, h, w) == Num(c)
    ensures Dot(terms, S, h, w) == (CoeffSum(terms) as real) * c
  {
    if terms != [] {
      DotFlat(terms[..|terms| - 1], S, h, w, c);
    }
  }

  /** The unit terms of a block add up to their number. */
  lemma UnitsCoeffSum(M: seq<seq<bool>>, p: Point, d: Point, h: nat, w: nat)
    requires IsGrid(M, h, w)
    ensures CoeffSum(AxisUnits(M, p, d, h, w)) == |AxisUnits(M, p, d, h, w)|
  {
    var units := AxisUnits(M, p, d, h, w);
    if |units| == 2 {
      assert units[..1][..0] == [];
      assert CoeffSum(units[..1]) == 1;
    } else if |units| == 1 {
      assert units[..0] == [];
    }
  }

  /** On a constant field the running sum of a block is its neighbour
      count times the constant. */
  lemma AxisSumFlat(S: seq<seq<Sample>>, M: seq<seq<bool>>, p: Point, d: Point, h: nat, w: nat, c: real)
    requires IsGrid(S, h, w) && IsGrid(M, h, w)
    requires forall q :: InBounds(q, h, w) ==> At(S, q, h, w) == Num(c)
    ensures AxisSum(S, M, p, d, h, w) == Num((|AxisUnits(M, p, d, h, w)| as real) * c)
  {
    if Masked(M, Add(p, d), h, w) {
      assert At(S, Add(p, d), h, w) == Num(c);
    }
    if Masked(M, Sub(p, d), h, w) {
      assert At(S, Sub(p, d), h, w) == Num(c);
    }
  }

  /** On a constant field the gradient row of a masked, non-seam cell has
      right-hand side 0. */
  lemma FlatAxisRow(S: seq<seq<Sample>>, M: seq<seq<bool>>, K: seq<seq<bool>>, h: nat, w: nat,
                    p: Point, d: Point, c: real)
    requires Shaped(S, M, K, h, w) && InBounds(p, h, w)
    requires forall q :: InBounds(q, h, w) ==> At(S, q, h, w) == Num(c)
    requires !At(K, p, h, w) && AxisUnits(M, p, d, h, w) != []
    ensures AxisRows(S, M, K, h, w, p, d) ==
            [Row(AxisUnits(M, p, d, h, w) + [Term(p, |AxisUnits(M, p, d, h, w)|)], Num(0.0))]
  {
    assert At(S, p, h, w) == Num(c);
    AxisSumFlat(S, M, p, d, h, w, c);
  }

  /** On a constant field the left side of a gradient row is twice the
      neighbour count times the constant. */
  lemma FlatAxisDot(S: seq<seq<Sample>>, M: seq<seq<bool>>, h: nat, w: nat, p: Point, d: Point, c: real)
    requires IsGrid(S, h, w) && IsGrid(M, h, w) && InBounds(p, h, w)
    requires forall q :: InBounds(q, h, w) ==> At(S, q, h, w) == Num(c)
    ensures var units := AxisUnits(M, p, d, h, w);
      var t := units + [Term(p, |units|)];
      (forall k :: 0 <= k < |t| ==> InBounds(t[k].cell, h, w) && At(S, t[k].cell, h, w).Num?) &&
      Dot(t, S, h, w) == ((2 * |units|) as real) * c
  {
    var units := AxisUnits(M, p, d, h, w);
    var t := units + [Term(p, |units|)];
    forall k | 0 <= k < |t| ensures InBounds(t[k].cell, h, w) && At(S, t[k].cell, h, w) == Num(c) {
      if k < |units| {
        assert t[k] == units[k];
      }
    }
    DotFlat(t, S, h, w, c);
    assert t[..|t| - 1] == units;
    UnitsCoeffSum(M, p, d, h, w);
  }

  /** A field of constant value `c` satisfies the gradient row of a
      masked, non-seam cell exactly when `c` is 0: with coefficient
      `+count` on the cell (not `-count`) the row's left side is
      `2 * count * c` while its right side is `count * c - count * c`. */
  lemma FlatFieldGradientRow(S: seq<seq<Sample>>, M: seq<seq<bool>>, K: seq<seq<bool>>, h: nat, w: nat,
                             p: Point, d: Point, c: real)
    requires Shaped(S, M, K, h, w) && InBounds(p, h, w)
    requires forall q :: InBounds(q, h, w) ==> At(S, q, h, w) == Num(c)
    requires At(M, p, h, w) && !At(K, p, h, w)
    requires |AxisRows(S, M, K, h, w, p, d)| > 0
    ensures var row := AxisRows(S, M, K, h, w, p, d)[0];
      && row.rhs == Num(0.0)
      && (Dot(row.terms, S, h, w) == row.rhs.v <==> c == 0.0)
  {
    var n := |AxisUnits(M, p, d, h, w)|;
    FlatAxisRow(S, M, K, h, w, p, d, c);
    FlatAxisDot(S, M, h, w, p, d, c);
    assert n == 1 || n == 2;
  }
}


module SeamUnknowns {
  import opened Grid
  import opened Indexer
  import opened SeamSystem
  import opened RowMajor

  /** Some term of `row` is on the unknown of cell `c`. */
  ghost predicate Mentions(row: Row, c: Point) {
    exists k :: 0 <= k < |row.terms| && row.terms[k].cell == c
  }

  /** The visit of `p` emits a row with a term on `c`. */
  ghost predicate VisitMentions(S: seq<seq<Sample>>, M: seq<seq<bool>>, K: seq<seq<bool>>, h: nat, w: nat,
                                p: Point, c: Point)
    requires Shaped(S, M, K, h, w) && InBounds(p, h, w)
  {
    exists k :: 0 <= k < |CellRows(S, M, K, h, w, p)| && Mentions(CellRows(S, M, K, h, w, p)[k], c)
  }

  predicate IsNeighbour(p: Point, c: Point) {
    c == Add(p, Delta[0]) || c == Add(p, Delta[1]) || c == Add(p, Delta[2]) || c == Add(p, Delta[3])
  }

  /** Some in-bounds 4-neighbour of `c` is masked and defined. */
  predicate HasDefinedMaskedNeighbour(S: seq<seq<Sample>>, M: seq<seq<bool>>, c: Point, h: nat, w: nat)
    requires IsGrid(S, h, w) && IsGrid(M, h, w)
  {
    (Masked(M, Add(c, Delta[0]), h, w) && At(S, Add(c, Delta[0]), h, w).Num?) ||
    (Masked(M, Add(c, Delta[1]), h, w) && At(S, Add(c, Delta[1]), h, w).Num?) ||
    (Masked(M, Add(c, Delta[2]), h, w) && At(S, Add(c, Delta[2]), h, w).Num?) ||
    (Masked(M, Add(c, Delta[3]), h, w) && At(S, Add(c, Delta[3]), h, w).Num?)
  }

  /** The cells that receive a variable id: a defined cell with a masked
      4-neighbour (its own visit asks for it), or a masked cell with a
      masked, defined 4-neighbour (whose gradient row asks for it). */
  predicate IsUnknown(S: seq<seq<Sample>>, M: seq<seq<bool>>, c: Point, h: nat, w: nat)
    requires IsGrid(S, h, w) && IsGrid(M, h, w)
  {
    InBounds(c, h, w) &&
    ((At(S, c, h, w).Num? && HasMaskedNeighbour(M, c, h, w)) ||
     (At(M, c, h, w) && HasDefinedMaskedNeighbour(S, M, c, h, w)))
  }

  lemma CellsConcat(a: seq<CellTriplet>, b: seq<CellTriplet>)
    ensures Cells(a + b) == Cells(a) + Cells(b)
  {
  }

  /** The cells of the triplets of one row are the cells its terms name. */
  lemma RowCells(row: Row, r: nat, c: Point)
    ensures c in Cells(RowTriplets(row.terms, r)) <==> Mentions(row, c)
  {
    var cs := Cells(RowTriplets(row.terms, r));
    if c in cs {
      var m :| 0 <= m < |cs| && cs[m] == c;
      assert row.terms[m].cell == c;
    }
    if Mentions(row, c) {
      var m :| 0 <= m < |row.terms| && row.terms[m].cell == c;
      assert cs[m] == c;
    }
  }

  /** A cell is named by the triplets of some rows exactly when one of
      the rows has a term on it. */
  lemma {:induction false} FlattenMentions(rows: seq<Row>, c: Point)
    ensures c in Cells(Flatten(rows)) <==> exists k :: 0 <= k < |rows| && Mentions(rows[k], c)
  {
    if rows != [] {
      var n := |rows|;
      var pre := rows[..n - 1];
      FlattenMentions(pre, c);
      CellsConcat(Flatten(pre), RowTriplets(rows[n - 1].terms, n - 1));
      RowCells(rows[n - 1], n - 1, c);
      if exists k :: 0 <= k < |pre| && Mentions(pre[k], c) {
        var k :| 0 <= k < |pre| && Mentions(pre[k], c);
        assert rows[k] == pre[k];
      }
      if exists k :: 0 <= k < n && Mentions(rows[k], c) {
        var k :| 0 <= k < n && Mentions(rows[k], c);
        if k < n - 1 {
          assert pre[k] == rows[k];
        }
      }
    }
  }

  /** Some row of `rows` has a term on `c`. */
  ghost predicate AnyMentions(rows: seq<Row>, c: Point) {
    exists k :: 0 <= k < |rows| && Mentions(rows[k], c)
  }

  lemma ConcatMentions(a: seq<Row>, b: seq<Row>, c: Point)
    ensures AnyMentions(a + b, c) <==> AnyMentions(a, c) || AnyMentions(b, c)
  {
    if AnyMentions(a + b, c) {
      var k :| 0 <= k < |a + b| && Mentions((a + b)[k], c);
      if k < |a| { assert (a + b)[k] == a[k]; } else { assert (a + b)[k] == b[k - |a|]; }
    }
    if AnyMentions(a, c) {
      var k :| 0 <= k < |a| && Mentions(a[k], c);
      assert (a + b)[k] == a[k];
    }
    if AnyMentions(b, c) {
      var k :| 0 <= k < |b| && Mentions(b[k], c);
      assert (a + b)[|a| + k] == b[k];
    }
  }

  /** What the visit of a masked, defined cell asks an id for. */
  lemma MaskedVisitMentions(S: seq<seq<Sample>>, M: seq<seq<bool>>, K: seq<seq<bool>>, h: nat, w: nat,
                            p: Point, c: Point)
    requires Shaped(S, M, K, h, w) && InBounds(p, h, w) && At(S, p, h, w).Num? && At(M, p, h, w)
    ensures AnyMentions(CellRows(S, M, K, h, w, p), c) <==>
      (c == p && HasMaskedNeighbour(M, p, h, w)) || (IsNeighbour(p, c) && Masked(M, c, h, w))
  {
    var hx := AxisRows(S, M, K, h, w, p, Point(1, 0));
    var vy := AxisRows(S, M, K, h, w, p, Point(0, 1));
    assert CellRows(S, M, K, h, w, p) == hx + vy;
    ConcatMentions(hx, vy, c);
    AxisMentions(S, M, K, h, w, p, Point(1, 0), c);
    AxisMentions(S, M, K, h, w, p, Point(0, 1), c);
    assert Sub(p, Point(1, 0)) == Add(p, Delta[2]) && Sub(p, Point(0, 1)) == Add(p, Delta[3]);
  }

  /** What the visit of `p` asks an id for, in closed form. */
  lemma VisitMentionsExactly(S: seq<seq<Sample>>, M: seq<seq<bool>>, K: seq<seq<bool>>, h: nat, w: nat,
                             p: Point, c: Point)
    requires Shaped(S, M, K, h, w) && InBounds(p, h, w)
    ensures VisitMentions(S, M, K, h, w, p, c) <==>
      At(S, p, h, w).Num? &&
      ((c == p && HasMaskedNeighbour(M, p, h, w)) ||
       (At(M, p, h, w) && IsNeighbour(p, c) && Masked(M, c, h, w)))
  {
    var cr := CellRows(S, M, K, h, w, p);
    assert VisitMentions(S, M, K, h, w, p, c) == AnyMentions(cr, c);
    if At(S, p, h, w).Num? && At(M, p, h, w) {
      MaskedVisitMentions(S, M, K, h, w, p, c);
    } else if At(S, p, h, w).Num? && HasMaskedNeighbour(M, p, h, w) {
      assert cr == [Row([Term(p, 1)], At(S, p, h, w))];
      assert cr[0].terms[0].cell == p;
      assert Mentions(cr[0], p);
    }
  }

  /** The rows of the `dx`/`dy` block of `p` name `p` and its masked
      neighbours on the axis, and only when there is such a neighbour. */
  lemma AxisMentions(S: seq<seq<Sample>>, M: seq<seq<bool>>, K: seq<seq<bool>>, h: nat, w: nat,
                     p: Point, d: Point, c: Point)
    requires Shaped(S, M, K, h, w) && InBounds(p, h, w) && At(S, p, h, w).Num?
    ensures var rows := AxisRows(S, M, K, h, w, p, d);
      (exists k :: 0 <= k < |rows| && Mentions(rows[k], c)) <==>
      ((Masked(M, Add(p, d), h, w) || Masked(M, Sub(p, d), h, w)) &&
       (c == p || (c == Add(p, d) && Masked(M, c, h, w)) || (c == Sub(p, d) && Masked(M, c, h, w))))
  {
    var rows := AxisRows(S, M, K, h, w, p, d);
    var units := AxisUnits(M, p, d, h, w);
    if units != [] {
      var terms := rows[0].terms;
      assert terms == units + [Term(p, |units|)];
      assert terms[|units|].cell == p;
      assert Mentions(rows[0], p);
      if Mentions(rows[0], c) {
        var m :| 0 <= m < |terms| && terms[m].cell == c;
        if m < |units| { assert c == units[m].cell; }
      }
      if c != p && ((c == Add(p, d) && Masked(M, c, h, w)) || (c == Sub(p, d) && Masked(M, c, h, w))) {
        var m :| 0 <= m < |units| && units[m].cell == c;
        assert terms[m].cell == c;
      }
    }
  }

  /** The variable ids are exactly the unknowns: every defined cell with a
      masked 4-neighbour, and every masked cell with a masked, defined
      4-neighbour. An isolated masked cell and an undefined cell without
      such a neighbour get none. */
  lemma UnknownsExactly(S: seq<seq<Sample>>, M: seq<seq<bool>>, K: seq<seq<bool>>, h: nat, w: nat, c: Point)
    requires Shaped(S, M, K, h, w)
    ensures c in SpecIds(S, M, K, h, w) <==> IsUnknown(S, M, c, h, w)
  {
    if c in SpecIds(S, M, K, h, w) { IdsAreUnknowns(S, M, K, h, w, c); }
    if IsUnknown(S, M, c, h, w) { UnknownsGetIds(S, M, K, h, w, c); }
  }

  lemma IdsAreUnknowns(S: seq<seq<Sample>>, M: seq<seq<bool>>, K: seq<seq<bool>>, h: nat, w: nat, c: Point)
    requires Shaped(S, M, K, h, w) && c in SpecIds(S, M, K, h, w)
    ensures IsUnknown(S, M, c, h, w)
  {
    var rows := AllRows(S, M, K, h, w);
    FlattenMentions(rows, c);
    var k :| 0 <= k < |rows| && Mentions(rows[k], c);
    var p := Origin(Visit(S, M, K, h, w), h, w, h, 0, k);
    var cr := CellRows(S, M, K, h, w, p);
    var m :| 0 <= m < |cr| && cr[m] == rows[k];
    assert VisitMentions(S, M, K, h, w, p, c);
    VisitMentionsExactly(S, M, K, h, w, p, c);
    NeighbourSymmetric(p, c);
    if c != p {
      NeighbourDefined(S, M, c, p, h, w);
    }
  }

  lemma UnknownsGetIds(S: seq<seq<Sample>>, M: seq<seq<bool>>, K: seq<seq<bool>>, h: nat, w: nat, c: Point)
    requires Shaped(S, M, K, h, w) && IsUnknown(S, M, c, h, w)
    ensures c in SpecIds(S, M, K, h, w)
  {
    var rows := AllRows(S, M, K, h, w);
    var p: Point;
    if At(S, c, h, w).Num? && HasMaskedNeighbour(M, c, h, w) {
      p := c;
    } else {
      p := DefinedNeighbour(S, M, c, h, w);
      NeighbourSymmetric(c, p);
    }
    VisitMentionsExactly(S, M, K, h, w, p, c);
    var cr := CellRows(S, M, K, h, w, p);
    var m :| 0 <= m < |cr| && Mentions(cr[m], c);
    Included(Visit(S, M, K, h, w), h, w, h, 0, p, cr[m]);
    var k :| 0 <= k < |rows| && rows[k] == cr[m];
    FlattenMentions(rows, c);
  }

  lemma DefinedNeighbour(S: seq<seq<Sample>>, M: seq<seq<bool>>, c: Point, h: nat, w: nat) returns (p: Point)
    requires IsGrid(S, h, w) && IsGrid(M, h, w) && HasDefinedMaskedNeighbour(S, M, c, h, w)
    ensures IsNeighbour(c, p) && Masked(M, p, h, w) && At(S, p, h, w).Num?
  {
    if Masked(M, Add(c, Delta[0]), h, w) && At(S, Add(c, Delta[0]), h, w).Num? {
      p := Add(c, Delta[0]);
    } else if Masked(M, Add(c, Delta[1]), h, w) && At(S, Add(c, Delta[1]), h, w).Num? {
      p := Add(c, Delta[1]);
    } else if Masked(M, Add(c, Delta[2]), h, w) && At(S, Add(c, Delta[2]), h, w).Num? {
      p := Add(c, Delta[2]);
    } else {
      p := Add(c, Delta[3]);
    }
  }

  lemma NeighbourDefined(S: seq<seq<Sample>>, M: seq<seq<bool>>, c: Point, p: Point, h: nat, w: nat)
    requires IsGrid(S, h, w) && IsGrid(M, h, w)
    requires IsNeighbour(c, p) && Masked(M, p, h, w) && At(S, p, h, w).Num?
    ensures HasDefinedMaskedNeighbour(S, M, c, h, w)
  {
  }

  lemma NeighbourSymmetric(p: Point, c: Point)
    ensures IsNeighbour(p, c) <==> IsNeighbour(c, p)
  {
  }
}
