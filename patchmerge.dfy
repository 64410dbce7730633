/** The imperative core of `poissonSeamRemoval`: the row-major assembly
    loop that fills the grid indexer, the triplet list, the right-hand side
    and the row counter, and the loop that writes the solution back. Each
    method is proved against the value-level system of `SeamSystem`. */
module SeamAssembly {
  import opened Grid
  import opened RowMajor
  import opened Indexer
  import opened SeamSystem

  /** The emitted triplets, read through the ids, are the cell triplets `spec`. */
  ghost predicate Decodes(ts: seq<Triplet>, ids: seq<Point>, spec: seq<CellTriplet>) {
    |ts| == |spec| &&
    forall k :: 0 <= k < |ts| ==>
      ts[k].row == spec[k].row && ts[k].value == spec[k].coeff &&
      ts[k].col < |ids| && ids[ts[k].col] == spec[k].cell
  }

  /** `triplet_list`, `b_list`, `row` and the indexer are those of the rows
      `rows`: one right-hand side per row, the triplets of the rows in order,
      and an id for each cell in the order the triplets first name it. */
  ghost predicate Assembled(ix: GridIndexer, ts: seq<Triplet>, b: seq<Sample>, row: nat, rows: seq<Row>)
    reads ix, ix.pointToId
  {
    && ix.Valid()
    && row == |rows| && b == Rhs(rows)
    && Decodes(ts, ix.idToPoint, Flatten(rows))
    && ix.idToPoint == Dedup(Cells(Flatten(rows)))
  }

  /** The three input matrices and the indexer share one extent, and
      `gS`, `gM`, `gK` are the matrices' contents. */
  ghost predicate Fields(ix: GridIndexer, S: array2<Sample>, M: array2<bool>, K: array2<bool>,
                         gS: seq<seq<Sample>>, gM: seq<seq<bool>>, gK: seq<seq<bool>>)
    reads S, M, K
  {
    && S.Length0 == ix.h && S.Length1 == ix.w
    && M.Length0 == ix.h && M.Length1 == ix.w
    && K.Length0 == ix.h && K.Length1 == ix.w
    && Views(S, gS) && Views(M, gM) && Views(K, gK)
  }

  lemma FlattenSnoc(rows: seq<Row>, r: Row)
    ensures Flatten(rows + [r]) == Flatten(rows) + RowTriplets(r.terms, |rows|)
  {
    assert (rows + [r])[..|rows|] == rows;
  }

  lemma RhsSnoc(rows: seq<Row>, r: Row)
    ensures Rhs(rows + [r]) == Rhs(rows) + [r.rhs]
  {
  }

  lemma TermSnoc(pre: seq<CellTriplet>, terms: seq<Term>, t: Term, r: nat)
    ensures pre + RowTriplets(terms + [t], r) == pre + RowTriplets(terms, r) + [CellTriplet(r, t.cell, t.coeff)]
  {
    assert RowTriplets(terms + [t], r) == RowTriplets(terms, r) + [CellTriplet(r, t.cell, t.coeff)];
  }

  /** One more triplet, numbered through a longer id list that names its cell. */
  lemma DecodesSnoc(ts: seq<Triplet>, ids: seq<Point>, spec: seq<CellTriplet>, ids': seq<Point>, t: CellTriplet, id: nat)
    requires Decodes(ts, ids, spec) && ids <= ids' && id < |ids'| && ids'[id] == t.cell
    ensures Decodes(ts + [Triplet(t.row, id, t.coeff)], ids', spec + [t])
  {
  }

  /** One more triplet adds its cell to the first-touch list exactly when
      the cell is new. */
  lemma FirstTouch(spec: seq<CellTriplet>, t: CellTriplet)
    ensures t.cell in Dedup(Cells(spec)) ==> Dedup(Cells(spec + [t])) == Dedup(Cells(spec))
    ensures t.cell !in Dedup(Cells(spec)) ==> Dedup(Cells(spec + [t])) == Dedup(Cells(spec)) + [t.cell]
  {
    assert Cells(spec + [t]) == Cells(spec) + [t.cell];
    DedupSnoc(Cells(spec), t.cell);
  }

  /** `triplet_list.emplace_back(row, getid(q), v)`. */
  method EmitTerm(ix: GridIndexer, ts: seq<Triplet>, ghost spec: seq<CellTriplet>, row: nat, q: Point, v: int)
    returns (ts': seq<Triplet>)
    requires ix.Valid() && InBounds(q, ix.h, ix.w)
    requires Decodes(ts, ix.idToPoint, spec) && ix.idToPoint == Dedup(Cells(spec))
    modifies ix, ix.pointToId
    ensures ix.Valid()
    ensures Decodes(ts', ix.idToPoint, spec + [CellTriplet(row, q, v)])
    ensures ix.idToPoint == Dedup(Cells(spec + [CellTriplet(row, q, v)]))
  {
    ghost var ids := ix.idToPoint;
    var id := ix.GetId(q);
    ts' := ts + [Triplet(row, id, v)];
    assert ids <= ix.idToPoint;
    DecodesSnoc(ts, ids, spec, ix.idToPoint, CellTriplet(row, q, v), id);
    FirstTouch(spec, CellTriplet(row, q, v));
  }

  /** `triplet_list`, read through the ids, holds `spec`, every cell of
      which has an id, first-touch first. */
  ghost predicate Emitted(ix: GridIndexer, ts: seq<Triplet>, spec: seq<CellTriplet>)
    reads ix, ix.pointToId
  {
    ix.Valid() && Decodes(ts, ix.idToPoint, spec) && ix.idToPoint == Dedup(Cells(spec))
  }

  /** One neighbour test of the `dx`/`dy` block: when `q` is in bounds and
      masked, a unit term on `q` is emitted and `q`'s sample is added to the
      running sum. */
  method EmitNeighbour(ix: GridIndexer, S: array2<Sample>, M: array2<bool>,
                       ghost gS: seq<seq<Sample>>, ghost gM: seq<seq<bool>>, q: Point, row: nat,
                       ts: seq<Triplet>, ghost pre: seq<CellTriplet>, ghost terms: seq<Term>,
                       acc: Sample, count: nat)
    returns (ts': seq<Triplet>, ghost terms': seq<Term>, acc': Sample, count': nat)
    requires S.Length0 == M.Length0 == ix.h && S.Length1 == M.Length1 == ix.w
    requires Views(S, gS) && Views(M, gM)
    requires Emitted(ix, ts, pre + RowTriplets(terms, row)) && count == |terms|
    modifies ix, ix.pointToId
    ensures Emitted(ix, ts', pre + RowTriplets(terms', row)) && count' == |terms'|
    ensures terms' == terms + (if Masked(gM, q, ix.h, ix.w) then [Term(q, 1)] else [])
    ensures acc' == if Masked(gM, q, ix.h, ix.w) then Plus(acc, At(gS, q, ix.h, ix.w)) else acc
  {
    ts', terms', acc', count' := ts, terms, acc, count;
    if InBounds(q, ix.h, ix.w) && M[q.y, q.x] {
      ts' := EmitTerm(ix, ts', pre + RowTriplets(terms, row), row, q, 1);
      TermSnoc(pre, terms, Term(q, 1), row);
      terms' := terms + [Term(q, 1)];
      acc' := Plus(acc, S[q.y, q.x]);
      count' := count + 1;
    } else {
      assert terms + [] == terms;
    }
  }

  /** The rows after one more row `r`: its triplets follow, numbered
      `|rows|`, and its right-hand side follows. */
  lemma RowAppended(rows: seq<Row>, r: Row)
    ensures Flatten(rows + [r]) == Flatten(rows) + RowTriplets(r.terms, |rows|)
    ensures Rhs(rows + [r]) == Rhs(rows) + [r.rhs]
  {
    FlattenSnoc(rows, r);
    RhsSnoc(rows, r);
  }

  /** The two neighbour tests, `p + d` then `p - d`, give the unit terms
      and the running sum of the block. */
  lemma AxisParts(S: seq<seq<Sample>>, M: seq<seq<bool>>, h: nat, w: nat, p: Point, d: Point,
                  t1: seq<Term>, a1: Sample, t2: seq<Term>, a2: Sample)
    requires IsGrid(S, h, w) && IsGrid(M, h, w)
    requires t1 == [] + (if Masked(M, Add(p, d), h, w) then [Term(Add(p, d), 1)] else [])
    requires a1 == if Masked(M, Add(p, d), h, w) then Plus(Num(0.0), At(S, Add(p, d), h, w)) else Num(0.0)
    requires t2 == t1 + (if Masked(M, Sub(p, d), h, w) then [Term(Sub(p, d), 1)] else [])
    requires a2 == if Masked(M, Sub(p, d), h, w) then Plus(a1, At(S, Sub(p, d), h, w)) else a1
    ensures t2 == AxisUnits(M, p, d, h, w) && a2 == AxisSum(S, M, p, d, h, w)
  {
    assert t1 == (if Masked(M, Add(p, d), h, w) then [Term(Add(p, d), 1)] else []);
  }

  /** The block as computed, term by term and sum by sum, is `AxisRows`. */
  lemma AxisRowComputed(S: seq<seq<Sample>>, M: seq<seq<bool>>, K: seq<seq<bool>>, h: nat, w: nat, p: Point, d: Point,
                        units: seq<Term>, sum: Sample, rest: Sample, rhs: Sample)
    requires Shaped(S, M, K, h, w) && InBounds(p, h, w) && At(S, p, h, w).Num?
    requires units == AxisUnits(M, p, d, h, w) && units != [] && sum == AxisSum(S, M, p, d, h, w)
    requires rest == MinusTimes(sum, |units|, At(S, p, h, w).v)
    requires rhs == if At(K, p, h, w) then Num(0.0) else rest
    ensures AxisRows(S, M, K, h, w, p, d) == [Row(units + [Term(p, |units|)], rhs)]
  {
  }

  /** The `dx` block (`d == (1, 0)`) or the `dy` block (`d == (0, 1)`) of a
      masked, defined cell `p`. */
  method EmitAxis(ix: GridIndexer, S: array2<Sample>, M: array2<bool>, K: array2<bool>,
                  ghost gS: seq<seq<Sample>>, ghost gM: seq<seq<bool>>, ghost gK: seq<seq<bool>>, p: Point, d: Point,
                  ts: seq<Triplet>, b: seq<Sample>, row: nat, ghost rows: seq<Row>)
    returns (ts': seq<Triplet>, b': seq<Sample>, row': nat)
    requires Fields(ix, S, M, K, gS, gM, gK) && InBounds(p, ix.h, ix.w) && S[p.y, p.x].Num?
    requires Assembled(ix, ts, b, row, rows)
    modifies ix, ix.pointToId
    ensures Assembled(ix, ts', b', row', rows + AxisRows(gS, gM, gK, ix.h, ix.w, p, d))
  {
    ghost var h, w := ix.h, ix.w;
    ghost var pre := Flatten(rows);
    assert pre + RowTriplets([], row) == pre;
    var pvalue := S[p.y, p.x];
    assert pvalue == At(gS, p, h, w);
    ghost var terms;
    var acc, count;
    ts', terms, acc, count := EmitNeighbour(ix, S, M, gS, gM, Add(p, d), row, ts, pre, [], Num(0.0), 0);
    ghost var t1, a1 := terms, acc;
    ts', terms, acc, count := EmitNeighbour(ix, S, M, gS, gM, Sub(p, d), row, ts', pre, terms, acc, count);
    ghost var units, sum := terms, acc;
    AxisParts(gS, gM, h, w, p, d, t1, a1, units, sum);
    if count > 0 {
      acc := MinusTimes(acc, count, pvalue.v);
      ghost var rest := acc;
      ts' := EmitTerm(ix, ts', pre + RowTriplets(terms, row), row, p, count);
      TermSnoc(pre, terms, Term(p, count), row);
      terms := terms + [Term(p, count)];
      if K[p.y, p.x] {
        acc := Num(0.0);
      }
      b', row' := b + [acc], row + 1;
      AxisRowComputed(gS, gM, gK, h, w, p, d, units, sum, rest, acc);
      RowAppended(rows, Row(terms, acc));
    } else {
      b', row' := b, row;
      assert rows + [] == rows;
    }
  }

  /** A single-term row adds one triplet and one right-hand side. */
  lemma UnitRowAppended(rows: seq<Row>, p: Point, rhs: Sample)
    ensures Flatten(rows + [Row([Term(p, 1)], rhs)]) == Flatten(rows) + [CellTriplet(|rows|, p, 1)]
    ensures Rhs(rows + [Row([Term(p, 1)], rhs)]) == Rhs(rows) + [rhs]
  {
    RowAppended(rows, Row([Term(p, 1)], rhs));
    assert RowTriplets([Term(p, 1)], |rows|) == [CellTriplet(|rows|, p, 1)];
  }

  /** The visit of a defined, unmasked cell with no masked neighbour adds no row. */
  lemma NoBoundaryRow(S: seq<seq<Sample>>, M: seq<seq<bool>>, K: seq<seq<bool>>, h: nat, w: nat, p: Point)
    requires Shaped(S, M, K, h, w) && InBounds(p, h, w) && At(S, p, h, w).Num? && !At(M, p, h, w)
    requires forall k :: 0 <= k < 4 ==> !Masked(M, Add(p, Delta[k]), h, w)
    ensures CellRows(S, M, K, h, w, p) == []
  {
    assert !Masked(M, Add(p, Delta[0]), h, w) && !Masked(M, Add(p, Delta[1]), h, w);
    assert !Masked(M, Add(p, Delta[2]), h, w) && !Masked(M, Add(p, Delta[3]), h, w);
  }

  /** The Dirichlet row of an unmasked, defined cell: the directions are
      scanned in order and at the first masked neighbour a row with
      coefficient 1 on `p` and right-hand side `pvalue` is emitted. */
  method EmitBoundary(ix: GridIndexer, S: array2<Sample>, M: array2<bool>, K: array2<bool>,
                      ghost gS: seq<seq<Sample>>, ghost gM: seq<seq<bool>>, ghost gK: seq<seq<bool>>, p: Point,
                      ts: seq<Triplet>, b: seq<Sample>, row: nat, ghost rows: seq<Row>)
    returns (ts': seq<Triplet>, b': seq<Sample>, row': nat)
    requires Fields(ix, S, M, K, gS, gM, gK) && InBounds(p, ix.h, ix.w)
    requires S[p.y, p.x].Num? && !M[p.y, p.x]
    requires Assembled(ix, ts, b, row, rows)
    modifies ix, ix.pointToId
    ensures Assembled(ix, ts', b', row', rows + CellRows(gS, gM, gK, ix.h, ix.w, p))
  {
    var pvalue := S[p.y, p.x];
    ghost var h, w := ix.h, ix.w;
    assert pvalue == At(gS, p, h, w) && !At(gM, p, h, w);
    for d := 0 to 4
      invariant forall k :: 0 <= k < d ==> !Masked(gM, Add(p, Delta[k]), h, w)
    {
      var q := Add(p, Delta[d]);
      if InBounds(q, ix.h, ix.w) && M[q.y, q.x] {
        assert HasMaskedNeighbour(gM, p, h, w);
        ghost var r := Row([Term(p, 1)], pvalue);
        assert CellRows(gS, gM, gK, h, w, p) == [r];
        ts' := EmitTerm(ix, ts, Flatten(rows), row, p, 1);
        b', row' := b + [pvalue], row + 1;
        UnitRowAppended(rows, p, pvalue);
        return;
      }
    }
    NoBoundaryRow(gS, gM, gK, h, w, p);
    assert rows + [] == rows;
    ts', b', row' := ts, b, row;
  }

  /** A masked, defined cell contributes its `dx` block, then its `dy` block. */
  lemma MaskedCellRows(S: seq<seq<Sample>>, M: seq<seq<bool>>, K: seq<seq<bool>>, h: nat, w: nat, p: Point, rows: seq<Row>)
    requires Shaped(S, M, K, h, w) && InBounds(p, h, w) && At(S, p, h, w).Num? && At(M, p, h, w)
    ensures rows + CellRows(S, M, K, h, w, p) ==
            rows + AxisRows(S, M, K, h, w, p, Point(1, 0)) + AxisRows(S, M, K, h, w, p, Point(0, 1))
  {
  }

  /** The visit of cell `p`: nothing at an undefined cell, the two gradient
      blocks at a masked cell, and at most one Dirichlet row otherwise. */
  method EmitCell(ix: GridIndexer, S: array2<Sample>, M: array2<bool>, K: array2<bool>,
                  ghost gS: seq<seq<Sample>>, ghost gM: seq<seq<bool>>, ghost gK: seq<seq<bool>>, p: Point,
                  ts: seq<Triplet>, b: seq<Sample>, row: nat, ghost rows: seq<Row>)
    returns (ts': seq<Triplet>, b': seq<Sample>, row': nat)
    requires Fields(ix, S, M, K, gS, gM, gK) && InBounds(p, ix.h, ix.w)
    requires Assembled(ix, ts, b, row, rows)
    modifies ix, ix.pointToId
    ensures Assembled(ix, ts', b', row', rows + CellRows(gS, gM, gK, ix.h, ix.w, p))
  {
    ghost var h, w := ix.h, ix.w;
    var pvalue := S[p.y, p.x];
    assert pvalue == At(gS, p, h, w);
    if pvalue.NaN? {
      assert rows + CellRows(gS, gM, gK, h, w, p) == rows;
      return ts, b, row;
    }
    if M[p.y, p.x] {
      ghost var rx := AxisRows(gS, gM, gK, h, w, p, Point(1, 0));
      ts', b', row' := EmitAxis(ix, S, M, K, gS, gM, gK, p, Point(1, 0), ts, b, row, rows);
      ts', b', row' := EmitAxis(ix, S, M, K, gS, gM, gK, p, Point(0, 1), ts', b', row', rows + rx);
      MaskedCellRows(gS, gM, gK, h, w, p, rows);
    } else {
      ts', b', row' := EmitBoundary(ix, S, M, K, gS, gM, gK, p, ts, b, row, rows);
    }
  }

  /** Decoded triplets over an id list without duplicates are the encoding
      of the cell triplets. */
  lemma DecodesEncode(ts: seq<Triplet>, ids: seq<Point>, spec: seq<CellTriplet>)
    requires Decodes(ts, ids, spec) && NoDup(ids)
    requires forall k :: 0 <= k < |spec| ==> spec[k].cell in ids
    ensures ts == Encode(spec, ids)
  {
    forall k | 0 <= k < |ts| ensures ts[k] == Encode(spec, ids)[k] {
      IndexOfNoDup(ids, ts[k].col);
    }
  }

  /** `f` gives the rows of the visit of each cell of the grid. */
  ghost predicate Visits(f: Point -> seq<Row>, S: seq<seq<Sample>>, M: seq<seq<bool>>, K: seq<seq<bool>>, h: nat, w: nat) {
    Shaped(S, M, K, h, w) && forall p :: InBounds(p, h, w) ==> f(p) == CellRows(S, M, K, h, w, p)
  }

  /** One iteration of the inner loop: the visit of cell `(j, i)`, after
      which the rows are those of the cells up to and including it. */
  method EmitStep(ix: GridIndexer, S: array2<Sample>, M: array2<bool>, K: array2<bool>,
                  ghost gS: seq<seq<Sample>>, ghost gM: seq<seq<bool>>, ghost gK: seq<seq<bool>>,
                  ghost f: Point -> seq<Row>, i: nat, j: nat, ts: seq<Triplet>, b: seq<Sample>, row: nat)
    returns (ts': seq<Triplet>, b': seq<Sample>, row': nat)
    requires Fields(ix, S, M, K, gS, gM, gK) && Visits(f, gS, gM, gK, ix.h, ix.w) && i < ix.h && j < ix.w
    requires Assembled(ix, ts, b, row, Prefix(f, ix.h, ix.w, i, j))
    modifies ix, ix.pointToId
    ensures Assembled(ix, ts', b', row', Prefix(f, ix.h, ix.w, i, j + 1))
  {
    var p := Point(j, i);
    ts', b', row' := EmitCell(ix, S, M, K, gS, gM, gK, p, ts, b, row, Prefix(f, ix.h, ix.w, i, j));
    assert f(p) == CellRows(gS, gM, gK, ix.h, ix.w, p);
    PrefixNext(f, ix.h, ix.w, i, j);
  }

  /** The inner loop of the assembly: the cells of row `i`, left to right. */
  method EmitRow(ix: GridIndexer, S: array2<Sample>, M: array2<bool>, K: array2<bool>,
                 ghost gS: seq<seq<Sample>>, ghost gM: seq<seq<bool>>, ghost gK: seq<seq<bool>>,
                 ghost f: Point -> seq<Row>, i: nat, ts: seq<Triplet>, b: seq<Sample>, row: nat)
    returns (ts': seq<Triplet>, b': seq<Sample>, row': nat)
    requires Fields(ix, S, M, K, gS, gM, gK) && Visits(f, gS, gM, gK, ix.h, ix.w) && i < ix.h
    requires Assembled(ix, ts, b, row, Prefix(f, ix.h, ix.w, i, 0))
    modifies ix, ix.pointToId
    ensures Assembled(ix, ts', b', row', Prefix(f, ix.h, ix.w, i + 1, 0))
  {
    ts', b', row' := ts, b, row;
    for j := 0 to ix.w
      invariant Assembled(ix, ts', b', row', Prefix(f, ix.h, ix.w, i, j))
    {
      ts', b', row' := EmitStep(ix, S, M, K, gS, gM, gK, f, i, j, ts', b', row');
    }
    PrefixRow(f, ix.h, ix.w, i);
  }

  /** Once every cell is visited, the triplets, right-hand side, row count
      and ids are those of the specification. */
  lemma AssemblyMeetsSpec(S: seq<seq<Sample>>, M: seq<seq<bool>>, K: seq<seq<bool>>, h: nat, w: nat,
                          ids: seq<Point>, ts: seq<Triplet>, b: seq<Sample>, row: nat)
    requires Shaped(S, M, K, h, w) && NoDup(ids)
    requires row == |AllRows(S, M, K, h, w)| && b == Rhs(AllRows(S, M, K, h, w))
    requires Decodes(ts, ids, Flatten(AllRows(S, M, K, h, w)))
    requires ids == Dedup(Cells(Flatten(AllRows(S, M, K, h, w))))
    ensures ids == SpecIds(S, M, K, h, w)
    ensures System(row, |ids|, ts, b) == SpecSystem(S, M, K, h, w)
  {
    var spec := Flatten(AllRows(S, M, K, h, w));
    CellsInIds(spec);
    DecodesEncode(ts, ids, spec);
  }

  /** The assembly loop of `poissonSeamRemoval`: a fresh indexer, then every
      cell in row-major order. The ids and the system are those of the
      value-level specification, read off the current field and masks. */
  method Assemble(S: array2<Sample>, M: array2<bool>, K: array2<bool>) returns (ids: seq<Point>, sys: System)
    requires S.Length0 == M.Length0 == K.Length0 && S.Length1 == M.Length1 == K.Length1
    ensures ids == SpecIds(Snap(S), Snap(M), Snap(K), S.Length0, S.Length1)
    ensures sys == SpecSystem(Snap(S), Snap(M), Snap(K), S.Length0, S.Length1)
    ensures NoDup(ids) && forall k :: 0 <= k < |ids| ==> InBounds(ids[k], S.Length0, S.Length1)
  {
    var h, w := M.Length0, M.Length1;
    ghost var gS, gM, gK := Snap(S), Snap(M), Snap(K);
    var ix := new GridIndexer(h, w);
    var ts: seq<Triplet>, b: seq<Sample>, row: nat := [], [], 0;
    ghost var f := Visit(gS, gM, gK, h, w);
    assert Visits(f, gS, gM, gK, h, w);
    assert Cells(Flatten([])) == [];
    for i := 0 to h
      invariant ix.h == h && ix.w == w && fresh(ix.pointToId)
      invariant Assembled(ix, ts, b, row, Prefix(f, h, w, i, 0))
    {
      ts, b, row := EmitRow(ix, S, M, K, gS, gM, gK, f, i, ts, b, row);
    }
    ids := ix.idToPoint;
    ix.IdsDistinct();
    sys := System(row, |ids|, ts, b);
    AssemblyMeetsSpec(gS, gM, gK, h, w, ids, ts, b, row);
  }

  /** The write-back loop: cell `ids[k]` receives `x[k]`; no other cell changes. */
  method WriteBack(S: array2<Sample>, ids: seq<Point>, x: seq<Sample>)
    requires |x| == |ids| && NoDup(ids)
    requires forall k :: 0 <= k < |ids| ==> InBounds(ids[k], S.Length0, S.Length1)
    modifies S
    ensures Snap(S) == WrittenBack(old(Snap(S)), ids, x, S.Length0, S.Length1)
  {
    ghost var S0 := Snap(S);
    for k := 0 to |ids|
      invariant forall i, j :: 0 <= i < S.Length0 && 0 <= j < S.Length1 ==>
        S[i, j] == if Point(j, i) in ids[..k] then x[IndexOf(ids, Point(j, i))] else S0[i][j]
    {
      var p := ids[k];
      S[p.y, p.x] := x[k];
      IndexOfNoDup(ids, k);
      assert ids[..k + 1] == ids[..k] + [p];
    }
    assert ids[..|ids|] == ids;
    GridExt(Snap(S), WrittenBack(S0, ids, x, S.Length0, S.Length1), S.Length0, S.Length1);
  }

  /** `poissonSeamRemoval(synthesis, mask, seam_mask)`: assemble, solve with
      the black-box `solve`, and write the solution back into `S`. */
  method PoissonSeamRemoval(S: array2<Sample>, M: array2<bool>, K: array2<bool>, solve: System -> seq<Sample>)
    requires S.Length0 == M.Length0 == K.Length0 && S.Length1 == M.Length1 == K.Length1
    requires SolverShape(solve)
    modifies S
    ensures Snap(S) == SeamRemoval(old(Snap(S)), Snap(M), Snap(K), S.Length0, S.Length1, solve)
  {
    var ids, sys := Assemble(S, M, K);
    var x := solve(sys);
    WriteBack(S, ids, x);
  }
}
