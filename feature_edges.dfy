/** Edge creation of the feature graph: every numbered cell of the grid
    less its last row and column is joined to each of its numbered forward
    neighbours. */
module EdgeCreation {
  import opened Grid
  import opened RowMajor
  import opened FeatureTypes
  import opened FeatureSelection
  import opened Pruning

  /** `n - 1` for the loop bounds `grid.rows - 1` and `grid.cols - 1`,
      which leave no cell to visit when `n` is zero. */
  function Dec(n: nat): nat { if n > 0 then n - 1 else 0 }

  /** The edge from `p` to `q`, weighted by the sum of their elevations. */
  function MakeEdge(ids: seq<seq<int>>, g: seq<seq<real>>, ft: int, h: nat, w: nat, p: Point, q: Point): Edge
    requires IsGrid(ids, h, w) && IsGrid(g, h, w) && InBounds(p, h, w) && InBounds(q, h, w)
  {
    Edge(Elev(g, ft, p, h, w) + Elev(g, ft, q, h, w), ids[p.y][p.x], ids[q.y][q.x], p, q)
  }

  /** The edges from `p` toward its first `d` forward neighbours. */
  function Towards(ids: seq<seq<int>>, g: seq<seq<real>>, ft: int, h: nat, w: nat, p: Point, d: nat): seq<Edge>
    requires IsGrid(ids, h, w) && IsGrid(g, h, w) && InBounds(p, h, w) && d <= 4
  {
    if d == 0 then []
    else
      var q := Add(p, Forward[d - 1]);
      Towards(ids, g, ft, h, w, p, d - 1) +
      (if InBounds(q, h, w) && ids[q.y][q.x] >= 0 then [MakeEdge(ids, g, ft, h, w, p, q)] else [])
  }

  lemma TowardsNext(ids: seq<seq<int>>, g: seq<seq<real>>, ft: int, h: nat, w: nat, p: Point, d: nat)
    requires IsGrid(ids, h, w) && IsGrid(g, h, w) && InBounds(p, h, w) && d < 4
    ensures Towards(ids, g, ft, h, w, p, d + 1) ==
            Towards(ids, g, ft, h, w, p, d) +
            (if InBounds(Add(p, Forward[d]), h, w) && ids[Add(p, Forward[d]).y][Add(p, Forward[d]).x] >= 0
             then [MakeEdge(ids, g, ft, h, w, p, Add(p, Forward[d]))] else [])
  {
  }

  /** What the visit of each cell contributes: nothing for a cell without an id. */
  ghost function EdgesAt(ids: seq<seq<int>>, g: seq<seq<real>>, ft: int, h: nat, w: nat): Point -> seq<Edge> {
    p => CellOut(ids, g, ft, h, w, p)
  }

  ghost function CellOut(ids: seq<seq<int>>, g: seq<seq<real>>, ft: int, h: nat, w: nat, p: Point): seq<Edge> {
    if IsGrid(ids, h, w) && IsGrid(g, h, w) && InBounds(p, h, w) && ids[p.y][p.x] >= 0
    then Towards(ids, g, ft, h, w, p, 4) else []
  }

  /** `tempedges` after the edge creation loop. */
  ghost function TempEdges(ids: seq<seq<int>>, g: seq<seq<real>>, ft: int, h: nat, w: nat): seq<Edge> {
    Prefix(EdgesAt(ids, g, ft, h, w), Dec(h), Dec(w), Dec(h), 0)
  }

  /** The shape of a created edge. */
  ghost predicate Shaped(ids: seq<seq<int>>, g: seq<seq<real>>, ft: int, h: nat, w: nat, e: Edge)
    requires IsGrid(ids, h, w) && IsGrid(g, h, w)
  {
    InBounds(e.p1, Dec(h), Dec(w)) && InBounds(e.p2, h, w) &&
    (exists d :: 0 <= d < 4 && e.p2 == Add(e.p1, Forward[d])) &&
    e.id1 == ids[e.p1.y][e.p1.x] >= 0 && e.id2 == ids[e.p2.y][e.p2.x] >= 0 &&
    e.weight == Elev(g, ft, e.p1, h, w) + Elev(g, ft, e.p2, h, w)
  }

  lemma {:induction false} TowardsShaped(ids: seq<seq<int>>, g: seq<seq<real>>, ft: int, h: nat, w: nat,
                                         p: Point, d: nat, e: Edge)
    requires IsGrid(ids, h, w) && IsGrid(g, h, w) && InBounds(p, h, w) && d <= 4
    requires e in Towards(ids, g, ft, h, w, p, d)
    ensures e.p1 == p && InBounds(e.p2, h, w) && ids[e.p2.y][e.p2.x] >= 0
    ensures exists k :: 0 <= k < d && e.p2 == Add(p, Forward[k])
    ensures e == MakeEdge(ids, g, ft, h, w, p, e.p2)
  {
    var q := Add(p, Forward[d - 1]);
    TowardsNext(ids, g, ft, h, w, p, d - 1);
    if e in Towards(ids, g, ft, h, w, p, d - 1) {
      TowardsShaped(ids, g, ft, h, w, p, d - 1, e);
    } else {
      assert InBounds(q, h, w) && e == MakeEdge(ids, g, ft, h, w, p, q);
    }
  }

  lemma {:induction false} TowardsHas(ids: seq<seq<int>>, g: seq<seq<real>>, ft: int, h: nat, w: nat,
                                      p: Point, d: nat, k: nat)
    requires IsGrid(ids, h, w) && IsGrid(g, h, w) && InBounds(p, h, w) && k < d <= 4
    requires InBounds(Add(p, Forward[k]), h, w) && ids[Add(p, Forward[k]).y][Add(p, Forward[k]).x] >= 0
    ensures MakeEdge(ids, g, ft, h, w, p, Add(p, Forward[k])) in Towards(ids, g, ft, h, w, p, d)
  {
    if k < d - 1 {
      TowardsHas(ids, g, ft, h, w, p, d - 1, k);
    }
  }

  /** Every created edge joins a numbered cell `p` off the last row and
      column to its numbered forward neighbour `p + n`, carries both ids,
      and weighs the sum of their elevations. */
  lemma EdgeShape(ids: seq<seq<int>>, g: seq<seq<real>>, ft: int, h: nat, w: nat, e: Edge)
    requires IsGrid(ids, h, w) && IsGrid(g, h, w)
    requires e in TempEdges(ids, g, ft, h, w)
    ensures Shaped(ids, g, ft, h, w, e)
  {
    var f := EdgesAt(ids, g, ft, h, w);
    var k :| 0 <= k < |TempEdges(ids, g, ft, h, w)| && TempEdges(ids, g, ft, h, w)[k] == e;
    var p := Origin(f, Dec(h), Dec(w), Dec(h), 0, k);
    assert InBounds(p, h, w) && ids[p.y][p.x] >= 0;
    TowardsShaped(ids, g, ft, h, w, p, 4, e);
  }

  /** Conversely, every such pair is joined by a created edge. */
  lemma EdgeCreated(ids: seq<seq<int>>, g: seq<seq<real>>, ft: int, h: nat, w: nat, p: Point, d: nat)
    requires IsGrid(ids, h, w) && IsGrid(g, h, w)
    requires InBounds(p, Dec(h), Dec(w)) && d < 4 && ids[p.y][p.x] >= 0
    requires InBounds(Add(p, Forward[d]), h, w) && ids[Add(p, Forward[d]).y][Add(p, Forward[d]).x] >= 0
    ensures MakeEdge(ids, g, ft, h, w, p, Add(p, Forward[d])) in TempEdges(ids, g, ft, h, w)
  {
    var f := EdgesAt(ids, g, ft, h, w);
    TowardsHas(ids, g, ft, h, w, p, 4, d);
    Included(f, Dec(h), Dec(w), Dec(h), 0, p, MakeEdge(ids, g, ft, h, w, p, Add(p, Forward[d])));
  }

  /** The created edges lie inside the grid, as the reduction rounds need. */
  lemma EdgesWithinGrid(ids: seq<seq<int>>, g: seq<seq<real>>, ft: int, h: nat, w: nat)
    requires IsGrid(ids, h, w) && IsGrid(g, h, w)
    ensures WithinGrid(TempEdges(ids, g, ft, h, w), h, w)
  {
    forall e | e in TempEdges(ids, g, ft, h, w) ensures InBounds(e.p1, h, w) && InBounds(e.p2, h, w) {
      EdgeShape(ids, g, ft, h, w, e);
    }
  }

  /** The edge from the numbered cell `p` toward `q`, if `q` is a numbered cell. */
  method EdgeTo(grid: array2<real>, nodeids: array2<int>, ghost g: seq<seq<real>>, ghost ids: seq<seq<int>>,
                ft: int, p: Point, q: Point) returns (out: seq<Edge>)
    requires Views(grid, g) && Views(nodeids, ids)
    requires nodeids.Length0 == grid.Length0 && nodeids.Length1 == grid.Length1
    requires InBounds(p, grid.Length0, grid.Length1)
    ensures out == if InBounds(q, grid.Length0, grid.Length1) && ids[q.y][q.x] >= 0
                   then [MakeEdge(ids, g, ft, grid.Length0, grid.Length1, p, q)] else []
  {
    out := [];
    if InBounds(q, grid.Length0, grid.Length1) && nodeids[q.y, q.x] >= 0 {
      var pe := (ft as real) * grid[p.y, p.x];
      var qe := (ft as real) * grid[q.y, q.x];
      assert pe == Elev(g, ft, p, grid.Length0, grid.Length1) && qe == Elev(g, ft, q, grid.Length0, grid.Length1);
      assert nodeids[p.y, p.x] == ids[p.y][p.x] && nodeids[q.y, q.x] == ids[q.y][q.x];
      out := [Edge(pe + qe, nodeids[p.y, p.x], nodeids[q.y, q.x], p, q)];
    }
  }

  /** The forward-neighbour loop of one cell. */
  method CellEdges(grid: array2<real>, nodeids: array2<int>, ghost g: seq<seq<real>>, ghost ids: seq<seq<int>>,
                   ft: int, p: Point) returns (out: seq<Edge>)
    requires Views(grid, g) && Views(nodeids, ids)
    requires nodeids.Length0 == grid.Length0 && nodeids.Length1 == grid.Length1
    requires InBounds(p, grid.Length0, grid.Length1)
    ensures out == CellOut(ids, g, ft, grid.Length0, grid.Length1, p)
  {
    out := [];
    if nodeids[p.y, p.x] < 0 {
      return;
    }
    for d := 0 to 4
      invariant out == Towards(ids, g, ft, grid.Length0, grid.Length1, p, d)
    {
      var e := EdgeTo(grid, nodeids, g, ids, ft, p, Add(p, Forward[d]));
      TowardsNext(ids, g, ft, grid.Length0, grid.Length1, p, d);
      out := out + e;
    }
  }

  method RowEdges(grid: array2<real>, nodeids: array2<int>, ghost g: seq<seq<real>>, ghost ids: seq<seq<int>>,
                  ft: int, i: nat, es: seq<Edge>) returns (es': seq<Edge>)
    requires Views(grid, g) && Views(nodeids, ids)
    requires nodeids.Length0 == grid.Length0 && nodeids.Length1 == grid.Length1
    requires i < Dec(grid.Length0)
    requires es == Prefix(EdgesAt(ids, g, ft, grid.Length0, grid.Length1), Dec(grid.Length0), Dec(grid.Length1), i, 0)
    ensures es' == Prefix(EdgesAt(ids, g, ft, grid.Length0, grid.Length1), Dec(grid.Length0), Dec(grid.Length1), i + 1, 0)
  {
    ghost var f := EdgesAt(ids, g, ft, grid.Length0, grid.Length1);
    es' := es;
    for j := 0 to Dec(grid.Length1)
      invariant es' == Prefix(f, Dec(grid.Length0), Dec(grid.Length1), i, j)
    {
      var out := CellEdges(grid, nodeids, g, ids, ft, Point(j, i));
      PrefixNext(f, Dec(grid.Length0), Dec(grid.Length1), i, j);
      es' := es' + out;
    }
    PrefixRow(f, Dec(grid.Length0), Dec(grid.Length1), i);
  }

  /** The edge creation loop over `[0, rows - 1) x [0, cols - 1)`. */
  method CreateEdges(grid: array2<real>, nodeids: array2<int>, ghost g: seq<seq<real>>, ghost ids: seq<seq<int>>,
                     ft: int) returns (es: seq<Edge>)
    requires Views(grid, g) && Views(nodeids, ids)
    requires nodeids.Length0 == grid.Length0 && nodeids.Length1 == grid.Length1
    ensures es == TempEdges(ids, g, ft, grid.Length0, grid.Length1)
  {
    es := [];
    for i := 0 to Dec(grid.Length0)
      invariant es == Prefix(EdgesAt(ids, g, ft, grid.Length0, grid.Length1), Dec(grid.Length0), Dec(grid.Length1), i, 0)
    {
      es := RowEdges(grid, nodeids, g, ids, ft, i, es);
    }
  }
}
