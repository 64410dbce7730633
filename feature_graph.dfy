/** The feature graph of a downsampled elevation grid: candidate selection,
    edge creation, the spanning-forest step, the reduction rounds, the
    `nodetoedge` table and the traversal that builds the feature nodes and
    polyline feature edges. */
module FeatureGraphs {
  import opened Grid
  import opened FeatureTypes
  import opened Indexer
  import opened Forest
  import opened FeatureSelection
  import opened EdgeCreation
  import opened Pruning
  import opened NodeEdges
  import opened Traversal
  import opened Leaves

  /** The `nodeids` matrix after candidate selection: the index of every
      candidate cell in the row-major candidate list, and -1 elsewhere. */
  ghost function NodeIds(g: seq<seq<real>>, ft: int, thresh: real, half: nat, h: nat, w: nat): (ids: seq<seq<int>>)
    requires IsGrid(g, h, w)
    ensures IsGrid(ids, h, w)
    ensures forall y, x :: 0 <= y < h && 0 <= x < w ==>
      (ids[y][x] >= 0 <==> IsCandidate(g, ft, thresh, half, h, w, Point(x, y))) &&
      (ids[y][x] >= 0 ==> ids[y][x] < |Candidates(g, ft, thresh, half, h, w)| &&
                          Candidates(g, ft, thresh, half, h, w)[ids[y][x]] == Point(x, y))
  {
    CandidatesExactly(g, ft, thresh, half, h, w);
    var cs := Candidates(g, ft, thresh, half, h, w);
    seq(h, y requires 0 <= y < h =>
      seq(w, x requires 0 <= x < w =>
        if IsCandidate(g, ft, thresh, half, h, w, Point(x, y)) then IndexOf(cs, Point(x, y)) as int else -1))
  }

  /** What the spanning-forest step is taken to return: a duplicate-free
      acyclic sub-list of its input. That it keeps the connected components
      of its input, or picks the lightest edges, is not assumed. */
  ghost predicate AcyclicSublist(forest: seq<Edge> -> seq<Edge>) {
    forall es :: IsForest(forest(es)) && forall e :: e in forest(es) ==> e in es
  }

  /** The iteration order of the `nodetoedge` table lists each of its
      keys once and nothing else. */
  ghost predicate Enumerates(order: map<int, seq<Edge>> -> seq<int>) {
    forall m :: NoDup(order(m)) && forall x :: x in order(m) <==> x in m
  }

  /** `tempedges` after the reduction rounds. */
  ghost function Surviving(forest: seq<Edge> -> seq<Edge>, g: seq<seq<real>>, ft: int, thresh: real,
                           half: nat, h: nat, w: nat): seq<Edge>
    requires IsGrid(g, h, w)
  {
    PruneRounds(forest(TempEdges(NodeIds(g, ft, thresh, half, h, w), g, ft, h, w)), half)
  }

  /** `e` joins a candidate cell `p` off the last row and column to a
      candidate forward neighbour of it, and its two ids are the indices of
      those cells in the candidate list. */
  ghost predicate CandidateEdge(g: seq<seq<real>>, ft: int, thresh: real, half: nat, h: nat, w: nat, e: Edge)
    requires IsGrid(g, h, w)
  {
    var cs := Candidates(g, ft, thresh, half, h, w);
    InBounds(e.p1, Dec(h), Dec(w)) && (exists d :: 0 <= d < 4 && e.p2 == Add(e.p1, Forward[d])) &&
    IsCandidate(g, ft, thresh, half, h, w, e.p1) && IsCandidate(g, ft, thresh, half, h, w, e.p2) &&
    0 <= e.id1 < |cs| && cs[e.id1] == e.p1 && 0 <= e.id2 < |cs| && cs[e.id2] == e.p2
  }

  /** The surviving edges form a forest inside the grid, no longer than
      the spanning forest. */
  lemma SurvivingForest(forest: seq<Edge> -> seq<Edge>, g: seq<seq<real>>, ft: int, thresh: real,
                        half: nat, h: nat, w: nat)
    requires IsGrid(g, h, w) && AcyclicSublist(forest)
    ensures IsForest(Surviving(forest, g, ft, thresh, half, h, w))
    ensures |Surviving(forest, g, ft, thresh, half, h, w)| <=
            |forest(TempEdges(NodeIds(g, ft, thresh, half, h, w), g, ft, h, w))|
    ensures WithinGrid(Surviving(forest, g, ft, thresh, half, h, w), h, w)
  {
    var ids := NodeIds(g, ft, thresh, half, h, w);
    var temp := TempEdges(ids, g, ft, h, w);
    EdgesWithinGrid(ids, g, ft, h, w);
    assert WithinGrid(forest(temp), h, w);
    RoundsShrink(forest(temp), half, h, w);
  }

  /** Every surviving edge is a candidate edge. */
  lemma SurvivingEdge(forest: seq<Edge> -> seq<Edge>, g: seq<seq<real>>, ft: int, thresh: real,
                      half: nat, h: nat, w: nat, e: Edge)
    requires IsGrid(g, h, w) && AcyclicSublist(forest)
    requires e in Surviving(forest, g, ft, thresh, half, h, w)
    ensures CandidateEdge(g, ft, thresh, half, h, w, e)
  {
    var ids := NodeIds(g, ft, thresh, half, h, w);
    var temp := TempEdges(ids, g, ft, h, w);
    RoundsShrink(forest(temp), half, h, w);
    assert e in temp;
    EdgeShape(ids, g, ft, h, w, e);
  }

  /** A feature node exists only for a node some surviving edge touches. */
  lemma NodesIncident(es: seq<Edge>, V: set<int>, nodes: map<int, FeatureNode>,
                      edges: map<int, FeatureEdge>, smooth: int -> Vec2, x: int)
    requires NodesOK(Incidence(es), V, nodes, edges, smooth) && x in nodes
    ensures exists e :: e in es && Touches(e, x)
  {
    IncidenceExactly(es, x);
  }

  /** The `nodeids` matrix the selection loop fills in is `NodeIds`. */
  lemma SelectedIds(nodeids: array2<int>, g: seq<seq<real>>, ft: int, thresh: real, half: nat)
    requires IsGrid(g, nodeids.Length0, nodeids.Length1)
    requires forall y, x :: 0 <= y < nodeids.Length0 && 0 <= x < nodeids.Length1 ==>
      if IsCandidate(g, ft, thresh, half, nodeids.Length0, nodeids.Length1, Point(x, y))
      then 0 <= nodeids[y, x] < |Candidates(g, ft, thresh, half, nodeids.Length0, nodeids.Length1)| &&
           Candidates(g, ft, thresh, half, nodeids.Length0, nodeids.Length1)[nodeids[y, x]] == Point(x, y)
      else nodeids[y, x] == -1
    ensures Views(nodeids, NodeIds(g, ft, thresh, half, nodeids.Length0, nodeids.Length1))
  {
    var h, w := nodeids.Length0, nodeids.Length1;
    var ids := NodeIds(g, ft, thresh, half, h, w);
    var cs := Candidates(g, ft, thresh, half, h, w);
    CandidatesExactly(g, ft, thresh, half, h, w);
    forall y, x | 0 <= y < h && 0 <= x < w ensures ids[y][x] == nodeids[y, x] {
      if IsCandidate(g, ft, thresh, half, h, w, Point(x, y)) {
        IndexOfNoDup(cs, nodeids[y, x]);
      }
    }
  }

  /** What the traversal leaves behind over the surviving edges `es` and
      their table: every node of the table is visited; no table edge leaves
      `visited`; every feature node lists a feature edge; and the feature
      nodes and edges, numbered `0 .. |edges| - 1`, are the ones `NodesOK`
      and `EdgesOK` describe. `log` and `roots` are the ghost record of the
      run, listing the insertions into `visited` and the tree roots. That
      no node is inserted twice and that every tree starts at a node of
      degree one are promised step by step, by `Traversal.ChainWalk`,
      `Traversal.ChainStep` and the precondition of `Traversal.Explore`. */
  ghost predicate Built(es: seq<Edge>, table: map<int, seq<Edge>>, visited: set<int>, log: seq<int>, roots: seq<int>,
                        nodes: map<int, FeatureNode>, edges: map<int, FeatureEdge>, chains: map<int, seq<int>>,
                        smooth: int -> Vec2) {
    IsForest(es) && table == Incidence(es) &&
    visited == table.Keys && Logged(visited, log) && Closed(table, visited) &&
    (forall x :: x in roots ==> x in visited && |table[x]| == 1) &&
    NodesOK(table, visited, nodes, edges, smooth) && (forall x :: x in nodes ==> |nodes[x].edges| >= 1) &&
    EdgesOK(es, table, nodes, edges, chains, |edges|, smooth)
  }

  /** A non-empty forest yields a feature edge: a leaf of its table is a
      feature node, and every feature node lists a feature edge. */
  lemma SomeFeatureEdge(es: seq<Edge>, table: map<int, seq<Edge>>, visited: set<int>, log: seq<int>,
                        roots: seq<int>, nodes: map<int, FeatureNode>, edges: map<int, FeatureEdge>,
                        chains: map<int, seq<int>>, smooth: int -> Vec2)
    requires Built(es, table, visited, log, roots, nodes, edges, chains, smooth) && es != []
    ensures |edges| >= 1
  {
    var e := es[0];
    assert e in es && Touches(e, e.id1);
    IncidenceExactly(es, e.id1);
    var t := LeafConnected(es, e.id1);
    var leaf := t[|t| - 1];
    assert leaf in nodes;
    var k := nodes[leaf].edges[0];
    assert k in nodes[leaf].edges && k in edges;
  }

  /** Candidate selection: the `nodeids` matrix of the grid. */
  method SelectNodes(grid: array2<real>, ghost g: seq<seq<real>>, ft: int, thresh: real, half: nat)
    returns (nodeids: array2<int>)
    requires Views(grid, g)
    ensures fresh(nodeids) && nodeids.Length0 == grid.Length0 && nodeids.Length1 == grid.Length1
    ensures Views(nodeids, NodeIds(g, ft, thresh, half, grid.Length0, grid.Length1))
  {
    var count;
    nodeids, count := SelectCandidates(grid, g, ft, thresh, half);
    SelectedIds(nodeids, g, ft, thresh, half);
  }

  /** Edge creation, the spanning-forest step and the reduction rounds. */
  method SurvivingEdges(grid: array2<real>, nodeids: array2<int>, ghost g: seq<seq<real>>, ft: int, thresh: real,
                        half: nat, forest: seq<Edge> -> seq<Edge>) returns (es: seq<Edge>)
    requires Views(grid, g) && AcyclicSublist(forest)
    requires nodeids.Length0 == grid.Length0 && nodeids.Length1 == grid.Length1
    requires Views(nodeids, NodeIds(g, ft, thresh, half, grid.Length0, grid.Length1))
    ensures es == Surviving(forest, g, ft, thresh, half, grid.Length0, grid.Length1) && IsForest(es)
  {
    var h, w := grid.Length0, grid.Length1;
    ghost var ids := NodeIds(g, ft, thresh, half, h, w);
    es := CreateEdges(grid, nodeids, g, ids, ft);
    EdgesWithinGrid(ids, g, ft, h, w);
    es := forest(es);
    es := Reduce(es, h, w, half);
    SurvivingForest(forest, g, ft, thresh, half, h, w);
  }

  /** The `nodetoedge` table and the traversal. */
  method TraceFeatures(es: seq<Edge>, smooth: int -> Vec2, order: map<int, seq<Edge>> -> seq<int>)
    returns (nodes: map<int, FeatureNode>, edges: map<int, FeatureEdge>, ghost table: map<int, seq<Edge>>,
             ghost visited: set<int>, ghost log: seq<int>, ghost roots: seq<int>, ghost chains: map<int, seq<int>>)
    requires IsForest(es) && Enumerates(order)
    ensures Built(es, table, visited, log, roots, nodes, edges, chains, smooth)
  {
    var nodetoedge := NodeToEdge(es);
    var vis, count;
    nodes, edges, vis, log, roots, chains, count := Traverse(es, nodetoedge, smooth, order(nodetoedge));
    EdgeCount(edges, count);
    table, visited := nodetoedge, vis;
  }

  class FeatureGraph {
    var featureType: int
    /** `m_nodes` and `m_edges`, read through `nodes()` and `edges()`. */
    var nodes: map<int, FeatureNode>
    var edges: map<int, FeatureEdge>
    /** The construction's intermediate results, kept for the contract:
        the surviving grid edges, their `nodetoedge` table, the `visited`
        set with the order of its insertions, the traversal roots, and the
        node walk behind each feature edge. */
    ghost var surviving: seq<Edge>
    ghost var table: map<int, seq<Edge>>
    ghost var visited: set<int>
    ghost var log: seq<int>
    ghost var roots: seq<int>
    ghost var chains: map<int, seq<int>>

    /** Builds the feature graph of the downsampled grid `input`; `thresh`
        is the comparison threshold, `forest` the spanning-forest step,
        `smooth` the smoothed node positions and `order` the iteration
        order of the `nodetoedge` table. */
    constructor (input: array2<real>, profileLength: int, featureType: int, thresh: real,
                 forest: seq<Edge> -> seq<Edge>, smooth: int -> Vec2, order: map<int, seq<Edge>> -> seq<int>)
      requires profileLength >= 3 && (featureType == RidgeFeatures || featureType == ValleyFeatures)
      requires AcyclicSublist(forest) && Enumerates(order)
      ensures this.featureType == featureType
      ensures surviving == Surviving(forest, Snap(input), featureType, thresh, profileLength / 2,
                                     input.Length0, input.Length1)
      ensures Built(surviving, table, visited, log, roots, nodes, edges, chains, smooth)
    {
      var half := profileLength / 2;
      ghost var g := Snap(input);
      var nodeids := SelectNodes(input, g, featureType, thresh, half);
      var tempedges := SurvivingEdges(input, nodeids, g, featureType, thresh, half, forest);
      var ns, es, tb, vis, lg, rs, chs := TraceFeatures(tempedges, smooth, order);
      this.featureType := featureType;
      nodes, edges := ns, es;
      surviving, table, visited, log, roots, chains := tempedges, tb, vis, lg, rs, chs;
    }
  }

  /** A set holding exactly `0 .. n - 1` has `n` elements. */
  lemma {:induction false} RangeSize(S: set<int>, n: nat)
    requires forall k :: k in S <==> 0 <= k < n
    ensures |S| == n
  {
    if n > 0 {
      RangeSize(S - {n - 1}, n - 1);
    } else {
      assert forall k :: k !in S;
      assert S == {};
    }
  }

  /** Edges numbered exactly `0 .. count - 1` are `count` in number. */
  lemma EdgeCount(edges: map<int, FeatureEdge>, count: nat)
    requires forall k :: k in edges <==> 0 <= k < count
    ensures |edges| == count
  {
    RangeSize(edges.Keys, count);
  }
}
