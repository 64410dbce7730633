/** The value types of the feature graph: its nodes and polyline edges,
    and the weighted grid edge the graph is built from. */
module FeatureTypes {
  import opened Grid

  /** `feature_type` selects ridges (elevations as given) or valleys
      (elevations negated). */
  const RidgeFeatures: int := 1
  const ValleyFeatures: int := -1

  /** A single-precision 2D position. */
  datatype Vec2 = Vec2(x: real, y: real)

  /** A node of the feature graph: its id, its (smoothed) position and the
      ids of the feature edges that end at it. */
  datatype FeatureNode = FeatureNode(id: int, p: Vec2, edges: seq<int>)

  /** A polyline feature edge between two feature nodes. */
  datatype FeatureEdge = FeatureEdge(id: int, nodeStart: int, nodeEnd: int, path: seq<Vec2>)
  {
    /** The endpoint across the edge from `n`. */
    function Other(n: int): (r: int)
      ensures r == nodeStart || r == nodeEnd
      ensures n == nodeStart ==> r == nodeEnd
      ensures n == nodeEnd ==> r == nodeStart
    {
      if n == nodeStart then nodeEnd else nodeStart
    }
  }

  /** An edge of the candidate grid graph: weight, the node ids of its two
      endpoints, and their grid cells. */
  datatype Edge = Edge(weight: real, id1: int, id2: int, p1: Point, p2: Point)
  {
    /** The node id across the edge from `id`. */
    function Other(id: int): (r: int)
      ensures r == id1 || r == id2
      ensures id == id1 ==> r == id2
      ensures id == id2 ==> r == id1
    {
      if id == id1 then id2 else id1
    }

    /** The grid cell of endpoint `id`. */
    function PointOf(id: int): (r: Point)
      ensures r == p1 || r == p2
      ensures id == id1 ==> r == p1
      ensures id == id2 && id1 != id2 ==> r == p2
    {
      if id == id1 then p1 else p2
    }
  }

  /** Crossing an edge twice from either endpoint returns to it. */
  lemma FeatureEdgeOtherTwice(fe: FeatureEdge, n: int)
    requires n == fe.nodeStart || n == fe.nodeEnd
    ensures fe.Other(fe.Other(n)) == n
  {
  }

  lemma EdgeOtherTwice(e: Edge, id: int)
    requires id == e.id1 || id == e.id2
    ensures e.Other(e.Other(id)) == id
  {
  }

  /** On an edge between distinct nodes, the cell of the far endpoint is
      the cell that is not the near endpoint's. */
  lemma EdgePointOfOther(e: Edge, id: int)
    requires e.id1 != e.id2 && (id == e.id1 || id == e.id2)
    ensures e.PointOf(e.Other(id)) == (if id == e.id1 then e.p2 else e.p1)
  {
  }
}
