/** Leaves of a forest: every node an edge touches is connected to a node
    that exactly one edge touches. This is what makes the traversal, which
    starts only from leaves, reach every node of the table. */
module Leaves {
  import opened FeatureTypes
  import opened Indexer
  import opened Forest
  import opened NodeEdges

  /** `s` is a path of the edges `p`: a duplicate-free node sequence in
      which `p[k]` joins `s[k]` to `s[k + 1]`. */
  ghost predicate Path(es: seq<Edge>, s: seq<int>, p: seq<Edge>) {
    |s| == |p| + 1 && NoDup(s) && forall k :: 0 <= k < |p| ==> p[k] in es && Joins(p[k], s[k], s[k + 1])
  }

  /** A node with exactly one edge in the table of `es`. */
  ghost predicate Leaf(es: seq<Edge>, x: int) {
    x in Incidence(es) && |Incidence(es)[x]| == 1
  }

  lemma PathWalk(es: seq<Edge>, s: seq<int>, p: seq<Edge>)
    requires Path(es, s, p)
    ensures IsWalk(Span(es), s)
  {
    forall i | 0 <= i < |s| - 1 ensures Adjacent(Span(es), s[i], s[i + 1]) {
      assert p[i] in Span(es);
    }
  }

  /** Of the edges of a path, only the last touches its end node. */
  lemma EndEdge(es: seq<Edge>, s: seq<int>, p: seq<Edge>, k: nat)
    requires Path(es, s, p) && k < |p| - 1
    ensures !Touches(p[k], s[|s| - 1])
  {
    assert Joins(p[k], s[k], s[k + 1]);
    assert s[k] != s[|s| - 1] && s[k + 1] != s[|s| - 1];
  }

  /** The part of a path from `s[i]` on avoids every edge at its end
      node other than its last edge. */
  lemma TailAvoids(es: seq<Edge>, s: seq<int>, p: seq<Edge>, f: Edge, i: nat)
    requires Path(es, s, p) && |p| >= 1 && i < |s|
    requires Touches(f, s[|s| - 1]) && f != p[|p| - 1]
    ensures IsWalk(Span(es) - {f}, s[i..])
  {
    var t := s[i..];
    forall k | 0 <= k < |t| - 1 ensures Adjacent(Span(es) - {f}, t[k], t[k + 1]) {
      if i + k < |p| - 1 {
        EndEdge(es, s, p, i + k);
      }
      assert Joins(p[i + k], t[k], t[k + 1]);
      assert p[i + k] in Span(es) - {f};
    }
  }

  /** No edge of a forest has its endpoints connected by the others. */
  lemma ForestEdge(es: seq<Edge>, f: Edge)
    requires IsForest(es) && f in es
    ensures !Connected(Span(es) - {f}, f.id1, f.id2)
  {
    var m :| 0 <= m < |es| && es[m] == f;
  }

  /** In a forest, an edge `f` at the end `c` of a path, other than the
      last edge of the path, leads off the path: otherwise the rest of the
      path would join the two ends of `f` without it. */
  lemma PathExit(es: seq<Edge>, s: seq<int>, p: seq<Edge>, f: Edge)
    requires IsForest(es) && Path(es, s, p) && |p| >= 1
    requires f in es && Touches(f, s[|s| - 1]) && f != p[|p| - 1]
    ensures f.Other(s[|s| - 1]) !in s
  {
    var c := s[|s| - 1];
    var d := f.Other(c);
    ForestEdge(es, f);
    if d in s {
      var i :| 0 <= i < |s| && s[i] == d;
      TailAvoids(es, s, p, f, i);
      assert Connected(Span(es) - {f}, d, c) by {
        assert s[i..][0] == d && s[i..][|s[i..]| - 1] == c;
      }
      ConnectedSymmetric(Span(es) - {f}, d, c);
    }
  }

  /** A path extended by an edge to a node off it is a path. */
  lemma PathSnoc(es: seq<Edge>, s: seq<int>, p: seq<Edge>, f: Edge, d: int)
    requires Path(es, s, p) && f in es && Joins(f, s[|s| - 1], d) && d !in s
    ensures Path(es, s + [d], p + [f])
  {
    var s', p' := s + [d], p + [f];
    forall i, j | 0 <= i < j < |s'| ensures s'[i] != s'[j] {
      if j < |s| {
        assert s'[i] == s[i] && s'[j] == s[j];
      } else {
        assert s'[i] == s[i];
      }
    }
    forall k | 0 <= k < |p'| ensures p'[k] in es && Joins(p'[k], s'[k], s'[k + 1]) {
      if k < |p| {
        assert p'[k] == p[k] && s'[k] == s[k] && s'[k + 1] == s[k + 1];
      }
    }
  }

  /** A duplicate-free sequence drawn from `S` is no longer than `S` is large. */
  lemma {:induction false} NoDupBound(s: seq<int>, S: set<int>)
    requires NoDup(s) && forall i :: 0 <= i < |s| ==> s[i] in S
    ensures |s| <= |S|
  {
    if s != [] {
      var x := s[|s| - 1];
      var pre := s[..|s| - 1];
      forall i | 0 <= i < |pre| ensures pre[i] in S - {x} {
        assert pre[i] == s[i];
      }
      NoDupBound(pre, S - {x});
    }
  }

  /** Every node of a path lies in the table. */
  lemma PathInTable(es: seq<Edge>, s: seq<int>, p: seq<Edge>)
    requires Path(es, s, p) && |p| >= 1
    ensures forall i :: 0 <= i < |s| ==> s[i] in Incidence(es).Keys
  {
    forall i | 0 <= i < |s| ensures s[i] in Incidence(es) {
      var k := if i < |p| then i else i - 1;
      assert Joins(p[k], s[k], s[k + 1]);
      assert Touches(p[k], s[i]);
      IncidenceExactly(es, s[i]);
    }
  }

  /** A node of the table that is not a leaf has an edge other than any
      given one of its edges. */
  lemma SecondEdge(es: seq<Edge>, c: int, last: Edge) returns (f: Edge)
    requires IsForest(es) && last in es && Touches(last, c) && !Leaf(es, c)
    ensures f in es && Touches(f, c) && f != last
  {
    var m := Incidence(es);
    IncidenceExactly(es, c);
    assert last in m[c];
    f := if m[c][0] != last then m[c][0] else m[c][1];
    assert m[c][0] != m[c][1];
    assert f in m[c];
  }

  /** Extending a path at its far end, never back along the edge it came
      by, ends at a leaf. */
  lemma {:induction false} LeafFrom(es: seq<Edge>, s: seq<int>, p: seq<Edge>) returns (t: seq<int>)
    requires IsForest(es) && Path(es, s, p) && |p| >= 1
    ensures IsWalk(Span(es), t) && t[0] == s[0] && Leaf(es, t[|t| - 1])
    decreases |Incidence(es).Keys| - |s|
  {
    var c, last := s[|s| - 1], p[|p| - 1];
    PathInTable(es, s, p);
    NoDupBound(s, Incidence(es).Keys);
    if Leaf(es, c) {
      PathWalk(es, s, p);
      t := s;
    } else {
      assert Joins(last, s[|s| - 2], c);
      var f := SecondEdge(es, c, last);
      var d := f.Other(c);
      PathExit(es, s, p, f);
      PathSnoc(es, s, p, f, d);
      PathInTable(es, s + [d], p + [f]);
      NoDupBound(s + [d], Incidence(es).Keys);
      t := LeafFrom(es, s + [d], p + [f]);
    }
  }

  /** A node of the table has an edge. */
  lemma SomeEdge(es: seq<Edge>, x: int) returns (f: Edge)
    requires x in Incidence(es)
    ensures f in es && Touches(f, x)
  {
    IncidenceExactly(es, x);
    f :| f in es && Touches(f, x);
  }

  /** One edge from `x` is a path of two nodes. */
  lemma EdgePath(es: seq<Edge>, x: int, f: Edge)
    requires f in es && Touches(f, x) && f.id1 != f.id2
    ensures Path(es, [x, f.Other(x)], [f])
  {
    var s := [x, f.Other(x)];
    assert s[0] != s[1];
    assert Joins(f, s[0], s[1]);
  }

  /** Every node of the table of a forest is connected to a leaf. */
  lemma LeafConnected(es: seq<Edge>, x: int) returns (t: seq<int>)
    requires IsForest(es) && x in Incidence(es)
    ensures IsWalk(Span(es), t) && t[0] == x && Leaf(es, t[|t| - 1])
  {
    if Leaf(es, x) {
      t := [x];
    } else {
      var f := SomeEdge(es, x);
      NoSelfLoop(es, f);
      EdgePath(es, x, f);
      t := LeafFrom(es, [x, f.Other(x)], [f]);
    }
  }
}
