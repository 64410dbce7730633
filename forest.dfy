/** Walks over the node ids of an edge list, and spanning forests: edge
    lists in which no edge closes a cycle. The spanning-forest step of the
    feature graph is required to return such a list. */
module Forest {
  import opened FeatureTypes
  import opened Indexer

  /** `e` has `u` and `v` as its two endpoints, in either order. */
  predicate Joins(e: Edge, u: int, v: int) {
    (e.id1 == u && e.id2 == v) || (e.id1 == v && e.id2 == u)
  }

  predicate Touches(e: Edge, x: int) {
    e.id1 == x || e.id2 == x
  }

  /** The edges of a list, as a set. */
  ghost function Span(es: seq<Edge>): set<Edge> {
    set e | e in es
  }

  ghost predicate Adjacent(E: set<Edge>, u: int, v: int) {
    exists e :: e in E && Joins(e, u, v)
  }

  /** `s` is a non-empty sequence of nodes, each joined to the next by an
      edge of `E`. */
  ghost predicate IsWalk(E: set<Edge>, s: seq<int>) {
    |s| >= 1 && forall i :: 0 <= i < |s| - 1 ==> Adjacent(E, s[i], s[i + 1])
  }

  ghost predicate Connected(E: set<Edge>, u: int, v: int) {
    exists s :: IsWalk(E, s) && s[0] == u && s[|s| - 1] == v
  }

  /** No edge is listed twice, and no edge has its endpoints connected
      by the others. */
  ghost predicate IsForest(es: seq<Edge>) {
    NoDup(es) && forall k :: 0 <= k < |es| ==> !Connected(Span(es) - {es[k]}, es[k].id1, es[k].id2)
  }

  /** Every node of `W` is reached from `r` by a walk over `E` that stays in `W`. */
  ghost predicate Rooted(E: set<Edge>, W: set<int>, walks: map<int, seq<int>>, r: int) {
    forall x :: x in W ==>
      x in walks && IsWalk(E, walks[x]) && walks[x][0] == r && walks[x][|walks[x]| - 1] == x &&
      forall i :: 0 <= i < |walks[x]| ==> walks[x][i] in W
  }

  function Reverse(s: seq<int>): (r: seq<int>)
    ensures |r| == |s| && forall i :: 0 <= i < |s| ==> r[i] == s[|s| - 1 - i]
  {
    if s == [] then [] else Reverse(s[1..]) + [s[0]]
  }

  lemma ReverseWalk(E: set<Edge>, s: seq<int>)
    requires IsWalk(E, s)
    ensures IsWalk(E, Reverse(s))
  {
    var r := Reverse(s);
    forall i | 0 <= i < |r| - 1 ensures Adjacent(E, r[i], r[i + 1]) {
      var j := |s| - 2 - i;
      assert Adjacent(E, s[j], s[j + 1]);
      var e :| e in E && Joins(e, s[j], s[j + 1]);
      assert Joins(e, r[i], r[i + 1]);
    }
  }

  lemma ConnectedSymmetric(E: set<Edge>, u: int, v: int)
    requires Connected(E, u, v)
    ensures Connected(E, v, u)
  {
    var s :| IsWalk(E, s) && s[0] == u && s[|s| - 1] == v;
    ReverseWalk(E, s);
    var r := Reverse(s);
    assert r[0] == v && r[|r| - 1] == u;
  }

  /** A walk of `E` is a walk of every larger edge set. */
  lemma WalkMono(E: set<Edge>, E': set<Edge>, s: seq<int>)
    requires E <= E' && IsWalk(E, s)
    ensures IsWalk(E', s)
  {
    forall i | 0 <= i < |s| - 1 ensures Adjacent(E', s[i], s[i + 1]) {
      assert Adjacent(E, s[i], s[i + 1]);
      var e :| e in E && Joins(e, s[i], s[i + 1]);
    }
  }

  /** Connection over `E` is connection over every larger edge set. */
  lemma ConnectedMono(E: set<Edge>, E': set<Edge>, u: int, v: int)
    requires E <= E'
    ensures Connected(E, u, v) ==> Connected(E', u, v)
  {
    if Connected(E, u, v) {
      var s :| IsWalk(E, s) && s[0] == u && s[|s| - 1] == v;
      WalkMono(E, E', s);
    }
  }

  /** A walk that stays inside `W` never uses an edge with an endpoint outside `W`. */
  lemma WalkAvoids(E: set<Edge>, s: seq<int>, W: set<int>, c: int, f: Edge)
    requires IsWalk(E, s) && (forall i :: 0 <= i < |s| ==> s[i] in W)
    requires c !in W && Touches(f, c)
    ensures IsWalk(E - {f}, s)
  {
    forall i | 0 <= i < |s| - 1 ensures Adjacent(E - {f}, s[i], s[i + 1]) {
      assert Adjacent(E, s[i], s[i + 1]);
      var e :| e in E && Joins(e, s[i], s[i + 1]);
      assert s[i] in W && s[i + 1] in W;
      assert e != f;
    }
  }

  /** A forest has no self loop. */
  lemma NoSelfLoop(es: seq<Edge>, e: Edge)
    requires IsForest(es) && e in es
    ensures e.id1 != e.id2
  {
    var k :| 0 <= k < |es| && es[k] == e;
    assert IsWalk(Span(es) - {e}, [e.id1]);
  }

  /** A duplicate-free list of edges taken from a forest is a forest. */
  lemma SubForest(es: seq<Edge>, es': seq<Edge>)
    requires IsForest(es) && NoDup(es') && forall e :: e in es' ==> e in es
    ensures IsForest(es')
  {
    forall k | 0 <= k < |es'| ensures !Connected(Span(es') - {es'[k]}, es'[k].id1, es'[k].id2) {
      var e := es'[k];
      assert e in es';
      var j :| 0 <= j < |es| && es[j] == e;
      ConnectedMono(Span(es') - {e}, Span(es) - {e}, e.id1, e.id2);
    }
  }

  /** The walk `a ~> r ~> b -> c` of `NoSecondEntry`, which avoids `ea`. */
  lemma DetourWalk(E: set<Edge>, W: set<int>, wa: seq<int>, wb: seq<int>, c: int, ea: Edge, eb: Edge)
    returns (t: seq<int>)
    requires IsWalk(E, wa) && IsWalk(E, wb) && wa[0] == wb[0]
    requires (forall i :: 0 <= i < |wa| ==> wa[i] in W) && (forall i :: 0 <= i < |wb| ==> wb[i] in W)
    requires c !in W && Touches(ea, c) && eb in E && eb != ea && Joins(eb, wb[|wb| - 1], c)
    ensures IsWalk(E - {ea}, t) && t[0] == wa[|wa| - 1] && t[|t| - 1] == c
  {
    ReverseWalk(E, wa);
    var ra := Reverse(wa);
    WalkAvoids(E, ra, W, c, ea);
    WalkAvoids(E, wb, W, c, ea);
    t := ra + wb[1..] + [c];
    forall i | 0 <= i < |t| - 1 ensures Adjacent(E - {ea}, t[i], t[i + 1]) {
      if i < |ra| - 1 {
        assert t[i] == ra[i] && t[i + 1] == ra[i + 1];
      } else if i < |t| - 2 {
        var j := i - (|ra| - 1);
        assert t[i] == wb[j] && t[i + 1] == wb[j + 1];
      } else {
        assert t[i] == wb[|wb| - 1] && t[i + 1] == c;
        assert eb in E - {ea} && Joins(eb, t[i], t[i + 1]);
      }
    }
  }

  /** A second edge `eb` from `c` back into `W` would connect the ends of
      `ea` without it. */
  lemma SecondEntryConnects(es: seq<Edge>, W: set<int>, walks: map<int, seq<int>>, r: int,
                            a: int, c: int, ea: Edge, eb: Edge)
    requires Rooted(Span(es), W, walks, r)
    requires a in W && c !in W && ea in es && Joins(ea, a, c)
    requires eb in es && eb != ea && Touches(eb, c)
    ensures eb.Other(c) in W ==> Connected(Span(es) - {ea}, ea.id1, ea.id2)
  {
    var b := eb.Other(c);
    if b in W {
      var t := DetourWalk(Span(es), W, walks[a], walks[b], c, ea, eb);
      assert Connected(Span(es) - {ea}, a, c);
      if ea.id1 != a {
        ConnectedSymmetric(Span(es) - {ea}, a, c);
      }
    }
  }

  /** In a forest, once every node of `W` is reached from one root inside
      `W`, a node `c` outside `W` entered from `a` in `W` along `ea` has no
      second edge back into `W`. */
  lemma NoSecondEntry(es: seq<Edge>, W: set<int>, walks: map<int, seq<int>>, r: int,
                      a: int, c: int, ea: Edge, eb: Edge)
    requires IsForest(es) && Rooted(Span(es), W, walks, r)
    requires a in W && c !in W && ea in es && Joins(ea, a, c)
    requires eb in es && eb != ea && Touches(eb, c)
    ensures eb.Other(c) !in W
  {
    SecondEntryConnects(es, W, walks, r, a, c, ea, eb);
    var k :| 0 <= k < |es| && es[k] == ea;
  }
}
