/** The traversal that turns the surviving edge forest into feature nodes
    and polyline feature edges: from every unvisited leaf, a depth-first
    walk that collapses each run of degree-2 nodes into one edge. */
module Traversal {
  import opened FeatureTypes
  import opened Indexer
  import opened Forest
  import opened NodeEdges
  import opened Leaves

  // ---------------------------------------------------------------------
  // The state the traversal maintains.

  /** The fixed context: a forest and its `nodetoedge` table. */
  ghost predicate Ctx(es: seq<Edge>, nte: map<int, seq<Edge>>) {
    IsForest(es) && nte == Incidence(es)
  }

  /** Every node of `V` lies in the table, and every one outside `stack`
      and `extra` has all its neighbours in `V`. */
  ghost predicate Frontier(nte: map<int, seq<Edge>>, V: set<int>, stack: seq<int>, extra: set<int>) {
    (forall x :: x in V ==> x in nte) &&
    forall x, e {:trigger e in nte[x]} ::
      x in V && x in nte && e in nte[x] && x !in stack && x !in extra ==> e.Other(x) in V
  }

  /** No edge leaves `S`. */
  ghost predicate Closed(nte: map<int, seq<Edge>>, S: set<int>) {
    Frontier(nte, S, [], {})
  }

  /** `log` lists the insertions into `V`, none of them repeated. */
  ghost predicate Logged(V: set<int>, log: seq<int>) {
    NoDup(log) && forall x :: x in log <==> x in V
  }

  /** The nodes of the stack are nodes of the current tree with a feature node. */
  ghost predicate Stacked(stack: seq<int>, W: set<int>, nodes: map<int, FeatureNode>) {
    forall x :: x in stack ==> x in W && x in nodes
  }

  /** Every feature node lists a feature edge, except the root `r` of the
      current tree while the tree holds nothing else. */
  ghost predicate Attached(nodes: map<int, FeatureNode>, W: set<int>, r: int) {
    forall x :: x in nodes && |nodes[x].edges| == 0 ==> x == r && W == {r}
  }

  /** The positions of the nodes of `ch`, in order. */
  function Positions(ch: seq<int>, smooth: int -> Vec2): (ps: seq<Vec2>)
    ensures |ps| == |ch| && forall i :: 0 <= i < |ch| ==> ps[i] == smooth(ch[i])
  {
    if ch == [] then [] else Positions(ch[..|ch| - 1], smooth) + [smooth(ch[|ch| - 1])]
  }

  /** Every node strictly inside `ch` has exactly two edges. */
  ghost predicate Interior(nte: map<int, seq<Edge>>, ch: seq<int>) {
    forall i :: 0 < i < |ch| - 1 ==> ch[i] in nte && |nte[ch[i]]| == 2
  }

  /** `fe` collapses the walk `ch`: from its start node through degree-2
      nodes only to its end node, visiting no node twice, with one path
      point per node. */
  ghost predicate Polyline(es: seq<Edge>, nte: map<int, seq<Edge>>, ch: seq<int>, fe: FeatureEdge,
                           smooth: int -> Vec2) {
    |ch| >= 2 && ch[0] == fe.nodeStart && ch[|ch| - 1] == fe.nodeEnd &&
    IsWalk(Span(es), ch) && NoDup(ch) && Interior(nte, ch) &&
    fe.path == Positions(ch, smooth)
  }

  /** The feature nodes are the visited nodes whose degree is not 2, each
      at its smoothed position, listing without repetition feature edges
      that end at it. */
  ghost predicate NodesOK(nte: map<int, seq<Edge>>, V: set<int>, nodes: map<int, FeatureNode>,
                          edges: map<int, FeatureEdge>, smooth: int -> Vec2) {
    (forall x :: x in nodes <==> x in V && x in nte && |nte[x]| != 2) &&
    forall x :: x in nodes ==>
      nodes[x].id == x && nodes[x].p == smooth(x) && NoDup(nodes[x].edges) &&
      forall k :: k in nodes[x].edges ==> k in edges && (edges[k].nodeStart == x || edges[k].nodeEnd == x)
  }

  /** The feature edges are numbered `0 .. count - 1`, each listed by both
      its end nodes and the polyline of the walk `chains[k]`. */
  ghost predicate EdgesOK(es: seq<Edge>, nte: map<int, seq<Edge>>, nodes: map<int, FeatureNode>,
                          edges: map<int, FeatureEdge>, chains: map<int, seq<int>>, count: int,
                          smooth: int -> Vec2) {
    (forall k :: k in edges <==> 0 <= k < count) &&
    forall k :: k in edges ==>
      edges[k].id == k && k in chains && Polyline(es, nte, chains[k], edges[k], smooth) &&
      edges[k].nodeStart in nodes && edges[k].nodeEnd in nodes &&
      k in nodes[edges[k].nodeStart].edges && k in nodes[edges[k].nodeEnd].edges
  }

  /** One tree under way: the nodes visited before it (`V0`) have all
      their neighbours visited, and the nodes of `W` are reached from the
      root `r` inside `W`. */
  ghost predicate TreeState(es: seq<Edge>, nte: map<int, seq<Edge>>, V0: set<int>, W: set<int>,
                            walks: map<int, seq<int>>, r: int) {
    Closed(nte, V0) && V0 !! W && Rooted(Span(es), W, walks, r) && (forall x :: x in W ==> x in nte)
  }

  // ---------------------------------------------------------------------
  // Facts about the table and the forest.

  /** An edge is in the list of each of its endpoints. */
  lemma Listed(es: seq<Edge>, nte: map<int, seq<Edge>>, e: Edge, x: int)
    requires nte == Incidence(es) && e in es && Touches(e, x)
    ensures x in nte && e in nte[x]
  {
    IncidenceExactly(es, x);
  }

  /** A listed edge is an edge of the forest touching the node. */
  lemma Member(es: seq<Edge>, nte: map<int, seq<Edge>>, x: int, e: Edge)
    requires nte == Incidence(es) && x in nte && e in nte[x]
    ensures e in es && Touches(e, x)
  {
    IncidenceExactly(es, x);
  }

  lemma ListNoDup(es: seq<Edge>, nte: map<int, seq<Edge>>, x: int)
    requires Ctx(es, nte) && x in nte
    ensures NoDup(nte[x])
  {
    IncidenceExactly(es, x);
  }

  lemma WalkSnoc(E: set<Edge>, s: seq<int>, v: int, e: Edge)
    requires IsWalk(E, s) && e in E && Joins(e, s[|s| - 1], v)
    ensures IsWalk(E, s + [v])
  {
    var t := s + [v];
    forall i | 0 <= i < |t| - 1 ensures Adjacent(E, t[i], t[i + 1]) {
      if i < |s| - 1 {
        assert t[i] == s[i] && t[i + 1] == s[i + 1];
      } else {
        assert t[i] == s[|s| - 1] && t[i + 1] == v;
      }
    }
  }

  /** Entering `c` from `a` keeps the nodes reached from the root. */
  lemma RootedExtend(E: set<Edge>, W: set<int>, walks: map<int, seq<int>>, r: int, a: int, c: int, e: Edge)
    requires Rooted(E, W, walks, r) && a in W && c !in W && e in E && Joins(e, a, c)
    ensures Rooted(E, W + {c}, walks[c := walks[a] + [c]], r)
  {
    var walks' := walks[c := walks[a] + [c]];
    WalkSnoc(E, walks[a], c, e);
    forall x | x in W + {c}
      ensures x in walks' && IsWalk(E, walks'[x]) && walks'[x][0] == r && walks'[x][|walks'[x]| - 1] == x
      ensures forall i :: 0 <= i < |walks'[x]| ==> walks'[x][i] in W + {c}
    {
      if x == c {
        var s := walks[a] + [c];
        forall i | 0 <= i < |s| ensures s[i] in W + {c} {
          if i < |walks[a]| { assert s[i] == walks[a][i]; }
        }
      }
    }
  }

  /** The way out of a chain node `c`, entered from `a` along `ea`: any
      other edge of `c` leads to a node not yet visited. */
  lemma ExitFresh(es: seq<Edge>, nte: map<int, seq<Edge>>, V0: set<int>, W: set<int>,
                  walks: map<int, seq<int>>, r: int, a: int, c: int, ea: Edge, eb: Edge)
    requires Ctx(es, nte) && TreeState(es, nte, V0, W, walks, r)
    requires a in W && c !in V0 && c !in W && ea in es && Joins(ea, a, c)
    requires c in nte && eb in nte[c] && eb != ea
    ensures eb in es && Joins(eb, c, eb.Other(c)) && eb.Other(c) in nte
    ensures eb.Other(c) !in V0 && eb.Other(c) !in W && eb.Other(c) != c
  {
    var b := eb.Other(c);
    Member(es, nte, c, eb);
    NoSecondEntry(es, W, walks, r, a, c, ea, eb);
    NoSelfLoop(es, eb);
    Listed(es, nte, eb, b);
    assert eb.Other(b) == c;
  }

  /** A new tree: its root alone, reached by the one-node walk. */
  lemma TreeBegin(es: seq<Edge>, nte: map<int, seq<Edge>>, V: set<int>, pid: int)
    requires Closed(nte, V) && pid !in V && pid in nte
    ensures TreeState(es, nte, V, {pid}, map[pid := [pid]], pid)
  {
    assert IsWalk(Span(es), [pid]);
  }

  /** Cardinality step for the termination measures. */
  lemma FewerLeft(nte: map<int, seq<Edge>>, V: set<int>, V': set<int>)
    requires V <= V' && V != V' && forall x :: x in V' ==> x in nte
    ensures |nte.Keys - V'| < |nte.Keys - V|
  {
    forall x | x in V' ensures x in nte.Keys {
      assert x in nte;
    }
    FewerOutside(nte.Keys, V, V');
  }

  lemma FewerOutside(K: set<int>, V: set<int>, V': set<int>)
    requires V <= V' && V != V' && V' <= K
    ensures |K - V'| < |K - V|
  {
    var A, B := K - V', K - V;
    assert V' == V + (V' - V);
    assert |V' - V| != 0;
    assert B - A == V' - V;
    assert B * A == A;
    assert |B - A| == |B| - |A|;
  }

  /** Adding distinct fresh insertions keeps the log free of repetition. */
  lemma LogAppend(V: set<int>, log: seq<int>, s: seq<int>, V': set<int>)
    requires Logged(V, log) && NoDup(s) && (forall i :: 0 <= i < |s| ==> s[i] !in V)
    requires forall x :: x in V' <==> x in V || x in s
    ensures Logged(V', log + s)
  {
    var t := log + s;
    forall i, j | 0 <= i < j < |t| ensures t[i] != t[j] {
      if j >= |log| && i < |log| {
        assert t[i] in log && t[j] == s[j - |log|];
      } else if i >= |log| {
        assert t[i] == s[i - |log|] && t[j] == s[j - |log|];
      }
    }
  }

  // ---------------------------------------------------------------------
  // Facts about one chain.

  lemma PositionsSnoc(ch: seq<int>, x: int, smooth: int -> Vec2)
    ensures Positions(ch + [x], smooth) == Positions(ch, smooth) + [smooth(x)]
  {
    assert (ch + [x])[..|ch|] == ch;
  }

  /** A walk from `cur` to `next`, all of whose inner nodes have degree
      2, together with the path of the nodes before `next`. */
  ghost predicate Chain(es: seq<Edge>, nte: map<int, seq<Edge>>, ch: seq<int>, cur: int, next: int,
                        path: seq<Vec2>, smooth: int -> Vec2) {
    |ch| >= 2 && ch[0] == cur && ch[|ch| - 1] == next && IsWalk(Span(es), ch) && Interior(nte, ch) &&
    path == Positions(ch[..|ch| - 1], smooth)
  }

  /** The chain after the first step along `e`. */
  lemma ChainBegin(es: seq<Edge>, nte: map<int, seq<Edge>>, cur: int, next: int, e: Edge, smooth: int -> Vec2)
    requires e in es && Joins(e, cur, next)
    ensures Chain(es, nte, [cur, next], cur, next, [smooth(cur)], smooth)
  {
    assert e in Span(es) && Adjacent(Span(es), cur, next);
    assert [cur, next][..1] == [cur];
    assert Positions([cur], smooth) == [smooth(cur)];
  }

  /** Moving on from the degree-2 node `next` along `eb` to `n2`. */
  lemma ChainExtend(es: seq<Edge>, nte: map<int, seq<Edge>>, ch: seq<int>, cur: int, next: int,
                    path: seq<Vec2>, smooth: int -> Vec2, n2: int, eb: Edge)
    requires Chain(es, nte, ch, cur, next, path, smooth)
    requires next in nte && |nte[next]| == 2 && eb in es && Joins(eb, next, n2)
    ensures Chain(es, nte, ch + [n2], cur, n2, path + [smooth(next)], smooth)
  {
    var ch2 := ch + [n2];
    assert eb in Span(es);
    WalkSnoc(Span(es), ch, n2, eb);
    forall i | 0 < i < |ch2| - 1 ensures ch2[i] in nte && |nte[ch2[i]]| == 2 {
      assert ch2[i] == ch[i];
    }
    assert ch2[..|ch2| - 1] == ch;
    assert ch[..|ch| - 1] + [next] == ch;
    PositionsSnoc(ch[..|ch| - 1], next, smooth);
  }

  /** The log of a chain walk: the insertions so far are those of `log`
      followed by the chain less its start, and the walk started by
      reaching `first`. */
  ghost predicate ChainLog(V: set<int>, log: seq<int>, ch: seq<int>, first: int, V': set<int>, log': seq<int>) {
    |ch| >= 1 && log' == log + ch[1..] && Logged(V', log') && first in V' && V <= V'
  }

  lemma LogBegin(V: set<int>, log: seq<int>, cur: int, next: int)
    requires Logged(V, log) && next !in V
    ensures ChainLog(V, log, [cur, next], next, V + {next}, log + [next])
  {
    assert [cur, next][1..] == [next];
    LogAppend(V, log, [next], V + {next});
  }

  /** One more insertion appended to the log of the chain. */
  lemma LogStep(V: set<int>, log: seq<int>, ch: seq<int>, first: int, V': set<int>, log': seq<int>, n2: int)
    requires ChainLog(V, log, ch, first, V', log') && n2 !in V'
    ensures ChainLog(V, log, ch + [n2], first, V' + {n2}, log' + [n2])
  {
    assert (ch + [n2])[1..] == ch[1..] + [n2];
    LogAppend(V', log', [n2], V' + {n2});
  }

  /** The log shows the chain to be free of repetition and fresh. */
  lemma ChainNoDup(V: set<int>, log: seq<int>, ch: seq<int>)
    requires Logged(V, log) && |ch| >= 1 && ch[0] in V && NoDup(log + ch[1..])
    ensures NoDup(ch) && forall i :: 0 < i < |ch| ==> ch[i] !in V
  {
    var t := log + ch[1..];
    forall i | 0 < i < |ch| ensures ch[i] !in V {
      assert t[|log| + i - 1] == ch[i];
      assert forall j :: 0 <= j < |log| ==> t[j] == log[j];
    }
    forall i, j | 0 <= i < j < |ch| ensures ch[i] != ch[j] {
      if i > 0 {
        assert t[|log| + i - 1] == ch[i] && t[|log| + j - 1] == ch[j];
      }
    }
  }

  /** The tree side of a chain walk: the tree `W'` grown from `W`, the
      chain node `next` entered from `a` in `W'` along `ea`, and the
      visited set `V'` made of the earlier trees, `W'` and `next`. */
  ghost predicate ChainTree(es: seq<Edge>, nte: map<int, seq<Edge>>, V0: set<int>, W: set<int>, next: int, a: int,
                            ea: Edge, V': set<int>, W': set<int>, walks': map<int, seq<int>>, r: int) {
    W <= W' && next in nte && next !in V0 && next !in W' && a in W' && ea in es && Joins(ea, a, next) &&
    V' == V0 + W' + {next} && TreeState(es, nte, V0, W', walks', r) && (forall x :: x in V' ==> x in nte)
  }

  /** Stepping from `next` to `n2` along `eb` moves `next` into the tree. */
  lemma TreeStep(es: seq<Edge>, nte: map<int, seq<Edge>>, V0: set<int>, W: set<int>, next: int, a: int,
                 ea: Edge, V': set<int>, W': set<int>, walks': map<int, seq<int>>, r: int, eb: Edge, n2: int)
    requires ChainTree(es, nte, V0, W, next, a, ea, V', W', walks', r)
    requires eb in es && Joins(eb, next, n2) && n2 in nte && n2 !in V0 && n2 !in W' && n2 != next
    ensures n2 !in V'
    ensures ChainTree(es, nte, V0, W, n2, next, eb, V' + {n2}, W' + {next}, walks'[next := walks'[a] + [next]], r)
  {
    assert ea in Span(es);
    RootedExtend(Span(es), W', walks', r, a, next, ea);
  }

  /** `x` is a chain node whose two neighbours are in `V`. */
  ghost predicate Done(nte: map<int, seq<Edge>>, x: int, V: set<int>) {
    x in nte && |nte[x]| == 2 && forall f :: f in nte[x] ==> f.Other(x) in V
  }

  /** The nodes walked so far other than `next`: chain nodes whose two
      neighbours are visited. */
  ghost predicate ChainDone(nte: map<int, seq<Edge>>, V: set<int>, V': set<int>, next: int) {
    forall x :: x in V' && x !in V && x != next ==> Done(nte, x, V')
  }

  lemma DoneStep(nte: map<int, seq<Edge>>, V: set<int>, V': set<int>, next: int, ea: Edge, eb: Edge)
    requires ChainDone(nte, V, V', next) && next in nte && |nte[next]| == 2
    requires (forall f :: f in nte[next] ==> f == ea || f == eb) && ea.Other(next) in V'
    ensures ChainDone(nte, V, V' + {eb.Other(next)}, eb.Other(next))
  {
    var V2 := V' + {eb.Other(next)};
    forall x | x in V2 && x !in V && x != eb.Other(next) ensures Done(nte, x, V2) {
      if x != next {
        assert Done(nte, x, V');
      }
    }
  }

  // ---------------------------------------------------------------------
  // The chain walk: `while (nodetoedge.at(next).size() == 2)`.

  /** The state of the chain walk started at `cur` (a node of the tree
      `W`) with visited set `V` and log `log`: `chain` is the walk so far,
      its first step reached `first`, and it ends at `next`, entered from
      `a` along `ea`; `W'` is the tree without `next`. */
  ghost predicate ChainState(es: seq<Edge>, nte: map<int, seq<Edge>>, smooth: int -> Vec2, V: set<int>,
                             log: seq<int>, W: set<int>, V0: set<int>, cur: int, first: int, next: int,
                             a: int, ea: Edge, V': set<int>, log': seq<int>, W': set<int>,
                             walks': map<int, seq<int>>, r: int, path: seq<Vec2>, chain: seq<int>) {
    Chain(es, nte, chain, cur, next, path, smooth) && ChainLog(V, log, chain, first, V', log') &&
    ChainTree(es, nte, V0, W, next, a, ea, V', W', walks', r) && ChainDone(nte, V, V', next)
  }

  /** What the chain walk hands back: the finished chain from `cur`
      through its first step along `e` to the end node `next`, the
      visited set `V'` and log `log'`, and the tree `W'` now holding
      `next`. */
  ghost predicate Walked(es: seq<Edge>, nte: map<int, seq<Edge>>, smooth: int -> Vec2, V: set<int>, log: seq<int>,
                         W: set<int>, V0: set<int>, cur: int, e: Edge, next: int, V': set<int>, log': seq<int>,
                         W': set<int>, walks': map<int, seq<int>>, r: int, path: seq<Vec2>, chain: seq<int>) {
    Chain(es, nte, chain, cur, next, path, smooth) && NoDup(chain) && next in nte && |nte[next]| != 2 &&
    V <= V' && e.Other(cur) in V' && next in V' && next !in V &&
    (forall x :: x in V' && x !in V && x != next ==> Done(nte, x, V')) &&
    Logged(V', log') && V' == V0 + W' && W <= W' && TreeState(es, nte, V0, W', walks', r) &&
    (forall x :: x in V' ==> x in nte)
  }

  /** The state after the first step along `e`. */
  lemma ChainStart(es: seq<Edge>, nte: map<int, seq<Edge>>, smooth: int -> Vec2, V: set<int>, log: seq<int>,
                   W: set<int>, V0: set<int>, walks: map<int, seq<int>>, r: int, cur: int, e: Edge)
    requires nte == Incidence(es) && TreeState(es, nte, V0, W, walks, r) && V == V0 + W && Logged(V, log)
    requires cur in W && cur in nte && e in nte[cur] && e.Other(cur) !in V
    ensures ChainState(es, nte, smooth, V, log, W, V0, cur, e.Other(cur), e.Other(cur), cur, e,
                       V + {e.Other(cur)}, log + [e.Other(cur)], W, walks, r, [smooth(cur)], [cur, e.Other(cur)])
  {
    var next := e.Other(cur);
    Member(es, nte, cur, e);
    Listed(es, nte, e, next);
    ChainBegin(es, nte, cur, next, e, smooth);
    LogBegin(V, log, cur, next);
  }

  /** The chain walk ends at a node whose degree is not 2. */
  lemma ChainFinish(es: seq<Edge>, nte: map<int, seq<Edge>>, smooth: int -> Vec2, V: set<int>,
                    log: seq<int>, W: set<int>, V0: set<int>, cur: int, e: Edge, next: int,
                    a: int, ea: Edge, V': set<int>, log': seq<int>, W': set<int>,
                    walks': map<int, seq<int>>, r: int, path: seq<Vec2>, chain: seq<int>)
    requires ChainState(es, nte, smooth, V, log, W, V0, cur, e.Other(cur), next, a, ea, V', log', W', walks', r,
                        path, chain)
    requires Logged(V, log) && cur in V && |nte[next]| != 2
    ensures Walked(es, nte, smooth, V, log, W, V0, cur, e, next, V', log', W' + {next},
                   walks'[next := walks'[a] + [next]], r, path, chain)
  {
    assert ea in Span(es);
    RootedExtend(Span(es), W', walks', r, a, next, ea);
    ChainNoDup(V, log, chain);
  }

  /** The edge of the chain node `next` other than the one it was
      entered by, and where it leads. */
  lemma NextEdge(es: seq<Edge>, nte: map<int, seq<Edge>>, V0: set<int>, W: set<int>, next: int, a: int, ea: Edge,
                 V': set<int>, W': set<int>, walks': map<int, seq<int>>, r: int) returns (eb: Edge)
    requires Ctx(es, nte) && ChainTree(es, nte, V0, W, next, a, ea, V', W', walks', r) && |nte[next]| == 2
    ensures (nte[next][0] == ea || nte[next][0] == eb) && (nte[next][1] == ea || nte[next][1] == eb)
    ensures nte[next][0] != nte[next][1]
    ensures forall f :: f in nte[next] ==> f == ea || f == eb
    ensures eb in es && Joins(eb, next, eb.Other(next)) && eb.Other(next) in nte && eb.Other(next) != next
    ensures eb.Other(next) !in V0 && eb.Other(next) !in W' && ea.Other(next) == a
  {
    var f0, f1 := nte[next][0], nte[next][1];
    ListNoDup(es, nte, next);
    Listed(es, nte, ea, next);
    eb := if f0 == ea then f1 else f0;
    assert f0 != f1;
    forall f | f in nte[next] ensures f == ea || f == eb {
      assert f == f0 || f == f1;
    }
    ExitFresh(es, nte, V0, W', walks', r, a, next, ea, eb);
  }

  /** The ghost side of one step along a chain: the edge `eb` of `next`
      other than `ea` leads to a fresh node, and the chain state moves on
      to it. */
  lemma ChainAdvance(es: seq<Edge>, nte: map<int, seq<Edge>>, smooth: int -> Vec2, V: set<int>,
                     log: seq<int>, W: set<int>, V0: set<int>, cur: int, first: int, next: int, a: int, ea: Edge,
                     V': set<int>, log': seq<int>, W': set<int>, walks': map<int, seq<int>>, r: int,
                     path: seq<Vec2>, chain: seq<int>) returns (eb: Edge)
    requires Ctx(es, nte)
    requires ChainState(es, nte, smooth, V, log, W, V0, cur, first, next, a, ea, V', log', W', walks', r, path, chain)
    requires |nte[next]| == 2
    ensures (nte[next][0] == ea || nte[next][0] == eb) && (nte[next][1] == ea || nte[next][1] == eb)
    ensures nte[next][0] != nte[next][1]
    ensures ea.Other(next) in V' && eb.Other(next) !in V'
    ensures ChainState(es, nte, smooth, V, log, W, V0, cur, first, eb.Other(next), next, eb,
                       V' + {eb.Other(next)}, log' + [eb.Other(next)], W' + {next},
                       walks'[next := walks'[a] + [next]], r, path + [smooth(next)], chain + [eb.Other(next)])
  {
    eb := NextEdge(es, nte, V0, W, next, a, ea, V', W', walks', r);
    var n2 := eb.Other(next);
    ChainExtend(es, nte, chain, cur, next, path, smooth, n2, eb);
    TreeStep(es, nte, V0, W, next, a, ea, V', W', walks', r, eb, n2);
    LogStep(V, log, chain, first, V', log', n2);
    DoneStep(nte, V, V', next, ea, eb);
  }

  /** One step along a chain: append the chain node to the path and move
      to its neighbour that is not yet visited. */
  method ChainStep(ghost es: seq<Edge>, nte: map<int, seq<Edge>>, smooth: int -> Vec2, ghost V: set<int>,
                   ghost log: seq<int>, ghost W: set<int>, ghost V0: set<int>, ghost cur: int, ghost first: int,
                   next: int, ghost a: int, ghost ea: Edge, visited: set<int>, ghost log': seq<int>,
                   ghost W': set<int>, ghost walks': map<int, seq<int>>, ghost r: int, path: seq<Vec2>,
                   ghost chain: seq<int>)
    returns (next2: int, ghost a2: int, ghost ea2: Edge, visited2: set<int>, ghost log2: seq<int>,
             ghost W2: set<int>, ghost walks2: map<int, seq<int>>, path2: seq<Vec2>, ghost chain2: seq<int>)
    requires Ctx(es, nte)
    requires ChainState(es, nte, smooth, V, log, W, V0, cur, first, next, a, ea, visited, log', W', walks', r, path, chain)
    requires |nte[next]| == 2
    ensures ChainState(es, nte, smooth, V, log, W, V0, cur, first, next2, a2, ea2, visited2, log2, W2, walks2, r,
                       path2, chain2)
    ensures visited <= visited2 && next2 in visited2 && next2 !in visited
    ensures next2 == nte[next][0].Other(next) || next2 == nte[next][1].Other(next)
    ensures visited2 == visited + {next2} && path2 == path + [smooth(next)]
    ensures a2 == next && chain2 == chain + [next2]
  {
    ghost var eb := ChainAdvance(es, nte, smooth, V, log, W, V0, cur, first, next, a, ea, visited, log', W', walks', r,
                                 path, chain);
    path2 := path + [smooth(next)];
    var along := nte[next][0].Other(next);
    if along !in visited {
      next2 := along;
    } else {
      next2 := nte[next][1].Other(next);
    }
    assert next2 == eb.Other(next);
    visited2 := visited + {next2};
    a2, ea2, log2 := next, eb, log' + [next2];
    W2, walks2 := W' + {next}, walks'[next := walks'[a] + [next]];
    chain2 := chain + [next2];
  }

  /** The walk from `cur` along `e` up to the first node whose degree is
      not 2: the loop of the source together with the insertion of the
      first node and the start of the path. */
  method ChainWalk(ghost es: seq<Edge>, nte: map<int, seq<Edge>>, smooth: int -> Vec2,
                   visited: set<int>, ghost log: seq<int>,
                   ghost V0: set<int>, ghost W: set<int>, ghost walks: map<int, seq<int>>, ghost r: int,
                   cur: int, e: Edge)
    returns (next: int, visited': set<int>, ghost log': seq<int>, ghost W': set<int>,
             ghost walks': map<int, seq<int>>, path: seq<Vec2>, ghost chain: seq<int>)
    requires Ctx(es, nte) && TreeState(es, nte, V0, W, walks, r)
    requires visited == V0 + W && Logged(visited, log)
    requires cur in W && cur in nte && e in nte[cur] && e.Other(cur) !in visited
    ensures Walked(es, nte, smooth, visited, log, W, V0, cur, e, next, visited', log', W', walks', r, path, chain)
  {
    ChainStart(es, nte, smooth, visited, log, W, V0, walks, r, cur, e);
    next := e.Other(cur);
    ghost var a, ea := cur, e;
    visited' := visited + {next};
    log' := log + [next];
    path := [smooth(cur)];
    chain := [cur, next];
    W', walks' := W, walks;
    while |nte[next]| == 2
      invariant ChainState(es, nte, smooth, visited, log, W, V0, cur, e.Other(cur), next, a, ea, visited', log', W',
                           walks', r, path, chain)
      decreases |nte.Keys - visited'|
    {
      ghost var before := visited';
      next, a, ea, visited', log', W', walks', path, chain :=
        ChainStep(es, nte, smooth, visited, log, W, V0, cur, e.Other(cur), next, a, ea, visited', log', W', walks', r,
                  path, chain);
      FewerLeft(nte, before, visited');
    }
    ChainFinish(es, nte, smooth, visited, log, W, V0, cur, e, next, a, ea, visited', log', W', walks', r, path, chain);
    W', walks' := W' + {next}, walks'[next := walks'[a] + [next]];
  }

  // ---------------------------------------------------------------------
  // Recording a finished feature edge.

  /** The feature nodes after the end node `next` is created and the
      feature edge `k` is listed at `cur` and at `next`. */
  function Linked(nodes: map<int, FeatureNode>, cur: int, next: int, p: Vec2, k: int): map<int, FeatureNode>
    requires cur in nodes
  {
    nodes[cur := nodes[cur].(edges := nodes[cur].edges + [k])][next := FeatureNode(next, p, [k])]
  }

  lemma NoDupSnoc(s: seq<int>, x: int)
    requires NoDup(s) && x !in s
    ensures NoDup(s + [x])
  {
    var t := s + [x];
    forall i, j | 0 <= i < j < |t| ensures t[i] != t[j] {
      if j == |s| {
        assert t[i] == s[i];
      } else {
        assert t[i] == s[i] && t[j] == s[j];
      }
    }
  }

  /** The walked nodes that are not the end node all have degree 2, so
      they add no feature node. */
  lemma NodesGrow(nte: map<int, seq<Edge>>, V: set<int>, V': set<int>, nodes: map<int, FeatureNode>,
                  edges: map<int, FeatureEdge>, smooth: int -> Vec2)
    requires NodesOK(nte, V, nodes, edges, smooth) && V <= V'
    requires forall x :: x in V' && x !in V ==> x in nte && |nte[x]| == 2
    ensures NodesOK(nte, V', nodes, edges, smooth)
  {
  }

  /** Creating the end node and listing the new feature edge at both end
      nodes keeps the feature nodes in order. */
  lemma NodesRecord(nte: map<int, seq<Edge>>, V: set<int>, nodes: map<int, FeatureNode>,
                    edges: map<int, FeatureEdge>, smooth: int -> Vec2, fe: FeatureEdge)
    requires NodesOK(nte, V, nodes, edges, smooth) && fe.id !in edges
    requires fe.nodeStart in nodes && fe.nodeEnd !in V && fe.nodeEnd in nte && |nte[fe.nodeEnd]| != 2
    ensures NodesOK(nte, V + {fe.nodeEnd}, Linked(nodes, fe.nodeStart, fe.nodeEnd, smooth(fe.nodeEnd), fe.id),
                    edges[fe.id := fe], smooth)
  {
    var cur, next, k := fe.nodeStart, fe.nodeEnd, fe.id;
    var nodes' := Linked(nodes, cur, next, smooth(next), k);
    var edges' := edges[k := fe];
    assert k !in nodes[cur].edges;
    NoDupSnoc(nodes[cur].edges, k);
    forall x | x in nodes'
      ensures nodes'[x].id == x && nodes'[x].p == smooth(x) && NoDup(nodes'[x].edges)
      ensures forall j :: j in nodes'[x].edges ==> j in edges' && (edges'[j].nodeStart == x || edges'[j].nodeEnd == x)
    {
      if x != cur && x != next {
        assert nodes'[x] == nodes[x];
      }
    }
  }

  /** Numbering the new feature edge `count` keeps the feature edges in order. */
  lemma EdgesRecord(es: seq<Edge>, nte: map<int, seq<Edge>>, nodes: map<int, FeatureNode>,
                    edges: map<int, FeatureEdge>, chains: map<int, seq<int>>, count: nat, smooth: int -> Vec2,
                    fe: FeatureEdge, ch: seq<int>)
    requires EdgesOK(es, nte, nodes, edges, chains, count, smooth) && Polyline(es, nte, ch, fe, smooth)
    requires fe.id == count && fe.nodeStart in nodes && fe.nodeEnd !in nodes
    ensures EdgesOK(es, nte, Linked(nodes, fe.nodeStart, fe.nodeEnd, smooth(fe.nodeEnd), count),
                    edges[count := fe], chains[count := ch], count + 1, smooth)
  {
    var nodes' := Linked(nodes, fe.nodeStart, fe.nodeEnd, smooth(fe.nodeEnd), count);
    var edges', chains' := edges[count := fe], chains[count := ch];
    forall k | k in edges'
      ensures edges'[k].id == k && k in chains' && Polyline(es, nte, chains'[k], edges'[k], smooth)
      ensures edges'[k].nodeStart in nodes' && edges'[k].nodeEnd in nodes'
      ensures k in nodes'[edges'[k].nodeStart].edges && k in nodes'[edges'[k].nodeEnd].edges
    {
      if k == count {
        assert nodes'[fe.nodeEnd].edges == [count];
      } else {
        var s, t := edges[k].nodeStart, edges[k].nodeEnd;
        assert edges'[k] == edges[k] && chains'[k] == chains[k];
        assert s != fe.nodeEnd && t != fe.nodeEnd;
        assert s == fe.nodeStart ==> k in nodes'[s].edges;
        assert t == fe.nodeStart ==> k in nodes'[t].edges;
      }
    }
  }

  /** The path of a feature edge has at least two points, starts at the
      smoothed position of its start node, ends at that of its end node,
      and each interior point is the position of a walked node of degree 2. */
  lemma PolylinePath(es: seq<Edge>, nte: map<int, seq<Edge>>, ch: seq<int>, fe: FeatureEdge, smooth: int -> Vec2)
    requires Polyline(es, nte, ch, fe, smooth)
    ensures |fe.path| == |ch| >= 2
    ensures fe.path[0] == smooth(fe.nodeStart) && fe.path[|fe.path| - 1] == smooth(fe.nodeEnd)
    ensures forall i :: 0 < i < |ch| - 1 ==> fe.path[i] == smooth(ch[i]) && ch[i] in nte && |nte[ch[i]]| == 2
  {
  }

  /** The finished chain is the polyline of the new feature edge. */
  lemma ChainPolyline(es: seq<Edge>, nte: map<int, seq<Edge>>, ch: seq<int>, cur: int, next: int,
                      path: seq<Vec2>, smooth: int -> Vec2, fe: FeatureEdge)
    requires Chain(es, nte, ch, cur, next, path, smooth) && NoDup(ch)
    requires fe.nodeStart == cur && fe.nodeEnd == next && fe.path == path + [smooth(next)]
    ensures Polyline(es, nte, ch, fe, smooth)
  {
    assert ch[..|ch| - 1] + [next] == ch;
    PositionsSnoc(ch[..|ch| - 1], next, smooth);
  }

  /** Create the end node `next`, number the new feature edge, and list it
      at both its end nodes. */
  method RecordEdge(nodes: map<int, FeatureNode>, edges: map<int, FeatureEdge>, ghost chains: map<int, seq<int>>,
                    counter: nat, cur: int, next: int, path: seq<Vec2>, ghost chain: seq<int>, smooth: int -> Vec2)
    returns (nodes': map<int, FeatureNode>, edges': map<int, FeatureEdge>, ghost chains': map<int, seq<int>>,
             counter': nat)
    requires cur in nodes && cur != next
    ensures counter' == counter + 1
    ensures nodes' == Linked(nodes, cur, next, smooth(next), counter)
    ensures edges' == edges[counter := FeatureEdge(counter, cur, next, path + [smooth(next)])]
    ensures chains' == chains[counter := chain]
  {
    nodes' := nodes[next := FeatureNode(next, smooth(next), [])];
    var fe := FeatureEdge(counter, cur, next, path + [nodes'[next].p]);
    counter' := counter + 1;
    nodes' := nodes'[cur := nodes'[cur].(edges := nodes'[cur].edges + [fe.id])];
    nodes' := nodes'[next := nodes'[next].(edges := nodes'[next].edges + [fe.id])];
    edges' := edges[fe.id := fe];
    chains' := chains[fe.id := chain];
    assert nodes'[next].edges == [counter];
  }

  // ---------------------------------------------------------------------
  // How the frontier moves.

  /** A new tree starts with its root on the stack. */
  lemma FrontierRoot(nte: map<int, seq<Edge>>, V: set<int>, pid: int)
    requires Closed(nte, V) && pid in nte
    ensures Frontier(nte, V + {pid}, [pid], {})
  {
  }

  /** The popped node is still to be finished. */
  lemma FrontierPop(nte: map<int, seq<Edge>>, V: set<int>, stack: seq<int>)
    requires Frontier(nte, V, stack, {}) && |stack| > 0
    ensures Frontier(nte, V, stack[..|stack| - 1], {stack[|stack| - 1]})
  {
    assert stack == stack[..|stack| - 1] + [stack[|stack| - 1]];
  }

  /** After a chain walk, only the pushed end node may miss neighbours. */
  lemma FrontierGrow(nte: map<int, seq<Edge>>, V: set<int>, V': set<int>, stack: seq<int>, cur: int, next: int)
    requires Frontier(nte, V, stack, {cur}) && V <= V' && next in V'
    requires forall x :: x in V' ==> x in nte
    requires forall x :: x in V' && x !in V && x != next ==> Done(nte, x, V')
    ensures Frontier(nte, V', stack + [next], {cur})
  {
    forall x, e | x in V' && x in nte && e in nte[x] && x !in stack + [next] && x !in {cur}
      ensures e.Other(x) in V'
    {
      if x !in V {
        assert Done(nte, x, V');
      }
    }
  }

  /** Once every edge of `cur` leads to a visited node, `cur` is finished. */
  lemma FrontierSettle(nte: map<int, seq<Edge>>, V: set<int>, stack: seq<int>, cur: int)
    requires Frontier(nte, V, stack, {cur}) && cur in nte && forall f :: f in nte[cur] ==> f.Other(cur) in V
    ensures Frontier(nte, V, stack, {})
  {
  }

  /** A new root adds a feature node. */
  lemma NodesAdd(nte: map<int, seq<Edge>>, V: set<int>, nodes: map<int, FeatureNode>,
                 edges: map<int, FeatureEdge>, smooth: int -> Vec2, pid: int)
    requires NodesOK(nte, V, nodes, edges, smooth) && pid !in V && pid in nte && |nte[pid]| != 2
    ensures NodesOK(nte, V + {pid}, nodes[pid := FeatureNode(pid, smooth(pid), [])], edges, smooth)
  {
  }

  lemma EdgesAdd(es: seq<Edge>, nte: map<int, seq<Edge>>, nodes: map<int, FeatureNode>,
                 edges: map<int, FeatureEdge>, chains: map<int, seq<int>>, count: int, smooth: int -> Vec2, pid: int)
    requires EdgesOK(es, nte, nodes, edges, chains, count, smooth) && pid !in nodes
    ensures EdgesOK(es, nte, nodes[pid := FeatureNode(pid, smooth(pid), [])], edges, chains, count, smooth)
  {
  }

  // ---------------------------------------------------------------------
  // Following one edge of the node being processed.

  /** The state of the traversal inside one tree: the tree so far, the
      visited set with its log, and the feature nodes and edges built. */
  ghost predicate TreeInv(es: seq<Edge>, nte: map<int, seq<Edge>>, smooth: int -> Vec2, V0: set<int>, W: set<int>,
                          walks: map<int, seq<int>>, r: int, visited: set<int>, log: seq<int>,
                          nodes: map<int, FeatureNode>, edges: map<int, FeatureEdge>, chains: map<int, seq<int>>,
                          counter: nat) {
    TreeState(es, nte, V0, W, walks, r) && visited == V0 + W && Logged(visited, log) &&
    NodesOK(nte, visited, nodes, edges, smooth) && EdgesOK(es, nte, nodes, edges, chains, counter, smooth)
  }

  /** Recording the walked chain as feature edge `counter` and pushing its
      end node keeps the state of the tree. */
  lemma FollowFacts(es: seq<Edge>, nte: map<int, seq<Edge>>, smooth: int -> Vec2, V0: set<int>, W: set<int>,
                    walks: map<int, seq<int>>, r: int, visited: set<int>, log: seq<int>,
                    nodes: map<int, FeatureNode>, edges: map<int, FeatureEdge>, chains: map<int, seq<int>>,
                    counter: nat, stack: seq<int>, cur: int, e: Edge, next: int, visited': set<int>, log': seq<int>,
                    W': set<int>, walks': map<int, seq<int>>, path: seq<Vec2>, chain: seq<int>)
    requires TreeInv(es, nte, smooth, V0, W, walks, r, visited, log, nodes, edges, chains, counter)
    requires cur in W && cur in nodes && Stacked(stack, W, nodes) && Frontier(nte, visited, stack, {cur})
    requires Walked(es, nte, smooth, visited, log, W, V0, cur, e, next, visited', log', W', walks', r, path, chain)
    ensures cur != next && cur in W' && next in W'
    ensures TreeInv(es, nte, smooth, V0, W', walks', r, visited', log', Linked(nodes, cur, next, smooth(next), counter),
                    edges[counter := FeatureEdge(counter, cur, next, path + [smooth(next)])],
                    chains[counter := chain], counter + 1)
    ensures Frontier(nte, visited', stack + [next], {cur})
  {
    var V := visited' - {next};
    NodesGrow(nte, visited, V, nodes, edges, smooth);
    var fe := FeatureEdge(counter, cur, next, path + [smooth(next)]);
    NodesRecord(nte, V, nodes, edges, smooth, fe);
    ChainPolyline(es, nte, chain, cur, next, path, smooth, fe);
    EdgesRecord(es, nte, nodes, edges, chains, counter, smooth, fe, chain);
    assert V + {next} == visited';
    FrontierGrow(nte, visited, visited', stack, cur, next);
  }

  /** The stack after pushing the end node `next` of a new feature edge. */
  lemma StackPush(stack: seq<int>, W: set<int>, nodes: map<int, FeatureNode>, W': set<int>,
                  nodes': map<int, FeatureNode>, next: int)
    requires Stacked(stack, W, nodes) && W <= W' && nodes.Keys <= nodes'.Keys && next in W' && next in nodes'
    ensures Stacked(stack + [next], W', nodes')
  {
  }

  /** Once a new feature edge is listed at `cur`, a node of the tree, and
      at its end node, every feature node lists a feature edge. */
  lemma AttachedLink(nodes: map<int, FeatureNode>, W: set<int>, r: int, cur: int, next: int, p: Vec2, k: int,
                     W': set<int>)
    requires Attached(nodes, W, r) && cur in nodes && cur in W
    ensures forall x :: x in Linked(nodes, cur, next, p, k) ==> |Linked(nodes, cur, next, p, k)[x].edges| >= 1
    ensures Attached(Linked(nodes, cur, next, p, k), W', r)
  {
    var nodes' := Linked(nodes, cur, next, p, k);
    forall x | x in nodes' ensures |nodes'[x].edges| >= 1 {
      if x != cur && x != next {
        assert nodes'[x] == nodes[x];
      }
    }
  }

  /** The body of the edge loop for an edge whose far node is not yet
      visited: walk the chain, record the feature edge, push its end node. */
  method FollowEdge(ghost es: seq<Edge>, nte: map<int, seq<Edge>>, smooth: int -> Vec2, cur: int, e: Edge,
                    visited: set<int>, ghost log: seq<int>, nodes: map<int, FeatureNode>,
                    edges: map<int, FeatureEdge>, ghost chains: map<int, seq<int>>, counter: nat, stack: seq<int>,
                    ghost V0: set<int>, ghost W: set<int>, ghost walks: map<int, seq<int>>, ghost r: int)
    returns (visited': set<int>, ghost log': seq<int>, nodes': map<int, FeatureNode>,
             edges': map<int, FeatureEdge>, ghost chains': map<int, seq<int>>, counter': nat, stack': seq<int>,
             ghost W': set<int>, ghost walks': map<int, seq<int>>)
    requires Ctx(es, nte) && TreeInv(es, nte, smooth, V0, W, walks, r, visited, log, nodes, edges, chains, counter)
    requires cur in W && cur in nodes && e in nte[cur] && e.Other(cur) !in visited
    requires Stacked(stack, W, nodes) && Frontier(nte, visited, stack, {cur}) && Attached(nodes, W, r)
    ensures TreeInv(es, nte, smooth, V0, W', walks', r, visited', log', nodes', edges', chains', counter')
    ensures cur in W' && cur in nodes' && Stacked(stack', W', nodes') && Frontier(nte, visited', stack', {cur})
    ensures Attached(nodes', W', r) && visited <= visited' && e.Other(cur) in visited'
    ensures counter' == counter + 1 && counter in edges' && edges' == edges[counter := edges'[counter]]
    ensures edges'[counter].nodeStart == cur && stack' == stack + [edges'[counter].nodeEnd]
  {
    var next, path;
    ghost var chain;
    next, visited', log', W', walks', path, chain := ChainWalk(es, nte, smooth, visited, log, V0, W, walks, r, cur, e);
    FollowFacts(es, nte, smooth, V0, W, walks, r, visited, log, nodes, edges, chains, counter, stack, cur, e,
                next, visited', log', W', walks', path, chain);
    nodes', edges', chains', counter' := RecordEdge(nodes, edges, chains, counter, cur, next, path, chain, smooth);
    AttachedLink(nodes, W, r, cur, next, smooth(next), counter, W');
    StackPush(stack, W, nodes, W', nodes', next);
    stack' := stack + [next];
  }

  // ---------------------------------------------------------------------
  // Processing one node: `toProcess.back()` and its edge loop.

  /** Pop the last node of the stack and follow each of its edges that
      leads to an unvisited node. */
  method ProcessNode(ghost es: seq<Edge>, nte: map<int, seq<Edge>>, smooth: int -> Vec2,
                     visited: set<int>, ghost log: seq<int>, nodes: map<int, FeatureNode>,
                     edges: map<int, FeatureEdge>, ghost chains: map<int, seq<int>>, counter: nat, stack: seq<int>,
                     ghost V0: set<int>, ghost W: set<int>, ghost walks: map<int, seq<int>>, ghost r: int)
    returns (visited': set<int>, ghost log': seq<int>, nodes': map<int, FeatureNode>,
             edges': map<int, FeatureEdge>, ghost chains': map<int, seq<int>>, counter': nat, stack': seq<int>,
             ghost W': set<int>, ghost walks': map<int, seq<int>>)
    requires Ctx(es, nte) && TreeInv(es, nte, smooth, V0, W, walks, r, visited, log, nodes, edges, chains, counter)
    requires |stack| > 0 && Stacked(stack, W, nodes) && Frontier(nte, visited, stack, {}) && Attached(nodes, W, r)
    ensures TreeInv(es, nte, smooth, V0, W', walks', r, visited', log', nodes', edges', chains', counter')
    ensures Stacked(stack', W', nodes') && Frontier(nte, visited', stack', {}) && Attached(nodes', W', r)
    ensures visited <= visited' && (visited' == visited ==> stack' == stack[..|stack| - 1])
    ensures counter <= counter'
    ensures stack[|stack| - 1] in nte
    ensures forall f {:trigger f in nte[stack[|stack| - 1]]} ::
              f in nte[stack[|stack| - 1]] ==> f.Other(stack[|stack| - 1]) in visited'
  {
    var cur := stack[|stack| - 1];
    stack' := stack[..|stack| - 1];
    visited', log', nodes', edges', chains', counter', W', walks' := visited, log, nodes, edges, chains, counter, W, walks;
    assert cur in stack;
    FrontierPop(nte, visited, stack);
    StackPop(stack, W, nodes);
    var todo := nte[cur];
    for k := 0 to |todo|
      invariant TreeInv(es, nte, smooth, V0, W', walks', r, visited', log', nodes', edges', chains', counter')
      invariant cur in W' && cur in nodes' && Stacked(stack', W', nodes') && Frontier(nte, visited', stack', {cur})
      invariant forall j :: 0 <= j < k ==> todo[j].Other(cur) in visited'
      invariant visited <= visited' && (visited' == visited ==> stack' == stack[..|stack| - 1])
      invariant counter <= counter' && Attached(nodes', W', r)
    {
      var e := todo[k];
      var next := e.Other(cur);
      ghost var prev := visited';
      if next !in visited' {
        visited', log', nodes', edges', chains', counter', stack', W', walks' :=
          FollowEdge(es, nte, smooth, cur, e, visited', log', nodes', edges', chains', counter', stack', V0, W', walks', r);
      }
      SeenGrow(todo, cur, k, prev, visited');
    }
    forall f | f in nte[cur] ensures f.Other(cur) in visited' {
      var j :| 0 <= j < |todo| && todo[j] == f;
    }
    FrontierSettle(nte, visited', stack', cur);
  }

  /** The far nodes of the first `k + 1` edges of `cur` are visited. */
  lemma SeenGrow(todo: seq<Edge>, cur: int, k: nat, V: set<int>, V': set<int>)
    requires k < |todo| && V <= V' && todo[k].Other(cur) in V'
    requires forall j :: 0 <= j < k ==> todo[j].Other(cur) in V
    ensures forall j :: 0 <= j < k + 1 ==> todo[j].Other(cur) in V'
  {
  }

  lemma StackPop(stack: seq<int>, W: set<int>, nodes: map<int, FeatureNode>)
    requires Stacked(stack, W, nodes) && |stack| > 0
    ensures Stacked(stack[..|stack| - 1], W, nodes)
  {
    forall x | x in stack[..|stack| - 1] ensures x in stack {
      var i :| 0 <= i < |stack| - 1 && stack[..|stack| - 1][i] == x;
      assert stack[i] == x;
    }
  }

  // ---------------------------------------------------------------------
  // One tree and the whole traversal.

  /** The state at the start of the tree of the leaf `pid`. */
  lemma ExploreStart(es: seq<Edge>, nte: map<int, seq<Edge>>, smooth: int -> Vec2, pid: int,
                     visited: set<int>, log: seq<int>, nodes: map<int, FeatureNode>,
                     edges: map<int, FeatureEdge>, chains: map<int, seq<int>>, counter: nat)
    requires Closed(nte, visited) && Logged(visited, log)
    requires NodesOK(nte, visited, nodes, edges, smooth) && EdgesOK(es, nte, nodes, edges, chains, counter, smooth)
    requires pid in nte && |nte[pid]| == 1 && pid !in visited
    ensures TreeInv(es, nte, smooth, visited, {pid}, map[pid := [pid]], pid, visited + {pid}, log + [pid],
                    nodes[pid := FeatureNode(pid, smooth(pid), [])], edges, chains, counter)
    ensures Stacked([pid], {pid}, nodes[pid := FeatureNode(pid, smooth(pid), [])])
    ensures Frontier(nte, visited + {pid}, [pid], {})
  {
    LogAppend(visited, log, [pid], visited + {pid});
    NodesAdd(nte, visited, nodes, edges, smooth, pid);
    EdgesAdd(es, nte, nodes, edges, chains, counter, smooth, pid);
    TreeBegin(es, nte, visited, pid);
    FrontierRoot(nte, visited, pid);
  }

  /** The depth-first traversal of the tree of the leaf `pid`. */
  method Explore(ghost es: seq<Edge>, nte: map<int, seq<Edge>>, smooth: int -> Vec2, pid: int,
                 visited: set<int>, ghost log: seq<int>, nodes: map<int, FeatureNode>,
                 edges: map<int, FeatureEdge>, ghost chains: map<int, seq<int>>, counter: nat)
    returns (visited': set<int>, ghost log': seq<int>, nodes': map<int, FeatureNode>,
             edges': map<int, FeatureEdge>, ghost chains': map<int, seq<int>>, counter': nat)
    requires Ctx(es, nte) && Closed(nte, visited) && Logged(visited, log)
    requires NodesOK(nte, visited, nodes, edges, smooth) && EdgesOK(es, nte, nodes, edges, chains, counter, smooth)
    requires pid in nte && |nte[pid]| == 1 && pid !in visited
    requires forall x :: x in nodes ==> |nodes[x].edges| >= 1
    ensures Closed(nte, visited') && Logged(visited', log') && pid in visited' && visited <= visited'
    ensures NodesOK(nte, visited', nodes', edges', smooth) && EdgesOK(es, nte, nodes', edges', chains', counter', smooth)
    ensures counter <= counter' && forall x :: x in nodes' ==> |nodes'[x].edges| >= 1
  {
    ExploreStart(es, nte, smooth, pid, visited, log, nodes, edges, chains, counter);
    visited' := visited + {pid};
    log' := log + [pid];
    nodes' := nodes[pid := FeatureNode(pid, smooth(pid), [])];
    edges', chains', counter' := edges, chains, counter;
    var stack := [pid];
    ghost var V0, W, walks, r := visited, {pid}, map[pid := [pid]], pid;
    while |stack| > 0
      invariant TreeInv(es, nte, smooth, V0, W, walks, r, visited', log', nodes', edges', chains', counter')
      invariant Stacked(stack, W, nodes') && Frontier(nte, visited', stack, {})
      invariant pid in visited' && visited <= visited' && counter <= counter' && Attached(nodes', W, r)
      decreases |nte.Keys - visited'|, |stack|
    {
      ghost var before := visited';
      visited', log', nodes', edges', chains', counter', stack, W, walks :=
        ProcessNode(es, nte, smooth, visited', log', nodes', edges', chains', counter', stack, V0, W, walks, r);
      if visited' != before {
        FewerLeft(nte, before, visited');
      }
    }
    forall x | x in nodes' ensures |nodes'[x].edges| >= 1 {
      if |nodes'[x].edges| == 0 {
        assert stack == [] && visited' == V0 + {pid};
        LoneRootOpen(es, nte, V0, pid);
      }
    }
  }

  /** A root alone never closes its tree: the far node of its edge is
      outside the closed set of the earlier trees, or the root would be in it. */
  lemma LoneRootOpen(es: seq<Edge>, nte: map<int, seq<Edge>>, V0: set<int>, pid: int)
    requires Ctx(es, nte) && Closed(nte, V0) && pid in nte && pid !in V0
    ensures !Closed(nte, V0 + {pid})
  {
    var e := SomeEdge(es, pid);
    Listed(es, nte, e, pid);
    NoSelfLoop(es, e);
    var q := e.Other(pid);
    Listed(es, nte, e, q);
    assert e.Other(q) == pid;
    assert q != pid;
  }

  /** A closed set that holds the end of a walk holds its start. */
  lemma {:induction false} ClosedWalk(es: seq<Edge>, nte: map<int, seq<Edge>>, V: set<int>, t: seq<int>)
    requires nte == Incidence(es) && Closed(nte, V) && IsWalk(Span(es), t) && t[|t| - 1] in V
    ensures t[0] in V
    decreases |t|
  {
    if |t| > 1 {
      ClosedWalk(es, nte, V, t[1..]);
      assert Adjacent(Span(es), t[0], t[1]);
      var e :| e in Span(es) && Joins(e, t[0], t[1]);
      Listed(es, nte, e, t[1]);
      assert e.Other(t[1]) == t[0];
    }
  }

  /** In a forest, a closed set holding every leaf holds every node of the table. */
  lemma AllVisited(es: seq<Edge>, nte: map<int, seq<Edge>>, V: set<int>)
    requires Ctx(es, nte) && Closed(nte, V)
    requires forall x :: x in nte && |nte[x]| == 1 ==> x in V
    ensures V == nte.Keys
  {
    forall x | x in nte ensures x in V {
      var t := LeafConnected(es, x);
      ClosedWalk(es, nte, V, t);
    }
    assert forall x :: x in V ==> x in nte;
  }

  /** The first `i` keys of `order` are table nodes, and those of degree
      one are visited. */
  ghost predicate Settled(nte: map<int, seq<Edge>>, order: seq<int>, i: int, V: set<int>) {
    forall j :: 0 <= j < i && j < |order| ==> order[j] in nte && (|nte[order[j]]| == 1 ==> order[j] in V)
  }

  lemma SettledStep(nte: map<int, seq<Edge>>, order: seq<int>, i: nat, V: set<int>, V': set<int>)
    requires i < |order| && Settled(nte, order, i, V) && V <= V' && order[i] in nte
    requires |nte[order[i]]| == 1 ==> order[i] in V'
    ensures Settled(nte, order, i + 1, V')
  {
  }

  /** Once every key is settled, every leaf is visited. */
  lemma SettledLeaves(nte: map<int, seq<Edge>>, order: seq<int>, V: set<int>)
    requires Settled(nte, order, |order|, V) && forall x :: x in nte ==> x in order
    ensures forall x :: x in nte && |nte[x]| == 1 ==> x in V
  {
    forall x | x in nte && |nte[x]| == 1 ensures x in V {
      var j :| 0 <= j < |order| && order[j] == x;
    }
  }

  /** The traversal loop over the `nodetoedge` keys in the iteration order
      `order`; every property below holds whatever that order is. */
  method Traverse(ghost es: seq<Edge>, nte: map<int, seq<Edge>>, smooth: int -> Vec2, order: seq<int>)
    returns (nodes: map<int, FeatureNode>, edges: map<int, FeatureEdge>, visited: set<int>,
             ghost log: seq<int>, ghost roots: seq<int>, ghost chains: map<int, seq<int>>, count: nat)
    requires Ctx(es, nte) && forall x :: x in order <==> x in nte
    ensures visited == nte.Keys && Logged(visited, log) && Closed(nte, visited)
    ensures forall x :: x in roots ==> x in visited && |nte[x]| == 1
    ensures NodesOK(nte, visited, nodes, edges, smooth) && forall x :: x in nodes ==> |nodes[x].edges| >= 1
    ensures EdgesOK(es, nte, nodes, edges, chains, count, smooth)
  {
    nodes, edges, visited, log, roots, chains, count := map[], map[], {}, [], [], map[], 0;
    for i := 0 to |order|
      invariant Logged(visited, log) && Closed(nte, visited)
      invariant forall x :: x in roots ==> x in visited && |nte[x]| == 1
      invariant NodesOK(nte, visited, nodes, edges, smooth)
      invariant EdgesOK(es, nte, nodes, edges, chains, count, smooth)
      invariant Settled(nte, order, i, visited) && forall x :: x in nodes ==> |nodes[x].edges| >= 1
    {
      var pid := order[i];
      ghost var before := visited;
      if |nte[pid]| == 1 && pid !in visited {
        visited, log, nodes, edges, chains, count := Explore(es, nte, smooth, pid, visited, log, nodes, edges, chains, count);
        roots := roots + [pid];
      }
      SettledStep(nte, order, i, before, visited);
    }
    SettledLeaves(nte, order, visited);
    AllVisited(es, nte, visited);
  }
}
