/** The graph reduction rounds of the feature graph: each round counts the
    degree of every grid cell over the current edge list and keeps only the
    edges whose two cells both have degree above one. */
module Pruning {
  import opened Grid
  import opened FeatureTypes
  import opened Indexer
  import opened Forest

  /** The `degree` matrix entry of cell `p`: the number of endpoints of
      edges of `es` that lie at `p`. */
  function Degree(es: seq<Edge>, p: Point): nat
    decreases |es|
  {
    if es == [] then 0
    else
      var e := es[|es| - 1];
      Degree(es[..|es| - 1], p) + (if e.p1 == p then 1 else 0) + (if e.p2 == p then 1 else 0)
  }

  /** Neither cell of `e` is a leaf of `all`. */
  predicate Inner(all: seq<Edge>, e: Edge) {
    Degree(all, e.p1) > 1 && Degree(all, e.p2) > 1
  }

  /** The edges of `es` that are inner in `all`, in order. */
  function KeepInner(all: seq<Edge>, es: seq<Edge>): seq<Edge>
    decreases |es|
  {
    if es == [] then []
    else
      var e := es[|es| - 1];
      KeepInner(all, es[..|es| - 1]) + (if Inner(all, e) then [e] else [])
  }

  /** One reduction round. */
  function Prune(es: seq<Edge>): seq<Edge> {
    KeepInner(es, es)
  }

  /** The edge list after `n` rounds. */
  function PruneRounds(es: seq<Edge>, n: nat): seq<Edge> {
    if n == 0 then es else Prune(PruneRounds(es, n - 1))
  }

  /** Both cells of every edge lie in the `h` by `w` grid. */
  predicate WithinGrid(es: seq<Edge>, h: int, w: int) {
    forall e :: e in es ==> InBounds(e.p1, h, w) && InBounds(e.p2, h, w)
  }

  lemma {:induction false} KeepExactly(all: seq<Edge>, es: seq<Edge>, e: Edge)
    ensures e in KeepInner(all, es) <==> e in es && Inner(all, e)
    decreases |es|
  {
    if es != [] {
      var pre := es[..|es| - 1];
      KeepExactly(all, pre, e);
      assert es == pre + [es[|es| - 1]];
    }
  }

  /** The kept edges are a subsequence of `es`: `idx` lists their
      positions, strictly increasing. */
  lemma {:induction false} KeepSubsequence(all: seq<Edge>, es: seq<Edge>) returns (idx: seq<nat>)
    ensures |idx| == |KeepInner(all, es)|
    ensures forall i :: 0 <= i < |idx| ==> idx[i] < |es| && es[idx[i]] == KeepInner(all, es)[i]
    ensures forall i, j :: 0 <= i < j < |idx| ==> idx[i] < idx[j]
    decreases |es|
  {
    if es == [] {
      idx := [];
    } else {
      var pre := es[..|es| - 1];
      var e := es[|es| - 1];
      var idx0 := KeepSubsequence(all, pre);
      if Inner(all, e) {
        idx := idx0 + [|es| - 1];
      } else {
        idx := idx0;
      }
    }
  }

  /** A round keeps exactly the listed edges whose two cells have degree
      above one in the list it starts from. */
  lemma PruneExactly(es: seq<Edge>, e: Edge)
    ensures e in Prune(es) <==> e in es && Degree(es, e.p1) > 1 && Degree(es, e.p2) > 1
  {
    KeepExactly(es, es, e);
  }

  /** A round keeps the order of the edges it keeps, never grows the
      list, and keeps a forest a forest inside the grid. */
  lemma PruneShrinks(es: seq<Edge>, h: int, w: int) returns (idx: seq<nat>)
    ensures |idx| == |Prune(es)| && |Prune(es)| <= |es|
    ensures forall i :: 0 <= i < |idx| ==> idx[i] < |es| && es[idx[i]] == Prune(es)[i]
    ensures forall i, j :: 0 <= i < j < |idx| ==> idx[i] < idx[j]
    ensures NoDup(es) ==> NoDup(Prune(es))
    ensures IsForest(es) ==> IsForest(Prune(es))
    ensures WithinGrid(es, h, w) ==> WithinGrid(Prune(es), h, w)
  {
    idx := KeepSubsequence(es, es);
    var kept := Prune(es);
    forall e | e in kept ensures e in es {
      PruneExactly(es, e);
    }
    if NoDup(es) {
      forall i, j | 0 <= i < j < |kept| ensures kept[i] != kept[j] {
        assert es[idx[i]] == kept[i] && es[idx[j]] == kept[j];
      }
    }
    if IsForest(es) {
      SubForest(es, kept);
    }
    IncreasingBound(idx, |es|);
  }

  /** A strictly increasing list of positions below `n` has at most `n` entries. */
  lemma {:induction false} IncreasingBound(idx: seq<nat>, n: nat)
    requires forall i :: 0 <= i < |idx| ==> idx[i] < n
    requires forall i, j :: 0 <= i < j < |idx| ==> idx[i] < idx[j]
    ensures |idx| <= n
    decreases n
  {
    if idx != [] {
      var last := idx[|idx| - 1];
      IncreasingBound(idx[..|idx| - 1], last);
    }
  }

  /** After any number of rounds every remaining edge was an input edge,
      the list is no longer, and a forest inside the grid stays one. */
  lemma {:induction false} RoundsShrink(es: seq<Edge>, n: nat, h: int, w: int)
    ensures |PruneRounds(es, n)| <= |es|
    ensures forall e :: e in PruneRounds(es, n) ==> e in es
    ensures IsForest(es) ==> IsForest(PruneRounds(es, n))
    ensures WithinGrid(es, h, w) ==> WithinGrid(PruneRounds(es, n), h, w)
  {
    if n > 0 {
      RoundsShrink(es, n - 1, h, w);
      var pre := PruneRounds(es, n - 1);
      var _ := PruneShrinks(pre, h, w);
      forall e | e in Prune(pre) ensures e in es {
        PruneExactly(pre, e);
      }
    }
  }

  /** The first loop of a round: the `degree` matrix. */
  method CountDegrees(es: seq<Edge>, h: nat, w: nat) returns (degree: array2<int>)
    requires WithinGrid(es, h, w)
    ensures fresh(degree) && degree.Length0 == h && degree.Length1 == w
    ensures forall y, x :: 0 <= y < h && 0 <= x < w ==> degree[y, x] == Degree(es, Point(x, y))
  {
    degree := new int[h, w]((y, x) => 0);
    for k := 0 to |es|
      invariant forall y, x :: 0 <= y < h && 0 <= x < w ==> degree[y, x] == Degree(es[..k], Point(x, y))
    {
      var e := es[k];
      assert e in es;
      assert es[..k + 1][..k] == es[..k];
      degree[e.p1.y, e.p1.x] := degree[e.p1.y, e.p1.x] + 1;
      degree[e.p2.y, e.p2.x] := degree[e.p2.y, e.p2.x] + 1;
    }
    assert es[..|es|] == es;
  }

  /** One round over the current `tempedges`. */
  method PruneRound(es: seq<Edge>, h: nat, w: nat) returns (kept: seq<Edge>)
    requires WithinGrid(es, h, w)
    ensures kept == Prune(es)
  {
    var degree := CountDegrees(es, h, w);
    kept := [];
    for k := 0 to |es|
      invariant kept == KeepInner(es, es[..k])
    {
      var e := es[k];
      assert e in es;
      assert es[..k + 1][..k] == es[..k];
      if degree[e.p1.y, e.p1.x] > 1 && degree[e.p2.y, e.p2.x] > 1 {
        kept := kept + [e];
      }
    }
    assert es[..|es|] == es;
  }

  /** The `profile_length / 2` reduction rounds. */
  method Reduce(es: seq<Edge>, h: nat, w: nat, rounds: nat) returns (out: seq<Edge>)
    requires WithinGrid(es, h, w)
    ensures out == PruneRounds(es, rounds)
  {
    out := es;
    for i := 0 to rounds
      invariant out == PruneRounds(es, i) && WithinGrid(out, h, w)
    {
      var _ := PruneShrinks(out, h, w);
      out := PruneRound(out, h, w);
    }
  }
}
