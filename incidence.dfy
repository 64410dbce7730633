/** The `nodetoedge` table of the feature graph: for every node id, the
    surviving edges that end at it, in list order. */
module NodeEdges {
  import opened FeatureTypes
  import opened Indexer
  import opened Forest

  /** `m[k].push_back(e)`, creating an empty list for a missing key. */
  function Push(m: map<int, seq<Edge>>, k: int, e: Edge): map<int, seq<Edge>> {
    m[k := (if k in m then m[k] else []) + [e]]
  }

  /** The table after pushing every edge of `es`, in order, onto the lists
      of its `id1` and then its `id2`. */
  function Incidence(es: seq<Edge>): map<int, seq<Edge>>
    decreases |es|
  {
    if es == [] then map[]
    else
      var e := es[|es| - 1];
      Push(Push(Incidence(es[..|es| - 1]), e.id1, e), e.id2, e)
  }

  /** An independent description of one list: the edges of `es` that touch
      `x`, in order, an edge being listed once per endpoint it has at `x`. */
  function Around(es: seq<Edge>, x: int): seq<Edge>
    decreases |es|
  {
    if es == [] then []
    else
      var e := es[|es| - 1];
      Around(es[..|es| - 1], x) + (if e.id1 == x then [e] else []) + (if e.id2 == x then [e] else [])
  }

  /** The table holds a list for exactly the nodes some edge touches, and
      that list is `Around(es, x)`. */
  lemma {:induction false} IncidenceIsAround(es: seq<Edge>, x: int)
    ensures x in Incidence(es) <==> Around(es, x) != []
    ensures x in Incidence(es) ==> Incidence(es)[x] == Around(es, x)
    decreases |es|
  {
    if es != [] {
      IncidenceIsAround(es[..|es| - 1], x);
    }
  }

  lemma {:induction false} AroundExactly(es: seq<Edge>, x: int, e: Edge)
    ensures e in Around(es, x) <==> e in es && Touches(e, x)
    decreases |es|
  {
    if es != [] {
      var pre := es[..|es| - 1];
      AroundExactly(pre, x, e);
      assert es == pre + [es[|es| - 1]];
    }
  }

  /** In a forest every list is free of duplicates. */
  lemma {:induction false} AroundNoDup(es: seq<Edge>, x: int)
    requires NoDup(es) && forall e :: e in es ==> e.id1 != e.id2
    ensures NoDup(Around(es, x))
    decreases |es|
  {
    if es != [] {
      var pre := es[..|es| - 1];
      var e := es[|es| - 1];
      assert es == pre + [e];
      assert NoDup(pre) by {
        forall i, j | 0 <= i < j < |pre| ensures pre[i] != pre[j] {
          assert pre[i] == es[i] && pre[j] == es[j];
        }
      }
      AroundNoDup(pre, x);
      if Touches(e, x) {
        AroundExactly(pre, x, e);
        assert e !in pre;
      }
    }
  }

  /** What the traversal relies on: a node has a list exactly when it is
      an endpoint of a listed edge, an edge is in the list of `x` exactly
      when it is listed and touches `x`, and in a forest no list repeats
      an edge. */
  lemma IncidenceExactly(es: seq<Edge>, x: int)
    ensures x in Incidence(es) <==> exists e :: e in es && Touches(e, x)
    ensures x in Incidence(es) ==> forall e :: e in Incidence(es)[x] <==> e in es && Touches(e, x)
    ensures x in Incidence(es) && IsForest(es) ==> NoDup(Incidence(es)[x])
  {
    IncidenceIsAround(es, x);
    forall e ensures e in Around(es, x) <==> e in es && Touches(e, x) {
      AroundExactly(es, x, e);
    }
    if Around(es, x) != [] {
      assert Around(es, x)[0] in Around(es, x);
    }
    if x in Incidence(es) && IsForest(es) {
      forall e | e in es ensures e.id1 != e.id2 {
        NoSelfLoop(es, e);
      }
      AroundNoDup(es, x);
    }
  }

  /** The loop that fills `nodetoedge`. */
  method NodeToEdge(es: seq<Edge>) returns (nte: map<int, seq<Edge>>)
    ensures nte == Incidence(es)
  {
    nte := map[];
    for k := 0 to |es|
      invariant nte == Incidence(es[..k])
    {
      var e := es[k];
      assert es[..k + 1][..k] == es[..k];
      nte := Push(nte, e.id1, e);
      nte := Push(nte, e.id2, e);
    }
    assert es[..|es|] == es;
  }
}
