/** The grid indexer of the seam solver: a lazily filled bijection between
    grid cells and dense variable ids `0, 1, 2, ...`, assigned in the order
    the cells are first asked for (the `getid` lambda of
    `poissonSeamRemoval`, with its `pointToid` matrix and `idToPoint` list). */
module Indexer {
  import opened Grid

  predicate NoDup<T(==)>(s: seq<T>) {
    forall i, j :: 0 <= i < j < |s| ==> s[i] != s[j]
  }

  /** The distinct elements of `s` in the order of their first occurrence. */
  function Dedup<T(==,!new)>(s: seq<T>): (d: seq<T>)
    ensures NoDup(d)
    ensures forall x :: x in d <==> x in s
    ensures |d| <= |s|
  {
    if s == [] then []
    else
      var d := Dedup(s[..|s| - 1]);
      assert forall x :: x in s <==> x in s[..|s| - 1] || x == s[|s| - 1];
      if s[|s| - 1] in d then d else d + [s[|s| - 1]]
  }

  /** Asking for one more element extends the first-occurrence list by it
      exactly when it is new. */
  lemma DedupSnoc<T(!new)>(s: seq<T>, x: T)
    ensures Dedup(s + [x]) == if x in s then Dedup(s) else Dedup(s) + [x]
  {
    assert (s + [x])[..|s|] == s;
  }

  /** The position of the first occurrence of `x` in `s`. */
  function IndexOf<T(==)>(s: seq<T>, x: T): (i: nat)
    requires x in s
    ensures i < |s| && s[i] == x
    ensures forall j :: 0 <= j < i ==> s[j] != x
  {
    if s[0] == x then 0 else 1 + IndexOf(s[1..], x)
  }

  /** In a list without duplicates every position is the index of its element. */
  lemma IndexOfNoDup<T>(s: seq<T>, k: nat)
    requires NoDup(s) && k < |s|
    ensures IndexOf(s, s[k]) == k
  {
  }

  /** Appending leaves the index of every element already present unchanged. */
  lemma IndexOfSnoc<T>(s: seq<T>, y: T, x: T)
    requires x in s
    ensures IndexOf(s + [y], x) == IndexOf(s, x)
  {
    var i := IndexOf(s, x);
    assert (s + [y])[i] == x;
    var i' := IndexOf(s + [y], x);
    assert i' <= i;
  }

  class GridIndexer {
    const h: nat
    const w: nat
    /** `pointToid`: the id of each cell, or a negative value while it has none. */
    const pointToId: array2<int>
    /** `idToPoint`: the cell of each id. */
    var idToPoint: seq<Point>

    ghost predicate Valid()
      reads this, pointToId
    {
      && pointToId.Length0 == h && pointToId.Length1 == w
      && (forall k :: 0 <= k < |idToPoint| ==>
            InBounds(idToPoint[k], h, w) && pointToId[idToPoint[k].y, idToPoint[k].x] == k)
      && (forall y, x :: 0 <= y < h && 0 <= x < w ==>
            pointToId[y, x] < |idToPoint| &&
            (0 <= pointToId[y, x] ==> idToPoint[pointToId[y, x]] == Point(x, y)))
    }

    /** Ids are pairwise distinct cells: the inverse list has no duplicates. */
    lemma IdsDistinct()
      requires Valid()
      ensures NoDup(idToPoint)
    {
      forall i, j | 0 <= i < j < |idToPoint| ensures idToPoint[i] != idToPoint[j] {
        var pi, pj := idToPoint[i], idToPoint[j];
        assert pointToId[pi.y, pi.x] == i && pointToId[pj.y, pj.x] == j;
      }
    }

    /** A fresh indexer over an `h` by `w` grid: every entry is -1, no ids. */
    constructor (h: nat, w: nat)
      ensures Valid() && fresh(pointToId)
      ensures this.h == h && this.w == w && idToPoint == []
    {
      this.h, this.w := h, w;
      idToPoint := [];
      pointToId := new int[h, w]((y, x) => -1);
    }

    /** `getid(p)`: the stored id of a cell seen before; otherwise the old
        size of the inverse list, with the cell appended and recorded. */
    method GetId(p: Point) returns (id: nat)
      requires Valid() && InBounds(p, h, w)
      modifies this, pointToId
      ensures Valid()
      ensures id < |idToPoint| && idToPoint[id] == p
      ensures p in old(idToPoint) ==> idToPoint == old(idToPoint) && id == IndexOf(idToPoint, p)
      ensures p !in old(idToPoint) ==> idToPoint == old(idToPoint) + [p] && id == |old(idToPoint)|
    {
      IdsDistinct();
      var stored := pointToId[p.y, p.x];
      if stored < 0 {
        id := |idToPoint|;
        assert p !in idToPoint by {
          forall k | 0 <= k < |idToPoint| ensures idToPoint[k] != p {
            assert pointToId[idToPoint[k].y, idToPoint[k].x] == k;
          }
        }
        idToPoint := idToPoint + [p];
        pointToId[p.y, p.x] := id;
      } else {
        id := stored;
        IndexOfNoDup(idToPoint, id);
      }
    }
  }
}
