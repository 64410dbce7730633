/** Crest-candidate selection: a cell is a candidate when, along one of the
    four forward directions, the profile drops by more than the threshold
    somewhere on both sides within half the profile length. Candidates are
    numbered 0, 1, 2, ... in row-major order. */
module FeatureSelection {
  import opened Grid
  import opened RowMajor
  import opened Indexer

  /** `fneighbours`, in the order the source tries them. */
  const Forward: seq<Point> := [Point(1, 0), Point(0, 1), Point(1, 1), Point(-1, 1)]

  /** `n * l`. */
  function Scaled(n: Point, l: int): Point { Point(n.x * l, n.y * l) }

  /** `p + n * l` (`forward`) or `p - n * l`. */
  function Step(p: Point, n: Point, l: int, forward: bool): Point {
    if forward then Add(p, Scaled(n, l)) else Sub(p, Scaled(n, l))
  }

  /** The elevation of cell `p` after `grid *= feature_type`. */
  function Elev(g: seq<seq<real>>, ft: int, p: Point, h: nat, w: nat): real
    requires IsGrid(g, h, w) && InBounds(p, h, w)
  {
    (ft as real) * g[p.y][p.x]
  }

  /** Cell `q` is in bounds and lies more than `thresh` below `e`. */
  predicate Drops(g: seq<seq<real>>, ft: int, thresh: real, h: nat, w: nat, e: real, q: Point)
    requires IsGrid(g, h, w)
  {
    InBounds(q, h, w) && e - Elev(g, ft, q, h, w) > thresh
  }

  /** `profile0` (`forward`) or `profile1` after steps `1 .. k`. */
  function Profile(g: seq<seq<real>>, ft: int, thresh: real, h: nat, w: nat, p: Point, n: Point,
                   forward: bool, k: nat): bool
    requires IsGrid(g, h, w) && InBounds(p, h, w)
  {
    if k == 0 then false
    else Profile(g, ft, thresh, h, w, p, n, forward, k - 1) ||
         Drops(g, ft, thresh, h, w, Elev(g, ft, p, h, w), Step(p, n, k, forward))
  }

  /** Both profiles of direction `Forward[d]` drop within `half` steps. */
  predicate Crest(g: seq<seq<real>>, ft: int, thresh: real, half: nat, h: nat, w: nat, p: Point, d: nat)
    requires IsGrid(g, h, w) && InBounds(p, h, w) && d < 4
  {
    Profile(g, ft, thresh, h, w, p, Forward[d], true, half) &&
    Profile(g, ft, thresh, h, w, p, Forward[d], false, half)
  }

  /** Cell `p` receives a node id. */
  predicate IsCandidate(g: seq<seq<real>>, ft: int, thresh: real, half: nat, h: nat, w: nat, p: Point)
    requires IsGrid(g, h, w)
  {
    InBounds(p, h, w) && exists d :: 0 <= d < 4 && Crest(g, ft, thresh, half, h, w, p, d)
  }

  /** What the visit of each cell contributes to the candidate list. */
  ghost function CandidateAt(g: seq<seq<real>>, ft: int, thresh: real, half: nat, h: nat, w: nat): Point -> seq<Point> {
    p => if IsGrid(g, h, w) && IsCandidate(g, ft, thresh, half, h, w, p) then [p] else []
  }

  /** The candidates in the row-major order of their discovery; a
      candidate's node id is its index here. */
  ghost function Candidates(g: seq<seq<real>>, ft: int, thresh: real, half: nat, h: nat, w: nat): seq<Point> {
    Prefix(CandidateAt(g, ft, thresh, half, h, w), h, w, h, 0)
  }

  /** `a` comes strictly before `b` in row-major order. */
  predicate RowMajorBefore(a: Point, b: Point) {
    a.y < b.y || (a.y == b.y && a.x < b.x)
  }

  /** The cells are strictly increasing in row-major order. */
  predicate Ordered(cells: seq<Point>) {
    forall a, b :: 0 <= a < b < |cells| ==> RowMajorBefore(cells[a], cells[b])
  }

  /** `nodeids` after the selection loop has visited the cells before
      `(j, i)`: each visited candidate holds its index in the candidate
      list so far, every other cell holds -1. */
  ghost predicate Numbered(nodeids: array2<int>, g: seq<seq<real>>, ft: int, thresh: real, half: nat,
                           i: nat, j: nat)
    reads nodeids
    requires IsGrid(g, nodeids.Length0, nodeids.Length1) && Stop(nodeids.Length0, nodeids.Length1, i, j)
  {
    var h, w := nodeids.Length0, nodeids.Length1;
    var cands := Prefix(CandidateAt(g, ft, thresh, half, h, w), h, w, i, j);
    forall y, x :: 0 <= y < h && 0 <= x < w ==>
      if Visited(Point(x, y), i, j) && IsCandidate(g, ft, thresh, half, h, w, Point(x, y))
      then 0 <= nodeids[y, x] < |cands| && cands[nodeids[y, x]] == Point(x, y)
      else nodeids[y, x] == -1
  }

  // ---------------------------------------------------------------------
  // Properties of the specification.

  /** Each profile holds exactly when some step `l` in `1 .. k` drops. */
  lemma {:induction false} ProfileExactly(g: seq<seq<real>>, ft: int, thresh: real, h: nat, w: nat, p: Point,
                                          n: Point, forward: bool, k: nat)
    requires IsGrid(g, h, w) && InBounds(p, h, w)
    ensures Profile(g, ft, thresh, h, w, p, n, forward, k) <==>
      exists l :: 1 <= l <= k && Drops(g, ft, thresh, h, w, Elev(g, ft, p, h, w), Step(p, n, l, forward))
  {
    if k > 0 {
      ProfileExactly(g, ft, thresh, h, w, p, n, forward, k - 1);
    }
  }

  /** A cell is a candidate exactly when, for some forward direction `n`,
      both the walk `p + l n` and the walk `p - l n` have an in-bounds step
      `l` in `1 .. half` more than `thresh` below `p`. */
  lemma CandidateExactly(g: seq<seq<real>>, ft: int, thresh: real, half: nat, h: nat, w: nat, p: Point)
    requires IsGrid(g, h, w) && InBounds(p, h, w)
    ensures IsCandidate(g, ft, thresh, half, h, w, p) <==>
      exists d :: 0 <= d < 4 &&
        (exists l :: 1 <= l <= half && Drops(g, ft, thresh, h, w, Elev(g, ft, p, h, w), Add(p, Scaled(Forward[d], l)))) &&
        (exists l :: 1 <= l <= half && Drops(g, ft, thresh, h, w, Elev(g, ft, p, h, w), Sub(p, Scaled(Forward[d], l))))
  {
    var e := Elev(g, ft, p, h, w);
    forall d | 0 <= d < 4
      ensures Crest(g, ft, thresh, half, h, w, p, d) <==>
        (exists l :: 1 <= l <= half && Drops(g, ft, thresh, h, w, e, Add(p, Scaled(Forward[d], l)))) &&
        (exists l :: 1 <= l <= half && Drops(g, ft, thresh, h, w, e, Sub(p, Scaled(Forward[d], l))))
    {
      ProfileExactly(g, ft, thresh, h, w, p, Forward[d], true, half);
      ProfileExactly(g, ft, thresh, h, w, p, Forward[d], false, half);
      assert forall l :: Step(p, Forward[d], l, true) == Add(p, Scaled(Forward[d], l));
      assert forall l :: Step(p, Forward[d], l, false) == Sub(p, Scaled(Forward[d], l));
    }
  }

  /** On a flat grid, with the non-negative threshold `0.01 (max - min)`,
      no profile drops and there are no candidates. */
  lemma FlatGridNoCandidates(g: seq<seq<real>>, ft: int, thresh: real, half: nat, h: nat, w: nat, c: real)
    requires IsGrid(g, h, w) && thresh >= 0.0
    requires forall y, x :: 0 <= y < h && 0 <= x < w ==> g[y][x] == c
    ensures Candidates(g, ft, thresh, half, h, w) == []
  {
    var f := CandidateAt(g, ft, thresh, half, h, w);
    forall p | InBounds(p, h, w) ensures f(p) == [] {
      forall d | 0 <= d < 4 ensures !Crest(g, ft, thresh, half, h, w, p, d) {
        FlatProfile(g, ft, thresh, h, w, p, Forward[d], true, half, c);
      }
    }
    Empty(f, h, w, h, 0);
  }

  lemma {:induction false} FlatProfile(g: seq<seq<real>>, ft: int, thresh: real, h: nat, w: nat, p: Point,
                                       n: Point, forward: bool, k: nat, c: real)
    requires IsGrid(g, h, w) && InBounds(p, h, w) && thresh >= 0.0
    requires forall y, x :: 0 <= y < h && 0 <= x < w ==> g[y][x] == c
    ensures !Profile(g, ft, thresh, h, w, p, n, forward, k)
  {
    if k > 0 {
      FlatProfile(g, ft, thresh, h, w, p, n, forward, k - 1, c);
      var q := Step(p, n, k, forward);
      if InBounds(q, h, w) {
        assert Elev(g, ft, q, h, w) == Elev(g, ft, p, h, w);
      }
    }
  }

  /** The candidate list so far holds only visited candidates. */
  lemma {:induction false} PrefixCells(g: seq<seq<real>>, ft: int, thresh: real, half: nat, h: nat, w: nat, i: nat, j: nat)
    requires IsGrid(g, h, w) && Stop(h, w, i, j)
    ensures forall a :: 0 <= a < |Prefix(CandidateAt(g, ft, thresh, half, h, w), h, w, i, j)| ==>
      Visited(Prefix(CandidateAt(g, ft, thresh, half, h, w), h, w, i, j)[a], i, j) &&
      IsCandidate(g, ft, thresh, half, h, w, Prefix(CandidateAt(g, ft, thresh, half, h, w), h, w, i, j)[a])
    decreases i, j
  {
    var f := CandidateAt(g, ft, thresh, half, h, w);
    if j == 0 {
      if i > 0 {
        PrefixCells(g, ft, thresh, half, h, w, i - 1, w);
        PrefixRow(f, h, w, i - 1);
      }
    } else {
      PrefixCells(g, ft, thresh, half, h, w, i, j - 1);
      var pre := Prefix(f, h, w, i, j - 1);
      var cands := Prefix(f, h, w, i, j);
      var p := Point(j - 1, i);
      PrefixNext(f, h, w, i, j - 1);
      assert f(p) == if IsCandidate(g, ft, thresh, half, h, w, p) then [p] else [];
      forall a | 0 <= a < |cands|
        ensures Visited(cands[a], i, j) && IsCandidate(g, ft, thresh, half, h, w, cands[a])
      {
        if a < |pre| {
          assert cands[a] == pre[a];
        } else {
          assert cands[a] == p;
        }
      }
    }
  }

  /** The candidate list so far is strictly increasing in row-major order. */
  lemma {:induction false} PrefixOrdered(g: seq<seq<real>>, ft: int, thresh: real, half: nat, h: nat, w: nat, i: nat, j: nat)
    requires IsGrid(g, h, w) && Stop(h, w, i, j)
    ensures Ordered(Prefix(CandidateAt(g, ft, thresh, half, h, w), h, w, i, j))
    decreases i, j
  {
    var f := CandidateAt(g, ft, thresh, half, h, w);
    if j == 0 {
      if i > 0 {
        PrefixOrdered(g, ft, thresh, half, h, w, i - 1, w);
        PrefixRow(f, h, w, i - 1);
      }
    } else {
      PrefixOrdered(g, ft, thresh, half, h, w, i, j - 1);
      PrefixCells(g, ft, thresh, half, h, w, i, j - 1);
      var pre := Prefix(f, h, w, i, j - 1);
      var cands := Prefix(f, h, w, i, j);
      var p := Point(j - 1, i);
      PrefixNext(f, h, w, i, j - 1);
      assert f(p) == if IsCandidate(g, ft, thresh, half, h, w, p) then [p] else [];
      forall a, b | 0 <= a < b < |cands| ensures RowMajorBefore(cands[a], cands[b]) {
        assert cands[a] == pre[a];
        if b < |pre| {
          assert cands[b] == pre[b];
        } else {
          assert cands[b] == p && Visited(pre[a], i, j - 1);
        }
      }
    }
  }

  /** The candidates are distinct, in row-major order, and are exactly the
      cells satisfying `IsCandidate`. */
  lemma CandidatesExactly(g: seq<seq<real>>, ft: int, thresh: real, half: nat, h: nat, w: nat)
    requires IsGrid(g, h, w)
    ensures NoDup(Candidates(g, ft, thresh, half, h, w))
    ensures Ordered(Candidates(g, ft, thresh, half, h, w))
    ensures forall p :: p in Candidates(g, ft, thresh, half, h, w) <==> IsCandidate(g, ft, thresh, half, h, w, p)
  {
    var f := CandidateAt(g, ft, thresh, half, h, w);
    var cands := Candidates(g, ft, thresh, half, h, w);
    PrefixOrdered(g, ft, thresh, half, h, w, h, 0);
    PrefixCells(g, ft, thresh, half, h, w, h, 0);
    forall a, b | 0 <= a < b < |cands| ensures cands[a] != cands[b] {
      assert RowMajorBefore(cands[a], cands[b]);
    }
    forall p | p in cands ensures IsCandidate(g, ft, thresh, half, h, w, p) {
      var a :| 0 <= a < |cands| && cands[a] == p;
    }
    forall p | IsCandidate(g, ft, thresh, half, h, w, p) ensures p in cands {
      Included(f, h, w, h, 0, p, p);
    }
  }

  // ---------------------------------------------------------------------
  // The selection loops.

  /** Whether cell `q` lies in the grid and more than `thresh` below `p`. */
  method Probe(grid: array2<real>, ghost g: seq<seq<real>>, ft: int, thresh: real, p: Point, q: Point)
    returns (b: bool)
    requires Views(grid, g) && InBounds(p, grid.Length0, grid.Length1)
    ensures b == Drops(g, ft, thresh, grid.Length0, grid.Length1, Elev(g, ft, p, grid.Length0, grid.Length1), q)
  {
    b := InBounds(q, grid.Length0, grid.Length1) &&
         (ft as real) * grid[p.y, p.x] - (ft as real) * grid[q.y, q.x] > thresh;
  }

  /** The `l` loop: both profiles of direction `n` at cell `p`. */
  method Profiles(grid: array2<real>, ghost g: seq<seq<real>>, ft: int, thresh: real, half: nat, p: Point, n: Point)
    returns (profile0: bool, profile1: bool)
    requires Views(grid, g) && InBounds(p, grid.Length0, grid.Length1)
    ensures profile0 == Profile(g, ft, thresh, grid.Length0, grid.Length1, p, n, true, half)
    ensures profile1 == Profile(g, ft, thresh, grid.Length0, grid.Length1, p, n, false, half)
  {
    var h, w := grid.Length0, grid.Length1;
    profile0, profile1 := false, false;
    for l := 1 to half + 1
      invariant profile0 == Profile(g, ft, thresh, h, w, p, n, true, l - 1)
      invariant profile1 == Profile(g, ft, thresh, h, w, p, n, false, l - 1)
    {
      var delta := Scaled(n, l);
      var b0 := Probe(grid, g, ft, thresh, p, Add(p, delta));
      var b1 := Probe(grid, g, ft, thresh, p, Sub(p, delta));
      profile0 := profile0 || b0;
      profile1 := profile1 || b1;
    }
  }

  /** The direction loop at cell `p`: number `p` and stop at the first
      direction whose two profiles both drop. */
  method SelectCell(grid: array2<real>, nodeids: array2<int>, ghost g: seq<seq<real>>, ft: int, thresh: real,
                    half: nat, p: Point, counter: nat) returns (counter': nat)
    requires Views(grid, g) && InBounds(p, grid.Length0, grid.Length1)
    requires nodeids.Length0 == grid.Length0 && nodeids.Length1 == grid.Length1
    modifies nodeids
    ensures counter' == counter + |CandidateAt(g, ft, thresh, half, grid.Length0, grid.Length1)(p)|
    ensures nodeids[p.y, p.x] ==
      if IsCandidate(g, ft, thresh, half, grid.Length0, grid.Length1, p) then counter else old(nodeids[p.y, p.x])
    ensures forall y, x :: 0 <= y < nodeids.Length0 && 0 <= x < nodeids.Length1 && Point(x, y) != p ==>
      nodeids[y, x] == old(nodeids[y, x])
  {
    var h, w := grid.Length0, grid.Length1;
    for d := 0 to 4
      invariant forall d' :: 0 <= d' < d ==> !Crest(g, ft, thresh, half, h, w, p, d')
      invariant forall y, x :: 0 <= y < h && 0 <= x < w ==> nodeids[y, x] == old(nodeids[y, x])
    {
      var profile0, profile1 := Profiles(grid, g, ft, thresh, half, p, Forward[d]);
      if profile0 && profile1 {
        assert Crest(g, ft, thresh, half, h, w, p, d);
        assert CandidateAt(g, ft, thresh, half, h, w)(p) == [p];
        nodeids[p.y, p.x] := counter;
        counter' := counter + 1;
        return;
      }
    }
    assert !IsCandidate(g, ft, thresh, half, h, w, p);
    assert CandidateAt(g, ft, thresh, half, h, w)(p) == [];
    counter' := counter;
  }

  /** One cell of the selection loop. */
  method SelectStep(grid: array2<real>, nodeids: array2<int>, ghost g: seq<seq<real>>, ft: int, thresh: real,
                    half: nat, i: nat, j: nat, counter: nat) returns (counter': nat)
    requires Views(grid, g) && i < grid.Length0 && j < grid.Length1
    requires nodeids.Length0 == grid.Length0 && nodeids.Length1 == grid.Length1
    requires Numbered(nodeids, g, ft, thresh, half, i, j)
    requires counter == |Prefix(CandidateAt(g, ft, thresh, half, grid.Length0, grid.Length1), grid.Length0, grid.Length1, i, j)|
    modifies nodeids
    ensures Numbered(nodeids, g, ft, thresh, half, i, j + 1)
    ensures counter' == |Prefix(CandidateAt(g, ft, thresh, half, grid.Length0, grid.Length1), grid.Length0, grid.Length1, i, j + 1)|
  {
    var h, w := grid.Length0, grid.Length1;
    ghost var f := CandidateAt(g, ft, thresh, half, h, w);
    ghost var pre := Prefix(f, h, w, i, j);
    var p := Point(j, i);
    counter' := SelectCell(grid, nodeids, g, ft, thresh, half, p, counter);
    PrefixNext(f, h, w, i, j);
    ghost var post := Prefix(f, h, w, i, j + 1);
    assert post == pre + f(p);
    forall y, x | 0 <= y < h && 0 <= x < w && Visited(Point(x, y), i, j) &&
                  IsCandidate(g, ft, thresh, half, h, w, Point(x, y))
      ensures 0 <= nodeids[y, x] < |post| && post[nodeids[y, x]] == Point(x, y)
    {
      assert post[nodeids[y, x]] == pre[nodeids[y, x]];
    }
    if IsCandidate(g, ft, thresh, half, h, w, p) {
      assert post[counter] == p;
    }
  }

  /** One row of the selection loop. */
  method SelectRow(grid: array2<real>, nodeids: array2<int>, ghost g: seq<seq<real>>, ft: int, thresh: real,
                   half: nat, i: nat, counter: nat) returns (counter': nat)
    requires Views(grid, g) && i < grid.Length0
    requires nodeids.Length0 == grid.Length0 && nodeids.Length1 == grid.Length1
    requires Numbered(nodeids, g, ft, thresh, half, i, 0)
    requires counter == |Prefix(CandidateAt(g, ft, thresh, half, grid.Length0, grid.Length1), grid.Length0, grid.Length1, i, 0)|
    modifies nodeids
    ensures Numbered(nodeids, g, ft, thresh, half, i + 1, 0)
    ensures counter' == |Prefix(CandidateAt(g, ft, thresh, half, grid.Length0, grid.Length1), grid.Length0, grid.Length1, i + 1, 0)|
  {
    counter' := counter;
    for j := 0 to grid.Length1
      invariant Numbered(nodeids, g, ft, thresh, half, i, j)
      invariant counter' == |Prefix(CandidateAt(g, ft, thresh, half, grid.Length0, grid.Length1), grid.Length0, grid.Length1, i, j)|
    {
      counter' := SelectStep(grid, nodeids, g, ft, thresh, half, i, j, counter');
    }
    assert forall p :: Visited(p, i, grid.Length1) && InBounds(p, grid.Length0, grid.Length1) ==> Visited(p, i + 1, 0);
  }

  /** Before the loop no cell has been visited. */
  lemma NumberedNone(nodeids: array2<int>, g: seq<seq<real>>, ft: int, thresh: real, half: nat)
    requires IsGrid(g, nodeids.Length0, nodeids.Length1)
    requires forall y, x :: 0 <= y < nodeids.Length0 && 0 <= x < nodeids.Length1 ==> nodeids[y, x] == -1
    ensures Numbered(nodeids, g, ft, thresh, half, 0, 0)
  {
  }

  /** After the loop every cell has been visited. */
  lemma NumberedAll(nodeids: array2<int>, g: seq<seq<real>>, ft: int, thresh: real, half: nat)
    requires IsGrid(g, nodeids.Length0, nodeids.Length1)
    requires Numbered(nodeids, g, ft, thresh, half, nodeids.Length0, 0)
    ensures forall y, x :: 0 <= y < nodeids.Length0 && 0 <= x < nodeids.Length1 ==>
      if IsCandidate(g, ft, thresh, half, nodeids.Length0, nodeids.Length1, Point(x, y))
      then 0 <= nodeids[y, x] < |Candidates(g, ft, thresh, half, nodeids.Length0, nodeids.Length1)| &&
           Candidates(g, ft, thresh, half, nodeids.Length0, nodeids.Length1)[nodeids[y, x]] == Point(x, y)
      else nodeids[y, x] == -1
  {
    forall y, x | 0 <= y < nodeids.Length0 && 0 <= x < nodeids.Length1
      ensures Visited(Point(x, y), nodeids.Length0, 0)
    {
    }
  }

  /** The selection loop: `nodeids` holds, for each candidate, its index in
      the row-major candidate list, and -1 elsewhere; `count` is the number
      of candidates. */
  method SelectCandidates(grid: array2<real>, ghost g: seq<seq<real>>, ft: int, thresh: real, half: nat)
    returns (nodeids: array2<int>, count: nat)
    requires Views(grid, g)
    ensures fresh(nodeids) && nodeids.Length0 == grid.Length0 && nodeids.Length1 == grid.Length1
    ensures count == |Candidates(g, ft, thresh, half, grid.Length0, grid.Length1)|
    ensures forall y, x :: 0 <= y < grid.Length0 && 0 <= x < grid.Length1 ==>
      if IsCandidate(g, ft, thresh, half, grid.Length0, grid.Length1, Point(x, y))
      then 0 <= nodeids[y, x] < count && Candidates(g, ft, thresh, half, grid.Length0, grid.Length1)[nodeids[y, x]] == Point(x, y)
      else nodeids[y, x] == -1
  {
    nodeids := new int[grid.Length0, grid.Length1]((_, _) => -1);
    NumberedNone(nodeids, g, ft, thresh, half);
    count := SelectRows(grid, nodeids, g, ft, thresh, half);
    NumberedAll(nodeids, g, ft, thresh, half);
  }

  /** The row loop of the selection. */
  method SelectRows(grid: array2<real>, nodeids: array2<int>, ghost g: seq<seq<real>>, ft: int, thresh: real,
                    half: nat) returns (count: nat)
    requires Views(grid, g)
    requires nodeids.Length0 == grid.Length0 && nodeids.Length1 == grid.Length1
    requires Numbered(nodeids, g, ft, thresh, half, 0, 0)
    modifies nodeids
    ensures Numbered(nodeids, g, ft, thresh, half, grid.Length0, 0)
    ensures count == |Candidates(g, ft, thresh, half, grid.Length0, grid.Length1)|
  {
    count := 0;
    for i := 0 to grid.Length0
      invariant Numbered(nodeids, g, ft, thresh, half, i, 0)
      invariant count == |Prefix(CandidateAt(g, ft, thresh, half, grid.Length0, grid.Length1), grid.Length0, grid.Length1, i, 0)|
    {
      count := SelectRow(grid, nodeids, g, ft, thresh, half, i, count);
    }
  }
}
