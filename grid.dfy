/** Integer grid coordinates, bounds tests and value views of 2D arrays.
    A `Point(x, y)` names column `x` of row `y`, as an image point does;
    an `array2` is indexed `[y, x]` and a value grid `g[y][x]`. */
module Grid {

  datatype Point = Point(x: int, y: int)

  function Add(p: Point, d: Point): Point { Point(p.x + d.x, p.y + d.y) }

  function Sub(p: Point, d: Point): Point { Point(p.x - d.x, p.y - d.y) }

  /** The axis-aligned rectangle `[0, w) x [0, h)` contains `p`. */
  predicate InBounds(p: Point, h: int, w: int) {
    0 <= p.x < w && 0 <= p.y < h
  }

  /** The four lattice directions, in the order the source scans them. */
  const Delta: seq<Point> := [Point(1, 0), Point(0, 1), Point(-1, 0), Point(0, -1)]

  /** `g` is a value grid of `h` rows of `w` cells each. */
  ghost predicate IsGrid<T>(g: seq<seq<T>>, h: nat, w: nat) {
    |g| == h && forall i :: 0 <= i < h ==> |g[i]| == w
  }

  function At<T>(g: seq<seq<T>>, p: Point, h: nat, w: nat): T
    requires IsGrid(g, h, w) && InBounds(p, h, w)
  {
    g[p.y][p.x]
  }

  /** The current contents of a 2D array as a value grid. */
  ghost function Snap<T>(a: array2<T>): (g: seq<seq<T>>)
    reads a
    ensures IsGrid(g, a.Length0, a.Length1)
    ensures forall i, j :: 0 <= i < a.Length0 && 0 <= j < a.Length1 ==> g[i][j] == a[i, j]
  {
    seq(a.Length0, i reads a requires 0 <= i < a.Length0 =>
      seq(a.Length1, j reads a requires 0 <= j < a.Length1 => a[i, j]))
  }

  /** `g` is the current contents of `a`, cell by cell. */
  ghost predicate Views<T>(a: array2<T>, g: seq<seq<T>>)
    reads a
  {
    IsGrid(g, a.Length0, a.Length1) &&
    forall i, j :: 0 <= i < a.Length0 && 0 <= j < a.Length1 ==> g[i][j] == a[i, j]
  }

  /** Two grids of the same shape that agree cell by cell are equal. */
  lemma GridExt<T>(g: seq<seq<T>>, g': seq<seq<T>>, h: nat, w: nat)
    requires IsGrid(g, h, w) && IsGrid(g', h, w)
    requires forall i, j :: 0 <= i < h && 0 <= j < w ==> g[i][j] == g'[i][j]
    ensures g == g'
  {
    forall i | 0 <= i < h ensures g[i] == g'[i] {
      assert forall j :: 0 <= j < w ==> g[i][j] == g'[i][j];
    }
  }
}

/** Row-major visits of an `h` by `w` grid, and the concatenation of what
    each visited cell contributes. */
module RowMajor {
  import opened Grid

  /** The cells of rows `0 .. i-1` and of row `i` up to column `j`. */
  predicate Visited(p: Point, i: int, j: int) {
    p.y < i || (p.y == i && p.x < j)
  }

  ghost predicate Stop(h: nat, w: nat, i: nat, j: nat) {
    i <= h && j <= w && (i == h ==> j == 0)
  }

  /** The concatenated contributions of the cells visited, in row-major
      order, before cell `(j, i)`. */
  ghost function Prefix<T>(f: Point -> seq<T>, h: nat, w: nat, i: nat, j: nat): seq<T>
    requires Stop(h, w, i, j)
    decreases i, j
  {
    if j == 0 then (if i == 0 then [] else Prefix(f, h, w, i - 1, w))
    else Prefix(f, h, w, i, j - 1) + f(Point(j - 1, i))
  }

  /** The visit of cell `(j, i)` appends its contribution. */
  lemma PrefixNext<T>(f: Point -> seq<T>, h: nat, w: nat, i: nat, j: nat)
    requires i < h && j < w
    ensures Prefix(f, h, w, i, j + 1) == Prefix(f, h, w, i, j) + f(Point(j, i))
  {
  }

  /** The end of row `i` is the start of row `i + 1`. */
  lemma PrefixRow<T>(f: Point -> seq<T>, h: nat, w: nat, i: nat)
    requires i < h
    ensures Prefix(f, h, w, i + 1, 0) == Prefix(f, h, w, i, w)
  {
  }

  /** Every element of the prefix comes from an already visited cell. */
  lemma {:induction false} Origin<T>(f: Point -> seq<T>, h: nat, w: nat, i: nat, j: nat, k: nat)
    returns (p: Point)
    requires Stop(h, w, i, j) && k < |Prefix(f, h, w, i, j)|
    ensures InBounds(p, h, w) && Visited(p, i, j)
    ensures Prefix(f, h, w, i, j)[k] in f(p)
    decreases i, j
  {
    if j == 0 {
      p := Origin(f, h, w, i - 1, w, k);
    } else {
      var pre := Prefix(f, h, w, i, j - 1);
      var cr := f(Point(j - 1, i));
      assert Prefix(f, h, w, i, j) == pre + cr;
      if k < |pre| {
        p := Origin(f, h, w, i, j - 1, k);
      } else {
        p := Point(j - 1, i);
        assert (pre + cr)[k] == cr[k - |pre|];
      }
    }
  }

  /** Everything a visited cell contributes is in the prefix. */
  lemma {:induction false} Included<T>(f: Point -> seq<T>, h: nat, w: nat, i: nat, j: nat, p: Point, x: T)
    requires Stop(h, w, i, j) && InBounds(p, h, w) && Visited(p, i, j) && x in f(p)
    ensures x in Prefix(f, h, w, i, j)
    decreases i, j
  {
    if j == 0 {
      Included(f, h, w, i - 1, w, p, x);
    } else if p != Point(j - 1, i) {
      Included(f, h, w, i, j - 1, p, x);
    }
  }

  /** Two contribution maps that agree on every cell give the same prefix. */
  lemma {:induction false} Congruent<T>(f: Point -> seq<T>, g: Point -> seq<T>, h: nat, w: nat, i: nat, j: nat)
    requires Stop(h, w, i, j)
    requires forall p :: InBounds(p, h, w) ==> f(p) == g(p)
    ensures Prefix(f, h, w, i, j) == Prefix(g, h, w, i, j)
    decreases i, j
  {
    if j == 0 {
      if i > 0 { Congruent(f, g, h, w, i - 1, w); }
    } else {
      Congruent(f, g, h, w, i, j - 1);
      assert InBounds(Point(j - 1, i), h, w);
    }
  }

  /** Cells that contribute nothing give an empty prefix. */
  lemma {:induction false} Empty<T>(f: Point -> seq<T>, h: nat, w: nat, i: nat, j: nat)
    requires Stop(h, w, i, j)
    requires forall p :: InBounds(p, h, w) ==> f(p) == []
    ensures Prefix(f, h, w, i, j) == []
    decreases i, j
  {
    if j == 0 {
      if i > 0 { Empty(f, h, w, i - 1, w); }
    } else {
      Empty(f, h, w, i, j - 1);
      assert InBounds(Point(j - 1, i), h, w);
    }
  }
}
