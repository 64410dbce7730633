/** `placePatch`: translate a patch and its mask onto the synthesis, derive
    the seam mask, paste the masked patch values and remove the seam. */
module PatchPlacement {
  import opened Grid
  import opened RowMajor
  import opened SeamSystem
  import opened SeamAssembly
  import opened SeamFacts
  import opened SeamUnknowns

  // ---------------------------------------------------------------------
  // What each loop computes, on values.

  /** Synthesis cell `c` has been marked by the mask-copy loop once it has
      visited the first `i` rows of the mask and `j` cells of row `i`: the
      mask cell `c - pos` is inside the mask, already visited, and set. */
  predicate CopiedBy(gm: seq<seq<bool>>, ph: nat, pw: nat, pos: Point, c: Point, i: int, j: int)
    requires IsGrid(gm, ph, pw)
  {
    var q := Sub(c, pos);
    InBounds(q, ph, pw) && Visited(q, i, j) && At(gm, q, ph, pw)
  }

  /** `synthesis_mask`: the mask translated by `pos` and clipped to the
      `h` by `w` synthesis. */
  ghost function Placed(gm: seq<seq<bool>>, ph: nat, pw: nat, pos: Point, h: nat, w: nat): (r: seq<seq<bool>>)
    requires IsGrid(gm, ph, pw)
    ensures IsGrid(r, h, w)
  {
    seq(h, y requires 0 <= y < h => seq(w, x requires 0 <= x < w =>
      CopiedBy(gm, ph, pw, pos, Point(x, y), ph, 0)))
  }

  /** A cell the seam loop may mark: in bounds, defined before the paste,
      and outside the placed mask. */
  predicate SeamCandidate(gS: seq<seq<Sample>>, gP: seq<seq<bool>>, h: nat, w: nat, c: Point)
    requires IsGrid(gS, h, w) && IsGrid(gP, h, w)
  {
    InBounds(c, h, w) && At(gS, c, h, w).Num? && !At(gP, c, h, w)
  }

  /** `seam_mask`: the defined, unplaced cells next to a placed cell. */
  ghost function SeamOf(gS: seq<seq<Sample>>, gP: seq<seq<bool>>, h: nat, w: nat): (r: seq<seq<bool>>)
    requires IsGrid(gS, h, w) && IsGrid(gP, h, w)
    ensures IsGrid(r, h, w)
  {
    seq(h, y requires 0 <= y < h => seq(w, x requires 0 <= x < w =>
      SeamCandidate(gS, gP, h, w, Point(x, y)) && HasMaskedNeighbour(gP, Point(x, y), h, w)))
  }

  /** Placed cell `p` has had its neighbours examined by the seam loop after
      `i` rows and `j` further cells of the mask. */
  predicate Reached(gm: seq<seq<bool>>, ph: nat, pw: nat, pos: Point, h: nat, w: nat, p: Point, i: int, j: int)
    requires IsGrid(gm, ph, pw)
  {
    InBounds(p, h, w) && CopiedBy(gm, ph, pw, pos, p, i, j)
  }

  /** Some 4-neighbour of `c` has been reached. */
  predicate ReachedNeighbour(gm: seq<seq<bool>>, ph: nat, pw: nat, pos: Point, h: nat, w: nat, c: Point, i: int, j: int)
    requires IsGrid(gm, ph, pw)
  {
    Reached(gm, ph, pw, pos, h, w, Sub(c, Delta[0]), i, j) || Reached(gm, ph, pw, pos, h, w, Sub(c, Delta[1]), i, j) ||
    Reached(gm, ph, pw, pos, h, w, Sub(c, Delta[2]), i, j) || Reached(gm, ph, pw, pos, h, w, Sub(c, Delta[3]), i, j)
  }

  /** The synthesis after the paste loop: each placed cell takes the patch
      value under it, every other cell keeps its value. */
  ghost function Pasted(gS: seq<seq<Sample>>, gpatch: seq<seq<Sample>>, gm: seq<seq<bool>>, ph: nat, pw: nat,
                        pos: Point, h: nat, w: nat): (r: seq<seq<Sample>>)
    requires IsGrid(gS, h, w) && IsGrid(gpatch, ph, pw) && IsGrid(gm, ph, pw)
    ensures IsGrid(r, h, w)
  {
    seq(h, y requires 0 <= y < h => seq(w, x requires 0 <= x < w =>
      if CopiedBy(gm, ph, pw, pos, Point(x, y), ph, 0) then At(gpatch, Sub(Point(x, y), pos), ph, pw) else gS[y][x]))
  }

  /** The synthesis after `placePatch(synthesis, patch, mask, pos)` with
      solver `solve`: the seam is removed from the pasted field, with the
      placed mask as the region to solve for and the seam mask derived
      from the field before the paste. */
  ghost function PlacePatchResult(gS: seq<seq<Sample>>, gpatch: seq<seq<Sample>>, gm: seq<seq<bool>>, ph: nat, pw: nat,
                                  pos: Point, h: nat, w: nat, solve: System -> seq<Sample>): (r: seq<seq<Sample>>)
    requires IsGrid(gS, h, w) && IsGrid(gpatch, ph, pw) && IsGrid(gm, ph, pw) && SolverShape(solve)
    ensures IsGrid(r, h, w)
  {
    var gP := Placed(gm, ph, pw, pos, h, w);
    SeamRemoval(Pasted(gS, gpatch, gm, ph, pw, pos, h, w), gP, SeamOf(gS, gP, h, w), h, w, solve)
  }

  // ---------------------------------------------------------------------
  // Step lemmas for the loops.

  /** Visiting mask cell `(j, i)` adds exactly its image to what has been copied. */
  lemma CopiedStep(gm: seq<seq<bool>>, ph: nat, pw: nat, pos: Point, i: nat, j: nat)
    requires IsGrid(gm, ph, pw) && i < ph && j < pw
    ensures forall c ::
              CopiedBy(gm, ph, pw, pos, c, i, j + 1) ==
              (CopiedBy(gm, ph, pw, pos, c, i, j) || (c == Point(j + pos.x, i + pos.y) && gm[i][j]))
  {
    forall c ensures CopiedBy(gm, ph, pw, pos, c, i, j + 1) ==
      (CopiedBy(gm, ph, pw, pos, c, i, j) || (c == Point(j + pos.x, i + pos.y) && gm[i][j]))
    {
      CopiedStepAt(gm, ph, pw, pos, i, j, c);
    }
  }

  lemma CopiedStepAt(gm: seq<seq<bool>>, ph: nat, pw: nat, pos: Point, i: nat, j: nat, c: Point)
    requires IsGrid(gm, ph, pw) && i < ph && j < pw
    ensures CopiedBy(gm, ph, pw, pos, c, i, j + 1) ==
      (CopiedBy(gm, ph, pw, pos, c, i, j) || (c == Point(j + pos.x, i + pos.y) && gm[i][j]))
  {
    var q := Sub(c, pos);
    assert Visited(q, i, j + 1) == (Visited(q, i, j) || q == Point(j, i));
    assert q == Point(j, i) <==> c == Point(j + pos.x, i + pos.y);
  }

  /** A whole mask row visited is the next row started. */
  lemma CopiedRow(gm: seq<seq<bool>>, ph: nat, pw: nat, pos: Point, i: nat)
    requires IsGrid(gm, ph, pw)
    ensures forall c :: CopiedBy(gm, ph, pw, pos, c, i, pw) == CopiedBy(gm, ph, pw, pos, c, i + 1, 0)
  {
  }

  /** Examining placed cell `p` reaches every 4-neighbour of it, and only those. */
  lemma ReachStep(gm: seq<seq<bool>>, ph: nat, pw: nat, pos: Point, h: nat, w: nat, i: nat, j: nat)
    requires IsGrid(gm, ph, pw) && i < ph && j < pw
    ensures var p := Point(j + pos.x, i + pos.y);
      forall c :: ReachedNeighbour(gm, ph, pw, pos, h, w, c, i, j + 1) ==
        (ReachedNeighbour(gm, ph, pw, pos, h, w, c, i, j) || (InBounds(p, h, w) && gm[i][j] && NearBy(c, p, 4)))
  {
    var p := Point(j + pos.x, i + pos.y);
    forall c ensures ReachedNeighbour(gm, ph, pw, pos, h, w, c, i, j + 1) ==
        (ReachedNeighbour(gm, ph, pw, pos, h, w, c, i, j) || (InBounds(p, h, w) && gm[i][j] && NearBy(c, p, 4)))
    {
      ReachStepAt(gm, ph, pw, pos, h, w, i, j, c);
    }
  }

  lemma ReachStepAt(gm: seq<seq<bool>>, ph: nat, pw: nat, pos: Point, h: nat, w: nat, i: nat, j: nat, c: Point)
    requires IsGrid(gm, ph, pw) && i < ph && j < pw
    ensures var p := Point(j + pos.x, i + pos.y);
      ReachedNeighbour(gm, ph, pw, pos, h, w, c, i, j + 1) ==
        (ReachedNeighbour(gm, ph, pw, pos, h, w, c, i, j) || (InBounds(p, h, w) && gm[i][j] && NearBy(c, p, 4)))
  {
    var p := Point(j + pos.x, i + pos.y);
    for k := 0 to 4
      invariant forall k' :: 0 <= k' < k ==>
        Reached(gm, ph, pw, pos, h, w, Sub(c, Delta[k']), i, j + 1) ==
        (Reached(gm, ph, pw, pos, h, w, Sub(c, Delta[k']), i, j) || (InBounds(p, h, w) && gm[i][j] && c == Add(p, Delta[k'])))
    {
      CopiedStepAt(gm, ph, pw, pos, i, j, Sub(c, Delta[k]));
      assert Sub(c, Delta[k]) == p <==> c == Add(p, Delta[k]);
    }
    NearByAll(c, p);
  }

  /** `c` is `p + Delta[k]` for one of the first `d` directions. */
  predicate NearBy(c: Point, p: Point, d: nat)
    requires d <= 4
  {
    exists k :: 0 <= k < d && c == Add(p, Delta[k])
  }

  lemma NearByStep(c: Point, p: Point, d: nat)
    requires d < 4
    ensures NearBy(c, p, d + 1) == (NearBy(c, p, d) || c == Add(p, Delta[d]))
  {
    if NearBy(c, p, d + 1) && c != Add(p, Delta[d]) {
      var k :| 0 <= k < d + 1 && c == Add(p, Delta[k]);
      assert k < d;
    }
  }

  lemma NearByAll(c: Point, p: Point)
    ensures NearBy(c, p, 4) == (c == Add(p, Delta[0]) || c == Add(p, Delta[1]) || c == Add(p, Delta[2]) || c == Add(p, Delta[3]))
  {
    if NearBy(c, p, 4) {
      var k :| 0 <= k < 4 && c == Add(p, Delta[k]);
    }
  }

  lemma ReachRow(gm: seq<seq<bool>>, ph: nat, pw: nat, pos: Point, h: nat, w: nat, i: nat)
    requires IsGrid(gm, ph, pw)
    ensures forall c :: ReachedNeighbour(gm, ph, pw, pos, h, w, c, i, pw) == ReachedNeighbour(gm, ph, pw, pos, h, w, c, i + 1, 0)
  {
    CopiedRow(gm, ph, pw, pos, i);
  }

  /** Once every mask row has been visited, a reached neighbour is a placed
      neighbour. */
  lemma ReachedAll(gm: seq<seq<bool>>, ph: nat, pw: nat, pos: Point, h: nat, w: nat, c: Point)
    requires IsGrid(gm, ph, pw)
    ensures ReachedNeighbour(gm, ph, pw, pos, h, w, c, ph, 0) == HasMaskedNeighbour(Placed(gm, ph, pw, pos, h, w), c, h, w)
  {
    var gP := Placed(gm, ph, pw, pos, h, w);
    assert Sub(c, Delta[0]) == Add(c, Delta[2]) && Sub(c, Delta[1]) == Add(c, Delta[3]);
    assert Sub(c, Delta[2]) == Add(c, Delta[0]) && Sub(c, Delta[3]) == Add(c, Delta[1]);
    forall p ensures Reached(gm, ph, pw, pos, h, w, p, ph, 0) == Masked(gP, p, h, w) {
      if InBounds(p, h, w) { assert gP[p.y][p.x] == CopiedBy(gm, ph, pw, pos, p, ph, 0); }
    }
  }

  // ---------------------------------------------------------------------
  // The three loops of `placePatch`.

  /** Copies row `i` of the mask onto `synthesis_mask`. */
  method CopyMaskRow(sm: array2<bool>, mask: array2<bool>, ghost gm: seq<seq<bool>>, pos: Point, i: nat)
    requires sm != mask && Views(mask, gm) && i < mask.Length0
    requires forall y, x :: 0 <= y < sm.Length0 && 0 <= x < sm.Length1 ==>
      sm[y, x] == CopiedBy(gm, mask.Length0, mask.Length1, pos, Point(x, y), i, 0)
    modifies sm
    ensures forall y, x :: 0 <= y < sm.Length0 && 0 <= x < sm.Length1 ==>
      sm[y, x] == CopiedBy(gm, mask.Length0, mask.Length1, pos, Point(x, y), i + 1, 0)
  {
    for j := 0 to mask.Length1
      invariant forall y, x :: 0 <= y < sm.Length0 && 0 <= x < sm.Length1 ==>
        sm[y, x] == CopiedBy(gm, mask.Length0, mask.Length1, pos, Point(x, y), i, j)
    {
      CopiedStep(gm, mask.Length0, mask.Length1, pos, i, j);
      var p := Point(j + pos.x, i + pos.y);
      if InBounds(p, sm.Length0, sm.Length1) && mask[i, j] {
        sm[p.y, p.x] := true;
      }
    }
    CopiedRow(gm, mask.Length0, mask.Length1, pos, i);
  }

  /** The inner `d` loop: marks each in-bounds, defined, unplaced
      4-neighbour of placed cell `p`. */
  method MarkNeighbours(km: array2<bool>, sm: array2<bool>, S: array2<Sample>,
                        ghost gS: seq<seq<Sample>>, ghost gP: seq<seq<bool>>, ghost gm: seq<seq<bool>>,
                        ph: nat, pw: nat, pos: Point, i: nat, j: nat)
    requires km != sm && Views(S, gS) && Views(sm, gP) && IsGrid(gm, ph, pw) && i < ph && j < pw
    requires km.Length0 == S.Length0 == sm.Length0 && km.Length1 == S.Length1 == sm.Length1
    requires InBounds(Point(j + pos.x, i + pos.y), km.Length0, km.Length1) && gm[i][j]
    requires forall y, x :: 0 <= y < km.Length0 && 0 <= x < km.Length1 ==>
      km[y, x] == (SeamCandidate(gS, gP, km.Length0, km.Length1, Point(x, y)) &&
                   ReachedNeighbour(gm, ph, pw, pos, km.Length0, km.Length1, Point(x, y), i, j))
    modifies km
    ensures forall y, x :: 0 <= y < km.Length0 && 0 <= x < km.Length1 ==>
      km[y, x] == (SeamCandidate(gS, gP, km.Length0, km.Length1, Point(x, y)) &&
                   ReachedNeighbour(gm, ph, pw, pos, km.Length0, km.Length1, Point(x, y), i, j + 1))
  {
    var h, w := km.Length0, km.Length1;
    var p := Point(j + pos.x, i + pos.y);
    for d := 0 to 4
      invariant forall y, x :: 0 <= y < h && 0 <= x < w ==>
        km[y, x] == (SeamCandidate(gS, gP, h, w, Point(x, y)) &&
                     (ReachedNeighbour(gm, ph, pw, pos, h, w, Point(x, y), i, j) || NearBy(Point(x, y), p, d)))
    {
      var q := Add(p, Delta[d]);
      if InBounds(q, h, w) && !S[q.y, q.x].NaN? && !sm[q.y, q.x] {
        km[q.y, q.x] := true;
      }
      forall c { NearByStep(c, p, d); }
    }
    ReachStep(gm, ph, pw, pos, h, w, i, j);
  }

  /** One cell of the seam loop: a placed image has its neighbours marked. */
  method MarkSeamStep(km: array2<bool>, sm: array2<bool>, S: array2<Sample>,
                      ghost gS: seq<seq<Sample>>, ghost gP: seq<seq<bool>>, ghost gm: seq<seq<bool>>,
                      ph: nat, pw: nat, pos: Point, i: nat, j: nat)
    requires km != sm && Views(S, gS) && Views(sm, gP) && IsGrid(gm, ph, pw) && i < ph && j < pw
    requires km.Length0 == S.Length0 == sm.Length0 && km.Length1 == S.Length1 == sm.Length1
    requires gP == Placed(gm, ph, pw, pos, km.Length0, km.Length1)
    requires forall y, x :: 0 <= y < km.Length0 && 0 <= x < km.Length1 ==>
      km[y, x] == (SeamCandidate(gS, gP, km.Length0, km.Length1, Point(x, y)) &&
                   ReachedNeighbour(gm, ph, pw, pos, km.Length0, km.Length1, Point(x, y), i, j))
    modifies km
    ensures forall y, x :: 0 <= y < km.Length0 && 0 <= x < km.Length1 ==>
      km[y, x] == (SeamCandidate(gS, gP, km.Length0, km.Length1, Point(x, y)) &&
                   ReachedNeighbour(gm, ph, pw, pos, km.Length0, km.Length1, Point(x, y), i, j + 1))
  {
    var h, w := km.Length0, km.Length1;
    var p := Point(j + pos.x, i + pos.y);
    if InBounds(p, h, w) && sm[p.y, p.x] {
      assert gP[p.y][p.x] == gm[i][j];
      MarkNeighbours(km, sm, S, gS, gP, gm, ph, pw, pos, i, j);
    } else {
      assert !InBounds(p, h, w) || !gm[i][j];
      ReachStep(gm, ph, pw, pos, h, w, i, j);
    }
  }

  /** Runs the seam test on the cells of mask row `i`. */
  method MarkSeamRow(km: array2<bool>, sm: array2<bool>, S: array2<Sample>,
                     ghost gS: seq<seq<Sample>>, ghost gP: seq<seq<bool>>, ghost gm: seq<seq<bool>>,
                     ph: nat, pw: nat, pos: Point, i: nat)
    requires km != sm && Views(S, gS) && Views(sm, gP) && IsGrid(gm, ph, pw) && i < ph
    requires km.Length0 == S.Length0 == sm.Length0 && km.Length1 == S.Length1 == sm.Length1
    requires gP == Placed(gm, ph, pw, pos, km.Length0, km.Length1)
    requires forall y, x :: 0 <= y < km.Length0 && 0 <= x < km.Length1 ==>
      km[y, x] == (SeamCandidate(gS, gP, km.Length0, km.Length1, Point(x, y)) &&
                   ReachedNeighbour(gm, ph, pw, pos, km.Length0, km.Length1, Point(x, y), i, 0))
    modifies km
    ensures forall y, x :: 0 <= y < km.Length0 && 0 <= x < km.Length1 ==>
      km[y, x] == (SeamCandidate(gS, gP, km.Length0, km.Length1, Point(x, y)) &&
                   ReachedNeighbour(gm, ph, pw, pos, km.Length0, km.Length1, Point(x, y), i + 1, 0))
  {
    var h, w := km.Length0, km.Length1;
    for j := 0 to pw
      invariant forall y, x :: 0 <= y < h && 0 <= x < w ==>
        km[y, x] == (SeamCandidate(gS, gP, h, w, Point(x, y)) && ReachedNeighbour(gm, ph, pw, pos, h, w, Point(x, y), i, j))
    {
      MarkSeamStep(km, sm, S, gS, gP, gm, ph, pw, pos, i, j);
    }
    ReachRow(gm, ph, pw, pos, h, w, i);
  }

  /** Cell `c` after the paste loop has visited `i` rows and `j` further
      cells of the mask. */
  ghost function PastedBy(S0: seq<seq<Sample>>, gpatch: seq<seq<Sample>>, gm: seq<seq<bool>>, ph: nat, pw: nat,
                          pos: Point, h: nat, w: nat, c: Point, i: int, j: int): Sample
    requires IsGrid(S0, h, w) && IsGrid(gpatch, ph, pw) && IsGrid(gm, ph, pw) && InBounds(c, h, w)
  {
    if CopiedBy(gm, ph, pw, pos, c, i, j) then At(gpatch, Sub(c, pos), ph, pw) else At(S0, c, h, w)
  }

  /** Pastes mask cell `(j, i)` if it is set and lands in bounds. */
  method PasteStep(S: array2<Sample>, patch: array2<Sample>, mask: array2<bool>,
                   ghost S0: seq<seq<Sample>>, ghost gpatch: seq<seq<Sample>>, ghost gm: seq<seq<bool>>,
                   pos: Point, i: nat, j: nat)
    requires S != patch && Views(patch, gpatch) && Views(mask, gm) && IsGrid(S0, S.Length0, S.Length1)
    requires patch.Length0 == mask.Length0 && patch.Length1 == mask.Length1 && i < mask.Length0 && j < mask.Length1
    requires forall y, x :: 0 <= y < S.Length0 && 0 <= x < S.Length1 ==>
      S[y, x] == PastedBy(S0, gpatch, gm, mask.Length0, mask.Length1, pos, S.Length0, S.Length1, Point(x, y), i, j)
    modifies S
    ensures forall y, x :: 0 <= y < S.Length0 && 0 <= x < S.Length1 ==>
      S[y, x] == PastedBy(S0, gpatch, gm, mask.Length0, mask.Length1, pos, S.Length0, S.Length1, Point(x, y), i, j + 1)
  {
    CopiedStep(gm, mask.Length0, mask.Length1, pos, i, j);
    var p := Point(j + pos.x, i + pos.y);
    if InBounds(p, S.Length0, S.Length1) && mask[i, j] {
      S[p.y, p.x] := patch[i, j];
    }
  }

  /** Pastes row `i` of the masked patch into the synthesis. */
  method PasteRow(S: array2<Sample>, patch: array2<Sample>, mask: array2<bool>,
                  ghost S0: seq<seq<Sample>>, ghost gpatch: seq<seq<Sample>>, ghost gm: seq<seq<bool>>, pos: Point, i: nat)
    requires S != patch && Views(patch, gpatch) && Views(mask, gm) && IsGrid(S0, S.Length0, S.Length1)
    requires patch.Length0 == mask.Length0 && patch.Length1 == mask.Length1 && i < mask.Length0
    requires forall y, x :: 0 <= y < S.Length0 && 0 <= x < S.Length1 ==>
      S[y, x] == PastedBy(S0, gpatch, gm, mask.Length0, mask.Length1, pos, S.Length0, S.Length1, Point(x, y), i, 0)
    modifies S
    ensures forall y, x :: 0 <= y < S.Length0 && 0 <= x < S.Length1 ==>
      S[y, x] == PastedBy(S0, gpatch, gm, mask.Length0, mask.Length1, pos, S.Length0, S.Length1, Point(x, y), i + 1, 0)
  {
    for j := 0 to mask.Length1
      invariant forall y, x :: 0 <= y < S.Length0 && 0 <= x < S.Length1 ==>
        S[y, x] == PastedBy(S0, gpatch, gm, mask.Length0, mask.Length1, pos, S.Length0, S.Length1, Point(x, y), i, j)
    {
      PasteStep(S, patch, mask, S0, gpatch, gm, pos, i, j);
    }
    CopiedRow(gm, mask.Length0, mask.Length1, pos, i);
  }

  /** The mask-copy loop: `synthesis_mask`, fresh and all false, receives
      the translated mask. */
  method CopyMask(mask: array2<bool>, ghost gm: seq<seq<bool>>, pos: Point, h: nat, w: nat) returns (sm: array2<bool>)
    requires Views(mask, gm)
    ensures fresh(sm) && sm.Length0 == h && sm.Length1 == w
    ensures Snap(sm) == Placed(gm, mask.Length0, mask.Length1, pos, h, w)
  {
    var ph, pw := mask.Length0, mask.Length1;
    sm := new bool[h, w]((_, _) => false);
    for i := 0 to ph
      invariant forall y, x :: 0 <= y < h && 0 <= x < w ==> sm[y, x] == CopiedBy(gm, ph, pw, pos, Point(x, y), i, 0)
    {
      CopyMaskRow(sm, mask, gm, pos, i);
    }
    GridExt(Snap(sm), Placed(gm, ph, pw, pos, h, w), h, w);
  }

  /** The seam loop: `seam_mask`, fresh and all false, receives every
      defined, unplaced 4-neighbour of a placed cell. */
  method MarkSeam(sm: array2<bool>, S: array2<Sample>, ghost gS: seq<seq<Sample>>, ghost gm: seq<seq<bool>>,
                  ph: nat, pw: nat, pos: Point) returns (km: array2<bool>)
    requires Views(S, gS) && IsGrid(gm, ph, pw)
    requires S.Length0 == sm.Length0 && S.Length1 == sm.Length1
    requires Views(sm, Placed(gm, ph, pw, pos, sm.Length0, sm.Length1))
    ensures fresh(km) && km.Length0 == S.Length0 && km.Length1 == S.Length1
    ensures Snap(km) == SeamOf(gS, Placed(gm, ph, pw, pos, S.Length0, S.Length1), S.Length0, S.Length1)
  {
    var h, w := S.Length0, S.Length1;
    ghost var gP := Placed(gm, ph, pw, pos, h, w);
    km := new bool[h, w]((_, _) => false);
    for i := 0 to ph
      invariant forall y, x :: 0 <= y < h && 0 <= x < w ==>
        km[y, x] == (SeamCandidate(gS, gP, h, w, Point(x, y)) && ReachedNeighbour(gm, ph, pw, pos, h, w, Point(x, y), i, 0))
    {
      MarkSeamRow(km, sm, S, gS, gP, gm, ph, pw, pos, i);
    }
    ghost var gK := SeamOf(gS, gP, h, w);
    forall y, x | 0 <= y < h && 0 <= x < w ensures km[y, x] == gK[y][x] {
      ReachedAll(gm, ph, pw, pos, h, w, Point(x, y));
    }
    GridExt(Snap(km), gK, h, w);
  }

  /** The paste loop: each placed cell takes the patch value under it. */
  method Paste(S: array2<Sample>, patch: array2<Sample>, mask: array2<bool>,
               ghost gpatch: seq<seq<Sample>>, ghost gm: seq<seq<bool>>, pos: Point)
    requires S != patch && Views(patch, gpatch) && Views(mask, gm)
    requires patch.Length0 == mask.Length0 && patch.Length1 == mask.Length1
    modifies S
    ensures Snap(S) == Pasted(old(Snap(S)), gpatch, gm, mask.Length0, mask.Length1, pos, S.Length0, S.Length1)
  {
    var ph, pw := mask.Length0, mask.Length1;
    ghost var S0 := Snap(S);
    for i := 0 to ph
      invariant forall y, x :: 0 <= y < S.Length0 && 0 <= x < S.Length1 ==>
        S[y, x] == PastedBy(S0, gpatch, gm, ph, pw, pos, S.Length0, S.Length1, Point(x, y), i, 0)
    {
      PasteRow(S, patch, mask, S0, gpatch, gm, pos, i);
    }
    GridExt(Snap(S), Pasted(S0, gpatch, gm, ph, pw, pos, S.Length0, S.Length1), S.Length0, S.Length1);
  }

  /** `placePatch(synthesis, patch, mask, pos)`: mark the translated mask,
      mark its seam, paste the masked patch, and remove the seam with
      `solve`. */
  method PlacePatch(synthesis: array2<Sample>, patch: array2<Sample>, mask: array2<bool>, pos: Point,
                    solve: System -> seq<Sample>)
    requires patch.Length0 == mask.Length0 && patch.Length1 == mask.Length1
    requires synthesis != patch && SolverShape(solve)
    modifies synthesis
    ensures Snap(synthesis) == PlacePatchResult(old(Snap(synthesis)), Snap(patch), Snap(mask),
                                                mask.Length0, mask.Length1, pos, synthesis.Length0, synthesis.Length1, solve)
  {
    var h, w := synthesis.Length0, synthesis.Length1;
    ghost var gS, gpatch, gm := Snap(synthesis), Snap(patch), Snap(mask);
    var sm := CopyMask(mask, gm, pos, h, w);
    var km := MarkSeam(sm, synthesis, gS, gm, mask.Length0, mask.Length1, pos);
    Paste(synthesis, patch, mask, gpatch, gm, pos);
    PoissonSeamRemoval(synthesis, sm, km, solve);
  }
}
