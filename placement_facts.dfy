/** Properties of `placePatch`: where the mask lands, what the seam mask
    holds, and which cells of the synthesis can change. */
module PlacementFacts {
  import opened Grid
  import opened SeamSystem
  import opened SeamFacts
  import opened SeamUnknowns
  import opened PatchPlacement

  /** A synthesis cell is placed exactly when it is the translate by `pos`
      of a set mask cell. */
  lemma PlacedExactly(gm: seq<seq<bool>>, ph: nat, pw: nat, pos: Point, h: nat, w: nat, c: Point)
    requires IsGrid(gm, ph, pw) && InBounds(c, h, w)
    ensures At(Placed(gm, ph, pw, pos, h, w), c, h, w) <==>
      exists i, j :: 0 <= i < ph && 0 <= j < pw && gm[i][j] && c == Point(j + pos.x, i + pos.y)
  {
    if At(Placed(gm, ph, pw, pos, h, w), c, h, w) {
      var q := Sub(c, pos);
      assert gm[q.y][q.x] && c == Point(q.x + pos.x, q.y + pos.y);
    }
  }

  /** Before the solve, each cell that is the translate of a set mask cell
      `(i, j)` holds `patch(i, j)`, and every other cell is unchanged. */
  lemma PastedExactly(gS: seq<seq<Sample>>, gpatch: seq<seq<Sample>>, gm: seq<seq<bool>>, ph: nat, pw: nat,
                      pos: Point, h: nat, w: nat, c: Point)
    requires IsGrid(gS, h, w) && IsGrid(gpatch, ph, pw) && IsGrid(gm, ph, pw) && InBounds(c, h, w)
    ensures forall i, j :: 0 <= i < ph && 0 <= j < pw && gm[i][j] && c == Point(j + pos.x, i + pos.y) ==>
      At(Pasted(gS, gpatch, gm, ph, pw, pos, h, w), c, h, w) == gpatch[i][j]
    ensures (forall i, j :: 0 <= i < ph && 0 <= j < pw && gm[i][j] ==> c != Point(j + pos.x, i + pos.y)) ==>
      At(Pasted(gS, gpatch, gm, ph, pw, pos, h, w), c, h, w) == At(gS, c, h, w)
  {
    var q := Sub(c, pos);
    if !CopiedBy(gm, ph, pw, pos, c, ph, 0) {
      assert forall i, j :: 0 <= i < ph && 0 <= j < pw && gm[i][j] ==> c != Point(j + pos.x, i + pos.y);
    } else {
      assert gm[q.y][q.x] && c == Point(q.x + pos.x, q.y + pos.y);
    }
  }

  /** A synthesis cell is on the seam exactly when it was defined before
      the paste, is not placed, and is the 4-neighbour of a placed cell. */
  lemma SeamExactly(gS: seq<seq<Sample>>, gP: seq<seq<bool>>, h: nat, w: nat, c: Point)
    requires IsGrid(gS, h, w) && IsGrid(gP, h, w) && InBounds(c, h, w)
    ensures At(SeamOf(gS, gP, h, w), c, h, w) <==>
      At(gS, c, h, w).Num? && !At(gP, c, h, w) && exists p :: Masked(gP, p, h, w) && IsNeighbour(p, c)
  {
    if At(SeamOf(gS, gP, h, w), c, h, w) {
      var p := if Masked(gP, Add(c, Delta[0]), h, w) then Add(c, Delta[0])
               else if Masked(gP, Add(c, Delta[1]), h, w) then Add(c, Delta[1])
               else if Masked(gP, Add(c, Delta[2]), h, w) then Add(c, Delta[2])
               else Add(c, Delta[3]);
      NeighbourSymmetric(p, c);
      assert Masked(gP, p, h, w) && IsNeighbour(p, c);
    }
    if exists p :: Masked(gP, p, h, w) && IsNeighbour(p, c) {
      var p :| Masked(gP, p, h, w) && IsNeighbour(p, c);
      NeighbourSymmetric(p, c);
      assert HasMaskedNeighbour(gP, c, h, w);
    }
  }

  /** An `h` by `w` seam mask with nothing set. */
  ghost function NoSeam(h: nat, w: nat): (r: seq<seq<bool>>)
    ensures IsGrid(r, h, w) && forall i, j :: 0 <= i < h && 0 <= j < w ==> !r[i][j]
  {
    seq(h, i requires 0 <= i < h => seq(w, j requires 0 <= j < w => false))
  }

  /** The seam mask `placePatch` derives never changes the outcome: it marks
      only unplaced cells, and the seam removal consults it only on placed
      ones, so the result is that of an empty seam mask. */
  lemma SeamFlagInert(gS: seq<seq<Sample>>, gpatch: seq<seq<Sample>>, gm: seq<seq<bool>>, ph: nat, pw: nat,
                      pos: Point, h: nat, w: nat, solve: System -> seq<Sample>)
    requires IsGrid(gS, h, w) && IsGrid(gpatch, ph, pw) && IsGrid(gm, ph, pw) && SolverShape(solve)
    ensures PlacePatchResult(gS, gpatch, gm, ph, pw, pos, h, w, solve) ==
      SeamRemoval(Pasted(gS, gpatch, gm, ph, pw, pos, h, w), Placed(gm, ph, pw, pos, h, w), NoSeam(h, w), h, w, solve)
  {
    var gP := Placed(gm, ph, pw, pos, h, w);
    var gX := Pasted(gS, gpatch, gm, ph, pw, pos, h, w);
    SeamOnlyOnMask(gX, gP, SeamOf(gS, gP, h, w), NoSeam(h, w), h, w);
  }

  /** A cell that receives no variable id keeps its pasted value. */
  lemma UnknownsOnlyChange(gS: seq<seq<Sample>>, gpatch: seq<seq<Sample>>, gm: seq<seq<bool>>, ph: nat, pw: nat,
                           pos: Point, h: nat, w: nat, solve: System -> seq<Sample>, c: Point)
    requires IsGrid(gS, h, w) && IsGrid(gpatch, ph, pw) && IsGrid(gm, ph, pw) && SolverShape(solve)
    requires InBounds(c, h, w)
    requires !IsUnknown(Pasted(gS, gpatch, gm, ph, pw, pos, h, w), Placed(gm, ph, pw, pos, h, w), c, h, w)
    ensures At(PlacePatchResult(gS, gpatch, gm, ph, pw, pos, h, w, solve), c, h, w) ==
            At(Pasted(gS, gpatch, gm, ph, pw, pos, h, w), c, h, w)
  {
    var gP := Placed(gm, ph, pw, pos, h, w);
    var gX := Pasted(gS, gpatch, gm, ph, pw, pos, h, w);
    UnknownsExactly(gX, gP, SeamOf(gS, gP, h, w), h, w, c);
  }

  /** A cell that is neither placed nor next to a placed cell is left as it
      was before `placePatch`. */
  lemma FarCellsUnchanged(gS: seq<seq<Sample>>, gpatch: seq<seq<Sample>>, gm: seq<seq<bool>>, ph: nat, pw: nat,
                          pos: Point, h: nat, w: nat, solve: System -> seq<Sample>, c: Point)
    requires IsGrid(gS, h, w) && IsGrid(gpatch, ph, pw) && IsGrid(gm, ph, pw) && SolverShape(solve)
    requires InBounds(c, h, w)
    requires !At(Placed(gm, ph, pw, pos, h, w), c, h, w) && !HasMaskedNeighbour(Placed(gm, ph, pw, pos, h, w), c, h, w)
    ensures At(PlacePatchResult(gS, gpatch, gm, ph, pw, pos, h, w, solve), c, h, w) == At(gS, c, h, w)
  {
    UnknownsOnlyChange(gS, gpatch, gm, ph, pw, pos, h, w, solve, c);
  }

  /** When no set mask cell lands on the synthesis, `placePatch` changes nothing. */
  lemma MissedPlacementNoChange(gS: seq<seq<Sample>>, gpatch: seq<seq<Sample>>, gm: seq<seq<bool>>, ph: nat, pw: nat,
                                pos: Point, h: nat, w: nat, solve: System -> seq<Sample>)
    requires IsGrid(gS, h, w) && IsGrid(gpatch, ph, pw) && IsGrid(gm, ph, pw) && SolverShape(solve)
    requires forall i, j :: 0 <= i < ph && 0 <= j < pw && gm[i][j] ==> !InBounds(Point(j + pos.x, i + pos.y), h, w)
    ensures PlacePatchResult(gS, gpatch, gm, ph, pw, pos, h, w, solve) == gS
  {
    var gP := Placed(gm, ph, pw, pos, h, w);
    var gX := Pasted(gS, gpatch, gm, ph, pw, pos, h, w);
    forall p | InBounds(p, h, w) ensures !At(gP, p, h, w) {
      PlacedExactly(gm, ph, pw, pos, h, w, p);
    }
    EmptyMaskEmptySystem(gX, gP, SeamOf(gS, gP, h, w), h, w);
    var r := PlacePatchResult(gS, gpatch, gm, ph, pw, pos, h, w, solve);
    forall i, j | 0 <= i < h && 0 <= j < w ensures r[i][j] == gS[i][j] {
      assert !At(gP, Point(j, i), h, w);
    }
    GridExt(r, gS, h, w);
  }

  /** A patch placed wholly off the synthesis changes nothing. */
  lemma OffCanvasNoChange(gS: seq<seq<Sample>>, gpatch: seq<seq<Sample>>, gm: seq<seq<bool>>, ph: nat, pw: nat,
                          pos: Point, h: nat, w: nat, solve: System -> seq<Sample>)
    requires IsGrid(gS, h, w) && IsGrid(gpatch, ph, pw) && IsGrid(gm, ph, pw) && SolverShape(solve)
    requires pos.x >= w || pos.y >= h || pos.x + pw <= 0 || pos.y + ph <= 0
    ensures PlacePatchResult(gS, gpatch, gm, ph, pw, pos, h, w, solve) == gS
  {
    MissedPlacementNoChange(gS, gpatch, gm, ph, pw, pos, h, w, solve);
  }
}
