/** Frames that are drawn again, swaps that are lost, and frames that the renderer gets wrong. */
module BbulkAgain {
  import opened BbulkModel
  import opened BbulkExact
  import opened BbulkDraw
  import opened Raster

  // ---------------------------------------------------------------- drawing the same frame again

  ghost predicate HoldsAt(font: Font, cols: nat, g: Grid, f: seq<Cell>, j: nat)
    requires cols > 0 && j < |f| <= |g.cells| && g.Sized(|g.cells|)
  {
    && Regular(f[j]) && !Ghosted(font, cols, g.wide, f, j)
    && if Spill(font, cols, f, j) then g.cells[j].ch == ID_OVERFLOW
       else g.cells[j] == f[j] && g.wide[j] == font(f[j])
  }

  /** The stored cells are those of frame `f`. */
  ghost predicate Holds(font: Font, cols: nat, g: Grid, f: seq<Cell>) {
    Drawing(cols, g, f) && forall j: nat :: j < |f| ==> HoldsAt(font, cols, g, f, j)
  }

  lemma DrawnFrameHolds(font: Font, cols: nat, g: Grid, f: seq<Cell>, other: seq<Pix>)
    requires Ready(font, cols, g, f, other) && NoneEscapes(font, cols, g, f)
    ensures Holds(font, cols, DrawUpTo(font, cols, g, f, |f|), f)
  {
    var r := DrawUpTo(font, cols, g, f, |f|);
    hide DrawUpTo;
    forall j: nat | j < |f| ensures HoldsAt(font, cols, r, f, j) {
      assert Regular(f[j]) && !Escapes(font, cols, g, f, j);
      CellDone(font, cols, g, f, other, j);
      if j > 0 { CellDone(font, cols, g, f, other, j - 1); }
    }
  }

  lemma HoldsAnywhere(font: Font, cols: nat, g: Grid, f: seq<Cell>, h: Grid)
    requires Holds(font, cols, g, f) && h.Sized(|g.cells|) && h.cells == g.cells && h.wide == g.wide
    ensures Holds(font, cols, h, f)
  {
    forall j: nat | j < |f| ensures HoldsAt(font, cols, h, f, j) { assert HoldsAt(font, cols, g, f, j); }
  }

  lemma {:induction false} RedrawFate(font: Font, cols: nat, g: Grid, f: seq<Cell>, k: nat)
    requires Holds(font, cols, g, f) && k < |f|
    ensures
      var fate := FateOf(font, cols, g, f, k);
      && fate.taken == Spill(font, cols, f, k) && !fate.hit && fate.stored == g.cells[k] && fate.flag == g.wide[k]
      && fate.painted == (!fate.taken && (g.dmg[k] || (g.wide[k] && !FirstCol(cols, k + 1) && g.dmg[k + 1])))
  {
    assert HoldsAt(font, cols, g, f, k);
    if k > 0 {
      RedrawFate(font, cols, g, f, k - 1);
      assert HoldsAt(font, cols, g, f, k - 1);
      Follows(font, cols, g, f, k);
      hide FateOf;
    }
  }

  /** Redrawing a frame that is stored already changes no cell and spends the damage of every drawn cell. */
  lemma Redrawn(font: Font, cols: nat, g: Grid, f: seq<Cell>)
    requires Holds(font, cols, g, f)
    ensures
      var r := DrawUpTo(font, cols, g, f, |f|);
      r.cells == g.cells && r.wide == g.wide && forall j: nat :: j < |f| ==> !r.dmg[j]
  {
    var r := DrawUpTo(font, cols, g, f, |f|);
    DrawUpToArrives(font, cols, g, f, |f|);
    forall j: nat | j < |g.cells|
      ensures r.cells[j] == g.cells[j] && r.wide[j] == g.wide[j] && (j < |f| ==> !r.dmg[j])
    {
      RedrawnCell(font, cols, g, f, r, j);
    }
  }

  lemma RedrawnCell(font: Font, cols: nat, g: Grid, f: seq<Cell>, r: Grid, j: nat)
    requires Holds(font, cols, g, f) && Halfway(font, cols, g, r, f, |f|) && j < |g.cells|
    ensures r.cells[j] == g.cells[j] && r.wide[j] == g.wide[j] && (j < |f| ==> !r.dmg[j])
  {
    if j < |f| {
      RedrawFate(font, cols, g, f, j);
      assert HoldsAt(font, cols, g, f, j) && Arrived(font, cols, g, r, f, j);
      hide FateOf;
    } else {
      assert Untouched(g, r, j);
    }
  }

  /** And once there is no damage it does nothing at all. */
  lemma NothingToRedraw(font: Font, cols: nat, g: Grid, f: seq<Cell>)
    requires Holds(font, cols, g, f) && forall j: nat :: j < |f| ==> !g.dmg[j]
    ensures DrawUpTo(font, cols, g, f, |f|) == g
  {
    var r := DrawUpTo(font, cols, g, f, |f|);
    DrawUpToArrives(font, cols, g, f, |f|);
    NothingPainted(font, cols, g, f, |f|);
    hide DrawUpTo;
    forall j: nat | j < |g.cells|
      ensures r.cells[j] == g.cells[j] && r.dmg[j] == g.dmg[j] && r.wide[j] == g.wide[j] && r.back[j] == g.back[j]
    {
      RedrawnCell(font, cols, g, f, r, j);
      if j < |f| { NothingBlended(font, cols, g, f, r, j); } else { assert Untouched(g, r, j); }
    }
    assert r.cells == g.cells && r.dmg == g.dmg && r.wide == g.wide && r.back == g.back;
  }

  lemma NothingBlended(font: Font, cols: nat, g: Grid, f: seq<Cell>, r: Grid, j: nat)
    requires Holds(font, cols, g, f) && j < |f| && forall i: nat :: i < |f| ==> !g.dmg[i]
    requires Halfway(font, cols, g, r, f, |f|)
    ensures r.back[j] == g.back[j]
  {
    assert Arrived(font, cols, g, r, f, j);
    RedrawFate(font, cols, g, f, j);
    if j > 0 {
      RedrawFate(font, cols, g, f, j - 1);
      Follows(font, cols, g, f, j);
    }
    hide FateOf, Halfway;
  }

  lemma {:induction false} NothingPainted(font: Font, cols: nat, g: Grid, f: seq<Cell>, k: nat)
    requires Holds(font, cols, g, f) && k <= |f| && forall j: nat :: j < |f| ==> !g.dmg[j]
    ensures CountPainted(font, cols, g, f, k) == 0
  {
    if k > 0 {
      NothingPainted(font, cols, g, f, k - 1);
      RedrawFate(font, cols, g, f, k - 1);
    }
  }

  /** Nothing is blended when a frame is drawn for the third time in a row. */
  lemma ThirdDrawPaintsNothing(font: Font, cols: nat, g: Grid, f: seq<Cell>, other: seq<Pix>)
    requires Ready(font, cols, g, f, other) && NoneEscapes(font, cols, g, f)
    ensures
      var first := DrawUpTo(font, cols, g, f, |f|);
      var second := DrawUpTo(font, cols, first.(back := other), f, |f|);
      var third := second.(back := first.back, requests := 0);
      DrawUpTo(font, cols, third, f, |f|) == third
  {
    var first := DrawUpTo(font, cols, g, f, |f|);
    DrawnFrameHolds(font, cols, g, f, other);
    HoldsAnywhere(font, cols, first, f, first.(back := other));
    Redrawn(font, cols, first.(back := other), f);
    var second := DrawUpTo(font, cols, first.(back := other), f, |f|);
    HoldsAnywhere(font, cols, first, f, second.(back := first.back, requests := 0));
    NothingToRedraw(font, cols, second.(back := first.back, requests := 0), f);
  }

  // ---------------------------------------------------------------- swaps that are lost

  /** For any font: without damage support a failed swap is not made good by drawing the same frame.  When it
      is drawn to the same buffer, swapped, and drawn again, the second buffer keeps what it showed before the
      failure.  So it shows the frame if and only if it already did. */
  lemma LostSwapIsNotRepaired(font: Font, cols: nat, g: Grid, f: seq<Cell>, front: seq<Pix>)
    requires Ready(font, cols, g, f, front) && NoneEscapes(font, cols, g, f)
    ensures
      var failed := DrawUpTo(font, cols, g, f, |f|);
      var again := DrawUpTo(font, cols, failed, f, |f|);
      var swapped := DrawUpTo(font, cols, again.(back := front), f, |f|);
      swapped.back == front && (Shown(font, cols, f, swapped.back) <==> Shown(font, cols, f, front))
  {
    var failed := DrawUpTo(font, cols, g, f, |f|);
    DrawnFrameHolds(font, cols, g, f, front);
    Redrawn(font, cols, failed, f);
    var again := DrawUpTo(font, cols, failed, f, |f|);
    HoldsAnywhere(font, cols, failed, f, again.(back := front));
    NothingToRedraw(font, cols, again.(back := front), f);
  }

  /** Frames of one size for one grid, and the buffer on screen. */
  ghost predicate Frames(cols: nat, g: Grid, front: seq<Pix>, fs: seq<seq<Cell>>) {
    fs != [] && |front| == |g.cells| && forall m: nat :: m < |fs| ==> Drawing(cols, g, fs[m]) && |fs[m]| == |fs[0]|
  }

  /** The grid and the buffer on screen when the next frame is drawn, after frame `fs[i]`: the swap of `fs[0]`
      was lost, and those of the frames behind it succeeded. */
  ghost function AfterLoss(font: Font, cols: nat, g: Grid, front: seq<Pix>, fs: seq<seq<Cell>>, i: nat)
      : (s: (Grid, seq<Pix>))
    requires Frames(cols, g, front, fs) && i < |fs|
    ensures s.0.Sized(|g.cells|) && |s.1| == |g.cells|
  {
    if i == 0 then (DrawUpTo(font, cols, g, fs[0], |fs[0]|), front)
    else
      var was := AfterLoss(font, cols, g, front, fs, i - 1);
      var r := DrawUpTo(font, cols, was.0, fs[i], |fs[i]|);
      (r.(back := was.1), r.back)
  }

  /** All frames up to `i` agree about cell `k`. */
  ghost predicate Constant(fs: seq<seq<Cell>>, i: nat, k: nat)
    requires i < |fs| && k < |fs[0]| && forall m: nat :: m < |fs| ==> |fs[m]| == |fs[0]|
  {
    forall m: nat :: m <= i ==> fs[m][k] == fs[0][k]
  }

  /** What the buffer that missed frame `fs[0]` shows after it was last drawn, with `fs[i]`. */
  ghost function Missed(front: seq<Pix>, fs: seq<seq<Cell>>, i: nat, k: nat): Pix
    requires i < |fs| && k < |fs[0]| <= |front| && forall m: nat :: m < |fs| ==> |fs[m]| == |fs[0]|
  {
    if Constant(fs, i, k) then front[k] else Full(fs[i][k])
  }

  ghost predicate LossAt(front: seq<Pix>, fs: seq<seq<Cell>>, i: nat, s: (Grid, seq<Pix>), k: nat)
    requires i < |fs| && k < |fs[0]| <= |front| == |s.1| && forall m: nat :: m < |fs| ==> |fs[m]| == |fs[0]|
    requires s.0.Sized(|front|)
  {
    && s.0.cells[k] == fs[i][k] && !s.0.wide[k] && (i > 0 ==> s.0.dmg[k] == (fs[i][k] != fs[i - 1][k]))
    && if i == 0 then s.0.back[k] == Full(fs[0][k]) && s.1[k] == front[k]
       else if i % 2 == 0 then s.0.back[k] == Full(fs[i - 1][k]) && s.1[k] == Missed(front, fs, i, k)
       else s.0.back[k] == Missed(front, fs, i - 1, k) && s.1[k] == Full(fs[i][k])
  }

  ghost predicate Loss(front: seq<Pix>, fs: seq<seq<Cell>>, i: nat, s: (Grid, seq<Pix>)) {
    && i < |fs| && |fs[0]| <= |front| == |s.1| && s.0.Sized(|front|)
    && (forall m: nat :: m < |fs| ==> |fs[m]| == |fs[0]|)
    && forall k: nat :: k < |fs[0]| ==> LossAt(front, fs, i, s, k)
  }

  lemma {:induction false} LossKeeps(font: Font, cols: nat, g: Grid, front: seq<Pix>, fs: seq<seq<Cell>>, i: nat)
    requires Frames(cols, g, front, fs) && i < |fs| && Ready(font, cols, g, fs[0], front) && forall c :: !font(c)
    ensures Loss(front, fs, i, AfterLoss(font, cols, g, front, fs, i))
  {
    if i == 0 {
      FirstLoss(font, cols, g, front, fs);
    } else {
      LossKeeps(font, cols, g, front, fs, i - 1);
      NextLoss(font, cols, g, front, fs, i, AfterLoss(font, cols, g, front, fs, i - 1));
    }
  }

  lemma FirstLoss(font: Font, cols: nat, g: Grid, front: seq<Pix>, fs: seq<seq<Cell>>)
    requires Frames(cols, g, front, fs) && Ready(font, cols, g, fs[0], front) && forall c :: !font(c)
    ensures Loss(front, fs, 0, (DrawUpTo(font, cols, g, fs[0], |fs[0]|), front))
  {
    var s := (DrawUpTo(font, cols, g, fs[0], |fs[0]|), front);
    forall j: nat | j < |fs[0]| && g.cells[j] == fs[0][j] && !g.dmg[j]
      ensures !g.wide[j] && g.back[j] == Full(fs[0][j])
    {
      assert CellSettled(font, cols, |fs[0]|, g, front, g.back, j) && Regular(fs[0][j]);
    }
    hide DrawUpTo, Ready;
    forall k: nat | k < |fs[0]| ensures LossAt(front, fs, 0, s, k) {
      NarrowDraw(font, cols, g, fs[0], k);
    }
  }

  lemma NextLoss(font: Font, cols: nat, g: Grid, front: seq<Pix>, fs: seq<seq<Cell>>, i: nat, was: (Grid, seq<Pix>))
    requires Frames(cols, g, front, fs) && 0 < i < |fs| && Loss(front, fs, i - 1, was) && forall c :: !font(c)
    ensures
      var r := DrawUpTo(font, cols, was.0, fs[i], |fs[i]|);
      Loss(front, fs, i, (r.(back := was.1), r.back))
  {
    var r := DrawUpTo(font, cols, was.0, fs[i], |fs[i]|);
    var s := (r.(back := was.1), r.back);
    assert Drawing(cols, g, fs[i]) && |fs[i]| == |fs[0]|;
    hide DrawUpTo;
    forall j: nat | j < |fs[i]| ensures !was.0.wide[j] { assert LossAt(front, fs, i - 1, was, j); }
    forall k: nat | k < |fs[0]| ensures LossAt(front, fs, i, s, k) {
      assert LossAt(front, fs, i - 1, was, k);
      NarrowDraw(font, cols, was.0, fs[i], k);
      StillMissed(front, fs, i, k);
    }
  }

  /** What the lost frame's cell looks like after two more frames, repainted unless all three agree. */
  lemma StillMissed(front: seq<Pix>, fs: seq<seq<Cell>>, i: nat, k: nat)
    requires 0 < i < |fs| && k < |fs[0]| <= |front| && forall m: nat :: m < |fs| ==> |fs[m]| == |fs[0]|
    ensures i > 1 ==>
      var kept := fs[i - 2][k] == fs[i - 1][k] == fs[i][k];
      Missed(front, fs, i, k) == if kept then Missed(front, fs, i - 2, k) else Full(fs[i][k])
  {
    if i > 1 {
      if Constant(fs, i, k) {
        assert fs[i][k] == fs[0][k] && fs[i - 1][k] == fs[0][k] && fs[i - 2][k] == fs[0][k];
      }
      if Constant(fs, i - 2, k) { assert fs[i - 2][k] == fs[0][k]; }
    }
  }

  /** The exact condition with single-width glyphs, for any frames behind the lost one.  The buffer that the lost
      frame was drawn to is always right.  The other one shows frame `fs[i]` if and only if it already showed each
      cell that has not changed ever since: a lost cell is repaired by its first change, and by nothing else. */
  lemma LostSwapIff(font: Font, cols: nat, g: Grid, front: seq<Pix>, fs: seq<seq<Cell>>, i: nat)
    requires Frames(cols, g, front, fs) && 0 < i < |fs| && Ready(font, cols, g, fs[0], front) && forall c :: !font(c)
    ensures Shown(font, cols, fs[i], AfterLoss(font, cols, g, front, fs, i).1) <==>
      i % 2 == 1 || forall k: nat :: k < |fs[0]| && Constant(fs, i, k) ==> front[k] == Full(fs[i][k])
  {
    var s := AfterLoss(font, cols, g, front, fs, i);
    LossKeeps(font, cols, g, front, fs, i);
    hide AfterLoss, Ready;
    forall k: nat | k < |fs[0]|
      ensures Ideal(font, cols, fs[i], k) == Full(fs[i][k])
      ensures s.1[k] == if i % 2 == 0 then Missed(front, fs, i, k) else Full(fs[i][k])
    {
      assert LossAt(front, fs, i, s, k);
    }
  }

  /** For one frame drawn three times, this is the law for all fonts from above. */
  lemma OneFrameIff(font: Font, cols: nat, g: Grid, f: seq<Cell>, front: seq<Pix>)
    requires Ready(font, cols, g, f, front) && forall c :: !font(c)
    ensures Frames(cols, g, front, [f, f, f])
    ensures Shown(font, cols, f, AfterLoss(font, cols, g, front, [f, f, f], 2).1) <==> Shown(font, cols, f, front)
  {
    var fs := [f, f, f];
    assert Frames(cols, g, front, fs);
    LostSwapIff(font, cols, g, front, fs, 2);
    hide AfterLoss, Ready;
    forall k: nat | k < |f| ensures Constant(fs, 2, k) && Ideal(font, cols, f, k) == Full(f[k]) {
    }
  }

  // ---------------------------------------------------------------- frames that hold a mark's number

  /** With single-width glyphs, from any settled state: when a frame that may hold either mark's number is drawn
      to one buffer and then to the other, the first shows it if and only if it already showed the stored
      overflow numbers that it is not to repaint, and the second if and only if it already showed all stored
      cells with a mark's number. */
  lemma MarksSurviveIff(font: Font, cols: nat, g: Grid, f: seq<Cell>, other: seq<Pix>)
    requires Settled(font, cols, |f|, g, other, g.back) && forall c :: !font(c)
    requires forall j: nat :: j < |f| && g.cells[j] == f[j] && f[j].ch == ID_OVERFLOW ==> !g.wide[j]
    ensures
      var first := DrawUpTo(font, cols, g, f, |f|);
      var second := DrawUpTo(font, cols, first.(back := other), f, |f|);
      && (Shown(font, cols, f, first.back) <==>
          forall k: nat :: k < |f| && f[k].ch == ID_OVERFLOW && g.cells[k] == f[k] && !g.dmg[k] ==>
            g.back[k] == Full(f[k]))
      && (Shown(font, cols, f, second.back) <==>
          forall k: nat :: k < |f| && !Regular(f[k]) && g.cells[k] == f[k] ==> other[k] == Full(f[k]))
  {
    forall j: nat | j < |f| && g.cells[j] == f[j]
      ensures !g.dmg[j] ==> f[j].ch != ID_DAMAGED && !g.wide[j]
      ensures Regular(f[j]) ==> other[j] == Full(f[j]) && (!g.dmg[j] ==> g.back[j] == Full(f[j]))
    {
      assert CellSettled(font, cols, |f|, g, other, g.back, j);
    }
    NarrowTwiceIff(font, cols, g, f, other);
    hide DrawUpTo, Settled, Ideal, FirstCol;
  }

  // ---------------------------------------------------------------- inputs that go wrong

  const X: Cell := Cell(120, false, 0)
  const W: Cell := Cell(0x4E00, false, 0)
  const GAP: Cell := Cell(SPACE, false, 0)
  const DAMAGED_NUMBER: Cell := Cell(ID_DAMAGED, false, 0)
  const OVERFLOW_NUMBER: Cell := Cell(ID_OVERFLOW, false, 0)

  /** A double-width glyph that moves one column to the left leaves half of itself behind. */
  lemma ShiftedGlyphLeavesHalf() returns (font: Font, g: Grid, f: seq<Cell>, other: seq<Pix>)
    ensures Ready(font, 3, g, f, other) && |f| == 3
    ensures Ghosted(font, 3, g.wide, f, 2)
    ensures DrawUpTo(font, 3, g, f, 3).back[2] == RightHalf(W) != Ideal(font, 3, f, 2) == Full(GAP)
  {
    font := (c: Cell) => c.ch == 0x4E00;
    var shown := [Full(X), Full(W), RightHalf(W)];
    g := Grid([X, W, OVERFLOW_NUMBER], [false, false, false], [false, true, false], shown, 0);
    f, other := [W, GAP, GAP], shown;
    forall j: nat | j < 3 ensures CellSettled(font, 3, 3, g, other, g.back, j) {
      assert j == 0 || j == 1 || j == 2;
    }
    assert Col(3, 1) == 1 && Col(3, 2) == 2 && Col(3, 3) == Col(3, 0) == 0;
    assert !FirstCol(3, 1) && !FirstCol(3, 2) && font(f[0]) && !Spill(font, 3, f, 0);
    assert Spill(font, 3, f, 1);
    assert !Spill(font, 3, f, 2);
    assert FateOf(font, 3, g, f, 0).flag;
    Follows(font, 3, g, f, 1);
    assert FateOf(font, 3, g, f, 1).taken && FateOf(font, 3, g, f, 1).flag;
    Follows(font, 3, g, f, 2);
    assert FateOf(font, 3, g, f, 2).taken;
    DrawnCell(font, 3, g, f, 2);
  }

  /** A blank beside an unchanged double-width glyph keeps showing the character it replaced. */
  lemma BaredCellKeepsOldCharacter() returns (font: Font, g: Grid, f: seq<Cell>, other: seq<Pix>)
    ensures Ready(font, 2, g, f, other) && |f| == 2
    ensures Bared(font, 2, g, f, 1)
    ensures DrawUpTo(font, 2, g, f, 2).back[1] == Full(X) != Ideal(font, 2, f, 1) == RightHalf(W)
  {
    font := (c: Cell) => c.ch == 0x4E00;
    var shown := [Full(W), Full(X)];
    g := Grid([W, X], [false, false], [true, false], shown, 0);
    f, other := [W, GAP], shown;
    forall j: nat | j < 2 ensures CellSettled(font, 2, 2, g, other, g.back, j) {
      assert j == 0 || j == 1;
    }
    assert Spill(font, 2, f, 1);
    assert FateOf(font, 2, g, f, 0).stored == f[0];
    Follows(font, 2, g, f, 1);
    DrawnCell(font, 2, g, f, 1);
  }

  /** A requested cell that carries the damage mark's own number can be lost: it is painted once, not
      twice. */
  lemma MarkAsCharacterIsLost() returns (font: Font, g: Grid, f: seq<Cell>, other: seq<Pix>)
    ensures Settled(font, 1, 1, g, other, g.back) && |f| == 1 && f[0].ch == ID_DAMAGED
    ensures
      var first := DrawUpTo(font, 1, g, f, 1);
      !Shown(font, 1, f, DrawUpTo(font, 1, first.(back := other), f, 1).back)
  {
    font := (_: Cell) => false;
    g := Grid([DAMAGED_NUMBER], [true], [false], [CLEARED], 0);
    f, other := [DAMAGED_NUMBER], [CLEARED];
    assert CellSettled(font, 1, 1, g, other, g.back, 0);
    MarksSurviveIff(font, 1, g, f, other);
    assert g.cells[0] == f[0] && other[0] != Full(f[0]);
  }

  /** With double-width glyphs it can be lost although it was never stored: the glyph to its left, repainted
      because of its own change, covers it again. */
  lemma MarkBesideWideIsLost() returns (font: Font, g: Grid, f: seq<Cell>, other: seq<Pix>)
    ensures Settled(font, 2, 2, g, other, g.back) && |f| == 2 && f[1].ch == ID_DAMAGED && g.cells[1] != f[1]
    ensures
      var first := DrawUpTo(font, 2, g, f, 2);
      !Shown(font, 2, f, DrawUpTo(font, 2, first.(back := other), f, 2).back)
  {
    font := (c: Cell) => c.ch == 0x4E00;
    var shown := [Full(X), Full(X)];
    g := Grid([X, X], [false, false], [false, false], shown, 0);
    f, other := [W, DAMAGED_NUMBER], shown;
    forall j: nat | j < 2 ensures CellSettled(font, 2, 2, g, other, g.back, j) {
      assert j == 0 || j == 1;
    }
    var first := DrawUpTo(font, 2, g, f, 2);
    DrawnCell(font, 2, g, f, 0);
    Follows(font, 2, g, f, 1);
    DrawnCell(font, 2, g, f, 1);
    assert first.cells == f && first.dmg == [true, false] && first.wide == [true, false];
    var again := first.(back := other);
    Follows(font, 2, again, f, 1);
    assert FateOf(font, 2, again, f, 0).painted && Misses(font, 2, again, f, 1);
    DrawShowsFrameIff(font, 2, again, f);
  }

  /** A requested cell that carries the overflow mark's own number can be lost at once: it is taken for the cell
      that a double-width glyph covered before. */
  lemma OverflowNumberIsLost() returns (font: Font, g: Grid, f: seq<Cell>, other: seq<Pix>)
    ensures Settled(font, 2, 2, g, other, g.back) && |f| == 2 && f[1].ch == ID_OVERFLOW
    ensures DrawUpTo(font, 2, g, f, 2).back[1] == RightHalf(W) && !Shown(font, 2, f, DrawUpTo(font, 2, g, f, 2).back)
  {
    font := (c: Cell) => c.ch == 0x4E00;
    var shown := [Full(W), RightHalf(W)];
    g := Grid([W, OVERFLOW_NUMBER], [false, false], [true, false], shown, 0);
    f, other := [X, OVERFLOW_NUMBER], shown;
    forall j: nat | j < 2 ensures CellSettled(font, 2, 2, g, other, g.back, j) {
      assert j == 0 || j == 1;
    }
    Follows(font, 2, g, f, 1);
    DrawnCell(font, 2, g, f, 1);
    assert Misses(font, 2, g, f, 1);
    DrawShowsFrameIff(font, 2, g, f);
  }
}
