/** Frames and states the renderer is built for: when an incremental draw shows what a full repaint shows. */
module BbulkDraw {
  import opened BbulkModel
  import opened BbulkExact
  import opened Raster

  // ---------------------------------------------------------------- what the marks promise

  /** `buf` shows what the stored cell `j` says.  An overflow mark whose left neighbour was
      damaged meanwhile says nothing. */
  ghost predicate Shows(cells: seq<Cell>, buf: seq<Pix>, j: nat)
    requires j < |cells| <= |buf|
  {
    if cells[j].ch == ID_OVERFLOW then
      j > 0 && (cells[j - 1].ch == ID_DAMAGED || buf[j] == RightHalf(cells[j - 1]))
    else buf[j] == Full(cells[j])
  }

  ghost predicate CellSettled(font: Font, cols: nat, n: nat, g: Grid, drawn: seq<Pix>, other: seq<Pix>, j: nat)
    requires cols > 0 && j < n <= |g.cells| && g.Sized(|g.cells|) && |drawn| == |other| == |g.cells|
    requires FirstCol(cols, n)
  {
    var c := g.cells[j];
    && (c.ch != ID_DAMAGED ==> Shows(g.cells, drawn, j))
    && (!g.dmg[j] ==> c.ch != ID_DAMAGED && Shows(g.cells, other, j))
    && (Regular(c) ==> g.wide[j] == font(c))
    && (Regular(c) && font(c) && !FirstCol(cols, j + 1) && g.dmg[j] ==>
          g.dmg[j + 1] || g.cells[j + 1].ch == ID_OVERFLOW)
    && (c.ch == ID_OVERFLOW ==>
          !FirstCol(cols, j) && j > 0 &&
          (g.cells[j - 1].ch == ID_DAMAGED || (Regular(g.cells[j - 1]) && font(g.cells[j - 1]))))
  }

  /** The buffer drawn last shows every stored cell, and the other buffer shows every stored
      cell that is not marked as damaged. */
  ghost predicate Settled(font: Font, cols: nat, n: nat, g: Grid, drawn: seq<Pix>, other: seq<Pix>) {
    && cols > 0 && FirstCol(cols, n) && n <= |g.cells|
    && g.Sized(|g.cells|) && |drawn| == |other| == |g.cells|
    && forall j: nat :: j < n ==> CellSettled(font, cols, n, g, drawn, other, j)
  }

  /** No cell of the frame carries a mark's number. */
  ghost predicate Valid(f: seq<Cell>) {
    forall j: nat :: j < |f| ==> Regular(f[j])
  }

  /** A frame that may be drawn now: the state is settled, and the frame holds no mark. */
  ghost predicate Ready(font: Font, cols: nat, g0: Grid, f: seq<Cell>, other: seq<Pix>) {
    && Settled(font, cols, |f|, g0, other, g0.back)
    && Valid(f)
  }

  /** A cell that the renderer takes for covered although nothing covers it: its left neighbour
      is covered itself and still carries the width of an older double-width glyph. */
  ghost predicate Ghosted(font: Font, cols: nat, wide: seq<bool>, f: seq<Cell>, k: nat)
    requires cols > 0 && k < |f| <= |wide|
  {
    !FirstCol(cols, k) && k > 0 && Blank(f[k]) && Spill(font, cols, f, k - 1) && wide[k - 1]
  }

  /** A cell that goes blank beside a double-width glyph that is not repainted: neither of the
      two is damaged, the glyph does not change, and the cell was not covered before. */
  ghost predicate Bared(font: Font, cols: nat, g: Grid, f: seq<Cell>, k: nat)
    requires Drawing(cols, g, f) && k < |f|
  {
    && Spill(font, cols, f, k) && FateOf(font, cols, g, f, k - 1).stored == f[k - 1]
    && !g.dmg[k - 1] && !g.dmg[k] && g.cells[k].ch != ID_OVERFLOW
  }

  /** Cell `k` escapes the renderer: it is not repainted although it should be. */
  ghost predicate Escapes(font: Font, cols: nat, g: Grid, f: seq<Cell>, k: nat)
    requires Drawing(cols, g, f) && k < |f|
  {
    Ghosted(font, cols, g.wide, f, k) || Bared(font, cols, g, f, k)
  }

  ghost predicate NoneEscapes(font: Font, cols: nat, g: Grid, f: seq<Cell>)
    requires Drawing(cols, g, f)
  {
    forall k: nat :: k < |f| ==> !Escapes(font, cols, g, f, k)
  }

  // ---------------------------------------------------------------- one cell

  /** Where no flag is left over, the renderer takes a cell for covered exactly if it is, and a cell is kept
      exactly if nothing about it changed. */
  lemma {:induction false} TakenIsSpill(font: Font, cols: nat, g: Grid, f: seq<Cell>, other: seq<Pix>, k: nat)
    requires Ready(font, cols, g, f, other) && k < |f|
    requires forall i: nat :: i <= k ==> !Ghosted(font, cols, g.wide, f, i)
    ensures
      var fate := FateOf(font, cols, g, f, k);
      && fate.taken == Spill(font, cols, f, k)
      && fate.flag == (if fate.taken then g.wide[k] else font(f[k]))
      && (fate.hit ==> !fate.taken ==> fate.painted)
      && (!fate.taken && !fate.painted ==> g.back[k] == other[k] == Full(f[k]) && !fate.overlaid)
  {
    assert CellSettled(font, cols, |f|, g, other, g.back, k) && Regular(f[k]);
    assert !Ghosted(font, cols, g.wide, f, k);
    if k > 0 {
      TakenIsSpill(font, cols, g, f, other, k - 1);
      assert CellSettled(font, cols, |f|, g, other, g.back, k - 1) && Regular(f[k - 1]);
      Follows(font, cols, g, f, k);
      hide FateOf;
    }
  }

  /** A covered cell that no glyph is blended over shows the right half already, unless it is bared. */
  lemma CoveredShows(font: Font, cols: nat, g: Grid, f: seq<Cell>, other: seq<Pix>, k: nat)
    requires Ready(font, cols, g, f, other) && k < |f|
    requires forall i: nat :: i <= k ==> !Ghosted(font, cols, g.wide, f, i)
    requires Spill(font, cols, f, k) && !FateOf(font, cols, g, f, k).overlaid
    ensures if Bared(font, cols, g, f, k) then g.back[k] != RightHalf(f[k - 1])
            else g.back[k] == other[k] == RightHalf(f[k - 1])
  {
    TakenIsSpill(font, cols, g, f, other, k);
    TakenIsSpill(font, cols, g, f, other, k - 1);
    Follows(font, cols, g, f, k);
    assert CellSettled(font, cols, |f|, g, other, g.back, k);
    assert CellSettled(font, cols, |f|, g, other, g.back, k - 1) && Regular(f[k - 1]);
    hide FateOf;
  }

  /** So without left-over flags a draw is right if and only if no cell goes blank beside a double-width
      glyph that is not repainted. */
  lemma OnlyBaredCellsMiss(font: Font, cols: nat, g: Grid, f: seq<Cell>, other: seq<Pix>)
    requires Ready(font, cols, g, f, other) && forall k: nat :: k < |f| ==> !Ghosted(font, cols, g.wide, f, k)
    ensures Shown(font, cols, f, DrawUpTo(font, cols, g, f, |f|).back)
       <==> forall k: nat :: k < |f| ==> !Bared(font, cols, g, f, k)
  {
    DrawShowsFrameIff(font, cols, g, f);
    forall k: nat | k < |f| ensures Misses(font, cols, g, f, k) <==> Bared(font, cols, g, f, k) {
      MissesIfBared(font, cols, g, f, other, k);
    }
  }

  lemma MissesIfBared(font: Font, cols: nat, g: Grid, f: seq<Cell>, other: seq<Pix>, k: nat)
    requires Ready(font, cols, g, f, other) && k < |f| && forall i: nat :: i <= k ==> !Ghosted(font, cols, g.wide, f, i)
    ensures Misses(font, cols, g, f, k) <==> Bared(font, cols, g, f, k)
  {
    TakenIsSpill(font, cols, g, f, other, k);
    if k > 0 {
      TakenIsSpill(font, cols, g, f, other, k - 1);
      Follows(font, cols, g, f, k);
    }
    if Spill(font, cols, f, k) && !FateOf(font, cols, g, f, k).overlaid { CoveredShows(font, cols, g, f, other, k); }
    hide FateOf, Ready;
  }

  // ---------------------------------------------------------------- a whole frame

  /** Cell `j` after a draw in which none escapes. */
  lemma CellDone(font: Font, cols: nat, g: Grid, f: seq<Cell>, other: seq<Pix>, j: nat)
    requires Ready(font, cols, g, f, other) && j < |f| && NoneEscapes(font, cols, g, f)
    ensures
      var r := DrawUpTo(font, cols, g, f, |f|);
      && r.back[j] == Ideal(font, cols, f, j)
      && (if Spill(font, cols, f, j) then r.cells[j].ch == ID_OVERFLOW && r.wide[j] == g.wide[j]
          else r.cells[j] == f[j] && r.wide[j] == font(f[j]))
      && (!r.dmg[j] ==> other[j] == Ideal(font, cols, f, j))
  {
    DrawnCell(font, cols, g, f, j);
    forall i: nat | i <= j ensures !Ghosted(font, cols, g.wide, f, i) { assert !Escapes(font, cols, g, f, i); }
    TakenIsSpill(font, cols, g, f, other, j);
    if Spill(font, cols, f, j) {
      assert !Escapes(font, cols, g, f, j);
      if FateOf(font, cols, g, f, j).overlaid {
        OverlaidSpill(font, cols, g, f, other, j);
      } else {
        CoveredShows(font, cols, g, f, other, j);
      }
    } else {
      UnchangedCell(font, cols, g, f, other, j);
    }
    hide DrawUpTo, FateOf, Ready;
  }

  /** The left neighbour's glyph was blended over the covered cell `j`.  If the cell is not marked as damaged
      after that, the other buffer shows it too. */
  lemma OverlaidSpill(font: Font, cols: nat, g: Grid, f: seq<Cell>, other: seq<Pix>, j: nat)
    requires Ready(font, cols, g, f, other) && j < |f|
    requires forall i: nat :: i <= j ==> !Ghosted(font, cols, g.wide, f, i)
    requires Spill(font, cols, f, j) && FateOf(font, cols, g, f, j).overlaid
    ensures FateOf(font, cols, g, f, j).stored.ch == ID_OVERFLOW ==> other[j] == RightHalf(f[j - 1])
  {
    TakenIsSpill(font, cols, g, f, other, j - 1);
    Follows(font, cols, g, f, j);
    assert CellSettled(font, cols, |f|, g, other, g.back, j);
    assert CellSettled(font, cols, |f|, g, other, g.back, j - 1) && Regular(f[j - 1]);
    if j > 1 { Follows(font, cols, g, f, j - 1); }
    hide FateOf;
  }

  lemma UnchangedCell(font: Font, cols: nat, g: Grid, f: seq<Cell>, other: seq<Pix>, j: nat)
    requires Ready(font, cols, g, f, other) && j < |f|
    ensures FateOf(font, cols, g, f, j).stored == f[j] ==> other[j] == Full(f[j])
  {
    assert CellSettled(font, cols, |f|, g, other, g.back, j) && Regular(f[j]);
    if j > 0 { Follows(font, cols, g, f, j); }
    hide FateOf;
  }

  /** A changed double-width glyph has damaged the cell it covers. */
  lemma PairDone(font: Font, cols: nat, g: Grid, f: seq<Cell>, other: seq<Pix>, j: nat)
    requires Ready(font, cols, g, f, other) && j + 1 < |f| && NoneEscapes(font, cols, g, f)
    requires !Spill(font, cols, f, j) && font(f[j]) && !FirstCol(cols, j + 1)
    ensures var r := DrawUpTo(font, cols, g, f, |f|); r.dmg[j] ==> r.dmg[j + 1]
  {
    DrawnCell(font, cols, g, f, j);
    DrawnCell(font, cols, g, f, j + 1);
    forall i: nat | i <= j ensures !Ghosted(font, cols, g.wide, f, i) { assert !Escapes(font, cols, g, f, i); }
    TakenIsSpill(font, cols, g, f, other, j);
    Follows(font, cols, g, f, j + 1);
    assert Regular(f[j + 1]);
    hide DrawUpTo, FateOf;
  }

  /** Drawing a frame in any settled state shows the frame and settles again, the buffer just
      drawn now being the one that shows every stored cell. */
  lemma FrameDrawn(font: Font, cols: nat, g: Grid, f: seq<Cell>, other: seq<Pix>)
    requires Ready(font, cols, g, f, other) && NoneEscapes(font, cols, g, f)
    ensures
      var r := DrawUpTo(font, cols, g, f, |f|);
      && Shown(font, cols, f, r.back)
      && Settled(font, cols, |f|, r, r.back, other)
  {
    var r := DrawUpTo(font, cols, g, f, |f|);
    forall j: nat | j < |f| ensures r.back[j] == Ideal(font, cols, f, j) {
      CellDone(font, cols, g, f, other, j);
    }
    forall j: nat | j < |f| ensures CellSettled(font, cols, |f|, r, r.back, other, j) {
      CellSettles(font, cols, g, f, other, j);
    }
  }

  lemma CellSettles(font: Font, cols: nat, g: Grid, f: seq<Cell>, other: seq<Pix>, j: nat)
    requires Ready(font, cols, g, f, other) && NoneEscapes(font, cols, g, f) && j < |f|
    ensures var r := DrawUpTo(font, cols, g, f, |f|); CellSettled(font, cols, |f|, r, r.back, other, j)
  {
    assert Regular(f[j]);
    CellDone(font, cols, g, f, other, j);
    if j > 0 {
      assert Regular(f[j - 1]);
      CellDone(font, cols, g, f, other, j - 1);
    }
    if !Spill(font, cols, f, j) && font(f[j]) && !FirstCol(cols, j + 1) { PairDone(font, cols, g, f, other, j); }
    hide DrawUpTo, NoneEscapes, Ready;
  }

  /** What a draw does not mark as damaged, the two buffers show alike. */
  lemma UndamagedAgree(font: Font, cols: nat, g: Grid, f: seq<Cell>, other: seq<Pix>, j: nat)
    requires Ready(font, cols, g, f, other) && NoneEscapes(font, cols, g, f) && j < |f|
    ensures var r := DrawUpTo(font, cols, g, f, |f|); !r.dmg[j] ==> r.back[j] == other[j]
  {
    CellDone(font, cols, g, f, other, j);
  }

  /** The first cell to escape keeps what the buffer showed before the draw. */
  lemma EscapedCellIsKept(font: Font, cols: nat, g: Grid, f: seq<Cell>, other: seq<Pix>, k: nat)
    requires Ready(font, cols, g, f, other) && k < |f|
    requires Escapes(font, cols, g, f, k) && forall i: nat :: i < k ==> !Escapes(font, cols, g, f, i)
    ensures DrawUpTo(font, cols, g, f, |f|).back[k] == g.back[k]
    ensures Bared(font, cols, g, f, k) ==> g.back[k] != Ideal(font, cols, f, k)
  {
    DrawnCell(font, cols, g, f, k);
    forall i: nat | i < k ensures !Ghosted(font, cols, g.wide, f, i) { assert !Escapes(font, cols, g, f, i); }
    TakenIsSpill(font, cols, g, f, other, k - 1);
    Follows(font, cols, g, f, k);
    assert CellSettled(font, cols, |f|, g, other, g.back, k);
    assert CellSettled(font, cols, |f|, g, other, g.back, k - 1) && Regular(f[k - 1]);
    hide DrawUpTo, FateOf;
  }

  /** The simple renderer shows the same picture, so the two renderers agree. */
  lemma {:induction false} RepaintShowsIdeal(font: Font, cols: nat, buf: seq<Pix>, f: seq<Cell>, k: nat, j: nat)
    requires cols > 0 && j < k <= |f| <= |buf|
    ensures RepaintUpTo(font, cols, buf, f, k)[j] == Ideal(font, cols, f, j)
  {
    if j < k - 1 {
      RepaintShowsIdeal(font, cols, buf, f, k - 1, j);
    } else if Spill(font, cols, f, j) {
      assert !Spill(font, cols, f, j - 1);
      assert RepaintUpTo(font, cols, buf, f, k - 1)
        == Paint(font, cols, RepaintUpTo(font, cols, buf, f, k - 2), f[j - 1], j - 1);
    }
  }
}
