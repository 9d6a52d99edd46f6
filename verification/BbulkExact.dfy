/** What one draw does, cell by cell and in terms of the state before it: from any state whatever, for every
    font and every frame, frames with a mark's own number included. */
module BbulkExact {
  import opened BbulkModel
  import opened Raster

  ghost predicate Drawing(cols: nat, g: Grid, f: seq<Cell>) {
    cols > 0 && FirstCol(cols, |f|) && |f| <= |g.cells| && g.Sized(|g.cells|)
  }

  ghost predicate Shown(font: Font, cols: nat, f: seq<Cell>, buf: seq<Pix>)
    requires cols > 0 && |f| <= |buf|
  {
    forall j: nat :: j < |f| ==> buf[j] == Ideal(font, cols, f, j)
  }

  /** What happens to a cell during a draw. */
  datatype Fate = Fate(
    taken: bool,      // taken for covered: blank, and the left neighbour carries the flag of a wide glyph
    hit: bool,        // damaged by the left neighbour, whose changed glyph runs into the cell
    stored: Cell,     // what is stored when the cell's turn comes
    painted: bool,    // its own glyph is blended
    overlaid: bool,   // the left neighbour's glyph is blended over it
    flag: bool)       // its width flag after the draw

  /** The fate of cell `k`, given that of its left neighbour; the first cell of a row has none. */
  ghost function FateBeside(font: Font, cols: nat, g: Grid, f: seq<Cell>, k: nat, left: Fate): Fate
    requires Drawing(cols, g, f) && k < |f|
  {
    var beside := !FirstCol(cols, k) && k > 0;
    var overlaid := beside && left.painted && font(f[k - 1]);
    var hit := overlaid && left.stored != f[k - 1];
    var stored := if hit then g.cells[k].(ch := ID_DAMAGED) else g.cells[k];
    var taken := Blank(f[k]) && beside && left.flag;
    var painted := !taken &&
      (stored != f[k] || hit || g.dmg[k] || (g.wide[k] && !FirstCol(cols, k + 1) && g.dmg[k + 1]));
    Fate(taken, hit, stored, painted, overlaid, if painted then font(f[k]) else g.wide[k])
  }

  ghost function FateOf(font: Font, cols: nat, g: Grid, f: seq<Cell>, k: nat): Fate
    requires Drawing(cols, g, f) && k < |f|
  {
    FateBeside(font, cols, g, f, k,
      if k == 0 then Fate(false, false, f[k], false, false, false) else FateOf(font, cols, g, f, k - 1))
  }

  /** What the back buffer shows at `k` after the draw. */
  ghost function Result(font: Font, cols: nat, g: Grid, f: seq<Cell>, k: nat): Pix
    requires Drawing(cols, g, f) && k < |f|
  {
    var fate := FateOf(font, cols, g, f, k);
    if fate.painted then Full(f[k])
    else if fate.overlaid && k > 0 then RightHalf(f[k - 1])
    else g.back[k]
  }

  /** The number of the first `k` cells that are painted. */
  ghost function CountPainted(font: Font, cols: nat, g: Grid, f: seq<Cell>, k: nat): nat
    requires Drawing(cols, g, f) && k <= |f|
  {
    if k == 0 then 0
    else CountPainted(font, cols, g, f, k - 1) + if FateOf(font, cols, g, f, k - 1).painted then 1 else 0
  }

  // ---------------------------------------------------------------- the state inside a draw

  ghost predicate Arrived(font: Font, cols: nat, g0: Grid, g: Grid, f: seq<Cell>, j: nat)
    requires Drawing(cols, g0, f) && j < |f| && g.Sized(|g0.cells|)
  {
    var fate := FateOf(font, cols, g0, f, j);
    && g.cells[j] == (if fate.taken then fate.stored.(ch := ID_OVERFLOW) else f[j])
    && g.dmg[j] == (if fate.taken then fate.stored.ch != ID_OVERFLOW else fate.stored != f[j])
    && g.wide[j] == fate.flag
    && g.back[j] == Result(font, cols, g0, f, j)
  }

  /** Cell `k` when its turn comes. */
  ghost predicate Facing(font: Font, cols: nat, g0: Grid, g: Grid, f: seq<Cell>, k: nat)
    requires Drawing(cols, g0, f) && k < |f| && g.Sized(|g0.cells|)
  {
    var fate := FateOf(font, cols, g0, f, k);
    && g.cells[k] == fate.stored && g.dmg[k] == (fate.hit || g0.dmg[k]) && g.wide[k] == g0.wide[k]
    && g.back[k] == if fate.overlaid && k > 0 then RightHalf(f[k - 1]) else g0.back[k]
  }

  ghost predicate Untouched(g0: Grid, g: Grid, j: nat)
    requires j < |g0.cells| && g0.Sized(|g0.cells|) && g.Sized(|g0.cells|)
  {
    g.cells[j] == g0.cells[j] && g.dmg[j] == g0.dmg[j] && g.wide[j] == g0.wide[j] && g.back[j] == g0.back[j]
  }

  ghost predicate Halfway(font: Font, cols: nat, g0: Grid, g: Grid, f: seq<Cell>, k: nat)
    requires Drawing(cols, g0, f) && k <= |f|
  {
    && g.Sized(|g0.cells|)
    && (forall j: nat :: j < k ==> Arrived(font, cols, g0, g, f, j))
    && (forall j: nat :: k < j < |g0.cells| || |f| <= j < |g0.cells| ==> Untouched(g0, g, j))
    && (k < |f| ==> Facing(font, cols, g0, g, f, k))
    && g.requests == g0.requests + CountPainted(font, cols, g0, f, k)
  }

  lemma Follows(font: Font, cols: nat, g: Grid, f: seq<Cell>, k: nat)
    requires Drawing(cols, g, f) && 0 < k < |f|
    ensures FateOf(font, cols, g, f, k) == FateBeside(font, cols, g, f, k, FateOf(font, cols, g, f, k - 1))
  {
  }

  /** Which of the three ways the renderer takes at cell `k`. */
  lemma BranchAt(font: Font, cols: nat, g0: Grid, g: Grid, f: seq<Cell>, k: nat)
    requires Drawing(cols, g0, f) && k < |f| && Halfway(font, cols, g0, g, f, k)
    requires !FirstCol(cols, k + 1) ==> k + 1 < |f|
    ensures
      var r, fate := DrawCell(font, cols, g, f[k], k), FateOf(font, cols, g0, f, k);
      if fate.taken then r == CoverCell(g, k)
      else if fate.painted then r == PaintCell(font, cols, g, f[k], k)
      else r == g && g.cells[k] == f[k] && !g.dmg[k]
  {
    if k > 0 {
      Follows(font, cols, g0, f, k);
      assert Arrived(font, cols, g0, g, f, k - 1);
    }
    if k + 1 < |f| { assert Untouched(g0, g, k + 1); }
    hide FateOf, Result, PaintCell, CoverCell;
  }

  lemma CellArrives(font: Font, cols: nat, g0: Grid, g: Grid, f: seq<Cell>, k: nat)
    requires Drawing(cols, g0, f) && k < |f| && Halfway(font, cols, g0, g, f, k)
    requires !FirstCol(cols, k + 1) ==> k + 1 < |f|
    ensures
      var r := DrawCell(font, cols, g, f[k], k);
      && Arrived(font, cols, g0, r, f, k)
      && r.requests == g.requests + if FateOf(font, cols, g0, f, k).painted then 1 else 0
  {
    BranchAt(font, cols, g0, g, f, k);
    hide DrawCell, Halfway;
  }

  lemma NextFaces(font: Font, cols: nat, g0: Grid, g: Grid, f: seq<Cell>, k: nat)
    requires Drawing(cols, g0, f) && k + 1 < |f| && Halfway(font, cols, g0, g, f, k)
    ensures Facing(font, cols, g0, DrawCell(font, cols, g, f[k], k), f, k + 1)
  {
    BranchAt(font, cols, g0, g, f, k);
    Follows(font, cols, g0, f, k + 1);
    assert Untouched(g0, g, k + 1) && Facing(font, cols, g0, g, f, k);
    hide DrawCell, Halfway, FateOf;
  }

  lemma OthersStay(font: Font, cols: nat, g: Grid, c: Cell, k: nat, j: nat)
    requires cols > 0 && k < |g.cells| && g.Sized(|g.cells|) && (!FirstCol(cols, k + 1) ==> k + 1 < |g.cells|)
    requires j < |g.cells| && j != k && (j != k + 1 || FirstCol(cols, k + 1))
    ensures Untouched(g, DrawCell(font, cols, g, c, k), j)
  {
  }

  lemma DrawCellArrives(font: Font, cols: nat, g0: Grid, g: Grid, f: seq<Cell>, k: nat)
    requires Drawing(cols, g0, f) && k < |f| && Halfway(font, cols, g0, g, f, k)
    requires !FirstCol(cols, k + 1) ==> k + 1 < |f|
    ensures Halfway(font, cols, g0, DrawCell(font, cols, g, f[k], k), f, k + 1)
  {
    var r := DrawCell(font, cols, g, f[k], k);
    CellArrives(font, cols, g0, g, f, k);
    if k + 1 < |f| { NextFaces(font, cols, g0, g, f, k); }
    hide Facing, DrawCell, Result, FateOf;
    forall j: nat | j < k + 1 ensures Arrived(font, cols, g0, r, f, j) {
      if j < k {
        assert Arrived(font, cols, g0, g, f, j);
        OthersStay(font, cols, g, f[k], k, j);
      }
    }
    forall j: nat | k + 1 < j < |g0.cells| || |f| <= j < |g0.cells| ensures Untouched(g0, r, j) {
      assert Untouched(g0, g, j);
      OthersStay(font, cols, g, f[k], k, j);
    }
  }

  lemma {:induction false} DrawUpToArrives(font: Font, cols: nat, g: Grid, f: seq<Cell>, k: nat)
    requires Drawing(cols, g, f) && k <= |f|
    ensures Halfway(font, cols, g, DrawUpTo(font, cols, g, f, k), f, k)
  {
    NothingDrawn(font, cols, g, f);
    hide Halfway, DrawCell, FirstCol, FateOf;
    if k > 0 {
      DrawUpToArrives(font, cols, g, f, k - 1);
      DrawCellArrives(font, cols, g, DrawUpTo(font, cols, g, f, k - 1), f, k - 1);
    }
  }

  lemma NothingDrawn(font: Font, cols: nat, g: Grid, f: seq<Cell>)
    requires Drawing(cols, g, f)
    ensures Halfway(font, cols, g, g, f, 0)
  {
    hide DrawCell;
  }

  /** One cell of a finished draw. */
  lemma DrawnCell(font: Font, cols: nat, g: Grid, f: seq<Cell>, j: nat)
    requires Drawing(cols, g, f) && j < |f|
    ensures Arrived(font, cols, g, DrawUpTo(font, cols, g, f, |f|), f, j)
  {
    DrawUpToArrives(font, cols, g, f, |f|);
  }

  // ---------------------------------------------------------------- the exact condition

  /** Cell `k` will not show what it should: it is painted although a glyph covers it, it is overlaid although
      none does, or it is left alone and does not show the right thing already. */
  ghost predicate Misses(font: Font, cols: nat, g: Grid, f: seq<Cell>, k: nat)
    requires Drawing(cols, g, f) && k < |f|
  {
    var fate := FateOf(font, cols, g, f, k);
    if fate.painted then Spill(font, cols, f, k)
    else if fate.overlaid then !Spill(font, cols, f, k)
    else g.back[k] != Ideal(font, cols, f, k)
  }

  lemma MissesIfWrong(font: Font, cols: nat, g: Grid, f: seq<Cell>, k: nat)
    requires Drawing(cols, g, f) && k < |f|
    ensures Misses(font, cols, g, f, k) <==> Result(font, cols, g, f, k) != Ideal(font, cols, f, k)
  {
    if k > 0 { Follows(font, cols, g, f, k); }
    hide FateOf;
  }

  /** The exact condition: a draw equals a full repaint if and only if no cell misses.  Nothing is assumed about
      the font, the frame, or the state before. */
  lemma DrawShowsFrameIff(font: Font, cols: nat, g: Grid, f: seq<Cell>)
    requires Drawing(cols, g, f)
    ensures Shown(font, cols, f, DrawUpTo(font, cols, g, f, |f|).back)
       <==> forall k: nat :: k < |f| ==> !Misses(font, cols, g, f, k)
  {
    var r := DrawUpTo(font, cols, g, f, |f|);
    forall k: nat | k < |f| ensures r.back[k] == Ideal(font, cols, f, k) <==> !Misses(font, cols, g, f, k) {
      DrawnCell(font, cols, g, f, k);
      MissesIfWrong(font, cols, g, f, k);
    }
    hide Misses, Ideal;
  }

  /** Every painted cell is one blending request, and cells that are neither painted nor overlaid keep their
      content. */
  lemma OnlyRepaintsPaint(font: Font, cols: nat, g: Grid, f: seq<Cell>)
    requires Drawing(cols, g, f)
    ensures
      var r := DrawUpTo(font, cols, g, f, |f|);
      && r.requests == g.requests + CountPainted(font, cols, g, f, |f|)
      && forall k: nat :: k < |f| ==>
           var fate := FateOf(font, cols, g, f, k); !fate.painted && !fate.overlaid ==> r.back[k] == g.back[k]
  {
    var r := DrawUpTo(font, cols, g, f, |f|);
    DrawUpToArrives(font, cols, g, f, |f|);
    hide FateOf, DrawUpTo;
    forall k: nat | k < |f|
      ensures var fate := FateOf(font, cols, g, f, k); !fate.painted && !fate.overlaid ==> r.back[k] == g.back[k]
    {
      assert Arrived(font, cols, g, r, f, k);
    }
  }

  // ---------------------------------------------------------------- fonts of single-width glyphs

  /** No flag of an older font decides anything. */
  ghost predicate NoFlagLeft(g: Grid, f: seq<Cell>)
    requires |f| <= |g.cells| && g.Sized(|g.cells|)
  {
    forall j: nat :: j < |f| && g.cells[j] == f[j] && !g.dmg[j] ==> !g.wide[j]
  }

  lemma {:induction false} NarrowFate(font: Font, cols: nat, g: Grid, f: seq<Cell>, k: nat)
    requires Drawing(cols, g, f) && k < |f| && (forall c :: !font(c)) && NoFlagLeft(g, f)
    ensures FateOf(font, cols, g, f, k)
         == Fate(false, false, g.cells[k], g.cells[k] != f[k] || g.dmg[k], false, false)
  {
    if k > 0 { NarrowFate(font, cols, g, f, k - 1); }
  }

  /** With single-width glyphs a draw repaints what changed or was damaged, whatever the frame holds. */
  lemma NarrowDraw(font: Font, cols: nat, g: Grid, f: seq<Cell>, j: nat)
    requires Drawing(cols, g, f) && j < |f| && (forall c :: !font(c)) && NoFlagLeft(g, f)
    ensures
      var r := DrawUpTo(font, cols, g, f, |f|);
      && r.cells[j] == f[j] && r.dmg[j] == (g.cells[j] != f[j]) && !r.wide[j]
      && r.back[j] == (if g.cells[j] == f[j] && !g.dmg[j] then g.back[j] else Full(f[j]))
      && Ideal(font, cols, f, j) == Full(f[j])
  {
    DrawnCell(font, cols, g, f, j);
    NarrowFate(font, cols, g, f, j);
    hide FateOf, DrawUpTo;
  }

  /** The same frame drawn to one buffer and then to the other, which shows `other`: exactly when each of the
      two shows it. */
  lemma NarrowTwiceIff(font: Font, cols: nat, g: Grid, f: seq<Cell>, other: seq<Pix>)
    requires Drawing(cols, g, f) && |other| == |g.cells| && (forall c :: !font(c)) && NoFlagLeft(g, f)
    ensures
      var first := DrawUpTo(font, cols, g, f, |f|);
      var second := DrawUpTo(font, cols, first.(back := other), f, |f|);
      && (Shown(font, cols, f, first.back) <==>
          forall k: nat :: k < |f| && g.cells[k] == f[k] && !g.dmg[k] ==> g.back[k] == Full(f[k]))
      && (Shown(font, cols, f, second.back) <==>
          forall k: nat :: k < |f| && g.cells[k] == f[k] ==> other[k] == Full(f[k]))
  {
    var first := DrawUpTo(font, cols, g, f, |f|);
    var start := first.(back := other);
    var second := DrawUpTo(font, cols, start, f, |f|);
    hide DrawUpTo, Ideal, FirstCol;
    forall j: nat | j < |f|
      ensures first.cells[j] == f[j] && first.dmg[j] == (g.cells[j] != f[j]) && !first.wide[j]
      ensures first.back[j] == if g.cells[j] == f[j] && !g.dmg[j] then g.back[j] else Full(f[j])
      ensures Ideal(font, cols, f, j) == Full(f[j])
    {
      NarrowDraw(font, cols, g, f, j);
    }
    forall j: nat | j < |f| ensures second.back[j] == if g.cells[j] == f[j] then other[j] else Full(f[j]) {
      NarrowDraw(font, cols, start, f, j);
    }
  }
}
