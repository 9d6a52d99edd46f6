/** Every run: after each draw the back buffer shows the requested frame. */
module BbulkRun {
  import opened BbulkModel
  import opened Raster
  import opened BbulkDraw
  import opened BbulkExact

  // ---------------------------------------------------------------- the invariant between frames

  ghost predicate Between(font: Font, s: Screen) {
    && s.Sound()
    && (s.hasDamage ==> s.damageSupported)
    && (s.needRedraw || s.redraw > 0 || Rested(font, s))
  }

  /** Neither buffer hides a change.  After a failed swap the buffer drawn last is still the back
      buffer, and the display's unspent damage tells so. */
  ghost predicate Rested(font: Font, s: Screen) {
    if s.hasDamage then Settled(font, s.cols, RowStart(s.cols, s.rows), s.g, s.g.back, s.front)
    else Settled(font, s.cols, RowStart(s.cols, s.rows), s.g, s.front, s.g.back)
  }

  lemma AllDamagedIsSettled(font: Font, cols: nat, n: nat, g: Grid, drawn: seq<Pix>, other: seq<Pix>)
    requires cols > 0 && FirstCol(cols, n) && n <= |g.cells| && g.Sized(|g.cells|) && |drawn| == |other| == |g.cells|
    requires forall k: nat :: k < n ==> g.cells[k].ch == ID_DAMAGED && g.dmg[k]
    ensures Settled(font, cols, n, g, drawn, other)
  {
  }

  lemma FreshIsBetween(font: Font, s: Screen)
    requires Fresh(s)
    ensures Between(font, s)
  {
    WholeRows(s.cols, s.rows);
    AllDamagedIsSettled(font, s.cols, RowStart(s.cols, s.rows), s.g, s.front, s.g.back);
  }

  /** Carrying unspent damage over swaps the roles of the two buffers back. */
  lemma CarryOverSettles(font: Font, cols: nat, n: nat, g: Grid, drawn: seq<Pix>, other: seq<Pix>)
    requires Settled(font, cols, n, g, drawn, other)
    ensures Settled(font, cols, n, CarryOver(g), other, drawn)
  {
    var r := CarryOver(g);
    forall j: nat | j < n ensures CellSettled(font, cols, n, r, other, drawn, j) {
      assert CellSettled(font, cols, n, g, drawn, other, j);
      if j > 0 { assert CellSettled(font, cols, n, g, drawn, other, j - 1); }
    }
  }

  lemma SettledIgnoresCount(font: Font, cols: nat, n: nat, g: Grid, h: Grid, drawn: seq<Pix>,
      other: seq<Pix>)
    requires Settled(font, cols, n, g, drawn, other)
    requires h.cells == g.cells && h.dmg == g.dmg && h.wide == g.wide && |h.back| == |g.back|
    ensures Settled(font, cols, n, h, drawn, other)
  {
    forall j: nat | j < n ensures CellSettled(font, cols, n, h, drawn, other, j) {
      assert CellSettled(font, cols, n, g, drawn, other, j);
    }
  }

  /** Preparing a frame makes the front buffer the one that shows every stored cell. */
  lemma PrepareSettles(font: Font, s: Screen, attr: nat)
    requires Between(font, s)
    ensures var p := Prepare(s, attr); Settled(font, p.cols, RowStart(p.cols, p.rows), p.g, p.front, p.g.back)
  {
    var p := Prepare(s, attr);
    var n := RowStart(s.cols, s.rows);
    var g0 := s.g.(requests := 0);
    WholeRows(s.cols, s.rows);
    if s.attr != attr || s.needRedraw || s.redraw > 0 {
      AllDamagedIsSettled(font, s.cols, n, p.g, p.front, p.g.back);
    } else if s.hasDamage {
      SettledIgnoresCount(font, s.cols, n, s.g, g0, s.g.back, s.front);
      CarryOverSettles(font, s.cols, n, g0, s.g.back, s.front);
    } else {
      SettledIgnoresCount(font, s.cols, n, s.g, g0, s.front, s.g.back);
    }
  }

  // ---------------------------------------------------------------- the pointer

  lemma {:induction false} DivBounds(v: nat, size: nat, pos: nat)
    requires size > 0
    ensures v < RowStart(size, pos + 1) ==> Row(size, v) <= pos
    ensures RowStart(size, pos) < v + size ==> pos <= Row(size, v) + 1
    ensures RowStart(size, pos) <= v ==> pos <= Row(size, v)
  {
    if v >= size {
      if pos > 0 { DivBounds(v - size, size, pos - 1); }
    } else if pos > 1 {
      RowsOrdered(size, 0, pos);
      RowsOrdered(size, 1, pos);
    }
  }

  /** A column (or row) that the sprite overlaps is one of the two that get marked. */
  lemma OverlapIsMarked(v: nat, size: nat, count: nat, pos: nat)
    requires size > 0 && pos < count && Overlaps(v - DivRoundUp(size, 2), size, pos)
    ensures var p := MarkPos(v, size, count); pos == p || pos == p + 1
  {
    var half := DivRoundUp(size, 2);
    if v > half {
      DivBounds(v - half, size, pos);
    }
  }

  lemma DamagedBy(g: Grid, cols: nat, rows: nat, fw: nat, fh: nat, x: nat, y: nat, k: nat)
    requires cols > 0 && rows > 0 && fw > 0 && fh > 0 && RowStart(cols, rows) <= |g.cells| && g.Sized(|g.cells|)
    requires k < RowStart(cols, rows)
    ensures
      var r := MarkDamaged(g, cols, rows, fw, fh, x, y);
      && r.wide == g.wide && r.back == g.back && r.requests == g.requests
      && (if Marked(cols, rows, fw, fh, x, y, k) then r.cells[k] == g.cells[k].(ch := ID_DAMAGED) && r.dmg[k]
          else r.cells[k] == g.cells[k] && r.dmg[k] == g.dmg[k])
  {
    hide MarkPos, MarkFour, Col, Row, RowStart;
    var px, py := MarkPos(x, fw, cols), MarkPos(y, fh, rows);
    var kx, ky := Col(cols, k), Row(cols, k);
    CellOf(cols, rows, k);
    CellInside(cols, rows, px, py);
    RowsOrdered(cols, py, py + 1);
    if px + 1 < cols { CellInside(cols, rows, px + 1, py); }
    SameCell(cols, kx, ky, px, py);
    SameCell(cols, kx, ky, px + 1, py);
    SameCell(cols, kx, ky, px, py + 1);
    SameCell(cols, kx, ky, px + 1, py + 1);
    FourMarked(g, cols, px + RowStart(cols, py), px + 1 < cols, py + 1 < rows, k);
  }

  lemma FourMarked(g: Grid, cols: nat, off: nat, right: bool, below: bool, k: nat)
    requires g.Sized(|g.cells|) && k < |g.cells| && off < |g.cells| && (right ==> off + 1 < |g.cells|)
    requires (below ==> off + cols < |g.cells|) && (right && below ==> off + 1 + cols < |g.cells|)
    ensures var r := MarkFour(g, cols, off, right, below);
      && r.wide == g.wide && r.back == g.back && r.requests == g.requests
      && (if k == off || (right && k == off + 1) || (below && k == off + cols)
             || (right && below && k == off + 1 + cols)
          then r.cells[k] == g.cells[k].(ch := ID_DAMAGED) && r.dmg[k]
          else r.cells[k] == g.cells[k] && r.dmg[k] == g.dmg[k])
  {
  }

  /** Two cell numbers agree exactly if their columns and rows do. */
  lemma SameCell(cols: nat, x: nat, y: nat, x': nat, y': nat)
    requires x < cols
    ensures x' < cols ==> (x + RowStart(cols, y) == x' + RowStart(cols, y') <==> x == x' && y == y')
  {
    if x' < cols {
      RowAndColumn(cols, x, y);
      RowAndColumn(cols, x', y');
    }
  }

  /** Every terminal cell that a sprite centred at the pointer touches is marked, so it will be repainted. */
  lemma PointerMarksWhatItTouches(g: Grid, cols: nat, rows: nat, fw: nat, fh: nat, x: nat, y: nat, k: nat)
    requires cols > 0 && rows > 0 && fw > 0 && fh > 0 && RowStart(cols, rows) <= |g.cells| && g.Sized(|g.cells|)
    requires k < RowStart(cols, rows) && SpriteTouches(cols, fw, fh, x, y, k)
    ensures Marked(cols, rows, fw, fh, x, y, k)
    ensures var r := MarkDamaged(g, cols, rows, fw, fh, x, y); r.cells[k].ch == ID_DAMAGED && r.dmg[k]
  {
    CellOf(cols, rows, k);
    OverlapIsMarked(x, fw, cols, Col(cols, k));
    OverlapIsMarked(y, fh, rows, Row(cols, k));
    DamagedBy(g, cols, rows, fw, fh, x, y, k);
  }

  /** The pointer marks all terminal cells that its sprite lies over. */
  ghost predicate SpriteMarked(s: Screen, fw: nat, fh: nat, pointer: Pointer)
    requires s.Sound() && fw > 0 && fh > 0 && pointer.At?
  {
    forall k :: k in pointer.over && k < RowStart(s.cols, s.rows) ==>
      Marked(s.cols, s.rows, fw, fh, Kept(pointer.x, fw, s.cols), Kept(pointer.y, fh, s.rows), k)
  }

  ghost predicate PointerAt(g: Grid, r: Grid, over: set<nat>, marked: bool, k: nat)
    requires k < |g.cells| && g.Sized(|g.cells|) && r.Sized(|g.cells|)
  {
    && r.wide[k] == g.wide[k] && r.back[k] == (if k in over then Sprite else g.back[k])
    && if marked then r.cells[k].ch == ID_DAMAGED && r.dmg[k] else r.cells[k] == g.cells[k] && r.dmg[k] == g.dmg[k]
  }

  lemma PointerCell(s: Screen, fw: nat, fh: nat, x: nat, y: nat, over: set<nat>, k: nat)
    requires s.Sound() && fw > 0 && fh > 0 && k < RowStart(s.cols, s.rows)
    ensures
      var r := DrawPointer(s, fw, fh, x, y, over);
      && |r.g.cells| == |s.g.cells| && r.front == s.front && r.cols == s.cols && r.rows == s.rows
      && PointerAt(s.g, r.g, over, Marked(s.cols, s.rows, fw, fh, Kept(x, fw, s.cols), Kept(y, fh, s.rows), k), k)
  {
    hide MarkDamaged, Marked, Kept;
    DamagedBy(s.g, s.cols, s.rows, fw, fh, Kept(x, fw, s.cols), Kept(y, fh, s.rows), k);
  }

  /** The sprite does no harm at cell `k`: the cell is marked, or it is covered by a double-width glyph that is. */
  ghost predicate Harmless(s: Screen, fw: nat, fh: nat, x: nat, y: nat, k: nat)
    requires s.Sound() && fw > 0 && fh > 0 && k < RowStart(s.cols, s.rows)
  {
    var cx, cy := Kept(x, fw, s.cols), Kept(y, fh, s.rows);
    || Marked(s.cols, s.rows, fw, fh, cx, cy, k)
    || (s.g.cells[k].ch == ID_OVERFLOW && k > 0 && Marked(s.cols, s.rows, fw, fh, cx, cy, k - 1))
  }

  /** The exact condition: drawing the pointer keeps the screen settled if and only if the sprite does no harm
      at any cell it lies over. */
  lemma PointerSettlesIff(font: Font, s: Screen, fw: nat, fh: nat, x: nat, y: nat, over: set<nat>)
    requires s.Sound() && fw > 0 && fh > 0
    requires Settled(font, s.cols, RowStart(s.cols, s.rows), s.g, s.g.back, s.front)
    requires forall k: nat :: k < RowStart(s.cols, s.rows) ==> s.g.cells[k].ch != ID_DAMAGED
    ensures
      var r := DrawPointer(s, fw, fh, x, y, over);
      Settled(font, r.cols, RowStart(r.cols, r.rows), r.g, r.g.back, r.front) <==>
        forall k :: k in over && k < RowStart(s.cols, s.rows) ==> Harmless(s, fw, fh, x, y, k)
  {
    var n, r := RowStart(s.cols, s.rows), DrawPointer(s, fw, fh, x, y, over);
    hide DrawPointer, Marked, Kept, RowStart;
    PointerSizes(s, fw, fh, x, y, over);
    if forall k :: k in over && k < n ==> Harmless(s, fw, fh, x, y, k) {
      forall j: nat | j < n ensures CellSettled(font, s.cols, n, r.g, r.g.back, s.front, j) {
        PointerCellSettles(font, s, fw, fh, x, y, over, j);
      }
    }
    if k: nat :| k in over && k < n && !Harmless(s, fw, fh, x, y, k) {
      SpriteStays(font, s, fw, fh, x, y, over, k);
    }
  }

  lemma PointerSizes(s: Screen, fw: nat, fh: nat, x: nat, y: nat, over: set<nat>)
    requires s.Sound() && fw > 0 && fh > 0
    ensures var r := DrawPointer(s, fw, fh, x, y, over);
      |r.g.cells| == |s.g.cells| && r.front == s.front && r.cols == s.cols && r.rows == s.rows
  {
    RowsOrdered(s.cols, 0, s.rows);
    PointerCell(s, fw, fh, x, y, over, 0);
    hide DrawPointer;
  }

  lemma PointerCellSettles(font: Font, s: Screen, fw: nat, fh: nat, x: nat, y: nat, over: set<nat>, j: nat)
    requires s.Sound() && fw > 0 && fh > 0 && j < RowStart(s.cols, s.rows)
    requires Settled(font, s.cols, RowStart(s.cols, s.rows), s.g, s.g.back, s.front)
    requires j in over ==> Harmless(s, fw, fh, x, y, j)
    ensures
      var r := DrawPointer(s, fw, fh, x, y, over);
      |r.g.cells| == |s.g.cells| && CellSettled(font, s.cols, RowStart(s.cols, s.rows), r.g, r.g.back, s.front, j)
  {
    PointerCell(s, fw, fh, x, y, over, j);
    assert CellSettled(font, s.cols, RowStart(s.cols, s.rows), s.g, s.g.back, s.front, j);
    if j > 0 { PointerCell(s, fw, fh, x, y, over, j - 1); }
    if j + 1 < RowStart(s.cols, s.rows) { PointerCell(s, fw, fh, x, y, over, j + 1); }
    var cx, cy := Kept(x, fw, s.cols), Kept(y, fh, s.rows);
    hide DrawPointer, Marked, Kept, RowStart, Settled, CellSettled, PointerAt;
    CellSettlesUnder(font, s.cols, RowStart(s.cols, s.rows), s.g, DrawPointer(s, fw, fh, x, y, over).g, s.front, over,
      j > 0 && Marked(s.cols, s.rows, fw, fh, cx, cy, j - 1), Marked(s.cols, s.rows, fw, fh, cx, cy, j),
      Marked(s.cols, s.rows, fw, fh, cx, cy, j + 1), j);
  }

  lemma CellSettlesUnder(font: Font, cols: nat, n: nat, g: Grid, r: Grid, front: seq<Pix>, over: set<nat>,
      left: bool, here: bool, right: bool, j: nat)
    requires cols > 0 && j < n <= |g.cells| && FirstCol(cols, n) && g.Sized(|g.cells|) && r.Sized(|g.cells|)
    requires |front| == |g.cells| && CellSettled(font, cols, n, g, g.back, front, j)
    requires PointerAt(g, r, over, here, j) && (j + 1 < n ==> PointerAt(g, r, over, right, j + 1))
    requires left ==> j > 0
    requires j > 0 ==> PointerAt(g, r, over, left, j - 1)
    requires j in over ==> here || (g.cells[j].ch == ID_OVERFLOW && left)
    ensures CellSettled(font, cols, n, r, r.back, front, j)
  {
  }

  lemma SpriteStays(font: Font, s: Screen, fw: nat, fh: nat, x: nat, y: nat, over: set<nat>, k: nat)
    requires s.Sound() && fw > 0 && fh > 0 && k < RowStart(s.cols, s.rows) && k in over
    requires Settled(font, s.cols, RowStart(s.cols, s.rows), s.g, s.g.back, s.front)
    requires forall j: nat :: j < RowStart(s.cols, s.rows) ==> s.g.cells[j].ch != ID_DAMAGED
    requires !Harmless(s, fw, fh, x, y, k)
    ensures
      var r := DrawPointer(s, fw, fh, x, y, over);
      |r.g.cells| == |s.g.cells| && !CellSettled(font, s.cols, RowStart(s.cols, s.rows), r.g, r.g.back, s.front, k)
  {
    PointerCell(s, fw, fh, x, y, over, k);
    if k > 0 { PointerCell(s, fw, fh, x, y, over, k - 1); }
    hide DrawPointer, Marked, Kept, RowStart;
  }

  /** So a pointer that marks what its sprite lies over keeps the screen settled. */
  lemma PointerKeepsSettled(font: Font, s: Screen, fw: nat, fh: nat, pointer: Pointer)
    requires s.Sound() && fw > 0 && fh > 0 && pointer.At? && SpriteMarked(s, fw, fh, pointer)
    requires Settled(font, s.cols, RowStart(s.cols, s.rows), s.g, s.g.back, s.front)
    ensures
      var r := DrawPointer(s, fw, fh, pointer.x, pointer.y, pointer.over);
      Settled(font, r.cols, RowStart(r.cols, r.rows), r.g, r.g.back, r.front)
  {
    var n, r := RowStart(s.cols, s.rows), DrawPointer(s, fw, fh, pointer.x, pointer.y, pointer.over);
    hide DrawPointer, Marked, Kept, RowStart;
    PointerSizes(s, fw, fh, pointer.x, pointer.y, pointer.over);
    forall j: nat | j < n ensures CellSettled(font, s.cols, n, r.g, r.g.back, s.front, j) {
      PointerCellSettles(font, s, fw, fh, pointer.x, pointer.y, pointer.over, j);
    }
  }

  // ---------------------------------------------------------------- one step

  /** A frame the renderer is built for: no cell carries a mark's number, and no cell escapes
      when it is drawn. */
  ghost predicate Drawable(font: Font, s: Screen, step: Step)
    requires s.Sound() && step.Frame? && Possible(s, step)
  {
    WholeRows(s.cols, s.rows);
    Valid(step.f) && NoneEscapes(font, s.cols, Prepare(s, step.attr).g, step.f)
  }

  /** A failed swap is repaired if the display keeps the damage, or if a full redraw is due. */
  ghost predicate SwapCovered(s: Screen, step: Step)
    requires s.Sound() && step.Frame?
  {
    step.swapOk || s.damageSupported || s.needRedraw || Prepare(s, step.attr).redraw > 0
  }

  ghost predicate Admissible(font: Font, fw: nat, fh: nat, s: Screen, step: Step)
    requires s.Sound() && fw > 0 && fh > 0
  {
    && Possible(s, step)
    && (step.Frame? ==> Drawable(font, s, step) && SwapCovered(s, step))
    && (step.Frame? && step.pointer.At? ==> SpriteMarked(s, fw, fh, step.pointer))
  }

  /** Drawing the frame of `step` blends one glyph for each cell to paint, and changes no cell of the back
      buffer but these and those that their glyphs run into. */
  ghost predicate PaintsOnly(font: Font, s: Screen, step: Step)
    requires s.Sound() && step.Frame? && Possible(s, step)
  {
    var p, d := Prepare(s, step.attr), Drawn(font, s, step);
    WholeRows(s.cols, s.rows);
    && d.g.requests == CountPainted(font, s.cols, p.g, step.f, |step.f|)
    && forall k: nat :: k < |step.f| ==>
         var fate := FateOf(font, s.cols, p.g, step.f, k);
         fate.painted || fate.overlaid || d.g.back[k] == p.g.back[k]
  }

  /** In any sound state, reachable or not, any frame is drawn right if and only if no cell misses. */
  lemma DrawnIff(font: Font, s: Screen, step: Step)
    requires s.Sound() && step.Frame? && Possible(s, step)
    ensures Drawing(s.cols, Prepare(s, step.attr).g, step.f)
    ensures Shown(font, s.cols, step.f, Drawn(font, s, step).g.back) <==>
      forall k: nat :: k < |step.f| ==> !Misses(font, s.cols, Prepare(s, step.attr).g, step.f, k)
    ensures PaintsOnly(font, s, step)
  {
    WholeRows(s.cols, s.rows);
    DrawShowsFrameIff(font, s.cols, Prepare(s, step.attr).g, step.f);
    OnlyRepaintsPaint(font, s.cols, Prepare(s, step.attr).g, step.f);
  }

  lemma DrawnShowsFrame(font: Font, s: Screen, step: Step)
    requires Between(font, s) && step.Frame? && Possible(s, step) && Drawable(font, s, step)
    ensures
      var d := Drawn(font, s, step);
      && Shown(font, s.cols, step.f, d.g.back)
      && Settled(font, d.cols, RowStart(d.cols, d.rows), d.g, d.g.back, d.front)
  {
    PrepareSettles(font, s, step.attr);
    FrameDrawn(font, s.cols, Prepare(s, step.attr).g, step.f, s.front);
  }

  lemma StepKeepsBetween(font: Font, fw: nat, fh: nat, s: Screen, step: Step)
    requires fw > 0 && fh > 0 && Between(font, s) && Admissible(font, fw, fh, s, step)
    ensures Between(font, Next(font, fw, fh, s, step))
  {
    if step.Frame? {
      DrawnShowsFrame(font, s, step);
      var d := Drawn(font, s, step);
      if step.pointer.At? { PointerKeepsSettled(font, d, fw, fh, step.pointer); }
      var p := Composed(font, fw, fh, s, step);
      var r := Swap(Render(p), step.swapOk);
      if step.swapOk { SettledIgnoresCount(font, p.cols, RowStart(p.cols, p.rows), p.g, r.g, r.front, r.g.back); }
    }
  }

  lemma DrawnCellsAgree(font: Font, s: Screen, step: Step, k: nat)
    requires Between(font, s) && step.Frame? && Possible(s, step) && Drawable(font, s, step) && k < |step.f|
    ensures var d := Drawn(font, s, step); !d.g.dmg[k] ==> d.g.back[k] == d.front[k]
  {
    PrepareSettles(font, s, step.attr);
    UndamagedAgree(font, s.cols, Prepare(s, step.attr).g, step.f, s.front, k);
  }

  /** What the damage is recorded for: wherever no cell is marked as damaged, the new back buffer equals the
      one on screen, the pointer included. */
  lemma UndamagedCellsAgree(font: Font, fw: nat, fh: nat, s: Screen, step: Step, k: nat)
    requires Between(font, s) && step.Frame? && Possible(s, step) && Drawable(font, s, step) && fw > 0 && fh > 0
    requires k < |step.f| && (step.pointer.At? ==> SpriteMarked(s, fw, fh, step.pointer))
    ensures var p := Composed(font, fw, fh, s, step); !p.g.dmg[k] ==> p.g.back[k] == p.front[k]
  {
    DrawnCellsAgree(font, s, step, k);
    var d := Drawn(font, s, step);
    hide DrawPointer, Drawn, Marked, Kept;
    if step.pointer.At? { PointerCell(d, fw, fh, step.pointer.x, step.pointer.y, step.pointer.over, k); }
  }

  // ---------------------------------------------------------------- whole runs

  /** Any run at all: frames with any contents, swaps that fail at any time, resizes and modesets. */
  ghost predicate AnyRun(font: Font, fw: nat, fh: nat, s: seq<Screen>, steps: seq<Step>) {
    && fw > 0 && fh > 0 && |s| == |steps| + 1 && Fresh(s[0])
    && forall i: nat :: i < |steps| ==>
         s[i].Sound() && Possible(s[i], steps[i]) && s[i + 1] == Next(font, fw, fh, s[i], steps[i])
  }

  /** A run whose frames are drawable, and whose failed swaps are covered. */
  ghost predicate Run(font: Font, fw: nat, fh: nat, s: seq<Screen>, steps: seq<Step>) {
    && AnyRun(font, fw, fh, s, steps)
    && forall i: nat :: i < |steps| ==> Admissible(font, fw, fh, s[i], steps[i])
  }

  /** In every run whatever, each draw is right if and only if no cell misses, and it blends only what changed
      or was damaged. */
  lemma EveryDrawIff(font: Font, fw: nat, fh: nat, s: seq<Screen>, steps: seq<Step>, i: nat)
    requires AnyRun(font, fw, fh, s, steps) && i < |steps| && steps[i].Frame?
    ensures s[i].Sound() && Possible(s[i], steps[i]) && PaintsOnly(font, s[i], steps[i])
    ensures Drawing(s[i].cols, Prepare(s[i], steps[i].attr).g, steps[i].f)
    ensures Shown(font, s[i].cols, steps[i].f, Drawn(font, s[i], steps[i]).g.back) <==>
      forall k: nat :: k < |steps[i].f| ==>
        !Misses(font, s[i].cols, Prepare(s[i], steps[i].attr).g, steps[i].f, k)
  {
    DrawnIff(font, s[i], steps[i]);
  }

  lemma {:induction false} RunIsBetween(font: Font, fw: nat, fh: nat, s: seq<Screen>, steps: seq<Step>, i: nat)
    requires Run(font, fw, fh, s, steps) && i <= |steps|
    ensures Between(font, s[i])
  {
    if i == 0 {
      FreshIsBetween(font, s[0]);
    } else {
      RunIsBetween(font, fw, fh, s, steps, i - 1);
      assert Admissible(font, fw, fh, s[i - 1], steps[i - 1]) && s[i] == Next(font, fw, fh, s[i - 1], steps[i - 1]);
      StepKeepsBetween(font, fw, fh, s[i - 1], steps[i - 1]);
    }
  }

  /** The main result: in every run, for every font, every draw leaves the back buffer equal to a
      full repaint of the requested frame, although it blends only what changed or was damaged. */
  lemma EveryDrawShowsItsFrame(font: Font, fw: nat, fh: nat, s: seq<Screen>, steps: seq<Step>,
      i: nat, page: seq<Pix>)
    requires Run(font, fw, fh, s, steps) && i < |steps| && steps[i].Frame? && |steps[i].f| <= |page|
    ensures s[i].Sound() && Possible(s[i], steps[i]) && PaintsOnly(font, s[i], steps[i])
    ensures Shown(font, s[i].cols, steps[i].f, Drawn(font, s[i], steps[i]).g.back)
    ensures forall j: nat :: j < |steps[i].f| ==>
      Drawn(font, s[i], steps[i]).g.back[j] == RepaintUpTo(font, s[i].cols, page, steps[i].f, |steps[i].f|)[j]
  {
    RunIsBetween(font, fw, fh, s, steps, i);
    assert Admissible(font, fw, fh, s[i], steps[i]);
    DrawnShowsFrame(font, s[i], steps[i]);
    EveryDrawIff(font, fw, fh, s, steps, i);
    forall j: nat | j < |steps[i].f|
      ensures Drawn(font, s[i], steps[i]).g.back[j] == RepaintUpTo(font, s[i].cols, page, steps[i].f, |steps[i].f|)[j]
    {
      RepaintShowsIdeal(font, s[i].cols, page, steps[i].f, |steps[i].f|, j);
    }
  }

  /** With a font whose glyphs are all single width nothing needs to be assumed about what the
      frames hold next to each other. */
  lemma NarrowFontsAlwaysDrawable(font: Font, s: Screen, step: Step)
    requires s.Sound() && step.Frame? && Possible(s, step) && Valid(step.f)
    requires forall c :: !font(c)
    ensures Drawable(font, s, step)
    ensures forall j: nat :: j < |step.f| ==> Ideal(font, s.cols, step.f, j) == Full(step.f[j])
  {
  }
}
