/** The damage-tracking state machine of the bulk text renderer.

    The display alternates between two buffers.  The renderer repaints only the cells whose
    content changed in this frame or in the one before it.  This module states every step of
    that machine as a function on values; the class `Bulk.Renderer` performs the same steps
    in place and is proved against these functions. */
module BbulkModel {
  import opened Raster

  const ID_DAMAGED: nat := 0x8000_0001
  const ID_OVERFLOW: nat := 0x8000_0002

  /** A terminal cell: its character, its blink bit and everything else that `memcmp` sees. */
  datatype Cell = Cell(ch: nat, blink: bool, look: nat)

  /** What one terminal cell's area of a buffer shows. */
  datatype Pix =
    | Full(cell: Cell)       // the cell's own glyph (the left half, when it is double width)
    | RightHalf(cell: Cell)  // the right half of the double-width glyph to the left
    | Sprite                 // some of the mouse pointer
    | Other(content: nat)    // anything else: cleared pages, earlier geometries

  /** Which cells the font renders as double-width glyphs. */
  type Font = Cell -> bool

  const SPACE: nat := 32
  const CLEARED: Pix := Other(0)

  predicate Regular(c: Cell) {
    c.ch != ID_DAMAGED && c.ch != ID_OVERFLOW
  }

  predicate Blank(c: Cell) {
    c.ch == 0 || c.ch == SPACE
  }

  predicate FirstCol(cols: nat, k: nat)
    requires cols > 0
  {
    Col(cols, k) == 0
  }

  // ---------------------------------------------------------------- reference rendering

  /** Cell `k` of frame `f` is covered by the double-width glyph of the cell to its left. */
  predicate Spill(font: Font, cols: nat, f: seq<Cell>, k: nat)
    requires cols > 0 && k < |f|
  {
    !FirstCol(cols, k) && k > 0 && Blank(f[k]) && font(f[k - 1]) && !Spill(font, cols, f, k - 1)
  }

  /** What cell `k` has to show for frame `f`. */
  function Ideal(font: Font, cols: nat, f: seq<Cell>, k: nat): Pix
    requires cols > 0 && k < |f|
  {
    if Spill(font, cols, f, k) then RightHalf(f[k - 1]) else Full(f[k])
  }

  /** Blends the glyph of `c` at cell `k`; a double-width glyph is cut off at the last column. */
  function Paint(font: Font, cols: nat, buf: seq<Pix>, c: Cell, k: nat): (r: seq<Pix>)
    requires cols > 0 && k < |buf|
    ensures |r| == |buf|
  {
    var b := buf[k := Full(c)];
    if font(c) && !FirstCol(cols, k + 1) && k + 1 < |buf| then b[k + 1 := RightHalf(c)] else b
  }

  /** The simple renderer: paint every cell that is not covered by its left neighbour. */
  function RepaintUpTo(font: Font, cols: nat, buf: seq<Pix>, f: seq<Cell>, k: nat): (r: seq<Pix>)
    requires cols > 0 && k <= |f| <= |buf|
    ensures |r| == |buf|
  {
    if k == 0 then buf
    else
      var b := RepaintUpTo(font, cols, buf, f, k - 1);
      if Spill(font, cols, f, k - 1) then b else Paint(font, cols, b, f[k - 1], k - 1)
  }

  // ---------------------------------------------------------------- the incremental renderer

  /** The renderer's own memory and the buffer it draws to. */
  datatype Grid = Grid(
    cells: seq<Cell>,    // what was last requested, or one of the two marks
    dmg: seq<bool>,      // the cell differed from its predecessor when last drawn
    wide: seq<bool>,     // the glyph last painted at the cell was double width
    back: seq<Pix>,
    requests: nat)
  {
    predicate Sized(cap: nat) {
      |cells| == cap && |dmg| == cap && |wide| == cap && |back| == cap
    }

    function Damage(k: nat): (g: Grid)
      requires k < |cells| && k < |dmg|
    {
      this.(cells := cells[k := cells[k].(ch := ID_DAMAGED)], dmg := dmg[k := true])
    }
  }

  /** The left neighbour's glyph covers cell `k`: leave a mark instead of painting. */
  function CoverCell(g: Grid, k: nat): (r: Grid)
    requires k < |g.cells| && g.Sized(|g.cells|)
    ensures r.Sized(|g.cells|)
  {
    if g.cells[k].ch == ID_OVERFLOW then g.(dmg := g.dmg[k := false])
    else g.(cells := g.cells[k := g.cells[k].(ch := ID_OVERFLOW)], dmg := g.dmg[k := true])
  }

  function PaintCell(font: Font, cols: nat, g: Grid, c: Cell, k: nat): (r: Grid)
    requires cols > 0 && k < |g.cells| && g.Sized(|g.cells|)
    requires !FirstCol(cols, k + 1) ==> k + 1 < |g.cells|
    ensures r.Sized(|g.cells|)
  {
    var changed := g.cells[k] != c;
    var g1 := g.(cells := g.cells[k := c], dmg := g.dmg[k := changed]);
    var g2 := if font(c) && !FirstCol(cols, k + 1) && changed then g1.Damage(k + 1) else g1;
    g2.(wide := g2.wide[k := font(c)],
        back := Paint(font, cols, g2.back, c, k),
        requests := g2.requests + 1)
  }

  function DrawCell(font: Font, cols: nat, g: Grid, c: Cell, k: nat): (r: Grid)
    requires cols > 0 && k < |g.cells| && g.Sized(|g.cells|)
    requires !FirstCol(cols, k + 1) ==> k + 1 < |g.cells|
    ensures r.Sized(|g.cells|)
  {
    if Blank(c) && !FirstCol(cols, k) && k > 0 && g.wide[k - 1] then CoverCell(g, k)
    else if g.cells[k] == c && !g.dmg[k] && !(g.wide[k] && !FirstCol(cols, k + 1) && g.dmg[k + 1]) then g
    else PaintCell(font, cols, g, c, k)
  }

  /** The first `k` cells of frame `f` drawn, in row order. */
  function DrawUpTo(font: Font, cols: nat, g: Grid, f: seq<Cell>, k: nat): (r: Grid)
    requires cols > 0 && k <= |f| <= |g.cells| && g.Sized(|g.cells|) && FirstCol(cols, |f|)
    ensures r.Sized(|g.cells|)
  {
    if k == 0 then g
    else DrawCell(font, cols, DrawUpTo(font, cols, g, f, k - 1), f[k - 1], k - 1)
  }

  lemma DrawNext(font: Font, cols: nat, g: Grid, f: seq<Cell>, k: nat)
    requires cols > 0 && k < |f| <= |g.cells| && g.Sized(|g.cells|) && FirstCol(cols, |f|)
    ensures DrawUpTo(font, cols, g, f, 0) == g
    ensures DrawUpTo(font, cols, g, f, k + 1) == DrawCell(font, cols, DrawUpTo(font, cols, g, f, k), f[k], k)
  {
  }

  // ---------------------------------------------------------------- the requested frame

  datatype Cursor = Cursor(visible: bool, x: nat, y: nat, cell: Cell)

  /** The cell drawn at (x, y): the cursor's, a blanked one while blinking, or the screen's. */
  function Requested(cells: seq<Cell>, cursor: Cursor, blinking: bool, cols: nat, x: nat, y: nat): Cell
    requires x + RowStart(cols, y) < |cells|
  {
    var c := cells[x + RowStart(cols, y)];
    if cursor.visible && cursor.x == x && cursor.y == y then cursor.cell
    else if c.blink && blinking then c.(ch := SPACE)
    else c
  }

  function FrameOf(cells: seq<Cell>, cursor: Cursor, blinking: bool, cols: nat, rows: nat): (f: seq<Cell>)
    requires cols > 0 && |cells| == RowStart(cols, rows)
    ensures |f| == |cells|
  {
    seq(|cells|, k requires 0 <= k < |cells| =>
      CellOf(cols, rows, k); Requested(cells, cursor, blinking, cols, Col(cols, k), Row(cols, k)))
  }

  lemma FrameAt(screen: seq<Cell>, cursor: Cursor, blinking: bool, cols: nat, rows: nat, x: nat, y: nat)
    requires x < cols && y < rows && |screen| == RowStart(cols, rows)
    ensures x + RowStart(cols, y) < |screen|
    ensures FrameOf(screen, cursor, blinking, cols, rows)[x + RowStart(cols, y)]
      == Requested(screen, cursor, blinking, cols, x, y)
  {
    hide Requested, RowStart, Col, Row;
    CellInside(cols, rows, x, y);
    RowAndColumn(cols, x, y);
  }

  /** While blinking, a cell of the screen that blinks shows a space in its own look, and every other one itself; and
      otherwise all show themselves.  Only the cell under a visible cursor shows what the cursor says, either way. */
  lemma BlinkingHides(cells: seq<Cell>, cursor: Cursor, cols: nat, rows: nat, x: nat, y: nat)
    requires x < cols && y < rows && |cells| == RowStart(cols, rows)
    ensures x + RowStart(cols, y) < |cells|
    ensures
      var k, on, off := x + RowStart(cols, y), FrameOf(cells, cursor, true, cols, rows),
        FrameOf(cells, cursor, false, cols, rows);
      if cursor.visible && (cursor.x, cursor.y) == (x, y) then on[k] == off[k] == cursor.cell
      else
        && off[k] == cells[k] && (!cells[k].blink ==> on[k] == cells[k])
        && (cells[k].blink ==> Blank(on[k]) && on[k].ch != 0 && on[k] == Cell(on[k].ch, true, cells[k].look))
  {
    FrameAt(cells, cursor, true, cols, rows, x, y);
    FrameAt(cells, cursor, false, cols, rows, x, y);
    hide RowStart, FrameOf;
  }

  // ---------------------------------------------------------------- the mouse pointer

  function DivRoundUp(n: nat, d: nat): nat
    requires d > 0
  {
    (n + d - 1) / d
  }

  function Clamp(v: nat, lo: nat, hi: nat): nat {
    if v < lo then lo else if v > hi then hi else v
  }

  /** The first of the two columns (or rows) that the pointer at `v` is taken to touch. */
  function MarkPos(v: nat, size: nat, count: nat): (p: nat)
    requires size > 0 && count > 0
    ensures p < count
  {
    var half := DivRoundUp(size, 2);
    var p := if v > half then Row(size, v - half) else 0;
    if p >= count then count - 1 else p
  }

  /** Marks the (up to) four cells under the pointer. */
  function MarkDamaged(g: Grid, cols: nat, rows: nat, fw: nat, fh: nat, x: nat, y: nat): (r: Grid)
    requires cols > 0 && rows > 0 && fw > 0 && fh > 0 && RowStart(cols, rows) <= |g.cells| && g.Sized(|g.cells|)
    ensures r.Sized(|g.cells|)
  {
    var px, py := MarkPos(x, fw, cols), MarkPos(y, fh, rows);
    CellInside(cols, rows, px, py);
    if px + 1 < cols then
      CellInside(cols, rows, px + 1, py); MarkFour(g, cols, px + RowStart(cols, py), true, py + 1 < rows)
    else MarkFour(g, cols, px + RowStart(cols, py), false, py + 1 < rows)
  }

  /** Marks cell `off`, the one to its right, the one below, and the one right of that. */
  function MarkFour(g: Grid, cols: nat, off: nat, right: bool, below: bool): (r: Grid)
    requires g.Sized(|g.cells|) && off < |g.cells|
    requires right ==> off + 1 < |g.cells|
    requires below ==> off + cols < |g.cells|
    requires right && below ==> off + 1 + cols < |g.cells|
    ensures r.Sized(|g.cells|)
  {
    var g1 := g.Damage(off);
    var g2 := if right then g1.Damage(off + 1) else g1;
    var g3 := if below then g2.Damage(off + cols) else g2;
    if right && below then g3.Damage(off + 1 + cols) else g3
  }

  /** The sprite of one glyph's size, centred at (x, y), overlaps the pixels of cell `k`. */
  predicate SpriteTouches(cols: nat, fw: nat, fh: nat, x: nat, y: nat, k: nat)
    requires cols > 0 && fw > 0 && fh > 0
  {
    && Overlaps(x - DivRoundUp(fw, 2), fw, Col(cols, k))
    && Overlaps(y - DivRoundUp(fh, 2), fh, Row(cols, k))
  }

  predicate Overlaps(start: int, size: nat, pos: nat) {
    start < RowStart(size, pos + 1) && RowStart(size, pos) < start + size
  }

  /** Cell `k` is one of the four that get marked for a pointer at (x, y). */
  predicate Marked(cols: nat, rows: nat, fw: nat, fh: nat, x: nat, y: nat, k: nat)
    requires cols > 0 && rows > 0 && fw > 0 && fh > 0
  {
    var px, py := MarkPos(x, fw, cols), MarkPos(y, fh, rows);
    (Col(cols, k) == px || Col(cols, k) == px + 1) && (Row(cols, k) == py || Row(cols, k) == py + 1)
  }

  /** Blends the sprite over some cells. */
  function DrawSprite(g: Grid, over: set<nat>): Grid {
    g.(back := seq(|g.back|, k requires 0 <= k < |g.back| => if k in over then Sprite else g.back[k]))
  }

  // ---------------------------------------------------------------- prepare

  function DamageAll(g: Grid): (r: Grid)
    ensures |r.cells| == |g.cells| && |r.dmg| == |g.dmg|
  {
    g.(cells := seq(|g.cells|, i requires 0 <= i < |g.cells| => g.cells[i].(ch := ID_DAMAGED)),
       dmg := seq(|g.dmg|, _ => true))
  }

  function CarryOver(g: Grid): (r: Grid)
    requires |g.dmg| == |g.cells|
    ensures |r.cells| == |g.cells|
  {
    g.(cells := seq(|g.cells|, i requires 0 <= i < |g.cells| =>
         if g.dmg[i] then g.cells[i].(ch := ID_DAMAGED) else g.cells[i]))
  }

  function ClearPage(buf: seq<Pix>): seq<Pix> {
    seq(|buf|, _ => CLEARED)
  }

  // ---------------------------------------------------------------- the whole machine

  /** Renderer and display together. */
  datatype Screen = Screen(
    cols: nat, rows: nat,
    g: Grid, front: seq<Pix>,
    attr: nat, redraw: nat,
    damageSupported: bool, hasDamage: bool, needRedraw: bool)
  {
    /** Enough memory for two more rows than the terminal has. */
    predicate Sound() {
      && cols > 0 && rows > 0 && RowStart(cols, rows) <= |g.cells| && RowStart(cols, rows + 2) <= |g.cells|
      && g.Sized(|g.cells|) && |front| == |g.cells|
    }
  }

  function Prepare(s: Screen, attr: nat): (r: Screen)
    requires s.Sound()
    ensures r.Sound() && r.cols == s.cols && r.rows == s.rows
  {
    var redraw := if s.attr != attr || s.needRedraw then 2 else s.redraw;
    var g0 := s.g.(requests := 0);
    var g := if redraw > 0 then DamageAll(g0).(back := ClearPage(g0.back))
             else if s.hasDamage then CarryOver(g0)
             else g0;
    s.(attr := attr, g := g, redraw := if redraw > 0 then redraw - 1 else 0)
  }

  function Draw(font: Font, s: Screen, f: seq<Cell>): (r: Screen)
    requires s.Sound() && |f| == RowStart(s.cols, s.rows)
    ensures r.Sound()
  {
    WholeRows(s.cols, s.rows);
    s.(g := DrawUpTo(font, s.cols, s.g, f, |f|))
  }

  lemma WholeRows(cols: nat, rows: nat)
    requires cols > 0
    ensures FirstCol(cols, RowStart(cols, rows))
  {
    RowAndColumn(cols, 0, rows);
  }

  /** The pointer's position, kept half a glyph away from the terminal's edges. */
  function Kept(v: nat, size: nat, count: nat): nat
    requires size > 0 && count > 0
  {
    RowsOrdered(size, 0, count);
    Clamp(v, size / 2, RowStart(size, count) - size / 2)
  }

  /** A pointer inside the terminal that is at least half a glyph away from its edges stays where it is, and any other
      one goes to the nearest such position. */
  lemma KeptIsNearest(v: nat, size: nat, count: nat, w: int)
    requires size > 0 && count > 0 && size / 2 <= w <= RowStart(size, count) - size / 2
    ensures size / 2 <= Kept(v, size, count) <= RowStart(size, count) - size / 2
    ensures if w <= v then w <= Kept(v, size, count) <= v else v <= Kept(v, size, count) <= w
  {
    RowsOrdered(size, 0, count);
  }

  function DrawPointer(s: Screen, fw: nat, fh: nat, x: nat, y: nat, over: set<nat>): (r: Screen)
    requires s.Sound() && fw > 0 && fh > 0
    ensures r.Sound()
  {
    var g1 := MarkDamaged(s.g, s.cols, s.rows, fw, fh, Kept(x, fw, s.cols), Kept(y, fh, s.rows));
    var g2 := DrawSprite(g1, over);
    s.(g := g2.(requests := g2.requests + 1))
  }

  /** Hands the damage rectangles to a display that takes them.  After a modeset it drops them. */
  function Render(s: Screen): Screen {
    if s.damageSupported then s.(hasDamage := !s.needRedraw) else s
  }

  function Swap(s: Screen, ok: bool): Screen {
    if ok then s.(g := s.g.(back := s.front), front := s.g.back, hasDamage := false, needRedraw := false)
    else s
  }

  /** Where the mouse points, in pixels of the terminal, and which cells its sprite lies over on the screen. */
  datatype Pointer = Hidden | At(x: nat, y: nat, over: set<nat>)

  datatype Step =
    | Frame(attr: nat, f: seq<Cell>, pointer: Pointer, swapOk: bool)
    | Resize(cols: nat, rows: nat, back: seq<Pix>, front: seq<Pix>)
    | Modeset(back: seq<Pix>, front: seq<Pix>)

  /** What the environment may do in state `s`.  The new buffer contents after a resize or a
      modeset are arbitrary: the cells lie elsewhere, or the buffers are new. */
  predicate Possible(s: Screen, step: Step) {
    match step
    case Frame(_, f, _, _) => |f| == RowStart(s.cols, s.rows)
    case Resize(cols, rows, back, front) =>
      && cols > 0 && rows > 0 && RowStart(cols, rows) <= |s.g.cells| && RowStart(cols, rows + 2) <= |s.g.cells|
      && |back| == |front| == |s.g.cells|
    case Modeset(back, front) => |back| == |front| == |s.g.cells|
  }

  /** The screen right after the terminal's cells are drawn. */
  function Drawn(font: Font, s: Screen, step: Step): (r: Screen)
    requires s.Sound() && step.Frame? && Possible(s, step)
    ensures r.Sound() && r.cols == s.cols && r.rows == s.rows
  {
    Draw(font, Prepare(s, step.attr), step.f)
  }

  /** The screen once the whole frame is drawn, the pointer included. */
  function Composed(font: Font, fw: nat, fh: nat, s: Screen, step: Step): (r: Screen)
    requires s.Sound() && step.Frame? && Possible(s, step) && fw > 0 && fh > 0
    ensures r.Sound() && r.cols == s.cols && r.rows == s.rows && |r.g.cells| == |s.g.cells|
  {
    var d := Drawn(font, s, step);
    if step.pointer.At? then DrawPointer(d, fw, fh, step.pointer.x, step.pointer.y, step.pointer.over) else d
  }

  function Next(font: Font, fw: nat, fh: nat, s: Screen, step: Step): (r: Screen)
    requires s.Sound() && Possible(s, step) && fw > 0 && fh > 0
    ensures r.Sound() && |r.g.cells| == |s.g.cells|
  {
    match step
    case Frame(_, _, _, swapOk) => Swap(Render(Composed(font, fw, fh, s, step)), swapOk)
    case Resize(cols, rows, back, front) =>
      s.(cols := cols, rows := rows, redraw := 2, g := s.g.(back := back), front := front)
    case Modeset(back, front) =>
      s.(needRedraw := true, g := s.g.(back := back), front := front)
  }

  /** The state after `bbulk_set`: everything damaged, widths and buffers left uninitialised. */
  predicate Fresh(s: Screen) {
    && s.Sound() && s.redraw == 0 && s.attr == 0 && !s.hasDamage
    && (forall k :: 0 <= k < |s.g.cells| ==> s.g.cells[k].ch == ID_DAMAGED && s.g.dmg[k])
  }
}
