/** The bulk text renderer itself, updating its memory in place.

    Every method is proved to take the step that `BbulkModel` gives for it.  Damage rectangles are
    computed in a fixed-size array, whose size is proved sufficient. */
module Bulk {
  import opened BbulkModel
  import opened BbulkDraw
  import opened Raster
  import BbulkRun

  const PAD_COLS: nat := 2
  const TOP_ROWS: nat := 5
  const BOTTOM_ROWS: nat := 4
  const DAMAGE_MERGE_LEN: nat := 3

  datatype Orientation = Normal | Right | UpsideDown | Left

  /** Where the card lies on the screen, in pixels. */
  datatype Layout = Layout(orientation: Orientation, sw: nat, sh: nat, fw: nat, fh: nat,
                           offX: nat, offY: nat, maxX: nat, maxY: nat)

  /** Where the mouse points, in pixels of the terminal, if its pointer is drawn. */
  datatype Mouse = Unseen | Seen(x: nat, y: nat)

  datatype Rect = Rect(x1: nat, y1: nat, x2: nat, y2: nat)

  /** Unsigned 32-bit arithmetic. */
  function U32(v: int): nat {
    v % 0x1_0000_0000
  }

  function Min(a: nat, b: nat): nat { if a < b then a else b }

  function Max(a: nat, b: nat): nat { if a > b then a else b }

  /** The pixels of `n` cells in a row. */
  function Pixels(n: nat, size: nat): nat { n * size }

  /** The top left corner of the cell at (x, y) of the card, chrome included. */
  function Coordinate(l: Layout, x: nat, y: nat): (nat, nat) {
    match l.orientation
    case Normal => (U32(Pixels(x, l.fw) + l.offX), U32(Pixels(y, l.fh) + l.offY))
    case UpsideDown => (U32(l.maxX - Pixels(x + 1, l.fw)), U32(l.maxY - Pixels(y + 1, l.fh)))
    case Right => (U32(l.maxX - Pixels(y + 1, l.fh)), U32(Pixels(x, l.fw) + l.offY))
    case Left => (U32(Pixels(y, l.fh) + l.offX), U32(l.maxY - Pixels(x + 1, l.fw)))
  }

  function Upright(l: Layout): bool { l.orientation.Normal? || l.orientation.UpsideDown? }

  /** The screen area of the terminal cell at (x, y). */
  function CellRect(l: Layout, x: nat, y: nat): Rect {
    var (px, py) := Coordinate(l, x + PAD_COLS, y + TOP_ROWS);
    var w, h := if Upright(l) then l.fw else l.fh, if Upright(l) then l.fh else l.fw;
    Rect(px, py, U32(px + w), U32(py + h))
  }

  /** The rectangles for the chrome. */
  function AboveTerminal(l: Layout): Rect {
    Rect(0, 0, l.sw, U32(l.offY + TOP_ROWS * AreaHeight(l)))
  }

  function BelowTerminal(l: Layout, rows: nat): Rect {
    Rect(0, U32(l.offY + (TOP_ROWS + rows) * AreaHeight(l)), l.sw, l.sh)
  }

  predicate Covers(r: Rect, c: Rect) {
    r.x1 <= c.x1 && r.y1 <= c.y1 && c.x2 <= r.x2 && c.y2 <= r.y2
  }

  function Hull(a: Rect, b: Rect): (r: Rect)
    ensures Covers(r, a) && Covers(r, b)
  {
    Rect(Min(a.x1, b.x1), Min(a.y1, b.y1), Max(a.x2, b.x2), Max(a.y2, b.y2))
  }

  /** The space above the card: a fifth of what is free, but at least a line, and never over a third. */
  function TopMargin(sh: nat, contentH: nat, fh: nat): (m: nat)
    ensures contentH <= sh ==> m + contentH <= sh
  {
    if sh > contentH then
      var freeH := sh - contentH;
      var bias := if freeH / 5 < fh then fh else freeH / 5;
      if bias > freeH / 3 then freeH / 3 else bias
    else 0
  }

  function UprightCard(o: Orientation, sw: nat, sh: nat, fw: nat, fh: nat, cardW: nat, contentH: nat): Layout {
    var offX, offY := U32(sw - cardW) / 2, TopMargin(sh, contentH, fh);
    Layout(o, sw, sh, fw, fh, offX, offY, U32(offX + cardW), U32(offY + contentH))
  }

  function Border(o: Orientation, sw: nat, sh: nat, fw: nat, fh: nat, cols: nat, rows: nat): Layout {
    if o.Normal? || o.UpsideDown? then
      var cardW, contentH := (cols + 2 * PAD_COLS) * fw, U32((rows + TOP_ROWS + BOTTOM_ROWS) * fh);
      UprightCard(o, sw, sh, fw, fh, cardW, contentH)
    else
      var offX, offY := U32(sw - (rows + 2) * fh) / 2, U32(sh - cols * fw) / 2;
      Layout(o, sw, sh, fw, fh, offX, offY, U32(offX + rows * fh), U32(offY + cols * fw))
  }

  // ---------------------------------------------------------------- the pointer's position

  /** The size of a glyph's area on the screen. */
  function AreaWidth(l: Layout): nat { if Upright(l) then l.fw else l.fh }

  function AreaHeight(l: Layout): nat { if Upright(l) then l.fh else l.fw }

  /** Where an area of `size` pixels around `centre` starts, once it is clamped to the card. */
  function Edge(centre: int, size: nat, max: nat): nat {
    var half := DivRoundUp(size, 2);
    U32(Clamp(U32(centre), half, U32(max - half)) - half)
  }

  /** The sprite's top left corner for a pointer centred at (x, y) of the terminal. */
  function SpriteOrigin(l: Layout, x: nat, y: nat): (nat, nat) {
    var (px, py) :=
      match l.orientation
      case Normal => (x + l.offX + PAD_COLS * l.fw, y + l.offY + TOP_ROWS * l.fh)
      case UpsideDown => (l.maxX - x, l.maxY - y)
      case Right => (l.maxX - y, x + l.offY + TOP_ROWS * l.fh)
      case Left => (y + l.offX, l.maxY - x);
    (Edge(px, AreaWidth(l), l.maxX), Edge(py, AreaHeight(l), l.maxY))
  }

  /** Two glyphs' areas overlap. */
  predicate GlyphsOverlap(l: Layout, ax: nat, ay: nat, cx: nat, cy: nat) {
    0 - AreaWidth(l) < ax - cx < AreaWidth(l) && 0 - AreaHeight(l) < ay - cy < AreaHeight(l)
  }

  /** The terminal's cell `k` lies under a sprite at (ax, ay) of the screen. */
  predicate SpriteOver(l: Layout, cols: nat, ax: nat, ay: nat, k: nat)
    requires cols > 0
  {
    var (cx, cy) := Coordinate(l, Col(cols, k) + PAD_COLS, Row(cols, k) + TOP_ROWS);
    GlyphsOverlap(l, ax, ay, cx, cy)
  }

  /** The terminal's cells that lie under the sprite of a pointer centred at (x, y). */
  function SpriteCells(l: Layout, cols: nat, rows: nat, x: nat, y: nat): set<nat>
    requires cols > 0
  {
    var (ax, ay) := SpriteOrigin(l, x, y);
    set k: nat | k < RowStart(cols, rows) && SpriteOver(l, cols, ax, ay, k)
  }

  function PointerOf(l: Layout, cols: nat, rows: nat, mouse: Mouse): Pointer
    requires cols > 0 && rows > 0 && l.fw > 0 && l.fh > 0
  {
    match mouse
    case Unseen => Hidden
    case Seen(x, y) => At(x, y, SpriteCells(l, cols, rows, Kept(x, l.fw, cols), Kept(y, l.fh, rows)))
  }

  /** The card lies on the screen, so no coordinate wraps around. */
  predicate Fits(l: Layout, cols: nat, rows: nat) {
    && l.orientation.Normal? && l.fw > 0 && l.fh > 0
    && l.maxX == l.offX + (cols + 2 * PAD_COLS) * l.fw < 0x1_0000_0000
    && l.maxY == l.offY + (rows + TOP_ROWS + BOTTOM_ROWS) * l.fh < 0x1_0000_0000
  }

  /** A card that is no larger than the screen fits, wherever the margins put it. */
  lemma BorderFits(sw: nat, sh: nat, fw: nat, fh: nat, cols: nat, rows: nat)
    requires fw > 0 && fh > 0
    requires (cols + 2 * PAD_COLS) * fw <= sw < 0x1_0000_0000
    requires (rows + TOP_ROWS + BOTTOM_ROWS) * fh <= sh < 0x1_0000_0000
    ensures var l := Border(Normal, sw, sh, fw, fh, cols, rows);
      && Fits(l, cols, rows) && l.maxX <= sw && l.maxY <= sh
  {
    var cardW, contentH := (cols + 2 * PAD_COLS) * fw, (rows + TOP_ROWS + BOTTOM_ROWS) * fh;
    InsideMargins(sw, cardW, sh, contentH, fw, fh);
    hide UprightCard, U32;
  }

  lemma InsideMargins(sw: nat, cardW: nat, sh: nat, contentH: nat, fw: nat, fh: nat)
    requires cardW <= sw < 0x1_0000_0000 && contentH <= sh < 0x1_0000_0000
    ensures U32(contentH) == contentH
    ensures var l := UprightCard(Normal, sw, sh, fw, fh, cardW, contentH);
      && l.orientation.Normal? && l.fw == fw && l.fh == fh
      && l.maxX == l.offX + cardW <= sw && l.maxY == l.offY + contentH <= sh
  {
    hide TopMargin;
  }

  lemma OneAxis(v: nat, size: nat, off: nat, lead: nat, tail: nat, count: nat, max: nat)
    requires size > 0 && lead >= 1 && tail >= 1
    requires max == off + (count + lead + tail) * size < 0x1_0000_0000
    requires v <= RowStart(size, count)
    ensures Edge(v + off + lead * size, size, max) == v + off + lead * size - DivRoundUp(size, 2)
  {
    RowStartIsProduct(size, count);
    var most, before, behind := count * size, lead * size, tail * size;
    calc { (count + lead + tail) * size; most + before + behind; }
    AtLeastOne(lead, size);
    AtLeastOne(tail, size);
    hide RowStart, Edge;
    EdgeExact(v + off + before, size, max);
  }

  lemma AtLeastOne(n: nat, size: nat)
    requires n >= 1
    ensures n * size >= size
  {
    MulStep(0, n, size);
  }

  lemma EdgeExact(centre: nat, size: nat, max: nat)
    requires size <= centre <= max - size && max < 0x1_0000_0000
    ensures Edge(centre, size, max) == centre - DivRoundUp(size, 2)
  {
    var half := DivRoundUp(size, 2);
    assert half <= size;
    hide DivRoundUp;
    assert U32(centre) == centre && U32(max - half) == max - half;
    hide U32;
    SmallStays(centre - half);
  }

  lemma SmallStays(v: nat)
    requires v < 0x1_0000_0000
    ensures U32(v) == v
  {
  }

  lemma InsideCard(size: nat, off: nat, lead: nat, tail: nat, count: nat, max: nat, pos: nat)
    requires size > 0 && pos < count && max == off + (count + lead + tail) * size < 0x1_0000_0000
    ensures U32(Pixels(pos + lead, size) + off) == off + lead * size + RowStart(size, pos)
    ensures RowStart(size, pos + 1) == RowStart(size, pos) + size
  {
    calc { (pos + lead) * size; pos * size + lead * size; }
    RowStartIsProduct(size, pos);
    MulStep(pos + lead, count + lead + tail, size);
  }

  lemma AxisOverlap(v: nat, size: nat, off: nat, lead: nat, tail: nat, count: nat, max: nat, pos: nat)
    requires size > 0 && lead >= 1 && tail >= 1 && pos < count
    requires max == off + (count + lead + tail) * size < 0x1_0000_0000
    requires v <= RowStart(size, count)
    ensures
      var at := Edge(v + off + lead * size, size, max);
      0 - size < at - U32(Pixels(pos + lead, size) + off) < size <==> Overlaps(v - DivRoundUp(size, 2), size, pos)
  {
    OneAxis(v, size, off, lead, tail, count, max);
    InsideCard(size, off, lead, tail, count, max, pos);
    hide Edge, RowStart, U32, DivRoundUp, Pixels;
  }

  lemma ColumnOverlap(l: Layout, cols: nat, rows: nat, x: nat, y: nat, kx: nat, ky: nat)
    requires Fits(l, cols, rows) && kx < cols && x <= RowStart(l.fw, cols)
    ensures 0 - AreaWidth(l) < SpriteOrigin(l, x, y).0 - Coordinate(l, kx + PAD_COLS, ky).0 < AreaWidth(l)
       <==> Overlaps(x - DivRoundUp(l.fw, 2), l.fw, kx)
  {
    hide Overlaps, Edge, RowStart, U32, Pixels, DivRoundUp;
    AxisOverlap(x, l.fw, l.offX, PAD_COLS, PAD_COLS, cols, l.maxX, kx);
  }

  lemma RowOverlap(l: Layout, cols: nat, rows: nat, x: nat, y: nat, kx: nat, ky: nat)
    requires Fits(l, cols, rows) && ky < rows && y <= RowStart(l.fh, rows)
    ensures 0 - AreaHeight(l) < SpriteOrigin(l, x, y).1 - Coordinate(l, kx, ky + TOP_ROWS).1 < AreaHeight(l)
       <==> Overlaps(y - DivRoundUp(l.fh, 2), l.fh, ky)
  {
    hide Overlaps, Edge, RowStart, U32, Pixels, DivRoundUp;
    AxisOverlap(y, l.fh, l.offY, TOP_ROWS, BOTTOM_ROWS, rows, l.maxY, ky);
  }

  /** On an unrotated screen the sprite lies over just the cells whose area of the terminal it touches: shifting by
      the chrome and clamping to the screen change nothing. */
  lemma SpriteCoversWhatItTouches(l: Layout, cols: nat, rows: nat, x: nat, y: nat, k: nat)
    requires Fits(l, cols, rows) && cols > 0 && k < RowStart(cols, rows)
    requires x <= RowStart(l.fw, cols) && y <= RowStart(l.fh, rows)
    ensures k in SpriteCells(l, cols, rows, x, y) <==> SpriteTouches(cols, l.fw, l.fh, x, y, k)
  {
    hide Overlaps, RowStart, Col, Row, Fits, Coordinate, SpriteOrigin, AreaWidth, AreaHeight, DivRoundUp, SpriteOver;
    CellOf(cols, rows, k);
    var (ax, ay) := SpriteOrigin(l, x, y);
    OverByAxes(l, cols, ax, ay, k);
    ColumnOverlap(l, cols, rows, x, y, Col(cols, k), Row(cols, k) + TOP_ROWS);
    RowOverlap(l, cols, rows, x, y, Col(cols, k) + PAD_COLS, Row(cols, k));
  }

  lemma OverByAxes(l: Layout, cols: nat, ax: nat, ay: nat, k: nat)
    requires cols > 0
    ensures
      var (cx, cy) := Coordinate(l, Col(cols, k) + PAD_COLS, Row(cols, k) + TOP_ROWS);
      SpriteOver(l, cols, ax, ay, k) <==>
        0 - AreaWidth(l) < ax - cx < AreaWidth(l) && 0 - AreaHeight(l) < ay - cy < AreaHeight(l)
  {
  }

  /** So there the pointer marks everything that its sprite lies over. */
  lemma UnrotatedSpriteIsMarked(l: Layout, s: Screen, x: nat, y: nat)
    requires s.Sound() && Fits(l, s.cols, s.rows)
    ensures BbulkRun.SpriteMarked(s, l.fw, l.fh, PointerOf(l, s.cols, s.rows, Seen(x, y)))
  {
    hide SpriteCells, SpriteTouches, Marked;
    var cx, cy := Kept(x, l.fw, s.cols), Kept(y, l.fh, s.rows);
    forall k: nat | k in SpriteCells(l, s.cols, s.rows, cx, cy) && k < RowStart(s.cols, s.rows)
      ensures Marked(s.cols, s.rows, l.fw, l.fh, cx, cy, k)
    {
      KeptInside(x, l.fw, s.cols);
      KeptInside(y, l.fh, s.rows);
      SpriteCoversWhatItTouches(l, s.cols, s.rows, cx, cy, k);
      BbulkRun.PointerMarksWhatItTouches(s.g, s.cols, s.rows, l.fw, l.fh, cx, cy, k);
    }
  }

  lemma KeptInside(v: nat, size: nat, count: nat)
    requires size > 0 && count > 0
    ensures Kept(v, size, count) <= RowStart(size, count)
  {
    RowsOrdered(size, 0, count);
  }

  // ---------------------------------------------------------------- pointers on rotated screens

  /** The rotated card lies on a screen of less than 2^31 pixels in either direction. */
  predicate Turned(l: Layout, rows: nat) {
    && !l.orientation.Normal? && l.fw > 0 && l.fh > 0
    && var max := if l.orientation.UpsideDown? then l.maxY else l.maxX;
       RowStart(l.fh, rows) <= max < 0x8000_0000 && l.offX < 0x8000_0000 - RowStart(l.fh, rows + TOP_ROWS + 1)
  }

  /** A pointer that is drawn too far up marks none of the rows that its sprite lies over. */
  lemma FarAbove(v: nat, size: nat, count: nat, pos: nat)
    requires size > 0 && pos < count && RowStart(size, pos + 3) < v <= RowStart(size, count)
    ensures MarkPos(v, size, count) > pos
  {
    var half := DivRoundUp(size, 2);
    assert RowStart(size, pos + 2) <= v - half;
    if Row(size, v - half) < pos + 2 {
      BbulkRun.DivBounds(v - half, size, pos + 2);
      assert false;
    }
    if pos + 3 >= count {
      if count < pos + 3 { RowsOrdered(size, count, pos + 3); }
      assert false;
    }
  }

  lemma PixelsOfRows(n: nat, size: nat)
    ensures Pixels(n, size) == RowStart(size, n)
  {
    RowStartIsProduct(size, n);
  }

  lemma TwoMore(size: nat, n: nat)
    ensures RowStart(size, n + 2) == RowStart(size, n) + 2 * size
  {
  }

  /** Rows counted from the far edge of the screen. */
  lemma BackwardOverlap(v: nat, size: nat, count: nat, max: nat, pos: nat)
    requires size > 0 && pos < count && v <= RowStart(size, count) <= max < 0x8000_0000
    requires RowStart(size, count + TOP_ROWS + 1) <= 0x8000_0000
    requires 0 - size < Edge(max - v, size, max) - U32(max - Pixels(pos + TOP_ROWS + 1, size)) < size
    ensures RowStart(size, pos + 3) < v
  {
    hide RowStart, Edge, Pixels;
    PixelsOfRows(pos + TOP_ROWS + 1, size);
    RowsOrdered(size, pos + TOP_ROWS, count + TOP_ROWS + 1);
    RowsOrdered(size, 0, count);
    TwoMore(size, pos + 3);
    RowsOrdered(size, pos + TOP_ROWS, pos + TOP_ROWS + 1);
    var here := RowStart(size, pos + TOP_ROWS + 1);
    assert here == RowStart(size, pos + 3) + 3 * size;
    BackwardAt(v, size, max, here);
  }

  lemma BackwardAt(v: nat, size: nat, max: nat, here: nat)
    requires 0 < size <= max < 0x8000_0000 && v <= max && here <= 0x8000_0000
    requires 0 - size < Edge(max - v, size, max) - U32(max - here) < size
    ensures here < v + 3 * size
  {
    EdgeNear(max - v, size, max);
    hide Edge;
  }

  /** The sprite starts at most a glyph before its centre, unless it is as large as the card and wraps around. */
  lemma EdgeNear(centre: nat, size: nat, max: nat)
    requires 0 < size <= max < 0x8000_0000 && centre < 0x8000_0000
    ensures var e := Edge(centre, size, max);
      (e <= centre && (centre <= max ==> centre - size - 1 <= e)) || (max == size && e == 0xffff_ffff)
  {
    var half := DivRoundUp(size, 2);
    assert size <= 2 * half <= size + 1;
    hide DivRoundUp;
    SmallStays(centre);
    SmallStays(max - half);
    var start := Clamp(centre, half, max - half) - half;
    if start >= 0 { SmallStays(start); } else { assert start == -1 && U32(start) == 0xffff_ffff; }
    hide U32;
  }

  /** Rows counted from the near edge of the screen. */
  lemma ForwardOverlap(v: nat, size: nat, count: nat, off: nat, max: nat, pos: nat)
    requires size > 0 && pos < count && v <= RowStart(size, count) <= max < 0x8000_0000
    requires off < 0x8000_0000 - RowStart(size, count + TOP_ROWS + 1)
    requires 0 - size < Edge(v + off, size, max) - U32(Pixels(pos + TOP_ROWS, size) + off) < size
    ensures RowStart(size, pos + 3) < v
  {
    hide RowStart, Edge, Pixels;
    PixelsOfRows(pos + TOP_ROWS, size);
    RowsOrdered(size, pos + TOP_ROWS, count + TOP_ROWS + 1);
    RowsOrdered(size, count, count + TOP_ROWS + 1);
    RowsOrdered(size, 0, count);
    TwoMore(size, pos + 3);
    var here := RowStart(size, pos + TOP_ROWS);
    assert here == RowStart(size, pos + 3) + 2 * size;
    ForwardAt(v, size, off, max, here);
  }

  lemma ForwardAt(v: nat, size: nat, off: nat, max: nat, here: nat)
    requires 0 < size <= max < 0x8000_0000 && v + off < 0x8000_0000 && here + off < 0x8000_0000
    requires 0 - size < Edge(v + off, size, max) - U32(here + off) < size
    ensures here < v + 2 * size
  {
    EdgeNear(v + off, size, max);
    hide Edge;
  }

  /** On a rotated screen the sprite is drawn without regard to the chrome: no cell that it lies over is marked, nor
      any before it. */
  lemma RotatedSpriteIsUnmarked(l: Layout, cols: nat, rows: nat, x: nat, y: nat, k: nat, j: nat)
    requires cols > 0 && rows > 0 && Turned(l, rows) && y <= RowStart(l.fh, rows)
    requires k in SpriteCells(l, cols, rows, x, y) && j <= k
    ensures !Marked(cols, rows, l.fw, l.fh, x, y, j)
  {
    CellOf(cols, rows, k);
    RowMonotone(cols, j, k);
    RowAboveOverlap(l, cols, rows, x, y, k);
    FarAbove(y, l.fh, rows, Row(cols, k));
    hide MarkPos, RowStart, Row, Col, SpriteCells;
  }

  /** The exact condition for rotated screens: drawing the pointer keeps the screen settled if and only if its sprite
      misses the terminal altogether. */
  lemma RotatedPointerSettlesIff(font: Font, l: Layout, s: Screen, x: nat, y: nat)
    requires s.Sound() && Turned(l, s.rows)
    requires Settled(font, s.cols, RowStart(s.cols, s.rows), s.g, s.g.back, s.front)
    requires forall k: nat :: k < RowStart(s.cols, s.rows) ==> s.g.cells[k].ch != ID_DAMAGED
    ensures
      var over := SpriteCells(l, s.cols, s.rows, Kept(x, l.fw, s.cols), Kept(y, l.fh, s.rows));
      var r := BbulkModel.DrawPointer(s, l.fw, l.fh, x, y, over);
      Settled(font, r.cols, RowStart(r.cols, r.rows), r.g, r.g.back, r.front) <==> over == {}
  {
    var cx, cy := Kept(x, l.fw, s.cols), Kept(y, l.fh, s.rows);
    var over := SpriteCells(l, s.cols, s.rows, cx, cy);
    BbulkRun.PointerSettlesIff(font, s, l.fw, l.fh, x, y, over);
    KeptInside(y, l.fh, s.rows);
    assert forall k :: k in over ==> k < RowStart(s.cols, s.rows);
    hide SpriteCells, Marked, BbulkModel.DrawPointer, RowStart, Kept, Settled;
    forall k: nat | k in over ensures !BbulkRun.Harmless(s, l.fw, l.fh, x, y, k) {
      RotatedSpriteIsUnmarked(l, s.cols, s.rows, cx, cy, k, k);
      if k > 0 { RotatedSpriteIsUnmarked(l, s.cols, s.rows, cx, cy, k, k - 1); }
    }
  }

  const TURNED_CARD: Layout := Layout(UpsideDown, 640, 400, 8, 16, 224, 16, 416, 352)

  /** And it need not: on a screen of 640 by 400 pixels turned upside down, a pointer at (100, 130) is drawn two
      columns and five rows away from where it points. */
  lemma UpsideDownPointerStrays()
    ensures
      var l := Border(UpsideDown, 640, 400, 8, 16, 20, 12);
      && Turned(l, 12) && 50 in SpriteCells(l, 20, 12, 100, 130) && Col(20, 50) == 10 && Row(20, 50) == 2
      && MarkPos(100, 8, 20) == 12 && MarkPos(130, 16, 12) == 7
  {
    assert Border(UpsideDown, 640, 400, 8, 16, 20, 12) == TURNED_CARD;
    MarksBelow();
    TurnedSprite();
    assert Turned(TURNED_CARD, 12) by {
      RowStartIsProduct(16, 12);
      RowStartIsProduct(16, 18);
    }
    hide Border, MarkPos, RowStart, Row, Col, SpriteCells, Turned;
  }

  lemma TurnedSprite()
    ensures 50 in SpriteCells(TURNED_CARD, 20, 12, 100, 130)
  {
    MarksBelow();
    hide MarkPos, RowStart, Row, Col;
    assert SpriteOrigin(TURNED_CARD, 100, 130) == (312, 214);
    assert Coordinate(TURNED_CARD, 12, 7) == (312, 224);
    hide SpriteOrigin, Coordinate;
  }

  lemma MarksBelow()
    ensures MarkPos(100, 8, 20) == 12 && MarkPos(130, 16, 12) == 7
    ensures Col(20, 50) == 10 && Row(20, 50) == 2 && 50 < RowStart(20, 12)
  {
    RowAndColumn(20, 10, 2);
    RowAndColumn(8, 0, 12);
    RowAndColumn(16, 10, 7);
    RowStartIsProduct(20, 2);
    RowStartIsProduct(20, 12);
    RowStartIsProduct(8, 12);
    RowStartIsProduct(16, 7);
    hide RowStart, Row, Col;
  }

  lemma RowAboveOverlap(l: Layout, cols: nat, rows: nat, x: nat, y: nat, k: nat)
    requires cols > 0 && rows > 0 && Turned(l, rows) && y <= RowStart(l.fh, rows)
    requires k in SpriteCells(l, cols, rows, x, y) && Row(cols, k) < rows
    ensures RowStart(l.fh, Row(cols, k) + 3) < y
  {
    hide RowStart, Edge, U32, Pixels;
    match l.orientation
    case UpsideDown => BackwardOverlap(y, l.fh, rows, l.maxY, Row(cols, k));
    case Right => BackwardOverlap(y, l.fh, rows, l.maxX, Row(cols, k));
    case Left => ForwardOverlap(y, l.fh, rows, l.offX, l.maxX, Row(cols, k));
  }

  // ---------------------------------------------------------------- the display

  /** A double-buffered display.  Everything is drawn to `back`; a successful swap exchanges the
      two buffers and spends the damage that was set. */
  class Display {
    var back: seq<Pix>
    var front: seq<Pix>
    var hasDamage: bool
    var needRedraw: bool
    const damageSupported: bool

    constructor (back: seq<Pix>, front: seq<Pix>, damageSupported: bool)
      ensures this.back == back && this.front == front && this.damageSupported == damageSupported
      ensures !hasDamage && needRedraw
    {
      this.back, this.front, this.damageSupported := back, front, damageSupported;
      hasDamage, needRedraw := false, true;
    }

    method BlendGlyph(c: Cell, k: nat, halves: nat)
      requires k < |back| && (halves == 2 ==> k + 1 < |back|)
      modifies `back
      ensures back == if halves == 2 then old(back)[k := Full(c)][k + 1 := RightHalf(c)] else old(back)[k := Full(c)]
    {
      back := back[k := Full(c)];
      if halves == 2 { back := back[k + 1 := RightHalf(c)]; }
    }

    method BlendSprite(l: Layout, cols: nat, n: nat, ax: nat, ay: nat)
      requires cols > 0
      modifies `back
      ensures |back| == |old(back)|
      ensures forall k: nat :: k < |back| ==>
        back[k] == (if k < n && SpriteOver(l, cols, ax, ay, k) then Sprite else old(back)[k])
    {
      var was := back;
      back := seq(|was|, k requires 0 <= k < |was| =>
        if k < n && SpriteOver(l, cols, ax, ay, k) then Sprite else was[k]);
    }

    method Clear()
      modifies `back
      ensures back == ClearPage(old(back))
    {
      back := ClearPage(back);
    }

    method SetDamage(clips: seq<Rect>)
      modifies `hasDamage
      ensures hasDamage == (damageSupported && !needRedraw && clips != [])
    {
      hasDamage := false;
      if needRedraw || clips == [] || !damageSupported { return; }
      hasDamage := true;
    }

    method Swap(ok: bool)
      modifies this
      ensures if ok then back == old(front) && front == old(back) && !hasDamage && !needRedraw
              else && back == old(back) && front == old(front)
                   && hasDamage == old(hasDamage) && needRedraw == old(needRedraw)
    {
      if ok {
        hasDamage := false;
        needRedraw := false;
        back, front := front, back;
      }
    }
  }

  // ---------------------------------------------------------------- the renderer

  /** Which damaged cells gave a rectangle its four sides: the columns of row `y`. */
  datatype Origin = Origin(y: nat, left: nat, top: nat, right: nat, bottom: nat)

  class Renderer {
    const font: Font
    const disp: Display
    const maxCols: nat
    const maxRows: nat
    var layout: Layout
    var cols: nat
    var rows: nat
    var attr: nat
    var requests: nat
    var redraw: nat
    const cells: array<Cell>
    const dmg: array<bool>
    const wide: array<bool>
    const rects: array<Rect>
    var rectLen: nat

    ghost predicate Valid()
      reads this, disp, cells, dmg, wide, rects
    {
      && dmg != wide
      && 0 < cols <= maxCols && 0 < rows <= maxRows
      && cells.Length == dmg.Length == wide.Length
      && |disp.back| == |disp.front| == cells.Length
      && RowStart(cols, rows) <= cells.Length && RowStart(cols, rows + 2) <= cells.Length
      && layout.fw > 0 && layout.fh > 0
    }

    /** The sizes the constructor allocates. */
    ghost predicate Allocated() {
      && cells.Length == RowStart(maxCols, maxRows + 2)
      && rects.Length == RowStart(DivRoundUp(maxCols, DAMAGE_MERGE_LEN + 1), maxRows + 2) + 2
    }

    /** The renderer's state as a value. */
    ghost function Abs(): (s: Screen)
      requires Valid()
      reads this, disp, cells, dmg, wide, rects
      ensures s.Sound()
    {
      Screen(cols, rows, Grid(cells[..], dmg[..], wide[..], disp.back, requests), disp.front,
             attr, redraw, disp.damageSupported, disp.hasDamage, disp.needRedraw)
    }

    constructor (font: Font, disp: Display, l: Layout, maxCols: nat, maxRows: nat)
      requires maxCols > 0 && maxRows > 0 && l.fw > 0 && l.fh > 0
      requires |disp.back| == |disp.front| == RowStart(maxCols, maxRows + 2) && !disp.hasDamage
      ensures Valid() && Allocated() && fresh(cells) && fresh(dmg) && fresh(wide) && fresh(rects)
      ensures this.font == font && this.disp == disp && layout == l && Fresh(Abs())
    {
      this.font, this.disp, this.maxCols, this.maxRows, layout := font, disp, maxCols, maxRows, l;
      cols, rows, attr, requests, redraw, rectLen := maxCols, maxRows, 0, 0, 0, 0;
      var count := RowStart(maxCols, maxRows + 2);
      CapacityBound(maxCols, maxRows, maxCols, maxRows);
      cells := new Cell[count](_ => Cell(0, false, 0));
      dmg := new bool[count];
      wide := new bool[count];
      rects := new Rect[RowStart(DivRoundUp(maxCols, DAMAGE_MERGE_LEN + 1), maxRows + 2) + 2](_ => Rect(0, 0, 0, 0));
      new;
      DamageEverything();
    }

    method DamageCell(off: nat)
      requires Valid() && off < cells.Length
      modifies cells, dmg
      ensures Valid() && Abs() == old(Abs()).(g := old(Abs()).g.Damage(off))
    {
      cells[off] := cells[off].(ch := ID_DAMAGED);
      dmg[off] := true;
    }

    method DamageEverything()
      requires Valid()
      modifies cells, dmg
      ensures Valid() && Abs() == old(Abs()).(g := DamageAll(old(Abs()).g))
      ensures forall k :: 0 <= k < cells.Length ==> cells[k].ch == ID_DAMAGED && dmg[k]
    {
      var i := 0;
      while i < cells.Length
        invariant i <= cells.Length
        invariant forall k :: 0 <= k < i ==> cells[k] == old(cells[k]).(ch := ID_DAMAGED) && dmg[k]
        invariant forall k :: i <= k < cells.Length ==> cells[k] == old(cells[k]) && dmg[k] == old(dmg[k])
      {
        DamageCell(i);
        i := i + 1;
      }
      assert cells[..] == DamageAll(old(Abs()).g).cells;
      assert dmg[..] == DamageAll(old(Abs()).g).dmg;
    }

    method Resize(cols: nat, rows: nat)
      requires Valid() && Allocated()
      modifies this`cols, this`rows, this`layout, this`redraw
      ensures Valid()
      ensures if 0 < cols <= maxCols && 0 < rows <= maxRows
              then Abs() == old(Abs()).(cols := cols, rows := rows, redraw := 2)
              else Abs() == old(Abs())
      ensures layout == if 0 < cols <= maxCols && 0 < rows <= maxRows
                        then var l := old(layout); Border(l.orientation, l.sw, l.sh, l.fw, l.fh, cols, rows)
                        else old(layout)
    {
      if cols == 0 || cols > maxCols || rows == 0 || rows > maxRows { return; }
      this.cols, this.rows := cols, rows;
      layout := Border(layout.orientation, layout.sw, layout.sh, layout.fw, layout.fh, cols, rows);
      redraw := 2;
      CapacityBound(cols, rows, maxCols, maxRows);
    }

    method Prepare(attr: nat)
      requires Valid()
      modifies this`attr, this`requests, this`redraw, this`rectLen, disp`back, cells, dmg
      ensures Valid() && rectLen == 0 && Abs() == BbulkModel.Prepare(old(Abs()), attr)
    {
      hide RowStart;
      requests, rectLen := 0, 0;
      if this.attr != attr || disp.needRedraw { redraw := 2; }
      this.attr := attr;
      if redraw > 0 {
        disp.Clear();
        DamageEverything();
      } else if disp.hasDamage {
        CarryOver();
      }
      if redraw > 0 { redraw := redraw - 1; }
    }

    /** Unspent damage of a frame that was never shown has to be painted again. */
    method CarryOver()
      requires Valid()
      modifies cells
      ensures Valid() && Abs() == old(Abs()).(g := BbulkModel.CarryOver(old(Abs()).g))
    {
      var i := 0;
      while i < cells.Length
        invariant i <= cells.Length
        invariant forall k :: 0 <= k < i ==>
          cells[k] == if dmg[k] then old(cells[k]).(ch := ID_DAMAGED) else old(cells[k])
        invariant forall k :: i <= k < cells.Length ==> cells[k] == old(cells[k])
      {
        if dmg[i] { cells[i] := cells[i].(ch := ID_DAMAGED); }
        i := i + 1;
      }
      assert cells[..] == BbulkModel.CarryOver(old(Abs()).g).cells;
    }

    /** The cell is covered by the double-width glyph to its left. */
    method CoverCell(off: nat)
      requires Valid() && off < cells.Length
      modifies cells, dmg
      ensures Valid() && Abs() == old(Abs()).(g := BbulkModel.CoverCell(old(Abs()).g, off))
    {
      if cells[off].ch == ID_OVERFLOW {
        dmg[off] := false;
        return;
      }
      cells[off] := cells[off].(ch := ID_OVERFLOW);
      dmg[off] := true;
    }

    method PaintCell(c: Cell, off: nat, lastCol: bool, changed: bool)
      requires Valid() && off < cells.Length && lastCol == FirstCol(cols, off + 1) && changed == (cells[off] != c)
      requires !lastCol ==> off + 1 < cells.Length
      modifies this`requests, disp`back, cells, dmg, wide
      ensures Valid() && Abs() == old(Abs()).(g := BbulkModel.PaintCell(font, cols, old(Abs()).g, c, off))
    {
      hide Col, RowStart, FirstCol, Grid.Damage;
      dmg[off] := changed;
      cells[off] := c;
      var double := font(c);
      if double && !lastCol && changed { DamageCell(off + 1); }
      wide[off] := double;
      disp.BlendGlyph(c, off, if double && !lastCol then 2 else 1);
      requests := requests + 1;
    }

    /** `DrawCell`, once the cell's number is known. */
    method DrawAt(c: Cell, off: nat, firstCol: bool, lastCol: bool)
      requires Valid() && off < cells.Length && (!lastCol ==> off + 1 < cells.Length)
      requires firstCol == FirstCol(cols, off) && lastCol == FirstCol(cols, off + 1)
      modifies this`requests, disp`back, cells, dmg, wide
      ensures Valid() && Abs() == old(Abs()).(g := BbulkModel.DrawCell(font, cols, old(Abs()).g, c, off))
    {
      if (c.ch == 0 || c.ch == SPACE) && !firstCol && off > 0 && wide[off - 1] {
        CoverCell(off);
        return;
      }
      var changed := cells[off] != c;
      if !changed {
        if wide[off] && !lastCol {
          if !dmg[off] && !dmg[off + 1] { return; }
        } else {
          if !dmg[off] { return; }
        }
      }
      PaintCell(c, off, lastCol, changed);
    }

    method DrawCell(c: Cell, posx: nat, posy: nat)
      requires Valid() && posx < cols && posy < rows
      modifies this`requests, disp`back, cells, dmg, wide
      ensures Valid() && posx + RowStart(cols, posy) < RowStart(cols, rows)
      ensures !FirstCol(cols, posx + RowStart(cols, posy) + 1) ==>
        posx + RowStart(cols, posy) + 1 < RowStart(cols, rows)
      ensures Abs() == old(Abs()).(g := BbulkModel.DrawCell(font, cols, old(Abs()).g, c, posx + RowStart(cols, posy)))
    {
      CellColumns(cols, rows, posx, posy);
      DrawAt(c, posx + RowStart(cols, posy), posx == 0, posx == cols - 1);
    }

    /** Chooses what to draw at (posx, posy): the cursor, a blinked-out cell, or the cell itself. */
    method DrawRequested(screen: seq<Cell>, cursor: Cursor, blinking: bool, posx: nat, posy: nat)
      requires Valid() && posx < cols && posy < rows && |screen| == RowStart(cols, rows)
      modifies this`requests, disp`back, cells, dmg, wide
      ensures Valid() && posx + RowStart(cols, posy) < RowStart(cols, rows)
      ensures !FirstCol(cols, posx + RowStart(cols, posy) + 1) ==>
        posx + RowStart(cols, posy) + 1 < RowStart(cols, rows)
      ensures Abs() == old(Abs()).(g := BbulkModel.DrawCell(font, cols, old(Abs()).g,
        Requested(screen, cursor, blinking, cols, posx, posy), posx + RowStart(cols, posy)))
    {
      hide BbulkModel.DrawCell, Col, RowStart;
      CellInside(cols, rows, posx, posy);
      var off := posx + RowStart(cols, posy);
      if cursor.visible && cursor.x == posx && cursor.y == posy {
        DrawCell(cursor.cell, posx, posy);
      } else if screen[off].blink && blinking {
        DrawCell(screen[off].(ch := SPACE), posx, posy);
      } else {
        DrawCell(screen[off], posx, posy);
      }
    }

    method Draw(screen: seq<Cell>, cursor: Cursor, blinking: bool)
      requires Valid() && |screen| == RowStart(cols, rows)
      modifies this`requests, disp`back, cells, dmg, wide
      ensures Valid()
      ensures Abs() == BbulkModel.Draw(font, old(Abs()), FrameOf(screen, cursor, blinking, cols, rows))
    {
      hide BbulkModel.DrawCell, DrawUpTo, FrameOf, Requested, Col, Row;
      WholeRows(cols, rows);
      CellInside(cols, rows, 0, 0);
      ghost var f := FrameOf(screen, cursor, blinking, cols, rows);
      DrawNext(font, cols, Abs().g, f, 0);
      var posy := 0;
      while posy < rows
        invariant Valid() && posy <= rows && RowStart(cols, posy) <= |f|
        invariant Abs() == old(Abs()).(g := DrawUpTo(font, cols, old(Abs()).g, f, RowStart(cols, posy)))
      {
        RowsOrdered(cols, posy, rows);
        DrawRow(screen, cursor, blinking, posy, f, old(Abs()).g);
        posy := posy + 1;
      }
    }

    method DrawRow(screen: seq<Cell>, cursor: Cursor, blinking: bool, posy: nat, ghost f: seq<Cell>, ghost g0: Grid)
      requires Valid() && posy < rows && |screen| == RowStart(cols, rows)
      requires f == FrameOf(screen, cursor, blinking, cols, rows) && FirstCol(cols, |f|) && g0.Sized(cells.Length)
      requires RowStart(cols, posy) <= RowStart(cols, posy + 1) <= |f| && |g0.cells| == cells.Length
      requires Abs().g == DrawUpTo(font, cols, g0, f, RowStart(cols, posy))
      modifies this`requests, disp`back, cells, dmg, wide
      ensures Valid()
      ensures Abs() == old(Abs()).(g := DrawUpTo(font, cols, g0, f, RowStart(cols, posy + 1)))
    {
      hide BbulkModel.DrawCell, DrawUpTo, FrameOf, Requested, Col, Row, FirstCol, RowStart;
      RowsOrdered(cols, posy, posy + 1);
      var posx := 0;
      while posx < cols
        invariant Valid() && posx <= cols
        invariant Abs() == old(Abs()).(g := DrawUpTo(font, cols, g0, f, posx + RowStart(cols, posy)))
      {
        FrameAt(screen, cursor, blinking, cols, rows, posx, posy);
        DrawNext(font, cols, g0, f, posx + RowStart(cols, posy));
        DrawRequested(screen, cursor, blinking, posx, posy);
        posx := posx + 1;
      }
    }

    method MarkFour(off: nat, right: bool, below: bool)
      requires Valid() && off < cells.Length && (right ==> off + 1 < cells.Length)
      requires (below ==> off + cols < cells.Length) && (right && below ==> off + 1 + cols < cells.Length)
      modifies cells, dmg
      ensures Valid()
      ensures Abs() == old(Abs()).(g := BbulkModel.MarkFour(old(Abs()).g, cols, off, right, below))
    {
      hide RowStart, Grid.Damage;
      DamageCell(off);
      if right { DamageCell(off + 1); }
      if below { DamageCell(off + cols); }
      if right && below { DamageCell(off + 1 + cols); }
    }

    /** Marks the cells under the pointer. */
    method MarkDamaged(x: nat, y: nat)
      requires Valid()
      modifies cells, dmg
      ensures Valid()
      ensures Abs() == old(Abs()).(g := BbulkModel.MarkDamaged(old(Abs()).g, cols, rows, layout.fw, layout.fh, x, y))
    {
      hide BbulkModel.MarkFour, BbulkModel.MarkPos;
      var posx, posy := MarkPos(x, layout.fw, cols), MarkPos(y, layout.fh, rows);
      CellInside(cols, rows, posx, posy);
      if posx + 1 < cols { CellInside(cols, rows, posx + 1, posy); }
      MarkFour(posx + RowStart(cols, posy), posx + 1 < cols, posy + 1 < rows);
    }

    method DrawPointer(pointerX: nat, pointerY: nat)
      requires Valid()
      modifies this`requests, disp`back, cells, dmg
      ensures Valid()
      ensures
        var over := SpriteCells(layout, cols, rows, Kept(pointerX, layout.fw, cols), Kept(pointerY, layout.fh, rows));
        Abs() == BbulkModel.DrawPointer(old(Abs()), layout.fw, layout.fh, pointerX, pointerY, over)
    {
      hide BbulkModel.MarkDamaged, BbulkModel.DrawSprite, SpriteOver, SpriteOrigin, SpriteCells, RowStart, Clamp;
      var fw2, fh2 := layout.fw / 2, layout.fh / 2;
      RowsOrdered(layout.fw, 0, cols);
      RowsOrdered(layout.fh, 0, rows);
      var x := Clamp(pointerX, fw2, RowStart(layout.fw, cols) - fw2);
      var y := Clamp(pointerY, fh2, RowStart(layout.fh, rows) - fh2);
      var origin := SpriteOrigin(layout, x, y);
      MarkDamaged(x, y);
      ghost var g := Abs().g;
      disp.BlendSprite(layout, cols, RowStart(cols, rows), origin.0, origin.1);
      SpriteBlended(layout, cols, rows, g, x, y, disp.back);
      requests := requests + 1;
    }

    // -------------------------------------------------------------- damage rectangles

    method AddDamage(r: Rect)
      requires rectLen < rects.Length
      modifies this`rectLen, rects
      ensures 0 < rectLen <= rects.Length && rects[..rectLen] == old(rects[..rectLen]) + [r]
    {
      rects[rectLen] := r;
      rectLen := rectLen + 1;
    }

    method MergeDamage(r: Rect)
      requires 0 < rectLen <= rects.Length
      modifies rects
      ensures rects[..rectLen] == old(rects[..rectLen - 1]) + [Hull(old(rects[rectLen - 1]), r)]
    {
      var out := rects[rectLen - 1];
      rects[rectLen - 1] := Rect(Min(out.x1, r.x1), Min(out.y1, r.y1), Max(out.x2, r.x2), Max(out.y2, r.y2));
    }

    /** Takes the damaged cell at (posx, posy) into the last rectangle, or into a new one. */
    method PlaceRect(posx: nat, posy: nat, merge: bool, ghost from: seq<Origin>) returns (ghost to: seq<Origin>)
      requires rectLen <= rects.Length && |from| == rectLen && cols > 0
      requires if merge then 0 < rectLen && from[rectLen - 1].y == posy else rectLen < rects.Length
      requires DamagedAt(cols, dmg[..], posx, posy) && Tight(layout, cols, dmg[..], rects[..rectLen], from)
      modifies this`rectLen, rects
      ensures rectLen == old(rectLen) + (if merge then 0 else 1) && 0 < rectLen <= rects.Length
      ensures Tight(layout, cols, dmg[..], rects[..rectLen], to) && to[rectLen - 1].y == posy
      ensures Covered(rects[..rectLen], CellRect(layout, posx, posy))
      ensures CoversAll(old(rects[..rectLen]), rects[..rectLen])
    {
      hide RowStart, Covers, Hull, CellRect, Covered;
      var r := CellRect(layout, posx, posy);
      ghost var was := rects[..rectLen];
      if merge {
        MergeDamage(r);
        assert rects[..rectLen] == was[..|was| - 1] + [Hull(was[|was| - 1], r)];
        MergeKeepsCovered(was, r);
        to := MergeTight(layout, cols, dmg[..], was, from, posx, posy);
      } else {
        AddDamage(r);
        AddKeepsCovered(was, r);
        to := from + [Origin(posy, posx, posx, posx, posx)];
      }
    }

    /** One row: damaged cells at most `DAMAGE_MERGE_LEN` apart share a rectangle, so a row of
        `cols` cells adds at most a quarter of that many, rounded up. */
    method ComputeRow(posy: nat, ghost from: seq<Origin>) returns (ghost to: seq<Origin>)
      requires Valid() && posy < rows + 2 && rectLen + DivRoundUp(cols, DAMAGE_MERGE_LEN + 1) <= rects.Length
      requires Tight(layout, cols, dmg[..], rects[..rectLen], from)
      modifies this`rectLen, rects
      ensures rectLen <= rects.Length &&
        old(rectLen) <= rectLen <= old(rectLen) + DivRoundUp(cols, DAMAGE_MERGE_LEN + 1)
      ensures Tight(layout, cols, dmg[..], rects[..rectLen], to)
      ensures RowCovered(layout, cols, cols, posy, dmg[..], rects[..rectLen])
      ensures CoversAll(old(rects[..rectLen]), rects[..rectLen])
    {
      hide RowStart, Covers, CellRect, Covered, CoversAll, Bounded, RowCovered;
      RowsOrdered(cols, posy, rows + 2);
      to := from;
      ghost var base, start, damage := rectLen, rects[..rectLen], dmg[..];
      CoversAllChain(start, start, start);
      NothingToCover(layout, cols, posy, damage, start);
      var prev := 0;
      var posx := 0;
      while posx < cols
        invariant posx <= cols && prev <= DAMAGE_MERGE_LEN && base <= rectLen <= rects.Length
        invariant 4 * (rectLen - base) <= posx + prev && (prev > 0 ==> rectLen > base)
        invariant Tight(layout, cols, damage, rects[..rectLen], to) && (prev > 0 ==> to[rectLen - 1].y == posy)
        invariant RowCovered(layout, cols, posx, posy, damage, rects[..rectLen])
        invariant CoversAll(start, rects[..rectLen])
      {
        var off := posx + RowStart(cols, posy);
        ghost var was := rects[..rectLen];
        if !dmg[off] {
          if prev > 0 { prev := prev - 1; }
        } else {
          to := PlaceRect(posx, posy, prev > 0, to);
          prev := DAMAGE_MERGE_LEN;
          CoversAllChain(start, was, rects[..rectLen]);
        }
        CoverOneMore(layout, cols, posx, posy, damage, was, rects[..rectLen]);
        posx := posx + 1;
      }
    }

    /** Every damaged cell lies in a rectangle, every rectangle but the last two is bounded by
        damaged cells of one row, and the array that `bbulk_set` allocates is large enough. */
    method ComputeDamage() returns (ghost from: seq<Origin>)
      requires Valid() && Allocated() && rectLen == 0
      modifies this`rectLen, rects
      ensures Valid() && 2 <= rectLen <= rects.Length
      ensures Tight(layout, cols, dmg[..], rects[..rectLen - 2], from)
      ensures AllCovered(layout, cols, rows + 2, dmg[..], rects[..rectLen - 2])
      ensures rects[rectLen - 2] == AboveTerminal(layout) && rects[rectLen - 1] == BelowTerminal(layout, rows)
    {
      ghost var perRow := DivRoundUp(cols, DAMAGE_MERGE_LEN + 1);
      RectsFit(cols, rows, maxCols, maxRows);
      from := ComputeRows(perRow);
      hide Tight, AllCovered, AboveTerminal, BelowTerminal, RowStart;
      ghost var cellRects := rects[..rectLen];
      AddChrome();
      assert rects[..rectLen - 2] == rects[..rectLen][..rectLen - 2] == cellRects;
      assert rects[rectLen - 2] == rects[..rectLen][rectLen - 2] && rects[rectLen - 1] == rects[..rectLen][rectLen - 1];
    }

    method AddChrome()
      requires rectLen + 2 <= rects.Length
      modifies this`rectLen, rects
      ensures rectLen == old(rectLen) + 2 <= rects.Length
      ensures rects[..rectLen] == old(rects[..rectLen]) + [AboveTerminal(layout), BelowTerminal(layout, rows)]
    {
      hide U32;
      var fh := if Upright(layout) then layout.fh else layout.fw;
      var r := Rect(0, 0, layout.sw, U32(layout.offY + TOP_ROWS * fh));
      AddDamage(r);
      r := r.(y1 := U32(layout.offY + (TOP_ROWS + rows) * fh), y2 := layout.sh);
      AddDamage(r);
    }

    /** The rectangles of all rows, `perRow` of them at most for each. */
    method ComputeRows(ghost perRow: nat) returns (ghost from: seq<Origin>)
      requires Valid() && rectLen == 0 && perRow == DivRoundUp(cols, DAMAGE_MERGE_LEN + 1)
      requires RowStart(perRow, rows + 2) + 2 <= rects.Length
      modifies this`rectLen, rects
      ensures Valid() && rectLen + 2 <= rects.Length
      ensures Tight(layout, cols, dmg[..], rects[..rectLen], from)
      ensures AllCovered(layout, cols, rows + 2, dmg[..], rects[..rectLen])
    {
      hide RowCovered, Covered, RowStart, CoversAll, Bounded, DivRoundUp;
      from := [];
      var posy := 0;
      RowsOrdered(perRow, 0, rows + 2);
      while posy < rows + 2
        invariant posy <= rows + 2 && rectLen <= RowStart(perRow, posy) && rectLen + 2 <= rects.Length
        invariant Tight(layout, cols, dmg[..], rects[..rectLen], from)
        invariant AllCovered(layout, cols, posy, dmg[..], rects[..rectLen])
      {
        RowsOrdered(perRow, posy, rows + 2);
        ghost var was := rects[..rectLen];
        from := ComputeRow(posy, from);
        forall y: nat | y < posy ensures RowCovered(layout, cols, cols, y, dmg[..], rects[..rectLen]) {
          CoverageGrows(layout, cols, cols, y, dmg[..], was, rects[..rectLen]);
        }
        posy := posy + 1;
      }
    }

    method Render()
      requires Valid() && Allocated() && rectLen == 0
      modifies this`rectLen, rects, disp`hasDamage
      ensures Valid() && Abs() == BbulkModel.Render(old(Abs()))
      ensures disp.damageSupported ==> 2 <= rectLen <= rects.Length
      ensures disp.damageSupported ==> AllCovered(layout, cols, rows + 2, dmg[..], rects[..rectLen - 2])
    {
      if disp.damageSupported {
        ghost var from := ComputeDamage();
        disp.SetDamage(rects[..rectLen]);
      }
    }

    /** Everything of one frame: prepare, draw, pointer. */
    method Compose(attr: nat, screen: seq<Cell>, cursor: Cursor, blinking: bool, mouse: Mouse, ghost swapOk: bool)
      requires Valid() && |screen| == RowStart(cols, rows)
      modifies this`attr, this`requests, this`redraw, this`rectLen, disp`back, cells, dmg, wide
      ensures Valid() && rectLen == 0
      ensures
        var step := Frame(attr, FrameOf(screen, cursor, blinking, cols, rows), PointerOf(layout, cols, rows, mouse),
          swapOk);
        Abs() == Composed(font, layout.fw, layout.fh, old(Abs()), step)
    {
      hide BbulkModel.Prepare, BbulkModel.Draw, BbulkModel.DrawPointer, RowStart, FrameOf, FirstCol, SpriteCells, Kept;
      Prepare(attr);
      Draw(screen, cursor, blinking);
      if mouse.Seen? { DrawPointer(mouse.x, mouse.y); }
    }

    /** One round of the terminal: draw, render, swap.  It is one step of the machine, whatever the frame holds and
        wherever the pointer is.  An admissible step keeps the invariant, and then both buffers show the same
        outside the rectangles of the damaged cells. */
    method RedrawScreen(attr: nat, screen: seq<Cell>, cursor: Cursor, blinking: bool, mouse: Mouse, swapOk: bool)
      requires Valid() && Allocated() && |screen| == RowStart(cols, rows)
      modifies this`attr, this`requests, this`redraw, this`rectLen, disp, cells, dmg, wide, rects
      ensures Valid() && (disp.damageSupported ==> 2 <= rectLen <= rects.Length)
      ensures
        var step := Frame(attr, FrameOf(screen, cursor, blinking, cols, rows), PointerOf(layout, cols, rows, mouse),
          swapOk);
        && Abs() == Next(font, layout.fw, layout.fh, old(Abs()), step)
        && (BbulkRun.Between(font, old(Abs())) && BbulkRun.Admissible(font, layout.fw, layout.fh, old(Abs()), step) ==>
             && BbulkRun.Between(font, Abs())
             && (disp.damageSupported ==>
                  AgreeOutside(layout, cols, rows, rects[..rectLen - 2], disp.back, disp.front)))
    {
      hide Composed, AllCovered, AgreeOutside, RowStart, FrameOf, PointerOf, FirstCol;
      hide BbulkRun.Between, BbulkRun.Admissible;
      ghost var step :=
        Frame(attr, FrameOf(screen, cursor, blinking, cols, rows), PointerOf(layout, cols, rows, mouse), swapOk);
      ghost var s := Abs();
      Compose(attr, screen, cursor, blinking, mouse, swapOk);
      Render();
      if BbulkRun.Between(font, s) && BbulkRun.Admissible(font, layout.fw, layout.fh, s, step) {
        BbulkRun.StepKeepsBetween(font, layout.fw, layout.fh, s, step);
        if disp.damageSupported {
          OutsideTheBuffersAgree(font, layout, s, step, rects[..rectLen - 2]);
          AgreementIsMutual(layout, cols, rows, rects[..rectLen - 2], disp.back, disp.front);
        }
      }
      disp.Swap(swapOk);
    }
  }

  // ---------------------------------------------------------------- rectangles as values

  ghost predicate Covered(rs: seq<Rect>, c: Rect) {
    exists i: nat :: i < |rs| && Covers(rs[i], c)
  }

  ghost predicate DamagedAt(cols: nat, dmg: seq<bool>, x: nat, y: nat) {
    x < cols && x + RowStart(cols, y) < |dmg| && dmg[x + RowStart(cols, y)]
  }

  ghost predicate RowCovered(l: Layout, cols: nat, upTo: nat, y: nat, dmg: seq<bool>, rs: seq<Rect>) {
    forall x: nat :: x < upTo && DamagedAt(cols, dmg, x, y) ==> Covered(rs, CellRect(l, x, y))
  }

  ghost predicate AllCovered(l: Layout, cols: nat, upTo: nat, dmg: seq<bool>, rs: seq<Rect>) {
    forall y: nat :: y < upTo ==> RowCovered(l, cols, cols, y, dmg, rs)
  }

  ghost predicate CoversAll(was: seq<Rect>, now: seq<Rect>) {
    forall c: Rect :: Covered(was, c) ==> Covered(now, c)
  }

  lemma CoversAllChain(a: seq<Rect>, b: seq<Rect>, c: seq<Rect>)
    ensures CoversAll(a, a)
    ensures CoversAll(a, b) && CoversAll(b, c) ==> CoversAll(a, c)
  {
  }

  lemma NothingToCover(l: Layout, cols: nat, y: nat, dmg: seq<bool>, rs: seq<Rect>)
    ensures RowCovered(l, cols, 0, y, dmg, rs)
  {
  }

  lemma CoverOneMore(l: Layout, cols: nat, x: nat, y: nat, dmg: seq<bool>, was: seq<Rect>,
      now: seq<Rect>)
    requires RowCovered(l, cols, x, y, dmg, was) && (was == now || CoversAll(was, now))
    requires DamagedAt(cols, dmg, x, y) ==> Covered(now, CellRect(l, x, y))
    ensures RowCovered(l, cols, x + 1, y, dmg, now)
  {
    hide CellRect, DamagedAt, Covered;
  }

  ghost predicate Bounded(l: Layout, cols: nat, dmg: seq<bool>, r: Rect, o: Origin) {
    && DamagedAt(cols, dmg, o.left, o.y) && DamagedAt(cols, dmg, o.top, o.y)
    && DamagedAt(cols, dmg, o.right, o.y) && DamagedAt(cols, dmg, o.bottom, o.y)
    && r == Rect(CellRect(l, o.left, o.y).x1, CellRect(l, o.top, o.y).y1,
                 CellRect(l, o.right, o.y).x2, CellRect(l, o.bottom, o.y).y2)
  }

  ghost predicate Tight(l: Layout, cols: nat, dmg: seq<bool>, rs: seq<Rect>, from: seq<Origin>) {
    |from| == |rs| && forall i: nat :: i < |rs| ==> Bounded(l, cols, dmg, rs[i], from[i])
  }

  lemma AddKeepsCovered(rs: seq<Rect>, r: Rect)
    ensures Covered(rs + [r], r)
    ensures CoversAll(rs, rs + [r])
  {
    assert (rs + [r])[|rs|] == r;
    forall c: Rect | Covered(rs, c) ensures Covered(rs + [r], c) {
      var i: nat :| i < |rs| && Covers(rs[i], c);
      assert (rs + [r])[i] == rs[i];
    }
  }

  lemma MergeKeepsCovered(rs: seq<Rect>, r: Rect)
    requires rs != []
    ensures var m := rs[..|rs| - 1] + [Hull(rs[|rs| - 1], r)];
      Covered(m, r) && CoversAll(rs, m)
  {
    var m := rs[..|rs| - 1] + [Hull(rs[|rs| - 1], r)];
    assert m[|rs| - 1] == Hull(rs[|rs| - 1], r);
    forall c: Rect | Covered(rs, c) ensures Covered(m, c) {
      var i: nat :| i < |rs| && Covers(rs[i], c);
      if i < |rs| - 1 { assert m[i] == rs[i]; } else { assert Covers(m[i], c); }
    }
  }

  lemma MergeTight(l: Layout, cols: nat, dmg: seq<bool>, rs: seq<Rect>, from: seq<Origin>, x: nat,
      y: nat)
    returns (to: seq<Origin>)
    requires rs != [] && Tight(l, cols, dmg, rs, from) && from[|rs| - 1].y == y && DamagedAt(cols, dmg, x, y)
    ensures Tight(l, cols, dmg, rs[..|rs| - 1] + [Hull(rs[|rs| - 1], CellRect(l, x, y))], to)
    ensures to[|rs| - 1].y == y
  {
    hide RowStart, CellRect;
    var o, last, r := from[|rs| - 1], rs[|rs| - 1], CellRect(l, x, y);
    assert Bounded(l, cols, dmg, last, o);
    to := from[|rs| - 1 := Origin(y,
      if last.x1 < r.x1 then o.left else x, if last.y1 < r.y1 then o.top else x,
      if last.x2 > r.x2 then o.right else x, if last.y2 > r.y2 then o.bottom else x)];
    var m := rs[..|rs| - 1] + [Hull(last, r)];
    forall i: nat | i < |m| ensures Bounded(l, cols, dmg, m[i], to[i]) {
      if i < |rs| - 1 { assert Bounded(l, cols, dmg, rs[i], from[i]); }
    }
  }

  lemma CoverageGrows(l: Layout, cols: nat, upTo: nat, y: nat, dmg: seq<bool>, was: seq<Rect>,
      now: seq<Rect>)
    requires RowCovered(l, cols, upTo, y, dmg, was)
    requires CoversAll(was, now)
    ensures RowCovered(l, cols, upTo, y, dmg, now)
  {
  }

  lemma RectsFit(cols: nat, rows: nat, maxCols: nat, maxRows: nat)
    requires cols <= maxCols && rows <= maxRows
    ensures RowStart(DivRoundUp(cols, DAMAGE_MERGE_LEN + 1), rows + 2)
         <= RowStart(DivRoundUp(maxCols, DAMAGE_MERGE_LEN + 1), maxRows + 2)
  {
    var few, many := DivRoundUp(cols, DAMAGE_MERGE_LEN + 1), DivRoundUp(maxCols, DAMAGE_MERGE_LEN + 1);
    WiderRows(few, many, rows + 2);
    if rows < maxRows { RowsOrdered(many, rows + 2, maxRows + 2); }
  }

  /** Terminal cells whose area lies in none of the rectangles show the same in both buffers. */
  ghost predicate AgreeOutside(l: Layout, cols: nat, rows: nat, rs: seq<Rect>, a: seq<Pix>, b: seq<Pix>) {
    forall x: nat, y: nat {:trigger CellRect(l, x, y)} :: x < cols && y < rows && !Covered(rs, CellRect(l, x, y)) ==>
      var k := x + RowStart(cols, y); k < |a| && k < |b| && a[k] == b[k]
  }

  lemma AgreementIsMutual(l: Layout, cols: nat, rows: nat, rs: seq<Rect>, a: seq<Pix>, b: seq<Pix>)
    requires AgreeOutside(l, cols, rows, rs, a, b)
    ensures AgreeOutside(l, cols, rows, rs, b, a)
  {
    hide CellRect, Covered, RowStart;
  }

  /** The rectangles tell the display everything that changed: outside of them the new back buffer equals the
      one on screen. */
  lemma OutsideTheBuffersAgree(font: Font, l: Layout, s: Screen, step: Step, rs: seq<Rect>)
    requires l.fw > 0 && l.fh > 0 && BbulkRun.Between(font, s)
    requires step.Frame? && BbulkRun.Admissible(font, l.fw, l.fh, s, step)
    requires AllCovered(l, s.cols, s.rows + 2, Composed(font, l.fw, l.fh, s, step).g.dmg, rs)
    ensures var p := Composed(font, l.fw, l.fh, s, step); AgreeOutside(l, s.cols, s.rows, rs, p.g.back, p.front)
  {
    hide Composed, CellRect, Settled, BbulkRun.Drawable, RowStart, Covered, AllCovered;
    forall x: nat, y: nat | x < s.cols && y < s.rows && !Covered(rs, CellRect(l, x, y))
      ensures
        var p, k := Composed(font, l.fw, l.fh, s, step), x + RowStart(s.cols, y);
        k < |p.g.back| == |p.front| && p.g.back[k] == p.front[k]
    {
      CellOutsideAgrees(font, l, s, step, rs, x, y);
    }
  }

  lemma CellOutsideAgrees(font: Font, l: Layout, s: Screen, step: Step, rs: seq<Rect>, x: nat, y: nat)
    requires l.fw > 0 && l.fh > 0 && BbulkRun.Between(font, s)
    requires step.Frame? && BbulkRun.Admissible(font, l.fw, l.fh, s, step)
    requires AllCovered(l, s.cols, s.rows + 2, Composed(font, l.fw, l.fh, s, step).g.dmg, rs)
    requires x < s.cols && y < s.rows && !Covered(rs, CellRect(l, x, y))
    ensures
      var p, k := Composed(font, l.fw, l.fh, s, step), x + RowStart(s.cols, y);
      k < |p.g.back| == |p.front| && p.g.back[k] == p.front[k]
  {
    hide Composed, CellRect, Settled, BbulkRun.Drawable, RowStart, Covered;
    var p := Composed(font, l.fw, l.fh, s, step);
    CellInside(s.cols, s.rows, x, y);
    BbulkRun.UndamagedCellsAgree(font, l.fw, l.fh, s, step, x + RowStart(s.cols, y));
    assert RowCovered(l, s.cols, s.cols, y, p.g.dmg, rs);
  }

  lemma SpriteBlended(l: Layout, cols: nat, rows: nat, g: Grid, x: nat, y: nat, back: seq<Pix>)
    requires cols > 0 && |back| == |g.back|
    requires
      var (ax, ay) := SpriteOrigin(l, x, y);
      forall k: nat :: k < |back| ==>
        back[k] == if k < RowStart(cols, rows) && SpriteOver(l, cols, ax, ay, k) then Sprite else g.back[k]
    ensures DrawSprite(g, SpriteCells(l, cols, rows, x, y)) == g.(back := back)
  {
    hide SpriteOrigin, SpriteOver;
    assert DrawSprite(g, SpriteCells(l, cols, rows, x, y)).back == back;
  }

  lemma {:induction false} WiderRows(cols: nat, maxCols: nat, rows: nat)
    requires cols <= maxCols
    ensures RowStart(cols, rows) <= RowStart(maxCols, rows)
  {
    if rows > 0 { WiderRows(cols, maxCols, rows - 1); }
  }

  lemma CapacityBound(cols: nat, rows: nat, maxCols: nat, maxRows: nat)
    requires cols <= maxCols && rows <= maxRows
    ensures RowStart(cols, rows) <= RowStart(cols, rows + 2) <= RowStart(maxCols, maxRows + 2)
  {
    RowsOrdered(cols, rows, rows + 2);
    if rows < maxRows { RowsOrdered(cols, rows + 2, maxRows + 2); }
    WiderRows(cols, maxCols, maxRows + 2);
  }

  /** Column tests on coordinates and on cell numbers agree. */
  lemma CellColumns(cols: nat, rows: nat, x: nat, y: nat)
    requires x < cols && y < rows
    ensures FirstCol(cols, RowStart(cols, rows))
    ensures x + RowStart(cols, y) < RowStart(cols, rows)
    ensures FirstCol(cols, x + RowStart(cols, y)) <==> x == 0
    ensures FirstCol(cols, x + RowStart(cols, y) + 1) <==> x == cols - 1
    ensures x < cols - 1 ==> x + RowStart(cols, y) + 1 < RowStart(cols, rows)
  {
    WholeRows(cols, rows);
    CellInside(cols, rows, x, y);
    RowAndColumn(cols, x, y);
    if x + 1 < cols {
      CellInside(cols, rows, x + 1, y);
      RowAndColumn(cols, x + 1, y);
    } else {
      RowsOrdered(cols, y, y + 1);
      RowAndColumn(cols, 0, y + 1);
    }
  }
}
