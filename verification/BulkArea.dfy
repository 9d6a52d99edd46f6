/** Where the cells of the terminal lie on the screen, in all four orientations. */
module BulkArea {
  import opened BbulkModel
  import opened Raster
  import opened Bulk
  import Rotate

  predicate InRect(r: Rect, px: int, py: int) {
    r.x1 <= px < r.x2 && r.y1 <= py < r.y2
  }

  /** No corner of a cell of the terminal wraps around. */
  predicate NoWrap(l: Layout, cols: nat, rows: nat) {
    && l.fw > 0 && l.fh > 0
    && var w, h := RowStart(l.fw, cols + PAD_COLS), RowStart(l.fh, rows + TOP_ROWS);
       match l.orientation
       case Normal => l.offX + w < 0x1_0000_0000 && l.offY + h < 0x1_0000_0000
       case UpsideDown => w <= l.maxX < 0x1_0000_0000 && h <= l.maxY < 0x1_0000_0000
       case Right => h <= l.maxX < 0x1_0000_0000 && l.offY + w < 0x1_0000_0000
       case Left => l.offX + h < 0x1_0000_0000 && w <= l.maxY < 0x1_0000_0000
  }

  /** The card without its chrome. */
  function TerminalArea(l: Layout, cols: nat, rows: nat): Rect
    requires NoWrap(l, cols, rows)
  {
    ChromeIsSmall(l, cols, rows);
    var x1, x2 := RowStart(l.fw, PAD_COLS), RowStart(l.fw, cols + PAD_COLS);
    var y1, y2 := RowStart(l.fh, TOP_ROWS), RowStart(l.fh, rows + TOP_ROWS);
    match l.orientation
    case Normal => Rect(l.offX + x1, l.offY + y1, l.offX + x2, l.offY + y2)
    case UpsideDown => Rect(l.maxX - x2, l.maxY - y2, l.maxX - x1, l.maxY - y1)
    case Right => Rect(l.maxX - y2, l.offY + x1, l.maxX - y1, l.offY + x2)
    case Left => Rect(l.offX + y1, l.maxY - x2, l.offX + y2, l.maxY - x1)
  }

  lemma ChromeIsSmall(l: Layout, cols: nat, rows: nat)
    ensures RowStart(l.fw, PAD_COLS) <= RowStart(l.fw, cols + PAD_COLS)
    ensures RowStart(l.fh, TOP_ROWS) <= RowStart(l.fh, rows + TOP_ROWS)
  {
    RowsAdd(l.fw, cols, PAD_COLS);
    RowsAdd(l.fh, rows, TOP_ROWS);
  }

  /** On an unrotated card that lies on the screen, that is all but two columns at either side, five rows above and
      four below. */
  lemma TerminalOfFitting(l: Layout, cols: nat, rows: nat)
    requires Fits(l, cols, rows)
    ensures NoWrap(l, cols, rows)
    ensures var t := TerminalArea(l, cols, rows);
      && t.x1 == l.offX + 2 * l.fw && t.x2 == l.maxX - 2 * l.fw
      && t.y1 == l.offY + 5 * l.fh && t.y2 == l.maxY - 4 * l.fh
  {
    RowStartIsProduct(l.fw, cols + 2 * PAD_COLS);
    RowStartIsProduct(l.fh, rows + TOP_ROWS + BOTTOM_ROWS);
    RowsAdd(l.fw, cols + PAD_COLS, PAD_COLS);
    RowsAdd(l.fh, rows + TOP_ROWS, BOTTOM_ROWS);
    RowStartIsProduct(l.fw, PAD_COLS);
    RowStartIsProduct(l.fh, TOP_ROWS);
    RowStartIsProduct(l.fh, BOTTOM_ROWS);
    ChromeIsSmall(l, cols, rows);
    hide RowStart;
  }

  /** The point of the upright card that is seen at (px, py) of the screen: one turn of the whole card. */
  function CardPoint(l: Layout, px: int, py: int): (int, int) {
    match l.orientation
    case Normal => (px - l.offX, py - l.offY)
    case UpsideDown => (l.maxX - 1 - px, l.maxY - 1 - py)
    case Right => (py - l.offY, l.maxX - 1 - px)
    case Left => (l.maxY - 1 - py, px - l.offX)
  }

  // ---------------------------------------------------------------- one axis

  lemma {:induction false} RowsAdd(size: nat, n: nat, lead: nat)
    ensures RowStart(size, n + lead) == RowStart(size, n) + RowStart(size, lead)
  {
    if n > 0 { RowsAdd(size, n - 1, lead); }
  }

  /** Pixel `d` of an axis belongs to position `pos`. */
  predicate Within(size: nat, pos: nat, d: int) {
    RowStart(size, pos) <= d < RowStart(size, pos + 1)
  }

  lemma WithinIsRow(size: nat, pos: nat, d: nat)
    requires size > 0
    ensures Within(size, pos, d) <==> Row(size, d) == pos
  {
    EnoughRows(size, d);
    CellOf(size, d + 1, d);
    if Within(size, pos, d) { RowAndColumn(size, d - RowStart(size, pos), pos); }
  }

  lemma BetweenRows(size: nat, from: nat, to: nat, d: nat)
    requires size > 0 && from <= to
    ensures RowStart(size, from) <= d < RowStart(size, to) <==> from <= Row(size, d) < to
  {
    var pos := Row(size, d);
    WithinIsRow(size, pos, d);
    hide RowStart, Row;
    if pos < from { RowsOrdered(size, pos, from); } else if pos > from { RowsOrdered(size, from, pos); }
    if pos < to { RowsOrdered(size, pos, to); } else if pos > to { RowsOrdered(size, to, pos); }
  }

  // ---------------------------------------------------------------- cells

  /** The corners of a cell, for each way of the card's axes. */
  function Corners(l: Layout, col: nat, row: nat): (int, int, int, int) {
    var x1, x2, y1, y2 := RowStart(l.fw, col), RowStart(l.fw, col + 1), RowStart(l.fh, row), RowStart(l.fh, row + 1);
    match l.orientation
    case Normal => (l.offX + x1, l.offY + y1, l.offX + x2, l.offY + y2)
    case UpsideDown => (l.maxX - x2, l.maxY - y2, l.maxX - x1, l.maxY - y1)
    case Right => (l.maxX - y2, l.offY + x1, l.maxX - y1, l.offY + x2)
    case Left => (l.offX + y1, l.maxY - x2, l.offX + y2, l.maxY - x1)
  }

  lemma CellCorners(l: Layout, cols: nat, rows: nat, x: nat, y: nat)
    requires NoWrap(l, cols, rows) && x < cols && y < rows
    ensures CornersAre(l, x + PAD_COLS, y + TOP_ROWS)
  {
    RowsOrdered(l.fw, x + PAD_COLS, cols + PAD_COLS);
    RowsOrdered(l.fh, y + TOP_ROWS, rows + TOP_ROWS);
    hide RowStart, CornersAre;
    if Upright(l) {
      UprightCorners(l, x + PAD_COLS, y + TOP_ROWS);
    } else {
      TurnedCorners(l, x + PAD_COLS, y + TOP_ROWS);
    }
  }

  /** That is where the cell at (col, row) of the card lies. */
  predicate CornersAre(l: Layout, col: nat, row: nat)
    requires col >= PAD_COLS && row >= TOP_ROWS
  {
    var (r, c) := (CellRect(l, col - PAD_COLS, row - TOP_ROWS), Corners(l, col, row));
    && Coordinate(l, col, row) == (r.x1, r.y1) && (r.x1, r.y1, r.x2, r.y2) == c
    && c.2 == c.0 + AreaWidth(l) && c.3 == c.1 + AreaHeight(l)
  }

  lemma UprightCorners(l: Layout, col: nat, row: nat)
    requires Upright(l) && col >= PAD_COLS && row >= TOP_ROWS
    requires l.orientation.Normal? ==>
      && l.offX + RowStart(l.fw, col + 1) < 0x1_0000_0000 && l.offY + RowStart(l.fh, row + 1) < 0x1_0000_0000
    requires l.orientation.UpsideDown? ==>
      && RowStart(l.fw, col + 1) <= l.maxX < 0x1_0000_0000 && RowStart(l.fh, row + 1) <= l.maxY < 0x1_0000_0000
    ensures CornersAre(l, col, row)
  {
    hide U32, Pixels;
    if l.orientation.Normal? {
      Ascending(l.fw, col, l.offX);
      Ascending(l.fh, row, l.offY);
    } else {
      Descending(l.fw, col, l.maxX);
      Descending(l.fh, row, l.maxY);
    }
    RowsOrdered(l.fw, col, col + 1);
    RowsOrdered(l.fh, row, row + 1);
    hide RowStart;
  }

  lemma TurnedCorners(l: Layout, col: nat, row: nat)
    requires !Upright(l) && col >= PAD_COLS && row >= TOP_ROWS
    requires l.orientation.Right? ==>
      && RowStart(l.fh, row + 1) <= l.maxX < 0x1_0000_0000 && l.offY + RowStart(l.fw, col + 1) < 0x1_0000_0000
    requires l.orientation.Left? ==>
      && l.offX + RowStart(l.fh, row + 1) < 0x1_0000_0000 && RowStart(l.fw, col + 1) <= l.maxY < 0x1_0000_0000
    ensures CornersAre(l, col, row)
  {
    hide U32, Pixels;
    if l.orientation.Right? {
      Descending(l.fh, row, l.maxX);
      Ascending(l.fw, col, l.offY);
    } else {
      Ascending(l.fh, row, l.offX);
      Descending(l.fw, col, l.maxY);
    }
    RowsOrdered(l.fw, col, col + 1);
    RowsOrdered(l.fh, row, row + 1);
    hide RowStart;
  }

  /** The screen area of a cell holds just what the turned card shows of it. */
  lemma CellIsOfCard(l: Layout, cols: nat, rows: nat, x: nat, y: nat, px: int, py: int)
    requires NoWrap(l, cols, rows) && x < cols && y < rows
    ensures InRect(CellRect(l, x, y), px, py) <==>
      var (u, v) := CardPoint(l, px, py); Within(l.fw, x + PAD_COLS, u) && Within(l.fh, y + TOP_ROWS, v)
  {
    CellCorners(l, cols, rows, x, y);
    hide CellRect, RowStart, NoWrap;
  }

  /** Where a position starts and ends on an axis that runs the same way as the screen's. */
  lemma Ascending(size: nat, pos: nat, off: nat)
    requires off + RowStart(size, pos + 1) < 0x1_0000_0000
    ensures var start := U32(Pixels(pos, size) + off);
      start == off + RowStart(size, pos) && U32(start + size) == off + RowStart(size, pos + 1)
  {
    RowStartIsProduct(size, pos);
  }

  /** And on one that runs the other way. */
  lemma Descending(size: nat, pos: nat, max: nat)
    requires RowStart(size, pos + 1) <= max < 0x1_0000_0000
    ensures var start := U32(max - Pixels(pos + 1, size));
      start == max - RowStart(size, pos + 1) && U32(start + size) == max - RowStart(size, pos)
  {
    RowStartIsProduct(size, pos + 1);
  }

  /** The terminal's cell at (x, y) is shown at pixel (px, py) of the screen. */
  predicate Shows(l: Layout, cols: nat, rows: nat, x: nat, y: nat, px: int, py: int) {
    x < cols && y < rows && InRect(CellRect(l, x, y), px, py)
  }

  /** The terminal's area is tiled by the areas of its cells: each of its pixels lies in one of them, no two share a
      pixel, and none reaches into the chrome. */
  lemma CellsTileTheTerminal(l: Layout, cols: nat, rows: nat, px: int, py: int)
    requires NoWrap(l, cols, rows)
    ensures InRect(TerminalArea(l, cols, rows), px, py) <==> exists x: nat, y: nat :: Shows(l, cols, rows, x, y, px, py)
    ensures forall x: nat, y: nat, x': nat, y': nat ::
      Shows(l, cols, rows, x, y, px, py) && Shows(l, cols, rows, x', y', px, py) ==> x == x' && y == y'
  {
    var (u, v) := CardPoint(l, px, py);
    ChromeIsSmall(l, cols, rows);
    TerminalIsOfCard(l, cols, rows, px, py);
    hide RowStart, Row, Shows, TerminalArea, CardPoint, NoWrap;
    forall x: nat, y: nat | Shows(l, cols, rows, x, y, px, py) ensures ShownIs(l, cols, rows, px, py, x, y) {
      CellOfPixel(l, cols, rows, x, y, px, py);
    }
    if InRect(TerminalArea(l, cols, rows), px, py) {
      CellOfPixel(l, cols, rows, Row(l.fw, u) - PAD_COLS, Row(l.fh, v) - TOP_ROWS, px, py);
    }
  }

  /** The cell of the card that pixel (px, py) belongs to is (x, y) of the terminal. */
  predicate ShownIs(l: Layout, cols: nat, rows: nat, px: int, py: int, x: nat, y: nat)
    requires l.fw > 0 && l.fh > 0
  {
    var (u, v) := CardPoint(l, px, py);
    && x < cols && y < rows && u >= 0 && v >= 0
    && Row(l.fw, u) == x + PAD_COLS && Row(l.fh, v) == y + TOP_ROWS
  }

  lemma CellOfPixel(l: Layout, cols: nat, rows: nat, x: nat, y: nat, px: int, py: int)
    requires NoWrap(l, cols, rows)
    ensures Shows(l, cols, rows, x, y, px, py) <==> ShownIs(l, cols, rows, px, py, x, y)
  {
    var (u, v) := CardPoint(l, px, py);
    if x < cols && y < rows { CellIsOfCard(l, cols, rows, x, y, px, py); }
    hide RowStart, CellRect, CardPoint, NoWrap;
    if u >= 0 { WithinIsRow(l.fw, x + PAD_COLS, u); }
    if v >= 0 { WithinIsRow(l.fh, y + TOP_ROWS, v); }
  }

  lemma TerminalIsOfCard(l: Layout, cols: nat, rows: nat, px: int, py: int)
    requires NoWrap(l, cols, rows)
    ensures InRect(TerminalArea(l, cols, rows), px, py) <==>
      var (u, v) := CardPoint(l, px, py);
      && u >= 0 && v >= 0
      && PAD_COLS <= Row(l.fw, u) < cols + PAD_COLS && TOP_ROWS <= Row(l.fh, v) < rows + TOP_ROWS
  {
    var (u, v) := CardPoint(l, px, py);
    ChromeIsSmall(l, cols, rows);
    hide RowStart, Row;
    if u >= 0 { BetweenRows(l.fw, PAD_COLS, cols + PAD_COLS, u); }
    if v >= 0 { BetweenRows(l.fh, TOP_ROWS, rows + TOP_ROWS, v); }
  }

  /** A cell lies under an area of a glyph's size just if they share a pixel. */
  lemma OverlapIsByPixels(l: Layout, cols: nat, rows: nat, ax: nat, ay: nat, k: nat)
    requires NoWrap(l, cols, rows) && cols > 0 && k < RowStart(cols, rows)
    ensures SpriteOver(l, cols, ax, ay, k) <==>
      exists px: nat, py: nat :: && InRect(CellRect(l, Col(cols, k), Row(cols, k)), px, py)
        && ax <= px < ax + AreaWidth(l) && ay <= py < ay + AreaHeight(l)
  {
    CellOf(cols, rows, k);
    var r := CellRect(l, Col(cols, k), Row(cols, k));
    CellCorners(l, cols, rows, Col(cols, k), Row(cols, k));
    hide CellRect, RowStart, Col, Row, NoWrap, Corners;
    if SpriteOver(l, cols, ax, ay, k) {
      assert InRect(r, Max(ax, r.x1), Max(ay, r.y1));
    }
  }

  // ---------------------------------------------------------------- the sizes that setup chooses

  const HORIZONTAL_CELLS: nat := 14
  const SAFE_MARGIN_ROWS: nat := 8

  /** What is left of an axis of the screen for the terminal; a screen that is too small keeps all of it. */
  function LessChrome(count: nat, chrome: nat): nat {
    if count > chrome then count - chrome else count
  }

  /** The pixels along the terminal's columns, and those along its rows. */
  function Along(o: Orientation, sw: nat, sh: nat): (nat, nat) {
    if o.Normal? || o.UpsideDown? then (sw, sh) else (sh, sw)
  }

  /** The most columns and rows that setup allows, and starts with. */
  function MaxSize(o: Orientation, sw: nat, sh: nat, fw: nat, fh: nat): (nat, nat)
    requires fw > 0 && fh > 0
  {
    var (across, down) := Along(o, sw, sh);
    (LessChrome(across / fw, HORIZONTAL_CELLS + 2 * PAD_COLS),
     LessChrome(down / fh, TOP_ROWS + BOTTOM_ROWS + SAFE_MARGIN_ROWS))
  }

  /** More columns and rows fit on the screen than the chrome and the margins take. */
  predicate LargeEnough(o: Orientation, sw: nat, sh: nat, fw: nat, fh: nat)
    requires fw > 0 && fh > 0
  {
    var (across, down) := Along(o, sw, sh);
    across / fw > HORIZONTAL_CELLS + 2 * PAD_COLS && down / fh > TOP_ROWS + BOTTOM_ROWS + SAFE_MARGIN_ROWS
  }

  lemma WholeCells(size: nat, pixels: nat)
    requires size > 0
    ensures RowStart(size, pixels / size) <= pixels
  {
    ColIsRemainder(size, pixels);
    EnoughRows(size, pixels);
    CellOf(size, pixels + 1, pixels);
    hide RowStart, Row, Col;
  }

  lemma Enough(size: nat, whole: nat, count: nat, chrome: nat)
    requires whole > chrome && count <= LessChrome(whole, chrome)
    ensures RowStart(size, count) + RowStart(size, chrome) <= RowStart(size, whole)
  {
    RowsAdd(size, count, chrome);
    if count + chrome < whole { RowsOrdered(size, count + chrome, whole); }
    hide RowStart;
  }

  /** On such a screen the terminal lies, whichever way it is turned and whatever size it is given within that: nothing
      wraps around, and no pixel of it is off the screen. */
  lemma SetupFits(o: Orientation, sw: nat, sh: nat, fw: nat, fh: nat, cols: nat, rows: nat)
    requires sw < 0x1_0000_0000 && sh < 0x1_0000_0000 && fw > 0 && fh > 0 && LargeEnough(o, sw, sh, fw, fh)
    requires cols <= MaxSize(o, sw, sh, fw, fh).0 && rows <= MaxSize(o, sw, sh, fw, fh).1
    ensures var l := Border(o, sw, sh, fw, fh, cols, rows);
      NoWrap(l, cols, rows) && TerminalArea(l, cols, rows).x2 <= sw && TerminalArea(l, cols, rows).y2 <= sh
  {
    var (across, down) := Along(o, sw, sh);
    WholeCells(fw, across);
    WholeCells(fh, down);
    Enough(fw, across / fw, cols, HORIZONTAL_CELLS + 2 * PAD_COLS);
    Enough(fh, down / fh, rows, TOP_ROWS + BOTTOM_ROWS + SAFE_MARGIN_ROWS);
    Chrome(fw, cols);
    Chrome(fh, rows);
    hide RowStart, LessChrome;
    if o.Normal? || o.UpsideDown? {
      hide NoWrap, TerminalArea;
      UprightSetup(o, sw, sh, fw, fh, cols, rows);
    } else {
      hide NoWrap, TerminalArea;
      TurnedSetup(o, sw, sh, fw, fh, cols, rows);
    }
  }

  lemma Chrome(size: nat, n: nat)
    ensures RowStart(size, n + PAD_COLS) == n * size + 2 * size
    ensures RowStart(size, n + TOP_ROWS) == n * size + 5 * size
    ensures RowStart(size, PAD_COLS) == 2 * size && RowStart(size, TOP_ROWS) == 5 * size
    ensures RowStart(size, n) == n * size && RowStart(size, 18) == 18 * size && RowStart(size, 17) == 17 * size
    ensures (n + 2 * PAD_COLS) * size == n * size + 4 * size && (n + 2) * size == n * size + 2 * size
    ensures (n + TOP_ROWS + BOTTOM_ROWS) * size == n * size + 9 * size
  {
    RowStartIsProduct(size, n);
    RowStartIsProduct(size, n + PAD_COLS);
    RowStartIsProduct(size, n + TOP_ROWS);
    RowStartIsProduct(size, PAD_COLS);
    RowStartIsProduct(size, TOP_ROWS);
    RowStartIsProduct(size, 17);
    RowStartIsProduct(size, 18);
  }

  lemma UprightSetup(o: Orientation, sw: nat, sh: nat, fw: nat, fh: nat, cols: nat, rows: nat)
    requires sw < 0x1_0000_0000 && sh < 0x1_0000_0000 && fw > 0 && fh > 0 && (o.Normal? || o.UpsideDown?)
    requires cols * fw + 18 * fw <= sw && rows * fh + 17 * fh <= sh
    ensures var l := Border(o, sw, sh, fw, fh, cols, rows);
      NoWrap(l, cols, rows) && TerminalArea(l, cols, rows).x2 <= sw && TerminalArea(l, cols, rows).y2 <= sh
  {
    Chrome(fw, cols);
    Chrome(fh, rows);
    hide RowStart, TopMargin;
    var cardW, contentH := cols * fw + 4 * fw, rows * fh + 9 * fh;
    SmallStays(contentH);
    SmallStays(sw - cardW);
    var l := Border(o, sw, sh, fw, fh, cols, rows);
    SmallStays((sw - cardW) / 2 + cardW);
    SmallStays(TopMargin(sh, contentH, fh) + contentH);
    hide U32;
  }

  lemma TurnedSetup(o: Orientation, sw: nat, sh: nat, fw: nat, fh: nat, cols: nat, rows: nat)
    requires sw < 0x1_0000_0000 && sh < 0x1_0000_0000 && fw > 0 && fh > 0 && (o.Right? || o.Left?)
    requires cols * fw + 18 * fw <= sh && rows * fh + 17 * fh <= sw
    ensures var l := Border(o, sw, sh, fw, fh, cols, rows);
      NoWrap(l, cols, rows) && TerminalArea(l, cols, rows).x2 <= sw && TerminalArea(l, cols, rows).y2 <= sh
  {
    Chrome(fw, cols);
    Chrome(fh, rows);
    hide RowStart, NoWrap, TerminalArea;
    var w, h := cols * fw, rows * fh;
    Margin(sw, h + 2 * fh, h);
    Margin(sh, w, w);
    var l := Border(o, sw, sh, fw, fh, cols, rows);
    hide U32;
    TurnedLies(l, cols, rows, w, h);
  }

  lemma TurnedLies(l: Layout, cols: nat, rows: nat, w: nat, h: nat)
    requires l.sw < 0x1_0000_0000 && l.sh < 0x1_0000_0000 && l.fw > 0 && l.fh > 0 && !Upright(l)
    requires w + 18 * l.fw <= l.sh && h + 17 * l.fh <= l.sw
    requires l.offX == (l.sw - h - 2 * l.fh) / 2 && l.offY == (l.sh - w) / 2
    requires l.maxX == l.offX + h && l.maxY == l.offY + w
    requires RowStart(l.fw, cols + PAD_COLS) == w + 2 * l.fw && RowStart(l.fh, rows + TOP_ROWS) == h + 5 * l.fh
    requires RowStart(l.fw, PAD_COLS) == 2 * l.fw && RowStart(l.fh, TOP_ROWS) == 5 * l.fh
    ensures NoWrap(l, cols, rows)
    ensures TerminalArea(l, cols, rows).x2 <= l.sw && TerminalArea(l, cols, rows).y2 <= l.sh
  {
    hide RowStart;
  }

  lemma Margin(screen: nat, taken: nat, most: nat)
    requires most <= taken <= screen < 0x1_0000_0000
    ensures U32(screen - taken) == screen - taken
    ensures U32(U32(screen - taken) / 2 + most) == (screen - taken) / 2 + most
  {
    SmallStays(screen - taken);
    SmallStays((screen - taken) / 2 + most);
  }

  /** The whole area of every cell is on the screen. */
  ghost predicate AllOnScreen(l: Layout, cols: nat, rows: nat) {
    forall x: nat, y: nat :: x < cols && y < rows ==> OnScreen(l, x, y)
  }

  predicate OnScreen(l: Layout, x: nat, y: nat) {
    var (px, py) := Coordinate(l, x + PAD_COLS, y + TOP_ROWS);
    px + AreaWidth(l) <= l.sw && py + AreaHeight(l) <= l.sh
  }

  /** The exact condition: with the size that setup starts with, the terminal lies on the screen if and only if the
      screen is large enough.  On a smaller one the chrome is not taken off, and a coordinate wraps around or a cell
      lies beyond the edge. */
  lemma SetupFitsIff(o: Orientation, sw: nat, sh: nat, fw: nat, fh: nat, cols: nat, rows: nat)
    requires sw < 0x1000_0000 && sh < 0x1000_0000 && fw > 0 && fh > 0
    requires (cols, rows) == MaxSize(o, sw, sh, fw, fh) && cols > 0 && rows > 0
    ensures AllOnScreen(Border(o, sw, sh, fw, fh, cols, rows), cols, rows) <==> LargeEnough(o, sw, sh, fw, fh)
  {
    var l := Border(o, sw, sh, fw, fh, cols, rows);
    var (across, down) := Along(o, sw, sh);
    if LargeEnough(o, sw, sh, fw, fh) {
      SetupFits(o, sw, sh, fw, fh, cols, rows);
      hide Border, NoWrap, TerminalArea, OnScreen;
      forall x: nat, y: nat | x < cols && y < rows ensures OnScreen(l, x, y) { InsideIsOnScreen(l, cols, rows, x, y); }
    } else {
      hide Border, RowStart, OnScreen;
      if across / fw <= HORIZONTAL_CELLS + 2 * PAD_COLS {
        LastCell(fw, across);
        TooFewColumns(o, sw, sh, fw, fh, cols, rows);
      } else {
        LastCell(fh, down);
        TooFewRows(o, sw, sh, fw, fh, cols, rows);
      }
    }
  }

  lemma InsideIsOnScreen(l: Layout, cols: nat, rows: nat, x: nat, y: nat)
    requires NoWrap(l, cols, rows) && x < cols && y < rows
    requires TerminalArea(l, cols, rows).x2 <= l.sw && TerminalArea(l, cols, rows).y2 <= l.sh
    ensures OnScreen(l, x, y)
  {
    var r := CellRect(l, x, y);
    CellCorners(l, cols, rows, x, y);
    hide NoWrap, CellRect, Coordinate, Corners, TerminalArea, RowStart;
    assert AreaWidth(l) > 0 && AreaHeight(l) > 0 by { assert NoWrap(l, cols, rows); }
    CellsTileTheTerminal(l, cols, rows, r.x2 - 1, r.y2 - 1);
    assert Shows(l, cols, rows, x, y, r.x2 - 1, r.y2 - 1);
  }

  lemma LastCell(size: nat, pixels: nat)
    requires size > 0
    ensures pixels / size * size <= pixels < pixels / size * size + size
  {
  }

  /** An axis whose margins would be negative starts beyond the screen. */
  lemma WrappedMargin(screen: nat, size: nat, taken: nat, most: nat)
    requires screen < 0x1000_0000 && size <= screen < taken && most <= taken <= 5 * screen
    ensures var off := U32(screen - taken) / 2;
      && off == (0x1_0000_0000 + screen - taken) / 2
      && U32(off + most) == off + most
      && U32(off + 2 * size) == off + 2 * size && U32(off + 5 * size) == off + 5 * size
      && screen < off
  {
    SmallStays(0x1_0000_0000 + screen - taken);
    var off := (0x1_0000_0000 + screen - taken) / 2;
    SmallStays(off + most);
    SmallStays(off + 2 * size);
    SmallStays(off + 5 * size);
  }

  lemma NegativeWraps(v: int)
    requires -0x1_0000_0000 <= v < 0
    ensures U32(v) == 0x1_0000_0000 + v
  {
  }

  lemma Positions(size: nat, n: nat)
    requires n > 0
    ensures Pixels(2, size) == 2 * size && Pixels(3, size) == 3 * size
    ensures Pixels(5, size) == 5 * size && Pixels(6, size) == 6 * size
    ensures Pixels(n - 1 + PAD_COLS, size) == n * size + size && Pixels(n + PAD_COLS, size) == n * size + 2 * size
    ensures Pixels(n - 1 + TOP_ROWS, size) == n * size + 4 * size && Pixels(n + TOP_ROWS, size) == n * size + 5 * size
  {
  }

  lemma BorderIs(o: Orientation, sw: nat, sh: nat, fw: nat, fh: nat, cols: nat, rows: nat, w: nat, h: nat)
    requires w == cols * fw && h == rows * fh
    ensures var l := Border(o, sw, sh, fw, fh, cols, rows);
      && l.orientation == o && l.sw == sw && l.sh == sh && l.fw == fw && l.fh == fh
      && (Upright(l) ==>
           && l.offX == U32(sw - (w + 4 * fw)) / 2 && l.offY == TopMargin(sh, U32(h + 9 * fh), fh)
           && l.maxX == U32(l.offX + (w + 4 * fw)) && l.maxY == U32(l.offY + U32(h + 9 * fh)))
      && (!Upright(l) ==>
           && l.offX == U32(sw - (h + 2 * fh)) / 2 && l.offY == U32(sh - w) / 2
           && l.maxX == U32(l.offX + h) && l.maxY == U32(l.offY + w))
  {
    Chrome(fw, cols);
    Chrome(fh, rows);
    hide U32, TopMargin, RowStart;
  }

  lemma TooFewColumns(o: Orientation, sw: nat, sh: nat, fw: nat, fh: nat, cols: nat, rows: nat)
    requires sw < 0x1000_0000 && sh < 0x1000_0000 && fw > 0 && fh > 0 && cols > 0 && rows > 0
    requires cols * fw <= Along(o, sw, sh).0 < cols * fw + fw
    ensures !AllOnScreen(Border(o, sw, sh, fw, fh, cols, rows), cols, rows)
  {
    var l := Border(o, sw, sh, fw, fh, cols, rows);
    var w, h := cols * fw, rows * fh;
    AtLeastOne(cols, fw);
    BorderIs(o, sw, sh, fw, fh, cols, rows, w, h);
    hide U32, OnScreen, TopMargin, Border;
    if Upright(l) {
      WrappedMargin(sw, fw, w + 4 * fw, w + 4 * fw);
      FirstColumnIsOff(l, w);
    } else {
      Margin(sh, w, w);
      LastColumnIsOff(l, w, cols);
    }
  }

  lemma FirstColumnIsOff(l: Layout, w: nat)
    requires Upright(l) && 0 < l.fw <= w <= l.sw < w + l.fw && l.sw < 0x1000_0000
    requires l.offX == (0x1_0000_0000 + l.sw - w - 4 * l.fw) / 2 && l.maxX == l.offX + w + 4 * l.fw
    ensures !OnScreen(l, 0, 0)
  {
    Positions(l.fw, 1);
    hide Pixels;
    SmallStays(l.offX + 2 * l.fw);
    SmallStays(l.maxX - 3 * l.fw);
    hide U32;
  }

  lemma LastColumnIsOff(l: Layout, w: nat, cols: nat)
    requires !Upright(l) && 0 < l.fw <= w <= l.sh < w + l.fw && l.sh < 0x1000_0000
    requires cols > 0 && w == cols * l.fw && l.offY == (l.sh - w) / 2 && l.maxY == l.offY + w
    ensures !OnScreen(l, cols - 1, 0)
  {
    Positions(l.fw, cols);
    hide Pixels;
    SmallStays(w + l.fw + l.offY);
    NegativeWraps(l.offY - 2 * l.fw);
    hide U32;
  }

  lemma TooFewRows(o: Orientation, sw: nat, sh: nat, fw: nat, fh: nat, cols: nat, rows: nat)
    requires sw < 0x1000_0000 && sh < 0x1000_0000 && fw > 0 && fh > 0 && cols > 0 && rows > 0
    requires rows * fh <= Along(o, sw, sh).1 < rows * fh + fh
    ensures !AllOnScreen(Border(o, sw, sh, fw, fh, cols, rows), cols, rows)
  {
    var l := Border(o, sw, sh, fw, fh, cols, rows);
    var w, h := cols * fw, rows * fh;
    AtLeastOne(rows, fh);
    BorderIs(o, sw, sh, fw, fh, cols, rows, w, h);
    hide U32, OnScreen, Border;
    if Upright(l) {
      SmallStays(h + 9 * fh);
      ARowIsOff(l, h, rows);
    } else {
      WrappedMargin(sw, fh, h + 2 * fh, h);
      FirstRowIsOff(l, h);
    }
  }

  lemma ARowIsOff(l: Layout, h: nat, rows: nat)
    requires Upright(l) && 0 < l.fh <= h <= l.sh < h + l.fh && l.sh < 0x1000_0000
    requires rows > 0 && h == rows * l.fh && l.offY == 0 && l.maxY == h + 9 * l.fh
    ensures !OnScreen(l, 0, 0) || !OnScreen(l, 0, rows - 1)
  {
    Positions(l.fh, rows);
    hide Pixels;
    SmallStays(h + 4 * l.fh);
    SmallStays(h + 3 * l.fh);
    hide U32;
  }

  lemma FirstRowIsOff(l: Layout, h: nat)
    requires !Upright(l) && 0 < l.fh <= h <= l.sw < h + l.fh && l.sw < 0x1000_0000
    requires l.offX == (0x1_0000_0000 + l.sw - h - 2 * l.fh) / 2 && l.maxX == l.offX + h
    ensures !OnScreen(l, 0, 0)
  {
    Positions(l.fh, 1);
    hide Pixels;
    SmallStays(l.offX + 5 * l.fh);
    SmallStays(l.maxX - 6 * l.fh);
    hide U32;
  }

  // ---------------------------------------------------------------- where the card and the pointer are put

  /** An upright card that is no larger than the screen is centred from left to right.  From top to bottom it has at
      most a third of the free lines above it; where five lines of text are free, it has a fifth of them; and where
      three are, at least one line of text. */
  lemma CardIsPlaced(sw: nat, sh: nat, fw: nat, fh: nat, cols: nat, rows: nat)
    requires fw > 0 && fh > 0
    requires (cols + 2 * PAD_COLS) * fw <= sw < 0x1_0000_0000
    requires (rows + TOP_ROWS + BOTTOM_ROWS) * fh <= sh < 0x1_0000_0000
    ensures
      var l := Border(Normal, sw, sh, fw, fh, cols, rows);
      var right, below := sw - l.maxX, sh - l.maxY;
      var free := l.offY + below;
      && l.offX <= right <= l.offX + 1 && right + l.maxX == sw && below >= 0
      && 3 * l.offY <= free && (free >= 5 * fh ==> l.offY == free / 5) && (free >= 3 * fh ==> l.offY >= fh)
  {
    var cardW, contentH := (cols + 2 * PAD_COLS) * fw, (rows + TOP_ROWS + BOTTOM_ROWS) * fh;
    InsideMargins(sw, cardW, sh, contentH, fw, fh);
    SmallStays(sw - cardW);
    hide U32;
    MarginShare(sh, contentH, fh);
    hide TopMargin;
  }

  lemma MarginShare(sh: nat, contentH: nat, fh: nat)
    requires contentH <= sh && fh > 0
    ensures var m, free := TopMargin(sh, contentH, fh), sh - contentH;
      3 * m <= free && (free >= 5 * fh ==> m == free / 5) && (free >= 3 * fh ==> m >= fh)
  {
  }

  /** How far from the edges of the screen a sprite's centre has to be for nothing to be clamped. */
  predicate Unclamped(l: Layout, px: int, py: int) {
    && DivRoundUp(AreaWidth(l), 2) <= px <= l.maxX - DivRoundUp(AreaWidth(l), 2) < 0x1_0000_0000
    && DivRoundUp(AreaHeight(l), 2) <= py <= l.maxY - DivRoundUp(AreaHeight(l), 2) < 0x1_0000_0000
  }

  /** Where the middle of the sprite is put for a pointer at (x, y) of the terminal. */
  function Centre(l: Layout, x: nat, y: nat): (int, int) {
    var (ax, ay) := SpriteOrigin(l, x, y);
    (ax + DivRoundUp(AreaWidth(l), 2), ay + DivRoundUp(AreaHeight(l), 2))
  }

  /** And where it would be put if nothing was clamped. */
  function Aim(l: Layout, x: nat, y: nat): (int, int) {
    match l.orientation
    case Normal => (l.offX + PAD_COLS * l.fw + x, l.offY + TOP_ROWS * l.fh + y)
    case UpsideDown => (l.maxX - x, l.maxY - y)
    case Right => (l.maxX - y, l.offY + TOP_ROWS * l.fh + x)
    case Left => (l.offX + y, l.maxY - x)
  }

  lemma CentreIsAim(l: Layout, x: nat, y: nat)
    requires Unclamped(l, Aim(l, x, y).0, Aim(l, x, y).1)
    ensures Centre(l, x, y) == Aim(l, x, y)
  {
    var (px, py) := Aim(l, x, y);
    hide Edge, DivRoundUp, AreaWidth, AreaHeight, U32;
    assert SpriteOrigin(l, x, y) == (Edge(px, AreaWidth(l), l.maxX), Edge(py, AreaHeight(l), l.maxY));
    hide SpriteOrigin, Aim;
    EdgeUnclamped(px, AreaWidth(l), l.maxX);
    EdgeUnclamped(py, AreaHeight(l), l.maxY);
  }

  /** The point of the card that it covers.  It is the one that the pointer points at, two columns and five rows into
      the card, on an unrotated screen only; on the others the columns and rows of the chrome are not counted, but for
      five rows that are taken for columns on a screen turned right. */
  lemma PointerIsDisplaced(l: Layout, x: nat, y: nat)
    requires Unclamped(l, Aim(l, x, y).0, Aim(l, x, y).1)
    ensures
      var c := Centre(l, x, y);
      CardPoint(l, c.0, c.1) ==
        match l.orientation
        case Normal => (PAD_COLS * l.fw + x, TOP_ROWS * l.fh + y)
        case UpsideDown => (x - 1, y - 1)
        case Right => (TOP_ROWS * l.fh + x, y - 1)
        case Left => (x - 1, y)
  {
    hide Unclamped, Centre;
    CentreIsAim(l, x, y);
  }

  lemma EdgeUnclamped(centre: int, size: nat, max: nat)
    requires DivRoundUp(size, 2) <= centre <= max - DivRoundUp(size, 2) < 0x1_0000_0000 && centre < 0x1_0000_0000
    ensures Edge(centre, size, max) == centre - DivRoundUp(size, 2)
  {
    hide DivRoundUp;
    var half := DivRoundUp(size, 2);
    SmallStays(centre);
    SmallStays(max - half);
    SmallStays(centre - half);
    hide U32;
  }

  // ---------------------------------------------------------------- damage, pixel by pixel

  ghost predicate InSome(rs: seq<Rect>, px: int, py: int) {
    exists i: nat :: i < |rs| && InRect(rs[i], px, py)
  }

  lemma CoveredPixel(rs: seq<Rect>, c: Rect, px: int, py: int)
    requires Covered(rs, c) && InRect(c, px, py)
    ensures InSome(rs, px, py)
  {
    var i: nat :| i < |rs| && Covers(rs[i], c);
    assert InRect(rs[i], px, py);
  }

  /** Whatever the screen shows of a damaged cell lies in one of the rectangles. */
  lemma DamagedPixelsAreCovered(l: Layout, cols: nat, rows: nat, dmg: seq<bool>, rs: seq<Rect>, px: int, py: int)
    requires AllCovered(l, cols, rows + 2, dmg, rs) && !InSome(rs, px, py)
    ensures forall x: nat, y: nat :: Shows(l, cols, rows, x, y, px, py) ==> !DamagedAt(cols, dmg, x, y)
  {
    hide CellRect, InSome;
    forall x: nat, y: nat | Shows(l, cols, rows, x, y, px, py) && DamagedAt(cols, dmg, x, y) ensures false {
      assert RowCovered(l, cols, cols, y, dmg, rs);
      CoveredPixel(rs, CellRect(l, x, y), px, py);
    }
  }

  /** What the rectangles leave out need not be shown again: after an admissible step, every pixel of the terminal that
      is in none of them belongs to one cell, and that cell is the same in both buffers. */
  lemma PixelsOutsideAgree(font: Font, l: Layout, s: Screen, step: Step, rs: seq<Rect>, px: int, py: int)
    returns (x: nat, y: nat)
    requires NoWrap(l, s.cols, s.rows) && BbulkRun.Between(font, s)
    requires step.Frame? && BbulkRun.Admissible(font, l.fw, l.fh, s, step)
    requires AllCovered(l, s.cols, s.rows + 2, Composed(font, l.fw, l.fh, s, step).g.dmg, rs)
    requires InRect(TerminalArea(l, s.cols, s.rows), px, py) && !InSome(rs, px, py)
    ensures Shows(l, s.cols, s.rows, x, y, px, py)
    ensures
      var p, k := Composed(font, l.fw, l.fh, s, step), x + RowStart(s.cols, y);
      k < |p.g.back| && k < |p.front| && p.g.back[k] == p.front[k]
  {
    hide CellRect, InSome, TerminalArea, Composed, RowStart;
    hide BbulkRun.Between, BbulkRun.Admissible, AllCovered;
    OutsideTheBuffersAgree(font, l, s, step, rs);
    CellsTileTheTerminal(l, s.cols, s.rows, px, py);
    x, y :| Shows(l, s.cols, s.rows, x, y, px, py);
    if Covered(rs, CellRect(l, x, y)) { CoveredPixel(rs, CellRect(l, x, y), px, py); }
  }

  // ---------------------------------------------------------------- damage of the chrome

  /** A cell of the chrome lies within the damage rectangle above the terminal or the one below; both are as wide as the
      screen. */
  predicate ChromeDamaged(l: Layout, rows: nat, x: nat, y: nat) {
    var py, h, above, below := Coordinate(l, x, y).1, AreaHeight(l), AboveTerminal(l), BelowTerminal(l, rows);
    (above.y1 <= py && py + h <= above.y2) || (below.y1 <= py && py + h <= below.y2)
  }

  lemma SameOrder(size: nat, a: nat, b: nat)
    requires size > 0
    ensures RowStart(size, a) <= RowStart(size, b) <==> a <= b
  {
    if a < b { RowsOrdered(size, a, b); } else if b < a { RowsOrdered(size, b, a); }
  }

  /** The rectangles of the chrome suit an unrotated card only.  Upside down they miss the last of the five rows above
      the terminal, and on a card that is turned to a side they take columns for rows. */
  lemma ChromeIsDamagedIff(o: Orientation, sw: nat, sh: nat, fw: nat, fh: nat, cols: nat, rows: nat, x: nat, y: nat)
    requires sw < 0x1_0000_0000 && sh < 0x1_0000_0000 && fw > 0 && fh > 0 && LargeEnough(o, sw, sh, fw, fh)
    requires cols <= MaxSize(o, sw, sh, fw, fh).0 && 0 < rows <= MaxSize(o, sw, sh, fw, fh).1
    requires sh + RowStart(fw, rows + TOP_ROWS) < 0x1_0000_0000
    requires x < cols + 2 * PAD_COLS && y < rows + TOP_ROWS + BOTTOM_ROWS && !(TOP_ROWS <= y < rows + TOP_ROWS)
    ensures ChromeDamaged(Border(o, sw, sh, fw, fh, cols, rows), rows, x, y) <==>
      match o
      case Normal => true
      case UpsideDown => y != TOP_ROWS - 1
      case Right => x < TOP_ROWS || x >= rows + TOP_ROWS
      case Left => x + TOP_ROWS >= cols || x + 1 + TOP_ROWS + rows <= cols
  {
    var l := Border(o, sw, sh, fw, fh, cols, rows);
    CardOfSetup(o, sw, sh, fw, fh, cols, rows);
    hide RowStart, LessChrome, Border, ChromeDamaged;
    if Upright(l) { UprightChrome(l, rows, x, y); } else { TurnedChrome(l, cols, rows, x, y); }
  }

  /** Down the screen, an upright card lies on it as a whole, and a turned one with as much space around it as its
      chrome would take. */
  lemma CardOfSetup(o: Orientation, sw: nat, sh: nat, fw: nat, fh: nat, cols: nat, rows: nat)
    requires sw < 0x1_0000_0000 && sh < 0x1_0000_0000 && fw > 0 && fh > 0 && LargeEnough(o, sw, sh, fw, fh)
    requires cols <= MaxSize(o, sw, sh, fw, fh).0 && rows <= MaxSize(o, sw, sh, fw, fh).1
    ensures var l := Border(o, sw, sh, fw, fh, cols, rows);
      && l.orientation == o && l.sh == sh && l.fw == fw && l.fh == fh
      && (Upright(l) ==> l.offY + RowStart(fh, rows + TOP_ROWS + BOTTOM_ROWS) == l.maxY <= sh)
      && (!Upright(l) ==>
           && l.offY + RowStart(fw, cols) == l.maxY && l.maxY + RowStart(fw, 2 * PAD_COLS) <= sh
           && RowStart(fw, 2 * PAD_COLS) <= l.offY)
  {
    hide RowStart, LessChrome, Border, TopMargin, U32;
    var (across, down) := Along(o, sw, sh);
    var w, h := RowStart(fw, cols), RowStart(fh, rows);
    WholeCells(fw, across);
    WholeCells(fh, down);
    Enough(fw, across / fw, cols, HORIZONTAL_CELLS + 2 * PAD_COLS);
    Enough(fh, down / fh, rows, TOP_ROWS + BOTTOM_ROWS + SAFE_MARGIN_ROWS);
    RowStartIsProduct(fw, cols);
    RowStartIsProduct(fh, rows);
    BorderIs(o, sw, sh, fw, fh, cols, rows, w, h);
    FewRows(fw);
    FewRows(fh);
    RowsAdd(fh, rows, TOP_ROWS + BOTTOM_ROWS);
    if o.Normal? || o.UpsideDown? { MarginAbove(sh, h + 9 * fh, fh); } else { Margin(sh, w, w); }
  }

  lemma FewRows(size: nat)
    ensures RowStart(size, 4) == 4 * size && RowStart(size, 9) == 9 * size
    ensures RowStart(size, 17) == 17 * size && RowStart(size, 18) == 18 * size
  {
    RowStartIsProduct(size, 4);
    RowStartIsProduct(size, 9);
    RowStartIsProduct(size, 17);
    RowStartIsProduct(size, 18);
  }

  lemma MarginAbove(sh: nat, contentH: nat, fh: nat)
    requires contentH <= sh < 0x1_0000_0000
    ensures var off := TopMargin(sh, U32(contentH), fh);
      U32(contentH) == contentH && U32(off + contentH) == off + contentH <= sh
  {
    SmallStays(contentH);
    hide TopMargin, U32;
    SmallStays(TopMargin(sh, contentH, fh) + contentH);
  }

  /** What starts at `start` and is of this size lies in one of the two bands. */
  predicate InBands(off: nat, size: nat, rows: nat, sh: nat, start: int) {
    || start + size <= off + RowStart(size, TOP_ROWS)
    || (off + RowStart(size, rows + TOP_ROWS) <= start && start + size <= sh)
  }

  lemma BandsByNumber(off: nat, size: nat, rows: nat, sh: nat, a: nat)
    requires size > 0 && off + RowStart(size, a + 1) <= sh
    ensures InBands(off, size, rows, sh, off + RowStart(size, a)) <==> a < TOP_ROWS || rows + TOP_ROWS <= a
  {
    SameOrder(size, a + 1, TOP_ROWS);
    SameOrder(size, rows + TOP_ROWS, a);
    RowsOrdered(size, a, a + 1);
    hide RowStart;
  }

  lemma DamagedByBands(l: Layout, rows: nat, x: nat, y: nat)
    requires l.offY + RowStart(AreaHeight(l), rows + TOP_ROWS) < 0x1_0000_0000
    ensures ChromeDamaged(l, rows, x, y) <==> InBands(l.offY, AreaHeight(l), rows, l.sh, Coordinate(l, x, y).1)
  {
    var size := AreaHeight(l);
    RowsAdd(size, rows, TOP_ROWS);
    RowStartIsProduct(size, TOP_ROWS);
    RowStartIsProduct(size, rows + TOP_ROWS);
    hide RowStart, U32, Coordinate, AreaHeight;
    SmallStays(l.offY + RowStart(size, TOP_ROWS));
    SmallStays(l.offY + RowStart(size, rows + TOP_ROWS));
  }

  lemma UprightChrome(l: Layout, rows: nat, x: nat, y: nat)
    requires Upright(l) && l.fh > 0 && l.offY + RowStart(l.fh, rows + TOP_ROWS + BOTTOM_ROWS) == l.maxY <= l.sh
    requires l.sh < 0x1_0000_0000 && rows > 0
    requires y < rows + TOP_ROWS + BOTTOM_ROWS && !(TOP_ROWS <= y < rows + TOP_ROWS)
    ensures ChromeDamaged(l, rows, x, y) <==> l.orientation.Normal? || y != TOP_ROWS - 1
  {
    hide RowStart, U32, Pixels, ChromeDamaged, InBands;
    var all := rows + TOP_ROWS + BOTTOM_ROWS;
    RowsAdd(l.fh, rows + TOP_ROWS, BOTTOM_ROWS);
    RowsAdd(l.fh, y + 1, all - 1 - y);
    DamagedByBands(l, rows, x, y);
    if l.orientation.Normal? {
      Ascending(l.fh, y, l.offY);
      BandsByNumber(l.offY, l.fh, rows, l.sh, y);
    } else {
      Descending(l.fh, y, l.maxY);
      RowsAdd(l.fh, all - y, y);
      BandsByNumber(l.offY, l.fh, rows, l.sh, all - 1 - y);
    }
  }

  lemma TurnedChrome(l: Layout, cols: nat, rows: nat, x: nat, y: nat)
    requires !Upright(l) && l.fw > 0 && l.sh + RowStart(l.fw, rows + TOP_ROWS) < 0x1_0000_0000
    requires l.offY + RowStart(l.fw, cols) == l.maxY && l.maxY + RowStart(l.fw, 2 * PAD_COLS) <= l.sh
    requires RowStart(l.fw, 2 * PAD_COLS) <= l.offY && x < cols + 2 * PAD_COLS
    ensures ChromeDamaged(l, rows, x, y) <==>
      if l.orientation.Right? then x < TOP_ROWS || x >= rows + TOP_ROWS
      else x + TOP_ROWS >= cols || x + 1 + TOP_ROWS + rows <= cols
  {
    hide RowStart, U32, Pixels, ChromeDamaged, InBands;
    RowsAdd(l.fw, cols, 2 * PAD_COLS);
    RowsAdd(l.fw, x + 1, cols + 2 * PAD_COLS - 1 - x);
    DamagedByBands(l, rows, x, y);
    if l.orientation.Right? {
      Ascending(l.fw, x, l.offY);
      BandsByNumber(l.offY, l.fw, rows, l.sh, x);
    } else {
      Descending(l.fw, x, l.maxY);
      if x < cols {
        RowsAdd(l.fw, cols - 1 - x, x + 1);
        RowsAdd(l.fw, cols - x, x);
        BandsByNumber(l.offY, l.fw, rows, l.sh, cols - 1 - x);
      } else {
        RowsAdd(l.fw, x + 1 - cols, cols);
        BeforeBands(l.offY, l.fw, rows, l.sh, l.maxY - RowStart(l.fw, x + 1));
      }
    }
  }

  lemma BeforeBands(off: nat, size: nat, rows: nat, sh: nat, start: int)
    requires start <= off
    ensures InBands(off, size, rows, sh, start)
  {
    RowsOrdered(size, 0, TOP_ROWS);
  }

  // ---------------------------------------------------------------- glyphs on the turned card

  /** Where the glyph of the cell at (x, y) is drawn: a turned wide glyph starts at the second of its cells when that is
      nearer to the corner of the screen. */
  function GlyphOrigin(l: Layout, x: nat, y: nat, wide: bool, lastCol: bool): (nat, nat) {
    var from := if wide && !lastCol && (l.orientation.Left? || l.orientation.UpsideDown?) then x + 1 else x;
    Coordinate(l, from + PAD_COLS, y + TOP_ROWS)
  }

  /** Where column `i` of row `j` of the glyph is in the bitmap that is drawn. */
  function Drawn(l: Layout, g: Rotate.Glyph, i: nat, j: nat): (nat, nat)
    requires i < g.width && j < g.height
  {
    match l.orientation
    case Normal => (i, j)
    case Right => Rotate.Target(g, Rotate.Right, i, j)
    case UpsideDown => Rotate.Target(g, Rotate.UpsideDown, i, j)
    case Left => Rotate.Target(g, Rotate.Left, i, j)
  }

  /** Turning the glyph and placing it on the turned card comes to the same as turning the whole upright card: each of
      its pixels lands where the card shows it. */
  lemma GlyphTurnsWithTheCard(l: Layout, cols: nat, rows: nat, x: nat, y: nat, g: Rotate.Glyph, i: nat, j: nat)
    requires NoWrap(l, cols, rows) && x < cols && y < rows && i < g.width && j < g.height == l.fh
    requires g.width == l.fw || (g.width == 2 * l.fw && x + 1 < cols)
    ensures
      var (ox, oy), (tx, ty) := GlyphOrigin(l, x, y, g.width > l.fw, x + 1 == cols), Drawn(l, g, i, j);
      CardPoint(l, ox + tx, oy + ty) == (RowStart(l.fw, x + PAD_COLS) + i, RowStart(l.fh, y + TOP_ROWS) + j)
  {
    hide NoWrap, RowStart, CellRect, Coordinate;
    GlyphStart(l, cols, rows, x, y);
    if x + 1 < cols {
      RowsOrdered(l.fw, x + PAD_COLS, x + 1 + PAD_COLS);
      GlyphStart(l, cols, rows, x + 1, y);
    }
  }

  lemma GlyphStart(l: Layout, cols: nat, rows: nat, x: nat, y: nat)
    requires NoWrap(l, cols, rows) && x < cols && y < rows
    ensures
      var (cx, cy), u, v := Coordinate(l, x + PAD_COLS, y + TOP_ROWS), RowStart(l.fw, x + PAD_COLS),
        RowStart(l.fh, y + TOP_ROWS);
      match l.orientation
      case Normal => CardPoint(l, cx, cy) == (u, v)
      case UpsideDown => CardPoint(l, cx, cy) == (u + l.fw - 1, v + l.fh - 1)
      case Right => CardPoint(l, cx, cy) == (u, v + l.fh - 1)
      case Left => CardPoint(l, cx, cy) == (u + l.fw - 1, v)
  {
    CellCorners(l, cols, rows, x, y);
    hide NoWrap, RowStart, CellRect, Coordinate;
  }

  /** In the last column a wide glyph is cut to the size of one cell.  What is left is its first half on an unrotated
      screen and on one turned right, and its second half on the other two. */
  lemma CutGlyphShowsFirstHalfIff(l: Layout, cols: nat, rows: nat, y: nat, g: Rotate.Glyph, i: nat, j: nat)
    requires NoWrap(l, cols, rows) && cols > 0 && y < rows && i < g.width == 2 * l.fw && j < g.height == l.fh
    ensures
      var (ox, oy), (tx, ty) := GlyphOrigin(l, cols - 1, y, true, true), Drawn(l, g, i, j);
      var first := l.orientation.Normal? || l.orientation.Right?;
      && (tx < AreaWidth(l) && ty < AreaHeight(l) <==> (i < l.fw <==> first))
      && CardPoint(l, ox + tx, oy + ty) ==
        (RowStart(l.fw, cols - 1 + PAD_COLS) + i - (if first then 0 else l.fw), RowStart(l.fh, y + TOP_ROWS) + j)
  {
    hide NoWrap, RowStart, CellRect, Coordinate;
    GlyphStart(l, cols, rows, cols - 1, y);
  }
}
