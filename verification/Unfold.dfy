/** Rendering a bitmap of the built-in font: bits are unfolded to bytes, scaled, and given attributes. */
module Unfold {
  import opened Memory
  import opened Raster

  const LINES: nat := 16
  const BITS: nat := 8

  /** A glyph of one or two bytes a line, and how to draw it; the font is `8 * scale` by `16 * scale`. */
  datatype Job = Job(data: seq<bv8>, double: bool, scale: nat, bold: bool, underline: bool)

  predicate Sound(job: Job) {
    job.scale > 0 && |job.data| >= LINES * if job.double then 2 else 1
  }

  /** The width of what one byte of the bitmap gives. */
  function Half(job: Job): nat {
    BITS * job.scale
  }

  function Width(job: Job): nat {
    if job.double then Half(job) + Half(job) else Half(job)
  }

  function Height(job: Job): nat {
    LINES * job.scale
  }

  /** Bit `k`, counted from the left. */
  predicate Lit(c: bv8, k: nat)
    requires k < BITS
  {
    c & (1 << (7 - k)) != 0
  }

  function ApplyAttr(c: bv8, job: Job, last: bool): bv8 {
    var d := if job.bold then c | (c >> 1) else c;
    if job.underline && last then 0xff else d
  }

  function Unfolded(lit: bool): Byte {
    if lit then 255 else 0
  }

  /** The byte of line `i` for the left or the right half. */
  function ByteOf(job: Job, i: nat, right: bool): bv8
    requires Sound(job) && i < LINES && (right ==> job.double)
  {
    job.data[if !job.double then i else if right then 2 * i + 1 else 2 * i]
  }

  /** Whether column `col` of line `i` of the unscaled glyph is to be drawn. */
  predicate Drawn(job: Job, col: nat, i: nat)
    requires Sound(job) && i < LINES && col < if job.double then 2 * BITS else BITS
  {
    var right := col >= BITS;
    Lit(ApplyAttr(ByteOf(job, i, right), job, i + 1 == LINES), if right then col - BITS else col)
  }

  // ---------------------------------------------------------------- what the attributes mean

  /** Without attributes, the columns of a line are the bits of its bytes. */
  predicate Inked(job: Job, col: nat, i: nat)
    requires Sound(job) && i < LINES && col < if job.double then 2 * BITS else BITS
  {
    Lit(ByteOf(job, i, col >= BITS), if col >= BITS then col - BITS else col)
  }

  /** A line of a double-width glyph is a word of sixteen bits, the first of its two bytes on the left; a line of
      another one is a byte. */
  lemma LinesAreWords(job: Job, col: nat, i: nat)
    requires Sound(job) && i < LINES && col < if job.double then 2 * BITS else BITS
    ensures job.double ==>
      (Inked(job, col, i) <==>
        ((job.data[2 * i] as bv16 << 8) | job.data[2 * i + 1] as bv16) & (0x8000 >> col) != 0)
    ensures !job.double ==> (Inked(job, col, i) <==> job.data[i] & (0x80 >> col) != 0)
  {
    if job.double { WordBits(job.data[2 * i], job.data[2 * i + 1], col); } else { WordBits(job.data[i], 0, col); }
  }

  lemma WordBits(l: bv8, r: bv8, k: nat)
    requires k < 2 * BITS
    ensures ((l as bv16 << 8) | r as bv16) & (0x8000 >> k) != 0 <==> if k < BITS then Lit(l, k) else Lit(r, k - BITS)
    ensures k < BITS ==> (Lit(l, k) <==> l & (0x80 >> k) != 0)
  {
    if k == 0 {} else if k == 1 {} else if k == 2 {} else if k == 3 {}
    else if k == 4 {} else if k == 5 {} else if k == 6 {} else if k == 7 {}
    else if k == 8 {} else if k == 9 {} else if k == 10 {} else if k == 11 {}
    else if k == 12 {} else if k == 13 {} else if k == 14 {} else {}
  }

  lemma BoldBits(c: bv8, k: nat)
    requires k < BITS
    ensures Lit(c | (c >> 1), k) <==> Lit(c, k) || (k > 0 && Lit(c, k - 1))
    ensures Lit(0xff, k)
  {
    if k == 0 {} else if k == 1 {} else if k == 2 {} else if k == 3 {}
    else if k == 4 {} else if k == 5 {} else if k == 6 {} else {}
  }

  /** Underlining fills the last line.  Bold thickens every stroke by one column to the right, except
      across the middle of a double-width glyph, whose halves are thickened separately. */
  lemma AttributesMean(job: Job, col: nat, i: nat)
    requires Sound(job) && i < LINES && col < if job.double then 2 * BITS else BITS
    ensures Drawn(job, col, i) <==>
      || (job.underline && i == LINES - 1)
      || Inked(job, col, i)
      || (job.bold && col != 0 && col != BITS && Inked(job, col - 1, i))
  {
    var right := col >= BITS;
    BoldBits(ByteOf(job, i, right), if right then col - BITS else col);
  }

  // ---------------------------------------------------------------- the loops

  /** What pixel (x, y) of the scaled glyph shows. */
  function Ideal(job: Job, x: nat, y: nat): Byte
    requires Sound(job) && x < Width(job) && y < Height(job)
  {
    Scaled(job, x, y);
    Unfolded(Drawn(job, Row(job.scale, x), Row(job.scale, y)))
  }

  /** `n` times `scale` is where row `n` starts. */
  lemma ScaledRows(scale: nat, n: nat)
    ensures RowStart(scale, n) == n * scale
  {
    RowStartIsProduct(scale, n);
  }

  lemma Scaled(job: Job, x: nat, y: nat)
    requires Sound(job) && x < Width(job) && y < Height(job)
    ensures Row(job.scale, x) < (if job.double then 2 * BITS else BITS) && Row(job.scale, y) < LINES
  {
    ScaledRows(job.scale, 2 * BITS);
    ScaledRows(job.scale, BITS);
    ScaledRows(job.scale, LINES);
    CellOf(job.scale, if job.double then 2 * BITS else BITS, x);
    CellOf(job.scale, LINES, y);
  }

  /** The rows of the buffer before `n` show the glyph. */
  ghost predicate RowsDone(job: Job, buf: seq<Byte>, n: nat)
    requires Sound(job)
  {
    n <= Height(job) && forall x: nat, y: nat :: x < Width(job) && y < n ==> PixelDone(job, buf, x, y)
  }

  ghost predicate PixelDone(job: Job, buf: seq<Byte>, x: nat, y: nat)
    requires Sound(job) && x < Width(job) && y < Height(job)
  {
    x + RowStart(Width(job), y) < |buf| && buf[x + RowStart(Width(job), y)] == Ideal(job, x, y)
  }

  /** Eight bits become eight runs of `scale` bytes. */
  method UnfoldByte(buf: array<Byte>, off: nat, c: bv8, scale: nat)
    requires scale > 0 && off + BITS * scale <= buf.Length
    modifies buf
    ensures forall j: nat :: j < BITS * scale ==>
      Row(scale, j) < BITS && buf[off + j] == Unfolded(Lit(c, Row(scale, j)))
    ensures forall k :: 0 <= k < buf.Length && !(off <= k < off + BITS * scale) ==> buf[k] == old(buf[k])
  {
    hide Row, Lit;
    var j := 0;
    while j < BITS * scale
      invariant 0 <= j <= BITS * scale
      invariant forall i: nat :: i < j ==> Row(scale, i) < BITS && buf[off + i] == Unfolded(Lit(c, Row(scale, i)))
      invariant forall k :: 0 <= k < buf.Length && !(off <= k < off + j) ==> buf[k] == old(buf[k])
    {
      ScaledRows(scale, BITS);
      CellOf(scale, BITS, j);
      ColIsRemainder(scale, j);
      var k := j / scale;
      buf[off + j] := Unfolded(Lit(c, k));
      j := j + 1;
    }
  }

  /** The first row of line `i`, from one byte or two. */
  method UnfoldLine(job: Job, buf: array<Byte>, i: nat, y: nat, off: nat)
    requires Sound(job) && i < LINES && y == RowStart(job.scale, i) && off == RowStart(Width(job), y)
    requires y < Height(job) && off + Width(job) <= buf.Length && RowsDone(job, buf[..], y)
    modifies buf
    ensures RowsDone(job, buf[..], y + 1)
  {
    hide Row, RowStart, Lit, Ideal, Width, ByteOf, ApplyAttr;
    ghost var b := buf[..];
    var last := i + 1 == LINES;
    WidthIs(job);
    UnfoldByte(buf, off, ApplyAttr(ByteOf(job, i, false), job, last), job.scale);
    if job.double {
      UnfoldByte(buf, off + Half(job), ApplyAttr(ByteOf(job, i, true), job, last), job.scale);
    }
    forall x: nat | x < Width(job) ensures PixelDone(job, buf[..], x, y) {
      IdealIs(job, x, y, i);
    }
    RowsKept(job, b, buf[..], y, off);
  }

  lemma WidthIs(job: Job)
    ensures Width(job) == if job.double then Half(job) + Half(job) else Half(job)
    ensures Half(job) == BITS * job.scale
  {
  }

  /** The pixels of the row of line `i` that starts at `y`, in terms of the two bytes. */
  lemma IdealIs(job: Job, x: nat, y: nat, i: nat)
    requires Sound(job) && x < Width(job) && y < Height(job) && i < LINES && y == RowStart(job.scale, i)
    ensures var right := x >= Half(job);
      var j := if right then x - Half(job) else x;
      && (right ==> job.double) && Row(job.scale, j) < BITS
      && Ideal(job, x, y) == Unfolded(Lit(ApplyAttr(ByteOf(job, i, right), job, i + 1 == LINES), Row(job.scale, j)))
  {
    var right := x >= Half(job);
    var j: nat := if right then x - Half(job) else x;
    ScaledRows(job.scale, BITS);
    Scaled(job, x, y);
    RowAndColumn(job.scale, 0, i);
    hide RowStart, Row, Lit, ApplyAttr, ByteOf;
    CellOf(job.scale, BITS, j);
    if right { RowShift(job.scale, j, BITS); }
  }

  /** Rows already done are not touched by what is written behind them. */
  lemma RowsKept(job: Job, b: seq<Byte>, buf: seq<Byte>, y: nat, off: nat)
    requires Sound(job) && y < Height(job) && RowsDone(job, b, y) && |buf| == |b| &&
      off == RowStart(Width(job), y) <= |buf|
    requires forall k :: 0 <= k < off ==> buf[k] == b[k]
    requires forall x: nat :: x < Width(job) ==> PixelDone(job, buf, x, y)
    ensures RowsDone(job, buf, y + 1)
  {
    hide RowStart, Ideal, Width;
    forall x: nat, r: nat | x < Width(job) && r < y + 1 ensures PixelDone(job, buf, x, r) {
      if r < y {
        assert PixelDone(job, b, x, r);
        CellInside(Width(job), y, x, r);
      }
    }
  }

  /** One more copy of the first row of line `i`. */
  method RepeatLine(job: Job, buf: array<Byte>, i: nat, first: nat, y: nat)
    requires Sound(job) && i < LINES && first == RowStart(job.scale, i) && first < y < first + job.scale &&
      y < Height(job)
    requires buf.Length == RowStart(Width(job), Height(job)) && RowsDone(job, buf[..], y)
    modifies buf
    ensures RowsDone(job, buf[..], y + 1)
  {
    hide Row, RowStart, Ideal, Width, Height;
    ghost var b := buf[..];
    var w := Width(job);
    RowsOrdered(w, y, Height(job));
    RowsOrdered(w, first, Height(job));
    var src, off := RowStart(w, first), RowStart(w, y);
    MemCopy(buf, off, buf[src..src + w]);
    forall x: nat | x < w ensures PixelDone(job, buf[..], x, y) {
      assert PixelDone(job, b, x, first);
      SameLine(job, x, i, first, y);
      assert buf[..off + w][off + x] == b[src..src + w][x];
    }
    forall k | 0 <= k < off ensures buf[..][k] == b[k] { assert buf[..off + w][k] == b[..off][k]; }
    RowsKept(job, b, buf[..], y, off);
  }

  lemma SameLine(job: Job, x: nat, i: nat, first: nat, y: nat)
    requires Sound(job) && i < LINES && first == RowStart(job.scale, i) && first <= y < first + job.scale &&
      y < Height(job) && x < Width(job)
    ensures Ideal(job, x, y) == Ideal(job, x, first)
  {
    RowAndColumn(job.scale, 0, i);
    RowAndColumn(job.scale, y - first, i);
  }

  /** The whole glyph: every pixel shows the column and the line of the bitmap it was scaled from. */
  method NewGlyph(job: Job) returns (buf: array<Byte>)
    requires Sound(job)
    ensures buf.Length == RowStart(Width(job), Height(job))
    ensures forall x: nat, y: nat :: x < Width(job) && y < Height(job) ==> PixelDone(job, buf[..], x, y)
  {
    hide Row, RowStart, Ideal, Width, PixelDone;
    buf := new Byte[RowStart(Width(job), Height(job))](_ => 0);
    ScaledRows(job.scale, 0);
    ScaledRows(job.scale, LINES);
    var i := 0;
    while i < LINES
      invariant 0 <= i <= LINES && RowStart(job.scale, i) <= Height(job) &&
        RowsDone(job, buf[..], RowStart(job.scale, i))
    {
      var first := RowStart(job.scale, i);
      RowsOrdered(job.scale, i, LINES);
      RowsOrdered(Width(job), first, Height(job));
      UnfoldLine(job, buf, i, first, RowStart(Width(job), first));
      var k := 1;
      while k < job.scale
        invariant 1 <= k <= job.scale && RowsDone(job, buf[..], first + k)
      {
        RepeatLine(job, buf, i, first, first + k);
        k := k + 1;
      }
      i := i + 1;
    }
  }
}
