/** Alpha blending of glyph bitmaps into the frame buffer. */
module Blend {
  import opened Memory
  import opened Raster

  datatype Colour = Colour(r: Byte, g: Byte, b: Byte)

  /** The part of the bitmap to draw, where to, and between which colours. */
  datatype Request = Request(x: nat, y: nat, w: nat, h: nat, mask: seq<Byte>, maskW: nat, maskH: nat, fg: Colour,
      bg: Colour)

  /** The visible part of the frame buffer; its rows are `pitch` pixels apart. */
  datatype Surface = Surface(width: nat, height: nat, pitch: nat)

  predicate Fits(s: Surface, req: Request) {
    && req.x < UINT32 && req.y < UINT32 && req.w < UINT32 && req.h < UINT32
    && s.width <= s.pitch && s.pitch < UINT32 && s.height < UINT32
    && |req.mask| == RowStart(req.maskW, req.maskH) && req.maskW < UINT32 && req.maskH < UINT32
  }

  // ---------------------------------------------------------------- the mixture

  /** The weighted mean over 255, rounded to the nearest integer. */
  function Nearest(t: nat): nat {
    (2 * t + 255) / 510
  }

  /** The division by 255 without dividing. */
  function Shifted(t: nat): nat {
    var u := t + 0x80;
    (u + u / 256) / 256
  }

  /** It is the rounded quotient for every sum that two channels can give. */
  lemma ShiftDivides(t: nat)
    requires t <= 255 * 255
    ensures Shifted(t) == Nearest(t) <= 255
    ensures -127 <= t - 255 * Shifted(t) <= 127
  {
    var u := t + 0x80;
    var q, s := u / 256, u % 256;
    var r := (u + q) / 256;
    assert u == 256 * q + s && q <= 254;
    assert r == if q + s < 256 then q else q + 1;
    assert -127 <= t - 255 * r <= 127;
  }

  lemma WeightsInRange(fg: Byte, bg: Byte, alpha: Byte)
    ensures 0 <= fg * alpha && 0 <= bg * (255 - alpha) && fg * alpha + bg * (255 - alpha) <= 255 * 255
    ensures alpha == 0 ==> fg * alpha + bg * (255 - alpha) == 255 * bg
    ensures alpha == 255 ==> fg * alpha + bg * (255 - alpha) == 255 * fg
  {
    Product(fg, 255, alpha);
    Product(bg, 255, 255 - alpha);
    assert fg * alpha <= 255 * alpha && bg * (255 - alpha) <= 255 * (255 - alpha);
  }

  lemma Product(a: nat, b: nat, c: nat)
    requires a <= b
    ensures 0 <= a * c <= b * c
  {
  }

  /** 255 times the mean of the two channels. */
  function Weighted(fg: Byte, bg: Byte, alpha: Byte): (t: nat)
    ensures t <= 255 * 255 && (alpha == 0 ==> t == 255 * bg) && (alpha == 255 ==> t == 255 * fg)
  {
    WeightsInRange(fg, bg, alpha);
    fg * alpha + bg * (255 - alpha)
  }

  function Mixed(fg: Byte, bg: Byte, alpha: Byte): nat {
    Nearest(Weighted(fg, bg, alpha))
  }

  /** The ends of the scale need no mixing, and every mixture is a channel value. */
  lemma MixedAtEnds(fg: Byte, bg: Byte, alpha: Byte)
    ensures Mixed(fg, bg, alpha) <= 255
    ensures alpha == 0 ==> Mixed(fg, bg, alpha) == bg
    ensures alpha == 255 ==> Mixed(fg, bg, alpha) == fg
  {
    hide Weighted;
    ShiftDivides(Weighted(fg, bg, alpha));
  }

  /** The mixture is the integer nearest to the mean that weighs the foreground with the mask and the background with
      the rest of 255; so it lies between the two channels, and exchanging them inverts the mask. */
  lemma MixedIsNearest(fg: Byte, bg: Byte, alpha: Byte)
    ensures -127 <= alpha * fg + (255 - alpha) * bg - 255 * Mixed(fg, bg, alpha) <= 127
    ensures (fg <= Mixed(fg, bg, alpha) <= bg) || (bg <= Mixed(fg, bg, alpha) <= fg)
    ensures Mixed(fg, bg, alpha) == Mixed(bg, fg, 255 - alpha)
  {
    WeightedIs(fg, bg, alpha);
    WeightedIs(bg, fg, 255 - alpha);
    WeightedBetween(fg, bg, alpha);
    ShiftDivides(Weighted(fg, bg, alpha));
    hide Weighted;
  }

  lemma WeightedIs(fg: Byte, bg: Byte, alpha: Byte)
    ensures Weighted(fg, bg, alpha) == alpha * fg + (255 - alpha) * bg
  {
  }

  lemma WeightedBetween(fg: Byte, bg: Byte, alpha: Byte)
    ensures (255 * fg <= Weighted(fg, bg, alpha) <= 255 * bg) || (255 * bg <= Weighted(fg, bg, alpha) <= 255 * fg)
  {
    if fg <= bg {
      Product(fg, bg, alpha);
      Product(fg, bg, 255 - alpha);
    } else {
      Product(bg, fg, alpha);
      Product(bg, fg, 255 - alpha);
    }
  }

  function Word(r: nat, g: nat, b: nat): nat {
    r * 0x1_0000 + g * 0x100 + b
  }

  /** The pixel shown for one value of the mask. */
  function Pixel(fg: Colour, bg: Colour, alpha: Byte): nat {
    Word(Mixed(fg.r, bg.r, alpha), Mixed(fg.g, bg.g, alpha), Mixed(fg.b, bg.b, alpha))
  }

  lemma WordHolds(r: nat, g: nat, b: nat)
    requires r < 256 && g < 256 && b < 256
    ensures Word(r, g, b) / 0x1_0000 == r && Word(r, g, b) / 0x100 % 0x100 == g && Word(r, g, b) % 0x100 == b
  {
    var w := Word(r, g, b);
    LowByte(r * 0x100 + g, b, w);
    LowByte(r, g, w / 0x100);
    assert w / 0x1_0000 == w / 0x100 / 0x100;
  }

  lemma LowByte(high: nat, low: nat, w: nat)
    requires low < 256 && w == high * 0x100 + low
    ensures w / 0x100 == high && w % 0x100 == low
  {
  }

  /** Red is the third byte of the pixel, green the second, blue the lowest. */
  lemma PixelHoldsChannels(fg: Colour, bg: Colour, alpha: Byte)
    ensures
      var p := Pixel(fg, bg, alpha);
      && p / 0x1_0000 == Mixed(fg.r, bg.r, alpha) && p / 0x100 % 0x100 == Mixed(fg.g, bg.g, alpha)
      && p % 0x100 == Mixed(fg.b, bg.b, alpha)
  {
    hide Mixed, Word;
    MixedAtEnds(fg.r, bg.r, alpha);
    MixedAtEnds(fg.g, bg.g, alpha);
    MixedAtEnds(fg.b, bg.b, alpha);
    WordHolds(Mixed(fg.r, bg.r, alpha), Mixed(fg.g, bg.g, alpha), Mixed(fg.b, bg.b, alpha));
  }

  method BlendPixel(fg: Colour, bg: Colour, alpha: Byte) returns (out: nat)
    ensures out == Pixel(fg, bg, alpha) && out < 0x100_0000
  {
    hide Mixed;
    MixedAtEnds(fg.r, bg.r, alpha);
    MixedAtEnds(fg.g, bg.g, alpha);
    MixedAtEnds(fg.b, bg.b, alpha);
    if alpha == 0 { return Word(bg.r, bg.g, bg.b); }
    if alpha == 255 { return Word(fg.r, fg.g, fg.b); }
    var r := BlendChannel(fg.r, bg.r, alpha);
    var g := BlendChannel(fg.g, bg.g, alpha);
    var b := BlendChannel(fg.b, bg.b, alpha);
    out := Word(r, g, b);
  }

  method BlendChannel(fg: Byte, bg: Byte, alpha: Byte) returns (c: nat)
    ensures c == Mixed(fg, bg, alpha)
  {
    hide Weighted;
    c := Weighted(fg, bg, alpha);
    ShiftDivides(c);
    c := c + 0x80;
    c := (c + c / 256) / 256;
  }

  // ---------------------------------------------------------------- the request on the screen

  function Min(a: nat, b: nat): nat {
    if a < b then a else b
  }

  /** The request starts on the screen, and its ends are no numbers beyond 32 bits. */
  predicate Accepted(s: Surface, req: Request) {
    && req.x < s.width && req.x + Min(req.w, req.maskW) < UINT32
    && req.y < s.height && req.y + Min(req.h, req.maskH) < UINT32
  }

  /** Pixel (px, py) belongs to the request, to its bitmap and to the screen. */
  predicate Inside(s: Surface, req: Request, px: nat, py: nat) {
    && req.x <= px < s.width && px - req.x < req.w && px - req.x < req.maskW
    && req.y <= py < s.height && py - req.y < req.h && py - req.y < req.maskH
  }

  function MaskAt(req: Request, i: nat, j: nat): Byte
    requires |req.mask| == RowStart(req.maskW, req.maskH) && i < req.maskW && j < req.maskH
  {
    CellInside(req.maskW, req.maskH, i, j);
    req.mask[i + RowStart(req.maskW, j)]
  }

  /** What pixel (px, py) is to show, if it showed `was`. */
  function Shown(s: Surface, req: Request, px: nat, py: nat, was: nat): nat
    requires Fits(s, req)
  {
    if Inside(s, req, px, py) then Pixel(req.fg, req.bg, MaskAt(req, px - req.x, py - req.y)) else was
  }

  /** Rows before `py`, and row `py` before `px`, show what they shall; the rest is as it was. */
  ghost predicate Progress(s: Surface, req: Request, was: seq<nat>, now: seq<nat>, px: nat, py: nat)
    requires Fits(s, req) && s.pitch > 0
  {
    |now| == |was| && forall k :: 0 <= k < |was| ==>
      now[k] == if Row(s.pitch, k) < py || (Row(s.pitch, k) == py && Col(s.pitch, k) < px)
                then Shown(s, req, Col(s.pitch, k), Row(s.pitch, k), was[k]) else was[k]
  }

  /** Exactly the pixels of the request, clipped to the screen, are blended; the padding of the rows and
      everything else stays. */
  method DrawBlend(fb: array<nat>, s: Surface, req: Request) returns (ok: bool)
    requires Fits(s, req) && s.pitch > 0 && fb.Length == RowStart(s.pitch, s.height)
    modifies fb
    ensures ok == Accepted(s, req)
    ensures forall k :: 0 <= k < fb.Length ==>
      fb[k] == if ok then Shown(s, req, Col(s.pitch, k), Row(s.pitch, k), old(fb[k])) else old(fb[k])
  {
    hide Shown, Row, Col, RowStart;
    var width := Min(req.w, req.maskW);
    var tmp := (req.x + width) % UINT32;
    if tmp < req.x || req.x >= s.width { return false; }
    if tmp > s.width { width := s.width - req.x; }
    var height := Min(req.h, req.maskH);
    tmp := (req.y + height) % UINT32;
    if tmp < req.y || req.y >= s.height { return false; }
    if tmp > s.height { height := s.height - req.y; }
    assert Accepted(s, req);
    ghost var was := fb[..];
    SkipRows(s, req, was, req.y);
    var j := 0;
    while j < height
      invariant j <= height && Progress(s, req, was, fb[..], 0, req.y + j)
    {
      BlendRow(fb, s, req, width, j, was);
      j := j + 1;
    }
    AllRows(s, req, was, fb[..], req.y + height);
    ok := true;
  }

  /** One row of the request. */
  method BlendRow(fb: array<nat>, s: Surface, req: Request, width: nat, j: nat, ghost was: seq<nat>)
    requires Fits(s, req) && s.pitch > 0 && fb.Length == RowStart(s.pitch, s.height) && req.x + width <= s.width
    requires req.y + j < s.height && j < req.h && j < req.maskH && width <= req.w && width <= req.maskW
    requires width == req.w || width == req.maskW || req.x + width == s.width
    requires Progress(s, req, was, fb[..], 0, req.y + j)
    modifies fb
    ensures Progress(s, req, was, fb[..], 0, req.y + j + 1)
  {
    hide Shown, Row, Col, RowStart;
    SkipColumns(s, req, was, fb[..], req.y + j);
    var i := 0;
    while i < width
      invariant i <= width && Progress(s, req, was, fb[..], req.x + i, req.y + j)
    {
      CellInside(s.pitch, s.height, req.x + i, req.y + j);
      CellInside(req.maskW, req.maskH, i, j);
      var out := BlendPixel(req.fg, req.bg, req.mask[i + RowStart(req.maskW, j)]);
      OnePixel(s, req, was, fb[..], req.x + i, req.y + j, out);
      fb[req.x + i + RowStart(s.pitch, req.y + j)] := out;
      i := i + 1;
    }
    EndOfRow(s, req, was, fb[..], req.x + width, req.y + j);
  }

  lemma OnePixel(s: Surface, req: Request, was: seq<nat>, now: seq<nat>, px: nat, py: nat, out: nat)
    requires Fits(s, req) && s.pitch > 0 && |was| == RowStart(s.pitch, s.height) && Progress(s, req, was, now, px, py)
    requires px < s.pitch && Inside(s, req, px, py) && out == Pixel(req.fg, req.bg, MaskAt(req, px - req.x, py - req.y))
    ensures px + RowStart(s.pitch, py) < |now|
    ensures Progress(s, req, was, now[px + RowStart(s.pitch, py) := out], px + 1, py)
  {
    var at := px + RowStart(s.pitch, py);
    CellInside(s.pitch, s.height, px, py);
    RowAndColumn(s.pitch, px, py);
    assert Shown(s, req, px, py, was[at]) == out && now[at] == was[at];
    forall k | 0 <= k < |was| && k != at ensures Col(s.pitch, k) != px || Row(s.pitch, k) != py {
      CellOf(s.pitch, s.height, k);
    }
    hide Row, Col, RowStart, Shown, Inside, Pixel, MaskAt;
  }

  /** Nothing is to be done above the request, */
  lemma SkipRows(s: Surface, req: Request, was: seq<nat>, py: nat)
    requires Fits(s, req) && s.pitch > 0 && py <= req.y
    ensures Progress(s, req, was, was, 0, py)
  {
  }

  /** to the left of it, */
  lemma SkipColumns(s: Surface, req: Request, was: seq<nat>, now: seq<nat>, py: nat)
    requires Fits(s, req) && s.pitch > 0 && Progress(s, req, was, now, 0, py)
    ensures Progress(s, req, was, now, req.x, py)
  {
  }

  /** to the right of it, */
  lemma EndOfRow(s: Surface, req: Request, was: seq<nat>, now: seq<nat>, px: nat, py: nat)
    requires Fits(s, req) && s.pitch > 0 && Progress(s, req, was, now, px, py)
    requires px >= s.width || px - req.x >= req.w || px - req.x >= req.maskW
    requires px >= req.x
    ensures Progress(s, req, was, now, 0, py + 1)
  {
  }

  /** or below it. */
  lemma AllRows(s: Surface, req: Request, was: seq<nat>, now: seq<nat>, py: nat)
    requires Fits(s, req) && s.pitch > 0 && Progress(s, req, was, now, 0, py) && py >= req.y
    requires py >= s.height || py - req.y >= req.h || py - req.y >= req.maskH
    ensures forall k :: 0 <= k < |was| ==> now[k] == Shown(s, req, Col(s.pitch, k), Row(s.pitch, k), was[k])
  {
  }
}
