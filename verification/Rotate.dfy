/** Glyphs turned to the orientation of the screen. */
module Rotate {
  import opened Memory
  import opened Raster

  /** A bitmap, row after row. */
  datatype Glyph = Glyph(width: nat, height: nat, data: seq<Byte>)

  predicate WellFormed(g: Glyph) {
    |g.data| == RowStart(g.width, g.height)
  }

  datatype Turn = Right | UpsideDown | Left

  /** The pixel in column `x` of row `y`. */
  function At(g: Glyph, x: nat, y: nat): Byte
    requires WellFormed(g) && x < g.width && y < g.height
  {
    CellInside(g.width, g.height, x, y);
    g.data[x + RowStart(g.width, y)]
  }

  function TurnedWidth(g: Glyph, t: Turn): nat {
    if t.UpsideDown? then g.width else g.height
  }

  function TurnedHeight(g: Glyph, t: Turn): nat {
    if t.UpsideDown? then g.height else g.width
  }

  /** Which pixel of the glyph is seen at (x, y) after the turn. */
  function Seen(g: Glyph, t: Turn, x: nat, y: nat): (p: (nat, nat))
    requires x < TurnedWidth(g, t) && y < TurnedHeight(g, t)
    ensures p.0 < g.width && p.1 < g.height
  {
    match t
    case Right => (y, g.height - 1 - x)
    case UpsideDown => (g.width - 1 - x, g.height - 1 - y)
    case Left => (g.width - 1 - y, x)
  }

  /** `r` is the glyph after the turn. */
  ghost predicate IsTurned(g: Glyph, t: Turn, r: Glyph)
    requires WellFormed(g)
  {
    && r.width == TurnedWidth(g, t) && r.height == TurnedHeight(g, t) && WellFormed(r)
    && forall x: nat, y: nat :: x < r.width && y < r.height ==>
      At(r, x, y) == At(g, Seen(g, t, x, y).0, Seen(g, t, x, y).1)
  }

  // ---------------------------------------------------------------- the rotation loops

  lemma SameArea(w: nat, h: nat)
    ensures RowStart(w, h) == RowStart(h, w)
  {
    RowStartIsProduct(w, h);
    RowStartIsProduct(h, w);
  }

  /** Two places are the same only if their columns and rows are. */
  lemma PlaceIsUnique(w: nat, x: nat, y: nat, x': nat, y': nat)
    requires x < w && x' < w && x + RowStart(w, y) == x' + RowStart(w, y')
    ensures x == x' && y == y'
  {
    RowAndColumn(w, x, y);
    RowAndColumn(w, x', y');
  }

  /** Pixel (x, y) of the target already shows what it shall. */
  ghost predicate Painted(g: Glyph, t: Turn, dst: seq<Byte>, x: nat, y: nat)
    requires WellFormed(g) && x < TurnedWidth(g, t) && y < TurnedHeight(g, t)
  {
    var w := TurnedWidth(g, t);
    x + RowStart(w, y) < |dst| && dst[x + RowStart(w, y)] == At(g, Seen(g, t, x, y).0, Seen(g, t, x, y).1)
  }

  /** Where pixel (j, i) of the glyph goes. */
  function Target(g: Glyph, t: Turn, j: nat, i: nat): (p: (nat, nat))
    requires j < g.width && i < g.height
    ensures p.0 < TurnedWidth(g, t) && p.1 < TurnedHeight(g, t) && Seen(g, t, p.0, p.1) == (j, i)
  {
    match t
    case Right => (g.height - 1 - i, j)
    case UpsideDown => (g.width - 1 - j, g.height - 1 - i)
    case Left => (i, g.width - 1 - j)
  }

  /** Pixel `p` comes before column `j` of row `i`. */
  predicate Before(p: (nat, nat), i: nat, j: nat) {
    p.1 < i || (p.1 == i && p.0 < j)
  }

  /** The pixels of the rows before `i`, and of row `i` before column `j`, are painted. */
  ghost predicate PaintedBefore(g: Glyph, t: Turn, dst: seq<Byte>, i: nat, j: nat)
    requires WellFormed(g)
  {
    forall x: nat, y: nat :: x < TurnedWidth(g, t) && y < TurnedHeight(g, t) && Before(Seen(g, t, x, y), i, j) ==>
      Painted(g, t, dst, x, y)
  }

  /** Copies pixel (j, i) to its target. */
  method Put(g: Glyph, t: Turn, dst: array<Byte>, j: nat, i: nat, at: nat)
    requires WellFormed(g) && j < g.width && i < g.height && dst.Length == |g.data|
    requires at == Target(g, t, j, i).0 + RowStart(TurnedWidth(g, t), Target(g, t, j, i).1)
    requires PaintedBefore(g, t, dst[..], i, j)
    modifies dst
    ensures PaintedBefore(g, t, dst[..], i, j + 1)
  {
    hide RowStart, At, Painted;
    var w, h := TurnedWidth(g, t), TurnedHeight(g, t);
    var p := Target(g, t, j, i);
    CellInside(g.width, g.height, j, i);
    CellInside(w, h, p.0, p.1);
    SameArea(g.width, g.height);
    ghost var b := dst[..];
    dst[at] := g.data[j + RowStart(g.width, i)];
    forall x: nat, y: nat | x < w && y < h && Before(Seen(g, t, x, y), i, j + 1)
      ensures Painted(g, t, dst[..], x, y)
    {
      hide Seen, Target;
      StillPainted(g, t, b, x, y, j, i);
      assert dst[..] == b[at := g.data[j + RowStart(g.width, i)]];
    }
  }

  /** Writing the pixel at (j, i) to its target paints that one and spoils no other. */
  lemma {:induction false} StillPainted(g: Glyph, t: Turn, b: seq<Byte>, x: nat, y: nat, j: nat, i: nat)
    requires WellFormed(g) && x < TurnedWidth(g, t) && y < TurnedHeight(g, t) && j < g.width && i < g.height &&
      |b| == |g.data|
    requires Painted(g, t, b, x, y) || (x, y) == Target(g, t, j, i)
    ensures var at := Target(g, t, j, i).0 + RowStart(TurnedWidth(g, t), Target(g, t, j, i).1);
      at < |b| && j + RowStart(g.width, i) < |g.data| && Painted(g, t, b[at := g.data[j + RowStart(g.width, i)]], x, y)
  {
    hide RowStart;
    var w, h := TurnedWidth(g, t), TurnedHeight(g, t);
    var p := Target(g, t, j, i);
    SameArea(g.width, g.height);
    hide TurnedWidth, TurnedHeight, Seen, Target;
    CellInside(g.width, g.height, j, i);
    CellInside(w, h, p.0, p.1);
    CellInside(w, h, x, y);
    var at, here := p.0 + RowStart(w, p.1), x + RowStart(w, y);
    if here == at {
      PlaceIsUnique(w, x, y, p.0, p.1);
      assert Seen(g, t, x, y) == (j, i);
    }
  }

  /** A glyph turned right, upside down or left; the loops go over the rows and columns of the source. */
  method RotateGlyph(g: Glyph, t: Turn) returns (r: Glyph)
    requires WellFormed(g)
    ensures IsTurned(g, t, r)
  {
    var width, height := TurnedWidth(g, t), TurnedHeight(g, t);
    SameArea(g.width, g.height);
    var dst := new Byte[|g.data|](_ => 0);
    var i := 0;
    while i < g.height
      invariant i <= g.height && PaintedBefore(g, t, dst[..], i, 0)
    {
      var j := 0;
      while j < g.width
        invariant j <= g.width && PaintedBefore(g, t, dst[..], i, j)
      {
        var at := match t
          case Right => width - i - 1 + RowStart(width, j)
          case UpsideDown => g.width - j - 1 + RowStart(width, g.height - 1 - i)
          case Left => i + RowStart(width, height - j - 1);
        Put(g, t, dst, j, i, at);
        j := j + 1;
      }
      RowIsPainted(g, t, dst[..], i);
      i := i + 1;
    }
    r := Glyph(width, height, dst[..]);
    AllIsPainted(g, t, r);
  }

  lemma RowIsPainted(g: Glyph, t: Turn, dst: seq<Byte>, i: nat)
    requires WellFormed(g) && PaintedBefore(g, t, dst, i, g.width)
    ensures PaintedBefore(g, t, dst, i + 1, 0)
  {
  }

  lemma AllIsPainted(g: Glyph, t: Turn, r: Glyph)
    requires WellFormed(g) && WellFormed(r) && r.width == TurnedWidth(g, t) && r.height == TurnedHeight(g, t)
    requires PaintedBefore(g, t, r.data, g.height, 0)
    ensures IsTurned(g, t, r)
  {
    forall x: nat, y: nat | x < r.width && y < r.height
      ensures At(r, x, y) == At(g, Seen(g, t, x, y).0, Seen(g, t, x, y).1)
    {
      assert Painted(g, t, r.data, x, y);
    }
  }

  // ---------------------------------------------------------------- turning again

  /** Glyphs of one size that show the same pixels are the same. */
  lemma SamePixels(a: Glyph, b: Glyph)
    requires WellFormed(a) && WellFormed(b) && a.width == b.width && a.height == b.height
    requires forall x: nat, y: nat :: x < a.width && y < a.height ==> At(a, x, y) == At(b, x, y)
    ensures a == b
  {
    forall k | 0 <= k < |a.data| ensures a.data[k] == b.data[k] {
      PositiveWidth(a.width, a.height, k);
      CellOf(a.width, a.height, k);
      assert At(a, Col(a.width, k), Row(a.width, k)) == At(b, Col(a.width, k), Row(a.width, k));
    }
  }

  lemma PositiveWidth(w: nat, h: nat, k: nat)
    requires k < RowStart(w, h)
    ensures w > 0
  {
    if w == 0 { RowStartIsProduct(w, h); }
  }

  /** Each turn has one result. */
  lemma TurnIsUnique(g: Glyph, t: Turn, a: Glyph, b: Glyph)
    requires WellFormed(g) && IsTurned(g, t, a) && IsTurned(g, t, b)
    ensures a == b
  {
    SamePixels(a, b);
  }

  /** Right and left undo each other, and so no pixel is lost or doubled by either. */
  lemma RightThenLeft(g: Glyph, r: Glyph, l: Glyph)
    requires WellFormed(g) &&
      ((IsTurned(g, Right, r) && IsTurned(r, Left, l)) || (IsTurned(g, Left, r) && IsTurned(r, Right, l)))
    ensures l == g
  {
    forall x: nat, y: nat | x < g.width && y < g.height ensures At(l, x, y) == At(g, x, y) {
      if IsTurned(g, Right, r) && IsTurned(r, Left, l) {
        assert Seen(r, Left, x, y) == (r.width - 1 - y, x);
        assert Seen(g, Right, r.width - 1 - y, x) == (x, y);
      } else {
        assert Seen(r, Right, x, y) == (y, r.height - 1 - x);
        assert Seen(g, Left, y, r.height - 1 - x) == (x, y);
      }
    }
    SamePixels(l, g);
  }

  /** Twice right, or twice left, is upside down. */
  lemma TwiceIsUpsideDown(g: Glyph, t: Turn, r: Glyph, s: Glyph)
    requires WellFormed(g) && !t.UpsideDown? && IsTurned(g, t, r) && IsTurned(r, t, s)
    ensures IsTurned(g, UpsideDown, s)
  {
    forall x: nat, y: nat | x < s.width && y < s.height
      ensures At(s, x, y) == At(g, Seen(g, UpsideDown, x, y).0, Seen(g, UpsideDown, x, y).1)
    {
      var p := Seen(r, t, x, y);
      assert At(s, x, y) == At(r, p.0, p.1);
      assert Seen(g, t, p.0, p.1) == Seen(g, UpsideDown, x, y);
    }
  }

  lemma UpsideDownTwice(g: Glyph, r: Glyph, s: Glyph)
    requires WellFormed(g) && IsTurned(g, UpsideDown, r) && IsTurned(r, UpsideDown, s)
    ensures s == g
  {
    forall x: nat, y: nat | x < g.width && y < g.height ensures At(s, x, y) == At(g, x, y) {
      var p := Seen(r, UpsideDown, x, y);
      assert Seen(g, UpsideDown, p.0, p.1) == (x, y);
    }
    SamePixels(s, g);
  }

  /** Four turns to the same side come back to the glyph. */
  lemma FourTurns(g: Glyph, t: Turn, a: Glyph, b: Glyph, c: Glyph, d: Glyph)
    requires WellFormed(g) && IsTurned(g, t, a) && IsTurned(a, t, b) && IsTurned(b, t, c) && IsTurned(c, t, d)
    ensures d == g
  {
    if t.UpsideDown? {
      UpsideDownTwice(g, a, b);
      UpsideDownTwice(b, c, d);
    } else {
      TwiceIsUpsideDown(g, t, a, b);
      TwiceIsUpsideDown(b, t, c, d);
      UpsideDownTwice(g, b, d);
    }
  }

  /** The quarter turns and the half turn agree, whichever way round: turning twice right, twice left or
      upside down gives one glyph, and three turns to one side are one to the other. */
  lemma TurnsAgree(g: Glyph, r: Glyph, rr: Glyph, rrr: Glyph, l: Glyph, ll: Glyph, u: Glyph)
    requires WellFormed(g) && IsTurned(g, Right, r) && IsTurned(r, Right, rr) && IsTurned(rr, Right, rrr)
    requires IsTurned(g, Left, l) && IsTurned(l, Left, ll) && IsTurned(g, UpsideDown, u)
    ensures rr == ll == u && rrr == l
  {
    hide At, Seen;
    TwiceIsUpsideDown(g, Right, r, rr);
    TwiceIsUpsideDown(g, Left, l, ll);
    TurnIsUnique(g, UpsideDown, rr, u);
    TurnIsUnique(g, UpsideDown, ll, u);
    RightThenLeft(l, ll, rrr);
  }
}
