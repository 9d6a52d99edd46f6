/** Strings of recorded terminal sessions: the decoder scans for the closing quote, allocates that
    many bytes, and then decodes escapes into them. */
module Json {
  import opened Memory

  const QUOTE: Byte := 34
  const BACKSLASH: Byte := 92

  /** Encodes a code point in UTF-8; the empty result refuses it.  (RFC 3629, section 3: at most
      three bytes in the Basic Multilingual Plane, at most four beyond.) */
  type Encoder = nat -> seq<Byte>

  ghost predicate Utf8Sized(enc: Encoder) {
    forall cp: nat :: |enc(cp)| <= if cp < 0x1_0000 then 3 else 4
  }

  /** The text at `i`; past its end stands the terminator. */
  function At(s: seq<Byte>, i: nat): Byte {
    if i < |s| then s[i] else 0
  }

  predicate IsSpace(c: Byte) { c == 32 || 9 <= c <= 13 }

  function SkipWs(s: seq<Byte>, i: nat): (j: nat)
    requires i <= |s|
    ensures i <= j <= |s|
    decreases |s| - i
  {
    if i < |s| && IsSpace(s[i]) then SkipWs(s, i + 1) else i
  }

  function HexVal(c: Byte): Option<nat> {
    if 48 <= c <= 57 then Some(c - 48)
    else if 97 <= c <= 102 then Some(c - 97 + 10)
    else if 65 <= c <= 70 then Some(c - 65 + 10)
    else None
  }

  /** Four hexadecimal digits (section 7 of RFC 8259). */
  function Hex4(s: seq<Byte>, i: nat): (v: Option<nat>)
    ensures v.Some? ==> v.value < 0x1_0000
  {
    match (HexVal(At(s, i)), HexVal(At(s, i + 1)), HexVal(At(s, i + 2)), HexVal(At(s, i + 3)))
    case (Some(a), Some(b), Some(c), Some(d)) =>
      assert a < 16 && b < 16 && c < 16 && d < 16;
      Some(a * 4096 + b * 256 + c * 16 + d)
    case _ => None
  }

  /** The first scan: an escaped character never ends the string. */
  function Scan(s: seq<Byte>, i: nat): (j: nat)
    requires i <= |s|
    ensures i <= j <= |s| && (j < |s| ==> s[j] == QUOTE)
    decreases |s| - i
  {
    if i == |s| || s[i] == QUOTE then i
    else if s[i] == BACKSLASH && i + 1 < |s| then Scan(s, i + 2)
    else Scan(s, i + 1)
  }

  // ---------------------------------------------------------------- decoding

  predicate IsHigh(cp: nat) { 0xd800 <= cp <= 0xdbff }
  predicate IsLow(cp: nat) { 0xdc00 <= cp <= 0xdfff }

  function Combine(high: nat, low: nat): (cp: nat)
    requires IsHigh(high) && IsLow(low)
    ensures 0x1_0000 <= cp <= 0x10_ffff
  {
    0x1_0000 + (high - 0xd800) * 1024 + (low - 0xdc00)
  }

  /** One item of the string: the bytes it stands for and how much of the text it takes. */
  datatype Item = Item(out: seq<Byte>, width: nat) | Bad

  function Simple(c: Byte): Option<Byte> {
    if c == QUOTE || c == BACKSLASH || c == 47 then Some(c)
    else if c == 98 then Some(8)
    else if c == 102 then Some(12)
    else if c == 110 then Some(10)
    else if c == 114 then Some(13)
    else if c == 116 then Some(9)
    else None
  }

  function Unicode(enc: Encoder, s: seq<Byte>, i: nat): Item {
    match Hex4(s, i + 2)
    case None => Bad
    case Some(cp) =>
      if IsHigh(cp) && At(s, i + 6) == BACKSLASH && At(s, i + 7) == 117 then
        match Hex4(s, i + 8)
        case None => Bad
        case Some(low) =>
          if IsLow(low) then Encoded(enc(Combine(cp, low)), 12) else Encoded(enc(cp), 6)
      else Encoded(enc(cp), 6)
  }

  function Encoded(u8: seq<Byte>, width: nat): Item {
    if u8 == [] then Bad else Item(u8, width)
  }

  function ItemAt(enc: Encoder, s: seq<Byte>, i: nat): Item
    requires i < |s|
  {
    if s[i] != BACKSLASH then Item([s[i]], 1)
    else if Simple(At(s, i + 1)).Some? then Item([Simple(At(s, i + 1)).value], 2)
    else if At(s, i + 1) == 117 then Unicode(enc, s, i)
    else Bad
  }

  datatype Decoded = Ok(out: seq<Byte>, end: nat) | Invalid

  function Decode(enc: Encoder, s: seq<Byte>, i: nat): Decoded
    decreases |s| - i
  {
    if i >= |s| || s[i] == QUOTE then Ok([], i)
    else match ItemAt(enc, s, i)
      case Bad => Invalid
      case Item(out, width) =>
        if width == 0 then Invalid
        else match Decode(enc, s, i + width)
          case Invalid => Invalid
          case Ok(rest, end) => Ok(out + rest, end)
  }

  ghost predicate NulFree(s: seq<Byte>) {
    0 !in s
  }

  lemma ScanDigits(s: seq<Byte>, i: nat)
    requires i + 4 <= |s| && forall k :: i <= k < i + 4 ==> s[k] != QUOTE && s[k] != BACKSLASH
    ensures Scan(s, i) == Scan(s, i + 4)
  {
    assert Scan(s, i) == Scan(s, i + 1) && Scan(s, i + 1) == Scan(s, i + 2);
    assert Scan(s, i + 2) == Scan(s, i + 3) && Scan(s, i + 3) == Scan(s, i + 4);
  }

  /** An item lies inside the text, the scan passes over exactly it, and it does not grow. */
  lemma ItemMatchesScan(enc: Encoder, s: seq<Byte>, i: nat)
    requires Utf8Sized(enc) && i < |s| && s[i] != QUOTE && ItemAt(enc, s, i).Item?
    ensures var item := ItemAt(enc, s, i);
      0 < item.width && i + item.width <= |s| && |item.out| <= item.width && Scan(s, i) == Scan(s, i + item.width)
  {
    if s[i] == BACKSLASH && Simple(At(s, i + 1)).None? {
      ScanDigits(s, i + 2);
      var cp := Hex4(s, i + 2).value;
      if IsHigh(cp) && At(s, i + 6) == BACKSLASH && At(s, i + 7) == 117 && IsLow(Hex4(s, i + 8).value) {
        ScanDigits(s, i + 8);
        assert Scan(s, i + 6) == Scan(s, i + 8);
      }
    } else if s[i] == BACKSLASH {
      assert At(s, i + 1) != 0;
    }
  }

  /** Decoding stops at the quote that the scan found, and its output is no longer than its input. */
  lemma {:induction false} DecodeMatchesScan(enc: Encoder, s: seq<Byte>, i: nat)
    requires Utf8Sized(enc) && i <= |s| && Decode(enc, s, i).Ok?
    ensures var d := Decode(enc, s, i); d.end == Scan(s, i) && |d.out| <= d.end - i
    decreases |s| - i
  {
    if i < |s| && s[i] != QUOTE {
      ItemMatchesScan(enc, s, i);
      DecodeMatchesScan(enc, s, i + ItemAt(enc, s, i).width);
    }
  }

  // ---------------------------------------------------------------- the decoder

  datatype Error = EINVAL | ENOSPC

  datatype Result = Parsed(out: seq<Byte>, next: nat) | Failed(error: Error)

  /** What `parse_json_string` is to return for the text from `start` on. */
  function Parse(enc: Encoder, s: seq<Byte>, start: nat): Result
    requires start <= |s|
  {
    var pos := SkipWs(s, start);
    if At(s, pos) != QUOTE then Failed(EINVAL)
    else if Scan(s, pos + 1) == |s| then Failed(EINVAL)
    else match Decode(enc, s, pos + 1)
      case Invalid => Failed(EINVAL)
      case Ok(out, end) => Parsed(out, end + 1)
  }

  method SkipSpaces(s: seq<Byte>, start: nat) returns (pos: nat)
    requires start <= |s|
    ensures pos == SkipWs(s, start)
  {
    pos := start;
    while pos < |s| && IsSpace(s[pos])
      invariant start <= pos <= |s| && SkipWs(s, start) == SkipWs(s, pos)
    {
      pos := pos + 1;
    }
  }

  method FindQuote(s: seq<Byte>, src: nat) returns (pos: nat)
    requires src <= |s|
    ensures pos == Scan(s, src)
  {
    pos := src;
    while pos < |s| && s[pos] != QUOTE
      invariant src <= pos <= |s| && Scan(s, src) == Scan(s, pos)
      decreases |s| - pos
    {
      if s[pos] == BACKSLASH && pos + 1 < |s| { pos := pos + 1; }
      pos := pos + 1;
    }
  }

  /** Appends bytes unless they would not fit. */
  method Append(buf: array<Byte>, dst: nat, u8: seq<Byte>) returns (error: Option<Error>)
    requires dst <= buf.Length
    modifies buf
    ensures dst + |u8| > buf.Length ==> error == Some(ENOSPC)
    ensures dst + |u8| <= buf.Length ==> error.None? && buf[..dst + |u8|] == old(buf[..dst]) + u8
  {
    if dst + |u8| > buf.Length { return Some(ENOSPC); }
    MemCopy(buf, dst, u8);
    error := None;
  }

  /** Fills a buffer of one byte more than the quoted text has.  No write ever fails to fit. */
  method DecodeInto(enc: Encoder, s: seq<Byte>, src: nat, buf: array<Byte>)
      returns (error: Option<Error>, len: nat, pos: nat)
    requires Utf8Sized(enc) && src <= |s| && buf.Length == Scan(s, src) - src + 1
    modifies buf
    ensures match Decode(enc, s, src)
      case Invalid => error == Some(EINVAL)
      case Ok(out, end) => error.None? && pos == end && len <= buf.Length && buf[..len] == out
  {
    hide Decode, Scan, ItemAt, Utf8Sized;
    pos, len, error := src, 0, None;
    while pos < |s| && s[pos] != QUOTE
      invariant src <= pos <= Scan(s, src) && Scan(s, pos) == Scan(s, src)
      invariant error.None? && len <= pos - src && len <= buf.Length
      invariant Decode(enc, s, src) == Prepend(buf[..len], Decode(enc, s, pos))
      decreases |s| - pos
    {
      DecodeNext(enc, s, pos, buf[..len]);
      var item := ItemAt(enc, s, pos);
      if item.Bad? {
        error := Some(EINVAL);
        return;
      }
      ItemMatchesScan(enc, s, pos);
      assert Scan(s, pos + item.width) >= pos + item.width;
      error := Append(buf, len, item.out);
      if error.Some? { return; }
      len := len + |item.out|;
      pos := pos + item.width;
    }
    DecodeEnd(enc, s, pos, buf[..len]);
  }

  function Prepend(out: seq<Byte>, d: Decoded): Decoded {
    match d
    case Invalid => Invalid
    case Ok(rest, end) => Ok(out + rest, end)
  }

  lemma DecodeNext(enc: Encoder, s: seq<Byte>, i: nat, done: seq<Byte>)
    requires Utf8Sized(enc) && i < |s| && s[i] != QUOTE
    ensures match ItemAt(enc, s, i)
      case Bad => Prepend(done, Decode(enc, s, i)) == Invalid
      case Item(out, width) => Prepend(done, Decode(enc, s, i)) == Prepend(done + out, Decode(enc, s, i + width))
  {
    if ItemAt(enc, s, i).Item? {
      ItemMatchesScan(enc, s, i);
      var item := ItemAt(enc, s, i);
      var d := Decode(enc, s, i + item.width);
      if d.Ok? { assert done + (item.out + d.out) == done + item.out + d.out; }
    }
  }

  lemma DecodeEnd(enc: Encoder, s: seq<Byte>, i: nat, done: seq<Byte>)
    requires i >= |s| || s[i] == QUOTE
    ensures Prepend(done, Decode(enc, s, i)) == Ok(done, i)
  {
    assert done + [] == done;
  }

  method ParseString(enc: Encoder, s: seq<Byte>, start: nat) returns (r: Result)
    requires Utf8Sized(enc) && start <= |s| && NulFree(s)
    ensures r == Parse(enc, s, start)
    ensures r.Failed? ==> r.error == EINVAL
    ensures r.Parsed? ==> 0 < r.next <= |s| && s[r.next - 1] == QUOTE
    ensures r.Parsed? ==> SkipWs(s, start) < |s| && r.next - 1 == Scan(s, SkipWs(s, start) + 1)
  {
    hide Decode, Scan, SkipWs;
    var pos := SkipSpaces(s, start);
    if At(s, pos) != QUOTE { return Failed(EINVAL); }
    var src := pos + 1;
    pos := FindQuote(s, src);
    if At(s, pos) != QUOTE { return Failed(EINVAL); }
    var buf := new Byte[pos - src + 1](_ => 0);
    var error, len, end := DecodeInto(enc, s, src, buf);
    if error.Some? { return Failed(error.value); }
    DecodeMatchesScan(enc, s, src);
    r := Parsed(buf[..len], end + 1);
  }

  // ---------------------------------------------------------------- round trip

  /** A way of writing part of a text: a byte as it is, a short escape, four digits, or the digits
      of a surrogate pair. */
  datatype Piece =
    | Raw(b: Byte)
    | Short(c: Byte)
    | Digits(d: seq<Byte>)
    | Pair(high: seq<Byte>, low: seq<Byte>)

  predicate IsHex(d: seq<Byte>) {
    |d| == 4 && Hex4(d, 0).Some?
  }

  /** The piece is one a writer of valid text may choose. */
  predicate Writable(enc: Encoder, p: Piece) {
    match p
    case Raw(b) => b != 0 && b != QUOTE && b != BACKSLASH
    case Short(c) => Simple(c).Some?
    case Digits(d) => IsHex(d) && !IsHigh(Hex4(d, 0).value) && enc(Hex4(d, 0).value) != []
    case Pair(h, l) =>
      && IsHex(h) && IsHex(l) && IsHigh(Hex4(h, 0).value) && IsLow(Hex4(l, 0).value)
      && enc(Combine(Hex4(h, 0).value, Hex4(l, 0).value)) != []
  }

  function Written(p: Piece): seq<Byte> {
    match p
    case Raw(b) => [b]
    case Short(c) => [BACKSLASH, c]
    case Digits(d) => [BACKSLASH, 117] + d
    case Pair(h, l) => [BACKSLASH, 117] + h + [BACKSLASH, 117] + l
  }

  function Meaning(enc: Encoder, p: Piece): seq<Byte>
    requires Writable(enc, p)
  {
    match p
    case Raw(b) => [b]
    case Short(c) => [Simple(c).value]
    case Digits(d) => enc(Hex4(d, 0).value)
    case Pair(h, l) => enc(Combine(Hex4(h, 0).value, Hex4(l, 0).value))
  }

  function WrittenAll(ps: seq<Piece>): seq<Byte> {
    if ps == [] then [] else Written(ps[0]) + WrittenAll(ps[1..])
  }

  function MeaningAll(enc: Encoder, ps: seq<Piece>): seq<Byte>
    requires forall k :: 0 <= k < |ps| ==> Writable(enc, ps[k])
  {
    if ps == [] then [] else Meaning(enc, ps[0]) + MeaningAll(enc, ps[1..])
  }

  lemma HexElsewhere(s: seq<Byte>, i: nat, d: seq<Byte>)
    requires |d| == 4 && i + 4 <= |s| && s[i..i + 4] == d
    ensures Hex4(s, i) == Hex4(d, 0)
  {
    assert s[i] == d[0] && s[i + 1] == d[1] && s[i + 2] == d[2] && s[i + 3] == d[3];
  }

  lemma DigitsAreRead(enc: Encoder, s: seq<Byte>, i: nat, d: seq<Byte>)
    requires Writable(enc, Digits(d)) && i + 6 <= |s| && s[i..i + 6] == Written(Digits(d))
    ensures ItemAt(enc, s, i) == Item(Meaning(enc, Digits(d)), 6)
  {
    hide Hex4, Combine;
    var w := Written(Digits(d));
    assert s[i] == w[0] && s[i + 1] == w[1];
    assert s[i + 2..i + 6] == w[2..6] == d;
    HexElsewhere(s, i + 2, d);
  }

  lemma PairIsRead(enc: Encoder, s: seq<Byte>, i: nat, h: seq<Byte>, l: seq<Byte>)
    requires Writable(enc, Pair(h, l)) && i + 12 <= |s| && s[i..i + 12] == Written(Pair(h, l))
    ensures ItemAt(enc, s, i) == Item(Meaning(enc, Pair(h, l)), 12)
  {
    hide Hex4, Combine;
    var w := Written(Pair(h, l));
    assert s[i] == w[0] && s[i + 1] == w[1] && s[i + 6] == w[6] && s[i + 7] == w[7];
    assert |h| == 4 && |l| == 4 && |w| == 12;
    assert w[2..6] == h && s[i + 2..i + 6] == w[2..6] by { SliceOfSlice(s, i, 12, 2, 6); }
    assert w[8..12] == l && s[i + 8..i + 12] == w[8..12] by { SliceOfSlice(s, i, 12, 8, 12); }
    HexElsewhere(s, i + 2, h);
    HexElsewhere(s, i + 8, l);
  }

  /** A written piece is read as what it means, whatever stands around it. */
  lemma PieceIsRead(enc: Encoder, s: seq<Byte>, i: nat, p: Piece)
    requires Writable(enc, p) && i + |Written(p)| <= |s| && s[i..i + |Written(p)|] == Written(p)
    ensures |Written(p)| > 0 && s[i] != QUOTE && ItemAt(enc, s, i) == Item(Meaning(enc, p), |Written(p)|)
  {
    hide Hex4, Combine, HexVal;
    assert s[i] == s[i..i + |Written(p)|][0];
    match p
    case Raw(b) =>
    case Short(c) => assert s[i + 1] == s[i..i + |Written(p)|][1];
    case Digits(d) => DigitsAreRead(enc, s, i, d);
    case Pair(h, l) => PairIsRead(enc, s, i, h, l);
  }

  /** Decoding a written text gives back what was written, however each character was escaped. */
  lemma {:induction false} DecodeOfWritten(enc: Encoder, s: seq<Byte>, i: nat, ps: seq<Piece>)
    requires Utf8Sized(enc) && forall k :: 0 <= k < |ps| ==> Writable(enc, ps[k])
    requires i + |WrittenAll(ps)| < |s| && s[i..i + |WrittenAll(ps)|] == WrittenAll(ps)
    requires s[i + |WrittenAll(ps)|] == QUOTE
    ensures Decode(enc, s, i) == Ok(MeaningAll(enc, ps), i + |WrittenAll(ps)|)
    decreases |ps|
  {
    hide Writable, Written, Meaning, ItemAt, Utf8Sized;
    if ps != [] {
      var w, rest := Written(ps[0]), WrittenAll(ps[1..]);
      assert s[i..i + |w|] == (w + rest)[..|w|];
      assert s[i + |w|..i + |w| + |rest|] == (w + rest)[|w|..];
      PieceIsRead(enc, s, i, ps[0]);
      DecodeOfWritten(enc, s, i + |w|, ps[1..]);
    }
  }

  // ---------------------------------------------------------------- Unicode text

  predicate IsScalar(cp: nat) { cp <= 0x10_ffff && !IsHigh(cp) && !IsLow(cp) }

  /** RFC 3629, section 3. */
  function Utf8(cp: nat): (u8: seq<Byte>)
    requires IsScalar(cp)
    ensures u8 != []
  {
    if cp < 0x80 then [cp]
    else if cp < 0x800 then [0xc0 + cp / 64, 0x80 + cp % 64]
    else if cp < 0x1_0000 then [0xe0 + cp / 4096, 0x80 + cp / 64 % 64, 0x80 + cp % 64]
    else [0xf0 + cp / 0x4_0000, 0x80 + cp / 4096 % 64, 0x80 + cp / 64 % 64, 0x80 + cp % 64]
  }

  function Utf8All(text: seq<nat>): seq<Byte>
    requires forall cp <- text :: IsScalar(cp)
  {
    if text == [] then [] else Utf8(text[0]) + Utf8All(text[1..])
  }

  /** Which of four digits are in upper case. */
  type Cases = (bool, bool, bool, bool)

  const LOWER_CASE: Cases := (false, false, false, false)

  function HexDigit(v: nat, upper: bool): (c: Byte)
    requires v < 16
    ensures HexVal(c) == Some(v)
  {
    if v < 10 then 48 + v else if upper then 55 + v else 87 + v
  }

  /** Four digits, each of either case. */
  function HexOf(cp: nat, cases: Cases): (d: seq<Byte>)
    requires cp < 0x1_0000
    ensures IsHex(d) && Hex4(d, 0) == Some(cp)
  {
    var (q, r) := (cp / 16, cp % 16);
    var (p, m) := (q / 16, q % 16);
    var (k, l) := (p / 16, p % 16);
    assert k < 16 && cp == k * 4096 + l * 256 + m * 16 + r;
    [HexDigit(k, cases.0), HexDigit(l, cases.1), HexDigit(m, cases.2), HexDigit(r, cases.3)]
  }

  /** The digits of a surrogate pair: every code point beyond the Basic Multilingual Plane has one. */
  lemma PairsCoverSupplementary(cp: nat)
    requires 0x1_0000 <= cp <= 0x10_ffff
    ensures var high, low := 0xd800 + (cp - 0x1_0000) / 1024, 0xdc00 + (cp - 0x1_0000) % 1024;
      IsHigh(high) && IsLow(low) && Combine(high, low) == cp
  {
  }

  /** How a writer spells one character: its UTF-8 as it is, a short escape, or digits. */
  datatype Style = AsIs | Letter | Hex(first: Cases, second: Cases)

  function Letters(cp: nat): Option<Byte> {
    if cp == 34 || cp == 92 || cp == 47 then Some(cp)
    else if cp == 8 then Some(98)
    else if cp == 12 then Some(102)
    else if cp == 10 then Some(110)
    else if cp == 13 then Some(114)
    else if cp == 9 then Some(116)
    else None
  }

  function Literally(u8: seq<Byte>): seq<Piece> {
    if u8 == [] then [] else [Raw(u8[0])] + Literally(u8[1..])
  }

  function Spelt(cp: nat, style: Style): seq<Piece>
    requires IsScalar(cp)
  {
    var (a, b) := if style.Hex? then (style.first, style.second) else (LOWER_CASE, LOWER_CASE);
    if style.AsIs? && cp != 0 && cp != 34 && cp != 92 then Literally(Utf8(cp))
    else if style.Letter? && Letters(cp).Some? then [Short(Letters(cp).value)]
    else if cp < 0x1_0000 then [Digits(HexOf(cp, a))]
    else [Pair(HexOf(0xd800 + (cp - 0x1_0000) / 1024, a), HexOf(0xdc00 + (cp - 0x1_0000) % 1024, b))]
  }

  function SpeltAll(text: seq<nat>, styles: seq<Style>): seq<Piece>
    requires |styles| == |text| && forall cp <- text :: IsScalar(cp)
  {
    if text == [] then [] else Spelt(text[0], styles[0]) + SpeltAll(text[1..], styles[1..])
  }

  ghost predicate AllWritable(enc: Encoder, ps: seq<Piece>) {
    forall k :: 0 <= k < |ps| ==> Writable(enc, ps[k])
  }

  lemma {:induction false} MeaningJoins(enc: Encoder, ps: seq<Piece>, qs: seq<Piece>)
    requires AllWritable(enc, ps) && AllWritable(enc, qs)
    ensures AllWritable(enc, ps + qs) && MeaningAll(enc, ps + qs) == MeaningAll(enc, ps) + MeaningAll(enc, qs)
    decreases |ps|
  {
    hide Writable, Meaning;
    if ps == [] {
      assert ps + qs == qs;
    } else {
      assert (ps + qs)[1..] == ps[1..] + qs;
      MeaningJoins(enc, ps[1..], qs);
    }
  }

  lemma {:induction false} LiteralMeansItself(enc: Encoder, u8: seq<Byte>)
    requires forall k :: 0 <= k < |u8| ==> u8[k] != 0 && u8[k] != QUOTE && u8[k] != BACKSLASH
    ensures AllWritable(enc, Literally(u8)) && MeaningAll(enc, Literally(u8)) == u8
    decreases |u8|
  {
    if u8 != [] {
      LiteralMeansItself(enc, u8[1..]);
      assert Literally(u8)[1..] == Literally(u8[1..]);
    }
  }

  lemma MeaningOfOne(enc: Encoder, p: Piece)
    requires Writable(enc, p)
    ensures AllWritable(enc, [p]) && MeaningAll(enc, [p]) == Meaning(enc, p)
  {
    assert MeaningAll(enc, [p][1..]) == [];
  }

  lemma SpeltMeans(enc: Encoder, cp: nat, style: Style)
    requires IsScalar(cp) && enc(cp) == Utf8(cp)
    ensures AllWritable(enc, Spelt(cp, style)) && MeaningAll(enc, Spelt(cp, style)) == Utf8(cp)
  {
    hide MeaningAll, Hex4, HexVal, AllWritable;
    if style.AsIs? && cp != 0 && cp != 34 && cp != 92 {
      LiteralMeansItself(enc, Utf8(cp));
    } else {
      if 0x1_0000 <= cp { PairsCoverSupplementary(cp); }
      MeaningOfOne(enc, Spelt(cp, style)[0]);
    }
  }

  lemma {:induction false} SpeltAllMeans(enc: Encoder, text: seq<nat>, styles: seq<Style>)
    requires |styles| == |text| && forall cp <- text :: IsScalar(cp) && enc(cp) == Utf8(cp)
    ensures AllWritable(enc, SpeltAll(text, styles)) && MeaningAll(enc, SpeltAll(text, styles)) == Utf8All(text)
    decreases |text|
  {
    hide Utf8, Spelt, Writable;
    if text != [] {
      SpeltMeans(enc, text[0], styles[0]);
      SpeltAllMeans(enc, text[1..], styles[1..]);
      MeaningJoins(enc, Spelt(text[0], styles[0]), SpeltAll(text[1..], styles[1..]));
    }
  }

  /** Any text, each character spelt in any way, comes back from the parser as its UTF-8. */
  lemma TextSurvives(enc: Encoder, text: seq<nat>, styles: seq<Style>, tail: seq<Byte>)
    requires Utf8Sized(enc) && |styles| == |text| && forall cp <- text :: IsScalar(cp) && enc(cp) == Utf8(cp)
    ensures var body := WrittenAll(SpeltAll(text, styles));
      Parse(enc, [QUOTE] + body + [QUOTE] + tail, 0) == Parsed(Utf8All(text), |body| + 2)
  {
    hide Decode, Scan, Utf8, Spelt, Writable, Written, SpeltAll, WrittenAll, MeaningAll, Utf8All;
    var ps := SpeltAll(text, styles);
    var body := WrittenAll(ps);
    var s := [QUOTE] + body + [QUOTE] + tail;
    SpeltAllMeans(enc, text, styles);
    assert s[1..1 + |body|] == body && s[1 + |body|] == QUOTE;
    DecodeOfWritten(enc, s, 1, ps);
    DecodeMatchesScan(enc, s, 1);
    assert s[0] == QUOTE;
  }
}
