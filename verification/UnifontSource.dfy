/** The text that the font compiler reads: one glyph a line, comments between them. */
module UnifontSource {
  import opened Memory

  /** The most that one call of `fgets` delivers of a line. */
  const LINE_MAX: nat := 253

  const MAX_DATA_SIZE: nat := 255

  /** A glyph of the source file: its code point and its bitmap as hexadecimal digits. */
  datatype Glyph = Glyph(codepoint: nat, data: string)

  function HexVal(c: char): (v: nat)
    ensures v < 16
  {
    if '0' <= c <= '9' then c as nat - '0' as nat
    else if 'a' <= c <= 'f' then c as nat - 'a' as nat + 10
    else if 'A' <= c <= 'F' then c as nat - 'A' as nat + 10
    else 0
  }

  // ---------------------------------------------------------------- what the text means

  /** The first place in `s` that holds one of `stops`. */
  function Until(s: string, stops: set<char>): (e: nat)
    ensures e <= |s| && (e < |s| ==> s[e] in stops) && forall k :: 0 <= k < e ==> s[k] !in stops
  {
    if s == "" || s[0] in stops then 0 else Until(s[1..], stops) + 1
  }

  /** One more digit behind `v`, in 32-bit arithmetic. */
  function Shifted(v: nat, digit: nat): (r: nat)
    ensures r < UINT32
  {
    (v * 16 % UINT32 + digit) % UINT32
  }

  /** The number that the digits give; anything else counts as zero. */
  function HexNumber(digits: string): (v: nat)
    ensures v < UINT32
  {
    if digits == "" then 0
    else Shifted(HexNumber(digits[..|digits| - 1]), HexVal(digits[|digits| - 1]))
  }

  /** A glyph's line: the code point, a colon, and the bitmap. */
  function GlyphOf(line: string): Option<Glyph> {
    var e := Until(line, {'\0', ':'});
    if e == |line| || line[e] != ':' then None
    else
      var rest := line[e + 1..];
      Some(Glyph(HexNumber(line[..e]), rest[..Until(rest, {'\0', '\n'})]))
  }

  /** Where the line that starts at `i` ends, its newline included; long lines are cut. */
  function LineEnd(text: string, i: nat): (e: nat)
    requires i < |text|
    ensures i < e <= |text| && e - i <= LINE_MAX
  {
    var n := i + Until(text[i..], {'\n'}) + 1;
    if n > i + LINE_MAX then if i + LINE_MAX < |text| then i + LINE_MAX else |text|
    else if n > |text| then |text| else n
  }

  /** The glyphs of the text from `i` on, or nothing if a line is none. */
  function Glyphs(text: string, i: nat): Option<seq<Glyph>>
    requires i <= |text|
    decreases |text| - i
  {
    if i == |text| then Some([])
    else
      var e := LineEnd(text, i);
      if text[i] == '#' then Glyphs(text, e)
      else
        match (GlyphOf(text[i..e]), Glyphs(text, e))
        case (Some(g), Some(gs)) => Some([g] + gs)
        case (_, _) => None
  }

  // ---------------------------------------------------------------- reading a line

  /** `fgets` */
  method ReadLine(text: string, i: nat) returns (e: nat)
    requires i < |text|
    ensures e == LineEnd(text, i)
  {
    e := i;
    while e < |text| && e - i < LINE_MAX && (e == i || text[e - 1] != '\n')
      invariant i <= e <= |text| && e - i <= LINE_MAX && '\n' !in text[i..if e == i then i else e - 1]
      decreases |text| - e
    {
      e := e + 1;
      if e > i + 1 { assert text[i..e - 1] == text[i..e - 2] + [text[e - 2]]; }
    }
    LineEndIs(text, i, e);
  }

  lemma UntilIs(s: string, stops: set<char>, e: nat)
    requires e <= |s| && (e < |s| ==> s[e] in stops) && forall k :: 0 <= k < e ==> s[k] !in stops
    ensures Until(s, stops) == e
  {
  }

  lemma LineEndIs(text: string, i: nat, e: nat)
    requires i < e <= |text| && e - i <= LINE_MAX && '\n' !in text[i..e - 1]
    requires e == |text| || e - i == LINE_MAX || text[e - 1] == '\n'
    ensures LineEnd(text, i) == e
  {
    var rest, n := text[i..], Until(text[i..], {'\n'});
    assert forall k :: 0 <= k < e - 1 - i ==> rest[k] == text[i..e - 1][k];
    if text[e - 1] == '\n' { UntilIs(rest, {'\n'}, e - 1 - i); }
  }

  /** The code point's digits, up to a colon or the terminator. */
  method ReadCodepoint(line: string) returns (val: nat, i: nat)
    ensures i == Until(line, {'\0', ':'}) && val == HexNumber(line[..i])
  {
    hide HexNumber, Until, HexVal;
    val, i := 0, 0;
    assert HexNumber(line[..0]) == 0 by { NoDigits(line[..0]); }
    while i < |line| && line[i] != '\0' && line[i] != ':'
      invariant i <= |line| && val == HexNumber(line[..i])
      invariant forall k :: 0 <= k < i ==> line[k] !in {'\0', ':'}
    {
      val := val * 16 % UINT32;
      val := (val + HexVal(line[i])) % UINT32;
      HexShift(line[..i], line[i]);
      assert line[..i + 1] == line[..i] + [line[i]];
      i := i + 1;
    }
    UntilIs(line, {'\0', ':'}, i);
  }

  /** The bitmap's digits, up to the end of the line. */
  method ReadData(line: string, at: nat) returns (data: string)
    requires at <= |line| <= LINE_MAX
    ensures var rest := line[at..]; data == rest[..Until(rest, {'\0', '\n'})]
  {
    hide Until;
    var rest := line[at..];
    var n := 0;
    data := "";
    while n < |rest| && rest[n] != '\0' && rest[n] != '\n' && n < MAX_DATA_SIZE
      invariant n <= |rest| && data == rest[..n] && forall k :: 0 <= k < n ==> rest[k] !in {'\0', '\n'}
    {
      assert rest[..n + 1] == rest[..n] + [rest[n]];
      data := data + [rest[n]];
      n := n + 1;
    }
    UntilIs(rest, {'\0', '\n'}, n);
  }

  method BuildGlyph(line: string) returns (r: Option<Glyph>)
    requires |line| <= LINE_MAX
    ensures r == GlyphOf(line)
  {
    hide HexNumber, Until;
    var val, i := ReadCodepoint(line);
    if i == |line| || line[i] != ':' { return None; }
    var data := ReadData(line, i + 1);
    r := Some(Glyph(val, data));
  }

  lemma NoDigits(digits: string)
    requires digits == ""
    ensures HexNumber(digits) == 0
  {
  }

  lemma HexShift(digits: string, c: char)
    ensures HexNumber(digits + [c]) == Shifted(HexNumber(digits), HexVal(c))
  {
    hide HexVal, Shifted;
    assert (digits + [c])[..|digits|] == digits;
  }

  // ---------------------------------------------------------------- texts as they are meant

  /** What the lines of a text are. */
  datatype Entry = Remark(text: string) | Line(codepoint: nat, digits: string, data: string)

  /** A digit of either case. */
  predicate SpellsDigit(c: char, v: nat)
    requires v < 16
  {
    c == "0123456789ABCDEF"[v] || c == "0123456789abcdef"[v]
  }

  /** The digits of a number, the last one being the remainder. */
  predicate SpellsNumber(s: string, v: nat) {
    if s == "" then v == 0 else SpellsNumber(s[..|s| - 1], v / 16) && SpellsDigit(s[|s| - 1], v % 16)
  }

  /** Two digits a byte, the high one first. */
  ghost predicate SpellsBytes(s: string, bs: seq<Byte>) {
    && |s| == 2 * |bs|
    && forall i :: 0 <= i < |bs| ==> SpellsDigit(s[2 * i], bs[i] / 16) && SpellsDigit(s[2 * i + 1], bs[i] % 16)
  }

  function Spelt(e: Entry): string {
    match e
    case Remark(text) => "#" + text + "\n"
    case Line(codepoint, digits, data) => digits + ":" + data + "\n"
  }

  /** A line of the length that is read at once; a glyph's code point is spelt by its digits and fits 32 bits. */
  ghost predicate Proper(e: Entry) {
    && |Spelt(e)| <= LINE_MAX
    && match e
       case Remark(text) => '\n' !in text
       case Line(codepoint, digits, data) =>
         SpellsNumber(digits, codepoint) && codepoint < UINT32 && '\n' !in data && '\0' !in data
  }

  function SpeltAll(es: seq<Entry>): string {
    if es == [] then "" else Spelt(es[0]) + SpeltAll(es[1..])
  }

  function Meant(es: seq<Entry>): seq<Glyph> {
    if es == [] then []
    else (if es[0].Line? then [Glyph(es[0].codepoint, es[0].data)] else []) + Meant(es[1..])
  }

  lemma {:induction false} HexIsRead(s: string, v: nat)
    requires SpellsNumber(s, v) && v < UINT32
    ensures HexNumber(s) == v
  {
    hide HexVal, Shifted, SpellsDigit;
    if s != "" {
      HexIsRead(s[..|s| - 1], v / 16);
      DigitIsRead(s[|s| - 1], v % 16);
      LastDigit(v);
    }
  }

  lemma LastDigit(v: nat)
    requires v < UINT32
    ensures Shifted(v / 16, v % 16) == v
  {
  }

  lemma DigitIsRead(c: char, v: nat)
    requires v < 16 && SpellsDigit(c, v)
    ensures HexVal(c) == v && c !in {'\0', ':', '\n', '#'}
  {
  }

  lemma {:induction false} NumberHasDigits(s: string, v: nat, k: nat)
    requires SpellsNumber(s, v) && k < |s|
    ensures s[k] !in {'\0', ':', '\n', '#'}
  {
    if k < |s| - 1 { NumberHasDigits(s[..|s| - 1], v / 16, k); } else { DigitIsRead(s[k], v % 16); }
  }

  lemma LineIsRead(e: Entry)
    requires Proper(e) && e.Line?
    ensures var s := Spelt(e); s[0] != '#' && GlyphOf(s) == Some(Glyph(e.codepoint, e.data))
    ensures '\n' !in Spelt(e)[..|Spelt(e)| - 1]
  {
    var s, n := Spelt(e), |e.digits|;
    forall k | 0 <= k < n ensures s[k] !in {'\0', ':', '\n', '#'} {
      NumberHasDigits(e.digits, e.codepoint, k);
      assert s[k] == e.digits[k];
    }
    UntilIs(s, {'\0', ':'}, n);
    assert s[..n] == e.digits;
    HexIsRead(e.digits, e.codepoint);
    var rest := s[n + 1..];
    assert rest == e.data + "\n";
    UntilIs(rest, {'\0', '\n'}, |e.data|);
    assert rest[..|e.data|] == e.data;
    assert s[..|s| - 1] == e.digits + ":" + e.data;
  }

  lemma EndsAtNewline(e: Entry)
    requires Proper(e)
    ensures var s := Spelt(e); s != "" && s[|s| - 1] == '\n' && '\n' !in s[..|s| - 1]
  {
    var s := Spelt(e);
    if e.Line? { LineIsRead(e); } else { assert s[..|s| - 1] == "#" + e.text; }
  }

  lemma LineStands(done: string, s: string, tail: string)
    requires s != "" && |s| <= LINE_MAX && s[|s| - 1] == '\n' && '\n' !in s[..|s| - 1]
    ensures var text, i := done + s + tail, |done|;
      LineEnd(text, i) == i + |s| && text[i..i + |s|] == s && text[i] == s[0]
  {
    var text, i := done + s + tail, |done|;
    assert text[i..i + |s|] == s;
    assert text[i..i + |s| - 1] == s[..|s| - 1];
    LineEndIs(text, i, i + |s|);
  }

  /** The first line of a text, the lines behind it being read as `rest`. */
  lemma FirstIsRead(done: string, e: Entry, tail: string, rest: seq<Glyph>)
    requires Proper(e) && Glyphs(done + Spelt(e) + tail, |done + Spelt(e)|) == Some(rest)
    ensures Glyphs(done + Spelt(e) + tail, |done|)
         == Some(if e.Line? then [Glyph(e.codepoint, e.data)] + rest else rest)
  {
    var s := Spelt(e);
    EndsAtNewline(e);
    LineStands(done, s, tail);
    if e.Line? { LineIsRead(e); }
    hide GlyphOf, LineEnd, Proper;
  }

  /** A text of proper lines is read as what it means. */
  lemma {:induction false} SpeltIsRead(done: string, es: seq<Entry>)
    requires forall e :: e in es ==> Proper(e)
    ensures Glyphs(done + SpeltAll(es), |done|) == Some(Meant(es))
    decreases |es|
  {
    hide Glyphs, Proper, Spelt;
    if es == [] {
      NothingLeft(done);
      assert done + "" == done;
    } else {
      var s, tail := Spelt(es[0]), SpeltAll(es[1..]);
      assert done + SpeltAll(es) == done + s + tail;
      SpeltIsRead(done + s, es[1..]);
      FirstIsRead(done, es[0], tail, Meant(es[1..]));
      assert [] + Meant(es[1..]) == Meant(es[1..]);
    }
  }

  lemma NothingLeft(text: string)
    ensures Glyphs(text, |text|) == Some([])
  {
  }

  /** And in particular from its beginning. */
  lemma TextIsRead(es: seq<Entry>)
    requires forall e :: e in es ==> Proper(e)
    ensures Glyphs(SpeltAll(es), 0) == Some(Meant(es))
  {
    assert "" + SpeltAll(es) == SpeltAll(es);
    SpeltIsRead("", es);
  }
}
