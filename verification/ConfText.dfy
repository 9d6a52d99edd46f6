/** Configuration files as they are written: lines that give options, blanks and comments anywhere. */
module ConfText {
  import opened Memory
  import opened Conf

  /** A line: the key between blanks, perhaps an equals sign with a value between blanks, perhaps a comment. */
  datatype Line = Line(lead: seq<Byte>, key: seq<Byte>, tail: seq<Byte>, value: Option<Given>,
                       comment: Option<seq<Byte>>)

  datatype Given = Given(lead: seq<Byte>, value: seq<Byte>, tail: seq<Byte>)

  /** Spaces, tabulators and carriage returns. */
  ghost predicate Blanks(s: seq<Byte>) {
    forall i :: 0 <= i < |s| ==> s[i] == 32 || s[i] == 9 || s[i] == 13
  }

  /** The text does not begin or end with a blank, and holds no terminator, newline or hash. */
  ghost predicate Plain(s: seq<Byte>) {
    && 0 !in s && 10 !in s && 35 !in s
    && (s != [] ==> s[0] !in {32, 9, 13} && s[|s| - 1] !in {32, 9, 13})
  }

  /** A key has no equals sign; a value may have some. */
  ghost predicate Good(l: Line) {
    && Blanks(l.lead) && Plain(l.key) && 61 !in l.key && Blanks(l.tail)
    && (l.value.Some? ==> Blanks(l.value.value.lead) && Plain(l.value.value.value) && Blanks(l.value.value.tail))
    && (l.comment.Some? ==> 10 !in l.comment.value)
  }

  function Front(l: Line): seq<Byte> {
    l.lead + l.key + l.tail
  }

  function Body(l: Line): seq<Byte> {
    Front(l)
      + match l.value
        case None => []
        case Some(g) => [61] + (g.lead + g.value + g.tail)
  }

  /** The line without its newline. */
  function Spelt(l: Line): seq<Byte> {
    Body(l) + match l.comment
      case None => []
      case Some(text) => [35] + text
  }

  function SpeltAll(ls: seq<Line>): seq<Byte> {
    if ls == [] then [] else Spelt(ls[0]) + [10] + SpeltAll(ls[1..])
  }

  function PairOf(l: Line): Pair {
    Pair(l.key, match l.value case None => None case Some(g) => Some(g.value))
  }

  /** The pairs that the lines mean; those without a key mean none. */
  function Meant(ls: seq<Line>): seq<Pair> {
    if ls == [] then [] else (if ls[0].key == [] then [] else [PairOf(ls[0])]) + Meant(ls[1..])
  }

  // ---------------------------------------------------------------- one line

  lemma Padded(l: seq<Byte>, k: seq<Byte>, r: seq<Byte>)
    requires Blanks(l) && Plain(k) && Blanks(r)
    ensures Text(l + k + r) == k
  {
    var s := l + k + r;
    HasNone(l, k, r, 0);
    FindIs(s, 0, {0}, |s|);
    assert UntilNul(s) == s;
    var a, b := TrimIsTheMiddle(s);
    TrimmedAt(l, k, r, a, b);
  }

  /** What lies between the blanks at both ends is the text. */
  lemma TrimmedAt(l: seq<Byte>, k: seq<Byte>, r: seq<Byte>, a: nat, b: nat)
    requires Blanks(l) && Plain(k) && Blanks(r) && a <= b <= |l + k + r|
    requires var s := l + k + r;
      && (forall i :: 0 <= i < |s| && !(a <= i < b) ==> Blank(s[i]))
      && (a < b ==> !Blank(s[a]) && !Blank(s[b - 1]))
    ensures (l + k + r)[a..b] == k
  {
    var s, n := l + k + r, |l|;
    assert forall i :: 0 <= i < n ==> s[i] == l[i];
    assert forall i :: 0 <= i < |k| ==> s[n + i] == k[i];
    assert forall i :: n + |k| <= i < |s| ==> s[i] == r[i - n - |k|];
    if k != [] {
      assert s[n] == k[0] && s[n + |k| - 1] == k[|k| - 1];
      assert a == n && b == n + |k|;
    }
  }

  /** A byte that is no blank and not in the text is not in the padded text. */
  lemma HasNone(l: seq<Byte>, k: seq<Byte>, r: seq<Byte>, c: Byte)
    requires Blanks(l) && Blanks(r) && c !in k && c !in {32, 9, 13}
    ensures c !in l + k + r
  {
  }

  lemma BodyHasNone(l: Line, c: Byte)
    requires Good(l) && (c == 10 || c == 35)
    ensures c !in Body(l)
  {
    HasNone(l.lead, l.key, l.tail, c);
    if l.value.Some? { HasNone(l.value.value.lead, l.value.value.value, l.value.value.tail, c); }
  }

  lemma FirstStop(a: seq<Byte>, b: seq<Byte>, stop: Byte)
    requires stop !in a && (b == [] || b[0] == stop)
    ensures Find(a + b, 0, {stop}) == |a| && (a + b)[..|a|] == a && (a + b)[|a|..] == b
  {
    FindIs(a + b, 0, {stop}, |a|);
  }

  lemma KeyEnds(l: Line)
    requires 61 !in Front(l)
    ensures var q := Find(Body(l), 0, {EQUALS});
      && q == |Front(l)| && Body(l)[..q] == Front(l) && (q < |Body(l)| <==> l.value.Some?)
      && (l.value.Some? ==> var g := l.value.value; Body(l)[q + 1..] == g.lead + g.value + g.tail)
  {
    match l.value {
      case None =>
        assert Body(l) == Front(l) + [];
        FirstStop(Front(l), [], EQUALS);
      case Some(g) =>
        FirstStop(Front(l), [61] + (g.lead + g.value + g.tail), EQUALS);
    }
  }

  /** The comment starts at the first hash, the value behind the first equals sign. */
  lemma LineIsRead(l: Line)
    requires Good(l)
    ensures LinePair(Spelt(l)) == PairOf(l)
  {
    hide Text, Find, Plain, Blanks, Body, Spelt;
    BodyHasNone(l, 35);
    CommentGoes(l);
    HasNone(l.lead, l.key, l.tail, 61);
    KeyEnds(l);
    Padded(l.lead, l.key, l.tail);
    if l.value.Some? { Padded(l.value.value.lead, l.value.value.value, l.value.value.tail); }
  }

  lemma CommentGoes(l: Line)
    requires 35 !in Body(l)
    ensures var s := Spelt(l); s[..Find(s, 0, {HASH})] == Body(l)
  {
    match l.comment
    case None => FirstStop(Body(l), [], HASH);
    case Some(text) => FirstStop(Body(l), [35] + text, HASH);
  }

  // ---------------------------------------------------------------- whole files

  lemma LineHasNoNewline(l: Line)
    requires Good(l)
    ensures 10 !in Spelt(l)
  {
    BodyHasNone(l, 10);
  }

  lemma ReadingStep(s: seq<Byte>, i: nat, e: nat)
    requires i <= e < |s| && Find(s, i, {NEWLINE}) == e
    ensures var p := LinePair(s[i..e]); Reading(s, i) == (if p.key == [] then [] else [p]) + Reading(s, e + 1)
  {
    hide Find, LinePair;
  }

  lemma LineStands(done: seq<Byte>, line: seq<Byte>, tail: seq<Byte>)
    requires 10 !in line
    ensures
      var s, e := done + (line + [10]) + tail, |done| + |line|;
      e < |s| && s[|done|..e] == line && Find(s, |done|, {NEWLINE}) == e
  {
    var s, e := done + (line + [10]) + tail, |done| + |line|;
    assert s[|done|..e] == line && s[e] == 10;
    assert forall k :: |done| <= k < e ==> s[k] == line[k - |done|];
    FindIs(s, |done|, {NEWLINE}, e);
  }

  /** The first line of what is left to read, the lines behind it being read as `rest`. */
  lemma FirstIsRead(done: seq<Byte>, l: Line, tail: seq<Byte>, rest: seq<Pair>)
    requires Good(l) && Reading(done + (Spelt(l) + [10]) + tail, |done| + |Spelt(l)| + 1) == rest
    ensures Reading(done + (Spelt(l) + [10]) + tail, |done|) == (if l.key == [] then [] else [PairOf(l)]) + rest
  {
    hide LinePair, Good, Find, Spelt, Reading;
    var s := done + (Spelt(l) + [10]) + tail;
    LineHasNoNewline(l);
    LineIsRead(l);
    LineStands(done, Spelt(l), tail);
    ReadingStep(s, |done|, |done| + |Spelt(l)|);
  }

  /** A file is read as what its lines mean, behind whatever was read before. */
  lemma {:induction false} LinesAreRead(done: seq<Byte>, ls: seq<Line>)
    requires forall i :: 0 <= i < |ls| ==> Good(ls[i])
    ensures Reading(done + SpeltAll(ls), |done|) == Meant(ls)
    decreases |ls|
  {
    hide Reading, Good, Spelt;
    if ls == [] {
      NothingLeft(done);
      assert done + [] == done;
    } else {
      var line, tail := Spelt(ls[0]) + [10], SpeltAll(ls[1..]);
      assert done + SpeltAll(ls) == done + line + tail;
      LinesAreRead(done + line, ls[1..]);
      FirstIsRead(done, ls[0], tail, Meant(ls[1..]));
    }
  }

  lemma NothingLeft(s: seq<Byte>)
    ensures Reading(s, |s|) == []
  {
  }

  /** And so from its beginning: keys and values come back without blanks and comments, in order. */
  lemma FileIsRead(ls: seq<Line>)
    requires forall i :: 0 <= i < |ls| ==> Good(ls[i])
    ensures Reading(SpeltAll(ls), 0) == Meant(ls)
  {
    assert [] + SpeltAll(ls) == SpeltAll(ls);
    LinesAreRead([], ls);
  }
}
