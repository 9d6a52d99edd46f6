/** Commands as they are written: which spellings the splitter reads as which words, and which it refuses. */
module SplitGrammar {
  import opened Memory
  import opened Split

  /** A piece of a word: a plain character, one behind a backslash, or quoted text. */
  datatype Part =
    | Bare(c: char)
    | Behind(c: char)
    | Doubled(spelling: string, text: string)
    | Singled(text: string)

  /** How a command ends: with its last word, or inside a quote, or with a backslash that has nothing behind it. */
  datatype Ending = Closed | OpenDouble(spelling: string) | OpenSingle(text: string) | LoneBackslash

  /** `t` between double quotes stands for `w`: a backslash counts only before a quote or another one. */
  predicate Within(t: string, w: string) {
    if t == "" then w == ""
    else if w == "" || t[0] == '"' then false
    else if t[0] == '\\' then
      && |t| > 1
      && if t[1] in {'"', '\\'} then w[0] == t[1] && Within(t[2..], w[1..])
         else w[0] == '\\' && Within(t[1..], w[1..])
    else w[0] == t[0] && Within(t[1..], w[1..])
  }

  /** `t` behind a double quote does not close it. */
  predicate Unclosed(t: string) {
    if t == "" then true
    else if t[0] == '"' then false
    else if t[0] == '\\' && |t| > 1 && t[1] in {'"', '\\'} then Unclosed(t[2..])
    else Unclosed(t[1..])
  }

  predicate GoodPart(p: Part) {
    match p
    case Bare(c) => c !in {' ', '\t', '"', '\'', '\\'}
    case Behind(c) => true
    case Doubled(spelling, text) => Within(spelling, text)
    case Singled(text) => '\'' !in text
  }

  predicate GoodEnding(e: Ending) {
    match e
    case Closed => true
    case OpenDouble(spelling) => Unclosed(spelling)
    case OpenSingle(text) => '\'' !in text
    case LoneBackslash => true
  }

  function SpellPart(p: Part): string {
    match p
    case Bare(c) => [c]
    case Behind(c) => ['\\', c]
    case Doubled(spelling, text) => "\"" + spelling + "\""
    case Singled(text) => "'" + text + "'"
  }

  function SpellEnding(e: Ending): string {
    match e
    case Closed => ""
    case OpenDouble(spelling) => "\"" + spelling
    case OpenSingle(text) => "'" + text
    case LoneBackslash => "\\"
  }

  function Text(p: Part): string {
    match p
    case Bare(c) => [c]
    case Behind(c) => [c]
    case Doubled(spelling, text) => text
    case Singled(text) => text
  }

  function SpellWord(ps: seq<Part>): string {
    if ps == [] then "" else SpellPart(ps[0]) + SpellWord(ps[1..])
  }

  function WordText(ps: seq<Part>): string {
    if ps == [] then "" else Text(ps[0]) + WordText(ps[1..])
  }

  /** The words with blanks between them; words without parts make for longer runs of blanks. */
  function Spell(ws: seq<seq<Part>>, blanks: string): string
    requires |ws| == |blanks| + 1
  {
    if blanks == "" then SpellWord(ws[0]) else SpellWord(ws[0]) + [blanks[0]] + Spell(ws[1..], blanks[1..])
  }

  function Texts(ws: seq<seq<Part>>): seq<string> {
    if ws == [] then [] else [WordText(ws[0])] + Texts(ws[1..])
  }

  /** The command `s` is written as these words, blanks and ending. */
  ghost predicate Written(s: string, ws: seq<seq<Part>>, blanks: string, e: Ending) {
    && |ws| == |blanks| + 1 && s == Spell(ws, blanks) + SpellEnding(e)
    && GoodEnding(e) && Blanks(blanks) && GoodWords(ws)
  }

  ghost predicate Blanks(blanks: string) {
    forall i :: 0 <= i < |blanks| ==> IsSpace(blanks[i])
  }

  ghost predicate GoodWord(ps: seq<Part>) {
    forall i :: 0 <= i < |ps| ==> GoodPart(ps[i])
  }

  ghost predicate GoodWords(ws: seq<seq<Part>>) {
    forall i :: 0 <= i < |ws| ==> GoodWord(ws[i])
  }

  // ---------------------------------------------------------------- reading what is written

  lemma SwitchStep(s: string, q: Quote, word: string)
    requires s != "" && Next(s, q).Switch?
    ensures Words(s, q, word) == Words(s[1..], Next(s, q).quote, word)
  {
  }

  lemma {:induction false} SingledIsRead(t: string, rest: string, word: string)
    requires '\'' !in t
    ensures Words(t + ("'" + rest), Single, word) == Words(rest, Unquoted, word + t)
  {
    var s := t + ("'" + rest);
    if t == "" {
      assert s == "'" + rest && s[1..] == rest && word + t == word;
      SwitchStep(s, Single, word);
    } else {
      assert s[0] == t[0] && s[1..] == t[1..] + ("'" + rest) && word + [t[0]] + t[1..] == word + t;
      LetterStep(s, Single, word);
      SingledIsRead(t[1..], rest, word + [t[0]]);
    }
  }

  lemma {:induction false} DoubledIsRead(t: string, w: string, rest: string, word: string)
    requires Within(t, w)
    ensures Words(t + ("\"" + rest), Double, word) == Words(rest, Unquoted, word + w)
    decreases |t|
  {
    hide Words;
    var s := t + ("\"" + rest);
    if t == "" {
      assert s == "\"" + rest && s[1..] == rest && word + w == word;
      SwitchStep(s, Double, word);
    } else {
      var n := if t[0] == '\\' && t[1] in {'"', '\\'} then 2 else 1;
      assert s[..n] == t[..n] && s[n..] == t[n..] + ("\"" + rest) && word + [w[0]] + w[1..] == word + w;
      assert |t| > 1 ==> s[1] == t[1];
      assert Next(s, Double) == Letter(w[0], n);
      LetterStep(s, Double, word);
      DoubledIsRead(t[n..], w[1..], rest, word + [w[0]]);
    }
  }

  lemma QuotedIsRead(p: Part, rest: string, word: string)
    requires GoodPart(p) && (p.Doubled? || p.Singled?)
    ensures Words(SpellPart(p) + rest, Unquoted, word) == Words(rest, Unquoted, word + Text(p))
  {
    hide Words, Within;
    var s := SpellPart(p) + rest;
    if p.Doubled? {
      assert s[1..] == p.spelling + ("\"" + rest);
      SwitchStep(s, Unquoted, word);
      DoubledIsRead(p.spelling, p.text, rest, word);
    } else {
      assert s[1..] == p.text + ("'" + rest);
      SwitchStep(s, Unquoted, word);
      SingledIsRead(p.text, rest, word);
    }
  }

  lemma PartIsRead(p: Part, rest: string, word: string)
    requires GoodPart(p)
    ensures Words(SpellPart(p) + rest, Unquoted, word) == Words(rest, Unquoted, word + Text(p))
  {
    hide Words, Within;
    if p.Bare? || p.Behind? {
      var s := SpellPart(p) + rest;
      assert s[|SpellPart(p)|..] == rest;
      LetterStep(s, Unquoted, word);
    } else {
      QuotedIsRead(p, rest, word);
    }
  }

  lemma {:induction false} WordIsRead(ps: seq<Part>, rest: string, word: string)
    requires GoodWord(ps)
    ensures Words(SpellWord(ps) + rest, Unquoted, word) == Words(rest, Unquoted, word + WordText(ps))
  {
    hide Words, GoodPart, SpellPart, Text;
    if ps == [] {
      assert "" + rest == rest && word + "" == word;
    } else {
      assert SpellWord(ps) + rest == SpellPart(ps[0]) + (SpellWord(ps[1..]) + rest);
      PartIsRead(ps[0], SpellWord(ps[1..]) + rest, word);
      WordIsRead(ps[1..], rest, word + Text(ps[0]));
      assert word + Text(ps[0]) + WordText(ps[1..]) == word + WordText(ps);
    }
  }

  lemma {:induction false} NeverClosed(t: string, q: Quote, word: string)
    requires (q == Single && '\'' !in t) || (q == Double && Unclosed(t))
    ensures Words(t, q, word) == None
    decreases |t|
  {
    if t != "" {
      var n := if q == Double && t[0] == '\\' && |t| > 1 && t[1] in {'"', '\\'} then 2 else 1;
      NeverClosed(t[n..], q, word + [Next(t, q).c]);
    }
  }

  lemma OneText(w: string)
    ensures NonEmpty([w]) == if w == "" then [] else [w]
  {
    assert [w][1..] == [] && NonEmpty([w][1..]) == [];
  }

  /** What the end of a command comes to, a word being begun. */
  lemma EndingIsRead(e: Ending, word: string)
    requires GoodEnding(e)
    ensures Words(SpellEnding(e), Unquoted, word) == if e.Closed? then Some(NonEmpty([word])) else None
  {
    hide Unclosed;
    var s := SpellEnding(e);
    match e {
      case Closed =>
        OneText(word);
      case OpenDouble(spelling) =>
        assert s[1..] == spelling;
        SwitchStep(s, Unquoted, word);
        NeverClosed(spelling, Double, word);
      case OpenSingle(text) =>
        assert s[1..] == text;
        SwitchStep(s, Unquoted, word);
        NeverClosed(text, Single, word);
      case LoneBackslash =>
    }
  }

  lemma BreakStep(c: char, tail: string, word: string)
    requires IsSpace(c) && Words(tail, Unquoted, "").Some?
    ensures Words([c] + tail, Unquoted, word) == Some(NonEmpty([word]) + Words(tail, Unquoted, "").value)
  {
    assert ([c] + tail)[1..] == tail;
    OneText(word);
    assert [] + Words(tail, Unquoted, "").value == Words(tail, Unquoted, "").value;
  }

  lemma NoBreak(c: char, tail: string, word: string)
    requires IsSpace(c) && Words(tail, Unquoted, "").None?
    ensures Words([c] + tail, Unquoted, word) == None
  {
    assert ([c] + tail)[1..] == tail;
  }

  lemma FirstText(w: string, ts: seq<string>)
    ensures NonEmpty([w] + ts) == NonEmpty([w]) + NonEmpty(ts)
  {
    assert ([w] + ts)[1..] == ts && [w][1..] == [];
  }

  /** The first word, the rest of the command being read as `r`. */
  lemma FirstIsRead(w: seq<Part>, c: char, tail: string, r: Option<seq<string>>)
    requires GoodWord(w) && IsSpace(c) && Words(tail, Unquoted, "") == r
    ensures Words(SpellWord(w) + ([c] + tail), Unquoted, "")
         == if r.Some? then Some(NonEmpty([WordText(w)]) + r.value) else None
  {
    hide Words, NonEmpty, GoodPart, SpellWord, WordText;
    WordIsRead(w, [c] + tail, "");
    assert "" + WordText(w) == WordText(w);
    if r.Some? { BreakStep(c, tail, WordText(w)); } else { NoBreak(c, tail, WordText(w)); }
  }

  lemma LastIsRead(w: seq<Part>, e: Ending)
    requires GoodWord(w) && GoodEnding(e)
    ensures Words(SpellWord(w) + SpellEnding(e), Unquoted, "")
         == if e.Closed? then Some(NonEmpty([WordText(w)])) else None
  {
    hide Words, NonEmpty, GoodPart, GoodEnding, SpellEnding, SpellWord, WordText;
    WordIsRead(w, SpellEnding(e), "");
    assert "" + WordText(w) == WordText(w);
    EndingIsRead(e, WordText(w));
  }

  /** What is written is read: the words come back without the empty ones, in whatever style each part of them is given,
      and a command that does not end properly is refused. */
  lemma {:induction false} WrittenIsRead(s: string, ws: seq<seq<Part>>, blanks: string, e: Ending)
    requires Written(s, ws, blanks, e)
    ensures Words(s, Unquoted, "") == if e.Closed? then Some(NonEmpty(Texts(ws))) else None
    decreases |blanks|
  {
    hide Words, NonEmpty, GoodPart, GoodEnding, SpellEnding, SpellWord, WordText, IsSpace;
    if blanks == "" {
      LastIsRead(ws[0], e);
      assert Texts(ws) == [WordText(ws[0])];
    } else {
      var tail := Spell(ws[1..], blanks[1..]) + SpellEnding(e);
      assert s == SpellWord(ws[0]) + ([blanks[0]] + tail);
      WrittenIsRead(tail, ws[1..], blanks[1..], e);
      FirstIsRead(ws[0], blanks[0], tail, Words(tail, Unquoted, ""));
      FirstText(WordText(ws[0]), Texts(ws[1..]));
    }
  }

  // ---------------------------------------------------------------- every command is written so

  lemma WordInFront(w: seq<Part>, ws: seq<seq<Part>>, c: char, blanks: string)
    requires |ws| == |blanks| + 1 && GoodWord(w) && GoodWords(ws) && IsSpace(c) && Blanks(blanks)
    ensures GoodWords([w] + ws) && Blanks([c] + blanks)
    ensures Spell([w] + ws, [c] + blanks) == SpellWord(w) + [c] + Spell(ws, blanks)
  {
    hide GoodWord, SpellWord, IsSpace;
    assert ([w] + ws)[1..] == ws && ([c] + blanks)[1..] == blanks;
  }

  lemma BlankInFront(c: char, s: string, ws: seq<seq<Part>>, blanks: string, e: Ending)
    requires IsSpace(c) && Written(s, ws, blanks, e)
    ensures Written([c] + s, [[]] + ws, [c] + blanks, e)
  {
    hide GoodWord, GoodWords, Blanks, GoodEnding, SpellEnding, Spell, IsSpace;
    EmptyWord();
    WordInFront([], ws, c, blanks);
    assert [c] + s == "" + [c] + Spell(ws, blanks) + SpellEnding(e);
  }

  lemma EmptyWord()
    ensures GoodWord([]) && SpellWord([]) == ""
  {
  }

  /** One more part in front of the first word. */
  lemma PartInFront(p: Part, s: string, ws: seq<seq<Part>>, blanks: string, e: Ending)
    requires GoodPart(p) && Written(s, ws, blanks, e)
    ensures Written(SpellPart(p) + s, [[p] + ws[0]] + ws[1..], blanks, e)
  {
    hide GoodPart, GoodEnding, SpellPart, SpellEnding;
    var first := [p] + ws[0];
    var ws' := [first] + ws[1..];
    assert first[1..] == ws[0] && ws'[1..] == ws[1..];
    assert SpellWord(first) == SpellPart(p) + SpellWord(ws[0]);
    assert Spell(ws', blanks) == SpellPart(p) + Spell(ws, blanks);
    assert GoodWord(first) && GoodWords(ws');
  }

  lemma OnlyEnding(e: Ending)
    requires GoodEnding(e)
    ensures Written(SpellEnding(e), [[]], "", e)
  {
  }

  /** The text up to the closing double quote, if there is one. */
  lemma {:induction false} FindClosing(t: string) returns (n: nat, w: string)
    ensures n <= |t| && if n < |t| then t[n] == '"' && Within(t[..n], w) else Unclosed(t)
    decreases |t|
  {
    n, w := 0, "";
    if t != "" && t[0] != '"' {
      var k := if t[0] == '\\' && |t| > 1 && t[1] in {'"', '\\'} then 2 else 1;
      n, w := FindClosing(t[k..]);
      n, w := n + k, [t[k - 1]] + w;
      if n < |t| { assert t[..n][k..] == t[k..][..n - k] && w[1..] == w[1..]; }
    }
  }

  lemma FindSingle(t: string) returns (n: nat)
    ensures n <= |t| && '\'' !in t[..n] && (n < |t| ==> t[n] == '\'')
  {
    n := Find(t, 0);
  }

  lemma {:induction false} Find(t: string, i: nat) returns (n: nat)
    requires i <= |t| && '\'' !in t[..i]
    ensures i <= n <= |t| && '\'' !in t[..n] && (n < |t| ==> t[n] == '\'')
    decreases |t| - i
  {
    n := i;
    if i < |t| && t[i] != '\'' {
      assert t[..i + 1] == t[..i] + [t[i]];
      n := Find(t, i + 1);
    }
  }

  /** Every command is written in one of these ways. */
  lemma {:induction false} EveryCommandIsWritten(s: string)
    returns (ws: seq<seq<Part>>, blanks: string, e: Ending)
    ensures Written(s, ws, blanks, e)
    decreases |s|
  {
    hide Written, Within, Unclosed;
    if s == "" {
      OnlyEnding(Closed);
      return [[]], "", Closed;
    }
    if IsSpace(s[0]) {
      ws, blanks, e := EveryCommandIsWritten(s[1..]);
      BlankInFront(s[0], s[1..], ws, blanks, e);
      assert [s[0]] + s[1..] == s;
      ws, blanks := [[]] + ws, [s[0]] + blanks;
      return;
    }
    var p, n;
    p, n, e := FirstPart(s);
    if p.None? {
      OnlyEnding(e);
      return [[]], "", e;
    }
    ws, blanks, e := EveryCommandIsWritten(s[n..]);
    assert Written(s[n..], ws, blanks, e) && |ws| > 0 by { WrittenHasWords(s[n..], ws, blanks, e); }
    PartInFront(p.value, s[n..], ws, blanks, e);
    assert SpellPart(p.value) + s[n..] == s;
    ws := [[p.value] + ws[0]] + ws[1..];
  }

  lemma WrittenHasWords(s: string, ws: seq<seq<Part>>, blanks: string, e: Ending)
    requires Written(s, ws, blanks, e)
    ensures |ws| > 0
  {
  }

  /** The part that a command starts with, unless its end is reached first. */
  lemma FirstPart(s: string) returns (p: Option<Part>, n: nat, e: Ending)
    requires s != "" && !IsSpace(s[0])
    ensures p.Some? ==> 0 < n <= |s| && s[..n] == SpellPart(p.value) && GoodPart(p.value)
    ensures p.None? ==> SpellEnding(e) == s && GoodEnding(e)
  {
    hide Within, Unclosed;
    e, n := Closed, 0;
    if s[0] == '\\' {
      if |s| == 1 { return None, 0, LoneBackslash; }
      p, n := Some(Behind(s[1])), 2;
    } else if s[0] == '"' {
      p, n, e := DoubledPart(s, s[1..]);
    } else if s[0] == '\'' {
      p, n, e := SingledPart(s, s[1..]);
    } else {
      p, n := Some(Bare(s[0])), 1;
    }
  }

  lemma DoubledPart(s: string, t: string) returns (p: Option<Part>, n: nat, e: Ending)
    requires s == "\"" + t
    ensures p.Some? ==> 0 < n <= |s| && s[..n] == SpellPart(p.value) && GoodPart(p.value)
    ensures p.None? ==> SpellEnding(e) == s && GoodEnding(e)
  {
    hide Within, Unclosed;
    var k, w := FindClosing(t);
    if k == |t| { return None, 0, OpenDouble(t); }
    return Some(Doubled(t[..k], w)), k + 2, Closed;
  }

  lemma SingledPart(s: string, t: string) returns (p: Option<Part>, n: nat, e: Ending)
    requires s == "'" + t
    ensures p.Some? ==> 0 < n <= |s| && s[..n] == SpellPart(p.value) && GoodPart(p.value)
    ensures p.None? ==> SpellEnding(e) == s && GoodEnding(e)
  {
    var k := FindSingle(t);
    if k == |t| {
      assert t[..k] == t;
      return None, 0, OpenSingle(t);
    }
    return Some(Singled(t[..k])), k + 2, Closed;
  }

  // ---------------------------------------------------------------- what is accepted, what is refused

  /** A command is split into the words `r` just if it can be written as them, with any blanks between. */
  lemma SplitIff(s: string, r: seq<string>)
    ensures Words(s, Unquoted, "") == Some(r) <==>
      exists ws: seq<seq<Part>>, blanks: string :: Written(s, ws, blanks, Closed) && r == NonEmpty(Texts(ws))
  {
    hide Words, Written;
    forall ws: seq<seq<Part>>, blanks: string | Written(s, ws, blanks, Closed)
      ensures Words(s, Unquoted, "") == Some(NonEmpty(Texts(ws)))
    {
      WrittenIsRead(s, ws, blanks, Closed);
    }
    var ws, blanks, e := EveryCommandIsWritten(s);
    WrittenIsRead(s, ws, blanks, e);
  }

  /** And it is refused just if it ends in an open quote of either kind, or with a backslash that stands alone. */
  lemma RefusedIff(s: string)
    ensures Words(s, Unquoted, "") == None <==>
      exists ws: seq<seq<Part>>, blanks: string, e: Ending :: Written(s, ws, blanks, e) && !e.Closed?
  {
    hide Words, Written;
    forall ws: seq<seq<Part>>, blanks: string, e: Ending | Written(s, ws, blanks, e) && !e.Closed?
      ensures Words(s, Unquoted, "") == None
    {
      WrittenIsRead(s, ws, blanks, e);
    }
    var ws, blanks, e := EveryCommandIsWritten(s);
    WrittenIsRead(s, ws, blanks, e);
  }
}
