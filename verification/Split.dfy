/** String splitters that count first and fill afterwards.  The counting pass sizes one buffer; the
    filling pass must meet exactly as many words and bytes, or it would leave the buffer. */
module Split {
  import opened Memory

  const NUL: char := '\0'

  // ---------------------------------------------------------------- the buffer's layout

  /** Words one after the other, each with a terminator. */
  function Layout(ws: seq<string>): string {
    if ws == [] then "" else Layout(ws[..|ws| - 1]) + ws[|ws| - 1] + [NUL]
  }

  /** Where word `k` starts. */
  function Start(ws: seq<string>, k: nat): nat
    requires k <= |ws|
  {
    |Layout(ws[..k])|
  }

  lemma LayoutAppend(ws: seq<string>, w: string)
    ensures Layout(ws + [w]) == Layout(ws) + w + [NUL]
  {
    assert (ws + [w])[..|ws|] == ws;
  }

  lemma {:induction false} LayoutPrefix(ws: seq<string>, k: nat)
    requires k <= |ws|
    ensures Layout(ws[..k]) <= Layout(ws)
  {
    if k < |ws| {
      LayoutPrefix(ws[..|ws| - 1], k);
      assert ws[..|ws| - 1][..k] == ws[..k];
    } else {
      assert ws[..k] == ws;
    }
  }

  lemma {:induction false} LayoutWord(ws: seq<string>, k: nat)
    requires k < |ws|
    ensures Layout(ws[..k]) + ws[k] + [NUL] <= Layout(ws)
  {
    assert ws[..k + 1] == ws[..k] + [ws[k]];
    LayoutAppend(ws[..k], ws[k]);
    LayoutPrefix(ws, k + 1);
  }

  /** `buf` holds the words `ws` at the offsets in `list`. */
  ghost predicate Holds(buf: seq<char>, list: seq<int>, ws: seq<string>) {
    && |list| == |ws|
    && forall k :: 0 <= k < |ws| ==> HoldsWord(buf, list[k], ws[k])
  }

  ghost predicate HoldsWord(buf: seq<char>, at: int, w: string) {
    0 <= at && at + |w| < |buf| && buf[at..at + |w|] == w && buf[at + |w|] == NUL
  }

  ghost predicate Starts(list: seq<int>, done: seq<string>) {
    && |done| <= |list| <= |done| + 1
    && forall k :: 0 <= k < |list| ==> list[k] == Start(done, k)
  }

  lemma LayoutHolds(ws: seq<string>, list: seq<int>)
    requires |list| == |ws| && Starts(list, ws)
    ensures Holds(Layout(ws), list, ws)
  {
    forall k | 0 <= k < |ws| ensures HoldsWord(Layout(ws), list[k], ws[k]) {
      LayoutWord(ws, k);
      var p := Layout(ws[..k]) + ws[k] + [NUL];
      assert p[|Layout(ws[..k])|..|p| - 1] == ws[k];
    }
  }

  // ---------------------------------------------------------------- the quoting grammar

  datatype Quote = Unquoted | Double | Single

  predicate IsSpace(c: char) { c == ' ' || c == '\t' }

  /** What the next character of the command means. */
  datatype Token =
    | Break                                // ends a word
    | Switch(quote: Quote)                 // opens or closes a quote
    | Letter(c: char, width: nat)          // one character of a word, `width` characters of input
    | Error                                // a backslash at the very end

  function Next(s: string, q: Quote): (t: Token)
    requires s != ""
    ensures t.Letter? ==> 0 < t.width <= |s|
  {
    var c := s[0];
    if IsSpace(c) then (if q.Unquoted? then Break else Letter(c, 1))
    else if c == '"' then
      match q { case Unquoted => Switch(Double) case Double => Switch(Unquoted) case Single => Letter(c, 1) }
    else if c == '\'' then
      match q { case Unquoted => Switch(Single) case Single => Switch(Unquoted) case Double => Letter(c, 1) }
    else if c == '\\' then
      match q {
        case Unquoted => if |s| == 1 then Error else Letter(s[1], 2)
        case Double => if |s| > 1 && (s[1] == '"' || s[1] == '\\') then Letter(s[1], 2) else Letter(c, 1)
        case Single => Letter(c, 1)
      }
    else Letter(c, 1)
  }

  /** The words of a command, `word` being the one begun already; quotes must be closed. */
  function Words(s: string, q: Quote, word: string): Option<seq<string>> {
    if s == "" then
      if !q.Unquoted? then None else Some(if word == "" then [] else [word])
    else match Next(s, q)
      case Break =>
        if word == "" then Words(s[1..], q, "")
        else (match Words(s[1..], q, "") case None => None case Some(ws) => Some([word] + ws))
      case Switch(p) => Words(s[1..], p, word)
      case Letter(c, width) => Words(s[width..], q, word + [c])
      case Error => None
  }

  /** A begun word ends up at the front. */
  lemma {:induction false} BegunWordIsFirst(s: string, q: Quote, word: string)
    requires Words(s, q, word).Some? && word != ""
    ensures Words(s, q, word).value != [] && word <= Words(s, q, word).value[0]
    decreases |s|
  {
    if s != "" {
      match Next(s, q)
      case Break =>
      case Switch(p) => BegunWordIsFirst(s[1..], p, word);
      case Letter(c, width) => BegunWordIsFirst(s[width..], q, word + [c]);
      case Error =>
    }
  }

  /** The number of words and of buffer bytes that the counting pass finds. */
  datatype Tally = Tally(num: nat, size: nat)

  function TallyOf(ws: seq<string>): Tally {
    Tally(|ws|, |Layout(ws)|)
  }

  lemma {:induction false} LayoutFront(w: string, ws: seq<string>)
    ensures Layout([w] + ws) == w + [NUL] + Layout(ws)
  {
    LayoutAppend([], w);
    assert [] + [w] == [w] && "" + w == w;
    if ws == [] {
      assert [w] + ws == [w];
    } else {
      var init, last := ws[..|ws| - 1], ws[|ws| - 1];
      LayoutFront(w, init);
      hide Layout;
      assert [w] + ws == ([w] + init) + [last] && ws == init + [last];
      LayoutAppend([w] + init, last);
      LayoutAppend(init, last);
      assert w + [NUL] + Layout(init) + last + [NUL] == w + [NUL] + (Layout(init) + last + [NUL]);
    }
  }

  /** The text never needs more room than its own length and one terminator. */
  lemma {:induction false} SizeIsBounded(s: string, q: Quote, word: string)
    requires Words(s, q, word).Some?
    ensures |Layout(Words(s, q, word).value)| <= |word| + |s| + 1
    decreases |s|
  {
    if s == "" {
      LayoutAppend([], word);
      assert [] + [word] == [word];
    } else {
      match Next(s, q)
      case Break =>
        SizeIsBounded(s[1..], q, "");
        if word != "" { LayoutFront(word, Words(s[1..], q, "").value); }
      case Switch(p) => SizeIsBounded(s[1..], p, word);
      case Letter(c, width) => SizeIsBounded(s[width..], q, word + [c]);
      case Error =>
    }
  }

  /** The counting pass; it refuses exactly the commands that are not well formed. */
  method Count(arg: string) returns (ok: bool, num: nat, size: nat)
    ensures ok <==> Words(arg, Unquoted, "").Some?
    ensures ok ==> Tally(num, size) == TallyOf(Words(arg, Unquoted, "").value) && size <= |arg| + 1
  {
    hide Words, Next, Layout;
    num, size := 0, 0;
    WordsStart(arg);
    var len := 0;
    var q := Unquoted;
    var i := 0;
    ghost var done: seq<string>, word: string := [], "";
    while i < |arg|
      invariant i <= |arg| && |word| == len && Tally(num, size) == TallyOf(done)
      invariant Words(arg, Unquoted, "") == Prepend(done, Words(arg[i..], q, word))
    {
      WordsNext(arg, i, q, word, done);
      match Next(arg[i..], q) {
        case Break =>
          if len > 0 {
            LayoutAppend(done, word);
            num, size, len := num + 1, size + len + 1, 0;
            done, word := done + [word], "";
          }
          i := i + 1;
        case Switch(p) =>
          q := p;
          i := i + 1;
        case Letter(c, width) =>
          len := len + 1;
          word := word + [c];
          i := i + width;
        case Error => return false, 0, 0;
      }
    }
    WordsEnd(arg[i..], q, word, done);
    if q != Unquoted { return false, 0, 0; }
    if len > 0 {
      LayoutAppend(done, word);
      num, size := num + 1, size + len + 1;
    }
    SizeIsBounded(arg, Unquoted, "");
    ok := true;
  }

  function Prepend(done: seq<string>, rest: Option<seq<string>>): Option<seq<string>> {
    match rest
    case None => None
    case Some(ws) => Some(done + ws)
  }

  lemma WordsStart(arg: string)
    ensures Words(arg, Unquoted, "") == Prepend([], Words(arg[0..], Unquoted, ""))
    ensures Layout([]) == ""
  {
    assert arg[0..] == arg;
    if Words(arg, Unquoted, "").Some? { assert [] + Words(arg, Unquoted, "").value == Words(arg, Unquoted, "").value; }
  }

  lemma WordsEnd(s: string, q: Quote, word: string, done: seq<string>)
    requires s == ""
    ensures Prepend(done, Words(s, q, word)) ==
      if !q.Unquoted? then None else Some(if word == "" then done else done + [word])
  {
    assert done + [] == done;
  }

  /** One step of either pass. */
  lemma {:induction false} WordsNext(arg: string, i: nat, q: Quote, word: string, done: seq<string>)
    requires i < |arg|
    ensures var now := Prepend(done, Words(arg[i..], q, word));
      match Next(arg[i..], q)
      case Break =>
        now == if word == "" then Prepend(done, Words(arg[i + 1..], q, ""))
          else Prepend(done + [word], Words(arg[i + 1..], q, ""))
      case Switch(p) => now == Prepend(done, Words(arg[i + 1..], p, word))
      case Letter(c, width) => i + width <= |arg| && now == Prepend(done, Words(arg[i + width..], q, word + [c]))
      case Error => now == None
  {
    var s := arg[i..];
    assert s[1..] == arg[i + 1..];
    match Next(s, q)
    case Break =>
      if word != "" && Words(s[1..], q, "").Some? {
        assert done + ([word] + Words(s[1..], q, "").value) == done + [word] + Words(s[1..], q, "").value;
      }
    case Switch(p) =>
    case Letter(c, width) => assert s[width..] == arg[i + width..];
    case Error =>
  }

  /** There is room for a begun word and its terminator. */
  lemma RoomForWord(s: string, q: Quote, word: string, done: seq<string>)
    requires Words(s, q, word).Some? && word != ""
    ensures var all := Prepend(done, Words(s, q, word)).value;
      |done| < |all| && |Layout(done)| + |word| < |Layout(all)|
  {
    BegunWordIsFirst(s, q, word);
    var rest := Words(s, q, word).value;
    var all := done + rest;
    LayoutWord(all, |done|);
    assert all[..|done|] == done && all[|done|] == rest[0];
  }

  const NULL: int := -1

  /** Ends the word that was being filled. */
  lemma WordEnds(buf: seq<char>, done: seq<string>, word: string)
    requires buf == Layout(done) + word + [NUL]
    ensures buf == Layout(done + [word]) && |buf| == |Layout(done)| + |word| + 1
  {
    LayoutAppend(done, word);
  }

  method Put(buf: array<char>, off: nat, c: char)
    requires off < buf.Length
    modifies buf
    ensures buf[..off + 1] == old(buf[..off]) + [c]
  {
    buf[off] := c;
  }

  /** The filling pass.  `list` has one entry more than there are words, for the final NULL. */
  method Fill(arg: string, num: nat, size: nat) returns (list: array<int>, buf: array<char>)
    requires Words(arg, Unquoted, "").Some? && Tally(num, size) == TallyOf(Words(arg, Unquoted, "").value)
    ensures list.Length == num + 1 && list[num] == NULL
    ensures buf.Length == size && buf[..] == Layout(Words(arg, Unquoted, "").value)
    ensures forall k :: 0 <= k < num ==> list[k] == Start(Words(arg, Unquoted, "").value, k)
  {
    hide Words, Next, Layout;
    WordsStart(arg);
    ghost var all := Words(arg, Unquoted, "").value;
    list := new int[num + 1](_ => 0);
    buf := new char[size](_ => NUL);
    var off, pos, i, q, inWord := 0, 0, 0, Unquoted, false;
    ghost var done: seq<string>, word: string := [], "";
    while i < |arg|
      invariant i <= |arg| && Some(all) == Prepend(done, Words(arg[i..], q, word))
      invariant inWord == (word != "") && pos == |done| + (if inWord then 1 else 0) && pos <= num
      invariant off == |Layout(done)| + |word| && (off <= size) && (inWord ==> off < size)
      invariant buf[..off] == Layout(done) + word
      invariant Starts(list[..pos], done)
      decreases |arg| - i
    {
      WordsNext(arg, i, q, word, done);
      match Next(arg[i..], q) {
        case Break =>
          if inWord {
            inWord := false;
            Put(buf, off, NUL);
            off := off + 1;
            WordEnds(buf[..off], done, word);
            StartsGrow(list[..pos], done, word);
            done, word := done + [word], "";
            LayoutFits(done, all);
          }
          i := i + 1;
        case Switch(p) =>
          q := p;
          i := i + 1;
        case Letter(c, width) =>
          i := i + width;
          RoomForWord(arg[i..], q, word + [c], done);
          Put(buf, off, c);
          if !inWord {
            inWord := true;
            StartsBegin(list[..pos], done);
            list[pos] := off;
            pos := pos + 1;
            assert list[..pos] == list[..pos - 1] + [off];
          }
          off := off + 1;
          word := word + [c];
        case Error => assert false;
      }
    }
    WordsEnd(arg[i..], q, word, done);
    if inWord {
      Put(buf, off, NUL);
      WordEnds(buf[..off + 1], done, word);
      StartsGrow(list[..pos], done, word);
    }
    list[pos] := NULL;
  }

  /** The offsets of the finished words, and possibly that of the word being filled. */
  lemma StartsBegin(list: seq<int>, done: seq<string>)
    requires Starts(list, done) && |list| == |done|
    ensures Starts(list + [|Layout(done)|], done)
  {
    assert done[..|done|] == done;
  }

  lemma StartsGrow(list: seq<int>, done: seq<string>, word: string)
    requires Starts(list, done) && |list| == |done| + 1
    ensures Starts(list, done + [word])
  {
    forall k | 0 <= k < |list| ensures list[k] == Start(done + [word], k) {
      assert (done + [word])[..k] == done[..k];
    }
  }

  lemma LayoutFits(done: seq<string>, all: seq<string>)
    requires done <= all
    ensures |Layout(done)| <= |Layout(all)|
  {
    LayoutPrefix(all, |done|);
    assert all[..|done|] == done;
  }

  /** `shl_split_command_string`: both passes.  The words it leaves in the buffer are exactly those
      of the quoting grammar, and malformed commands are refused. */
  method SplitCommand(arg: string) returns (ok: bool, list: array<int>, buf: array<char>, num: nat)
    ensures ok <==> Words(arg, Unquoted, "").Some?
    ensures ok ==>
      var ws := Words(arg, Unquoted, "").value;
      num == |ws| && list.Length == num + 1 && list[num] == NULL && Holds(buf[..], list[..num], ws)
  {
    hide Words, Layout;
    var size;
    ok, num, size := Count(arg);
    if !ok {
      list := new int[0];
      buf := new char[0];
      return;
    }
    list, buf := Fill(arg, num, size);
    ghost var ws := Words(arg, Unquoted, "").value;
    LayoutHolds(ws, list[..num]);
  }

  // ---------------------------------------------------------------- rendering and splitting

  function Escape(w: string): string {
    if w == "" then ""
    else Escaped(w[0]) + Escape(w[1..])
  }

  /** A command whose words are given in double quotes. */
  function Render(ws: seq<string>): string {
    if ws == [] then "" else "\"" + Escape(ws[0]) + "\" " + Render(ws[1..])
  }

  lemma LetterStep(s: string, q: Quote, word: string)
    requires s != "" && Next(s, q).Letter?
    ensures Words(s, q, word) == Words(s[Next(s, q).width..], q, word + [Next(s, q).c])
  {
  }

  function Escaped(c: char): string {
    if c == '"' || c == '\\' then ['\\', c] else [c]
  }

  /** Inside double quotes, an escaped character is read back. */
  lemma EscapedLetter(c: char, rest: string, word: string)
    ensures Words(Escaped(c) + rest, Double, word) == Words(rest, Double, word + [c])
  {
    var s := Escaped(c) + rest;
    assert s[|Escaped(c)|..] == rest;
    assert Next(s, Double) == Letter(c, |Escaped(c)|);
    LetterStep(s, Double, word);
    hide Words, Next, Escaped;
  }

  /** And so is an escaped word. */
  lemma {:induction false} EscapedIsRead(w: string, tail: string, word: string)
    ensures Words(Escape(w) + ("\"" + tail), Double, word) == Words("\"" + tail, Double, word + w)
  {
    hide Words, Next, Escaped;
    var end := "\"" + tail;
    if w == "" {
      assert Escape(w) + end == end && word + w == word;
    } else {
      EscapedLetter(w[0], Escape(w[1..]) + end, word);
      EscapedIsRead(w[1..], tail, word + [w[0]]);
      assert word + [w[0]] + w[1..] == word + w;
      assert Escape(w) + end == Escaped(w[0]) + (Escape(w[1..]) + end);
    }
  }

  /** Splitting the double-quoted rendering of a list gives the list back without its empty words. */
  lemma {:induction false} SplitOfRender(ws: seq<string>)
    ensures Words(Render(ws), Unquoted, "") == Some(NonEmpty(ws))
  {
    if ws != [] {
      var w, tail := ws[0], Render(ws[1..]);
      var s := Render(ws);
      assert s[1..] == Escape(w) + ("\"" + (" " + tail));
      assert Next(s, Unquoted) == Switch(Double);
      EscapedIsRead(w, " " + tail, "");
      assert "" + w == w;
      var closing := "\"" + (" " + tail);
      assert closing[1..] == " " + tail && Next(closing, Double) == Switch(Unquoted);
      assert (" " + tail)[1..] == tail && Next(" " + tail, Unquoted) == Break;
      SplitOfRender(ws[1..]);
      assert [] + NonEmpty(ws[1..]) == NonEmpty(ws[1..]);
    }
  }

  lemma {:induction false} NothingDroppedIff(ws: seq<string>)
    ensures |NonEmpty(ws)| <= |ws|
    ensures NonEmpty(ws) == ws <==> "" !in ws
  {
    if ws != [] {
      NothingDroppedIff(ws[1..]);
      assert ws == [ws[0]] + ws[1..];
      if ws[0] != "" { assert NonEmpty(ws) == [ws[0]] + NonEmpty(ws[1..]) && NonEmpty(ws)[1..] == NonEmpty(ws[1..]); }
    }
  }

  /** The exact condition: a list survives quoting and splitting if and only if it has no empty word. */
  lemma QuotingRoundTripIff(ws: seq<string>)
    ensures Words(Render(ws), Unquoted, "") == Some(ws) <==> "" !in ws
  {
    SplitOfRender(ws);
    NothingDroppedIff(ws);
  }

  /** For one, the list of a single empty word comes back as no word at all. */
  lemma EmptyWordIsDropped()
    ensures Words(Render([""]), Unquoted, "") == Some([])
  {
    SplitOfRender([""]);
  }

  // ---------------------------------------------------------------- splitting at a separator

  /** The pieces between separators; there is always at least one. */
  function Pieces(s: string, sep: char, piece: string): (r: seq<string>)
    ensures r != []
  {
    if s == "" then [piece]
    else if s[0] == sep then [piece] + Pieces(s[1..], sep, "")
    else Pieces(s[1..], sep, piece + [s[0]])
  }

  function NonEmpty(ps: seq<string>): seq<string> {
    if ps == [] then [] else (if ps[0] == "" then [] else [ps[0]]) + NonEmpty(ps[1..])
  }

  function Kept(ps: seq<string>, keepEmpty: bool): seq<string> {
    if keepEmpty then ps else NonEmpty(ps)
  }

  function Join(ps: seq<string>, sep: char): string
    requires ps != []
  {
    if |ps| == 1 then ps[0] else ps[0] + [sep] + Join(ps[1..], sep)
  }

  /** Joining the pieces restores the string. */
  lemma {:induction false} JoinOfPieces(s: string, sep: char, piece: string)
    ensures Join(Pieces(s, sep, piece), sep) == piece + s
  {
    if s == "" {
      assert piece + s == piece;
    } else if s[0] == sep {
      JoinOfPieces(s[1..], sep, "");
      assert "" + s[1..] == s[1..];
      var ps := Pieces(s[1..], sep, "");
      assert ([piece] + ps)[1..] == ps;
      assert piece + [sep] + s[1..] == piece + s;
    } else {
      JoinOfPieces(s[1..], sep, piece + [s[0]]);
      assert piece + [s[0]] + s[1..] == piece + s;
    }
  }

  /** No piece holds a separator. */
  lemma {:induction false} PiecesHoldNone(s: string, sep: char, piece: string)
    requires sep !in piece
    ensures forall p :: p in Pieces(s, sep, piece) ==> sep !in p
  {
    if s != "" {
      if s[0] == sep { PiecesHoldNone(s[1..], sep, ""); } else { PiecesHoldNone(s[1..], sep, piece + [s[0]]); }
    }
  }

  /** One piece, and what is left behind its separator. */
  lemma PiecesNext(s: string, i: nat, j: nat, sep: char)
    requires i <= j <= |s| && sep !in s[i..j] && (j < |s| ==> s[j] == sep)
    ensures Pieces(s[i..], sep, "") == if j < |s| then [s[i..j]] + Pieces(s[j + 1..], sep, "") else [s[i..j]]
  {
    PieceGrows(s, i, i, j, sep);
    assert s[i..i] == "";
    if j < |s| { assert s[j..][1..] == s[j + 1..]; }
  }

  /** Splitting what was joined gives the pieces back. */
  lemma {:induction false} PiecesOfJoin(ps: seq<string>, sep: char)
    requires ps != [] && forall p :: p in ps ==> sep !in p
    ensures Pieces(Join(ps, sep), sep, "") == ps
  {
    var s, n := Join(ps, sep), |ps[0]|;
    assert ps[0] in ps && s[0..] == s && s[..n] == s[0..n] == ps[0];
    PiecesNext(s, 0, n, sep);
    if |ps| > 1 {
      assert s[n] == sep && s[n + 1..] == Join(ps[1..], sep);
      PiecesOfJoin(ps[1..], sep);
      assert ps == [ps[0]] + ps[1..];
    }
  }

  /** So the pieces are the only separator-free list that joins to the string. */
  lemma PiecesIff(s: string, sep: char, ps: seq<string>)
    ensures ps == Pieces(s, sep, "") <==> ps != [] && Join(ps, sep) == s && forall p :: p in ps ==> sep !in p
  {
    JoinOfPieces(s, sep, "");
    PiecesHoldNone(s, sep, "");
    assert "" + s == s;
    if ps != [] && forall p :: p in ps ==> sep !in p { PiecesOfJoin(ps, sep); }
  }

  lemma {:induction false} PieceGrows(s: string, i: nat, m: nat, j: nat, sep: char)
    requires i <= m <= j <= |s| && sep !in s[i..j]
    ensures Pieces(s[m..], sep, s[i..m]) == Pieces(s[j..], sep, s[i..j])
    decreases j - m
  {
    if m < j {
      assert s[m] in s[i..j];
      assert s[m..][1..] == s[m + 1..] && s[i..m] + [s[m]] == s[i..m + 1];
      PieceGrows(s, i, m + 1, j, sep);
    }
  }

  lemma KeptFront(p: string, ps: seq<string>, keepEmpty: bool)
    ensures Kept([p] + ps, keepEmpty) == (if keepEmpty || p != "" then [p] else []) + Kept(ps, keepEmpty)
  {
    assert ([p] + ps)[1..] == ps;
  }

  /** The counting pass of `shl_split_string`. */
  method CountPieces(arg: string, sep: char, keepEmpty: bool) returns (num: nat, size: nat)
    ensures Tally(num, size) == TallyOf(Kept(Pieces(arg, sep, ""), keepEmpty))
  {
    hide Pieces, Kept, Layout, Join, NonEmpty;
    num, size := 0, 0;
    var len: nat := 0;
    var i: nat := 0;
    ghost var done: seq<string> := [];
    assert Layout([]) == "" by { NoLayout(); }
    assert arg[0..] == arg && arg[0..0] == "";
    assert [] + Kept(Pieces(arg, sep, ""), keepEmpty) == Kept(Pieces(arg, sep, ""), keepEmpty);
    while i < |arg|
      invariant i <= |arg| && len <= i && (i > 0 && len == 0 ==> arg[i - 1] == sep) && (i == 0 ==> len == 0)
      invariant len > 0 ==> arg[i - 1] != sep
      invariant Tally(num, size) == TallyOf(done)
      invariant Kept(Pieces(arg, sep, ""), keepEmpty) == done + Kept(Pieces(arg[i..], sep, arg[i - len..i]), keepEmpty)
    {
      CountStep(arg[i..], sep, arg[i - len..i], keepEmpty, done);
      assert arg[i..][1..] == arg[i + 1..] && arg[i + 1..i + 1] == "" &&
        arg[i - len..i] + [arg[i]] == arg[i - len..i + 1];
      if arg[i] != sep {
        len := len + 1;
      } else if keepEmpty || len > 0 {
        LayoutAppend(done, arg[i - len..i]);
        done := done + [arg[i - len..i]];
        num, size, len := num + 1, size + len + 1, 0;
      }
      i := i + 1;
    }
    LastPiece(arg[i..], sep, arg[i - len..i], keepEmpty, done);
    if len > 0 || (keepEmpty && (i == 0 || arg[i - 1] == sep)) {
      LayoutAppend(done, arg[i - len..i]);
      num, size := num + 1, size + len + 1;
    }
  }

  lemma NoLayout()
    ensures Layout([]) == "" && Starts([], [])
  {
  }

  lemma CountStep(s: string, sep: char, piece: string, keepEmpty: bool, done: seq<string>)
    requires s != ""
    ensures var now := done + Kept(Pieces(s, sep, piece), keepEmpty);
      now == if s[0] != sep then done + Kept(Pieces(s[1..], sep, piece + [s[0]]), keepEmpty)
             else if keepEmpty || piece != "" then done + [piece] + Kept(Pieces(s[1..], sep, ""), keepEmpty)
             else done + Kept(Pieces(s[1..], sep, ""), keepEmpty)
  {
    if s[0] == sep {
      KeptFront(piece, Pieces(s[1..], sep, ""), keepEmpty);
      var k := Kept(Pieces(s[1..], sep, ""), keepEmpty);
      assert done + ([piece] + k) == done + [piece] + k;
      assert [] + k == k;
    }
  }

  lemma LastPiece(s: string, sep: char, piece: string, keepEmpty: bool, done: seq<string>)
    requires s == ""
    ensures done + Kept(Pieces(s, sep, piece), keepEmpty) == if keepEmpty || piece != "" then done + [piece] else done
  {
    KeptFront(piece, [], keepEmpty);
    assert [piece] + [] == [piece];
  }

  /** Copies one piece. */
  method CopyPiece(arg: string, start: nat, sep: char, buf: array<char>, at: nat, ghost j: nat)
      returns (i: nat, off: nat)
    requires start <= j <= |arg| && sep !in arg[start..j] && (j < |arg| ==> arg[j] == sep)
    requires at <= buf.Length && (start < j ==> at + (j - start) <= buf.Length)
    modifies buf
    ensures i == j && off == at + (j - start) && off <= buf.Length && buf[..off] == old(buf[..at]) + arg[start..j]
  {
    i, off := start, at;
    while i < |arg| && arg[i] != sep
      invariant start <= i <= j && off == at + (i - start) <= buf.Length
      invariant buf[..off] == old(buf[..at]) + arg[start..i]
      decreases j - i
    {
      assert i < j;
      Put(buf, off, arg[i]);
      off := off + 1;
      i := i + 1;
    }
  }

  /** The filling pass.  Its outer loop looks only at the number of pieces found before. */
  method FillPieces(arg: string, sep: char, keepEmpty: bool, num: nat, size: nat)
    returns (list: array<int>, buf: array<char>)
    requires Tally(num, size) == TallyOf(Kept(Pieces(arg, sep, ""), keepEmpty))
    ensures list.Length == num + 1 && list[num] == NULL && buf.Length == size
    ensures Holds(buf[..], list[..num], Kept(Pieces(arg, sep, ""), keepEmpty))
  {
    hide Pieces, Kept, Layout, Join, NonEmpty, Holds, Starts;
    ghost var all := Kept(Pieces(arg, sep, ""), keepEmpty);
    list := new int[num + 1](_ => 0);
    buf := new char[size](_ => NUL);
    var off: nat, i: nat, pos: nat := 0, 0, 0;
    NoLayout();
    assert arg[0..] == arg && all[..0] == [] && all[0..] == all && list[..0] == [];
    hide EndOf, TallyOf;
    var atEnd := false;
    while pos < num
      invariant pos <= num && i <= |arg| && off == |Layout(all[..pos])| && off <= size
      invariant buf[..off] == Layout(all[..pos]) && Starts(list[..pos], all[..pos])
      invariant atEnd ==> pos == num
      invariant !atEnd ==> Kept(Pieces(arg[i..], sep, ""), keepEmpty) == all[pos..]
      decreases num - pos, |arg| - i
    {
      list[pos] := off;
      ghost var j := EndOf(arg, i, sep);
      ghost var from := i;
      KeptPiece(arg, i, j, sep, keepEmpty, all, pos);
      assert keepEmpty || from < j ==> pos < |all| && all[pos] == arg[from..j];
      if keepEmpty || from < j { LayoutWord(all, pos); }
      i, off := CopyPiece(arg, i, sep, buf, off, j);
      atEnd := i == |arg|;
      if i < |arg| { i := i + 1; }
      if list[pos] == off && !keepEmpty { continue; }
      Put(buf, off, NUL);
      off := off + 1;
      WordStored(all, pos, list[..pos]);
      assert list[..pos + 1] == list[..pos] + [list[pos]];
      pos := pos + 1;
    }
    assert all[..pos] == all;
    LayoutHolds(all, list[..num]);
    list[pos] := NULL;
    assert buf[..] == buf[..off];
  }

  /** Where the piece that starts at `i` ends. */
  ghost function EndOf(s: string, i: nat, sep: char): (j: nat)
    requires i <= |s|
    ensures i <= j <= |s| && sep !in s[i..j] && (j < |s| ==> s[j] == sep)
    decreases |s| - i
  {
    if i == |s| || s[i] == sep then i
    else
      var j := EndOf(s, i + 1, sep);
      assert s[i..j] == [s[i]] + s[i + 1..j];
      j
  }

  lemma WordStored(all: seq<string>, pos: nat, starts: seq<int>)
    requires pos < |all| && |starts| == pos && Starts(starts, all[..pos])
    ensures Starts(starts + [|Layout(all[..pos])|], all[..pos + 1])
    ensures Layout(all[..pos + 1]) == Layout(all[..pos]) + all[pos] + [NUL]
    ensures |Layout(all[..pos + 1])| <= |Layout(all)|
  {
    hide Starts, Layout;
    assert all[..pos + 1] == all[..pos] + [all[pos]];
    LayoutAppend(all[..pos], all[pos]);
    StartsBegin(starts, all[..pos]);
    StartsGrow(starts + [|Layout(all[..pos])|], all[..pos], all[pos]);
    LayoutFits(all[..pos + 1], all);
  }

  lemma KeptPiece(s: string, i: nat, j: nat, sep: char, keepEmpty: bool, all: seq<string>, pos: nat)
    requires i <= j <= |s| && sep !in s[i..j] && (j < |s| ==> s[j] == sep)
    requires pos <= |all| && Kept(Pieces(s[i..], sep, ""), keepEmpty) == all[pos..]
    ensures keepEmpty || i < j ==> pos < |all| && all[pos] == s[i..j]
    ensures var next := if keepEmpty || i < j then pos + 1 else pos;
      next <= |all| && if j < |s| then Kept(Pieces(s[j + 1..], sep, ""), keepEmpty) == all[next..] else next == |all|
  {
    PiecesNext(s, i, j, sep);
    var p := s[i..j];
    if j < |s| {
      KeptFront(p, Pieces(s[j + 1..], sep, ""), keepEmpty);
    } else {
      KeptFront(p, [], keepEmpty);
      assert [p] + [] == [p];
    }
    assert pos < |all| ==> all[pos..][0] == all[pos] && all[pos..][1..] == all[pos + 1..];
  }

  /** `shl_split_string`: with empty pieces kept, joining the result gives the string back; without, the
      result is the same list less its empty members.  The terminator is refused as a separator. */
  method SplitString(arg: string, sep: char, keepEmpty: bool)
    returns (ok: bool, list: array<int>, buf: array<char>, num: nat)
    ensures ok <==> sep != NUL
    ensures ok ==> var ps := Kept(Pieces(arg, sep, ""), keepEmpty);
      num == |ps| && list.Length == num + 1 && list[num] == NULL && Holds(buf[..], list[..num], ps)
    ensures keepEmpty ==> Join(Kept(Pieces(arg, sep, ""), keepEmpty), sep) == arg
  {
    JoinOfPieces(arg, sep, "");
    if sep == NUL {
      ok, num := false, 0;
      list, buf := new int[0], new char[0];
      return;
    }
    ok := true;
    var size;
    num, size := CountPieces(arg, sep, keepEmpty);
    list, buf := FillPieces(arg, sep, keepEmpty, num, size);
  }
}
