/** Configuration files: the parser cuts the buffer into strings in place, by writing terminators over
    separators and trailing blanks, and issues each key with its value. */
module Conf {
  import opened Memory

  const NEWLINE: Byte := 10
  const HASH: Byte := 35
  const EQUALS: Byte := 61

  datatype Pair = Pair(key: seq<Byte>, value: Option<seq<Byte>>)

  // ---------------------------------------------------------------- the simple reading

  /** The first place at or after `i` where one of `stops` stands. */
  function Find(s: seq<Byte>, i: nat, stops: set<Byte>): (r: nat)
    requires i <= |s|
    ensures i <= r <= |s| && (r < |s| ==> s[r] in stops) && forall k :: i <= k < r ==> s[k] !in stops
    decreases |s| - i
  {
    if i == |s| || s[i] in stops then i else Find(s, i + 1, stops)
  }

  predicate Blank(c: Byte) { c == 32 || c == 13 || c == 9 }

  function TrimLeft(s: seq<Byte>): (t: seq<Byte>)
    ensures t != [] ==> !Blank(t[0])
  {
    if s != [] && Blank(s[0]) then TrimLeft(s[1..]) else s
  }

  function TrimRight(s: seq<Byte>): (t: seq<Byte>)
    ensures t <= s && (t != [] ==> !Blank(t[|t| - 1]))
  {
    if s != [] && Blank(s[|s| - 1]) then TrimRight(s[..|s| - 1]) else s
  }

  function Trim(s: seq<Byte>): seq<Byte> {
    TrimRight(TrimLeft(s))
  }

  /** What a C string function sees of the text. */
  function UntilNul(s: seq<Byte>): seq<Byte> {
    s[..Find(s, 0, {0})]
  }

  function Text(s: seq<Byte>): seq<Byte> {
    Trim(UntilNul(s))
  }

  /** A line without its comment, split at the first equals sign and trimmed. */
  function LinePair(line: seq<Byte>): Pair {
    var body := line[..Find(line, 0, {HASH})];
    var q := Find(body, 0, {EQUALS});
    Pair(Text(body[..q]), if q < |body| then Some(Text(body[q + 1..])) else None)
  }

  /** The pairs of all lines from `i` on, without those whose key is empty. */
  function Reading(s: seq<Byte>, i: nat): seq<Pair>
    requires i <= |s|
    decreases |s| - i
  {
    if i == |s| then []
    else
      var e := Find(s, i, {NEWLINE});
      var p := LinePair(s[i..e]);
      (if p.key == [] then [] else [p]) + (if e < |s| then Reading(s, e + 1) else [])
  }

  // ---------------------------------------------------------------- what is done with the pairs

  const EAGAIN: int := -11

  /** `long` starts with "no-"; an option without a long name has the empty one. */
  datatype Opt = Opt(long: seq<Byte>, locked: bool, hasArg: bool, hasFile: bool, hasParse: bool,
                       hasCheck: bool)

  predicate NamesFit(opts: seq<Opt>) {
    forall i :: 0 <= i < |opts| ==> opts[i].long == [] || |opts[i].long| >= 3
  }

  datatype Call = Call(opt: nat, file: bool, set_: bool, value: Option<seq<Byte>>)

  datatype Verdict = Quiet(code: int) | Do(call: Call)

  predicate Named(o: Opt, key: seq<Byte>) {
    |o.long| >= 3 && (key == o.long || key == o.long[3..])
  }

  function Resolve(opts: seq<Opt>, p: Pair, i: nat): (v: Verdict)
    requires i <= |opts|
    ensures v.Quiet? ==> v.code == 0 || v.code == EAGAIN
    decreases |opts| - i
  {
    if i == |opts| then Quiet(EAGAIN)
    else if !Named(opts[i], p.key) then Resolve(opts, p, i + 1)
    else
      var o := opts[i];
      var on := p.key != o.long;
      if o.locked then Quiet(0)
      else if o.hasFile then Do(Call(i, true, on, p.value))
      else if o.hasArg != p.value.Some? then Quiet(EAGAIN)
      else if o.hasParse then Do(Call(i, false, on, p.value))
      else Quiet(0)
  }

  /** The calls made, the return code, and the answers not used up. */
  datatype Outcome = Outcome(calls: seq<Call>, ret: int, left: seq<int>)

  predicate Hard(code: int) { code != 0 && code != EAGAIN }

  datatype Stepped = Stepped(calls: seq<Call>, code: int, left: seq<int>)

  /** One pair.  The option callbacks answer as they like: `answers` lists their return codes. */
  function Issue(opts: seq<Opt>, p: Pair, answers: seq<int>): Stepped {
    match Resolve(opts, p, 0)
    case Quiet(code) => Stepped([], code, answers)
    case Do(call) =>
      if answers == [] then Stepped([call], 0, []) else Stepped([call], answers[0], answers[1..])
  }

  /** The pairs in order, up to the first hard error. */
  function Exec(opts: seq<Opt>, pairs: seq<Pair>, answers: seq<int>): Outcome {
    if pairs == [] then Outcome([], 0, answers)
    else
      var step := Issue(opts, pairs[0], answers);
      if Hard(step.code) then Outcome(step.calls, step.code, step.left)
      else
        var rest := Exec(opts, pairs[1..], step.left);
        Outcome(step.calls + rest.calls, rest.ret, rest.left)
  }

  // ---------------------------------------------------------------- in place

  /** The string that starts at `i` in the buffer. */
  function StringAt(b: seq<Byte>, i: nat): seq<Byte>
    requires i <= |b|
  {
    b[i..Find(b, i, {0})]
  }

  ghost predicate Terminated(b: seq<Byte>, i: nat) {
    i < |b| && Find(b, i, {0}) < |b|
  }

  lemma FindIs(s: seq<Byte>, i: nat, stops: set<Byte>, r: nat)
    requires i <= r <= |s| && (r < |s| ==> s[r] in stops) && forall k :: i <= k < r ==> s[k] !in stops
    ensures Find(s, i, stops) == r
  {
  }

  lemma TrimRightStep(s: seq<Byte>, i: nat, n: nat)
    requires i < n <= |s| && Blank(s[n - 1])
    ensures TrimRight(s[i..n]) == TrimRight(s[i..n - 1])
  {
    assert s[i..n][..n - i - 1] == s[i..n - 1];
  }

  lemma TrimRightEnds(s: seq<Byte>)
    requires s != [] ==> !Blank(s[|s| - 1])
    ensures TrimRight(s) == s
  {
  }

  /** Moves past leading blanks and overwrites trailing ones.  Only the string itself changes. */
  method StripSpaces(buf: array<Byte>, i: nat) returns (p: nat)
    requires Terminated(buf[..], i)
    modifies buf
    ensures var n := Find(old(buf[..]), i, {0});
      && i <= p <= n && Terminated(buf[..], p)
      && StringAt(buf[..], p) == Trim(old(buf[i..n]))
      && (forall k :: 0 <= k < buf.Length && !(i <= k < n) ==> buf[k] == old(buf[k]))
  {
    ghost var b := buf[..];
    ghost var n := Find(b, i, {0});
    p := i;
    while Blank(buf[p])
      invariant i <= p <= n && buf[..] == b && TrimLeft(b[p..n]) == TrimLeft(b[i..n])
      decreases n - p
    {
      p := p + 1;
    }
    if buf[p] == 0 {
      FindIs(buf[..], p, {0}, p);
      return;
    }
    var tail := p;
    while buf[tail] != 0
      invariant p <= tail <= n && buf[..] == b
      decreases n - tail
    {
      tail := tail + 1;
    }
    tail := tail - 1;
    StripTail(buf, p, tail);
    assert TrimLeft(b[p..n]) == b[p..n];
  }

  /** Overwrites the blanks up to `last`, the place before the terminator. */
  method StripTail(buf: array<Byte>, p: nat, last: nat)
    requires p <= last && last + 1 < buf.Length && buf[last + 1] == 0 && !Blank(buf[p])
    requires forall k :: p <= k <= last ==> buf[k] != 0
    modifies buf
    ensures Terminated(buf[..], p) && StringAt(buf[..], p) == TrimRight(old(buf[p..last + 1]))
    ensures forall k :: 0 <= k < buf.Length && !(p <= k <= last) ==> buf[k] == old(buf[k])
  {
    hide Find, TrimRight;
    ghost var b := buf[..];
    var tail := last;
    while Blank(buf[tail])
      invariant p <= tail <= last && buf[tail] == b[tail] && buf[p] == b[p]
      invariant forall k :: 0 <= k < buf.Length ==> buf[k] == if tail < k <= last then 0 else b[k]
      invariant TrimRight(b[p..tail + 1]) == TrimRight(b[p..last + 1])
      decreases tail
    {
      TrimRightStep(b, p, tail + 1);
      buf[tail] := 0;
      tail := tail - 1;
    }
    FindIs(buf[..], p, {0}, tail + 1);
    assert buf[..][p..tail + 1] == b[p..tail + 1];
    TrimRightEnds(b[p..tail + 1]);
  }

  /** Where the pieces of a line are: its key starts at the line's start. */
  datatype Cut = Cut(value: Option<nat>, end: nat)

  /** Cuts one line off at `pos`: scans for the key, the value and the end of the line, and writes
      terminators over what separates them.  `size` bytes are left, followed by a terminator. */
  method CutLine(buf: array<Byte>, pos: nat, size: nat) returns (cut: Cut, len: nat)
    requires 0 < size && pos + size < buf.Length
    modifies buf
    ensures var s := old(buf[..pos + size]);
      var e := Find(s, pos, {NEWLINE});
      var k := Find(s, pos, {NEWLINE, HASH, EQUALS});
      var v := if k < |s| && s[k] == EQUALS then Find(s, k + 1, {NEWLINE, HASH}) else k;
      && cut == Cut(if k < |s| && s[k] == EQUALS then Some(k + 1) else None, e) && len == pos + size - e
      && (forall j :: 0 <= j < buf.Length ==> buf[j] == if j == k || j == v then 0 else old(buf[j]))
  {
    hide Find;
    ghost var s := buf[..pos + size];
    var value, line, n := CutKey(buf, pos, size);
    FindInTail(s, buf[..pos + size], line, {NEWLINE});
    FindIs(s, pos, {NEWLINE}, Find(s, line, {NEWLINE}));
    len := EndPiece(buf, line, n);
    cut := Cut(value, pos + size - len);
  }

  /** Scans for the end of the key and, behind an equals sign, for the end of the value. */
  method CutKey(buf: array<Byte>, pos: nat, size: nat) returns (value: Option<nat>, line: nat, n: nat)
    requires 0 < size && pos + size < buf.Length
    modifies buf
    ensures var s := old(buf[..pos + size]);
      var k := Find(s, pos, {NEWLINE, HASH, EQUALS});
      var given := k < |s| && s[k] == EQUALS;
      && value == (if given then Some(k + 1) else None)
      && line == (if given then Find(s, k + 1, {NEWLINE, HASH}) else k) && n == pos + size - line
      && (forall j :: 0 <= j < buf.Length ==> buf[j] == if j == k && given then 0 else old(buf[j]))
  {
    hide Find;
    ghost var s := buf[..pos + size];
    line, n := ScanTo(buf, pos, size, {NEWLINE, HASH, EQUALS});
    value := None;
    if n > 0 && buf[line] == EQUALS {
      buf[line] := 0;
      line, n := line + 1, n - 1;
      value := Some(line);
      FindInTail(s, buf[..pos + size], line, {NEWLINE, HASH});
      line, n := ScanTo(buf, line, n, {NEWLINE, HASH});
    }
  }

  /** Terminates the key or the value at `line`, and skips the comment that may follow.  No other
      character than these ends a piece, so the error branch is never taken. */
  method EndPiece(buf: array<Byte>, line: nat, n: nat) returns (len: nat)
    requires line + n < buf.Length && (n > 0 ==> buf[line] in {NEWLINE, HASH})
    modifies buf
    ensures len == line + n - Find(old(buf[..line + n]), line, {NEWLINE})
    ensures forall j :: 0 <= j < buf.Length ==> buf[j] == if j == line then 0 else old(buf[j])
  {
    ghost var s := buf[..line + n];
    len := n;
    if n == 0 || buf[line] == NEWLINE {
      buf[line] := 0;
    } else if buf[line] == HASH {
      buf[line] := 0;
      var end;
      end, len := ScanTo(buf, line, n, {NEWLINE});
      assert buf[..line + n] == s[line := 0];
      FindInTail(s, s[line := 0], line + 1, {NEWLINE});
    } else {
      assert false;
    }
  }

  lemma FindInTail(s: seq<Byte>, t: seq<Byte>, i: nat, stops: set<Byte>)
    requires |s| == |t| && i <= |s| && forall j :: i <= j < |s| ==> s[j] == t[j]
    ensures Find(s, i, stops) == Find(t, i, stops)
  {
    FindIs(s, i, stops, Find(t, i, stops));
  }

  method ScanTo(buf: array<Byte>, pos: nat, size: nat, stops: set<Byte>) returns (line: nat, len: nat)
    requires pos + size <= buf.Length
    ensures line == Find(buf[..pos + size], pos, stops) && len == pos + size - line
  {
    line, len := pos, size;
    while len > 0 && buf[line] !in stops
      invariant pos <= line && line + len == pos + size
      invariant Find(buf[..pos + size], pos, stops) == Find(buf[..pos + size], line, stops)
    {
      line, len := line + 1, len - 1;
    }
  }

  // ---------------------------------------------------------------- lines and files

  /** The places that the scans find cut the line just as its simple reading does. */
  lemma CutsAgree(s: seq<Byte>, pos: nat)
    requires pos <= |s|
    ensures var e := Find(s, pos, {NEWLINE});
      var k := Find(s, pos, {NEWLINE, HASH, EQUALS});
      && k <= e
      && LinePair(s[pos..e]).key == Text(s[pos..k])
      && (if k < |s| && s[k] == EQUALS then
            var v := Find(s, k + 1, {NEWLINE, HASH});
            v <= e && LinePair(s[pos..e]).value == Some(Text(s[k + 1..v]))
          else LinePair(s[pos..e]).value == None)
  {
    hide Find, Text, LinePair;
    var e := Find(s, pos, {NEWLINE});
    var k := Find(s, pos, {NEWLINE, HASH, EQUALS});
    if k < |s| && s[k] == EQUALS {
      var v := Find(s, k + 1, {NEWLINE, HASH});
      FindIs(s[pos..e], 0, {HASH}, v - pos);
      FindIs(s[pos..v], 0, {EQUALS}, k - pos);
      PairOfCuts(s, pos, k, v, e);
    } else {
      FindIs(s[pos..e], 0, {HASH}, k - pos);
      FindIs(s[pos..k], 0, {EQUALS}, k - pos);
      PairOfCuts(s, pos, k, k, e);
    }
  }

  lemma PairOfCuts(s: seq<Byte>, pos: nat, k: nat, v: nat, e: nat)
    requires pos <= k <= v <= e <= |s| && Find(s[pos..e], 0, {HASH}) == v - pos &&
      Find(s[pos..v], 0, {EQUALS}) == k - pos
    ensures LinePair(s[pos..e]).key == Text(s[pos..k])
    ensures LinePair(s[pos..e]).value == if k < v then Some(Text(s[k + 1..v])) else None
  {
    hide Find, Text;
    assert s[pos..e][..v - pos] == s[pos..v];
    assert s[pos..v][..k - pos] == s[pos..k];
    if k < v { assert s[pos..v][k - pos + 1..] == s[k + 1..v]; }
  }

  /** Between `i` and a terminator at `k`, a string is what stood there up to its first terminator. */
  lemma StringBefore(s: seq<Byte>, b: seq<Byte>, i: nat, k: nat)
    requires i <= k < |b| && k <= |s| && b[k] == 0 && forall j :: i <= j < k ==> b[j] == s[j]
    ensures Terminated(b, i) && Find(b, i, {0}) <= k && b[i..Find(b, i, {0})] == UntilNul(s[i..k])
  {
    hide Find;
    var n := Find(b, i, {0});
    FindIs(s[i..k], 0, {0}, n - i);
  }

  method ParseKvPair(opts: seq<Opt>, p: Pair, answers: seq<int>) returns (step: Stepped)
    requires NamesFit(opts)
    ensures step == Issue(opts, p, answers)
  {
    var i := 0;
    while i < |opts|
      invariant i <= |opts| && Resolve(opts, p, 0) == Resolve(opts, p, i)
    {
      var o := opts[i];
      if o.long != [] && (p.key == o.long || p.key == o.long[3..]) {
        var on := p.key != o.long;
        if o.locked { return Stepped([], 0, answers); }
        if o.hasFile { return CallBack(Call(i, true, on, p.value), answers); }
        if o.hasArg && p.value.None? { return Stepped([], EAGAIN, answers); }
        if !o.hasArg && p.value.Some? { return Stepped([], EAGAIN, answers); }
        if o.hasParse { return CallBack(Call(i, false, on, p.value), answers); }
        return Stepped([], 0, answers);
      }
      i := i + 1;
    }
    step := Stepped([], EAGAIN, answers);
  }

  function CallBack(call: Call, answers: seq<int>): Stepped {
    if answers == [] then Stepped([call], 0, []) else Stepped([call], answers[0], answers[1..])
  }

  /** The string at `i`, as the callbacks see it. */
  method ReadString(buf: array<Byte>, i: nat) returns (s: seq<Byte>)
    requires Terminated(buf[..], i)
    ensures s == StringAt(buf[..], i)
  {
    var j := i;
    while buf[j] != 0
      invariant i <= j <= Find(buf[..], i, {0})
      decreases Find(buf[..], i, {0}) - j
    {
      j := j + 1;
    }
    FindIs(buf[..], i, {0}, j);
    s := buf[i..j];
  }

  /** Cuts and trims one line: the pair it holds, and what is left of the buffer untouched. */
  method ReadLine(buf: array<Byte>, pos: nat, size: nat) returns (p: Pair, end: nat, len: nat)
    requires 0 < size && pos + size < buf.Length && buf[pos + size] == 0
    modifies buf
    ensures var s := old(buf[..pos + size]);
      && end == Find(s, pos, {NEWLINE}) && len == pos + size - end
      && p.key == LinePair(s[pos..end]).key && (p.key != [] ==> p == LinePair(s[pos..end]))
      && (forall j :: end < j < buf.Length ==> buf[j] == old(buf[j]))
      && buf[pos + size] == 0
  {
    hide Find, LinePair, Text;
    ghost var s := buf[..pos + size];
    CutsAgree(s, pos);
    ghost var k := Find(s, pos, {NEWLINE, HASH, EQUALS});
    var cut;
    cut, len := CutLine(buf, pos, size);
    end := cut.end;
    var key := ReadPiece(buf, pos, s, k);
    var value := None;
    if key != [] && cut.value.Some? {
      var text := ReadPiece(buf, cut.value.value, s, Find(s, k + 1, {NEWLINE, HASH}));
      value := Some(text);
    }
    p := Pair(key, value);
  }

  /** Trims the piece that starts at `i`; it stood there up to `k` in the text `s`. */
  method ReadPiece(buf: array<Byte>, i: nat, ghost s: seq<Byte>, ghost k: nat) returns (text: seq<Byte>)
    requires i <= k < buf.Length && k <= |s| && buf[k] == 0 && forall j :: i <= j < k ==> buf[j] == s[j]
    modifies buf
    ensures text == Text(s[i..k])
    ensures forall j :: 0 <= j < buf.Length && !(i <= j < k) ==> buf[j] == old(buf[j])
  {
    hide Find, Text, Trim;
    StringBefore(s, buf[..], i, k);
    TextIs(s, buf[..], i, k);
    var at := StripSpaces(buf, i);
    text := ReadString(buf, at);
  }

  lemma TextIs(s: seq<Byte>, b: seq<Byte>, i: nat, k: nat)
    requires i <= k < |b| && k <= |s| && b[k] == 0 && forall j :: i <= j < k ==> b[j] == s[j]
    ensures Trim(b[i..Find(b, i, {0})]) == Text(s[i..k])
  {
    StringBefore(s, b, i, k);
  }

  /** One line: what it issues, where the next one starts, and how much is left. */
  method ParseLine(opts: seq<Opt>, buf: array<Byte>, pos: nat, size: nat, answers: seq<int>)
    returns (step: Stepped, next: nat, rest: nat)
    requires NamesFit(opts) && 0 < size && pos + size < buf.Length && buf[pos + size] == 0
    modifies buf
    ensures var s := old(buf[..pos + size]);
      var e := Find(s, pos, {NEWLINE});
      var p := LinePair(s[pos..e]);
      && step == (if p.key == [] then Stepped([], 0, answers) else Issue(opts, p, answers))
      && next == (if e < |s| then e + 1 else e) && rest == pos + size - next
      && buf[next..pos + size] == s[next..] && buf[pos + size] == 0
  {
    hide Find, LinePair, Issue;
    var p, end, len := ReadLine(buf, pos, size);
    step := Stepped([], 0, answers);
    if p.key != [] { step := ParseKvPair(opts, p, answers); }
    next, rest := end, len;
    if len > 0 { next, rest := end + 1, len - 1; }
  }

  /** All lines, up to the first hard error. */
  method ParseLines(opts: seq<Opt>, buf: array<Byte>, size: nat, answers: seq<int>)
    returns (calls: seq<Call>, ret: int, answer: seq<int>)
    requires NamesFit(opts) && size < buf.Length && buf[size] == 0
    modifies buf
    ensures Outcome(calls, ret, answer) == Exec(opts, Reading(old(buf[..size]), 0), answers)
  {
    hide Find, LinePair, Issue, Exec, Reading;
    ghost var s := buf[..size];
    var pos, left := 0, size;
    calls, ret, answer := [], 0, answers;
    ReadingAtEnd(opts, s, answers);
    while !Hard(ret) && left > 0
      invariant pos + left == size && buf[size] == 0 && buf[pos..size] == s[pos..]
      invariant if Hard(ret) then Outcome(calls, ret, answer) == Exec(opts, Reading(s, 0), answers)
        else ret == 0 && Joined(calls, Exec(opts, Reading(s, pos), answer)) == Exec(opts, Reading(s, 0), answers)
      decreases left, !Hard(ret)
    {
      LineIsRead(opts, s, buf[..size], pos, answer, calls);
      var step;
      step, pos, left := ParseLine(opts, buf, pos, left, answer);
      calls := calls + step.calls;
      answer := step.left;
      ret := if Hard(step.code) then step.code else 0;
    }
    if !Hard(ret) { ReadingAtEnd(opts, s, answer); }
  }

  /** The whole buffer, and then the checks that options ask for. */
  method ParseBuffer(opts: seq<Opt>, buf: array<Byte>, size: nat, answers: seq<int>)
    returns (calls: seq<Call>, checked: seq<nat>, ret: int)
    requires NamesFit(opts) && size < buf.Length && buf[size] == 0
    modifies buf
    ensures var o := Exec(opts, Reading(old(buf[..size]), 0), answers);
      && calls == o.calls
      && if o.ret != 0 then ret == o.ret && checked == [] else CheckedUntil(opts, o.left, checked, ret)
  {
    var left;
    calls, ret, left := ParseLines(opts, buf, size, answers);
    checked := [];
    if ret == 0 { checked, ret := AfterChecks(opts, left); }
  }

  /** The options that ask for a check, in order. */
  function Checks(opts: seq<Opt>): seq<nat> {
    if opts == [] then []
    else Checks(opts[..|opts| - 1]) + if opts[|opts| - 1].hasCheck then [|opts| - 1] else []
  }

  function Answer(answers: seq<int>, k: nat): int {
    if k < |answers| then answers[k] else 0
  }

  /** Options are checked in order up to the first that fails, and a check fails if its answer is negative. */
  ghost predicate CheckedUntil(opts: seq<Opt>, answers: seq<int>, checked: seq<nat>, ret: int) {
    && checked <= Checks(opts)
    && (forall k :: 0 <= k < |checked| - 1 ==> Answer(answers, k) >= 0)
    && if ret == 0 then checked == Checks(opts) && (checked != [] ==> Answer(answers, |checked| - 1) >= 0)
       else checked != [] && ret == Answer(answers, |checked| - 1) < 0
  }

  method AfterChecks(opts: seq<Opt>, answers: seq<int>) returns (checked: seq<nat>, ret: int)
    ensures CheckedUntil(opts, answers, checked, ret)
  {
    checked, ret := [], 0;
    var i := 0;
    assert opts[..0] == [];
    while i < |opts|
      invariant i <= |opts| && ret == 0 && CheckedUntil(opts[..i], answers, checked, ret)
    {
      assert opts[..i + 1][..i] == opts[..i];
      if opts[i].hasCheck {
        var answer := Answer(answers, |checked|);
        checked := checked + [i];
        if answer < 0 {
          ret := answer;
          ChecksGrow(opts, i + 1);
          return;
        }
      }
      i := i + 1;
    }
    assert opts[..i] == opts;
  }

  lemma {:induction false} ChecksGrow(opts: seq<Opt>, i: nat)
    requires i <= |opts|
    ensures Checks(opts[..i]) <= Checks(opts)
  {
    if i < |opts| {
      ChecksGrow(opts[..|opts| - 1], i);
      assert opts[..|opts| - 1][..i] == opts[..i];
    } else {
      assert opts[..i] == opts;
    }
  }

  /** Exactly the options that ask for a check are checked when all goes well. */
  lemma {:induction false} ChecksAreThose(opts: seq<Opt>, i: nat)
    ensures i in Checks(opts) <==> i < |opts| && opts[i].hasCheck
  {
    if opts != [] { ChecksAreThose(opts[..|opts| - 1], i); }
  }

  function Joined(calls: seq<Call>, o: Outcome): Outcome {
    Outcome(calls + o.calls, o.ret, o.left)
  }

  lemma ReadingAtEnd(opts: seq<Opt>, s: seq<Byte>, answers: seq<int>)
    ensures Exec(opts, Reading(s, |s|), answers) == Outcome([], 0, answers)
  {
  }

  lemma FindSame(s: seq<Byte>, b: seq<Byte>, pos: nat, stops: set<Byte>)
    requires pos <= |s| == |b| && b[pos..] == s[pos..]
    ensures Find(s, pos, stops) == Find(b, pos, stops)
    ensures var e := Find(s, pos, stops); s[pos..e] == b[pos..e]
  {
    assert forall k :: pos <= k < |s| ==> s[k] == s[pos..][k - pos] && b[k] == b[pos..][k - pos];
    FindInTail(s, b, pos, stops);
  }

  /** What the rest of the reading does, in terms of the line at its start. */
  lemma LineIsRead(opts: seq<Opt>, s: seq<Byte>, b: seq<Byte>, pos: nat, answers: seq<int>,
      done: seq<Call>)
    requires pos < |s| == |b| && b[pos..] == s[pos..]
    ensures var e := Find(b, pos, {NEWLINE});
      var p := LinePair(b[pos..e]);
      var step := if p.key == [] then Stepped([], 0, answers) else Issue(opts, p, answers);
      var next := if e < |s| then e + 1 else e;
      Joined(done, Exec(opts, Reading(s, pos), answers))
      == if Hard(step.code) then Outcome(done + step.calls, step.code, step.left)
         else Joined(done + step.calls, Exec(opts, Reading(s, next), step.left))
  {
    hide Issue, LinePair, Find, Exec, Reading;
    FindSame(s, b, pos, {NEWLINE});
    var e := Find(s, pos, {NEWLINE});
    var p := LinePair(s[pos..e]);
    ReadingNext(s, pos);
    if p.key == [] {
      assert done + [] == done;
    } else {
      ExecNext(opts, p, Reading(s, if e < |s| then e + 1 else e), answers, done);
    }
  }

  lemma ReadingNext(s: seq<Byte>, pos: nat)
    requires pos < |s|
    ensures var e := Find(s, pos, {NEWLINE});
      var p := LinePair(s[pos..e]);
      var rest := Reading(s, if e < |s| then e + 1 else e);
      Reading(s, pos) == if p.key == [] then rest else [p] + rest
  {
    hide LinePair, Find;
    ReadingUnfolds(s, pos);
    var e := Find(s, pos, {NEWLINE});
    hide Reading;
    var p := LinePair(s[pos..e]);
    var rest := Reading(s, if e < |s| then e + 1 else e);
    assert [] + rest == rest;
  }

  lemma ReadingUnfolds(s: seq<Byte>, pos: nat)
    requires pos < |s|
    ensures var e := Find(s, pos, {NEWLINE});
      var p := LinePair(s[pos..e]);
      Reading(s, pos) == (if p.key == [] then [] else [p]) + (if e < |s| then Reading(s, e + 1) else [])
  {
    hide LinePair, Find;
  }

  lemma ExecNext(opts: seq<Opt>, p: Pair, rest: seq<Pair>, answers: seq<int>, done: seq<Call>)
    ensures var step := Issue(opts, p, answers);
      Joined(done, Exec(opts, [p] + rest, answers))
      == if Hard(step.code) then Outcome(done + step.calls, step.code, step.left)
         else Joined(done + step.calls, Exec(opts, rest, step.left))
  {
    hide Issue;
    var step := Issue(opts, p, answers);
    assert ([p] + rest)[1..] == rest;
    if !Hard(step.code) {
      var calls := Exec(opts, rest, step.left).calls;
      assert done + (step.calls + calls) == done + step.calls + calls;
    }
  }

  // ---------------------------------------------------------------- what the reading means

  /** A trimmed text is what is left of it without the blanks at both ends. */
  lemma {:induction false} TrimIsTheMiddle(s: seq<Byte>) returns (a: nat, b: nat)
    ensures a <= b <= |s| && Trim(s) == s[a..b]
    ensures forall k :: 0 <= k < |s| && !(a <= k < b) ==> Blank(s[k])
    ensures a < b ==> !Blank(s[a]) && !Blank(s[b - 1])
    decreases |s|
  {
    if s != [] && Blank(s[0]) {
      a, b := TrimIsTheMiddle(s[1..]);
      a, b := a + 1, b + 1;
      assert s[1..][a - 1..b - 1] == s[a..b];
      forall k | 0 <= k < |s| && !(a <= k < b) ensures Blank(s[k]) { if k > 0 { assert s[k] == s[1..][k - 1]; } }
    } else {
      a := 0;
      b := TrimRightIsAPrefix(s);
      assert s[..b] == s[0..b];
    }
  }

  lemma {:induction false} TrimRightIsAPrefix(s: seq<Byte>) returns (b: nat)
    ensures b <= |s| && TrimRight(s) == s[..b] && (b > 0 ==> !Blank(s[b - 1]))
    ensures forall k :: b <= k < |s| ==> Blank(s[k])
    decreases |s|
  {
    if s != [] && Blank(s[|s| - 1]) {
      b := TrimRightIsAPrefix(s[..|s| - 1]);
      assert s[..|s| - 1][..b] == s[..b];
    } else {
      b := |s|;
      assert s[..b] == s;
    }
  }

  /** The call is for one of the pairs, and concerns the first option that answers to its key, which is
      not locked. */
  /** The call is one that the pair asks for: of the first option that answers to the key, if that is not locked; with
      "set" just if the key is not the form with "no-"; and with an argument just if the option takes one, unless it
      reads files itself. */
  ghost predicate Asked(opts: seq<Opt>, p: Pair, c: Call) {
    && IsFirst(opts, p.key, c.opt) && c.value == p.value
    && var o := opts[c.opt];
       && !o.locked
       && (if c.set_ then p.key == o.long[3..] else p.key == o.long)
       && (if o.hasFile then c.file else !c.file && o.hasParse && (o.hasArg <==> p.value.Some?))
  }

  ghost predicate IsFirst(opts: seq<Opt>, key: seq<Byte>, i: nat) {
    i < |opts| && Named(opts[i], key) && forall j :: 0 <= j < i ==> !Named(opts[j], key)
  }

  lemma {:induction false} FindFirst(opts: seq<Opt>, p: Pair, i: nat) returns (k: nat)
    requires i <= |opts| && Resolve(opts, p, 0) == Resolve(opts, p, i)
    requires forall j :: 0 <= j < i ==> !Named(opts[j], p.key)
    ensures k <= |opts| && Resolve(opts, p, 0) == Resolve(opts, p, k)
    ensures if k < |opts| then IsFirst(opts, p.key, k) else forall j :: 0 <= j < |opts| ==> !Named(opts[j], p.key)
    decreases |opts| - i
  {
    if i == |opts| || Named(opts[i], p.key) { k := i; } else { k := FindFirst(opts, p, i + 1); }
  }

  /** A pair leads to a call just if it asks for one; and it is refused, the rest being read all the same, just if no
      option answers to the key or the argument is missing or too much. */
  lemma ResolveMeans(opts: seq<Opt>, p: Pair)
    ensures forall c :: Resolve(opts, p, 0) == Do(c) <==> Asked(opts, p, c)
    ensures Resolve(opts, p, 0) == Quiet(EAGAIN) <==>
      forall k: nat :: IsFirst(opts, p.key, k) ==>
        !opts[k].locked && !opts[k].hasFile && opts[k].hasArg != p.value.Some?
  {
    var k := FindFirst(opts, p, 0);
    assert forall j: nat :: IsFirst(opts, p.key, j) <==> j == k < |opts|;
    if k < |opts| { assert |opts[k].long| != |opts[k].long[3..]|; }
  }

  /** Options locked by the command line are never changed by a file, and whatever is called was asked for by a pair
      that the file holds. */
  lemma {:induction false} LockedIsLeftAlone(opts: seq<Opt>, pairs: seq<Pair>, answers: seq<int>)
    ensures forall c :: c in Exec(opts, pairs, answers).calls ==> exists p :: p in pairs && Asked(opts, p, c)
    decreases |pairs|
  {
    hide Asked, Resolve;
    if pairs != [] {
      ResolveMeans(opts, pairs[0]);
      var step := Issue(opts, pairs[0], answers);
      if !Hard(step.code) { LockedIsLeftAlone(opts, pairs[1..], step.left); }
      forall c | c in Exec(opts, pairs, answers).calls ensures exists p :: p in pairs && Asked(opts, p, c) {
        if c in step.calls {
          assert pairs[0] in pairs && Asked(opts, pairs[0], c);
        } else {
          assert c in Exec(opts, pairs[1..], step.left).calls;
          var p :| p in pairs[1..] && Asked(opts, p, c);
          assert p in pairs;
        }
      }
    }
  }
}
