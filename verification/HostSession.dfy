/** Login jobs: argument and environment lists packed into one message, and unpacked in place. */
module HostSession {
  import opened Memory

  const MAGIC: nat := 0x314c_5046
  const HEADER: nat := 12

  /** Strings one after the other, each with its terminator. */
  function Strings(ss: seq<seq<Byte>>): seq<Byte> {
    if ss == [] then [] else ss[0] + [0] + Strings(ss[1..])
  }

  function Header(argc: nat, envc: nat): (h: seq<Byte>)
    ensures |h| == HEADER
  {
    Le4(MAGIC) + Le4(argc % UINT32) + Le4(envc % UINT32)
  }

  lemma HeaderWraps(argc: nat, envc: nat)
    ensures Header(argc % UINT32, envc % UINT32) == Header(argc, envc)
  {
    hide Le4;
    assert argc % UINT32 % UINT32 == argc % UINT32;
    assert envc % UINT32 % UINT32 == envc % UINT32;
  }

  function Job(argv: seq<seq<Byte>>, env: seq<seq<Byte>>): seq<Byte> {
    Header(|argv|, |env|) + (Strings(argv) + Strings(env))
  }

  ghost predicate CStrings(ss: seq<seq<Byte>>) {
    forall i :: 0 <= i < |ss| ==> 0 !in ss[i]
  }

  lemma {:induction false} StringsAppend(ss: seq<seq<Byte>>, ts: seq<seq<Byte>>)
    ensures Strings(ss + ts) == Strings(ss) + Strings(ts)
    decreases |ss|
  {
    if ss == [] {
      assert ss + ts == ts;
    } else {
      assert (ss + ts)[1..] == ss[1..] + ts;
      StringsAppend(ss[1..], ts);
    }
  }

  lemma StringsNext(ss: seq<seq<Byte>>, i: nat)
    requires i < |ss|
    ensures Strings(ss[..i + 1]) == Strings(ss[..i]) + (ss[i] + [0])
  {
    StringsAppend(ss[..i], [ss[i]]);
    assert ss[..i] + [ss[i]] == ss[..i + 1];
    assert Strings([ss[i]]) == ss[i] + [0] + [];
  }

  // ---------------------------------------------------------------- packing

  class Packer {
    var buf: array<Byte>
    var len: nat

    /** No more bytes than there is room for. */
    ghost predicate Valid()
      reads this
    {
      len <= buf.Length
    }

    ghost function Contents(): seq<Byte>
      requires Valid()
      reads this, buf
    {
      buf[..len]
    }

    constructor ()
      ensures Valid() && fresh(buf) && Contents() == []
    {
      buf, len := new Byte[0], 0;
    }

    method Realloc(cap: nat)
      requires Valid() && buf.Length <= cap
      modifies this`buf
      ensures Valid() && fresh(buf) && buf.Length == cap && Contents() == old(Contents())
    {
      var bigger := new Byte[cap](_ => 0);
      MemCopy(bigger, 0, buf[..len]);
      assert bigger[..0] == [];
      buf := bigger;
    }

    /** Doubles the capacity until the string and its terminator fit. */
    method AppendCstr(s: seq<Byte>)
      requires Valid()
      modifies this, buf
      ensures Valid() && (buf == old(buf) || fresh(buf)) && Contents() == old(Contents()) + (s + [0])
      ensures buf.Length == old(buf.Length) || buf.Length < 2 * len || buf.Length == 256
    {
      var n := |s| + 1;
      if len + n > buf.Length {
        var ncap := if buf.Length != 0 then buf.Length else 256;
        while ncap < len + n
          invariant 0 < ncap && buf.Length <= ncap && (ncap < 2 * (len + n) || ncap == 256)
          decreases len + n - ncap
        {
          ncap := ncap * 2;
        }
        Realloc(ncap);
      }
      MemCopy(buf, len, s + [0]);
      len := len + n;
    }

    method AppendAll(ss: seq<seq<Byte>>) returns (count: nat)
      requires Valid()
      modifies this, buf
      ensures Valid() && (buf == old(buf) || fresh(buf)) && Contents() == old(Contents()) + Strings(ss) &&
        count == |ss| % UINT32
    {
      var i := 0;
      count := 0;
      while i < |ss|
        invariant i <= |ss| && Valid() && (buf == old(buf) || fresh(buf)) && count == i % UINT32
        invariant Contents() == old(Contents()) + Strings(ss[..i])
      {
        StringsNext(ss, i);
        AppendCstr(ss[i]);
        count := (count + 1) % UINT32;
        i := i + 1;
      }
      assert ss[..i] == ss;
    }

    /** Moves the body up and puts the header before it. */
    method Finish(argc: nat, envc: nat)
      requires Valid() && argc < UINT32 && envc < UINT32
      modifies this, buf
      ensures Valid() && Contents() == Header(argc, envc) + old(Contents())
    {
      hide Le4, Header;
      var body := len;
      if HEADER + body > buf.Length { Realloc(HEADER + body); }
      ghost var bytes := buf[..body];
      MemMove(buf, HEADER, 0, body);
      assert buf[HEADER..HEADER + body] == bytes;
      var h := Header(argc, envc);
      MemCopy(buf, 0, h);
      len := HEADER + body;
      assert buf[..0] + h == h;
      assert buf[HEADER..len] == bytes;
      assert buf[..len] == buf[..HEADER] + buf[HEADER..len];
    }
  }

  /** Refused without arguments. */
  method PackJob(argv: seq<seq<Byte>>, env: seq<seq<Byte>>) returns (job: Option<seq<Byte>>)
    ensures job == if argv == [] then None else Some(Job(argv, env))
  {
    hide Strings, Header;
    if argv == [] { return None; }
    var p := new Packer();
    var argc := p.AppendAll(argv);
    var envc := p.AppendAll(env);
    assert p.Contents() == Strings(argv) + Strings(env) by { assert [] + Strings(argv) == Strings(argv); }
    HeaderWraps(|argv|, |env|);
    p.Finish(argc, envc);
    job := Some(p.buf[..p.len]);
  }

  // ---------------------------------------------------------------- unpacking

  /** The terminator of the string at `p`, or the end of the message. */
  function End(msg: seq<Byte>, p: nat): (e: nat)
    requires p <= |msg|
    ensures p <= e <= |msg| && (e < |msg| ==> msg[e] == 0) && forall k :: p <= k < e ==> msg[k] != 0
    decreases |msg| - p
  {
    if p == |msg| || msg[p] == 0 then p else End(msg, p + 1)
  }

  function StringAt(msg: seq<Byte>, p: nat): seq<Byte>
    requires p <= |msg|
  {
    msg[p..End(msg, p)]
  }

  datatype Walked =
    | Walked(at: seq<nat>, p: nat)
    | Short     // a string would start at the end of the message
    | Overrun   // a string has no terminator in the message, and reading it goes on behind the message

  /** `n` strings from `p` on. */
  function Walk(msg: seq<Byte>, p: nat, n: nat): (w: Walked)
    requires p <= |msg|
    ensures w.Walked? ==> p <= w.p <= |msg| && |w.at| == n
    decreases n
  {
    if n == 0 then Walked([], p)
    else if p == |msg| then Short
    else if End(msg, p) == |msg| then Overrun
    else match Walk(msg, End(msg, p) + 1, n - 1)
      case Walked(at, q) => Walked([p] + at, q)
      case failed => failed
  }

  datatype Unpacked = Unpacked(argv: seq<nat>, env: seq<nat>) | Refused | Overruns

  /** The numbers of strings that a job may have. */
  predicate InRange(argc: nat, envc: nat) {
    1 <= argc <= 64 && envc <= 512
  }

  /** The message starts with a header that is accepted. */
  predicate Greets(msg: seq<Byte>, argc: nat, envc: nat) {
    |msg| >= HEADER && Read4(msg, 0) == MAGIC && Read4(msg, 4) == argc && Read4(msg, 8) == envc && InRange(argc, envc)
  }

  function Unpack(msg: seq<Byte>): Unpacked {
    if |msg| < HEADER || !Greets(msg, Read4(msg, 4), Read4(msg, 8)) then Refused
    else WalkBoth(msg, Read4(msg, 4), Read4(msg, 8))
  }

  function WalkBoth(msg: seq<Byte>, argc: nat, envc: nat): Unpacked
    requires |msg| >= HEADER
  {
    match Walk(msg, HEADER, argc)
    case Short => Refused
    case Overrun => Overruns
    case Walked(argv, p) =>
      match Walk(msg, p, envc)
      case Short => Refused
      case Overrun => Overruns
      case Walked(env, _) => Unpacked(argv, env)
  }

  /** The length of the string at `p`, if it ends before `len`. */
  method StrLen(buf: array<Byte>, len: nat, p: nat) returns (n: nat)
    requires p <= len <= buf.Length
    ensures p + n == End(buf[..len], p)
  {
    n := 0;
    while p + n < len && buf[p + n] != 0
      invariant p + n <= End(buf[..len], p)
      decreases len - n
    {
      n := n + 1;
    }
  }

  method WalkStrings(buf: array<Byte>, len: nat, start: nat, n: nat) returns (w: Walked)
    requires start <= len <= buf.Length
    ensures w == Walk(buf[..len], start, n)
  {
    hide End, Walk, Onto;
    var at: seq<nat>, p: nat, i: nat := [], start, 0;
    OntoNothing(Walk(buf[..len], start, n));
    while i < n
      invariant i <= n && p <= len
      invariant Walk(buf[..len], start, n) == Onto(at, Walk(buf[..len], p, n - i))
    {
      WalkOn(buf[..len], p, n - i, at);
      if p >= len { return Short; }
      var k := StrLen(buf, len, p);
      if p + k == len { return Overrun; }
      at := at + [p];
      p := p + k + 1;
      i := i + 1;
    }
    WalkOn(buf[..len], p, 0, at);
    w := Walked(at, p);
  }

  function Onto(at: seq<nat>, w: Walked): Walked {
    match w
    case Walked(more, p) => Walked(at + more, p)
    case failed => failed
  }

  lemma OntoNothing(w: Walked)
    ensures Onto([], w) == w
  {
    if w.Walked? { assert [] + w.at == w.at; }
  }

  /** One round of the walk. */
  lemma WalkOn(msg: seq<Byte>, p: nat, n: nat, at: seq<nat>)
    requires p <= |msg|
    ensures Onto(at, Walk(msg, p, n)) ==
      if n == 0 then Walked(at, p)
      else if p == |msg| then Short
      else if End(msg, p) == |msg| then Overrun
      else Onto(at + [p], Walk(msg, End(msg, p) + 1, n - 1))
  {
    assert at + [] == at;
    if n > 0 && End(msg, p) < |msg| {
      var w := Walk(msg, End(msg, p) + 1, n - 1);
      if w.Walked? { assert at + ([p] + w.at) == at + [p] + w.at; }
    }
  }

  /** Unpacks the first `len` bytes of a buffer.  What the rest of the buffer holds does not matter, unless
      the message overruns. */
  method UnpackJob(buf: array<Byte>, len: nat) returns (r: Unpacked)
    requires len <= buf.Length
    ensures r == Unpack(buf[..len])
  {
    if len < HEADER { return Refused; }
    var argc, envc := Read4(buf[..len], 4), Read4(buf[..len], 8);
    if Read4(buf[..len], 0) != MAGIC || argc == 0 || argc > 64 || envc > 512 { return Refused; }
    hide Walk, Read4;
    var argv := WalkStrings(buf, len, HEADER, argc);
    if argv.Overrun? { return Overruns; }
    if argv.Short? { return Refused; }
    var env := WalkStrings(buf, len, argv.p, envc);
    if env.Overrun? { return Overruns; }
    if env.Short? { return Refused; }
    r := Unpacked(argv.at, env.at);
  }

  // ---------------------------------------------------------------- reading behind the message

  /** The number of terminators from `p` on. */
  function Terminators(msg: seq<Byte>, p: nat): nat
    requires p <= |msg|
    decreases |msg| - p
  {
    if p == |msg| then 0 else (if msg[p] == 0 then 1 else 0) + Terminators(msg, p + 1)
  }

  lemma {:induction false} TerminatorsNext(msg: seq<Byte>, p: nat)
    requires p <= |msg|
    ensures Terminators(msg, p) == if End(msg, p) == |msg| then 0 else 1 + Terminators(msg, End(msg, p) + 1)
    decreases |msg| - p
  {
    if p < |msg| && msg[p] != 0 { TerminatorsNext(msg, p + 1); }
  }

  /** How a walk ends is told by the number of terminators and the last byte. */
  lemma {:induction false} WalkEnds(msg: seq<Byte>, p: nat, n: nat)
    requires p <= |msg|
    ensures var w := Walk(msg, p, n);
      && (w.Walked? <==> n <= Terminators(msg, p))
      && (w.Walked? ==> Terminators(msg, w.p) == Terminators(msg, p) - n && (w.p > p ==> msg[w.p - 1] == 0))
      && (w.Overrun? <==> n > Terminators(msg, p) && p < |msg| && msg[|msg| - 1] != 0)
    decreases n
  {
    TerminatorsNext(msg, p);
    var e := End(msg, p);
    hide Terminators, End;
    if n > 0 && e < |msg| { WalkEnds(msg, e + 1, n - 1); }
  }

  /** The exact condition for reading on behind the message: its header is accepted, it has fewer
      terminators than strings, and its last byte is none.  Every other message is read within its own
      bytes. */
  lemma OverrunsIff(msg: seq<Byte>)
    ensures Unpack(msg) == Overruns <==>
      && |msg| > HEADER && Greets(msg, Read4(msg, 4), Read4(msg, 8))
      && Terminators(msg, HEADER) < Read4(msg, 4) + Read4(msg, 8) && msg[|msg| - 1] != 0
  {
    if |msg| >= HEADER {
      var argc, envc := Read4(msg, 4), Read4(msg, 8);
      hide Walk, Terminators, Read4;
      WalkEnds(msg, HEADER, argc);
      var w := Walk(msg, HEADER, argc);
      if w.Walked? { WalkEnds(msg, w.p, envc); }
    }
  }

  /** For one, a job of one argument that is cut off before its terminator. */
  lemma TruncatedJobOverruns()
    ensures var msg := Header(1, 0) + [65]; |msg| == 13 && Unpack(msg) == Overruns
  {
    var msg := Header(1, 0) + [65];
    assert msg[..HEADER] == Header(1, 0);
    HeaderReads(msg, 1, 0);
    assert Terminators(msg, 13) == 0 && Terminators(msg, HEADER) == 0;
    hide Header, Read4;
    OverrunsIff(msg);
  }

  // ---------------------------------------------------------------- what comes back

  /** The strings at the places found; there is none outside memory. */
  function TextsAt(msg: seq<Byte>, at: seq<nat>): seq<seq<Byte>> {
    if at == [] then [] else [if at[0] <= |msg| then StringAt(msg, at[0]) else []] + TextsAt(msg, at[1..])
  }

  /** The list `ss` stands in memory at `p`. */
  ghost predicate StandsAt(msg: seq<Byte>, p: nat, ss: seq<seq<Byte>>) {
    p + |Strings(ss)| <= |msg| && msg[p..p + |Strings(ss)|] == Strings(ss)
  }

  lemma StandsFirst(msg: seq<Byte>, p: nat, ss: seq<seq<Byte>>)
    requires ss != [] && 0 !in ss[0] && StandsAt(msg, p, ss)
    ensures End(msg, p) == p + |ss[0]| < |msg| && StringAt(msg, p) == ss[0] && StandsAt(msg, p + |ss[0]| + 1, ss[1..])
  {
    TerminatedFirst(msg, p, ss[0], Strings(ss[1..]));
  }

  lemma TerminatedFirst(msg: seq<Byte>, p: nat, s: seq<Byte>, rest: seq<Byte>)
    requires 0 !in s && p + |s + [0] + rest| <= |msg| && msg[p..p + |s + [0] + rest|] == s + [0] + rest
    ensures End(msg, p) == p + |s| < |msg| && StringAt(msg, p) == s
    ensures var q := p + |s| + 1; q + |rest| <= |msg| && msg[q..q + |rest|] == rest
  {
    var here, n := s + [0] + rest, |s|;
    assert here[..n] == s && here[n] == 0 && here[n + 1..] == rest;
    SliceOfSlice(msg, p, |here|, 0, n);
    SliceOfSlice(msg, p, |here|, n + 1, |here|);
    assert msg[p + n] == msg[p..p + |here|][n];
    forall k | p <= k < p + n ensures msg[k] != 0 { assert msg[k] == msg[p..p + n][k - p]; }
    EndIs(msg, p, p + n);
  }

  lemma EndIs(msg: seq<Byte>, p: nat, e: nat)
    requires p <= e < |msg| && msg[e] == 0 && forall k :: p <= k < e ==> msg[k] != 0
    ensures End(msg, p) == e
  {
  }

  lemma StringsHead(ss: seq<seq<Byte>>)
    ensures |Strings(ss)| == if ss == [] then 0 else |ss[0]| + 1 + |Strings(ss[1..])|
  {
  }

  /** Walking over a list finds its strings. */
  lemma {:induction false} WalkFinds(msg: seq<Byte>, p: nat, ss: seq<seq<Byte>>)
    requires CStrings(ss) && p <= |msg| && StandsAt(msg, p, ss)
    ensures var w := Walk(msg, p, |ss|); w.Walked? && w.p == p + |Strings(ss)| && TextsAt(msg, w.at) == ss
    decreases |ss|
  {
    hide Strings, End, StandsAt, StringAt;
    StringsHead(ss);
    if ss != [] {
      StandsFirst(msg, p, ss);
      var q := p + |ss[0]| + 1;
      WalkFinds(msg, q, ss[1..]);
      assert ss == [ss[0]] + ss[1..];
      assert ([p] + Walk(msg, q, |ss| - 1).at)[1..] == Walk(msg, q, |ss| - 1).at;
    }
  }

  /** What a walk finds stands there. */
  lemma {:induction false} FoundStands(msg: seq<Byte>, p: nat, n: nat)
    requires p <= |msg| && Walk(msg, p, n).Walked?
    ensures var w := Walk(msg, p, n);
      var ss := TextsAt(msg, w.at);
      StandsAt(msg, p, ss) && CStrings(ss) && w.p == p + |Strings(ss)| && |ss| == n
    decreases n
  {
    var w := Walk(msg, p, n);
    if n > 0 {
      var q := End(msg, p) + 1;
      FoundStands(msg, q, n - 1);
      assert w.at[1..] == Walk(msg, q, n - 1).at;
      hide End, Walk;
      OneMoreStands(msg, p, TextsAt(msg, w.at[1..]));
      assert TextsAt(msg, w.at) == [StringAt(msg, p)] + TextsAt(msg, w.at[1..]);
    }
  }

  lemma OneMoreStands(msg: seq<Byte>, p: nat, rest: seq<seq<Byte>>)
    requires p <= |msg| && End(msg, p) < |msg| && StandsAt(msg, End(msg, p) + 1, rest) && CStrings(rest)
    ensures var ss := [StringAt(msg, p)] + rest;
      StandsAt(msg, p, ss) && CStrings(ss) && |Strings(ss)| == End(msg, p) + 1 - p + |Strings(rest)|
  {
    hide End;
    var s, q := StringAt(msg, p), End(msg, p) + 1;
    var ss := [s] + rest;
    assert ss[1..] == rest;
    assert Strings(ss) == s + [0] + Strings(rest);
    var r := q + |Strings(rest)|;
    assert msg[p..r] == msg[p..q - 1] + [msg[q - 1]] + msg[q..r];
  }

  // ---------------------------------------------------------------- the whole job

  /** The packed job of the two lists stands at the start of the message, and their numbers are in
      range. */
  ghost predicate Carries(msg: seq<Byte>, argv: seq<seq<Byte>>, env: seq<seq<Byte>>) {
    InRange(|argv|, |env|) && Job(argv, env) <= msg
  }

  lemma HeaderReads(msg: seq<Byte>, argc: nat, envc: nat)
    requires HEADER <= |msg| && argc < UINT32 && envc < UINT32
    ensures msg[..HEADER] == Header(argc, envc) <==>
      Read4(msg, 0) == MAGIC && Read4(msg, 4) == argc && Read4(msg, 8) == envc
  {
    hide Le4, Read4;
    var h := Header(argc, envc);
    assert h[0..4] == Le4(MAGIC) && h[4..8] == Le4(argc) && h[8..12] == Le4(envc);
    assert msg[..HEADER] == msg[0..4] + msg[4..8] + msg[8..12];
    assert msg[..HEADER][0..4] == msg[0..4] && msg[..HEADER][4..8] == msg[4..8] && msg[..HEADER][8..12] == msg[8..12];
    WordReads(msg, 0, MAGIC);
    WordReads(msg, 4, argc);
    WordReads(msg, 8, envc);
  }

  lemma WordReads(b: seq<Byte>, i: nat, v: nat)
    requires i + 4 <= |b| && v < UINT32
    ensures b[i..i + 4] == Le4(v) <==> Read4(b, i) == v
  {
    if b[i..i + 4] == Le4(v) { ReadBack4(b, i, v); }
    if Read4(b, i) == v { WriteBack4(b, i); }
  }

  /** Unpacking succeeds and gives these lists. */
  ghost predicate Yields(msg: seq<Byte>, argv: seq<seq<Byte>>, env: seq<seq<Byte>>) {
    var r := Unpack(msg);
    r.Unpacked? && TextsAt(msg, r.argv) == argv && TextsAt(msg, r.env) == env
  }

  /** Both lists of a job stand where the walks begin. */
  lemma JobStands(msg: seq<Byte>, argv: seq<seq<Byte>>, env: seq<seq<Byte>>)
    ensures Job(argv, env) <= msg <==>
      && HEADER <= |msg| && msg[..HEADER] == Header(|argv|, |env|)
      && StandsAt(msg, HEADER, argv) && StandsAt(msg, HEADER + |Strings(argv)|, env)
  {
    hide Header, Strings;
    var job, n, m := Job(argv, env), |Strings(argv)|, |Strings(env)|;
    assert |job| == HEADER + n + m;
    assert job[..HEADER] == Header(|argv|, |env|) && job[HEADER..HEADER + n] == Strings(argv) &&
      job[HEADER + n..] == Strings(env);
    if |job| <= |msg| {
      assert msg[..|job|] == msg[..HEADER] + msg[HEADER..HEADER + n] + msg[HEADER + n..HEADER + n + m];
    }
    if job <= msg {
      assert msg[..|job|] == job;
      assert msg[..|job|][..HEADER] == msg[..HEADER];
      assert msg[..|job|][HEADER..HEADER + n] == msg[HEADER..HEADER + n];
      assert msg[..|job|][HEADER + n..] == msg[HEADER + n..HEADER + n + m];
    }
  }

  /** A message unpacks to two lists exactly when it carries their job. */
  lemma UnpacksIff(msg: seq<Byte>, argv: seq<seq<Byte>>, env: seq<seq<Byte>>)
    requires CStrings(argv) && CStrings(env)
    ensures Carries(msg, argv, env) <==> Yields(msg, argv, env)
  {
    if Carries(msg, argv, env) { CarriedIsYielded(msg, argv, env); }
    if Yields(msg, argv, env) { YieldedIsCarried(msg, argv, env); }
  }

  lemma UnpackGreeted(msg: seq<Byte>, argc: nat, envc: nat)
    requires Greets(msg, argc, envc)
    ensures Unpack(msg) == WalkBoth(msg, argc, envc)
  {
    hide WalkBoth;
  }

  lemma CarriedIsYielded(msg: seq<Byte>, argv: seq<seq<Byte>>, env: seq<seq<Byte>>)
    requires CStrings(argv) && CStrings(env) && Carries(msg, argv, env)
    ensures Yields(msg, argv, env)
  {
    hide Job, Strings, Header, StandsAt, Walk, TextsAt, Read4, Unpack;
    JobStands(msg, argv, env);
    HeaderReads(msg, |argv|, |env|);
    UnpackGreeted(msg, |argv|, |env|);
    BothFound(msg, argv, env);
  }

  lemma BothFound(msg: seq<Byte>, argv: seq<seq<Byte>>, env: seq<seq<Byte>>)
    requires |msg| >= HEADER && CStrings(argv) && CStrings(env)
    requires StandsAt(msg, HEADER, argv) && StandsAt(msg, HEADER + |Strings(argv)|, env)
    ensures var r := WalkBoth(msg, |argv|, |env|);
      r.Unpacked? && TextsAt(msg, r.argv) == argv && TextsAt(msg, r.env) == env
  {
    StandsInside(msg, HEADER, argv);
    hide Strings, StandsAt, Walk, TextsAt, CStrings;
    WalkFinds(msg, HEADER, argv);
    WalkFinds(msg, HEADER + |Strings(argv)|, env);
  }

  lemma YieldedIsCarried(msg: seq<Byte>, argv: seq<seq<Byte>>, env: seq<seq<Byte>>)
    requires Yields(msg, argv, env)
    ensures Carries(msg, argv, env)
  {
    var argc, envc := Read4(msg, 4), Read4(msg, 8);
    hide Job, Strings, Header, StandsAt, WalkBoth, TextsAt, Read4;
    BothStand(msg, argc, envc, argv, env);
    HeaderReads(msg, argc, envc);
    JobStands(msg, argv, env);
  }

  lemma BothStand(msg: seq<Byte>, argc: nat, envc: nat, argv: seq<seq<Byte>>, env: seq<seq<Byte>>)
    requires |msg| >= HEADER && WalkBoth(msg, argc, envc).Unpacked?
    requires TextsAt(msg, WalkBoth(msg, argc, envc).argv) == argv && TextsAt(msg, WalkBoth(msg, argc, envc).env) == env
    ensures |argv| == argc && |env| == envc
    ensures StandsAt(msg, HEADER, argv) && StandsAt(msg, HEADER + |Strings(argv)|, env)
  {
    hide Strings, StandsAt, Walk, TextsAt, CStrings;
    FoundStands(msg, HEADER, argc);
    FoundStands(msg, Walk(msg, HEADER, argc).p, envc);
  }

  lemma StandsInside(msg: seq<Byte>, p: nat, ss: seq<seq<Byte>>)
    requires StandsAt(msg, p, ss)
    ensures p + |Strings(ss)| <= |msg|
  {
  }

  /** A packed job comes back as the same lists if and only if they have at most 64 and 512 members; longer
      ones are packed all the same, and then refused. */
  lemma JobComesBackIff(argv: seq<seq<Byte>>, env: seq<seq<Byte>>)
    requires argv != [] && CStrings(argv) && CStrings(env) && |argv| < UINT32 && |env| < UINT32
    ensures var job := Job(argv, env);
      if InRange(|argv|, |env|) then Yields(job, argv, env) else Unpack(job) == Refused
  {
    var job := Job(argv, env);
    JobStands(job, argv, env);
    HeaderReads(job, |argv|, |env|);
    hide Strings, Header, StandsAt, Walk, TextsAt, Read4;
    if InRange(|argv|, |env|) { CarriedIsYielded(job, argv, env); }
  }
}
