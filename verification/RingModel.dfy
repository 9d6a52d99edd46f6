/** The output queue of a terminal: chunks of bytes behind a descriptor that may take any part of
    what is offered to it. */
module RingModel {
  import opened Memory

  const RING_SIZE: nat := 512

  // ---------------------------------------------------------------- the queue as chunks

  function Flat(chunks: seq<seq<Byte>>): seq<Byte> {
    if chunks == [] then [] else chunks[0] + Flat(chunks[1..])
  }

  /** Chunks hold 1 to 512 bytes.  Any chunk may be short: the first after a partial drop, and that
      chunk may later be followed by others. */
  ghost predicate Sound(chunks: seq<seq<Byte>>) {
    forall i :: 0 <= i < |chunks| ==> 0 < |chunks[i]| <= RING_SIZE
  }

  /** Fills up the last chunk and then starts new ones. */
  function Write(chunks: seq<seq<Byte>>, val: seq<Byte>): seq<seq<Byte>>
    decreases |val|
  {
    if val == [] then chunks
    else
      var n := |chunks|;
      if n == 0 || |chunks[n - 1]| >= RING_SIZE then
        var cp := if |val| >= RING_SIZE then RING_SIZE else |val|;
        Write(chunks + [val[..cp]], val[cp..])
      else
        var space := RING_SIZE - |chunks[n - 1]|;
        var cp := if |val| >= space then space else |val|;
        Write(chunks[n - 1 := chunks[n - 1] + val[..cp]], val[cp..])
  }

  /** The longest contiguous piece at `offset`. */
  function Peek(chunks: seq<seq<Byte>>, offset: nat): seq<Byte> {
    if chunks == [] then []
    else if |chunks[0]| <= offset then Peek(chunks[1..], offset - |chunks[0]|)
    else chunks[0][offset..]
  }

  function Drop(chunks: seq<seq<Byte>>, len: nat): seq<seq<Byte>> {
    if chunks == [] || len == 0 then chunks
    else if len >= |chunks[0]| then Drop(chunks[1..], len - |chunks[0]|)
    else [chunks[0][len..]] + chunks[1..]
  }

  lemma {:induction false} FlatAppend(a: seq<seq<Byte>>, b: seq<seq<Byte>>)
    ensures Flat(a + b) == Flat(a) + Flat(b)
  {
    if a == [] {
      assert a + b == b;
    } else {
      assert (a + b)[1..] == a[1..] + b && (a + b)[0] == a[0];
      FlatAppend(a[1..], b);
      assert Flat(a + b) == a[0] + Flat(a[1..] + b);
    }
  }

  lemma FlatLast(a: seq<seq<Byte>>, last: seq<Byte>)
    ensures Flat(a + [last]) == Flat(a) + last
  {
    FlatAppend(a, [last]);
    assert Flat([last]) == last + Flat([]);
  }

  /** Writing appends exactly the written bytes. */
  lemma {:induction false} WriteAppends(chunks: seq<seq<Byte>>, val: seq<Byte>)
    requires Sound(chunks)
    ensures Sound(Write(chunks, val)) && Flat(Write(chunks, val)) == Flat(chunks) + val
    decreases |val|
  {
    hide Flat;
    if val == [] {
      assert Flat(chunks) + val == Flat(chunks);
    } else {
      var n := |chunks|;
      if n == 0 || |chunks[n - 1]| >= RING_SIZE {
        var cp := if |val| >= RING_SIZE then RING_SIZE else |val|;
        WriteAppends(chunks + [val[..cp]], val[cp..]);
        FlatLast(chunks, val[..cp]);
        Rejoin(Flat(chunks), val, cp);
      } else {
        var space := RING_SIZE - |chunks[n - 1]|;
        var cp := if |val| >= space then space else |val|;
        var last := chunks[n - 1] + val[..cp];
        var init := chunks[..n - 1];
        assert chunks == init + [chunks[n - 1]] && chunks[n - 1 := last] == init + [last];
        WriteAppends(chunks[n - 1 := last], val[cp..]);
        FlatLast(init, chunks[n - 1]);
        FlatLast(init, last);
        assert Flat(init) + last == Flat(chunks) + val[..cp];
        Rejoin(Flat(chunks), val, cp);
      }
    }
  }

  lemma Rejoin(head: seq<Byte>, val: seq<Byte>, cp: nat)
    requires cp <= |val|
    ensures head + val[..cp] + val[cp..] == head + val
  {
    assert val[..cp] + val[cp..] == val;
  }

  /** What is peeked at is what comes next, and there is something unless the offset is past the end. */
  lemma {:induction false} PeekSees(chunks: seq<seq<Byte>>, offset: nat)
    requires Sound(chunks)
    ensures var p := Peek(chunks, offset);
      if offset < |Flat(chunks)| then
        p != [] && offset + |p| <= |Flat(chunks)| && p == Flat(chunks)[offset..offset + |p|]
      else p == []
  {
    if chunks != [] && |chunks[0]| <= offset {
      PeekSees(chunks[1..], offset - |chunks[0]|);
    }
  }

  /** Dropping takes bytes off the front, and nothing if there are too few. */
  lemma {:induction false} DropRemoves(chunks: seq<seq<Byte>>, len: nat)
    requires Sound(chunks)
    ensures Sound(Drop(chunks, len))
    ensures Flat(Drop(chunks, len)) == if len <= |Flat(chunks)| then Flat(chunks)[len..] else []
  {
    if chunks != [] && len != 0 {
      if len >= |chunks[0]| {
        DropRemoves(chunks[1..], len - |chunks[0]|);
      } else {
        assert ([chunks[0][len..]] + chunks[1..])[1..] == chunks[1..];
      }
    }
  }

  // ---------------------------------------------------------------- the terminal's output

  /** What a non-blocking `write` answers. */
  datatype Answer = Wrote(n: nat) | WouldBlock | Failed

  /** `sent` is what the descriptor took, `accepted` what the callers were told is accepted, both
      since the terminal was opened. */
  datatype Pty = Pty(ring: seq<seq<Byte>>, writable: bool, open: bool, sent: seq<Byte>, accepted: seq<Byte>)

  /** Writes directly while nothing is queued, and queues the rest. */
  function Output(p: Pty, u8: seq<Byte>, answer: Answer): Pty
    requires answer.Wrote? ==> answer.n <= |u8|
  {
    if !p.open || u8 == [] then p
    else if p.ring != [] then p.(ring := Write(p.ring, u8), accepted := p.accepted + u8)
    else if answer.Failed? then p
    else
      var n := if answer.Wrote? then answer.n else 0;
      var q := p.(sent := p.sent + u8[..n], accepted := p.accepted + u8);
      if n == |u8| then q else q.(writable := true, ring := Write(p.ring, u8[n..]))
  }

  /** Drains the queue as long as the descriptor takes bytes; a fully drained queue needs no more
      write events. */
  function SendBuf(p: Pty, answers: seq<Answer>): Pty
    decreases |answers|
  {
    if p.ring == [] then p.(writable := false)
    else if answers == [] || !answers[0].Wrote? || answers[0].n == 0 then p
    else
      var n := if answers[0].n > |Peek(p.ring, 0)| then |Peek(p.ring, 0)| else answers[0].n;
      SendBuf(p.(ring := Drop(p.ring, n), sent := p.sent + Peek(p.ring, 0)[..n]), answers[1..])
  }

  /** A reader that gives up after too many steps re-arms the descriptor. */
  function ReadBuf(p: Pty, gaveUp: bool): Pty {
    if gaveUp then p.(writable := p.ring != []) else p
  }

  function Close(p: Pty): Pty {
    p.(open := false)
  }

  function Open(p: Pty): Pty {
    if p.open then p else p.(open := true, writable := false, sent := [], accepted := [])
  }

  datatype Step =
    | OutputStep(u8: seq<Byte>, answer: Answer)
    | WritableEvent(answers: seq<Answer>)
    | ReadableEvent(gaveUp: bool)
    | CloseStep
    | OpenStep

  /** The event loop reports only what it was asked for, and only while the terminal is open. */
  predicate Possible(p: Pty, step: Step) {
    match step
    case OutputStep(u8, answer) => answer.Wrote? ==> answer.n <= |u8|
    case WritableEvent(_) => p.open && p.writable
    case ReadableEvent(_) => p.open
    case CloseStep => true
    case OpenStep => true
  }

  function Next(p: Pty, step: Step): Pty
    requires Possible(p, step)
  {
    match step
    case OutputStep(u8, answer) => Output(p, u8, answer)
    case WritableEvent(answers) => SendBuf(p, answers)
    case ReadableEvent(gaveUp) => ReadBuf(p, gaveUp)
    case CloseStep => Close(p)
    case OpenStep => Open(p)
  }

  /** Nothing is lost, duplicated or reordered: what was sent and what is queued is what was queued at the start,
      `stale`, and what was accepted since. */
  ghost predicate Balanced(p: Pty, stale: seq<Byte>) {
    Sound(p.ring) && p.sent + Flat(p.ring) == stale + p.accepted
  }

  /** An open terminal started with nothing queued, and queued bytes have someone waiting for them. */
  ghost predicate Inv(p: Pty) {
    && Sound(p.ring)
    && (p.open ==> Balanced(p, []) && (p.ring != [] ==> p.writable))
  }

  lemma OutputBalances(p: Pty, u8: seq<Byte>, answer: Answer, stale: seq<Byte>)
    requires Balanced(p, stale) && Possible(p, OutputStep(u8, answer))
    ensures Balanced(Output(p, u8, answer), stale)
  {
    var n := if answer.Wrote? then answer.n else 0;
    WriteAppends(p.ring, u8);
    WriteAppends(p.ring, u8[n..]);
    Rejoin(p.sent, u8, n);
    assert p.ring == [] ==> Flat(p.ring) == [];
    hide Write, Flat, Sound;
    assert stale + (p.accepted + u8) == stale + p.accepted + u8;
    if p.ring == [] {
      assert Flat(p.ring) + u8[n..] == u8[n..];
      assert p.sent + Flat(p.ring) == p.sent;
      assert n == |u8| ==> u8[..n] == u8;
    } else {
      assert p.sent + (Flat(p.ring) + u8) == p.sent + Flat(p.ring) + u8;
    }
  }

  lemma OutputKeeps(p: Pty, u8: seq<Byte>, answer: Answer)
    requires Inv(p) && Possible(p, OutputStep(u8, answer))
    ensures Inv(Output(p, u8, answer))
    ensures p.open && !(p.ring == [] && answer.Failed?) ==> Output(p, u8, answer).accepted == p.accepted + u8
  {
    if p.open {
      OutputBalances(p, u8, answer, []);
      hide Write, Flat;
      assert u8 == [] ==> p.accepted + u8 == p.accepted;
    }
  }

  lemma {:induction false} SendBufBalances(p: Pty, answers: seq<Answer>, stale: seq<Byte>)
    requires Balanced(p, stale)
    ensures
      var r := SendBuf(p, answers);
      Balanced(r, stale) && r.accepted == p.accepted && r.open == p.open && (r.ring != [] ==> r.writable == p.writable)
    decreases |answers|
  {
    if p.ring != [] && answers != [] && answers[0].Wrote? && answers[0].n != 0 {
      hide Drop, Peek, Flat;
      var n := if answers[0].n > |Peek(p.ring, 0)| then |Peek(p.ring, 0)| else answers[0].n;
      PeekSees(p.ring, 0);
      DropRemoves(p.ring, n);
      var q := p.(ring := Drop(p.ring, n), sent := p.sent + Peek(p.ring, 0)[..n]);
      assert Flat(p.ring) == Flat(p.ring)[..n] + Flat(p.ring)[n..];
      assert Peek(p.ring, 0)[..n] == Flat(p.ring)[..n];
      SendBufBalances(q, answers[1..], stale);
    }
  }

  /** A terminal that is opened with an empty queue keeps its promises until it is closed. */
  lemma StepKeepsInv(p: Pty, step: Step)
    requires Inv(p) && Possible(p, step) && (step.OpenStep? ==> p.open || p.ring == [])
    ensures Inv(Next(p, step))
  {
    match step
    case OutputStep(u8, answer) => OutputKeeps(p, u8, answer);
    case WritableEvent(answers) => SendBufBalances(p, answers, []);
    case OpenStep => assert !p.open ==> [] + Flat([]) == [] + [];
    case _ =>
  }

  /** Any run of steps, each opening finding the queue empty. */
  ghost predicate Run(p: seq<Pty>, steps: seq<Step>) {
    && |p| == |steps| + 1 && Inv(p[0])
    && (forall i :: 0 <= i < |steps| ==> Possible(p[i], steps[i]) && p[i + 1] == Next(p[i], steps[i]))
    && (forall i :: 0 <= i < |steps| && steps[i].OpenStep? ==> p[i].open || p[i].ring == [])
  }

  lemma {:induction false} StreamIsPreserved(p: seq<Pty>, steps: seq<Step>, i: nat)
    requires Run(p, steps) && i <= |steps|
    ensures Inv(p[i])
    ensures p[i].open ==> p[i].sent <= p[i].accepted && p[i].sent + Flat(p[i].ring) == p[i].accepted
  {
    assert [] + p[i].accepted == p[i].accepted;
    if i > 0 {
      StreamIsPreserved(p, steps, i - 1);
      StepKeepsInv(p[i - 1], steps[i - 1]);
    }
  }

  /** Once a waiting queue is drained, everything accepted has been sent. */
  lemma DrainedMeansSent(p: Pty)
    requires Inv(p) && p.open && !p.writable
    ensures p.sent == p.accepted
  {
    assert p.ring == [];
    assert p.sent + Flat([]) == p.sent && [] + p.accepted == p.accepted;
  }

  /** The exact condition: closing does not empty the queue, and opening a terminal keeps the
      promises if and only if the queue is empty. */
  lemma OpenIsSoundIff(p: Pty)
    requires Inv(p) && !p.open
    ensures Inv(Open(p)) <==> p.ring == []
  {
  }

  /** Over whatever queue a terminal was opened, sent bytes followed by queued bytes are the old queue followed by
      the accepted bytes, until it is opened again. */
  lemma {:induction false} StreamOverStale(p: seq<Pty>, steps: seq<Step>, i: nat)
    requires |p| == |steps| + 1 && Sound(p[0].ring) && !p[0].open && steps != [] && steps[0].OpenStep?
    requires forall k :: 0 <= k < |steps| ==> Possible(p[k], steps[k]) && p[k + 1] == Next(p[k], steps[k])
    requires forall k :: 0 < k < |steps| && steps[k].OpenStep? ==> p[k].open
    requires 0 < i <= |steps|
    ensures Balanced(p[i], Flat(p[0].ring))
  {
    var q, stale := p[i - 1], Flat(p[0].ring);
    if i == 1 {
      assert [] + stale == stale + [];
    } else {
      StreamOverStale(p, steps, i - 1);
      assert p[i] == Next(q, steps[i - 1]);
      match steps[i - 1]
      case OutputStep(u8, answer) => OutputBalances(q, u8, answer, stale);
      case WritableEvent(answers) => SendBufBalances(q, answers, stale);
      case _ =>
    }
  }

  /** Such a queue is reached from a fresh terminal: open it, write while the descriptor blocks, close it, and open it
      again. */
  lemma StaleQueueIsReachable()
    ensures
      var steps := [OpenStep, OutputStep([65], WouldBlock), CloseStep, OpenStep];
      var p := Reached(Pty([], false, false, [], []), steps);
      p.open && !p.writable && Sound(p.ring) && Flat(p.ring) == [65]
  {
    var start := Pty([], false, false, [], []);
    var queue := Write([], [65]);
    WriteAppends([], [65]);
    assert [65][0..] == [65] && [] + [65] == [65];
    var blocked := Pty(queue, true, true, [], [65]);
    assert Next(Next(start, OpenStep), OutputStep([65], WouldBlock)) == blocked;
    assert Next(Next(blocked, CloseStep), OpenStep) == Pty(queue, false, true, [], []);
    hide Write, Flat, Output, Open, Close;
    var steps := [OpenStep, OutputStep([65], WouldBlock), CloseStep, OpenStep];
    assert steps[1..][1..] == [CloseStep, OpenStep];
  }

  /** The terminal after some steps, impossible ones left out. */
  function Reached(p: Pty, steps: seq<Step>): Pty
    decreases |steps|
  {
    if steps == [] then p
    else Reached(if Possible(p, steps[0]) then Next(p, steps[0]) else p, steps[1..])
  }

  /** Opened over a queue that is not empty, the terminal never sends another byte, whatever is
      written to it, until a reader gives up. */
  lemma {:induction false} StaleQueueBlocksOutput(p: Pty, writes: seq<Step>)
    requires Sound(p.ring) && p.open && p.ring != [] && !p.writable
    requires forall i :: 0 <= i < |writes| ==> writes[i].OutputStep? && Possible(p, writes[i])
    ensures var r := OutputAll(p, writes);
      Sound(r.ring) && r.open && r.ring != [] && r.sent == p.sent && !r.writable && !Possible(r, WritableEvent([]))
  {
    if writes != [] {
      StaleQueueBlocksOutput(p, writes[..|writes| - 1]);
      var q, last := OutputAll(p, writes[..|writes| - 1]), writes[|writes| - 1];
      WriteAppends(q.ring, last.u8);
    }
  }

  /** The terminal after a list of writes. */
  function OutputAll(p: Pty, writes: seq<Step>): Pty
    requires forall i :: 0 <= i < |writes| ==> writes[i].OutputStep? && Possible(p, writes[i])
  {
    if writes == [] then p
    else
      var last := writes[|writes| - 1];
      assert Possible(p, last);
      Output(OutputAll(p, writes[..|writes| - 1]), last.u8, last.answer)
  }
}
