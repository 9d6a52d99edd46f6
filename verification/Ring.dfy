/** The chunk list on the heap, and the terminal that writes through it. */
module Ring {
  import opened Memory
  import opened RingModel

  class Chunk {
    var next: Chunk?
    var len: nat
    const buf: array<Byte>

    constructor ()
      ensures next == null && len == 0 && fresh(buf) && buf.Length == RING_SIZE
    {
      next, len := null, 0;
      buf := new Byte[RING_SIZE](_ => 0);
    }

    method DropFront(n: nat)
      requires n <= len <= buf.Length
      modifies this`len, buf
      ensures len == old(len) - n && buf[..len] == old(buf[n..len])
    {
      MemMove(buf, 0, n, len);
      len := len - n;
    }
  }

  class Queue {
    var first: Chunk?
    var last: Chunk?
    ghost var spine: seq<Chunk>
    ghost var chunks: seq<seq<Byte>>
    ghost var Repr: set<object>

    ghost predicate Links(a: Chunk, b: Chunk)
      reads a
    {
      a.next == b
    }

    /** The chunks are linked in order, and no two share memory. */
    ghost predicate Wired()
      reads this, Repr
    {
      && this in Repr
      && (forall i :: 0 <= i < |spine| ==> spine[i] in Repr && spine[i].buf in Repr)
      && (forall i, j :: 0 <= i < j < |spine| ==> spine[i] != spine[j] && spine[i].buf != spine[j].buf)
      && (spine == [] ==> first == null && last == null)
      && (spine != [] ==> first == spine[0] && last == spine[|spine| - 1] && spine[|spine| - 1].next == null)
      && (forall i :: 0 <= i < |spine| - 1 ==> Links(spine[i], spine[i + 1]))
    }

    ghost predicate Holds(c: Chunk, bytes: seq<Byte>)
      reads c, c.buf
    {
      c.len <= c.buf.Length == RING_SIZE && bytes == c.buf[..c.len]
    }

    /** The chunks hold the bytes in `chunks`. */
    ghost predicate Shape()
      reads this, Repr
    {
      Wired() && |chunks| == |spine| && forall i :: 0 <= i < |spine| ==> Holds(spine[i], chunks[i])
    }

    ghost predicate Valid()
      reads this, Repr
    {
      Shape() && Sound(chunks)
    }

    constructor ()
      ensures Valid() && chunks == [] && fresh(Repr)
    {
      first, last, spine, chunks := null, null, [], [];
      Repr := {this};
    }

    method IsEmpty() returns (b: bool)
      requires Valid()
      ensures b <==> chunks == []
    {
      b := first == null;
    }

    /** Links an empty chunk at the end. */
    method NewChunk()
      requires Shape()
      modifies Repr
      ensures Shape() && fresh(Repr - old(Repr)) && last != null && last.len == 0
      ensures chunks == old(chunks) + [[]]
    {
      var ent := new Chunk();
      ghost var was, held := spine, chunks;
      if last != null { last.next := ent; } else { first := ent; }
      last := ent;
      spine, chunks, Repr := spine + [ent], chunks + [[]], Repr + {ent, ent.buf};
      forall i | 0 <= i < |spine| - 1 ensures Links(spine[i], spine[i + 1]) {
        if i < |was| - 1 { assert old(Links(was[i], was[i + 1])); }
      }
      forall i | 0 <= i < |spine| ensures Holds(spine[i], chunks[i]) {
        if i < |was| { assert old(Holds(was[i], held[i])); }
      }
    }

    /** Copies bytes behind those of the last chunk. */
    method Fill(val: seq<Byte>)
      requires Shape() && last != null && last.len + |val| <= RING_SIZE
      modifies Repr
      ensures Shape() && Repr == old(Repr) && spine == old(spine)
      ensures chunks == old(chunks)[|spine| - 1 := old(chunks)[|spine| - 1] + val]
    {
      var ent := last;
      ghost var n := |spine| - 1;
      assert Holds(ent, chunks[n]);
      MemCopy(ent.buf, ent.len, val);
      ent.len := ent.len + |val|;
      chunks := chunks[n := chunks[n] + val];
      assert Holds(ent, chunks[n]);
      forall i | 0 <= i < |spine| - 1 ensures Links(spine[i], spine[i + 1]) {
        assert old(Links(spine[i], spine[i + 1]));
      }
      forall i | 0 <= i < |spine| ensures Holds(spine[i], chunks[i]) {
        assert old(Holds(spine[i], chunks[i]));
      }
    }

    /** Fills up the last chunk, or a new one, with as much of `rest` as fits. */
    method FillOnce(rest: seq<Byte>) returns (cp: nat)
      requires Valid() && rest != []
      modifies Repr
      ensures Valid() && fresh(Repr - old(Repr)) && 0 < cp <= |rest|
      ensures RingModel.Write(chunks, rest[cp..]) == RingModel.Write(old(chunks), rest)
    {
      hide RingModel.Write;
      ghost var was := chunks;
      if spine != [] { assert Holds(spine[|spine| - 1], chunks[|spine| - 1]); }
      var ent := last;
      if ent == null || ent.len >= RING_SIZE {
        NewChunk();
        ent := last;
      }
      var space := RING_SIZE - ent.len;
      cp := if |rest| >= space then space else |rest|;
      Fill(rest[..cp]);
      assert [] + rest[..cp] == rest[..cp];
      WriteOnce(was, rest, cp);
      assert chunks == if was == [] || |was[|was| - 1]| >= RING_SIZE then was + [rest[..cp]]
                       else was[|was| - 1 := was[|was| - 1] + rest[..cp]];
    }

    method Write(val: seq<Byte>)
      requires Valid()
      modifies Repr
      ensures Valid() && fresh(Repr - old(Repr))
      ensures chunks == RingModel.Write(old(chunks), val)
    {
      hide RingModel.Write, Valid;
      var rest := val;
      while rest != []
        invariant Valid() && fresh(Repr - old(Repr))
        invariant RingModel.Write(chunks, rest) == RingModel.Write(old(chunks), val)
        decreases |rest|
      {
        var cp := FillOnce(rest);
        rest := rest[cp..];
      }
      WriteNothing(chunks);
    }

    /** The longest contiguous piece at `offset`, empty past the end. */
    method Peek(offset: nat) returns (piece: seq<Byte>)
      requires Valid()
      ensures piece == RingModel.Peek(chunks, offset)
    {
      var iter := first;
      var off: nat := offset;
      ghost var k: nat := 0;
      while iter != null && iter.len <= off
        invariant k <= |spine| && iter == (if k == |spine| then null else spine[k])
        invariant RingModel.Peek(chunks[k..], off) == RingModel.Peek(chunks, offset)
        decreases |spine| - k
      {
        assert k < |spine| && iter == spine[k];
        assert Holds(spine[k], chunks[k]) && chunks[k..][1..] == chunks[k + 1..];
        if k + 1 < |spine| { assert Links(spine[k], spine[k + 1]); }
        off := off - iter.len;
        iter := iter.next;
        k := k + 1;
      }
      if iter == null { return []; }
      assert Holds(spine[k], chunks[k]);
      piece := iter.buf[off..iter.len];
    }

    /** Unlinks the first chunk. */
    method DropFirst()
      requires Shape() && first != null
      modifies this
      ensures Shape() && Repr == old(Repr) && chunks == old(chunks)[1..]
    {
      ghost var was, held := spine, chunks;
      if |spine| > 1 { assert Links(spine[0], spine[1]); }
      first := first.next;
      spine, chunks := spine[1..], chunks[1..];
      if first == null { last := null; }
      forall i | 0 <= i < |spine| - 1 ensures Links(spine[i], spine[i + 1]) {
        assert Links(was[i + 1], was[i + 2]);
      }
      forall i | 0 <= i < |spine| ensures Holds(spine[i], chunks[i]) {
        assert Holds(was[i + 1], held[i + 1]);
      }
    }

    /** Moves the rest of the first chunk to its front. */
    method Shift(len: nat)
      requires Shape() && first != null && len < first.len
      modifies Repr
      ensures Shape() && Repr == old(Repr) && spine == old(spine)
      ensures chunks == [old(chunks)[0][len..]] + old(chunks)[1..]
    {
      var ent := first;
      assert Holds(ent, chunks[0]);
      assert ent.buf[len..ent.len] == chunks[0][len..];
      ent.DropFront(len);
      chunks := [chunks[0][len..]] + chunks[1..];
      assert Holds(ent, chunks[0]);
      forall i | 0 <= i < |spine| - 1 ensures Links(spine[i], spine[i + 1]) {
        assert old(Links(spine[i], spine[i + 1]));
      }
      forall i | 0 <= i < |spine| ensures Holds(spine[i], chunks[i]) {
        assert old(Holds(spine[i], chunks[i]));
      }
    }

    method Drop(len: nat)
      requires Valid()
      modifies Repr
      ensures Valid() && Repr == old(Repr) && chunks == RingModel.Drop(old(chunks), len)
    {
      var n: nat := len;
      while n > 0 && first != null
        invariant Valid() && Repr == old(Repr)
        invariant RingModel.Drop(chunks, n) == RingModel.Drop(old(chunks), len)
        decreases n
      {
        assert |chunks[0]| > 0;
        assert Holds(spine[0], chunks[0]);
        if n >= first.len {
          n := n - first.len;
          DropFirst();
        } else {
          Shift(n);
          n := 0;
        }
      }
    }
  }

  /** The output side of a terminal.  `writable` is whether write events are asked for. */
  class Terminal {
    const msgbuf: Queue
    var writable: bool
    var open: bool
    ghost var sent: seq<Byte>
    ghost var accepted: seq<Byte>

    ghost predicate Valid()
      reads this, msgbuf, msgbuf.Repr
    {
      this !in msgbuf.Repr && msgbuf.Valid()
    }

    ghost function Abs(): Pty
      reads this, msgbuf
    {
      Pty(msgbuf.chunks, writable, open, sent, accepted)
    }

    constructor ()
      ensures Valid() && fresh(msgbuf.Repr) && Abs() == Pty([], false, false, [], [])
    {
      var q := new Queue();
      msgbuf, writable, open, sent, accepted := q, false, false, [], [];
    }

    /** Returns 0, or an error if nothing was accepted. */
    method Write(u8: seq<Byte>, answer: Answer) returns (ret: int)
      requires Valid() && (answer.Wrote? ==> answer.n <= |u8|)
      modifies this, msgbuf.Repr
      ensures Valid() && fresh(msgbuf.Repr - old(msgbuf.Repr))
      ensures Abs() == Output(old(Abs()), u8, answer)
      ensures ret == 0 <==> open && u8 != [] && !(old(msgbuf.chunks) == [] && answer.Failed?)
    {
      hide Sound, RingModel.Write, Flat;
      if !open || u8 == [] { return -1; }
      var rest := u8;
      var empty := msgbuf.IsEmpty();
      if empty {
        if answer.Failed? { return -1; }
        if answer.Wrote? {
          sent := sent + u8[..answer.n];
          if answer.n >= |u8| {
            accepted := accepted + u8;
            return 0;
          }
          rest := u8[answer.n..];
        } else {
          assert u8[0..] == u8 && sent + u8[..0] == sent;
        }
        writable := true;
      }
      msgbuf.Write(rest);
      accepted := accepted + u8;
      ret := 0;
    }

    /** Called when the descriptor takes bytes again; `answers` is what it says to each attempt. */
    method SendBuf(answers: seq<Answer>)
      requires Valid()
      modifies this, msgbuf.Repr
      ensures Valid() && fresh(msgbuf.Repr - old(msgbuf.Repr))
      ensures Abs() == RingModel.SendBuf(old(Abs()), answers)
    {
      hide RingModel.SendBuf, Peek, RingModel.Drop, Flat, Sound, RingModel.Write;
      assert answers[0..] == answers;
      var k := 0;
      while true
        invariant Valid() && k <= |answers| && msgbuf.Repr == old(msgbuf.Repr)
        invariant RingModel.SendBuf(Abs(), answers[k..]) == RingModel.SendBuf(old(Abs()), answers)
        decreases |answers| - k
      {
        var buf := msgbuf.Peek(0);
        SendOnce(Abs(), answers[k..]);
        if buf == [] { break; }
        if k == |answers| || !answers[k].Wrote? || answers[k].n == 0 { return; }
        assert answers[k..][1..] == answers[k + 1..];
        Sent(buf, if answers[k].n > |buf| then |buf| else answers[k].n);
        k := k + 1;
      }
      writable := false;
    }

    /** The descriptor took `n` bytes of those it was offered. */
    method Sent(buf: seq<Byte>, n: nat)
      requires Valid() && n <= |buf|
      modifies this`sent, msgbuf.Repr
      ensures Valid() && msgbuf.Repr == old(msgbuf.Repr)
      ensures Abs() == old(Abs()).(ring := RingModel.Drop(old(msgbuf.chunks), n), sent := old(sent) + buf[..n])
    {
      hide Sound, RingModel.Drop;
      sent := sent + buf[..n];
      msgbuf.Drop(n);
    }

    /** The end of a read burst. */
    method ReadBuf(gaveUp: bool)
      requires Valid()
      modifies this`writable
      ensures Valid() && Abs() == RingModel.ReadBuf(old(Abs()), gaveUp)
    {
      if gaveUp {
        var empty := msgbuf.IsEmpty();
        writable := !empty;
      }
    }

    method Close()
      requires Valid()
      modifies this`open
      ensures Valid() && Abs() == RingModel.Close(old(Abs()))
    {
      open := false;
    }

    method Open()
      requires Valid()
      modifies this
      ensures Valid() && Abs() == RingModel.Open(old(Abs()))
    {
      if open { return; }
      open, writable, sent, accepted := true, false, [], [];
    }
  }

  /** One round of draining. */
  lemma SendOnce(p: Pty, answers: seq<Answer>)
    requires Sound(p.ring)
    ensures RingModel.Peek(p.ring, 0) == [] <==> p.ring == []
    ensures p.ring == [] ==> RingModel.SendBuf(p, answers) == p.(writable := false)
    ensures p.ring != [] && (answers == [] || !answers[0].Wrote? || answers[0].n == 0) ==>
      RingModel.SendBuf(p, answers) == p
    ensures p.ring != [] && answers != [] && answers[0].Wrote? && answers[0].n > 0 ==>
      var piece := RingModel.Peek(p.ring, 0);
      var n := if answers[0].n > |piece| then |piece| else answers[0].n;
      RingModel.SendBuf(p, answers)
        == RingModel.SendBuf(p.(ring := RingModel.Drop(p.ring, n), sent := p.sent + piece[..n]), answers[1..])
  {
    PeekSees(p.ring, 0);
  }

  lemma WriteNothing(chunks: seq<seq<Byte>>)
    ensures RingModel.Write(chunks, []) == chunks
  {
  }

  /** One round of filling. */
  lemma WriteOnce(chunks: seq<seq<Byte>>, val: seq<Byte>, cp: nat)
    requires val != []
    requires var n := |chunks|;
      var space := if n == 0 || |chunks[n - 1]| >= RING_SIZE then RING_SIZE else RING_SIZE - |chunks[n - 1]|;
      cp == if |val| >= space then space else |val|
    ensures var n := |chunks|;
      RingModel.Write(chunks, val) ==
        if n == 0 || |chunks[n - 1]| >= RING_SIZE then RingModel.Write(chunks + [val[..cp]], val[cp..])
        else RingModel.Write(chunks[n - 1 := chunks[n - 1] + val[..cp]], val[cp..])
  {
  }
}
