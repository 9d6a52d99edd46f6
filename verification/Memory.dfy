/** Bytes in memory: what the C library does with them, and little-endian words. */
module Memory {
  type Byte = b: nat | b < 256

  datatype Option<T> = None | Some(value: T)

  const UINT16: nat := 0x1_0000
  const UINT32: nat := 0x1_0000_0000

  function Le2(v: nat): (s: seq<Byte>)
    requires v < UINT16
    ensures |s| == 2
  {
    var lo: nat, hi: nat := v % 256, v / 256;
    [lo, hi]
  }

  function Le4(v: nat): (s: seq<Byte>)
    requires v < UINT32
    ensures |s| == 4
  {
    Le2(v % UINT16) + Le2(v / UINT16)
  }

  function Read2(b: seq<Byte>, i: nat): nat
    requires i + 2 <= |b|
  {
    (b[i] as nat) + 256 * (b[i + 1] as nat)
  }

  function Read4(b: seq<Byte>, i: nat): nat
    requires i + 4 <= |b|
  {
    Read2(b, i) + UINT16 * Read2(b, i + 2)
  }

  lemma ReadBack2(b: seq<Byte>, i: nat, v: nat)
    requires i + 2 <= |b| && v < UINT16 && b[i..i + 2] == Le2(v)
    ensures Read2(b, i) == v
  {
    var s := b[i..i + 2];
    assert s[0] == b[i] && s[1] == b[i + 1];
  }

  lemma ReadBack4(b: seq<Byte>, i: nat, v: nat)
    requires i + 4 <= |b| && v < UINT32 && b[i..i + 4] == Le4(v)
    ensures Read4(b, i) == v
  {
    var s := b[i..i + 4];
    assert s[0] == b[i] && s[1] == b[i + 1] && s[2] == b[i + 2] && s[3] == b[i + 3];
  }

  lemma WriteBack4(b: seq<Byte>, i: nat)
    requires i + 4 <= |b|
    ensures Read4(b, i) < UINT32 && Le4(Read4(b, i)) == b[i..i + 4]
  {
    var lo, hi := Read2(b, i), Read2(b, i + 2);
    assert lo < UINT16 && hi < UINT16;
    assert Le2(lo) == [b[i], b[i + 1]] && Le2(hi) == [b[i + 2], b[i + 3]];
    assert Read4(b, i) % UINT16 == lo && Read4(b, i) / UINT16 == hi;
  }

  lemma SliceOfSlice(s: seq<Byte>, i: nat, n: nat, a: nat, b: nat)
    requires i + n <= |s| && a <= b <= n
    ensures s[i..i + n][a..b] == s[i + a..i + b]
  {
    var whole, part := s[i..i + n], s[i + a..i + b];
    forall k | 0 <= k < b - a ensures whole[a..b][k] == part[k] {
      assert whole[a + k] == s[i + (a + k)];
    }
  }

  method MemCopy(buf: array<Byte>, at: nat, val: seq<Byte>)
    requires at + |val| <= buf.Length
    modifies buf
    ensures buf[..at + |val|] == old(buf[..at]) + val
    ensures forall k :: at + |val| <= k < buf.Length ==> buf[k] == old(buf[k])
  {
    var i := 0;
    while i < |val|
      invariant i <= |val| && buf[..at + i] == old(buf[..at]) + val[..i]
      invariant forall k :: at + i <= k < buf.Length ==> buf[k] == old(buf[k])
    {
      buf[at + i] := val[i];
      i := i + 1;
    }
  }

  /** Moves bytes `from..to` to `at`, which may overlap them on either side. */
  method MemMove(buf: array<Byte>, at: nat, from: nat, to: nat)
    requires from <= to && to <= buf.Length && at + (to - from) <= buf.Length
    modifies buf
    ensures buf[at..at + (to - from)] == old(buf[from..to])
    ensures forall k :: 0 <= k < buf.Length && !(at <= k < at + (to - from)) ==> buf[k] == old(buf[k])
  {
    ghost var b := buf[..];
    var n: nat := to - from;
    if at <= from { MoveDown(buf, at, from, n); } else { MoveUp(buf, at, from, n); }
    assert forall k :: 0 <= k < n ==> buf[at..at + n][k] == b[from..to][k];
  }

  method MoveDown(buf: array<Byte>, at: nat, from: nat, n: nat)
    requires at <= from && from + n <= buf.Length
    modifies buf
    ensures forall k :: 0 <= k < buf.Length ==> buf[k] == old(buf[if at <= k < at + n then k + (from - at) else k])
  {
    var d, i := from - at, at;
    while i < at + n
      invariant at <= i <= at + n
      invariant forall k :: 0 <= k < buf.Length ==> buf[k] == old(buf[if at <= k < i then k + d else k])
    {
      buf[i] := buf[i + d];
      i := i + 1;
    }
  }

  method MoveUp(buf: array<Byte>, at: nat, from: nat, n: nat)
    requires from <= at && at + n <= buf.Length
    modifies buf
    ensures forall k :: 0 <= k < buf.Length ==> buf[k] == old(buf[if at <= k < at + n then k - (at - from) else k])
  {
    var d, i: nat := at - from, at + n;
    while i > at
      invariant at <= i <= at + n
      invariant forall k :: 0 <= k < buf.Length ==> buf[k] == old(buf[if i <= k < at + n then k - d else k])
    {
      i := i - 1;
      buf[i] := buf[i - d];
    }
  }
}
