/** The glyph cache: a hash table and a recency list that must agree. */
module Lru {
  import opened Memory

  datatype Entry<V> = Entry(key: nat, value: V)

  // ---------------------------------------------------------------- recency

  /** The sequence without the first occurrence of `k`. */
  function Remove(s: seq<nat>, k: nat): seq<nat> {
    if s == [] then [] else if s[0] == k then s[1..] else [s[0]] + Remove(s[1..], k)
  }

  /** All keys ever accessed, the most recent first, each once. */
  function Recent(history: seq<nat>): seq<nat> {
    if history == [] then []
    else
      var k := history[|history| - 1];
      [k] + Remove(Recent(history[..|history| - 1]), k)
  }

  function Take(s: seq<nat>, n: nat): seq<nat> {
    if |s| <= n then s else s[..n]
  }

  /** A lookup that fills the cache on a miss, throwing out the key at the end if it is full. */
  function Access(keys: seq<nat>, k: nat, max: nat): seq<nat> {
    if k in keys then [k] + Remove(keys, k)
    else [k] + (if |keys| >= max && keys != [] then keys[..|keys| - 1] else keys)
  }

  function Replay(history: seq<nat>, max: nat): seq<nat> {
    if history == [] then []
    else Access(Replay(history[..|history| - 1], max), history[|history| - 1], max)
  }

  ghost predicate Unique(s: seq<nat>) {
    forall i, j :: 0 <= i < j < |s| ==> s[i] != s[j]
  }

  lemma {:induction false} RemoveAt(s: seq<nat>, k: nat, i: nat)
    requires i < |s| && s[i] == k && k !in s[..i]
    ensures Remove(s, k) == s[..i] + s[i + 1..]
  {
    if i > 0 {
      assert s[0] in s[..i];
      assert s[1..][..i - 1] == s[..i][1..];
      RemoveAt(s[1..], k, i - 1);
      assert s[..i] == [s[0]] + s[1..][..i - 1];
    }
  }

  lemma {:induction false} RemoveNothing(s: seq<nat>, k: nat)
    requires k !in s
    ensures Remove(s, k) == s
  {
    if s != [] {
      RemoveNothing(s[1..], k);
    }
  }

  lemma {:induction false} FirstIndex(s: seq<nat>, k: nat) returns (i: nat)
    requires k in s
    ensures i < |s| && s[i] == k && k !in s[..i]
  {
    if s[0] == k { return 0; }
    i := FirstIndex(s[1..], k);
    i := i + 1;
    assert s[..i] == [s[0]] + s[1..][..i - 1];
  }

  lemma RemoveKeepsUnique(s: seq<nat>, k: nat)
    requires Unique(s)
    ensures Unique([k] + Remove(s, k)) && forall x :: x in Remove(s, k) <==> x in s && x != k
  {
    if k in s {
      var i := FirstIndex(s, k);
      RemoveAt(s, k, i);
      hide Remove;
      CutIsUnique(s, i);
    } else {
      RemoveNothing(s, k);
      hide Remove;
    }
  }

  lemma CutIsUnique(s: seq<nat>, i: nat)
    requires Unique(s) && i < |s|
    ensures var r := s[..i] + s[i + 1..]; Unique([s[i]] + r) && forall x :: x in r <==> x in s && x != s[i]
  {
    var r := s[..i] + s[i + 1..];
    forall x ensures x in r <==> x in s && x != s[i] {
      if x in r { var j :| 0 <= j < |r| && r[j] == x; assert x == s[if j < i then j else j + 1]; }
      if x in s && x != s[i] { var j :| 0 <= j < |s| && s[j] == x; assert x == r[if j < i then j else j - 1]; }
    }
  }

  lemma {:induction false} RecentIsUnique(h: seq<nat>)
    ensures Unique(Recent(h)) && forall x :: x in Recent(h) <==> x in h
  {
    if h != [] {
      var n := |h| - 1;
      RecentIsUnique(h[..n]);
      RemoveKeepsUnique(Recent(h[..n]), h[n]);
      assert h == h[..n] + [h[n]];
    }
  }

  lemma InTake(r: seq<nat>, i: nat, max: nat)
    requires Unique(r) && i < |r|
    ensures r[i] in Take(r, max) <==> i < max
  {
    var t := Take(r, max);
    if i < max { assert t[i] == r[i]; }
  }

  /** One access commutes with cutting the list of recent keys off. */
  lemma AccessTakes(r: seq<nat>, k: nat, max: nat)
    requires Unique(r) && max > 0
    ensures Access(Take(r, max), k, max) == Take([k] + Remove(r, k), max)
  {
    hide Unique, Remove;
    var t := Take(r, max);
    if k in r {
      var i := FirstIndex(r, k);
      RemoveAt(r, k, i);
      InTake(r, i, max);
      if i < |t| {
        assert t[i] == k && t[..i] == r[..i];
        RemoveAt(t, k, i);
        assert [k] + (t[..i] + t[i + 1..]) == Take([k] + (r[..i] + r[i + 1..]), max);
      } else {
        var m := [k] + (r[..i] + r[i + 1..]);
        assert |t| == max <= i && t == r[..max];
        assert m[..max] == [k] + r[..max - 1] && t[..|t| - 1] == r[..max - 1];
        assert max < |m|;
      }
    } else {
      RemoveNothing(r, k);
    }
  }

  /** The cache holds exactly the `max` most recently accessed distinct keys, in order of recency. */
  lemma {:induction false} CacheIsRecent(h: seq<nat>, max: nat)
    requires max > 0
    ensures Replay(h, max) == Take(Recent(h), max)
  {
    if h != [] {
      CacheIsRecent(h[..|h| - 1], max);
      RecentIsUnique(h[..|h| - 1]);
      AccessTakes(Recent(h[..|h| - 1]), h[|h| - 1], max);
    }
  }

  ghost function Keys(s: seq<nat>): set<nat> {
    set x | x in s
  }

  /** Moving `x` to the front puts it ahead of every other key. */
  lemma MoveAhead(r: seq<nat>, x: nat, j: nat) returns (i: nat)
    requires Unique(r) && j < |r| && r[j] != x
    ensures var m := [x] + Remove(r, x);
      i < |m| && m[i] == r[j] && Keys(m[..i]) == Keys(r[..j]) + {x}
  {
    hide Unique, Remove;
    if x in r {
      var m := FirstIndex(r, x);
      RemoveAt(r, x, m);
      var s := [x] + (r[..m] + r[m + 1..]);
      if m < j {
        i := j;
        assert s[..i] == [x] + (r[..m] + r[m + 1..j]);
        assert r[..j] == r[..m] + [x] + r[m + 1..j];
      } else {
        i := j + 1;
        assert s[..i] == [x] + r[..j];
      }
    } else {
      RemoveNothing(r, x);
      i := j + 1;
      assert ([x] + r)[..i] == [x] + r[..j];
    }
  }

  /** The keys ahead of `k` are those accessed since the last access to `k`. */
  lemma {:induction false} RankCountsOthers(h: seq<nat>, p: nat) returns (i: nat)
    requires p < |h| && h[p] !in h[p + 1..]
    ensures i < |Recent(h)| && Recent(h)[i] == h[p] && Keys(Recent(h)[..i]) == Keys(h[p + 1..])
    ensures i == |Keys(h[p + 1..])|
  {
    var n := |h| - 1;
    RecentIsUnique(h);
    if p == n {
      i := 0;
    } else {
      var g, x := h[..n], h[n];
      assert h[p + 1..] == g[p + 1..] + [x];
      var j := RankCountsOthers(g, p);
      RecentIsUnique(g);
      i := MoveAhead(Recent(g), x, j);
    }
    CountUnique(Recent(h)[..i]);
  }

  lemma {:induction false} CountUnique(s: seq<nat>)
    requires Unique(s)
    ensures |Keys(s)| == |s|
  {
    if s != [] {
      CountUnique(s[1..]);
      assert Keys(s) == Keys(s[1..]) + {s[0]};
      assert s[0] !in Keys(s[1..]);
    }
  }

  /** A key is a hit if and only if fewer than `max` other keys were accessed since its last access. */
  lemma HitIff(h: seq<nat>, p: nat, max: nat)
    requires max > 0 && p < |h| && h[p] !in h[p + 1..]
    ensures h[p] in Replay(h, max) <==> |Keys(h[p + 1..])| < max
  {
    CacheIsRecent(h, max);
    RecentIsUnique(h);
    var i := RankCountsOthers(h, p);
    InTake(Recent(h), i, max);
  }

  // ---------------------------------------------------------------- the cache

  function KeysOf<V>(list: seq<Entry<V>>): (r: seq<nat>)
    ensures |r| == |list|
  {
    seq(|list|, i requires 0 <= i < |list| => list[i].key)
  }

  function Unlink<V>(list: seq<Entry<V>>, i: nat): seq<Entry<V>>
    requires i < |list|
  {
    list[..i] + list[i + 1..]
  }

  lemma UnlinkRemoves<V>(list: seq<Entry<V>>, i: nat)
    requires i < |list| && Unique(KeysOf(list))
    ensures KeysOf(Unlink(list, i)) == Remove(KeysOf(list), list[i].key)
    ensures forall e :: e in Unlink(list, i) <==> e in list && e.key != list[i].key
  {
    var ks := KeysOf(list);
    assert ks[i] !in ks[..i];
    RemoveAt(ks, list[i].key, i);
    assert KeysOf(Unlink(list, i)) == ks[..i] + ks[i + 1..];
    forall e ensures e in Unlink(list, i) <==> e in list && e.key != list[i].key {
      if e in list && e.key != list[i].key {
        var j :| 0 <= j < |list| && list[j] == e;
        assert Unlink(list, i)[if j < i then j else j - 1] == e;
      }
      if e in Unlink(list, i) {
        var j :| 0 <= j < |Unlink(list, i)| && Unlink(list, i)[j] == e;
        var m := if j < i then j else j + 1;
        assert list[m] == e && ks[m] != ks[i];
      }
    }
  }

  function ChainOf<V>(tbl: map<nat, seq<Entry<V>>>, b: nat): seq<Entry<V>> {
    if b in tbl then tbl[b] else []
  }

  /** The table holds the entries of the list, each once and where its key belongs. */
  ghost predicate Indexes<V>(tbl: map<nat, seq<Entry<V>>>, bucket: nat -> nat, list: seq<Entry<V>>) {
    && (forall e :: e in list ==> e in ChainOf(tbl, bucket(e.key)))
    && (forall b, e :: b in tbl && e in tbl[b] ==> e in list && bucket(e.key) == b)
    && (forall b :: b in tbl ==> Unique(KeysOf(tbl[b])))
  }

  /** Taking the last entry out of its chain makes the table one of the remaining entries. */
  lemma IndexWithoutLast<V>(tbl: map<nat, seq<Entry<V>>>, bucket: nat -> nat, list: seq<Entry<V>>,
      i: nat)
    requires list != [] && Unique(KeysOf(list)) && Indexes(tbl, bucket, list)
    requires var last := list[|list| - 1]; var chain := ChainOf(tbl, bucket(last.key)); i < |chain| && chain[i] == last
    ensures var init, b := list[..|list| - 1], bucket(list[|list| - 1].key);
      Unique(KeysOf(init)) && Indexes(tbl[b := Unlink(ChainOf(tbl, b), i)], bucket, init)
  {
    hide Unique, KeysOf;
    var init, last := list[..|list| - 1], list[|list| - 1];
    var chain := ChainOf(tbl, bucket(last.key));
    UnlinkRemoves(chain, i);
    RemoveKeepsUnique(KeysOf(chain), last.key);
    TailIsUnique(last.key, Remove(KeysOf(chain), last.key));
    LastKeyLeaves(list);
    assert list == init + [last];
    forall e | e in init ensures e.key != last.key { KeyOfMember(init, e); }
    var r := tbl[bucket(last.key) := Unlink(chain, i)];
    hide Remove, Unlink;
    forall b, e | b in r && e in r[b] ensures e in init && bucket(e.key) == b {
      assert e in tbl[b] && e != last;
    }
    forall e | e in init ensures e in ChainOf(r, bucket(e.key)) {
      assert e in list;
    }
  }

  class Cache<V(==)> {
    const maxSize: nat
    const bucket: nat -> nat           // where the table keeps a key; keys may collide
    var size: nat
    var tbl: map<nat, seq<Entry<V>>>
    var list: seq<Entry<V>>            // the most recently used entry first

    /** The entries that the table goes through when it looks for `key`. */
    function Chain(key: nat): seq<Entry<V>>
      reads this
    {
      ChainOf(tbl, bucket(key))
    }

    /** The table and the list hold the same entries, and no two entries have the same key. */
    ghost predicate Valid()
      reads this
    {
      && maxSize > 0 && size == |list| <= maxSize
      && Unique(KeysOf(list))
      && Indexes(tbl, bucket, list)
    }

    constructor (max: nat, bucket: nat -> nat)
      requires max > 0
      ensures Valid() && maxSize == max && list == []
    {
      maxSize, size, tbl, list := max, 0, map[], [];
      this.bucket := bucket;
    }

    method Position(e: Entry<V>) returns (i: nat)
      requires e in list
      ensures i < |list| && list[i] == e
    {
      i := 0;
      while list[i] != e
        invariant i < |list| && e !in list[..i]
        decreases |list| - i
      {
        i := i + 1;
      }
    }

    /** A hit moves the entry to the front. */
    method Get(key: nat) returns (r: Option<V>)
      requires Valid()
      modifies this`list
      ensures Valid() && forall e :: e in list <==> e in old(list)
      ensures if key in KeysOf(old(list)) then
                r.Some? && Entry(key, r.value) in list && KeysOf(list) == [key] + Remove(KeysOf(old(list)), key)
              else r.None? && list == old(list)
    {
      hide Remove;
      var chain := Chain(key);
      var i := 0;
      while i < |chain|
        invariant i <= |chain| && list == old(list) && forall j :: 0 <= j < i ==> chain[j].key != key
      {
        if chain[i].key == key {
          assert chain[i] in tbl[bucket(key)];
          MoveToFront(chain[i]);
          return Some(chain[i].value);
        }
        i := i + 1;
      }
      r := None;
    }

    method MoveToFront(e: Entry<V>)
      requires Valid() && e in list
      modifies this`list
      ensures Valid() && (forall d :: d in list <==> d in old(list))
      ensures e.key in KeysOf(old(list)) && KeysOf(list) == [e.key] + Remove(KeysOf(old(list)), e.key)
    {
      hide Remove, Unique;
      var at := Position(e);
      assert KeysOf(list)[at] == e.key;
      UnlinkRemoves(list, at);
      RemoveKeepsUnique(KeysOf(list), e.key);
      FrontKeys(e, Unlink(list, at));
      SameKeySameEntry(list, at);
      list := [e] + Unlink(list, at);
    }

    /** Throws out the least recently used entry; it is always found in the table. */
    method Evict() returns (ok: bool)
      requires Valid() && list != []
      modifies this`list, this`tbl, this`size
      ensures ok && Valid() && list == old(list)[..|old(list)| - 1]
    {
      var last := list[|list| - 1];
      var chain := Chain(last.key);
      assert last in list && last in chain;
      hide Unique, KeysOf, Indexes;
      var i := 0;
      while i < |chain|
        invariant i <= |chain| && list == old(list) && tbl == old(tbl) && size == old(size)
        invariant last !in chain[..i]
      {
        if chain[i] == last {
          DropLast(i);
          return true;
        }
        i := i + 1;
      }
      assert false;
      ok := false;
    }

    method DropLast(i: nat)
      requires Valid() && list != [] && i < |Chain(list[|list| - 1].key)|
      requires Chain(list[|list| - 1].key)[i] == list[|list| - 1]
      modifies this`list, this`tbl, this`size
      ensures Valid() && list == old(list)[..|old(list)| - 1]
    {
      hide Unique, KeysOf, Indexes;
      IndexWithoutLast(tbl, bucket, list, i);
      var last := list[|list| - 1];
      tbl := tbl[bucket(last.key) := Unlink(Chain(last.key), i)];
      list := list[..|list| - 1];
      size := size - 1;
    }

    /** Fills the cache after a miss. */
    method Insert(key: nat, value: V) returns (ok: bool)
      requires Valid() && key !in KeysOf(list)
      modifies this`list, this`tbl, this`size
      ensures ok && Valid() && KeysOf(list) == Access(KeysOf(old(list)), key, maxSize)
      ensures forall e :: e in list ==> e in old(list) || e == Entry(key, value)
    {
      ghost var ks := KeysOf(list);
      if size >= maxSize {
        ok := Evict();
        if !ok { return; }
        assert KeysOf(list) == ks[..|ks| - 1];
      }
      AddEntry(Entry(key, value));
      ok := true;
    }

    method AddEntry(entry: Entry<V>)
      requires Valid() && entry.key !in KeysOf(list) && size < maxSize
      modifies this`list, this`tbl, this`size
      ensures Valid() && list == [entry] + old(list) && KeysOf(list) == [entry.key] + KeysOf(old(list))
    {
      hide Unique;
      var chain := Chain(entry.key);
      forall j | 0 <= j < |chain| ensures chain[j].key != entry.key {
        assert chain[j] in list;
        KeyOfMember(list, chain[j]);
      }
      EndIsUnique(chain, entry);
      FrontKeys(entry, list);
      FrontIsUnique(KeysOf(list), entry.key);
      tbl := tbl[bucket(entry.key) := chain + [entry]];
      list := [entry] + list;
      size := size + 1;
    }
  }

  lemma KeyOfMember<V>(list: seq<Entry<V>>, e: Entry<V>)
    requires e in list
    ensures e.key in KeysOf(list)
  {
    var i :| 0 <= i < |list| && list[i] == e;
    assert KeysOf(list)[i] == e.key;
  }

  lemma SameKeySameEntry<V>(list: seq<Entry<V>>, i: nat)
    requires i < |list| && Unique(KeysOf(list))
    ensures forall e :: e in list && e.key == list[i].key ==> e == list[i]
  {
    forall e | e in list && e.key == list[i].key ensures e == list[i] {
      var j :| 0 <= j < |list| && list[j] == e;
      assert KeysOf(list)[j] == KeysOf(list)[i];
    }
  }

  lemma EndIsUnique<V>(chain: seq<Entry<V>>, e: Entry<V>)
    requires Unique(KeysOf(chain)) && forall j :: 0 <= j < |chain| ==> chain[j].key != e.key
    ensures Unique(KeysOf(chain + [e]))
  {
    var ks := KeysOf(chain + [e]);
    assert forall j :: 0 <= j < |chain| ==> ks[j] == KeysOf(chain)[j];
  }

  lemma TailIsUnique(k: nat, s: seq<nat>)
    requires Unique([k] + s)
    ensures Unique(s)
  {
    assert forall i :: 0 <= i < |s| ==> s[i] == ([k] + s)[i + 1];
  }

  lemma FrontKeys<V>(e: Entry<V>, list: seq<Entry<V>>)
    ensures KeysOf([e] + list) == [e.key] + KeysOf(list)
  {
  }

  lemma FrontIsUnique(ks: seq<nat>, k: nat)
    requires Unique(ks) && k !in ks
    ensures Unique([k] + ks)
  {
  }

  lemma LastKeyLeaves<V>(list: seq<Entry<V>>)
    requires list != [] && Unique(KeysOf(list))
    ensures var n := |list| - 1;
      && Unique(KeysOf(list[..n])) && list[n].key !in KeysOf(list[..n])
      && forall k :: k in KeysOf(list) ==> k == list[n].key || k in KeysOf(list[..n])
  {
    var n := |list| - 1;
    var ks, init := KeysOf(list), KeysOf(list[..n]);
    assert forall i :: 0 <= i < n ==> init[i] == ks[i];
    assert ks[n] == list[n].key;
  }

  // ---------------------------------------------------------------- glyphs

  const REPLACEMENT: nat := 0x25a1
  const CHARS: nat := 0x1_0000_0000

  /** A font, as the glyph cache uses it. */
  datatype Font<!V> = Font(hasGlyph: (nat, nat) -> bool, render: (nat, nat) -> Option<V>, rotate: V -> V)

  /** The cache key: the character in the low 32 bits, the attributes above. */
  function GlyphId(ch: nat, attr: nat): nat {
    ch + attr * CHARS
  }

  lemma GlyphIdIsInjective(ch: nat, attr: nat, ch': nat, attr': nat)
    requires ch < CHARS && ch' < CHARS && GlyphId(ch, attr) == GlyphId(ch', attr')
    ensures ch == ch' && attr == attr'
  {
  }

  /** What rendering without a cache gives. */
  function RenderAfresh<V>(font: Font<V>, upright: bool, ch: nat, attr: nat): Option<V> {
    var c := if ch != 0 then ch else 32;
    match font.render(if font.hasGlyph(c, attr) then c else REPLACEMENT, attr)
    case None => None
    case Some(g) => Some(if upright then g else font.rotate(g))
  }

  class GlyphCache<V(==)> {
    const font: Font<V>
    const upright: bool
    const glyphs: Cache<V>
    ghost var history: seq<nat>

    ghost predicate Right(e: Entry<V>) {
      exists ch: nat, attr: nat :: ch < CHARS && e.key == GlyphId(ch, attr) &&
        RenderAfresh(font, upright, ch, attr) == Some(e.value)
    }

    /** The cache holds right glyphs, those accessed most recently. */
    ghost predicate Valid()
      reads this, glyphs
    {
      && glyphs.Valid() && (forall e :: e in glyphs.list ==> Right(e))
      && KeysOf(glyphs.list) == Replay(history, glyphs.maxSize)
    }

    constructor (font: Font<V>, upright: bool, max: nat, bucket: nat -> nat)
      requires max > 0
      ensures Valid() && history == [] && fresh(glyphs)
    {
      this.font, this.upright, history := font, upright, [];
      var g := new Cache<V>(max, bucket);
      glyphs := g;
    }

    /** Whatever was cached, evicted or never seen, the glyph is the one rendering afresh gives. */
    method FindGlyph(ch: nat, attr: nat) returns (r: Option<V>)
      requires Valid() && ch < CHARS
      modifies this, glyphs
      ensures Valid() && r == RenderAfresh(font, upright, ch, attr)
      ensures history == if r.Some? then old(history) + [GlyphId(ch, attr)] else old(history)
    {
      hide Replay, Access, Remove, RenderAfresh;
      var id := GlyphId(ch, attr);
      NextReplay(history, id, glyphs.maxSize);
      ghost var ks := KeysOf(glyphs.list);
      var hit := glyphs.Get(id);
      if hit.Some? {
        history := history + [id];
        assert Access(ks, id, glyphs.maxSize) == [id] + Remove(ks, id) by { AccessHit(ks, id, glyphs.maxSize); }
        HitIsRight(Entry(id, hit.value), ch, attr);
        return hit;
      }
      r := RenderHere(ch, attr);
      if r.None? { return; }
      var ok := glyphs.Insert(id, r.value);
      history := history + [id];
      assert Right(Entry(id, r.value));
    }

    method RenderHere(ch: nat, attr: nat) returns (r: Option<V>)
      ensures r == RenderAfresh(font, upright, ch, attr)
    {
      var c := if ch != 0 then ch else 32;
      if !font.hasGlyph(c, attr) { c := REPLACEMENT; }
      r := font.render(c, attr);
      if r.Some? && !upright { r := Some(font.rotate(r.value)); }
    }

    lemma HitIsRight(e: Entry<V>, ch: nat, attr: nat)
      requires Right(e) && ch < CHARS && e.key == GlyphId(ch, attr)
      ensures RenderAfresh(font, upright, ch, attr) == Some(e.value)
    {
      var ch': nat, attr': nat :| ch' < CHARS && e.key == GlyphId(ch', attr') &&
        RenderAfresh(font, upright, ch', attr') == Some(e.value);
      GlyphIdIsInjective(ch, attr, ch', attr');
    }
  }

  lemma AccessHit(ks: seq<nat>, k: nat, max: nat)
    requires k in ks
    ensures Access(ks, k, max) == [k] + Remove(ks, k)
  {
  }

  lemma NextReplay(h: seq<nat>, k: nat, max: nat)
    ensures Replay(h + [k], max) == Access(Replay(h, max), k, max)
  {
    assert (h + [k])[..|h|] == h;
  }
}
