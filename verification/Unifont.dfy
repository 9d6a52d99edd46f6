/** The built-in bitmap font: `genunifont` packs a list of glyphs into one table, and the font
    backend looks code points up in it.  Compiling and then looking up gives back every glyph. */
module Unifont {
  import opened Memory
  import opened UnifontSource

  /** The largest number of blocks, and the largest code point, that the tables can hold. */
  const MAX_BLOCKS: nat := 0x8000_0000

  /** A run of glyphs of one width with contiguous code points. */
  datatype Block = Block(codepoint: nat, offset: nat, len: nat, cwidth: nat)

  function Width(len: nat): nat {
    if len == 64 then 2 else if len == 32 then 1 else 0
  }

  // ---------------------------------------------------------------- sorted insertion

  predicate Ascending(list: seq<Glyph>) {
    forall i, j :: 0 <= i < j < |list| ==> list[i].codepoint < list[j].codepoint
  }

  predicate Distinct(list: seq<Glyph>) {
    forall i, j :: 0 <= i < j < |list| ==> list[i].codepoint != list[j].codepoint
  }

  /** The list under construction.  `last` is set once the list is not empty, and then stands for
      its tail. */
  class GlyphList {
    var list: seq<Glyph>
    var last: Option<Glyph>

    ghost predicate Valid()
      reads this
    {
      && Ascending(list)
      && last == if list == [] then None else Some(list[|list| - 1])
    }

    constructor ()
      ensures Valid() && list == []
    {
      list, last := [], None;
    }

    /** The place of `g`: at the end without a search if it is the greatest so far. */
    method FindPlace(g: Glyph) returns (iter: nat)
      requires Valid()
      ensures iter <= |list|
      ensures forall i :: 0 <= i < iter ==> list[i].codepoint < g.codepoint
      ensures forall i :: iter <= i < |list| ==> list[i].codepoint >= g.codepoint
    {
      if last.Some? && last.value.codepoint < g.codepoint { return |list|; }
      iter := 0;
      while iter < |list| && list[iter].codepoint < g.codepoint
        invariant iter <= |list| && forall i :: 0 <= i < iter ==> list[i].codepoint < g.codepoint
      {
        iter := iter + 1;
      }
    }

    /** Links `g` at its place, or refuses a code point that is there already. */
    method Insert(g: Glyph) returns (ok: bool)
      requires Valid()
      modifies this
      ensures Valid()
      ensures ok <==> forall i :: 0 <= i < |old(list)| ==> old(list)[i].codepoint != g.codepoint
      ensures if ok then multiset(list) == multiset(old(list)) + multiset{g} else list == old(list)
    {
      var iter := FindPlace(g);
      if iter < |list| && list[iter].codepoint == g.codepoint { return false; }
      InsertAt(list, iter, g);
      if iter == |list| { last := Some(g); }
      list := list[..iter] + [g] + list[iter..];
      ok := true;
    }
  }

  lemma InsertAt(list: seq<Glyph>, i: nat, g: Glyph)
    requires i <= |list| && Ascending(list)
    requires forall k :: 0 <= k < i ==> list[k].codepoint < g.codepoint
    requires i < |list| ==> g.codepoint < list[i].codepoint
    ensures Ascending(list[..i] + [g] + list[i..])
    ensures multiset(list[..i] + [g] + list[i..]) == multiset(list) + multiset{g}
  {
    assert list == list[..i] + list[i..];
  }

  /** The glyphs that the text lists, unless it is empty, a line of it is none, or a code point repeats. */
  function Accepted(text: string): Option<seq<Glyph>> {
    match Glyphs(text, 0)
    case Some(input) => if text != "" && Distinct(input) then Some(input) else None
    case None => None
  }

  /** Reads the whole text into one ascending list. */
  method ReadGlyphs(text: string) returns (r: Option<seq<Glyph>>)
    ensures r.Some? <==> Accepted(text).Some?
    ensures r.Some? ==> Ascending(r.value) && multiset(r.value) == multiset(Accepted(text).value)
  {
    if text == "" { return None; }
    hide Glyphs, GlyphOf, LineEnd;
    var l := new GlyphList();
    ghost var input: seq<Glyph> := [];
    var i := 0;
    FollowsNothing(text);
    while i < |text|
      invariant i <= |text| && l.Valid() && fresh(l)
      invariant Distinct(input) && multiset(l.list) == multiset(input)
      invariant Glyphs(text, 0) == Follow(input, Glyphs(text, i))
      decreases |text| - i
    {
      var e := ReadLine(text, i);
      NextLine(text, i, input);
      if text[i] != '#' {
        var g := BuildGlyph(text[i..e]);
        if g.None? { return None; }
        var ok := TryInsert(l, g.value, input);
        if !ok {
          RepeatIsRefused(input, g.value, Glyphs(text, e));
          return None;
        }
        input := input + [g.value];
      }
      i := e;
    }
    NothingLeft(text);
    assert input + [] == input;
    r := Some(l.list);
  }

  /** Inserts `g` unless its code point is in the input so far. */
  method TryInsert(l: GlyphList, g: Glyph, ghost input: seq<Glyph>) returns (ok: bool)
    requires l.Valid() && Distinct(input) && multiset(l.list) == multiset(input)
    modifies l
    ensures l.Valid() && (ok <==> Distinct(input + [g]))
    ensures ok ==> multiset(l.list) == multiset(input + [g])
  {
    ghost var was := l.list;
    SameMembers(was, input);
    ok := l.Insert(g);
    if ok {
      forall j | 0 <= j < |input| ensures input[j].codepoint != g.codepoint { assert input[j] in was; }
    } else {
      ghost var j :| 0 <= j < |was| && was[j].codepoint == g.codepoint;
      assert was[j] in input;
      ghost var k :| 0 <= k < |input| && input[k] == was[j];
      assert (input + [g])[k].codepoint == (input + [g])[|input|].codepoint;
    }
  }

  /** The glyphs of a text whose lines so far gave `input`. */
  ghost function Follow(input: seq<Glyph>, rest: Option<seq<Glyph>>): Option<seq<Glyph>> {
    if rest.Some? then Some(input + rest.value) else None
  }

  lemma FollowsNothing(text: string)
    ensures Glyphs(text, 0) == Follow([], Glyphs(text, 0))
  {
    if Glyphs(text, 0).Some? { assert [] + Glyphs(text, 0).value == Glyphs(text, 0).value; }
  }

  lemma NextLine(text: string, i: nat, input: seq<Glyph>)
    requires i < |text|
    ensures var e := LineEnd(text, i);
      var g := GlyphOf(text[i..e]);
      Follow(input, Glyphs(text, i)) ==
        if text[i] == '#' then Follow(input, Glyphs(text, e))
        else if g.None? then None
        else Follow(input + [g.value], Glyphs(text, e))
  {
    hide GlyphOf, LineEnd;
    var e := LineEnd(text, i);
    var g, rest := GlyphOf(text[i..e]), Glyphs(text, e);
    if text[i] != '#' && g.Some? && rest.Some? {
      assert input + ([g.value] + rest.value) == input + [g.value] + rest.value;
    }
  }

  lemma RepeatIsRefused(input: seq<Glyph>, g: Glyph, rest: Option<seq<Glyph>>)
    requires !Distinct(input + [g])
    ensures var all := Follow(input + [g], rest); all.Some? ==> !Distinct(all.value)
  {
    if rest.Some? {
      var all, part := input + [g] + rest.value, input + [g];
      var i, j :| 0 <= i < j < |part| && part[i].codepoint == part[j].codepoint;
      assert all[i] == part[i] && all[j] == part[j];
    }
  }

  lemma SameMembers(a: seq<Glyph>, b: seq<Glyph>)
    requires multiset(a) == multiset(b)
    ensures forall g :: g in a <==> g in b
  {
    forall g ensures g in a <==> g in b {
      assert g in a <==> g in multiset(a);
      assert g in b <==> g in multiset(b);
    }
  }

  // ---------------------------------------------------------------- building the blocks

  predicate FitsLast(bs: seq<Block>, g: Glyph)
    requires bs != []
  {
    var b := bs[|bs| - 1];
    b.cwidth == Width(|g.data|) && g.codepoint == (b.codepoint + b.len) % UINT32
  }

  /** One glyph added to the table; the counter and the offset have 16 and 32 bits. */
  function AddGlyph(bs: seq<Block>, g: Glyph): (r: seq<Block>)
    ensures r != []
  {
    if bs == [] then [Block(g.codepoint, 0, 1, Width(|g.data|))]
    else
      var b := bs[|bs| - 1];
      if FitsLast(bs, g) then bs[|bs| - 1 := b.(len := (b.len + 1) % UINT16)]
      else bs + [Block(g.codepoint, NextOffset(b), 1, Width(|g.data|))]
  }

  /** Where the data after block `b` starts. */
  function NextOffset(b: Block): nat {
    (b.offset + Bytes(b.len, b.cwidth)) % UINT32
  }

  /** The size of `n` glyphs, `n * 16 * cwidth`. */
  function Bytes(n: nat, cwidth: nat): nat {
    if cwidth == 0 then 0 else if cwidth == 1 then n * 16 else n * 32
  }

  lemma BytesIsProduct(n: nat, cwidth: nat)
    requires cwidth <= 2
    ensures Bytes(n, cwidth) == n * 16 * cwidth == n * cwidth * 16
  {
    if cwidth == 0 {} else if cwidth == 1 {} else {}
  }

  function Blocks(list: seq<Glyph>): (r: seq<Block>)
    ensures |r| <= |list| && (list != [] ==> r != [])
  {
    if list == [] then [] else AddGlyph(Blocks(list[..|list| - 1]), list[|list| - 1])
  }

  lemma BlocksNext(list: seq<Glyph>, k: nat)
    requires k < |list|
    ensures Blocks(list[..k + 1]) == AddGlyph(Blocks(list[..k]), list[k])
  {
    assert list[..k + 1][..k] == list[..k];
  }

  /** The empty first block of `gen_blocks` makes no difference. */
  lemma FirstGlyph(g: Glyph)
    requires g.codepoint < UINT32
    ensures AddGlyph([Block(g.codepoint, 0, 0, Width(|g.data|))], g) == AddGlyph([], g)
  {
  }

  /** Adds a glyph to block `i`, the last one, or starts block `i + 1`, in a table that doubles in
      size whenever it is full. */
  method AddToTable(table: array<Block>, i: nat, offset: nat, g: Glyph)
    returns (blocks: array<Block>, j: nat, next: nat)
    requires i < table.Length && offset == table[i].offset
    modifies table
    ensures (blocks == table || fresh(blocks)) && j < blocks.Length && next == blocks[j].offset
    ensures blocks[..j + 1] == AddGlyph(old(table[..i + 1]), g)
  {
    hide NextOffset, Width;
    blocks, j, next := table, i, offset;
    ghost var was := table[..i + 1];
    var w := Width(|g.data|);
    if table[i].cwidth == w && g.codepoint == (table[i].codepoint + table[i].len) % UINT32 {
      table[i] := table[i].(len := (table[i].len + 1) % UINT16);
      assert table[..i + 1] == was[i := table[i]];
    } else {
      next := NextOffset(table[i]);
      j := i + 1;
      if j >= table.Length { blocks := Grow(table); }
      blocks[j] := Block(g.codepoint, next, 1, w);
      assert blocks[..j + 1] == was + [blocks[j]];
    }
  }

  method GenBlocks(list: seq<Glyph>) returns (blocks: array<Block>, n: nat)
    requires list != [] && forall i :: 0 <= i < |list| ==> list[i].codepoint < UINT32
    ensures n <= blocks.Length && blocks[..n] == Blocks(list)
  {
    hide Width, NextOffset, AddGlyph;
    var i: nat, offset: nat := 0, 0;
    blocks := new Block[256](_ => Block(0, 0, 0, 0));
    blocks[0] := Block(list[0].codepoint, 0, 0, Width(|list[0].data|));
    FirstGlyph(list[0]);
    var g := 0;
    while g < |list|
      invariant g <= |list| && i < blocks.Length && offset == blocks[i].offset && fresh(blocks)
      invariant g == 0 ==> blocks[..i + 1] == [Block(list[0].codepoint, 0, 0, Width(|list[0].data|))]
      invariant g > 0 ==> blocks[..i + 1] == Blocks(list[..g])
    {
      BlocksNext(list, g);
      blocks, i, offset := AddToTable(blocks, i, offset, list[g]);
      g := g + 1;
    }
    assert list[..g] == list;
    n := i + 1;
  }

  method Grow(a: array<Block>) returns (b: array<Block>)
    ensures fresh(b) && b.Length == 2 * a.Length && b[..a.Length] == a[..]
  {
    b := new Block[2 * a.Length](_ => Block(0, 0, 0, 0));
    var i := 0;
    while i < a.Length
      invariant i <= a.Length && b[..i] == a[..i]
    {
      b[i] := a[i];
      i := i + 1;
    }
  }

  // ---------------------------------------------------------------- looking a block up

  predicate InBlock(b: Block, ch: nat) {
    b.codepoint <= ch < (b.codepoint + b.len) % UINT32
  }

  /** Blocks lie apart in ascending order, and no block's end overflows. */
  predicate Ordered(bs: seq<Block>) {
    && (forall i :: 0 <= i < |bs| ==> bs[i].codepoint + bs[i].len < UINT32)
    && (forall i, j :: 0 <= i < j < |bs| ==> bs[i].codepoint + bs[i].len <= bs[j].codepoint)
  }

  /** Division in C: rounded toward zero. */
  function CDiv(a: int, b: int): int
    requires b > 0
  {
    if a >= 0 then a / b else -((-a) / b)
  }

  /** The opportunistic first probe. */
  function FirstProbe(ch: nat, len: nat): (look: nat)
    requires len > 0
    ensures look < len
  {
    var look := 1 + ((ch * len) % UINT32) / 0xffff;
    if look > len - 1 then len - 1 else look
  }

  /** Binary search with an opportunistic first probe.  A wrapped product only makes that probe a
      bad guess.  A block is found exactly if there is one. */
  method LookupBlock(bs: seq<Block>, ch: nat) returns (r: int)
    requires 0 < |bs| < MAX_BLOCKS && ch < UINT32 && Ordered(bs)
    ensures -1 <= r < |bs|
    ensures r >= 0 ==> InBlock(bs[r], ch)
    ensures r == -1 ==> forall i :: 0 <= i < |bs| ==> !InBlock(bs[i], ch)
  {
    hide FirstProbe;
    var look: int := FirstProbe(ch, |bs|);
    var min, max := 0, |bs| - 1;
    while min < max
      invariant 0 <= min <= max + 1 <= |bs| && 0 <= look < |bs|
      invariant min <= max ==> min <= look <= max
      invariant min >= max ==> look == max || look == min
      invariant forall i :: 0 <= i < min ==> !InBlock(bs[i], ch)
      invariant forall i :: max < i < |bs| ==> !InBlock(bs[i], ch)
      decreases max - min
    {
      if InBlock(bs[look], ch) { return look; }
      if ch < bs[look].codepoint {
        max := look - 1;
        look := min + CDiv(max - min, 2);
      } else {
        min := look + 1;
        look := max - CDiv(max - min, 2);
      }
    }
    if InBlock(bs[look], ch) { return look; }
    r := -1;
  }

  // ---------------------------------------------------------------- what the table means

  predicate ValidGlyph(g: Glyph) {
    (|g.data| == 32 || |g.data| == 64) && g.codepoint + 1 < UINT32
  }

  /** The number of glyphs of one width and contiguous code points that end at glyph `k`. */
  function RunLen(list: seq<Glyph>, k: nat): nat
    requires k < |list|
  {
    if k > 0 && Width(|list[k].data|) == Width(|list[k - 1].data|) && list[k].codepoint == list[k - 1].codepoint + 1
    then RunLen(list, k - 1) + 1 else 1
  }

  /** No run needs more than the 16 bits of a block's counter. */
  ghost predicate NoLongRun(list: seq<Glyph>) {
    forall k :: 0 <= k < |list| ==> RunLen(list, k) < UINT16
  }

  /** How many data bytes lie before glyph `k`. */
  function DataOffset(list: seq<Glyph>, k: nat): nat
    requires k <= |list|
  {
    if k == 0 then 0 else DataOffset(list, k - 1) + |list[k - 1].data| / 2
  }

  ghost predicate Packable(list: seq<Glyph>) {
    && list != [] && |list| < MAX_BLOCKS && Ascending(list) && (forall k :: 0 <= k < |list| ==> ValidGlyph(list[k]))
    && 4 + |Blocks(list)| * BLOCK_SIZE + DataOffset(list, |list|) < UINT32
  }

  const BLOCK_SIZE: nat := 11

  lemma {:induction false} DataOffsetGrows(list: seq<Glyph>, j: nat, k: nat)
    requires j <= k <= |list|
    ensures DataOffset(list, j) <= DataOffset(list, k)
  {
    if j < k { DataOffsetGrows(list, j, k - 1); }
  }

  /** What adding a glyph does to the table as long as no counter overflows. */
  function Extended(bs: seq<Block>, g: Glyph): (r: seq<Block>)
    requires bs != []
  {
    var b := bs[|bs| - 1];
    if b.cwidth == Width(|g.data|) && g.codepoint == b.codepoint + b.len then bs[|bs| - 1 := b.(len := b.len + 1)]
    else bs + [Block(g.codepoint, b.offset + Bytes(b.len, b.cwidth), 1, Width(|g.data|))]
  }

  lemma AddGlyphExtends(bs: seq<Block>, g: Glyph)
    requires bs != []
    requires var b := bs[|bs| - 1];
      b.codepoint + b.len < UINT32 && b.offset + Bytes(b.len, b.cwidth) < UINT32
    requires var b := bs[|bs| - 1];
      b.cwidth == Width(|g.data|) && g.codepoint == b.codepoint + b.len ==> b.len + 1 < UINT16
    ensures AddGlyph(bs, g) == Extended(bs, g)
  {
    hide Width, Bytes;
  }

  /** The last block of a prefix of the list describes the run that ends the prefix. */
  lemma {:induction false} LastBlock(list: seq<Glyph>, k: nat)
    requires Packable(list) && 0 < k <= |list| && forall i :: 0 <= i < k ==> RunLen(list, i) < UINT16
    ensures Describes(list, k, Blocks(list[..k]))
    ensures k > 1 ==> Describes(list, k - 1, Blocks(list[..k - 1]))
    ensures k > 1 ==> Blocks(list[..k]) == Extended(Blocks(list[..k - 1]), list[k - 1])
  {
    hide AddGlyph, Extended, Describes, Bytes, Width, RunLen;
    BlocksNext(list, k - 1);
    DataOffsetGrows(list, k - 1, |list|);
    AllValid(list, k - 1);
    if k > 1 {
      LastBlock(list, k - 1);
      ExtendedDescribes(list, k, Blocks(list[..k - 1]));
    } else {
      assert list[..0] == [];
      FirstDescribes(list);
    }
  }

  ghost predicate Describes(list: seq<Glyph>, k: nat, bs: seq<Block>)
    requires 0 < k <= |list|
  {
    && bs != []
    && var b := bs[|bs| - 1];
      && b.len == RunLen(list, k - 1) && b.codepoint + b.len == list[k - 1].codepoint + 1
      && b.cwidth == Width(|list[k - 1].data|) && b.offset + Bytes(b.len, b.cwidth) == DataOffset(list, k)
  }

  lemma FirstDescribes(list: seq<Glyph>)
    requires list != [] && ValidGlyph(list[0])
    ensures Describes(list, 1, AddGlyph([], list[0]))
  {
    assert DataOffset(list, 1) == DataOffset(list, 0) + |list[0].data| / 2;
  }

  lemma ExtendedDescribes(list: seq<Glyph>, k: nat, bs: seq<Block>)
    requires 1 < k <= |list| && Ascending(list) && ValidGlyph(list[k - 1]) && Describes(list, k - 1, bs)
    requires RunLen(list, k - 1) < UINT16 && DataOffset(list, k - 1) < UINT32
    ensures AddGlyph(bs, list[k - 1]) == Extended(bs, list[k - 1])
    ensures Describes(list, k, Extended(bs, list[k - 1]))
  {
    hide AddGlyph, Width;
    var b := bs[|bs| - 1];
    assert Bytes(b.len + 1, b.cwidth) == Bytes(b.len, b.cwidth) + Bytes(1, b.cwidth);
    assert RunLen(list, k - 1)
        == if b.cwidth == Width(|list[k - 1].data|) && list[k - 1].codepoint == b.codepoint + b.len
           then RunLen(list, k - 2) + 1 else 1;
    assert list[k - 2].codepoint < list[k - 1].codepoint;
    OneGlyph(list[k - 1]);
    AddGlyphExtends(bs, list[k - 1]);
  }

  lemma OneGlyph(g: Glyph)
    requires ValidGlyph(g)
    ensures Bytes(1, Width(|g.data|)) == |g.data| / 2
  {
  }

  /** Later glyphs only ever lengthen a block. */
  lemma {:induction false} BlockStays(list: seq<Glyph>, j: nat, k: nat, i: nat)
    requires Packable(list) && 0 < j <= k <= |list| && i < |Blocks(list[..j])|
    requires forall m :: 0 <= m < k ==> RunLen(list, m) < UINT16
    ensures i < |Blocks(list[..k])|
    ensures var b, c := Blocks(list[..j])[i], Blocks(list[..k])[i];
      c.codepoint == b.codepoint && c.offset == b.offset && c.cwidth == b.cwidth && c.len >= b.len
  {
    hide Blocks, AddGlyph, DataOffset, Width, Bytes;
    if j < k {
      BlockStays(list, j, k - 1, i);
      LastBlock(list, k);
    }
  }

  ghost predicate LocatedAt(list: seq<Glyph>, j: nat, b: Block)
    requires j < |list|
  {
    && b.codepoint <= list[j].codepoint < b.codepoint + b.len && b.cwidth == Width(|list[j].data|)
    && b.offset + Bytes(list[j].codepoint - b.codepoint, b.cwidth) == DataOffset(list, j)
  }

  /** Every glyph is in the table, at the place of its data. */
  lemma GlyphIsLocated(list: seq<Glyph>, j: nat) returns (i: nat)
    requires Packable(list) && NoLongRun(list) && j < |list|
    ensures i < |Blocks(list)| && LocatedAt(list, j, Blocks(list)[i])
  {
    hide Blocks, AddGlyph, Packable;
    LastBlock(list, j + 1);
    i := |Blocks(list[..j + 1])| - 1;
    BlockStays(list, j + 1, |list|, i);
    assert list[..|list|] == list;
    var b := Blocks(list[..j + 1])[i];
    assert ValidGlyph(list[j]) by { AllValid(list, j); }
    assert Bytes(b.len, b.cwidth) == Bytes(b.len - 1, b.cwidth) + Bytes(1, b.cwidth);
  }

  lemma AllValid(list: seq<Glyph>, j: nat)
    requires Packable(list) && j < |list|
    ensures ValidGlyph(list[j])
  {
  }

  /** In order, and none reaches past the code point `top`. */
  ghost predicate OrderedUpTo(bs: seq<Block>, top: nat) {
    Ordered(bs) && forall i :: 0 <= i < |bs| ==> bs[i].codepoint + bs[i].len <= top + 1
  }

  lemma ExtendedIsOrdered(bs: seq<Block>, g: Glyph, top: nat)
    requires bs != [] && OrderedUpTo(bs, top) && top < g.codepoint && g.codepoint + 1 < UINT32
    ensures OrderedUpTo(Extended(bs, g), g.codepoint)
  {
    hide Width, Bytes;
  }

  /** The blocks lie in order, and none reaches past the last code point. */
  lemma {:induction false} BlocksAreOrdered(list: seq<Glyph>, k: nat)
    requires Packable(list) && 0 < k <= |list| && forall i :: 0 <= i < k ==> RunLen(list, i) < UINT16
    ensures Ordered(Blocks(list[..k]))
    ensures forall i :: 0 <= i < |Blocks(list[..k])| ==>
      Blocks(list[..k])[i].codepoint + Blocks(list[..k])[i].len <= list[k - 1].codepoint + 1
  {
    LastBlock(list, k);
    AllValid(list, k - 1);
    hide AddGlyph, DataOffset, Width, Bytes, RunLen, Extended;
    if k > 1 {
      hide Blocks, Describes;
      BlocksAreOrdered(list, k - 1);
      assert list[k - 2].codepoint < list[k - 1].codepoint;
      ExtendedIsOrdered(Blocks(list[..k - 1]), list[k - 1], list[k - 2].codepoint);
    } else {
      assert list[..1] == [list[0]];
      assert |Blocks(list[..1])| <= 1;
    }
  }

  /** Only listed code points are in the table. */
  lemma {:induction false} OnlyListed(list: seq<Glyph>, k: nat, i: nat, ch: nat) returns (j: nat)
    requires Packable(list) && 0 < k <= |list| && forall m :: 0 <= m < k ==> RunLen(list, m) < UINT16
    requires i < |Blocks(list[..k])|
    requires var b := Blocks(list[..k])[i]; b.codepoint <= ch < b.codepoint + b.len
    ensures j < k && list[j].codepoint == ch
  {
    hide AddGlyph, DataOffset, Width, Bytes;
    LastBlock(list, k);
    assert k == 1 ==> |Blocks(list[..k])| <= 1;
    if ch == list[k - 1].codepoint { return k - 1; }
    if k == 1 { assert false; }
    hide Blocks;
    j := OnlyListed(list, k - 1, i, ch);
  }

  // ---------------------------------------------------------------- the packed file

  predicate Storable(b: Block) {
    b.codepoint < UINT32 && b.offset < UINT32 && b.len < UINT16 && b.cwidth < 256
  }

  function EncodeBlock(b: Block): (s: seq<Byte>)
    requires Storable(b)
    ensures |s| == BLOCK_SIZE
  {
    Le4(b.codepoint) + Le4(b.offset) + Le2(b.len) + [b.cwidth]
  }

  function ReadBlock(buf: seq<Byte>, at: nat): Block
    requires at + BLOCK_SIZE <= |buf|
  {
    Block(Read4(buf, at), Read4(buf, at + 4), Read2(buf, at + 8), buf[at + 10])
  }

  lemma ReadBackBlock(buf: seq<Byte>, at: nat, b: Block)
    requires at + BLOCK_SIZE <= |buf| && Storable(b) && buf[at..at + BLOCK_SIZE] == EncodeBlock(b)
    ensures ReadBlock(buf, at) == b
  {
    hide Le4, Le2, Read4;
    SliceOfSlice(buf, at, BLOCK_SIZE, 0, 4);
    SliceOfSlice(buf, at, BLOCK_SIZE, 4, 8);
    SliceOfSlice(buf, at, BLOCK_SIZE, 8, 10);
    assert buf[at + 10] == buf[at..at + BLOCK_SIZE][10] == b.cwidth;
    ReadBack4(buf, at, b.codepoint);
    ReadBack4(buf, at + 4, b.offset);
    ReadBack2(buf, at + 8, b.len);
  }

  ghost predicate AllStorable(bs: seq<Block>) {
    forall i :: 0 <= i < |bs| ==> Storable(bs[i])
  }

  ghost function EncodeBlocks(bs: seq<Block>): (s: seq<Byte>)
    requires AllStorable(bs)
    ensures |s| == BLOCK_SIZE * |bs|
  {
    if bs == [] then [] else EncodeBlocks(bs[..|bs| - 1]) + EncodeBlock(bs[|bs| - 1])
  }

  lemma {:induction false} EncodedAt(bs: seq<Block>, i: nat)
    requires AllStorable(bs) && i < |bs|
    ensures EncodeBlocks(bs)[BLOCK_SIZE * i..BLOCK_SIZE * i + BLOCK_SIZE] == EncodeBlock(bs[i])
  {
    var n, at := |bs| - 1, BLOCK_SIZE * i;
    var init, last := EncodeBlocks(bs[..n]), EncodeBlock(bs[n]);
    assert EncodeBlocks(bs) == init + last;
    hide EncodeBlock, EncodeBlocks;
    if i < n {
      EncodedAt(bs[..n], i);
      SliceOfFirst(init, last, at, at + BLOCK_SIZE);
    } else {
      assert (init + last)[at..at + BLOCK_SIZE] == last;
    }
  }

  lemma SliceOfFirst(a: seq<Byte>, b: seq<Byte>, i: nat, j: nat)
    requires i <= j <= |a|
    ensures (a + b)[i..j] == a[i..j]
  {
  }

  /** The bitmap that pairs of hexadecimal digits stand for. */
  function Bitmap(data: string): (s: seq<Byte>)
    requires |data| % 2 == 0
    ensures |s| == |data| / 2
  {
    if data == "" then [] else Bitmap(data[..|data| - 2]) + [HexByte(data[|data| - 2], data[|data| - 1])]
  }

  function HexByte(hi: char, lo: char): Byte {
    HexVal(hi) * 16 + HexVal(lo)
  }

  /** The bytes are those that the digits spell, in either case. */
  lemma {:induction false} BitmapIsSpelt(data: string, bs: seq<Byte>)
    requires SpellsBytes(data, bs)
    ensures Bitmap(data) == bs
  {
    var n := |bs| - 1;
    if n >= 0 {
      DigitIsRead(data[2 * n], bs[n] / 16);
      DigitIsRead(data[2 * n + 1], bs[n] % 16);
      BitmapIsSpelt(data[..2 * n], bs[..n]);
    }
  }

  ghost predicate EvenData(list: seq<Glyph>) {
    forall k :: 0 <= k < |list| ==> |list[k].data| % 2 == 0
  }

  ghost function Data(list: seq<Glyph>, k: nat): (s: seq<Byte>)
    requires k <= |list| && EvenData(list)
    ensures |s| == DataOffset(list, k)
  {
    if k == 0 then [] else Data(list, k - 1) + Bitmap(list[k - 1].data)
  }

  lemma {:induction false} DataAt(list: seq<Glyph>, j: nat, k: nat)
    requires j < k <= |list| && EvenData(list)
    ensures DataOffset(list, j) + |list[j].data| / 2 <= DataOffset(list, k)
    ensures Data(list, k)[DataOffset(list, j)..DataOffset(list, j) + |list[j].data| / 2] == Bitmap(list[j].data)
  {
    hide Bitmap;
    var at, n, init := DataOffset(list, j), |list[j].data| / 2, Data(list, k - 1);
    if j < k - 1 {
      DataAt(list, j, k - 1);
      assert (init + Bitmap(list[k - 1].data))[at..at + n] == init[at..at + n];
    } else {
      assert (init + Bitmap(list[j].data))[at..at + n] == Bitmap(list[j].data);
    }
  }

  /** The contents of the file: the number of blocks, the blocks, the bitmaps. */
  ghost function Packed(list: seq<Glyph>): (s: seq<Byte>)
    requires |Blocks(list)| < UINT32 && AllStorable(Blocks(list)) && EvenData(list)
  {
    Le4(|Blocks(list)|) + EncodeBlocks(Blocks(list)) + Data(list, |list|)
  }

  lemma {:induction false} BlocksAreStorable(list: seq<Glyph>, k: nat)
    requires k <= |list| && forall i :: 0 <= i < |list| ==> list[i].codepoint < UINT32
    ensures AllStorable(Blocks(list[..k]))
  {
    if k > 0 {
      BlocksNext(list, k - 1);
      BlocksAreStorable(list, k - 1);
    }
  }

  /** How many bytes the digits of the first `k` glyphs are written to: a last digit without a partner takes one,
      too. */
  function Written(list: seq<Glyph>, k: nat): nat
    requires k <= |list|
  {
    if k == 0 then 0 else Written(list, k - 1) + (|list[k - 1].data| + 1) / 2
  }

  /** The size that is computed is enough if and only if no glyph has an odd number of digits. */
  lemma {:induction false} SizeIsEnoughIff(list: seq<Glyph>, k: nat)
    requires k <= |list|
    ensures Written(list, k) >= DataOffset(list, k)
    ensures Written(list, k) == DataOffset(list, k) <==> forall j :: 0 <= j < k ==> |list[j].data| % 2 == 0
  {
    if k > 0 { SizeIsEnoughIff(list, k - 1); }
  }

  lemma {:induction false} WrittenGrows(list: seq<Glyph>, j: nat, k: nat)
    requires j <= k <= |list|
    ensures Written(list, j) <= Written(list, k)
  {
    if j < k { WrittenGrows(list, j, k - 1); }
  }

  /** Writes the digits in pairs, until the buffer ends. */
  method PutBitmap(buf: array<Byte>, offset: nat, data: string) returns (ok: bool, next: nat)
    requires offset <= buf.Length
    modifies buf
    ensures next <= buf.Length && (ok <==> offset + (|data| + 1) / 2 <= buf.Length)
    ensures ok ==> next == offset + (|data| + 1) / 2
    ensures ok && |data| % 2 == 0 ==> buf[..next] == old(buf[..offset]) + Bitmap(data)
  {
    next, ok := offset, true;
    var i := 0;
    while i < |data|
      invariant i <= |data| + 1 && (i <= |data| ==> i % 2 == 0) && (i > |data| ==> |data| % 2 == 1)
      invariant next == offset + (i + 1) / 2 <= buf.Length
      invariant |data| % 2 == 0 ==> i <= |data| && i % 2 == 0 && buf[..next] == old(buf[..offset]) + Bitmap(data[..i])
    {
      if next == buf.Length { return false, next; }
      var val := HexVal(data[i]) * 16;
      val := val + HexVal(if i + 1 < |data| then data[i + 1] else '\0');
      if |data| % 2 == 0 { assert data[..i + 2][..i] == data[..i]; }
      buf[next] := val;
      next := next + 1;
      i := i + 2;
    }
    if |data| % 2 == 0 { assert data[..i] == data; }
  }

  /** The size of the file. */
  method PackedSize(list: seq<Glyph>, n: nat) returns (size: nat)
    ensures size == 4 + n * BLOCK_SIZE + DataOffset(list, |list|)
  {
    size := 4 + n * BLOCK_SIZE;
    var g := 0;
    while g < |list|
      invariant g <= |list| && size == 4 + n * BLOCK_SIZE + DataOffset(list, g)
    {
      size := size + |list[g].data| / 2;
      g := g + 1;
    }
  }

  /** All bitmaps, one after the other, until the buffer ends. */
  method PutData(buf: array<Byte>, start: nat, list: seq<Glyph>) returns (ok: bool, offset: nat)
    requires start <= buf.Length
    modifies buf
    ensures offset <= buf.Length && (ok <==> start + Written(list, |list|) <= buf.Length)
    ensures ok && EvenData(list) ==>
      offset == start + DataOffset(list, |list|) && buf[..offset] == old(buf[..start]) + Data(list, |list|)
  {
    hide Bitmap, Data, DataOffset, EvenData, Written;
    if EvenData(list) { DataStarts(list); }
    NothingWritten(list);
    offset := start;
    var g := 0;
    while g < |list|
      invariant g <= |list| && offset == start + Written(list, g) <= buf.Length
      invariant EvenData(list) ==>
        offset == start + DataOffset(list, g) && buf[..offset] == old(buf[..start]) + Data(list, g)
    {
      if EvenData(list) { DataGrows(list, g); }
      WrittenNext(list, g);
      ok, offset := PutBitmap(buf, offset, list[g].data);
      if !ok { return; }
      g := g + 1;
    }
    ok := true;
  }

  lemma NothingWritten(list: seq<Glyph>)
    ensures Written(list, 0) == 0
  {
  }

  lemma WrittenNext(list: seq<Glyph>, g: nat)
    requires g < |list|
    ensures Written(list, g) + (|list[g].data| + 1) / 2 == Written(list, g + 1) <= Written(list, |list|)
  {
    WrittenGrows(list, g + 1, |list|);
  }

  /** What becomes of the list: nothing without glyphs, whose first one the code reads nevertheless; a write past the
      end of the buffer; or the file. */
  datatype Packing = NoGlyphs | Overruns | File(buf: array<Byte>)

  /** The counters of the file format can hold these glyphs. */
  ghost predicate Countable(list: seq<Glyph>) {
    && |list| < MAX_BLOCKS && (forall k :: 0 <= k < |list| ==> list[k].codepoint < UINT32)
    && 4 + |Blocks(list)| * BLOCK_SIZE + DataOffset(list, |list|) < UINT32
  }

  /** Writes the file into a buffer of the size computed first. */
  method PackGlyphs(list: seq<Glyph>) returns (r: Packing)
    requires Countable(list)
    ensures r.NoGlyphs? <==> list == []
    ensures r.Overruns? <==> list != [] && !EvenData(list)
    ensures r.File? ==> |Blocks(list)| < UINT32 && AllStorable(Blocks(list)) && r.buf[..] == Packed(list)
  {
    if list == [] { return NoGlyphs; }
    hide Blocks, Data, Countable, AllStorable, EvenData, EncodeBlocks, DataOffset, Le4, Packed, Written;
    CountableFacts(list);
    var blocks, n := GenBlocks(list);
    var size := PackedSize(list, n);
    var buf := new Byte[size](_ => 0);
    var ok := FillFile(buf, list, blocks, n);
    r := if ok then File(buf) else Overruns;
  }

  method FillFile(buf: array<Byte>, list: seq<Glyph>, blocks: array<Block>, n: nat) returns (ok: bool)
    requires n <= blocks.Length && blocks[..n] == Blocks(list) && n < UINT32 && AllStorable(Blocks(list))
    requires buf.Length == 4 + n * BLOCK_SIZE + DataOffset(list, |list|)
    requires Written(list, |list|) <= DataOffset(list, |list|) <==> EvenData(list)
    modifies buf
    ensures ok <==> EvenData(list)
    ensures ok ==> buf[..] == Packed(list)
  {
    hide Blocks, Data, AllStorable, EvenData, EncodeBlocks, DataOffset, Le4, Packed, Written;
    MemCopy(buf, 0, Le4(n));
    var offset := PutBlocks(buf, blocks, n);
    ghost var head := buf[..offset];
    ok, offset := PutData(buf, offset, list);
    if ok {
      PackedIs(list);
      assert buf[..] == buf[..offset] == head + Data(list, |list|);
    }
  }

  lemma CountableFacts(list: seq<Glyph>)
    requires Countable(list)
    ensures |Blocks(list)| < UINT32 && AllStorable(Blocks(list))
    ensures forall i :: 0 <= i < |list| ==> list[i].codepoint < UINT32
    ensures Written(list, |list|) <= DataOffset(list, |list|) <==> EvenData(list)
  {
    assert list[..|list|] == list;
    SizeIsEnoughIff(list, |list|);
    hide Blocks, Written, DataOffset;
    BlocksAreStorable(list, |list|);
  }

  lemma PackedIs(list: seq<Glyph>)
    requires |Blocks(list)| < UINT32 && AllStorable(Blocks(list)) && EvenData(list)
    ensures Packed(list) == Le4(|Blocks(list)|) + EncodeBlocks(Blocks(list)) + Data(list, |list|)
  {
    hide Blocks, Le4, EncodeBlocks, Data;
  }

  lemma DataStarts(list: seq<Glyph>)
    requires EvenData(list)
    ensures Data(list, 0) == [] && DataOffset(list, 0) == 0
  {
  }

  lemma DataGrows(list: seq<Glyph>, g: nat)
    requires g < |list| && EvenData(list)
    ensures |list[g].data| % 2 == 0
    ensures Data(list, g + 1) == Data(list, g) + Bitmap(list[g].data)
    ensures DataOffset(list, g) + |list[g].data| / 2 == DataOffset(list, g + 1) <= DataOffset(list, |list|)
  {
    DataOffsetGrows(list, g + 1, |list|);
  }

  method PutBlocks(buf: array<Byte>, blocks: array<Block>, n: nat) returns (offset: nat)
    requires n <= blocks.Length && AllStorable(blocks[..n]) && 4 + n * BLOCK_SIZE <= buf.Length
    modifies buf
    ensures offset == 4 + n * BLOCK_SIZE
    ensures buf[..offset] == old(buf[..4]) + EncodeBlocks(blocks[..n])
  {
    hide EncodeBlock;
    var i := 0;
    offset := 4;
    while i < n
      invariant i <= n && offset == 4 + i * BLOCK_SIZE && AllStorable(blocks[..i])
      invariant buf[..offset] == old(buf[..4]) + EncodeBlocks(blocks[..i])
    {
      assert blocks[..n][i] == blocks[i];
      assert blocks[..i + 1][..i] == blocks[..i];
      MemCopy(buf, offset, EncodeBlock(blocks[i]));
      offset := offset + BLOCK_SIZE;
      i := i + 1;
    }
  }

  // ---------------------------------------------------------------- compile, then look up

  datatype Found = Found(cwidth: nat, bitmap: seq<Byte>)

  ghost predicate Listed(list: seq<Glyph>, ch: nat) {
    exists j :: 0 <= j < |list| && list[j].codepoint == ch
  }

  ghost predicate IsFound(list: seq<Glyph>, ch: nat, r: Found) {
    exists j :: 0 <= j < |list| && list[j].codepoint == ch && |list[j].data| % 2 == 0
      && r == Found(Width(|list[j].data|), Bitmap(list[j].data))
  }

  /** The list holds a glyph of code point `ch` whose digits spell `bs`. */
  ghost predicate ListedAs(list: seq<Glyph>, ch: nat, bs: seq<Byte>) {
    exists j :: 0 <= j < |list| && list[j].codepoint == ch && SpellsBytes(list[j].data, bs)
  }

  /** A glyph is as many cells wide as its bytes make columns of 16 lines, if it is one or two, and of no width if
      not. */
  lemma WidthIsCells(bs: seq<Byte>)
    ensures |bs| == 16 || |bs| == 32 <==> Width(2 * |bs|) > 0
    ensures Width(2 * |bs|) > 0 ==> |bs| == 16 * Width(2 * |bs|)
  {
  }

  /** Then these are the bytes that are found for it. */
  lemma FoundIsSpelt(list: seq<Glyph>, ch: nat, r: Found, bs: seq<Byte>)
    requires Distinct(list) && IsFound(list, ch, r) && ListedAs(list, ch, bs)
    ensures r == Found(Width(2 * |bs|), bs)
  {
    hide Bitmap, Width;
    var j :| 0 <= j < |list| && list[j].codepoint == ch && SpellsBytes(list[j].data, bs);
    BitmapIsSpelt(list[j].data, bs);
  }

  /** The table as the font backend sees it. */
  function Index(buf: seq<Byte>): (bs: seq<Block>)
    requires |buf| >= 4 && 4 + Read4(buf, 0) * BLOCK_SIZE <= |buf|
    ensures |bs| == Read4(buf, 0)
  {
    seq(Read4(buf, 0), i requires 0 <= i < Read4(buf, 0) => ReadBlock(buf, 4 + i * BLOCK_SIZE))
  }

  lemma IndexOfPacked(list: seq<Glyph>)
    requires Packable(list) && AllStorable(Blocks(list)) && EvenData(list)
    ensures var buf := Packed(list);
      && |buf| == 4 + |Blocks(list)| * BLOCK_SIZE + DataOffset(list, |list|)
      && Read4(buf, 0) == |Blocks(list)| && Index(buf) == Blocks(list)
  {
    hide EncodeBlock, EncodeBlocks, Blocks, Data;
    var bs, buf := Blocks(list), Packed(list);
    assert buf[0..4] == Le4(|bs|);
    ReadBack4(buf, 0, |bs|);
    forall i: nat | i < |bs| ensures ReadBlock(buf, 4 + i * BLOCK_SIZE) == bs[i] {
      EncodedAt(bs, i);
      var at := 4 + i * BLOCK_SIZE;
      assert buf[at..at + BLOCK_SIZE] == EncodeBlocks(bs)[BLOCK_SIZE * i..BLOCK_SIZE * i + BLOCK_SIZE];
      ReadBackBlock(buf, at, bs[i]);
    }
  }

  /** Looks a code point up in the packed file. */
  method FindGlyph(buf: seq<Byte>, ch: nat, ghost list: seq<Glyph>) returns (r: Option<Found>)
    requires Packable(list) && NoLongRun(list) && ch < UINT32
    requires AllStorable(Blocks(list)) && EvenData(list) && buf == Packed(list)
    ensures r.Some? <==> Listed(list, ch)
    ensures r.Some? ==> IsFound(list, ch, r.value)
  {
    hide Blocks, EncodeBlocks, Index, Read4, Bitmap, Data, Le4;
    IndexOfPacked(list);
    assert list[..|list|] == list;
    BlocksAreOrdered(list, |list|);
    var blocks := Index(buf);
    var idx := LookupBlock(blocks, ch);
    if idx < 0 {
      if Listed(list, ch) { NotMissed(list, ch, blocks); }
      return None;
    }
    var b := blocks[idx];
    ghost var j := PlaceOf(list, ch, idx);
    BytesIsProduct(ch - b.codepoint, b.cwidth);
    var data := 4 + |blocks| * BLOCK_SIZE + b.offset + (ch - b.codepoint) * b.cwidth * 16;
    BitmapAt(list, j, data);
    if data + 16 * b.cwidth > |buf| { return None; }
    r := Some(Found(b.cwidth, buf[data..data + 16 * b.cwidth]));
  }

  lemma NotMissed(list: seq<Glyph>, ch: nat, bs: seq<Block>)
    requires Packable(list) && NoLongRun(list) && Listed(list, ch) && bs == Blocks(list)
    ensures exists i :: 0 <= i < |bs| && InBlock(bs[i], ch)
  {
    hide Blocks, DataOffset;
    var j :| 0 <= j < |list| && list[j].codepoint == ch;
    var i := GlyphIsLocated(list, j);
    assert list[..|list|] == list;
    BlocksAreOrdered(list, |list|);
    assert InBlock(bs[i], ch);
  }

  /** The glyph behind a block that was found, and where its data lies. */
  lemma PlaceOf(list: seq<Glyph>, ch: nat, idx: nat) returns (j: nat)
    requires Packable(list) && NoLongRun(list) && idx < |Blocks(list)| && InBlock(Blocks(list)[idx], ch)
    ensures j < |list| && list[j].codepoint == ch && LocatedAt(list, j, Blocks(list)[idx])
  {
    hide Blocks, DataOffset;
    assert list[..|list|] == list;
    BlocksAreOrdered(list, |list|);
    j := OnlyListed(list, |list|, idx, ch);
    var i := GlyphIsLocated(list, j);
    assert i == idx;
  }

  lemma {:induction false} BitmapAt(list: seq<Glyph>, j: nat, data: nat)
    requires Packable(list) && AllStorable(Blocks(list)) && EvenData(list) && j < |list|
    requires data == 4 + |Blocks(list)| * BLOCK_SIZE + DataOffset(list, j)
    ensures var n := |list[j].data| / 2;
      && n == 16 * Width(|list[j].data|) && data + n <= |Packed(list)|
      && Packed(list)[data..data + n] == Bitmap(list[j].data)
  {
    AllValid(list, j);
    hide Blocks, EncodeBlocks, Bitmap, Le4, Data, Packable, DataOffset, AllStorable, EvenData;
    DataAt(list, j, |list|);
    PackedParts(list);
    SliceOfTail(Packed(list), 4 + |Blocks(list)| * BLOCK_SIZE, Data(list, |list|), DataOffset(list, j),
      |list[j].data| / 2);
  }

  lemma PackedParts(list: seq<Glyph>)
    requires |Blocks(list)| < UINT32 && AllStorable(Blocks(list)) && EvenData(list)
    ensures var start := 4 + |Blocks(list)| * BLOCK_SIZE;
      |Packed(list)| == start + DataOffset(list, |list|) && Packed(list)[start..] == Data(list, |list|)
  {
    hide Blocks, EncodeBlocks, Data, Le4, AllStorable, EvenData;
  }

  lemma SliceOfTail(s: seq<Byte>, start: nat, tail: seq<Byte>, at: nat, n: nat)
    requires start <= |s| && s[start..] == tail && at + n <= |tail|
    ensures s[start + at..start + at + n] == tail[at..at + n]
  {
    assert s[start..start + |tail|] == tail;
    SliceOfSlice(s, start, |tail|, at, at + n);
    assert start + at + n == start + (at + n);
  }

  /** The format can hold these glyphs once they are in order, and the table is right for them: if all have an even
      number of digits, these are 32 or 64, and no block's counter overflows. */
  ghost predicate Compilable(input: seq<Glyph>) {
    forall list: seq<Glyph> :: Ascending(list) && multiset(list) == multiset(input) ==>
      Countable(list) && (list != [] && EvenData(list) ==> Packable(list) && NoLongRun(list))
  }

  /** What compiling a text and looking a code point up ends with. */
  datatype Compiled = Refused | Crashes | Overrun | LookedUp(found: Option<Found>)

  /** From the text of the source file to a glyph: whatever the order of the lines, a code point is found
      exactly if the text lists it, and with the bitmap it is listed with. */
  method CompileAndLookUp(text: string, ch: nat) returns (c: Compiled)
    requires ch < UINT32
    requires Accepted(text).Some? ==> Compilable(Accepted(text).value)
    ensures c.Refused? <==> Accepted(text).None?
    ensures c.Crashes? <==> Accepted(text) == Some([])
    ensures c.Overrun? <==> Accepted(text).Some? && !EvenData(Accepted(text).value)
    ensures c.LookedUp? ==> (c.found.Some? <==> Listed(Accepted(text).value, ch))
    ensures c.LookedUp? && c.found.Some? ==> IsFound(Accepted(text).value, ch, c.found.value)
    ensures c.LookedUp? ==> forall bs: seq<Byte> ::
      ListedAs(Accepted(text).value, ch, bs) ==> c.found == Some(Found(Width(2 * |bs|), bs))
  {
    hide Packable, NoLongRun, Packed, AllStorable, EvenData, Accepted, Bitmap, Width, Countable, Ascending;
    var list := ReadGlyphs(text);
    if list.None? { return Refused; }
    ghost var input := Accepted(text).value;
    SameMembers(list.value, input);
    EvenAlike(list.value, input);
    NoneIsOdd();
    var packing := PackGlyphs(list.value);
    if packing.NoGlyphs? { return Crashes; }
    if packing.Overruns? { return Overrun; }
    var r := FindGlyph(packing.buf[..], ch, list.value);
    ListedAlike(list.value, input, ch);
    if r.Some? { FoundAlike(list.value, input, ch, r.value); }
    AcceptedIsDistinct(text);
    forall bs: seq<Byte> | ListedAs(input, ch, bs) ensures r == Some(Found(Width(2 * |bs|), bs)) {
      FoundIsSpelt(input, ch, r.value, bs);
    }
    c := LookedUp(r);
  }

  lemma AcceptedIsDistinct(text: string)
    requires Accepted(text).Some?
    ensures Distinct(Accepted(text).value)
  {
  }

  lemma NoneIsOdd()
    ensures EvenData([])
  {
  }

  lemma EvenAlike(a: seq<Glyph>, b: seq<Glyph>)
    requires multiset(a) == multiset(b) && forall g :: g in a <==> g in b
    ensures EvenData(a) <==> EvenData(b)
    ensures a == [] <==> b == []
  {
    if EvenData(a) {
      forall k | 0 <= k < |b| ensures |b[k].data| % 2 == 0 { assert b[k] in a; }
    }
    if EvenData(b) {
      forall k | 0 <= k < |a| ensures |a[k].data| % 2 == 0 { assert a[k] in b; }
    }
    assert |multiset(a)| == |a| && |multiset(b)| == |b|;
  }

  /** A text spelt from distinct glyphs, with comments between them, is accepted as just these glyphs, each listed with
      the bytes that its digits spell. */
  lemma SpeltIsAccepted(es: seq<Entry>)
    requires es != [] && forall e :: e in es ==> Proper(e)
    ensures Accepted(SpeltAll(es)) == if Distinct(Meant(es)) then Some(Meant(es)) else None
    ensures forall e, bs: seq<Byte> :: e in es && e.Line? && SpellsBytes(e.data, bs) ==>
      ListedAs(Meant(es), e.codepoint, bs)
  {
    TextIsRead(es);
    EndsAtNewline(es[0]);
    hide Meant;
    forall e, bs: seq<Byte> | e in es && e.Line? && SpellsBytes(e.data, bs)
      ensures ListedAs(Meant(es), e.codepoint, bs)
    {
      LineIsMeant(es, e);
    }
  }

  lemma {:induction false} LineIsMeant(es: seq<Entry>, e: Entry)
    requires e in es && e.Line?
    ensures Glyph(e.codepoint, e.data) in Meant(es)
  {
    if es[0] != e { LineIsMeant(es[1..], e); }
  }

  lemma ListedAlike(a: seq<Glyph>, b: seq<Glyph>, ch: nat)
    requires forall g :: g in a <==> g in b
    ensures Listed(a, ch) <==> Listed(b, ch)
  {
    if j :| 0 <= j < |a| && a[j].codepoint == ch { assert a[j] in b; }
    if j :| 0 <= j < |b| && b[j].codepoint == ch { assert b[j] in a; }
  }

  lemma FoundAlike(a: seq<Glyph>, b: seq<Glyph>, ch: nat, r: Found)
    requires (forall g :: g in a <==> g in b) && IsFound(a, ch, r)
    ensures IsFound(b, ch, r)
  {
    var j :| 0 <= j < |a| && a[j].codepoint == ch && |a[j].data| % 2 == 0 &&
      r == Found(Width(|a[j].data|), Bitmap(a[j].data));
    assert a[j] in b;
    var i :| 0 <= i < |b| && b[i] == a[j];
  }

  // ---------------------------------------------------------------- when a block's counter overflows

  ghost predicate Known(bs: seq<Block>, ch: nat) {
    exists i :: 0 <= i < |bs| && InBlock(bs[i], ch)
  }

  /** No block has the code point, and no later glyph will bring it back. */
  ghost predicate Lost(bs: seq<Block>, ch: nat) {
    && bs != [] && !Known(bs, ch)
    && var b := bs[|bs| - 1]; b.codepoint > ch || (b.codepoint == ch && b.len == 0)
  }

  /** The glyph that overflows the counter empties the block of the whole run. */
  lemma OverflowLoses(list: seq<Glyph>, k: nat)
    requires Packable(list) && k < |list| && RunLen(list, k) == UINT16
    requires forall i :: 0 <= i < k ==> RunLen(list, i) < UINT16
    ensures k + 1 >= UINT16 && list[k + 1 - UINT16].codepoint + UINT16 - 1 == list[k].codepoint
    ensures Lost(Blocks(list[..k + 1]), list[k + 1 - UINT16].codepoint)
  {
    RunIsContiguous(list, k, UINT16 - 1);
    AllValid(list, k);
    LastBlock(list, k);
    assert RunLen(list, k) == RunLen(list, k - 1) + 1;
    hide Blocks, Packable, RunLen;
    BlocksAreOrdered(list, k);
    BlocksNext(list, k);
    EmptiesLast(Blocks(list[..k]), list[k]);
  }

  lemma EmptiesLast(bs: seq<Block>, g: Glyph)
    requires bs != [] && Ordered(bs) && g.codepoint < UINT32
    requires var b := bs[|bs| - 1];
      b.len == UINT16 - 1 && b.cwidth == Width(|g.data|) && g.codepoint == b.codepoint + b.len
    ensures Lost(AddGlyph(bs, g), bs[|bs| - 1].codepoint)
  {
    hide Width, NextOffset;
    var b, r := bs[|bs| - 1], AddGlyph(bs, g);
    assert r == bs[|bs| - 1 := b.(len := 0)];
    forall i | 0 <= i < |r| ensures !InBlock(r[i], b.codepoint) {
      if i < |bs| - 1 { assert bs[i].codepoint + bs[i].len <= b.codepoint; }
    }
  }

  lemma {:induction false} RunIsContiguous(list: seq<Glyph>, k: nat, n: nat)
    requires k < |list| && n < RunLen(list, k)
    ensures n <= k && list[k - n].codepoint + n == list[k].codepoint
  {
    if n > 0 { RunIsContiguous(list, k - 1, n - 1); }
  }

  lemma {:induction false} StaysLost(list: seq<Glyph>, k: nat, m: nat, ch: nat)
    requires Packable(list) && 0 < k <= m <= |list| && Lost(Blocks(list[..k]), ch)
    requires forall i :: k <= i < |list| ==> list[i].codepoint > ch
    ensures Lost(Blocks(list[..m]), ch)
  {
    hide Blocks, AddGlyph, Lost, Packable;
    if k < m {
      StaysLost(list, k, m - 1, ch);
      BlocksNext(list, m - 1);
      AllValid(list, m - 1);
      LostStep(Blocks(list[..m - 1]), list[m - 1], ch);
    }
  }

  lemma LostStep(bs: seq<Block>, g: Glyph, ch: nat)
    requires Lost(bs, ch) && ch < g.codepoint < UINT32
    ensures Lost(AddGlyph(bs, g), ch)
  {
    hide NextOffset, Width;
    var r := AddGlyph(bs, g);
    forall i | 0 <= i < |r| ensures !InBlock(r[i], ch) {
      if i < |bs| - 1 { assert r[i] == bs[i]; }
    }
  }

  lemma {:induction false} FirstLongRun(list: seq<Glyph>, m: nat) returns (k: nat)
    requires m < |list| && RunLen(list, m) >= UINT16
    ensures k <= m && RunLen(list, k) == UINT16 && forall i :: 0 <= i < k ==> RunLen(list, i) < UINT16
    decreases m
  {
    if i: nat :| i < m && RunLen(list, i) >= UINT16 {
      k := FirstLongRun(list, i);
    } else {
      k := m;
      assert m == 0 || RunLen(list, m - 1) < UINT16;
    }
  }

  /** The exact condition for the table to know every glyph: no run of glyphs of one width with
      contiguous code points is longer than a block's 16-bit counter. */
  lemma {:induction false} TableIsCompleteIff(list: seq<Glyph>)
    requires Packable(list)
    ensures NoLongRun(list) <==>
      forall j :: 0 <= j < |list| ==> Known(Blocks(list), list[j].codepoint)
  {
    assert list[..|list|] == list;
    hide Blocks, Packable, RunLen;
    if NoLongRun(list) {
      forall j | 0 <= j < |list| ensures Known(Blocks(list), list[j].codepoint) {
        NotMissed(list, list[j].codepoint, Blocks(list));
      }
    } else {
      var m: nat :| m < |list| && RunLen(list, m) >= UINT16;
      var k := FirstLongRun(list, m);
      OverflowLoses(list, k);
      var j := k + 1 - UINT16;
      StaysLost(list, k + 1, |list|, list[j].codepoint);
    }
  }
}
