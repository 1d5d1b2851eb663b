/** The other direction of compressed blocks: the bits that a compressor writes for given tokens, and that the block so
    written is read back as these tokens. */
module InflateInverse {
  import opened Bits
  import opened Bytes
  import opened Canonical
  import opened Inflate
  import opened InflateBlock
  import opened Powers
  import opened ZHuffman

  // ---------------------------------------------------------------- symbols

  /** The codeword of symbol `i`, in the order in which its bits are read. */
  function CodeBits(lens: seq<nat>, i: nat): (bits: seq<nat>)
    requires i < |lens|
    ensures |bits| == lens[i]
  {
    LowBits(RevCode(lens, i), lens[i])
  }

  ghost predicate Usable(lens: seq<nat>) {
    SizeList(lens) && Lengths(lens) && Kraft(lens) <= Pow2(W)
  }

  lemma SymbolRead(lens: seq<nat>, buf: seq<Byte>, at: nat, i: nat)
    requires Usable(lens) && i < |lens| && lens[i] > 0 && BitsAt(buf, at, CodeBits(lens, i))
    ensures SymbolAt(lens, Window(buf, at, 16)) == i
  {
    hide LowBits, Window, Pow2, Rev, Kraft, BitsAt, Code, First, Start;
    var l := lens[i];
    CodeFits(lens, i);
    LowBitsAt(buf, at, RevCode(lens, i), l);
    WindowCut(buf, at, 16, l);
    SymbolUnique(lens, Window(buf, at, 16), i);
  }

  // ---------------------------------------------------------------- lengths and distances

  /** The last of the first `z + 1` ranges that starts at `v` or before. */
  function Slot(base: seq<nat>, z: nat, v: nat): (r: nat)
    requires z < |base|
    ensures r <= z
  {
    if z == 0 || base[z] <= v then z else Slot(base, z - 1, v)
  }

  /** Range `k` reaches up to the next one. */
  ghost predicate Adjoin(base: seq<nat>, extra: seq<nat>, k: nat)
    requires k + 1 < |base| && |extra| == |base|
  {
    base[k + 1] == base[k] + Pow2(extra[k])
  }

  lemma {:induction false} SlotFits(base: seq<nat>, extra: seq<nat>, z: nat, v: nat)
    requires z < |base| == |extra|
    requires forall k :: 0 <= k < z ==> base[k + 1] <= base[k] + Pow2(extra[k])
    requires base[0] <= v < base[z] + Pow2(extra[z])
    ensures var r := Slot(base, z, v); base[r] <= v < base[r] + Pow2(extra[r])
  {
    if z > 0 && base[z] > v {
      assert base[z - 1 + 1] <= base[z - 1] + Pow2(extra[z - 1]);
      SlotFits(base, extra, z - 1, v);
    }
  }

  /** The table of section 3.2.5 of RFC 1951 in closed form: from the fifth symbol on, four symbols share each number of
      extra bits; the ranges adjoin; and the last symbol, for 258 alone, repeats the end of the range before it. */
  lemma LengthTable(z: nat)
    requires z < 28
    ensures LENGTH_EXTRA[z] == (if z < 4 then 0 else (z - 4) / 4) && LENGTH_BASE[0] == 3
    ensures z < 27 ==> Adjoin(LENGTH_BASE, LENGTH_EXTRA, z)
    ensures LENGTH_BASE[28] == 258 == LENGTH_BASE[27] + Pow2(LENGTH_EXTRA[27]) - 1 && LENGTH_EXTRA[28] == 0
  {
    hide Adjoin;
    LengthExtras(z);
    if z < 27 {
      LengthsAdjoin(z);
    }
    hide Pow2;
    ShortPowers();
  }

  lemma LengthExtras(z: nat)
    requires z < 28
    ensures LENGTH_EXTRA[z] == if z < 4 then 0 else (z - 4) / 4
  {
  }

  lemma LengthsAdjoin(k: nat)
    requires k < 27
    ensures Adjoin(LENGTH_BASE, LENGTH_EXTRA, k)
  {
    hide Pow2;
    ShortPowers();
  }

  /** The distances likewise: two symbols share each number of extra bits. */
  lemma DistTable(y: nat)
    requires y < 30
    ensures DIST_EXTRA[y] == (if y < 2 then 0 else y / 2 - 1) && DIST_BASE[0] == 1
    ensures y < 29 ==> Adjoin(DIST_BASE, DIST_EXTRA, y)
    ensures DIST_BASE[29] + Pow2(DIST_EXTRA[29]) == 32769
  {
    hide Pow2;
    LongPowers();
    if y < 14 {
      ShortDistancesAdjoin(y);
    } else if y < 29 {
      LongDistancesAdjoin(y);
    }
  }

  /** Later ranges begin behind earlier ones. */
  lemma {:induction false} LaterIsBehind(base: seq<nat>, extra: seq<nat>, k: nat, n: nat)
    requires k < n < |base| == |extra| && forall i :: k <= i < n ==> Adjoin(base, extra, i)
    ensures base[n] >= base[k] + Pow2(extra[k])
    decreases n
  {
    assert Adjoin(base, extra, n - 1);
    if k < n - 1 {
      LaterIsBehind(base, extra, k, n - 1);
    }
  }

  /** A length can be expressed in one way only, but for 258, which both of the last two symbols express. */
  lemma OneSlotPerLength(len: nat, z: nat, z': nat)
    requires z < z' < 29 && LengthBase(z) <= len < LengthBase(z) + Pow2(LengthExtra(z))
    requires LengthBase(z') <= len < LengthBase(z') + Pow2(LengthExtra(z'))
    ensures len == 258 && z == 27 && z' == 28
  {
    hide Adjoin, Pow2;
    forall i | z <= i < 27
      ensures Adjoin(LENGTH_BASE, LENGTH_EXTRA, i)
    {
      LengthTable(i);
    }
    LengthTable(0);
    Pow2Step(0);
    if z' < 28 {
      LaterIsBehind(LENGTH_BASE, LENGTH_EXTRA, z, z');
    } else if z < 27 {
      LaterIsBehind(LENGTH_BASE, LENGTH_EXTRA, z, 27);
    }
  }

  /** A distance can be expressed in one way only. */
  lemma OneSlotPerDistance(dist: nat, y: nat, y': nat)
    requires y < 30 && y' < 30 && DistBase(y) <= dist < DistBase(y) + Pow2(DistExtra(y))
    requires DistBase(y') <= dist < DistBase(y') + Pow2(DistExtra(y'))
    ensures y == y'
  {
    hide Adjoin, Pow2;
    forall i | 0 <= i < 29
      ensures Adjoin(DIST_BASE, DIST_EXTRA, i)
    {
      DistTable(i);
    }
    if y < y' {
      LaterIsBehind(DIST_BASE, DIST_EXTRA, y, y');
    } else if y' < y {
      LaterIsBehind(DIST_BASE, DIST_EXTRA, y', y);
    }
  }

  lemma ShortPowers()
    ensures Pow2(0) == 1 && Pow2(1) == 2 && Pow2(2) == 4 && Pow2(3) == 8 && Pow2(4) == 16 && Pow2(5) == 32
    ensures Pow2(6) == 64
  {
  }

  lemma LengthSlot(len: nat)
    requires 3 <= len <= 258
    ensures var z := Slot(LENGTH_BASE, 28, len);
            LengthBase(z) <= len < LengthBase(z) + Pow2(LengthExtra(z))
  {
    hide Slot;
    forall k | 0 <= k < 28
      ensures LENGTH_BASE[k + 1] <= LENGTH_BASE[k] + Pow2(LENGTH_EXTRA[k])
    {
      LengthTable(k);
    }
    SlotFits(LENGTH_BASE, LENGTH_EXTRA, 28, len);
  }

  lemma ShortDistancesAdjoin(k: nat)
    requires k < 14
    ensures Adjoin(DIST_BASE, DIST_EXTRA, k)
  {
    hide Pow2;
    ShortPowers();
  }

  lemma LongDistancesAdjoin(k: nat)
    requires 14 <= k < 29
    ensures Adjoin(DIST_BASE, DIST_EXTRA, k)
  {
    hide Pow2;
    LongPowers();
  }

  lemma LongPowers()
    ensures Pow2(6) == 64 && Pow2(7) == 128 && Pow2(8) == 256 && Pow2(9) == 512 && Pow2(10) == 1024 && Pow2(11) == 2048
    ensures Pow2(12) == 4096 && Pow2(13) == 8192
  {
  }

  lemma DistSlot(dist: nat)
    requires 1 <= dist <= 32768
    ensures var y := Slot(DIST_BASE, 29, dist);
            DistBase(y) <= dist < DistBase(y) + Pow2(DistExtra(y))
  {
    hide Slot, Pow2;
    DistTable(29);
    forall k | 0 <= k < 29
      ensures DIST_BASE[k + 1] <= DIST_BASE[k] + Pow2(DIST_EXTRA[k])
    {
      DistTable(k);
    }
    SlotFits(DIST_BASE, DIST_EXTRA, 29, dist);
  }

  // ---------------------------------------------------------------- tokens and blocks

  /** The codes have words for the token. */
  predicate Codable(lit: seq<nat>, dist: seq<nat>, t: Token) {
    match t
    case Literal(b) => b < |lit| && lit[b] > 0
    case Match(len, d) =>
      && 3 <= len <= 258 && 1 <= d <= 32768
      && 257 + Slot(LENGTH_BASE, 28, len) < |lit| && lit[257 + Slot(LENGTH_BASE, 28, len)] > 0
      && Slot(DIST_BASE, 29, d) < |dist| && dist[Slot(DIST_BASE, 29, d)] > 0
  }

  function TokenBits(lit: seq<nat>, dist: seq<nat>, t: Token): (bits: seq<nat>)
    requires Codable(lit, dist, t)
  {
    match t
    case Literal(b) => CodeBits(lit, b)
    case Match(len, d) =>
      LengthSlot(len);
      DistSlot(d);
      LengthBits(lit, Slot(LENGTH_BASE, 28, len), len) + DistBits(dist, Slot(DIST_BASE, 29, d), d)
  }

  function LengthBits(lit: seq<nat>, z: nat, len: nat): (bits: seq<nat>)
    requires z < 29 && 257 + z < |lit| && len >= LengthBase(z)
    ensures |bits| == lit[257 + z] + LengthExtra(z)
  {
    CodeBits(lit, 257 + z) + LowBits(len - LengthBase(z), LengthExtra(z))
  }

  function DistBits(dist: seq<nat>, y: nat, d: nat): (bits: seq<nat>)
    requires y < 30 && y < |dist| && d >= DistBase(y)
    ensures |bits| == dist[y] + DistExtra(y)
  {
    CodeBits(dist, y) + LowBits(d - DistBase(y), DistExtra(y))
  }

  /** The token can be copied behind `size` bytes of output. */
  predicate Reaches(t: Token, size: nat) {
    t.Match? ==> t.dist <= size
  }

  lemma LengthRead(s: Stream, at: nat, z: nat, len: nat)
    requires Usable(s.lit) && z < 29 && 257 + z < |s.lit| && s.lit[257 + z] > 0
    requires LengthBase(z) <= len < LengthBase(z) + Pow2(LengthExtra(z))
    requires BitsAt(s.buf, at, LengthBits(s.lit, z, len))
    ensures SymbolAt(s.lit, Window(s.buf, at, 16)) == 257 + z
    ensures LengthBase(z) + Window(s.buf, at + s.lit[257 + z], LengthExtra(z)) == len
  {
    hide LowBits, Window, Pow2, Kraft, BitsAt, LengthBase, LengthExtra;
    var l := s.lit[257 + z];
    BitsAtConcat(s.buf, at, CodeBits(s.lit, 257 + z), LowBits(len - LengthBase(z), LengthExtra(z)));
    SymbolRead(s.lit, s.buf, at, 257 + z);
    LowBitsAt(s.buf, at + l, len - LengthBase(z), LengthExtra(z));
  }

  lemma DistRead(s: Stream, at: nat, y: nat, d: nat)
    requires Usable(s.dist) && y < 30 && y < |s.dist| && s.dist[y] > 0
    requires DistBase(y) <= d < DistBase(y) + Pow2(DistExtra(y))
    requires BitsAt(s.buf, at, DistBits(s.dist, y, d))
    ensures SymbolAt(s.dist, Window(s.buf, at, 16)) == y
    ensures DistBase(y) + Window(s.buf, at + s.dist[y], DistExtra(y)) == d
  {
    hide LowBits, Window, Pow2, Kraft, BitsAt, DistBase, DistExtra;
    BitsAtConcat(s.buf, at, CodeBits(s.dist, y), LowBits(d - DistBase(y), DistExtra(y)));
    SymbolRead(s.dist, s.buf, at, y);
    LowBitsAt(s.buf, at + s.dist[y], d - DistBase(y), DistExtra(y));
  }

  /** The bits of a token are read as this token. */
  lemma TokenRead(s: Stream, at: nat, size: nat, t: Token)
    requires Usable(s.lit) && Usable(s.dist) && Codable(s.lit, s.dist, t) && Reaches(t, size)
    requires BitsAt(s.buf, at, TokenBits(s.lit, s.dist, t))
    ensures ReadStep(s, at, size) == Next(t, at + |TokenBits(s.lit, s.dist, t)|)
  {
    hide LowBits, Window, Pow2, Kraft, BitsAt, SymbolAt, ReadStep, Slot, LengthBase, LengthExtra, DistBase, DistExtra,
      LengthBits, DistBits, CodeBits;
    StepIs(s, at, size);
    match t
    case Literal(b) => SymbolRead(s.lit, s.buf, at, b);
    case Match(len, d) =>
      var z, y := Slot(LENGTH_BASE, 28, len), Slot(DIST_BASE, 29, d);
      LengthSlot(len);
      DistSlot(d);
      BitsAtConcat(s.buf, at, LengthBits(s.lit, z, len), DistBits(s.dist, y, d));
      LengthRead(s, at, z, len);
      DistRead(s, at + s.lit[257 + z] + LengthExtra(z), y, d);
  }

  /** Every token has a codeword, and no match reaches back beyond the beginning. */
  ghost predicate AllCodable(s: Stream, ts: seq<Token>, size: nat) {
    ts != [] ==> Codable(s.lit, s.dist, ts[0]) && Reaches(ts[0], size) && AllCodable(s, ts[1..], size + Growth(ts[0]))
  }

  /** The tokens, one after another, and the end-of-block symbol. */
  ghost function BlockBits(s: Stream, ts: seq<Token>, size: nat): (bits: seq<nat>)
    requires AllCodable(s, ts, size) && 256 < |s.lit|
  {
    if ts == [] then CodeBits(s.lit, 256)
    else TokenBits(s.lit, s.dist, ts[0]) + BlockBits(s, ts[1..], size + Growth(ts[0]))
  }

  /** A block written for any tokens is read back as exactly these tokens. */
  lemma {:induction false} BlockRead(s: Stream, at: nat, size: nat, ts: seq<Token>)
    requires Usable(s.lit) && Usable(s.dist) && 256 < |s.lit| && s.lit[256] > 0 && AllCodable(s, ts, size)
    requires BitsAt(s.buf, at, BlockBits(s, ts, size))
    ensures Spells(s, at, size, ts, at + |BlockBits(s, ts, size)|)
    decreases |ts|
  {
    hide LowBits, Window, Pow2, Kraft, BitsAt, SymbolAt, ReadStep, CodeBits, TokenBits, Codable;
    if ts == [] {
      SymbolRead(s.lit, s.buf, at, 256);
      StepIs(s, at, size);
    } else {
      var t, size' := ts[0], size + Growth(ts[0]);
      BitsAtConcat(s.buf, at, TokenBits(s.lit, s.dist, t), BlockBits(s, ts[1..], size'));
      TokenRead(s, at, size, t);
      BlockRead(s, at + |TokenBits(s.lit, s.dist, t)|, size', ts[1..]);
    }
  }

  /** No two token sequences can be written as the same block. */
  lemma BlocksDiffer(s: Stream, at: nat, size: nat, ts: seq<Token>, us: seq<Token>)
    requires Usable(s.lit) && Usable(s.dist) && 256 < |s.lit| && s.lit[256] > 0
    requires AllCodable(s, ts, size) && AllCodable(s, us, size)
    requires BitsAt(s.buf, at, BlockBits(s, ts, size)) && BitsAt(s.buf, at, BlockBits(s, us, size))
    ensures ts == us
  {
    hide Usable, AllCodable, BlockBits, BitsAt, Spells, ReadStep;
    BlockRead(s, at, size, ts);
    BlockRead(s, at, size, us);
    SpellsOne(s, at, size, ts, at + |BlockBits(s, ts, size)|, us, at + |BlockBits(s, us, size)|);
  }

  lemma {:induction false} SpellsOne(s: Stream, at: nat, size: nat, ts: seq<Token>, e: nat, us: seq<Token>, f: nat)
    requires Spells(s, at, size, ts, e) && Spells(s, at, size, us, f)
    ensures ts == us && e == f
    decreases |ts|
  {
    hide ReadStep;
    if ts != [] {
      var step := ReadStep(s, at, size);
      SpellsOne(s, step.at, size + Growth(step.t), ts[1..], e, us[1..], f);
      assert ts == [ts[0]] + ts[1..] && us == [us[0]] + us[1..];
    }
  }

  /** The decoder expands every written block that lies inside the input and for whose expansion there is room. */
  method ExpandWritten(z: ZBuf, length: ZHuffman, distance: ZHuffman, ghost s: Stream, ghost ts: seq<Token>)
    requires z.Valid() && length.TablesFor(s.lit) && distance.TablesFor(s.dist) && s.buf == z.reader.zbuffer
    requires 256 < |s.lit| && s.lit[256] > 0 && AllCodable(s, ts, z.size)
    requires BitsAt(s.buf, z.reader.at, BlockBits(s, ts, z.size))
    requires z.reader.at + |BlockBits(s, ts, z.size)| <= 8 * |s.buf| && z.RoomFor(z.size + Total(ts))
    modifies z, z.out, z.reader
    ensures z.Valid() && z.Output() == Expand(old(z.Output()), ts)
    ensures z.reader.at == old(z.reader.at + |BlockBits(s, ts, z.size)|)
  {
    hide Kraft, Pow2, Window, BitsAt, BlockBits, AllCodable, Spells, BlockFetch, Expand, Total;
    ghost var at, size, f := z.reader.at, z.size, z.reader.Fetched();
    BlockRead(s, at, size, ts);
    z.ValidIsFetchOk();
    InsideAccepted(s, at, size, ts, at + |BlockBits(s, ts, size)|, f);
    var ok;
    ghost var tokens;
    ok, tokens := z.ParseHuffmanBlock(length, distance, s);
  }
}
