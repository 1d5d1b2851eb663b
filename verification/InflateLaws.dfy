/** The fixed codes of DEFLATE as the format gives them, and a block given byte by byte. */
module InflateLaws {
  import opened Bits
  import opened Bytes
  import opened Canonical
  import opened InflateBlock
  import opened InflateEnd
  import opened InflateInverse
  import opened Powers

  // ---------------------------------------------------------------- the fixed codes

  lemma FixedFirsts()
    ensures First(FIXED_LIT, 7) == 0 && First(FIXED_LIT, 8) == 48 && First(FIXED_LIT, 9) == 400
    ensures First(FIXED_DIST, 5) == 0
  {
    hide Count;
    forall l: nat
      ensures Count(FIXED_LIT, |FIXED_LIT|, l)
           == if l == 8 then 152 else if l == 9 then 112 else if l == 7 then 24 else 0
      ensures Count(FIXED_DIST, |FIXED_DIST|, l) == if l == 5 then 32 else 0
    {
      FixedCounts(l);
    }
    FixedIsUsable();
    FirstFrom(FIXED_LIT, 7, 0);
    NoneBelow(FIXED_DIST, 5);
    FirstFrom(FIXED_DIST, 5, 0);
    hide Start;
    assert First(FIXED_LIT, 8) == 2 * (First(FIXED_LIT, 7) + 24);
    assert First(FIXED_LIT, 9) == 2 * (First(FIXED_LIT, 8) + 152);
  }

  /** The table of section 3.2.6 of RFC 1951: codewords 00110000 up for 0 to 143, 110010000 up for 144 to 255, 0000000
      up for 256 to 279 and 11000000 up for 280 to 287; distances are their own codewords. */
  lemma FixedCodes(i: nat)
    requires i < 288
    ensures FIXED_LIT[i] == if i < 144 then 8 else if i < 256 then 9 else if i < 280 then 7 else 8
    ensures Code(FIXED_LIT, i) ==
            if i < 144 then 0x30 + i else if i < 256 then 0x190 + (i - 144) else if i < 280 then i - 256
            else 0xc0 + (i - 280)
    ensures i < 32 ==> FIXED_DIST[i] == 5 && Code(FIXED_DIST, i) == i
  {
    hide Count, First;
    FixedFirsts();
    var l := FIXED_LIT[i];
    CountRun(FIXED_LIT, 0, if i < 144 then i else 144, 8, l);
    if i > 144 {
      CountRun(FIXED_LIT, 144, if i < 256 then i else 256, 9, l);
    }
    if i > 256 {
      CountRun(FIXED_LIT, 256, if i < 280 then i else 280, 7, l);
    }
    if i > 280 {
      CountRun(FIXED_LIT, 280, i, 8, l);
    }
    NoneYet(l);
    if i < 32 {
      CountRun(FIXED_DIST, 0, i, 5, 5);
    }
  }

  lemma NoneYet(l: nat)
    ensures Count(FIXED_LIT, 0, l) == 0 && Count(FIXED_DIST, 0, l) == 0
  {
  }

  // ---------------------------------------------------------------- a block

  /** The compressed data 4b 84 03 00: three header bits, the letter a, a match of length nine at distance one, and the
      end of the block. */
  const EXAMPLE: Stream := Stream([0x4b, 0x84, 0x03, 0x00], FIXED_LIT, FIXED_DIST)

  const EXAMPLE_TOKENS: seq<Token> := [Literal(97), Match(9, 1)]

  lemma ExampleCodeBits()
    ensures |FIXED_LIT| == 288 && |FIXED_DIST| == 32
    ensures CodeBits(FIXED_LIT, 97) == [1, 0, 0, 1, 0, 0, 0, 1] && CodeBits(FIXED_LIT, 263) == [0, 0, 0, 0, 1, 1, 1]
    ensures CodeBits(FIXED_LIT, 256) == [0, 0, 0, 0, 0, 0, 0] && CodeBits(FIXED_DIST, 0) == [0, 0, 0, 0, 0]
  {
    FixedCodes(97);
    FixedCodes(263);
    FixedCodes(256);
    FixedCodes(0);
    hide Code;
    Reversals();
    Digits();
    hide Rev, LowBits;
  }

  lemma Reversals()
    ensures Rev(0x91, 8) == 0x89 && Rev(7, 7) == 0x70 && Rev(0, 7) == 0 && Rev(0, 5) == 0
  {
    SmallPowers();
    hide Pow2;
    RevZero(7);
    RevZero(5);
    RevZero(4);
    assert Rev(1, 5) == 16 && Rev(3, 6) == 48 && Rev(7, 7) == 112;
    assert Rev(1, 1) == 1 && Rev(2, 2) == 1 && Rev(4, 3) == 1 && Rev(9, 4) == 9;
    assert Rev(18, 5) == 9 && Rev(36, 6) == 9 && Rev(72, 7) == 9 && Rev(145, 8) == 137;
  }

  lemma Digits()
    ensures LowBits(0x89, 8) == [1, 0, 0, 1, 0, 0, 0, 1] && LowBits(0x70, 7) == [0, 0, 0, 0, 1, 1, 1]
    ensures LowBits(0, 7) == [0, 0, 0, 0, 0, 0, 0] && LowBits(0, 5) == [0, 0, 0, 0, 0]
  {
    ZeroDigits();
    SevenDigits();
    OddDigits();
    hide LowBits;
  }

  lemma ZeroDigits()
    ensures LowBits(0, 7) == [0, 0, 0, 0, 0, 0, 0] && LowBits(0, 5) == [0, 0, 0, 0, 0]
  {
    assert LowBits(0, 1) == [0] && LowBits(0, 2) == [0] + LowBits(0, 1) && LowBits(0, 3) == [0] + LowBits(0, 2);
    assert LowBits(0, 4) == [0] + LowBits(0, 3) && LowBits(0, 5) == [0] + LowBits(0, 4);
    assert LowBits(0, 6) == [0] + LowBits(0, 5) && LowBits(0, 7) == [0] + LowBits(0, 6);
  }

  lemma SevenDigits()
    ensures LowBits(0x70, 7) == [0, 0, 0, 0, 1, 1, 1]
  {
    assert LowBits(1, 1) == [1] && LowBits(3, 2) == [1] + LowBits(1, 1) && LowBits(7, 3) == [1] + LowBits(3, 2);
    assert LowBits(14, 4) == [0] + LowBits(7, 3) && LowBits(28, 5) == [0] + LowBits(14, 4);
    assert LowBits(56, 6) == [0] + LowBits(28, 5) && LowBits(112, 7) == [0] + LowBits(56, 6);
  }

  lemma OddDigits()
    ensures LowBits(0x89, 8) == [1, 0, 0, 1, 0, 0, 0, 1]
  {
    assert LowBits(1, 1) == [1] && LowBits(2, 2) == [0] + LowBits(1, 1) && LowBits(4, 3) == [0] + LowBits(2, 2);
    assert LowBits(8, 4) == [0] + LowBits(4, 3) && LowBits(17, 5) == [1] + LowBits(8, 4);
    assert LowBits(34, 6) == [0] + LowBits(17, 5) && LowBits(68, 7) == [0] + LowBits(34, 6);
    assert LowBits(137, 8) == [1] + LowBits(68, 7);
  }

  // ---------------------------------------------------------------- what the block holds

  lemma ExampleTokensCodable()
    ensures AllCodable(EXAMPLE, EXAMPLE_TOKENS, 0)
    ensures Codable(FIXED_LIT, FIXED_DIST, Literal(97)) && Codable(FIXED_LIT, FIXED_DIST, Match(9, 1))
    ensures TokenBits(FIXED_LIT, FIXED_DIST, Match(9, 1))
         == CodeBits(FIXED_LIT, 263) + [] + (CodeBits(FIXED_DIST, 0) + [])
  {
    hide CodeBits;
    NineAndOne();
    assert LENGTH_BASE[6] == 9 && LENGTH_EXTRA[6] == 0 && DIST_BASE[0] == 1 && DIST_EXTRA[0] == 0;
    assert LowBits(0, 0) == [];
    hide Slot, LowBits;
    assert EXAMPLE_TOKENS[1..] == [Match(9, 1)] && [Match(9, 1)][1..] == [];
    assert AllCodable(EXAMPLE, [], 10);
    assert AllCodable(EXAMPLE, [Match(9, 1)], 1);
  }

  lemma NineAndOne()
    ensures Slot(LENGTH_BASE, 28, 9) == 6 && Slot(DIST_BASE, 29, 1) == 0
  {
    SlotOfNine();
    DistSlot(1);
    assert DIST_BASE[0] == 1 && DIST_EXTRA[0] == 0;
    hide Slot;
    OneSlotPerDistance(1, Slot(DIST_BASE, 29, 1), 0);
  }

  lemma SlotOfNine()
    ensures Slot(LENGTH_BASE, 28, 9) == 6
  {
    LengthSlot(9);
    assert LENGTH_BASE[6] == 9 && LENGTH_EXTRA[6] == 0 && Pow2(0) == 1;
    hide Slot, Pow2;
    var z := Slot(LENGTH_BASE, 28, 9);
    if z < 6 {
      OneSlotPerLength(9, z, 6);
    } else if z > 6 {
      OneSlotPerLength(9, 6, z);
    }
  }

  lemma ExampleBits()
    ensures AllCodable(EXAMPLE, EXAMPLE_TOKENS, 0)
    ensures BlockBits(EXAMPLE, EXAMPLE_TOKENS, 0)
         == [1, 0, 0, 1, 0, 0, 0, 1] + [0, 0, 0, 0, 1, 1, 1] + [0, 0, 0, 0, 0] + [0, 0, 0, 0, 0, 0, 0]
  {
    ExampleTokensCodable();
    ExampleCodeBits();
    hide CodeBits, TokenBits, Codable;
    assert EXAMPLE_TOKENS[1..] == [Match(9, 1)] && [Match(9, 1)][1..] == [];
    assert BlockBits(EXAMPLE, [], 10) == CodeBits(FIXED_LIT, 256);
    assert BlockBits(EXAMPLE, [Match(9, 1)], 1)
        == TokenBits(FIXED_LIT, FIXED_DIST, Match(9, 1)) + BlockBits(EXAMPLE, [], 10);
    assert TokenBits(FIXED_LIT, FIXED_DIST, Literal(97)) == CodeBits(FIXED_LIT, 97) by {
      LiteralBits();
    }
  }

  lemma LiteralBits()
    requires Codable(FIXED_LIT, FIXED_DIST, Literal(97))
    ensures TokenBits(FIXED_LIT, FIXED_DIST, Literal(97)) == CodeBits(FIXED_LIT, 97)
  {
  }

  lemma SmallPowers()
    ensures Pow2(0) == 1 && Pow2(1) == 2 && Pow2(2) == 4 && Pow2(3) == 8 && Pow2(4) == 16 && Pow2(5) == 32
    ensures Pow2(6) == 64 && Pow2(7) == 128
  {
  }

  lemma FirstBytes(buf: seq<Byte>)
    requires buf == [0x4b, 0x84, 0x03, 0x00]
    ensures Bit(buf, 3) == 1 && Bit(buf, 4) == 0 && Bit(buf, 5) == 0 && Bit(buf, 6) == 1
    ensures Bit(buf, 7) == 0 && Bit(buf, 8) == 0 && Bit(buf, 9) == 0 && Bit(buf, 10) == 1
    ensures Bit(buf, 11) == 0 && Bit(buf, 12) == 0 && Bit(buf, 13) == 0 && Bit(buf, 14) == 0
    ensures Bit(buf, 15) == 1
  {
    SmallPowers();
    hide Pow2;
  }

  lemma LastBytes(buf: seq<Byte>)
    requires buf == [0x4b, 0x84, 0x03, 0x00]
    ensures Bit(buf, 16) == 1 && Bit(buf, 17) == 1 && Bit(buf, 18) == 0 && Bit(buf, 19) == 0
    ensures Bit(buf, 20) == 0 && Bit(buf, 21) == 0 && Bit(buf, 22) == 0 && Bit(buf, 23) == 0
    ensures Bit(buf, 24) == 0 && Bit(buf, 25) == 0 && Bit(buf, 26) == 0 && Bit(buf, 27) == 0
    ensures Bit(buf, 28) == 0 && Bit(buf, 29) == 0
  {
    SmallPowers();
    hide Pow2;
  }

  /** The four bytes hold these tokens, and the tokens stand for ten letters. */
  lemma ExampleBlock()
    ensures Spells(EXAMPLE, 3, 0, EXAMPLE_TOKENS, 30)
    ensures Expand([], EXAMPLE_TOKENS) == [97, 97, 97, 97, 97, 97, 97, 97, 97, 97]
  {
    ExampleExpands();
    ExampleBits();
    ExampleCodeBits();
    FixedIsUsable();
    ExampleStands();
    assert FIXED_LIT[256] == 7 && |FIXED_LIT| == 288;
    hide BlockBits, BitsAt, AllCodable, CodeBits, Usable, Spells, Kraft, Expand;
    BlockRead(EXAMPLE, 3, 0, EXAMPLE_TOKENS);
  }

  lemma ExampleStands()
    ensures BitsAt(EXAMPLE.buf, 3, [1, 0, 0, 1, 0, 0, 0, 1] + [0, 0, 0, 0, 1, 1, 1] + [0, 0, 0, 0, 0]
                                   + [0, 0, 0, 0, 0, 0, 0])
  {
    hide Bit, BitsAt;
    var buf := EXAMPLE.buf;
    var a, b, c, d := [1, 0, 0, 1, 0, 0, 0, 1], [0, 0, 0, 0, 1, 1, 1], [0, 0, 0, 0, 0], [0, 0, 0, 0, 0, 0, 0];
    FirstStand(buf);
    LastStand(buf);
    BitsAtConcat(buf, 3, a, b);
    BitsAtConcat(buf, 3, a + b, c);
    BitsAtConcat(buf, 3, a + b + c, d);
  }

  lemma FirstStand(buf: seq<Byte>)
    requires buf == [0x4b, 0x84, 0x03, 0x00]
    ensures BitsAt(buf, 3, [1, 0, 0, 1, 0, 0, 0, 1]) && BitsAt(buf, 11, [0, 0, 0, 0, 1, 1, 1])
  {
    FirstBytes(buf);
    LastBytes(buf);
    hide Bit;
  }

  lemma LastStand(buf: seq<Byte>)
    requires buf == [0x4b, 0x84, 0x03, 0x00]
    ensures BitsAt(buf, 18, [0, 0, 0, 0, 0]) && BitsAt(buf, 23, [0, 0, 0, 0, 0, 0, 0])
  {
    LastBytes(buf);
    hide Bit;
  }

  lemma ExampleExpands()
    ensures Expand([], EXAMPLE_TOKENS) == [97, 97, 97, 97, 97, 97, 97, 97, 97, 97]
  {
    var none: seq<Byte>, a: seq<Byte> := [], [97];
    var first: seq<Token>, no: seq<Token> := [Literal(97)], [];
    assert EXAMPLE_TOKENS[..1] == first && first[..0] == no && none + a == a;
    assert Expand(none, no) == none;
    assert Expand(none, first) == ExpandOne(Expand(none, first[..0]), Literal(97)) == a;
    TenLetters();
    hide Copy;
  }

  lemma TenLetters()
    ensures Copy([97], 9, 1) == [97, 97, 97, 97, 97, 97, 97, 97, 97, 97]
  {
    var a: seq<Byte> := [97];
    assert Copy(a, 3, 1) == [97, 97, 97, 97];
    assert Copy(a, 6, 1) == [97, 97, 97, 97, 97, 97, 97];
  }
}
