/** What the steps of GIF's LZW decoding come to: what is learned, how wide codes are, and a stream given byte by
    byte. */
module GifLaws {
  import opened Bits
  import opened Bytes
  import opened GifLzw
  import opened GifReference
  import opened Powers

  /** After an ordinary code the string put out has been appended; a new entry is the string before and the first symbol
      of the one put out, also if that is the new entry itself. */
  lemma LearnedFromOutput(st: Decoder, cs: nat, code: nat)
    requires InBounds(st) && code != st.dict.clear && Step(st, cs, code).More?
    ensures var d, next := st.dict, Step(st, cs, code).next;
            && next.prev == code && Known(next.dict, code) && next.out == st.out + StringOf(next.dict, code)
            && (st.prev < 0 ==> next.dict == d)
            && (st.prev >= 0 ==>
                  next.dict.added == d.added + [StringOf(d, st.prev) + [StringOf(next.dict, code)[0]]])
  {
  }

  /** A single symbol stands for itself; the clear code and the end code come behind the symbols, and entries behind
      them. */
  lemma CodesInOrder(d: Dictionary, code: nat)
    requires Sound(d) && d.clear <= 256
    ensures Known(d, code) <==> code < d.clear || d.clear + 2 <= code < d.clear + 2 + |d.added|
    ensures code < d.clear ==> StringOf(d, code) == [code]
    ensures d.clear + 2 <= code < d.clear + 2 + |d.added| ==> StringOf(d, code) == d.added[code - d.clear - 2]
  {
  }

  /** How many ordinary codes may follow a clear code. */
  lemma LimitIs(cs: nat)
    ensures Limit(cs) == 8191 - Pow2(cs) && TABLE == 4096
  {
  }

  // ---------------------------------------------------------------- code sizes

  /** Codes are as wide as the next free code needs, but at least one bit wider than the symbols and at most twelve bits
      wide. */
  ghost predicate Sized(st: Decoder, cs: nat) {
    && cs + 1 <= st.size <= 12 && (st.size < 12 ==> Available(st.dict) < Pow2(st.size))
    && (st.size > cs + 1 ==> Pow2(st.size - 1) <= Available(st.dict))
  }

  lemma ClearedIsSized(st: Decoder, cs: nat)
    requires 2 <= cs <= 11 && st.dict.clear == Pow2(cs)
    ensures Sized(Cleared(st, cs), cs)
  {
    Pow2Monotone(2, cs);
    assert Pow2(2) == 4;
  }

  /** The width grows exactly when the next free code no longer fits. */
  lemma SizeKept(st: Decoder, cs: nat, code: nat)
    requires 2 <= cs <= 11 && InBounds(st) && st.dict.clear == Pow2(cs) && Sized(st, cs) && Step(st, cs, code).More?
    ensures Sized(Step(st, cs, code).next, cs)
  {
    if code == st.dict.clear {
      ClearedIsSized(st, cs);
    } else {
      LearnedFromOutput(st, cs, code);
      SizeAfter(st.size, Available(Step(st, cs, code).next.dict), Available(st.dict));
    }
  }

  lemma SizeAfter(size: nat, avail: nat, before: nat)
    requires 3 <= size <= 12 && (avail == before || avail == before + 1) && (size < 12 ==> before < Pow2(size))
    requires before > 0
    ensures var next := NextSize(size, avail);
            && size <= next <= 12 && (next < 12 ==> avail < Pow2(next))
            && (next > size ==> Pow2(next - 1) <= avail)
  {
    var p := Pow2(size);
    Pow2Monotone(size, 12);
    Twelve();
    hide Pow2;
    Pow2Step(size + 1);
    if avail < p {
      SmallRemainder(avail, p);
    } else if size < 12 {
      DivModOf(avail, p, 1, 0);
    } else {
      MultiplesOf4096(avail);
    }
  }

  lemma MultiplesOf4096(avail: nat)
    requires avail >= 4096
    ensures NextSize(12, avail) == 12
  {
  }

  // ---------------------------------------------------------------- a stream

  /** Code size 2 and the codes clear, 1, 6, 7 and end. Codes 6 and 7 are both used while they are being defined, and
      the end code is the first one of four bits. */
  const EXAMPLE: seq<Byte> := [2, 2, 0x8c, 0x5f, 0]

  lemma ExampleDecodes()
    ensures Decoded(EXAMPLE, 0) == (Done, [1, 1, 1, 1, 1, 1])
  {
    var data: seq<Byte> := [0x8c, 0x5f];
    ExampleData(data);
    ExampleCodes(data);
    ExampleSteps();
    hide Step, Window, Flat, InBounds;
    var s0 := Initial(2);
    var s1 := Cleared(s0, 2);
    var s2 := Decoder(Dictionary(4, []), 1, 3, true, [1]);
    var s3 := Decoder(Dictionary(4, [[1, 1]]), 6, 3, true, [1, 1, 1]);
    var s4 := Decoder(Dictionary(4, [[1, 1], [1, 1, 1]]), 7, 4, true, [1, 1, 1, 1, 1, 1]);
    RunStep(data, 0, s0, 2);
    RunStep(data, 3, s1, 2);
    RunStep(data, 6, s2, 2);
    RunStep(data, 9, s3, 2);
    RunStep(data, 12, s4, 2);
  }

  lemma ExampleData(data: seq<Byte>)
    requires data == [0x8c, 0x5f]
    ensures Pow2(2) == 4 && Get8(EXAMPLE, 0) == 2 && Flat(EXAMPLE, 1, 0) == data
  {
    assert Pow2(2) == 4;
    hide Pow2;
    assert Flat(EXAMPLE, 4, 0) == [];
    assert Flat(EXAMPLE, 3, 1) == [0x5f];
    assert Flat(EXAMPLE, 2, 2) == [0x8c] + Flat(EXAMPLE, 3, 1);
  }

  lemma SmallPowers()
    ensures Pow2(0) == 1 && Pow2(1) == 2 && Pow2(2) == 4 && Pow2(3) == 8 && Pow2(4) == 16 && Pow2(5) == 32
    ensures Pow2(6) == 64 && Pow2(7) == 128
  {
  }

  lemma LowByte(data: seq<Byte>)
    requires data == [0x8c, 0x5f]
    ensures Bit(data, 0) == 0 && Bit(data, 1) == 0 && Bit(data, 2) == 1 && Bit(data, 3) == 1
    ensures Bit(data, 4) == 0 && Bit(data, 5) == 0 && Bit(data, 6) == 0 && Bit(data, 7) == 1
  {
    SmallPowers();
    hide Pow2;
  }

  lemma HighByte(data: seq<Byte>)
    requires data == [0x8c, 0x5f]
    ensures Bit(data, 8) == 1 && Bit(data, 9) == 1 && Bit(data, 10) == 1 && Bit(data, 11) == 1
    ensures Bit(data, 12) == 1 && Bit(data, 13) == 0 && Bit(data, 14) == 1 && Bit(data, 15) == 0
  {
    SmallPowers();
    hide Pow2;
  }

  lemma Three(data: seq<Byte>, k: nat)
    ensures Window(data, k, 3) == Bit(data, k) + 2 * Bit(data, k + 1) + 4 * Bit(data, k + 2)
  {
    hide Bit;
    assert Window(data, k + 3, 0) == 0;
    assert Window(data, k + 2, 1) == Bit(data, k + 2) + 2 * Window(data, k + 3, 0);
    assert Window(data, k + 1, 2) == Bit(data, k + 1) + 2 * Window(data, k + 2, 1);
  }

  lemma ExampleCodes(data: seq<Byte>)
    requires data == [0x8c, 0x5f]
    ensures Window(data, 0, 3) == 4 && Window(data, 3, 3) == 1 && Window(data, 6, 3) == 6 && Window(data, 9, 3) == 7
    ensures Window(data, 12, 4) == 5
  {
    LowByte(data);
    HighByte(data);
    hide Bit, Window;
    Three(data, 0);
    Three(data, 3);
    Three(data, 6);
    Three(data, 9);
    Three(data, 13);
    Four(data, 12);
  }

  lemma Four(data: seq<Byte>, k: nat)
    ensures Window(data, k, 4) == Bit(data, k) + 2 * Window(data, k + 1, 3)
  {
    hide Bit;
  }

  lemma ExampleSteps()
    ensures var s0 := Initial(2);
            var s1 := Cleared(s0, 2);
            var s2 := Decoder(Dictionary(4, []), 1, 3, true, [1]);
            var s3 := Decoder(Dictionary(4, [[1, 1]]), 6, 3, true, [1, 1, 1]);
            var s4 := Decoder(Dictionary(4, [[1, 1], [1, 1, 1]]), 7, 4, true, [1, 1, 1, 1, 1, 1]);
            && InBounds(s0) && InBounds(s1) && InBounds(s2) && InBounds(s3) && InBounds(s4)
            && Step(s0, 2, 4) == More(s1) && Step(s1, 2, 1) == More(s2) && Step(s2, 2, 6) == More(s3)
            && Step(s3, 2, 7) == More(s4) && Step(s4, 2, 5) == Stop(Done)
  {
    SmallPowers();
    var none: seq<seq<Byte>>, one: seq<seq<Byte>>, two: seq<seq<Byte>> := [], [[1, 1]], [[1, 1], [1, 1, 1]];
    var a: seq<Byte>, b: seq<Byte>, c: seq<Byte> := [1], [1, 1], [1, 1, 1];
    assert StringOf(Dictionary(4, none), 1) == a && StringOf(Dictionary(4, one), 6) == b;
    assert a + [1] == b && b + [1] == c && none + [b] == one && one + [c] == two;
    assert a + b == c && c + c == [1, 1, 1, 1, 1, 1] && [] + a == a;
    assert NextSize(3, 6) == 3 && NextSize(3, 7) == 3 && NextSize(3, 8) == 4;
    hide Pow2, Learn, StringOf, NextSize;
    LearnOne(Dictionary(4, none), 1, a, none);
    LearnOne(Dictionary(4, one), 6, b, one);
  }

  /** The code that is just being defined, behind a string of ones. */
  lemma LearnOne(d: Dictionary, prev: nat, s: seq<Byte>, added: seq<seq<Byte>>)
    requires Sound(d) && d.clear == 4 && d.added == added && Known(d, prev) && StringOf(d, prev) == s && s[0] == 1
    ensures StringOf(d, 1) == [1]
    ensures var d' := Learn(d, prev, Available(d));
            && d' == Dictionary(4, added + [s + [1]]) && Known(d', Available(d))
            && StringOf(d', Available(d)) == s + [1]
  {
  }
}
