/** GIF data written code by code: bits packed into bytes, bytes into sub-blocks, and the streams that never use the
    dictionary. */
module GifStreams {
  import opened Bits
  import opened Bytes
  import opened GifLzw
  import opened GifLzwInverse
  import opened GifReference
  import opened Powers

  // ---------------------------------------------------------------- bits into bytes

  predicate Binary(bits: seq<nat>) {
    forall i :: 0 <= i < |bits| ==> bits[i] <= 1
  }

  function ValueOf(bits: seq<nat>): (v: nat)
    requires Binary(bits)
    ensures v < Pow2(|bits|)
  {
    if bits == [] then 0 else bits[0] + 2 * ValueOf(bits[1..])
  }

  function Pack(bits: seq<nat>): (s: seq<Byte>)
    requires Binary(bits)
    ensures 8 * |s| >= |bits|
    decreases |bits|
  {
    if bits == [] then []
    else if |bits| <= 8 then [PackByte(bits)]
    else [PackByte(bits[..8])] + Pack(bits[8..])
  }

  function PackByte(bits: seq<nat>): (b: Byte)
    requires Binary(bits) && |bits| <= 8
  {
    EightBits(|bits|);
    ValueOf(bits)
  }

  lemma EightBits(n: nat)
    requires n <= 8
    ensures Pow2(n) <= 256
  {
    Pow2Monotone(n, 8);
    assert Pow2(8) == 256;
  }

  lemma {:induction false} BitOfValue(bits: seq<nat>, j: nat)
    requires Binary(bits)
    ensures ValueOf(bits) / Pow2(j) % 2 == if j < |bits| then bits[j] else 0
    decreases j
  {
    hide Pow2;
    Pow2Step(j);
    Pow2Step(0);
    if j == 0 {
    } else if bits == [] {
      ZeroDivided(Pow2(j));
    } else {
      var rest := ValueOf(bits[1..]);
      BitOfValue(bits[1..], j - 1);
      DivDiv(ValueOf(bits), 2, Pow2(j - 1));
      assert ValueOf(bits) / 2 == rest;
    }
  }

  lemma ZeroDivided(p: nat)
    requires p > 0
    ensures 0 / p % 2 == 0
  {
  }

  lemma {:induction false} PackedBit(bits: seq<nat>, k: nat)
    requires Binary(bits) && k < |bits|
    ensures Bit(Pack(bits), k) == bits[k]
    decreases |bits|
  {
    hide Pow2, ValueOf;
    var s := Pack(bits);
    if k < 8 {
      BitOfValue(if |bits| <= 8 then bits else bits[..8], k);
    } else {
      PackedBit(bits[8..], k - 8);
      var t := Pack(bits[8..]);
      assert s[k / 8] == t[(k - 8) / 8];
    }
  }

  lemma PackedBits(bits: seq<nat>)
    requires Binary(bits)
    ensures BitsAt(Pack(bits), 0, bits)
  {
    hide Bit;
    forall i | 0 <= i < |bits|
      ensures Bit(Pack(bits), 0 + i) == bits[i]
    {
      PackedBit(bits, i);
    }
  }

  lemma {:induction false} LowBitsBinary(v: nat, n: nat)
    ensures Binary(LowBits(v, n))
    decreases n
  {
    if n > 0 {
      LowBitsBinary(v / 2, n - 1);
    }
  }

  // ---------------------------------------------------------------- bytes into sub-blocks

  function SubBlocks(data: seq<Byte>): (s: seq<Byte>)
    decreases |data|
  {
    if data == [] then [0]
    else if |data| <= 255 then [|data|] + data + [0]
    else [255] + data[..255] + SubBlocks(data[255..])
  }

  lemma {:induction false} FlatBlock(input: seq<Byte>, pos: nat, len: nat)
    requires pos + len <= |input|
    ensures Flat(input, pos, len) == input[pos..pos + len] + Flat(input, pos + len, 0)
    decreases len
  {
    if len > 0 {
      FlatBlock(input, pos + 1, len - 1);
      assert input[pos..pos + len] == [input[pos]] + input[pos + 1..pos + len];
    } else {
      assert input[pos..pos] == [];
    }
  }

  lemma PartOf(input: seq<Byte>, pos: nat, s: seq<Byte>, from: nat, n: nat)
    requires pos <= |input| && input[pos..] == s && from + n <= |s|
    ensures pos + from + n <= |input| && input[pos + from..pos + from + n] == s[from..from + n]
    ensures input[pos + from + n..] == s[from + n..]
    ensures from + n < |s| ==> pos + from + n < |input| && input[pos + from + n] == s[from + n]
  {
    assert |s| == |input| - pos;
    assert forall k :: 0 <= k < |s| ==> s[k] == input[pos + k];
  }

  /** Sub-blocks are read back as the bytes in them. */
  lemma {:induction false} FlatSubBlocks(input: seq<Byte>, pos: nat, data: seq<Byte>)
    requires pos <= |input| && input[pos..] == SubBlocks(data)
    ensures Flat(input, pos, 0) == data
    decreases |data|
  {
    hide Flat;
    var s := SubBlocks(data);
    assert input[pos] == s[0];
    FlatStart(input, pos);
    if data != [] {
      var n := if |data| <= 255 then |data| else 255;
      assert n < |s| - 1 && s[1..1 + n] == data[..n];
      PartOf(input, pos, s, 1, n);
      FlatBlock(input, pos + 1, n);
      if |data| <= 255 {
        assert s[1 + n] == 0;
        FlatStart(input, pos + 1 + n);
        assert data[..n] + [] == data;
      } else {
        assert s[1 + n..] == SubBlocks(data[n..]);
        FlatSubBlocks(input, pos + 1 + n, data[n..]);
        assert data[..n] + data[n..] == data;
      }
    }
  }

  /** Behind sub-blocks that have been written the reader stands at their end. */
  lemma {:induction false} AfterWritten(input: seq<Byte>, pos: nat, data: seq<Byte>)
    requires pos <= |input| && input[pos..] == SubBlocks(data)
    ensures AfterBlocks(input, pos) == |input|
    decreases |data|
  {
    hide AfterBlocks;
    var s := SubBlocks(data);
    assert input[pos] == s[0] && |s| == |input| - pos;
    AfterStart(input, pos);
    if data != [] {
      var n := if |data| <= 255 then |data| else 255;
      PartOf(input, pos, s, 1, n);
      if |data| <= 255 {
        assert s[1 + n] == 0;
        AfterStart(input, pos + 1 + n);
      } else {
        assert s[1 + n..] == SubBlocks(data[n..]);
        AfterWritten(input, pos + 1 + n, data[n..]);
      }
    }
  }

  lemma AfterStart(input: seq<Byte>, pos: nat)
    ensures AfterBlocks(input, pos)
         == if Get8(input, pos) == 0 then pos + 1 else AfterBlocks(input, pos + 1 + Get8(input, pos))
  {
  }

  lemma FlatStart(input: seq<Byte>, pos: nat)
    ensures Flat(input, pos, 0) == if Get8(input, pos) == 0 then [] else Flat(input, pos + 1, Get8(input, pos))
  {
  }

  // ---------------------------------------------------------------- streams without the dictionary

  /** A state from which every symbol can be written as its own code. */
  ghost predicate Writing(st: Decoder, cs: nat) {
    InBounds(st) && 1 <= cs <= 11 && st.dict.clear == Pow2(cs) && st.size > cs
  }

  lemma SymbolStep(st: Decoder, cs: nat, b: Byte)
    requires Writing(st, cs) && b < st.dict.clear
    ensures FrozenStep(st, cs, b).More?
    ensures var next := FrozenStep(st, cs, b).next; Writing(next, cs) && next.out == st.out + [b]
  {
    hide Pow2, NextSize;
    FrozenInBounds(st, cs, b);
    if st.prev >= 0 && Available(st.dict) < TABLE {
      SizeGrows(st.size, Available(Learn(st.dict, st.prev, b)));
    }
    SizeGrows(st.size, Available(st.dict));
  }

  lemma SizeGrows(size: nat, avail: nat)
    ensures NextSize(size, avail) >= size
  {
  }

  /** Every symbol as its own code, and the end code. */
  ghost function PlainBits(st: Decoder, cs: nat, s: seq<Byte>): (bits: seq<nat>)
    requires Writing(st, cs) && forall i :: 0 <= i < |s| ==> s[i] < Pow2(cs)
    decreases |s|
  {
    if s == [] then LowBits(Pow2(cs) + 1, st.size)
    else
      SymbolStep(st, cs, s[0]);
      LowBits(s[0], st.size) + PlainBits(FrozenStep(st, cs, s[0]).next, cs, s[1..])
  }

  lemma {:induction false} PlainBinary(st: Decoder, cs: nat, s: seq<Byte>)
    requires Writing(st, cs) && forall i :: 0 <= i < |s| ==> s[i] < Pow2(cs)
    ensures Binary(PlainBits(st, cs, s))
    decreases |s|
  {
    hide LowBits, Pow2, FrozenStep;
    if s == [] {
      LowBitsBinary(Pow2(cs) + 1, st.size);
    } else {
      SymbolStep(st, cs, s[0]);
      LowBitsBinary(s[0], st.size);
      PlainBinary(FrozenStep(st, cs, s[0]).next, cs, s[1..]);
    }
  }

  lemma CodesFit(cs: nat, size: nat)
    requires 1 <= cs < size
    ensures Pow2(cs) + 1 < Pow2(size)
  {
    Pow2Monotone(cs + 1, size);
    Pow2Monotone(1, cs);
    assert Pow2(1) == 2;
  }

  /** The reference puts out the symbols, and their number is the length of the one stretch of ordinary codes. */
  lemma {:induction false} PlainRun(data: seq<Byte>, k: nat, st: Decoder, cs: nat, s: seq<Byte>, n: nat)
    requires Writing(st, cs) && forall i :: 0 <= i < |s| ==> s[i] < Pow2(cs)
    requires BitsAt(data, k, PlainBits(st, cs, s)) && k + |PlainBits(st, cs, s)| <= 8 * |data|
    ensures FrozenRun(data, k, st, cs) == (Done, st.out + s)
    ensures ShortStretches(data, k, st, cs, n) <==> s == [] || n + |s| <= Limit(cs)
    decreases |s|
  {
    hide LowBits, Pow2, FrozenStep, BitsAt, Window, ShortStretches, FrozenRun, StringOf;
    CodesFit(cs, st.size);
    FrozenIs(st, cs);
    if s == [] {
      assert LowBits(Pow2(cs) + 1, st.size) + [] == LowBits(Pow2(cs) + 1, st.size) && st.out + s == st.out;
      ReadCode(data, k, Pow2(cs) + 1, st.size, []);
      FrozenRunStep(data, k, st, cs, n);
    } else {
      SymbolStep(st, cs, s[0]);
      var next := FrozenStep(st, cs, s[0]).next;
      ReadCode(data, k, s[0], st.size, PlainBits(next, cs, s[1..]));
      FrozenRunStep(data, k, st, cs, n);
      PlainRun(data, k + st.size, next, cs, s[1..], n + 1);
      assert st.out + [s[0]] + s[1..] == st.out + s;
    }
  }

  lemma FrozenIs(st: Decoder, cs: nat)
    requires InBounds(st)
    ensures FrozenStep(st, cs, st.dict.clear) == More(Cleared(st, cs))
    ensures FrozenStep(st, cs, st.dict.clear + 1) == Stop(Done)
  {
  }

  /** The bytes of a stream of code size `cs`: a clear code, the symbols, and the end code. */
  ghost function PlainStream(cs: nat, s: seq<Byte>): (input: seq<Byte>)
    requires 1 <= cs <= 11 && forall i :: 0 <= i < |s| ==> s[i] < Pow2(cs)
  {
    StartWriting(cs);
    PlainStartBinary(cs, s);
    [cs] + SubBlocks(Pack(PlainStart(cs, s)))
  }

  ghost function PlainStart(cs: nat, s: seq<Byte>): seq<nat>
    requires 1 <= cs <= 11 && forall i :: 0 <= i < |s| ==> s[i] < Pow2(cs)
  {
    StartWriting(cs);
    LowBits(Pow2(cs), cs + 1) + PlainBits(Cleared(Initial(cs), cs), cs, s)
  }

  lemma StartWriting(cs: nat)
    requires 1 <= cs <= 11
    ensures Writing(Initial(cs), cs) && Writing(Cleared(Initial(cs), cs), cs)
  {
    ClearFits(cs);
  }

  lemma PlainStartBinary(cs: nat, s: seq<Byte>)
    requires 1 <= cs <= 11 && forall i :: 0 <= i < |s| ==> s[i] < Pow2(cs)
    ensures Binary(PlainStart(cs, s))
  {
    hide LowBits, Pow2;
    StartWriting(cs);
    LowBitsBinary(Pow2(cs), cs + 1);
    PlainBinary(Cleared(Initial(cs), cs), cs, s);
  }

  /** A legal stream of any symbols: the reference decodes it, and the decoder agrees exactly up to the limit.
      Beyond, it rejects the stream. */
  lemma PlainStreamsDecode(cs: nat, s: seq<Byte>)
    requires 1 <= cs <= 11 && forall i :: 0 <= i < |s| ==> s[i] < Pow2(cs)
    ensures Reference(PlainStream(cs, s), 0) == (Done, s)
    ensures Decoded(PlainStream(cs, s), 0) == (Done, s) <==> |s| <= Limit(cs)
    ensures |s| > Limit(cs) ==> Decoded(PlainStream(cs, s), 0).0 == TooManyCodes
  {
    hide LowBits, Pow2, FrozenStep, BitsAt, Window, ShortStretches, FrozenRun, Run, Flat, Pack, SubBlocks;
    var input, bits := PlainStream(cs, s), PlainStart(cs, s);
    StartWriting(cs);
    PlainStartBinary(cs, s);
    var data := Pack(bits);
    PackedBits(bits);
    assert input[1..] == SubBlocks(data);
    FlatSubBlocks(input, 1, data);
    var st := Cleared(Initial(cs), cs);
    CodesFit(cs, cs + 1);
    ReadCode(data, 0, Pow2(cs), cs + 1, PlainBits(st, cs, s));
    FrozenIs(Initial(cs), cs);
    FrozenRunStep(data, 0, Initial(cs), cs, 0);
    PlainRun(data, cs + 1, st, cs, s, 0);
    assert [] + s == s;
    ClearStarts(data, cs);
    RunsFromStart(data, cs);
  }

  lemma ClearStarts(data: seq<Byte>, cs: nat)
    requires Window(data, 0, cs + 1) == Pow2(cs)
    ensures StartsProperly(data, cs)
  {
  }

  // ---------------------------------------------------------------- streams without a clear code

  /** The bytes of a stream that does without a clear code: the symbols, and the end code. */
  ghost function BareStream(cs: nat, s: seq<Byte>): (input: seq<Byte>)
    requires 1 <= cs <= 11 && forall i :: 0 <= i < |s| ==> s[i] < Pow2(cs)
  {
    StartWriting(cs);
    PlainBinary(Initial(cs), cs, s);
    [cs] + SubBlocks(Pack(PlainBits(Initial(cs), cs, s)))
  }

  /** The reference decodes it from the start-up table; the decoder rejects it at the first symbol. */
  lemma BareStreamsFail(cs: nat, s: seq<Byte>)
    requires 1 <= cs <= 11 && s != [] && forall i :: 0 <= i < |s| ==> s[i] < Pow2(cs)
    ensures Reference(BareStream(cs, s), 0) == (Done, s)
    ensures Decoded(BareStream(cs, s), 0) == (NoClearCode, [])
  {
    hide LowBits, Pow2, FrozenStep, BitsAt, Window, ShortStretches, FrozenRun, Run, Flat, Pack, SubBlocks;
    StartWriting(cs);
    PlainBinary(Initial(cs), cs, s);
    var bits := PlainBits(Initial(cs), cs, s);
    var input, data := BareStream(cs, s), Pack(bits);
    PackedBits(bits);
    assert input[1..] == SubBlocks(data);
    FlatSubBlocks(input, 1, data);
    PlainRun(data, 0, Initial(cs), cs, s, 0);
    assert [] + s == s;
    CodesFit(cs, cs + 1);
    SymbolStep(Initial(cs), cs, s[0]);
    ReadCode(data, 0, s[0], cs + 1, PlainBits(FrozenStep(Initial(cs), cs, s[0]).next, cs, s[1..]));
    SymbolDoesNotStart(data, cs);
    RunsFromStart(data, cs);
  }

  lemma SymbolDoesNotStart(data: seq<Byte>, cs: nat)
    requires Window(data, 0, cs + 1) < Pow2(cs) && cs + 1 <= 8 * |data|
    ensures !StartsProperly(data, cs)
  {
  }

  /** The smallest such stream: code size 2, the codes 0 and end in one byte. */
  lemma SmallestBareStream()
    ensures BareStream(2, [0]) == [2, 1, 0x28, 0]
    ensures Reference([2, 1, 0x28, 0], 0) == (Done, [0]) && Decoded([2, 1, 0x28, 0], 0) == (NoClearCode, [])
  {
    SixBits();
    BareStreamsFail(2, [0]);
  }

  lemma SixBits()
    ensures Pow2(2) == 4 && BareStream(2, [0]) == [2, 1, 0x28, 0]
  {
    assert Pow2(2) == 4;
    hide Pow2, FrozenStep, LowBits, ValueOf, Writing;
    StartWriting(2);
    SymbolStep(Initial(2), 2, 0);
    NextIsThree();
    CodeBits();
    var next := FrozenStep(Initial(2), 2, 0).next;
    assert [0][1..] == [];
    assert PlainBits(next, 2, []) == [1, 0, 1];
    assert PlainBits(Initial(2), 2, [0]) == [0, 0, 0] + [1, 0, 1] == [0, 0, 0, 1, 0, 1];
  }

  lemma NextIsThree()
    ensures InBounds(Initial(2)) && FrozenStep(Initial(2), 2, 0).More? && FrozenStep(Initial(2), 2, 0).next.size == 3
  {
    assert Pow2(2) == 4 && Pow2(3) == 8;
  }

  lemma CodeBits()
    ensures LowBits(0, 3) == [0, 0, 0] && LowBits(5, 3) == [1, 0, 1] && ValueOf([0, 0, 0, 1, 0, 1]) == 0x28
  {
    var bits := [0, 0, 0, 1, 0, 1];
    assert bits[5..] == [1] && bits[4..] == [0, 1] && bits[3..] == [1, 0, 1];
    assert ValueOf(bits[5..]) == 1 && ValueOf(bits[4..]) == 2 && ValueOf(bits[3..]) == 5;
    assert bits[3..] == bits[2..][1..] && bits[2..] == bits[1..][1..];
    assert ValueOf(bits[2..]) == 10 && ValueOf(bits[1..]) == 20;
  }
}
