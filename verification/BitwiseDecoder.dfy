/** basisu's bit reader and the codes read through it. */
module BitwiseDecoder {
  import Canonical
  import HuffmanLone
  import HuffmanTable
  import HuffmanTree
  import opened Bits
  import opened Bytes
  import opened Powers

  // ---------------------------------------------------------------- codewords

  /** How many of `n` values get the short codewords. */
  function ShortCodes(n: nat): (u: nat)
    requires n >= 2
    ensures 0 < u <= Pow2(FloorLog2(n)) && u + n == 2 * Pow2(FloorLog2(n))
  {
    FloorLog2Bounds(n);
    Pow2(FloorLog2(n) + 1) - n
  }

  /** Truncated binary code for a value below `n`: `k` bits for the first `u` values and one more for the others. */
  function TruncatedBinaryCode(v: nat, n: nat): seq<nat>
    requires v < n && n >= 2
  {
    var k := FloorLog2(n);
    var u := ShortCodes(n);
    if v < u then LowBits(v, k) else LowBits((v + u) / 2, k) + LowBits((v + u) % 2, 1)
  }

  function Repeated(bit: nat, n: nat): (s: seq<nat>)
    ensures |s| == n && forall i :: 0 <= i < n ==> s[i] == bit
  {
    seq(n, _ => bit)
  }

  /** Rice code with parameter `m`: the quotient in unary, a zero, and `m` remainder bits. */
  function RiceCode(v: nat, m: nat): seq<nat> {
    Repeated(1, Quotient(v, Pow2(m))) + [0] + LowBits(Remainder(v, Pow2(m)), m)
  }

  /** Groups of `c` bits, low group first, each followed by a bit that says whether another group follows. */
  function VlcCode(v: nat, c: nat): seq<nat>
    requires c > 0
    decreases v
  {
    if v < Pow2(c) then LowBits(v, c) + [0] + []
    else
      QuotientSmaller(v, Pow2(c));
      LowBits(Remainder(v, Pow2(c)), c) + [1] + VlcCode(Quotient(v, Pow2(c)), c)
  }

  lemma QuotientSmaller(v: nat, p: nat)
    requires p >= 2 && v > 0
    ensures Quotient(v, p) < v
  {
    MulAtLeastTwice(p, Quotient(v, p));
  }

  lemma MulAtLeastTwice(p: nat, q: nat)
    requires p >= 2
    ensures p * q >= 2 * q
  {
  }

  // ---------------------------------------------------------------- decoding, on flat bit strings

  /** What `decode_truncated_binary` reads at bit `k0`: the value and the number of bits. */
  function ReadTruncatedBinary(buf: seq<Byte>, k0: nat, n: nat): (r: (int, nat))
    requires n >= 2
  {
    var k := FloorLog2(n);
    var u := ShortCodes(n);
    var v := Window(buf, k0, k);
    if v >= u then (2 * v + Window(buf, k0 + k, 1) - u, k + 1) else (v, k)
  }

  function RiceValue(q: nat, m: nat, r: nat): nat {
    Pow2(m) * q + r
  }

  /** What `decode_rice` reads, before truncation to 32 bits. */
  function ReadRice(buf: seq<Byte>, k0: nat, m: nat): (nat, nat) {
    var q := Ones(buf, k0);
    (RiceValue(q, m, Window(buf, k0 + q + 1, m)), q + 1 + m)
  }

  /** The value read is in range, and its codeword is what stands in the bit string. */
  lemma TruncatedBinaryRead(buf: seq<Byte>, k0: nat, n: nat)
    requires n >= 2
    ensures var (v, len) := ReadTruncatedBinary(buf, k0, n);
            0 <= v < n && |TruncatedBinaryCode(v, n)| == len && BitsAt(buf, k0, TruncatedBinaryCode(v, n))
  {
    hide BitsAt, LowBits, Window, FloorLog2, ShortCodes;
    var k, u := FloorLog2(n), ShortCodes(n);
    var x, y := Window(buf, k0, k), Window(buf, k0 + k, 1);
    assert Pow2(1) == 2;
    LowBitsAt(buf, k0, x, k);
    LowBitsAt(buf, k0 + k, y, 1);
    BitsAtConcat(buf, k0, LowBits(x, k), LowBits(y, 1));
    if x >= u {
      var v := 2 * x + y - u;
      assert (v + u) / 2 == x && (v + u) % 2 == y;
    }
  }

  /** No other codeword stands there: the codewords are prefix-free, and reading inverts writing. */
  lemma TruncatedBinaryInverse(buf: seq<Byte>, k0: nat, v: nat, n: nat)
    requires n >= 2 && v < n && BitsAt(buf, k0, TruncatedBinaryCode(v, n))
    ensures ReadTruncatedBinary(buf, k0, n) == (v, |TruncatedBinaryCode(v, n)|)
  {
    hide BitsAt, LowBits, Window, FloorLog2, ShortCodes;
    var k, u := FloorLog2(n), ShortCodes(n);
    if v < u {
      LowBitsAt(buf, k0, v, k);
    } else {
      var x, y := (v + u) / 2, (v + u) % 2;
      assert Pow2(1) == 2;
      BitsAtConcat(buf, k0, LowBits(x, k), LowBits(y, 1));
      LowBitsAt(buf, k0, x, k);
      LowBitsAt(buf, k0 + k, y, 1);
      assert x >= u;
    }
  }

  lemma {:induction false} UnaryAt(buf: seq<Byte>, k: nat, q: nat)
    ensures BitsAt(buf, k, Repeated(1, q) + [0]) <==> Ones(buf, k) == q
  {
    var s := Repeated(1, q) + [0];
    if Ones(buf, k) == q {
      forall i | 0 <= i < |s|
        ensures Bit(buf, k + i) == s[i]
      {
        OnesAre(buf, k, i);
      }
    }
    if BitsAt(buf, k, s) {
      var o := Ones(buf, k);
      OnesAre(buf, k, o);
      OnesAre(buf, k, q);
      assert s[q] == 0 && Bit(buf, k + q) == s[q];
      assert o < |s| ==> Bit(buf, k + o) == s[o];
    }
  }

  lemma SameSplit(p: nat, q: nat, r: nat, o: nat, x: nat)
    requires r < p && x < p
    ensures p * q + r == p * o + x <==> q == o && r == x
  {
    DivModOf(p * q + r, p, q, r);
    DivModOf(p * o + x, p, o, x);
  }

  /** Reading a Rice code gives back the number it stands for. */
  lemma RiceInverse(buf: seq<Byte>, k0: nat, v: nat, m: nat)
    ensures BitsAt(buf, k0, RiceCode(v, m)) <==> ReadRice(buf, k0, m).0 == v
    ensures ReadRice(buf, k0, m).0 == v ==> ReadRice(buf, k0, m).1 == |RiceCode(v, m)|
  {
    hide Ones, Window, BitsAt, LowBits, Pow2, Quotient, Remainder;
    var q, r := Quotient(v, Pow2(m)), Remainder(v, Pow2(m));
    BitsAtConcat(buf, k0, Repeated(1, q) + [0], LowBits(r, m));
    UnaryAt(buf, k0, q);
    LowBitsAt(buf, k0 + (q + 1), r, m);
    var o := Ones(buf, k0);
    var x := Window(buf, k0 + o + 1, m);
    SameSplit(Pow2(m), q, r, o, x);
  }

  // ---------------------------------------------------------------- the reader

  const WORD := 0x1_0000_0000

  /** `c << size` on 32-bit words. */
  function Shl(c: nat, size: nat): (r: nat) {
    Pow2(size) * c % WORD
  }

  lemma PowersUpTo32()
    ensures Pow2(0) == 1 && Pow2(1) == 2 && Pow2(8) == 256 && Pow2(16) == 65536 && Pow2(24) == 0x100_0000
    ensures Pow2(25) == 0x200_0000 && Pow2(32) == WORD
  {
    assert Pow2(8) == 256;
    Pow2Add(8, 8);
    Pow2Add(16, 8);
    Pow2Add(16, 16);
    assert Pow2(25) == 2 * Pow2(24);
  }

  lemma ByteFits(c: nat, size: nat)
    requires c < 256 && size <= 24
    ensures Shl(c, size) == Pow2(size) * c
  {
    hide Pow2;
    PowersUpTo32();
    Pow2Monotone(size, 24);
    MulLe(Pow2(size), Pow2(24), c, 255);
    SmallMod(Pow2(size) * c);
  }

  /** What `decode_vlc` reads from bit `k` on, with `v` gathered so far and the next group going to bit `ofs`: the word
      and the position behind it. */
  function ReadVlc(buf: seq<Byte>, k: nat, c: nat, v: nat, ofs: nat): (nat, nat)
    requires c > 0 && ofs < 32
    decreases 32 - ofs
  {
    var s := Window(buf, k, c + 1);
    var v' := (v + Shl(s % Pow2(c), ofs)) % WORD;
    if s / Pow2(c) == 0 || ofs + c >= 32 then (v', k + c + 1) else ReadVlc(buf, k + c + 1, c, v', ofs + c)
  }

  /** The first group of a code, as a number: its payload, and above it the continuation bit. */
  lemma VlcGroup(buf: seq<Byte>, k: nat, x: nat, c: nat)
    requires c > 0 && BitsAt(buf, k, VlcCode(x, c))
    ensures var p, s := Pow2(c), Window(buf, k, c + 1);
            if x < p then s % p == x && s / p == 0 && |VlcCode(x, c)| == c + 1
            else
              && s % p == Remainder(x, p) && s / p == 1
              && BitsAt(buf, k + c + 1, VlcCode(Quotient(x, p), c))
              && |VlcCode(x, c)| == c + 1 + |VlcCode(Quotient(x, p), c)|
  {
    var p := Pow2(c);
    if x < p {
      GroupAt(buf, k, x, 0, [], c);
    } else {
      GroupAt(buf, k, Remainder(x, p), 1, VlcCode(Quotient(x, p), c), c);
    }
  }

  lemma GroupAt(buf: seq<Byte>, k: nat, r: nat, more: nat, rest: seq<nat>, c: nat)
    requires r < Pow2(c) && BitsAt(buf, k, LowBits(r, c) + [more] + rest)
    ensures Window(buf, k, c + 1) % Pow2(c) == r && Window(buf, k, c + 1) / Pow2(c) == more
    ensures BitsAt(buf, k + c + 1, rest)
  {
    hide Pow2, Window, BitsAt, LowBits;
    BitsAtConcat(buf, k, LowBits(r, c) + [more], rest);
    BitsAtConcat(buf, k, LowBits(r, c), [more]);
    LowBitsAt(buf, k, r, c);
    OneBit(buf, k + c, more);
    WindowSplit(buf, k, c, 1);
    DivModOf(Window(buf, k, c + 1), Pow2(c), more, r);
  }

  lemma OneBit(buf: seq<Byte>, k: nat, b: nat)
    requires BitsAt(buf, k, [b])
    ensures Window(buf, k, 1) == b
  {
    assert Bit(buf, k + 0) == [b][0];
    assert Window(buf, k + 1, 0) == 0;
  }

  lemma VlcSum(ofs: nat, c: nat, v: nat, q: nat, r: nat)
    requires v < Pow2(ofs) && r < Pow2(c)
    ensures v + Pow2(ofs) * r < Pow2(ofs + c)
    ensures v + Pow2(ofs) * r + Pow2(ofs + c) * q == v + Pow2(ofs) * (Pow2(c) * q + r)
    ensures q >= 1 ==> Pow2(ofs + c) <= Pow2(ofs) * (Pow2(c) * q + r)
  {
    Pow2Add(ofs, c);
    hide Pow2;
    MulLe(Pow2(ofs), Pow2(ofs), r + 1, Pow2(c));
    MulAssoc(Pow2(ofs), Pow2(c), q);
    assert Pow2(ofs) * (Pow2(c) * q + r) == Pow2(ofs) * (Pow2(c) * q) + Pow2(ofs) * r;
    if q >= 1 {
      MulLe(Pow2(ofs + c), Pow2(ofs + c), 1, q);
    }
  }

  /** Reading a variable-length code gives back every 32-bit word. */
  lemma {:induction false} VlcInverse(buf: seq<Byte>, k: nat, x: nat, c: nat, v: nat, ofs: nat)
    requires c > 0 && ofs < 32 && v < Pow2(ofs) && v + Pow2(ofs) * x < WORD
    requires BitsAt(buf, k, VlcCode(x, c))
    ensures ReadVlc(buf, k, c, v, ofs) == (v + Pow2(ofs) * x, k + |VlcCode(x, c)|)
    decreases x
  {
    hide Pow2, Window, BitsAt, VlcCode, Shl, Quotient, Remainder;
    VlcGroup(buf, k, x, c);
    Pow2Step(c);
    if x < Pow2(c) {
      ShlExact(v, ofs, x);
    } else {
      var q, r := Quotient(x, Pow2(c)), Remainder(x, Pow2(c));
      QuotientPositive(x, Pow2(c));
      VlcSum(ofs, c, v, q, r);
      OffsetBelow32(ofs + c);
      ShlExact(v, ofs, r);
      VlcInverse(buf, k + c + 1, q, c, v + Pow2(ofs) * r, ofs + c);
    }
  }

  lemma QuotientPositive(x: nat, p: nat)
    requires p >= 2 && x >= p
    ensures 1 <= Quotient(x, p) < x
  {
    QuotientSmaller(x, p);
    assert p * 0 == 0;
  }

  lemma OffsetBelow32(n: nat)
    requires Pow2(n) < WORD
    ensures n < 32
  {
    PowersUpTo32();
    if n >= 32 {
      Pow2Monotone(32, n);
    }
  }

  lemma ShlExact(v: nat, ofs: nat, r: nat)
    requires v + Pow2(ofs) * r < WORD
    ensures (v + Shl(r, ofs)) % WORD == v + Pow2(ofs) * r
  {
    SmallMod(Pow2(ofs) * r);
    SmallMod(v + Pow2(ofs) * r);
  }

  lemma SmallMod(x: nat)
    requires x < WORD
    ensures x % WORD == x
  {
  }

  class BitwiseDecoder {
    const buf: seq<Byte>
    var pos: nat
    var bitBuf: nat
    var bitBufSize: nat
    /** How many bits of the bit string have been consumed. */
    ghost var at: nat

    ghost predicate Valid()
      reads this
    {
      && pos <= |buf| && bitBufSize <= 32 && bitBuf == Window(buf, at, bitBufSize)
      && (at + bitBufSize) % 8 == 0
      && (if pos < |buf| then at + bitBufSize == 8 * pos else at + bitBufSize >= 8 * pos)
    }

    constructor (buf: seq<Byte>)
      ensures Valid() && this.buf == buf && at == 0
    {
      this.buf := buf;
      pos, bitBuf, bitBufSize, at := 0, 0, 0, 0;
    }

    /** Refills the bit buffer, with zeros behind the end, until it holds `n` bits. */
    method Fill(n: nat)
      requires Valid() && n <= 25
      modifies this
      ensures Valid() && at == old(at) && bitBufSize >= n
    {
      hide Window, Pow2;
      while bitBufSize < n
        invariant Valid() && at == old(at)
        decreases n - bitBufSize
      {
        var c := 0;
        ghost var i := (at + bitBufSize) / 8;
        assert 8 * i == at + bitBufSize;
        AppendByte(buf, at, bitBufSize, i);
        if pos < |buf| {
          c := buf[pos];
          pos := pos + 1;
        }
        ByteFits(c, bitBufSize);
        bitBuf := bitBuf + Shl(c, bitBufSize);
        bitBufSize := bitBufSize + 8;
      }
    }

    /** `peek_bits`: the next bits, without consuming them. */
    method PeekBits(n: nat) returns (bits: nat)
      requires Valid() && n <= 25
      modifies this
      ensures Valid() && at == old(at) && bitBufSize >= n
      ensures bits == Window(buf, at, n)
    {
      if n == 0 {
        return 0;
      }
      Fill(n);
      WindowCut(buf, at, bitBufSize, n);
      return bitBuf % Pow2(n);
    }

    /** `remove_bits`. */
    method RemoveBits(n: nat)
      requires Valid() && n <= bitBufSize
      modifies this
      ensures Valid() && at == old(at) + n && bitBufSize == old(bitBufSize) - n
    {
      WindowCut(buf, at, bitBufSize, n);
      hide Window, Pow2;
      bitBuf := bitBuf / Pow2(n);
      bitBufSize := bitBufSize - n;
      at := at + n;
    }

    /** `get_bits`: any width up to 32, read in two parts when it exceeds 25. */
    method GetBits(n: nat) returns (bits: nat)
      requires Valid() && n <= 32
      modifies this
      ensures Valid() && at == old(at) + n && bits == Window(buf, old(at), n)
    {
      hide Window, Pow2;
      if n > 25 {
        var bits0 := PeekBits(25);
        RemoveBits(25);
        var rest := PeekBits(n - 25);
        RemoveBits(n - 25);
        WindowSplit(buf, old(at), 25, n - 25);
        return bits0 + Pow2(25) * rest;
      }
      bits := PeekBits(n);
      RemoveBits(n);
    }

    /** `decode_truncated_binary`. */
    method DecodeTruncatedBinary(n: nat) returns (v: int)
      requires Valid() && 2 <= n < 0x8000_0000
      modifies this
      ensures Valid() && (v, at - old(at)) == ReadTruncatedBinary(buf, old(at), n)
    {
      hide Window, Pow2, FloorLog2, ShortCodes;
      LogBelow32(n);
      var k := FloorLog2(n);
      var u := Pow2(k + 1) - n;
      v := GetBits(k);
      if v >= u {
        var b := GetBits(1);
        v := v * 2 + b - u;
      }
    }

    /** The loop of `decode_rice`: counts ones in chunks of up to 16 and stops in front of the first zero. */
    method ReadUnary() returns (q: nat)
      requires Valid()
      modifies this
      ensures Valid() && q == Ones(buf, old(at)) && at == old(at) + q && Bit(buf, at) == 0
    {
      hide Window, Pow2, Ones, Bit;
      q := 0;
      ghost var at0 := at;
      while true
        invariant Valid() && at == at0 + q && Ones(buf, at0) == q + Ones(buf, at)
        decreases Ones(buf, at)
      {
        var k := PeekBits(16);
        var l := CountOnes(buf, at, k);
        OnesSkip(buf, at, l);
        q := q + l;
        RemoveBits(l);
        if l < 16 {
          break;
        }
      }
      OnesAre(buf, at0, q);
    }

    /** `decode_rice`; the result is a 32-bit word. */
    method DecodeRice(m: nat) returns (v: nat)
      requires Valid() && 1 <= m <= 31
      modifies this
      ensures Valid() && at - old(at) == ReadRice(buf, old(at), m).1
      ensures v == ReadRice(buf, old(at), m).0 % WORD
    {
      hide Window, Pow2, Shl, Ones, Bit, RiceValue;
      var q := ReadUnary();
      HalfOfWindow(buf, at, m);
      ShiftedSum(q, m, Window(buf, at + 1, m));
      var r := GetBits(m + 1);
      v := (Shl(q, m) + r / 2) % WORD;
    }

    /** `decode_huffman`: the symbol whose codeword stands next in the stream. In a complete code there always is one.
        With a single used symbol there may be other bits; they are read as symbol 0, and at most the zeros before the
        first one and that one are consumed. */
    method DecodeHuffman(table: HuffmanTable.HuffmanDecodingTable, fast: nat, ghost lens: seq<nat>) returns (sym: int)
      requires Valid() && 1 <= fast <= 16 && table.Built(lens, fast)
      requires HuffmanTree.Complete(lens) || StartsWithCode(lens, buf, at)
               || HuffmanLone.StaysInside(lens, fast, Window(buf, at, 16))
      modifies this
      ensures Valid() && 0 <= sym < |lens|
      ensures HuffmanTree.Complete(lens) ==> StartsWithCode(lens, buf, old(at))
      ensures var w := Window(buf, old(at), 16);
              if StartsWithCode(lens, buf, old(at)) then
                && Canonical.IsPrefix(lens, sym, w) && at == old(at) + lens[sym]
                && forall s :: 0 <= s < |lens| && Canonical.IsPrefix(lens, s, w) ==> s == sym
              else
                && sym == 0
                && forall i :: 0 <= i < |lens| && lens[i] > 0 ==>
                  at == old(at) + HuffmanLone.StrayLength(lens[i], fast, w)
    {
      assert HuffmanTree.Decodable(lens);
      hide Window, Pow2, HuffmanTree.Decodable, HuffmanTree.Complete, HuffmanTree.Tables, Canonical.IsPrefix;
      hide HuffmanLone.StrayLength, HuffmanLone.StaysInside, HuffmanTree.Lone, StartsWithCode;
      Fill(16);
      ghost var i := NextCode(lens, fast, buf, at, bitBufSize);
      var codeLen;
      codeLen, sym := FindSymbol(table, fast, lens, i);
      RemoveBits(codeLen);
    }

    /** The symbol and its length, from the lookup table or, for a long codeword, from the tree. */
    method FindSymbol(table: HuffmanTable.HuffmanDecodingTable, fast: nat, ghost lens: seq<nat>, ghost i: nat)
      returns (codeLen: nat, sym: int)
      requires fast >= 1 && table.Built(lens, fast) && HuffmanLone.Readable(lens, i, fast, bitBuf)
      ensures HuffmanLone.Outcome(lens, i, fast, bitBuf, codeLen, sym)
    {
      assert HuffmanTree.Decodable(lens);
      hide Pow2, HuffmanTree.Decodable, HuffmanTree.Tables, HuffmanTree.AtNode, Canonical.IsPrefix, HuffmanTree.Lone;
      ghost var j := HuffmanLone.LookupSays(lens, i, fast, table.nodes, table.lookup, table.tree, bitBuf);
      sym := table.lookup[bitBuf % Pow2(fast)];
      if sym >= 0 {
        codeLen, sym := sym / 65536, sym % 65536;
      } else {
        codeLen, sym := WalkDown(table, fast, sym, lens, i, j);
      }
    }

    /** The walk down the tree in `decode_huffman`. */
    method WalkDown(table: HuffmanTable.HuffmanDecodingTable, fast: nat, root: int, ghost lens: seq<nat>, ghost i: nat,
                    ghost j: nat) returns (codeLen: nat, sym: int)
      requires fast >= 1 && table.Built(lens, fast) && HuffmanLone.Readable(lens, i, fast, bitBuf)
      requires HuffmanLone.OnWay(lens, i, fast, table.nodes, bitBuf, fast, j, root)
      ensures HuffmanLone.Outcome(lens, i, fast, bitBuf, codeLen, sym)
    {
      assert i < |lens|;
      assert HuffmanTree.Tables(lens, |lens|, |lens|, fast, table.nodes, table.lookup, table.tree);
      hide *;
      ghost var at := j;
      codeLen, sym := fast, root;
      HuffmanLone.WayIsOn(lens, i, fast, table.nodes, bitBuf, codeLen, at, sym);
      while sym < 0
        invariant sym < 0 ==> HuffmanLone.OnWay(lens, i, fast, table.nodes, bitBuf, codeLen, at, sym)
        invariant sym < 0 ==> codeLen < lens[i]
        invariant sym >= 0 ==> HuffmanLone.Outcome(lens, i, fast, bitBuf, codeLen, sym)
        decreases sym < 0, lens[i] - codeLen
      {
        at := HuffmanLone.WayStep(lens, i, fast, table.nodes, table.lookup, table.tree, bitBuf, codeLen, at, sym);
        sym := table.tree[HuffmanTree.TreeIndex(sym, bitBuf, codeLen)];
        codeLen := codeLen + 1;
      }
    }

    /** `decode_vlc`: stops at the first group without a continuation bit, or when 32 bits have been gathered. */
    method DecodeVlc(c: nat) returns (v: nat)
      requires Valid() && 1 <= c <= 31
      modifies this
      ensures Valid() && (v, at) == ReadVlc(buf, old(at), c, 0, 0)
    {
      hide Window, Pow2, Shl;
      v := 0;
      var ofs := 0;
      while true
        invariant Valid() && ofs < 32
        invariant ReadVlc(buf, at, c, v, ofs) == ReadVlc(buf, old(at), c, 0, 0)
        decreases 32 - ofs
      {
        var s := GetBits(c + 1);
        v := (v + Shl(s % Pow2(c), ofs)) % WORD;
        ofs := ofs + c;
        if s / Pow2(c) == 0 {
          break;
        }
        if ofs >= 32 {
          break;
        }
      }
    }
  }

  /** Some codeword stands next in the stream. */
  ghost predicate StartsWithCode(lens: seq<nat>, buf: seq<Byte>, k: nat) {
    exists s :: 0 <= s < |lens| && Canonical.IsPrefix(lens, s, Window(buf, k, 16))
  }

  /** The codeword that stands next in the stream; in a complete code there is one whatever the bits are. If there is
      none, the single used symbol. What decoding says depends on 16 bits only. */
  lemma NextCode(lens: seq<nat>, fast: nat, buf: seq<Byte>, k: nat, n: nat) returns (i: nat)
    requires HuffmanTree.Decodable(lens) && n >= 16 && fast <= 16
    requires HuffmanTree.Complete(lens) || StartsWithCode(lens, buf, k)
             || HuffmanLone.StaysInside(lens, fast, Window(buf, k, 16))
    ensures HuffmanTree.Complete(lens) ==> StartsWithCode(lens, buf, k)
    ensures HuffmanLone.Readable(lens, i, fast, Window(buf, k, n)) && lens[i] <= 16
    ensures StartsWithCode(lens, buf, k) <==> Canonical.IsPrefix(lens, i, Window(buf, k, 16))
    ensures Canonical.IsPrefix(lens, i, Window(buf, k, n)) <==> Canonical.IsPrefix(lens, i, Window(buf, k, 16))
    ensures forall s :: 0 <= s < |lens| && Canonical.IsPrefix(lens, s, Window(buf, k, 16)) ==> s == i
    ensures !StartsWithCode(lens, buf, k) ==> forall s :: 0 <= s < |lens| && lens[s] > 0 ==> s == i
    ensures HuffmanLone.StrayLength(lens[i], fast, Window(buf, k, n)) ==
            HuffmanLone.StrayLength(lens[i], fast, Window(buf, k, 16))
  {
    hide Window, Pow2, Canonical.Kraft, Canonical.RevCode, HuffmanTree.Lone;
    var w := Window(buf, k, 16);
    if HuffmanTree.Complete(lens) {
      i := Canonical.PrefixExists(lens, w);
    } else if StartsWithCode(lens, buf, k) {
      i :| 0 <= i < |lens| && Canonical.IsPrefix(lens, i, w);
    } else {
      i := HuffmanLone.LoneExists(lens);
      forall s: nat | s < |lens| && lens[s] > 0
        ensures s == i
      {
        HuffmanTree.LoneSymbol(lens, s, i);
      }
    }
    WindowCut(buf, k, n, lens[i]);
    WindowCut(buf, k, 16, lens[i]);
    WindowCut(buf, k, n, fast);
    WindowCut(buf, k, 16, fast);
    HuffmanLone.StrayAlike(lens[i], fast, Window(buf, k, n), w);
    if Canonical.IsPrefix(lens, i, w) {
      OnlyOne(lens, w, i);
    }
  }

  lemma OnlyOne(lens: seq<nat>, w: nat, i: nat)
    requires HuffmanTree.Decodable(lens) && i < |lens| && Canonical.IsPrefix(lens, i, w)
    ensures forall s :: 0 <= s < |lens| && Canonical.IsPrefix(lens, s, w) ==> s == i
  {
    hide Canonical.IsPrefix;
    HuffmanTree.DecodableFits(lens);
    forall s: nat | s < |lens| && Canonical.IsPrefix(lens, s, w)
      ensures s == i
    {
      Canonical.PrefixUnique(lens, s, i, w);
    }
  }

  lemma LogBelow32(n: nat)
    requires 2 <= n < WORD
    ensures FloorLog2(n) <= 31 && Pow2(FloorLog2(n) + 1) - n == ShortCodes(n)
  {
    FloorLog2Bounds(n);
    PowersUpTo32();
    if FloorLog2(n) >= 32 {
      Pow2Monotone(32, FloorLog2(n));
    }
  }

  lemma ShiftedSum(q: nat, m: nat, r: nat)
    ensures (Shl(q, m) + r) % WORD == RiceValue(q, m, r) % WORD
  {
    hide Pow2;
    SumOfWords(Pow2(m) * q, r);
  }

  lemma SumOfWords(a: nat, b: nat)
    ensures (a % WORD + b) % WORD == (a + b) % WORD
  {
  }

  lemma HalfOfWindow(buf: seq<Byte>, k: nat, m: nat)
    requires Bit(buf, k) == 0
    ensures Window(buf, k, m + 1) / 2 == Window(buf, k + 1, m)
  {
  }

  /** `q` of the ones are behind us. */
  lemma {:induction false} OnesSkip(buf: seq<Byte>, k: nat, l: nat)
    requires l <= Ones(buf, k)
    ensures Ones(buf, k) == l + Ones(buf, k + l)
    decreases l
  {
    if l > 0 {
      OnesSkip(buf, k + 1, l - 1);
    }
  }

  /** The inner loop of `decode_rice`: trailing ones of the bits peeked. */
  method CountOnes(ghost buf: seq<Byte>, ghost k: nat, peeked: nat) returns (l: nat)
    requires peeked == Window(buf, k, 16)
    ensures l <= Ones(buf, k) && l <= 16 && (l < 16 ==> l == Ones(buf, k))
  {
    hide Window, Ones, Bit, Pow2;
    l := 0;
    var x := peeked;
    WindowStep(buf, k, 16, x);
    while x % 2 == 1
      invariant l <= 16 && x == Window(buf, k + l, 16 - l) && (x % 2 == 1 ==> l < 16)
      invariant Ones(buf, k) == l + Ones(buf, k + l)
      invariant l < 16 && x % 2 == 0 ==> Ones(buf, k + l) == 0
      decreases 16 - l
    {
      WindowStep(buf, k + l, 16 - l, x);
      l, x := l + 1, x / 2;
      WindowStep(buf, k + l, 16 - l, x);
    }
  }

  /** The lowest digit of a window is its first bit; the others are the rest. */
  lemma WindowStep(buf: seq<Byte>, k: nat, n: nat, x: nat)
    requires x == Window(buf, k, n)
    ensures n == 0 ==> x == 0
    ensures n > 0 ==> x / 2 == Window(buf, k + 1, n - 1)
    ensures n > 0 && x % 2 == 0 ==> Ones(buf, k) == 0
    ensures n > 0 && x % 2 == 1 ==> Ones(buf, k) == 1 + Ones(buf, k + 1)
  {
  }
}
