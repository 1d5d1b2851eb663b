/** stb_image's inflate: the bit buffer, Huffman decoding, and the expansion of a compressed block. */
module Inflate {
  import opened BitReversal
  import opened Bits
  import opened Bytes
  import opened Canonical
  import opened Options
  import opened Powers
  import opened ZHuffman

  // ---------------------------------------------------------------- decoding one symbol, on bit strings

  lemma PrefixOfLow(lens: seq<nat>, i: nat, w: nat, m: nat)
    requires i < |lens| && lens[i] <= m
    ensures IsPrefix(lens, i, w % Pow2(m)) <==> IsPrefix(lens, i, w)
  {
    ModMod(w, lens[i], m);
  }

  /** What a decoder must deliver for the stream bits `w`: the symbol whose codeword they start with, or -1. */
  ghost predicate Decodes(lens: seq<nat>, w: nat, sym: int) {
    if sym >= 0 then sym < |lens| && IsPrefix(lens, sym, w)
    else sym == -1 && forall i :: 0 <= i < |lens| ==> !IsPrefix(lens, i, w)
  }

  lemma FastSize()
    ensures Pow2(9) == FAST_SIZE
  {
  }

  lemma FastValueParts(l: nat, i: nat)
    requires i < 512
    ensures (l * 512 + i) % 512 == i && (l * 512 + i) / 512 == l
  {
  }

  /** A non-zero fast entry names the symbol. */
  lemma FastDecodes(lens: seq<nat>, w: nat, v: nat)
    requires SizeList(lens) && FastEntry(lens, |lens|, w % FAST_SIZE, v) && v != 0
    ensures Decodes(lens, w, v % 512) && lens[v % 512] == v / 512
  {
    hide IsPrefix, Pow2;
    var i :| 0 <= i < |lens| && ShortAt(lens, i, w % FAST_SIZE) && v == FastValue(lens, i);
    FastSize();
    FastValueParts(lens[i], i);
    PrefixOfLow(lens, i, w, 9);
  }

  /** With a zero fast entry, the reversed bits lie behind all short codewords. */
  lemma NotFast(lens: seq<nat>, w: nat)
    requires SizeList(lens) && Lengths(lens) && Kraft(lens) <= Pow2(W) && FastEntry(lens, |lens|, w % FAST_SIZE, 0)
    ensures Rev(w, W) >= Start(lens, 10)
  {
    if Rev(w, W) < Start(lens, 10) {
      hide Start, Covers, Kraft, IsPrefix, Rev, Pow2, Lengths;
      var i := CoverExists(lens, 10, Rev(w, W));
      PrefixIsCover(lens, i, w);
      NotFastContradiction(lens, w, i);
    }
  }

  lemma NotFastContradiction(lens: seq<nat>, w: nat, i: nat)
    requires i < |lens| && lens[i] <= FAST_BITS && FastEntry(lens, |lens|, w % FAST_SIZE, 0)
    ensures !IsPrefix(lens, i, w)
  {
    FastSize();
    PrefixOfLow(lens, i, w, 9);
    assert !ShortAt(lens, i, w % FAST_SIZE);
  }

  /** The symbol the slow path finds at length `s`. */
  lemma SlowDecodes(lens: seq<nat>, w: nat, s: nat) returns (i: nat)
    requires Lengths(lens) && Kraft(lens) <= Pow2(W) && 1 <= s <= 15
    requires Start(lens, s) <= Rev(w, W) < Start(lens, s + 1)
    ensures i < |lens| && lens[i] == s && IsPrefix(lens, i, w)
    ensures Place(lens, i) == Quotient(Rev(w, W), Pow2(W - s)) - First(lens, s) + FirstSymbol(lens, s)
  {
    hide Span, Count, Rev, Pow2, Quotient, Start, First;
    var k := Rev(w, W);
    StartNext(lens, s);
    var r := TileOf(k - Start(lens, s), s, Count(lens, |lens|, s));
    i := RankExists(lens, |lens|, s, r);
    TilePlace(lens, i);
    PrefixIsCover(lens, i, w);
    SpanQuotient(Code(lens, i), s, k);
  }

  lemma StartNext(lens: seq<nat>, s: nat)
    requires 1 <= s <= W
    ensures Start(lens, s + 1) == Start(lens, s) + Span(Count(lens, |lens|, s), s)
  {
  }

  lemma SpanQuotient(c: nat, s: nat, k: nat)
    requires s <= W && Span(c, s) <= k < Span(c + 1, s)
    ensures Quotient(k, Pow2(W - s)) == c
  {
    SpanFacts(c, 1, s);
    DivModOf(k, Pow2(W - s), c, k - Span(c, s));
  }

  /** Bits at or behind the Kraft sum start with no codeword. */
  lemma NothingDecodes(lens: seq<nat>, w: nat)
    requires Lengths(lens) && Kraft(lens) <= Pow2(W) && Rev(w, W) >= Kraft(lens)
    ensures Decodes(lens, w, -1)
  {
    hide Kraft, Covers, IsPrefix, Rev, Pow2;
    forall i | 0 <= i < |lens|
      ensures !IsPrefix(lens, i, w)
    {
      PrefixIsCover(lens, i, w);
      if Covers(lens, i, Rev(w, W)) {
        CoversPlace(lens, i, Rev(w, W));
      }
    }
  }

  // ---------------------------------------------------------------- fetching bits

  /** How far bits have been fetched into the bit buffer, and whether the padding of 16 bits has been added. */
  datatype Fetch = Fetch(held: int, padded: bool)

  /** How many bits a refilled buffer holds that held `n`: whole bytes are added until there are more than 24. */
  function FillTo(n: int): int {
    n + 8 * ((32 - n) / 8)
  }

  lemma FillToStep(n: int)
    requires 0 <= n <= 24
    ensures FillTo(n + 8) == FillTo(n) && 24 < FillTo(n) <= 32
    ensures n > 16 ==> FillTo(n) == n + 8
  {
  }

  function Refilled(f: Fetch, at: nat): Fetch {
    f.(held := at + FillTo(f.held - at))
  }

  /** The state after making 16 bits available at bit `at` of an input of `size` bits, before a symbol is decoded:
      behind the end the buffer is padded once, and the second time decoding fails. */
  function ForSymbol(f: Fetch, at: nat, size: nat): Option<Fetch> {
    if f.held - at >= 16 then Some(f)
    else if f.held < size then Some(Refilled(f, at))
    else if f.padded then None
    else Some(Fetch(f.held + 16, true))
  }

  /** The state after making `n` bits available. */
  function ForBits(f: Fetch, at: nat, n: nat): Fetch {
    if f.held - at >= n then f else Refilled(f, at)
  }

  // ---------------------------------------------------------------- the bit buffer

  class BitReader {
    const zbuffer: seq<Byte>
    var pos: nat
    var numBits: nat
    var hitZeofOnce: bool
    var codeBuffer: nat
    /** How many bits of the stream have been consumed. */
    ghost var at: nat

    /** The code buffer holds the next `numBits` bits of the stream; bits behind the end are zero. */
    ghost predicate Valid()
      reads this
    {
      && pos <= |zbuffer| && numBits <= 32 && codeBuffer == Window(zbuffer, at, numBits)
      && (at + numBits) % 8 == 0
      && (if pos < |zbuffer| then at + numBits == 8 * pos else at + numBits >= 8 * pos)
      && (hitZeofOnce ==> pos == |zbuffer| && at + numBits >= 8 * pos + 16)
    }

    /** How far the input has been fetched. */
    ghost function Fetched(): Fetch
      reads this
    {
      Fetch(at + numBits, hitZeofOnce)
    }

    constructor (zbuffer: seq<Byte>)
      ensures Valid() && at == 0 && this.zbuffer == zbuffer && Fetched() == Fetch(0, false) && fresh(this)
    {
      this.zbuffer := zbuffer;
      pos, numBits, hitZeofOnce, codeBuffer, at := 0, 0, false, 0, 0;
    }

    /** `stbi__zeof`. */
    predicate Eof()
      requires pos <= |zbuffer|
      reads this
    {
      pos >= |zbuffer|
    }

    /** `stbi__fill_bits`. The code buffer never exceeds its bits, so the source's guard against that is not taken. */
    method FillBits()
      requires Valid() && numBits <= 24
      modifies this
      ensures Valid() && at == old(at) && numBits > 24 && Fetched() == Refilled(old(Fetched()), at)
    {
      hide Window, Pow2, FillTo;
      while true
        invariant Valid() && at == old(at) && numBits <= 24 && hitZeofOnce == old(hitZeofOnce)
        invariant FillTo(numBits) == FillTo(old(numBits))
        decreases 32 - numBits
      {
        FillToStep(numBits);
        assert codeBuffer < Pow2(numBits);
        var c := 0;
        AppendByte(zbuffer, at, numBits, (at + numBits) / 8);
        if !Eof() {
          c := zbuffer[pos];
          pos := pos + 1;
        }
        codeBuffer := codeBuffer + Pow2(numBits) * c;
        numBits := numBits + 8;
        if numBits > 24 {
          break;
        }
      }
    }

    /** Drops `n` bits from the buffer. */
    method Drop(n: nat)
      requires Valid() && n <= numBits
      modifies this`codeBuffer, this`numBits, this`at
      ensures Valid() && at == old(at) + n && numBits == old(numBits) - n && Fetched() == old(Fetched())
    {
      hide Window, Pow2;
      WindowCut(zbuffer, at, numBits, n);
      codeBuffer := codeBuffer / Pow2(n);
      numBits := numBits - n;
      at := at + n;
    }

    /** `stbi__zreceive`. */
    method Receive(n: nat) returns (k: nat)
      requires Valid() && n <= 16
      modifies this
      ensures Valid() && at == old(at) + n && k == Window(zbuffer, old(at), n)
      ensures Fetched() == ForBits(old(Fetched()), old(at), n)
    {
      if numBits < n {
        FillBits();
      }
      WindowCut(zbuffer, at, numBits, n);
      hide Window, Pow2;
      k := codeBuffer % Pow2(n);
      Drop(n);
    }

    /** The stream has run out twice: nothing more can be decoded. */
    ghost predicate Exhausted()
      reads this
    {
      numBits < 16 && pos >= |zbuffer| && hitZeofOnce
    }

    /** `stbi__zhuffman_decode_slowpath`. */
    method DecodeSlow(z: ZHuffman, ghost lens: seq<nat>) returns (sym: int)
      requires Valid() && numBits >= 16 && z.TablesFor(lens) && z.fast[codeBuffer % FAST_SIZE] == 0
      modifies this`codeBuffer, this`numBits, this`at
      ensures Valid() && Decodes(lens, old(codeBuffer), sym)
      ensures at == old(at) + if sym >= 0 then lens[sym] else 0
      ensures Fetched() == old(Fetched())
    {
      hide Window, Pow2, Start, First, FirstSymbol, Count, Rev, Kraft, IsPrefix, Quotient, Decodes;
      assert FastEntry(lens, |lens|, codeBuffer % FAST_SIZE, 0);
      NotFast(lens, codeBuffer);
      KraftAt16(lens);
      var k := BitReverse(codeBuffer, 16);
      BitReverseIsRev(codeBuffer, 16);
      ReversedFits(codeBuffer);
      var s := FAST_BITS + 1;
      while s < 16 && k >= z.maxCode[s]
        invariant 10 <= s <= 16 && Start(lens, s) <= k
      {
        s := s + 1;
      }
      if s >= 16 {
        NothingDecodes(lens, codeBuffer);
        return -1;
      }
      ghost var i := SlowDecodes(lens, codeBuffer, s);
      PlaceBounds(lens, i);
      var b := Quotient(k, Pow2(16 - s)) - z.firstCode[s] + z.firstSymbol[s];
      assert b == Place(lens, i);
      assert b < NSYMS && z.size[b] == s && z.value[b] == i;
      DecodesThis(lens, codeBuffer, i);
      Drop(s);
      return z.value[b];
    }

    /** The first part of `stbi__zhuffman_decode`: makes 16 bits available, padding once at the end of the input. */
    method Ensure16() returns (ok: bool)
      requires Valid()
      modifies this
      ensures Valid() && at == old(at) && ok == !old(Exhausted()) && (ok ==> numBits >= 16)
      ensures ForSymbol(old(Fetched()), at, 8 * |zbuffer|) == if ok then Some(Fetched()) else None
      ensures !ok ==> Fetched() == old(Fetched())
    {
      hide Window, Pow2;
      if numBits < 16 {
        if Eof() {
          if !hitZeofOnce {
            Padding(zbuffer, at, numBits);
            hitZeofOnce := true;
            numBits := numBits + 16;
          } else {
            return false;
          }
        } else {
          FillBits();
        }
      }
      return true;
    }

    /** `stbi__zhuffman_decode`: fast table first, then the slow path. */
    method Decode(z: ZHuffman, ghost lens: seq<nat>) returns (sym: int)
      requires Valid() && z.TablesFor(lens)
      modifies this
      ensures Valid()
      ensures old(Exhausted()) ==> sym == -1
      ensures !old(Exhausted()) ==> Decodes(lens, Window(zbuffer, old(at), 16), sym)
      ensures at == old(at) + if sym >= 0 && !old(Exhausted()) then lens[sym] else 0
      ensures ForSymbol(old(Fetched()), old(at), 8 * |zbuffer|) == if old(Exhausted()) then None else Some(Fetched())
    {
      hide Window, Pow2, Decodes, Kraft;
      var ok := Ensure16();
      if !ok {
        return -1;
      }
      DecodesLow(lens, zbuffer, at, numBits);
      var b := z.fast[codeBuffer % FAST_SIZE];
      assert FastEntry(lens, |lens|, codeBuffer % FAST_SIZE, b);
      if b != 0 {
        FastDecodes(lens, codeBuffer, b);
        DecodedLength(lens, codeBuffer, b % 512);
        Drop(b / 512);
        return b % 512;
      }
      sym := DecodeSlow(z, lens);
    }
  }

  /** Padding adds zero bits, which is what stands behind the end anyway. */
  lemma Padding(buf: seq<Byte>, at: nat, n: nat)
    requires at + n >= 8 * |buf|
    ensures Window(buf, at, n + 16) == Window(buf, at, n)
  {
    hide Window, Pow2;
    WindowSplit(buf, at, n, 16);
    WindowBehindEnd(buf, at + n, 16);
  }

  lemma ReversedFits(w: nat)
    ensures Rev(w, 16) < 0x10000 == Pow2(16)
  {
    assert Pow2(8) == 256;
    Pow2Add(8, 8);
  }

  lemma DecodesThis(lens: seq<nat>, w: nat, i: nat)
    requires i < |lens| && IsPrefix(lens, i, w)
    ensures Decodes(lens, w, i)
  {
  }

  lemma DecodedLength(lens: seq<nat>, w: nat, sym: nat)
    requires SizeList(lens) && Decodes(lens, w, sym)
    ensures sym < |lens| && lens[sym] <= 15
  {
  }

  /** Decoding looks at 16 bits at most, however many the buffer holds. */
  lemma DecodesLow(lens: seq<nat>, buf: seq<Byte>, at: nat, n: nat)
    requires SizeList(lens) && n >= 16
    ensures forall sym :: Decodes(lens, Window(buf, at, n), sym) <==> Decodes(lens, Window(buf, at, 16), sym)
  {
    WindowCut(buf, at, n, 16);
    forall i | 0 <= i < |lens|
      ensures IsPrefix(lens, i, Window(buf, at, n)) <==> IsPrefix(lens, i, Window(buf, at, 16))
    {
      PrefixOfLow(lens, i, Window(buf, at, n), 16);
    }
  }
}
