/** Deflated blocks at the end of the input: how far an accepted block may reach past it, and blocks that do. */
module InflateEnd {
  import opened Bits
  import opened Bytes
  import opened Canonical
  import opened Inflate
  import opened InflateBlock
  import opened InflateInverse
  import opened Options
  import opened Powers
  import opened ZHuffman

  // ---------------------------------------------------------------- zeros behind the end

  /** Behind the input there are only zero bits; a block that gets there ends with the next symbol, or never. */
  lemma {:induction false} ZerosEnd(s: Stream, at: nat, size: nat, ts: seq<Token>, end: nat)
    requires at >= 8 * |s.buf| && Spells(s, at, size, ts, end)
    ensures SymbolAt(s.lit, 0) == 256 < |s.lit| && end == at + s.lit[256] && ts == []
    decreases |ts|
  {
    hide SymbolAt, ReadStep, Window, ReadMatchAt;
    WindowBehindEnd(s.buf, at, 16);
    StepIs(s, at, size);
    var step := ReadStep(s, at, size);
    if step.Next? {
      ZerosEnd(s, step.at, size + Growth(step.t), ts[1..], end);
    }
  }

  lemma {:induction false} RevZero(n: nat)
    ensures Rev(0, n) == 0
  {
    if n > 0 {
      RevZero(n - 1);
    }
  }

  /** If zeros are the end-of-block symbol, it is the first of the shortest codewords. */
  lemma ZeroIsFirst(lens: seq<nat>)
    requires Usable(lens) && 256 < |lens| && SymbolAt(lens, 0) == 256
    ensures 1 <= lens[256] <= 15 && Start(lens, lens[256]) == 0 && Count(lens, 256, lens[256]) == 0
  {
    hide Pow2, Rev, Count, First, Start, Kraft;
    var l := lens[256];
    RevZero(16);
    PrefixIsCover(lens, 256, 0);
    hide Span;
    FirstIsStart(lens, l);
    SpanPositive(Code(lens, 256), l);
  }

  lemma SpanPositive(n: nat, l: nat)
    requires l <= W
    ensures Span(n, l) >= n && Span(0, l) == 0
  {
    hide Weight;
    MulLe(n, n, 1, Weight(l));
  }

  // ---------------------------------------------------------------- few symbols, small Kraft sums

  lemma LightStart(c: nat, below: nat, w: nat)
    requires c <= below
    ensures 2 * (c * w) <= (below + c) * w
  {
    Distribute(w, below, c);
    MulLe(c, below, w, w);
  }

  lemma LightStep(a: nat, below: nat, c: nat, n: nat, v: nat, w: nat)
    requires 2 * a <= (below + c) * w && 2 * v <= w
    ensures 2 * (a + n * v) <= (below + n + c) * w
  {
    Distribute(w, below + c, n);
    MulLe(n, n, 2 * v, w);
    assert n * (2 * v) == 2 * (n * v);
  }

  lemma StartStep(lens: seq<nat>, l: nat)
    requires 1 <= l <= W
    ensures Start(lens, l + 1) == Start(lens, l) + Count(lens, |lens|, l) * Weight(l)
  {
  }

  /** Symbols longer than `k` weigh at most half as much as those of length `k`. */
  lemma {:induction false} LongSymbolsAreLight(lens: seq<nat>, k: nat, l: nat)
    requires 1 <= k < l <= W + 1 && Start(lens, k) == 0
    ensures 2 * Start(lens, l) <= (CountBelow(lens, |lens|, l) + Count(lens, |lens|, k)) * Weight(k)
    decreases l
  {
    hide Count, CountBelow, Weight, Start;
    StartStep(lens, l - 1);
    CountBelowStep(lens, |lens|, l - 1);
    if l == k + 1 {
      LightStart(Count(lens, |lens|, k), CountBelow(lens, |lens|, l), Weight(k));
    } else {
      LongSymbolsAreLight(lens, k, l - 1);
      LongIsLight(k, l - 1);
      LightStep(Start(lens, l - 1), CountBelow(lens, |lens|, l - 1), Count(lens, |lens|, k), Count(lens, |lens|, l - 1),
        Weight(l - 1), Weight(k));
    }
  }

  lemma LongIsLight(k: nat, l: nat)
    requires k < l <= W
    ensures 2 * Weight(l) <= Weight(k)
  {
    WeightHalves(l);
    Pow2Monotone(W - (l - 1), W - k);
  }

  lemma {:induction false} CountRest(lens: seq<nat>, a: nat, b: nat, l: nat)
    requires a <= b <= |lens|
    ensures Count(lens, b, l) <= Count(lens, a, l) + (b - a)
    decreases b
  {
    if a < b {
      CountRest(lens, a, b - 1, l);
    }
  }

  /** If zeros end the block, the Kraft sum is at most 160 times the weight of the end-of-block symbol: at most 32
      symbols are as short, and the other 256 weigh half as much. */
  lemma KraftIsSmall(lens: seq<nat>)
    requires Usable(lens) && 256 < |lens| && SymbolAt(lens, 0) == 256
    ensures 1 <= lens[256] <= 15 && Kraft(lens) <= 160 * Weight(lens[256])
  {
    hide Count, CountBelow, Start, Pow2, Weight, SymbolAt;
    ZeroIsFirst(lens);
    var k := lens[256];
    LongSymbolsAreLight(lens, k, W + 1);
    CountRest(lens, 256, |lens|, k);
    MulLe(CountBelow(lens, |lens|, W + 1) + Count(lens, |lens|, k), 320, Weight(k), Weight(k));
  }

  // ---------------------------------------------------------------- the bound

  /** If all ones of the stream bits `w` are among the first `d`, and a codeword other than the zeros is a prefix,
      then the codeword of the zeros is at most `d + 7` bits long. */
  lemma ShortZeros(lens: seq<nat>, w: nat, d: nat)
    requires Usable(lens) && 256 < |lens| && SymbolAt(lens, 0) == 256
    requires 1 <= d <= 16 && 0 < w < Pow2(d) && SymbolAt(lens, w) >= 0
    ensures lens[256] <= d + 7
  {
    hide Rev, Pow2, SymbolAt, Kraft, Covers, IsPrefix, Code, Start, Weight;
    KraftIsSmall(lens);
    var i, k := SymbolAt(lens, w), lens[256];
    PrefixIsCover(lens, i, w);
    CoversPlace(lens, i, Rev(w, W));
    LeadingZeros(w, d);
    if k >= d + 8 {
      Weights(d, k);
    }
  }

  lemma Weights(d: nat, k: nat)
    requires 1 <= d && d + 8 <= k <= 15
    ensures 160 * Weight(k) < Pow2(16 - d)
  {
    Pow2Monotone(W - k + 8, 16 - d);
    Pow2Add(W - k, 8);
    assert Pow2(8) == 256;
  }

  lemma LeadingZeros(w: nat, d: nat)
    requires d <= 16 && 0 < w < Pow2(d)
    ensures Rev(w, 16) >= Pow2(16 - d)
  {
    hide Rev, Pow2;
    RevSplit(w, d, 16 - d);
    RevRev(w, d);
    RevZero(d);
    var r := Rev(w, d);
    assert r > 0;
    MulLe(1, r, Pow2(16 - d), Pow2(16 - d));
  }

  /** How far a symbol, and a match as a whole, can reach. */
  lemma StepReach(s: Stream, at: nat, size: nat)
    requires Usable(s.lit) && Usable(s.dist) && ReadStep(s, at, size).Next?
    ensures var sym, step := SymbolAt(s.lit, Window(s.buf, at, 16)), ReadStep(s, at, size);
            0 <= sym < |s.lit| && s.lit[sym] <= 15 && step.at <= at + s.lit[sym] + if step.t.Literal? then 0 else 33
  {
    hide Window, SymbolAt, Pow2, Kraft, ReadMatchAt, ReadStep;
    StepIs(s, at, size);
    var sym := SymbolAt(s.lit, Window(s.buf, at, 16));
    if 256 < sym < 286 {
      MatchReach(s, at + s.lit[sym], sym - 257, size);
    }
  }

  lemma MatchReach(s: Stream, at: nat, z: nat, size: nat)
    requires Usable(s.dist) && z < 29 && ReadMatchAt(s, at, z, size).Next?
    ensures ReadMatchAt(s, at, z, size).at <= at + 33
  {
    hide Window, SymbolAt, Pow2, Kraft, LengthBase, DistBase, LengthExtra, DistExtra;
  }

  /** The last token before zeros begin at the end of the input. */
  lemma LastTokenReach(s: Stream, at: nat, size: nat, l: nat)
    requires Usable(s.lit) && Usable(s.dist) && at < l == 8 * |s.buf| && ReadStep(s, at, size).Next?
    requires SymbolAt(s.lit, 0) == 256 < |s.lit|
    ensures ReadStep(s, at, size).at + s.lit[256] <= l + 55
  {
    hide Window, SymbolAt, Pow2, Kraft, ReadStep;
    var w := Window(s.buf, at, 16);
    StepReach(s, at, size);
    StepIs(s, at, size);
    var sym := SymbolAt(s.lit, w);
    if at + s.lit[sym] > l && ReadStep(s, at, size).t.Match? {
      var d := l - at;
      WindowAtEnd(s.buf, at, d);
      ShortZeros(s.lit, w, d);
    }
  }

  /** Close to the end only the first bits can be ones. */
  lemma WindowAtEnd(buf: seq<Byte>, at: nat, d: nat)
    requires at + d == 8 * |buf| && d <= 16
    ensures Window(buf, at, 16) < Pow2(d)
  {
    hide Window, Pow2;
    WindowSplit(buf, at, d, 16 - d);
    WindowBehindEnd(buf, at + d, 16 - d);
  }

  /** A block that starts inside the input or at its end ends at most 55 bits behind it, with any codes; one that starts
      even later is an end-of-block symbol alone. */
  lemma {:induction false} OverrunBound(s: Stream, at: nat, size: nat, ts: seq<Token>, end: nat)
    requires Usable(s.lit) && Usable(s.dist) && Spells(s, at, size, ts, end)
    ensures at <= 8 * |s.buf| ==> end <= 8 * |s.buf| + 55
    ensures at >= 8 * |s.buf| ==> ts == [] && 256 < |s.lit| && end == at + s.lit[256] <= at + 15
    decreases |ts|
  {
    hide Window, SymbolAt, Pow2, Kraft, ReadStep, ReadMatchAt;
    StepIs(s, at, size);
    var step := ReadStep(s, at, size);
    if at >= 8 * |s.buf| {
      ZerosEnd(s, at, size, ts, end);
    } else if step.Next? {
      if step.at <= 8 * |s.buf| {
        OverrunBound(s, step.at, size + Growth(step.t), ts[1..], end);
      } else {
        ZerosEnd(s, step.at, size + Growth(step.t), ts[1..], end);
        LastTokenReach(s, at, size, 8 * |s.buf|);
      }
    }
  }

  // ---------------------------------------------------------------- a block that reaches as far as possible

  lemma {:induction false} CountRun(lens: seq<nat>, a: nat, b: nat, v: nat, l: nat)
    requires a <= b <= |lens| && forall i :: a <= i < b ==> lens[i] == v
    ensures Count(lens, b, l) == Count(lens, a, l) + if l == v then b - a else 0
    decreases b
  {
    if a < b {
      CountRun(lens, a, b - 1, v, l);
    }
  }

  /** Literals 0 to 253 have nine bits, the end of the block eight, and one length symbol fifteen. */
  const FAR_LIT: seq<nat> := seq(282,
    i => if 0 <= i < 254 then 9 else if i == 256 then 8 else if i == 281 then 15 else 0)

  /** One distance symbol, of fifteen bits. */
  const FAR_DIST: seq<nat> := seq(29, i => if i == 28 then 15 else 0)

  lemma FarCounts(l: nat)
    ensures Count(FAR_LIT, 256, l) == (if l == 9 then 254 else if l == 0 then 2 else 0)
    ensures l > 0 ==> Count(FAR_LIT, 281, l) == if l == 9 then 254 else if l == 8 then 1 else 0
    ensures l > 0 ==> Count(FAR_LIT, 282, l) == if l == 9 then 254 else if l == 8 || l == 15 then 1 else 0
    ensures l > 0 ==> Count(FAR_DIST, 28, l) == 0 && Count(FAR_DIST, 29, l) == if l == 15 then 1 else 0
  {
    CountRun(FAR_LIT, 0, 254, 9, l);
    CountRun(FAR_LIT, 254, 256, 0, l);
    CountRun(FAR_LIT, 256, 257, 8, l);
    CountRun(FAR_LIT, 257, 281, 0, l);
    CountRun(FAR_LIT, 281, 282, 15, l);
    CountRun(FAR_DIST, 0, 28, 0, l);
    CountRun(FAR_DIST, 28, 29, 15, l);
  }

  /** No codeword is shorter than `l`. */
  lemma {:induction false} NoneBelow(lens: seq<nat>, l: nat)
    requires 1 <= l <= W + 1 && forall k :: 1 <= k < l ==> Count(lens, |lens|, k) == 0
    ensures Start(lens, l) == 0
  {
    hide Count;
    if l > 1 {
      NoneBelow(lens, l - 1);
      StartStep(lens, l - 1);
    }
  }

  /** Nor are there codewords from length `a` up to `b`. */
  lemma {:induction false} NoneBetween(lens: seq<nat>, a: nat, b: nat)
    requires 1 <= a <= b <= W + 1 && forall k :: a <= k < b ==> Count(lens, |lens|, k) == 0
    ensures Start(lens, b) == Start(lens, a)
    decreases b
  {
    hide Count;
    if a < b {
      NoneBetween(lens, a, b - 1);
      StartStep(lens, b - 1);
    }
  }

  lemma SomeWeights()
    ensures Weight(15) == 2 && Weight(9) == 128 && Weight(8) == 256 && Weight(7) == 512
    ensures Pow2(W) == 65536 && Pow2(15) == 32768 && Pow2(14) == 16384
  {
    assert Pow2(7) == 128;
    Pow2Add(7, 7);
    assert Pow2(14) == 16384;
  }

  lemma FarIsUsable()
    ensures Usable(FAR_LIT) && Usable(FAR_DIST)
    ensures Start(FAR_LIT, 8) == 0 && Start(FAR_LIT, 15) == 32768 && Start(FAR_DIST, 15) == 0
  {
    hide Count, Start, Weight, Pow2;
    SomeWeights();
    forall l: nat
      ensures Count(FAR_LIT, 282, l) == Count(FAR_LIT, |FAR_LIT|, l)
      ensures Count(FAR_DIST, 29, l) == Count(FAR_DIST, |FAR_DIST|, l)
      ensures l > 0 ==> Count(FAR_LIT, 282, l) == if l == 9 then 254 else if l == 8 || l == 15 then 1 else 0
      ensures l > 0 ==> Count(FAR_DIST, 29, l) == if l == 15 then 1 else 0
    {
      FarCounts(l);
    }
    NoneBelow(FAR_LIT, 8);
    StartStep(FAR_LIT, 8);
    StartStep(FAR_LIT, 9);
    NoneBetween(FAR_LIT, 10, 15);
    StartStep(FAR_LIT, 15);
    NoneBetween(FAR_LIT, 16, 17);
    NoneBelow(FAR_DIST, 15);
    StartStep(FAR_DIST, 15);
    NoneBetween(FAR_DIST, 16, 17);
  }

  /** A symbol whose codeword starts at weight `c * Weight(l)` has the codeword `c`. */
  lemma FirstFrom(lens: seq<nat>, l: nat, c: nat)
    requires 1 <= l <= W && Start(lens, l) == c * Weight(l)
    ensures First(lens, l) == c
  {
    hide First, Start, Weight;
    FirstIsStart(lens, l);
    var f, w := First(lens, l), Weight(l);
    MultipleIsFar(w, f - c);
    DistributeSub(w, f, c);
  }

  lemma OneAtTop()
    ensures Rev(16384, 15) == 1
  {
    hide Pow2, Rev;
    SomeWeights();
    RevStep(1, 15);
    RevZero(14);
    assert Rev(1, 15) == 16384;
    RevRev(1, 15);
  }

  /** The symbols of the zeros, and of a single one. */
  lemma FarSymbols()
    ensures SymbolAt(FAR_LIT, 0) == 256 && SymbolAt(FAR_LIT, 1) == 281 && SymbolAt(FAR_DIST, 0) == 28
  {
    hide Count, Start, First, Weight, Pow2, Rev, Kraft, SymbolAt;
    FarIsUsable();
    SomeWeights();
    FarCounts(8);
    FarCounts(15);
    FirstFrom(FAR_LIT, 8, 0);
    FirstFrom(FAR_LIT, 15, 16384);
    FirstFrom(FAR_DIST, 15, 0);
    RevZero(8);
    RevZero(15);
    OneAtTop();
    SymbolUnique(FAR_LIT, 0, 256);
    SymbolUnique(FAR_LIT, 1, 281);
    SymbolUnique(FAR_DIST, 0, 28);
  }

  const FAR_INPUT: seq<Byte> := [0, 0x80]

  /** The bits of the input: a single one, at its very end. */
  lemma FarBits()
    ensures Window(FAR_INPUT, 15, 16) == 1
    ensures forall at: nat, n: nat :: at >= 16 ==> Window(FAR_INPUT, at, n) == 0
  {
    hide Window, Pow2, Bit;
    WindowFirst(FAR_INPUT, 15, 16);
    LastBit();
    WindowBehindEnd(FAR_INPUT, 16, 15);
    forall at: nat, n: nat | at >= 16
      ensures Window(FAR_INPUT, at, n) == 0
    {
      WindowBehindEnd(FAR_INPUT, at, n);
    }
  }

  lemma LastBit()
    ensures Bit(FAR_INPUT, 15) == 1
  {
    assert Pow2(7) == 128;
  }

  /** The bound is sharp: this block of one match starts at the last bit of the input, and ends, accepted, 55 bits
      behind it. */
  lemma FarBlockAccepted()
    ensures var s := Stream(FAR_INPUT, FAR_LIT, FAR_DIST);
            Usable(s.lit) && Usable(s.dist) &&
            Accepted(s, 15, 16385, [Match(131, 16385)], 8 * |s.buf| + 55, Fetch(32, false))
  {
    hide Window, SymbolAt, Kraft, Pow2, ReadStep, StepFetch, FAR_LIT, FAR_DIST;
    var s := Stream(FAR_INPUT, FAR_LIT, FAR_DIST);
    FarIsUsable();
    FarBits();
    FarSymbols();
    FarLengths();
    StepIs(s, 15, 16385);
    FetchIs(s, 15, Fetch(32, false));
    FarMatch(s);
    StepIs(s, 63, 16516);
    FetchIs(s, 63, Fetch(80, false));
    assert ReadStep(s, 15, 16385) == Next(Match(131, 16385), 63);
    assert StepFetch(s, 15, Fetch(32, false)) == Some(Fetch(80, false));
    assert ReadStep(s, 63, 16516) == End(71) && StepFetch(s, 63, Fetch(80, false)) == Some(Fetch(80, false));
    assert Spells(s, 63, 16516, [], 71) && BlockFetch(s, 63, 16516, [], Fetch(80, false)) == Some(Fetch(80, false));
    assert [Match(131, 16385)][1..] == [];
  }

  lemma FarLengths()
    ensures |FAR_LIT| == 282 && FAR_LIT[256] == 8 && FAR_LIT[281] == 15 && |FAR_DIST| == 29 && FAR_DIST[28] == 15
  {
  }

  lemma FarMatch(s: Stream)
    requires s == Stream(FAR_INPUT, FAR_LIT, FAR_DIST)
    ensures ReadMatchAt(s, 30, 24, 16385) == Next(Match(131, 16385), 63)
    ensures MatchFetch(s, 30, 24, Fetch(32, false)) == Some(Fetch(80, false))
  {
    hide Window, SymbolAt, FAR_LIT, FAR_DIST, LengthBase, LengthExtra, DistBase, DistExtra;
    FarBits();
    FarSymbols();
    FarLengths();
    FarRanges();
  }

  lemma FarRanges()
    ensures LengthBase(24) == 131 && LengthExtra(24) == 5 && DistBase(28) == 16385 && DistExtra(28) == 13
  {
  }

  /** A reader gets into the state from which that block is read by taking the 15 bits before it. */
  method FarReader() returns (reader: BitReader)
    ensures reader.Valid() && reader.zbuffer == FAR_INPUT && reader.at == 15 && reader.Fetched() == Fetch(32, false)
  {
    hide Window, Pow2;
    reader := new BitReader(FAR_INPUT);
    var header := reader.Receive(15);
  }

  // ---------------------------------------------------------------- an empty block cut short

  /** `stbi__zdefault_length`, the fixed code of section 3.2.6 of RFC 1951, and its distances. */
  const FIXED_LIT: seq<nat> :=
    seq(288, i => if 0 <= i < 144 then 8 else if 144 <= i < 256 then 9 else if 256 <= i < 280 then 7 else 8)
  const FIXED_DIST: seq<nat> := seq(32, _ => 5)

  lemma FixedCounts(l: nat)
    ensures Count(FIXED_LIT, 256, l) == (if l == 8 then 144 else if l == 9 then 112 else 0)
    ensures Count(FIXED_LIT, 288, l) == (if l == 8 then 152 else if l == 9 then 112 else if l == 7 then 24 else 0)
    ensures Count(FIXED_DIST, 32, l) == if l == 5 then 32 else 0
  {
    CountRun(FIXED_LIT, 0, 144, 8, l);
    CountRun(FIXED_LIT, 144, 256, 9, l);
    CountRun(FIXED_LIT, 256, 280, 7, l);
    CountRun(FIXED_LIT, 280, 288, 8, l);
    CountRun(FIXED_DIST, 0, 32, 5, l);
  }

  lemma FixedIsUsable()
    ensures Usable(FIXED_LIT) && Usable(FIXED_DIST) && Kraft(FIXED_LIT) == Kraft(FIXED_DIST) == Pow2(W)
    ensures Start(FIXED_LIT, 7) == 0
  {
    hide Count, Start, Weight, Pow2;
    SomeWeights();
    assert Weight(5) == 2048 by {
      WeightHalves(7);
      WeightHalves(6);
    }
    forall l: nat
      ensures Count(FIXED_LIT, 288, l) == Count(FIXED_LIT, |FIXED_LIT|, l)
      ensures Count(FIXED_DIST, 32, l) == Count(FIXED_DIST, |FIXED_DIST|, l) == if l == 5 then 32 else 0
      ensures Count(FIXED_LIT, 288, l) == if l == 8 then 152 else if l == 9 then 112 else if l == 7 then 24 else 0
    {
      FixedCounts(l);
    }
    NoneBelow(FIXED_LIT, 7);
    StartStep(FIXED_LIT, 7);
    StartStep(FIXED_LIT, 8);
    StartStep(FIXED_LIT, 9);
    NoneBetween(FIXED_LIT, 10, 17);
    NoneBelow(FIXED_DIST, 5);
    StartStep(FIXED_DIST, 5);
    NoneBetween(FIXED_DIST, 6, 17);
  }

  lemma FixedEndOfBlock()
    ensures |FIXED_LIT| == 288 && FIXED_LIT[256] == 7 && SymbolAt(FIXED_LIT, 0) == 256
  {
    hide Count, Start, First, Weight, Pow2, Rev, Kraft, SymbolAt;
    FixedIsUsable();
    SomeWeights();
    FixedCounts(7);
    FirstFrom(FIXED_LIT, 7, 0);
    RevZero(7);
    SymbolUnique(FIXED_LIT, 0, 256);
  }

  /** The compressed data 03: the last block, with the fixed code, and of its end-of-block symbol only five of seven
      bits. The block is read to bit 10 of 8, and accepted. */
  method TruncatedBlock() returns (ok: bool, z: ZBuf)
    ensures ok && z.Valid() && z.Output() == [] && z.reader.zbuffer == [3] && z.reader.at == 10 > 8 * |z.reader.zbuffer|
  {
    hide Window, Kraft, Pow2, FIXED_LIT, FIXED_DIST, ZHuffman.TablesFor;
    FixedIsUsable();
    var length := new ZHuffman();
    var built := length.Build(FIXED_LIT);
    var distance := new ZHuffman();
    built := distance.Build(FIXED_DIST);
    var reader := new BitReader([3]);
    var final := reader.Receive(1);
    var kind := reader.Receive(2);
    z := new ZBuf(reader, 1, true);
    ok := ReadTruncated(z, length, distance);
  }

  /** The reading of that block, behind its three header bits. */
  method ReadTruncated(z: ZBuf, length: ZHuffman, distance: ZHuffman) returns (ok: bool)
    requires z.Valid() && z.size == 0 && length.TablesFor(FIXED_LIT) && distance.TablesFor(FIXED_DIST)
    requires z.reader.zbuffer == [3] && z.reader.at == 3 && z.reader.Fetched() == Fetch(32, false)
    modifies z, z.out, z.reader
    ensures ok && z.Valid() && z.Output() == [] && z.reader.at == 10
  {
    hide Window, Kraft, Pow2, FIXED_LIT, FIXED_DIST, ZHuffman.TablesFor, ZBuf.Valid, BitReader.Valid, Read, Expand,
      Accepted, BlockFetch;
    ghost var s := Stream([3], FIXED_LIT, FIXED_DIST);
    ghost var tokens;
    TruncatedIsAccepted(s);
    ok, tokens := z.ParseHuffmanBlock(length, distance, s);
    if ok {
      ReadOnce(s, 3, 0, tokens, z.reader.at, [], 10);
      ExpandNone([]);
    }
  }

  lemma TruncatedIsAccepted(s: Stream)
    requires s == Stream([3], FIXED_LIT, FIXED_DIST)
    ensures Accepted(s, 3, 0, [], 10, Fetch(32, false))
    ensures BlockFetch(s, 3, 0, [], Fetch(32, false)) == Some(Fetch(32, false))
    ensures Read(s, 3, 0, [], 10)
  {
    hide Window, SymbolAt, Kraft, Pow2, ReadStep, StepFetch, FIXED_LIT, FIXED_DIST;
    FixedEndOfBlock();
    ZerosFrom3();
    StepIs(s, 3, 0);
    FetchIs(s, 3, Fetch(32, false));
    assert ReadStep(s, 3, 0) == End(10) && StepFetch(s, 3, Fetch(32, false)) == Some(Fetch(32, false));
  }

  lemma ZerosFrom3()
    ensures Window([3], 3, 16) == 0
  {
    assert Pow2(3) == 8 && Pow2(8) == 256;
    hide Window, Pow2;
    WindowInByte([3], 0, 3);
    WindowSplit([3], 3, 5, 11);
    WindowBehindEnd([3], 8, 11);
  }

  lemma ReadOnce(s: Stream, at: nat, size: nat, ts: seq<Token>, e: nat, us: seq<Token>, f: nat)
    requires Read(s, at, size, ts, e) && Read(s, at, size, us, f)
    ensures ts == us && e == f
  {
    hide Spells;
    assert Spells(s, at, size, ts, e);
  }
}
