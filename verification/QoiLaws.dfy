/** What QOI's encoder writes, stated without its parts: the slots of the index, which pixels cost one byte, that no
    shorter chunk would do, how long runs are, and a file given byte by byte. */
module QoiLaws {
  import opened Bytes
  import opened Powers
  import opened Qoi
  import opened QoiCodec
  import opened QoiFormat

  // ---------------------------------------------------------------- slots

  /** Where the format puts a pixel in the index. */
  predicate IsSlot(p: Pixel, s: int) {
    0 <= s < 64 && (3 * p.r as int + 5 * p.g as int + 7 * p.b as int + 11 * p.a as int - s) % 64 == 0
  }

  lemma HashIsSlot(p: Pixel, s: int)
    ensures IsSlot(p, s) <==> s == ColorHash(p)
  {
  }

  lemma SumShifts(x: nat, d: int)
    ensures (x + d) % 64 == (x % 64 + d) % 64
  {
  }

  /** How the slot depends on each channel. */
  lemma HashPerChannel(p: Pixel, d: int)
    ensures 0 <= p.r + d < 256 ==> ColorHash(p.(r := p.r + d)) == (ColorHash(p) + 3 * d) % 64
    ensures 0 <= p.g + d < 256 ==> ColorHash(p.(g := p.g + d)) == (ColorHash(p) + 5 * d) % 64
    ensures 0 <= p.b + d < 256 ==> ColorHash(p.(b := p.b + d)) == (ColorHash(p) + 7 * d) % 64
    ensures 0 <= p.a + d < 256 ==> ColorHash(p.(a := p.a + d)) == (ColorHash(p) + 11 * d) % 64
    ensures ColorHash(ZERO) == 0
  {
    var x: nat := 3 * p.r as int + 5 * p.g as int + 7 * p.b as int + 11 * p.a as int;
    hide ColorHash;
    HashIs(ZERO);
    HashChanged(p, p.(r := if 0 <= p.r + d < 256 then p.r + d else p.r), x);
    HashChanged(p, p.(g := if 0 <= p.g + d < 256 then p.g + d else p.g), x);
    HashChanged(p, p.(b := if 0 <= p.b + d < 256 then p.b + d else p.b), x);
    HashChanged(p, p.(a := if 0 <= p.a + d < 256 then p.a + d else p.a), x);
  }

  lemma HashChanged(p: Pixel, q: Pixel, x: nat)
    requires x == 3 * p.r as int + 5 * p.g as int + 7 * p.b as int + 11 * p.a as int
    ensures var y: int := 3 * q.r as int + 5 * q.g as int + 7 * q.b as int + 11 * q.a as int;
            ColorHash(q) == (ColorHash(p) + (y - x)) % 64
  {
    HashIs(p);
    HashIs(q);
    SumShifts(x, 3 * q.r as int + 5 * q.g as int + 7 * q.b as int + 11 * q.a as int - x);
  }

  lemma HashIs(p: Pixel)
    ensures ColorHash(p) == (3 * p.r as int + 5 * p.g as int + 7 * p.b as int + 11 * p.a as int) % 64
  {
  }

  // ---------------------------------------------------------------- known pixels

  /** The encoder's state after the first `k` pixels. */
  function StateAfter(ps: seq<Pixel>, k: nat): (st: EncState)
    requires k <= |ps|
    ensures EncOk(st)
  {
    if k == 0 then ENC_START else EncStep(StateAfter(ps, k - 1), ps[k - 1], k == |ps|).0
  }

  /** The bytes written when pixel `k` is read. */
  function BytesFor(ps: seq<Pixel>, k: nat): seq<Byte>
    requires k < |ps|
  {
    LiteralIsExact(StateAfter(ps, k).prev, ps[k], StateAfter(ps, k).index);
    Flatten(EncStep(StateAfter(ps, k), ps[k], k + 1 == |ps|).1)
  }

  function AllBytes(ps: seq<Pixel>, k: nat): seq<Byte>
    requires k <= |ps|
  {
    if k == 0 then [] else AllBytes(ps, k - 1) + BytesFor(ps, k - 1)
  }

  lemma {:induction false} BytesSoFar(ps: seq<Pixel>, k: nat)
    requires k <= |ps|
    ensures AllLegal(EncodeChunks(StateAfter(ps, k), ps[k..])) && AllLegal(EncodeChunks(ENC_START, ps))
    ensures AllBytes(ps, k) + Flatten(EncodeChunks(StateAfter(ps, k), ps[k..])) == Flatten(EncodeChunks(ENC_START, ps))
    decreases k
  {
    hide EncStep, Flatten, Legal;
    EncodedLegal(StateAfter(ps, k), ps[k..]);
    EncodedLegal(ENC_START, ps);
    if k == 0 {
      assert ps[0..] == ps;
    } else {
      BytesSoFar(ps, k - 1);
      NextPixel(ps, k - 1);
    }
  }

  lemma NextPixel(ps: seq<Pixel>, k: nat)
    requires k < |ps|
    ensures AllLegal(EncodeChunks(StateAfter(ps, k), ps[k..]))
    ensures AllLegal(EncodeChunks(StateAfter(ps, k + 1), ps[k + 1..]))
    ensures Flatten(EncodeChunks(StateAfter(ps, k), ps[k..]))
         == BytesFor(ps, k) + Flatten(EncodeChunks(StateAfter(ps, k + 1), ps[k + 1..]))
  {
    hide EncStep, Flatten, Legal;
    var st := StateAfter(ps, k);
    var cs := EncStep(st, ps[k], k + 1 == |ps|).1;
    EncodedLegal(st, ps[k..]);
    EncodedLegal(StateAfter(ps, k + 1), ps[k + 1..]);
    LiteralIsExact(st.prev, ps[k], st.index);
    StepBytes(st, ps[k], k + 1 == |ps|);
    assert ps[k..][0] == ps[k] && ps[k..][1..] == ps[k + 1..];
    FlattenConcat(cs, EncodeChunks(StateAfter(ps, k + 1), ps[k + 1..]));
  }

  /** The file consists of the header, the bytes for each pixel in turn, and the padding. */
  lemma FileIsPixelByPixel(d: Desc, data: seq<Byte>)
    requires ValidDesc(d) && Supplies(d, data)
    ensures var ps := Pixels(data, d.channels, PixelCount(d));
            EncodedFile(d, data) == Header(d) + AllBytes(ps, |ps|) + PADDING
  {
    var ps := Pixels(data, d.channels, PixelCount(d));
    BytesSoFar(ps, |ps|);
    assert ps[|ps|..] == [];
    assert EncodeChunks(StateAfter(ps, |ps|), []) == [];
    FlattenNone();
  }

  /** The previous pixel is in its slot, unless all were the start pixel. */
  lemma {:induction false} PreviousStored(ps: seq<Pixel>, k: nat)
    requires k <= |ps|
    ensures var st := StateAfter(ps, k);
            && st.prev == (if k == 0 then START else ps[k - 1])
            && (st.index[ColorHash(st.prev)] == st.prev || forall m :: 0 <= m < k ==> ps[m] == START)
    decreases k
  {
    hide ColorHash, LiteralChunk;
    if k > 0 {
      PreviousStored(ps, k - 1);
    }
  }

  /** Since pixel `j` none but equal ones have come to its slot. */
  ghost predicate Undisturbed(ps: seq<Pixel>, j: nat, k: nat)
    requires j < k <= |ps|
  {
    && (exists m :: 0 <= m <= j && ps[m] != START)
    && forall i :: j < i < k && ps[i] != ps[j] ==> exists s :: IsSlot(ps[i], s) && !IsSlot(ps[j], s)
  }

  lemma {:induction false} Remembered(ps: seq<Pixel>, j: nat, k: nat)
    requires j < k <= |ps| && Undisturbed(ps, j, k)
    ensures StateAfter(ps, k).index[ColorHash(ps[j])] == ps[j]
    decreases k
  {
    hide ColorHash, LiteralChunk, IsSlot;
    if k == j + 1 {
      PreviousStored(ps, k);
    } else {
      Remembered(ps, j, k - 1);
      if ps[k - 1] != ps[j] {
        var s :| IsSlot(ps[k - 1], s) && !IsSlot(ps[j], s);
        HashIsSlot(ps[k - 1], s);
        HashIsSlot(ps[j], s);
      }
    }
  }

  /** A pixel that differs from the one before and has been seen, with none but equal ones in its slot since, costs one
      byte: the number of that slot. In front of it there may be the run of the pixels before. */
  lemma KnownPixelIsOneByte(ps: seq<Pixel>, j: nat, k: nat)
    requires j < k < |ps| && ps[k] == ps[j] && ps[k] != ps[k - 1] && Undisturbed(ps, j, k)
    ensures var bytes := BytesFor(ps, k);
            && |bytes| == (if StateAfter(ps, k).run > 0 then 2 else 1)
            && bytes[|bytes| - 1] < 64 && IsSlot(ps[k], bytes[|bytes| - 1] as int)
  {
    Remembered(ps, j, k);
    PreviousStored(ps, k);
    HashIsSlot(ps[k], ColorHash(ps[k]));
    hide ColorHash, LiteralChunk, IsSlot;
    StepBytes(StateAfter(ps, k), ps[k], k + 1 == |ps|);
  }

  // ---------------------------------------------------------------- the shortest chunk

  /** No other chunk for the pixel is shorter, unless it names the slot of another pixel. */
  lemma ChunkIsShortest(index: seq<Pixel>, prev: Pixel, px: Pixel, c: Chunk)
    requires |index| == 64 && px != prev && Legal(c) && (c.Index? ==> c.slot < 64 && IsSlot(px, c.slot as int))
    requires Apply(c, prev, index) == px
    ensures |ChunkBytes(NewPixelChunk(index, prev, px))| <= |ChunkBytes(c)|
  {
    LiteralLength(prev, px);
    hide LiteralChunk, Add8, IsSlot, ColorHash;
    match c
    case Index(s) =>
      HashIsSlot(px, s as int);
    case Diff(dr, dg, db) =>
      SmallIsDiff(prev, dr, dg, db);
    case Luma(vg, vgr, vgb) =>
      RelativeIsLuma(prev, vg, vgr, vgb);
    case Run(_) =>
    case Rgb(_, _, _) =>
    case Rgba(_, _, _, _) =>
  }

  lemma LiteralLength(prev: Pixel, px: Pixel)
    ensures var c := LiteralChunk(prev, px);
            Legal(c) && |ChunkBytes(c)| == if c.Diff? then 1 else if c.Luma? then 2 else if px.a == prev.a then 4 else 5
  {
    LiteralIsExact(prev, px, seq(64, _ => ZERO));
  }

  lemma SmallIsDiff(p: Pixel, dr: int, dg: int, db: int)
    requires Legal(Diff(dr, dg, db))
    ensures LiteralChunk(p, Pixel(Add8(p.r, dr), Add8(p.g, dg), Add8(p.b, db), p.a)).Diff?
  {
    hide *;
    LegalDiff(dr, dg, db);
    SmallDifference(p.r, dr);
    SmallDifference(p.g, dg);
    SmallDifference(p.b, db);
    LiteralFor(p, Pixel(Add8(p.r, dr), Add8(p.g, dg), Add8(p.b, db), p.a), dr, dg, db);
  }

  lemma LegalDiff(dr: int, dg: int, db: int)
    requires Legal(Diff(dr, dg, db))
    ensures -3 < dr < 2 && -3 < dg < 2 && -3 < db < 2
  {
  }

  lemma LegalLuma(vg: int, vgr: int, vgb: int)
    requires Legal(Luma(vg, vgr, vgb))
    ensures -33 < vg < 32 && -9 < vgr < 8 && -9 < vgb < 8
  {
  }

  lemma LiteralFor(p: Pixel, px: Pixel, vr: int, vg: int, vb: int)
    requires px.a == p.a && vr == SignedChar(px.r - p.r) && vg == SignedChar(px.g - p.g) && vb == SignedChar(px.b - p.b)
    ensures -3 < vr < 2 && -3 < vg < 2 && -3 < vb < 2 ==> LiteralChunk(p, px).Diff?
    ensures -9 < SignedChar(vr - vg) < 8 && -33 < vg < 32 && -9 < SignedChar(vb - vg) < 8 ==>
              LiteralChunk(p, px).Diff? || LiteralChunk(p, px).Luma?
  {
    hide SignedChar;
  }

  lemma RelativeIsLuma(p: Pixel, vg: int, vgr: int, vgb: int)
    requires Legal(Luma(vg, vgr, vgb))
    ensures var c := LiteralChunk(p, Pixel(Add8(p.r, vg + vgr), Add8(p.g, vg), Add8(p.b, vg + vgb), p.a));
            c.Diff? || c.Luma?
  {
    hide *;
    LegalLuma(vg, vgr, vgb);
    SmallDifference(p.g, vg);
    RelativeDifference(p.r, vg, vgr);
    RelativeDifference(p.b, vg, vgb);
    var px := Pixel(Add8(p.r, vg + vgr), Add8(p.g, vg), Add8(p.b, vg + vgb), p.a);
    LiteralFor(p, px, SignedChar(px.r - p.r), vg, SignedChar(px.b - p.b));
  }

  lemma SmallDifference(x: Byte, d: int)
    requires -128 <= d < 128
    ensures SignedChar(Add8(x, d) - x) == d
  {
  }

  lemma RelativeDifference(x: Byte, vg: int, d: int)
    requires -32 <= vg <= 31 && -8 <= d <= 7
    ensures SignedChar(SignedChar(Add8(x, vg + d) - x) - vg) == d
  {
  }

  // ---------------------------------------------------------------- runs

  /** Only a full run is followed by another one. */
  predicate FullRuns(cs: seq<Chunk>) {
    forall i :: 0 <= i < |cs| - 1 && cs[i].Run? && cs[i + 1].Run? ==> cs[i] == Run(62)
  }

  lemma {:induction false} RunsAreFull(st: EncState, pixels: seq<Pixel>)
    requires EncOk(st)
    ensures FullRuns(EncodeChunks(st, pixels))
    decreases |pixels|
  {
    hide ColorHash, LiteralChunk;
    if pixels != [] {
      var (st', cs) := EncStep(st, pixels[0], |pixels| == 1);
      LiteralIsExact(st.prev, pixels[0], st.index);
      RunsAreFull(st', pixels[1..]);
      JoinRuns(cs, EncodeChunks(st', pixels[1..]));
    }
  }

  lemma JoinRuns(cs: seq<Chunk>, rest: seq<Chunk>)
    requires FullRuns(rest) && |cs| <= 2 && (|cs| == 2 ==> !cs[1].Run?)
    requires cs != [] && cs[|cs| - 1].Run? ==> cs[|cs| - 1] == Run(62) || rest == []
    ensures FullRuns(cs + rest)
  {
    var all := cs + rest;
    forall i | 0 <= i < |all| - 1 && all[i].Run? && all[i + 1].Run?
      ensures all[i] == Run(62)
    {
      if i >= |cs| {
        assert all[i] == rest[i - |cs|] && all[i + 1] == rest[i + 1 - |cs|];
      }
    }
  }

  // ---------------------------------------------------------------- sizes

  /** Images have at least one pixel, three or four channels and one of two colour spaces, and they are small enough:
      with one more row they would still have no more than 400 million pixels. */
  lemma ValidDescIs(d: Desc)
    ensures ValidDesc(d) <==> d.width > 0 && d.height > 0 && (d.channels == 3 || d.channels == 4) && d.colorspace <= 1
                              && (d.height + 1) * d.width <= 400_000_000
  {
    if d.width > 0 {
      var q := 400_000_000 / d.width;
      assert d.width * q <= 400_000_000 < d.width * q + d.width by {
        assert q == Quotient(400_000_000, d.width);
      }
      MultipleIsFar(d.width, d.height - q);
      Distribute(d.width, d.height, 1);
      DistributeSub(d.width, d.height, q);
    }
  }

  // ---------------------------------------------------------------- files

  const P1 := Pixel(1, 0, 0, 255)
  const P2 := Pixel(100, 0, 0, 255)
  const P3 := Pixel(11, 10, 10, 255)
  const P4 := Pixel(11, 10, 10, 128)

  /** Six pixels, one for each kind of chunk: a small difference, a new colour, a known one, the same again, a colour of
      similar channels, and a new alpha. */
  const EXAMPLE: seq<Pixel> := [P1, P2, P1, P1, P3, P4]

  const EXAMPLE_DATA: seq<Byte> := [
    1, 0, 0, 255, 100, 0, 0, 255, 1, 0, 0, 255, 1, 0, 0, 255, 11, 10, 10, 255, 11, 10, 10, 128]

  lemma ExampleSlots()
    ensures ColorHash(P1) == 56 && ColorHash(P2) == 33 && ColorHash(P3) == 14 && ColorHash(P4) == 25
  {
    hide ColorHash;
    HashIs(P1);
    HashIs(P2);
    HashIs(P3);
    HashIs(P4);
  }

  lemma ExampleLiterals()
    ensures LiteralChunk(START, P1) == Diff(1, 0, 0) && LiteralChunk(P1, P2) == Rgb(100, 0, 0)
    ensures LiteralChunk(P1, P3) == Luma(10, 0, 0) && LiteralChunk(P3, P4) == Rgba(11, 10, 10, 128)
  {
    hide SignedChar, LiteralChunk;
    SmallSigned(0);
    SmallSigned(1);
    SmallSigned(10);
    SmallSigned(99);
    LiteralIs(START, P1, 1, 0, 0);
    LiteralIs(P1, P2, 99, 0, 0);
    LiteralIs(P1, P3, 10, 10, 10);
    LiteralIs(P3, P4, 0, 0, 0);
  }

  lemma SmallSigned(x: int)
    requires -128 <= x < 128
    ensures SignedChar(x) == x
  {
  }

  lemma LiteralIs(p: Pixel, px: Pixel, vr: int, vg: int, vb: int)
    requires vr == SignedChar(px.r - p.r) && vg == SignedChar(px.g - p.g) && vb == SignedChar(px.b - p.b)
    ensures LiteralChunk(p, px) ==
            if px.a != p.a then Rgba(px.r, px.g, px.b, px.a)
            else if -3 < vr < 2 && -3 < vg < 2 && -3 < vb < 2 then Diff(vr, vg, vb)
            else if -9 < SignedChar(vr - vg) < 8 && -33 < vg < 32 && -9 < SignedChar(vb - vg) < 8 then
              Luma(vg, SignedChar(vr - vg), SignedChar(vb - vg))
            else Rgb(px.r, px.g, px.b)
  {
    hide SignedChar;
  }

  /** A step with a pixel that is not in the index, and with one that is. */
  lemma NewStep(st: EncState, px: Pixel, last: bool, h: nat)
    requires EncOk(st) && px != st.prev && h == ColorHash(px)
    ensures var c := if st.index[h] == px then Index(h) else LiteralChunk(st.prev, px);
            EncStep(st, px, last)
              == (EncState(st.index[h := px], px, 0), if st.run > 0 then [Run(st.run), c] else [c])
  {
    hide ColorHash, LiteralChunk;
    assert st.index[h] == px ==> st.index[h := px] == st.index;
    var flush: seq<Chunk> := if st.run > 0 then [Run(st.run)] else [];
    var c := if st.index[h] == px then Index(h) else LiteralChunk(st.prev, px);
    assert flush + [c] == if st.run > 0 then [Run(st.run), c] else [c];
    assert EncStep(st, px, last).1 == flush + [c];
  }

  lemma EncodeOne(st: EncState, ps: seq<Pixel>, st': EncState, cs: seq<Chunk>)
    requires EncOk(st) && ps != [] && EncStep(st, ps[0], |ps| == 1) == (st', cs)
    ensures EncodeChunks(st, ps) == cs + EncodeChunks(st', ps[1..])
  {
  }

  lemma ExampleChunks()
    ensures EncodeChunks(ENC_START, EXAMPLE)
         == [Diff(1, 0, 0), Rgb(100, 0, 0), Index(56), Run(1), Luma(10, 0, 0), Rgba(11, 10, 10, 128)]
  {
    hide ColorHash, LiteralChunk, EncStep, EncodeChunks;
    ExampleSlots();
    ExampleLiterals();
    var i1 := ZeroIndex()[56 := P1];
    var i2 := i1[33 := P2];
    NewStep(ENC_START, P1, false, 56);
    NewStep(EncState(i1, P1, 0), P2, false, 33);
    EncodeOne(ENC_START, EXAMPLE, EncState(i1, P1, 0), [Diff(1, 0, 0)]);
    EncodeOne(EncState(i1, P1, 0), EXAMPLE[1..], EncState(i2, P2, 0), [Rgb(100, 0, 0)]);
    assert EXAMPLE[1..][1..] == EXAMPLE[2..];
    ExampleRest(i2);
  }

  lemma ExampleRest(i2: seq<Pixel>)
    requires i2 == ZeroIndex()[56 := P1][33 := P2]
    ensures EncodeChunks(EncState(i2, P2, 0), EXAMPLE[2..])
         == [Index(56), Run(1), Luma(10, 0, 0), Rgba(11, 10, 10, 128)]
  {
    ExampleSlots();
    ExampleLiterals();
    var s3, s4 := EncState(i2, P1, 0), EncState(i2, P1, 1);
    assert EncStep(s3, P1, false) == (s4, []);
    assert EncodeChunks(EncState(i2[14 := P3][25 := P4], P4, 0), []) == [];
    hide ColorHash, LiteralChunk, EncStep, EncodeChunks;
    assert i2[56 := P1] == i2;
    var s5 := EncState(i2[14 := P3], P3, 0);
    NewStep(EncState(i2, P2, 0), P1, false, 56);
    NewStep(s4, P3, false, 14);
    NewStep(s5, P4, true, 25);
    EncodeOne(EncState(i2, P2, 0), [P1, P1, P3, P4], s3, [Index(56)]);
    EncodeOne(s3, [P1, P3, P4], s4, []);
    EncodeOne(s4, [P3, P4], s5, [Run(1), Luma(10, 0, 0)]);
    EncodeOne(s5, [P4], EncState(s5.index[25 := P4], P4, 0), [Rgba(11, 10, 10, 128)]);
    assert EXAMPLE[2..] == [P1, P1, P3, P4] && [P1, P1, P3, P4][1..] == [P1, P3, P4];
    assert [P1, P3, P4][1..] == [P3, P4] && [P3, P4][1..] == [P4] && [P4][1..] == [];
  }

  const EXAMPLE_CHUNKS: seq<Byte> := [0x7a, 0xfe, 100, 0, 0, 0x38, 0xc0, 0xaa, 0x88, 0xff, 11, 10, 10, 128]

  lemma ExampleFile()
    ensures var d := Desc(6, 1, 4, 1);
            && ValidDesc(d) && Supplies(d, EXAMPLE_DATA)
            && EncodedFile(d, EXAMPLE_DATA) == [0x71, 0x6f, 0x69, 0x66, 0, 0, 0, 6, 0, 0, 0, 1, 4, 1]
                                               + EXAMPLE_CHUNKS + [0, 0, 0, 0, 0, 0, 0, 1]
  {
    var d := Desc(6, 1, 4, 1);
    assert PixelCount(d) == 6 && ValidDesc(d) && |EXAMPLE_DATA| == 24;
    ExampleHeader();
    hide EncodeChunks, Pixels, Flatten, Legal, Header, PixelCount, ValidDesc;
    ExamplePixels();
    ExampleChunks();
    ExampleBytes();
  }

  lemma ExampleHeader()
    ensures ValidDesc(Desc(6, 1, 4, 1))
    ensures Header(Desc(6, 1, 4, 1)) == [0x71, 0x6f, 0x69, 0x66, 0, 0, 0, 6, 0, 0, 0, 1, 4, 1]
  {
    assert Be32(6) == [0, 0, 0, 6] && Be32(1) == [0, 0, 0, 1];
    hide Be32;
  }

  lemma ExamplePixels()
    ensures |EXAMPLE_DATA| == 24 && Pixels(EXAMPLE_DATA, 4, 6) == EXAMPLE
  {
    hide Pixels;
  }

  lemma ExampleBytes()
    ensures var cs := [Diff(1, 0, 0), Rgb(100, 0, 0), Index(56), Run(1), Luma(10, 0, 0), Rgba(11, 10, 10, 128)];
            AllLegal(cs) && Flatten(cs) == EXAMPLE_CHUNKS
  {
    EachLegal();
    hide Flatten, Legal, ChunkBytes;
    var a := [Diff(1, 0, 0)] + [Rgb(100, 0, 0)];
    var rest := LastBytes();
    FlattenFew(Diff(1, 0, 0), Rgb(100, 0, 0));
    FlattenConcat(a, rest);
    assert a + rest == [Diff(1, 0, 0), Rgb(100, 0, 0), Index(56), Run(1), Luma(10, 0, 0), Rgba(11, 10, 10, 128)];
  }

  lemma LastBytes() returns (cs: seq<Chunk>)
    ensures cs == [Index(56), Run(1), Luma(10, 0, 0), Rgba(11, 10, 10, 128)]
    ensures AllLegal(cs) && Flatten(cs) == [0x38, 0xc0, 0xaa, 0x88, 0xff, 11, 10, 10, 128]
  {
    EachLegal();
    hide Flatten, Legal, ChunkBytes;
    var b, c := [Index(56)] + [Run(1)], [Luma(10, 0, 0)] + [Rgba(11, 10, 10, 128)];
    FlattenFew(Index(56), Run(1));
    FlattenFew(Luma(10, 0, 0), Rgba(11, 10, 10, 128));
    FlattenConcat(b, c);
    cs := b + c;
  }

  lemma EachLegal()
    ensures Legal(Diff(1, 0, 0)) && Legal(Rgb(100, 0, 0)) && Legal(Index(56)) && Legal(Run(1))
    ensures Legal(Luma(10, 0, 0)) && Legal(Rgba(11, 10, 10, 128))
    ensures ChunkBytes(Diff(1, 0, 0)) == [0x7a] && ChunkBytes(Rgb(100, 0, 0)) == [0xfe, 100, 0, 0]
    ensures ChunkBytes(Index(56)) == [0x38] && ChunkBytes(Run(1)) == [0xc0]
    ensures ChunkBytes(Luma(10, 0, 0)) == [0xaa, 0x88] && ChunkBytes(Rgba(11, 10, 10, 128)) == [0xff, 11, 10, 10, 128]
  {
  }

  /** Bytes no encoder writes: the start pixel again as a run, then by the slot in which the decoder has put it, and
      then none. */
  lemma ForeignBytes()
    ensures DecodeBytes([0xc0, 0x35, 0, 0, 0, 0, 0, 0, 0, 1], 2, 0, DEC_START, 3) == [START, START, START]
  {
    var bytes: seq<Byte> := [0xc0, 0x35, 0, 0, 0, 0, 0, 0, 0, 1];
    assert ReadChunk(bytes, 0) == (Run(1), 1) && ReadChunk(bytes, 1) == (Index(53), 2);
    var s1 := DecState(ZeroIndex()[53 := START], START, 0);
    assert DecStep(DEC_START, Run(1)) == s1 && DecStep(s1, Index(53)) == s1;
    hide DecStep, ReadChunk;
    assert DecodeBytes(bytes, 2, 2, s1, 0) == [];
    assert DecodeBytes(bytes, 2, 2, s1, 1) == [START];
    assert DecodeBytes(bytes, 2, 1, s1, 2) == [START] + DecodeBytes(bytes, 2, 2, s1, 1);
    assert DecodeBytes(bytes, 2, 0, DEC_START, 3) == [START] + DecodeBytes(bytes, 2, 1, s1, 2);
  }
}
