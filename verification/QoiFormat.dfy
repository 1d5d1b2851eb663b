/** The QOI byte stream: pixels, chunks, and how chunks are written to and read from bytes. */
module QoiFormat {
  import opened Bytes

  const HEADER_SIZE := 14
  const PADDING: seq<Byte> := [0, 0, 0, 0, 0, 0, 0, 1]
  const PIXELS_MAX := 400000000
  const MAGIC: seq<Byte> := [113, 111, 105, 102]  // "qoif"

  datatype Pixel = Pixel(r: Byte, g: Byte, b: Byte, a: Byte)

  const ZERO := Pixel(0, 0, 0, 0)
  const START := Pixel(0, 0, 0, 255)

  datatype Desc = Desc(width: nat, height: nat, channels: Byte, colorspace: Byte)

  /** The check both sides make on a descriptor. */
  predicate ValidDesc(d: Desc) {
    && d.width != 0 && d.height != 0
    && 3 <= d.channels <= 4 && d.colorspace <= 1
    && d.height < PIXELS_MAX / d.width
  }

  lemma PixelCountBound(d: Desc)
    requires ValidDesc(d)
    ensures 0 < d.width * d.height < PIXELS_MAX
    ensures d.width < PIXELS_MAX && d.height < PIXELS_MAX
  {
    assert d.width * (PIXELS_MAX / d.width) <= PIXELS_MAX;
    MulStrict(d.width, d.height, PIXELS_MAX / d.width);
    MulAtLeast(d.width, d.height);
  }

  lemma MulAtLeast(w: nat, h: nat)
    requires w > 0 && h > 0
    ensures w <= w * h && h <= w * h
  {
  }

  lemma MulStrict(w: nat, h: nat, q: nat)
    requires 0 < w && 0 < h < q
    ensures 0 < w * h < w * q
  {
  }

  function ColorHash(p: Pixel): (h: nat)
    ensures h < 64
  {
    (p.r * 3 + p.g * 5 + p.b * 7 + p.a * 11) % 64
  }

  // ---------------------------------------------------------------- chunks

  datatype Chunk =
    | Index(slot: nat)
    | Diff(dr: int, dg: int, db: int)
    | Luma(vg: int, vgr: int, vgb: int)
    | Run(length: nat)
    | Rgb(r: Byte, g: Byte, b: Byte)
    | Rgba(pr: Byte, pg: Byte, pb: Byte, pa: Byte)

  /** The ranges the format allows; run lengths 63 and 64 are not among them. */
  predicate Legal(c: Chunk) {
    match c
    case Index(s) => s < 64
    case Diff(dr, dg, db) => -2 <= dr <= 1 && -2 <= dg <= 1 && -2 <= db <= 1
    case Luma(vg, vgr, vgb) => -32 <= vg <= 31 && -8 <= vgr <= 7 && -8 <= vgb <= 7
    case Run(n) => 1 <= n <= 62
    case Rgb(_, _, _) => true
    case Rgba(_, _, _, _) => true
  }

  function ChunkBytes(c: Chunk): (s: seq<Byte>)
    requires Legal(c)
    ensures 1 <= |s| <= 5
  {
    match c
    case Index(s) => [s]
    case Diff(dr, dg, db) => [0x40 + 16 * (dr + 2) + 4 * (dg + 2) + (db + 2)]
    case Luma(vg, vgr, vgb) => [0x80 + (vg + 32), 16 * (vgr + 8) + (vgb + 8)]
    case Run(n) => [0xc0 + (n - 1)]
    case Rgb(r, g, b) => [0xfe, r, g, b]
    case Rgba(r, g, b, a) => [0xff, r, g, b, a]
  }

  /** What the decoder makes of the bytes at `p`: the chunk and the position behind it. The two 8-bit tags are tested
      before the 2-bit tags. */
  function ReadChunk(bytes: seq<Byte>, p: nat): (r: (Chunk, nat))
    requires p + 5 <= |bytes|
    ensures Legal(r.0) || r.0.Run?
    ensures p < r.1 <= p + 5
  {
    var b1: int := bytes[p];
    if b1 == 0xfe then (Rgb(bytes[p + 1], bytes[p + 2], bytes[p + 3]), p + 4)
    else if b1 == 0xff then (Rgba(bytes[p + 1], bytes[p + 2], bytes[p + 3], bytes[p + 4]), p + 5)
    else if b1 / 64 == 0 then (Index(b1), p + 1)
    else if b1 / 64 == 1 then (Diff(b1 / 16 % 4 - 2, b1 / 4 % 4 - 2, b1 % 4 - 2), p + 1)
    else if b1 / 64 == 2 then
      var b2: int := bytes[p + 1];
      (Luma(b1 % 64 - 32, b2 / 16 - 8, b2 % 16 - 8), p + 2)
    else (Run(b1 % 64 + 1), p + 1)
  }

  ghost predicate HoldsAt(bytes: seq<Byte>, p: nat, s: seq<Byte>) {
    p + |s| <= |bytes| && forall i :: 0 <= i < |s| ==> bytes[p + i] == s[i]
  }

  /** Reading inverts writing, wherever the chunk stands in the stream; in particular no run byte is taken for one of
      the two 8-bit tags. */
  lemma ReadWritten(c: Chunk, bytes: seq<Byte>, p: nat)
    requires Legal(c) && p + 5 <= |bytes| && HoldsAt(bytes, p, ChunkBytes(c))
    ensures ReadChunk(bytes, p) == (c, p + |ChunkBytes(c)|)
  {
    var s := ChunkBytes(c);
    assert bytes[p + 0] == s[0];
    match c
    case Index(_) =>
    case Diff(dr, dg, db) =>
      var b1: int := bytes[p];
      assert b1 == 0x40 + 16 * (dr + 2) + 4 * (dg + 2) + (db + 2);
      assert b1 / 16 == 4 + (dr + 2) && b1 / 4 == 16 + 4 * (dr + 2) + (dg + 2);
    case Luma(_, _, _) => assert bytes[p + 1] == s[1];
    case Run(_) =>
    case Rgb(_, _, _) => assert bytes[p + 1] == s[1] && bytes[p + 2] == s[2] && bytes[p + 3] == s[3];
    case Rgba(_, _, _, _) =>
      assert bytes[p + 1] == s[1] && bytes[p + 2] == s[2] && bytes[p + 3] == s[3] && bytes[p + 4] == s[4];
  }

  predicate AllLegal(cs: seq<Chunk>) {
    forall c :: c in cs ==> Legal(c)
  }

  function Flatten(cs: seq<Chunk>): seq<Byte>
    requires AllLegal(cs)
  {
    if cs == [] then [] else ChunkBytes(cs[0]) + Flatten(cs[1..])
  }

  lemma FlattenFew(a: Chunk, b: Chunk)
    requires Legal(a) && Legal(b)
    ensures Flatten([]) == [] && Flatten([a]) == ChunkBytes(a) && Flatten([a] + [b]) == ChunkBytes(a) + ChunkBytes(b)
  {
    assert [a][1..] == [] && ([a] + [b])[1..] == [b] && [b][1..] == [];
    hide ChunkBytes, Legal;
    assert Flatten([b]) == ChunkBytes(b) + Flatten([]);
  }

  lemma {:induction false} FlattenConcat(a: seq<Chunk>, b: seq<Chunk>)
    requires AllLegal(a) && AllLegal(b)
    ensures AllLegal(a + b) && Flatten(a + b) == Flatten(a) + Flatten(b)
  {
    hide Legal, ChunkBytes;
    if a == [] {
      assert a + b == b;
    } else {
      FlattenConcat(a[1..], b);
      assert (a + b)[1..] == a[1..] + b;
    }
  }

  // ---------------------------------------------------------------- pixel arithmetic

  /** Conversion of a difference of bytes to `signed char`. */
  function SignedChar(x: int): (y: int)
    ensures -128 <= y < 128
  {
    (x + 128) % 256 - 128
  }

  function Add8(x: Byte, d: int): Byte {
    (x + d) % 256
  }

  /** What a chunk makes of the previous pixel. */
  function Apply(c: Chunk, px: Pixel, index: seq<Pixel>): Pixel
    requires |index| == 64 && (c.Index? ==> c.slot < 64)
  {
    match c
    case Index(s) => index[s]
    case Diff(dr, dg, db) => Pixel(Add8(px.r, dr), Add8(px.g, dg), Add8(px.b, db), px.a)
    case Luma(vg, vgr, vgb) => Pixel(Add8(px.r, vg + vgr), Add8(px.g, vg), Add8(px.b, vg + vgb), px.a)
    case Run(_) => px
    case Rgb(r, g, b) => Pixel(r, g, b, px.a)
    case Rgba(r, g, b, a) => Pixel(r, g, b, a)
  }

  /** The cheapest literal chunk that leads from one pixel to the next. */
  function LiteralChunk(prev: Pixel, px: Pixel): Chunk {
    if px.a == prev.a then
      var vr, vg, vb := SignedChar(px.r - prev.r), SignedChar(px.g - prev.g), SignedChar(px.b - prev.b);
      var vgr, vgb := SignedChar(vr - vg), SignedChar(vb - vg);
      if -3 < vr < 2 && -3 < vg < 2 && -3 < vb < 2 then Diff(vr, vg, vb)
      else if -9 < vgr < 8 && -33 < vg < 32 && -9 < vgb < 8 then Luma(vg, vgr, vgb)
      else Rgb(px.r, px.g, px.b)
    else
      Rgba(px.r, px.g, px.b, px.a)
  }

  lemma DifferenceUndone(x: Byte, y: Byte, d: int)
    requires d == SignedChar(y - x)
    ensures Add8(x, d) == y
  {
  }

  lemma SecondDifferenceUndone(x: Byte, y: Byte, vg: int, d: int)
    requires -128 <= vg < 128 && d == SignedChar(SignedChar(y - x) - vg)
    ensures Add8(x, vg + d) == y
  {
    hide SignedChar;
    var k := WholeTurns(y - x);
    var m := WholeTurns(SignedChar(y - x) - vg);
    TurnsCancel(x, y, vg + d, -k - m);
  }

  lemma WholeTurns(x: int) returns (k: int)
    ensures SignedChar(x) == x - 256 * k
  {
    k := (x + 128) / 256;
  }

  lemma TurnsCancel(x: Byte, y: Byte, d: int, k: int)
    requires x + d == y + 256 * k
    ensures Add8(x, d) == y
  {
  }

  lemma LiteralIsExact(prev: Pixel, px: Pixel, index: seq<Pixel>)
    requires |index| == 64
    ensures var c := LiteralChunk(prev, px); Legal(c) && !c.Index? && !c.Run? && Apply(c, prev, index) == px
  {
    hide SignedChar, Add8;
    var vg := SignedChar(px.g - prev.g);
    DifferenceUndone(prev.r, px.r, SignedChar(px.r - prev.r));
    DifferenceUndone(prev.g, px.g, vg);
    DifferenceUndone(prev.b, px.b, SignedChar(px.b - prev.b));
    SecondDifferenceUndone(prev.r, px.r, vg, SignedChar(SignedChar(px.r - prev.r) - vg));
    SecondDifferenceUndone(prev.b, px.b, vg, SignedChar(SignedChar(px.b - prev.b) - vg));
  }

  // ---------------------------------------------------------------- header

  function Be32(v: nat): seq<Byte>
    requires v < 0x1_0000_0000
  {
    [v / 0x100_0000 % 256, v / 0x1_0000 % 256, v / 0x100 % 256, v % 256]
  }

  function ReadBe32(bytes: seq<Byte>, p: nat): nat
    requires p + 4 <= |bytes|
  {
    var a: int, b: int, c: int, d: int := bytes[p], bytes[p + 1], bytes[p + 2], bytes[p + 3];
    a * 0x100_0000 + b * 0x1_0000 + c * 0x100 + d
  }

  function Header(d: Desc): (s: seq<Byte>)
    requires ValidDesc(d)
    ensures |s| == HEADER_SIZE
  {
    PixelCountBound(d);
    MAGIC + Be32(d.width) + Be32(d.height) + [d.channels, d.colorspace]
  }

  function ReadHeader(bytes: seq<Byte>): Desc
    requires |bytes| >= HEADER_SIZE
  {
    Desc(ReadBe32(bytes, 4), ReadBe32(bytes, 8), bytes[12], bytes[13])
  }

  lemma Be32Sum(v: nat)
    requires v < 0x1_0000_0000
    ensures var s := Be32(v);
            var a: int, b: int, c: int, d: int := s[0], s[1], s[2], s[3];
            a * 0x100_0000 + b * 0x1_0000 + c * 0x100 + d == v
  {
  }

  lemma ReadBe32Written(v: nat, bytes: seq<Byte>, p: nat)
    requires v < 0x1_0000_0000 && p + 4 <= |bytes|
    requires forall i :: 0 <= i < 4 ==> bytes[p + i] == Be32(v)[i]
    ensures ReadBe32(bytes, p) == v
  {
    Be32Sum(v);
    assert bytes[p + 0] == Be32(v)[0] && bytes[p + 1] == Be32(v)[1] && bytes[p + 2] == Be32(v)[2];
    assert bytes[p + 3] == Be32(v)[3];
  }

  lemma ReadHeaderWritten(d: Desc, rest: seq<Byte>)
    requires ValidDesc(d)
    ensures ReadHeader(Header(d) + rest) == d
    ensures (Header(d) + rest)[..4] == MAGIC
  {
    var bytes := Header(d) + rest;
    PixelCountBound(d);
    assert forall i :: 0 <= i < HEADER_SIZE ==> bytes[i] == Header(d)[i];
    ReadBe32Written(d.width, bytes, 4);
    ReadBe32Written(d.height, bytes, 8);
    assert bytes[..4] == MAGIC;
  }
}
