/** `qoi_encode` and `qoi_decode` over byte buffers. */
module Qoi {
  import opened Bytes
  import opened Options
  import opened QoiCodec
  import opened QoiFormat

  // ---------------------------------------------------------------- raw pixel data

  /** Pixel `i` of a raw buffer; three-channel pixels are opaque. */
  function PixelAt(data: seq<Byte>, channels: nat, i: nat): Pixel
    requires 3 <= channels <= 4 && (i + 1) * channels <= |data|
  {
    Pixel(data[i * channels], data[i * channels + 1], data[i * channels + 2],
          if channels == 4 then data[i * channels + 3] else 255)
  }

  /** The first `n` pixels of a raw buffer. */
  function Pixels(data: seq<Byte>, channels: nat, n: nat): (r: seq<Pixel>)
    requires 3 <= channels <= 4 && n * channels <= |data|
    ensures |r| == n
    ensures forall i :: 0 <= i < n ==> (i + 1) * channels <= |data| && r[i] == PixelAt(data, channels, i)
  {
    if n == 0 then []
    else
      MulLast(n, channels);
      Pixels(data, channels, n - 1) + [PixelAt(data, channels, n - 1)]
  }

  lemma MulLast(n: nat, k: nat)
    requires n > 0
    ensures (n - 1) * k + k == n * k && (n - 1 + 1) * k == n * k
  {
  }

  function PixelBytes(px: Pixel, channels: nat): (s: seq<Byte>)
    requires 3 <= channels <= 4
    ensures |s| == channels
  {
    if channels == 4 then [px.r, px.g, px.b, px.a] else [px.r, px.g, px.b]
  }

  function RawData(pixels: seq<Pixel>, channels: nat): (s: seq<Byte>)
    requires 3 <= channels <= 4
    ensures |s| == |pixels| * channels
  {
    if pixels == [] then []
    else
      MulLast(|pixels|, channels);
      RawData(pixels[..|pixels| - 1], channels) + PixelBytes(pixels[|pixels| - 1], channels)
  }

  lemma RawDataSnoc(pixels: seq<Pixel>, channels: nat, i: nat)
    requires 3 <= channels <= 4 && i < |pixels|
    ensures RawData(pixels[..i + 1], channels) == RawData(pixels[..i], channels) + PixelBytes(pixels[i], channels)
  {
    assert pixels[..i + 1][..i] == pixels[..i];
  }

  /** Splitting a raw buffer into pixels loses nothing. */
  lemma {:induction false} RawDataOfPixels(data: seq<Byte>, channels: nat, n: nat)
    requires 3 <= channels <= 4 && n * channels <= |data|
    ensures RawData(Pixels(data, channels, n), channels) == data[..n * channels]
  {
    hide RawData, Pixels;
    if n == 0 {
      NothingRaw(channels);
    } else {
      MulLast(n, channels);
      RawDataOfPixels(data, channels, n - 1);
      PixelsLast(data, channels, n);
      var ps := Pixels(data, channels, n);
      RawDataSnoc(ps, channels, n - 1);
      assert ps[..n] == ps;
      BytesOfPixel(data, channels, (n - 1) * channels, ps[n - 1]);
    }
  }

  lemma PixelsLast(data: seq<Byte>, channels: nat, n: nat)
    requires 3 <= channels <= 4 && n > 0 && n * channels <= |data|
    ensures (n - 1) * channels <= |data| && Pixels(data, channels, n)[..n - 1] == Pixels(data, channels, n - 1)
  {
    MulLast(n, channels);
  }

  lemma BytesOfPixel(data: seq<Byte>, channels: nat, at: nat, px: Pixel)
    requires 3 <= channels <= 4 && at + channels <= |data|
    requires px == Pixel(data[at], data[at + 1], data[at + 2], if channels == 4 then data[at + 3] else 255)
    ensures data[..at] + PixelBytes(px, channels) == data[..at + channels]
  {
  }

  // ---------------------------------------------------------------- whole files

  function PixelCount(d: Desc): nat {
    d.width * d.height
  }

  /** The caller's side of the encoder's contract: a legal descriptor goes with enough pixel data. */
  predicate Supplies(d: Desc, data: seq<Byte>) {
    ValidDesc(d) ==> |data| >= PixelCount(d) * d.channels
  }

  function ImageChunks(d: Desc, data: seq<Byte>): seq<Chunk>
    requires ValidDesc(d) && Supplies(d, data)
  {
    EncodeChunks(ENC_START, Pixels(data, d.channels, PixelCount(d)))
  }

  /** The file the encoder produces. */
  function EncodedFile(d: Desc, data: seq<Byte>): (file: seq<Byte>)
    requires ValidDesc(d) && Supplies(d, data)
  {
    EncodedLegal(ENC_START, Pixels(data, d.channels, PixelCount(d)));
    Header(d) + Flatten(ImageChunks(d, data)) + PADDING
  }

  /** The bytes the encoder allocates. */
  function BufferSize(d: Desc): nat {
    PixelCount(d) * (d.channels + 1) + HEADER_SIZE + |PADDING|
  }

  predicate Accepted(data: seq<Byte>, channels: int) {
    && (channels == 0 || channels == 3 || channels == 4)
    && |data| >= HEADER_SIZE + |PADDING|
    && data[..4] == MAGIC && ValidDesc(ReadHeader(data))
  }

  function OutputChannels(d: Desc, channels: int): int {
    if channels == 0 then d.channels as int else channels
  }

  /** What the decoder makes of any sequence of bytes. */
  function DecodedFile(data: seq<Byte>, channels: int): Option<(Desc, seq<Byte>)> {
    if !Accepted(data, channels) then None
    else
      var d := ReadHeader(data);
      var pixels := DecodeBytes(data, |data| - |PADDING|, HEADER_SIZE, DEC_START, PixelCount(d));
      Some((d, RawData(pixels, OutputChannels(d, channels))))
  }

  /** The same pixels with another number of channels: alpha is dropped, or added as opaque. */
  function Converted(data: seq<Byte>, from: nat, to: nat, n: nat): seq<Byte>
    requires 3 <= from <= 4 && 3 <= to <= 4 && n * from <= |data|
  {
    RawData(Pixels(data, from, n), to)
  }

  /** The encoded file is legal, no longer than the buffer the encoder allocates, and addressable by an `int`. */
  lemma EncodedFits(d: Desc, data: seq<Byte>)
    requires ValidDesc(d) && Supplies(d, data)
    ensures |EncodedFile(d, data)| <= BufferSize(d) < 0x8000_0000
    ensures AllLegal(ImageChunks(d, data)) && NoRepeatedIndex(ImageChunks(d, data))
  {
    var ps := Pixels(data, d.channels, PixelCount(d));
    EncodedLegal(ENC_START, ps);
    EncodedLength(ENC_START, ps, d.channels);
    EncodedNoRepeatedIndex(ENC_START, ps);
    PixelCountBound(d);
  }

  lemma BytesRoundTrip(header: seq<Byte>, pixels: seq<Pixel>)
    requires |header| == HEADER_SIZE
    ensures AllLegal(EncodeChunks(ENC_START, pixels))
    ensures var file := header + Flatten(EncodeChunks(ENC_START, pixels)) + PADDING;
            DecodeBytes(file, |file| - |PADDING|, HEADER_SIZE, DEC_START, |pixels|) == pixels
  {
    hide EncodeChunks, Flatten, DecodeChunks, DecodeBytes, EncStep, DecStep;
    EncodedLegal(ENC_START, pixels);
    var cs := EncodeChunks(ENC_START, pixels);
    var file := header + Flatten(cs) + PADDING;
    assert InStep(ENC_START, DEC_START);
    ChunksRoundTrip(ENC_START, DEC_START, pixels);
    RepeatNone(START, pixels);
    assert HoldsAt(file, HEADER_SIZE, Flatten(cs));
    BytesAreChunks(file, HEADER_SIZE, DEC_START, cs, |pixels|);
  }

  lemma EncodedAccepted(d: Desc, rest: seq<Byte>, channels: int)
    requires ValidDesc(d) && |rest| >= |PADDING|
    requires channels == 0 || channels == 3 || channels == 4
    ensures Accepted(Header(d) + rest, channels) && ReadHeader(Header(d) + rest) == d
  {
    ReadHeaderWritten(d, rest);
  }

  lemma DecodedFileIs(d: Desc, body: seq<Byte>, channels: int, pixels: seq<Pixel>)
    requires ValidDesc(d) && |pixels| == PixelCount(d)
    requires channels == 0 || channels == 3 || channels == 4
    requires var file := Header(d) + body + PADDING;
             DecodeBytes(file, |file| - |PADDING|, HEADER_SIZE, DEC_START, |pixels|) == pixels
    ensures DecodedFile(Header(d) + body + PADDING, channels) == Some((d, RawData(pixels, OutputChannels(d, channels))))
  {
    EncodedAccepted(d, body + PADDING, channels);
    assert Header(d) + body + PADDING == Header(d) + (body + PADDING);
    hide DecodeBytes, Header, ReadHeader, ValidDesc, RawData, Accepted;
  }

  /** Decoding an encoded image gives back its descriptor and its pixels, in the number of channels asked for; when that
      is the number the image has, the raw data comes back byte for byte. */
  lemma RoundTrip(d: Desc, data: seq<Byte>, channels: int)
    requires ValidDesc(d) && Supplies(d, data)
    requires channels == 0 || channels == 3 || channels == 4
    ensures DecodedFile(EncodedFile(d, data), channels) ==
            Some((d, Converted(data, d.channels, OutputChannels(d, channels), PixelCount(d))))
    ensures OutputChannels(d, channels) == d.channels ==>
              DecodedFile(EncodedFile(d, data), channels) == Some((d, data[..PixelCount(d) * d.channels]))
  {
    var ps := Pixels(data, d.channels, PixelCount(d));
    BytesRoundTrip(Header(d), ps);
    RawDataOfPixels(data, d.channels, PixelCount(d));
    hide DecodeBytes, Header, RawData, DecodedFile, Flatten, EncodeChunks, Pixels;
    DecodedFileIs(d, Flatten(EncodeChunks(ENC_START, ps)), channels, ps);
  }

  // ---------------------------------------------------------------- the encoder

  /** `bytes[p++] = v` for each byte of `s`. */
  method Put(bytes: array<Byte>, p: nat, s: seq<Byte>) returns (p': nat)
    requires p + |s| <= bytes.Length
    modifies bytes
    ensures p' == p + |s| && bytes[..p'] == old(bytes[..p]) + s
  {
    p' := p;
    for i := 0 to |s|
      invariant p' == p + i && bytes[..p'] == old(bytes[..p]) + s[..i]
    {
      bytes[p'] := s[i];
      p' := p' + 1;
      assert s[..i + 1] == s[..i] + [s[i]];
    }
    assert s[..|s|] == s;
  }

  /** `qoi_write_32`. */
  method Write32(bytes: array<Byte>, p: nat, v: nat) returns (p': nat)
    requires v < 0x1_0000_0000 && p + 4 <= bytes.Length
    modifies bytes
    ensures p' == p + 4 && bytes[..p'] == old(bytes[..p]) + Be32(v)
  {
    bytes[p] := v / 0x100_0000 % 256;
    bytes[p + 1] := v / 0x1_0000 % 256;
    bytes[p + 2] := v / 0x100 % 256;
    bytes[p + 3] := v % 256;
    p' := p + 4;
  }

  method WriteHeader(bytes: array<Byte>, d: Desc) returns (p: nat)
    requires ValidDesc(d) && bytes.Length >= HEADER_SIZE
    modifies bytes
    ensures p == HEADER_SIZE && bytes[..p] == Header(d)
  {
    PixelCountBound(d);
    p := Write32(bytes, 0, 0x716f_6966);
    p := Write32(bytes, p, d.width);
    p := Write32(bytes, p, d.height);
    bytes[p] := d.channels;
    bytes[p + 1] := d.colorspace;
    p := p + 2;
    assert Be32(0x716f_6966) == MAGIC;
  }

  /** The bytes of a literal, as the encoder's branches write them. */
  lemma LiteralBytes(prev: Pixel, px: Pixel)
    requires Legal(LiteralChunk(prev, px))
    ensures px.a != prev.a ==> ChunkBytes(LiteralChunk(prev, px)) == [0xff, px.r, px.g, px.b, px.a]
    ensures px.a == prev.a ==>
      var vr, vg, vb := SignedChar(px.r - prev.r), SignedChar(px.g - prev.g), SignedChar(px.b - prev.b);
      var vgr, vgb := SignedChar(vr - vg), SignedChar(vb - vg);
      if -3 < vr < 2 && -3 < vg < 2 && -3 < vb < 2 then
        ChunkBytes(LiteralChunk(prev, px)) == [0x40 + 16 * (vr + 2) + 4 * (vg + 2) + (vb + 2)]
      else if -9 < vgr < 8 && -33 < vg < 32 && -9 < vgb < 8 then
        ChunkBytes(LiteralChunk(prev, px)) == [0x80 + (vg + 32), 16 * (vgr + 8) + (vgb + 8)]
      else ChunkBytes(LiteralChunk(prev, px)) == [0xfe, px.r, px.g, px.b]
  {
    hide SignedChar;
  }

  /** The part of the encoder's loop that writes a pixel as a difference or in full. */
  method WriteLiteral(bytes: array<Byte>, p: nat, prev: Pixel, px: Pixel) returns (p': nat)
    requires Legal(LiteralChunk(prev, px)) && p + |ChunkBytes(LiteralChunk(prev, px))| <= bytes.Length
    modifies bytes
    ensures p' == p + |ChunkBytes(LiteralChunk(prev, px))|
    ensures bytes[..p'] == old(bytes[..p]) + ChunkBytes(LiteralChunk(prev, px))
  {
    hide SignedChar, LiteralChunk, ChunkBytes, Legal;
    LiteralBytes(prev, px);
    if px.a == prev.a {
      var vr, vg, vb := SignedChar(px.r - prev.r), SignedChar(px.g - prev.g), SignedChar(px.b - prev.b);
      var vgr, vgb := SignedChar(vr - vg), SignedChar(vb - vg);
      if -3 < vr < 2 && -3 < vg < 2 && -3 < vb < 2 {
        p' := Put(bytes, p, [0x40 + 16 * (vr + 2) + 4 * (vg + 2) + (vb + 2)]);
      } else if -9 < vgr < 8 && -33 < vg < 32 && -9 < vgb < 8 {
        p' := Put(bytes, p, [0x80 + (vg + 32), 16 * (vgr + 8) + (vgb + 8)]);
      } else {
        p' := Put(bytes, p, [0xfe, px.r, px.g, px.b]);
      }
    } else {
      p' := Put(bytes, p, [0xff, px.r, px.g, px.b, px.a]);
    }
  }

  /** The chunk for a pixel that differs from the previous one. */
  function NewPixelChunk(index: seq<Pixel>, prev: Pixel, px: Pixel): (c: Chunk)
    requires |index| == 64
    ensures Legal(c)
  {
    LiteralIsExact(prev, px, index);
    if index[ColorHash(px)] == px then Index(ColorHash(px)) else LiteralChunk(prev, px)
  }

  /** The part of the encoder's loop that handles a pixel that differs from the previous one. */
  method EncodeNewPixel(bytes: array<Byte>, p: nat, index: array<Pixel>, prev: Pixel, px: Pixel) returns (p': nat)
    requires index.Length == 64 && p + |ChunkBytes(NewPixelChunk(index[..], prev, px))| <= bytes.Length
    modifies bytes, index
    ensures p' == p + |ChunkBytes(old(NewPixelChunk(index[..], prev, px)))|
    ensures bytes[..p'] == old(bytes[..p]) + ChunkBytes(old(NewPixelChunk(index[..], prev, px)))
    ensures index[..] == old(index[..])[ColorHash(px) := px]
  {
    var indexPos := ColorHash(px);
    LiteralIsExact(prev, px, index[..]);
    if index[indexPos] == px {
      p' := Put(bytes, p, [indexPos]);
    } else {
      index[indexPos] := px;
      p' := WriteLiteral(bytes, p, prev, px);
    }
  }

  /** What the specification's step emits, in terms of the pieces the loop body writes. */
  lemma StepBytes(st: EncState, px: Pixel, last: bool)
    requires EncOk(st)
    ensures var (st', cs) := EncStep(st, px, last);
            AllLegal(cs) &&
            if px == st.prev then
              Flatten(cs) == if st.run + 1 == 62 || last then [0xc0 + st.run] else []
            else
              && st' == EncState(st.index[ColorHash(px) := px], px, 0)
              && Flatten(cs) == (if st.run > 0 then [0xc0 + (st.run - 1)] else []) +
                                ChunkBytes(NewPixelChunk(st.index, st.prev, px))
  {
    LiteralIsExact(st.prev, px, st.index);
    var pending := Run(if st.run == 0 then 1 else st.run);
    FlattenFew(Run(st.run + 1), pending);
    FlattenFew(NewPixelChunk(st.index, st.prev, px), pending);
    FlattenFew(pending, NewPixelChunk(st.index, st.prev, px));
    hide LiteralChunk, ColorHash, Flatten;
    if px != st.prev {
      assert st.index[ColorHash(px)] == px ==> st.index[ColorHash(px) := px] == st.index;
      assert EncStep(st, px, last).1 == (if st.run > 0 then [pending] else []) + [NewPixelChunk(st.index, st.prev, px)];
      assert [] + [NewPixelChunk(st.index, st.prev, px)] == [NewPixelChunk(st.index, st.prev, px)];
    }
  }

  /** The encoder's loop body for one pixel. */
  method EncodePixel(bytes: array<Byte>, p: nat, index: array<Pixel>, prev: Pixel, px: Pixel, run: nat, last: bool)
    returns (p': nat, run': nat)
    requires index.Length == 64 && run < 62
    requires AllLegal(EncStep(EncState(index[..], prev, run), px, last).1)
    requires p + |Flatten(EncStep(EncState(index[..], prev, run), px, last).1)| <= bytes.Length
    modifies bytes, index
    ensures var (st', cs) := old(EncStep(EncState(index[..], prev, run), px, last));
            p' == p + |Flatten(cs)| && bytes[..p'] == old(bytes[..p]) + Flatten(cs) &&
            EncState(index[..], px, run') == st'
  {
    hide ColorHash, Flatten, ChunkBytes, NewPixelChunk;
    p', run' := p, run;
    StepBytes(EncState(index[..], prev, run), px, last);
    if px == prev {
      run' := run' + 1;
      if run' == 62 || last {
        p' := Put(bytes, p', [0xc0 + (run' - 1)]);
        run' := 0;
      }
    } else {
      if run' > 0 {
        p' := Put(bytes, p', [0xc0 + (run' - 1)]);
        run' := 0;
      }
      p' := EncodeNewPixel(bytes, p', index, prev, px);
    }
  }

  /** The position of pixel `i` in a raw buffer. */
  ghost function PixelOffset(i: nat, channels: nat): nat {
    i * channels
  }

  /** Positions in a raw buffer advance by one pixel at a time, so the last position is that of the last pixel. */
  lemma OffsetFacts(i: nat, n: nat, channels: nat)
    requires 3 <= channels <= 4 && i <= n
    ensures PixelOffset(i, channels) <= PixelOffset(n, channels) == n * channels && PixelOffset(0, channels) == 0
    ensures i < n <==> PixelOffset(i, channels) < PixelOffset(n, channels)
    ensures i == n - 1 <==> PixelOffset(i, channels) == PixelOffset(n, channels) - channels
    ensures PixelOffset(i, channels) + channels == PixelOffset(i + 1, channels)
    ensures i < n ==> PixelOffset(i + 1, channels) <= PixelOffset(n, channels)
  {
  }

  lemma PixelAtOffset(data: seq<Byte>, channels: nat, i: nat, n: nat)
    requires 3 <= channels <= 4 && i < n && n * channels <= |data|
    ensures PixelOffset(i, channels) + channels <= |data|
    ensures var at := PixelOffset(i, channels);
            Pixels(data, channels, n)[i] ==
            Pixel(data[at], data[at + 1], data[at + 2], if channels == 4 then data[at + 3] else 255)
  {
    OffsetFacts(i, n, channels);
    assert Pixels(data, channels, n)[i] == PixelAt(data, channels, i);
  }

  /** What the encoder still has to write, one pixel further on. */
  lemma EncodeAdvances(st: EncState, ps: seq<Pixel>, i: nat)
    requires EncOk(st) && i < |ps|
    ensures AllLegal(EncodeChunks(st, ps[i..]))
    ensures var (st', cs) := EncStep(st, ps[i], i == |ps| - 1);
            AllLegal(cs) && AllLegal(EncodeChunks(st', ps[i + 1..])) &&
            Flatten(EncodeChunks(st, ps[i..])) == Flatten(cs) + Flatten(EncodeChunks(st', ps[i + 1..]))
  {
    EncodedLegal(st, ps[i..]);
    StepBytes(st, ps[i], i == |ps| - 1);
    assert ps[i..][0] == ps[i] && ps[i..][1..] == ps[i + 1..] && (|ps[i..]| == 1 <==> i == |ps| - 1);
    hide EncStep, Flatten;
    var (st', cs) := EncStep(st, ps[i], i == |ps| - 1);
    EncodedLegal(st', ps[i + 1..]);
    FlattenConcat(cs, EncodeChunks(st', ps[i + 1..]));
  }

  /** Bytes written so far and bytes still to be written make up the whole output. */
  ghost predicate Remaining(written: seq<Byte>, st: EncState, ps: seq<Pixel>, i: nat, total: seq<Byte>) {
    EncOk(st) && i <= |ps| && AllLegal(EncodeChunks(st, ps[i..])) &&
    written + Flatten(EncodeChunks(st, ps[i..])) == total
  }

  lemma RemainingAdvances(written: seq<Byte>, st: EncState, ps: seq<Pixel>, i: nat, total: seq<Byte>)
    requires Remaining(written, st, ps, i, total) && i < |ps|
    ensures var (st', cs) := EncStep(st, ps[i], i == |ps| - 1);
            AllLegal(cs) && |written| + |Flatten(cs)| <= |total| &&
            Remaining(written + Flatten(cs), st', ps, i + 1, total)
  {
    EncodeAdvances(st, ps, i);
    hide EncStep, Flatten, EncodeChunks;
    var (st', cs) := EncStep(st, ps[i], i == |ps| - 1);
    assert written + Flatten(cs) + Flatten(EncodeChunks(st', ps[i + 1..])) == total;
  }

  /** The encoder's loop over all pixels. */
  method EncodePixels(bytes: array<Byte>, start: nat, data: seq<Byte>, channels: nat, n: nat) returns (p: nat)
    requires 3 <= channels <= 4 && n * channels <= |data| && start <= bytes.Length
    requires AllLegal(EncodeChunks(ENC_START, Pixels(data, channels, n)))
    requires start + |Flatten(EncodeChunks(ENC_START, Pixels(data, channels, n)))| <= bytes.Length
    modifies bytes
    ensures p == start + |Flatten(EncodeChunks(ENC_START, Pixels(data, channels, n)))|
    ensures bytes[..p] == old(bytes[..start]) + Flatten(EncodeChunks(ENC_START, Pixels(data, channels, n)))
  {
    hide Flatten, EncodeChunks, EncStep, AllLegal, Pixels, PixelOffset, Remaining, ColorHash;
    p := start;
    ghost var ps := Pixels(data, channels, n);
    ghost var total := old(bytes[..start]) + Flatten(EncodeChunks(ENC_START, ps));
    var index := new Pixel[64](_ => ZERO);
    var run: nat, pxPrev := 0, START;
    var px := pxPrev;
    var pxLen := n * channels;
    var pxEnd := pxLen - channels;
    var pxPos := 0;
    ghost var i := 0;
    assert index[..] == ZeroIndex() && ps[0..] == ps;
    OffsetFacts(0, n, channels);
    AllRemaining(bytes[..p], ENC_START, ps);
    while pxPos < pxLen
      invariant 0 <= i <= n && pxPos == PixelOffset(i, channels)
      invariant run < 62 && px == pxPrev && (channels == 3 ==> px.a == 255)
      invariant p <= bytes.Length && Remaining(bytes[..p], EncState(index[..], pxPrev, run), ps, i, total)
      decreases n - i
    {
      OffsetFacts(i, n, channels);
      PixelAtOffset(data, channels, i, n);
      px := Pixel(data[pxPos + 0], data[pxPos + 1], data[pxPos + 2], if channels == 4 then data[pxPos + 3] else px.a);
      assert px == ps[i];
      RemainingAdvances(bytes[..p], EncState(index[..], pxPrev, run), ps, i, total);
      p, run := EncodePixel(bytes, p, index, pxPrev, px, run, pxPos == pxEnd);
      pxPrev := px;
      pxPos := pxPos + channels;
      i := i + 1;
    }
    OffsetFacts(i, n, channels);
    NothingLeft(bytes[..p], EncState(index[..], pxPrev, run), ps, i, total);
  }

  lemma AllRemaining(written: seq<Byte>, st: EncState, ps: seq<Pixel>)
    requires EncOk(st) && AllLegal(EncodeChunks(st, ps))
    ensures Remaining(written, st, ps, 0, written + Flatten(EncodeChunks(st, ps)))
  {
    assert ps[0..] == ps;
  }

  lemma NothingLeft(written: seq<Byte>, st: EncState, ps: seq<Pixel>, i: nat, total: seq<Byte>)
    requires Remaining(written, st, ps, i, total) && i == |ps|
    ensures written == total
  {
    assert ps[i..] == [] && EncodeChunks(st, []) == [] && Flatten([]) == [];
  }

  /** `qoi_encode`. */
  method Encode(data: seq<Byte>, d: Desc) returns (r: Option<(array<Byte>, nat)>)
    requires Supplies(d, data)
    ensures r.Some? <==> ValidDesc(d)
    ensures r.Some? ==> var (bytes, outLen) := r.value;
                        fresh(bytes) && bytes.Length == BufferSize(d) && outLen <= bytes.Length &&
                        bytes[..outLen] == EncodedFile(d, data)
  {
    if d.width == 0 || d.height == 0 || d.channels < 3 || d.channels > 4 || d.colorspace > 1 ||
       d.height >= PIXELS_MAX / d.width
    {
      return None;
    }
    EncodedFits(d, data);
    var maxSize := d.width * d.height * (d.channels + 1) + HEADER_SIZE + |PADDING|;
    var bytes := new Byte[maxSize](_ => 0);
    var p := WriteHeader(bytes, d);
    p := EncodePixels(bytes, p, data, d.channels, d.width * d.height);
    p := Put(bytes, p, PADDING);
    return Some((bytes, p));
  }

  // ---------------------------------------------------------------- the decoder

  /** `qoi_read_32`. */
  method Read32(bytes: seq<Byte>, p: nat) returns (v: nat, p': nat)
    requires p + 4 <= |bytes|
    ensures v == ReadBe32(bytes, p) && p' == p + 4
  {
    var a: int, b: int, c: int, d: int := bytes[p], bytes[p + 1], bytes[p + 2], bytes[p + 3];
    v := a * 0x100_0000 + b * 0x1_0000 + c * 0x100 + d;
    p' := p + 4;
  }

  /** The decoder's dispatch on one chunk. */
  method DecodeChunk(bytes: seq<Byte>, p: nat, index: array<Pixel>, px: Pixel, run: nat)
    returns (p': nat, px': Pixel, run': nat)
    requires p + 5 <= |bytes| && index.Length == 64 && run == 0
    modifies index
    ensures var (c, q) := ReadChunk(bytes, p);
            p' == q && DecState(index[..], px', run') == old(DecStep(DecState(index[..], px, 0), c))
  {
    p', px', run' := p + 1, px, run;
    var b1: int := bytes[p];
    if b1 == 0xfe {
      px' := Pixel(bytes[p'], bytes[p' + 1], bytes[p' + 2], px.a);
      p' := p' + 3;
    } else if b1 == 0xff {
      px' := Pixel(bytes[p'], bytes[p' + 1], bytes[p' + 2], bytes[p' + 3]);
      p' := p' + 4;
    } else if b1 / 64 == 0 {
      px' := index[b1];
    } else if b1 / 64 == 1 {
      px' := Pixel(Add8(px.r, b1 / 16 % 4 - 2), Add8(px.g, b1 / 4 % 4 - 2), Add8(px.b, b1 % 4 - 2), px.a);
    } else if b1 / 64 == 2 {
      var b2: int := bytes[p'];
      p' := p' + 1;
      var vg := b1 % 64 - 32;
      px' := Pixel(Add8(px.r, vg - 8 + b2 / 16), Add8(px.g, vg), Add8(px.b, vg - 8 + b2 % 16), px.a);
    } else {
      run' := b1 % 64;
    }
    index[ColorHash(px')] := px';
  }

  /** The decoder's loop; every read is inside `data` and every write inside `pixels`, whatever the input. */
  method DecodePixels(data: seq<Byte>, start: nat, n: nat, channels: nat) returns (pixels: array<Byte>)
    requires |data| >= |PADDING| && 3 <= channels <= 4
    ensures fresh(pixels) && pixels[..] == RawData(DecodeBytes(data, |data| - |PADDING|, start, DEC_START, n), channels)
  {
    hide PixelOffset, RawData, ReadChunk, DecStep, ColorHash, DecodeBytes;
    var pxLen := n * channels;
    pixels := new Byte[pxLen](_ => 0);
    var index := new Pixel[64](_ => ZERO);
    var px, run := START, 0;
    var p: nat := start;
    var chunksLen := |data| - |PADDING|;
    var pxPos := 0;
    ghost var i := 0;
    ghost var all := DecodeBytes(data, chunksLen, start, DEC_START, n);
    assert index[..] == ZeroIndex();
    OffsetFacts(0, n, channels);
    NothingRaw(channels);
    while pxPos < pxLen
      invariant 0 <= i <= n && pxPos == PixelOffset(i, channels) <= pxLen == PixelOffset(n, channels) == pixels.Length
      invariant DecodeBytes(data, chunksLen, p, DecState(index[..], px, run), n - i) == all[i..]
      invariant pixels[..pxPos] == RawData(all[..i], channels)
      invariant fresh(index) && fresh(pixels)
      decreases n - i
    {
      OffsetFacts(i, n, channels);
      DecodeOne(data, chunksLen, p, DecState(index[..], px, run), n - i);
      if run > 0 {
        run := run - 1;
      } else if p < chunksLen {
        p, px, run := DecodeChunk(data, p, index, px, run);
      }
      assert all[i..][0] == px;
      assert all[i..][1..] == DecodeBytes(data, chunksLen, p, DecState(index[..], px, run), n - i - 1);
      assert all[i..][1..] == all[i + 1..] && all[i] == px;
      RawDataSnoc(all, channels, i);
      var _ := Put(pixels, pxPos, PixelBytes(px, channels));
      pxPos := pxPos + channels;
      i := i + 1;
    }
    OffsetFacts(i, n, channels);
    assert all[..n] == all && pixels[..] == pixels[..pxPos];
  }

  lemma NothingRaw(channels: nat)
    requires 3 <= channels <= 4
    ensures RawData([], channels) == []
  {
  }

  /** One pixel of the decoder. */
  lemma DecodeOne(bytes: seq<Byte>, chunksLen: nat, p: nat, st: DecState, n: nat)
    requires chunksLen + 8 <= |bytes| && |st.index| == 64 && n > 0
    ensures var all := DecodeBytes(bytes, chunksLen, p, st, n);
            if st.run > 0 then
              all[0] == st.px && all[1..] == DecodeBytes(bytes, chunksLen, p, st.(run := st.run - 1), n - 1)
            else if p >= chunksLen then all[0] == st.px && all[1..] == DecodeBytes(bytes, chunksLen, p, st, n - 1)
            else
              var (c, q) := ReadChunk(bytes, p);
              all[0] == DecStep(st, c).px && all[1..] == DecodeBytes(bytes, chunksLen, q, DecStep(st, c), n - 1)
  {
    hide ReadChunk, DecStep;
  }

  /** `qoi_decode`. */
  method Decode(data: seq<Byte>, channels: int) returns (r: Option<(Desc, array<Byte>)>)
    ensures r.Some? <==> DecodedFile(data, channels).Some?
    ensures r.Some? ==> Some((r.value.0, r.value.1[..])) == DecodedFile(data, channels)
  {
    if (channels != 0 && channels != 3 && channels != 4) || |data| < HEADER_SIZE + |PADDING| {
      return None;
    }
    var headerMagic, p := Read32(data, 0);
    var width, height;
    width, p := Read32(data, p);
    height, p := Read32(data, p);
    var d := Desc(width, height, data[p], data[p + 1]);
    MagicRead(data);
    if d.width == 0 || d.height == 0 || d.channels < 3 || d.channels > 4 || d.colorspace > 1 ||
       headerMagic != 0x716f_6966 || d.height >= PIXELS_MAX / d.width
    {
      return None;
    }
    var outChannels := if channels == 0 then d.channels as int else channels;
    var pixels := DecodePixels(data, p + 2, d.width * d.height, outChannels);
    return Some((d, pixels));
  }

  lemma MagicRead(data: seq<Byte>)
    requires |data| >= 4
    ensures ReadBe32(data, 0) == 0x716f_6966 <==> data[..4] == MAGIC
  {
    assert data[..4] == [data[0], data[1], data[2], data[3]];
  }
}
