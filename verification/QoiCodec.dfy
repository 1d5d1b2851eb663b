/** What `qoi_encode` and `qoi_decode` compute, and that they are inverse to each other. */
module QoiCodec {
  import opened Bytes
  import opened QoiFormat

  // ---------------------------------------------------------------- encoder

  datatype EncState = EncState(index: seq<Pixel>, prev: Pixel, run: nat)

  predicate EncOk(st: EncState) {
    |st.index| == 64 && st.run < 62
  }

  /** The zero-initialised index of either side. */
  function ZeroIndex(): (index: seq<Pixel>)
    ensures |index| == 64 && forall i :: 0 <= i < 64 ==> index[i] == ZERO
  {
    seq(64, _ => ZERO)
  }

  const ENC_START := EncState(ZeroIndex(), START, 0)

  function EncStep(st: EncState, px: Pixel, last: bool): (r: (EncState, seq<Chunk>))
    requires EncOk(st)
    ensures EncOk(r.0)
  {
    if px == st.prev then
      if st.run + 1 == 62 || last then (st.(run := 0), [Run(st.run + 1)]) else (st.(run := st.run + 1), [])
    else
      var flush := if st.run > 0 then [Run(st.run)] else [];
      var h := ColorHash(px);
      if st.index[h] == px then (EncState(st.index, px, 0), flush + [Index(h)])
      else (EncState(st.index[h := px], px, 0), flush + [LiteralChunk(st.prev, px)])
  }

  function EncodeChunks(st: EncState, pixels: seq<Pixel>): seq<Chunk>
    requires EncOk(st)
    decreases |pixels|
  {
    if pixels == [] then []
    else
      var (st', cs) := EncStep(st, pixels[0], |pixels| == 1);
      cs + EncodeChunks(st', pixels[1..])
  }

  // ---------------------------------------------------------------- decoder

  datatype DecState = DecState(index: seq<Pixel>, px: Pixel, run: nat)

  const DEC_START := DecState(ZeroIndex(), START, 0)

  /** The decoder stores the pixel after every chunk, runs included. */
  function DecStep(st: DecState, c: Chunk): (r: DecState)
    requires |st.index| == 64 && (c.Index? ==> c.slot < 64) && (c.Run? ==> c.length >= 1)
    ensures |r.index| == 64
  {
    var px := Apply(c, st.px, st.index);
    DecState(st.index[ColorHash(px) := px], px, if c.Run? then c.length - 1 else 0)
  }

  /** `n` pixels from a chunk sequence; when the chunks run out the last pixel is repeated. */
  function DecodeChunks(st: DecState, cs: seq<Chunk>, n: nat): (r: seq<Pixel>)
    requires |st.index| == 64 && AllLegal(cs)
    ensures |r| == n
    decreases n
  {
    if n == 0 then []
    else if st.run > 0 then [st.px] + DecodeChunks(st.(run := st.run - 1), cs, n - 1)
    else if cs == [] then [st.px] + DecodeChunks(st, cs, n - 1)
    else
      assert cs[0] in cs;
      var st' := DecStep(st, cs[0]);
      [st'.px] + DecodeChunks(st', cs[1..], n - 1)
  }

  /** `n` pixels from the bytes of a file, whatever they are. */
  function DecodeBytes(bytes: seq<Byte>, chunksLen: nat, p: nat, st: DecState, n: nat): (r: seq<Pixel>)
    requires chunksLen + 8 <= |bytes| && |st.index| == 64
    ensures |r| == n
    decreases n
  {
    if n == 0 then []
    else if st.run > 0 then [st.px] + DecodeBytes(bytes, chunksLen, p, st.(run := st.run - 1), n - 1)
    else if p >= chunksLen then [st.px] + DecodeBytes(bytes, chunksLen, p, st, n - 1)
    else
      var (c, p') := ReadChunk(bytes, p);
      var st' := DecStep(st, c);
      [st'.px] + DecodeBytes(bytes, chunksLen, p', st', n - 1)
  }

  // ---------------------------------------------------------------- legality and length

  /** Every chunk the encoder emits is in range. */
  lemma {:induction false} EncodedLegal(st: EncState, pixels: seq<Pixel>)
    requires EncOk(st)
    ensures AllLegal(EncodeChunks(st, pixels))
    decreases |pixels|
  {
    if pixels != [] {
      LiteralIsExact(st.prev, pixels[0], st.index);
      EncodedLegal(EncStep(st, pixels[0], |pixels| == 1).0, pixels[1..]);
    }
  }

  predicate NoRepeatedIndex(cs: seq<Chunk>) {
    forall i :: 0 <= i < |cs| - 1 && cs[i].Index? ==> cs[i + 1] != cs[i]
  }

  /** A step emits at most a run and one more chunk; an INDEX chunk names the slot of the new previous pixel. */
  lemma StepChunks(st: EncState, px: Pixel, last: bool)
    requires EncOk(st)
    ensures var (st', cs) := EncStep(st, px, last);
            && |cs| <= 2 && (|cs| == 2 ==> cs[0].Run?)
            && (cs != [] && cs[|cs| - 1].Index? ==> st'.index[cs[|cs| - 1].slot] == st'.prev)
            && (cs != [] && cs[0].Index? ==> st.run == 0 && cs[0].slot < 64 && st.index[cs[0].slot] != st.prev)
            && (cs == [] ==> st'.run > 0)
  {
    hide LiteralChunk, ColorHash, Apply;
    LiteralIsExact(st.prev, px, st.index);
  }

  lemma JoinChunks(cs: seq<Chunk>, rest: seq<Chunk>)
    requires NoRepeatedIndex(rest) && |cs| <= 2 && (|cs| == 2 ==> cs[0].Run?)
    requires cs != [] && rest != [] && cs[|cs| - 1].Index? ==> rest[0] != cs[|cs| - 1]
    ensures NoRepeatedIndex(cs + rest)
  {
    var all := cs + rest;
    forall i | 0 <= i < |all| - 1 && all[i].Index?
      ensures all[i + 1] != all[i]
    {
      if i >= |cs| {
        assert all[i] == rest[i - |cs|] && all[i + 1] == rest[i + 1 - |cs|];
      }
    }
  }

  /** No two consecutive INDEX chunks name the same slot. The second part is what carries the induction: after an INDEX
      chunk for the slot of the previous pixel, the next chunk is another one. */
  lemma {:induction false} EncodedNoRepeatedIndex(st: EncState, pixels: seq<Pixel>)
    requires EncOk(st)
    ensures NoRepeatedIndex(EncodeChunks(st, pixels))
    ensures var cs := EncodeChunks(st, pixels);
            cs != [] && cs[0].Index? ==> st.run == 0 && cs[0].slot < 64 && st.index[cs[0].slot] != st.prev
    decreases |pixels|
  {
    hide EncStep;
    if pixels != [] {
      var (st', cs) := EncStep(st, pixels[0], |pixels| == 1);
      EncodedNoRepeatedIndex(st', pixels[1..]);
      StepChunks(st, pixels[0], |pixels| == 1);
      JoinChunks(cs, EncodeChunks(st', pixels[1..]));
    }
  }

  lemma MulStep(n: nat, k: nat)
    requires n > 0
    ensures n * k == (n - 1) * k + k
  {
  }

  /** The amortised bound: each pixel pays for at most `channels + 1` bytes, and a pending run has been paid for. */
  lemma {:induction false} EncodedLength(st: EncState, pixels: seq<Pixel>, channels: nat)
    requires EncOk(st) && (channels == 3 || channels == 4)
    requires channels == 3 ==> st.prev.a == 255 && forall px :: px in pixels ==> px.a == 255
    ensures AllLegal(EncodeChunks(st, pixels))
    ensures |Flatten(EncodeChunks(st, pixels))| <= |pixels| * (channels + 1) + (if st.run > 0 then 1 else 0)
    decreases |pixels|
  {
    EncodedLegal(st, pixels);
    if pixels != [] {
      var (st', cs) := EncStep(st, pixels[0], |pixels| == 1);
      EncodedLength(st', pixels[1..], channels);
      LiteralIsExact(st.prev, pixels[0], st.index);
      var rest := EncodeChunks(st', pixels[1..]);
      assert AllLegal(cs);
      FlattenConcat(cs, rest);
      StepLength(st, pixels[0], |pixels| == 1, channels);
      MulStep(|pixels|, channels + 1);
    }
  }

  lemma StepLength(st: EncState, px: Pixel, last: bool, channels: nat)
    requires EncOk(st) && (channels == 3 || channels == 4)
    requires channels == 3 ==> st.prev.a == 255 == px.a
    ensures var (st', cs) := EncStep(st, px, last);
            AllLegal(cs) &&
            |Flatten(cs)| + (if st'.run > 0 then 1 else 0) <= channels + 1 + (if st.run > 0 then 1 else 0)
  {
    LiteralIsExact(st.prev, px, st.index);
    hide LiteralChunk, ColorHash;
    var (_, cs) := EncStep(st, px, last);
    if |cs| == 2 {
      assert cs[1..] == [cs[1]] && cs[1..][1..] == [];
      assert Flatten(cs[1..]) == ChunkBytes(cs[1]);
    } else if |cs| == 1 {
      assert Flatten(cs[1..]) == [];
    }
  }

  // ---------------------------------------------------------------- round trip

  /** Encoder and decoder agree on the previous pixel and on every slot of the index, except that slot 53, the slot of
      the start pixel, may hold the start pixel on the decoder's side while it is still zero on the encoder's. */
  ghost predicate InStep(es: EncState, ds: DecState) {
    && EncOk(es) && |ds.index| == 64 && ds.run == 0 && ds.px == es.prev
    && (es.index[ColorHash(es.prev)] == es.prev || (es.prev == START && es.index[53] == ZERO))
    && forall i :: 0 <= i < 64 && ds.index[i] != es.index[i] ==> i == 53 && es.index[i] == ZERO && ds.index[i] == START
  }

  function Repeat(px: Pixel, n: nat): (r: seq<Pixel>)
    ensures |r| == n && forall i :: 0 <= i < n ==> r[i] == px
  {
    seq(n, _ => px)
  }

  lemma {:induction false} DecodeRun(ds: DecState, cs: seq<Chunk>, n: nat)
    requires |ds.index| == 64 && AllLegal(cs)
    ensures DecodeChunks(ds, cs, ds.run + n) == Repeat(ds.px, ds.run) + DecodeChunks(ds.(run := 0), cs, n)
    decreases ds.run
  {
    if ds.run > 0 {
      var ds' := ds.(run := ds.run - 1);
      DecodeRun(ds', cs, n);
      assert Repeat(ds.px, ds.run) == [ds.px] + Repeat(ds.px, ds.run - 1);
    }
  }

  /** Decoding a run chunk repeats the previous pixel and leaves the two sides in step. */
  lemma RunInStep(es: EncState, ds: DecState, length: nat, rest: seq<Chunk>, n: nat)
    requires InStep(es, ds) && 1 <= length <= 62 && AllLegal(rest)
    ensures AllLegal([Run(length)] + rest)
    ensures InStep(es.(run := 0), DecStep(ds, Run(length)).(run := 0))
    ensures DecodeChunks(ds, [Run(length)] + rest, length + n) ==
            Repeat(es.prev, length) + DecodeChunks(DecStep(ds, Run(length)).(run := 0), rest, n)
  {
    var ds' := DecStep(ds, Run(length));
    DecodeRun(ds', rest, n);
    assert ([Run(length)] + rest)[1..] == rest;
    assert Repeat(es.prev, length) == [es.prev] + Repeat(es.prev, length - 1);
  }

  /** The chunk for a new pixel is decoded to that pixel and leaves the two sides in step. */
  lemma NewPixelInStep(es: EncState, ds: DecState, px: Pixel)
    requires InStep(es, ds) && es.run == 0 && px != es.prev
    ensures var (es', cs) := EncStep(es, px, false);
            |cs| == 1 && Legal(cs[0]) && DecStep(ds, cs[0]).px == px && InStep(es', DecStep(ds, cs[0])) && es'.run == 0
  {
    LiteralIsExact(es.prev, px, ds.index);
    var h := ColorHash(px);
    assert ColorHash(ZERO) == 0;
    hide LiteralChunk, ColorHash;
    var (es', cs) := EncStep(es, px, false);
    if es.index[h] == px {
      assert ds.index[h] == px;
    } else {
      assert es'.index == es.index[h := px];
    }
  }

  /** One encoder step that emits a run, followed by a correctly decoded rest. */
  lemma AfterRun(es: EncState, ds: DecState, length: nat, rest: seq<Chunk>, tail: seq<Pixel>)
    requires InStep(es, ds) && 1 <= length <= 62 && AllLegal(rest)
    requires DecodeChunks(DecStep(ds, Run(length)).(run := 0), rest, |tail|) == tail
    ensures AllLegal([Run(length)] + rest)
    ensures DecodeChunks(ds, [Run(length)] + rest, length + |tail|) == Repeat(es.prev, length) + tail
  {
    RunInStep(es, ds, length, rest, |tail|);
  }

  /** One literal or index chunk, followed by a correctly decoded rest. */
  lemma AfterNewPixel(ds: DecState, c: Chunk, rest: seq<Chunk>, px: Pixel, tail: seq<Pixel>)
    requires |ds.index| == 64 && ds.run == 0 && Legal(c) && AllLegal(rest) && DecStep(ds, c).px == px
    requires DecodeChunks(DecStep(ds, c), rest, |tail|) == tail
    ensures AllLegal([c] + rest)
    ensures DecodeChunks(ds, [c] + rest, 1 + |tail|) == [px] + tail
  {
    assert ([c] + rest)[1..] == rest;
  }

  lemma RepeatMore(px: Pixel, n: nat, pixels: seq<Pixel>)
    requires pixels != [] && pixels[0] == px
    ensures Repeat(px, n + 1) + pixels[1..] == Repeat(px, n) + pixels
  {
  }

  lemma RepeatNone(px: Pixel, pixels: seq<Pixel>)
    ensures Repeat(px, 0) + pixels == pixels
  {
  }

  /** The step for a new pixel is a run chunk, if a run is pending, and then the step from the state without it. */
  lemma StepSplits(es: EncState, px: Pixel, last: bool)
    requires EncOk(es) && px != es.prev
    ensures var (es', cs) := EncStep(es, px, last);
            var (es0', cs0) := EncStep(es.(run := 0), px, false);
            es' == es0' && cs == (if es.run > 0 then [Run(es.run)] else []) + cs0
  {
  }

  /** The decoder reproduces the pending run and all pixels that follow. */
  ghost predicate Decoded(es: EncState, ds: DecState, pixels: seq<Pixel>)
    requires EncOk(es) && |ds.index| == 64
  {
    && AllLegal(EncodeChunks(es, pixels))
    && DecodeChunks(ds, EncodeChunks(es, pixels), es.run + |pixels|) == Repeat(es.prev, es.run) + pixels
  }

  /** The state the decoder is in after the run that is pending in the encoder. */
  function AfterPending(es: EncState, ds: DecState): DecState
    requires |ds.index| == 64
  {
    if es.run > 0 then DecStep(ds, Run(es.run)).(run := 0) else ds
  }

  lemma SamePixelDecoded(es: EncState, ds: DecState, pixels: seq<Pixel>)
    requires InStep(es, ds) && pixels != [] && pixels[0] == es.prev
    requires var flush := es.run + 1 == 62 || |pixels| == 1;
             var ds' := if flush then DecStep(ds, Run(es.run + 1)).(run := 0) else ds;
             Decoded(EncStep(es, pixels[0], |pixels| == 1).0, ds', pixels[1..])
    ensures Decoded(es, ds, pixels)
  {
    hide LiteralChunk, ColorHash, Apply, DecodeChunks, DecStep, ChunkBytes;
    var tail := pixels[1..];
    var (es', cs) := EncStep(es, pixels[0], |pixels| == 1);
    var rest := EncodeChunks(es', tail);
    EncodedLegal(es, pixels);
    RepeatMore(es.prev, es.run, pixels);
    if es.run + 1 == 62 || |pixels| == 1 {
      RepeatNone(es.prev, tail);
      AfterRun(es, ds, es.run + 1, rest, tail);
    } else {
      assert cs + rest == rest;
    }
  }

  lemma NewPixelDecoded(es: EncState, ds: DecState, c: Chunk, pixels: seq<Pixel>)
    requires InStep(es, ds) && pixels != [] && pixels[0] != es.prev
    requires EncStep(es.(run := 0), pixels[0], false).1 == [c] && Legal(c) && |AfterPending(es, ds).index| == 64
    requires AfterPending(es, ds).run == 0 && DecStep(AfterPending(es, ds), c).px == pixels[0]
    requires Decoded(EncStep(es.(run := 0), pixels[0], false).0, DecStep(AfterPending(es, ds), c), pixels[1..])
    requires EncStep(es.(run := 0), pixels[0], false).0.run == 0
    ensures Decoded(es, ds, pixels)
  {
    hide EncStep, DecStep, DecodeChunks, LiteralChunk, ColorHash, Apply, ChunkBytes;
    var px, tail, ds0 := pixels[0], pixels[1..], AfterPending(es, ds);
    EncodedLegal(es, pixels);
    StepSplits(es, px, |pixels| == 1);
    var (es', cs) := EncStep(es, px, |pixels| == 1);
    var rest := EncodeChunks(es', tail);
    assert EncodeChunks(es, pixels) == cs + rest;
    RepeatNone(px, tail);
    RepeatNone(es.prev, pixels);
    assert Repeat(es'.prev, 0) + tail == tail;
    AfterNewPixel(ds0, c, rest, px, tail);
    assert [px] + tail == pixels;
    if es.run > 0 {
      AfterRun(es, ds, es.run, [c] + rest, pixels);
      assert cs + rest == [Run(es.run)] + ([c] + rest);
    } else {
      assert cs + rest == [c] + rest;
    }
  }

  /** Whatever the run pending in the encoder, the decoder reproduces it and all pixels that follow. */
  lemma {:induction false} ChunksRoundTrip(es: EncState, ds: DecState, pixels: seq<Pixel>)
    requires InStep(es, ds) && (pixels == [] ==> es.run == 0)
    ensures Decoded(es, ds, pixels)
    decreases |pixels|
  {
    if pixels != [] {
      var px, last, tail := pixels[0], |pixels| == 1, pixels[1..];
      var (es', _) := EncStep(es, px, last);
      if px == es.prev {
        if es.run + 1 == 62 || last {
          RunInStep(es, ds, es.run + 1, [], 0);
          ChunksRoundTrip(es', DecStep(ds, Run(es.run + 1)).(run := 0), tail);
        } else {
          ChunksRoundTrip(es', ds, tail);
        }
        hide Decoded;
        SamePixelDecoded(es, ds, pixels);
      } else {
        if es.run > 0 {
          RunInStep(es, ds, es.run, [], 0);
        }
        StepSplits(es, px, last);
        NewPixelInStep(es.(run := 0), AfterPending(es, ds), px);
        var c := EncStep(es.(run := 0), px, false).1[0];
        ChunksRoundTrip(es', DecStep(AfterPending(es, ds), c), tail);
        hide Decoded;
        NewPixelDecoded(es, ds, c, pixels);
      }
    }
  }

  lemma SplitBytes(bytes: seq<Byte>, p: nat, s: seq<Byte>, rest: seq<Byte>)
    requires HoldsAt(bytes, p, s + rest)
    ensures HoldsAt(bytes, p, s) && HoldsAt(bytes, p + |s|, rest)
  {
    forall i | 0 <= i < |s|
      ensures bytes[p + i] == s[i]
    {
      assert (s + rest)[i] == s[i];
    }
    forall i | 0 <= i < |rest|
      ensures bytes[p + |s| + i] == rest[i]
    {
      assert bytes[p + (|s| + i)] == (s + rest)[|s| + i];
    }
  }

  /** The first chunk of a flattened sequence, and what follows it. */
  lemma FlattenHead(bytes: seq<Byte>, p: nat, cs: seq<Chunk>)
    requires AllLegal(cs) && cs != []
    requires HoldsAt(bytes, p, Flatten(cs)) && p + |Flatten(cs)| + 8 <= |bytes|
    ensures cs[0] in cs && Legal(cs[0]) && AllLegal(cs[1..])
    ensures var p' := p + |ChunkBytes(cs[0])|;
            ReadChunk(bytes, p) == (cs[0], p') && p < p' && p' + |Flatten(cs[1..])| == p + |Flatten(cs)| &&
            HoldsAt(bytes, p', Flatten(cs[1..]))
  {
    hide ChunkBytes, ReadChunk, Legal;
    assert cs[0] in cs;
    var s, rest := ChunkBytes(cs[0]), Flatten(cs[1..]);
    SplitBytes(bytes, p, s, rest);
    ReadWritten(cs[0], bytes, p);
  }

  lemma FlattenNone()
    ensures Flatten([]) == []
  {
  }

  /** Decoding bytes is decoding the chunks they were written from. */
  lemma {:induction false} BytesAreChunks(bytes: seq<Byte>, p: nat, st: DecState, cs: seq<Chunk>, n: nat)
    requires |st.index| == 64 && AllLegal(cs)
    requires HoldsAt(bytes, p, Flatten(cs)) && p + |Flatten(cs)| + 8 <= |bytes|
    ensures DecodeBytes(bytes, p + |Flatten(cs)|, p, st, n) == DecodeChunks(st, cs, n)
    decreases n
  {
    hide ReadChunk, ChunkBytes, DecStep, HoldsAt, Flatten, ColorHash, Apply;
    if n == 0 {
    } else if st.run > 0 {
      BytesAreChunks(bytes, p, st.(run := st.run - 1), cs, n - 1);
    } else if cs == [] {
      FlattenNone();
      BytesAreChunks(bytes, p, st, cs, n - 1);
    } else {
      FlattenHead(bytes, p, cs);
      BytesAreChunks(bytes, p + |ChunkBytes(cs[0])|, DecStep(st, cs[0]), cs[1..], n - 1);
    }
  }
}
