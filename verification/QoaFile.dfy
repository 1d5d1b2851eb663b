/** Whole QOA files: `qoa_encode` and `qoa_decode` over all frames. */
module QoaFile {
  import opened Bytes
  import opened Options
  import opened Powers
  import opened QoaDecoder
  import opened QoaFrame
  import opened QoaSlice
  import opened QoaWords

  const QOA_MAGIC := 0x716f_6166
  const MIN_FILESIZE := 16

  // ---------------------------------------------------------------- what the encoder writes

  /** Samples of all channels, interleaved. */
  datatype Input = Input(data: seq<Sample>, channels: nat, samplerate: nat, samples: nat)

  predicate ValidInput(i: Input) {
    0 < i.samples < 0x8000_0000 && 0 < i.samplerate <= 0xff_ffff && 0 < i.channels <= MAX_CHANNELS
  }

  ghost predicate Supplied(i: Input) {
    ValidInput(i) && i.samples * i.channels <= |i.data|
  }

  function Frames(samples: nat): nat {
    (samples + FRAME_LEN - 1) / FRAME_LEN
  }

  function FrameLen(samples: nat, f: nat): (n: nat)
    requires f < Frames(samples)
    ensures 1 <= n <= FRAME_LEN && FRAME_LEN * f + n <= samples
    ensures FRAME_LEN * f + n == samples <==> f + 1 == Frames(samples)
    ensures f + 1 < Frames(samples) ==> n == FRAME_LEN
  {
    if samples - FRAME_LEN * f < FRAME_LEN then samples - FRAME_LEN * f else FRAME_LEN
  }

  /** Where frame `f` starts among the samples. */
  function FrameBase(i: Input, f: nat): nat {
    FRAME_LEN * f * i.channels
  }

  lemma FrameFits(i: Input, f: nat)
    requires Supplied(i) && f < Frames(i.samples)
    ensures FrameBase(i, f) + FrameLen(i.samples, f) * i.channels <= i.samples * i.channels <= |i.data|
  {
    Distribute(i.channels, FRAME_LEN * f, FrameLen(i.samples, f));
    MulLe(FRAME_LEN * f + FrameLen(i.samples, f), i.samples, i.channels, i.channels);
  }

  ghost function FrameCols(i: Input, f: nat): (cols: seq<seq<Sample>>)
    requires Supplied(i) && f < Frames(i.samples)
    ensures |cols| == i.channels && forall c :: 0 <= c < |cols| ==> |cols[c]| == FrameLen(i.samples, f)
  {
    FrameFits(i, f);
    ColumnLengths(i.data, FrameBase(i, f), i.channels, FrameLen(i.samples, f));
    Columns(i.data, FrameBase(i, f), i.channels, FrameLen(i.samples, f))
  }

  const START_FILTER: Filter := Lms([0, 0, 0, 0], [0, 0, -8192, 16384])

  /** The filters at the start of the file; those of unused channels are whatever they were. */
  ghost predicate Started(i: Input, lms: seq<Filter>) {
    |lms| == MAX_CHANNELS && forall c :: 0 <= c < i.channels && c < MAX_CHANNELS ==> lms[c] == START_FILTER
  }

  ghost function NextFilters(lms: seq<Filter>, cols: seq<seq<Sample>>, len: nat): (next: seq<Filter>)
    requires IsFrame(lms, cols, len)
    ensures AfterFrame(lms, next, cols, len)
  {
    seq(MAX_CHANNELS, c requires 0 <= c < MAX_CHANNELS && IsFrame(lms, cols, len) =>
      if c < |cols| then Run(lms[c], cols[c], Slices(len)).lms else lms[c])
  }

  lemma NextFiltersUnique(lms: seq<Filter>, cols: seq<seq<Sample>>, len: nat, next: seq<Filter>)
    requires AfterFrame(lms, next, cols, len)
    ensures next == NextFilters(lms, cols, len)
  {
    hide Run, Slices;
    var other := NextFilters(lms, cols, len);
    forall c | 0 <= c < MAX_CHANNELS
      ensures next[c] == other[c]
    {
    }
  }

  /** The encoder's filters before frame `f`. */
  ghost function FiltersAt(i: Input, lms: seq<Filter>, f: nat): (r: seq<Filter>)
    requires Supplied(i) && |lms| == MAX_CHANNELS && f <= Frames(i.samples)
    ensures |r| == MAX_CHANNELS
  {
    if f == 0 then lms else NextFilters(FiltersAt(i, lms, f - 1), FrameCols(i, f - 1), FrameLen(i.samples, f - 1))
  }

  /** At the start of every frame the weights fit the 16 bits the frame header has for them. */
  ghost predicate AlwaysFits(i: Input, lms: seq<Filter>)
    requires Supplied(i) && |lms| == MAX_CHANNELS
  {
    forall f, c :: 0 <= f < Frames(i.samples) && 0 <= c < i.channels ==> FitsS16(FiltersAt(i, lms, f)[c])
  }

  /** At the start of every frame the weights are so small that ranks cannot exceed the search's limit. */
  ghost predicate AlwaysModerate(i: Input, lms: seq<Filter>)
    requires Supplied(i) && |lms| == MAX_CHANNELS
  {
    forall f, c :: 0 <= f < Frames(i.samples) && 0 <= c < i.channels ==> Moderate(FiltersAt(i, lms, f)[c])
  }

  lemma FittingIsModerate(i: Input, lms: seq<Filter>)
    requires Supplied(i) && |lms| == MAX_CHANNELS && AlwaysFits(i, lms)
    ensures AlwaysModerate(i, lms)
  {
    hide FiltersAt, Frames;
  }

  /** Inputs of a single frame fit whatever their samples are. */
  lemma OneFrameFits(i: Input, lms: seq<Filter>)
    requires Supplied(i) && Started(i, lms) && i.samples <= FRAME_LEN
    ensures Frames(i.samples) == 1 && AlwaysFits(i, lms) && AlwaysModerate(i, lms)
  {
    FittingIsModerate(i, lms);
  }

  ghost function FrameBytes(i: Input, lms: seq<Filter>, f: nat): (s: seq<Byte>)
    requires Supplied(i) && |lms| == MAX_CHANNELS && f < Frames(i.samples)
    ensures |s| == SliceOffset(i.channels, Slices(FrameLen(i.samples, f)), 0)
  {
    Serialized(FrameWords(i.samplerate, FiltersAt(i, lms, f), FrameCols(i, f), FrameLen(i.samples, f)))
  }

  /** The first `n` frames. */
  ghost function FramesBytes(i: Input, lms: seq<Filter>, n: nat): seq<Byte>
    requires Supplied(i) && |lms| == MAX_CHANNELS && n <= Frames(i.samples)
  {
    if n == 0 then [] else FramesBytes(i, lms, n - 1) + FrameBytes(i, lms, n - 1)
  }

  function FileHeader(samples: nat): Word
    requires samples < 0x1_0000_0000
  {
    QOA_MAGIC * 0x1_0000_0000 + samples
  }

  ghost function FileBytes(i: Input, lms: seq<Filter>): seq<Byte>
    requires Supplied(i) && |lms| == MAX_CHANNELS
  {
    WordBytes(FileHeader(i.samples)) + FramesBytes(i, lms, Frames(i.samples))
  }

  /** The size the encoder computes before it allocates its buffer. */
  function EncodedSize(i: Input): nat {
    8 + Frames(i.samples) * 8 + Frames(i.samples) * (LMS_LEN * 4) * i.channels + Slices(i.samples) * 8 * i.channels
  }

  // ---------------------------------------------------------------- sizes

  lemma SlicesOfFrames(samples: nat, f: nat)
    requires f < Frames(samples)
    ensures SLICES_PER_FRAME * f + Slices(FrameLen(samples, f)) ==
            if f + 1 == Frames(samples) then Slices(samples) else SLICES_PER_FRAME * (f + 1)
  {
  }

  /** Slices in the first `n` frames. */
  function SlicesBefore(samples: nat, n: nat): nat
    requires n <= Frames(samples)
  {
    if n == Frames(samples) then Slices(samples) else SLICES_PER_FRAME * n
  }

  lemma {:induction false} FramesSize(i: Input, lms: seq<Filter>, n: nat)
    requires Supplied(i) && |lms| == MAX_CHANNELS && n <= Frames(i.samples)
    ensures |FramesBytes(i, lms, n)| == SizeOf(n, i.channels, SlicesBefore(i.samples, n))
  {
    hide FrameBytes, Slices, Frames, SizeOf, SliceOffset, FrameLen, SlicesBefore;
    if n == 0 {
      NoFrames(i.samples, i.channels);
    } else {
      FramesSize(i, lms, n - 1);
      SlicesStep(i.samples, n - 1);
      SizeAdds(n - 1, i.channels, SlicesBefore(i.samples, n - 1), Slices(FrameLen(i.samples, n - 1)));
    }
  }

  /** The bytes of `n` frames with `s` slices per channel. */
  function SizeOf(n: nat, ch: nat, s: nat): nat {
    8 * n + 16 * (n * ch) + 8 * (s * ch)
  }

  lemma SizeAdds(n: nat, ch: nat, s: nat, m: nat)
    ensures SizeOf(n + 1, ch, s + m) == SizeOf(n, ch, s) + SliceOffset(ch, m, 0)
  {
    Distribute(ch, n, 1);
    Distribute(ch, s, m);
  }

  lemma NoFrames(samples: nat, ch: nat)
    ensures SlicesBefore(samples, 0) == 0 && SizeOf(0, ch, 0) == 0
  {
  }

  lemma SlicesStep(samples: nat, n: nat)
    requires n < Frames(samples)
    ensures SlicesBefore(samples, n + 1) == SlicesBefore(samples, n) + Slices(FrameLen(samples, n))
  {
    SlicesOfFrames(samples, n);
    hide Slices, Frames;
  }

  /** The encoder writes exactly as many bytes as it has allocated. */
  lemma FileSize(i: Input, lms: seq<Filter>)
    requires Supplied(i) && |lms| == MAX_CHANNELS
    ensures |FileBytes(i, lms)| == EncodedSize(i)
  {
    hide FramesBytes, Slices, Frames;
    FramesSize(i, lms, Frames(i.samples));
    MulRotate(Frames(i.samples), 16, i.channels);
    MulRotate(Slices(i.samples), 8, i.channels);
    MulAssoc(Frames(i.samples), LMS_LEN * 4, i.channels);
    MulAssoc(Slices(i.samples), 8, i.channels);
  }

  // ---------------------------------------------------------------- encoding

  /** `qoa_encode`. */
  method Encode(desc: QoaDesc, data: seq<Sample>) returns (r: Option<seq<Byte>>, ghost lms0: seq<Filter>)
    requires |desc.lms| == MAX_CHANNELS
    requires var i := Input(data, desc.channels, desc.samplerate, desc.samples);
             desc.samples < 0x8000_0000 && (ValidInput(i) ==>
               Supplied(i) && forall lms :: Started(i, lms) ==> AlwaysModerate(i, lms))
    modifies desc`lms
    ensures r.Some? <==> ValidInput(Input(data, desc.channels, desc.samplerate, desc.samples))
    ensures r.Some? ==> var i := Input(data, desc.channels, desc.samplerate, desc.samples);
                        Started(i, lms0) && r.value == FileBytes(i, lms0) && |r.value| == EncodedSize(i)
  {
    hide AlwaysModerate, FileBytes, Frames, Slices;
    lms0 := desc.lms;
    ghost var i := Input(data, desc.channels, desc.samplerate, desc.samples);
    if desc.samples == 0 || desc.samplerate == 0 || desc.samplerate > 0xff_ffff || desc.channels == 0 ||
       desc.channels > MAX_CHANNELS
    {
      return None, lms0;
    }
    InitFilters(desc);
    lms0 := desc.lms;
    var bytes := EncodeFrames(desc, data, i);
    FileSize(i, lms0);
    return Some(bytes), lms0;
  }

  method InitFilters(desc: QoaDesc)
    requires |desc.lms| == MAX_CHANNELS && desc.channels <= MAX_CHANNELS
    modifies desc`lms
    ensures |desc.lms| == MAX_CHANNELS && forall c :: 0 <= c < desc.channels ==> desc.lms[c] == START_FILTER
  {
    for c := 0 to desc.channels
      invariant |desc.lms| == MAX_CHANNELS && forall k :: 0 <= k < c ==> desc.lms[k] == START_FILTER
    {
      desc.lms := desc.lms[c := START_FILTER];
    }
  }

  /** The file header and all frames. */
  method EncodeFrames(desc: QoaDesc, data: seq<Sample>, ghost i: Input) returns (bytes: seq<Byte>)
    requires i == Input(data, desc.channels, desc.samplerate, desc.samples) && Supplied(i)
    requires |desc.lms| == MAX_CHANNELS && AlwaysModerate(i, desc.lms)
    modifies desc`lms
    ensures bytes == FileBytes(i, old(desc.lms))
  {
    hide Columns, FramesBytes, Frames, FrameBytes, AlwaysModerate, FiltersAt, FrameStart, FrameLen, FrameCols,
      FileHeader, WordBytes;
    ghost var lms0 := desc.lms;
    bytes := WriteU64(FileHeader(desc.samples), []);
    ghost var f := 0;
    var sampleIndex := 0;
    FirstFrame(i, lms0);
    while sampleIndex < desc.samples
      invariant f <= Frames(i.samples) && sampleIndex == FrameStart(i.samples, f)
      invariant desc.Valid() && desc.lms == FiltersAt(i, lms0, f)
      invariant bytes == WordBytes(FileHeader(i.samples)) + FramesBytes(i, lms0, f)
      decreases Frames(i.samples) - f
    {
      FrameNext(i, lms0, f);
      var frameLen: nat := Clamp(FRAME_LEN, 0, desc.samples - sampleIndex);
      var frame := EncodeOne(desc, data, sampleIndex, frameLen, i, lms0, f);
      bytes := bytes + frame;
      sampleIndex := sampleIndex + frameLen;
      f := f + 1;
    }
    LastFrame(i, f);
  }

  /** One frame of the file. */
  method EncodeOne(desc: QoaDesc, data: seq<Sample>, sampleIndex: nat, frameLen: nat, ghost i: Input,
                   ghost lms0: seq<Filter>, ghost f: nat) returns (frame: seq<Byte>)
    requires i == Input(data, desc.channels, desc.samplerate, desc.samples) && Supplied(i) && |lms0| == MAX_CHANNELS
    requires f < Frames(i.samples) && frameLen == FrameLen(i.samples, f) && sampleIndex * i.channels == FrameBase(i, f)
    requires desc.Valid() && desc.lms == FiltersAt(i, lms0, f) && AlwaysModerate(i, lms0)
    modifies desc`lms
    ensures desc.Valid() && desc.lms == FiltersAt(i, lms0, f + 1)
    ensures frame == FrameBytes(i, lms0, f) && FramesBytes(i, lms0, f + 1) == FramesBytes(i, lms0, f) + frame
  {
    hide Columns, FramesBytes, Frames, FrameBytes, FiltersAt, FrameStart, FrameLen, FrameCols, FrameWords, Serialized,
      AfterFrame, Moderate, FrameBase;
    FrameFits(i, f);
    frame := desc.EncodeFrame(data, sampleIndex * desc.channels, frameLen);
    FrameEncoded(i, lms0, f, desc.lms);
  }

  /** The first sample of frame `f`, or the number of samples. */
  function FrameStart(samples: nat, f: nat): nat
    requires f <= Frames(samples)
  {
    if f == Frames(samples) then samples else FRAME_LEN * f
  }

  lemma FirstFrame(i: Input, lms: seq<Filter>)
    requires Supplied(i) && |lms| == MAX_CHANNELS
    ensures FrameStart(i.samples, 0) == 0 && FiltersAt(i, lms, 0) == lms && FramesBytes(i, lms, 0) == []
  {
  }

  lemma LastFrame(i: Input, f: nat)
    requires f <= Frames(i.samples) && FrameStart(i.samples, f) >= i.samples
    ensures f == Frames(i.samples)
  {
  }

  /** What the encoder is about to do. */
  lemma FrameNext(i: Input, lms: seq<Filter>, f: nat)
    requires Supplied(i) && |lms| == MAX_CHANNELS && f <= Frames(i.samples) && FrameStart(i.samples, f) < i.samples
    ensures f < Frames(i.samples) && Clamp(FRAME_LEN, 0, i.samples - FrameStart(i.samples, f)) == FrameLen(i.samples, f)
    ensures FrameStart(i.samples, f) * i.channels == FrameBase(i, f)
    ensures FrameBase(i, f) + FrameLen(i.samples, f) * i.channels <= |i.data|
    ensures FrameStart(i.samples, f + 1) == FrameStart(i.samples, f) + FrameLen(i.samples, f)
  {
    FrameFits(i, f);
  }

  lemma FrameEncoded(i: Input, lms: seq<Filter>, f: nat, after: seq<Filter>)
    requires Supplied(i) && |lms| == MAX_CHANNELS && f < Frames(i.samples)
    requires FrameBase(i, f) + FrameLen(i.samples, f) * i.channels <= |i.data|
    requires var len := FrameLen(i.samples, f);
             AfterFrame(FiltersAt(i, lms, f), after, Columns(i.data, FrameBase(i, f), i.channels, len), len)
    ensures FrameCols(i, f) == Columns(i.data, FrameBase(i, f), i.channels, FrameLen(i.samples, f))
    ensures after == FiltersAt(i, lms, f + 1)
    ensures FramesBytes(i, lms, f + 1) == FramesBytes(i, lms, f) + FrameBytes(i, lms, f)
    ensures FrameBytes(i, lms, f)
         == Serialized(FrameWords(i.samplerate, FiltersAt(i, lms, f), FrameCols(i, f), FrameLen(i.samples, f)))
  {
    hide Columns, FrameWords, Serialized, AfterFrame, NextFilters;
    NextFiltersUnique(FiltersAt(i, lms, f), FrameCols(i, f), FrameLen(i.samples, f), after);
  }

  // ---------------------------------------------------------------- decoding

  /** Where a frame starts: the byte, and the sample. */
  datatype Position = Position(byte: nat, sample: nat)

  function SizeOfFrame(bytes: seq<Byte>, ch: nat): nat
    requires |bytes| >= 8
  {
    SliceOffset(ch, Slices(Samples(bytes)), 0)
  }

  /** The place behind an accepted frame. */
  function Following(bytes: seq<Byte>, ch: nat, at: Position): Position
    requires at.byte + 8 <= |bytes|
  {
    Position(at.byte + SizeOfFrame(bytes[at.byte..], ch), at.sample + Samples(bytes[at.byte..]))
  }

  /** The frames the decoder goes through from `at` on: until one fails the checks, or all samples are there. */
  function FramesFrom(bytes: seq<Byte>, ch: nat, rate: nat, total: nat, at: Position): seq<Position>
    decreases |bytes| - at.byte
  {
    if at.byte > |bytes| || !Accepts(bytes[at.byte..], ch, rate) then []
    else
      var next := Following(bytes, ch, at);
      [at] + if next.sample < total && next.byte <= |bytes| then FramesFrom(bytes, ch, rate, total, next) else []
  }

  /** The buffer for `samples` samples of `ch` channels, whose size is computed in 32 bits. A buffer of negative size
      cannot be had and holds nothing. */
  function BufferLength(samples: nat, ch: nat): (n: nat) {
    if samples * ch % WORD32 < 0x8000_0000 then samples * ch % WORD32 else 0
  }

  /** All frames the decoder goes through from `at` on stay inside the file and inside a buffer of `length` samples. */
  ghost predicate AllFit(bytes: seq<Byte>, ch: nat, rate: nat, total: nat, length: nat, at: Position)
    decreases |bytes| - at.byte
  {
    at.byte <= |bytes| &&
    (Accepts(bytes[at.byte..], ch, rate) ==>
      Inside(bytes[at.byte..], ch, length, at.sample * ch) &&
      var next := Following(bytes, ch, at);
      next.sample < total ==> AllFit(bytes, ch, rate, total, length, next))
  }

  /** A frame's samples are in their part of the buffer. */
  ghost predicate Held(bytes: seq<Byte>, ch: nat, data: seq<int>, at: Position) {
    && at.byte + 8 <= |bytes|
    && var rest := bytes[at.byte..];
       var n := Samples(rest);
       && Whole(rest, ch, n) && (at.sample + n) * ch <= |data|
       && forall c :: 0 <= c < ch ==> HeldChannel(rest, ch, data, at.sample, n, c)
  }

  ghost predicate HeldChannel(rest: seq<Byte>, ch: nat, data: seq<int>, first: nat, n: nat, c: nat)
    requires c < ch && Whole(rest, ch, n)
  {
    InBuffer(first, n, ch, |data|) &&
    Column(data, first * ch, ch, c, n)
      == DecSamples(FilterIn(rest, ch, n, c), ChannelWords(rest, ch, n, c, Slices(n)), n, Slices(n))
  }

  predicate InBuffer(first: nat, n: nat, ch: nat, size: nat) {
    first * ch + n * ch <= size
  }

  lemma InBufferIs(first: nat, n: nat, ch: nat, size: nat)
    ensures InBuffer(first, n, ch, size) <==> (first + n) * ch <= size
  {
    Distribute(ch, first, n);
  }

  /** A decoded frame is held. */
  lemma DecodedIsHeld(bytes: seq<Byte>, ch: nat, data: seq<int>, at: Position, lms: seq<Filter>)
    requires at.byte + 8 <= |bytes|
    requires Decoded(bytes[at.byte..], ch, Samples(bytes[at.byte..]), data, at.sample * ch, lms,
      Slices(Samples(bytes[at.byte..])), 0)
    ensures Held(bytes, ch, data, at)
  {
    hide Whole, FilterIn, ChannelWords, DecSamples, DecFilter, Column, WordAt, HeaderSamples, Slices;
    var rest := bytes[at.byte..];
    var n := Samples(rest);
    InBufferIs(at.sample, n, ch, |data|);
    forall c: nat | c < ch
      ensures HeldChannel(rest, ch, data, at.sample, n, c)
    {
      assert ChannelDecoded(rest, ch, n, data, at.sample * ch, lms[c], Slices(n), c);
      ChannelAll(rest, ch, n, data, at.sample * ch, lms[c], c);
    }
  }

  lemma ChannelAll(bytes: seq<Byte>, ch: nat, len: nat, data: seq<int>, base: nat, l: Filter, k: nat)
    requires Whole(bytes, ch, len) && base + len * ch <= |data| && k < ch
    requires ChannelDecoded(bytes, ch, len, data, base, l, Slices(len), k)
    ensures Column(data, base, ch, k, len)
         == DecSamples(FilterIn(bytes, ch, len, k), ChannelWords(bytes, ch, len, k, Slices(len)), len, Slices(len))
  {
    hide Whole, FilterIn, ChannelWords, DecSamples, DecFilter, Column, Slices;
  }

  /** Later frames leave it alone. */
  lemma HeldStays(bytes: seq<Byte>, ch: nat, was: seq<int>, now: seq<int>, at: Position, later: nat, count: int)
    requires Held(bytes, ch, was, at) && OnlyInside(was, now, later, count)
    requires (at.sample + Samples(bytes[at.byte..])) * ch <= later
    ensures Held(bytes, ch, now, at)
  {
    hide Whole, FilterIn, ChannelWords, DecSamples, Column, WordAt, HeaderSamples, Slices;
    var rest := bytes[at.byte..];
    var n := Samples(rest);
    InBufferIs(at.sample, n, ch, |was|);
    InBufferIs(at.sample, n, ch, later);
    forall c: nat | c < ch
      ensures HeldChannel(rest, ch, now, at.sample, n, c)
    {
      assert HeldChannel(rest, ch, was, at.sample, n, c);
      ColumnStays(was, now, at.sample * ch, ch, c, n, later, count);
    }
  }

  lemma ColumnStays(was: seq<int>, now: seq<int>, base: nat, ch: nat, c: nat, n: nat, later: nat, count: int)
    requires OnlyInside(was, now, later, count) && c < ch && base + n * ch <= later && base + n * ch <= |was|
    ensures Column(now, base, ch, c, n) == Column(was, base, ch, c, n)
  {
    hide Column;
    forall j: nat | j < n
      ensures Column(now, base, ch, c, n)[j] == Column(was, base, ch, c, n)[j]
    {
      ColumnAt(was, base, ch, c, n, j);
      ColumnAt(now, base, ch, c, n, j);
      PlaceInside(base, ch, n, c, j);
    }
  }

  /** The header names a known format, at least one sample, and a channel count and sample rate other than zero. */
  predicate HeaderOk(bytes: seq<Byte>) {
    |bytes| >= MIN_FILESIZE && WordAt(bytes, 0) / WORD32 == QOA_MAGIC && WordAt(bytes, 0) % WORD32 != 0 &&
    HeaderChannels(WordAt(bytes, 8)) != 0 && HeaderRate(WordAt(bytes, 8)) != 0
  }

  function TotalSamples(bytes: seq<Byte>): nat
    requires |bytes| >= 8
  {
    WordAt(bytes, 0) % WORD32
  }

  /** Decoding a file accesses nothing outside the file, the eight filters and the sample buffer. */
  ghost predicate Decodable(bytes: seq<Byte>) {
    HeaderOk(bytes) ==>
      var ch, total := HeaderChannels(WordAt(bytes, 8)), TotalSamples(bytes);
      AllFit(bytes, ch, HeaderRate(WordAt(bytes, 8)), total, BufferLength(total, ch), Position(8, 0))
  }

  ghost function AllFrames(bytes: seq<Byte>): seq<Position>
    requires |bytes| >= MIN_FILESIZE
  {
    var h := WordAt(bytes, 8);
    FramesFrom(bytes, HeaderChannels(h), HeaderRate(h), TotalSamples(bytes), Position(8, 0))
  }

  /** The samples decoded when the frames `fs` have been. */
  ghost predicate EndsAt(bytes: seq<Byte>, fs: seq<Position>, end: nat) {
    if fs == [] then end == 0 else
      var last := fs[|fs| - 1];
      last.byte + 8 <= |bytes| && end == last.sample + Samples(bytes[last.byte..])
  }

  ghost predicate AllHeld(bytes: seq<Byte>, ch: nat, data: seq<int>, fs: seq<Position>, end: nat) {
    forall f :: 0 <= f < |fs| ==>
      fs[f].byte + 8 <= |bytes| && Held(bytes, ch, data, fs[f]) && fs[f].sample + Samples(bytes[fs[f].byte..]) <= end
  }

  /** What decoding a file comes to: nothing, because its header is bad; an access outside an array; or a buffer. */
  datatype FileResult = BadHeader | Faulted | File(data: array<int>)

  /** `qoa_decode`, with every access checked: every frame the decoder goes through is decoded into its part of the
      buffer, and the number of samples is corrected to what was found. */
  method Decode(bytes: seq<Byte>, desc: QoaDesc) returns (r: FileResult)
    requires |desc.lms| == MAX_CHANNELS
    modifies desc
    ensures r.BadHeader? <==> !HeaderOk(bytes)
    ensures r.Faulted? <==> !Decodable(bytes)
    ensures r.File? ==>
      && desc.channels == HeaderChannels(WordAt(bytes, 8)) && desc.samplerate == HeaderRate(WordAt(bytes, 8))
      && fresh(r.data) && r.data.Length == BufferLength(TotalSamples(bytes), desc.channels)
      && AllHeld(bytes, desc.channels, r.data[..], AllFrames(bytes), desc.samples)
      && EndsAt(bytes, AllFrames(bytes), desc.samples)
  {
    hide HeaderChannels, HeaderRate, WordAt, AllFit, FramesFrom, AllHeld, EndsAt;
    if |bytes| < MIN_FILESIZE {
      return BadHeader;
    }
    var header := ReadU64(bytes, 0);
    if header / WORD32 != QOA_MAGIC {
      return BadHeader;
    }
    desc.samples := header % WORD32;
    if desc.samples == 0 {
      return BadHeader;
    }
    var frameHeader := ReadU64(bytes, 8);
    desc.channels := HeaderChannels(frameHeader);
    desc.samplerate := HeaderRate(frameHeader);
    if desc.channels == 0 || desc.samples == 0 || desc.samplerate == 0 {
      return BadHeader;
    }
    RateFits(frameHeader);
    var data := new int[BufferLength(desc.samples, desc.channels)];
    var found, ok := DecodeFrames(bytes, desc, data, desc.samples);
    if !ok {
      return Faulted;
    }
    desc.samples := found;
    return File(data);
  }

  lemma RateFits(h: Word)
    ensures HeaderRate(h) < 0x100_0000
  {
  }

  /** The loop over frames. */
  method DecodeFrames(bytes: seq<Byte>, desc: QoaDesc, data: array<int>, total: nat) returns (found: nat, ok: bool)
    requires 1 <= desc.channels && desc.samplerate < 0x100_0000 && |desc.lms| == MAX_CHANNELS && |bytes| >= 8
    modifies desc`lms, data
    ensures |desc.lms| == MAX_CHANNELS
    ensures ok <==> AllFit(bytes, desc.channels, desc.samplerate, total, data.Length, Position(8, 0))
    ensures ok ==>
      var fs := FramesFrom(bytes, desc.channels, desc.samplerate, total, Position(8, 0));
      AllHeld(bytes, desc.channels, data[..], fs, found) && EndsAt(bytes, fs, found)
  {
    hide AllFit, FramesFrom, AllHeld, EndsAt, Accepts, Inside, Decoded, OnlyInside, Held, Samples, SizeOfFrame,
      SliceOffset, Slices;
    ghost var all := FramesFrom(bytes, desc.channels, desc.samplerate, total, Position(8, 0));
    ghost var fit := AllFit(bytes, desc.channels, desc.samplerate, total, data.Length, Position(8, 0));
    ghost var done: seq<Position> := [];
    var p: nat := 8;
    found := 0;
    NothingHeld(bytes, desc.channels, data[..]);
    while true
      invariant |desc.lms| == MAX_CHANNELS && p <= |bytes| && found * desc.channels <= data.Length
      invariant fit == AllFit(bytes, desc.channels, desc.samplerate, total, data.Length, Position(p, found))
      invariant all == done + FramesFrom(bytes, desc.channels, desc.samplerate, total, Position(p, found))
      invariant AllHeld(bytes, desc.channels, data[..], done, found) && EndsAt(bytes, done, found)
      decreases |bytes| - p
    {
      ghost var at, was := Position(p, found), data[..];
      FrameAhead(bytes, desc.channels, desc.samplerate, total, data.Length, at);
      var r := DecodeFrame(desc, bytes[p..], data, found * desc.channels);
      match r {
        case Rejected =>
          assert done == all;
          return found, true;
        case OutOfBounds =>
          return found, false;
        case Frame(size, samples) =>
          OneMoreHeld(bytes, desc.channels, was, data[..], done, at, desc.lms, samples);
          p := p + size;
          found := found + samples;
          done := done + [at];
          if found >= total {
            assert done == all;
            return found, true;
          }
      }
    }
  }

  lemma NothingHeld(bytes: seq<Byte>, ch: nat, data: seq<int>)
    ensures AllHeld(bytes, ch, data, [], 0) && EndsAt(bytes, [], 0)
  {
  }

  /** What lies ahead of the decoder at a frame. */
  lemma FrameAhead(bytes: seq<Byte>, ch: nat, rate: nat, total: nat, length: nat, at: Position)
    requires at.byte <= |bytes|
    ensures !Accepts(bytes[at.byte..], ch, rate) ==>
      FramesFrom(bytes, ch, rate, total, at) == [] && AllFit(bytes, ch, rate, total, length, at)
    ensures Accepts(bytes[at.byte..], ch, rate) && !Inside(bytes[at.byte..], ch, length, at.sample * ch) ==>
      !AllFit(bytes, ch, rate, total, length, at)
    ensures Accepts(bytes[at.byte..], ch, rate) && Inside(bytes[at.byte..], ch, length, at.sample * ch) ==>
      at.byte + 8 <= |bytes| &&
      SizeOfFrame(bytes[at.byte..], ch) == SliceOffset(ch, Slices(Samples(bytes[at.byte..])), 0) > 0 &&
      var next := Following(bytes, ch, at);
      && next.byte <= |bytes| && next.sample * ch <= length
      && FramesFrom(bytes, ch, rate, total, at)
           == [at] + (if next.sample < total then FramesFrom(bytes, ch, rate, total, next) else [])
      && (AllFit(bytes, ch, rate, total, length, at) <==>
           (next.sample < total ==> AllFit(bytes, ch, rate, total, length, next)))
  {
    hide Slices, Samples;
    if Accepts(bytes[at.byte..], ch, rate) {
      Distribute(ch, at.sample, Samples(bytes[at.byte..]));
    }
  }

  lemma OneMoreHeld(bytes: seq<Byte>, ch: nat, was: seq<int>, now: seq<int>, done: seq<Position>, at: Position,
                    lms: seq<Filter>, n: nat)
    requires at.byte + 8 <= |bytes| && n == Samples(bytes[at.byte..])
    requires AllHeld(bytes, ch, was, done, at.sample)
    requires Decoded(bytes[at.byte..], ch, n, now, at.sample * ch, lms, Slices(n), 0)
    requires OnlyInside(was, now, at.sample * ch, n * ch)
    ensures AllHeld(bytes, ch, now, done + [at], at.sample + n) && EndsAt(bytes, done + [at], at.sample + n)
  {
    hide Held, Decoded, OnlyInside, Samples, Slices;
    DecodedIsHeld(bytes, ch, now, at, lms);
    var fs := done + [at];
    forall f | 0 <= f < |fs|
      ensures fs[f].byte + 8 <= |bytes| && Held(bytes, ch, now, fs[f])
      ensures fs[f].sample + Samples(bytes[fs[f].byte..]) <= at.sample + n
    {
      if f < |done| {
        assert done[f].byte + 8 <= |bytes| && Held(bytes, ch, was, done[f]);
        assert done[f].sample + Samples(bytes[done[f].byte..]) <= at.sample;
        MulLe(done[f].sample + Samples(bytes[done[f].byte..]), at.sample, ch, ch);
        HeldStays(bytes, ch, was, now, done[f], at.sample * ch, n * ch);
      }
    }
  }

  // ---------------------------------------------------------------- what the checks do not ensure

  /** A file of the header and one frame of `words` words. */
  lemma OneFrameFile(samples: nat, ch: nat, n: nat, size: nat, words: nat) returns (bytes: seq<Byte>)
    requires 0 < samples < WORD32 && 0 < ch < 256 && n < 65536 && size < 65536 && words >= 1
    ensures |bytes| == 8 + 8 * words && HeaderOk(bytes) && TotalSamples(bytes) == samples
    ensures HeaderChannels(WordAt(bytes, 8)) == ch && HeaderRate(WordAt(bytes, 8)) == 44100
    ensures WordAt(bytes[8..], 0) == HeaderWord(ch, 44100, n, size)
  {
    hide HeaderWord, WordAt, HeaderChannels, HeaderRate, HeaderSamples, HeaderSize, Serialized, FileHeader;
    var h := HeaderWord(ch, 44100, n, size);
    var ws: seq<Word> := [FileHeader(samples), h] + seq(words - 1, _ => 0);
    bytes := Serialized(ws);
    assert bytes + [] == bytes;
    ReadSerialized(ws, [], 0);
    ReadSerialized(ws, [], 1);
    HeaderNumbers(samples);
    HeaderRoundTrip(ch, 44100, n, size);
    SameWord(bytes, 8);
  }

  /** A frame may hold more samples than the file announces, and then decoding writes behind the buffer. */
  lemma ExcessSamplesAccepted() returns (bytes: seq<Byte>)
    ensures |bytes| == 40 && HeaderOk(bytes) && TotalSamples(bytes) == 1 && Samples(bytes[8..]) == 20
    ensures Accepts(bytes[8..], 1, 44100) && Whole(bytes[8..], 1, 20) && !Decodable(bytes)
  {
    hide HeaderWord, WordAt, HeaderChannels, HeaderRate, HeaderSamples, HeaderSize;
    bytes := OneFrameFile(1, 1, 20, 32, 4);
    HeaderRoundTrip(1, 44100, 20, 32);
    assert |bytes[8..]| == 32;
    FrameAhead(bytes, 1, 44100, 1, BufferLength(1, 1), Position(8, 0));
  }

  /** Nine channels are accepted, although there are filters for eight. */
  lemma NineChannelsAccepted() returns (bytes: seq<Byte>)
    ensures HeaderOk(bytes) && HeaderChannels(WordAt(bytes, 8)) == 9 && TotalSamples(bytes) == Samples(bytes[8..]) == 20
    ensures Accepts(bytes[8..], 9, 44100) && Whole(bytes[8..], 9, 20) && !Decodable(bytes)
  {
    hide HeaderWord, WordAt, HeaderChannels, HeaderRate, HeaderSamples, HeaderSize;
    bytes := OneFrameFile(20, 9, 20, 224, 28);
    HeaderRoundTrip(9, 44100, 20, 224);
    assert |bytes[8..]| == 224;
    FrameAhead(bytes, 9, 44100, 20, BufferLength(20, 9), Position(8, 0));
  }

  // ---------------------------------------------------------------- decoding what was encoded

  /** Where frame `f` of an encoded file starts. */
  ghost function PositionOf(i: Input, lms: seq<Filter>, f: nat): Position
    requires Supplied(i) && |lms| == MAX_CHANNELS && f <= Frames(i.samples)
  {
    Position(8 + |FramesBytes(i, lms, f)|, FrameStart(i.samples, f))
  }

  lemma {:induction false} FramesPrefix(i: Input, lms: seq<Filter>, f: nat, n: nat)
    requires Supplied(i) && |lms| == MAX_CHANNELS && f <= n <= Frames(i.samples)
    ensures |FramesBytes(i, lms, f)| <= |FramesBytes(i, lms, n)|
    ensures FramesBytes(i, lms, n)[..|FramesBytes(i, lms, f)|] == FramesBytes(i, lms, f)
    decreases n
  {
    hide FrameBytes, Frames;
    if f < n {
      FramesPrefix(i, lms, f, n - 1);
      var a, b := FramesBytes(i, lms, n - 1), FramesBytes(i, lms, f);
      assert (a + FrameBytes(i, lms, n - 1))[..|b|] == a[..|b|];
    } else {
      assert FramesBytes(i, lms, n)[..|FramesBytes(i, lms, n)|] == FramesBytes(i, lms, n);
    }
  }

  /** The file from frame `f` on: that frame, and the rest. */
  lemma FileFromFrame(i: Input, lms: seq<Filter>, f: nat) returns (tail: seq<Byte>)
    requires Supplied(i) && |lms| == MAX_CHANNELS && f < Frames(i.samples)
    ensures PositionOf(i, lms, f).byte <= |FileBytes(i, lms)|
    ensures FileBytes(i, lms)[PositionOf(i, lms, f).byte..] == FrameBytes(i, lms, f) + tail
    ensures PositionOf(i, lms, f + 1).byte == PositionOf(i, lms, f).byte + |FrameBytes(i, lms, f)|
  {
    hide FrameBytes, Frames, FrameStart, FileHeader, WordBytes;
    var n := Frames(i.samples);
    FramesPrefix(i, lms, f, n);
    FramesPrefix(i, lms, f + 1, n);
    var all, head, frame := FramesBytes(i, lms, n), FramesBytes(i, lms, f), FrameBytes(i, lms, f);
    tail := all[|head| + |frame|..];
    CutFile(WordBytes(FileHeader(i.samples)), all, head, frame);
  }

  lemma CutFile(w: seq<Byte>, all: seq<Byte>, head: seq<Byte>, frame: seq<Byte>)
    requires |head + frame| <= |all| && all[..|head + frame|] == head + frame
    ensures (w + all)[|w| + |head|..] == frame + all[|head| + |frame|..]
  {
    var tail := all[|head| + |frame|..];
    assert all == head + frame + tail;
    assert w + all == w + head + (frame + tail);
  }

  /** The decoder's checks pass at every frame of an encoded file. */
  lemma FrameInFile(i: Input, lms: seq<Filter>, f: nat)
    requires Supplied(i) && |lms| == MAX_CHANNELS && f < Frames(i.samples)
    ensures var at := PositionOf(i, lms, f);
            at.byte + 8 <= |FileBytes(i, lms)| &&
            var rest := FileBytes(i, lms)[at.byte..];
            && Accepts(rest, i.channels, i.samplerate) && Samples(rest) == FrameLen(i.samples, f)
            && Whole(rest, i.channels, FrameLen(i.samples, f))
            && Following(FileBytes(i, lms), i.channels, at) == PositionOf(i, lms, f + 1)
  {
    hide FileBytes, FramesBytes, Frames, FiltersAt, FrameWords, Serialized, Accepts, Samples, Whole, FrameCols, Slices;
    var tail := FileFromFrame(i, lms, f);
    FrameAccepted(i.samplerate, FiltersAt(i, lms, f), FrameCols(i, f), FrameLen(i.samples, f), tail);
    StartOfNext(i.samples, f);
    BytesBehind(FileBytes(i, lms), PositionOf(i, lms, f).byte, FrameBytes(i, lms, f), tail);
    OffsetIsLarge(i.channels, Slices(FrameLen(i.samples, f)));
  }

  lemma StartOfNext(samples: nat, f: nat)
    requires f < Frames(samples)
    ensures FrameStart(samples, f) == FRAME_LEN * f
    ensures FrameStart(samples, f + 1) == FRAME_LEN * f + FrameLen(samples, f)
    ensures FrameStart(samples, f + 1) < samples <==> f + 1 < Frames(samples)
  {
  }

  lemma BytesBehind(bytes: seq<Byte>, at: nat, a: seq<Byte>, b: seq<Byte>)
    requires at <= |bytes| && bytes[at..] == a + b
    ensures at + |a| <= |bytes|
  {
    assert |bytes[at..]| == |bytes| - at;
  }

  lemma OffsetIsLarge(ch: nat, n: nat)
    ensures SliceOffset(ch, n, 0) >= 8
  {
  }

  /** The frames from `f` on. */
  ghost function Positions(i: Input, lms: seq<Filter>, f: nat): (ps: seq<Position>)
    requires Supplied(i) && |lms| == MAX_CHANNELS && f <= Frames(i.samples)
    ensures |ps| == Frames(i.samples) - f
    decreases Frames(i.samples) - f
  {
    if f == Frames(i.samples) then [] else [PositionOf(i, lms, f)] + Positions(i, lms, f + 1)
  }

  lemma {:induction false} PositionsAt(i: Input, lms: seq<Filter>, f: nat, k: nat)
    requires Supplied(i) && |lms| == MAX_CHANNELS && f <= k < Frames(i.samples)
    ensures Positions(i, lms, f)[k - f] == PositionOf(i, lms, k)
    decreases k - f
  {
    hide PositionOf, Frames, Supplied;
    if f < k {
      PositionsAt(i, lms, f + 1, k);
    }
  }

  /** The decoder goes through exactly the frames that were written, and stays inside the buffer if it holds all
      samples. */
  lemma {:induction false} FramesOfFile(i: Input, lms: seq<Filter>, length: nat, f: nat)
    requires Supplied(i) && |lms| == MAX_CHANNELS && f < Frames(i.samples)
    ensures AllFit(FileBytes(i, lms), i.channels, i.samplerate, i.samples, length, PositionOf(i, lms, f))
       <==> i.samples * i.channels <= length
    ensures FramesFrom(FileBytes(i, lms), i.channels, i.samplerate, i.samples, PositionOf(i, lms, f))
         == Positions(i, lms, f)
    decreases Frames(i.samples) - f
  {
    hide FileBytes, FramesBytes, Frames, Accepts, Samples, Whole, Slices, SizeOfFrame, FrameBytes, FrameLen,
      FrameStart, FileHeader, WordBytes;
    FrameInFile(i, lms, f);
    StartOfNext(i.samples, f);
    FrameFits(i, f);
    FrameEnds(i.samples, f);
    Distribute(i.channels, FRAME_LEN * f, FrameLen(i.samples, f));
    if f + 1 < Frames(i.samples) {
      FramesOfFile(i, lms, length, f + 1);
      FrameInFile(i, lms, f + 1);
    }
  }

  lemma FrameEnds(samples: nat, f: nat)
    requires f < Frames(samples)
    ensures FRAME_LEN * f + FrameLen(samples, f) <= samples
    ensures f + 1 == Frames(samples) ==> FRAME_LEN * f + FrameLen(samples, f) == samples
  {
  }

  /** The header of an encoded file. */
  lemma HeaderInFile(i: Input, lms: seq<Filter>)
    requires Supplied(i) && |lms| == MAX_CHANNELS
    ensures var bytes := FileBytes(i, lms);
            HeaderOk(bytes) && TotalSamples(bytes) == i.samples &&
            HeaderChannels(WordAt(bytes, 8)) == i.channels && HeaderRate(WordAt(bytes, 8)) == i.samplerate
    ensures Frames(i.samples) > 0 && PositionOf(i, lms, 0) == Position(8, 0)
  {
    hide FramesBytes, FrameWords, WordAt, HeaderChannels, HeaderRate, HeaderSamples, HeaderSize, WordBytes, FileHeader,
      FrameStart, Frames, Slices;
    var bytes := FileBytes(i, lms);
    SomeFrame(i.samples);
    FirstFrame(i, lms);
    FrameInFile(i, lms, 0);
    FileWord(bytes, FileHeader(i.samples), FramesBytes(i, lms, Frames(i.samples)));
    HeaderNumbers(i.samples);
    SameWord(bytes, 8);
    assert |bytes[8..]| == |bytes| - 8;
  }

  lemma SomeFrame(samples: nat)
    requires samples > 0
    ensures Frames(samples) > 0
  {
  }

  lemma FileWord(bytes: seq<Byte>, w: Word, rest: seq<Byte>)
    requires bytes == WordBytes(w) + rest
    ensures |bytes| >= 8 && WordAt(bytes, 0) == w
  {
    hide WordAt, WordBytes;
    assert bytes[0..8] == WordBytes(w);
    WordRoundTrip(w, bytes, 0);
  }

  lemma HeaderNumbers(samples: nat)
    requires samples < WORD32
    ensures FileHeader(samples) / WORD32 == QOA_MAGIC && FileHeader(samples) % WORD32 == samples
  {
  }

  lemma SameWord(bytes: seq<Byte>, p: nat)
    requires p + 8 <= |bytes|
    ensures WordAt(bytes[p..], 0) == WordAt(bytes, p)
  {
    assert bytes[p..][0..8] == bytes[p..p + 8];
  }

  /** An encoded file passes the decoder's checks, and it can be decoded without an access outside the buffer exactly
      when the number of its samples over all channels fits a signed 32-bit integer. */
  lemma EncodedIsDecodable(i: Input, lms: seq<Filter>)
    requires Supplied(i) && |lms| == MAX_CHANNELS
    ensures HeaderOk(FileBytes(i, lms)) && (Decodable(FileBytes(i, lms)) <==> i.samples * i.channels < 0x8000_0000)
    ensures AllFrames(FileBytes(i, lms)) == Positions(i, lms, 0) != []
  {
    hide FileBytes, AllFit, FramesFrom, Frames, Positions, PositionOf, HeaderChannels, HeaderRate, TotalSamples,
      WordAt, BufferLength;
    HeaderInFile(i, lms);
    BufferHolds(i.samples, i.channels);
    FramesOfFile(i, lms, BufferLength(i.samples, i.channels), 0);
  }

  lemma BufferHolds(samples: nat, ch: nat)
    ensures samples * ch <= BufferLength(samples, ch) <==> samples * ch < 0x8000_0000
  {
    var n: nat := samples * ch;
    assert n < WORD32 ==> n % WORD32 == n;
  }

  /** Decoding an encoded file yields, frame by frame and channel by channel, exactly the samples the encoder
      reconstructed wherever its filter fitted 16 bits when the frame began, and the number of samples there were. */
  lemma FileLockstep(i: Input, lms: seq<Filter>, data: seq<int>, found: nat, f: nat, c: nat)
    requires Supplied(i) && |lms| == MAX_CHANNELS
    requires HeaderOk(FileBytes(i, lms))
    requires AllHeld(FileBytes(i, lms), i.channels, data, AllFrames(FileBytes(i, lms)), found)
    requires EndsAt(FileBytes(i, lms), AllFrames(FileBytes(i, lms)), found)
    requires f < Frames(i.samples) && c < i.channels && FitsS16(FiltersAt(i, lms, f)[c])
    ensures found == i.samples
    ensures FrameBase(i, f) + FrameLen(i.samples, f) * i.channels <= |data|
    ensures Column(data, FrameBase(i, f), i.channels, c, FrameLen(i.samples, f))
         == Recon(FiltersAt(i, lms, f)[c], FrameCols(i, f)[c], Slices(FrameLen(i.samples, f)))
  {
    hide FileBytes, AllFit, FramesFrom, AllFrames, Frames, Positions, PositionOf, Held, Samples, FrameLen, FrameStart,
      HeaderOk, FiltersAt, FrameCols, Column, Recon, FitsS16;
    EncodedIsDecodable(i, lms);
    PositionsAt(i, lms, 0, f);
    PositionsAt(i, lms, 0, Frames(i.samples) - 1);
    FrameInFile(i, lms, Frames(i.samples) - 1);
    EndIs(i, lms);
    HeldFrame(i, lms, data, f, c);
  }

  lemma EndIs(i: Input, lms: seq<Filter>)
    requires Supplied(i) && |lms| == MAX_CHANNELS
    ensures Frames(i.samples) > 0
    ensures PositionOf(i, lms, Frames(i.samples) - 1).sample + FrameLen(i.samples, Frames(i.samples) - 1) == i.samples
  {
  }

  lemma HeldFrame(i: Input, lms: seq<Filter>, data: seq<int>, f: nat, c: nat)
    requires Supplied(i) && |lms| == MAX_CHANNELS && f < Frames(i.samples) && c < i.channels
    requires FitsS16(FiltersAt(i, lms, f)[c])
    requires Held(FileBytes(i, lms), i.channels, data, PositionOf(i, lms, f))
    ensures FrameBase(i, f) + FrameLen(i.samples, f) * i.channels <= |data|
    ensures Column(data, FrameBase(i, f), i.channels, c, FrameLen(i.samples, f))
         == Recon(FiltersAt(i, lms, f)[c], FrameCols(i, f)[c], Slices(FrameLen(i.samples, f)))
  {
    hide FileBytes, Frames, Samples, FrameLen, FiltersAt, FrameCols, Column, Recon, FitsS16, Whole, FilterIn,
      ChannelWords, DecSamples, FrameWords, Serialized, Slices, CodedSlice, Run, DecFilter;
    FrameInFile(i, lms, f);
    StartOfNext(i.samples, f);
    var tail := FileFromFrame(i, lms, f);
    var at, n := PositionOf(i, lms, f), FrameLen(i.samples, f);
    var rest := FileBytes(i, lms)[at.byte..];
    assert HeldChannel(rest, i.channels, data, at.sample, n, c);
    FrameContents(i.samplerate, FiltersAt(i, lms, f), FrameCols(i, f), n, tail, c);
    Lockstep(FiltersAt(i, lms, f)[c], FrameCols(i, f)[c], ChannelWords(rest, i.channels, n, c, Slices(n)), Slices(n));
  }
}
