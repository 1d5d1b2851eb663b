/** QOA frames: a header, the filter state of every channel, and the slices of all channels in turn. Encoder and decoder
    stay in lockstep. */
module QoaFrame {
  import opened Bytes
  import opened Powers
  import opened QoaSlice
  import opened QoaWords

  const MAX_CHANNELS := 8
  const SLICES_PER_FRAME := 256
  const FRAME_LEN := 5120

  // ---------------------------------------------------------------- one channel

  function Slices(len: nat): nat {
    (len + SLICE_LEN - 1) / SLICE_LEN
  }

  function SliceLen(len: nat, t: nat): (n: nat)
    requires t < Slices(len)
    ensures 1 <= n <= SLICE_LEN && SLICE_LEN * t + n <= len
  {
    if len - SLICE_LEN * t < SLICE_LEN then len - SLICE_LEN * t else SLICE_LEN
  }

  function SliceAt(col: seq<Sample>, t: nat): (s: seq<Sample>)
    requires t < Slices(|col|)
    ensures |s| == SliceLen(|col|, t)
  {
    col[SLICE_LEN * t..SLICE_LEN * t + SliceLen(|col|, t)]
  }

  /** What the encoder keeps per channel: the filter, and the scale factor of the last slice. */
  datatype Coder = Coder(lms: Filter, prev: nat)

  /** The encoder's state after `t` slices of a channel. */
  function Run(l: Filter, col: seq<Sample>, t: nat): Coder
    requires t <= Slices(|col|)
  {
    if t == 0 then Coder(l, 0) else
      var coder, s := Run(l, col, t - 1), SliceAt(col, t - 1);
      var sf := BestScale(coder.lms, s, coder.prev);
      Coder(AfterSlice(coder.lms, s, sf), sf)
  }

  function ChosenScale(l: Filter, col: seq<Sample>, t: nat): (sf: nat)
    requires t < Slices(|col|)
    ensures sf < SCALES
  {
    BestScale(Run(l, col, t).lms, SliceAt(col, t), Run(l, col, t).prev)
  }

  /** The word of slice `t`. */
  function CodedSlice(l: Filter, col: seq<Sample>, t: nat): Word
    requires t < Slices(|col|)
  {
    var sf, qs := ChosenScale(l, col, t), Quantized(Run(l, col, t).lms, SliceAt(col, t), ChosenScale(l, col, t));
    SliceWordIs(sf, qs);
    SliceWord(sf, qs)
  }

  /** The samples the encoder has reconstructed in `t` slices. */
  function Recon(l: Filter, col: seq<Sample>, t: nat): (r: seq<int>)
    requires t <= Slices(|col|)
    ensures |r| == Covered(|col|, t)
  {
    if t == 0 then [] else
      Recon(l, col, t - 1) + Reconstructed(Run(l, col, t - 1).lms, SliceAt(col, t - 1), ChosenScale(l, col, t - 1))
  }

  /** How many samples `t` slices hold. */
  function Covered(len: nat, t: nat): nat
    requires t <= Slices(len)
  {
    if t == Slices(len) then len else SLICE_LEN * t
  }

  /** The decoder's filter after `t` words of a channel with `len` samples. */
  function DecFilter(l: Filter, ws: seq<Word>, len: nat, t: nat): Filter
    requires t <= |ws| == Slices(len)
  {
    if t == 0 then l else
      AfterOutputs(DecFilter(l, ws, len, t - 1), ScaleOf(ws[t - 1]), Digits(ws[t - 1], SliceLen(len, t - 1)))
  }

  function DecSamples(l: Filter, ws: seq<Word>, len: nat, t: nat): (r: seq<int>)
    requires t <= |ws| == Slices(len)
    ensures |r| == Covered(len, t)
  {
    if t == 0 then [] else
      DecSamples(l, ws, len, t - 1)
        + Outputs(DecFilter(l, ws, len, t - 1), ScaleOf(ws[t - 1]), Digits(ws[t - 1], SliceLen(len, t - 1)))
  }

  /** From the same filter state, the decoder makes of the encoder's words what the encoder has reconstructed, and
      both end in the same state. */
  lemma {:induction false} Lockstep(l: Filter, col: seq<Sample>, ws: seq<Word>, t: nat)
    requires t <= |ws| == Slices(|col|)
    requires forall u :: 0 <= u < |ws| ==> ws[u] == CodedSlice(l, col, u)
    ensures DecFilter(l, ws, |col|, t) == Run(l, col, t).lms
    ensures DecSamples(l, ws, |col|, t) == Recon(l, col, t)
  {
    hide SliceAt, BestScale, AfterSlice, Quantized, SliceWord, ScaleOf, Digits, Outputs, AfterOutputs, Reconstructed;
    if t > 0 {
      Lockstep(l, col, ws, t - 1);
      var lms, s, sf := Run(l, col, t - 1).lms, SliceAt(col, t - 1), ChosenScale(l, col, t - 1);
      assert ws[t - 1] == CodedSlice(l, col, t - 1);
      SliceWordRoundTrip(sf, Quantized(lms, s, sf));
      SliceLockstep(lms, s, sf);
    }
  }

  lemma RunStep(l: Filter, col: seq<Sample>, t: nat)
    requires t < Slices(|col|)
    ensures Run(l, col, 0).lms == l
    ensures Run(l, col, t + 1).lms == AfterSlice(Run(l, col, t).lms, SliceAt(col, t), ChosenScale(l, col, t))
  {
  }

  /** Weights grow by at most 896 a sample. */
  lemma {:induction false} RunWithin(l: Filter, col: seq<Sample>, t: nat)
    requires t <= Slices(|col|) && Moderate(l)
    ensures WeightsWithin(Run(l, col, t).lms, START_MAX + 896 * SLICE_LEN * t)
  {
    hide WeightsWithin, Moderate, BestScale, AfterSlice, Rank, Run, SliceAt, ChosenScale, Slices;
    if t == 0 {
      StartWithin(l, col);
    } else {
      RunWithin(l, col, t - 1);
      RunStep(l, col, t - 1);
      var s := SliceAt(col, t - 1);
      var b := START_MAX + 896 * SLICE_LEN * (t - 1);
      SliceWithin(Run(l, col, t - 1).lms, s, ChosenScale(l, col, t - 1), b);
      WithinMonotone(Run(l, col, t).lms, b + 896 * |s|, START_MAX + 896 * SLICE_LEN * t);
    }
  }

  lemma StartWithin(l: Filter, col: seq<Sample>)
    requires Moderate(l)
    ensures WeightsWithin(Run(l, col, 0).lms, START_MAX)
  {
  }

  // ---------------------------------------------------------------- the words of a frame

  ghost predicate IsFrame(lms: seq<Filter>, cols: seq<seq<Sample>>, len: nat) {
    1 <= |cols| <= MAX_CHANNELS == |lms| && len <= FRAME_LEN && forall c :: 0 <= c < |cols| ==> |cols[c]| == len
  }

  lemma CellBound(m: nat, ch: nat, n: nat)
    requires ch > 0 && m < ch * n
    ensures Quotient(m, ch) < n && Remainder(m, ch) < ch
  {
    var t := Quotient(m, ch);
    if t >= n {
      MulLe(ch, ch, n, t);
    }
  }

  lemma CellAt(t: nat, c: nat, ch: nat, n: nat)
    requires c < ch && t < n
    ensures ch * t + c < ch * n && Quotient(ch * t + c, ch) == t && Remainder(ch * t + c, ch) == c
  {
    DivModOf(ch * t + c, ch, t, c);
    MulLe(ch, ch, t + 1, n);
  }

  /** The `m`-th slice of a frame: the slices of all channels take turns. */
  ghost function CellWord(lms: seq<Filter>, cols: seq<seq<Sample>>, len: nat, m: nat): Word
    requires IsFrame(lms, cols, len) && m < |cols| * Slices(len)
  {
    CellBound(m, |cols|, Slices(len));
    CodedSlice(lms[Remainder(m, |cols|)], cols[Remainder(m, |cols|)], Quotient(m, |cols|))
  }

  ghost function SliceWords(lms: seq<Filter>, cols: seq<seq<Sample>>, len: nat, m: nat): (ws: seq<Word>)
    requires IsFrame(lms, cols, len) && m <= |cols| * Slices(len)
    ensures |ws| == m
  {
    if m == 0 then [] else SliceWords(lms, cols, len, m - 1) + [CellWord(lms, cols, len, m - 1)]
  }

  lemma {:induction false} SliceWordsAt(lms: seq<Filter>, cols: seq<seq<Sample>>, len: nat, m: nat, i: nat)
    requires IsFrame(lms, cols, len) && i < m <= |cols| * Slices(len)
    ensures SliceWords(lms, cols, len, m)[i] == CellWord(lms, cols, len, i)
    decreases m
  {
    hide IsFrame, Slices, CellWord;
    if i < m - 1 {
      SliceWordsAt(lms, cols, len, m - 1, i);
    }
  }

  function FilterWords(lms: seq<Filter>, n: nat): (ws: seq<Word>)
    requires n <= |lms|
    ensures |ws| == 2 * n
  {
    if n == 0 then [] else FilterWords(lms, n - 1) + [Pack4(lms[n - 1].history), Pack4(lms[n - 1].weights)]
  }

  lemma {:induction false} FilterWordsAt(lms: seq<Filter>, n: nat, c: nat)
    requires c < n <= |lms|
    ensures FilterWords(lms, n)[2 * c] == Pack4(lms[c].history)
    ensures FilterWords(lms, n)[2 * c + 1] == Pack4(lms[c].weights)
    decreases n
  {
    if c < n - 1 {
      FilterWordsAt(lms, n - 1, c);
    }
  }

  function FrameSize(ch: nat, slices: nat): nat {
    8 + LMS_LEN * 4 * ch + 8 * (ch * slices)
  }

  lemma FrameSizeFits(ch: nat, len: nat)
    requires ch <= MAX_CHANNELS && len <= FRAME_LEN
    ensures FrameSize(ch, Slices(len)) <= 16520 && ch * Slices(len) <= 2048
  {
    MulLe(ch, MAX_CHANNELS, Slices(len), SLICES_PER_FRAME);
  }

  function HeaderWord(ch: nat, rate: nat, len: nat, size: nat): Word
    requires ch < 256 && rate < 0x100_0000 && len < 65536 && size < 65536
  {
    ch * 0x100_0000_0000_0000 + rate * 0x1_0000_0000 + len * 0x1_0000 + size
  }

  /** All words of a frame that codes the channels `cols` from the filters `lms` on. */
  ghost function FrameWords(rate: nat, lms: seq<Filter>, cols: seq<seq<Sample>>, len: nat): (ws: seq<Word>)
    requires IsFrame(lms, cols, len) && rate < 0x100_0000
    ensures |ws| == 1 + 2 * |cols| + |cols| * Slices(len)
  {
    FrameSizeFits(|cols|, len);
    [HeaderWord(|cols|, rate, len, FrameSize(|cols|, Slices(len)))] + FilterWords(lms, |cols|)
      + SliceWords(lms, cols, len, |cols| * Slices(len))
  }

  /** Channel `c` of `len` interleaved samples per channel. */
  function Column<T>(data: seq<T>, base: nat, ch: nat, c: nat, len: nat): (s: seq<T>)
    requires c < ch && base + len * ch <= |data|
    ensures |s| == len
  {
    assert Reaches(|data|, base + c, ch, len);
    Strided(data, base + c, ch, len)
  }

  ghost function Columns<T>(data: seq<T>, base: nat, ch: nat, len: nat): (cols: seq<seq<T>>)
    requires base + len * ch <= |data|
    ensures |cols| == ch && forall c :: 0 <= c < ch ==> cols[c] == Column(data, base, ch, c, len)
  {
    seq(ch, c requires 0 <= c < ch && base + len * ch <= |data| => Column(data, base, ch, c, len))
  }

  /** A stretch of a channel. */
  lemma StridedPart<T>(data: seq<T>, start: nat, step: nat, n: nat, a: nat, m: nat)
    requires Reaches(|data|, start, step, n) && a + m <= n
    ensures Reaches(|data|, Place(start, step, a), step, m)
    ensures Strided(data, start, step, n)[a..a + m] == Strided(data, Place(start, step, a), step, m)
  {
    ReachesPart(|data|, start, step, n, a, m);
    hide Reaches, Place, Strided;
    var s, t := Strided(data, start, step, n), Strided(data, Place(start, step, a), step, m);
    forall k | 0 <= k < m
      ensures s[a..a + m][k] == t[k]
    {
      StridedAt(data, start, step, n, a + k);
      StridedAt(data, Place(start, step, a), step, m, k);
      PlaceAdd(start, step, a, k);
    }
  }

  lemma PlaceAdd(start: nat, step: nat, a: nat, k: nat)
    ensures Place(Place(start, step, a), step, k) == Place(start, step, a + k)
  {
    Distribute(step, a, k);
  }

  lemma ReachesPart(len: nat, start: nat, step: nat, n: nat, a: nat, m: nat)
    requires Reaches(len, start, step, n) && a + m <= n
    ensures Reaches(len, Place(start, step, a), step, m)
  {
    MulLe(a + m, n, step, step);
    Distribute(step, a, m);
  }

  // ---------------------------------------------------------------- encoding a frame

  lemma {:induction false} SerializedConcat(a: seq<Word>, b: seq<Word>)
    ensures Serialized(a + b) == Serialized(a) + Serialized(b)
    decreases |b|
  {
    hide WordBytes, Serialized;
    if b == [] {
      EmptyWords([]);
      assert a + b == a;
    } else {
      var init, last := b[..|b| - 1], b[|b| - 1];
      SerializedConcat(a, init);
      assert a + b == (a + init) + [last] && b == init + [last];
      SerializedNext(a + init, last);
      SerializedNext(init, last);
      assert Serialized(a + b) == Serialized(a) + (Serialized(init) + WordBytes(last));
    }
  }

  /** Where slice `t` of a channel starts among the interleaved samples. */
  lemma SlicePlace<T>(data: seq<T>, base: nat, ch: nat, c: nat, len: nat, t: nat)
    requires c < ch && base + len * ch <= |data| && t < Slices(len)
    ensures var start, n := base + SLICE_LEN * t * ch + c, SliceLen(len, t);
            Reaches(|data|, start, ch, n) &&
            Strided(data, start, ch, n) == Column(data, base, ch, c, len)[SLICE_LEN * t..SLICE_LEN * t + n]
  {
    hide Strided, Slices;
    StridedPart(data, base + c, ch, len, SLICE_LEN * t, SliceLen(len, t));
    assert Place(base + c, ch, SLICE_LEN * t) == base + SLICE_LEN * t * ch + c;
  }

  /** Codes slice `t` of channel `c`. */
  method EncodeSlice(data: seq<Sample>, base: nat, channels: nat, frameLen: nat, sampleIndex: nat, c: nat, l: Filter,
                     prev: nat, ghost l0: Filter, ghost t: nat) returns (scalefactor: nat, slice: Word, lms: Filter)
    requires c < channels && base + frameLen * channels <= |data| && frameLen <= FRAME_LEN
    requires t < Slices(frameLen) && sampleIndex == SLICE_LEN * t && Moderate(l0)
    requires Coder(l, prev) == Run(l0, Column(data, base, channels, c, frameLen), t)
    ensures var col := Column(data, base, channels, c, frameLen);
            slice == CodedSlice(l0, col, t) && Coder(lms, scalefactor) == Run(l0, col, t + 1)
  {
    hide Column, Strided, BestScale, Quantized, AfterSlice, PackOnto, Moderate, WeightsWithin, Slices, Reaches;
    ghost var col := Column(data, base, channels, c, frameLen);
    SlicesBound(frameLen, t);
    var sliceLen: nat := Clamp(SLICE_LEN, 0, frameLen - sampleIndex);
    var sliceStart := base + sampleIndex * channels + c;
    SlicePlace(data, base, channels, c, frameLen, t);
    RunWithin(l0, col, t);
    WithinMonotone(l, START_MAX + 896 * SLICE_LEN * t, WEIGHT_MAX - 896 * SLICE_LEN);
    var best;
    scalefactor, best, lms := SearchSlice(data, sliceStart, channels, sliceLen, l, prev);
    SliceWordIs(scalefactor, Quantized(l, SliceAt(col, t), scalefactor));
    slice := best * Pow8(SLICE_LEN - sliceLen);
  }

  lemma SlicesBound(len: nat, t: nat)
    requires len <= FRAME_LEN && t < Slices(len)
    ensures t < SLICES_PER_FRAME && SLICE_LEN * t < len
  {
  }

  /** The states of all channels when slice `t` of the first `c` channels has been coded as well. */
  ghost predicate Progress(lms0: seq<Filter>, lms: seq<Filter>, prev: seq<nat>, cols: seq<seq<Sample>>, len: nat,
                           t: nat, c: nat)
  {
    && IsFrame(lms0, cols, len) && |lms| == |prev| == MAX_CHANNELS && c <= |cols|
    && t <= Slices(len) && (c > 0 ==> t < Slices(len))
    && (forall k :: 0 <= k < |cols| ==> Coder(lms[k], prev[k]) == Run(lms0[k], cols[k], if k < c then t + 1 else t))
    && (forall k :: |cols| <= k < MAX_CHANNELS ==> lms[k] == lms0[k])
  }

  lemma ProgressStep(lms0: seq<Filter>, lms: seq<Filter>, prev: seq<nat>, cols: seq<seq<Sample>>, len: nat, t: nat,
                     c: nat, l: Filter, sf: nat)
    requires Progress(lms0, lms, prev, cols, len, t, c) && c < |cols| && t < Slices(len)
    requires Coder(l, sf) == Run(lms0[c], cols[c], t + 1)
    ensures Progress(lms0, lms[c := l], prev[c := sf], cols, len, t, c + 1)
  {
    hide Run, Slices;
  }

  lemma ProgressRound(lms0: seq<Filter>, lms: seq<Filter>, prev: seq<nat>, cols: seq<seq<Sample>>, len: nat, t: nat)
    requires Progress(lms0, lms, prev, cols, len, t, |cols|)
    ensures Progress(lms0, lms, prev, cols, len, t + 1, 0)
  {
    hide Run, Slices;
  }

  /** How many slices of a frame come before slice `t` of channel `c`. */
  function Cell(ch: nat, t: nat, c: nat): nat {
    ch * t + c
  }

  /** The channels of `len` interleaved samples each, from `base` on. */
  ghost predicate Interleaved(data: seq<Sample>, base: nat, ch: nat, len: nat, cols: seq<seq<Sample>>) {
    base + len * ch <= |data| && len <= FRAME_LEN && cols == Columns(data, base, ch, len)
  }

  /** `bytes` continues `head` with the first `m` slices. */
  ghost predicate Written(head: seq<Byte>, bytes: seq<Byte>, lms: seq<Filter>, cols: seq<seq<Sample>>, len: nat,
                          m: nat) {
    && IsFrame(lms, cols, len) && m <= |cols| * Slices(len)
    && bytes == head + Serialized(SliceWords(lms, cols, len, m))
  }

  lemma WordWritten(head: seq<Byte>, bytes: seq<Byte>, lms: seq<Filter>, cols: seq<seq<Sample>>, len: nat, t: nat,
                    c: nat)
    requires Written(head, bytes, lms, cols, len, Cell(|cols|, t, c)) && c < |cols| && t < Slices(len)
    ensures |cols[c]| == len
    ensures Written(head, bytes + WordBytes(CodedSlice(lms[c], cols[c], t)), lms, cols, len, Cell(|cols|, t, c + 1))
  {
    hide WordBytes, CodedSlice, Slices, Serialized;
    CellAt(t, c, |cols|, Slices(len));
    var m := Cell(|cols|, t, c);
    SerializedNext(SliceWords(lms, cols, len, m), CodedSlice(lms[c], cols[c], t));
    assert Cell(|cols|, t, c + 1) == m + 1;
  }

  lemma RoundWritten(head: seq<Byte>, bytes: seq<Byte>, lms: seq<Filter>, cols: seq<seq<Sample>>, len: nat, t: nat)
    requires Written(head, bytes, lms, cols, len, Cell(|cols|, t, |cols|))
    ensures Written(head, bytes, lms, cols, len, Cell(|cols|, t + 1, 0))
  {
    hide SliceWords, Slices, IsFrame;
    assert |cols| * (t + 1) == |cols| * t + |cols|;
  }

  class QoaDesc {
    var channels: nat
    var samplerate: nat
    var samples: nat
    var lms: seq<Filter>

    ghost predicate Valid()
      reads this
    {
      1 <= channels <= MAX_CHANNELS && samplerate < 0x100_0000 && |lms| == MAX_CHANNELS
    }

    /** Writes the filter state of every channel. */
    method WriteFilters(bytes: seq<Byte>) returns (bytes': seq<Byte>)
      requires Valid()
      ensures bytes' == bytes + Serialized(FilterWords(lms, channels))
    {
      hide Serialized, WordBytes, Pack4;
      bytes' := bytes;
      EmptyWords(bytes);
      for c := 0 to channels
        invariant bytes' == bytes + Serialized(FilterWords(lms, c))
      {
        var history := PackValues(lms[c].history);
        var weights := PackValues(lms[c].weights);
        TwoWords(FilterWords(lms, c), history, weights, bytes);
        bytes' := WriteU64(history, bytes');
        bytes' := WriteU64(weights, bytes');
      }
    }

    /** Slice `t` of every channel in turn. */
    method EncodeRound(data: seq<Sample>, base: nat, frameLen: nat, sampleIndex: nat, prev: seq<nat>, bytes: seq<Byte>,
                       ghost lms0: seq<Filter>, ghost cols: seq<seq<Sample>>, ghost t: nat, ghost head: seq<Byte>)
      returns (bytes': seq<Byte>, prev': seq<nat>)
      requires Valid() && Interleaved(data, base, channels, frameLen, cols)
      requires t < Slices(frameLen) && sampleIndex == SLICE_LEN * t && |lms0| == MAX_CHANNELS
      requires forall c :: 0 <= c < channels ==> Moderate(lms0[c])
      requires Progress(lms0, lms, prev, cols, frameLen, t, 0)
      requires Written(head, bytes, lms0, cols, frameLen, Cell(channels, t, 0))
      modifies this`lms
      ensures Valid() && Progress(lms0, lms, prev', cols, frameLen, t + 1, 0)
      ensures Written(head, bytes', lms0, cols, frameLen, Cell(channels, t + 1, 0))
    {
      hide Progress, Written, Run, CodedSlice, Slices, Moderate, Column, WordBytes, Cell;
      bytes', prev' := bytes, prev;
      for c := 0 to channels
        invariant Valid() && Progress(lms0, lms, prev', cols, frameLen, t, c)
        invariant Written(head, bytes', lms0, cols, frameLen, Cell(channels, t, c))
      {
        ProgressAt(lms0, lms, prev', cols, frameLen, t, c);
        var scalefactor, slice, l :=
          EncodeSlice(data, base, channels, frameLen, sampleIndex, c, lms[c], prev'[c], lms0[c], t);
        ProgressStep(lms0, lms, prev', cols, frameLen, t, c, l, scalefactor);
        WordWritten(head, bytes', lms0, cols, frameLen, t, c);
        prev' := prev'[c := scalefactor];
        lms := lms[c := l];
        bytes' := WriteU64(slice, bytes');
      }
      ProgressRound(lms0, lms, prev', cols, frameLen, t);
      RoundWritten(head, bytes', lms0, cols, frameLen, t);
    }

    /** `qoa_encode_frame`. Every channel is coded on its own, although their slices are interleaved. */
    method EncodeFrame(data: seq<Sample>, base: nat, frameLen: nat) returns (bytes: seq<Byte>)
      requires Valid() && base + frameLen * channels <= |data| && frameLen <= FRAME_LEN
      requires forall c :: 0 <= c < channels ==> Moderate(lms[c])
      modifies this`lms
      ensures Valid()
      ensures IsFrame(old(lms), Columns(data, base, channels, frameLen), frameLen)
      ensures bytes == Serialized(FrameWords(samplerate, old(lms), Columns(data, base, channels, frameLen), frameLen))
      ensures AfterFrame(old(lms), lms, Columns(data, base, channels, frameLen), frameLen)
    {
      hide Progress, Written, Run, Moderate, Column, WordBytes, Cell, Columns;
      ghost var lms0, cols := lms, Columns(data, base, channels, frameLen);
      var slices := Slices(frameLen);
      var frameSize := FrameSize(channels, slices);
      FrameSizeFits(channels, frameLen);
      var prev := [0, 0, 0, 0, 0, 0, 0, 0];
      bytes := WriteU64(HeaderWord(channels, samplerate, frameLen, frameSize), []);
      bytes := WriteFilters(bytes);
      ghost var head, t := bytes, 0;
      ColumnLengths(data, base, channels, frameLen);
      StartOfFrame(lms, prev, cols, frameLen, head);
      var sampleIndex := 0;
      while sampleIndex < frameLen
        invariant Valid() && sampleIndex == SLICE_LEN * t && t <= Slices(frameLen)
        invariant Progress(lms0, lms, prev, cols, frameLen, t, 0)
        invariant Written(head, bytes, lms0, cols, frameLen, Cell(channels, t, 0))
        decreases Slices(frameLen) - t
      {
        bytes, prev := EncodeRound(data, base, frameLen, sampleIndex, prev, bytes, lms0, cols, t, head);
        sampleIndex := sampleIndex + SLICE_LEN;
        t := t + 1;
      }
      EndOfFrame(lms0, lms, prev, cols, frameLen, samplerate, head, bytes);
    }
  }

  /** Every channel's filter has gone through all of its slices. */
  ghost predicate AfterFrame(lms0: seq<Filter>, lms: seq<Filter>, cols: seq<seq<Sample>>, len: nat) {
    && IsFrame(lms0, cols, len) && |lms| == MAX_CHANNELS
    && (forall c :: 0 <= c < |cols| ==> lms[c] == Run(lms0[c], cols[c], Slices(len)).lms)
    && (forall c :: |cols| <= c < MAX_CHANNELS ==> lms[c] == lms0[c])
  }

  lemma ColumnLengths(data: seq<Sample>, base: nat, ch: nat, len: nat)
    requires base + len * ch <= |data|
    ensures forall c :: 0 <= c < ch ==> |Columns(data, base, ch, len)[c]| == len
  {
    hide Column;
  }

  lemma StartOfFrame(lms: seq<Filter>, prev: seq<nat>, cols: seq<seq<Sample>>, len: nat, head: seq<Byte>)
    requires IsFrame(lms, cols, len) && |prev| == MAX_CHANNELS && forall k :: 0 <= k < MAX_CHANNELS ==> prev[k] == 0
    ensures Progress(lms, lms, prev, cols, len, 0, 0) && Written(head, head, lms, cols, len, Cell(|cols|, 0, 0))
  {
    hide Slices;
    EmptyWords(head);
  }

  lemma EndOfFrame(lms0: seq<Filter>, lms: seq<Filter>, prev: seq<nat>, cols: seq<seq<Sample>>, len: nat, rate: nat,
                   head: seq<Byte>, bytes: seq<Byte>)
    requires Progress(lms0, lms, prev, cols, len, Slices(len), 0) && rate < 0x100_0000
    requires Written(head, bytes, lms0, cols, len, Cell(|cols|, Slices(len), 0))
    requires FrameSize(|cols|, Slices(len)) < 65536
    requires var h := HeaderWord(|cols|, rate, len, FrameSize(|cols|, Slices(len)));
             head == WordBytes(h) + Serialized(FilterWords(lms0, |cols|))
    ensures AfterFrame(lms0, lms, cols, len) && bytes == Serialized(FrameWords(rate, lms0, cols, len))
  {
    hide Slices, FrameSize, HeaderWord, Run, SliceWords, FilterWords, WordBytes;
    var h := HeaderWord(|cols|, rate, len, FrameSize(|cols|, Slices(len)));
    var f, w := FilterWords(lms0, |cols|), SliceWords(lms0, cols, len, |cols| * Slices(len));
    EmptyWords([]);
    SerializedNext([], h);
    assert [] + [h] == [h];
    SerializedConcat([h], f);
    SerializedConcat([h] + f, w);
  }

  lemma ProgressAt(lms0: seq<Filter>, lms: seq<Filter>, prev: seq<nat>, cols: seq<seq<Sample>>, len: nat, t: nat,
                   c: nat)
    requires Progress(lms0, lms, prev, cols, len, t, c) && c < |cols|
    ensures c < |lms| && c < |prev| && c < |lms0| && |cols[c]| == len && t <= Slices(len)
    ensures Coder(lms[c], prev[c]) == Run(lms0[c], cols[c], t)
  {
    hide Run, Slices;
  }

  lemma EmptyWords(bytes: seq<Byte>)
    ensures Serialized([]) == [] && bytes + Serialized([]) == bytes
  {
  }

  lemma TwoWords(words: seq<Word>, v: Word, w: Word, bytes: seq<Byte>)
    ensures bytes + Serialized(words + [v, w]) == bytes + Serialized(words) + WordBytes(v) + WordBytes(w)
  {
    SerializedNext(words, v);
    SerializedNext(words + [v], w);
    assert words + [v] + [w] == words + [v, w];
  }
}