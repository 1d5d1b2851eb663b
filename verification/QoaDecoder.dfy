/** Decoding QOA frames, and the proof that the decoder reproduces what the encoder reconstructed. */
module QoaDecoder {
  import opened Bytes
  import opened Powers
  import opened QoaFrame
  import opened QoaSlice
  import opened QoaWords

  const WORD32 := 0x1_0000_0000

  // ---------------------------------------------------------------- what a frame says

  function HeaderChannels(h: Word): nat {
    h / 0x100_0000_0000_0000 % 256
  }

  function HeaderRate(h: Word): nat {
    h / 0x1_0000_0000 % 0x100_0000
  }

  function HeaderSamples(h: Word): (n: nat)
    ensures n < 65536
  {
    h / 0x1_0000 % 65536
  }

  function HeaderSize(h: Word): (n: nat)
    ensures n < 65536
  {
    h % 65536
  }

  lemma HeaderHigh(ch: nat, rate: nat, low: nat)
    requires ch < 256 && rate < 0x100_0000 && low < 0x1_0000_0000
    ensures var h := ch * 0x100_0000_0000_0000 + rate * 0x1_0000_0000 + low;
            h / 0x100_0000_0000_0000 % 256 == ch && h / 0x1_0000_0000 % 0x100_0000 == rate
  {
  }

  lemma HeaderLow(high: nat, len: nat, size: nat)
    requires len < 65536 && size < 65536
    ensures var h := high * 0x1_0000_0000 + len * 0x1_0000 + size;
            h / 0x1_0000 % 65536 == len && h % 65536 == size
  {
  }

  /** The header fields are read as they were written. */
  lemma HeaderRoundTrip(ch: nat, rate: nat, len: nat, size: nat)
    requires ch < 256 && rate < 0x100_0000 && len < 65536 && size < 65536
    ensures var h := HeaderWord(ch, rate, len, size);
            HeaderChannels(h) == ch && HeaderRate(h) == rate && HeaderSamples(h) == len && HeaderSize(h) == size
  {
    HeaderHigh(ch, rate, len * 0x1_0000 + size);
    HeaderLow(ch * 0x100_0000 + rate, len, size);
  }

  /** How many samples, all channels together, a frame of `size` bytes can hold, on 32-bit words. */
  function MaxSamples(size: nat, ch: nat): nat {
    (size - 8 - LMS_LEN * 4 * ch) % WORD32 / 8 * SLICE_LEN % WORD32
  }

  /** The checks made before a frame is decoded. */
  predicate Accepts(bytes: seq<Byte>, ch: nat, rate: nat) {
    |bytes| >= 8 + LMS_LEN * 4 * ch &&
    var h := WordAt(bytes, 0);
    && HeaderChannels(h) == ch && HeaderRate(h) == rate
    && HeaderSize(h) <= |bytes| && HeaderSamples(h) * ch <= MaxSamples(HeaderSize(h), ch)
  }

  function Samples(bytes: seq<Byte>): (n: nat)
    requires |bytes| >= 8
  {
    HeaderSamples(WordAt(bytes, 0))
  }

  /** Where the word of slice `t` of channel `c` stands. */
  function SliceOffset(ch: nat, t: nat, c: nat): (p: nat) {
    8 * (1 + 2 * ch + Cell(ch, t, c))
  }

  /** All slices of the frame are there. */
  predicate Whole(bytes: seq<Byte>, ch: nat, len: nat) {
    SliceOffset(ch, Slices(len), 0) <= |bytes|
  }

  lemma SliceInside(bytes: seq<Byte>, ch: nat, len: nat, t: nat, c: nat)
    requires Whole(bytes, ch, len) && c < ch && t < Slices(len)
    ensures SliceOffset(ch, t, c) + 8 <= |bytes|
  {
    hide Slices;
    CellAt(t, c, ch, Slices(len));
  }

  /** The filter state of channel `c` at the start of the frame. */
  function FilterIn(bytes: seq<Byte>, ch: nat, len: nat, c: nat): Filter
    requires Whole(bytes, ch, len) && c < ch
  {
    FilterOf(WordAt(bytes, 8 + 16 * c), WordAt(bytes, 16 + 16 * c))
  }

  /** The first `n` slice words of channel `c`. */
  function ChannelWords(bytes: seq<Byte>, ch: nat, len: nat, c: nat, n: nat): (ws: seq<Word>)
    requires Whole(bytes, ch, len) && c < ch && n <= Slices(len)
    ensures |ws| == n
  {
    if n == 0 then [] else
      SliceInside(bytes, ch, len, n - 1, c);
      ChannelWords(bytes, ch, len, c, n - 1) + [WordAt(bytes, SliceOffset(ch, n - 1, c))]
  }

  lemma {:induction false} ChannelWordsAt(bytes: seq<Byte>, ch: nat, len: nat, c: nat, n: nat, t: nat)
    requires Whole(bytes, ch, len) && c < ch && t < n <= Slices(len)
    ensures SliceOffset(ch, t, c) + 8 <= |bytes|
    ensures ChannelWords(bytes, ch, len, c, n)[t] == WordAt(bytes, SliceOffset(ch, t, c))
    decreases n
  {
    hide Whole, Slices, WordAt, SliceOffset;
    SliceInside(bytes, ch, len, t, c);
    SliceInside(bytes, ch, len, n - 1, c);
    if t < n - 1 {
      ChannelWordsAt(bytes, ch, len, c, n - 1, t);
    }
  }

  // ---------------------------------------------------------------- storing slices among other channels

  lemma PlaceDistinct(base: nat, ch: nat, k: nat, j: nat, c: nat, i: nat)
    requires k < ch && c < ch && (k != c || j != i)
    ensures Place(base + k, ch, j) != Place(base + c, ch, i)
  {
    DistributeSub(ch, j, i);
    MultipleIsFar(ch, j - i);
  }

  lemma PlaceInside(base: nat, ch: nat, len: nat, c: nat, j: nat)
    requires c < ch && j < len
    ensures base <= Place(base + c, ch, j) < base + len * ch
  {
    MulLe(j + 1, len, ch, ch);
    Distribute(ch, j, 1);
  }

  lemma ColumnAt<T>(data: seq<T>, base: nat, ch: nat, c: nat, len: nat, j: nat)
    requires c < ch && base + len * ch <= |data| && j < len
    ensures Place(base + c, ch, j) < |data| && Column(data, base, ch, c, len)[j] == data[Place(base + c, ch, j)]
  {
    hide Strided;
    StridedAt(data, base + c, ch, len, j);
  }

  /** Storing from sample `a` of channel `c` on changes only these samples. */
  lemma ColumnStore<T>(data: seq<T>, base: nat, ch: nat, len: nat, c: nat, a: nat, vals: seq<T>, data': seq<T>)
    requires c < ch && base + len * ch <= |data| && a + |vals| <= len
    requires Reaches(|data|, Place(base + c, ch, a), ch, |vals|)
    requires data' == Scattered(data, Place(base + c, ch, a), ch, vals)
    ensures Column(data', base, ch, c, len)[..a + |vals|] == Column(data, base, ch, c, len)[..a] + vals
    ensures forall k :: 0 <= k < ch && k != c ==> Column(data', base, ch, k, len) == Column(data, base, ch, k, len)
    ensures forall i :: 0 <= i < |data| && (i < base || i >= base + len * ch) ==> data'[i] == data[i]
  {
    hide Place, Reaches, Scattered, Column;
    forall j: nat | j < a + |vals|
      ensures Column(data', base, ch, c, len)[j] == (Column(data, base, ch, c, len)[..a] + vals)[j]
    {
      ColumnAt(data, base, ch, c, len, j);
      ColumnAt(data', base, ch, c, len, j);
      if j < a {
        Elsewhere(data, base, ch, c, a, vals, c, j);
      } else {
        ScatteredAt(data, Place(base + c, ch, a), ch, vals, j - a);
        PlaceAdd(base + c, ch, a, j - a);
      }
    }
    forall k: nat | k < ch && k != c
      ensures Column(data', base, ch, k, len) == Column(data, base, ch, k, len)
    {
      forall j: nat | j < len
        ensures Column(data', base, ch, k, len)[j] == Column(data, base, ch, k, len)[j]
      {
        ColumnAt(data, base, ch, k, len, j);
        ColumnAt(data', base, ch, k, len, j);
        Elsewhere(data, base, ch, c, a, vals, k, j);
      }
    }
    forall i: nat | i < |data| && (i < base || i >= base + len * ch)
      ensures data'[i] == data[i]
    {
      Outside(data, base, ch, len, c, a, vals, i);
    }
  }

  lemma Elsewhere<T>(data: seq<T>, base: nat, ch: nat, c: nat, a: nat, vals: seq<T>, k: nat, j: nat)
    requires c < ch && k < ch && (k != c || j < a)
    requires Reaches(|data|, Place(base + c, ch, a), ch, |vals|) && Place(base + k, ch, j) < |data|
    ensures Scattered(data, Place(base + c, ch, a), ch, vals)[Place(base + k, ch, j)] == data[Place(base + k, ch, j)]
  {
    hide Place, Reaches, Scattered;
    var start := Place(base + c, ch, a);
    forall i | 0 <= i < |vals|
      ensures Place(base + k, ch, j) != Place(start, ch, i)
    {
      PlaceAdd(base + c, ch, a, i);
      PlaceDistinct(base, ch, k, j, c, a + i);
    }
    ScatteredElsewhere(data, start, ch, vals, Place(base + k, ch, j));
  }

  lemma Outside<T>(data: seq<T>, base: nat, ch: nat, len: nat, c: nat, a: nat, vals: seq<T>, i: nat)
    requires c < ch && a + |vals| <= len && i < |data| && (i < base || i >= base + len * ch)
    requires Reaches(|data|, Place(base + c, ch, a), ch, |vals|)
    ensures Scattered(data, Place(base + c, ch, a), ch, vals)[i] == data[i]
  {
    hide Place, Reaches, Scattered;
    var start := Place(base + c, ch, a);
    forall k | 0 <= k < |vals|
      ensures i != Place(start, ch, k)
    {
      PlaceAdd(base + c, ch, a, k);
      PlaceInside(base, ch, len, c, a + k);
    }
    ScatteredElsewhere(data, start, ch, vals, i);
  }

  // ---------------------------------------------------------------- decoding a frame

  /** The channels of the frame, decoded up to slice `t` of channel `c`. */
  ghost predicate Decoded(bytes: seq<Byte>, ch: nat, len: nat, data: seq<int>, base: nat, lms: seq<Filter>, t: nat,
                          c: nat) {
    && Whole(bytes, ch, len) && base + len * ch <= |data| && ch <= MAX_CHANNELS == |lms| && c <= ch
    && t <= Slices(len) && (c > 0 ==> t < Slices(len))
    && forall k :: 0 <= k < ch ==> ChannelDecoded(bytes, ch, len, data, base, lms[k], if k < c then t + 1 else t, k)
  }

  ghost predicate ChannelDecoded(bytes: seq<Byte>, ch: nat, len: nat, data: seq<int>, base: nat, l: Filter, t: nat,
                                 k: nat)
    requires Whole(bytes, ch, len) && base + len * ch <= |data| && k < ch && t <= Slices(len)
  {
    var l0, ws := FilterIn(bytes, ch, len, k), ChannelWords(bytes, ch, len, k, Slices(len));
    l == DecFilter(l0, ws, len, t) && Column(data, base, ch, k, len)[..Covered(len, t)] == DecSamples(l0, ws, len, t)
  }

  /** Nothing outside the frame's part of the buffer has changed. */
  ghost predicate OnlyInside(was: seq<int>, now: seq<int>, base: nat, count: int) {
    |was| == |now| && forall i :: 0 <= i < |was| && (i < base || i >= base + count) ==> now[i] == was[i]
  }

  /** A slice decoded into its places in the buffer. */
  ghost predicate StoredSlice(first: nat, ch: nat, len: nat, data: seq<int>, l: Filter, t: nat, word: Word,
                              data': seq<int>, l': Filter)
    requires t < Slices(len)
  {
    var start, qs := Place(first, ch, SLICE_LEN * t), Digits(word, SliceLen(len, t));
    && l' == AfterOutputs(l, ScaleOf(word), qs)
    && Reaches(|data|, start, ch, SliceLen(len, t))
    && data' == Scattered(data, start, ch, Outputs(l, ScaleOf(word), qs))
  }

  /** The effect of one more word. */
  lemma SliceDecoded(bytes: seq<Byte>, ch: nat, len: nat, data: seq<int>, base: nat, lms: seq<Filter>, t: nat, c: nat,
                     word: Word, data': seq<int>, l: Filter)
    requires |lms| == MAX_CHANNELS && c < ch <= MAX_CHANNELS && base + len * ch <= |data| && t < Slices(len)
    requires StoredSlice(base + c, ch, len, data, lms[c], t, word, data', l)
    requires Decoded(bytes, ch, len, data, base, lms, t, c)
    requires SliceOffset(ch, t, c) + 8 <= |bytes| && word == WordAt(bytes, SliceOffset(ch, t, c))
    ensures Decoded(bytes, ch, len, data', base, lms[c := l], t, c + 1)
    ensures OnlyInside(data, data', base, len * ch)
  {
    hide Whole, Slices, WordAt, SliceOffset, Place, Reaches, Scattered, Column, Outputs, AfterOutputs, ScaleOf, Digits,
      ChannelDecoded, FilterIn, ChannelWords;
    var vals := Outputs(lms[c], ScaleOf(word), Digits(word, SliceLen(len, t)));
    ColumnStore(data, base, ch, len, c, SLICE_LEN * t, vals, data');
    ChannelWordsAt(bytes, ch, len, c, Slices(len), t);
    OwnChannel(bytes, ch, len, data, base, lms[c], t, c, word, data', l);
    forall k: nat | k < ch && k != c
      ensures ChannelDecoded(bytes, ch, len, data', base, lms[k], if k < c then t + 1 else t, k)
    {
      OtherChannel(bytes, ch, len, data, base, lms[k], if k < c then t + 1 else t, k, data');
    }
  }

  lemma OtherChannel(bytes: seq<Byte>, ch: nat, len: nat, data: seq<int>, base: nat, l: Filter, t: nat, k: nat,
                     data': seq<int>)
    requires Whole(bytes, ch, len) && base + len * ch <= |data| == |data'| && k < ch && t <= Slices(len)
    requires ChannelDecoded(bytes, ch, len, data, base, l, t, k)
    requires Column(data', base, ch, k, len) == Column(data, base, ch, k, len)
    ensures ChannelDecoded(bytes, ch, len, data', base, l, t, k)
  {
  }

  lemma OwnChannel(bytes: seq<Byte>, ch: nat, len: nat, data: seq<int>, base: nat, l: Filter, t: nat, c: nat,
                   word: Word, data': seq<int>, l': Filter)
    requires Whole(bytes, ch, len) && base + len * ch <= |data| == |data'| && c < ch && t < Slices(len)
    requires ChannelDecoded(bytes, ch, len, data, base, l, t, c)
    requires word == ChannelWords(bytes, ch, len, c, Slices(len))[t]
    requires l' == AfterOutputs(l, ScaleOf(word), Digits(word, SliceLen(len, t)))
    requires Column(data', base, ch, c, len)[..SLICE_LEN * t + SliceLen(len, t)]
          == Column(data, base, ch, c, len)[..SLICE_LEN * t] + Outputs(l, ScaleOf(word), Digits(word, SliceLen(len, t)))
    ensures ChannelDecoded(bytes, ch, len, data', base, l', t + 1, c)
  {
    hide Column, ChannelWords, FilterIn, Whole, Outputs, AfterOutputs, ScaleOf, Digits;
  }

  /** All that decoding the frame accesses is there: a filter for every channel, all words, and room for all samples. */
  ghost predicate Inside(bytes: seq<Byte>, ch: nat, length: nat, base: nat)
    requires |bytes| >= 8
  {
    ch <= MAX_CHANNELS && Whole(bytes, ch, Samples(bytes)) && base + Samples(bytes) * ch <= length
  }

  /** The words and samples accessed by the first `t` slices of all channels are there. */
  ghost predicate InsideUpTo(bytes: seq<Byte>, ch: nat, len: nat, length: nat, base: nat, t: nat)
    requires t <= Slices(len)
  {
    SliceOffset(ch, t, 0) <= |bytes| && base + Covered(len, t) * ch <= length
  }

  /** The same for slice `t` of the channels before `c`. */
  ghost predicate InsideRound(bytes: seq<Byte>, ch: nat, len: nat, length: nat, base: nat, t: nat, c: nat)
    requires t < Slices(len)
  {
    c > 0 ==>
      && SliceOffset(ch, t, c) <= |bytes|
      && Reaches(length, Place(base + c - 1, ch, SLICE_LEN * t), ch, SliceLen(len, t))
  }

  lemma RoundInside(bytes: seq<Byte>, ch: nat, len: nat, length: nat, base: nat, t: nat)
    requires t < Slices(len) && ch > 0 && InsideRound(bytes, ch, len, length, base, t, ch)
    ensures InsideUpTo(bytes, ch, len, length, base, t + 1)
  {
    hide Slices, SliceLen, Covered;
    CoveredNext(len, t);
    Distribute(ch, SLICE_LEN * t, SliceLen(len, t));
    Distribute(ch, t, 1);
  }

  lemma CoveredNext(len: nat, t: nat)
    requires t < Slices(len)
    ensures SliceLen(len, t) > 0 && Covered(len, t + 1) == SLICE_LEN * t + SliceLen(len, t)
  {
  }

  /** What is needed for the whole frame is needed for every slice. */
  lemma SliceNeeds(bytes: seq<Byte>, ch: nat, length: nat, base: nat, t: nat, c: nat)
    requires |bytes| >= 8 && Inside(bytes, ch, length, base) && t < Slices(Samples(bytes)) && c < ch
    ensures SliceOffset(ch, t, c) + 8 <= |bytes|
    ensures Reaches(length, Place(base + c, ch, SLICE_LEN * t), ch, SliceLen(Samples(bytes), t))
  {
    hide Slices, Samples, Place, Reaches, SliceOffset;
    SliceInside(bytes, ch, Samples(bytes), t, c);
    PlaceInside(base, ch, Samples(bytes), c, SLICE_LEN * t + SliceLen(Samples(bytes), t) - 1);
    LastReaches(length, base + c, ch, SLICE_LEN * t, SliceLen(Samples(bytes), t));
  }

  lemma LastReaches(length: nat, start: nat, ch: nat, a: nat, n: nat)
    requires n >= 1 && Place(start, ch, a + n - 1) < length
    ensures Reaches(length, Place(start, ch, a), ch, n)
  {
    Distribute(ch, a, n - 1);
    DistributeSub(ch, n, 1);
  }

  /** Reads the filter state of every channel; there is room for eight. */
  method ReadFilters(desc: QoaDesc, bytes: seq<Byte>) returns (p: nat, ok: bool)
    requires |desc.lms| == MAX_CHANNELS && |bytes| >= 8 + 16 * desc.channels
    modifies desc`lms
    ensures |desc.lms| == MAX_CHANNELS && (ok <==> desc.channels <= MAX_CHANNELS)
    ensures ok ==> p == SliceOffset(desc.channels, 0, 0)
    ensures ok ==>
      forall c :: 0 <= c < desc.channels ==>
        desc.lms[c] == FilterOf(WordAt(bytes, 8 + 16 * c), WordAt(bytes, 16 + 16 * c))
    ensures forall c :: desc.channels <= c < MAX_CHANNELS ==> desc.lms[c] == old(desc.lms)[c]
  {
    hide FilterOf, WordAt;
    p := 8;
    for c := 0 to desc.channels
      invariant |desc.lms| == MAX_CHANNELS && p == 8 + 16 * c && c <= MAX_CHANNELS
      invariant forall k :: 0 <= k < c ==>
        desc.lms[k] == FilterOf(WordAt(bytes, 8 + 16 * k), WordAt(bytes, 16 + 16 * k))
      invariant forall k :: c <= k < MAX_CHANNELS ==> desc.lms[k] == old(desc.lms)[k]
    {
      if c >= MAX_CHANNELS {
        return p, false;
      }
      var history := ReadU64(bytes, p);
      var weights := ReadU64(bytes, p + 8);
      p := p + 16;
      var l := ReadFilter(history, weights);
      desc.lms := desc.lms[c := l];
    }
    ok := true;
  }

  /** Slice `t` of every channel in turn, as long as its word and its samples are there. */
  method DecodeRound(desc: QoaDesc, bytes: seq<Byte>, samples: nat, sampleIndex: nat, p: nat, data: array<int>,
                     base: nat, ghost t: nat) returns (p': nat, ok: bool)
    requires desc.Valid() && |bytes| >= 8 && samples == Samples(bytes)
    requires t < Slices(samples) && sampleIndex == SLICE_LEN * t && p == SliceOffset(desc.channels, t, 0)
    requires Inside(bytes, desc.channels, data.Length, base) ==>
      Decoded(bytes, desc.channels, samples, data[..], base, desc.lms, t, 0)
    modifies desc`lms, data
    ensures desc.Valid()
    ensures Inside(bytes, desc.channels, data.Length, base) ==> ok
    ensures ok ==>
      p' == SliceOffset(desc.channels, t + 1, 0) && InsideUpTo(bytes, desc.channels, samples, data.Length, base, t + 1)
    ensures Inside(bytes, desc.channels, data.Length, base) ==>
      && Decoded(bytes, desc.channels, samples, data[..], base, desc.lms, t + 1, 0)
      && OnlyInside(old(data[..]), data[..], base, samples * desc.channels)
    ensures forall c :: desc.channels <= c < MAX_CHANNELS ==> desc.lms[c] == old(desc.lms)[c]
  {
    hide Decoded, StoredSlice, Slices, WordAt, SliceOffset, Scattered, Outputs, AfterOutputs, Digits, OnlyInside,
      Inside, Place, Reaches, InsideUpTo, Samples;
    p', ok := p, true;
    ghost var was, inside := data[..], Inside(bytes, desc.channels, data.Length, base);
    NothingStored(was, base, samples * desc.channels);
    for c := 0 to desc.channels
      invariant desc.Valid() && p' == SliceOffset(desc.channels, t, c)
      invariant InsideRound(bytes, desc.channels, samples, data.Length, base, t, c)
      invariant inside ==> Decoded(bytes, desc.channels, samples, data[..], base, desc.lms, t, c)
      invariant inside ==> OnlyInside(was, data[..], base, samples * desc.channels)
      invariant forall k :: desc.channels <= k < MAX_CHANNELS ==> desc.lms[k] == old(desc.lms)[k]
    {
      ghost var before, l := data[..], desc.lms[c];
      var sliceStart := base + sampleIndex * desc.channels + c;
      var sliceEnd: nat := Clamp(sampleIndex + SLICE_LEN, 0, samples);
      StartIs(base, desc.channels, sampleIndex, c, samples, t);
      if inside {
        SliceNeeds(bytes, desc.channels, data.Length, base, t, c);
        DecodedFits(bytes, desc.channels, samples, before, base, desc.lms, t, c);
      }
      NextWord(desc.channels, t, c);
      if p' + 8 > |bytes| || !Reaches(data.Length, sliceStart, desc.channels, sliceEnd - sampleIndex) {
        return p', false;
      }
      var slice := ReadU64(bytes, p');
      var lms := DecodeSlice(data, sliceStart, desc.channels, sliceEnd - sampleIndex, slice, desc.lms[c]);
      if inside {
        StoredIs(base, desc.channels, samples, before, l, t, c, slice, data[..], lms);
        SliceDecoded(bytes, desc.channels, samples, before, base, desc.lms, t, c, slice, data[..], lms);
        StoredTwice(was, before, data[..], base, samples * desc.channels);
      }
      desc.lms := desc.lms[c := lms];
      p' := p' + 8;
    }
    RoundInside(bytes, desc.channels, samples, data.Length, base, t);
    NextRound(desc.channels, t);
    if inside {
      DecodedRound(bytes, desc.channels, samples, data[..], base, desc.lms, t);
    }
  }

  lemma StartIs(base: nat, ch: nat, sampleIndex: nat, c: nat, len: nat, t: nat)
    requires t < Slices(len) && sampleIndex == SLICE_LEN * t && c < ch
    ensures sampleIndex * ch >= 0 && base + sampleIndex * ch + c == Place(base + c, ch, SLICE_LEN * t)
    ensures Clamp(sampleIndex + SLICE_LEN, 0, len) - sampleIndex == SliceLen(len, t)
  {
  }

  lemma NextWord(ch: nat, t: nat, c: nat)
    ensures SliceOffset(ch, t, c + 1) == SliceOffset(ch, t, c) + 8
  {
  }

  lemma NextRound(ch: nat, t: nat)
    ensures SliceOffset(ch, t, ch) == SliceOffset(ch, t + 1, 0)
  {
    Distribute(ch, t, 1);
  }

  lemma StoredIs(base: nat, ch: nat, len: nat, before: seq<int>, l: Filter, t: nat, c: nat, word: Word,
                 after: seq<int>, l': Filter)
    requires t < Slices(len) && Reaches(|before|, Place(base + c, ch, SLICE_LEN * t), ch, SliceLen(len, t))
    requires ch > 0
    requires l' == AfterOutputs(l, ScaleOf(word), Digits(word, SliceLen(len, t)))
    requires after == Scattered(before, Place(base + c, ch, SLICE_LEN * t), ch, Outputs(l, ScaleOf(word), Digits(word,
      SliceLen(len, t))))
    ensures StoredSlice(base + c, ch, len, before, l, t, word, after, l')
  {
    hide Scattered, AfterOutputs, Outputs, Digits;
  }

  lemma NothingStored(data: seq<int>, base: nat, count: int)
    ensures OnlyInside(data, data, base, count)
  {
  }

  lemma StoredTwice(a: seq<int>, b: seq<int>, c: seq<int>, base: nat, count: int)
    requires OnlyInside(a, b, base, count) && OnlyInside(b, c, base, count)
    ensures OnlyInside(a, c, base, count)
  {
  }

  lemma DecodedFits(bytes: seq<Byte>, ch: nat, len: nat, data: seq<int>, base: nat, lms: seq<Filter>, t: nat, c: nat)
    requires Decoded(bytes, ch, len, data, base, lms, t, c) && c < ch && t < Slices(len)
    ensures SliceOffset(ch, t, c) + 8 <= |bytes| && SliceOffset(ch, t, c) + 8 == SliceOffset(ch, t, c + 1)
    ensures base + len * ch <= |data| && |lms| == MAX_CHANNELS
  {
    hide ChannelDecoded, Slices;
    SliceInside(bytes, ch, len, t, c);
  }

  lemma DecodedRound(bytes: seq<Byte>, ch: nat, len: nat, data: seq<int>, base: nat, lms: seq<Filter>, t: nat)
    requires Decoded(bytes, ch, len, data, base, lms, t, ch) && ch > 0
    ensures Decoded(bytes, ch, len, data, base, lms, t + 1, 0) && SliceOffset(ch, t, ch) == SliceOffset(ch, t + 1, 0)
  {
    hide ChannelDecoded, Slices, Whole;
    Distribute(ch, t, 1);
  }

  lemma DecodedStart(bytes: seq<Byte>, ch: nat, len: nat, data: seq<int>, base: nat, lms: seq<Filter>)
    requires Whole(bytes, ch, len) && base + len * ch <= |data| && ch <= MAX_CHANNELS == |lms|
    requires forall c :: 0 <= c < ch ==> lms[c] == FilterIn(bytes, ch, len, c)
    ensures Decoded(bytes, ch, len, data, base, lms, 0, 0)
  {
    hide Whole, Slices, FilterIn, Column, ChannelWords;
    forall k: nat | k < ch
      ensures ChannelDecoded(bytes, ch, len, data, base, lms[k], 0, k)
    {
      ChannelStart(bytes, ch, len, data, base, lms[k], k);
    }
  }

  lemma ChannelStart(bytes: seq<Byte>, ch: nat, len: nat, data: seq<int>, base: nat, l: Filter, k: nat)
    requires Whole(bytes, ch, len) && base + len * ch <= |data| && k < ch && l == FilterIn(bytes, ch, len, k)
    ensures ChannelDecoded(bytes, ch, len, data, base, l, 0, k)
  {
    hide Whole, FilterIn, Column, ChannelWords;
  }

  /** What decoding a frame comes to: nothing, because it fails the checks; an access outside an array; or the size
      of the frame in bytes, and its samples. */
  datatype FrameResult = Rejected | OutOfBounds | Frame(size: nat, samples: nat)

  /** `qoa_decode_frame`, with every access checked: nothing happens to a frame that fails the source's own checks,
      and any other frame is decoded in full exactly when all that it needs is there. */
  method DecodeFrame(desc: QoaDesc, bytes: seq<Byte>, data: array<int>, base: nat) returns (r: FrameResult)
    requires 1 <= desc.channels && |desc.lms| == MAX_CHANNELS && desc.samplerate < 0x100_0000 && base <= data.Length
    modifies desc`lms, data
    ensures |desc.lms| == MAX_CHANNELS
    ensures r.Rejected? <==> !Accepts(bytes, desc.channels, desc.samplerate)
    ensures r.Rejected? ==> desc.lms == old(desc.lms) && data[..] == old(data[..])
    ensures r.OutOfBounds? <==>
      Accepts(bytes, desc.channels, desc.samplerate) && !Inside(bytes, desc.channels, data.Length, base)
    ensures r.Frame? ==>
              && r.samples == Samples(bytes) && r.size == SliceOffset(desc.channels, Slices(r.samples), 0)
              && Decoded(bytes, desc.channels, r.samples, data[..], base, desc.lms, Slices(r.samples), 0)
              && OnlyInside(old(data[..]), data[..], base, r.samples * desc.channels)
              && forall c :: desc.channels <= c < MAX_CHANNELS ==> desc.lms[c] == old(desc.lms)[c]
  {
    hide Decoded, Slices, SliceOffset, OnlyInside, WordAt, HeaderChannels, HeaderRate, HeaderSamples, HeaderSize,
      FilterOf;
    if |bytes| < 8 + LMS_LEN * 4 * desc.channels {
      return Rejected;
    }
    var header := ReadU64(bytes, 0);
    var channels, samplerate := HeaderChannels(header), HeaderRate(header);
    var samples, frameSize := HeaderSamples(header), HeaderSize(header);
    var dataSize := (frameSize - 8 - LMS_LEN * 4 * channels) % WORD32;
    var numSlices := dataSize / 8;
    var maxTotalSamples := numSlices * SLICE_LEN % WORD32;
    if channels != desc.channels || samplerate != desc.samplerate || frameSize > |bytes| ||
       samples * channels > maxTotalSamples
    {
      return Rejected;
    }
    var p, ok := ReadFilters(desc, bytes);
    if !ok {
      return OutOfBounds;
    }
    p, ok := DecodeSlices(desc, bytes, samples, p, data, base);
    if !ok {
      return OutOfBounds;
    }
    return Frame(p, samples);
  }

  /** The loop over slices. */
  method DecodeSlices(desc: QoaDesc, bytes: seq<Byte>, samples: nat, start: nat, data: array<int>, base: nat)
    returns (p: nat, ok: bool)
    requires desc.Valid() && |bytes| >= 8 + 16 * desc.channels && samples == Samples(bytes) && base <= data.Length
    requires start == SliceOffset(desc.channels, 0, 0)
    requires forall c :: 0 <= c < desc.channels ==>
      desc.lms[c] == FilterOf(WordAt(bytes, 8 + 16 * c), WordAt(bytes, 16 + 16 * c))
    modifies desc`lms, data
    ensures desc.Valid() && (ok <==> Inside(bytes, desc.channels, data.Length, base))
    ensures ok ==>
      && p == SliceOffset(desc.channels, Slices(samples), 0)
      && Decoded(bytes, desc.channels, samples, data[..], base, desc.lms, Slices(samples), 0)
      && OnlyInside(old(data[..]), data[..], base, samples * desc.channels)
    ensures forall c :: desc.channels <= c < MAX_CHANNELS ==> desc.lms[c] == old(desc.lms)[c]
  {
    hide Decoded, Slices, SliceOffset, OnlyInside, WordAt, FilterOf, Inside, InsideUpTo, Samples;
    ghost var was, t, inside := data[..], 0, Inside(bytes, desc.channels, data.Length, base);
    p, ok := start, true;
    StartInside(bytes, desc.channels, samples, data.Length, base);
    if inside {
      FilterIsIn(bytes, desc.channels, data.Length, base);
      DecodedStart(bytes, desc.channels, samples, was, base, desc.lms);
    }
    NothingStored(was, base, samples * desc.channels);
    var sampleIndex := 0;
    while sampleIndex < samples
      invariant desc.Valid() && sampleIndex == SLICE_LEN * t && t <= Slices(samples)
      invariant p == SliceOffset(desc.channels, t, 0)
      invariant InsideUpTo(bytes, desc.channels, samples, data.Length, base, t)
      invariant inside ==> Decoded(bytes, desc.channels, samples, data[..], base, desc.lms, t, 0)
      invariant inside ==> OnlyInside(was, data[..], base, samples * desc.channels)
      invariant forall c :: desc.channels <= c < MAX_CHANNELS ==> desc.lms[c] == old(desc.lms)[c]
      decreases Slices(samples) - t
    {
      ghost var before := data[..];
      SlicesCover(samples, t);
      p, ok := DecodeRound(desc, bytes, samples, sampleIndex, p, data, base, t);
      if !ok {
        return;
      }
      if inside {
        StoredTwice(was, before, data[..], base, samples * desc.channels);
      }
      sampleIndex := sampleIndex + SLICE_LEN;
      t := t + 1;
    }
    SlicesCover(samples, t);
    AllInside(bytes, desc.channels, data.Length, base);
  }

  lemma StartInside(bytes: seq<Byte>, ch: nat, len: nat, length: nat, base: nat)
    requires |bytes| >= 8 + 16 * ch && base <= length
    ensures InsideUpTo(bytes, ch, len, length, base, 0)
  {
    if Slices(len) == 0 {
      assert len == 0;
    }
  }

  lemma AllInside(bytes: seq<Byte>, ch: nat, length: nat, base: nat)
    requires |bytes| >= 8 && ch <= MAX_CHANNELS
    requires InsideUpTo(bytes, ch, Samples(bytes), length, base, Slices(Samples(bytes)))
    ensures Inside(bytes, ch, length, base)
  {
  }

  lemma FilterIsIn(bytes: seq<Byte>, ch: nat, length: nat, base: nat)
    requires |bytes| >= 8 && Inside(bytes, ch, length, base)
    ensures Whole(bytes, ch, Samples(bytes)) && base + Samples(bytes) * ch <= length
    ensures forall c :: 0 <= c < ch ==>
      16 + 16 * c + 8 <= |bytes| &&
      FilterIn(bytes, ch, Samples(bytes), c) == FilterOf(WordAt(bytes, 8 + 16 * c), WordAt(bytes, 16 + 16 * c))
  {
    hide FilterOf, WordAt, Samples, Slices;
  }

  lemma SlicesCover(len: nat, t: nat)
    requires t <= Slices(len)
    ensures SLICE_LEN * t < len <==> t < Slices(len)
  {
  }

  // ---------------------------------------------------------------- what the checks do not ensure

  /** Decoding a frame reads no more than its header announces exactly when the header leaves room for the filters
      and for one word per slice and channel. */
  lemma StaysInFrame(h: Word)
    ensures var ch, size, slices := HeaderChannels(h), HeaderSize(h), Slices(HeaderSamples(h));
            SliceOffset(ch, slices, 0) <= size <==> 8 + 16 * ch <= size && ch * slices <= (size - 8 - 16 * ch) / 8
  {
    hide Slices, HeaderChannels, HeaderSize, HeaderSamples;
    var ch, slices := HeaderChannels(h), Slices(HeaderSamples(h));
    MulLe(0, ch, 0, slices);
  }

  /** The check suffices for frames that have room for their filters and either one channel or no short slice. */
  lemma CheckSuffices(bytes: seq<Byte>, ch: nat, rate: nat)
    requires Accepts(bytes, ch, rate) && 8 + 16 * ch <= HeaderSize(WordAt(bytes, 0))
    requires ch == 1 || Samples(bytes) % SLICE_LEN == 0
    ensures Whole(bytes, ch, Samples(bytes))
  {
    hide WordAt, HeaderChannels, HeaderSize, HeaderSamples, HeaderRate;
    var n, size := Samples(bytes), HeaderSize(WordAt(bytes, 0));
    Capacity(size, ch);
    if ch > 1 {
      assert n == SLICE_LEN * Slices(n);
      MulAssoc(SLICE_LEN, Slices(n), ch);
    }
  }

  lemma Capacity(size: nat, ch: nat)
    requires 8 + 16 * ch <= size < 65536
    ensures MaxSamples(size, ch) == SLICE_LEN * ((size - 8 - 16 * ch) / 8)
  {
  }

  /** A frame whose size field is 0 passes, because the size of its data wraps around: it announces 65535 samples and
      has no slice at all. */
  lemma WrappedSizeAccepted() returns (bytes: seq<Byte>)
    ensures |bytes| == 24 && Accepts(bytes, 1, 44100) && Samples(bytes) == 65535 && HeaderSize(WordAt(bytes, 0)) == 0
    ensures !Whole(bytes, 1, Samples(bytes))
  {
    hide HeaderWord, WordAt, HeaderChannels, HeaderRate, HeaderSamples, HeaderSize, Serialized;
    var words := [HeaderWord(1, 44100, 65535, 0), 0, 0];
    bytes := Serialized(words);
    ReadSerialized(words, [], 0);
    assert bytes + [] == bytes;
    HeaderRoundTrip(1, 44100, 65535, 0);
  }

  /** A frame of two channels with ten samples each passes with room for one slice, although it needs one for each. */
  lemma PartialRoundAccepted() returns (bytes: seq<Byte>)
    ensures |bytes| == 48 && Accepts(bytes, 2, 44100) && Samples(bytes) == 10 && HeaderSize(WordAt(bytes, 0)) == 48
    ensures !Whole(bytes, 2, Samples(bytes))
  {
    hide HeaderWord, WordAt, HeaderChannels, HeaderRate, HeaderSamples, HeaderSize, Serialized;
    var words := [HeaderWord(2, 44100, 10, 48), 0, 0, 0, 0, 0];
    bytes := Serialized(words);
    ReadSerialized(words, [], 0);
    assert bytes + [] == bytes;
    HeaderRoundTrip(2, 44100, 10, 48);
  }

  // ---------------------------------------------------------------- lockstep of whole frames

  /** The word at index `i` of a frame is read back at byte `8 * i`. */
  lemma FrameWordAt(rate: nat, lms: seq<Filter>, cols: seq<seq<Sample>>, len: nat, rest: seq<Byte>, i: nat)
    requires IsFrame(lms, cols, len) && rate < 0x100_0000 && i < |FrameWords(rate, lms, cols, len)|
    ensures WordAt(Serialized(FrameWords(rate, lms, cols, len)) + rest, 8 * i) == FrameWords(rate, lms, cols, len)[i]
  {
    hide FrameWords, IsFrame, WordAt;
    ReadSerialized(FrameWords(rate, lms, cols, len), rest, i);
  }

  lemma FrameWordsSplit(rate: nat, lms: seq<Filter>, cols: seq<seq<Sample>>, len: nat)
    requires IsFrame(lms, cols, len) && rate < 0x100_0000
    ensures FrameSize(|cols|, Slices(len)) < 65536
    ensures FrameWords(rate, lms, cols, len)[0] == HeaderWord(|cols|, rate, len, FrameSize(|cols|, Slices(len)))
  {
    hide Slices, SliceWords, FilterWords, HeaderWord;
    FrameSizeFits(|cols|, len);
  }

  lemma FrameFilterAt(rate: nat, lms: seq<Filter>, cols: seq<seq<Sample>>, len: nat, c: nat)
    requires IsFrame(lms, cols, len) && rate < 0x100_0000 && c < |cols|
    ensures FrameWords(rate, lms, cols, len)[1 + 2 * c] == Pack4(lms[c].history)
    ensures FrameWords(rate, lms, cols, len)[2 + 2 * c] == Pack4(lms[c].weights)
  {
    hide Slices, SliceWords, FilterWords, HeaderWord, Pack4;
    FrameSizeFits(|cols|, len);
    FilterWordsAt(lms, |cols|, c);
  }

  lemma FrameSliceAt(rate: nat, lms: seq<Filter>, cols: seq<seq<Sample>>, len: nat, t: nat, c: nat)
    requires IsFrame(lms, cols, len) && rate < 0x100_0000 && c < |cols| && t < Slices(len)
    ensures 1 + 2 * |cols| + Cell(|cols|, t, c) < |FrameWords(rate, lms, cols, len)| && |cols[c]| == len
    ensures FrameWords(rate, lms, cols, len)[1 + 2 * |cols| + Cell(|cols|, t, c)] == CodedSlice(lms[c], cols[c], t)
  {
    hide Slices, SliceWords, FilterWords, HeaderWord, Pack4, CodedSlice;
    FrameSizeFits(|cols|, len);
    CellAt(t, c, |cols|, Slices(len));
    SliceWordsAt(lms, cols, len, |cols| * Slices(len), |cols| * t + c);
  }

  /** A frame passes the decoder's checks. */
  lemma FrameAccepted(rate: nat, lms: seq<Filter>, cols: seq<seq<Sample>>, len: nat, rest: seq<Byte>)
    requires IsFrame(lms, cols, len) && rate < 0x100_0000
    ensures var bytes := Serialized(FrameWords(rate, lms, cols, len)) + rest;
            Accepts(bytes, |cols|, rate) && Samples(bytes) == len && Whole(bytes, |cols|, len)
  {
    hide Slices, FrameWords, HeaderChannels, HeaderRate, HeaderSamples, HeaderSize, WordAt, HeaderWord;
    var ch, size := |cols|, FrameSize(|cols|, Slices(len));
    FrameWordsSplit(rate, lms, cols, len);
    FrameWordAt(rate, lms, cols, len, rest, 0);
    FrameSizeFits(ch, len);
    HeaderRoundTrip(ch, rate, len, size);
    CapacityOf(ch, len);
  }

  lemma CapacityOf(ch: nat, len: nat)
    requires ch <= MAX_CHANNELS && len <= FRAME_LEN
    ensures len * ch <= MaxSamples(FrameSize(ch, Slices(len)), ch)
  {
    FrameSizeFits(ch, len);
    CapacityIs(ch, ch * Slices(len));
    assert len <= SLICE_LEN * Slices(len);
    hide Slices, MaxSamples;
    MulLe(len, SLICE_LEN * Slices(len), ch, ch);
    MulAssoc(SLICE_LEN, Slices(len), ch);
  }

  lemma CapacityIs(ch: nat, m: nat)
    requires m <= 2048
    ensures MaxSamples(8 + LMS_LEN * 4 * ch + 8 * m, ch) == SLICE_LEN * m
  {
    assert 8 * m % WORD32 / 8 == m;
  }

  /** The decoder starts every channel from the encoder's filter and reads the encoder's slices. */
  lemma FrameContents(rate: nat, lms: seq<Filter>, cols: seq<seq<Sample>>, len: nat, rest: seq<Byte>, c: nat)
    requires IsFrame(lms, cols, len) && rate < 0x100_0000 && c < |cols| && FitsS16(lms[c])
    requires Whole(Serialized(FrameWords(rate, lms, cols, len)) + rest, |cols|, len)
    ensures |cols[c]| == len
    ensures var bytes := Serialized(FrameWords(rate, lms, cols, len)) + rest;
            FilterIn(bytes, |cols|, len, c) == lms[c] &&
            forall t :: 0 <= t < Slices(len) ==>
              ChannelWords(bytes, |cols|, len, c, Slices(len))[t] == CodedSlice(lms[c], cols[c], t)
  {
    hide Slices, FrameWords, WordAt, HeaderWord, ChannelWords, CodedSlice, FitsS16, Whole, FilterOf, Pack4;
    var bytes := Serialized(FrameWords(rate, lms, cols, len)) + rest;
    FrameFilterIs(rate, lms, cols, len, rest, c);
    forall t: nat | t < Slices(len)
      ensures ChannelWords(bytes, |cols|, len, c, Slices(len))[t] == CodedSlice(lms[c], cols[c], t)
    {
      ChannelWordsAt(bytes, |cols|, len, c, Slices(len), t);
      FrameSliceAt(rate, lms, cols, len, t, c);
      FrameWordAt(rate, lms, cols, len, rest, 1 + 2 * |cols| + Cell(|cols|, t, c));
    }
  }

  /** The decoder starts a channel from the encoder's filter exactly when that fits 16 bits. */
  lemma FrameFilterIs(rate: nat, lms: seq<Filter>, cols: seq<seq<Sample>>, len: nat, rest: seq<Byte>, c: nat)
    requires IsFrame(lms, cols, len) && rate < 0x100_0000 && c < |cols|
    requires Whole(Serialized(FrameWords(rate, lms, cols, len)) + rest, |cols|, len)
    ensures FilterIn(Serialized(FrameWords(rate, lms, cols, len)) + rest, |cols|, len, c) == lms[c] <==> FitsS16(lms[c])
  {
    hide Slices, FrameWords, WordAt, HeaderWord, FitsS16, Whole, FilterOf, Pack4;
    FrameFilterAt(rate, lms, cols, len, c);
    FrameWordAt(rate, lms, cols, len, rest, 1 + 2 * c);
    FrameWordAt(rate, lms, cols, len, rest, 2 + 2 * c);
    FilterRoundTrip(lms[c]);
  }

  /** Decoding an encoded frame yields exactly the samples the encoder reconstructed, and the same filter state, for
      every channel and frame length, provided the weights fitted 16 bits when the frame began. */
  lemma FrameLockstep(rate: nat, lms: seq<Filter>, cols: seq<seq<Sample>>, len: nat, rest: seq<Byte>,
                      data: seq<int>, base: nat, lms': seq<Filter>, c: nat)
    requires IsFrame(lms, cols, len) && rate < 0x100_0000 && c < |cols| && FitsS16(lms[c])
    requires Decoded(Serialized(FrameWords(rate, lms, cols, len)) + rest, |cols|, len, data, base, lms', Slices(len), 0)
    ensures |cols[c]| == len && base + len * |cols| <= |data| && |lms'| == MAX_CHANNELS
    ensures Column(data, base, |cols|, c, len) == Recon(lms[c], cols[c], Slices(len))
    ensures lms'[c] == Run(lms[c], cols[c], Slices(len)).lms
  {
    hide Slices, FrameWords, WordAt, ChannelWords, CodedSlice, FitsS16, Whole, FilterIn, Column, Run, Recon, DecFilter,
      DecSamples;
    var bytes := Serialized(FrameWords(rate, lms, cols, len)) + rest;
    FrameContents(rate, lms, cols, len, rest, c);
    assert ChannelDecoded(bytes, |cols|, len, data, base, lms'[c], Slices(len), c);
    Lockstep(lms[c], cols[c], ChannelWords(bytes, |cols|, len, c, Slices(len)), Slices(len));
  }
}
