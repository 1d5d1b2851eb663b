/** QOA's prediction filter and the coding of one slice: up to 20 samples of one channel behind a common scale
    factor. */
module QoaSlice {
  import opened Powers

  const SLICE_LEN := 20
  const LMS_LEN := 4
  const SCALES := 16

  // ---------------------------------------------------------------- tables

  const QUANT_TAB: seq<nat> := [7, 7, 7, 5, 5, 3, 3, 1, 0, 0, 2, 2, 4, 4, 6, 6, 6]

  const SCALEFACTOR_TAB: seq<nat> := [1, 7, 21, 45, 84, 138, 211, 304, 421, 562, 731, 928, 1157, 1419, 1715, 2048]

  const RECIPROCAL_TAB: seq<nat> := [65536, 9363, 3121, 1457, 781, 475, 311, 216, 156, 117, 90, 71, 57, 47, 39, 32]

  const DEQUANT_TAB: seq<seq<int>> := [
    [1, -1, 3, -3, 5, -5, 7, -7],
    [5, -5, 18, -18, 32, -32, 49, -49],
    [16, -16, 53, -53, 95, -95, 147, -147],
    [34, -34, 113, -113, 203, -203, 315, -315],
    [63, -63, 210, -210, 378, -378, 588, -588],
    [104, -104, 345, -345, 621, -621, 966, -966],
    [158, -158, 528, -528, 950, -950, 1477, -1477],
    [228, -228, 760, -760, 1368, -1368, 2128, -2128],
    [316, -316, 1053, -1053, 1895, -1895, 2947, -2947],
    [422, -422, 1405, -1405, 2529, -2529, 3934, -3934],
    [548, -548, 1828, -1828, 3290, -3290, 5117, -5117],
    [696, -696, 2320, -2320, 4176, -4176, 6496, -6496],
    [868, -868, 2893, -2893, 5207, -5207, 8099, -8099],
    [1064, -1064, 3548, -3548, 6386, -6386, 9933, -9933],
    [1286, -1286, 4288, -4288, 7718, -7718, 12005, -12005],
    [1536, -1536, 5120, -5120, 9216, -9216, 14336, -14336]]

  /** The magnitudes the 3-bit values stand for, in quarters: 0.75, 2.5, 4.5 and 7. */
  const QUARTERS: seq<nat> := [3, 10, 18, 28]

  /** The tables are what the source says they were computed as: rounded reciprocals, and scaled magnitudes rounded
      to the nearest integer with ties away from zero, for both signs alike. */
  lemma ReciprocalIsRounded(sf: nat)
    requires sf < SCALES
    ensures |RECIPROCAL_TAB| == |SCALEFACTOR_TAB| == SCALES && SCALEFACTOR_TAB[sf] > 0
    ensures RECIPROCAL_TAB[sf] == (65536 + SCALEFACTOR_TAB[sf] - 1) / SCALEFACTOR_TAB[sf]
  {
  }

  lemma DequantIsRounded(sf: nat, m: nat)
    requires sf < SCALES && m < 4
    ensures |SCALEFACTOR_TAB| == |DEQUANT_TAB| == SCALES && |DEQUANT_TAB[sf]| == 8
    ensures DEQUANT_TAB[sf][2 * m] == (SCALEFACTOR_TAB[sf] * QUARTERS[m] * 2 + 4) / 8
    ensures DEQUANT_TAB[sf][2 * m + 1] == -DEQUANT_TAB[sf][2 * m]
  {
    if m == 0 {
    } else if m == 1 {
    } else if m == 2 {
    } else {
    }
  }

  function Dequant(sf: nat, q: nat): (d: int)
    requires sf < SCALES && q < 8
    ensures 0 < (if q % 2 == 0 then d else -d) <= 14336
  {
    DEQUANT_TAB[sf][q]
  }

  // ---------------------------------------------------------------- arithmetic

  function Sign(v: int): int {
    if v > 0 then 1 else if v < 0 then -1 else 0
  }

  /** `qoa_div`: division by the scale factor through its rounded reciprocal. */
  function Div(v: int, sf: nat): int
    requires sf < SCALES
  {
    var n := (v * RECIPROCAL_TAB[sf] + 32768) / 65536;
    n + Sign(v) - Sign(n)
  }

  /** Small values are not rounded to zero, and signs are kept. */
  lemma DivKeepsSign(v: int, sf: nat)
    requires sf < SCALES
    ensures Sign(Div(v, sf)) == Sign(v)
  {
    assert RECIPROCAL_TAB[sf] >= 32;
    MultipleIsFar(RECIPROCAL_TAB[sf], v);
  }

  function Clamp(v: int, lo: int, hi: int): int {
    if v < lo then lo else if v > hi then hi else v
  }

  /** 16-bit samples. */
  type Sample = x: int | -32768 <= x < 32768

  function ClampS16(v: int): Sample {
    Clamp(v, -32768, 32767)
  }

  // ---------------------------------------------------------------- the filter

  datatype Lms = Lms(history: seq<int>, weights: seq<int>)

  predicate Shaped(l: Lms) {
    |l.history| == |l.weights| == LMS_LEN
  }

  type Filter = l: Lms | Shaped(l) witness Lms([0, 0, 0, 0], [0, 0, 0, 0])

  function Dot(w: seq<int>, h: seq<int>, n: nat): int
    requires n <= |w| && n <= |h|
  {
    if n == 0 then 0 else Dot(w, h, n - 1) + w[n - 1] * h[n - 1]
  }

  function Predict(l: Filter): int {
    Dot(l.weights, l.history, LMS_LEN) / 8192
  }

  function Adjusted(l: Filter, i: nat, delta: int): int
    requires i < LMS_LEN
  {
    l.weights[i] + if l.history[i] < 0 then -delta else delta
  }

  function Updated(l: Filter, sample: int, residual: int): Filter {
    var delta := residual / 16;
    Lms(l.history[1..] + [sample],
        [Adjusted(l, 0, delta), Adjusted(l, 1, delta), Adjusted(l, 2, delta), Adjusted(l, 3, delta)])
  }

  method LmsPredict(l: Filter) returns (prediction: int)
    ensures prediction == Predict(l)
  {
    prediction := 0;
    for i := 0 to LMS_LEN
      invariant prediction == Dot(l.weights, l.history, i)
    {
      prediction := prediction + l.weights[i] * l.history[i];
    }
    return prediction / 8192;
  }

  method LmsUpdate(l: Filter, sample: int, residual: int) returns (l': Filter)
    ensures l' == Updated(l, sample, residual)
  {
    var delta := residual / 16;
    var weights, history := l.weights, l.history;
    for i := 0 to LMS_LEN
      invariant |weights| == LMS_LEN
      invariant forall k :: 0 <= k < LMS_LEN ==> weights[k] == if k < i then Adjusted(l, k, delta) else l.weights[k]
    {
      weights := weights[i := weights[i] + if history[i] < 0 then -delta else delta];
    }
    for i := 0 to LMS_LEN - 1
      invariant |history| == LMS_LEN
      invariant history[i..] == l.history[i..] && history[..i] == l.history[1..][..i]
    {
      history := history[i := history[i + 1]];
    }
    history := history[LMS_LEN - 1 := sample];
    l' := Lms(history, weights);
    assert l'.history == Updated(l, sample, residual).history;
    assert l'.weights == Updated(l, sample, residual).weights;
  }

  // ---------------------------------------------------------------- coding one sample

  /** What the decoder makes of a 3-bit value: the next sample. The encoder reconstructs the same. */
  function Output(l: Filter, sf: nat, q: nat): Sample
    requires sf < SCALES && q < 8
  {
    ClampS16(Predict(l) + Dequant(sf, q))
  }

  function Next(l: Filter, sf: nat, q: nat): Filter
    requires sf < SCALES && q < 8
  {
    Updated(l, Output(l, sf, q), Dequant(sf, q))
  }

  /** The 3-bit value for a sample. */
  function Quantize(l: Filter, sample: int, sf: nat): (q: nat)
    requires sf < SCALES
    ensures q < 8
  {
    QUANT_TAB[Clamp(Div(sample - Predict(l), sf), -8, 8) + 8]
  }

  /** The decoded residual never has the wrong sign, and is never zero. */
  lemma ResidualSign(l: Filter, sample: int, sf: nat)
    requires sf < SCALES
    ensures var d := Dequant(sf, Quantize(l, sample, sf));
            if sample >= Predict(l) then d > 0 else d < 0
  {
    hide Div, Predict, Dequant;
    DivKeepsSign(sample - Predict(l), sf);
  }

  function SumOfSquares(w: seq<int>, n: nat): nat
    requires n <= |w|
  {
    if n == 0 then 0 else SumOfSquares(w, n - 1) + Square(w[n - 1])
  }

  function Square(x: int): (s: nat) {
    if x < 0 then (-x) * (-x) else x * x
  }

  /** The penalty for large weights. */
  function Penalty(l: Filter): nat {
    var p := SumOfSquares(l.weights, LMS_LEN) / 0x4_0000 - 0x8ff;
    if p < 0 then 0 else p
  }

  /** What one sample adds to the rank of a slice: its squared error and the squared penalty. */
  function Cost(l: Filter, sample: int, sf: nat): nat
    requires sf < SCALES
  {
    Square(sample - Output(l, sf, Quantize(l, sample, sf))) + Square(Penalty(l))
  }

  // ---------------------------------------------------------------- coding one slice

  function Quantized(l: Filter, s: seq<int>, sf: nat): (qs: seq<nat>)
    requires sf < SCALES
    decreases |s|
    ensures |qs| == |s| && forall i :: 0 <= i < |qs| ==> qs[i] < 8
  {
    if s == [] then [] else
      var q := Quantize(l, s[0], sf);
      [q] + Quantized(Next(l, sf, q), s[1..], sf)
  }

  /** The samples that 3-bit values stand for. */
  function Outputs(l: Filter, sf: nat, qs: seq<nat>): (s: seq<int>)
    requires sf < SCALES && forall i :: 0 <= i < |qs| ==> qs[i] < 8
    ensures |s| == |qs|
    decreases |qs|
  {
    if qs == [] then [] else [Output(l, sf, qs[0])] + Outputs(Next(l, sf, qs[0]), sf, qs[1..])
  }

  function AfterOutputs(l: Filter, sf: nat, qs: seq<nat>): Filter
    requires sf < SCALES && forall i :: 0 <= i < |qs| ==> qs[i] < 8
    decreases |qs|
  {
    if qs == [] then l else AfterOutputs(Next(l, sf, qs[0]), sf, qs[1..])
  }

  /** The filter after the encoder has coded the slice `s`. */
  function AfterSlice(l: Filter, s: seq<int>, sf: nat): Filter
    requires sf < SCALES
    decreases |s|
  {
    if s == [] then l else AfterSlice(Next(l, sf, Quantize(l, s[0], sf)), s[1..], sf)
  }

  /** The samples the encoder reconstructs for the slice `s`. */
  function Reconstructed(l: Filter, s: seq<int>, sf: nat): (r: seq<int>)
    requires sf < SCALES
    ensures |r| == |s|
    decreases |s|
  {
    if s == [] then [] else
      var q := Quantize(l, s[0], sf);
      [ClampS16(Predict(l) + Dequant(sf, q))] + Reconstructed(Next(l, sf, q), s[1..], sf)
  }

  function Rank(l: Filter, s: seq<int>, sf: nat): nat
    requires sf < SCALES
    decreases |s|
  {
    if s == [] then 0 else Cost(l, s[0], sf) + Rank(Next(l, sf, Quantize(l, s[0], sf)), s[1..], sf)
  }

  /** The decoder follows the encoder through the slice. */
  lemma {:induction false} SliceLockstep(l: Filter, s: seq<int>, sf: nat)
    requires sf < SCALES
    ensures Outputs(l, sf, Quantized(l, s, sf)) == Reconstructed(l, s, sf)
    ensures AfterOutputs(l, sf, Quantized(l, s, sf)) == AfterSlice(l, s, sf)
    decreases |s|
  {
    if s != [] {
      hide Quantize, Output, Next, Dequant;
      var q := Quantize(l, s[0], sf);
      var qs := Quantized(l, s, sf);
      assert qs[0] == q && qs[1..] == Quantized(Next(l, sf, q), s[1..], sf);
      SliceLockstep(Next(l, sf, q), s[1..], sf);
    }
  }

  // ---------------------------------------------------------------- how large ranks can get

  const RANK_LIMIT := 0xffff_ffff_ffff_ffff
  const START_MAX := 3_000_000
  const WEIGHT_MAX := START_MAX + 896 * 5120
  const COST_MAX := 65535 * 65535 + 878_500_000 * 878_500_000

  ghost predicate WeightsWithin(l: Filter, b: int) {
    forall i :: 0 <= i < LMS_LEN ==> -b <= l.weights[i] <= b
  }

  /** Weights with which ranks stay below the limit for a whole frame. */
  ghost predicate Moderate(l: Filter) {
    WeightsWithin(l, START_MAX)
  }

  lemma NextWithin(l: Filter, sf: nat, q: nat, b: nat)
    requires sf < SCALES && q < 8 && WeightsWithin(l, b)
    ensures WeightsWithin(Next(l, sf, q), b + 896)
  {
    hide Output, Dequant;
    var delta := Dequant(sf, q) / 16;
    assert -896 <= delta <= 896;
  }

  lemma SquareWithin(x: int, b: int)
    requires -b <= x <= b
    ensures Square(x) <= b * b
  {
    if x < 0 {
      MulLe(-x, b, -x, b);
    } else {
      MulLe(x, b, x, b);
    }
  }

  lemma PenaltyWithin(l: Filter)
    requires WeightsWithin(l, WEIGHT_MAX)
    ensures Penalty(l) <= 878_500_000
  {
    hide Square;
    forall i | 0 <= i < LMS_LEN
      ensures Square(l.weights[i]) <= WEIGHT_MAX * WEIGHT_MAX
    {
      SquareWithin(l.weights[i], WEIGHT_MAX);
    }
    var w := l.weights;
    assert SumOfSquares(w, 1) == Square(w[0]);
    assert SumOfSquares(w, 2) == Square(w[0]) + Square(w[1]);
    assert SumOfSquares(w, 4) == SumOfSquares(w, 2) + Square(w[2]) + Square(w[3]);
  }

  lemma CostWithin(l: Filter, sample: Sample, sf: nat)
    requires sf < SCALES && WeightsWithin(l, WEIGHT_MAX)
    ensures Cost(l, sample, sf) <= COST_MAX
  {
    hide Square, Output, Quantize, Penalty;
    var out := Output(l, sf, Quantize(l, sample, sf));
    SquareWithin(sample - out, 65535);
    PenaltyWithin(l);
    SquareWithin(Penalty(l), 878_500_000);
  }

  lemma {:induction false} SliceWithin(l: Filter, s: seq<Sample>, sf: nat, b: nat)
    requires sf < SCALES && WeightsWithin(l, b)
    ensures WeightsWithin(AfterSlice(l, s, sf), b + 896 * |s|)
    decreases |s|
  {
    hide Next, Quantize;
    if s != [] {
      var q := Quantize(l, s[0], sf);
      NextWithin(l, sf, q, b);
      SliceWithin(Next(l, sf, q), s[1..], sf, b + 896);
    }
  }

  lemma {:induction false} RankWithin(l: Filter, s: seq<Sample>, sf: nat, b: nat)
    requires sf < SCALES && WeightsWithin(l, b) && b + 896 * |s| <= WEIGHT_MAX
    ensures Rank(l, s, sf) <= |s| * COST_MAX
    decreases |s|
  {
    hide Cost, Next, Quantize;
    if s != [] {
      var q := Quantize(l, s[0], sf);
      NextWithin(l, sf, q, b);
      WithinMonotone(l, b, WEIGHT_MAX);
      CostWithin(l, s[0], sf);
      RankWithin(Next(l, sf, q), s[1..], sf, b + 896);
    }
  }

  lemma WithinMonotone(l: Filter, a: nat, b: nat)
    requires WeightsWithin(l, a) && a <= b
    ensures WeightsWithin(l, b)
  {
  }

  // ---------------------------------------------------------------- choosing the scale factor

  /** The `i`-th scale factor tried when the slice before had `prev`. */
  function Tried(prev: nat, i: nat): (sf: nat)
    ensures sf < SCALES
  {
    (i + prev) % SCALES
  }

  /** The best of the first `n` scale factors tried, by exhaustive search; the first of them when there are several. */
  function BestOf(l: Filter, s: seq<int>, prev: nat, n: nat): (sf: nat)
    requires n >= 1
    ensures sf < SCALES
  {
    if n == 1 then Tried(prev, 0) else
      var b := BestOf(l, s, prev, n - 1);
      if Rank(l, s, Tried(prev, n - 1)) < Rank(l, s, b) then Tried(prev, n - 1) else b
  }

  function BestScale(l: Filter, s: seq<int>, prev: nat): (sf: nat)
    ensures sf < SCALES
  {
    BestOf(l, s, prev, SCALES)
  }

  lemma {:induction false} BestOfIsFirstLeast(l: Filter, s: seq<int>, prev: nat, n: nat) returns (at: nat)
    requires 1 <= n <= SCALES
    ensures at < n && BestOf(l, s, prev, n) == Tried(prev, at)
    ensures forall i :: 0 <= i < n ==> Rank(l, s, Tried(prev, at)) <= Rank(l, s, Tried(prev, i))
    ensures forall i :: 0 <= i < at ==> Rank(l, s, Tried(prev, at)) < Rank(l, s, Tried(prev, i))
  {
    hide Rank, Tried;
    if n == 1 {
      at := 0;
    } else {
      at := BestOfIsFirstLeast(l, s, prev, n - 1);
      if Rank(l, s, Tried(prev, n - 1)) < Rank(l, s, Tried(prev, at)) {
        at := n - 1;
      }
    }
  }

  /** The scale factor chosen has the least rank of all sixteen. */
  lemma BestScaleIsLeast(l: Filter, s: seq<int>, prev: nat, sf: nat)
    requires sf < SCALES
    ensures Rank(l, s, BestScale(l, s, prev)) <= Rank(l, s, sf)
  {
    hide Rank, Tried, BestOf;
    var at := BestOfIsFirstLeast(l, s, prev, SCALES);
    var i := TriedOnce(prev, sf);
  }

  /** All scale factors are tried. */
  lemma TriedOnce(prev: nat, sf: nat) returns (i: nat)
    requires sf < SCALES
    ensures i < SCALES && Tried(prev, i) == sf
  {
    var q, r := Quotient(prev, SCALES), Remainder(prev, SCALES);
    if sf >= r {
      i := sf - r;
      DivModOf(i + prev, SCALES, q, sf);
    } else {
      i := sf + SCALES - r;
      DivModOf(i + prev, SCALES, q + 1, sf);
    }
  }

  // ---------------------------------------------------------------- the 64-bit word of a slice

  /** `word` with 3-bit values shifted in behind it. */
  function PackOnto(word: nat, qs: seq<nat>): nat
    decreases |qs|
  {
    if qs == [] then word else PackOnto(word * 8 + qs[0], qs[1..])
  }

  function Pow8(n: nat): (p: nat)
    ensures p >= 1
  {
    if n == 0 then 1 else 8 * Pow8(n - 1)
  }

  /** The word of a slice: scale factor, 3-bit values, and zeros for the samples a short slice lacks. */
  function SliceWord(sf: nat, qs: seq<nat>): nat
    requires |qs| <= SLICE_LEN
  {
    PackOnto(sf, qs) * Pow8(SLICE_LEN - |qs|)
  }

  /** The 3-bit values as a number of `n` octal digits, aligned to the left. */
  function Aligned(qs: seq<nat>, n: nat): nat
    requires |qs| <= n
    decreases |qs|
  {
    if qs == [] then 0 else qs[0] * Pow8(n - 1) + Aligned(qs[1..], n - 1)
  }

  ghost predicate Octal(qs: seq<nat>) {
    forall i :: 0 <= i < |qs| ==> qs[i] < 8
  }

  lemma {:induction false} AlignedFits(qs: seq<nat>, n: nat)
    requires |qs| <= n && Octal(qs)
    ensures Aligned(qs, n) < Pow8(n)
    decreases |qs|
  {
    if qs != [] {
      AlignedFits(qs[1..], n - 1);
      MulLe(qs[0], 7, Pow8(n - 1), Pow8(n - 1));
    }
  }

  lemma {:induction false} AlignedShift(qs: seq<nat>, n: nat)
    requires |qs| <= n
    ensures Aligned(qs, n + 1) == 8 * Aligned(qs, n)
    decreases |qs|
  {
    if qs != [] {
      AlignedShift(qs[1..], n - 1);
      MulRotate(8, qs[0], Pow8(n - 1));
    }
  }

  lemma {:induction false} PackIsAligned(word: nat, qs: seq<nat>, n: nat)
    requires |qs| <= n
    ensures PackOnto(word, qs) * Pow8(n - |qs|) == word * Pow8(n) + Aligned(qs, n)
    decreases |qs|
  {
    if qs != [] {
      var p := Pow8(n - 1);
      assert Pow8(n) == 8 * p;
      assert n - 1 - |qs[1..]| == n - |qs|;
      hide Pow8;
      PackIsAligned(word * 8 + qs[0], qs[1..], n - 1);
      DigitMoves(word, qs[0], p);
    }
  }

  lemma DigitMoves(word: nat, q: nat, p: nat)
    ensures (word * 8 + q) * p == word * (8 * p) + q * p
  {
    Distribute(p, word * 8, q);
    MulAssoc(word, 8, p);
  }

  lemma Pow8Values()
    ensures Pow8(19) == 0x200_0000_0000_0000 && Pow8(20) == 0x1000_0000_0000_0000
  {
    assert Pow8(8) == 0x100_0000;
    assert Pow8(16) == 0x1_0000_0000_0000;
  }

  /** The word of a slice fits 64 bits. */
  lemma SliceWordIs(sf: nat, qs: seq<nat>)
    requires sf < SCALES && |qs| <= SLICE_LEN && Octal(qs)
    ensures SliceWord(sf, qs) == sf * 0x1000_0000_0000_0000 + Aligned(qs, SLICE_LEN)
    ensures Aligned(qs, SLICE_LEN) < 0x1000_0000_0000_0000 && SliceWord(sf, qs) < 0x1_0000_0000_0000_0000
  {
    Pow8Values();
    hide Pow8;
    PackIsAligned(sf, qs, SLICE_LEN);
    AlignedFits(qs, SLICE_LEN);
  }

  const WORD64 := 0x1_0000_0000_0000_0000

  /** The 3-bit values the decoder takes from the top of its 64-bit register, shifting it left each time. */
  function Unpacked(register: nat, n: nat): (qs: seq<nat>)
    requires register < WORD64
    ensures |qs| == n && forall i :: 0 <= i < n ==> qs[i] < 8
    decreases n
  {
    if n == 0 then [] else [register / 0x2000_0000_0000_0000] + Unpacked(register * 8 % WORD64, n - 1)
  }

  function ScaleOf(word: nat): (sf: nat)
    requires word < WORD64
    ensures sf < SCALES
  {
    word / 0x1000_0000_0000_0000
  }

  function Digits(word: nat, n: nat): (qs: seq<nat>)
    requires word < WORD64
    ensures |qs| == n && forall i :: 0 <= i < n ==> qs[i] < 8
  {
    Unpacked(word * 16 % WORD64, n)
  }

  lemma {:induction false} UnpackAligned(qs: seq<nat>)
    requires |qs| <= SLICE_LEN && Octal(qs) && Aligned(qs, SLICE_LEN) * 16 < WORD64
    ensures Unpacked(Aligned(qs, SLICE_LEN) * 16, |qs|) == qs
    decreases |qs|
  {
    if qs != [] {
      Pow8Values();
      hide Pow8;
      var rest := Aligned(qs[1..], SLICE_LEN - 1);
      assert Aligned(qs, SLICE_LEN) == qs[0] * 0x200_0000_0000_0000 + rest;
      AlignedFits(qs[1..], SLICE_LEN - 1);
      AlignedShift(qs[1..], SLICE_LEN - 1);
      TopDigit(qs[0], rest);
      UnpackAligned(qs[1..]);
    }
  }

  lemma TopDigit(q: nat, rest: nat)
    requires q < 8 && rest < 0x200_0000_0000_0000
    ensures var register := (q * 0x200_0000_0000_0000 + rest) * 16;
            register / 0x2000_0000_0000_0000 == q && register * 8 % WORD64 == 8 * rest * 16
  {
  }

  lemma ScaleInFront(sf: nat, a: nat)
    requires sf < SCALES && a < 0x1000_0000_0000_0000
    ensures var word := sf * 0x1000_0000_0000_0000 + a;
            word < WORD64 && ScaleOf(word) == sf && word * 16 % WORD64 == a * 16
  {
  }

  /** The decoder finds in a slice's word what the encoder put there. */
  lemma SliceWordRoundTrip(sf: nat, qs: seq<nat>)
    requires sf < SCALES && |qs| <= SLICE_LEN && Octal(qs)
    ensures SliceWord(sf, qs) < WORD64 && ScaleOf(SliceWord(sf, qs)) == sf && Digits(SliceWord(sf, qs), |qs|) == qs
  {
    hide SliceWord, Aligned, Unpacked, ScaleOf;
    SliceWordIs(sf, qs);
    ScaleInFront(sf, Aligned(qs, SLICE_LEN));
    UnpackAligned(qs);
  }

  // ---------------------------------------------------------------- samples of one channel among interleaved ones

  /** `n` samples from `start` on, `step` apart, lie within `len`. */
  predicate Reaches(len: nat, start: nat, step: nat, n: nat) {
    n == 0 || start + n * step < len + step
  }

  lemma ReachesStep(len: nat, start: nat, step: nat, n: nat)
    requires Reaches(len, start, step, n) && n > 0
    ensures start < len && Reaches(len, start + step, step, n - 1)
  {
    DistributeSub(step, n, 1);
    if n > 1 {
      MulLe(1, n - 1, step, step);
    }
  }

  function Strided<T>(data: seq<T>, start: nat, step: nat, n: nat): (s: seq<T>)
    requires Reaches(|data|, start, step, n)
    ensures |s| == n
    decreases n
  {
    if n == 0 then [] else
      ReachesStep(|data|, start, step, n);
      [data[start]] + Strided(data, start + step, step, n - 1)
  }

  /** `data` with `vals` stored `step` apart. */
  function Scattered<T>(data: seq<T>, start: nat, step: nat, vals: seq<T>): (s: seq<T>)
    requires Reaches(|data|, start, step, |vals|)
    ensures |s| == |data|
    decreases |vals|
  {
    if vals == [] then data else
      ReachesStep(|data|, start, step, |vals|);
      Scattered(data[start := vals[0]], start + step, step, vals[1..])
  }

  lemma {:induction false} StridedAt<T>(data: seq<T>, start: nat, step: nat, n: nat, k: nat)
    requires Reaches(|data|, start, step, n) && k < n
    ensures Place(start, step, k) < |data| && Strided(data, start, step, n)[k] == data[Place(start, step, k)]
    decreases n
  {
    hide Reaches, Place;
    ReachesStep(|data|, start, step, n);
    if k > 0 {
      StridedAt(data, start + step, step, n - 1, k - 1);
      PlaceNext(start, step, k - 1);
    } else {
      PlaceZero(start, step);
    }
  }

  lemma {:induction false} ScatteredElsewhere<T>(data: seq<T>, start: nat, step: nat, vals: seq<T>, i: nat)
    requires Reaches(|data|, start, step, |vals|) && i < |data|
    requires forall k :: 0 <= k < |vals| ==> i != Place(start, step, k)
    ensures Scattered(data, start, step, vals)[i] == data[i]
    decreases |vals|
  {
    if vals != [] {
      ReachesStep(|data|, start, step, |vals|);
      PlaceZero(start, step);
      var next := start + step;
      forall k | 0 <= k < |vals| - 1
        ensures i != Place(next, step, k)
      {
        PlaceNext(start, step, k);
        assert i != Place(start, step, k + 1);
      }
      assert i != Place(start, step, 0);
      ScatteredElsewhere(data[start := vals[0]], next, step, vals[1..], i);
    }
  }

  lemma {:induction false} ScatteredAt<T>(data: seq<T>, start: nat, step: nat, vals: seq<T>, k: nat)
    requires Reaches(|data|, start, step, |vals|) && k < |vals| && step > 0
    ensures Place(start, step, k) < |data| && Scattered(data, start, step, vals)[Place(start, step, k)] == vals[k]
    decreases |vals|
  {
    ReachesStep(|data|, start, step, |vals|);
    PlaceZero(start, step);
    var data' := data[start := vals[0]];
    if k == 0 {
      var next := start + step;
      forall j | 0 <= j < |vals| - 1
        ensures start != Place(next, step, j)
      {
        PlaceBehind(next, step, j);
      }
      ScatteredElsewhere(data', next, step, vals[1..], start);
    } else {
      ScatteredAt(data', start + step, step, vals[1..], k - 1);
      PlaceNext(start, step, k - 1);
    }
  }

  /** The index of the `k`-th of the places. */
  function Place(start: nat, step: nat, k: nat): nat {
    start + k * step
  }

  lemma PlaceZero(start: nat, step: nat)
    ensures Place(start, step, 0) == start
  {
  }

  lemma PlaceNext(start: nat, step: nat, k: nat)
    ensures Place(start + step, step, k) == Place(start, step, k + 1)
  {
    Distribute(step, k, 1);
  }

  lemma PlaceBehind(start: nat, step: nat, k: nat)
    ensures Place(start, step, k) >= start
  {
  }

  // ---------------------------------------------------------------- the encoder's search

  /** Codes a slice with one scale factor, giving up once the rank exceeds the best so far. A rank below the best one
      comes from a slice that was completed. */
  method TrySlice(data: seq<Sample>, start: nat, step: nat, n: nat, l: Filter, sf: nat, best: nat)
    returns (rank: nat, slice: nat, lms: Filter)
    requires step > 0 && Reaches(|data|, start, step, n) && sf < SCALES
    ensures var s := Strided(data, start, step, n);
            if rank < best then
              rank == Rank(l, s, sf) && slice == PackOnto(sf, Quantized(l, s, sf)) && lms == AfterSlice(l, s, sf)
            else Rank(l, s, sf) >= best
  {
    hide Reaches, Strided, Quantize, Cost, Dequant, Output, Next, Updated;
    ghost var s := Strided(data, start, step, n);
    ghost var rest := s;
    rank, slice, lms := 0, sf, l;
    var si: nat, end := start, start + n * step;
    ghost var left: nat := n;
    while si < end
      invariant Reaches(|data|, si, step, left) && si + left * step == end && rest == Strided(data, si, step, left)
      invariant rank + Rank(lms, rest, sf) == Rank(l, s, sf)
      invariant PackOnto(slice, Quantized(lms, rest, sf)) == PackOnto(sf, Quantized(l, s, sf))
      invariant AfterSlice(lms, rest, sf) == AfterSlice(l, s, sf)
      decreases left
    {
      LeftStep(si, left, step, end);
      StridedStep(data, si, step, left);
      var cost, quantized, reconstructed, dequantized := CodeSample(lms, data[si], sf);
      CodeStep(lms, rest, sf, slice);
      rank := rank + cost;
      if rank > best {
        return;
      }
      NextIs(lms, sf, quantized);
      lms := LmsUpdate(lms, reconstructed, dequantized);
      slice := slice * 8 + quantized;
      si := si + step;
      left := left - 1;
      rest := rest[1..];
    }
    LeftEnd(si, left, step, end);
  }

  lemma NextIs(l: Filter, sf: nat, q: nat)
    requires sf < SCALES && q < 8
    ensures Next(l, sf, q) == Updated(l, Output(l, sf, q), Dequant(sf, q))
  {
  }

  lemma StridedStep<T>(data: seq<T>, start: nat, step: nat, n: nat)
    requires Reaches(|data|, start, step, n) && n > 0
    ensures start < |data| && Reaches(|data|, start + step, step, n - 1)
    ensures Strided(data, start, step, n)[0] == data[start]
    ensures Strided(data, start, step, n)[1..] == Strided(data, start + step, step, n - 1)
  {
    hide Reaches;
    ReachesStep(|data|, start, step, n);
  }

  lemma LeftStep(si: nat, left: nat, step: nat, end: nat)
    requires si < end && si + left * step == end
    ensures left > 0 && si + step + (left - 1) * step == end
  {
    DistributeSub(step, left, 1);
  }

  lemma LeftEnd(si: nat, left: nat, step: nat, end: nat)
    requires si >= end && si + left * step == end && step > 0
    ensures left == 0
  {
    if left > 0 {
      MulLe(1, left, step, step);
    }
  }

  lemma CodeStep(l: Filter, s: seq<int>, sf: nat, slice: nat)
    requires s != [] && sf < SCALES
    ensures var q := Quantize(l, s[0], sf);
            Rank(l, s, sf) == Cost(l, s[0], sf) + Rank(Next(l, sf, q), s[1..], sf) &&
            PackOnto(slice, Quantized(l, s, sf)) == PackOnto(slice * 8 + q, Quantized(Next(l, sf, q), s[1..], sf)) &&
            AfterSlice(l, s, sf) == AfterSlice(Next(l, sf, q), s[1..], sf)
  {
    hide Cost, Next, Quantize;
    var qs := Quantized(l, s, sf);
    assert qs[1..] == Quantized(Next(l, sf, qs[0]), s[1..], sf);
  }

  /** One pass of the encoder's inner loop. */
  method CodeSample(lms: Filter, sample: int, sf: nat)
    returns (cost: nat, quantized: nat, reconstructed: int, dequantized: int)
    requires sf < SCALES
    ensures quantized == Quantize(lms, sample, sf) && cost == Cost(lms, sample, sf)
    ensures dequantized == Dequant(sf, quantized) && reconstructed == Output(lms, sf, quantized)
  {
    hide Predict, Div, Dequant, Square;
    var predicted := LmsPredict(lms);
    var residual := sample - predicted;
    var scaled := Div(residual, sf);
    var clamped := Clamp(scaled, -8, 8);
    quantized := QUANT_TAB[clamped + 8];
    dequantized := Dequant(sf, quantized);
    reconstructed := ClampS16(predicted + dequantized);
    var penalty := WeightsPenalty(lms);
    var error := sample - reconstructed;
    cost := Square(error) + Square(penalty);
  }

  method WeightsPenalty(lms: Filter) returns (penalty: int)
    ensures penalty == Penalty(lms)
  {
    hide Square;
    var w := lms.weights;
    assert SumOfSquares(w, 1) == Square(w[0]);
    assert SumOfSquares(w, 2) == Square(w[0]) + Square(w[1]);
    assert SumOfSquares(w, 4) == SumOfSquares(w, 2) + Square(w[2]) + Square(w[3]);
    penalty := (Square(w[0]) + Square(w[1]) + Square(w[2]) + Square(w[3])) / 0x4_0000 - 0x8ff;
    if penalty < 0 {
      penalty := 0;
    }
  }

  /** The search for the best scale factor, starting with that of the slice before. Giving up early changes nothing: the
      result is that of the exhaustive search, and the slice is complete. */
  method SearchSlice(data: seq<Sample>, start: nat, step: nat, n: nat, l: Filter, prev: nat)
    returns (bestScalefactor: nat, bestSlice: nat, bestLms: Filter)
    requires step > 0 && Reaches(|data|, start, step, n) && n <= SLICE_LEN
    requires WeightsWithin(l, WEIGHT_MAX - 896 * SLICE_LEN)
    ensures var s := Strided(data, start, step, n);
            bestScalefactor == BestScale(l, s, prev) &&
            bestSlice == PackOnto(bestScalefactor, Quantized(l, s, bestScalefactor)) &&
            bestLms == AfterSlice(l, s, bestScalefactor)
  {
    hide Reaches, Strided, Rank, PackOnto, Quantized, AfterSlice, WeightsWithin;
    ghost var s := Strided(data, start, step, n);
    var bestRank := RANK_LIMIT;
    bestSlice, bestLms, bestScalefactor := 0, l, 0;
    for sfi := 0 to SCALES
      invariant sfi == 0 ==> bestRank == RANK_LIMIT
      invariant sfi > 0 ==> bestScalefactor == BestOf(l, s, prev, sfi) && bestRank == Rank(l, s, bestScalefactor) &&
                            bestSlice == PackOnto(bestScalefactor, Quantized(l, s, bestScalefactor)) &&
                            bestLms == AfterSlice(l, s, bestScalefactor)
    {
      var scalefactor := (sfi + prev) % SCALES;
      RankBelowLimit(l, s, scalefactor);
      var rank, slice, lms := TrySlice(data, start, step, n, l, scalefactor, bestRank);
      if rank < bestRank {
        bestRank, bestSlice, bestLms, bestScalefactor := rank, slice, lms, scalefactor;
      }
    }
  }

  /** Ranks stay below the initial best rank, 2^64 - 1, so some slice is always chosen. */
  lemma RankBelowLimit(l: Filter, s: seq<Sample>, sf: nat)
    requires sf < SCALES && |s| <= SLICE_LEN && WeightsWithin(l, WEIGHT_MAX - 896 * SLICE_LEN)
    ensures Rank(l, s, sf) < RANK_LIMIT
  {
    hide Rank, WeightsWithin;
    RankWithin(l, s, sf, WEIGHT_MAX - 896 * SLICE_LEN);
    MulLe(|s|, SLICE_LEN, COST_MAX, COST_MAX);
  }

  // ---------------------------------------------------------------- the decoder

  /** Decodes a slice into the places `start`, `start + step`, and so on. */
  method DecodeSlice(data: array<int>, start: nat, step: nat, n: nat, word: nat, l: Filter) returns (lms: Filter)
    requires step > 0 && Reaches(data.Length, start, step, n) && word < WORD64
    modifies data
    ensures data[..] == Scattered(old(data[..]), start, step, Outputs(l, ScaleOf(word), Digits(word, n)))
    ensures lms == AfterOutputs(l, ScaleOf(word), Digits(word, n))
  {
    hide Reaches, Next, Updated, Output, Dequant, Scattered, Outputs, AfterOutputs, Unpacked;
    var sf, register: nat := ScaleOf(word), word * 16 % WORD64;
    ghost var target, after := Scattered(data[..], start, step, Outputs(l, sf, Digits(word, n))), AfterOutputs(l, sf,
      Digits(word, n));
    var si: nat, end := start, start + n * step;
    ghost var left: nat := n;
    lms := l;
    while si < end
      invariant Reaches(data.Length, si, step, left) && si + left * step == end && register < WORD64
      invariant StillTo(data[..], si, step, lms, sf, register, left, target, after)
      decreases left
    {
      LeftStep(si, left, step, end);
      ReachesStep(data.Length, si, step, left);
      DecodeStep(data[..], si, step, lms, sf, register, left, target, after);
      var quantized: nat := register / 0x2000_0000_0000_0000;
      NextIs(lms, sf, quantized);
      var predicted := LmsPredict(lms);
      var dequantized := Dequant(sf, quantized);
      var reconstructed := ClampS16(predicted + dequantized);
      OutputIs(lms, sf, quantized);
      Store(data, si, reconstructed);
      register := register * 8 % WORD64;
      lms := LmsUpdate(lms, reconstructed, dequantized);
      si := si + step;
      left := left - 1;
    }
    LeftEnd(si, left, step, end);
    NothingLeft(data[..], si, step, lms, sf, register, target, after);
  }

  /** Decoding `left` more samples brings the buffer and the filter to where they have to be. */
  ghost predicate StillTo(data: seq<int>, si: nat, step: nat, lms: Filter, sf: nat, register: nat, left: nat,
                          target: seq<int>, after: Filter)
  {
    && sf < SCALES && register < WORD64 && Reaches(|data|, si, step, left)
    && Scattered(data, si, step, Outputs(lms, sf, Unpacked(register, left))) == target
    && AfterOutputs(lms, sf, Unpacked(register, left)) == after
  }

  lemma OutputIs(l: Filter, sf: nat, q: nat)
    requires sf < SCALES && q < 8
    ensures Output(l, sf, q) == ClampS16(Predict(l) + Dequant(sf, q))
  {
  }

  lemma NothingLeft(data: seq<int>, si: nat, step: nat, lms: Filter, sf: nat, register: nat, target: seq<int>,
                    after: Filter)
    requires StillTo(data, si, step, lms, sf, register, 0, target, after)
    ensures data == target && lms == after
  {
  }

  lemma DecodeStep(data: seq<int>, si: nat, step: nat, lms: Filter, sf: nat, register: nat, left: nat,
                   target: seq<int>, after: Filter)
    requires left > 0 && StillTo(data, si, step, lms, sf, register, left, target, after)
    ensures var q := register / 0x2000_0000_0000_0000;
            q < 8 && si < |data| &&
            StillTo(data[si := Output(lms, sf, q)], si + step, step, Next(lms, sf, q), sf, register * 8 % WORD64,
              left - 1,
                    target, after)
  {
    hide Reaches, Output, Next;
    ReachesStep(|data|, si, step, left);
    var qs := Unpacked(register, left);
    assert qs[1..] == Unpacked(register * 8 % WORD64, left - 1);
    var out := Outputs(lms, sf, qs);
    assert out[1..] == Outputs(Next(lms, sf, qs[0]), sf, qs[1..]);
  }

  method Store(data: array<int>, i: nat, v: int)
    requires i < data.Length
    modifies data
    ensures data[..] == old(data[..])[i := v]
  {
    data[i] := v;
  }
}
