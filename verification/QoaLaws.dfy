/** What the parts of QOA compute, stated without them: the filter's prediction and its adaptation, rounding and
    quantization, the penalty, the order of the search, and a file given byte by byte. */
module QoaLaws {
  import opened Bytes
  import opened Powers
  import opened QoaDecoder
  import opened QoaFile
  import opened QoaFrame
  import opened QoaSlice
  import opened QoaWords

  // ---------------------------------------------------------------- the filter

  function Abs(x: int): nat {
    if x < 0 then -x else x
  }

  lemma Dots(w: seq<int>, h: seq<int>)
    requires |w| == |h| == LMS_LEN
    ensures Dot(w, h, LMS_LEN) == w[0] * h[0] + w[1] * h[1] + w[2] * h[2] + w[3] * h[3]
  {
    assert Dot(w, h, 1) == w[0] * h[0];
    assert Dot(w, h, 2) == Dot(w, h, 1) + w[1] * h[1];
    assert Dot(w, h, 3) == Dot(w, h, 2) + w[2] * h[2];
  }

  /** The prediction is the weighted sum in units of 2^-13, rounded down. */
  lemma PredictionIsScaledSum(l: Filter)
    ensures var s := l.weights[0] * l.history[0] + l.weights[1] * l.history[1] + l.weights[2] * l.history[2]
                     + l.weights[3] * l.history[3];
            8192 * Predict(l) <= s < 8192 * Predict(l) + 8192
  {
    Dots(l.weights, l.history);
  }

  /** The weights at the start continue the line through the last two samples. */
  lemma StartExtrapolates(h: seq<int>)
    requires |h| == LMS_LEN
    ensures Predict(Lms(h, START_FILTER.weights)) == 2 * h[3] - h[2]
  {
    PredictionIsScaledSum(Lms(h, START_FILTER.weights));
  }

  lemma AdjustedTimes(l: Filter, i: nat, delta: int)
    requires i < LMS_LEN
    ensures Adjusted(l, i, delta) * l.history[i] == l.weights[i] * l.history[i] + delta * Abs(l.history[i])
  {
    var w, h := l.weights[i], l.history[i];
    Distribute(h, w, if h < 0 then -delta else delta);
    if h < 0 {
      assert (-delta) * h == delta * -h;
    }
  }

  /** The update moves the prediction for the same history along the residual, the more the larger the history is. */
  lemma UpdateFollowsResidual(l: Filter, sample: int, residual: int)
    ensures Dot(Updated(l, sample, residual).weights, l.history, LMS_LEN) - Dot(l.weights, l.history, LMS_LEN)
         == (residual / 16)
            * (Abs(l.history[0]) + Abs(l.history[1]) + Abs(l.history[2]) + Abs(l.history[3]))
    ensures Updated(l, sample, residual).history == [l.history[1], l.history[2], l.history[3], sample]
  {
    var delta, h := residual / 16, l.history;
    hide Adjusted, Dot;
    Dots(l.weights, h);
    Dots(Updated(l, sample, residual).weights, h);
    AdjustedTimes(l, 0, delta);
    AdjustedTimes(l, 1, delta);
    AdjustedTimes(l, 2, delta);
    AdjustedTimes(l, 3, delta);
    Distribute4(delta, Abs(h[0]), Abs(h[1]), Abs(h[2]), Abs(h[3]));
  }

  lemma Distribute4(d: int, a: int, b: int, c: int, e: int)
    ensures d * (a + b + c + e) == d * a + d * b + d * c + d * e
  {
  }

  // ---------------------------------------------------------------- rounding and quantization

  function Fourth(x: nat): nat {
    x * x * (x * x)
  }

  function Eleventh(x: nat): nat {
    Fourth(x) * Fourth(x) * (x * x * x)
  }

  /** `f` is (s + 1)^2.75 to the nearest integer, that is, without roots, after the fourth power. */
  predicate RoundedPower(f: nat, s: nat) {
    f >= 1 && Fourth(2 * f - 1) <= 16 * Eleventh(s + 1) < Fourth(2 * f + 1)
  }

  lemma ScaleIsRoundedPower(s: nat)
    requires s < SCALES
    ensures RoundedPower(SCALEFACTOR_TAB[s], s)
  {
    LowScales(s);
    HighScales(s);
  }

  lemma LowScales(s: nat)
    ensures s < 8 ==> RoundedPower(SCALEFACTOR_TAB[s], s)
  {
    assert RoundedPower(1, 0) && RoundedPower(7, 1);
    assert RoundedPower(21, 2) && RoundedPower(45, 3);
    assert RoundedPower(84, 4) && RoundedPower(138, 5);
    assert RoundedPower(211, 6) && RoundedPower(304, 7);
    hide RoundedPower;
  }

  lemma HighScales(s: nat)
    ensures 8 <= s < SCALES ==> RoundedPower(SCALEFACTOR_TAB[s], s)
  {
    assert RoundedPower(421, 8) && RoundedPower(562, 9);
    assert RoundedPower(731, 10) && RoundedPower(928, 11);
    assert RoundedPower(1157, 12) && RoundedPower(1419, 13);
    assert RoundedPower(1715, 14) && RoundedPower(2048, 15);
    hide RoundedPower;
  }

  /** Division by a scale factor rounds to the nearest integer, up to the error of the 16-bit reciprocal; but what would
      be rounded to zero is rounded away from it. */
  lemma DivRounds(v: int, sf: nat)
    requires sf < SCALES
    ensures var f, n := SCALEFACTOR_TAB[sf], Div(v, sf);
            || 65536 * Abs(f * n - v) <= f * (32768 + Abs(v))
            || (v != 0 && n == Sign(v) && 2 * Abs(v) <= f)
  {
    var f, r := SCALEFACTOR_TAB[sf], RECIPROCAL_TAB[sf];
    ReciprocalIsRounded(sf);
    assert 65536 <= f * r < 65536 + f by {
      RoundedUp(f, r);
    }
    hide Div, Sign;
    var n := (v * r + 32768) / 65536;
    assert -32768 <= v * r - 65536 * n <= 32768;
    DivIs(v, sf, n);
    if n == 0 {
      SmallQuotient(v, f, r);
    } else {
      NearQuotient(v, f, r, n);
    }
  }

  lemma RoundedUp(f: nat, r: nat)
    requires f > 0 && r == (65536 + f - 1) / f
    ensures 65536 <= f * r < 65536 + f
  {
    assert r == Quotient(65536 + f - 1, f);
  }

  /** The sign correction acts only where rounding gave zero. */
  lemma DivIs(v: int, sf: nat, n: int)
    requires sf < SCALES && n == (v * RECIPROCAL_TAB[sf] + 32768) / 65536
    ensures Div(v, sf) == if n == 0 then Sign(v) else n
  {
    var r := RECIPROCAL_TAB[sf];
    assert r > 0;
    MultipleIsFar(r, v);
  }

  lemma SmallQuotient(v: int, f: nat, r: nat)
    requires 65536 <= f * r && -32768 <= v * r <= 32768
    ensures 2 * Abs(v) <= f
  {
    var a := Abs(v);
    assert a * r <= 32768 by {
      if v < 0 {
        assert (-v) * r == -(v * r);
      }
    }
    MulAssoc(a, r, f);
    assert a * r * f <= 32768 * f by {
      MulLe(a * r, 32768, f, f);
    }
    assert a * 65536 <= a * (r * f) by {
      MulLe(a, a, 65536, r * f);
    }
  }

  lemma NearQuotient(v: int, f: nat, r: nat, n: int)
    requires 65536 <= f * r < 65536 + f && -32768 <= v * r - 65536 * n <= 32768
    ensures 65536 * Abs(f * n - v) <= f * (32768 + Abs(v))
  {
    var e: nat, d := f * r - 65536, v * r - 65536 * n;
    assert 65536 * (f * n - v) == v * e - f * d by {
      Distribute(f, v * r, -65536 * n);
      DistributeSub(v, f * r, 65536);
      MulSwap(f, v, r);
    }
    assert Abs(v * e) <= Abs(v) * f by {
      AbsTimes(v, e, f);
    }
    assert Abs(f * d) <= f * 32768 by {
      AbsTimes(d, f, f);
      MulLe(Abs(d), 32768, f, f);
    }
    Distribute(f, 32768, Abs(v));
  }

  lemma MulSwap(f: int, v: int, r: int)
    ensures f * (v * r) == v * (f * r)
  {
  }

  lemma AbsTimes(v: int, e: nat, f: nat)
    requires e <= f
    ensures Abs(v * e) <= Abs(v) * f && Abs(e * v) <= Abs(v) * f
  {
    MulLe(Abs(v), Abs(v), e, f);
    if v < 0 {
      assert (-v) * e == -(v * e);
    }
  }

  /** The 3-bit code of a quotient is that of the nearest magnitude, which is unique, with the quotient's sign; zero
      counts as positive. */
  lemma QuantIsNearest(n: int, m: nat)
    requires -8 <= n <= 8 && m < 4
    ensures var q := QUANT_TAB[n + 8];
            && q < 8 && (q % 2 == 1 <==> n < 0)
            && (m != q / 2 ==> Abs(4 * Abs(n) - QUARTERS[q / 2]) < Abs(4 * Abs(n) - QUARTERS[m]))
  {
  }

  // ---------------------------------------------------------------- errors

  /** A residual of up to eight scale factors is decoded with an error of at most two. */
  lemma QuantizationError(l: Filter, sample: int, sf: nat)
    requires sf < SCALES && Abs(sample - Predict(l)) <= 8 * SCALEFACTOR_TAB[sf]
    ensures Abs(sample - Predict(l) - Dequant(sf, Quantize(l, sample, sf))) <= 2 * SCALEFACTOR_TAB[sf]
  {
    var v, f := sample - Predict(l), SCALEFACTOR_TAB[sf];
    var n := Div(v, sf);
    assert 1 <= f <= 2048;
    hide *;
    QuotientError(v, sf, f, n);
    QuantizeIs(l, sample, sf, n);
    var q := Quantize(l, sample, sf);
    DequantIs(sf, f, q);
    CodeOf(n, q);
    ErrorOf(v, f, n, q, Dequant(sf, q));
  }

  lemma QuantizeIs(l: Filter, sample: int, sf: nat, n: int)
    requires sf < SCALES && n == Div(sample - Predict(l), sf) && -8 <= n <= 8
    ensures |QUANT_TAB| == 17 && Quantize(l, sample, sf) == QUANT_TAB[n + 8]
  {
    hide Div, Predict;
  }

  lemma QuotientError(v: int, sf: nat, f: nat, n: int)
    requires sf < SCALES && f == SCALEFACTOR_TAB[sf] && 1 <= f <= 2048 && n == Div(v, sf) && Abs(v) <= 8 * f
    ensures 4 * Abs(f * n - v) <= 3 * f || (n == Sign(v) && 2 * Abs(v) <= f)
    ensures -8 <= n <= 8 && Clamp(n, -8, 8) == n && Sign(n) == Sign(v)
  {
    DivRounds(v, sf);
    DivKeepsSign(v, sf);
    hide Div, Abs, Sign;
    NearEnough(Abs(v), f, Abs(f * n - v));
    ClampIs(v, f, n);
  }

  lemma DequantIs(sf: nat, f: nat, q: nat)
    requires sf < SCALES && f == SCALEFACTOR_TAB[sf] && q < 8
    ensures var m := (f * QUARTERS[q / 2] * 2 + 4) / 8; Dequant(sf, q) == if q % 2 == 0 then m else -m
  {
    DequantIsRounded(sf, q / 2);
  }

  lemma NearEnough(a: nat, f: nat, e: nat)
    requires 1 <= f <= 2048 && a <= 8 * f
    ensures 65536 * e <= f * (32768 + a) ==> 4 * e <= 3 * f
  {
    MulLe(f, f, 32768 + a, 49152);
  }

  /** Such a quotient needs no clamping. */
  lemma ClampIs(v: int, f: nat, n: int)
    requires f >= 1 && Abs(v) <= 8 * f && (4 * Abs(f * n - v) <= 3 * f || n == Sign(v))
    ensures -8 <= n <= 8 && Clamp(n, -8, 8) == n
  {
    MultipleIsFar(f, n - 9);
    MultipleIsFar(f, n + 9);
    DistributeSub(f, n, 9);
    Distribute(f, n, 9);
    assert (n >= 9 ==> f * n >= 9 * f) && (n <= -9 ==> f * n <= -9 * f);
  }

  lemma ErrorOf(v: int, f: nat, n: int, q: nat, d: int)
    requires f >= 1 && -8 <= n <= 8 && Sign(n) == Sign(v)
    requires q < 8 && q / 2 == [0, 0, 1, 1, 2, 2, 3, 3, 3][Abs(n)] && (q % 2 == 1 <==> n < 0)
    requires 4 * Abs(f * n - v) <= 3 * f || (n == Sign(v) && 2 * Abs(v) <= f)
    requires var m := (f * QUARTERS[q / 2] * 2 + 4) / 8; d == if q % 2 == 0 then m else -m
    ensures Abs(v - d) <= 2 * f
  {
    Opposite(f, n);
    if n < 0 {
      MagnitudeError(-v, f, -n, q / 2);
    } else {
      MagnitudeError(v, f, n, q / 2);
    }
  }

  lemma Opposite(f: int, n: int)
    ensures f * -n == -(f * n)
  {
  }

  lemma CodeOf(n: int, q: nat)
    requires -8 <= n <= 8 && |QUANT_TAB| == 17 && q == QUANT_TAB[n + 8]
    ensures q < 8 && q / 2 == [0, 0, 1, 1, 2, 2, 3, 3, 3][Abs(n)] && (q % 2 == 1 <==> n < 0)
  {
  }

  lemma MagnitudeError(a: nat, f: nat, k: nat, m: nat)
    requires f >= 1 && k <= 8 && m == [0, 0, 1, 1, 2, 2, 3, 3, 3][k]
    requires 4 * Abs(f * k - a) <= 3 * f || (k == Sign(a) && 2 * a <= f)
    ensures Abs(a - (f * QUARTERS[m] * 2 + 4) / 8) <= 2 * f
  {
    if k <= 3 {
      SmallMagnitude(a, f, k, m);
    } else {
      LargeMagnitude(a, f, k, m);
    }
    hide *;
  }

  lemma SmallMagnitude(a: nat, f: nat, k: nat, m: nat)
    requires f >= 1 && k <= 3 && m == [0, 0, 1, 1][k]
    requires 4 * Abs(f * k - a) <= 3 * f || (k == Sign(a) && 2 * a <= f)
    ensures Abs(a - (f * QUARTERS[m] * 2 + 4) / 8) <= 2 * f
  {
    assert QUARTERS[0] == 3 && QUARTERS[1] == 10;
    if k == 0 {
    } else if k == 1 {
    } else if k == 2 {
    }
  }

  lemma LargeMagnitude(a: nat, f: nat, k: nat, m: nat)
    requires f >= 1 && 4 <= k <= 8 && m == [2, 2, 3, 3, 3][k - 4]
    requires 4 * Abs(f * k - a) <= 3 * f
    ensures Abs(a - (f * QUARTERS[m] * 2 + 4) / 8) <= 2 * f
  {
    assert QUARTERS[2] == 18 && QUARTERS[3] == 28;
    if k == 4 {
    } else if k == 5 {
    } else if k == 6 {
    } else if k == 7 {
    }
  }

  /** So a sample that is predicted to within eight scale factors is reproduced to within two. */
  lemma SampleError(l: Filter, sample: Sample, sf: nat)
    requires sf < SCALES && Abs(sample - Predict(l)) <= 8 * SCALEFACTOR_TAB[sf]
    ensures Abs(sample - Output(l, sf, Quantize(l, sample, sf))) <= 2 * SCALEFACTOR_TAB[sf]
  {
    QuantizationError(l, sample, sf);
    hide Predict, Dequant, Quantize;
  }

  // ---------------------------------------------------------------- ranks

  lemma SquareIs(x: int)
    ensures Square(x) == x * x
  {
  }

  lemma Squares(w: seq<int>)
    requires |w| == LMS_LEN
    ensures SumOfSquares(w, LMS_LEN) == w[0] * w[0] + w[1] * w[1] + w[2] * w[2] + w[3] * w[3]
  {
    SquareIs(w[0]);
    SquareIs(w[1]);
    SquareIs(w[2]);
    SquareIs(w[3]);
    hide Square;
    assert SumOfSquares(w, 1) == Square(w[0]);
    assert SumOfSquares(w, 2) == SumOfSquares(w, 1) + Square(w[1]);
    assert SumOfSquares(w, 3) == SumOfSquares(w, 2) + Square(w[2]);
  }

  /** There is no penalty exactly for weights whose vector is shorter than 3.0, in units of 2^-13; beyond that it grows
      with the square of the length. */
  lemma PenaltyBeyondThree(l: Filter)
    ensures var w := l.weights;
            var square := w[0] * w[0] + w[1] * w[1] + w[2] * w[2] + w[3] * w[3];
            var limit := 3 * 8192;
            && (Penalty(l) == 0 <==> square < limit * limit)
            && (Penalty(l) > 0 ==> 0x4_0000 * (Penalty(l) - 1) <= square - limit * limit < 0x4_0000 * Penalty(l))
  {
    hide SumOfSquares;
    Squares(l.weights);
  }

  /** A sample costs its squared error and the squared penalty. */
  lemma CostIs(l: Filter, sample: int, sf: nat)
    requires sf < SCALES
    ensures var e := sample - Output(l, sf, Quantize(l, sample, sf));
            Cost(l, sample, sf) == e * e + Penalty(l) * Penalty(l)
  {
    hide Output, Quantize, Penalty;
    SquareIs(sample - Output(l, sf, Quantize(l, sample, sf)));
    SquareIs(Penalty(l));
  }

  /** Of several scale factors with the least rank the one is taken that comes first when counting up, modulo 16, from
      that of the slice before; in the first slice of a frame that is the smallest. */
  lemma TiesGoUpwards(l: Filter, s: seq<int>, prev: nat, sf: nat)
    requires prev < SCALES && sf < SCALES && Rank(l, s, sf) == Rank(l, s, BestScale(l, s, prev))
    ensures (BestScale(l, s, prev) - prev) % SCALES <= (sf - prev) % SCALES
  {
    hide Rank, BestOf;
    var at := BestOfIsFirstLeast(l, s, prev, SCALES);
    TriedAt(prev, at);
    TriedOf(prev, sf);
    hide Tried;
    var i: nat := (sf - prev) % SCALES;
    assert Tried(prev, i) == sf;
  }

  lemma TriedAt(prev: nat, i: nat)
    requires prev < SCALES && i < SCALES
    ensures (Tried(prev, i) - prev) % SCALES == i
  {
  }

  lemma TriedOf(prev: nat, sf: nat)
    requires prev < SCALES && sf < SCALES
    ensures 0 <= (sf - prev) % SCALES < SCALES && Tried(prev, (sf - prev) % SCALES) == sf
  {
  }

  lemma FirstSliceTies(l: Filter, col: seq<Sample>, sf: nat)
    requires |col| > 0 && sf < ChosenScale(l, col, 0)
    ensures Rank(l, SliceAt(col, 0), sf) > Rank(l, SliceAt(col, 0), ChosenScale(l, col, 0))
  {
    hide Rank, BestOf;
    var s := SliceAt(col, 0);
    BestScaleIsLeast(l, s, 0, sf);
    if Rank(l, s, sf) == Rank(l, s, ChosenScale(l, col, 0)) {
      TiesGoUpwards(l, s, 0, sf);
    }
  }

  // ---------------------------------------------------------------- sizes

  /** Frames hold up to 5120 samples per channel, in slices of twenty; only the last frame may hold fewer, and only the
      last slice of a frame. */
  lemma FramesOf5120(samples: nat, f: nat)
    requires f < Frames(samples)
    ensures 5120 * (Frames(samples) - 1) < samples <= 5120 * Frames(samples)
    ensures FrameLen(samples, f) == if f < Frames(samples) - 1 then 5120 else samples - 5120 * f
  {
  }

  lemma SlicesOf20(len: nat, t: nat)
    requires t < Slices(len)
    ensures 20 * (Slices(len) - 1) < len <= 20 * Slices(len)
    ensures SliceLen(len, t) == if t < Slices(len) - 1 then 20 else len - 20 * t
  {
  }

  // ---------------------------------------------------------------- a file

  /** A file of one channel and two samples at 44100 Hz: the header, and a frame with its own header, an empty history,
      the weights from the start, and a slice of scale factor 15 and zeros. */
  const EXAMPLE: seq<Byte> := FILE_HEADER + EXAMPLE_FRAME
  const EXAMPLE_FRAME: seq<Byte> := FRAME_HEADER + HISTORY + WEIGHTS + SLICE

  const FILE_HEADER: seq<Byte> := [0x71, 0x6f, 0x61, 0x66, 0, 0, 0, 2]
  const FRAME_HEADER: seq<Byte> := [1, 0, 0xac, 0x44, 0, 2, 0, 32]
  const HISTORY: seq<Byte> := [0, 0, 0, 0, 0, 0, 0, 0]
  const WEIGHTS: seq<Byte> := [0, 0, 0, 0, 0xe0, 0, 0x40, 0]
  const SLICE: seq<Byte> := [0xf0, 0, 0, 0, 0, 0, 0, 0]

  lemma EightBytes(s: seq<Byte>, p: nat)
    requires p + 8 <= |s|
    ensures var a: int, b: int, c: int, d: int := s[p], s[p + 1], s[p + 2], s[p + 3];
            var e: int, f: int, g: int, h: int := s[p + 4], s[p + 5], s[p + 6], s[p + 7];
            WordAt(s, p) == a * 0x100_0000_0000_0000 + b * 0x1_0000_0000_0000 + c * 0x100_0000_0000
                            + d * 0x1_0000_0000 + e * 0x100_0000 + f * 0x1_0000 + g * 0x100 + h
  {
    var b := s[p..p + 8];
    assert b[..7][..6] == b[..6] && b[..6][..5] == b[..5] && b[..5][..4] == b[..4];
    assert b[..4][..3] == b[..3] && b[..3][..2] == b[..2] && b[..2][..1] == b[..1] && b[..1][..0] == [];
    ValueOf1(b);
    ValueStep(b, 1);
    ValueStep(b, 2);
    ValueStep(b, 3);
    ValueStep(b, 4);
    ValueStep(b, 5);
    ValueStep(b, 6);
    ValueStep(b, 7);
    assert b[..8] == b;
    hide Value;
  }

  lemma ValueOf1(b: seq<Byte>)
    requires |b| >= 1
    ensures Value(b[..1]) == b[0]
  {
    assert b[..1][..0] == [];
  }

  lemma ValueStep(b: seq<Byte>, n: nat)
    requires n < |b|
    ensures Value(b[..n + 1]) == Value(b[..n]) * 256 + b[n]
  {
    assert b[..n + 1][..n] == b[..n];
  }

  /** Its header fields are read as such, and its words as the filter and the two samples 1536 and 4626: the second one
      adds the prediction 3090 to the residual 1536. */
  lemma ExampleDecodes()
    ensures HeaderOk(EXAMPLE) && TotalSamples(EXAMPLE) == 2 && Accepts(EXAMPLE[8..], 1, 44100)
    ensures Samples(EXAMPLE[8..]) == 2 && HeaderSize(WordAt(EXAMPLE, 8)) == 32 && Whole(EXAMPLE[8..], 1, 2)
    ensures FilterIn(EXAMPLE[8..], 1, 2, 0) == START_FILTER
    ensures ChannelWords(EXAMPLE[8..], 1, 2, 0, 1) == [0xf000_0000_0000_0000]
    ensures DecSamples(START_FILTER, [0xf000_0000_0000_0000], 2, 1) == [1536, 4626]
  {
    assert |EXAMPLE| == 40;
    hide *;
    ExampleHeader(EXAMPLE[8..]);
    ExampleChannel(EXAMPLE[8..]);
    ExampleFilter();
    ExampleSamples();
  }

  lemma ExampleHeader(frame: seq<Byte>)
    requires frame == EXAMPLE[8..]
    ensures HeaderOk(EXAMPLE) && TotalSamples(EXAMPLE) == 2 && Accepts(frame, 1, 44100)
    ensures Samples(frame) == 2 && HeaderSize(WordAt(EXAMPLE, 8)) == 32
  {
    ExampleWords(frame);
    hide WordAt;
    ExampleFields(0x0100_ac44_0002_0020);
    hide HeaderChannels, HeaderRate, HeaderSamples, HeaderSize;
  }

  lemma ExampleFields(h: Word)
    requires h == 0x0100_ac44_0002_0020
    ensures HeaderChannels(h) == 1 && HeaderRate(h) == 44100 && HeaderSamples(h) == 2 && HeaderSize(h) == 32
    ensures MaxSamples(32, 1) == 20
  {
  }

  lemma ExampleChannel(frame: seq<Byte>)
    requires frame == EXAMPLE[8..]
    ensures Whole(frame, 1, 2) && FilterIn(frame, 1, 2, 0) == FilterOf(0, 0xe000_4000)
    ensures ChannelWords(frame, 1, 2, 0, 1) == [0xf000_0000_0000_0000]
  {
    ExampleWords(frame);
    hide WordAt, FilterOf;
    assert SliceOffset(1, 0, 0) == 24;
    assert Whole(frame, 1, 2);
    assert ChannelWords(frame, 1, 2, 0, 0) == [];
  }

  lemma ExampleWords(frame: seq<Byte>)
    requires frame == EXAMPLE[8..]
    ensures WordAt(EXAMPLE, 0) == 0x716f_6166_0000_0002
    ensures |frame| == 32 && WordAt(EXAMPLE, 8) == WordAt(frame, 0) == 0x0100_ac44_0002_0020
    ensures WordAt(frame, 8) == 0 && WordAt(frame, 16) == 0xe000_4000 && WordAt(frame, 24) == 0xf000_0000_0000_0000
  {
    Pieces();
    hide *;
    SameWord(EXAMPLE, 0, FILE_HEADER, 0);
    SameWord(EXAMPLE, 8, FRAME_HEADER, 0);
    SameWord(frame, 0, FRAME_HEADER, 0);
    SameWord(frame, 8, HISTORY, 0);
    SameWord(frame, 16, WEIGHTS, 0);
    SameWord(frame, 24, SLICE, 0);
    PieceWords();
  }

  lemma Pieces()
    ensures |EXAMPLE| == 40 && |EXAMPLE_FRAME| == 32 && EXAMPLE[8..] == EXAMPLE_FRAME
    ensures |FILE_HEADER| == |FRAME_HEADER| == |HISTORY| == |WEIGHTS| == |SLICE| == 8
    ensures EXAMPLE[0..8] == FILE_HEADER[0..8] && EXAMPLE[8..16] == FRAME_HEADER[0..8]
    ensures EXAMPLE_FRAME[0..8] == FRAME_HEADER[0..8] && EXAMPLE_FRAME[8..16] == HISTORY[0..8]
    ensures EXAMPLE_FRAME[16..24] == WEIGHTS[0..8] && EXAMPLE_FRAME[24..32] == SLICE[0..8]
  {
    Joined(FILE_HEADER, FRAME_HEADER, HISTORY, WEIGHTS, SLICE);
  }

  lemma Joined(a: seq<Byte>, b: seq<Byte>, c: seq<Byte>, d: seq<Byte>, e: seq<Byte>)
    requires |a| == |b| == |c| == |d| == |e| == 8
    ensures var frame := b + c + d + e;
            var s := a + frame;
            && |frame| == 32 && |s| == 40 && s[8..] == frame && s[0..8] == a[0..8] && s[8..16] == b[0..8]
            && frame[0..8] == b[0..8] && frame[8..16] == c[0..8] && frame[16..24] == d[0..8] && frame[24..32] == e[0..8]
  {
  }

  lemma SameWord(s: seq<Byte>, p: nat, t: seq<Byte>, q: nat)
    requires p + 8 <= |s| && q + 8 <= |t| && s[p..p + 8] == t[q..q + 8]
    ensures WordAt(s, p) == WordAt(t, q)
  {
  }

  lemma PieceWords()
    ensures |FILE_HEADER| == |FRAME_HEADER| == |HISTORY| == |WEIGHTS| == |SLICE| == 8
    ensures WordAt(FILE_HEADER, 0) == 0x716f_6166_0000_0002 && WordAt(FRAME_HEADER, 0) == 0x0100_ac44_0002_0020
    ensures WordAt(HISTORY, 0) == 0 && WordAt(WEIGHTS, 0) == 0xe000_4000 && WordAt(SLICE, 0) == 0xf000_0000_0000_0000
  {
    hide WordAt;
    EightBytes(FILE_HEADER, 0);
    EightBytes(FRAME_HEADER, 0);
    EightBytes(HISTORY, 0);
    EightBytes(WEIGHTS, 0);
    EightBytes(SLICE, 0);
  }

  lemma ExampleFilter()
    ensures FilterOf(0, 0xe000_4000) == START_FILTER
  {
    assert Unpack(0, 4) == [0, 0, 0, 0];
    assert Unpack(0xe000_4000, 4) == [0, 0, -8192, 16384];
  }

  /** The first sample is the residual; it moves the last two weights to -8096 and 16480. */
  lemma ExampleSamples()
    ensures DecSamples(START_FILTER, [0xf000_0000_0000_0000], 2, 1) == [1536, 4626]
  {
    var w: Word := 0xf000_0000_0000_0000;
    assert ScaleOf(w) == 15 && Digits(w, 2) == [0, 0] && SliceLen(2, 0) == 2;
    var l := START_FILTER;
    Dots(l.weights, l.history);
    assert Output(l, 15, 0) == 1536;
    var l' := Next(l, 15, 0);
    assert l' == Lms([0, 0, 0, 1536], [96, 96, -8096, 16480]);
    Dots(l'.weights, l'.history);
    assert Output(l', 15, 0) == 4626;
    hide Output, Next;
    assert Outputs(l, 15, [0, 0]) == [Output(l, 15, 0)] + Outputs(l', 15, [0]);
    assert Outputs(l', 15, [0]) == [Output(l', 15, 0)];
  }

  /** A file is accepted by its first sixteen bytes: the letters qoaf, a number of samples, of channels and a rate, none
      of them zero. */
  lemma HeaderInBytes(bytes: seq<Byte>)
    ensures HeaderOk(bytes) <==>
              && |bytes| >= 16 && bytes[0] == 0x71 && bytes[1] == 0x6f && bytes[2] == 0x61 && bytes[3] == 0x66
              && (bytes[4] != 0 || bytes[5] != 0 || bytes[6] != 0 || bytes[7] != 0)
              && bytes[8] != 0 && (bytes[9] != 0 || bytes[10] != 0 || bytes[11] != 0)
  {
    if |bytes| >= 16 {
      EightBytes(bytes, 0);
      EightBytes(bytes, 8);
      hide WordAt;
      MagicAndCount(WordAt(bytes, 0), bytes[0], bytes[1], bytes[2], bytes[3], bytes[4], bytes[5], bytes[6], bytes[7]);
      ChannelsAndRate(WordAt(bytes, 8), bytes[8], bytes[9], bytes[10], bytes[11], bytes[12], bytes[13], bytes[14],
                      bytes[15]);
      hide HeaderChannels, HeaderRate;
    }
  }

  lemma MagicAndCount(w: Word, a: int, b: int, c: int, d: int, e: int, f: int, g: int, h: int)
    requires 0 <= a < 256 && 0 <= b < 256 && 0 <= c < 256 && 0 <= d < 256
    requires 0 <= e < 256 && 0 <= f < 256 && 0 <= g < 256 && 0 <= h < 256
    requires w == a * 0x100_0000_0000_0000 + b * 0x1_0000_0000_0000 + c * 0x100_0000_0000 + d * 0x1_0000_0000
                  + e * 0x100_0000 + f * 0x1_0000 + g * 0x100 + h
    ensures w / WORD32 == QOA_MAGIC <==> a == 0x71 && b == 0x6f && c == 0x61 && d == 0x66
    ensures w % WORD32 != 0 <==> e != 0 || f != 0 || g != 0 || h != 0
  {
    var high, low := a * 0x100_0000 + b * 0x1_0000 + c * 0x100 + d, e * 0x100_0000 + f * 0x1_0000 + g * 0x100 + h;
    DivModOf(w, WORD32, high, low);
    Letters(a, b, c, d);
  }

  lemma Letters(a: int, b: int, c: int, d: int)
    requires 0 <= a < 256 && 0 <= b < 256 && 0 <= c < 256 && 0 <= d < 256
    ensures a * 0x100_0000 + b * 0x1_0000 + c * 0x100 + d == 0x716f_6166 <==>
              a == 0x71 && b == 0x6f && c == 0x61 && d == 0x66
  {
    if a * 0x100_0000 + b * 0x1_0000 + c * 0x100 + d == 0x716f_6166 {
      assert a == 0x71;
      assert b == 0x6f;
      assert c == 0x61;
    }
  }

  lemma ChannelsAndRate(w: Word, a: int, b: int, c: int, d: int, e: int, f: int, g: int, h: int)
    requires 0 <= a < 256 && 0 <= b < 256 && 0 <= c < 256 && 0 <= d < 256
    requires 0 <= e < 256 && 0 <= f < 256 && 0 <= g < 256 && 0 <= h < 256
    requires w == a * 0x100_0000_0000_0000 + b * 0x1_0000_0000_0000 + c * 0x100_0000_0000 + d * 0x1_0000_0000
                  + e * 0x100_0000 + f * 0x1_0000 + g * 0x100 + h
    ensures HeaderChannels(w) == a && HeaderRate(w) == b * 0x1_0000 + c * 0x100 + d
  {
    var high, low := a * 0x100_0000 + b * 0x1_0000 + c * 0x100 + d, e * 0x100_0000 + f * 0x1_0000 + g * 0x100 + h;
    assert w == WORD32 * high + low && 0 <= low < WORD32;
    var rate, rest := b * 0x1_0000 + c * 0x100 + d, (b * 0x1_0000 + c * 0x100 + d) * WORD32 + low;
    assert w == 0x100_0000_0000_0000 * a + rest && 0 <= rest < 0x100_0000_0000_0000;
  }
}
