/** Canonical Huffman codes as in section 3.2.2 of RFC 1951, for code lengths up to 16. Codewords of equal length are
    consecutive numbers in symbol order, and shorter ones come first; so, scaled to 16 bits, the codewords tile an
    initial segment of the 16-bit numbers. */
module Canonical {
  import opened Powers

  const W := 16

  predicate Lengths(lens: seq<nat>) {
    forall i :: 0 <= i < |lens| ==> lens[i] <= W
  }

  /** How many of the first `n` symbols have length `l`. */
  function Count(lens: seq<nat>, n: nat, l: nat): (c: nat)
    requires n <= |lens|
    ensures c <= n
  {
    if n == 0 then 0 else Count(lens, n - 1, l) + if lens[n - 1] == l then 1 else 0
  }

  /** The weight of one codeword of length `l`, scaled to 16 bits. */
  function Weight(l: nat): (w: nat)
    requires l <= W
    ensures w >= 1
  {
    Pow2(W - l)
  }

  /** The weight of `n` codewords of length `l`. */
  function Span(n: nat, l: nat): nat
    requires l <= W
  {
    n * Weight(l)
  }

  lemma SpanFacts(a: nat, b: nat, l: nat)
    requires l <= W
    ensures Span(a + b, l) == Span(a, l) + Span(b, l)
    ensures Span(0, l) == 0 && Span(1, l) == Weight(l)
    ensures l > 0 ==> Span(2 * a, l) == Span(a, l - 1)
    ensures a <= b ==> Span(a, l) <= Span(b, l)
  {
    if l > 0 {
      WeightHalves(l);
    }
    hide Weight;
    if a <= b {
      MulLe(a, b, Weight(l), Weight(l));
    }
  }

  lemma WeightHalves(l: nat)
    requires 0 < l <= W
    ensures Weight(l - 1) == 2 * Weight(l)
  {
    assert W - (l - 1) == W - l + 1;
  }

  /** Where the codewords of length `l` start: the total weight of all shorter ones. */
  function Start(lens: seq<nat>, l: nat): nat
    requires l <= W + 1
  {
    if l <= 1 then 0 else Start(lens, l - 1) + Span(Count(lens, |lens|, l - 1), l - 1)
  }

  /** The Kraft sum, scaled by 2^16. */
  function Kraft(lens: seq<nat>): nat {
    Start(lens, W + 1)
  }

  /** The first codeword of length `l`: `next_code` in the RFC. */
  function First(lens: seq<nat>, l: nat): nat {
    if l <= 1 then 0 else 2 * (First(lens, l - 1) + Count(lens, |lens|, l - 1))
  }

  /** The codeword of symbol `i`. */
  function Code(lens: seq<nat>, i: nat): nat
    requires i < |lens|
  {
    First(lens, lens[i]) + Count(lens, i, lens[i])
  }

  /** The codeword of `i`, scaled to 16 bits, is a prefix of the 16-bit number `k`, most significant bit first. */
  ghost predicate Covers(lens: seq<nat>, i: nat, k: nat)
    requires Lengths(lens) && i < |lens|
  {
    lens[i] > 0 && Span(Code(lens, i), lens[i]) <= k < Span(Code(lens, i) + 1, lens[i])
  }

  // ---------------------------------------------------------------- tiling

  lemma {:induction false} FirstIsStart(lens: seq<nat>, l: nat)
    requires 1 <= l <= W
    ensures Span(First(lens, l), l) == Start(lens, l)
  {
    hide Span, Count;
    if l > 1 {
      FirstIsStart(lens, l - 1);
      var f, c := First(lens, l - 1), Count(lens, |lens|, l - 1);
      SpanFacts(f + c, 0, l);
      SpanFacts(f, c, l - 1);
    } else {
      SpanFacts(0, 0, l);
    }
  }

  lemma {:induction false} StartMonotone(lens: seq<nat>, l: nat, m: nat)
    requires l <= m <= W + 1
    ensures Start(lens, l) <= Start(lens, m)
    decreases m
  {
    hide Span, Count;
    if l < m {
      StartMonotone(lens, l, m - 1);
    }
  }

  lemma {:induction false} CountMonotone(lens: seq<nat>, a: nat, b: nat, l: nat)
    requires a <= b <= |lens|
    ensures Count(lens, a, l) <= Count(lens, b, l)
    decreases b
  {
    if a < b {
      CountMonotone(lens, a, b - 1, l);
    }
  }

  /** The rank of a symbol among those of its length is below their number. */
  lemma RankBelowCount(lens: seq<nat>, i: nat)
    requires i < |lens|
    ensures Count(lens, i, lens[i]) < Count(lens, |lens|, lens[i])
  {
    CountMonotone(lens, i + 1, |lens|, lens[i]);
  }

  /** Where the tile of symbol `i` lies. */
  lemma TilePlace(lens: seq<nat>, i: nat)
    requires Lengths(lens) && i < |lens| && lens[i] > 0
    ensures var l, r := lens[i], Count(lens, i, lens[i]);
            Span(Code(lens, i), l) == Start(lens, l) + Span(r, l) &&
            Span(Code(lens, i) + 1, l) == Start(lens, l) + Span(r + 1, l) <= Start(lens, l + 1)
  {
    hide Span, First, Count;
    var l, r := lens[i], Count(lens, i, lens[i]);
    FirstIsStart(lens, l);
    RankBelowCount(lens, i);
    SpanFacts(First(lens, l), r, l);
    SpanFacts(First(lens, l), r + 1, l);
    SpanFacts(r + 1, Count(lens, |lens|, l), l);
  }

  lemma CoversPlace(lens: seq<nat>, i: nat, k: nat)
    requires Lengths(lens) && i < |lens| && Covers(lens, i, k)
    ensures Start(lens, lens[i]) <= k < Start(lens, lens[i] + 1) <= Kraft(lens)
  {
    hide Span, Code, Count, Start;
    TilePlace(lens, i);
    StartMonotone(lens, lens[i] + 1, W + 1);
  }

  /** No number is covered twice: the code is prefix-free. */
  lemma CoversUnique(lens: seq<nat>, i: nat, j: nat, k: nat)
    requires Lengths(lens) && i < |lens| && j < |lens| && Covers(lens, i, k) && Covers(lens, j, k)
    ensures i == j
  {
    hide Start, Span, Code, Count;
    CoversPlace(lens, i, k);
    CoversPlace(lens, j, k);
    if lens[i] < lens[j] {
      StartMonotone(lens, lens[i] + 1, lens[j]);
    } else if lens[j] < lens[i] {
      StartMonotone(lens, lens[j] + 1, lens[i]);
    } else if i < j {
      CodesIncrease(lens, i, j);
    } else if j < i {
      CodesIncrease(lens, j, i);
    }
  }

  /** Codewords of equal length come in symbol order. */
  lemma CodesIncrease(lens: seq<nat>, i: nat, j: nat)
    requires Lengths(lens) && i < j < |lens| && lens[i] == lens[j]
    ensures Span(Code(lens, i) + 1, lens[i]) <= Span(Code(lens, j), lens[j])
  {
    CountMonotone(lens, i + 1, j, lens[i]);
    SpanFacts(Code(lens, i) + 1, Code(lens, j), lens[i]);
  }

  /** Every number below the Kraft sum is covered. */
  lemma {:induction false} RankExists(lens: seq<nat>, n: nat, l: nat, r: nat) returns (i: nat)
    requires n <= |lens| && r < Count(lens, n, l)
    ensures i < n && lens[i] == l && Count(lens, i, l) == r
  {
    if lens[n - 1] == l && Count(lens, n - 1, l) == r {
      i := n - 1;
    } else {
      i := RankExists(lens, n - 1, l, r);
    }
  }

  /** Every number below the Kraft sum is covered: the codewords of each length tile the stretch from `Start` to the
      next `Start`. */
  lemma {:induction false} CoverExists(lens: seq<nat>, l: nat, k: nat) returns (i: nat)
    requires Lengths(lens) && l <= W + 1 && k < Start(lens, l)
    ensures i < |lens| && Covers(lens, i, k) && lens[i] < l
  {
    hide Span, Count, Weight;
    if k < Start(lens, l - 1) {
      i := CoverExists(lens, l - 1, k);
    } else {
      var r := TileOf(k - Start(lens, l - 1), l - 1, Count(lens, |lens|, l - 1));
      i := RankExists(lens, |lens|, l - 1, r);
      TilePlace(lens, i);
    }
  }

  lemma TileOf(d: nat, l: nat, n: nat) returns (r: nat)
    requires l <= W && d < Span(n, l)
    ensures r < n && Span(r, l) <= d < Span(r + 1, l)
  {
    r := Quotient(d, Weight(l));
    assert Span(r + 1, l) == Span(r, l) + Weight(l) by {
      SpanFacts(r, 1, l);
    }
    SpanFacts(n, r, l);
  }

  /** With a Kraft sum of at most one, codewords fit their length. */
  lemma CodeFits(lens: seq<nat>, i: nat)
    requires Lengths(lens) && i < |lens| && lens[i] > 0 && Kraft(lens) <= Pow2(W)
    ensures Code(lens, i) < Pow2(lens[i])
  {
    hide Span, Code, Count, Start, Pow2, Weight;
    var l := lens[i];
    TilePlace(lens, i);
    StartMonotone(lens, l + 1, W + 1);
    SpanOfAll(l);
    BelowAll(Code(lens, i), l);
  }

  lemma BelowAll(c: nat, l: nat)
    requires l <= W && Span(c + 1, l) <= Span(Pow2(l), l)
    ensures c < Pow2(l)
  {
    hide Span, Pow2, Weight;
    SpanFacts(Pow2(l) + 1, c + 1, l);
    SpanFacts(Pow2(l), 1, l);
  }

  lemma SpanOfAll(l: nat)
    requires l <= W
    ensures Span(Pow2(l), l) == Pow2(W)
  {
    Pow2Add(l, W - l);
  }

  // ---------------------------------------------------------------- counting symbols

  /** How many symbols have a non-zero length below `l`. */
  function FirstSymbol(lens: seq<nat>, l: nat): nat {
    if l <= 1 then 0 else FirstSymbol(lens, l - 1) + Count(lens, |lens|, l - 1)
  }

  /** How many of the first `n` symbols have a length in 1..l-1. */
  function CountBelow(lens: seq<nat>, n: nat, l: nat): (c: nat)
    requires n <= |lens|
    ensures c <= n
  {
    if n == 0 then 0 else CountBelow(lens, n - 1, l) + if 0 < lens[n - 1] < l then 1 else 0
  }

  lemma {:induction false} CountBelowStep(lens: seq<nat>, n: nat, l: nat)
    requires n <= |lens| && l >= 1
    ensures CountBelow(lens, n, l + 1) == CountBelow(lens, n, l) + Count(lens, n, l)
    ensures CountBelow(lens, n, 1) == 0
  {
    if n > 0 {
      CountBelowStep(lens, n - 1, l);
    }
  }

  /** There is room for every symbol's place. */
  lemma {:induction false} FirstSymbolBound(lens: seq<nat>, l: nat)
    ensures FirstSymbol(lens, l) == CountBelow(lens, |lens|, if l == 0 then 1 else l) <= |lens|
  {
    if l <= 1 {
      CountBelowStep(lens, |lens|, 1);
    } else {
      FirstSymbolBound(lens, l - 1);
      CountBelowStep(lens, |lens|, l - 1);
    }
  }

  // ---------------------------------------------------------------- bit order

  /** The `n` low bits of `w` in reverse order. */
  function Rev(w: nat, n: nat): (r: nat)
    ensures r < Pow2(n)
    decreases n
  {
    if n == 0 then 0 else (w % 2) * Pow2(n - 1) + Rev(w / 2, n - 1)
  }

  lemma RevStep(w: nat, n: nat)
    ensures Rev(w, n) == if n == 0 then 0 else (w % 2) * Pow2(n - 1) + Rev(w / 2, n - 1)
  {
  }

  lemma {:induction false} RevSplit(w: nat, a: nat, b: nat)
    ensures Rev(w, a + b) == Pow2(b) * Rev(w, a) + Rev(Quotient(w, Pow2(a)), b)
    decreases a
  {
    hide Rev, Pow2;
    RevStep(w, a);
    Pow2Step(a);
    if a == 0 {
      DivModOf(w, 1, w, 0);
    } else {
      RevStep(w, a + b);
      Halving(w, a);
      RevSplit(w / 2, a - 1, b);
      Pow2Add(a - 1, b);
      assert a + b - 1 == a - 1 + b;
      RevSum(w % 2, Pow2(a - 1), Pow2(b), Rev(w / 2, a - 1));
    }
  }

  /** The high and the low part of a number, from those of its half. */
  lemma Halving(w: nat, a: nat)
    requires a > 0
    ensures Quotient(w / 2, Pow2(a - 1)) == Quotient(w, Pow2(a))
    ensures Remainder(w, Pow2(a)) == 2 * Remainder(w / 2, Pow2(a - 1)) + w % 2
  {
    var p := Pow2(a - 1);
    assert Pow2(a) == 2 * p;
    hide Pow2;
    var q, r := Quotient(w / 2, p), Remainder(w / 2, p);
    MulAssoc(2, p, q);
    DivModOf(w, 2 * p, q, 2 * r + w % 2);
  }

  lemma RevSum(d: nat, p: nat, q: nat, x: nat)
    ensures d * (p * q) + q * x == q * (d * p + x)
  {
    MulRotate(q, d, p);
    Distribute(q, d * p, x);
  }

  /** Only the low bits matter. */
  lemma {:induction false} RevLow(w: nat, n: nat)
    ensures Rev(Remainder(w, Pow2(n)), n) == Rev(w, n)
    decreases n
  {
    hide Rev, Pow2;
    RevStep(w, n);
    RevStep(Remainder(w, Pow2(n)), n);
    if n > 0 {
      Halving(w, n);
      RevLow(w / 2, n - 1);
      HalfOf(Remainder(w / 2, Pow2(n - 1)), w % 2);
    }
  }

  lemma HalfOf(x: nat, b: nat)
    requires b < 2
    ensures (2 * x + b) / 2 == x && (2 * x + b) % 2 == b
  {
  }

  /** The last digit of a reversed number. */
  lemma RevLast(x: nat, n: nat)
    requires n > 0
    ensures Rev(x, n) == 2 * Rev(x, n - 1) + Quotient(x, Pow2(n - 1)) % 2
  {
    hide Rev, Pow2;
    RevStep(Quotient(x, Pow2(n - 1)), 1);
    RevStep(Quotient(x, Pow2(n - 1)) / 2, 0);
    RevSplit(x, n - 1, 1);
    Pow2Step(0);
    Pow2Step(1);
    TwiceTimes(Pow2(1), 1, Rev(x, n - 1));
  }

  /** Reversal is its own inverse. */
  lemma {:induction false} RevRev(w: nat, n: nat)
    requires w < Pow2(n)
    ensures Rev(Rev(w, n), n) == w
    decreases n
  {
    hide Rev, Pow2;
    RevStep(w, n);
    Pow2Step(n);
    if n == 0 {
      RevStep(0, 0);
    } else {
      var x, y, p := Rev(w, n), Rev(w / 2, n - 1), Pow2(n - 1);
      RevRev(w / 2, n - 1);
      RevLast(x, n);
      DivModOf(x, p, w % 2, y);
      RevLow(x, n - 1);
    }
  }

  /** The codeword of symbol `i` as it stands in a stream that is read from the least significant bit. */
  function RevCode(lens: seq<nat>, i: nat): nat
    requires i < |lens|
  {
    Rev(Code(lens, i), lens[i])
  }

  /** The codeword of symbol `i` is a prefix of the stream bits `w`. */
  predicate IsPrefix(lens: seq<nat>, i: nat, w: nat)
    requires i < |lens|
  {
    lens[i] > 0 && w % Pow2(lens[i]) == RevCode(lens, i)
  }

  /** Prefixes of stream bits are covers of the reversed 16 bits. */
  lemma PrefixIsCover(lens: seq<nat>, i: nat, w: nat)
    requires Lengths(lens) && i < |lens| && Kraft(lens) <= Pow2(W)
    ensures IsPrefix(lens, i, w) <==> Covers(lens, i, Rev(w, W))
  {
    hide Rev, Code, Pow2;
    var l, c := lens[i], Code(lens, i);
    if l > 0 {
      CodeFits(lens, i);
      RevSplit(w, l, W - l);
      var x, y := Rev(w, l), Rev(w / Pow2(l), W - l);
      assert Rev(w, W) == Pow2(W - l) * x + y;
      RevLow(w, l);
      RevRev(w % Pow2(l), l);
      RevRev(c, l);
      TileNumber(Pow2(W - l), x, y, c);
    }
  }

  lemma TileNumber(p: nat, x: nat, y: nat, c: nat)
    requires p > 0 && y < p
    ensures c * p <= p * x + y < (c + 1) * p <==> x == c
  {
    MultipleIsFar(p, x - c);
    assert p * x + y - c * p == p * (x - c) + y;
    assert (c + 1) * p == c * p + p;
  }

  /** At most one codeword is a prefix of given stream bits. */
  lemma PrefixUnique(lens: seq<nat>, i: nat, j: nat, w: nat)
    requires Lengths(lens) && i < |lens| && j < |lens| && Kraft(lens) <= Pow2(W)
    requires IsPrefix(lens, i, w) && IsPrefix(lens, j, w)
    ensures i == j
  {
    hide IsPrefix, Covers, Rev, Pow2, Kraft;
    PrefixIsCover(lens, i, w);
    PrefixIsCover(lens, j, w);
    CoversUnique(lens, i, j, Rev(w, W));
  }

  /** Some codeword is a prefix exactly when the reversed bits are below the Kraft sum; if that is one, always. */
  lemma PrefixExists(lens: seq<nat>, w: nat) returns (i: nat)
    requires Lengths(lens) && Kraft(lens) == Pow2(W)
    ensures i < |lens| && IsPrefix(lens, i, w)
  {
    i := CoverExists(lens, W + 1, Rev(w, W));
    PrefixIsCover(lens, i, w);
  }
}
