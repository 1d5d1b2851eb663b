/** From reconstructed PNG rows to pixels: samples of 1 to 16 bits, and an opaque alpha channel where one is wanted. */
module PngPixels {
  import opened Bytes
  import opened Powers

  predicate Depth(depth: nat) {
    depth == 1 || depth == 2 || depth == 4 || depth == 8 || depth == 16
  }

  predicate Channels(imgN: nat, outN: nat) {
    1 <= imgN <= 4 && (outN == imgN || (outN == imgN + 1 && (imgN == 1 || imgN == 3)))
  }

  function PerByte(depth: nat): (n: nat)
    ensures n > 0
  {
    if depth == 1 then 8 else if depth == 2 then 4 else if depth == 4 then 2 else 1
  }

  /** The `k`-th sample in a byte, counted from the most significant bit down. */
  function Digit(b: nat, depth: nat, k: nat): nat
    requires k < PerByte(depth)
  {
    if depth == 1 then b / Pow2(7 - k) % 2 else if depth == 2 then b / Pow2(6 - 2 * k) % 4
    else if depth == 4 then b / Pow2(4 - 4 * k) % 16 else b
  }

  /** Sample `i` of a row: samples are packed from the most significant bit down, and 16-bit samples are big-endian
      (section 7.2 of the PNG specification). Behind the end of the row there are none. */
  function Sample(row: seq<Byte>, depth: nat, i: nat): nat {
    if depth == 16 then
      (if 2 * i + 1 < |row| then row[2 * i] as int * 256 + row[2 * i + 1] else 0)
    else if Quotient(i, PerByte(depth)) < |row| then
      Digit(row[Quotient(i, PerByte(depth))], depth, Remainder(i, PerByte(depth)))
    else 0
  }

  /** Gray samples of fewer than 8 bits are scaled to the full range. */
  function ScaleFor(depth: nat, color: nat): nat {
    if depth >= 8 || color != 0 then 1 else if depth == 1 then 0xff else if depth == 2 then 0x55 else 0x11
  }

  function Opaque(depth: nat): nat {
    if depth == 16 then 0xffff else 0xff
  }

  lemma FullRange(depth: nat, v: nat)
    requires depth == 1 || depth == 2 || depth == 4
    requires v < Pow2(depth)
    ensures v * ScaleFor(depth, 0) <= 255 && (v == Pow2(depth) - 1 ==> v * ScaleFor(depth, 0) == 255)
  {
    assert Pow2(1) == 2 && Pow2(2) == 4 && Pow2(4) == 16;
  }

  // ---------------------------------------------------------------- unpacking

  /** What is left of a byte after `k` of its samples have been shifted out: the next one is on top. */
  function Shifted(b: nat, depth: nat, k: nat): (r: nat)
  {
    b * Pow2(k * depth) % 256
  }

  lemma ShiftedNext(b: nat, depth: nat, k: nat)
    ensures Shifted(b, depth, k) * Pow2(depth) % 256 == Shifted(b, depth, k + 1)
  {
    hide Pow2;
    Distribute(depth, k, 1);
    Pow2Add(k * depth, depth);
    assert (k + 1) * depth == k * depth + depth;
    MulAssoc(b, Pow2(k * depth), Pow2(depth));
    ModTimes(b * Pow2(k * depth), Pow2(depth));
  }

  lemma ModTimes(x: nat, m: nat)
    ensures x % 256 * m % 256 == x * m % 256
  {
    var q, r := Quotient(x, 256), Remainder(x, 256);
    assert x * m == 256 * (q * m) + r * m by {
      MulAssoc(256, q, m);
      Distribute(m, 256 * q, r);
    }
    SameRemainder(q * m, r * m);
  }

  lemma SameRemainder(q: nat, r: nat)
    ensures (256 * q + r) % 256 == r % 256
  {
  }

  /** The sample on top of the shifted byte. */
  lemma ShiftedTop(b: nat, depth: nat, k: nat)
    requires b < 256 && (depth == 1 || depth == 2 || depth == 4) && k < PerByte(depth)
    ensures Shifted(b, depth, k) / Pow2(8 - depth) == Digit(b, depth, k)
  {
    assert Pow2(1) == 2 && Pow2(2) == 4 && Pow2(4) == 16 && Pow2(8) == 256;
    hide Pow2;
    var p, u, r := k * depth, 8 - depth - k * depth, depth;
    Pow2Add(p, u);
    Pow2Add(p + u, r);
    ShiftMask(b, Pow2(p), Pow2(u), Pow2(r));
  }

  /** Value `k` of a row of pixels: the samples one after the other, with an opaque alpha value behind each pixel if
      there is one channel more. */
  function Flat(row: seq<Byte>, depth: nat, color: nat, imgN: nat, outN: nat, k: nat): nat
    requires outN > 0
  {
    if outN == imgN then ScaleFor(depth, color) * Sample(row, depth, k)
    else if k % outN == imgN then Opaque(depth)
    else ScaleFor(depth, color) * Sample(row, depth, imgN * (k / outN) + k % outN)
  }

  lemma InsideRow(i: nat, n: nat, depth: nat, len: nat)
    requires i < n && Depth(depth) && depth <= 8 && n * depth <= 8 * len
    ensures Quotient(i, PerByte(depth)) < len
  {
    if depth == 1 {
    } else if depth == 2 {
    } else if depth == 4 {
    } else {
    }
  }

  lemma NextPlace(i: nat, per: nat)
    requires per > 0
    ensures if Remainder(i, per) + 1 < per then
              Quotient(i + 1, per) == Quotient(i, per) && Remainder(i + 1, per) == Remainder(i, per) + 1
            else Quotient(i + 1, per) == Quotient(i, per) + 1 && Remainder(i + 1, per) == 0
  {
    var q, r := Quotient(i, per), Remainder(i, per);
    if r + 1 < per {
      DivModOf(i + 1, per, q, r + 1);
    } else {
      Distribute(per, q, 1);
      DivModOf(i + 1, per, q + 1, 0);
    }
  }

  /** The byte that holds sample `i`, after the samples in front of it have been shifted out. */
  function Register(row: seq<Byte>, depth: nat, i: nat): nat {
    if Quotient(i, PerByte(depth)) < |row| then Shifted(row[Quotient(i, PerByte(depth))], depth, Remainder(i,
      PerByte(depth)))
    else 0
  }

  /** The sample on top of the register, and the register for the next sample of the same byte. */
  lemma RegisterStep(row: seq<Byte>, depth: nat, i: nat)
    requires (depth == 1 || depth == 2 || depth == 4) && Quotient(i, PerByte(depth)) < |row|
    ensures Register(row, depth, i) / Pow2(8 - depth) == Sample(row, depth, i)
    ensures Remainder(i + 1, PerByte(depth)) != 0 ==>
              Register(row, depth, i + 1) == Register(row, depth, i) * Pow2(depth) % 256
    ensures Remainder(i, PerByte(depth)) == 0 ==> Register(row, depth, i) == row[Quotient(i, PerByte(depth))]
  {
    var per := PerByte(depth);
    hide Pow2, Digit, PerByte;
    NextPlace(i, per);
    ShiftedTop(row[Quotient(i, per)], depth, Remainder(i, per));
    ShiftedNext(row[Quotient(i, per)], depth, Remainder(i, per));
    ShiftedNone(row[Quotient(i, per)], depth);
  }

  lemma ShiftedNone(b: nat, depth: nat)
    requires b < 256
    ensures Shifted(b, depth, 0) == b
  {
    assert 0 * depth == 0;
  }

  /** Unpacks `n` samples of 1, 2 or 4 bits. (The source writes this loop out for each depth.) */
  method ExpandBits(dest: array<int>, row: seq<Byte>, depth: nat, n: nat, scale: nat)
    requires (depth == 1 || depth == 2 || depth == 4) && n * depth <= 8 * |row| && n <= dest.Length
    modifies dest
    ensures forall i :: 0 <= i < n ==> dest[i] == scale * Sample(row, depth, i)
  {
    hide Pow2, Digit, Sample, Register, Shifted, PerByte;
    var at: nat, inb: nat := 0, 0;
    var per := PerByte(depth);
    QuotientZero(per);
    for i := 0 to n
      invariant forall k :: 0 <= k < i ==> dest[k] == scale * Sample(row, depth, k)
      invariant if Remainder(i, per) == 0 then at == Quotient(i, per) else
                  at == Quotient(i, per) + 1 && inb == Register(row, depth, i)
    {
      InsideRow(i, n, depth, |row|);
      RegisterStep(row, depth, i);
      NextPlace(i, per);
      if i % per == 0 {
        inb := row[at];
        at := at + 1;
      }
      dest[i] := scale * (inb / Pow2(8 - depth));
      inb := inb * Pow2(depth) % 256;
    }
  }

  lemma QuotientZero(per: nat)
    requires per > 0
    ensures Quotient(0, per) == 0 && Remainder(0, per) == 0
  {
    DivModOf(0, per, 0, 0);
  }

  /** `stbi__create_png_alpha_expand8` for one channel. Source and destination may be the same array. */
  method AlphaExpand1(dest: array<int>, src: array<int>, x: nat)
    requires x <= src.Length && 2 * x <= dest.Length
    modifies dest
    ensures forall k :: 0 <= k < 2 * x ==> dest[k] == if k % 2 == 1 then 255 else old(src[k / 2])
  {
    var i := x - 1;
    while i >= 0
      invariant -1 <= i < x
      invariant forall k :: 2 * (i + 1) <= k < 2 * x ==> dest[k] == if k % 2 == 1 then 255 else old(src[k / 2])
      invariant forall k :: 0 <= k <= i ==> src[k] == old(src[k])
    {
      dest[i * 2 + 1] := 255;
      dest[i * 2] := src[i];
      i := i - 1;
    }
  }

  /** Pixel `j` has its three channels, and 255 behind them. */
  ghost predicate WithAlpha(dest: seq<int>, src: seq<int>, j: nat)
    requires 4 * j + 4 <= |dest| && 3 * j + 3 <= |src|
  {
    dest[4 * j] == src[3 * j] && dest[4 * j + 1] == src[3 * j + 1] && dest[4 * j + 2] == src[3 * j + 2] &&
    dest[4 * j + 3] == 255
  }

  /** The same for three channels. */
  method AlphaExpand3(dest: array<int>, src: array<int>, x: nat)
    requires 3 * x <= src.Length && 4 * x <= dest.Length
    modifies dest
    ensures forall j :: 0 <= j < x ==> WithAlpha(dest[..], old(src[..]), j)
  {
    ghost var was := src[..];
    var i := x - 1;
    while i >= 0
      invariant -1 <= i < x
      invariant forall j :: i < j < x ==> WithAlpha(dest[..], was, j)
      invariant forall k :: 0 <= k < 3 * (i + 1) ==> src[k] == was[k]
    {
      ghost var before := dest[..];
      dest[i * 4 + 3] := 255;
      dest[i * 4 + 2] := src[i * 3 + 2];
      dest[i * 4 + 1] := src[i * 3 + 1];
      dest[i * 4] := src[i * 3];
      assert WithAlpha(dest[..], was, i);
      KeepsAlpha(before, dest[..], was, i, x);
      i := i - 1;
    }
  }

  /** Later pixels are not touched. */
  lemma KeepsAlpha(before: seq<int>, after: seq<int>, src: seq<int>, i: nat, x: nat)
    requires |before| == |after| >= 4 * x && |src| >= 3 * x && i < x
    requires forall k :: 4 * i + 4 <= k < |before| ==> after[k] == before[k]
    requires forall j :: i < j < x ==> WithAlpha(before, src, j)
    ensures forall j :: i < j < x ==> WithAlpha(after, src, j)
  {
    forall j | i < j < x
      ensures WithAlpha(after, src, j)
    {
      assert WithAlpha(before, src, j);
    }
  }

  /** All values of a row of `x` pixels. */
  ghost predicate Expanded(dest: seq<int>, row: seq<Byte>, x: nat, imgN: nat, outN: nat, depth: nat, color: nat)
    requires outN > 0
  {
    |dest| == x * outN && forall k :: 0 <= k < |dest| ==> dest[k] == Flat(row, depth, color, imgN, outN, k)
  }

  /** Puts 255 behind every pixel, in place or from another array. */
  method AddAlpha(dest: array<int>, src: array<int>, x: nat, imgN: nat, ghost row: seq<Byte>, ghost depth: nat,
                  ghost color: nat)
    requires (imgN == 1 || imgN == 3) && depth <= 8 && imgN * x <= src.Length && dest.Length == (imgN + 1) * x
    requires forall i :: 0 <= i < imgN * x ==> src[i] == ScaleFor(depth, color) * Sample(row, depth, i)
    modifies dest
    ensures Expanded(dest[..], row, x, imgN, imgN + 1, depth, color)
  {
    hide Sample, ScaleFor, Flat;
    if imgN == 1 {
      AlphaExpand1(dest, src, x);
      forall k: nat | k < 2 * x
        ensures dest[k] == Flat(row, depth, color, 1, 2, k)
      {
        FlatOne(row, depth, color, k);
      }
    } else {
      ghost var was := src[..];
      AlphaExpand3(dest, src, x);
      forall k: nat | k < 4 * x
        ensures dest[k] == Flat(row, depth, color, 3, 4, k)
      {
        assert WithAlpha(dest[..], was, k / 4);
        FlatThree(row, depth, color, k);
      }
    }
  }

  lemma FlatOne(row: seq<Byte>, depth: nat, color: nat, k: nat)
    ensures Flat(row, depth, color, 1, 2, k)
         == if k % 2 == 1 then Opaque(depth) else ScaleFor(depth, color) * Sample(row, depth, k / 2)
  {
    hide ScaleFor, Opaque, Sample;
  }

  lemma FlatThree(row: seq<Byte>, depth: nat, color: nat, k: nat)
    ensures Flat(row, depth, color, 3, 4, k)
         == if k % 4 == 3 then Opaque(depth) else ScaleFor(depth, color) * Sample(row, depth, 3 * (k / 4) + k % 4)
  {
    hide ScaleFor, Opaque, Sample;
  }

  method ExpandLow(row: seq<Byte>, x: nat, imgN: nat, outN: nat, depth: nat, color: nat) returns (dest: array<int>)
    requires (depth == 1 || depth == 2 || depth == 4) && Channels(imgN, outN) && x * imgN * depth <= 8 * |row|
    ensures fresh(dest) && Expanded(dest[..], row, x, imgN, outN, depth, color)
  {
    hide Sample, ScaleFor;
    FitsInside(x, imgN, outN);
    dest := new int[x * outN];
    ExpandBits(dest, row, depth, x * imgN, ScaleFor(depth, color));
    if imgN != outN {
      AddAlpha(dest, dest, x, imgN, row, depth, color);
    }
  }

  lemma FitsInside(x: nat, imgN: nat, outN: nat)
    requires Channels(imgN, outN)
    ensures 0 <= x * imgN <= x * outN && x * imgN == imgN * x && x * outN == outN * x
  {
    MulLe(x, x, imgN, outN);
  }

  method ExpandBytes(row: seq<Byte>, x: nat, imgN: nat, outN: nat, color: nat) returns (dest: array<int>)
    requires Channels(imgN, outN) && x * imgN <= |row|
    ensures fresh(dest) && Expanded(dest[..], row, x, imgN, outN, 8, color)
  {
    hide ScaleFor;
    FitsInside(x, imgN, outN);
    ByteSamples(row, color);
    var cur := new int[|row|](i requires 0 <= i < |row| => row[i] as int);
    dest := new int[x * outN];
    if imgN == outN {
      for i := 0 to x * imgN
        invariant forall k :: 0 <= k < i ==> dest[k] == row[k]
      {
        dest[i] := row[i];
      }
    } else {
      AddAlpha(dest, cur, x, imgN, row, 8, color);
    }
  }

  lemma ByteSamples(row: seq<Byte>, color: nat)
    ensures ScaleFor(8, color) == 1 && forall i :: 0 <= i < |row| ==> Sample(row, 8, i) == row[i]
  {
    forall i: nat | i < |row|
      ensures Sample(row, 8, i) == row[i]
    {
      DivModOf(i, 1, i, 0);
    }
  }

  /** Sixteen-bit samples, from big-endian bytes to numbers. */
  method ExpandWords(row: seq<Byte>, x: nat, imgN: nat, outN: nat, color: nat) returns (dest: array<int>)
    requires Channels(imgN, outN) && 2 * (x * imgN) <= |row|
    ensures fresh(dest) && Expanded(dest[..], row, x, imgN, outN, 16, color)
  {
    FitsInside(x, imgN, outN);
    hide Flat, Word, Sample, ScaleFor;
    dest := new int[x * outN];
    if imgN == outN {
      PlainWords(dest, row, x * imgN);
    } else if imgN == 1 {
      GrayWords(dest, row, x);
    } else {
      ColorWords(dest, row, x);
    }
    forall k: nat | k < x * outN
      ensures dest[k] == Flat(row, 16, color, imgN, outN, k)
    {
      FlatWord(row, color, imgN, outN, k);
    }
  }

  lemma FlatWord(row: seq<Byte>, color: nat, imgN: nat, outN: nat, k: nat)
    requires Channels(imgN, outN)
    ensures Flat(row, 16, color, imgN, outN, k)
         == if imgN == outN then Word(row, k)
            else if imgN == 1 then (if k % 2 == 1 then 0xffff else Word(row, k / 2))
            else if k % 4 == 3 then 0xffff else Word(row, 3 * (k / 4) + k % 4)
  {
    if imgN == 1 && outN == 2 {
      FlatOne(row, 16, color, k);
    } else if imgN == 3 && outN == 4 {
      FlatThree(row, 16, color, k);
    }
  }

  method PlainWords(dest: array<int>, row: seq<Byte>, n: nat)
    requires n <= dest.Length && 2 * n <= |row|
    modifies dest
    ensures forall k :: 0 <= k < n ==> dest[k] == Word(row, k)
  {
    for i := 0 to n
      invariant forall k :: 0 <= k < i ==> dest[k] == Word(row, k)
    {
      dest[i] := row[2 * i] as int * 256 + row[2 * i + 1];
    }
  }

  method GrayWords(dest: array<int>, row: seq<Byte>, x: nat)
    requires 2 * x <= dest.Length && 2 * x <= |row|
    modifies dest
    ensures forall k :: 0 <= k < 2 * x ==> dest[k] == if k % 2 == 1 then 0xffff else Word(row, k / 2)
  {
    for i := 0 to x
      invariant forall k :: 0 <= k < 2 * i ==> dest[k] == if k % 2 == 1 then 0xffff else Word(row, k / 2)
    {
      dest[2 * i] := row[2 * i] as int * 256 + row[2 * i + 1];
      dest[2 * i + 1] := 0xffff;
    }
  }

  method ColorWords(dest: array<int>, row: seq<Byte>, x: nat)
    requires 4 * x <= dest.Length && 6 * x <= |row|
    modifies dest
    ensures forall k :: 0 <= k < 4 * x ==> dest[k] == if k % 4 == 3 then 0xffff else Word(row, 3 * (k / 4) + k % 4)
  {
    for i := 0 to x
      invariant forall k :: 0 <= k < 4 * i ==> dest[k] == if k % 4 == 3 then 0xffff else Word(row, 3 * (k / 4) + k % 4)
    {
      dest[4 * i] := row[6 * i] as int * 256 + row[6 * i + 1];
      dest[4 * i + 1] := row[6 * i + 2] as int * 256 + row[6 * i + 3];
      dest[4 * i + 2] := row[6 * i + 4] as int * 256 + row[6 * i + 5];
      dest[4 * i + 3] := 0xffff;
    }
  }

  function Word(row: seq<Byte>, i: nat): nat {
    if 2 * i + 1 < |row| then row[2 * i] as int * 256 + row[2 * i + 1] else 0
  }

  /** The values that go to the image for one reconstructed row. */
  method ExpandRow(row: seq<Byte>, x: nat, imgN: nat, outN: nat, depth: nat, color: nat) returns (dest: array<int>)
    requires Depth(depth) && Channels(imgN, outN) && x * imgN * depth <= 8 * |row|
    ensures fresh(dest) && Expanded(dest[..], row, x, imgN, outN, depth, color)
  {
    hide Expanded;
    if depth < 8 {
      dest := ExpandLow(row, x, imgN, outN, depth, color);
    } else if depth == 8 {
      dest := ExpandBytes(row, x, imgN, outN, color);
    } else {
      dest := ExpandWords(row, x, imgN, outN, color);
    }
  }
}
