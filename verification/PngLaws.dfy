/** What PNG's unfiltering and interlacing compute, stated without their parts: unfiltering undoes filtering, the
    pattern of the passes, the sizes of rows and passes, and an image given byte by byte. */
module PngLaws {
  import opened Bytes
  import opened PngFilter
  import opened PngImage
  import opened PngInterlace
  import opened PngPixels
  import opened Powers

  // ---------------------------------------------------------------- filtering

  /** The Paeth predictor is the neighbour closest to left plus above minus upper left; of equally close ones, the left
      one goes first and the one above second. */
  lemma PaethIsClosest(a: int, b: int, c: int)
    ensures var p := a + b - c;
            var r := PaethPredictor(a, b, c);
            && (r == a || r == b || r == c)
            && Abs(p - r) <= Abs(p - a) && Abs(p - r) <= Abs(p - b) && Abs(p - r) <= Abs(p - c)
            && (Abs(p - a) == Abs(p - r) ==> r == a)
            && (Abs(p - a) > Abs(p - r) == Abs(p - b) ==> r == b)
  {
  }

  /** The byte a filter leaves of byte `x` with neighbours `a` to the left, `b` above and `c` to the upper left (section
      9.2 of the PNG specification). */
  function FilteredByte(filter: nat, x: Byte, a: Byte, b: Byte, c: Byte): Byte {
    var left: int, up: int, both: int := x - a, x - b, a as int + b;
    match filter
    case 0 => x
    case 1 => left % 256
    case 2 => up % 256
    case 3 => (x - both / 2) % 256
    case _ => (x - PaethPredictor(a, b, c)) % 256
  }

  function FilteredRow(filter: nat, row: seq<Byte>, above: seq<Byte>, bpp: nat): (s: seq<Byte>)
    requires |above| == |row| && bpp > 0
    ensures |s| == |row|
  {
    seq(|row|, k requires 0 <= k < |row| && |above| == |row| =>
      FilteredByte(filter, row[k], if k < bpp then 0 else row[k - bpp], above[k],
                   if k < bpp then 0 else above[k - bpp]))
  }

  lemma ByteRestored(filter: nat, x: Byte, a: Byte, b: Byte, c: Byte)
    ensures Recon(filter, FilteredByte(filter, x, a, b, c), a, b, c) == x
  {
    hide PaethPredictor;
    Undone(x, a);
    Undone(x, b);
    Undone(x, (a as int + b) / 2);
    Undone(x, PaethPredictor(a, b, c));
  }

  lemma Undone(x: Byte, d: int)
    ensures ((x - d) % 256 + d) % 256 == x
  {
  }

  /** Unfiltering gives back the row. */
  lemma {:induction false} RowRestored(filter: nat, row: seq<Byte>, above: seq<Byte>, bpp: nat, n: nat)
    requires |above| == |row| && bpp > 0 && n <= |row|
    ensures ReconRow(filter, FilteredRow(filter, row, above, bpp), above, bpp, n) == row[..n]
  {
    if n > 0 {
      hide Recon, FilteredByte;
      RowRestored(filter, row, above, bpp, n - 1);
      var k := n - 1;
      ByteRestored(filter, row[k], if k < bpp then 0 else row[k - bpp], above[k],
                   if k < bpp then 0 else above[k - bpp]);
      assert row[..n] == row[..k] + [row[k]];
    }
  }

  // ---------------------------------------------------------------- sizes

  /** Rows are padded to whole bytes. */
  lemma RowBytesIs(x: nat, imgN: nat, depth: nat)
    ensures x * imgN * depth <= 8 * RowBytes(x, imgN, depth) < x * imgN * depth + 8
  {
  }

  /** Filters work on whole pixels, or on bytes if pixels are smaller. */
  lemma FilterBytesIs(imgN: nat, depth: nat)
    requires 1 <= imgN <= 4 && Depth(depth) && (depth < 8 ==> imgN == 1)
    ensures imgN * depth <= 8 * FilterBytes(imgN, depth) < imgN * depth + 8
  {
  }

  // ---------------------------------------------------------------- interlacing

  /** The pattern of section 8.2 of the PNG specification: which pass each pixel of an eight by eight tile is in. */
  const PATTERN: seq<seq<nat>> := [
    [1, 6, 4, 6, 2, 6, 4, 6],
    [7, 7, 7, 7, 7, 7, 7, 7],
    [5, 6, 5, 6, 5, 6, 5, 6],
    [7, 7, 7, 7, 7, 7, 7, 7],
    [3, 6, 4, 6, 3, 6, 4, 6],
    [7, 7, 7, 7, 7, 7, 7, 7],
    [5, 6, 5, 6, 5, 6, 5, 6],
    [7, 7, 7, 7, 7, 7, 7, 7]]

  lemma PassIsPattern(px: nat, py: nat)
    ensures PassOf(px, py) + 1 == PATTERN[py % 8][px % 8]
  {
    PassRepeats(px, py);
    hide PassOf;
    RowOfPattern(px % 8, py % 8);
  }

  lemma PassRepeats(px: nat, py: nat)
    ensures PassOf(px, py) == PassOf(px % 8, py % 8)
  {
    HalfOf(px, 8);
    HalfOf(px, 4);
    HalfOf(py, 8);
    HalfOf(py, 4);
  }

  lemma RowOfPattern(x: nat, y: nat)
    requires x < 8 && y < 8
    ensures PassOf(x, y) + 1 == PATTERN[y][x]
  {
    if y % 2 == 1 {
      assert PATTERN[y] == [7, 7, 7, 7, 7, 7, 7, 7];
    } else if y % 4 == 2 {
      assert PATTERN[y] == [5, 6, 5, 6, 5, 6, 5, 6];
    } else if y == 4 {
    } else {
    }
  }

  /** An interlaced grey image of eight by eight bytes: passes of one, one, two, four, eight, sixteen and 32 pixels,
      each row with its filter byte, in this order. */
  lemma EightByEight(l: Layout)
    requires l.w == 8 && l.h == 8 && l.imgN == 1 && l.depth == 8
    ensures PassStart(l, 1) == 2 && PassStart(l, 2) == 4 && PassStart(l, 3) == 7 && PassStart(l, 4) == 13
    ensures PassStart(l, 5) == 23 && PassStart(l, 6) == 43 && PassStart(l, 7) == 79
  {
  }

  // ---------------------------------------------------------------- images

  /** Two rows of two pixels of red, green and blue; the first row holds differences to the left, the second one to the
      row above. */
  const EXAMPLE: seq<Byte> := [1, 10, 20, 30, 5, 5, 5, 2, 1, 1, 1, 2, 2, 2]

  const TOP: seq<Byte> := [10, 20, 30, 15, 25, 35]
  const BELOW: seq<Byte> := [11, 21, 31, 17, 27, 37]

  lemma ExampleTop()
    ensures ReconRow(1, [10, 20, 30, 5, 5, 5], Zeros(6), 3, 6) == TOP
  {
    RowRestored(1, TOP, Zeros(6), 3, 6);
    hide ReconRow;
    assert FilteredRow(1, TOP, Zeros(6), 3) == [10, 20, 30, 5, 5, 5];
    assert TOP[..6] == TOP;
  }

  lemma ExampleBelow()
    ensures ReconRow(2, [1, 1, 1, 2, 2, 2], TOP, 3, 6) == BELOW
  {
    RowRestored(2, BELOW, TOP, 3, 6);
    hide ReconRow;
    assert FilteredRow(2, BELOW, TOP, 3) == [1, 1, 1, 2, 2, 2];
    assert BELOW[..6] == BELOW;
  }

  lemma ExampleRaw()
    ensures FilterAt(EXAMPLE, 6, 0) == 1 && RawRow(EXAMPLE, 6, 0) == [10, 20, 30, 5, 5, 5]
    ensures FilterAt(EXAMPLE, 6, 1) == 2 && RawRow(EXAMPLE, 6, 1) == [1, 1, 1, 2, 2, 2] && RowStart(6, 2) == 14
  {
  }

  lemma ExampleRows()
    ensures Legal(EXAMPLE, 6, 2) && ImageRow(EXAMPLE, 6, 3, 0) == TOP && ImageRow(EXAMPLE, 6, 3, 1) == BELOW
  {
    ExampleRaw();
    ExampleTop();
    ExampleBelow();
    hide FilterAt, RawRow, ReconRow, RowStart;
  }

  /** With alpha added. */
  lemma ExampleImage()
    ensures Image(EXAMPLE, 2, 2, 3, 4, 8, 2)
         == [10, 20, 30, 255, 15, 25, 35, 255, 11, 21, 31, 255, 17, 27, 37, 255]
  {
    ExampleRows();
    assert RowBytes(2, 3, 8) == 6 && FilterBytes(3, 8) == 3;
    hide ImageRow, FilterBytes, RowBytes, RowValues;
    ColorRow(TOP);
    ColorRow(BELOW);
    assert Image(EXAMPLE, 2, 0, 3, 4, 8, 2) == [];
    assert Image(EXAMPLE, 2, 1, 3, 4, 8, 2) == [] + RowValues(TOP, 2, 3, 4, 8, 2);
  }

  lemma ColorRow(row: seq<Byte>)
    requires |row| == 6
    ensures RowValues(row, 2, 3, 4, 8, 2) == [row[0], row[1], row[2], 255, row[3], row[4], row[5], 255]
  {
    assert Quotient(0, 1) == 0 && Quotient(1, 1) == 1 && Quotient(2, 1) == 2;
    assert Quotient(3, 1) == 3 && Quotient(4, 1) == 4 && Quotient(5, 1) == 5;
    var s: seq<int> := [row[0], row[1], row[2], 255, row[3], row[4], row[5], 255];
    forall k | 0 <= k < 8
      ensures Flat(row, 8, 2, 3, 4, k) == s[k]
    {
    }
    hide Flat;
  }

  /** Packed bits, scaled to the full range, and a word with alpha added. */
  lemma ExampleSamples()
    ensures RowValues([0x1b], 4, 1, 1, 2, 0) == [0, 85, 170, 255]
    ensures RowValues([0x4f], 2, 1, 1, 4, 3) == [4, 15]
    ensures RowValues([1, 2], 1, 1, 2, 16, 0) == [258, 65535]
  {
    ExamplePairs();
    ExampleNibbles();
    ExampleWord();
    hide Flat;
  }

  lemma ExamplePairs()
    ensures Flat([0x1b], 2, 0, 1, 1, 0) == 0 && Flat([0x1b], 2, 0, 1, 1, 1) == 85
    ensures Flat([0x1b], 2, 0, 1, 1, 2) == 170 && Flat([0x1b], 2, 0, 1, 1, 3) == 255
  {
    assert Quotient(0, 4) == 0 && Quotient(1, 4) == 0 && Quotient(2, 4) == 0 && Quotient(3, 4) == 0;
    assert Pow2(6) == 64 && Pow2(4) == 16 && Pow2(2) == 4 && Pow2(0) == 1;
    hide Pow2, Quotient;
  }

  lemma ExampleNibbles()
    ensures Flat([0x4f], 4, 3, 1, 1, 0) == 4 && Flat([0x4f], 4, 3, 1, 1, 1) == 15
  {
    assert Quotient(0, 2) == 0 && Quotient(1, 2) == 0 && Remainder(0, 2) == 0 && Remainder(1, 2) == 1;
    assert Pow2(4) == 16 && Pow2(0) == 1;
    hide Pow2, Quotient, Remainder;
    assert Sample([0x4f], 4, 0) == 4 && Sample([0x4f], 4, 1) == 15;
    hide Sample;
  }

  lemma ExampleWord()
    ensures Flat([1, 2], 16, 0, 1, 2, 0) == 258 && Flat([1, 2], 16, 0, 1, 2, 1) == 65535
  {
  }
}
