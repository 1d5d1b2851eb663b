/** A PNG image from its inflated data: rows are unfiltered, expanded to pixels, and put one after the other. */
module PngImage {
  import opened Bytes
  import opened PngFilter
  import opened PngPixels
  import opened Powers

  /** The bytes of a row, without its filter type. */
  function RowBytes(x: nat, imgN: nat, depth: nat): nat {
    (x * imgN * depth + 7) / 8
  }

  /** The distance to the corresponding byte of the pixel to the left. */
  function FilterBytes(imgN: nat, depth: nat): nat {
    if depth < 8 then 1 else if depth == 8 then imgN else 2 * imgN
  }

  lemma RowBytesFacts(x: nat, imgN: nat, depth: nat)
    requires x >= 1 && imgN >= 1 && Depth(depth)
    ensures 0 < FilterBytes(imgN, depth) <= RowBytes(x, imgN, depth)
    ensures x * imgN * depth <= 8 * RowBytes(x, imgN, depth)
  {
    MulLe(1, x, imgN, imgN);
    EnoughBytes(x * imgN, imgN, depth);
  }

  lemma EnoughBytes(m: nat, imgN: nat, depth: nat)
    requires m >= imgN >= 1 && Depth(depth)
    ensures 0 < FilterBytes(imgN, depth) <= (m * depth + 7) / 8
  {
    if depth == 1 {
    } else if depth == 2 {
    } else if depth == 4 {
    } else if depth == 8 {
    } else {
    }
  }

  // ---------------------------------------------------------------- sizes in signed 32-bit integers

  const INT_MAX := 0x7fff_ffff

  /** `stbi__addsizes_valid`. */
  predicate AddSizesValid(a: nat, b: nat) {
    b <= INT_MAX && a <= INT_MAX - b
  }

  /** `stbi__mul2sizes_valid`; numbers that do not fit count as negative. */
  predicate Mul2SizesValid(a: nat, b: nat) {
    a <= INT_MAX && b <= INT_MAX && (b == 0 || a <= INT_MAX / b)
  }

  predicate Mad2SizesValid(a: nat, b: nat, add: nat) {
    Mul2SizesValid(a, b) && AddSizesValid(a * b, add)
  }

  predicate Mad3SizesValid(a: nat, b: nat, c: nat, add: nat) {
    Mul2SizesValid(a, b) && Mul2SizesValid(a * b, c) && AddSizesValid(a * b * c, add)
  }

  /** The size tests of one image: its output, a row, all its data, and the buffer for two rows. */
  predicate SizesValid(x: nat, y: nat, imgN: nat, outN: nat, depth: nat) {
    var w := RowBytes(x, imgN, depth);
    && Mad3SizesValid(x, y, outN * (if depth == 16 then 2 else 1), 0) && Mad3SizesValid(imgN, x, depth, 7)
    && Mad2SizesValid(w, y, w) && Mad2SizesValid(w, 2, 0)
  }

  /** Dividing instead of multiplying detects exactly the products that do not fit. */
  lemma Mul2SizesValidIs(a: nat, b: nat)
    ensures Mul2SizesValid(a, b) <==> a < 0x8000_0000 && b < 0x8000_0000 && a * b < 0x8000_0000
  {
    if b > 0 {
      var q := Quotient(INT_MAX, b);
      if a <= q {
        MulLe(a, q, b, b);
      } else {
        MulLe(q + 1, a, b, b);
        Distribute(b, q, 1);
      }
    }
  }

  /** An image passes the tests exactly when its output, the bits of a row rounded up, and its data with one more row
      all have sizes that fit. */
  lemma SizesValidIs(x: nat, y: nat, imgN: nat, outN: nat, depth: nat)
    requires x >= 1 && y >= 1 && Depth(depth) && Channels(imgN, outN)
    ensures var w, outBytes := RowBytes(x, imgN, depth), outN * (if depth == 16 then 2 else 1);
            SizesValid(x, y, imgN, outN, depth) <==>
              x * y * outBytes < 0x8000_0000 && imgN * x * depth + 7 < 0x8000_0000 && w * y + w < 0x8000_0000
  {
    hide RowBytes, Mul2SizesValid;
    var w, outBytes: nat := RowBytes(x, imgN, depth), outN * (if depth == 16 then 2 else 1);
    Mul2SizesValidIs(x, y);
    Mul2SizesValidIs(x * y, outBytes);
    Mul2SizesValidIs(imgN, x);
    Mul2SizesValidIs(imgN * x, depth);
    Mul2SizesValidIs(w, y);
    Mul2SizesValidIs(w, 2);
    Factors(x, y);
    Factors(x * y, outBytes);
    Factors(imgN, x);
    Factors(imgN * x, depth);
    Factors(w, y);
  }

  lemma Factors(a: nat, b: nat)
    ensures a >= 1 && b >= 1 ==> a <= a * b && b <= a * b
    ensures b >= 1 ==> a <= a * b
  {
    if b >= 1 {
      MulLe(a, a, 1, b);
    }
    if a >= 1 {
      MulLe(1, a, b, b);
    }
  }

  /** Where row `j` starts: every row has its filter type in front. */
  function RowStart(w: nat, j: nat): nat {
    j * (w + 1)
  }

  lemma RowStartNext(w: nat, j: nat, n: nat)
    ensures RowStart(w, j + 1) == RowStart(w, j) + w + 1
    ensures j <= n ==> RowStart(w, j) <= RowStart(w, n)
  {
    Distribute(w + 1, j, 1);
    if j <= n {
      MulLe(j, n, w + 1, w + 1);
    }
  }

  /** There are `n` rows, all with filter types that exist. */
  ghost predicate Legal(data: seq<Byte>, w: nat, n: nat) {
    RowStart(w, n) <= |data| && forall j :: 0 <= j < n ==> FilterAt(data, w, j) <= 4
  }

  function FilterAt(data: seq<Byte>, w: nat, j: nat): nat {
    if RowStart(w, j) < |data| then data[RowStart(w, j)] else 0
  }

  function RawRow(data: seq<Byte>, w: nat, j: nat): (raw: seq<Byte>)
    ensures |raw| == w
  {
    if RowStart(w, j) + 1 + w <= |data| then data[RowStart(w, j) + 1..RowStart(w, j) + 1 + w] else Zeros(w)
  }

  /** The row above row `j`; above the first row there are zeros. */
  function Above(data: seq<Byte>, w: nat, bpp: nat, j: nat): (row: seq<Byte>)
    ensures |row| == w
    decreases j, 0
  {
    if j == 0 then Zeros(w) else ImageRow(data, w, bpp, j - 1)
  }

  /** Row `j`, reconstructed as sections 9.2 and 9.4 of the PNG specification say. */
  function ImageRow(data: seq<Byte>, w: nat, bpp: nat, j: nat): (row: seq<Byte>)
    ensures |row| == w
    decreases j, 1
  {
    ReconRow(FilterAt(data, w, j), RawRow(data, w, j), Above(data, w, bpp, j), bpp, w)
  }

  /** The values of one row of pixels. */
  ghost function RowValues(row: seq<Byte>, x: nat, imgN: nat, outN: nat, depth: nat, color: nat): (s: seq<int>)
    requires Channels(imgN, outN)
    ensures Expanded(s, row, x, imgN, outN, depth, color)
  {
    FitsInside(x, imgN, outN);
    seq(x * outN, k requires 0 <= k < x * outN => Flat(row, depth, color, imgN, outN, k))
  }

  lemma ExpandedIs(s: seq<int>, row: seq<Byte>, x: nat, imgN: nat, outN: nat, depth: nat, color: nat)
    requires Channels(imgN, outN) && Expanded(s, row, x, imgN, outN, depth, color)
    ensures s == RowValues(row, x, imgN, outN, depth, color)
  {
    hide Flat;
  }

  /** The values of the first `n` rows. */
  ghost function Image(data: seq<Byte>, x: nat, n: nat, imgN: nat, outN: nat, depth: nat, color: nat): (s: seq<int>)
    requires Channels(imgN, outN)
  {
    if n == 0 then [] else
      var row := ImageRow(data, RowBytes(x, imgN, depth), FilterBytes(imgN, depth), n - 1);
      Image(data, x, n - 1, imgN, outN, depth, color) + RowValues(row, x, imgN, outN, depth, color)
  }

  lemma AlternatingBuffers(j: nat, w: nat)
    ensures var cur, prior := j % 2 * w, (j + 1) % 2 * w;
            0 <= cur && 0 <= prior && cur + w <= 2 * w && prior + w <= 2 * w &&
            (prior + w <= cur || cur + w <= prior) &&
            (j + 2) % 2 * w == cur
  {
    if j % 2 == 0 {
    } else {
    }
  }

  /** `stbi__create_png_image_raw`: succeeds exactly when all sizes fit, there is enough data and all filter types
      exist, and then yields the image the specification defines. */
  method CreateImageRaw(data: seq<Byte>, outN: nat, x: nat, y: nat, imgN: nat, depth: nat, color: nat)
    returns (ok: bool, out: seq<int>)
    requires x >= 1 && Depth(depth) && Channels(imgN, outN)
    ensures ok <==> SizesValid(x, y, imgN, outN, depth) && Legal(data, RowBytes(x, imgN, depth), y)
    ensures ok ==> out == Image(data, x, y, imgN, outN, depth, color)
  {
    hide RowBytes, FilterBytes, RowStart, ReconRow, Zeros, Flat, Expanded, ImageRow, Above, HoldsRow, Legal, Image,
      FilterAt, RowValues, Mad2SizesValid, Mad3SizesValid;
    out := [];
    ImageNext(data, x, 0, imgN, outN, depth, color);
    if !Mad3SizesValid(x, y, outN * (if depth == 16 then 2 else 1), 0) || !Mad3SizesValid(imgN, x, depth, 7) {
      return false, out;
    }
    var w, bpp := RowBytes(x, imgN, depth), FilterBytes(imgN, depth);
    if !Mad2SizesValid(w, y, w) || !Mad2SizesValid(w, 2, 0) {
      return false, out;
    }
    RowStartZero(data, w, y);
    if |data| < RowStart(w, y) {
      return false, out;
    }
    RowBytesFacts(x, imgN, depth);
    var buf := new Byte[2 * w];
    var at := 0;
    for j := 0 to y
      invariant at == RowStart(w, j) && Legal(data, w, j) && out == Image(data, x, j, imgN, outN, depth, color)
      invariant j > 0 ==> HoldsRow(buf[..], (j + 1) % 2 * w, Above(data, w, bpp, j))
    {
      var row, values;
      row, values := ReadRow(data, buf, at, j, w, bpp, x, imgN, outN, depth, color, y);
      RowStartNext(w, j, y);
      LegalNext(data, w, j, y);
      if !row {
        return false, out;
      }
      ImageNext(data, x, j, imgN, outN, depth, color);
      out := out + values;
      at := at + 1 + w;
    }
    return true, out;
  }

  lemma RowStartZero(data: seq<Byte>, w: nat, y: nat)
    ensures RowStart(w, 0) == 0 && Legal(data, w, 0)
    ensures |data| < RowStart(w, y) ==> !Legal(data, w, y)
  {
  }

  lemma LegalNext(data: seq<Byte>, w: nat, j: nat, y: nat)
    requires Legal(data, w, j) && j < y && RowStart(w, y) <= |data|
    ensures FilterAt(data, w, j) <= 4 ==> Legal(data, w, j + 1)
    ensures FilterAt(data, w, j) > 4 ==> !Legal(data, w, y)
  {
    hide RowStart, FilterAt;
    RowStartNext(w, j + 1, y);
  }

  lemma ImageNext(data: seq<Byte>, x: nat, n: nat, imgN: nat, outN: nat, depth: nat, color: nat)
    requires Channels(imgN, outN)
    ensures Image(data, x, 0, imgN, outN, depth, color) == []
    ensures var row := ImageRow(data, RowBytes(x, imgN, depth), FilterBytes(imgN, depth), n);
            Image(data, x, n + 1, imgN, outN, depth, color) ==
            Image(data, x, n, imgN, outN, depth, color) + RowValues(row, x, imgN, outN, depth, color)
  {
    hide ImageRow, RowBytes, FilterBytes, RowValues;
  }

  /** One row: its filter type, its bytes, and the values it expands to. */
  method ReadRow(data: seq<Byte>, buf: array<Byte>, at: nat, j: nat, w: nat, bpp: nat, x: nat, imgN: nat, outN: nat,
                 depth: nat, color: nat, ghost y: nat) returns (ok: bool, values: seq<int>)
    requires x >= 1 && Depth(depth) && Channels(imgN, outN) && w == RowBytes(x, imgN, depth)
    requires bpp == FilterBytes(imgN, depth)
    requires buf.Length == 2 * w && j < y && at == RowStart(w, j) && RowStart(w, y) <= |data|
    requires j > 0 ==> HoldsRow(buf[..], (j + 1) % 2 * w, Above(data, w, bpp, j))
    modifies buf
    ensures ok <==> FilterAt(data, w, j) <= 4
    ensures ok ==> HoldsRow(buf[..], (j + 2) % 2 * w, Above(data, w, bpp, j + 1))
    ensures ok ==> values == RowValues(ImageRow(data, w, bpp, j), x, imgN, outN, depth, color)
  {
    hide RowBytes, FilterBytes, RowStart, ReconRow, Zeros, Flat, Expanded, HasAbove, ImageRow, Above, HoldsRow;
    RowBytesFacts(x, imgN, depth);
    values := [];
    AlternatingBuffers(j, w);
    var cur: nat, prior: nat := j % 2 * w, (j + 1) % 2 * w;
    RowStartNext(w, j, y);
    RowStartNext(w, j + 1, y);
    var filter: nat := data[at];
    if filter > 4 {
      return false, values;
    }
    var raw := data[at + 1..at + 1 + w];
    DoRow(buf, cur, prior, raw, bpp, filter, j, data, w);
    var dest := ExpandRow(buf[cur..cur + w], x, imgN, outN, depth, color);
    ExpandedIs(dest[..], buf[cur..cur + w], x, imgN, outN, depth, color);
    return true, dest[..];
  }

  ghost predicate HoldsRow(buf: seq<Byte>, at: int, row: seq<Byte>) {
    0 <= at && at + |row| <= |buf| && buf[at..at + |row|] == row
  }

  /** Unfilters row `j` into the current half of the buffer. */
  method DoRow(buf: array<Byte>, cur: nat, prior: nat, raw: seq<Byte>, bpp: nat, filter: nat, j: nat,
               ghost data: seq<Byte>, ghost w: nat)
    requires buf.Length == 2 * w && cur + w <= 2 * w && prior + w <= 2 * w && (prior + w <= cur || cur + w <= prior)
    requires 0 < bpp <= w && filter == FilterAt(data, w, j) <= 4 && raw == RawRow(data, w, j)
    requires j > 0 ==> HoldsRow(buf[..], prior, Above(data, w, bpp, j))
    modifies buf
    ensures HoldsRow(buf[..], cur, Above(data, w, bpp, j + 1)) && buf[cur..cur + w] == ImageRow(data, w, bpp, j)
  {
    hide ReconRow, Zeros, FilterAt, RawRow;
    ghost var above := Above(data, w, bpp, j);
    if j > 0 {
      RowIsAbove(buf[..], prior, cur, above);
    }
    UnfilterRow(buf, cur, prior, raw, bpp, filter, j == 0, above);
  }

  lemma RowIsAbove(buf: seq<Byte>, prior: nat, cur: nat, above: seq<Byte>)
    requires HoldsRow(buf, prior, above) && (prior + |above| <= cur || cur + |above| <= prior)
    ensures HasAbove(buf, prior, cur, above)
  {
    var row := buf[prior..prior + |above|];
    assert forall i :: prior <= i < prior + |above| ==> buf[i] == row[i - prior];
  }
}
