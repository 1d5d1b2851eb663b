/** Adam7 interlacing: seven reduced images that together hold every pixel once (section 8.2 of the PNG
    specification). */
module PngInterlace {
  import opened Bytes
  import opened PngImage
  import opened PngPixels
  import opened Powers

  const XORIG: seq<nat> := [0, 4, 0, 2, 0, 1, 0]
  const YORIG: seq<nat> := [0, 0, 4, 0, 2, 0, 1]
  const XSPC: seq<nat> := [8, 8, 4, 4, 2, 2, 1]
  const YSPC: seq<nat> := [8, 8, 8, 4, 4, 2, 2]

  /** The size of pass `p`, in one direction: `orig` and `spc` are its origin and spacing. */
  function PassSize(n: nat, orig: nat, spc: nat): nat
    requires orig < spc
  {
    (n - orig + spc - 1) / spc
  }

  /** The pass that pixel (`px`, `py`) belongs to. */
  function PassOf(px: nat, py: nat): (p: nat)
    ensures p < 7
  {
    if py % 2 == 1 then 6 else if px % 2 == 1 then 5 else if py % 4 == 2 then 4 else if px % 4 == 2 then 3
    else if py % 8 == 4 then 2 else if px % 8 == 4 then 1 else 0
  }

  lemma Tables(p: nat)
    requires p < 7
    ensures |XORIG| == |YORIG| == |XSPC| == |YSPC| == 7
    ensures XORIG[p] < XSPC[p] && YORIG[p] < YSPC[p]
  {
  }

  lemma HalfOf(v: nat, m: nat)
    requires m > 0
    ensures v % (2 * m) == v % m || v % (2 * m) == v % m + m
  {
    var q, r := Quotient(v, 2 * m), Remainder(v, 2 * m);
    MulAssoc(m, 2, q);
    if r < m {
      DivModOf(v, m, 2 * q, r);
    } else {
      Distribute(m, 2 * q, 1);
      DivModOf(v, m, 2 * q + 1, r - m);
    }
  }

  function Choose(spc: nat, m8: nat, m4: nat, m2: nat): nat {
    if spc == 8 then m8 else if spc == 4 then m4 else if spc == 2 then m2 else 0
  }

  function PassFrom(x8: nat, x4: nat, x2: nat, y8: nat, y4: nat, y2: nat): (p: nat)
    ensures p < 7
  {
    if y2 == 1 then 6 else if x2 == 1 then 5 else if y4 == 2 then 4 else if x4 == 2 then 3
    else if y8 == 4 then 2 else if x8 == 4 then 1 else 0
  }

  lemma PassCases(x8: nat, x4: nat, x2: nat, y8: nat, y4: nat, y2: nat, p: nat)
    requires p < 7 && x2 < 2 && y2 < 2 && (x4 == x2 || x4 == x2 + 2) && (y4 == y2 || y4 == y2 + 2)
    requires (x8 == x4 || x8 == x4 + 4) && (y8 == y4 || y8 == y4 + 4)
    ensures PassFrom(x8, x4, x2, y8, y4, y2) == p <==>
              Choose(XSPC[p], x8, x4, x2) == XORIG[p] && Choose(YSPC[p], y8, y4, y2) == YORIG[p]
  {
    if p == 0 {
    } else if p == 1 {
    } else if p == 2 {
    } else if p == 3 {
    } else if p == 4 {
    } else if p == 5 {
    } else {
    }
  }

  lemma ChooseIs(v: nat, spc: nat)
    requires spc == 8 || spc == 4 || spc == 2 || spc == 1
    ensures Choose(spc, v % 8, v % 4, v % 2) == v % spc
  {
  }

  /** A pixel's coordinates fit the grid of its pass and of no other. */
  lemma PassGrid(px: nat, py: nat, p: nat)
    requires p < 7
    ensures XORIG[p] < XSPC[p] && YORIG[p] < YSPC[p]
    ensures PassOf(px, py) == p <==> px % XSPC[p] == XORIG[p] && py % YSPC[p] == YORIG[p]
  {
    Tables(p);
    hide Choose;
    HalfOf(px, 4);
    HalfOf(px, 2);
    HalfOf(py, 4);
    HalfOf(py, 2);
    PassCases(px % 8, px % 4, px % 2, py % 8, py % 4, py % 2, p);
    ChooseIs(px, XSPC[p]);
    ChooseIs(py, YSPC[p]);
  }

  lemma GridPlace(n: nat, v: nat, orig: nat, spc: nat)
    requires orig < spc && v % spc == orig
    ensures v == v / spc * spc + orig && (v < n <==> v / spc < PassSize(n, orig, spc))
  {
    var q := v / spc;
    assert v == spc * q + orig;
    var m: nat := n + spc - 1 - orig;
    var k, r := Quotient(m, spc), Remainder(m, spc);
    if q < k {
      MulLe(spc, spc, q + 1, k);
      Distribute(spc, q, 1);
    } else {
      MulLe(spc, spc, k, q);
    }
  }

  lemma GridIndex(i: nat, orig: nat, spc: nat)
    requires orig < spc
    ensures (i * spc + orig) % spc == orig && (i * spc + orig) / spc == i
  {
    DivModOf(i * spc + orig, spc, i, orig);
  }

  /** Every pixel of the image is in exactly one place of exactly one pass. */
  lemma EveryPixelOnce(w: nat, h: nat, px: nat, py: nat, p: nat, i: nat, j: nat)
    requires px < w && py < h && p < 7
    ensures XORIG[p] < XSPC[p] && YORIG[p] < YSPC[p]
    ensures i * XSPC[p] + XORIG[p] == px && j * YSPC[p] + YORIG[p] == py
       <==> p == PassOf(px, py) && i == px / XSPC[p] && j == py / YSPC[p]
    ensures p == PassOf(px, py) ==>
      px / XSPC[p] < PassSize(w, XORIG[p], XSPC[p]) && py / YSPC[p] < PassSize(h, YORIG[p], YSPC[p])
  {
    Tables(p);
    PassGrid(px, py, p);
    var xo, xs, yo, ys := XORIG[p], XSPC[p], YORIG[p], YSPC[p];
    hide PassSize, PassOf;
    GridIndex(i, xo, xs);
    GridIndex(j, yo, ys);
    if PassOf(px, py) == p {
      GridPlace(w, px, xo, xs);
      GridPlace(h, py, yo, ys);
    }
  }

  /** Every place of every pass is a pixel of the image. */
  lemma EveryPlaceInside(w: nat, h: nat, p: nat, i: nat, j: nat)
    requires p < 7 && XORIG[p] < XSPC[p] && YORIG[p] < YSPC[p]
    requires i < PassSize(w, XORIG[p], XSPC[p]) && j < PassSize(h, YORIG[p], YSPC[p])
    ensures i * XSPC[p] + XORIG[p] < w && j * YSPC[p] + YORIG[p] < h
  {
    hide PassSize;
    GridIndex(i, XORIG[p], XSPC[p]);
    GridIndex(j, YORIG[p], YSPC[p]);
    GridPlace(w, i * XSPC[p] + XORIG[p], XORIG[p], XSPC[p]);
    GridPlace(h, j * YSPC[p] + YORIG[p], YORIG[p], YSPC[p]);
  }

  // ---------------------------------------------------------------- putting the passes together

  /** The index of a pixel in an image of width `w`. */
  function Cell(w: nat, px: nat, py: nat): nat {
    py * w + px
  }

  lemma CellInside(w: nat, h: nat, px: nat, py: nat)
    requires px < w && py < h
    ensures Cell(w, px, py) < w * h
  {
    MulLe(py + 1, h, w, w);
  }

  lemma CellsDiffer(w: nat, px: nat, py: nat, qx: nat, qy: nat)
    requires px < w && qx < w && (px != qx || py != qy)
    ensures Cell(w, px, py) != Cell(w, qx, qy)
  {
    DistributeSub(w, py, qy);
    MultipleIsFar(w, py - qy);
  }

  /** The values of pixel `k`. */
  function Pixel(img: seq<int>, outN: nat, k: nat): seq<int> {
    if (k + 1) * outN <= |img| then img[k * outN..(k + 1) * outN] else []
  }

  lemma {:induction false} ImageSize(data: seq<Byte>, x: nat, n: nat, imgN: nat, outN: nat, depth: nat, color: nat)
    requires Channels(imgN, outN)
    ensures |Image(data, x, n, imgN, outN, depth, color)| == x * n * outN
  {
    hide ImageRow, RowBytes, FilterBytes, Flat;
    if n > 0 {
      ImageSize(data, x, n - 1, imgN, outN, depth, color);
      Distribute(x, n - 1, 1);
      Distribute(outN, x * (n - 1), x);
    }
  }

  /** Pixels of an image are all there. */
  lemma PixelInside(data: seq<Byte>, x: nat, n: nat, imgN: nat, outN: nat, depth: nat, color: nat, i: nat, j: nat)
    requires Channels(imgN, outN) && i < x && j < n
    ensures |Pixel(Image(data, x, n, imgN, outN, depth, color), outN, Cell(x, i, j))| == outN
  {
    hide Cell, Image, Pixel;
    ImageSize(data, x, n, imgN, outN, depth, color);
    CellInside(x, n, i, j);
    PixelSize(Image(data, x, n, imgN, outN, depth, color), outN, Cell(x, i, j), x * n);
  }

  lemma PixelSize(img: seq<int>, outN: nat, k: nat, m: nat)
    requires k < m && |img| == m * outN
    ensures |Pixel(img, outN, k)| == outN
  {
    MulLe(k + 1, m, outN, outN);
    Distribute(outN, k, 1);
  }

  function PassW(w: nat, p: nat): nat
    requires p < 7
  {
    Tables(p);
    PassSize(w, XORIG[p], XSPC[p])
  }

  function PassH(h: nat, p: nat): nat
    requires p < 7
  {
    Tables(p);
    PassSize(h, YORIG[p], YSPC[p])
  }

  /** Column and row of a pixel within its pass. */
  function PassX(px: nat, p: nat): nat
    requires p < 7
  {
    Tables(p);
    px / XSPC[p]
  }

  function PassY(py: nat, p: nat): nat
    requires p < 7
  {
    Tables(p);
    py / YSPC[p]
  }

  /** Pass `p` has been copied up to column `i` of row `j`. */
  ghost predicate Copied(pixels: seq<seq<int>>, before: seq<seq<int>>, img: seq<int>, w: nat, h: nat, p: nat,
                         outN: nat, i: nat, j: nat)
    requires p < 7
  {
    && |pixels| == |before| == w * h
    && forall px, py :: 0 <= px < w && 0 <= py < h ==>
         CopiedAt(pixels, before, img, w, h, p, outN, i, j, px, py)
  }

  ghost predicate CopiedAt(pixels: seq<seq<int>>, before: seq<seq<int>>, img: seq<int>, w: nat, h: nat, p: nat,
                           outN: nat, i: nat, j: nat, px: nat, py: nat)
    requires p < 7
  {
    Cell(w, px, py) < |pixels| == |before| &&
    var x, y := PassX(px, p), PassY(py, p);
    pixels[Cell(w, px, py)] ==
      if PassOf(px, py) == p && (y < j || (y == j && x < i)) then Pixel(img, outN, Cell(PassW(w, p), x, y))
      else before[Cell(w, px, py)]
  }

  /** One more pixel copied. */
  lemma CopyStep(pixels: seq<seq<int>>, before: seq<seq<int>>, img: seq<int>, w: nat, h: nat, p: nat, outN: nat,
                 i: nat, j: nat)
    requires p < 7 && Copied(pixels, before, img, w, h, p, outN, i, j) && i < PassW(w, p) && j < PassH(h, p)
    requires XORIG[p] < XSPC[p] && YORIG[p] < YSPC[p]
    ensures var at := Cell(w, i * XSPC[p] + XORIG[p], j * YSPC[p] + YORIG[p]);
            at < |pixels| &&
            Copied(pixels[at := Pixel(img, outN, Cell(PassW(w, p), i, j))], before, img, w, h, p, outN, i + 1, j)
  {
    EveryPlaceInside(w, h, p, i, j);
    hide Pixel, Cell, PassOf, PassSize;
    var ox, oy := i * XSPC[p] + XORIG[p], j * YSPC[p] + YORIG[p];
    CellInside(w, h, ox, oy);
    var at := Cell(w, ox, oy);
    var pixels' := pixels[at := Pixel(img, outN, Cell(PassW(w, p), i, j))];
    var i' := i + 1;
    forall px: nat, py: nat | px < w && py < h
      ensures CopiedAt(pixels', before, img, w, h, p, outN, i', j, px, py)
    {
      assert CopiedAt(pixels, before, img, w, h, p, outN, i, j, px, py);
      EveryPixelOnce(w, h, px, py, p, i, j);
      if px != ox || py != oy {
        CellsDiffer(w, px, py, ox, oy);
      }
    }
  }

  lemma CopyRow(pixels: seq<seq<int>>, before: seq<seq<int>>, img: seq<int>, w: nat, h: nat, p: nat, outN: nat, j: nat)
    requires p < 7 && Copied(pixels, before, img, w, h, p, outN, PassW(w, p), j)
    ensures Copied(pixels, before, img, w, h, p, outN, 0, j + 1)
  {
    hide Pixel, Cell, PassSize, PassOf;
    var j' := j + 1;
    forall px: nat, py: nat | px < w && py < h
      ensures CopiedAt(pixels, before, img, w, h, p, outN, 0, j', px, py)
    {
      assert CopiedAt(pixels, before, img, w, h, p, outN, PassW(w, p), j, px, py);
      EveryPixelOnce(w, h, px, py, p, 0, 0);
    }
  }

  /** Copies one pass to its places. */
  method CopyPass(pixels: seq<seq<int>>, img: seq<int>, w: nat, h: nat, p: nat, x: nat, y: nat, outN: nat)
    returns (pixels': seq<seq<int>>)
    requires p < 7 && |pixels| == w * h && x == PassW(w, p) && y == PassH(h, p)
    ensures Copied(pixels', pixels, img, w, h, p, outN, 0, y)
  {
    hide Pixel, Cell, PassSize, PassOf, Copied;
    Tables(p);
    pixels' := pixels;
    NothingCopied(pixels, img, w, h, p, outN);
    for j := 0 to y
      invariant Copied(pixels', pixels, img, w, h, p, outN, 0, j)
    {
      for i := 0 to x
        invariant Copied(pixels', pixels, img, w, h, p, outN, i, j)
      {
        CopyStep(pixels', pixels, img, w, h, p, outN, i, j);
        var outY := j * YSPC[p] + YORIG[p];
        var outX := i * XSPC[p] + XORIG[p];
        pixels' := pixels'[Cell(w, outX, outY) := Pixel(img, outN, Cell(x, i, j))];
      }
      CopyRow(pixels', pixels, img, w, h, p, outN, j);
    }
  }

  lemma NothingCopied(pixels: seq<seq<int>>, img: seq<int>, w: nat, h: nat, p: nat, outN: nat)
    requires p < 7 && |pixels| == w * h
    ensures Copied(pixels, pixels, img, w, h, p, outN, 0, 0)
  {
    hide Pixel, Cell, PassSize, PassOf;
    forall px: nat, py: nat | px < w && py < h
      ensures CopiedAt(pixels, pixels, img, w, h, p, outN, 0, 0, px, py)
    {
      CellInside(w, h, px, py);
    }
  }

  // ---------------------------------------------------------------- the whole image

  /** How the samples of an image are laid out. */
  datatype Layout = Layout(w: nat, h: nat, imgN: nat, outN: nat, depth: nat, color: nat)

  ghost predicate Possible(l: Layout) {
    l.w >= 1 && Depth(l.depth) && Channels(l.imgN, l.outN)
  }

  /** Where the data of pass `p` starts: passes without pixels have none. */
  function PassStart(l: Layout, p: nat): nat
    requires p <= 7
  {
    if p == 0 then 0 else PassStart(l, p - 1) + PassBytes(l, p - 1)
  }

  function PassBytes(l: Layout, p: nat): nat
    requires p < 7
  {
    if PassW(l.w, p) == 0 || PassH(l.h, p) == 0 then 0
    else RowStart(RowBytes(PassW(l.w, p), l.imgN, l.depth), PassH(l.h, p))
  }

  function PassData(data: seq<Byte>, l: Layout, p: nat): seq<Byte>
    requires p < 7
  {
    if PassStart(l, p) <= |data| then data[PassStart(l, p)..] else []
  }

  ghost predicate PassLegal(data: seq<Byte>, l: Layout, p: nat)
    requires p < 7
  {
    PassW(l.w, p) == 0 || PassH(l.h, p) == 0 ||
    (SizesValid(PassW(l.w, p), PassH(l.h, p), l.imgN, l.outN, l.depth) &&
     Legal(PassData(data, l, p), RowBytes(PassW(l.w, p), l.imgN, l.depth), PassH(l.h, p)))
  }

  ghost predicate AllLegal(data: seq<Byte>, l: Layout, interlaced: bool) {
    if interlaced then FinalSizeValid(l) && forall p :: 0 <= p < 7 ==> PassLegal(data, l, p)
    else SizesValid(l.w, l.h, l.imgN, l.outN, l.depth) && Legal(data, RowBytes(l.w, l.imgN, l.depth), l.h)
  }

  /** The size of the image that the passes are copied into fits. */
  predicate FinalSizeValid(l: Layout) {
    Mad3SizesValid(l.w, l.h, l.outN * (if l.depth == 16 then 2 else 1), 0)
  }

  /** The image of pass `p`. */
  ghost function PassImage(data: seq<Byte>, l: Layout, p: nat): seq<int>
    requires p < 7 && Channels(l.imgN, l.outN)
  {
    Image(PassData(data, l, p), PassW(l.w, p), PassH(l.h, p), l.imgN, l.outN, l.depth, l.color)
  }

  /** The pixel the specification puts at (`px`, `py`). */
  ghost function PixelOf(data: seq<Byte>, l: Layout, interlaced: bool, px: nat, py: nat): seq<int>
    requires Channels(l.imgN, l.outN)
  {
    if interlaced then
      var p := PassOf(px, py);
      Pixel(PassImage(data, l, p), l.outN, Cell(PassW(l.w, p), PassX(px, p), PassY(py, p)))
    else Pixel(Image(data, l.w, l.h, l.imgN, l.outN, l.depth, l.color), l.outN, Cell(l.w, px, py))
  }

  /** Every pixel of the image has all its values. */
  lemma PixelOfSize(data: seq<Byte>, l: Layout, interlaced: bool, px: nat, py: nat)
    requires Channels(l.imgN, l.outN) && px < l.w && py < l.h
    ensures |PixelOf(data, l, interlaced, px, py)| == l.outN
  {
    hide Image, Pixel, Cell, PassOf, PassData;
    if interlaced {
      var p := PassOf(px, py);
      EveryPixelOnce(l.w, l.h, px, py, p, 0, 0);
      PixelInside(PassData(data, l, p), PassW(l.w, p), PassH(l.h, p), l.imgN, l.outN, l.depth, l.color, PassX(px, p),
        PassY(py, p));
    } else {
      PixelInside(data, l.w, l.h, l.imgN, l.outN, l.depth, l.color, px, py);
    }
  }

  /** Every pixel is in its place. */
  ghost predicate Rendered(pixels: seq<seq<int>>, data: seq<Byte>, l: Layout, interlaced: bool)
    requires Channels(l.imgN, l.outN)
  {
    && |pixels| == l.w * l.h
    && forall px, py :: 0 <= px < l.w && 0 <= py < l.h ==>
         && Cell(l.w, px, py) < |pixels| && |pixels[Cell(l.w, px, py)]| == l.outN
         && pixels[Cell(l.w, px, py)] == PixelOf(data, l, interlaced, px, py)
  }

  /** The pixels of the passes before `p` are in place. */
  ghost predicate PassesDone(pixels: seq<seq<int>>, data: seq<Byte>, l: Layout, p: nat)
    requires Channels(l.imgN, l.outN)
  {
    |pixels| == l.w * l.h && forall px, py :: 0 <= px < l.w && 0 <= py < l.h ==> PixelDone(pixels, data, l, p, px, py)
  }

  ghost predicate PixelDone(pixels: seq<seq<int>>, data: seq<Byte>, l: Layout, p: nat, px: nat, py: nat)
    requires Channels(l.imgN, l.outN)
  {
    Cell(l.w, px, py) < |pixels| && (PassOf(px, py) < p ==> pixels[Cell(l.w, px, py)] == PixelOf(data, l, true, px, py))
  }

  lemma PassAdded(pixels: seq<seq<int>>, pixels': seq<seq<int>>, data: seq<Byte>, l: Layout, p: nat)
    requires p < 7 && Channels(l.imgN, l.outN) && PassesDone(pixels, data, l, p)
    requires if PassW(l.w, p) == 0 || PassH(l.h, p) == 0 then pixels' == pixels
             else Copied(pixels', pixels, PassImage(data, l, p), l.w, l.h, p, l.outN, 0, PassH(l.h, p))
    ensures PassesDone(pixels', data, l, p + 1)
  {
    hide Pixel, Cell, PassOf, PassSize, PassImage;
    var next := p + 1;
    forall px: nat, py: nat | px < l.w && py < l.h
      ensures PixelDone(pixels', data, l, next, px, py)
    {
      assert PixelDone(pixels, data, l, p, px, py);
      EveryPixelOnce(l.w, l.h, px, py, p, 0, 0);
      if PassW(l.w, p) != 0 && PassH(l.h, p) != 0 {
        assert CopiedAt(pixels', pixels, PassImage(data, l, p), l.w, l.h, p, l.outN, 0, PassH(l.h, p), px, py);
      }
    }
  }

  /** `stbi__create_png_image`: succeeds exactly when the data of every pass with pixels is legal, and then every
      pixel is the one the specification puts there. */
  method CreateImage(data: seq<Byte>, l: Layout, interlaced: bool) returns (ok: bool, pixels: seq<seq<int>>)
    requires Possible(l)
    ensures ok <==> AllLegal(data, l, interlaced)
    ensures ok ==> Rendered(pixels, data, l, interlaced)
  {
    hide Pixel, Cell, PassOf, PassSize, PassesDone, PassStart, PassLegal, RowBytes, Legal, Image, Mad3SizesValid,
      SizesValid;
    if !interlaced {
      ok, pixels := CreatePlain(data, l);
      return;
    }
    if !Mad3SizesValid(l.w, l.h, l.outN * (if l.depth == 16 then 2 else 1), 0) {
      return false, [];
    }
    pixels := Blank(l.w * l.h);
    NothingDone(pixels, data, l);
    var at := 0;
    for p := 0 to 7
      invariant at == PassStart(l, p) <= |data| && PassesDone(pixels, data, l, p)
      invariant forall k :: 0 <= k < p ==> PassLegal(data, l, k)
    {
      ok, pixels := DoPass(data, l, p, at, pixels);
      if !ok {
        return;
      }
      at := at + PassBytes(l, p);
      StartNext(l, p);
    }
    AllDone(pixels, data, l);
    return true, pixels;
  }

  /** One pass: its image is decoded from the data that is left, and its pixels are copied. */
  method DoPass(data: seq<Byte>, l: Layout, p: nat, at: nat, pixels: seq<seq<int>>) returns (ok: bool,
                pixels': seq<seq<int>>)
    requires Possible(l) && p < 7 && at == PassStart(l, p) <= |data| && PassesDone(pixels, data, l, p)
    ensures ok <==> PassLegal(data, l, p)
    ensures ok ==> PassesDone(pixels', data, l, p + 1) && at + PassBytes(l, p) <= |data|
  {
    hide Pixel, Cell, PassOf, PassSize, PassStart, RowBytes, Image, PixelDone, Copied, RowStart, SizesValid;
    Tables(p);
    pixels' := pixels;
    var x := PassSize(l.w, XORIG[p], XSPC[p]);
    var y := PassSize(l.h, YORIG[p], YSPC[p]);
    if x != 0 && y != 0 {
      var img;
      ok, img := CreateImageRaw(data[at..], l.outN, x, y, l.imgN, l.depth, l.color);
      if !ok {
        return;
      }
      pixels' := CopyPass(pixels, img, l.w, l.h, p, x, y, l.outN);
    }
    PassAdded(pixels, pixels', data, l, p);
    return true, pixels';
  }

  method CreatePlain(data: seq<Byte>, l: Layout) returns (ok: bool, pixels: seq<seq<int>>)
    requires Possible(l)
    ensures ok <==> AllLegal(data, l, false)
    ensures ok ==> Rendered(pixels, data, l, false)
  {
    hide Pixel, Cell, PassOf, PassSize, RowBytes, Legal, Image, SizesValid;
    var img;
    pixels := [];
    ok, img := CreateImageRaw(data, l.outN, l.w, l.h, l.imgN, l.depth, l.color);
    if ok {
      pixels := PixelsOf(img, l.outN, l.w * l.h);
      forall px: nat, py: nat | px < l.w && py < l.h
        ensures Cell(l.w, px, py) < |pixels| && |pixels[Cell(l.w, px, py)]| == l.outN
        ensures pixels[Cell(l.w, px, py)] == Pixel(img, l.outN, Cell(l.w, px, py))
      {
        CellInside(l.w, l.h, px, py);
        PixelOfSize(data, l, false, px, py);
      }
    }
  }

  function PixelsOf(img: seq<int>, outN: nat, n: nat): (s: seq<seq<int>>)
    ensures |s| == n && forall k :: 0 <= k < n ==> s[k] == Pixel(img, outN, k)
  {
    seq(n, k requires 0 <= k < n => Pixel(img, outN, k))
  }

  function Blank(n: nat): (s: seq<seq<int>>)
    ensures |s| == n
  {
    seq(n, _ => [])
  }

  lemma StartNext(l: Layout, p: nat)
    requires p < 7
    ensures PassStart(l, 0) == 0 && PassStart(l, p + 1) == PassStart(l, p) + PassBytes(l, p)
  {
  }

  lemma NothingDone(pixels: seq<seq<int>>, data: seq<Byte>, l: Layout)
    requires Channels(l.imgN, l.outN) && |pixels| == l.w * l.h
    ensures PassesDone(pixels, data, l, 0) && PassStart(l, 0) == 0
  {
    hide Cell, PassOf, PixelOf;
    forall px: nat, py: nat | px < l.w && py < l.h
      ensures PixelDone(pixels, data, l, 0, px, py)
    {
      CellInside(l.w, l.h, px, py);
    }
  }

  lemma AllDone(pixels: seq<seq<int>>, data: seq<Byte>, l: Layout)
    requires Channels(l.imgN, l.outN) && PassesDone(pixels, data, l, 7)
    ensures Rendered(pixels, data, l, true)
  {
    hide Cell, PassOf, PixelOf;
    forall px: nat, py: nat | px < l.w && py < l.h
      ensures Cell(l.w, px, py) < |pixels| && |pixels[Cell(l.w, px, py)]| == l.outN
      ensures pixels[Cell(l.w, px, py)] == PixelOf(data, l, true, px, py)
    {
      assert PixelDone(pixels, data, l, 7, px, py);
      PixelOfSize(data, l, true, px, py);
    }
  }
}
