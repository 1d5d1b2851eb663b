/** Where the pixels of a GIF image go on the canvas, in the order the codes deliver them. */
module GifRaster {
  import opened Bytes
  import opened GifRows
  import opened Powers

  /** Four bytes: a palette entry, or a pixel of the canvas. */
  datatype Quad = Quad(b0: Byte, b1: Byte, b2: Byte, b3: Byte)

  /** The canvas, and the rectangle on it that the image fills. */
  datatype Geometry = Geometry(canvasW: nat, canvasH: nat, x: nat, y: nat, w: nat, h: nat, interlaced: bool)

  function Area(w: nat, h: nat): nat {
    w * h
  }

  ghost predicate Fits(g: Geometry, size: nat) {
    g.x + g.w <= g.canvasW && g.y + g.h <= g.canvasH && size == Area(g.canvasW, g.canvasH)
  }

  function Count(g: Geometry): nat {
    g.w * g.h
  }

  /** The state of the row order after `k` rows. */
  function RowOf(g: Geometry, k: nat): Row {
    RowAt(Start(g.interlaced), g.h, k)
  }

  /** Rows are left exactly as long as fewer than `h` have been filled. */
  lemma RowOfFacts(g: Geometry, k: nat)
    requires k <= g.h
    ensures Proper(RowOf(g, k)) && (RowOf(g, k).at < g.h <==> k < g.h)
    ensures k < g.h ==> k < |Order(Start(g.interlaced), g.h)| && RowOf(g, k).at == Order(Start(g.interlaced), g.h)[k]
  {
    hide Order, Proper;
    EveryRowOnce(g.interlaced, g.h);
    if g.h > 0 {
      OrderAt(Start(g.interlaced), g.h, k);
    }
  }

  /** Different rows at different times. */
  lemma RowsDiffer(g: Geometry, j: nat, k: nat)
    requires j < g.h && k < g.h && j != k
    ensures RowOf(g, j).at != RowOf(g, k).at
  {
    hide Order, RowAt, Proper;
    EveryRowOnce(g.interlaced, g.h);
    RowOfFacts(g, j);
    RowOfFacts(g, k);
  }

  /** Every row has its time. */
  lemma RowFound(g: Geometry, row: nat) returns (k: nat)
    requires row < g.h
    ensures k < g.h && RowOf(g, k).at == row
  {
    hide Order, RowAt, Proper;
    EveryRowOnce(g.interlaced, g.h);
    var rows := Order(Start(g.interlaced), g.h);
    assert row in rows;
    k :| 0 <= k < |rows| && rows[k] == row;
    RowOfFacts(g, k);
  }

  // ---------------------------------------------------------------- places on the canvas

  /** The canvas pixel in row `row` and column `col` of the image. */
  function PixelAt(g: Geometry, row: nat, col: nat): nat {
    (g.y + row) * g.canvasW + g.x + col
  }

  lemma PixelInside(g: Geometry, size: nat, row: nat, col: nat)
    requires Fits(g, size) && row < g.h && col < g.w
    ensures PixelAt(g, row, col) < size
  {
    MulLe(g.y + row + 1, g.canvasH, g.canvasW, g.canvasW);
  }

  lemma PixelsDiffer(g: Geometry, size: nat, row: nat, col: nat, row': nat, col': nat)
    requires Fits(g, size) && col < g.w && col' < g.w && (row != row' || col != col')
    ensures PixelAt(g, row, col) != PixelAt(g, row', col')
  {
    DistributeSub(g.canvasW, g.y + row, g.y + row');
    MultipleIsFar(g.canvasW, row - row');
  }

  /** The canvas pixel that the `n`-th index goes to. */
  function PlaceOf(g: Geometry, n: nat): nat
    requires g.w > 0
  {
    PixelAt(g, RowOf(g, Quotient(n, g.w)).at, Remainder(n, g.w))
  }

  lemma RowIndex(g: Geometry, n: nat)
    requires n < Count(g)
    ensures g.w > 0 && Quotient(n, g.w) < g.h
  {
    if Quotient(n, g.w) >= g.h {
      MulLe(g.h, Quotient(n, g.w), g.w, g.w);
    }
  }

  lemma PlaceInside(g: Geometry, size: nat, n: nat)
    requires Fits(g, size) && n < Count(g)
    ensures g.w > 0 && PlaceOf(g, n) < size
  {
    RowIndex(g, n);
    hide RowOf;
    RowOfFacts(g, Quotient(n, g.w));
    PixelInside(g, size, RowOf(g, Quotient(n, g.w)).at, Remainder(n, g.w));
  }

  lemma PlacesDiffer(g: Geometry, size: nat, m: nat, n: nat)
    requires Fits(g, size) && m < Count(g) && n < Count(g) && m != n
    ensures g.w > 0 && PlaceOf(g, m) != PlaceOf(g, n)
  {
    hide RowOf, PixelAt;
    RowIndex(g, m);
    RowIndex(g, n);
    var j, k := Quotient(m, g.w), Quotient(n, g.w);
    if j != k {
      RowsDiffer(g, j, k);
    }
    PixelsDiffer(g, size, RowOf(g, j).at, Remainder(m, g.w), RowOf(g, k).at, Remainder(n, g.w));
  }

  // ---------------------------------------------------------------- painting

  /** What a palette entry puts on the canvas; entries that are mostly transparent put nothing. */
  function Blend(was: Quad, c: Quad): Quad {
    if c.b3 > 128 then Quad(c.b2, c.b1, c.b0, c.b3) else was
  }

  /** The canvas after the palette indices `s`; those that are too many go nowhere. */
  function Painted(g: Geometry, canvas: seq<Quad>, table: seq<Quad>, s: seq<Byte>): (r: seq<Quad>)
    requires Fits(g, |canvas|) && |table| == 256
    ensures |r| == |canvas|
  {
    if s == [] then canvas else
      var n := |s| - 1;
      var before := Painted(g, canvas, table, s[..n]);
      if n >= Count(g) then before else
        PlaceInside(g, |canvas|, n);
        before[PlaceOf(g, n) := Blend(before[PlaceOf(g, n)], table[s[n]])]
  }

  /** Which pixels have been visited by the first `n` indices. */
  function Marked(g: Geometry, history: seq<bool>, n: nat): (r: seq<bool>)
    requires Fits(g, |history|)
    ensures |r| == |history|
  {
    if n == 0 then history else
      var before := Marked(g, history, n - 1);
      if n - 1 >= Count(g) then before else
        PlaceInside(g, |history|, n - 1);
        before[PlaceOf(g, n - 1) := true]
  }

  /** The `n`-th index decides the pixel it goes to, and no other index does. */
  lemma {:induction false} PaintedOwn(g: Geometry, canvas: seq<Quad>, table: seq<Quad>, s: seq<Byte>, n: nat)
    requires Fits(g, |canvas|) && |table| == 256 && n < Count(g)
    ensures g.w > 0 && PlaceOf(g, n) < |canvas|
    ensures Painted(g, canvas, table, s)[PlaceOf(g, n)]
         == if n < |s| then Blend(canvas[PlaceOf(g, n)], table[s[n]]) else canvas[PlaceOf(g, n)]
    decreases |s|
  {
    hide PlaceOf, Fits, Count, Blend;
    PlaceInside(g, |canvas|, n);
    if s != [] {
      var m := |s| - 1;
      PaintedOwn(g, canvas, table, s[..m], n);
      if m < Count(g) && m != n {
        PlacesDiffer(g, |canvas|, m, n);
      }
    }
  }

  /** Pixels outside the image's rectangle stay as they are. */
  lemma {:induction false} PaintedOutside(g: Geometry, canvas: seq<Quad>, table: seq<Quad>, s: seq<Byte>, i: nat)
    requires Fits(g, |canvas|) && |table| == 256 && i < |canvas|
    requires forall row, col :: 0 <= row < g.h && 0 <= col < g.w ==> i != PixelAt(g, row, col)
    ensures Painted(g, canvas, table, s)[i] == canvas[i]
    decreases |s|
  {
    hide Fits, Count, Blend, RowOf, PixelAt;
    if s != [] {
      var m := |s| - 1;
      PaintedOutside(g, canvas, table, s[..m], i);
      if m < Count(g) {
        RowIndex(g, m);
        RowOfFacts(g, Quotient(m, g.w));
      }
    }
  }

  /** What the image looks like afterwards: in each row and column what the index that arrives there stands for, row by
      row in the order of the format. */
  lemma PaintedPixel(g: Geometry, canvas: seq<Quad>, table: seq<Quad>, s: seq<Byte>, row: nat,
                     col: nat) returns (n: nat)
    requires Fits(g, |canvas|) && |table| == 256 && row < g.h && col < g.w
    ensures n < Count(g) && PixelAt(g, row, col) < |canvas|
    ensures n == (if g.interlaced then Rank(row, g.h) else row) * g.w + col
    ensures var was, now := canvas[PixelAt(g, row, col)], Painted(g, canvas, table, s)[PixelAt(g, row, col)];
            if n < |s| && table[s[n]].b3 > 128 then
              var c := table[s[n]];
              now == Quad(c.b2, c.b1, c.b0, c.b3)
            else now == was
  {
    hide Painted, Fits, RowOf, Rank;
    var k := RowFound(g, row);
    n := k * g.w + col;
    MulLe(k + 1, g.h, g.w, g.w);
    DivModOf(n, g.w, k, col);
    PaintedOwn(g, canvas, table, s, n);
    if g.interlaced {
      RankOfRow(g, k);
    } else {
      PlainRow(g, k);
    }
  }

  lemma RankOfRow(g: Geometry, k: nat)
    requires g.interlaced && k < g.h
    ensures Rank(RowOf(g, k).at, g.h) == k
  {
    hide Rank, RowAt;
    RowAtRank(g.h, k);
  }

  lemma {:induction false} PlainRow(g: Geometry, k: nat)
    requires !g.interlaced && k < g.h
    ensures RowOf(g, k) == Row(k, 1, 0)
  {
    if k > 0 {
      PlainRow(g, k - 1);
    }
  }
}
