/** GIF colour tables, the transparent index and the background: what colour a pixel gets in terms of the file. */
module GifColors {
  import opened Bytes
  import opened GifLzw
  import opened GifRaster
  import opened GifRows

  // ---------------------------------------------------------------- colour tables

  /** The table entry for the three bytes at `pos`, which are red, green and blue: it is stored in the order blue,
      green, red, alpha. */
  predicate Stores(e: Quad, input: seq<Byte>, pos: nat, alpha: Byte) {
    e.b2 == Get8(input, pos) && e.b1 == Get8(input, pos + 1) && e.b0 == Get8(input, pos + 2) && e.b3 == alpha
  }

  /** The first `n` entries hold the colours from `pos` on; only the transparent one is not opaque. */
  ghost predicate Holds(pal: seq<Quad>, input: seq<Byte>, pos: nat, n: nat, transparent: int) {
    n <= |pal| && forall i :: 0 <= i < n ==> Stores(pal[i], input, pos + 3 * i, if i == transparent then 0 else 255)
  }

  /** `stbi__gif_parse_colortable`. */
  method ParseColorTable(input: seq<Byte>, start: nat, pal: seq<Quad>, n: nat, transparent: int)
    returns (table: seq<Quad>, pos: nat)
    requires n <= |pal| == 256
    ensures |table| == 256 && Holds(table, input, start, n, transparent) && table[n..] == pal[n..]
    ensures pos == start + 3 * n
  {
    table, pos := pal, start;
    for i := 0 to n
      invariant |table| == 256 && pos == start + 3 * i
      invariant Holds(table, input, start, i, transparent) && table[i..] == pal[i..]
    {
      var red, green, blue := Get8(input, pos), Get8(input, pos + 1), Get8(input, pos + 2);
      pos := pos + 3;
      table := table[i := Quad(blue, green, red, if transparent == i then 0 else 255)];
    }
  }

  /** The global table when a graphic control extension comes: the old transparent index becomes opaque again, and the
      new one, if there is one, transparent. */
  method GraphicControl(pal: seq<Quad>, former: int, flags: Byte, index: Byte, ghost file: seq<Byte>,
                        ghost pos: nat, ghost n: nat) returns (table: seq<Quad>, transparent: int)
    requires |pal| == 256 && -1 <= former < 256 && Holds(pal, file, pos, n, former)
    ensures |table| == 256 && Holds(table, file, pos, n, transparent)
    ensures transparent == if flags % 2 == 1 then index as int else -1
  {
    table := pal;
    if former >= 0 {
      table := table[former := table[former].(b3 := 255)];
    }
    if flags % 2 == 1 {
      transparent := index;
      table := table[index := table[index].(b3 := 0)];
    } else {
      transparent := -1;
    }
  }

  // ---------------------------------------------------------------- pixels

  /** The colour of a pixel of the image: red, green and blue of the file's table, opaque; the transparent index leaves
      what was there. */
  lemma PixelColor(g: Geometry, canvas: seq<Quad>, table: seq<Quad>, s: seq<Byte>, row: nat, col: nat,
                   input: seq<Byte>, pos: nat, entries: nat, transparent: int)
    requires Fits(g, |canvas|) && |table| == 256 && row < g.h && col < g.w
    requires Holds(table, input, pos, entries, transparent)
    ensures PixelAt(g, row, col) < |canvas|
    ensures var n := (if g.interlaced then Rank(row, g.h) else row) * g.w + col;
            var was, now := canvas[PixelAt(g, row, col)], Painted(g, canvas, table, s)[PixelAt(g, row, col)];
            && (n >= |s| ==> now == was)
            && (n < |s| && s[n] < entries ==>
                  var i: int := s[n];
                  var at := pos + 3 * i;
                  now == if i == transparent then was
                         else Quad(Get8(input, at), Get8(input, at + 1), Get8(input, at + 2), 255))
  {
    hide Painted, Fits, Rank;
    var n := PaintedPixel(g, canvas, table, s, row, col);
    if n < |s| && s[n] < entries {
      var i: int := s[n];
      assert Stores(table[i], input, pos + 3 * i, if i == transparent then 0 else 255);
    }
  }

  // ---------------------------------------------------------------- the background of the first frame

  /** Pixels of the first frame that nothing was drawn to get the background entry, copied as it is stored. */
  method FillBackground(out: seq<Quad>, history: seq<bool>, pal: seq<Quad>, background: Byte)
    returns (filled: seq<Quad>, table: seq<Quad>)
    requires |history| == |out| && |pal| == 256
    ensures |filled| == |out| && |table| == 256
    ensures forall i :: 0 <= i < |out| ==>
      filled[i] == if history[i] || background == 0 then out[i] else pal[background].(b3 := 255)
    ensures table == if background > 0 && false in history then pal[background := pal[background].(b3 := 255)] else pal
  {
    filled, table := out, pal;
    if background > 0 {
      for i := 0 to |out|
        invariant |filled| == |out| && |table| == 256
        invariant forall k :: i <= k < |out| ==> filled[k] == out[k]
        invariant forall k :: 0 <= k < i ==>
          filled[k] == if history[k] then out[k] else pal[background].(b3 := 255)
        invariant table == if false in history[..i] then pal[background := pal[background].(b3 := 255)] else pal
      {
        assert history[..i + 1] == history[..i] + [history[i]];
        if !history[i] {
          table := table[background := table[background].(b3 := 255)];
          filled := filled[i := table[background]];
        }
      }
      assert history[..|out|] == history;
    }
  }

  /** Drawn pixels are stored red first, but the entry is stored blue first: the background has red and blue exchanged,
      and shows the colour of the file's table if and only if these are equal. */
  lemma BackgroundIsSwapped(e: Quad, input: seq<Byte>, at: nat, alpha: Byte)
    requires Stores(e, input, at, alpha)
    ensures e.(b3 := 255) == Quad(Get8(input, at + 2), Get8(input, at + 1), Get8(input, at), 255)
    ensures e.(b3 := 255) == Quad(Get8(input, at), Get8(input, at + 1), Get8(input, at + 2), 255) <==>
            Get8(input, at) == Get8(input, at + 2)
  {
  }
}
