/** Undoing PNG's scanline filters with two alternating row buffers. */
module PngFilter {
  import opened Bytes

  // ---------------------------------------------------------------- the standard

  function Abs(x: int): nat {
    if x < 0 then -x else x
  }

  /** The Paeth predictor of section 9.4 of the PNG specification. */
  function PaethPredictor(a: int, b: int, c: int): int {
    var p := a + b - c;
    if Abs(p - a) <= Abs(p - b) && Abs(p - a) <= Abs(p - c) then a else if Abs(p - b) <= Abs(p - c) then b else c
  }

  /** One byte `x` reconstructed from its neighbours to the left, above, and above left (section 9.2). */
  function Recon(filter: nat, x: int, a: int, b: int, c: int): Byte {
    match filter
    case 0 => x % 256
    case 1 => (x + a) % 256
    case 2 => (x + b) % 256
    case 3 => (x + (a + b) / 2) % 256
    case _ => (x + PaethPredictor(a, b, c)) % 256
  }

  /** The byte `bpp` places before place `k`, or zero. */
  function Left(row: seq<Byte>, k: nat, bpp: nat): Byte {
    if bpp <= k < |row| + bpp then row[k - bpp] else 0
  }

  /** The first `n` bytes of a reconstructed row. */
  function ReconRow(filter: nat, raw: seq<Byte>, above: seq<Byte>, bpp: nat, n: nat): (row: seq<Byte>)
    requires n <= |raw| == |above|
    ensures |row| == n
  {
    if n == 0 then [] else
      var before := ReconRow(filter, raw, above, bpp, n - 1);
      before + [Recon(filter, raw[n - 1], Left(before, n - 1, bpp), above[n - 1], Left(above, n - 1, bpp))]
  }

  // ---------------------------------------------------------------- the predictor, reformulated

  /** `stbi__paeth`. */
  function StbPaeth(a: int, b: int, c: int): int {
    var thresh := c * 3 - (a + b);
    var lo := if a < b then a else b;
    var hi := if a < b then b else a;
    var t0 := if hi <= thresh then lo else c;
    if thresh <= lo then hi else t0
  }

  /** The reformulation computes the same. */
  lemma PaethAgrees(a: int, b: int, c: int)
    ensures StbPaeth(a, b, c) == PaethPredictor(a, b, c)
  {
    var p := a + b - c;
    assert p - a == b - c && p - b == a - c && p - c == a + b - 2 * c;
  }

  /** In the first row, and in the first pixel of a row, the predictor falls back to the one neighbour there is. */
  lemma PaethAtEdge(a: int)
    ensures PaethPredictor(a, 0, 0) == a && PaethPredictor(0, a, 0) == a
  {
  }

  // ---------------------------------------------------------------- one row

  /** The first `k` bytes of the row are reconstructed at `cur`. */
  ghost predicate RowDone(buf: seq<Byte>, cur: nat, filter: nat, raw: seq<Byte>, above: seq<Byte>, bpp: nat, k: nat)
    requires k <= |raw| == |above|
  {
    cur + |raw| <= |buf| && buf[cur..cur + k] == ReconRow(filter, raw, above, bpp, k)
  }

  lemma RowStep(buf: seq<Byte>, cur: nat, filter: nat, raw: seq<Byte>, above: seq<Byte>, bpp: nat, k: nat, v: Byte)
    requires k < |raw| == |above| && bpp > 0 && RowDone(buf, cur, filter, raw, above, bpp, k)
    requires v == Recon(filter, raw[k], if k >= bpp then buf[cur + k - bpp] else 0, above[k],
      if k >= bpp then above[k - bpp] else 0)
    ensures RowDone(buf[cur + k := v], cur, filter, raw, above, bpp, k + 1)
  {
    hide Recon;
    var buf' := buf[cur + k := v];
    assert buf'[cur..cur + k + 1] == buf[cur..cur + k] + [v];
    if k >= bpp {
      assert buf[cur + k - bpp] == buf[cur..cur + k][k - bpp];
    }
  }

  /** Stores the next byte of a row. */
  method StoreByte(buf: array<Byte>, cur: nat, k: nat, v: Byte, ghost filter: nat, ghost raw: seq<Byte>,
                   ghost above: seq<Byte>, ghost bpp: nat)
    requires k < |raw| == |above| && bpp > 0 && RowDone(buf[..], cur, filter, raw, above, bpp, k)
    requires v == Recon(filter, raw[k], if k >= bpp then buf[cur + k - bpp] else 0, above[k],
      if k >= bpp then above[k - bpp] else 0)
    modifies buf
    ensures RowDone(buf[..], cur, filter, raw, above, bpp, k + 1)
    ensures forall i :: 0 <= i < buf.Length && (i < cur || i >= cur + |raw|) ==> buf[i] == old(buf[i])
  {
    hide Recon, ReconRow;
    RowStep(buf[..], cur, filter, raw, above, bpp, k, v);
    buf[cur + k] := v;
    assert buf[..] == old(buf[..])[cur + k := v];
  }

  method RowNone(buf: array<Byte>, cur: nat, raw: seq<Byte>, ghost above: seq<Byte>, ghost bpp: nat)
    requires cur + |raw| <= buf.Length && |above| == |raw| && bpp > 0
    modifies buf
    ensures RowDone(buf[..], cur, 0, raw, above, bpp, |raw|)
  {
    hide ReconRow;
    EmptyRow(buf[..], cur, 0, raw, above, bpp);
    for k := 0 to |raw|
      invariant RowDone(buf[..], cur, 0, raw, above, bpp, k)
    {
      StoreByte(buf, cur, k, raw[k], 0, raw, above, bpp);
    }
  }

  lemma EmptyRow(buf: seq<Byte>, cur: nat, filter: nat, raw: seq<Byte>, above: seq<Byte>, bpp: nat)
    requires cur + |raw| <= |buf| && |above| == |raw|
    ensures RowDone(buf, cur, filter, raw, above, bpp, 0)
  {
  }

  method RowSub(buf: array<Byte>, cur: nat, raw: seq<Byte>, bpp: nat, ghost above: seq<Byte>)
    requires cur + |raw| <= buf.Length && |above| == |raw| && 0 < bpp <= |raw|
    modifies buf
    ensures RowDone(buf[..], cur, 1, raw, above, bpp, |raw|)
  {
    hide ReconRow;
    EmptyRow(buf[..], cur, 1, raw, above, bpp);
    for k := 0 to bpp
      invariant RowDone(buf[..], cur, 1, raw, above, bpp, k)
    {
      StoreByte(buf, cur, k, raw[k], 1, raw, above, bpp);
    }
    for k := bpp to |raw|
      invariant RowDone(buf[..], cur, 1, raw, above, bpp, k)
    {
      StoreByte(buf, cur, k, (raw[k] as int + buf[cur + k - bpp]) % 256, 1, raw, above, bpp);
    }
  }

  /** The other buffer holds the row above. */
  ghost predicate HasAbove(buf: seq<Byte>, prior: nat, cur: nat, above: seq<Byte>) {
    && prior + |above| <= |buf| && (prior + |above| <= cur || cur + |above| <= prior)
    && forall i :: prior <= i < prior + |above| ==> buf[i] == above[i - prior]
  }

  /** Stores the next byte of a row below the row in the other buffer. */
  method StoreBelow(buf: array<Byte>, cur: nat, prior: nat, k: nat, v: Byte, ghost filter: nat, ghost raw: seq<Byte>,
                    ghost above: seq<Byte>, ghost bpp: nat)
    requires k < |raw| == |above| && bpp > 0 && RowDone(buf[..], cur, filter, raw, above, bpp, k)
    requires HasAbove(buf[..], prior, cur, above)
    requires v == Recon(filter, raw[k], if k >= bpp then buf[cur + k - bpp] else 0, buf[prior + k],
                        if k >= bpp then buf[prior + k - bpp] else 0)
    modifies buf
    ensures RowDone(buf[..], cur, filter, raw, above, bpp, k + 1) && HasAbove(buf[..], prior, cur, above)
  {
    hide Recon, ReconRow;
    StoreByte(buf, cur, k, v, filter, raw, above, bpp);
  }

  method RowUp(buf: array<Byte>, cur: nat, prior: nat, raw: seq<Byte>, ghost above: seq<Byte>, ghost bpp: nat)
    requires cur + |raw| <= buf.Length && |above| == |raw| && bpp > 0 && HasAbove(buf[..], prior, cur, above)
    modifies buf
    ensures RowDone(buf[..], cur, 2, raw, above, bpp, |raw|)
  {
    hide ReconRow, RowDone;
    EmptyRow(buf[..], cur, 2, raw, above, bpp);
    for k := 0 to |raw|
      invariant RowDone(buf[..], cur, 2, raw, above, bpp, k) && HasAbove(buf[..], prior, cur, above)
    {
      StoreBelow(buf, cur, prior, k, (raw[k] as int + buf[prior + k]) % 256, 2, raw, above, bpp);
    }
  }

  method RowAvg(buf: array<Byte>, cur: nat, prior: nat, raw: seq<Byte>, bpp: nat, ghost above: seq<Byte>)
    requires cur + |raw| <= buf.Length && |above| == |raw| && 0 < bpp <= |raw| && HasAbove(buf[..], prior, cur, above)
    modifies buf
    ensures RowDone(buf[..], cur, 3, raw, above, bpp, |raw|)
  {
    hide ReconRow, RowDone;
    EmptyRow(buf[..], cur, 3, raw, above, bpp);
    for k := 0 to bpp
      invariant RowDone(buf[..], cur, 3, raw, above, bpp, k) && HasAbove(buf[..], prior, cur, above)
    {
      StoreBelow(buf, cur, prior, k, (raw[k] as int + buf[prior + k] / 2) % 256, 3, raw, above, bpp);
    }
    for k := bpp to |raw|
      invariant RowDone(buf[..], cur, 3, raw, above, bpp, k) && HasAbove(buf[..], prior, cur, above)
    {
      StoreBelow(buf, cur, prior, k, (raw[k] as int + (buf[prior + k] as int + buf[cur + k - bpp]) / 2) % 256, 3, raw,
        above, bpp);
    }
  }

  method RowPaeth(buf: array<Byte>, cur: nat, prior: nat, raw: seq<Byte>, bpp: nat, ghost above: seq<Byte>)
    requires cur + |raw| <= buf.Length && |above| == |raw| && 0 < bpp <= |raw| && HasAbove(buf[..], prior, cur, above)
    modifies buf
    ensures RowDone(buf[..], cur, 4, raw, above, bpp, |raw|)
  {
    hide ReconRow, RowDone, PaethPredictor, StbPaeth;
    EmptyRow(buf[..], cur, 4, raw, above, bpp);
    for k := 0 to bpp
      invariant RowDone(buf[..], cur, 4, raw, above, bpp, k) && HasAbove(buf[..], prior, cur, above)
    {
      PaethAtEdge(buf[prior + k]);
      StoreBelow(buf, cur, prior, k, (raw[k] as int + buf[prior + k]) % 256, 4, raw, above, bpp);
    }
    for k := bpp to |raw|
      invariant RowDone(buf[..], cur, 4, raw, above, bpp, k) && HasAbove(buf[..], prior, cur, above)
    {
      var a, b, c := buf[cur + k - bpp], buf[prior + k], buf[prior + k - bpp];
      PaethAgrees(a, b, c);
      StoreBelow(buf, cur, prior, k, (raw[k] as int + StbPaeth(a, b, c)) % 256, 4, raw, above, bpp);
    }
  }

  method RowAvgFirst(buf: array<Byte>, cur: nat, raw: seq<Byte>, bpp: nat, ghost above: seq<Byte>)
    requires cur + |raw| <= buf.Length && |above| == |raw| && 0 < bpp <= |raw| && above == Zeros(|raw|)
    modifies buf
    ensures RowDone(buf[..], cur, 3, raw, above, bpp, |raw|)
  {
    hide ReconRow;
    EmptyRow(buf[..], cur, 3, raw, above, bpp);
    for k := 0 to bpp
      invariant RowDone(buf[..], cur, 3, raw, above, bpp, k)
    {
      StoreByte(buf, cur, k, raw[k], 3, raw, above, bpp);
    }
    for k := bpp to |raw|
      invariant RowDone(buf[..], cur, 3, raw, above, bpp, k)
    {
      StoreByte(buf, cur, k, (raw[k] as int + buf[cur + k - bpp] / 2) % 256, 3, raw, above, bpp);
    }
  }

  function Zeros(n: nat): (s: seq<Byte>)
    ensures |s| == n && forall i :: 0 <= i < n ==> s[i] == 0
  {
    seq(n, _ => 0)
  }

  // ---------------------------------------------------------------- the first row

  const AVG_FIRST := 5

  /** What is done instead in the first row, to avoid needing a row of zeros above. */
  const FIRST_ROW_FILTER: seq<nat> := [0, 1, 0, AVG_FIRST, 1]

  /** Under a row of zeros, "up" does nothing and Paeth is the same as "sub". */
  lemma {:induction false} FirstRow(filter: nat, raw: seq<Byte>, bpp: nat, n: nat)
    requires filter == 2 || filter == 4
    requires n <= |raw| && bpp > 0
    ensures ReconRow(filter, raw, Zeros(|raw|), bpp, n) == ReconRow(FIRST_ROW_FILTER[filter], raw, Zeros(|raw|), bpp, n)
  {
    if n > 0 {
      hide PaethPredictor;
      FirstRow(filter, raw, bpp, n - 1);
      PaethAtEdge(Left(ReconRow(filter, raw, Zeros(|raw|), bpp, n - 1), n - 1, bpp));
    }
  }

  /** One row: the filter loop of `stbi__create_png_image_raw`. */
  method UnfilterRow(buf: array<Byte>, cur: nat, prior: nat, raw: seq<Byte>, bpp: nat, filterType: nat, first: bool,
                     ghost above: seq<Byte>)
    requires cur + |raw| <= buf.Length && |above| == |raw| && 0 < bpp <= |raw| && filterType <= 4
    requires if first then above == Zeros(|raw|) else HasAbove(buf[..], prior, cur, above)
    modifies buf
    ensures RowDone(buf[..], cur, filterType, raw, above, bpp, |raw|)
  {
    hide ReconRow, Zeros;
    var filter := filterType;
    if first {
      filter := FIRST_ROW_FILTER[filter];
      if filterType == 2 || filterType == 4 {
        FirstRow(filterType, raw, bpp, |raw|);
      }
    }
    match filter
    case 0 => RowNone(buf, cur, raw, above, bpp);
    case 1 => RowSub(buf, cur, raw, bpp, above);
    case 2 => RowUp(buf, cur, prior, raw, above, bpp);
    case 3 => RowAvg(buf, cur, prior, raw, bpp, above);
    case 4 => RowPaeth(buf, cur, prior, raw, bpp, above);
    case _ => RowAvgFirst(buf, cur, raw, bpp, above);
  }
}
