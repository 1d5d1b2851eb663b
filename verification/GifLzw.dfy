/** GIF's variable-length LZW decoding (Appendix F of GIF89a) with room for 8192 codes. The dictionary is kept as
    chains of prefixes; the specification keeps the strings themselves. */
module GifLzw {
  import opened Bits
  import opened Bytes
  import opened GifRaster
  import opened GifRows
  import opened Options
  import opened Powers

  const MAX_CODES := 8192

  // ---------------------------------------------------------------- specification

  /** The strings beyond the single symbols; `clear` symbols, the clear code and the end code come first. */
  datatype Dictionary = Dictionary(clear: nat, added: seq<seq<Byte>>)

  function Available(d: Dictionary): nat {
    d.clear + 2 + |d.added|
  }

  ghost predicate Sound(d: Dictionary) {
    d.clear > 0 && forall k :: 0 <= k < |d.added| ==> d.added[k] != []
  }

  predicate Known(d: Dictionary, code: int) {
    0 <= code < d.clear || d.clear + 2 <= code < Available(d)
  }

  function StringOf(d: Dictionary, code: int): (s: seq<Byte>)
    requires Known(d, code)
    ensures Sound(d) ==> s != []
  {
    if code < d.clear then [code % 256] else d.added[code - d.clear - 2]
  }

  /** The new entry: the previous string and the first symbol of the current one. The current code may be the one
      that is just being defined; its string starts like the previous one. */
  function Learn(d: Dictionary, prev: int, code: int): (d': Dictionary)
    requires Sound(d) && Known(d, prev) && (Known(d, code) || code == Available(d))
    ensures Sound(d') && d'.clear == d.clear && Known(d', code)
  {
    var next := if code == Available(d) then StringOf(d, prev)[0] else StringOf(d, code)[0];
    Dictionary(d.clear, d.added + [StringOf(d, prev) + [next]])
  }

  datatype Status = Done | BadCodeSize | NoClearCode | TooManyCodes | IllegalCode

  /** The state between two codes: the previous code or -1, the current code size, whether a clear code has been
      seen, and the symbols put out. */
  datatype Decoder = Decoder(dict: Dictionary, prev: int, size: nat, started: bool, out: seq<Byte>)

  datatype Outcome = More(next: Decoder) | Stop(status: Status)

  ghost predicate InBounds(st: Decoder) {
    && Sound(st.dict) && st.dict.clear <= 4096 && 1 <= st.size <= 13 && Available(st.dict) <= MAX_CODES
    && if st.prev < 0 then st.dict.added == [] else Known(st.dict, st.prev)
  }

  function Cleared(st: Decoder, cs: nat): Decoder {
    Decoder(Dictionary(st.dict.clear, []), -1, cs + 1, true, st.out)
  }

  /** Code sizes grow when the codes in use run out, up to 12 bits. */
  function NextSize(size: nat, avail: nat): nat {
    if avail % Pow2(size) == 0 && avail <= 0xfff then size + 1 else size
  }

  function PutOut(st: Decoder, dict: Dictionary, code: int): Decoder
    requires Known(dict, code)
  {
    Decoder(dict, code, NextSize(st.size, Available(dict)), st.started, st.out + StringOf(dict, code))
  }

  /** What one code does. */
  function Step(st: Decoder, cs: nat, code: nat): Outcome
    requires InBounds(st)
  {
    var d := st.dict;
    if code == d.clear then More(Cleared(st, cs))
    else if code == d.clear + 1 then Stop(Done)
    else if code > Available(d) then Stop(IllegalCode)
    else if !st.started then Stop(NoClearCode)
    else if st.prev >= 0 then
      if Available(d) + 1 > MAX_CODES then Stop(TooManyCodes) else More(PutOut(st, Learn(d, st.prev, code), code))
    else if code == Available(d) then Stop(IllegalCode)
    else More(PutOut(st, d, code))
  }

  lemma StepInBounds(st: Decoder, cs: nat, code: nat)
    requires InBounds(st) && cs <= 12 && st.dict.clear == Pow2(cs)
    ensures Step(st, cs, code).More? ==>
      InBounds(Step(st, cs, code).next) && Step(st, cs, code).next.dict.clear == st.dict.clear
  {
    hide StringOf, Pow2, Learn;
    if st.prev >= 0 && Available(st.dict) + 1 <= MAX_CODES && (Known(st.dict, code) || code == Available(st.dict)) {
      LearnAdds(st.dict, st.prev, code);
      SizeLimit(st.size, Available(st.dict) + 1);
    }
    SizeLimit(st.size, Available(st.dict));
  }

  lemma LearnAdds(d: Dictionary, prev: int, code: int)
    requires Sound(d) && Known(d, prev) && (Known(d, code) || code == Available(d))
    ensures Available(Learn(d, prev, code)) == Available(d) + 1
  {
  }

  lemma SizeLimit(size: nat, avail: nat)
    requires 1 <= size <= 13 && avail > 0
    ensures 1 <= NextSize(size, avail) <= 13
  {
    if size >= 12 && avail <= 0xfff {
      assert Pow2(12) == 4096;
      Pow2Monotone(12, size);
      SmallRemainder(avail, Pow2(size));
    }
  }

  /** Decoding the bits of `data` from bit `k` on, until the end code, an error, or too few bits for a code. */
  ghost function Run(data: seq<Byte>, k: nat, st: Decoder, cs: nat): (Status, seq<Byte>)
    requires InBounds(st) && cs <= 12 && st.dict.clear == Pow2(cs)
    decreases 8 * |data| - k
  {
    if k + st.size > 8 * |data| then (Done, st.out) else
      var code := Window(data, k, st.size);
      StepInBounds(st, cs, code);
      match Step(st, cs, code)
      case Stop(status) => (status, st.out)
      case More(next) => Run(data, k + st.size, next, cs)
  }

  // ---------------------------------------------------------------- data in sub-blocks

  /** `stbi__get8`: zero behind the end. */
  function Get8(input: seq<Byte>, pos: nat): Byte {
    if pos < |input| then input[pos] else 0
  }

  /** The data bytes from `pos` on, when `len` bytes of the current block are left; an empty block ends them. */
  function Flat(input: seq<Byte>, pos: nat, len: nat): seq<Byte>
    decreases if pos < |input| then |input| - pos else 0, len
  {
    if len > 0 then [Get8(input, pos)] + Flat(input, pos + 1, len - 1)
    else if Get8(input, pos) == 0 then []
    else Flat(input, pos + 1, Get8(input, pos))
  }

  /** The position behind the empty block that ends the blocks from `pos` on. Behind the end of the input all positions
      are alike. */
  function AfterBlocks(input: seq<Byte>, pos: nat): nat
    decreases |input| - pos
  {
    if Get8(input, pos) == 0 then pos + 1 else AfterBlocks(input, pos + 1 + Get8(input, pos))
  }

  /** Skips the blocks from `pos` on, up to and with the empty one. */
  method SkipBlocks(input: seq<Byte>, start: nat) returns (end: nat)
    ensures end == AfterBlocks(input, start)
  {
    end := start;
    var len := Get8(input, end);
    end := end + 1;
    while len > 0
      invariant end >= 1 && len == Get8(input, end - 1)
      invariant AfterBlocks(input, end - 1) == AfterBlocks(input, start)
      decreases |input| - end, len
    {
      end := end + len;
      len := Get8(input, end);
      end := end + 1;
    }
  }

  function Initial(cs: nat): Decoder {
    Decoder(Dictionary(Pow2(cs), []), -1, cs + 1, false, [])
  }

  lemma ClearFits(cs: nat)
    requires cs <= 12
    ensures 0 < Pow2(cs) <= 4096 && InBounds(Initial(cs))
  {
    assert Pow2(12) == 4096;
    Pow2Monotone(cs, 12);
  }

  /** The reference decoder: the status at the end, and all symbols put out. */
  ghost function Decoded(input: seq<Byte>, start: nat): (Status, seq<Byte>) {
    var cs: nat := Get8(input, start);
    if cs > 12 then (BadCodeSize, []) else
      ClearFits(cs);
      Run(Flat(input, start + 1, 0), 0, Initial(cs), cs)
  }

  /** The bit buffer holds the `validBits` bits behind bit `at`; the bytes behind them are still in the blocks. */
  ghost predicate Reading(input: seq<Byte>, data: seq<Byte>, at: nat, pos: nat, len: nat, bits: int, validBits: nat) {
    && at + validBits <= 8 * |data| && (at + validBits) % 8 == 0 && bits == Window(data, at, validBits)
    && data[(at + validBits) / 8..] == Flat(input, pos, len)
  }

  lemma StartReading(input: seq<Byte>, pos: nat)
    ensures Reading(input, Flat(input, pos, 0), 0, pos, 0, 0, 0)
  {
    assert Window(Flat(input, pos, 0), 0, 0) == 0;
  }

  lemma EmptyBlock(input: seq<Byte>, pos: nat)
    requires Get8(input, pos) == 0
    ensures AfterBlocks(input, pos) == pos + 1
  {
  }

  lemma NoMoreData(input: seq<Byte>, data: seq<Byte>, at: nat, pos: nat, bits: int, validBits: nat, st: Decoder,
                   cs: nat)
    requires Reading(input, data, at, pos, 0, bits, validBits) && Get8(input, pos) == 0
    requires InBounds(st) && cs <= 12 && st.dict.clear == Pow2(cs) && validBits < st.size
    ensures Run(data, at, st, cs) == (Done, st.out)
  {
    hide Window;
  }

  /** A byte enters the bit buffer; a new block is entered first when none is open. */
  lemma NextByte(input: seq<Byte>, data: seq<Byte>, at: nat, pos: nat, len: nat, bits: int, validBits: nat)
    requires Reading(input, data, at, pos, len, bits, validBits) && (len > 0 || Get8(input, pos) != 0)
    ensures var (pos', len') := if len == 0 then (pos + 1, Get8(input, pos) - 1) else (pos, len - 1);
            at + validBits + 8 <= 8 * |data| && bits >= 0 &&
            Reading(input, data, at, pos' + 1, len', bits + Pow2(validBits) * Get8(input, pos'), validBits + 8)
  {
    hide Window, Pow2;
    var i := (at + validBits) / 8;
    var (pos', len') := if len == 0 then (pos + 1, Get8(input, pos) - 1) else (pos, len - 1);
    assert data[i..] == Flat(input, pos', len' + 1) == [Get8(input, pos')] + Flat(input, pos' + 1, len');
    AppendByte(data, at, validBits, i);
    assert data[i] == data[i..][0] && data[i + 1..] == data[i..][1..];
  }

  /** A code leaves the bit buffer. */
  lemma NextCode(input: seq<Byte>, data: seq<Byte>, at: nat, pos: nat, len: nat, bits: int, validBits: nat, size: nat)
    requires Reading(input, data, at, pos, len, bits, validBits) && size <= validBits
    ensures bits >= 0 && Remainder(bits, Pow2(size)) == Window(data, at, size)
    ensures Reading(input, data, at + size, pos, len, Quotient(bits, Pow2(size)), validBits - size)
  {
    hide Window, Pow2, Flat;
    WindowCut(data, at, validBits, size);
  }

  /** The clear code and the end code. */
  lemma StepIs(st: Decoder, cs: nat, code: nat)
    requires InBounds(st)
    ensures code == st.dict.clear ==> Step(st, cs, code) == More(Cleared(st, cs))
    ensures code == st.dict.clear + 1 ==> Step(st, cs, code) == Stop(Done)
    ensures Step(st, cs, code).More? && code != st.dict.clear ==> Step(st, cs, code).next.started == st.started
  {
  }

  lemma ChainsCleared(d: Dictionary, prefix: seq<int>, first: seq<Byte>, suffix: seq<Byte>)
    requires Chains(d, prefix, first, suffix)
    ensures Chains(Dictionary(d.clear, []), prefix, first, suffix)
  {
  }

  /** The decoder's variables are those of the reference. */
  ghost predicate Tracks(st: Decoder, codesize: nat, avail: nat, oldcode: int, notCleared: bool) {
    && InBounds(st) && codesize == st.size && avail == Available(st.dict) && oldcode == st.prev
    && notCleared == !st.started
  }

  lemma TracksSize(st: Decoder, codesize: nat, avail: nat, oldcode: int, notCleared: bool)
    requires Tracks(st, codesize, avail, oldcode, notCleared)
    ensures InBounds(st) && codesize == st.size >= 1
  {
  }

  lemma StartTracking(input: seq<Byte>, start: nat, cs: nat)
    requires cs == Get8(input, start) && cs <= 12
    ensures InBounds(Initial(cs)) && Tracks(Initial(cs), cs + 1, Pow2(cs) + 2, -1, true)
    ensures Initial(cs).out == [] && Initial(cs).dict == Dictionary(Pow2(cs), [])
    ensures Decoded(input, start) == Run(Flat(input, start + 1, 0), 0, Initial(cs), cs)
  {
    hide Run, Flat;
    ClearFits(cs);
  }

  lemma TooWide(input: seq<Byte>, start: nat)
    requires Get8(input, start) > 12
    ensures Decoded(input, start) == (BadCodeSize, [])
  {
  }

  /** Takes a code out of the bit buffer. */
  method TakeCode(size: nat, ghost input: seq<Byte>, ghost pos: nat, ghost len: nat, bits: nat, ghost validBits: nat,
                  ghost data: seq<Byte>, ghost at: nat) returns (code: nat, bits': nat)
    requires Reading(input, data, at, pos, len, bits, validBits) && size <= validBits
    ensures code == Window(data, at, size) && at + validBits <= 8 * |data|
    ensures Reading(input, data, at + size, pos, len, bits', validBits - size)
  {
    hide Window, Pow2, Flat;
    NextCode(input, data, at, pos, len, bits, validBits, size);
    code := Remainder(bits, Pow2(size));
    bits' := Quotient(bits, Pow2(size));
  }

  /** Moves a byte into the bit buffer. */
  method TakeByte(input: seq<Byte>, pos: nat, len: nat, bits: nat, validBits: nat, ghost data: seq<Byte>, ghost at: nat)
    returns (pos': nat, len': nat, bits': nat, validBits': nat)
    requires Reading(input, data, at, pos, len, bits, validBits) && (len > 0 || Get8(input, pos) != 0)
    ensures validBits' == validBits + 8 && at + validBits' <= 8 * |data|
    ensures Reading(input, data, at, pos', len', bits', validBits')
    ensures AfterBlocks(input, pos' + len') == AfterBlocks(input, pos + len)
  {
    hide Reading, Pow2;
    NextByte(input, data, at, pos, len, bits, validBits);
    pos', len' := pos, len;
    if len' == 0 {
      len' := Get8(input, pos');
      pos' := pos' + 1;
    }
    len' := len' - 1;
    bits' := bits + Pow2(validBits) * Get8(input, pos');
    pos' := pos' + 1;
    validBits' := validBits + 8;
  }

  lemma RunStep(data: seq<Byte>, k: nat, st: Decoder, cs: nat)
    requires InBounds(st) && cs <= 12 && st.dict.clear == Pow2(cs) && k + st.size <= 8 * |data|
    ensures match Step(st, cs, Window(data, k, st.size))
            case Stop(status) => Run(data, k, st, cs) == (status, st.out)
            case More(next) =>
              InBounds(next) && next.dict.clear == Pow2(cs) && Run(data, k, st, cs) == Run(data, k + st.size, next, cs)
  {
    hide Window, Pow2, Step;
    StepInBounds(st, cs, Window(data, k, st.size));
  }

  // ---------------------------------------------------------------- chains of prefixes

  /** The tables hold the dictionary: entries for single symbols have no prefix; every other entry is the string of a
      smaller code and one symbol, and knows its first symbol. */
  ghost predicate Chains(d: Dictionary, prefix: seq<int>, first: seq<Byte>, suffix: seq<Byte>) {
    && Sound(d) && |prefix| == |first| == |suffix| == MAX_CODES && Available(d) <= MAX_CODES
    && (forall i :: 0 <= i < d.clear ==> prefix[i] == -1 && first[i] == suffix[i] == i % 256)
    && (forall i :: d.clear + 2 <= i < Available(d) ==> ChainEntry(d, i, prefix[i], first[i], suffix[i]))
  }

  ghost predicate ChainEntry(d: Dictionary, i: nat, prefix: int, first: Byte, suffix: Byte)
    requires d.clear + 2 <= i < Available(d) && Sound(d)
  {
    && 0 <= prefix < i && Known(d, prefix)
    && StringOf(d, i) == StringOf(d, prefix) + [suffix] && first == StringOf(d, i)[0]
  }

  lemma FirstIsHead(d: Dictionary, prefix: seq<int>, first: seq<Byte>, suffix: seq<Byte>, code: nat)
    requires Chains(d, prefix, first, suffix) && Known(d, code)
    ensures first[code] == StringOf(d, code)[0]
  {
  }

  lemma EntryStays(d: Dictionary, prev: int, code: int, i: nat, prefix: int, first: Byte, suffix: Byte)
    requires Sound(d) && Known(d, prev) && (Known(d, code) || code == Available(d))
    requires d.clear + 2 <= i < Available(d) && ChainEntry(d, i, prefix, first, suffix)
    ensures ChainEntry(Learn(d, prev, code), i, prefix, first, suffix)
  {
  }

  /** Adding an entry as the decoder does it. */
  lemma ChainLearns(d: Dictionary, prefix: seq<int>, first: seq<Byte>, suffix: seq<Byte>, prev: int, code: int)
    requires Chains(d, prefix, first, suffix) && Known(d, prev) && (Known(d, code) || code == Available(d))
    requires Available(d) < MAX_CODES
    ensures var n := Available(d);
            var first' := first[n := first[prev]];
            Chains(Learn(d, prev, code), prefix[n := prev], first', suffix[n := first'[code]])
  {
    hide ChainEntry;
    var n, d' := Available(d), Learn(d, prev, code);
    LearnAdds(d, prev, code);
    FirstIsHead(d, prefix, first, suffix, prev);
    if code != n {
      FirstIsHead(d, prefix, first, suffix, code);
    }
    forall i | d.clear + 2 <= i < n
      ensures ChainEntry(d', i, prefix[i], first[i], suffix[i])
    {
      EntryStays(d, prev, code, i, prefix[i], first[i], suffix[i]);
    }
    NewEntry(d, prev, code, first[n := first[prev]][code]);
  }

  lemma NewEntry(d: Dictionary, prev: int, code: int, next: Byte)
    requires Sound(d) && Known(d, prev) && (Known(d, code) || code == Available(d))
    requires next == if code == Available(d) then StringOf(d, prev)[0] else StringOf(d, code)[0]
    ensures Available(Learn(d, prev, code)) == Available(d) + 1
    ensures ChainEntry(Learn(d, prev, code), Available(d), prev, StringOf(d, prev)[0], next)
  {
  }

  // ---------------------------------------------------------------- the decoder's drawing cursor

  /** Byte distances: `v` lines of `line` bytes. */
  function Lines(v: nat, line: nat): nat {
    v * line
  }

  lemma LinesFacts(a: nat, b: nat, line: nat)
    ensures Lines(a + b, line) == Lines(a, line) + Lines(b, line)
    ensures line > 0 ==> (Lines(a, line) >= Lines(b, line) <==> a >= b)
  {
    Distribute(line, a, b);
    if a >= b {
      MulLe(b, a, line, line);
    } else {
      MulLe(a + 1, b, line, line);
    }
  }

  /** The cursor fields say that `row` is being filled, `col` pixels of it are done. */
  ghost predicate CursorAt(g: Geometry, row: Row, col: nat, curX: int, curY: int, step: int, parse: int) {
    var line := 4 * g.canvasW;
    curX == 4 * (g.x + col) && curY == Lines(g.y + row.at, line) && step == Lines(row.step, line) && parse == row.parse
  }

  /** The cursor after `n` symbols: in the image, or below it. */
  ghost predicate CursorAfter(g: Geometry, n: nat, curX: int, curY: int, step: int, parse: int) {
    if n < Count(g) then
      g.w > 0 && CursorAt(g, RowOf(g, Quotient(n, g.w)), Remainder(n, g.w), curX, curY, step, parse)
    else curY >= Lines(g.y + g.h, 4 * g.canvasW)
  }

  lemma CursorPlace(g: Geometry, n: nat, curX: int, curY: int, step: int, parse: int, size: nat)
    requires CursorAfter(g, n, curX, curY, step, parse) && n < Count(g) && Fits(g, size)
    ensures g.w > 0 && curY < Lines(g.y + g.h, 4 * g.canvasW) && curX + curY == 4 * PlaceOf(g, n)
  {
    RowIndex(g, n);
    var row := RowOf(g, Quotient(n, g.w));
    RowOfFacts(g, Quotient(n, g.w));
    hide RowOf, Proper, Order;
    LinesFacts(g.y + row.at, g.y + g.h, 4 * g.canvasW);
    BytesOfPixel(g, row.at, Remainder(n, g.w));
  }

  lemma BytesOfPixel(g: Geometry, row: nat, col: nat)
    ensures 4 * (g.x + col) + Lines(g.y + row, 4 * g.canvasW) == 4 * PixelAt(g, row, col)
  {
    MulRotate(g.y + row, 4, g.canvasW);
  }

  /** The next column of the same row. */
  lemma NextColumn(g: Geometry, n: nat, curX: int, curY: int, step: int, parse: int)
    requires CursorAfter(g, n, curX, curY, step, parse) && n < Count(g) && Remainder(n, g.w) + 1 < g.w
    ensures CursorAfter(g, n + 1, curX + 4, curY, step, parse)
  {
    var k, c := Quotient(n, g.w), Remainder(n, g.w);
    DivModOf(n + 1, g.w, k, c + 1);
    RowIndex(g, n);
    MulLe(k + 1, g.h, g.w, g.w);
    Distribute(g.w, k, 1);
  }

  /** The first column of the row after, if there is one. */
  lemma NextRow(g: Geometry, n: nat, curX: int, curY: int, step: int, parse: int)
    requires n < Count(g) && g.w > 0 && Remainder(n, g.w) + 1 == g.w
    requires CursorAt(g, Advance(RowOf(g, Quotient(n, g.w)), g.h), 0, curX, curY, step, parse)
    ensures CursorAfter(g, n + 1, curX, curY, step, parse)
  {
    var k := Quotient(n, g.w);
    RowIndex(g, n);
    Distribute(g.w, k, 1);
    DivModOf(n + 1, g.w, k + 1, 0);
    assert RowOf(g, k + 1) == Advance(RowOf(g, k), g.h);
    RowOfFacts(g, k + 1);
    hide RowOf, Advance, Proper, Order;
    if n + 1 >= Count(g) {
      LastRow(g, k);
      LinesFacts(g.y + RowOf(g, k + 1).at, g.y + g.h, 4 * g.canvasW);
    }
  }

  lemma LastRow(g: Geometry, k: nat)
    requires g.w > 0 && k < g.h && g.w * k + g.w >= Count(g)
    ensures k + 1 == g.h
  {
    if k + 1 < g.h {
      MulLe(k + 2, g.h, g.w, g.w);
      Distribute(g.w, k, 2);
    }
  }

  lemma ShiftLine(parse: nat, line: nat)
    requires parse > 0
    ensures Lines(Pow2(parse), line) / 2 == Lines(Pow2(parse) / 2, line)
  {
    var p := Pow2(parse - 1);
    assert Pow2(parse) == 2 * p && Lines(2 * p, line) == 2 * Lines(p, line) by {
      MulAssoc(2, p, line);
    }
  }

  class Gif {
    var canvasW: nat
    var canvasH: nat
    var table: seq<Quad>
    var out: seq<Quad>
    var history: seq<bool>
    var lineSize: int
    var startX: int
    var startY: int
    var maxX: int
    var maxY: int
    var curX: int
    var curY: int
    var step: int
    var parse: int
    var prefix: seq<int>
    var first: seq<Byte>
    var suffix: seq<Byte>
    /** The image being drawn, and the canvas before it. */
    ghost var geo: Geometry
    ghost var canvas0: seq<Quad>
    ghost var history0: seq<bool>

    ghost predicate Valid()
      reads this
    {
      && |table| == 256 && Fits(geo, |canvas0|) && |history0| == |canvas0|
      && lineSize == 4 * geo.canvasW && startX == 4 * geo.x && startY == Lines(geo.y, 4 * geo.canvasW)
      && maxX == startX + 4 * geo.w && maxY == Lines(geo.y + geo.h, 4 * geo.canvasW)
    }

    /** The canvas and the cursor after the symbols `s`. */
    ghost predicate Drawn(s: seq<Byte>)
      requires Valid()
      reads this
    {
      && out == Painted(geo, canvas0, table, s) && history == Marked(geo, history0, |s|)
      && CursorAfter(geo, |s|, curX, curY, step, parse)
    }

    /** The codes table holds the dictionary `d`. */
    ghost predicate Holds(d: Dictionary)
      reads this
    {
      Chains(d, prefix, first, suffix)
    }

    /** Sets up the image that an image descriptor announces; fails if it does not lie on the canvas. */
    method BeginImage(x: nat, y: nat, w: nat, h: nat, interlaced: bool) returns (ok: bool)
      requires |table| == 256 && |out| == |history| == Area(canvasW, canvasH)
      modifies this`lineSize, this`startX, this`startY, this`maxX, this`maxY, this`curX, this`curY, this`step,
        this`parse, this`geo, this`canvas0, this`history0
      ensures ok <==> x + w <= canvasW && y + h <= canvasH
      ensures ok ==> Valid() && Drawn([])
      ensures ok ==> geo == Geometry(canvasW, canvasH, x, y, w, h, interlaced) && canvas0 == out && history0 == history
    {
      hide Painted, Marked, CursorAfter, Lines, Fits, Area;
      if x + w > canvasW || y + h > canvasH {
        return false;
      }
      geo := Geometry(canvasW, canvasH, x, y, w, h, interlaced);
      canvas0, history0 := out, history;
      var line := canvasW * 4;
      lineSize := line;
      startX := x * 4;
      startY := Lines(y, line);
      maxX := startX + w * 4;
      maxY := startY + Lines(h, line);
      StartCursor(w, line, interlaced);
      LinesFacts(y, h, line);
      FirstCursor(geo);
      FitsNow(geo, |out|);
      NothingDrawn(geo, out, history, table);
      return true;
    }

    method StartCursor(w: nat, line: nat, interlaced: bool)
      modifies this`curX, this`curY, this`step, this`parse
      ensures curX == startX && curY == (if w == 0 then maxY else startY)
      ensures step == (if interlaced then 8 * line else line) && parse == if interlaced then 3 else 0
    {
      curX := startX;
      curY := startY;
      if w == 0 {
        curY := maxY;
      }
      if interlaced {
        step, parse := 8 * line, 3;
      } else {
        step, parse := line, 0;
      }
    }

    /** Draws one symbol and moves the cursor on. */
    method PutPixel(v: Byte, ghost s: seq<Byte>)
      requires Valid() && Drawn(s)
      modifies this`out, this`history, this`curX, this`curY, this`step, this`parse
      ensures Valid() && Drawn(s + [v])
    {
      hide Painted, Marked, CursorAfter, CursorAt, Lines, PlaceOf, Fits, Count, Blend;
      DrawnNext(geo, canvas0, history0, table, s, v);
      if |s| >= Count(geo) {
        StaysBelow(geo, |s|, curX, curY, step, parse);
      } else {
        CursorPlace(geo, |s|, curX, curY, step, parse, |canvas0|);
      }
      if curY >= maxY {
        return;
      }
      var idx := curX + curY;
      history := history[idx / 4 := true];
      var c := table[v];
      out := out[idx / 4 := Blend(out[idx / 4], c)];
      AdvanceCursor(s);
    }

    /** `stbi__out_gif_code`: puts out the string of a code, following the chain to its beginning first. */
    method OutGifCode(code: nat, ghost d: Dictionary, ghost s: seq<Byte>)
      requires Valid() && Drawn(s) && Holds(d) && Known(d, code)
      modifies this`out, this`history, this`curX, this`curY, this`step, this`parse
      ensures Valid() && Drawn(s + StringOf(d, code))
      decreases code
    {
      hide Chains, Painted, Marked, CursorAfter, StringOf, Fits;
      ghost var t := s;
      ChainOf(d, prefix, first, suffix, code);
      if prefix[code] >= 0 {
        OutGifCode(prefix[code], d, s);
        t := s + StringOf(d, prefix[code]);
      }
      PutPixel(suffix[code], t);
      assert t + [suffix[code]] == s + StringOf(d, code);
    }

    /** Entries for the single symbols. */
    method InitCodes(clear: nat, ghost s: seq<Byte>)
      requires Valid() && Drawn(s)
      requires |prefix| == |first| == |suffix| == MAX_CODES && 0 < clear <= 4096
      modifies this`prefix, this`first, this`suffix
      ensures Holds(Dictionary(clear, [])) && Valid() && Drawn(s)
    {
      hide Painted, Marked, CursorAfter, Fits;
      for i := 0 to clear
        invariant |prefix| == |first| == |suffix| == MAX_CODES && Valid() && Drawn(s)
        invariant forall k :: 0 <= k < i ==> prefix[k] == -1 && first[k] == suffix[k] == k % 256
      {
        prefix := prefix[i := -1];
        first := first[i := i % 256];
        suffix := suffix[i := i % 256];
      }
    }

    /** Adds the entry that the previous code and this one define. When this code is the one being defined, its first
        symbol has just been stored. (The source asks once more whether the code is the next free one; that is never so,
        because the next free one has already been advanced.) */
    method AddCode(oldcode: nat, code: nat, avail: nat, ghost d: Dictionary)
      requires Holds(d) && avail == Available(d) < MAX_CODES && Known(d, oldcode) && (Known(d, code) || code == avail)
      modifies this`prefix, this`first, this`suffix
      ensures Holds(Learn(d, oldcode, code))
    {
      hide ChainEntry, StringOf;
      ChainLearns(d, prefix, first, suffix, oldcode, code);
      prefix := prefix[avail := oldcode];
      first := first[avail := first[oldcode]];
      suffix := suffix[avail := first[code]];
    }

    /** A code that is neither the clear code nor the end code. */
    method OrdinaryCode(code: nat, codesize: nat, avail: nat, oldcode: int, notCleared: bool, ghost st: Decoder,
                        cs: nat, ghost s: seq<Byte>)
      returns (status: Option<Status>, codesize': nat, avail': nat, oldcode': int)
      requires Valid() && Drawn(s) && st.out == s && InBounds(st) && Holds(st.dict)
      requires codesize == st.size && avail == Available(st.dict) && oldcode == st.prev && notCleared == !st.started
      requires code != st.dict.clear && code != st.dict.clear + 1
      modifies this`out, this`history, this`curX, this`curY, this`step, this`parse, this`prefix, this`first, this`suffix
      ensures Valid()
      ensures match Step(st, cs, code)
              case Stop(e) => status == Some(e) && Drawn(s)
              case More(next) =>
                && status == None && Drawn(next.out) && Holds(next.dict)
                && codesize' == next.size && avail' == Available(next.dict) && oldcode' == next.prev && next.started
    {
      hide Chains, Painted, Marked, CursorAfter, StringOf, Learn, Fits, NextSize;
      status, codesize', avail', oldcode' := None, codesize, avail, oldcode;
      if code > avail {
        return Some(IllegalCode), codesize, avail, oldcode;
      }
      if notCleared {
        return Some(NoClearCode), codesize, avail, oldcode;
      }
      ghost var d := st.dict;
      if oldcode >= 0 {
        if avail + 1 > MAX_CODES {
          return Some(TooManyCodes), codesize, avail, oldcode;
        }
        LearnAdds(d, oldcode, code);
        AddCode(oldcode, code, avail, d);
        avail' := avail + 1;
        d := Learn(d, oldcode, code);
      } else if code == avail {
        return Some(IllegalCode), codesize, avail, oldcode;
      }
      OutGifCode(code, d, s);
      codesize' := NextSize(codesize, avail');
      oldcode' := code;
    }

    /** `stbi__process_gif_raster`: draws what the reference decoder puts out, and ends for the same reason. Unless
        there was an error, all sub-blocks have been passed then. */
    method ProcessRaster(input: seq<Byte>, start: nat) returns (status: Status, end: nat, ghost s: seq<Byte>)
      requires Valid() && Drawn([]) && |prefix| == |first| == |suffix| == MAX_CODES
      modifies this`out, this`history, this`curX, this`curY, this`step, this`parse, this`prefix, this`first, this`suffix
      ensures Valid() && Drawn(s)
      ensures (status, s) == Decoded(input, start)
      ensures status == Done ==> end == AfterBlocks(input, start + 1)
    {
      hide *;
      s := [];
      end := start + 1;
      var cs: nat := Get8(input, start);
      if cs > 12 {
        TooWide(input, start);
        return BadCodeSize, end, s;
      }
      var clear := Pow2(cs);
      ClearFits(cs);
      InitCodes(clear, s);
      StartReading(input, start + 1);
      StartTracking(input, start, cs);
      status, end, s := DecodeCodes(input, start + 1, cs, clear, Flat(input, start + 1, 0));
    }

    /** The loop over bytes and codes. */
    method DecodeCodes(input: seq<Byte>, start: nat, cs: nat, clear: nat,
                       ghost data: seq<Byte>) returns (status: Status, end: nat, ghost s: seq<Byte>)
      requires cs <= 12 && clear == Pow2(cs) && InBounds(Initial(cs)) && Initial(cs).dict.clear == clear
      requires Valid() && Drawn(Initial(cs).out) && Holds(Initial(cs).dict)
      requires Tracks(Initial(cs), cs + 1, clear + 2, -1, true) && Reading(input, data, 0, start, 0, 0, 0)
      modifies this`out, this`history, this`curX, this`curY, this`step, this`parse, this`prefix, this`first, this`suffix
      ensures Valid() && Drawn(s)
      ensures (status, s) == Run(data, 0, Initial(cs), cs)
      ensures status == Done ==> end == AfterBlocks(input, start)
    {
      hide *;
      ghost var st, at: nat := Initial(cs), 0;
      s := st.out;
      var pos: nat, len: nat, bits: nat, validBits: nat := start, 0, 0, 0;
      var codesize: nat, avail: nat, oldcode, notCleared := cs + 1, clear + 2, -1, true;
      while true
        invariant Valid() && Drawn(s) && st.out == s && st.dict.clear == clear && Holds(st.dict)
        invariant Tracks(st, codesize, avail, oldcode, notCleared) && InBounds(st)
        invariant Reading(input, data, at, pos, len, bits, validBits) && at + validBits <= 8 * |data|
        invariant Run(data, at, st, cs) == Run(data, 0, Initial(cs), cs)
        invariant AfterBlocks(input, pos + len) == AfterBlocks(input, start)
        decreases 8 * |data| - (at + validBits), validBits
      {
        TracksSize(st, codesize, avail, oldcode, notCleared);
        if validBits < codesize {
          if len == 0 && Get8(input, pos) == 0 {
            NoMoreData(input, data, at, pos, bits, validBits, st, cs);
            EmptyBlock(input, pos);
            return Done, pos + 1, s;
          }
          ghost var i := at;
          pos, len, bits, validBits := TakeByte(input, pos, len, bits, validBits, data, i);
        } else {
          var code;
          code, bits := TakeCode(codesize, input, pos, len, bits, validBits, data, at);
          validBits := validBits - codesize;
          RunStep(data, at, st, cs);
          at := at + codesize;
          ghost var outcome := Step(st, cs, code);
          var ended;
          ended, codesize, avail, oldcode, notCleared := HandleCode(code, clear, codesize, avail, oldcode, notCleared,
            st, cs, s);
          if ended.Some? {
            end := pos;
            if ended.value == Done {
              end := SkipBlocks(input, pos + len);
            }
            return ended.value, end, s;
          }
          st := outcome.next;
          s := st.out;
        }
      }
    }

    /** One code: the clear code, the end code, or a string. */
    method HandleCode(code: nat, clear: nat, codesize: nat, avail: nat, oldcode: int, notCleared: bool,
                      ghost st: Decoder, cs: nat, ghost s: seq<Byte>)
      returns (ended: Option<Status>, codesize': nat, avail': nat, oldcode': int, notCleared': bool)
      requires Valid() && Drawn(s) && st.out == s && st.dict.clear == clear && Holds(st.dict)
      requires Tracks(st, codesize, avail, oldcode, notCleared) && cs <= 12 && clear == Pow2(cs)
      modifies this`out, this`history, this`curX, this`curY, this`step, this`parse, this`prefix, this`first, this`suffix
      ensures Valid()
      ensures match Step(st, cs, code)
              case Stop(e) => ended == Some(e) && Drawn(s)
              case More(next) =>
                && ended == None && Drawn(next.out) && Holds(next.dict)
                && Tracks(next, codesize', avail', oldcode', notCleared') && next.dict.clear == clear
    {
      hide Chains, Painted, Marked, CursorAfter, Fits, Step, Pow2, StringOf, Learn, Known;
      ended, codesize', avail', oldcode', notCleared' := None, codesize, avail, oldcode, notCleared;
      StepIs(st, cs, code);
      StepInBounds(st, cs, code);
      if code == clear {
        codesize', avail', oldcode', notCleared' := cs + 1, clear + 2, -1, false;
        ChainsCleared(st.dict, prefix, first, suffix);
      } else if code == clear + 1 {
        ended := Some(Done);
      } else {
        ended, codesize', avail', oldcode' := OrdinaryCode(code, codesize, avail, oldcode, notCleared, st, cs, s);
      }
    }

    /** To the next pixel: in the same row, in the next row, or in the first row of the next pass. */
    method AdvanceCursor(ghost s: seq<Byte>)
      requires Valid() && |s| < Count(geo) && CursorAfter(geo, |s|, curX, curY, step, parse)
      modifies this`curX, this`curY, this`step, this`parse
      ensures Valid() && CursorAfter(geo, |s| + 1, curX, curY, step, parse)
    {
      hide Painted, Marked, CursorAfter, CursorAt, Lines, Fits, Count, Advance, RowOf;
      ghost var row := CursorRow(geo, |s|, curX, curY, step, parse);
      curX := curX + 4;
      if curX >= maxX {
        curX := startX;
        CanvasWide(geo, |canvas0|);
        NextRowDown(row, geo);
        NextRow(geo, |s|, curX, curY, step, parse);
      } else {
        NextColumn(geo, |s|, curX - 4, curY, step, parse);
      }
    }

    /** One step down; behind the last row, on to the next pass that has a row. */
    method NextRowDown(ghost row: Row, ghost g: Geometry)
      requires Valid() && g == geo && g.canvasW > 0 && curX == 4 * g.x
      requires curY == Lines(g.y + row.at, 4 * g.canvasW) && step == Lines(row.step, 4 * g.canvasW)
      requires parse == row.parse
      modifies this`curY, this`step, this`parse
      ensures CursorAt(g, Advance(row, g.h), 0, curX, curY, step, parse)
    {
      hide Painted, Marked, Lines, Fits, Pow2, NextPass;
      ghost var line := 4 * g.canvasW;
      LinesFacts(g.y + row.at, row.step, line);
      curY := curY + step;
      ghost var r := Row(row.at + row.step, row.step, row.parse);
      assert g.y + row.at + row.step == g.y + r.at;
      while curY >= maxY && parse > 0
        invariant curY == Lines(g.y + r.at, line) && step == Lines(r.step, line) && parse == r.parse
        invariant NextPass(r, g.h) == Advance(row, g.h)
        decreases parse
      {
        LinesFacts(g.y + r.at, g.y + g.h, line);
        ShiftLine(parse, line);
        LinesFacts(g.y, Pow2(parse) / 2, line);
        PassEnds(r, g.h);
        r := Row(Pow2(parse) / 2, Pow2(parse), parse - 1);
        step := Lines(Pow2(parse), lineSize);
        curY := startY + step / 2;
        parse := parse - 1;
      }
      LinesFacts(g.y + r.at, g.y + g.h, line);
      PassGoesOn(r, g.h);
    }
  }

  /** One link of a chain. */
  lemma ChainOf(d: Dictionary, prefix: seq<int>, first: seq<Byte>, suffix: seq<Byte>, code: nat)
    requires Chains(d, prefix, first, suffix) && Known(d, code)
    ensures code < |prefix| && code < |suffix|
    ensures if prefix[code] >= 0 then
              prefix[code] < code && Known(d, prefix[code]) &&
              StringOf(d, code) == StringOf(d, prefix[code]) + [suffix[code]]
            else StringOf(d, code) == [suffix[code]]
  {
    if code >= d.clear {
      assert ChainEntry(d, code, prefix[code], first[code], suffix[code]);
    }
  }

  lemma FitsNow(g: Geometry, size: nat)
    requires g.x + g.w <= g.canvasW && g.y + g.h <= g.canvasH && size == Area(g.canvasW, g.canvasH)
    ensures Fits(g, size)
  {
  }

  lemma CanvasWide(g: Geometry, size: nat)
    requires Fits(g, size) && g.w > 0
    ensures g.canvasW > 0
  {
  }

  lemma PassEnds(r: Row, h: nat)
    requires r.at >= h && r.parse > 0
    ensures NextPass(r, h) == NextPass(Row(Pow2(r.parse) / 2, Pow2(r.parse), r.parse - 1), h)
  {
  }

  lemma PassGoesOn(r: Row, h: nat)
    requires r.at < h || r.parse == 0
    ensures NextPass(r, h) == r
  {
  }

  /** What the cursor fields mean inside the image. */
  lemma CursorRow(g: Geometry, n: nat, curX: int, curY: int, step: int, parse: int) returns (row: Row)
    requires CursorAfter(g, n, curX, curY, step, parse) && n < Count(g)
    ensures g.w > 0 && row == RowOf(g, Quotient(n, g.w)) && curX == 4 * (g.x + Remainder(n, g.w))
    ensures curY == Lines(g.y + row.at, 4 * g.canvasW) && step == Lines(row.step, 4 * g.canvasW) && parse == row.parse
  {
    hide RowOf, Lines;
    row := RowOf(g, Quotient(n, g.w));
  }

  lemma NothingDrawn(g: Geometry, canvas: seq<Quad>, history: seq<bool>, table: seq<Quad>)
    requires Fits(g, |canvas|) && |history| == |canvas| && |table| == 256
    ensures Painted(g, canvas, table, []) == canvas && Marked(g, history, 0) == history
  {
  }

  lemma FirstCursor(g: Geometry)
    ensures var line := 4 * g.canvasW;
            CursorAfter(g, 0, 4 * g.x, if g.w == 0 then Lines(g.y + g.h, line) else Lines(g.y, line),
                        if g.interlaced then 8 * line else line, if g.interlaced then 3 else 0)
  {
    if Count(g) > 0 {
      DivModOf(0, g.w, 0, 0);
    } else if g.w > 0 {
      MulLe(1, g.w, g.h, g.h);
    }
  }

  lemma StaysBelow(g: Geometry, n: nat, curX: int, curY: int, step: int, parse: int)
    requires CursorAfter(g, n, curX, curY, step, parse) && n >= Count(g)
    ensures CursorAfter(g, n + 1, curX, curY, step, parse) && curY >= Lines(g.y + g.h, 4 * g.canvasW)
  {
  }

  /** What one more symbol does to the canvas. */
  lemma DrawnNext(g: Geometry, canvas: seq<Quad>, history: seq<bool>, table: seq<Quad>, s: seq<Byte>, v: Byte)
    requires Fits(g, |canvas|) && |history| == |canvas| && |table| == 256
    ensures var was, now := Painted(g, canvas, table, s), Painted(g, canvas, table, s + [v]);
            var marked, marked' := Marked(g, history, |s|), Marked(g, history, |s| + 1);
            if |s| >= Count(g) then now == was && marked' == marked
            else
              && g.w > 0 && PlaceOf(g, |s|) < |canvas|
              && now == was[PlaceOf(g, |s|) := Blend(was[PlaceOf(g, |s|)], table[v])]
              && marked' == marked[PlaceOf(g, |s|) := true]
  {
    hide PlaceOf, Fits, Count, Blend;
    assert (s + [v])[..|s|] == s;
    if |s| < Count(g) {
      PlaceInside(g, |canvas|, |s|);
    }
  }
}
