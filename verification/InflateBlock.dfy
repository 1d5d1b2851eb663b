/** The compressed blocks of section 3.2.3 of RFC 1951: what a block's bits mean, and stb_image's loop that expands them
    into a growing buffer. */
module InflateBlock {
  import opened Bits
  import opened Bytes
  import opened Canonical
  import opened Inflate
  import opened Options
  import opened Powers
  import opened ZHuffman

  // ---------------------------------------------------------------- tokens

  datatype Token = Literal(b: Byte) | Match(len: nat, dist: nat)

  /** A copy of `n` bytes from `dist` bytes back, one at a time, so that it may overlap what it produces. */
  function Copy(out: seq<Byte>, n: nat, dist: nat): (r: seq<Byte>)
    requires 1 <= dist <= |out|
    ensures |r| == |out| + n
  {
    if n == 0 then out
    else
      var r := Copy(out, n - 1, dist);
      r + [r[|r| - dist]]
  }

  function ExpandOne(out: seq<Byte>, t: Token): seq<Byte> {
    match t
    case Literal(b) => out + [b]
    case Match(len, dist) => if 1 <= dist <= |out| then Copy(out, len, dist) else out
  }

  function Expand(out: seq<Byte>, ts: seq<Token>): seq<Byte> {
    if ts == [] then out else ExpandOne(Expand(out, ts[..|ts| - 1]), ts[|ts| - 1])
  }

  /** A copy keeps what is there, and every new byte equals the one `dist` before it, which may be new itself. */
  lemma {:induction false} CopyIsPeriodic(out: seq<Byte>, n: nat, dist: nat)
    requires 1 <= dist <= |out|
    ensures var r := Copy(out, n, dist);
            r[..|out|] == out && forall i :: |out| <= i < |r| ==> r[i] == r[i - dist]
  {
    if n > 0 {
      CopyIsPeriodic(out, n - 1, dist);
    }
  }

  /** A copy from one byte back is a run of the last byte. */
  lemma {:induction false} CopyOfLast(out: seq<Byte>, n: nat)
    requires |out| >= 1
    ensures Copy(out, n, 1) == out + seq(n, _ => out[|out| - 1])
  {
    if n > 0 {
      CopyOfLast(out, n - 1);
    }
  }

  // ---------------------------------------------------------------- bits to tokens

  const LENGTH_BASE: seq<nat> :=
    [3, 4, 5, 6, 7, 8, 9, 10, 11, 13, 15, 17, 19, 23, 27, 31, 35, 43, 51, 59, 67, 83, 99, 115, 131, 163, 195, 227, 258,
      0, 0]
  const LENGTH_EXTRA: seq<nat> :=
    [0, 0, 0, 0, 0, 0, 0, 0, 1, 1, 1, 1, 2, 2, 2, 2, 3, 3, 3, 3, 4, 4, 4, 4, 5, 5, 5, 5, 0, 0, 0]
  const DIST_BASE: seq<nat> :=
    [1, 2, 3, 4, 5, 7, 9, 13, 17, 25, 33, 49, 65, 97, 129, 193, 257, 385, 513, 769, 1025, 1537, 2049, 3073, 4097, 6145,
     8193, 12289, 16385, 24577, 0, 0]
  const DIST_EXTRA: seq<nat> :=
    [0, 0, 0, 0, 1, 1, 2, 2, 3, 3, 4, 4, 5, 5, 6, 6, 7, 7, 8, 8, 9, 9, 10, 10, 11, 11, 12, 12, 13, 13, 0, 0]

  function LengthBase(z: nat): (l: nat)
    requires z < 29
    ensures l >= 3
  {
    LENGTH_BASE[z]
  }

  function LengthExtra(z: nat): (e: nat)
    requires z < 29
    ensures e <= 5
  {
    LENGTH_EXTRA[z]
  }

  function DistBase(z: nat): (d: nat)
    requires z < 30
    ensures d >= 1
  {
    DIST_BASE[z]
  }

  function DistExtra(z: nat): (e: nat)
    requires z < 30
    ensures e <= 13
  {
    DIST_EXTRA[z]
  }

  /** The symbol whose codeword the stream bits start with, or -1. */
  ghost function SymbolAt(lens: seq<nat>, w: nat): (sym: int)
    ensures Decodes(lens, w, sym)
  {
    if exists i :: 0 <= i < |lens| && IsPrefix(lens, i, w) then
      var i :| 0 <= i < |lens| && IsPrefix(lens, i, w); i
    else -1
  }

  lemma SymbolUnique(lens: seq<nat>, w: nat, sym: int)
    requires Lengths(lens) && Kraft(lens) <= Pow2(W) && Decodes(lens, w, sym)
    ensures sym == SymbolAt(lens, w)
  {
    var s := SymbolAt(lens, w);
    if s >= 0 && sym >= 0 {
      PrefixUnique(lens, s, sym, w);
    }
  }

  /** How many bytes a token adds. */
  function Growth(t: Token): nat {
    if t.Literal? then 1 else t.len
  }

  function Total(ts: seq<Token>): nat {
    if ts == [] then 0 else Growth(ts[0]) + Total(ts[1..])
  }

  /** The input, behind whose end all bits are zero, with the code lengths for literals and lengths, and for
      distances. */
  datatype Stream = Stream(buf: seq<Byte>, lit: seq<nat>, dist: seq<nat>)

  /** One token of a block and where the next one starts, or the block's end, or a violation of the format. */
  datatype Step = Next(t: Token, at: nat) | End(end: nat) | Wrong

  /** The rest of a match whose length symbol was `257 + z`, at bit `at`. */
  ghost function ReadMatchAt(s: Stream, at: nat, z: nat, size: nat): (r: Step)
    requires z < 29
    ensures r.Next? ==> r.at >= at + LengthExtra(z) && Growth(r.t) > 0 && r.t.Match? && 1 <= r.t.dist <= size
    ensures !r.End?
  {
    var at2 := at + LengthExtra(z);
    var dsym := SymbolAt(s.dist, Window(s.buf, at2, 16));
    if dsym < 0 || dsym >= 30 then Wrong
    else
      var at3 := at2 + s.dist[dsym];
      var d := DistBase(dsym) + Window(s.buf, at3, DistExtra(dsym));
      if size < d then Wrong
      else Next(Match(LengthBase(z) + Window(s.buf, at, LengthExtra(z)), d), at3 + DistExtra(dsym))
  }

  /** The token at bit `at`, with `size` bytes of output before it. */
  ghost function ReadStep(s: Stream, at: nat, size: nat): (r: Step)
    ensures r.Next? ==> r.at > at && Growth(r.t) > 0
    ensures r.Next? && r.t.Match? ==> 1 <= r.t.dist <= size
    ensures r.End? ==> r.end > at
  {
    var sym := SymbolAt(s.lit, Window(s.buf, at, 16));
    if sym < 0 then Wrong
    else if sym < 256 then Next(Literal(sym), at + s.lit[sym])
    else if sym == 256 then End(at + s.lit[sym])
    else if sym >= 286 then Wrong
    else ReadMatchAt(s, at + s.lit[sym], sym - 257, size)
  }

  /** What the symbol that comes next means for the step. */
  lemma StepIs(s: Stream, at: nat, size: nat)
    ensures var sym, step := SymbolAt(s.lit, Window(s.buf, at, 16)), ReadStep(s, at, size);
            && (sym < 0 || sym >= 286 ==> step == Wrong)
            && (0 <= sym < 256 ==> step == Next(Literal(sym), at + s.lit[sym]))
            && (sym == 256 ==> step == End(at + s.lit[sym]))
            && (256 < sym < 286 ==> step == ReadMatchAt(s, at + s.lit[sym], sym - 257, size))
  {
    hide Window, SymbolAt, ReadMatchAt;
  }

  /** The bits from `at` up to `end`, with `size` bytes of output before them, are a block that consists of the tokens
      `ts` and the end-of-block symbol. */
  ghost predicate Spells(s: Stream, at: nat, size: nat, ts: seq<Token>, end: nat)
    decreases |ts|
  {
    match ReadStep(s, at, size)
    case Next(t, at') => ts != [] && ts[0] == t && Spells(s, at', size + Growth(t), ts[1..], end)
    case End(e) => ts == [] && end == e
    case Wrong => false
  }

  lemma {:induction false} SpellsForward(s: Stream, at: nat, size: nat, ts: seq<Token>, end: nat)
    requires Spells(s, at, size, ts, end)
    ensures end > at
    decreases |ts|
  {
    hide ReadStep;
    if ts != [] {
      var step := ReadStep(s, at, size);
      SpellsForward(s, step.at, size + Growth(step.t), ts[1..], end);
    }
  }

  /** A block that starts at `at0` is whatever has been read up to `at`, and then what is spelled from there. */
  ghost predicate Continues(s: Stream, at0: nat, size0: nat, done: seq<Token>, at: nat) {
    forall ts: seq<Token>, e: nat ::
      Spells(s, at0, size0, ts, e) <==> done <= ts && Spells(s, at, size0 + Total(done), ts[|done|..], e)
  }

  /** The block at `at` consists of these tokens and no others, and ends at `end`. */
  ghost predicate Read(s: Stream, at: nat, size: nat, tokens: seq<Token>, end: nat) {
    forall ts: seq<Token>, e: nat :: Spells(s, at, size, ts, e) <==> ts == tokens && e == end
  }

  /** Every block at `at` adds `total` bytes at least and ends behind `end`. */
  ghost predicate Beyond(s: Stream, at: nat, size: nat, total: nat, end: nat) {
    forall ts: seq<Token>, e: nat :: Spells(s, at, size, ts, e) ==> Total(ts) >= total && e > end
  }

  lemma ContinuesStart(s: Stream, at: nat, size: nat)
    ensures Continues(s, at, size, [], at)
  {
    hide Spells;
    assert forall ts: seq<Token> :: ts[0..] == ts;
  }

  lemma SpellsToken(s: Stream, at: nat, size: nat, ts: seq<Token>, end: nat)
    requires ReadStep(s, at, size).Next?
    ensures Spells(s, at, size, ts, end) <==>
            && ts != [] && ts[0] == ReadStep(s, at, size).t
            && Spells(s, ReadStep(s, at, size).at, size + Growth(ts[0]), ts[1..], end)
  {
    hide ReadStep;
  }

  lemma ContinuesToken(s: Stream, at0: nat, size0: nat, done: seq<Token>, at: nat, t: Token, at': nat)
    requires Continues(s, at0, size0, done, at) && ReadStep(s, at, size0 + Total(done)) == Next(t, at')
    ensures Continues(s, at0, size0, done + [t], at')
    ensures Beyond(s, at0, size0, Total(done) + Growth(t), at')
  {
    hide ReadStep, Spells, Total, Growth;
    TotalOne(done, t);
    forall ts: seq<Token>, e: nat
      ensures Spells(s, at0, size0, ts, e)
         <==> done + [t] <= ts && Spells(s, at', size0 + Total(done + [t]), ts[|done + [t]|..], e)
      ensures Spells(s, at0, size0, ts, e) ==> Total(ts) >= Total(done) + Growth(t) && e > at'
    {
      if done <= ts {
        var rest := ts[|done|..];
        SpellsToken(s, at, size0 + Total(done), rest, e);
        assert done + rest == ts;
        if rest != [] {
          assert rest[1..] == ts[|done| + 1..] && rest[0] == ts[|done|];
          TotalConcat(done + [t], rest[1..]);
          assert rest[0] == t ==> done + [t] + rest[1..] == ts;
          if Spells(s, at', size0 + Total(done + [t]), rest[1..], e) {
            SpellsForward(s, at', size0 + Total(done + [t]), rest[1..], e);
          }
        }
      }
    }
  }

  lemma TotalOne(done: seq<Token>, t: Token)
    ensures Total(done + [t]) == Total(done) + Growth(t)
  {
    TotalConcat(done, [t]);
    assert [t][1..] == [];
  }

  lemma ContinuesNext(s: Stream, at0: nat, size0: nat, done: seq<Token>, at: nat, step: Step)
    requires Continues(s, at0, size0, done, at) && step == ReadStep(s, at, size0 + Total(done))
    ensures step.Next? ==>
      Continues(s, at0, size0, done + [step.t], step.at) && Beyond(s, at0, size0, Total(done) + Growth(step.t), step.at)
    ensures step.End? ==> Read(s, at0, size0, done, step.end)
    ensures step.Wrong? ==> forall ts: seq<Token>, e: nat :: !Spells(s, at0, size0, ts, e)
  {
    hide ReadStep;
    if step.Next? {
      ContinuesToken(s, at0, size0, done, at, step.t, step.at);
    } else if step.End? {
      assert forall ts: seq<Token> :: done <= ts && ts[|done|..] == [] ==> ts == done;
    }
  }

  // ---------------------------------------------------------------- how far blocks make the decoder fetch

  /** The fetching state behind the rest of a match. */
  ghost function MatchFetch(s: Stream, at: nat, z: nat, f: Fetch): (r: Option<Fetch>)
    requires z < 29
  {
    var at2 := at + LengthExtra(z);
    match ForSymbol(ForBits(f, at, LengthExtra(z)), at2, 8 * |s.buf|)
    case None => None
    case Some(g) =>
      var dsym := SymbolAt(s.dist, Window(s.buf, at2, 16));
      Some(if dsym < 0 || dsym >= 30 then g else ForBits(g, at2 + s.dist[dsym], DistExtra(dsym)))
  }

  /** The fetching state behind the step at bit `at`, or `None` if the input has run out for the second time. */
  ghost function StepFetch(s: Stream, at: nat, f: Fetch): (r: Option<Fetch>) {
    match ForSymbol(f, at, 8 * |s.buf|)
    case None => None
    case Some(g) =>
      var sym := SymbolAt(s.lit, Window(s.buf, at, 16));
      if 256 < sym < 286 then MatchFetch(s, at + s.lit[sym], sym - 257, g) else Some(g)
  }

  lemma FetchIs(s: Stream, at: nat, f: Fetch)
    ensures ForSymbol(f, at, 8 * |s.buf|).None? ==> StepFetch(s, at, f) == None
    ensures ForSymbol(f, at, 8 * |s.buf|).Some? ==>
      var sym, g := SymbolAt(s.lit, Window(s.buf, at, 16)), ForSymbol(f, at, 8 * |s.buf|).value;
      StepFetch(s, at, f) == if 256 < sym < 286 then MatchFetch(s, at + s.lit[sym], sym - 257, g) else Some(g)
  {
    hide Window, SymbolAt, ForSymbol, MatchFetch;
  }

  /** The step is malformed, or the input runs out for the second time, or the block's end lies in the padding. */
  ghost predicate StepFails(s: Stream, at: nat, size: nat, f: Fetch) {
    var step, g := ReadStep(s, at, size), StepFetch(s, at, f);
    step.Wrong? || g.None? || (step.End? && PaddingUsed(g.value, step.end))
  }

  /** The fetching state behind the block of the tokens `ts`. */
  ghost function BlockFetch(s: Stream, at: nat, size: nat, ts: seq<Token>, f: Fetch): (r: Option<Fetch>)
    decreases |ts|
  {
    match StepFetch(s, at, f)
    case None => None
    case Some(g) =>
      match ReadStep(s, at, size)
      case Next(t, at') => if ts == [] then None else BlockFetch(s, at', size + Growth(t), ts[1..], g)
      case End(_) => Some(g)
      case Wrong => None
  }

  /** Bits of the padding have been consumed when bit `end` is reached. */
  ghost predicate PaddingUsed(f: Fetch, end: nat) {
    f.padded && f.held - end < 16
  }

  /** The block at `at` with these tokens is accepted by a decoder that starts with the bits fetched as `f` says: the
      input never runs out for the second time, and of the padding nothing is consumed. */
  ghost predicate Accepted(s: Stream, at: nat, size: nat, ts: seq<Token>, end: nat, f: Fetch) {
    && Spells(s, at, size, ts, end)
    && BlockFetch(s, at, size, ts, f).Some? && !PaddingUsed(BlockFetch(s, at, size, ts, f).value, end)
  }

  /** Reading on from `at` fetches what reading from the start of the block would fetch. */
  ghost predicate FetchContinues(s: Stream, at0: nat, size0: nat, f0: Fetch, done: seq<Token>, at: nat, f: Fetch) {
    forall ts: seq<Token> :: done <= ts ==>
      BlockFetch(s, at0, size0, ts, f0) == BlockFetch(s, at, size0 + Total(done), ts[|done|..], f)
  }

  lemma FetchStarts(s: Stream, at: nat, size: nat, f: Fetch)
    ensures FetchContinues(s, at, size, f, [], at, f)
  {
    hide BlockFetch;
    assert forall ts: seq<Token> :: ts[0..] == ts;
  }

  lemma FetchNext(s: Stream, at0: nat, size0: nat, f0: Fetch, done: seq<Token>, at: nat, f: Fetch, t: Token, at': nat,
                  g: Fetch)
    requires FetchContinues(s, at0, size0, f0, done, at, f)
    requires ReadStep(s, at, size0 + Total(done)) == Next(t, at') && StepFetch(s, at, f) == Some(g)
    ensures FetchContinues(s, at0, size0, f0, done + [t], at', g)
  {
    hide ReadStep, StepFetch, Total, Growth;
    TotalOne(done, t);
    forall ts: seq<Token> | done + [t] <= ts
      ensures BlockFetch(s, at0, size0, ts, f0) == BlockFetch(s, at', size0 + Total(done + [t]), ts[|done + [t]|..], g)
    {
      assert done <= ts && ts[|done|..][1..] == ts[|done| + 1..];
    }
  }

  /** The block that has been read to its end is accepted unless the padding has been touched. */
  lemma AcceptedAtEnd(s: Stream, at0: nat, size0: nat, f0: Fetch, done: seq<Token>, at: nat, f: Fetch, end: nat)
    requires Continues(s, at0, size0, done, at) && FetchContinues(s, at0, size0, f0, done, at, f)
    requires ReadStep(s, at, size0 + Total(done)) == End(end)
    ensures BlockFetch(s, at0, size0, done, f0) == StepFetch(s, at, f) && Spells(s, at0, size0, done, end)
    ensures Accepted(s, at0, size0, done, end, f0) <==>
      StepFetch(s, at, f).Some? && !PaddingUsed(StepFetch(s, at, f).value, end)
  {
    hide ReadStep, StepFetch, PaddingUsed;
    ContinuesNext(s, at0, size0, done, at, ReadStep(s, at, size0 + Total(done)));
    assert done[|done|..] == [];
  }

  /** A decoder that runs out in the next step accepts no block. */
  lemma NoneAccepted(s: Stream, at0: nat, size0: nat, f0: Fetch, done: seq<Token>, at: nat, f: Fetch, limit: nat,
                     expandable: bool)
    requires Continues(s, at0, size0, done, at) && FetchContinues(s, at0, size0, f0, done, at, f)
    requires StepFetch(s, at, f).None? || ReadStep(s, at, size0 + Total(done)).Wrong?
    ensures Refused(s, at0, size0, f0, limit, expandable)
  {
    hide ReadStep, StepFetch, PaddingUsed;
    forall ts: seq<Token>, e: nat
      ensures !Accepted(s, at0, size0, ts, e, f0)
    {
      if Spells(s, at0, size0, ts, e) {
        assert done <= ts;
        assert BlockFetch(s, at, size0 + Total(done), ts[|done|..], f).None?;
      }
    }
  }

  /** No input bit beyond the end has been consumed, or else the padding is noticed. */
  ghost predicate FetchOk(f: Fetch, at: nat, size: nat) {
    f.held >= at && (f.padded ==> f.held >= size + 16)
  }

  lemma SymbolFetched(f: Fetch, at: nat, size: nat)
    requires FetchOk(f, at, size) && at <= size
    ensures ForSymbol(f, at, size).Some?
    ensures var g := ForSymbol(f, at, size).value; FetchOk(g, at, size) && g.held - at >= 16
  {
    if f.held - at < 16 && f.held < size {
      FillToStep(f.held - at);
    }
  }

  lemma BitsFetched(f: Fetch, at: nat, n: nat, size: nat)
    requires FetchOk(f, at, size) && n <= 16
    ensures FetchOk(ForBits(f, at, n), at + n, size)
  {
    if f.held - at < n {
      FillToStep(f.held - at);
    }
  }

  /** A step that ends inside the input never runs out. */
  lemma StepFetched(s: Stream, at: nat, size: nat, f: Fetch)
    requires SizeList(s.lit) && SizeList(s.dist) && FetchOk(f, at, 8 * |s.buf|) && !ReadStep(s, at, size).Wrong?
    requires var step := ReadStep(s, at, size); (if step.Next? then step.at else step.end) <= 8 * |s.buf|
    ensures StepFetch(s, at, f).Some?
    ensures var step := ReadStep(s, at, size);
            FetchOk(StepFetch(s, at, f).value, if step.Next? then step.at else step.end, 8 * |s.buf|)
  {
    hide Window, SymbolAt, LengthBase, LengthExtra, DistBase, DistExtra, ForSymbol, ForBits, FetchOk, ReadStep,
      ReadMatchAt;
    StepIs(s, at, size);
    var sym := SymbolAt(s.lit, Window(s.buf, at, 16));
    SymbolFetched(f, at, 8 * |s.buf|);
    var g := ForSymbol(f, at, 8 * |s.buf|).value;
    var at1 := at + s.lit[sym];
    Consumed(g, at, s.lit[sym], 8 * |s.buf|);
    if 256 < sym < 286 {
      MatchFetched(s, at1, sym - 257, size, g);
    }
  }

  lemma Consumed(f: Fetch, at: nat, n: nat, size: nat)
    requires FetchOk(f, at, size) && f.held - at >= 16 && n <= 16
    ensures FetchOk(f, at + n, size)
  {
  }

  lemma MatchFetched(s: Stream, at: nat, z: nat, size: nat, f: Fetch)
    requires SizeList(s.dist) && FetchOk(f, at, 8 * |s.buf|) && z < 29
    requires ReadMatchAt(s, at, z, size).Next? && ReadMatchAt(s, at, z, size).at <= 8 * |s.buf|
    ensures MatchFetch(s, at, z, f).Some?
    ensures FetchOk(MatchFetch(s, at, z, f).value, ReadMatchAt(s, at, z, size).at, 8 * |s.buf|)
  {
    hide Window, SymbolAt, LengthBase, LengthExtra, DistBase, DistExtra, ForSymbol, ForBits, FetchOk;
    var at2 := at + LengthExtra(z);
    var dsym := SymbolAt(s.dist, Window(s.buf, at2, 16));
    BitsFetched(f, at, LengthExtra(z), 8 * |s.buf|);
    SymbolFetched(ForBits(f, at, LengthExtra(z)), at2, 8 * |s.buf|);
    var g := ForSymbol(ForBits(f, at, LengthExtra(z)), at2, 8 * |s.buf|).value;
    Consumed(g, at2, s.dist[dsym], 8 * |s.buf|);
    BitsFetched(g, at2 + s.dist[dsym], DistExtra(dsym), 8 * |s.buf|);
  }

  /** Every block inside the input is accepted. */
  lemma {:induction false} InsideAccepted(s: Stream, at: nat, size: nat, ts: seq<Token>, end: nat, f: Fetch)
    requires SizeList(s.lit) && SizeList(s.dist) && FetchOk(f, at, 8 * |s.buf|)
    requires Spells(s, at, size, ts, end) && end <= 8 * |s.buf|
    ensures Accepted(s, at, size, ts, end, f)
    decreases |ts|
  {
    hide ReadStep, StepFetch;
    var step := ReadStep(s, at, size);
    if step.Next? {
      SpellsForward(s, step.at, size + Growth(step.t), ts[1..], end);
      StepFetched(s, at, size, f);
      InsideAccepted(s, step.at, size + Growth(step.t), ts[1..], end, StepFetch(s, at, f).value);
    } else {
      StepFetched(s, at, size, f);
    }
  }

  // ---------------------------------------------------------------- the output buffer

  const UINT_MAX := 0xffff_ffff
  const SAFE_SIZE := 0x8000_0000

  class ZBuf {
    const reader: BitReader
    const expandable: bool
    var out: array<Byte>
    var size: nat

    ghost predicate Valid()
      reads this, reader
    {
      reader.Valid() && size <= out.Length && 0 < out.Length <= UINT_MAX
    }

    ghost function Output(): seq<Byte>
      requires size <= out.Length
      reads this, out
    {
      out[..size]
    }

    constructor (reader: BitReader, capacity: nat, expandable: bool)
      requires reader.Valid() && 0 < capacity <= UINT_MAX
      ensures Valid() && Output() == [] && this.reader == reader && this.expandable == expandable
      ensures out.Length == capacity && fresh(out)
    {
      this.reader := reader;
      this.expandable := expandable;
      out := new Byte[capacity](_ => 0);
      size := 0;
    }

    /** Room for a final output of `n` bytes can be had. */
    ghost predicate RoomFor(n: nat)
      reads this
    {
      Room(out.Length, expandable, n)
    }

    /** `stbi__zexpand`: doubles the buffer until `n` more bytes fit, and keeps what has been written. */
    method ZExpand(n: nat) returns (ok: bool)
      requires Valid()
      modifies this`out
      ensures Valid() && Output() == old(Output())
      ensures ok ==> size + n <= out.Length && (out == old(out) || fresh(out))
      ensures !ok ==> out == old(out)
      ensures expandable && size + n <= SAFE_SIZE ==> ok
      ensures out.Length >= old(out.Length)
    {
      if !expandable {
        return false;
      }
      var limit := out.Length;
      if UINT_MAX - size < n {
        return false;
      }
      while size + n > limit
        invariant out.Length <= limit <= UINT_MAX
        invariant limit == out.Length || limit / 2 < size + n
        decreases size + n - limit
      {
        if limit > UINT_MAX / 2 {
          return false;
        }
        limit := limit * 2;
      }
      var q := new Byte[limit](_ => 0);
      forall i | 0 <= i < size {
        q[i] := out[i];
      }
      assert q[..size] == out[..size];
      out := q;
      return true;
    }

    method AddLiteral(b: Byte) returns (ok: bool)
      requires Valid()
      modifies this, out
      ensures Valid() && (out == old(out) || fresh(out))
      ensures ok ==> Output() == old(Output()) + [b]
      ensures old(RoomFor(size + 1)) ==> ok
      ensures out.Length >= old(out.Length)
    {
      if size >= out.Length {
        ok := ZExpand(1);
        if !ok {
          return false;
        }
      }
      out[size] := b;
      size := size + 1;
      return true;
    }

    /** The loop for runs of one byte. */
    method CopyRun(len: nat)
      requires Valid() && 1 <= size && size + len <= out.Length
      modifies this`size, out
      ensures Valid() && Output() == Copy(old(Output()), len, 1)
    {
      ghost var start := Output();
      var v := out[size - 1];
      for i := 0 to len
        invariant size == |start| + i <= out.Length && out[..size] == Copy(start, i, 1) && out[size - 1] == v
      {
        out[size] := v;
        size := size + 1;
      }
    }

    /** The general copying loop; source and destination may overlap. */
    method CopyBack(len: nat, dist: nat)
      requires Valid() && 1 <= dist <= size && size + len <= out.Length
      modifies this`size, out
      ensures Valid() && Output() == Copy(old(Output()), len, dist)
    {
      ghost var start := Output();
      var p := size - dist;
      for i := 0 to len
        invariant size == |start| + i <= out.Length && p == size - dist && out[..size] == Copy(start, i, dist)
      {
        out[size] := out[p];
        size, p := size + 1, p + 1;
      }
    }

    method AddMatch(len: nat, dist: nat) returns (ok: bool)
      requires Valid() && 1 <= dist <= size
      modifies this, out
      ensures Valid() && (out == old(out) || fresh(out))
      ensures ok ==> Output() == Copy(old(Output()), len, dist)
      ensures old(RoomFor(size + len)) ==> ok
      ensures out.Length >= old(out.Length)
    {
      if len > out.Length - size {
        ok := ZExpand(len);
        if !ok {
          return false;
        }
      }
      if dist == 1 {
        CopyRun(len);
      } else {
        CopyBack(len, dist);
      }
      return true;
    }

    /** Decoding finds the symbol there is, unless the input has run out for the second time. */
    method DecodeSymbol(z: ZHuffman, ghost lens: seq<nat>) returns (sym: int)
      requires Valid() && z.TablesFor(lens)
      modifies reader
      ensures Valid() && -1 <= sym < |lens|
      ensures match ForSymbol(old(reader.Fetched()), old(reader.at), 8 * |reader.zbuffer|)
              case None => sym == -1
              case Some(g) => reader.Fetched() == g && sym == SymbolAt(lens, Window(reader.zbuffer, old(reader.at), 16))
      ensures reader.at == old(reader.at) + if sym >= 0 then lens[sym] else 0
    {
      hide Window, Kraft, Pow2, IsPrefix, ForSymbol;
      ghost var exhausted, at := reader.Exhausted(), reader.at;
      sym := reader.Decode(z, lens);
      if !exhausted {
        SymbolUnique(lens, Window(reader.zbuffer, at, 16), sym);
      }
    }

    /** Extra bits; none are received if none are due. */
    method Extra(n: nat) returns (bits: nat)
      requires Valid() && n <= 16
      modifies reader
      ensures Valid() && bits == Window(reader.zbuffer, old(reader.at), n) && reader.at == old(reader.at) + n
      ensures reader.Fetched() == ForBits(old(reader.Fetched()), old(reader.at), n)
    {
      hide Window;
      WindowNone(reader.zbuffer, reader.at);
      if n == 0 {
        return 0;
      }
      bits := reader.Receive(n);
    }

    /** The reading of a match's length and distance, behind a length symbol; `None` if it is malformed or cut off. */
    method ReadMatch(z: nat, distance: ZHuffman, ghost s: Stream) returns (m: Option<(nat, nat)>)
      requires Valid() && z < 29 && distance.TablesFor(s.dist) && s.buf == reader.zbuffer
      modifies reader
      ensures Valid()
      ensures m.Some? && m.value.1 <= size ==>
        && ReadMatchAt(s, old(reader.at), z, size) == Next(Match(m.value.0, m.value.1), reader.at)
        && MatchFetch(s, old(reader.at), z, old(reader.Fetched())) == Some(reader.Fetched())
      ensures m.None? || size < m.value.1 ==>
        ReadMatchAt(s, old(reader.at), z, size).Wrong? || MatchFetch(s, old(reader.at), z, old(reader.Fetched())).None?
    {
      hide Window, Kraft, Pow2, SymbolAt, LengthBase, LengthExtra, DistBase, DistExtra, ForSymbol, ForBits;
      var len := Extra(LengthExtra(z));
      len := LengthBase(z) + len;
      var dsym := DecodeSymbol(distance, s.dist);
      if dsym < 0 || dsym >= 30 {
        return None;
      }
      var d := Extra(DistExtra(dsym));
      return Some((len, DistBase(dsym) + d));
    }

    /** The reading part of one round of `stbi__parse_huffman_block`. */
    method ReadOne(length: ZHuffman, distance: ZHuffman, ghost s: Stream) returns (status: Status, t: Token)
      requires Valid() && length.TablesFor(s.lit) && distance.TablesFor(s.dist) && s.buf == reader.zbuffer
      modifies reader
      ensures Valid()
      ensures status != Failed ==> StepFetch(s, old(reader.at), old(reader.Fetched())) == Some(reader.Fetched())
      ensures status == More ==> ReadStep(s, old(reader.at), size) == Next(t, reader.at)
      ensures status == Finished ==>
        ReadStep(s, old(reader.at), size) == End(reader.at) && !PaddingUsed(reader.Fetched(), reader.at)
      ensures status == Failed ==> StepFails(s, old(reader.at), size, old(reader.Fetched()))
    {
      hide Window, Kraft, Pow2, ReadMatchAt, SymbolAt, ReadStep, LengthExtra, ForSymbol, MatchFetch, StepFetch, Valid,
        ZHuffman.TablesFor;
      t := Literal(0);
      StepIs(s, reader.at, size);
      FetchIs(s, reader.at, reader.Fetched());
      var z := DecodeSymbol(length, s.lit);
      if z < 256 {
        if z < 0 {
          return Failed, t;
        }
        return More, Literal(z);
      }
      if z == 256 {
        return if reader.hitZeofOnce && reader.numBits < 16 then Failed else Finished, t;
      }
      if z >= 286 {
        return Failed, t;
      }
      var m := ReadMatch(z - 257, distance, s);
      if m.None? || size < m.value.1 {
        return Failed, t;
      }
      return More, Match(m.value.0, m.value.1);
    }

    /** The writing part of a round. */
    method AddToken(t: Token) returns (ok: bool)
      requires Valid() && (t.Match? ==> 1 <= t.dist <= size)
      modifies this, out
      ensures Valid() && (out == old(out) || fresh(out)) && out.Length >= old(out.Length)
      ensures ok ==> Output() == ExpandOne(old(Output()), t) && size == old(size) + Growth(t)
      ensures old(RoomFor(size + Growth(t))) ==> ok
    {
      hide Copy;
      match t {
        case Literal(b) => ok := AddLiteral(b);
        case Match(len, dist) => ok := AddMatch(len, dist);
      }
    }

    /** The state of the loop: the tokens `done` have been read and expanded behind `start`. */
    ghost predicate Progress(s: Stream, at0: nat, f0: Fetch, start: seq<Byte>, done: seq<Token>, limit: nat)
      reads this, reader, out
    {
      && Valid() && s.buf == reader.zbuffer && Output() == Expand(start, done) && size == |start| + Total(done)
      && Continues(s, at0, |start|, done, reader.at) && limit <= out.Length
      && FetchContinues(s, at0, |start|, f0, done, reader.at, reader.Fetched())
    }

    /** One round of the loop. It fails only on malformed or truncated input, or for lack of room. */
    method ParseRound(length: ZHuffman, distance: ZHuffman, ghost s: Stream, ghost at0: nat, ghost f0: Fetch,
                      ghost start: seq<Byte>, ghost done: seq<Token>, ghost limit: nat)
      returns (status: Status, ghost done': seq<Token>)
      requires length.TablesFor(s.lit) && distance.TablesFor(s.dist) && Progress(s, at0, f0, start, done, limit)
      modifies this, out, reader
      ensures Valid() && (out == old(out) || fresh(out))
      ensures status == More ==> Progress(s, at0, f0, start, done', limit) && size > old(size)
      ensures status == Finished ==> Read(s, at0, |start|, done, reader.at) && Output() == Expand(start, done)
      ensures status == Finished ==>
        Accepted(s, at0, |start|, done, reader.at, f0) &&
        BlockFetch(s, at0, |start|, done, f0) == Some(reader.Fetched())
      ensures status == Failed ==> Refused(s, at0, |start|, f0, limit, expandable)
    {
      hide Spells, ReadStep, Expand, ExpandOne, Total, Growth, Copy, Continues, Beyond, Read, Refused, Room, Valid,
        Window, Kraft, Pow2, ZHuffman.TablesFor, StepFetch, BlockFetch, FetchContinues, Accepted, PaddingUsed;
      ghost var step, at, f := ReadStep(s, reader.at, size), reader.at, reader.Fetched();
      ContinuesNext(s, at0, |start|, done, at, step);
      if step.End? {
        AcceptedAtEnd(s, at0, |start|, f0, done, at, f, step.end);
        RefusedAtEnd(s, at0, |start|, f0, done, step.end, limit, expandable);
      }
      var t;
      status, t := ReadOne(length, distance, s);
      done' := done + [t];
      if status == More {
        ExpandSnoc(start, done, t);
        FetchNext(s, at0, |start|, f0, done, at, f, t, reader.at, reader.Fetched());
        RefusedForRoom(s, at0, |start|, f0, Total(done), step, limit, out.Length, expandable);
        var added := AddToken(t);
        if !added {
          status := Failed;
        }
      } else if status == Failed {
        assert StepFails(s, at, size, f);
        if StepFetch(s, at, f).None? || step.Wrong? {
          NoneAccepted(s, at0, |start|, f0, done, at, f, limit, expandable);
        }
      }
    }

    /** The loop of `stbi__parse_huffman_block`. */
    method ParseRounds(length: ZHuffman, distance: ZHuffman, ghost s: Stream, ghost at0: nat, ghost f0: Fetch,
                       ghost start: seq<Byte>)
      returns (ok: bool, ghost done: seq<Token>)
      requires length.TablesFor(s.lit) && distance.TablesFor(s.dist) && Progress(s, at0, f0, start, [], out.Length)
      modifies this, out, reader
      ensures Valid() && (out == old(out) || fresh(out))
      ensures ok ==> Read(s, at0, |start|, done, reader.at) && Output() == Expand(start, done)
      ensures ok ==>
        Accepted(s, at0, |start|, done, reader.at, f0) &&
        BlockFetch(s, at0, |start|, done, f0) == Some(reader.Fetched())
      ensures !ok ==> Refused(s, at0, |start|, f0, old(out.Length), expandable)
    {
      hide Spells, ReadStep, Expand, ExpandOne, Total, Copy, Continues, Read, Refused, BlockFetch, FetchContinues,
        Accepted;
      done := [];
      ghost var limit := out.Length;
      while true
        invariant Progress(s, at0, f0, start, done, limit) && (out == old(out) || fresh(out))
        decreases UINT_MAX - size
      {
        var status;
        ghost var done';
        status, done' := ParseRound(length, distance, s, at0, f0, start, done, limit);
        if status == Failed {
          return false, done;
        }
        if status == Finished {
          return true, done;
        }
        done := done';
      }
    }

    /** `stbi__parse_huffman_block`. Success means that the bits read are a block, that it is acceptable, and that its
        expansion has been appended; failure, that no acceptable block is there for which there is room. */
    method ParseHuffmanBlock(length: ZHuffman, distance: ZHuffman, ghost s: Stream) returns (ok: bool,
                             ghost tokens: seq<Token>)
      requires Valid() && length.TablesFor(s.lit) && distance.TablesFor(s.dist) && s.buf == reader.zbuffer
      modifies this, out, reader
      ensures Valid() && (out == old(out) || fresh(out))
      ensures ok ==> Read(s, old(reader.at), old(size), tokens, reader.at) && Output() == Expand(old(Output()), tokens)
      ensures ok ==>
        && Accepted(s, old(reader.at), old(size), tokens, reader.at, old(reader.Fetched()))
        && BlockFetch(s, old(reader.at), old(size), tokens, old(reader.Fetched())) == Some(reader.Fetched())
      ensures !ok ==> Refused(s, old(reader.at), old(size), old(reader.Fetched()), old(out.Length), expandable)
    {
      hide Spells, ReadStep, Expand, ExpandOne, Total, Copy, Continues, Read, Refused, BlockFetch, FetchContinues,
        Accepted;
      ghost var start := Output();
      ContinuesStart(s, reader.at, size);
      FetchStarts(s, reader.at, size, reader.Fetched());
      ExpandNone(start);
      ok, tokens := ParseRounds(length, distance, s, reader.at, reader.Fetched(), start);
    }

    /** The decoder's own fetching state is one from which every block inside the input is accepted. */
    lemma ValidIsFetchOk()
      requires Valid()
      ensures FetchOk(reader.Fetched(), reader.at, 8 * |reader.zbuffer|)
    {
      hide Window;
    }
  }

  datatype Status = More | Finished | Failed

  /** There is no acceptable block at `at` for whose expansion there is room. */
  ghost predicate Refused(s: Stream, at: nat, size: nat, f: Fetch, limit: nat, expandable: bool) {
    forall ts: seq<Token>, e: nat :: Accepted(s, at, size, ts, e, f) ==> !Room(limit, expandable, size + Total(ts))
  }

  lemma RefusedForRoom(s: Stream, at0: nat, size0: nat, f0: Fetch, total: nat, step: Step, limit: nat, length: nat,
                       expandable: bool)
    requires step.Next? && Beyond(s, at0, size0, total + Growth(step.t), step.at) && limit <= length
    ensures !Room(length, expandable, size0 + total + Growth(step.t)) ==> Refused(s, at0, size0, f0, limit, expandable)
  {
    hide Spells, BlockFetch, PaddingUsed;
  }

  lemma RefusedAtEnd(s: Stream, at0: nat, size0: nat, f0: Fetch, done: seq<Token>, end: nat, limit: nat,
                     expandable: bool)
    requires Read(s, at0, size0, done, end)
    ensures !Accepted(s, at0, size0, done, end, f0) ==> Refused(s, at0, size0, f0, limit, expandable)
  {
    hide Spells, BlockFetch, PaddingUsed;
  }

  /** A buffer of `limit` bytes holds an output of `n`, perhaps after growing. */
  ghost predicate Room(limit: nat, expandable: bool, n: nat) {
    n <= limit || (expandable && n <= SAFE_SIZE)
  }

  lemma WindowNone(buf: seq<Byte>, k: nat)
    ensures Window(buf, k, 0) == 0
  {
  }

  lemma ExpandNone(out: seq<Byte>)
    ensures Expand(out, []) == out && Total([]) == 0
  {
  }

  lemma ExpandSnoc(out: seq<Byte>, ts: seq<Token>, t: Token)
    ensures Expand(out, ts + [t]) == ExpandOne(Expand(out, ts), t)
    ensures Total(ts + [t]) == Total(ts) + Growth(t)
  {
    assert (ts + [t])[..|ts|] == ts;
    TotalOne(ts, t);
  }

  lemma {:induction false} TotalConcat(a: seq<Token>, b: seq<Token>)
    ensures Total(a + b) == Total(a) + Total(b)
  {
    if a == [] {
      assert a + b == b;
    } else {
      assert (a + b)[1..] == a[1..] + b;
      TotalConcat(a[1..], b);
    }
  }
}
