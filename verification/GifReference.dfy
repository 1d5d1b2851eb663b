/** LZW decoding as GIF89a describes it, where the table holds 4096 codes and then stays as it is until it is
    cleared, and how the decoder that counts on to 8192 relates to it. */
module GifReference {
  import opened Bits
  import opened Bytes
  import opened GifLzw
  import opened Powers

  /** The number of codes of at most 12 bits. */
  const TABLE := 4096

  // ---------------------------------------------------------------- the reference with a frozen table

  /** What one code does. Nothing has to be cleared first: decoding starts with the table of the single symbols. */
  function FrozenStep(st: Decoder, cs: nat, code: nat): Outcome
    requires InBounds(st)
  {
    var d := st.dict;
    if code == d.clear then More(Cleared(st, cs))
    else if code == d.clear + 1 then Stop(Done)
    else if code > Available(d) then Stop(IllegalCode)
    else if st.prev >= 0 && Available(d) < TABLE then More(PutOut(st, Learn(d, st.prev, code), code))
    else if code == Available(d) then Stop(IllegalCode)
    else More(PutOut(st, d, code))
  }

  lemma FrozenInBounds(st: Decoder, cs: nat, code: nat)
    requires InBounds(st) && cs <= 12 && st.dict.clear == Pow2(cs)
    ensures FrozenStep(st, cs, code).More? ==>
      InBounds(FrozenStep(st, cs, code).next) && FrozenStep(st, cs, code).next.dict.clear == st.dict.clear
  {
    hide StringOf, Pow2, Learn;
    if st.prev >= 0 && Available(st.dict) < TABLE && (Known(st.dict, code) || code == Available(st.dict)) {
      LearnAdds(st.dict, st.prev, code);
      SizeLimit(st.size, Available(st.dict) + 1);
    }
    SizeLimit(st.size, Available(st.dict));
  }

  ghost function FrozenRun(data: seq<Byte>, k: nat, st: Decoder, cs: nat): (Status, seq<Byte>)
    requires InBounds(st) && cs <= 12 && st.dict.clear == Pow2(cs)
    decreases 8 * |data| - k
  {
    if k + st.size > 8 * |data| then (Done, st.out) else
      var code := Window(data, k, st.size);
      FrozenInBounds(st, cs, code);
      match FrozenStep(st, cs, code)
      case Stop(status) => (status, st.out)
      case More(next) => FrozenRun(data, k + st.size, next, cs)
  }

  /** The status at the end, and all symbols put out. */
  ghost function Reference(input: seq<Byte>, start: nat): (Status, seq<Byte>) {
    var cs: nat := Get8(input, start);
    if cs > 12 then (BadCodeSize, []) else
      ClearFits(cs);
      FrozenRun(Flat(input, start + 1, 0), 0, Initial(cs), cs)
  }

  // ---------------------------------------------------------------- agreement

  /** The dictionary without the codes that do not fit 12 bits. */
  function Cut(d: Dictionary): (r: Dictionary)
    requires d.clear + 2 <= TABLE
  {
    if Available(d) <= TABLE then d else Dictionary(d.clear, d.added[..TABLE - d.clear - 2])
  }

  function Frozen(st: Decoder): (r: Decoder)
    requires st.dict.clear + 2 <= TABLE
  {
    st.(dict := Cut(st.dict))
  }

  /** States behind a clear code, with codes of at most 12 bits. */
  ghost predicate Narrow(st: Decoder) {
    InBounds(st) && st.started && st.dict.clear <= 2048 && st.size <= 12 && st.prev < TABLE
  }

  lemma CutKeeps(d: Dictionary, code: int)
    requires Sound(d) && d.clear <= 2048 && code < TABLE
    ensures Sound(Cut(d)) && (Known(Cut(d), code) <==> Known(d, code))
    ensures Known(d, code) ==> StringOf(Cut(d), code) == StringOf(d, code)
  {
  }

  lemma FrozenIsInBounds(st: Decoder)
    requires Narrow(st)
    ensures InBounds(Frozen(st))
  {
    CutKeeps(st.dict, st.prev);
  }

  /** Up to 4096 codes both decoders learn the same, and then only one learns on. */
  lemma LearnsCut(d: Dictionary, prev: int, code: nat)
    requires Sound(d) && d.clear <= 2048 && prev < TABLE && Known(d, prev) && code < TABLE
    requires Known(d, code) || code == Available(d)
    ensures Available(Cut(d)) >= TABLE ==> Cut(Learn(d, prev, code)) == Cut(d)
    ensures Available(Cut(d)) < TABLE ==> Cut(d) == d && Cut(Learn(d, prev, code)) == Learn(d, prev, code)
  {
  }

  lemma SizesAgree(size: nat, avail: nat)
    requires 1 <= size <= 12 && avail > 0
    ensures NextSize(size, avail) <= 12
    ensures avail >= TABLE ==> NextSize(size, avail) == size == NextSize(size, TABLE)
  {
    if size == 12 && avail < TABLE {
      assert Pow2(12) == 4096;
      SmallRemainder(avail, Pow2(12));
    }
  }

  /** Step by step the two decoders do the same, except that one may have learned too many codes. */
  lemma StepsAgree(st: Decoder, cs: nat, code: nat)
    requires Narrow(st) && cs <= 11 && st.dict.clear == Pow2(cs) && code < TABLE
    ensures InBounds(Frozen(st))
    ensures match Step(st, cs, code)
            case Stop(TooManyCodes) => FrozenStep(Frozen(st), cs, code).More?
            case Stop(e) => FrozenStep(Frozen(st), cs, code) == Stop(e)
            case More(next) =>
              && Narrow(next) && next.dict.clear == st.dict.clear
              && FrozenStep(Frozen(st), cs, code) == More(Frozen(next))
  {
    hide Pow2, StringOf, Learn, NextSize;
    FrozenIsInBounds(st);
    StepInBounds(st, cs, code);
    CutKeeps(st.dict, code);
    SizesAgree(st.size, Available(st.dict));
    if st.prev >= 0 && code <= Available(st.dict) && code != st.dict.clear && code != st.dict.clear + 1 {
      LearnsCut(st.dict, st.prev, code);
      LearnAdds(st.dict, st.prev, code);
      SizesAgree(st.size, Available(st.dict) + 1);
      CutKeeps(Learn(st.dict, st.prev, code), code);
    }
  }

  // ---------------------------------------------------------------- whole runs

  /** How many codes other than the clear code may follow each other. */
  function Limit(cs: nat): int {
    MAX_CODES - 1 - Pow2(cs)
  }

  /** How many of them have followed the last clear code. */
  function Stretch(st: Decoder): (n: nat) {
    if st.prev < 0 then 0 else |st.dict.added| + 1
  }

  /** From here on, when `n` ordinary codes have followed the last clear code, no stretch of them exceeds the limit. */
  ghost predicate ShortStretches(data: seq<Byte>, k: nat, st: Decoder, cs: nat, n: nat)
    requires InBounds(st) && cs <= 12 && st.dict.clear == Pow2(cs)
    decreases 8 * |data| - k
  {
    k + st.size > 8 * |data| ||
    var code := Window(data, k, st.size);
    FrozenInBounds(st, cs, code);
    match FrozenStep(st, cs, code)
    case Stop(_) => true
    case More(next) =>
      if code == st.dict.clear then ShortStretches(data, k + st.size, next, cs, 0)
      else n + 1 <= Limit(cs) && ShortStretches(data, k + st.size, next, cs, n + 1)
  }

  lemma FrozenRunStep(data: seq<Byte>, k: nat, st: Decoder, cs: nat, n: nat)
    requires InBounds(st) && cs <= 12 && st.dict.clear == Pow2(cs) && k + st.size <= 8 * |data|
    ensures match FrozenStep(st, cs, Window(data, k, st.size))
            case Stop(status) => FrozenRun(data, k, st, cs) == (status, st.out) && ShortStretches(data, k, st, cs, n)
            case More(next) =>
              && InBounds(next) && next.dict.clear == Pow2(cs)
              && FrozenRun(data, k, st, cs) == FrozenRun(data, k + st.size, next, cs)
              && (ShortStretches(data, k, st, cs, n) <==>
                   if Window(data, k, st.size) == st.dict.clear then ShortStretches(data, k + st.size, next, cs, 0)
                   else n + 1 <= Limit(cs) && ShortStretches(data, k + st.size, next, cs, n + 1))
  {
    hide Window, Pow2, FrozenStep;
    FrozenInBounds(st, cs, Window(data, k, st.size));
  }

  /** The stretch grows with every ordinary code, and the step fails exactly when it would exceed the limit. */
  lemma StretchGrows(st: Decoder, cs: nat, code: nat)
    requires InBounds(st) && st.dict.clear == Pow2(cs)
    ensures match Step(st, cs, code)
            case Stop(e) => e == TooManyCodes ==> code != st.dict.clear && Stretch(st) + 1 > Limit(cs)
            case More(next) =>
              if code == st.dict.clear then Stretch(next) == 0
              else Stretch(next) == Stretch(st) + 1 && (Stretch(next) > 1 ==> Stretch(next) <= Limit(cs))
  {
    hide Pow2;
    if st.prev >= 0 && (Known(st.dict, code) || code == Available(st.dict)) {
      LearnAdds(st.dict, st.prev, code);
    }
  }

  /** The frozen decoder never learns too many codes, and never misses a clear code. */
  lemma {:induction false} FrozenNeverFull(data: seq<Byte>, k: nat, st: Decoder, cs: nat)
    requires InBounds(st) && cs <= 12 && st.dict.clear == Pow2(cs)
    ensures FrozenRun(data, k, st, cs).0 != TooManyCodes && FrozenRun(data, k, st, cs).0 != NoClearCode
    ensures st.out <= FrozenRun(data, k, st, cs).1
    decreases 8 * |data| - k
  {
    hide Window, Pow2, StringOf;
    if k + st.size <= 8 * |data| {
      FrozenRunStep(data, k, st, cs, 0);
      var code := Window(data, k, st.size);
      FrozenInBounds(st, cs, code);
      if FrozenStep(st, cs, code).More? {
        FrozenNeverFull(data, k + st.size, FrozenStep(st, cs, code).next, cs);
      }
    }
  }

  /** The decoder agrees with the reference exactly when no stretch of ordinary codes exceeds the limit; otherwise it
      reports too many codes, and what it has put out by then is the beginning of what it should put out. */
  lemma {:induction false} RunsAgree(data: seq<Byte>, k: nat, st: Decoder, cs: nat)
    requires Narrow(st) && cs <= 11 && st.dict.clear == Pow2(cs)
    ensures InBounds(Frozen(st))
    ensures if ShortStretches(data, k, Frozen(st), cs, Stretch(st)) then Run(data, k, st, cs)
         == FrozenRun(data, k, Frozen(st), cs)
            else Run(data, k, st, cs).0
                 == TooManyCodes && Run(data, k, st, cs).1 <= FrozenRun(data, k, Frozen(st), cs).1
    decreases 8 * |data| - k
  {
    hide Window, Pow2, Step, FrozenStep, StringOf, Cut, Narrow;
    FrozenIsInBounds(st);
    NarrowIs(st);
    if k + st.size <= 8 * |data| {
      var code := Window(data, k, st.size);
      Pow2Monotone(st.size, 12);
      Twelve();
      RunStep(data, k, st, cs);
      FrozenRunStep(data, k, Frozen(st), cs, Stretch(st));
      StepsAgree(st, cs, code);
      StretchGrows(st, cs, code);
      match Step(st, cs, code)
      case Stop(e) =>
        if e == TooManyCodes {
          FrozenNeverFull(data, k, Frozen(st), cs);
        }
      case More(next) =>
        RunsAgree(data, k + st.size, next, cs);
    }
  }

  lemma Twelve()
    ensures Pow2(12) == 4096 && Pow2(11) == 2048
  {
  }

  lemma NarrowIs(st: Decoder)
    requires Narrow(st)
    ensures InBounds(st) && st.dict.clear <= 2048 && 1 <= st.size <= 12
    ensures Frozen(st).size == st.size && Frozen(st).out == st.out && Frozen(st).dict.clear == st.dict.clear
  {
  }

  // ---------------------------------------------------------------- whole streams

  /** The first code of a stream with start-up table of code size `cs` lets the decoder start: it is the clear code, the
      end code or out of range, or there is none. The first free code counts as missing a clear code, too. */
  ghost predicate StartsProperly(data: seq<Byte>, cs: nat) {
    cs + 1 > 8 * |data| ||
    var code := Window(data, 0, cs + 1);
    code == Pow2(cs) || code == Pow2(cs) + 1 || code > Pow2(cs) + 2
  }

  /** What the first code leads to, in the decoder and in the reference. */
  lemma FirstStep(cs: nat, code: nat)
    requires cs <= 11
    ensures InBounds(Initial(cs)) && Initial(cs).dict.clear == Pow2(cs)
    ensures code == Pow2(cs) ==>
      Step(Initial(cs), cs, code) == FrozenStep(Initial(cs), cs, code) == More(Cleared(Initial(cs), cs))
    ensures code == Pow2(cs) + 1 ==> Step(Initial(cs), cs, code) == FrozenStep(Initial(cs), cs, code) == Stop(Done)
    ensures code > Pow2(cs) + 2 ==>
              Step(Initial(cs), cs, code) == FrozenStep(Initial(cs), cs, code) == Stop(IllegalCode)
    ensures code < Pow2(cs) || code == Pow2(cs) + 2 ==> Step(Initial(cs), cs, code) == Stop(NoClearCode)
  {
    ClearFits(cs);
  }

  lemma ClearedIsNarrow(cs: nat)
    requires cs <= 11
    ensures InBounds(Initial(cs)) && Initial(cs).dict.clear == Pow2(cs)
    ensures Narrow(Cleared(Initial(cs), cs)) && Frozen(Cleared(Initial(cs), cs)) == Cleared(Initial(cs), cs)
    ensures Stretch(Cleared(Initial(cs), cs)) == 0
  {
    ClearFits(cs);
    Twelve();
    Pow2Monotone(cs, 11);
  }

  /** The runs from the beginning. Without a proper start the decoder reports a missing clear code and puts out nothing;
      with one it agrees with the reference exactly when no stretch of ordinary codes exceeds the limit. */
  lemma RunsFromStart(data: seq<Byte>, cs: nat)
    requires cs <= 11
    ensures InBounds(Initial(cs)) && Initial(cs).dict.clear == Pow2(cs)
    ensures !StartsProperly(data, cs) ==> Run(data, 0, Initial(cs), cs) == (NoClearCode, [])
    ensures StartsProperly(data, cs) ==>
      if ShortStretches(data, 0, Initial(cs), cs, 0)
      then Run(data, 0, Initial(cs), cs) == FrozenRun(data, 0, Initial(cs), cs)
      else Run(data, 0, Initial(cs), cs).0 == TooManyCodes
  {
    hide Pow2, Step, FrozenStep, Window;
    ClearedIsNarrow(cs);
    if cs + 1 <= 8 * |data| {
      var code := Window(data, 0, cs + 1);
      FirstStep(cs, code);
      RunStep(data, 0, Initial(cs), cs);
      FrozenRunStep(data, 0, Initial(cs), cs, 0);
      if code == Pow2(cs) {
        RunsAgree(data, cs + 1, Cleared(Initial(cs), cs), cs);
      }
    }
  }

  /** For whole streams, from the code size on. */
  lemma StreamsAgree(input: seq<Byte>, start: nat)
    requires Get8(input, start) <= 11
    ensures var cs: nat, data := Get8(input, start), Flat(input, start + 1, 0);
            && InBounds(Initial(cs)) && Initial(cs).dict.clear == Pow2(cs)
            && (Decoded(input, start) == Reference(input, start) <==>
                 StartsProperly(data, cs) && ShortStretches(data, 0, Initial(cs), cs, 0))
            && (!StartsProperly(data, cs) ==> Decoded(input, start) == (NoClearCode, []))
            && (StartsProperly(data, cs) && Decoded(input, start) != Reference(input, start) ==>
                 Decoded(input, start).0 == TooManyCodes)
  {
    hide Pow2, Run, FrozenRun, ShortStretches, Flat, StartsProperly;
    var cs: nat := Get8(input, start);
    RunsFromStart(Flat(input, start + 1, 0), cs);
    FrozenNeverFull(Flat(input, start + 1, 0), 0, Initial(cs), cs);
  }
}
