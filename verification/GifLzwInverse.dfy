/** The decoder of GIF's LZW codes undoes compression as Appendix F of GIF89a describes it. */
module GifLzwInverse {
  import opened Bits
  import opened Bytes
  import opened GifLzw
  import opened Powers

  const FULL := 4095

  /** The compressor's dictionary: it already has the entry that the decoder will only learn from the next code,
      namely the previous string and the symbol `next` that follows it. */
  function Ahead(d: Dictionary, prev: int, next: Byte): (d': Dictionary)
    requires Sound(d) && (prev >= 0 ==> Known(d, prev))
    ensures Sound(d') && d'.clear == d.clear && Available(d') == Available(d) + if prev >= 0 then 1 else 0
  {
    if prev >= 0 then Dictionary(d.clear, d.added + [StringOf(d, prev) + [next]]) else d
  }

  /** The longest string among the first `n` entries, and the single symbols, that `s` starts with. */
  function LongestOf(d: Dictionary, s: seq<Byte>, n: nat): (code: nat)
    requires Sound(d) && s != [] && s[0] < d.clear && n <= |d.added|
    ensures Known(d, code) && StringOf(d, code) <= s
  {
    if n == 0 then s[0]
    else
      var best := LongestOf(d, s, n - 1);
      if d.added[n - 1] <= s && |d.added[n - 1]| > |StringOf(d, best)| then d.clear + 2 + n - 1 else best
  }

  function Longest(d: Dictionary, s: seq<Byte>): (code: nat)
    requires Sound(d) && s != [] && s[0] < d.clear
    ensures Known(d, code) && StringOf(d, code) <= s
  {
    LongestOf(d, s, |d.added|)
  }

  /** No known string that `s` starts with is longer. */
  lemma {:induction false} LongestIsLongest(d: Dictionary, s: seq<Byte>, n: nat, k: nat)
    requires Sound(d) && s != [] && s[0] < d.clear && k < n <= |d.added| && d.added[k] <= s
    ensures |d.added[k]| <= |StringOf(d, LongestOf(d, s, n))|
  {
    if k < n - 1 {
      LongestIsLongest(d, s, n - 1, k);
    }
  }

  ghost predicate Symbols(s: seq<Byte>, clear: nat) {
    forall i :: 0 <= i < |s| ==> s[i] < clear
  }

  /** The states a compressor goes through: codes fit the current size. */
  ghost predicate Fitting(st: Decoder, cs: nat) {
    && InBounds(st) && st.started && 1 <= cs <= 11 && st.dict.clear == Pow2(cs) && st.size >= cs + 1
    && (st.prev >= 0 ==> Available(st.dict) < Pow2(st.size)) && Available(st.dict) <= FULL
  }

  /** What the decoder learns from the next code is the entry the compressor had already made. */
  lemma LearnsWhatIsAhead(d: Dictionary, prev: int, s: seq<Byte>, code: nat)
    requires Sound(d) && prev >= 0 && Known(d, prev) && s != []
    requires Known(Ahead(d, prev, s[0]), code) && StringOf(Ahead(d, prev, s[0]), code) <= s
    ensures Known(d, code) || code == Available(d)
    ensures Learn(d, prev, code) == Ahead(d, prev, s[0])
  {
    var a := Ahead(d, prev, s[0]);
    assert StringOf(a, code)[0] == s[0];
    if code == Available(d) {
      assert StringOf(a, code) == StringOf(d, prev) + [s[0]];
    }
  }

  lemma SizesFit(cs: nat, size: nat)
    requires 1 <= cs <= 11 && size >= cs + 1
    ensures Pow2(cs) + 2 <= Pow2(size) && 2 <= Pow2(cs) <= 2048
  {
    hide Pow2;
    Powers2();
    Pow2Monotone(1, cs);
    Pow2Monotone(cs, 11);
    Pow2Monotone(cs + 1, size);
    Pow2Step(cs + 1);
  }

  lemma Powers2()
    ensures Pow2(1) == 2 && Pow2(11) == 2048
  {
  }

  lemma NextSizeFits(size: nat, avail: nat)
    requires 0 < avail <= Pow2(size) && avail <= FULL
    ensures avail < Pow2(NextSize(size, avail)) && NextSize(size, avail) >= size
  {
    if avail == Pow2(size) {
      DivModOf(avail, Pow2(size), 1, 0);
      Pow2Step(size + 1);
    } else {
      Pow2Monotone(size, NextSize(size, avail));
    }
  }

  /** The state after the longest string has been coded. */
  lemma CodeStep(st: Decoder, cs: nat, s: seq<Byte>)
    requires Fitting(st, cs) && Available(st.dict) < FULL && s != [] && Symbols(s, st.dict.clear)
    ensures Longest(Ahead(st.dict, st.prev, s[0]), s) < Pow2(st.size)
    ensures Step(st, cs, Longest(Ahead(st.dict, st.prev, s[0]), s)).More?
    ensures var code := Longest(Ahead(st.dict, st.prev, s[0]), s);
            var next := Step(st, cs, code).next;
            var str := StringOf(Ahead(st.dict, st.prev, s[0]), code);
            Fitting(next, cs) && 0 < |str| <= |s| && next.out + s[|str|..] == st.out + s &&
            next.dict.clear == st.dict.clear
  {
    hide Pow2, NextSize, Learn, Longest;
    var a := Ahead(st.dict, st.prev, s[0]);
    var code := Longest(a, s);
    SizesFit(cs, st.size);
    var str := StringOf(a, code);
    assert s == str + s[|str|..];
    assert st.out + str + s[|str|..] == st.out + s;
    StepInBounds(st, cs, code);
    if st.prev >= 0 {
      LearnsWhatIsAhead(st.dict, st.prev, s, code);
      NextSizeFits(st.size, Available(a));
    } else {
      NextSizeFits(st.size, Available(st.dict));
    }
  }

  /** The bits a compressor writes for the symbols `s`: the code of the longest known string each time, a clear code
      whenever the dictionary is full, and the end code. */
  ghost function Compressed(st: Decoder, cs: nat, s: seq<Byte>): (bits: seq<nat>)
    requires Fitting(st, cs) && Symbols(s, st.dict.clear)
    decreases |s|, Available(st.dict)
  {
    if s == [] then LowBits(st.dict.clear + 1, st.size)
    else if Available(st.dict) >= FULL then
      ClearedFits(st, cs);
      LowBits(st.dict.clear, st.size) + Compressed(Cleared(st, cs), cs, s)
    else
      CodeStep(st, cs, s);
      var code := Longest(Ahead(st.dict, st.prev, s[0]), s);
      var str := StringOf(Ahead(st.dict, st.prev, s[0]), code);
      LowBits(code, st.size) + Compressed(Step(st, cs, code).next, cs, s[|str|..])
  }

  lemma ClearedFits(st: Decoder, cs: nat)
    requires Fitting(st, cs) && Available(st.dict) >= FULL
    ensures Fitting(Cleared(st, cs), cs) && Available(Cleared(st, cs).dict) < FULL
    ensures st.dict.clear < Pow2(st.size) && Step(st, cs, st.dict.clear) == More(Cleared(st, cs))
  {
    hide Pow2;
    SizesFit(cs, st.size);
  }

  /** A code that stands in the data is the code that is read. */
  lemma ReadCode(data: seq<Byte>, k: nat, code: nat, size: nat, rest: seq<nat>)
    requires code < Pow2(size) && BitsAt(data, k, LowBits(code, size) + rest)
    ensures Window(data, k, size) == code && BitsAt(data, k + size, rest)
  {
    hide LowBits, BitsAt, Window, Pow2;
    BitsAtConcat(data, k, LowBits(code, size), rest);
    LowBitsAt(data, k, code, size);
  }

  /** Decompression undoes compression: for all symbols, however many, the decoder puts them out again and ends with the
      end code. */
  lemma {:induction false} Decompresses(data: seq<Byte>, k: nat, st: Decoder, cs: nat, s: seq<Byte>)
    requires Fitting(st, cs) && Symbols(s, st.dict.clear)
    requires BitsAt(data, k, Compressed(st, cs, s)) && k + |Compressed(st, cs, s)| <= 8 * |data|
    ensures Run(data, k, st, cs) == (Done, st.out + s)
    decreases |s|, Available(st.dict)
  {
    hide LowBits, BitsAt, Window, Pow2, Step, StringOf, Fitting, Ahead;
    FittingFacts(st, cs);
    if s == [] {
      assert LowBits(st.dict.clear + 1, st.size) + [] == LowBits(st.dict.clear + 1, st.size) && st.out + s == st.out;
      ReadCode(data, k, st.dict.clear + 1, st.size, []);
      RunStep(data, k, st, cs);
      StepIs(st, cs, st.dict.clear + 1);
    } else if Available(st.dict) >= FULL {
      ClearedFits(st, cs);
      ReadCode(data, k, st.dict.clear, st.size, Compressed(Cleared(st, cs), cs, s));
      RunStep(data, k, st, cs);
      Decompresses(data, k + st.size, Cleared(st, cs), cs, s);
    } else {
      CodeStep(st, cs, s);
      var code := Longest(Ahead(st.dict, st.prev, s[0]), s);
      var next, str := Step(st, cs, code).next, StringOf(Ahead(st.dict, st.prev, s[0]), code);
      ReadCode(data, k, code, st.size, Compressed(next, cs, s[|str|..]));
      RunStep(data, k, st, cs);
      Decompresses(data, k + st.size, next, cs, s[|str|..]);
    }
  }

  lemma FittingFacts(st: Decoder, cs: nat)
    requires Fitting(st, cs)
    ensures InBounds(st) && cs <= 12 && st.dict.clear == Pow2(cs) && st.dict.clear + 1 < Pow2(st.size)
  {
    hide Pow2;
    SizesFit(cs, st.size);
  }

  /** The state behind the clear code that a stream has to start with. */
  lemma StartFits(cs: nat)
    requires 1 <= cs <= 11
    ensures InBounds(Initial(cs)) && Fitting(Cleared(Initial(cs), cs), cs) && Pow2(cs) < Pow2(cs + 1)
    ensures Step(Initial(cs), cs, Pow2(cs)) == More(Cleared(Initial(cs), cs))
  {
    hide Pow2;
    SizesFit(cs, cs + 1);
    ClearFits(cs);
  }

  /** The same for a whole stream: the code size, then sub-blocks with a clear code, the compressed symbols, and the end
      code. */
  lemma StreamDecompresses(input: seq<Byte>, start: nat, cs: nat, s: seq<Byte>)
    requires cs == Get8(input, start) && 1 <= cs <= 11 && Symbols(s, Pow2(cs))
    requires Fitting(Cleared(Initial(cs), cs), cs)
    requires var bits := LowBits(Pow2(cs), cs + 1) + Compressed(Cleared(Initial(cs), cs), cs, s);
             BitsAt(Flat(input, start + 1, 0), 0, bits) && |bits| <= 8 * |Flat(input, start + 1, 0)|
    ensures Decoded(input, start) == (Done, s)
  {
    hide Pow2, LowBits, BitsAt, Window, Step, Flat, Compressed, Fitting;
    StartFits(cs);
    StartTracking(input, start, cs);
    var data := Flat(input, start + 1, 0);
    ReadCode(data, 0, Pow2(cs), cs + 1, Compressed(Cleared(Initial(cs), cs), cs, s));
    RunStep(data, 0, Initial(cs), cs);
    Decompresses(data, cs + 1, Cleared(Initial(cs), cs), cs, s);
    assert [] + s == s;
  }
}
