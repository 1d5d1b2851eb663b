/** stb_image's zlib Huffman tables: a 9-bit fast table for short codes and an ordered table for the others. */
module ZHuffman {
  import opened BitReversal
  import opened Canonical
  import opened Powers
  import opened StrideFill

  const FAST_BITS := 9
  const FAST_SIZE := 512
  const NSYMS := 288

  /** Code length lists the table is built from: at most 288 symbols, lengths at most 15. */
  predicate SizeList(lens: seq<nat>) {
    |lens| <= NSYMS && forall i :: 0 <= i < |lens| ==> lens[i] <= 15
  }

  /** The place of symbol `i` in the order by length and then by number. */
  function Place(lens: seq<nat>, i: nat): nat
    requires i < |lens|
  {
    FirstSymbol(lens, lens[i]) + Count(lens, i, lens[i])
  }

  function FastValue(lens: seq<nat>, i: nat): nat
    requires i < |lens|
  {
    lens[i] * 512 + i
  }

  /** Symbol `i` is short and its codeword is a prefix of the nine bits `j`. */
  ghost predicate ShortAt(lens: seq<nat>, i: nat, j: nat)
    requires i < |lens|
  {
    lens[i] <= FAST_BITS && IsPrefix(lens, i, j)
  }

  /** Fast table entry `j` after the first `n` symbols: a short codeword that is a prefix of `j`, or 0 if there is
      none. */
  ghost predicate FastEntry(lens: seq<nat>, n: nat, j: nat, v: nat)
    requires n <= |lens|
  {
    if v == 0 then forall i :: 0 <= i < n ==> !ShortAt(lens, i, j)
    else exists i :: 0 <= i < n && ShortAt(lens, i, j) && v == FastValue(lens, i)
  }

  // ---------------------------------------------------------------- places

  lemma {:induction false} FirstSymbolMonotone(lens: seq<nat>, l: nat, m: nat)
    requires l <= m
    ensures FirstSymbol(lens, l) <= FirstSymbol(lens, m)
    decreases m
  {
    if l < m {
      FirstSymbolMonotone(lens, l, m - 1);
    }
  }

  lemma PlaceBounds(lens: seq<nat>, i: nat)
    requires i < |lens| && lens[i] > 0
    ensures FirstSymbol(lens, lens[i]) <= Place(lens, i) < FirstSymbol(lens, lens[i] + 1)
  {
    RankBelowCount(lens, i);
  }

  lemma PlaceInjective(lens: seq<nat>, i: nat, j: nat)
    requires i < j < |lens| && lens[i] > 0 && lens[j] > 0
    ensures Place(lens, i) != Place(lens, j)
  {
    hide FirstSymbol, Count;
    PlaceBounds(lens, i);
    PlaceBounds(lens, j);
    if lens[i] < lens[j] {
      FirstSymbolMonotone(lens, lens[i] + 1, lens[j]);
    } else if lens[j] < lens[i] {
      FirstSymbolMonotone(lens, lens[j] + 1, lens[i]);
    } else {
      CountMonotone(lens, i + 1, j, lens[i]);
      CountStep(lens, i);
    }
  }

  lemma CountStep(lens: seq<nat>, i: nat)
    requires i < |lens|
    ensures Count(lens, i + 1, lens[i]) == Count(lens, i, lens[i]) + 1
  {
  }

  // ---------------------------------------------------------------- acceptance

  /** The source's test on length `l` is that the codewords so far have at most the weight of one. */
  lemma LengthTest(lens: seq<nat>, l: nat)
    requires 1 <= l <= 15
    ensures First(lens, l) + Count(lens, |lens|, l) <= Pow2(l) <==> Start(lens, l + 1) <= Pow2(W)
    ensures Span(First(lens, l) + Count(lens, |lens|, l), l) == Start(lens, l + 1)
    ensures Count(lens, |lens|, l) > Pow2(l) ==> Start(lens, l + 1) > Pow2(W)
  {
    hide Span, Count, First, Pow2;
    var f, c := First(lens, l), Count(lens, |lens|, l);
    FirstIsStart(lens, l);
    SpanFacts(f, c, l);
    SpanOfAll(l);
    SpanFacts(f + c, Pow2(l), l);
    SpanFacts(Pow2(l) + 1, f + c, l);
    SpanFacts(Pow2(l), 1, l);
  }

  /** No symbol has a length above 15, so the Kraft sum is complete after length 15. */
  lemma KraftAt16(lens: seq<nat>)
    requires SizeList(lens)
    ensures Lengths(lens) && Kraft(lens) == Start(lens, 16)
  {
    NoneOfLength(lens, |lens|, 16);
    SpanFacts(0, 0, 16);
  }

  lemma {:induction false} NoneOfLength(lens: seq<nat>, n: nat, l: nat)
    requires n <= |lens| && forall i :: 0 <= i < n ==> lens[i] != l
    ensures Count(lens, n, l) == 0
  {
    if n > 0 {
      NoneOfLength(lens, n - 1, l);
    }
  }

  // ---------------------------------------------------------------- the tables

  class ZHuffman {
    var fast: seq<nat>
    var firstCode: seq<nat>
    var maxCode: seq<nat>
    var firstSymbol: seq<nat>
    var size: seq<nat>
    var value: seq<nat>

    constructor ()
      ensures |size| == NSYMS && |value| == NSYMS
    {
      fast, firstCode, maxCode, firstSymbol := [], [], [], [];
      size, value := seq(NSYMS, _ => 0), seq(NSYMS, _ => 0);
    }

    /** The per-length tables for lengths below `l`. */
    ghost predicate LengthTables(lens: seq<nat>, l: nat)
      requires l <= 16
      reads this
    {
      && |firstCode| == 16 && |firstSymbol| == 16 && |maxCode| == 17
      && forall s :: 1 <= s < l ==>
           firstCode[s] == First(lens, s) && firstSymbol[s] == FirstSymbol(lens, s) && maxCode[s] == Start(lens, s + 1)
    }

    /** The symbol tables after the first `n` symbols. */
    ghost predicate SymbolTables(lens: seq<nat>, n: nat)
      requires n <= |lens|
      reads this
    {
      && |size| == NSYMS && |value| == NSYMS && |fast| == FAST_SIZE
      && (forall i :: 0 <= i < n && lens[i] > 0 ==>
           Place(lens, i) < NSYMS && size[Place(lens, i)] == lens[i] && value[Place(lens, i)] == i)
      && (forall j :: 0 <= j < FAST_SIZE ==> FastEntry(lens, n, j, fast[j]))
    }

    /** The tables are those of the canonical code with lengths `lens`. */
    ghost predicate TablesFor(lens: seq<nat>)
      reads this
    {
      && SizeList(lens) && Lengths(lens) && Kraft(lens) <= Pow2(W)
      && LengthTables(lens, 16) && maxCode[16] == 0x10000
      && SymbolTables(lens, |lens|)
    }

    /** The counts of all lengths, that of length 0 cleared. */
    method CountSizes(lens: seq<nat>) returns (sizes: seq<nat>)
      requires SizeList(lens)
      ensures |sizes| == 17 && sizes[0] == 0 && forall l :: 1 <= l < 17 ==> sizes[l] == Count(lens, |lens|, l)
    {
      sizes := seq(17, _ => 0);
      for i := 0 to |lens|
        invariant |sizes| == 17 && forall l :: 0 <= l < 17 ==> sizes[l] == Count(lens, i, l)
      {
        sizes := sizes[lens[i] := sizes[lens[i]] + 1];
      }
      sizes := sizes[0 := 0];
    }

    /** The first pass over the lengths: the list is accepted exactly when its Kraft sum is at most one. */
    method BuildLengths(lens: seq<nat>, sizes: seq<nat>) returns (ok: bool, nextCode: seq<nat>)
      requires SizeList(lens)
      requires |sizes| == 17 && forall l :: 1 <= l < 17 ==> sizes[l] == Count(lens, |lens|, l)
      modifies this`firstCode, this`firstSymbol, this`maxCode
      ensures ok <==> Kraft(lens) <= Pow2(W)
      ensures ok ==> LengthTables(lens, 16) && maxCode[16] == 0x10000
      ensures ok ==> |nextCode| == 16 && forall l :: 1 <= l < 16 ==> nextCode[l] == First(lens, l)
    {
      hide Span, Count, Pow2, Start, First, FirstSymbol;
      KraftAt16(lens);
      nextCode := seq(16, _ => 0);
      for i := 1 to 16
        invariant |nextCode| == 16
      {
        if sizes[i] > Pow2(i) {
          LengthTest(lens, i);
          StartMonotone(lens, i + 1, 16);
          return false, nextCode;
        }
      }
      var code, k := 0, 0;
      firstCode, firstSymbol, maxCode := seq(16, _ => 0), seq(16, _ => 0), seq(17, _ => 0);
      StartsAtOne(lens);
      for i := 1 to 16
        invariant |nextCode| == 16 && forall l :: 1 <= l < i ==> nextCode[l] == First(lens, l)
        invariant LengthTables(lens, i)
        invariant code == First(lens, i) && k == FirstSymbol(lens, i) && Start(lens, i) <= Pow2(W)
      {
        nextCode := nextCode[i := code];
        FirstFits(lens, i);
        firstCode := firstCode[i := code % 0x10000];
        firstSymbol := firstSymbol[i := k];
        code := code + sizes[i];
        LengthTest(lens, i);
        NextLength(lens, i);
        if sizes[i] != 0 && code - 1 >= Pow2(i) {
          StartMonotone(lens, i + 1, 16);
          return false, nextCode;
        }
        maxCode := maxCode[i := Span(code, i)];
        code := code * 2;
        k := k + sizes[i];
      }
      maxCode := maxCode[16 := 0x10000];
      return true, nextCode;
    }

    /** Sets every fast entry that starts with the reversed codeword `rev` of length `s`. */
    method FillFast(s: nat, rev: nat, v: nat)
      requires 1 <= s <= FAST_BITS && rev < Pow2(s) && |fast| == FAST_SIZE
      modifies this`fast
      ensures |fast| == FAST_SIZE && Filled(old(fast), fast, FAST_SIZE, Pow2(s), rev, v)
    {
      hide Pow2, Filled;
      ghost var was, p := fast, Pow2(s);
      var j := rev;
      NothingFilled(was, p, rev, v);
      while j < FAST_SIZE
        invariant |fast| == FAST_SIZE && j % p == rev && Filled(was, fast, j, p, rev, v)
      {
        FillNext(was, fast, j, p, rev, v);
        fast := fast[j := v];
        j := j + Pow2(s);
      }
      FilledAll(was, fast, j, p, rev, v);
    }

    /** Stores symbol `i`, whose codeword is `code`. */
    method AddSymbol(lens: seq<nat>, i: nat, code: nat)
      requires SizeList(lens) && Lengths(lens) && Kraft(lens) <= Pow2(W) && LengthTables(lens, 16)
      requires i < |lens| && lens[i] > 0 && code == Code(lens, i) && SymbolTables(lens, i)
      modifies this`fast, this`size, this`value
      ensures SymbolTables(lens, i + 1)
    {
      hide Pow2, First, FirstSymbol, Count, Kraft, Rev, Filled;
      var s := lens[i];
      var c := code - firstCode[s] + firstSymbol[s];
      PlaceBounds(lens, i);
      FirstSymbolBound(lens, s + 1);
      assert c == Place(lens, i);
      AddPlace(lens, i);
      size, value := size[c := s], value[c := i];
      ghost var was := fast;
      if s <= FAST_BITS {
        CodeFits(lens, i);
        BitReverseIsRev(code, s);
        FillFast(s, BitReverse(code, s), s * 512 + i);
      }
      AddFast(lens, i, was, fast);
    }

    /** The second pass, over the symbols. */
    method BuildSymbols(lens: seq<nat>, nextCode0: seq<nat>)
      requires SizeList(lens) && Lengths(lens) && Kraft(lens) <= Pow2(W) && LengthTables(lens, 16)
      requires |nextCode0| == 16 && forall l :: 1 <= l < 16 ==> nextCode0[l] == First(lens, l)
      requires |size| == NSYMS && |value| == NSYMS && fast == seq(FAST_SIZE, _ => 0)
      modifies this`fast, this`size, this`value
      ensures SymbolTables(lens, |lens|)
    {
      hide Pow2, First, FirstSymbol, Count, Kraft, Rev, Filled;
      var nextCode := nextCode0;
      CountNone(lens);
      for i := 0 to |lens|
        invariant |nextCode| == 16 && forall l :: 1 <= l < 16 ==> nextCode[l] == First(lens, l) + Count(lens, i, l)
        invariant SymbolTables(lens, i)
      {
        var s := lens[i];
        CountNext(lens, i);
        if s != 0 {
          AddSymbol(lens, i, nextCode[s]);
          nextCode := nextCode[s := nextCode[s] + 1];
        } else {
          AddUnused(lens, i, fast);
        }
      }
    }

    /** `stbi__zbuild_huffman`: accepts a list of lengths exactly when its Kraft sum is at most one, and then builds the
        tables of its canonical code. */
    method Build(lens: seq<nat>) returns (ok: bool)
      requires SizeList(lens) && |size| == NSYMS && |value| == NSYMS
      modifies this
      ensures |size| == NSYMS && |value| == NSYMS
      ensures ok <==> Kraft(lens) <= Pow2(W)
      ensures ok ==> TablesFor(lens)
    {
      hide Pow2, First, FirstSymbol, Count, Kraft, Start, Rev;
      fast := seq(FAST_SIZE, _ => 0);
      var sizes := CountSizes(lens);
      var nextCode;
      ok, nextCode := BuildLengths(lens, sizes);
      if ok {
        KraftAt16(lens);
        BuildSymbols(lens, nextCode);
      }
    }
  }

  lemma CountNone(lens: seq<nat>)
    ensures forall l :: Count(lens, 0, l) == 0
  {
  }

  lemma CountNext(lens: seq<nat>, i: nat)
    requires i < |lens|
    ensures forall l :: Count(lens, i + 1, l) == Count(lens, i, l) + if l == lens[i] then 1 else 0
  {
  }

  /** Later symbols do not overwrite the places of earlier ones. */
  lemma AddPlace(lens: seq<nat>, n: nat)
    requires n < |lens| && lens[n] > 0
    ensures forall i :: 0 <= i < n && lens[i] > 0 ==> Place(lens, i) != Place(lens, n)
  {
    forall i | 0 <= i < n && lens[i] > 0
      ensures Place(lens, i) != Place(lens, n)
    {
      PlaceInjective(lens, i, n);
    }
  }

  lemma AddFast(lens: seq<nat>, n: nat, was: seq<nat>, fast: seq<nat>)
    requires n < |lens| && lens[n] > 0 && |was| == |fast| == FAST_SIZE
    requires forall j :: 0 <= j < FAST_SIZE ==> FastEntry(lens, n, j, was[j])
    requires if lens[n] <= FAST_BITS then
               Filled(was, fast, FAST_SIZE, Pow2(lens[n]), RevCode(lens, n), FastValue(lens, n))
             else fast == was
    ensures forall j :: 0 <= j < FAST_SIZE ==> FastEntry(lens, n + 1, j, fast[j])
  {
    forall j | 0 <= j < FAST_SIZE
      ensures FastEntry(lens, n + 1, j, fast[j])
    {
      assert FastEntry(lens, n, j, was[j]);
      hide Pow2, RevCode;
      if ShortAt(lens, n, j) {
        assert fast[j] == FastValue(lens, n) > 0;
      } else if was[j] != 0 {
        var i :| 0 <= i < n && ShortAt(lens, i, j) && was[j] == FastValue(lens, i);
      }
    }
  }

  lemma AddUnused(lens: seq<nat>, n: nat, fast: seq<nat>)
    requires n < |lens| && lens[n] == 0 && |fast| == FAST_SIZE
    requires forall j :: 0 <= j < FAST_SIZE ==> FastEntry(lens, n, j, fast[j])
    ensures forall j :: 0 <= j < FAST_SIZE ==> FastEntry(lens, n + 1, j, fast[j])
  {
    forall j | 0 <= j < FAST_SIZE
      ensures FastEntry(lens, n + 1, j, fast[j])
    {
      assert FastEntry(lens, n, j, fast[j]);
      if fast[j] != 0 {
        var i :| 0 <= i < n && ShortAt(lens, i, j) && fast[j] == FastValue(lens, i);
      }
    }
  }

  lemma StartsAtOne(lens: seq<nat>)
    ensures First(lens, 1) == 0 && FirstSymbol(lens, 1) == 0 && Start(lens, 1) == 0
  {
  }

  lemma NextLength(lens: seq<nat>, l: nat)
    requires 1 <= l <= 15
    ensures First(lens, l + 1) == (First(lens, l) + Count(lens, |lens|, l)) * 2
    ensures FirstSymbol(lens, l + 1) == FirstSymbol(lens, l) + Count(lens, |lens|, l)
    ensures Count(lens, |lens|, l) == 0 ==> Start(lens, l + 1) == Start(lens, l)
  {
    SpanFacts(0, 0, l);
  }

  lemma FirstFits(lens: seq<nat>, l: nat)
    requires 1 <= l <= 15 && Start(lens, l) <= Pow2(W)
    ensures First(lens, l) <= Pow2(l) <= 0x8000 && First(lens, l) % 0x10000 == First(lens, l)
  {
    hide Span, Count, First, Pow2, Start, Weight;
    Pow15();
    Pow2Monotone(l, 15);
    FirstIsStart(lens, l);
    SpanOfAll(l);
    SpanFacts(Pow2(l) + 1, First(lens, l), l);
    SpanFacts(Pow2(l), 1, l);
    SmallRemainder(First(lens, l), 0x10000);
  }

  lemma Pow15()
    ensures Pow2(15) == 0x8000
  {
    assert Pow2(8) == 256;
  }
}
