/** basisu's Huffman decoding table and how it is built. */
module HuffmanTable {
  import opened Canonical
  import opened HuffmanConflicts
  import opened HuffmanCounting
  import opened HuffmanTree
  import opened Powers
  import opened StrideFill

  // ---------------------------------------------------------------- building the table

  const WORD := 0x1_0000_0000

  lemma DoubleWord(x: nat, c: nat)
    ensures (x % WORD + c) * 2 % WORD == (x + c) * 2 % WORD
  {
  }

  /** `(total + count) << 1` on 32-bit words. */
  method Doubled(total: nat, count: nat, ghost exact: nat) returns (r: nat)
    requires total == exact % WORD
    ensures r == (exact + count) * 2 % WORD
  {
    DoubleWord(exact, count);
    r := (total + count) * 2 % WORD;
  }

  /** The first codewords of lengths up to `n`, as words. */
  ghost predicate CodesUpTo(lens: seq<nat>, codes: seq<nat>, n: nat) {
    |codes| == 32 && n < 32 && forall l :: 1 <= l <= n ==> codes[l] == First(lens, l) % WORD
  }

  lemma FirstCodes(lens: seq<nat>, codes: seq<nat>)
    requires |codes| == 32 && forall i :: 0 <= i < 32 ==> codes[i] == 0
    ensures CodesUpTo(lens, codes, 1) && FirstSymbol(lens, 1) == 0 && First(lens, 1) % WORD == 0
  {
  }

  lemma CodesNext(lens: seq<nat>, codes: seq<nat>, n: nat, total: nat)
    requires CodesUpTo(lens, codes, n) && n < 31 && total == First(lens, n + 1) % WORD
    ensures CodesUpTo(lens, codes[n + 1 := total], n + 1)
  {
    hide First;
  }

  lemma AllCodes(lens: seq<nat>, codes: seq<nat>)
    requires CodesUpTo(lens, codes, 31)
    ensures |codes| == 32 && forall l :: 1 <= l < 32 ==> codes[l] == First(lens, l) % WORD
  {
    hide First;
  }

  lemma NextWord(x: nat)
    ensures (x % WORD + 1) % WORD == (x + 1) % WORD
  {
  }

  lemma FirstNext(lens: seq<nat>, l: nat)
    requires l >= 1
    ensures First(lens, l + 1) == (First(lens, l) + Count(lens, |lens|, l)) * 2
    ensures FirstSymbol(lens, l + 1) == FirstSymbol(lens, l) + Count(lens, |lens|, l)
    ensures First(lens, 1) == 0 && FirstSymbol(lens, 1) == 0
  {
  }

  /** The source's test on the total, made at 31 bits and on 32-bit words, accepts exactly the lists whose Kraft sum is
      one modulo two. */
  lemma SumTest(lens: seq<nat>)
    requires Lengths(lens)
    ensures First(lens, 31) % WORD == Pow2(31) <==> Kraft(lens) % (2 * Pow2(W)) == Pow2(W)
  {
    hide First, Pow2, Start;
    FirstTotal(lens);
    Powers31();
    ScaleMod(Kraft(lens), Pow2(15), 2 * Pow2(W));
    assert First(lens, 31) % WORD == 32768 * (Kraft(lens) % 131072);
  }

  lemma Powers31()
    ensures Pow2(15) == 32768 && Pow2(W) == 65536 && Pow2(31) == 0x8000_0000 && Pow2(15) * (2 * Pow2(W)) == WORD
  {
    assert Pow2(8) == 256;
    Pow2Add(8, 8);
    Pow2Add(16, 15);
    assert Pow2(15) == 32768;
  }

  lemma FirstTotal(lens: seq<nat>)
    requires Lengths(lens)
    ensures First(lens, 31) == Kraft(lens) * Pow2(15)
  {
    EndsIsStart(lens, W);
    assert Ends(lens, W) == Kraft(lens);
    FirstDoubles(lens, 31);
    assert Pow2(15) == 2 * Pow2(14);
  }

  lemma {:induction false} FirstDoubles(lens: seq<nat>, l: nat)
    requires Lengths(lens) && l >= 17
    ensures First(lens, l) == 2 * Ends(lens, W) * Pow2(l - 17)
  {
    hide Pow2, Ends, First, Count;
    if l > 17 {
      FirstDoubles(lens, l - 1);
      NoneOf(lens, |lens|, l - 1);
      FirstNext(lens, l - 1);
      Pow2Step(l - 17);
      TwiceTimes(Pow2(l - 17), Pow2(l - 18), 2 * Ends(lens, W));
    } else {
      Pow2Step(0);
      EndsDoubled(lens);
    }
  }

  lemma EndsDoubled(lens: seq<nat>)
    ensures First(lens, 17) == 2 * Ends(lens, W)
  {
  }

  lemma {:induction false} NoneOf(lens: seq<nat>, n: nat, l: nat)
    requires n <= |lens| && Lengths(lens) && l > W
    ensures Count(lens, n, l) == 0
  {
    if n > 0 {
      NoneOf(lens, n - 1, l);
    }
  }

  /** The codeword reversed bit by bit, as the source does it. */
  method ReverseCode(code: nat, size: nat) returns (rev: nat)
    ensures rev == Rev(code, size)
  {
    rev := 0;
    var l: nat, cur := size, code;
    while l > 0
      invariant l <= size && rev * Pow2(l) + Rev(cur, l) == Rev(code, size)
    {
      ReverseStep(rev, cur, l);
      rev := rev * 2 + cur % 2;
      cur := cur / 2;
      l := l - 1;
    }
    NoBitsLeft(rev, cur);
  }

  lemma NoBitsLeft(rev: nat, cur: nat)
    ensures rev * Pow2(0) + Rev(cur, 0) == rev
  {
  }

  lemma ReverseStep(rev: nat, cur: nat, l: nat)
    requires l > 0
    ensures rev * Pow2(l) + Rev(cur, l) == (rev * 2 + cur % 2) * Pow2(l - 1) + Rev(cur / 2, l - 1)
  {
    var p := Pow2(l - 1);
    assert rev * (2 * p) == rev * 2 * p;
    assert (rev * 2 + cur % 2) * p == rev * 2 * p + cur % 2 * p;
  }

  class HuffmanDecodingTable {
    var codeSizes: seq<nat>
    var lookup: seq<int>
    var tree: seq<int>
    var treeNext: int
    /** The inner nodes made so far. */
    ghost var nodes: seq<Node>

    constructor ()
      ensures codeSizes == [] && fresh(this)
    {
      codeSizes, lookup, tree, treeNext, nodes := [], [], [], -1, [];
    }

    /** The table decodes the canonical code with lengths `lens`. */
    ghost predicate Built(lens: seq<nat>, fast: nat)
      reads this
    {
      && codeSizes == lens && Decodable(lens)
      && Tables(lens, |lens|, |lens|, fast, nodes, lookup, tree) && Trimmed(lens, |lens|, nodes, tree)
    }

    /** The tables for the first `n` symbols of a complete code, with nodes for symbol `n` under way. */
    ghost predicate Good(lens: seq<nat>, n: nat, m: nat, fast: nat)
      requires n <= m <= |lens|
      reads this
    {
      && Decodable(lens) && fast >= 1 && treeNext == Id(|nodes|)
      && Tables(lens, n, m, fast, nodes, lookup, tree) && Trimmed(lens, n, nodes, tree)
    }

    /** The same without assuming anything of the list: nothing that has been stored can be missed later. */
    ghost predicate Sound(lens: seq<nat>, n: nat, m: nat, fast: nat)
      requires n <= m <= |lens|
      reads this
    {
      && Lengths(lens) && |lens| <= MAX_SYMS && fast >= 1 && treeNext == Id(|nodes|)
      && Kept(lens, n, m, fast, nodes, lookup, tree) && Disjoint(lens, n)
    }

    /** The state after `n` symbols. */
    ghost predicate Ready(lens: seq<nat>, n: nat, fast: nat)
      requires n <= |lens|
      reads this
    {
      Sound(lens, n, n, fast) && (Decodable(lens) ==> Good(lens, n, n, fast))
    }

    method CountSizes(lens: seq<nat>) returns (ok: bool, counts: seq<nat>)
      ensures ok <==> forall i :: 0 <= i < |lens| ==> lens[i] <= MAX_INTERNAL_SIZE
      ensures ok ==> |counts| == 32 && forall l :: 0 <= l < 32 ==> counts[l] == Count(lens, |lens|, l)
    {
      counts := seq(32, _ => 0);
      for i := 0 to |lens|
        invariant |counts| == 32 && forall l :: 0 <= l < 32 ==> counts[l] == Count(lens, i, l)
        invariant forall k :: 0 <= k < i ==> lens[k] <= MAX_INTERNAL_SIZE
      {
        if lens[i] > MAX_INTERNAL_SIZE {
          return false, counts;
        }
        counts := counts[lens[i] := counts[lens[i]] + 1];
      }
      return true, counts;
    }

    method NextCodes(lens: seq<nat>, counts: seq<nat>) returns (nextCode: seq<nat>, used: nat, total: nat)
      requires |counts| == 32 && forall l :: 0 <= l < 32 ==> counts[l] == Count(lens, |lens|, l)
      ensures |nextCode| == 32 && forall l :: 1 <= l < 32 ==> nextCode[l] == First(lens, l) % WORD
      ensures used == FirstSymbol(lens, 31) && total == First(lens, 31) % WORD
    {
      hide CodesUpTo, First, FirstSymbol, Count;
      var codes: seq<nat> := seq(32, _ => 0);
      used, total := 0, 0;
      FirstCodes(lens, codes);
      for i := 1 to 31
        invariant |codes| == 32 && CodesUpTo(lens, codes, i)
        invariant used == FirstSymbol(lens, i) && total == First(lens, i) % WORD
      {
        FirstNext(lens, i);
        used := used + counts[i];
        total := Doubled(total, counts[i], First(lens, i));
        CodesNext(lens, codes, i, total);
        codes := codes[i + 1 := total];
      }
      AllCodes(lens, codes);
      nextCode := codes;
    }

    /** Stores `k` in every lookup entry that ends with the `size` bits `rev`; fails if one of them is taken. */
    method FillLookup(size: nat, rev: nat, k: int) returns (ok: bool)
      requires rev < Pow2(size)
      modifies this`lookup
      ensures |lookup| == |old(lookup)|
      ensures ok <==> !Taken(old(lookup), Pow2(size), rev)
      ensures ok ==> Filled(old(lookup), lookup, |lookup|, Pow2(size), rev, k)
    {
      hide Pow2, Filled, Taken, FreeBelow;
      ghost var p, was := Pow2(size), lookup;
      var at := rev;
      NothingFilled(was, p, rev, k);
      FreeStart(was, p, rev);
      while at < |lookup|
        invariant |lookup| == |was| && at % p == rev && Filled(was, lookup, at, p, rev, k)
        invariant FreeBelow(was, at, p, rev)
      {
        EntryTaken(was, lookup, at, p, rev, k);
        if lookup[at] != 0 {
          return false;
        }
        FillNext(was, lookup, at, p, rev, k);
        FreeNext(was, at, p, rev);
        lookup := lookup[at := k];
        at := at + Pow2(size);
      }
      FilledAll(was, lookup, at, p, rev, k);
      FreeAll(was, at, p, rev);
      return true;
    }

    /** Stores a short codeword. In a complete code nothing stands in its way. */
    method InsertShort(lens: seq<nat>, sym: nat, rev: nat, fast: nat) returns (ok: bool)
      requires sym < |lens| <= MAX_SYMS && 0 < lens[sym] <= fast && |lookup| == Pow2(fast) && rev < Pow2(lens[sym])
      modifies this`lookup
      ensures |lookup| == Pow2(fast)
      ensures old(Good(lens, sym, sym, fast)) && rev == RevCode(lens, sym) ==> ok && Good(lens, sym + 1, sym + 1, fast)
      ensures ok && old(Sound(lens, sym, sym, fast)) && rev == RevCode(lens, sym) ==>
        Sound(lens, sym + 1, sym + 1, fast)
    {
      hide Pow2, Tables, Trimmed, Decodable, RevCode, Filled, Taken, Kept, Disjoint, Lengths;
      ghost var was, good := lookup, Good(lens, sym, sym, fast) && rev == RevCode(lens, sym);
      ghost var sound := Sound(lens, sym, sym, fast) && rev == RevCode(lens, sym);
      ok := FillLookup(lens[sym], rev, lens[sym] * 65536 + sym);
      if good {
        ShortEntriesFree(lens, sym, fast, nodes, was, tree);
        AddShort(lens, sym, fast, nodes, was, lookup, tree);
        TrimmedStays(lens, sym, sym + 1, nodes, tree, tree, Node(0, 0));
      }
      if ok && sound {
        ShortAdded(lens, sym, fast, nodes, was, lookup, tree);
        DisjointNext(lens, sym);
      }
    }

    /** The root node for a long codeword: the one the lookup table refers to, or a new one. */
    method FindRoot(rev: nat, fast: nat, ghost lens: seq<nat>, ghost n: nat) returns (ok: bool, treeCur: int,
                    ghost j: nat)
      requires |lookup| == Pow2(fast) && n < |lens|
      modifies this`lookup, this`treeNext, this`nodes
      ensures |lookup| == Pow2(fast) && treeNext <= old(treeNext)
      ensures ok ==> treeCur < 0
      ensures old(Good(lens, n, n + 1, fast)) && lens[n] > fast && rev == RevCode(lens, n) && old(treeNext) < 0 ==>
        ok && Good(lens, n, n + 1, fast) && j < |nodes| && nodes[j] == Path(lens, n, fast) && treeCur == Id(j)
      ensures ok && old(Sound(lens, n, n + 1, fast)) && lens[n] > fast && rev == RevCode(lens, n) ==>
        Going(lens, n, fast, fast, treeCur)
    {
      hide Pow2, Tables, Trimmed, Decodable, RevCode, Kept, Disjoint, Lengths, Walking;
      ghost var sound := Sound(lens, n, n + 1, fast) && lens[n] > fast && rev == RevCode(lens, n);
      ghost var good := Good(lens, n, n + 1, fast) && lens[n] > fast && rev == RevCode(lens, n);
      j := 0;
      var at := Remainder(rev, Pow2(fast));
      treeCur := lookup[at];
      if good {
        j := RootEntry(lens, n, fast, nodes, lookup, tree, at);
      }
      if treeCur == 0 {
        if good {
          AddRoot(lens, n, fast, nodes, lookup, tree);
          TrimmedStays(lens, n, n, nodes, tree, tree, Path(lens, n, fast));
        }
        if sound {
          RootAdded(lens, n, fast, nodes, lookup, tree);
        }
        lookup := lookup[at := treeNext];
        treeCur := treeNext;
        treeNext := treeNext - 2;
        j := |nodes|;
        nodes := nodes + [Path(lens, n, fast)];
      } else if treeCur < 0 && sound {
        RootFollowed(lens, n, fast, nodes, lookup, tree);
      }
      return treeCur < 0, treeCur, j;
    }

    /** The walk down symbol `n`'s path has come to depth `d`, at node `j`. */
    ghost predicate OnPath(lens: seq<nat>, n: nat, fast: nat, d: nat, j: nat, treeCur: int)
      requires n < |lens|
      reads this
    {
      Good(lens, n, n + 1, fast) && AtNode(lens, n, fast, nodes, d, j, treeCur)
    }

    /** The same without assuming anything of the list. */
    ghost predicate Going(lens: seq<nat>, n: nat, fast: nat, d: nat, treeCur: int)
      requires n < |lens|
      reads this
    {
      Sound(lens, n, n + 1, fast) && Walking(lens, n, fast, nodes, lookup, tree, d, treeCur)
    }

    /** Lengthens the tree with zeros, should the place not exist yet. */
    method Reach(idx: nat)
      modifies this`tree
      ensures tree == Reached(old(tree), idx)
    {
      if idx >= |tree| {
        tree := tree + Zeros(idx + 1 - |tree|);
      }
    }

    /** One bit further down: to the node that is there, or to a new one. */
    method Descend(treeCur: int, b: nat, ghost lens: seq<nat>, ghost n: nat, ghost fast: nat, ghost d: nat,
                   ghost j: nat)
      returns (ok: bool, next: int, ghost j': nat)
      requires treeCur < 0 && b <= 1 && n < |lens| && treeNext < 0
      modifies this`tree, this`treeNext, this`nodes
      ensures treeNext < 0 && (ok ==> next < 0)
      ensures old(OnPath(lens, n, fast, d, j, treeCur)) && d + 1 < lens[n] && b == NextBit(lens, n, d) ==>
        ok && OnPath(lens, n, fast, d + 1, j', next)
      ensures ok && old(Going(lens, n, fast, d, treeCur)) && d + 1 < lens[n] && b == NextBit(lens, n, d) ==>
        Going(lens, n, fast, d + 1, next)
    {
      hide Pow2, Tables, Trimmed, Decodable, RevCode, AtNode, NextBit, Kept, Disjoint, Lengths, Walking, Int16;
      ghost var going := Going(lens, n, fast, d, treeCur) && d + 1 < lens[n] && b == NextBit(lens, n, d);
      ghost var good := OnPath(lens, n, fast, d, j, treeCur) && d + 1 < lens[n] && b == NextBit(lens, n, d);
      j' := 0;
      var idx := -(treeCur - b) - 1;
      ghost var was := tree;
      Reach(idx);
      if good {
        j' := GoodStep(lens, n, fast, nodes, lookup, was, d, j, treeCur, b);
      }
      if going {
        GoingStep(lens, n, fast, nodes, lookup, was, d, treeCur);
      }
      if tree[idx] == 0 {
        tree := tree[idx := Int16(treeNext)];
        next := treeNext;
        treeNext := treeNext - 2;
        j' := |nodes|;
        nodes := nodes + [Path(lens, n, d + 1)];
      } else {
        next := tree[idx];
      }
      return next < 0, next, j';
    }

    /** Stores a symbol at the end of its path; fails if something is there. */
    method StoreLeaf(treeCur: int, b: nat, sym: nat, ghost lens: seq<nat>, ghost fast: nat, ghost d: nat, ghost j: nat)
      returns (ok: bool)
      requires treeCur < 0 && b <= 1 && sym < |lens|
      modifies this`tree
      ensures old(OnPath(lens, sym, fast, d, j, treeCur)) && d + 1 == lens[sym] && b == NextBit(lens, sym, d) ==>
        ok && Good(lens, sym + 1, sym + 1, fast)
      ensures ok && old(Going(lens, sym, fast, d, treeCur)) && d + 1 == lens[sym] && b == NextBit(lens, sym, d) ==>
        Sound(lens, sym + 1, sym + 1, fast)
    {
      hide Pow2, Tables, Trimmed, Decodable, RevCode, AtNode, NextBit, Kept, Disjoint, Lengths, Walking;
      ghost var going := Going(lens, sym, fast, d, treeCur) && d + 1 == lens[sym] && b == NextBit(lens, sym, d);
      ghost var good := OnPath(lens, sym, fast, d, j, treeCur) && d + 1 == lens[sym] && b == NextBit(lens, sym, d);
      var idx := -(treeCur - b) - 1;
      ghost var was := tree;
      Reach(idx);
      if good {
        GoodLeaf(lens, sym, fast, nodes, lookup, was, d, j, treeCur, b);
      }
      if tree[idx] != 0 {
        return false;
      }
      if going {
        GoingLeaf(lens, sym, fast, nodes, lookup, was, d, treeCur);
      }
      tree := tree[idx := Int16(sym)];
      return true;
    }

    /** Stores a long codeword. */
    method InsertLong(lens: seq<nat>, sym: nat, rev: nat, fast: nat) returns (ok: bool)
      requires sym < |lens| <= MAX_SYMS && 1 <= fast < lens[sym] && |lookup| == Pow2(fast) && treeNext < 0
      modifies this`lookup, this`tree, this`treeNext, this`nodes
      ensures |lookup| == Pow2(fast) && treeNext < 0
      ensures old(Good(lens, sym, sym + 1, fast)) && rev == RevCode(lens, sym) ==>
        ok && Good(lens, sym + 1, sym + 1, fast)
      ensures ok && old(Sound(lens, sym, sym + 1, fast)) && rev == RevCode(lens, sym) ==>
        Sound(lens, sym + 1, sym + 1, fast)
    {
      hide Pow2, Tables, Trimmed, Decodable, RevCode, AtNode, NextBit, Kept, Disjoint, Lengths, Walking;
      ghost var sound := Sound(lens, sym, sym + 1, fast) && rev == RevCode(lens, sym);
      ghost var good := Good(lens, sym, sym + 1, fast) && rev == RevCode(lens, sym);
      var found, treeCur, j := FindRoot(rev, fast, lens, sym);
      if !found {
        return false;
      }
      StartPath(lens, sym, fast, nodes, j, treeCur);
      var left: nat, r := lens[sym], Quotient(rev, Pow2(fast - 1));
      while left > fast + 1
        invariant fast < left <= lens[sym] && treeCur < 0 && treeNext < 0 && |lookup| == Pow2(fast)
        invariant r == rev / Pow2(fast + lens[sym] - left - 1)
        invariant good ==> OnPath(lens, sym, fast, fast + lens[sym] - left, j, treeCur)
        invariant sound ==> Going(lens, sym, fast, fast + lens[sym] - left, treeCur)
      {
        Halve(lens, sym, rev, fast + lens[sym] - left);
        r := r / 2;
        found, treeCur, j := Descend(treeCur, r % 2, lens, sym, fast, fast + lens[sym] - left, j);
        if !found {
          return false;
        }
        left := left - 1;
      }
      Halve(lens, sym, rev, lens[sym] - 1);
      r := r / 2;
      ok := StoreLeaf(treeCur, r % 2, sym, lens, fast, lens[sym] - 1, j);
    }

    /** Stores the codeword of one symbol. */
    method InsertSymbol(lens: seq<nat>, sym: nat, rev: nat, fast: nat) returns (ok: bool)
      requires sym < |lens| <= MAX_SYMS && lens[sym] > 0 && fast >= 1 && |lookup| == Pow2(fast) && treeNext < 0
      requires rev < Pow2(lens[sym])
      modifies this`lookup, this`tree, this`treeNext, this`nodes
      ensures |lookup| == Pow2(fast) && treeNext < 0
      ensures old(Ready(lens, sym, fast)) && rev == RevCode(lens, sym) ==>
        (Decodable(lens) ==> ok) && (ok ==> Ready(lens, sym + 1, fast))
    {
      hide Pow2, Tables, Trimmed, Decodable, RevCode, Kept, Disjoint, Lengths;
      if lens[sym] <= fast {
        ok := InsertShort(lens, sym, rev, fast);
      } else {
        if Good(lens, sym, sym, fast) {
          TablesReady(lens, sym, fast, nodes, lookup, tree);
        }
        if Sound(lens, sym, sym, fast) {
          KeptReady(lens, sym, fast, nodes, lookup, tree);
        }
        ok := InsertLong(lens, sym, rev, fast);
      }
    }

    /** The tests on the lengths and on the sum; the first codeword of each length. */
    method TestSizes(lens: seq<nat>) returns (ok: bool, nextCode: seq<nat>)
      ensures ok <==> Tested(lens)
      ensures ok ==> CodesAt(lens, 0, nextCode)
    {
      hide Pow2, First, FirstSymbol, Count, CodesAt;
      var counts;
      ok, counts := CountSizes(lens);
      if !ok {
        return false, [];
      }
      var used, total;
      nextCode, used, total := NextCodes(lens, counts);
      FirstCodesAt(lens, nextCode);
      return Pow2(31) == total || used == 1, nextCode;
    }

    /** One turn of the loop over the symbols. */
    method InsertNext(sizes: seq<nat>, sym: nat, fast: nat, codes: seq<nat>) returns (ok: bool, nextCode: seq<nat>)
      requires sym < |sizes| <= MAX_SYMS && fast >= 1 && |lookup| == Pow2(fast) && treeNext < 0
      requires CodesAt(sizes, sym, codes) && sizes[sym] <= MAX_INTERNAL_SIZE
      modifies this`lookup, this`tree, this`treeNext, this`nodes
      ensures |lookup| == Pow2(fast) && treeNext < 0 && (ok ==> CodesAt(sizes, sym + 1, nextCode))
      ensures old(Ready(sizes, sym, fast)) ==> (Decodable(sizes) ==> ok) && (ok ==> Ready(sizes, sym + 1, fast))
    {
      assert |codes| == 32;
      hide *;
      nextCode := codes;
      var size := sizes[sym];
      if size != 0 {
        var rev := ReverseCode(nextCode[size], size);
        NextCode(sizes, sym, nextCode);
        nextCode := nextCode[size := (nextCode[size] + 1) % WORD];
        ok := InsertSymbol(sizes, sym, rev, fast);
      } else {
        NoCode(sizes, sym, nextCode);
        SkipUnused(sizes, sym, fast);
        ok := true;
      }
    }

    /** Stores the codewords of all symbols. */
    method InsertAll(sizes: seq<nat>, fast: nat, codes: seq<nat>) returns (ok: bool)
      requires |sizes| <= MAX_SYMS && fast >= 1 && |lookup| == Pow2(fast) && treeNext < 0
      requires CodesAt(sizes, 0, codes) && Tested(sizes)
      modifies this`lookup, this`tree, this`treeNext, this`nodes
      ensures old(Ready(sizes, 0, fast)) ==> (Decodable(sizes) ==> ok) && (ok ==> Ready(sizes, |sizes|, fast))
    {
      assert forall i :: 0 <= i < |sizes| ==> sizes[i] <= MAX_INTERNAL_SIZE;
      hide *;
      ghost var ready := Ready(sizes, 0, fast);
      var nextCode: seq<nat> := codes;
      for sym := 0 to |sizes|
        invariant |lookup| == Pow2(fast) && treeNext < 0 && CodesAt(sizes, sym, nextCode)
        invariant ready ==> Ready(sizes, sym, fast)
      {
        ok, nextCode := InsertNext(sizes, sym, fast, nextCode);
        if !ok {
          return false;
        }
      }
      return true;
    }

    method Clear()
      modifies this
      ensures codeSizes == [] && lookup == [] && tree == []
    {
      codeSizes, lookup, tree := [], [], [];
    }

    /** The part of `init` for lists that are not empty. */
    method BuildTables(sizes: seq<nat>, fast: nat) returns (ok: bool)
      requires 0 < |sizes| <= MAX_SYMS && 1 <= fast <= 16
      modifies this
      ensures codeSizes == sizes && (ok ==> Tested(sizes))
      ensures Lengths(sizes) ==> (Decodable(sizes) ==> ok) && (ok ==> Ready(sizes, |sizes|, fast))
    {
      hide *;
      codeSizes := sizes;
      lookup, tree, treeNext, nodes := Zeros(Pow2(fast)), Zeros(2 * |sizes|), -1, [];
      NothingInserted(sizes, fast);
      DecodableSizes(sizes);
      var nextCode;
      ok, nextCode := TestSizes(sizes);
      if ok {
        ok := InsertAll(sizes, fast, nextCode);
      }
    }

    /** `init`: among the lists of lengths up to 16, it accepts exactly the empty one, the complete codes and those with
        a single used symbol; and then the table decodes the canonical code. Anything else it accepts has at least
        passed the tests on the lengths and on the sum. */
    method Init(sizes: seq<nat>, fast: nat) returns (ok: bool)
      requires |sizes| <= MAX_SYMS && 1 <= fast <= 16
      modifies this
      ensures codeSizes == sizes && (sizes == [] ==> lookup == [] && tree == [])
      ensures Lengths(sizes) ==> (ok <==> sizes == [] || Kraft(sizes) == Pow2(W) || Lone(sizes))
      ensures ok && Lengths(sizes) && sizes != [] ==> Built(sizes, fast)
      ensures ok && sizes != [] ==> Tested(sizes)
    {
      DecodableIs(sizes);
      hide *;
      if |sizes| == 0 {
        Clear();
        ok := true;
      } else {
        ok := BuildTables(sizes, fast);
        if ok && Lengths(sizes) {
          AllInserted(sizes, fast);
        }
      }
    }

    lemma NothingInserted(lens: seq<nat>, fast: nat)
      requires lookup == Zeros(Pow2(fast)) && tree == Zeros(2 * |lens|) && treeNext == -1 && nodes == [] && fast >= 1
      requires |lens| <= MAX_SYMS
      ensures Lengths(lens) ==> Ready(lens, 0, fast)
    {
      hide Pow2, Tables, Trimmed, Kept, Decodable;
      EmptyTables(lens, fast);
      assert Trimmed(lens, 0, [], Zeros(2 * |lens|)) by {
        EmptyTrimmed(lens);
      }
      NothingKept(lens, fast);
    }

    /** When all symbols have been stored, the list was a complete code or had a single used symbol, and the table
        decodes it. */
    lemma AllInserted(lens: seq<nat>, fast: nat)
      requires |lens| <= MAX_SYMS && codeSizes == lens
      requires Tested(lens)
      requires Ready(lens, |lens|, fast)
      ensures Decodable(lens) && Built(lens, fast)
    {
      hide Pow2, Tables, Trimmed, Kept, Decodable, First, FirstSymbol, Lengths, Disjoint;
      OnlyDecodable(lens);
    }

    lemma SkipUnused(lens: seq<nat>, sym: nat, fast: nat)
      requires sym < |lens| && lens[sym] == 0
      ensures Ready(lens, sym, fast) ==> Ready(lens, sym + 1, fast)
    {
      hide Pow2, Tables, Trimmed, Decodable, Kept, Disjoint, Lengths;
      if Ready(lens, sym, fast) {
        if Decodable(lens) {
          AddUnused(lens, sym, fast, nodes, lookup, tree);
          TrimmedStays(lens, sym, sym + 1, nodes, tree, tree, Node(0, 0));
        }
        UnusedAdded(lens, sym, fast, nodes, lookup, tree);
        DisjointNext(lens, sym);
      }
    }
  }

  /** What `init` tests before it stores anything. */
  ghost predicate Tested(lens: seq<nat>) {
    && (forall i :: 0 <= i < |lens| ==> lens[i] <= MAX_INTERNAL_SIZE)
    && (First(lens, 31) % WORD == Pow2(31) || FirstSymbol(lens, 31) == 1)
  }

  lemma DecodableIs(lens: seq<nat>)
    requires |lens| <= MAX_SYMS
    ensures Lengths(lens) ==> (Decodable(lens) <==> Kraft(lens) == Pow2(W) || Lone(lens))
    ensures Decodable(lens) ==> Lengths(lens)
  {
  }

  /** When all symbols have been stored, the list was a complete code or had a single used symbol. */
  lemma OnlyDecodable(lens: seq<nat>)
    requires Lengths(lens) && |lens| <= MAX_SYMS && Disjoint(lens, |lens|)
    requires First(lens, 31) % WORD == Pow2(31) || FirstSymbol(lens, 31) == 1
    ensures Decodable(lens)
  {
    hide First, FirstSymbol, Pow2, Start, Disjoint;
    FirstSymbolStays(lens, 31);
    SumTest(lens);
    DisjointWeigh(lens);
    if First(lens, 31) % WORD == Pow2(31) {
      SmallRemainder(Kraft(lens), 2 * Pow2(W));
    }
  }

  /** The next codeword of each length, after the first `n` symbols. */
  ghost predicate CodesAt(lens: seq<nat>, n: nat, nextCode: seq<nat>)
    requires n <= |lens|
  {
    |nextCode| == 32 && forall l :: 1 <= l < 32 ==> nextCode[l] == (First(lens, l) + Count(lens, n, l)) % WORD
  }

  /** The codeword the source reverses is the canonical one. */
  lemma NextCode(lens: seq<nat>, n: nat, nextCode: seq<nat>)
    requires n < |lens| && CodesAt(lens, n, nextCode) && 1 <= lens[n] < 32
    ensures CodesAt(lens, n + 1, nextCode[lens[n] := (nextCode[lens[n]] + 1) % WORD])
    ensures Rev(nextCode[lens[n]], lens[n]) == RevCode(lens, n)
  {
    NextWord(First(lens, lens[n]) + Count(lens, n, lens[n]));
    hide First, Pow2, Count, Rev;
    RevOfWord(Code(lens, n), lens[n]);
  }

  /** The bits that a word has lost are not reversed. */
  lemma RevOfWord(x: nat, l: nat)
    requires l < 32
    ensures Rev(x % WORD, l) == Rev(x, l)
  {
    assert Pow2(32) == WORD by {
      Powers31();
      Pow2Step(32);
    }
    hide Pow2, Rev;
    ModMod(x, l, 32);
    RevLow(x, l);
    RevLow(x % WORD, l);
  }

  lemma FirstCodesAt(lens: seq<nat>, nextCode: seq<nat>)
    requires |nextCode| == 32 && forall l :: 1 <= l < 32 ==> nextCode[l] == First(lens, l) % WORD
    ensures CodesAt(lens, 0, nextCode)
  {
    hide First;
  }

  lemma NoCode(lens: seq<nat>, n: nat, nextCode: seq<nat>)
    requires n < |lens| && CodesAt(lens, n, nextCode) && lens[n] == 0
    ensures CodesAt(lens, n + 1, nextCode)
  {
  }

  /** The lists that shall be accepted pass the source's tests. */
  lemma DecodableSizes(lens: seq<nat>)
    ensures Decodable(lens) ==> Tested(lens)
  {
    hide FirstSymbol, First, Pow2;
    if !Decodable(lens) {
    } else if Kraft(lens) == Pow2(W) {
      SumTest(lens);
      SmallRemainder(Pow2(W), 2 * Pow2(W));
    } else {
      FirstSymbolStays(lens, 31);
    }
  }

  lemma {:induction false} FirstSymbolStays(lens: seq<nat>, l: nat)
    requires Lengths(lens) && l >= W + 1
    ensures FirstSymbol(lens, l) == FirstSymbol(lens, W + 1)
  {
    if l > W + 1 {
      FirstSymbolStays(lens, l - 1);
      NoneOf(lens, |lens|, l - 1);
    }
  }
}
