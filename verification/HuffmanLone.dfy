/** basisu's Huffman table for a list with a single used symbol, and what decoding finds there for stream bits that are
    not its codeword. */
module HuffmanLone {
  import opened Canonical
  import opened HuffmanConflicts
  import opened HuffmanTree
  import opened Powers

  predicate Used(lens: seq<nat>, i: nat) {
    i < |lens| && lens[i] > 0
  }

  // ---------------------------------------------------------------- the codeword

  lemma {:induction false} OthersUnused(lens: seq<nat>, i: nat, n: nat, l: nat)
    requires Lengths(lens) && Lone(lens) && Used(lens, i) && n <= |lens|
    requires l > 0 && (l != lens[i] || n <= i)
    ensures Count(lens, n, l) == 0
  {
    hide Lone;
    if n > 0 {
      OthersUnused(lens, i, n - 1, l);
      if lens[n - 1] == l {
        LoneSymbol(lens, i, n - 1);
      }
    }
  }

  lemma {:induction false} LoneFirst(lens: seq<nat>, i: nat, l: nat)
    requires Lengths(lens) && Lone(lens) && Used(lens, i) && l <= lens[i]
    ensures First(lens, l) == 0
  {
    hide Lone, Count;
    if l > 1 {
      LoneFirst(lens, i, l - 1);
      OthersUnused(lens, i, |lens|, l - 1);
    }
  }

  /** The codeword consists of zeros. */
  lemma LoneCode(lens: seq<nat>, i: nat)
    requires Lengths(lens) && Lone(lens) && Used(lens, i)
    ensures RevCode(lens, i) == 0
  {
    hide Lone, First, Count;
    LoneFirst(lens, i, lens[i]);
    OthersUnused(lens, i, i, lens[i]);
    NoBits(lens[i]);
  }

  lemma {:induction false} NoBits(n: nat)
    ensures Rev(0, n) == 0
  {
    if n > 0 {
      NoBits(n - 1);
    }
  }

  lemma PathIsZero(lens: seq<nat>, i: nat, d: nat)
    requires Lengths(lens) && Lone(lens) && Used(lens, i)
    ensures Path(lens, i, d) == Node(d, 0) && NextBit(lens, i, d) == 0
  {
    LoneCode(lens, i);
    SmallRemainder(0, Pow2(d));
    DivModOf(0, Pow2(d), 0, 0);
  }

  // ---------------------------------------------------------------- other bits

  /** The first bit of `w` that is set, from bit `d` on, if there is one below bit `l`. */
  function FirstOne(w: nat, d: nat, l: nat): nat
    decreases l - d
  {
    if d >= l || w / Pow2(d) % 2 == 1 then d else FirstOne(w, d + 1, l)
  }

  /** How many bits are consumed if the stream bits `w` do not start with the codeword, a string of `l` zeros: those up
      to the first one, if the lookup table refers to the tree, and otherwise none. */
  function StrayLength(l: nat, fast: nat, w: nat): nat {
    if l <= fast || w % Pow2(fast) != 0 then 0 else FirstOne(w, fast, l) + 1
  }

  /** What the lookup table says. */
  lemma StrayLookup(lens: seq<nat>, i: nat, fast: nat, nodes: seq<Node>, lookup: seq<int>, tree: seq<int>, w: nat)
    returns (j: nat)
    requires Lengths(lens) && Lone(lens) && Used(lens, i) && |lens| <= MAX_SYMS
    requires Tables(lens, |lens|, |lens|, fast, nodes, lookup, tree) && !IsPrefix(lens, i, w)
    ensures |lookup| == Pow2(fast) && w % Pow2(fast) < |lookup|
    ensures if lens[i] <= fast || w % Pow2(fast) != 0 then lookup[w % Pow2(fast)] == 0
            else AtNode(lens, i, fast, nodes, fast, j, lookup[w % Pow2(fast)])
  {
    hide Pow2, Lone, Path, Lengths, RevCode, Closed, TreeOk, LookupEntry, Inside, IsPrefix, AtNode;
    var v := Remainder(w, Pow2(fast));
    var e := lookup[v];
    assert LookupEntry(lens, |lens|, fast, nodes, v, e);
    j := 0;
    if lens[i] > fast && v == 0 {
      PathIsZero(lens, i, fast);
      j := RootFound(lens, fast, nodes, e, i);
    } else {
      StrayEntry(lens, i, fast, nodes, v, e, w);
    }
  }

  lemma StrayEntry(lens: seq<nat>, i: nat, fast: nat, nodes: seq<Node>, v: nat, e: int, w: nat)
    requires Lengths(lens) && Lone(lens) && Used(lens, i)
    requires Shape(lens, |lens|, fast, nodes) && LookupEntry(lens, |lens|, fast, nodes, v, e)
    requires v == w % Pow2(fast) && !IsPrefix(lens, i, w) && (lens[i] <= fast || v != 0)
    ensures e == 0
  {
    hide Lone, Lengths, RevCode, Pow2, LookupValue, Path, Inside, ShortAt, IsPrefix;
    if e > 0 {
      var k :| 0 <= k < |lens| && ShortAt(lens, k, fast, v) && e == LookupValue(lens, k);
      NoShort(lens, i, k, fast, w);
    } else if e < 0 {
      var j :| 0 <= j < |nodes| && nodes[j] == Node(fast, v) && e == Id(j);
      NodesAreZero(lens, i, nodes[j]);
    }
  }

  lemma NoShort(lens: seq<nat>, i: nat, k: nat, fast: nat, w: nat)
    requires Lengths(lens) && Lone(lens) && Used(lens, i) && k < |lens| && !IsPrefix(lens, i, w)
    ensures !ShortAt(lens, k, fast, w % Pow2(fast))
  {
    hide Lone, Lengths, RevCode, Pow2;
    if ShortAt(lens, k, fast, w % Pow2(fast)) {
      LoneSymbol(lens, i, k);
      ModMod(w, lens[i], fast);
    }
  }

  lemma NodesAreZero(lens: seq<nat>, i: nat, p: Node)
    requires Lengths(lens) && Lone(lens) && Used(lens, i) && Inside(lens, |lens|, p)
    ensures p.bits == 0 && p.depth < lens[i]
  {
    hide Lone, Lengths, Path;
    var k :| 0 <= k < |lens| && lens[k] > p.depth && Path(lens, k, p.depth) == p;
    LoneSymbol(lens, i, k);
    PathIsZero(lens, i, p.depth);
  }

  /** The place beside the path is empty. */
  lemma BesideIsEmpty(lens: seq<nat>, i: nat, fast: nat, nodes: seq<Node>, p: Node, e: int)
    requires Lengths(lens) && Lone(lens) && Used(lens, i) && Shape(lens, |lens|, fast, nodes)
    requires TreeEntry(lens, |lens|, nodes, p, e) && p.bits > 0 && p.depth > 0
    ensures e == 0
  {
    hide Lone, Lengths, Path, RevCode;
    if e < 0 {
      var j :| 0 <= j < |nodes| && nodes[j] == p && e == Id(j);
      NodesAreZero(lens, i, p);
    } else if e < |lens| && LeafAt(lens, e, p) {
      LoneSymbol(lens, i, e);
      LoneCode(lens, i);
    }
  }

  /** Both entries of a node that is not the last one lie in the tree. */
  lemma EntriesInside(lens: seq<nat>, i: nat, fast: nat, nodes: seq<Node>, lookup: seq<int>, tree: seq<int>, d: nat,
                      j: nat, treeCur: int)
    requires Decodable(lens) && Tables(lens, |lens|, |lens|, fast, nodes, lookup, tree) && i < |lens|
    requires AtNode(lens, i, fast, nodes, d, j, treeCur) && d + 1 < lens[i]
    ensures 2 * j + 1 < |tree|
  {
    hide Decodable, Path, LookupOk, TreeOk, Shape, Closed, AtNode;
    var k := NextNode(lens, i, fast, nodes, d, j, treeCur);
    NodeInside(lens, i, fast, nodes, tree, d + 1, k);
  }

  lemma NodeInside(lens: seq<nat>, i: nat, fast: nat, nodes: seq<Node>, tree: seq<int>, d: nat, j: nat)
    requires Decodable(lens) && i < |lens| && AtNode(lens, i, fast, nodes, d, j, Id(j))
    requires Closed(lens, |lens|, fast, nodes) && TreeOk(lens, |lens|, nodes, tree)
    ensures 2 * j < |tree|
  {
    hide Decodable, Path, Child, NextBit, TreeOk, Closed;
    var b := NextBit(lens, i, d);
    BitIsSmall(lens, i, d);
    NextEntry(lens, i, fast, nodes, d, j, Id(j), b);
    EntryInTree(lens, i, fast, nodes, tree, d, 2 * j + b);
  }

  lemma BitIsSmall(lens: seq<nat>, i: nat, d: nat)
    requires i < |lens|
    ensures NextBit(lens, i, d) <= 1
  {
  }

  lemma NextNode(lens: seq<nat>, i: nat, fast: nat, nodes: seq<Node>, d: nat, j: nat, treeCur: int) returns (k: nat)
    requires Shape(lens, |lens|, fast, nodes) && Closed(lens, |lens|, fast, nodes) && i < |lens|
    requires AtNode(lens, i, fast, nodes, d, j, treeCur) && d + 1 < lens[i]
    ensures j < k && AtNode(lens, i, fast, nodes, d + 1, k, Id(k))
  {
    PathInside(lens, i, d + 1);
    assert Path(lens, i, d + 1).depth == d + 1;
    hide Path, Inside, Parent;
    k :| 0 <= k < |nodes| && nodes[k] == Path(lens, i, d + 1);
    assert Parent(nodes[k]) in nodes[..k];
  }

  lemma EntryInTree(lens: seq<nat>, i: nat, fast: nat, nodes: seq<Node>, tree: seq<int>, d: nat, x: nat)
    requires Decodable(lens) && i < |lens| && x < 2 * |nodes| && d < lens[i]
    requires Closed(lens, |lens|, fast, nodes) && TreeOk(lens, |lens|, nodes, tree) && fast <= d
    requires Child(nodes, x) == Path(lens, i, d + 1)
    ensures x < |tree|
  {
    hide Decodable, Path, TreeEntry, Child, LeafAt;
    if d + 1 < lens[i] {
      assert TreeEntry(lens, |lens|, nodes, Child(nodes, x), EntryAt(tree, x));
      TreeOnPath(lens, |lens|, i, nodes, d + 1, EntryAt(tree, x));
    } else {
      PathEnd(lens, i);
    }
  }

  /** One step down the tree: along the path for a zero, and off it for a one. */
  lemma StrayStep(lens: seq<nat>, i: nat, fast: nat, nodes: seq<Node>, lookup: seq<int>, tree: seq<int>, w: nat, d: nat,
                  j: nat, treeCur: int) returns (k: nat)
    requires Lengths(lens) && Lone(lens) && |lens| <= MAX_SYMS && Used(lens, i) && fast >= 1
    requires Tables(lens, |lens|, |lens|, fast, nodes, lookup, tree) && AtNode(lens, i, fast, nodes, d, j, treeCur)
    requires w / Pow2(d) % 2 == 1 || d + 1 < lens[i]
    requires d + 1 < lens[i] || lens[i] <= fast + |lens|
    ensures var x := TreeIndex(treeCur, w, d);
            0 <= x < |tree| &&
            if w / Pow2(d) % 2 == 1 then tree[x] == 0 else AtNode(lens, i, fast, nodes, d + 1, k, tree[x])
  {
    hide Pow2, Lone, Lengths, Path, LookupOk, Child, TreeEntry, LeafAt, Shape;
    var b := BitAt(w, d);
    var x := 2 * j + b;
    PathIsZero(lens, i, d);
    k := 0;
    if d + 1 < lens[i] {
      EntriesInside(lens, i, fast, nodes, lookup, tree, d, j, treeCur);
    } else {
      LastInside(lens, i, fast, nodes, j);
    }
    assert TreeEntry(lens, |lens|, nodes, Child(nodes, x), EntryAt(tree, x));
    if b == 1 {
      OffPath(lens, i, nodes, d, j, x);
      BesideIsEmpty(lens, i, fast, nodes, Child(nodes, x), EntryAt(tree, x));
    } else {
      NextEntry(lens, i, fast, nodes, d, j, treeCur, b);
      k := InnerFound(lens, fast, nodes, d, j, treeCur, EntryAt(tree, x), i);
    }
  }

  function BitAt(w: nat, d: nat): (b: nat)
    ensures b <= 1
  {
    w / Pow2(d) % 2
  }

  lemma OffPath(lens: seq<nat>, i: nat, nodes: seq<Node>, d: nat, j: nat, x: nat)
    requires i < |lens| && j < |nodes| && nodes[j] == Path(lens, i, d) && x == 2 * j + 1
    ensures Child(nodes, x).bits > 0 && Child(nodes, x).depth > 0
  {
    assert x / 2 == j && x % 2 == 1;
  }

  lemma LastInside(lens: seq<nat>, i: nat, fast: nat, nodes: seq<Node>, j: nat)
    requires Lengths(lens) && Lone(lens) && Used(lens, i) && fast >= 1 && Shape(lens, |lens|, fast, nodes)
    requires j < |nodes| && lens[i] <= fast + |lens|
    ensures 2 * j + 1 < 2 * |lens|
  {
    hide Lone, Lengths, Shape;
    LoneBound(lens, |lens|, fast, nodes);
    var k :| 0 <= k < |lens| && lens[k] > fast && |nodes| <= lens[k] - fast;
    LoneSymbol(lens, i, k);
  }

  /** Only the first bits matter. */
  lemma {:induction false} FirstOneAlike(v: nat, w: nat, d: nat, l: nat)
    requires v % Pow2(l) == w % Pow2(l)
    ensures FirstOne(v, d, l) == FirstOne(w, d, l)
    decreases l - d
  {
    hide Pow2;
    if d < l {
      BitOfRemainder(v, d, l);
      BitOfRemainder(w, d, l);
      FirstOneAlike(v, w, d + 1, l);
    }
  }

  lemma StrayAlike(l: nat, fast: nat, v: nat, w: nat)
    requires v % Pow2(l) == w % Pow2(l) && v % Pow2(fast) == w % Pow2(fast)
    ensures StrayLength(l, fast, v) == StrayLength(l, fast, w)
  {
    FirstOneAlike(v, w, fast, l);
  }

  lemma OneMoreZero(w: nat, d: nat)
    requires w % Pow2(d) == 0 && w / Pow2(d) % 2 == 0
    ensures w % Pow2(d + 1) == 0
  {
    var p := Pow2(d);
    HighPart(w, p, 2);
    ModProduct(w, p, 2);
    var x := Remainder(w, p * 2);
    assert x / p == 0 && x % p == 0;
    assert x == p * Quotient(x, p) + Remainder(x, p);
  }

  // ---------------------------------------------------------------- decoding

  lemma LoneExists(lens: seq<nat>) returns (i: nat)
    requires Lengths(lens) && Lone(lens)
    ensures Used(lens, i)
  {
    hide FirstSymbol;
    FirstSymbolBound(lens, W + 1);
    i := SomeUsed(lens, |lens|);
  }

  lemma {:induction false} SomeUsed(lens: seq<nat>, n: nat) returns (i: nat)
    requires n <= |lens| && CountBelow(lens, n, W + 1) > 0
    ensures Used(lens, i)
  {
    if lens[n - 1] > 0 {
      i := n - 1;
    } else {
      i := SomeUsed(lens, n - 1);
    }
  }

  /** The walk off the path of a single used symbol does not leave the tree. It would do so at the last bit of a
      codeword for which the tree was not large enough from the beginning. */
  predicate StaysInside(lens: seq<nat>, fast: nat, w: nat) {
    forall i :: 0 <= i < |lens| && lens[i] > 0 ==> lens[i] <= fast + |lens| || StrayLength(lens[i], fast, w) < lens[i]
  }

  /** The codeword of symbol `i` comes next, or other bits than those of the single used symbol `i`. */
  ghost predicate Readable(lens: seq<nat>, i: nat, fast: nat, w: nat) {
    && Decodable(lens) && Used(lens, i)
    && (IsPrefix(lens, i, w)
        || (Lone(lens) && (lens[i] <= fast + |lens| || StrayLength(lens[i], fast, w) < lens[i])))
  }

  /** Length and symbol that decoding yields. */
  ghost predicate Outcome(lens: seq<nat>, i: nat, fast: nat, w: nat, codeLen: nat, sym: int)
    requires i < |lens|
  {
    if IsPrefix(lens, i, w) then codeLen == lens[i] && sym == i
    else codeLen == StrayLength(lens[i], fast, w) <= lens[i] && sym == 0
  }

  /** The walk has come to node `j` at depth `d`. */
  ghost predicate OnWay(lens: seq<nat>, i: nat, fast: nat, nodes: seq<Node>, w: nat, d: nat, j: nat, treeCur: int)
    requires i < |lens|
  {
    && AtNode(lens, i, fast, nodes, d, j, treeCur)
    && (!IsPrefix(lens, i, w) ==>
          w % Pow2(d) == 0 && lens[i] > fast && StrayLength(lens[i], fast, w) == FirstOne(w, d, lens[i]) + 1)
  }

  lemma WayIsOn(lens: seq<nat>, i: nat, fast: nat, nodes: seq<Node>, w: nat, d: nat, j: nat, treeCur: int)
    requires i < |lens| && OnWay(lens, i, fast, nodes, w, d, j, treeCur)
    ensures d < lens[i] && treeCur < 0
  {
  }

  lemma LookupSays(lens: seq<nat>, i: nat, fast: nat, nodes: seq<Node>, lookup: seq<int>, tree: seq<int>, w: nat)
    returns (j: nat)
    requires Tables(lens, |lens|, |lens|, fast, nodes, lookup, tree) && Readable(lens, i, fast, w)
    ensures |lookup| == Pow2(fast) && w % Pow2(fast) < |lookup|
    ensures var e := lookup[w % Pow2(fast)];
            if e < 0 then OnWay(lens, i, fast, nodes, w, fast, j, e)
            else Outcome(lens, i, fast, w, e / 65536, e % 65536)
  {
    hide Pow2, Tables, AtNode, Lone, IsPrefix, Decodable;
    if IsPrefix(lens, i, w) {
      j := LookupFinds(lens, fast, nodes, lookup, tree, w, i);
      if lens[i] > fast {
        NodeRef(lens, i, fast, nodes, fast, j, lookup[w % Pow2(fast)]);
      } else {
        SymbolIsSmall(lens, i);
      }
    } else {
      SymbolIsSmall(lens, i);
      j := StrayLookup(lens, i, fast, nodes, lookup, tree, w);
      if lens[i] > fast && w % Pow2(fast) == 0 {
        NodeRef(lens, i, fast, nodes, fast, j, lookup[w % Pow2(fast)]);
      }
    }
  }

  lemma NodeRef(lens: seq<nat>, i: nat, fast: nat, nodes: seq<Node>, d: nat, j: nat, e: int)
    requires i < |lens| && AtNode(lens, i, fast, nodes, d, j, e)
    ensures d < lens[i] && e < 0
  {
  }

  lemma SymbolIsSmall(lens: seq<nat>, i: nat)
    requires Decodable(lens) && i < |lens|
    ensures Lengths(lens) && |lens| <= MAX_SYMS
    ensures LookupValue(lens, i) / 65536 == lens[i] && LookupValue(lens, i) % 65536 == i
  {
  }

  /** One step of the walk: to the next node, or to the end. */
  lemma WayStep(lens: seq<nat>, i: nat, fast: nat, nodes: seq<Node>, lookup: seq<int>, tree: seq<int>, w: nat, d: nat,
                j: nat, treeCur: int) returns (k: nat)
    requires Tables(lens, |lens|, |lens|, fast, nodes, lookup, tree) && Readable(lens, i, fast, w) && fast >= 1
    requires OnWay(lens, i, fast, nodes, w, d, j, treeCur)
    ensures var x := TreeIndex(treeCur, w, d);
            0 <= x < |tree| &&
            if tree[x] < 0 then OnWay(lens, i, fast, nodes, w, d + 1, k, tree[x]) && d + 1 < lens[i]
            else Outcome(lens, i, fast, w, d + 1, tree[x])
  {
    hide Pow2, Tables, AtNode, Lone, IsPrefix, Decodable;
    if IsPrefix(lens, i, w) {
      k := TreeStep(lens, fast, nodes, lookup, tree, w, i, d, j, treeCur);
      NodeRef(lens, i, fast, nodes, d, j, treeCur);
    } else {
      k := OffWayStep(lens, i, fast, nodes, lookup, tree, w, d, j, treeCur);
    }
  }

  lemma OffWayStep(lens: seq<nat>, i: nat, fast: nat, nodes: seq<Node>, lookup: seq<int>, tree: seq<int>, w: nat,
                   d: nat, j: nat, treeCur: int) returns (k: nat)
    requires Tables(lens, |lens|, |lens|, fast, nodes, lookup, tree) && Readable(lens, i, fast, w) && fast >= 1
    requires OnWay(lens, i, fast, nodes, w, d, j, treeCur) && !IsPrefix(lens, i, w)
    ensures var x := TreeIndex(treeCur, w, d);
            0 <= x < |tree| &&
            if tree[x] < 0 then OnWay(lens, i, fast, nodes, w, d + 1, k, tree[x]) && d + 1 < lens[i]
            else Outcome(lens, i, fast, w, d + 1, tree[x])
  {
    hide Pow2, Tables, AtNode, Lone, IsPrefix, Decodable, StrayLength, TreeIndex;
    SymbolIsSmall(lens, i);
    NodeRef(lens, i, fast, nodes, d, j, treeCur);
    var l := lens[i];
    FirstOneStep(w, d, l);
    if w / Pow2(d) % 2 == 0 {
      OneMoreZero(w, d);
      if d + 1 == l {
        ZeroIsCode(lens, i, w);
      }
    }
    k := StrayStep(lens, i, fast, nodes, lookup, tree, w, d, j, treeCur);
    if w / Pow2(d) % 2 == 0 {
      NodeRef(lens, i, fast, nodes, d + 1, k, tree[TreeIndex(treeCur, w, d)]);
    }
  }

  lemma FirstOneStep(w: nat, d: nat, l: nat)
    requires d < l
    ensures FirstOne(w, d, l) == if w / Pow2(d) % 2 == 1 then d else FirstOne(w, d + 1, l)
  {
  }

  lemma ZeroIsCode(lens: seq<nat>, i: nat, w: nat)
    requires Lengths(lens) && Lone(lens) && Used(lens, i) && w % Pow2(lens[i]) == 0
    ensures IsPrefix(lens, i, w)
  {
    LoneCode(lens, i);
  }

  // ---------------------------------------------------------------- leaving the tree

  /** Nodes come behind their parents, so there are enough in front of a deep one. */
  lemma {:induction false} IndexIsDepth(lens: seq<nat>, i: nat, fast: nat, nodes: seq<Node>, d: nat, j: nat)
    requires i < |lens| && Shape(lens, |lens|, fast, nodes) && AtNode(lens, i, fast, nodes, d, j, Id(j))
    ensures j >= d - fast
    decreases d
  {
    hide Shape, AtNode;
    if d > fast {
      var k := NodeBefore(lens, i, fast, nodes, d, j);
      IndexIsDepth(lens, i, fast, nodes, d - 1, k);
    }
  }

  lemma NodeBefore(lens: seq<nat>, i: nat, fast: nat, nodes: seq<Node>, d: nat, j: nat) returns (k: nat)
    requires i < |lens| && Shape(lens, |lens|, fast, nodes) && AtNode(lens, i, fast, nodes, d, j, Id(j)) && d > fast
    ensures k < j && AtNode(lens, i, fast, nodes, d - 1, k, Id(k))
  {
    PathInside(lens, i, d);
    assert Path(lens, i, d).depth == d;
    hide Path, Inside, Parent;
    assert Parent(nodes[j]) in nodes[..j];
    k :| 0 <= k < j && nodes[..j][k] == Parent(nodes[j]);
  }

  /** The second entry of the last node is not in the tree, if that has been lengthened on the way. */
  lemma LastOutside(lens: seq<nat>, i: nat, fast: nat, nodes: seq<Node>, tree: seq<int>, j: nat)
    requires Lengths(lens) && Lone(lens) && Used(lens, i) && fast >= 1 && Shape(lens, |lens|, fast, nodes)
    requires Trimmed(lens, |lens|, nodes, tree) && lens[i] > fast + |lens|
    requires AtNode(lens, i, fast, nodes, lens[i] - 1, j, Id(j))
    ensures 2 * j + 1 >= |tree|
  {
    hide Lone, Lengths, InUse, Shape;
    NodeInRange(lens, i, fast, nodes, lens[i] - 1, j);
    hide AtNode;
    IndexIsDepth(lens, i, fast, nodes, lens[i] - 1, j);
    LoneBound(lens, |lens|, fast, nodes);
    var k :| 0 <= k < |lens| && lens[k] > fast && |nodes| <= lens[k] - fast;
    LoneSymbol(lens, i, k);
    if |tree| > 2 * |lens| {
      InUseIsEven(lens, i, fast, nodes, |tree| - 1);
    }
  }

  lemma NodeInRange(lens: seq<nat>, i: nat, fast: nat, nodes: seq<Node>, d: nat, j: nat)
    requires i < |lens| && AtNode(lens, i, fast, nodes, d, j, Id(j))
    ensures j < |nodes|
  {
  }

  lemma InUseIsEven(lens: seq<nat>, i: nat, fast: nat, nodes: seq<Node>, x: nat)
    requires Lengths(lens) && Lone(lens) && Used(lens, i) && Shape(lens, |lens|, fast, nodes)
    requires x < 2 * |nodes| && InUse(lens, |lens|, nodes, x)
    ensures x % 2 == 0
  {
    ChildBits(nodes, x);
    hide Lone, Lengths, Child, LeafAt, Inside;
    var p := Child(nodes, x);
    if p in nodes {
      var j :| 0 <= j < |nodes| && nodes[j] == p;
      NodesAreZero(lens, i, nodes[j]);
    } else {
      var k: nat :| k < |lens| && LeafAt(lens, k, p);
      LeavesAreZero(lens, i, k, p);
    }
  }

  lemma ChildBits(nodes: seq<Node>, x: nat)
    requires x < 2 * |nodes|
    ensures Child(nodes, x).depth > 0 && (x % 2 == 1 ==> Child(nodes, x).bits > 0)
  {
  }

  lemma LeavesAreZero(lens: seq<nat>, i: nat, k: nat, p: Node)
    requires Lengths(lens) && Lone(lens) && Used(lens, i) && k < |lens| && LeafAt(lens, k, p) && p.depth > 0
    ensures p.bits == 0
  {
    hide Lone, Lengths, RevCode;
    LoneSymbol(lens, i, k);
    LoneCode(lens, i);
  }

  lemma {:induction false} StrayWalk(lens: seq<nat>, i: nat, fast: nat, nodes: seq<Node>, lookup: seq<int>,
                                     tree: seq<int>, w: nat, d: nat, j: nat, t: int) returns (k: nat)
    requires Lengths(lens) && Lone(lens) && |lens| <= MAX_SYMS && Used(lens, i) && fast >= 1
    requires Tables(lens, |lens|, |lens|, fast, nodes, lookup, tree) && AtNode(lens, i, fast, nodes, d, j, t)
    requires FirstOne(w, d, lens[i]) == lens[i] - 1
    ensures AtNode(lens, i, fast, nodes, lens[i] - 1, k, Walk(tree, t, d, w, lens[i] - 1))
    decreases lens[i] - d
  {
    hide Pow2, Tables, AtNode, Lone, Lengths;
    NodeRef(lens, i, fast, nodes, d, j, t);
    k := j;
    if d < lens[i] - 1 {
      FirstOneStep(w, d, lens[i]);
      k := StrayStep(lens, i, fast, nodes, lookup, tree, w, d, j, t);
      k := StrayWalk(lens, i, fast, nodes, lookup, tree, w, d + 1, k, tree[TreeIndex(t, w, d)]);
    }
  }

  /** Where `StaysInside` fails, the walk comes to an entry behind the end of the tree. */
  lemma LeavesTree(lens: seq<nat>, i: nat, fast: nat, nodes: seq<Node>, lookup: seq<int>, tree: seq<int>, w: nat)
    requires Lengths(lens) && Lone(lens) && |lens| <= MAX_SYMS && Used(lens, i) && fast >= 1
    requires Tables(lens, |lens|, |lens|, fast, nodes, lookup, tree) && Trimmed(lens, |lens|, nodes, tree)
    requires lens[i] > fast + |lens| && StrayLength(lens[i], fast, w) >= lens[i] && !IsPrefix(lens, i, w)
    ensures |lookup| == Pow2(fast)
    ensures var t := Value(lookup, tree, fast, w, lens[i] - 1);
            t < 0 && TreeIndex(t, w, lens[i] - 1) >= |tree|
  {
    hide Pow2, AtNode, Lone, Lengths, IsPrefix, Trimmed, LookupOk, TreeOk, Closed, Shape, TreeIndex, Walk;
    var l := lens[i];
    var j := StrayLookup(lens, i, fast, nodes, lookup, tree, w);
    FirstOneRange(lens, i, w, fast);
    var k := StrayWalk(lens, i, fast, nodes, lookup, tree, w, fast, j, lookup[Remainder(w, Pow2(fast))]);
    var t := Value(lookup, tree, fast, w, l - 1);
    NodeIs(lens, i, fast, nodes, l - 1, k, t);
    LastOutside(lens, i, fast, nodes, tree, k);
    OneAtEnd(w, fast, l, k);
  }

  lemma NodeIs(lens: seq<nat>, i: nat, fast: nat, nodes: seq<Node>, d: nat, j: nat, t: int)
    requires i < |lens| && AtNode(lens, i, fast, nodes, d, j, t)
    ensures t == Id(j) < 0
  {
  }

  lemma OneAtEnd(w: nat, d: nat, l: nat, k: nat)
    requires FirstOne(w, d, l) == l - 1
    ensures l > 0 && TreeIndex(Id(k), w, l - 1) == 2 * k + 1
  {
    OneThere(w, d, l);
  }

  lemma {:induction false} OneThere(w: nat, d: nat, l: nat)
    requires d < l && FirstOne(w, d, l) < l
    ensures w / Pow2(FirstOne(w, d, l)) % 2 == 1
    decreases l - d
  {
    hide Pow2;
    FirstOneStep(w, d, l);
    if w / Pow2(d) % 2 == 0 {
      OneThere(w, d + 1, l);
    }
  }

  lemma FirstOneRange(lens: seq<nat>, i: nat, w: nat, fast: nat)
    requires Lengths(lens) && Lone(lens) && Used(lens, i) && fast < lens[i] && w % Pow2(fast) == 0
    requires !IsPrefix(lens, i, w)
    ensures fast <= FirstOne(w, fast, lens[i]) < lens[i]
  {
    hide Pow2, Lone, Lengths, IsPrefix;
    if FirstOne(w, fast, lens[i]) >= lens[i] {
      ZerosAreCode(w, fast, lens[i]);
      ZeroIsCode(lens, i, w);
    }
    FirstOneAtLeast(w, fast, lens[i]);
  }

  lemma {:induction false} FirstOneAtLeast(w: nat, d: nat, l: nat)
    ensures FirstOne(w, d, l) >= d
    decreases l - d
  {
    hide Pow2;
    if d < l {
      FirstOneAtLeast(w, d + 1, l);
    }
  }

  /** Bits that are zero up to the codeword's length are the codeword. */
  lemma {:induction false} ZerosAreCode(w: nat, d: nat, l: nat)
    requires w % Pow2(d) == 0 && d <= l && FirstOne(w, d, l) >= l
    ensures w % Pow2(l) == 0
    decreases l - d
  {
    hide Pow2;
    if d < l {
      FirstOneStep(w, d, l);
      OneMoreZero(w, d);
      ZerosAreCode(w, d + 1, l);
    }
  }

  /** With the default of ten lookup bits: one symbol of length 16, and fifteen zeros before the first one. */
  lemma SixteenBitEscape(w: nat)
    requires w % Pow2(16) == Pow2(15)
    ensures Decodable([16]) && Lone([16]) && !IsPrefix([16], 0, w) && !StaysInside([16], 10, w)
  {
    var lens := [16];
    OneSymbol(lens, W + 1);
    hide FirstSymbol;
    LoneCode(lens, 0);
    assert Pow2(15) > 0;
    hide Pow2, RevCode;
    forall d: nat | 10 <= d <= 15
      ensures w / Pow2(d) % 2 == if d == 15 then 1 else 0
      ensures w % Pow2(10) == 0
    {
      BitOfRemainder(w, d, 16);
      BitOfPower(15, d);
      ModMod(w, 10, 16);
      BitsOfPower(15, 10);
    }
    FirstOneStep(w, 15, 16);
    FirstOneStep(w, 14, 16);
    FirstOneStep(w, 13, 16);
    FirstOneStep(w, 12, 16);
    FirstOneStep(w, 11, 16);
    FirstOneStep(w, 10, 16);
    assert w % Pow2(10) == 0 && FirstOne(w, 10, 16) == 15;
    assert StrayLength(lens[0], 10, w) == 16;
  }

  lemma {:induction false} OneSymbol(lens: seq<nat>, l: nat)
    requires lens == [16]
    ensures FirstSymbol(lens, l) == if l <= 16 then 0 else 1
  {
    assert lens[0] == 16;
    if l > 1 {
      OneSymbol(lens, l - 1);
    }
  }

  lemma BitOfPower(a: nat, d: nat)
    requires d <= a
    ensures Pow2(a) / Pow2(d) % 2 == if d == a then 1 else 0
  {
    hide Pow2;
    PowerSplit(a, d);
    Pow2Step(a - d);
    if d < a {
      EvenIsEven(Pow2(a - d), Pow2(a - d - 1));
    }
  }

  lemma EvenIsEven(x: nat, h: nat)
    requires x == 2 * h
    ensures x % 2 == 0
  {
  }

  lemma BitsOfPower(a: nat, d: nat)
    requires d <= a
    ensures Pow2(a) % Pow2(d) == 0
  {
    PowerSplit(a, d);
  }

  lemma PowerSplit(a: nat, d: nat)
    requires d <= a
    ensures Pow2(a) / Pow2(d) == Pow2(a - d) && Pow2(a) % Pow2(d) == 0
  {
    Pow2Add(d, a - d);
    hide Pow2;
    DivModOf(Pow2(a), Pow2(d), Pow2(a - d), 0);
  }
}
