/** What basisu's Huffman decoding table holds: a lookup table for the first bits of the stream, and a binary tree
    packed into negative numbers for longer codewords. */
module HuffmanTree {
  import opened Canonical
  import opened Powers
  import opened StrideFill

  const MAX_SYMS := 16384
  const MAX_INTERNAL_SIZE := 31

  /** The code length lists the encoder writes: lengths of at most 16 and a Kraft sum of exactly one. */
  predicate Complete(lens: seq<nat>) {
    |lens| <= MAX_SYMS && Lengths(lens) && Kraft(lens) == Pow2(W)
  }

  /** A single symbol is used. */
  predicate Lone(lens: seq<nat>) {
    FirstSymbol(lens, W + 1) == 1
  }

  /** The lists that `init` accepts on purpose: complete ones, and those with a single used symbol. */
  predicate Decodable(lens: seq<nat>) {
    |lens| <= MAX_SYMS && Lengths(lens) && (Kraft(lens) == Pow2(W) || Lone(lens))
  }

  lemma AddLight(a: nat, f: nat, n: nat, v: nat, w: nat)
    requires a <= f * w && v <= w
    ensures a + n * v <= (f + n) * w
  {
    MulLe(n, n, v, w);
    Distribute(w, f, n);
  }

  lemma {:induction false} FewSymbolsWeighLittle(lens: seq<nat>, l: nat)
    requires l <= W + 1
    ensures Start(lens, l) <= FirstSymbol(lens, l) * Weight(1)
  {
    hide Weight, Count;
    if l > 1 {
      FewSymbolsWeighLittle(lens, l - 1);
      LighterThanOne(l - 1);
      AddLight(Start(lens, l - 1), FirstSymbol(lens, l - 1), Count(lens, |lens|, l - 1), Weight(l - 1), Weight(1));
    }
  }

  lemma LighterThanOne(l: nat)
    requires 1 <= l <= W
    ensures Weight(l) <= Weight(1) < Pow2(W)
  {
    Pow2Monotone(W - l, W - 1);
    Pow2Step(W);
  }

  /** In either case the codewords exclude each other. */
  lemma DecodableFits(lens: seq<nat>)
    requires Decodable(lens)
    ensures Kraft(lens) <= Pow2(W)
  {
    hide Start, FirstSymbol, Pow2, Weight;
    FewSymbolsWeighLittle(lens, W + 1);
    LighterThanOne(1);
  }

  lemma {:induction false} TwoUsed(lens: seq<nat>, n: nat, i: nat, j: nat)
    requires Lengths(lens) && i < j < n <= |lens| && lens[i] > 0 && lens[j] > 0
    ensures CountBelow(lens, n, W + 1) >= 2
    decreases n
  {
    if j < n - 1 {
      TwoUsed(lens, n - 1, i, j);
    } else {
      OneUsed(lens, n - 1, i);
    }
  }

  lemma {:induction false} OneUsed(lens: seq<nat>, n: nat, i: nat)
    requires Lengths(lens) && i < n <= |lens| && lens[i] > 0
    ensures CountBelow(lens, n, W + 1) >= 1
    decreases n
  {
    if i < n - 1 {
      OneUsed(lens, n - 1, i);
    }
  }

  /** If one symbol is used, no other is. */
  lemma LoneSymbol(lens: seq<nat>, i: nat, j: nat)
    requires Lengths(lens) && Lone(lens) && i < |lens| && j < |lens| && lens[i] > 0 && lens[j] > 0
    ensures i == j
  {
    hide FirstSymbol;
    FirstSymbolBound(lens, W + 1);
    if i < j {
      TwoUsed(lens, |lens|, i, j);
    } else if j < i {
      TwoUsed(lens, |lens|, j, i);
    }
  }

  // ---------------------------------------------------------------- nodes

  /** An inner node of the tree: the `depth` stream bits `bits` that lead to it. */
  datatype Node = Node(depth: nat, bits: nat)

  /** How a reference to node `j` is stored; its two children are the tree entries `2 * j` and `2 * j + 1`. */
  function Id(j: nat): int {
    -1 - 2 * j
  }

  /** The place in the code that tree entry `x` stands for. */
  function Child(nodes: seq<Node>, x: nat): Node
    requires x / 2 < |nodes|
  {
    Below(nodes[x / 2], x % 2)
  }

  /** The place one stream bit further on. */
  function Below(p: Node, b: nat): Node {
    Node(p.depth + 1, p.bits + b * Pow2(p.depth))
  }

  function Parent(p: Node): Node
    requires p.depth > 0
  {
    Node(p.depth - 1, p.bits % Pow2(p.depth - 1))
  }

  /** The first `d` stream bits of symbol `i`'s codeword. */
  function Path(lens: seq<nat>, i: nat, d: nat): Node
    requires i < |lens|
  {
    Node(d, Remainder(RevCode(lens, i), Pow2(d)))
  }

  ghost predicate LeafAt(lens: seq<nat>, i: nat, p: Node)
    requires i < |lens|
  {
    lens[i] == p.depth && RevCode(lens, i) == p.bits
  }

  /** A tree entry: a symbol, a reference to an inner node, or 0 when there is neither. Symbol 0 is also stored as 0. */
  ghost predicate TreeEntry(lens: seq<nat>, n: nat, nodes: seq<Node>, p: Node, e: int)
    requires n <= |lens|
  {
    || (e >= 0 && e < n && LeafAt(lens, e, p))
    || (e < 0 && exists j :: 0 <= j < |nodes| && nodes[j] == p && e == Id(j))
    || (e == 0 && p !in nodes && forall i :: 0 <= i < n ==> !LeafAt(lens, i, p))
  }

  ghost predicate ShortAt(lens: seq<nat>, i: nat, fast: nat, v: nat)
    requires i < |lens|
  {
    lens[i] <= fast && IsPrefix(lens, i, v)
  }

  function LookupValue(lens: seq<nat>, i: nat): nat
    requires i < |lens|
  {
    lens[i] * 65536 + i
  }

  /** A lookup entry: length and symbol of a short codeword, a reference to an inner node, or 0. */
  ghost predicate LookupEntry(lens: seq<nat>, n: nat, fast: nat, nodes: seq<Node>, v: nat, e: int)
    requires n <= |lens|
  {
    || (e > 0 && exists i :: 0 <= i < n && ShortAt(lens, i, fast, v) && e == LookupValue(lens, i))
    || (e < 0 && exists j :: 0 <= j < |nodes| && nodes[j] == Node(fast, v) && e == Id(j))
    || (e == 0 && Node(fast, v) !in nodes && forall i :: 0 <= i < n ==> !ShortAt(lens, i, fast, v))
  }

  /** Some symbol below `m` continues behind `p`. */
  ghost predicate Inside(lens: seq<nat>, m: nat, p: Node)
    requires m <= |lens|
  {
    exists i :: 0 <= i < m && lens[i] > p.depth && Path(lens, i, p.depth) == p
  }

  /** Inner nodes are distinct, lie inside codewords, and come behind their parents. */
  ghost predicate Shape(lens: seq<nat>, m: nat, fast: nat, nodes: seq<Node>)
    requires m <= |lens|
  {
    && (forall j :: 0 <= j < |nodes| ==> nodes[j].depth >= fast && Inside(lens, m, nodes[j]))
    && (forall j, k :: 0 <= j < k < |nodes| ==> nodes[j] != nodes[k])
    && (forall j :: 0 <= j < |nodes| && nodes[j].depth > fast ==>
          Parent(nodes[j]) in nodes[..j])
  }

  /** Every place inside a long codeword of the first `n` symbols is an inner node. */
  ghost predicate Closed(lens: seq<nat>, n: nat, fast: nat, nodes: seq<Node>)
    requires n <= |lens|
  {
    forall i, d :: 0 <= i < n && fast <= d < lens[i] ==> Path(lens, i, d) in nodes
  }

  ghost predicate LookupOk(lens: seq<nat>, n: nat, fast: nat, nodes: seq<Node>, lookup: seq<int>)
    requires n <= |lens|
  {
    |lookup| == Pow2(fast) && forall v :: 0 <= v < |lookup| ==> LookupEntry(lens, n, fast, nodes, v, lookup[v])
  }

  /** Behind its end the tree is taken to hold zeros; that is how it is lengthened. */
  function EntryAt(tree: seq<int>, x: nat): int {
    if x < |tree| then tree[x] else 0
  }

  ghost predicate TreeOk(lens: seq<nat>, n: nat, nodes: seq<Node>, tree: seq<int>)
    requires n <= |lens|
  {
    && (forall x: nat :: x < 2 * |nodes| ==> TreeEntry(lens, n, nodes, Child(nodes, x), EntryAt(tree, x)))
    && (forall x :: 2 * |nodes| <= x < |tree| ==> tree[x] == 0)
    && LeavesStored(lens, n, nodes, tree)
  }

  /** The places of the symbols stored so far lie in the tree, also that of symbol 0. */
  ghost predicate LeavesStored(lens: seq<nat>, n: nat, nodes: seq<Node>, tree: seq<int>)
    requires n <= |lens|
  {
    && |tree| >= 2 * |lens|
    && forall x: nat, i: nat :: x < 2 * |nodes| && i < n && LeafAt(lens, i, Child(nodes, x)) ==> x < |tree|
  }

  /** The tables after the first `n` symbols, while nodes for the first `m` may already have been made. */
  ghost predicate Tables(lens: seq<nat>, n: nat, m: nat, fast: nat, nodes: seq<Node>, lookup: seq<int>, tree: seq<int>)
    requires n <= m <= |lens|
  {
    && Shape(lens, m, fast, nodes) && Closed(lens, n, fast, nodes)
    && LookupOk(lens, n, fast, nodes, lookup) && TreeOk(lens, n, nodes, tree)
  }

  // ---------------------------------------------------------------- prefixes

  lemma RevCodeFits(lens: seq<nat>, i: nat)
    requires i < |lens|
    ensures RevCode(lens, i) < Pow2(lens[i])
  {
  }

  lemma OwnPrefix(lens: seq<nat>, i: nat)
    requires i < |lens| && lens[i] > 0
    ensures IsPrefix(lens, i, RevCode(lens, i))
  {
    RevCodeFits(lens, i);
    SmallRemainder(RevCode(lens, i), Pow2(lens[i]));
  }

  /** A codeword inside another one would be the same one. */
  lemma NotInside(lens: seq<nat>, i: nat, j: nat)
    requires Decodable(lens) && i < |lens| && j < |lens| && 0 < lens[i] <= lens[j]
    requires RevCode(lens, j) % Pow2(lens[i]) == RevCode(lens, i)
    ensures i == j
  {
    DecodableFits(lens);
    hide RevCode, Kraft, Lengths, Pow2, IsPrefix, Lone;
    NotInsideEither(lens, i, j);
  }

  lemma NotInsideEither(lens: seq<nat>, i: nat, j: nat)
    requires Lengths(lens) && Kraft(lens) <= Pow2(W) && i < |lens| && j < |lens| && 0 < lens[i] && 0 < lens[j]
    requires RevCode(lens, j) % Pow2(lens[i]) == RevCode(lens, i)
    ensures i == j
  {
    hide Kraft, RevCode, Pow2;
    OwnPrefix(lens, j);
    PrefixUnique(lens, i, j, RevCode(lens, j));
  }

  /** No short codeword and no leaf lies on the way to another codeword. */
  lemma PathIsFree(lens: seq<nat>, n: nat, i: nat, d: nat)
    requires Decodable(lens) && n < |lens| && i < |lens| && i != n && d < lens[n]
    ensures lens[i] > 0 && lens[i] <= d ==> !IsPrefix(lens, i, Path(lens, n, d).bits)
    ensures lens[i] > 0 ==> !LeafAt(lens, i, Path(lens, n, d))
  {
    hide RevCode, Kraft, Lengths, Pow2;
    if lens[i] > 0 && lens[i] <= d && IsPrefix(lens, i, Path(lens, n, d).bits) {
      ModMod(RevCode(lens, n), lens[i], d);
      NotInside(lens, i, n);
    }
    if lens[i] > 0 && LeafAt(lens, i, Path(lens, n, d)) {
      NotInside(lens, i, n);
    }
  }

  // ---------------------------------------------------------------- adding to the tables

  lemma InsideFits(lens: seq<nat>, m: nat, p: Node)
    requires m <= |lens| && Inside(lens, m, p)
    ensures p.bits < Pow2(p.depth)
  {
  }

  /** Appending a bit and cutting it off again. */
  lemma ParentOfBelow(p: Node, b: nat)
    requires p.bits < Pow2(p.depth)
    ensures Parent(Below(p, b)) == p && Below(p, b).bits / Pow2(p.depth) == b && Below(p, b).depth == p.depth + 1
  {
    DivModOf(p.bits + b * Pow2(p.depth), Pow2(p.depth), b, p.bits);
  }

  /** Different entries stand for different places. */
  lemma ChildInjective(lens: seq<nat>, m: nat, fast: nat, nodes: seq<Node>, x: nat, y: nat)
    requires m <= |lens| && Shape(lens, m, fast, nodes) && x / 2 < |nodes| && y / 2 < |nodes|
    requires Child(nodes, x) == Child(nodes, y)
    ensures x == y
  {
    InsideFits(lens, m, nodes[x / 2]);
    InsideFits(lens, m, nodes[y / 2]);
    ParentOfBelow(nodes[x / 2], x % 2);
    ParentOfBelow(nodes[y / 2], y % 2);
    hide Pow2, Inside, Below, Parent;
    assert nodes[x / 2] == nodes[y / 2];
    assert x / 2 == y / 2;
  }

  lemma LeafBelow(lens: seq<nat>, i: nat, p: Node, b: nat)
    requires i < |lens| && p.bits < Pow2(p.depth) && LeafAt(lens, i, Below(p, b))
    ensures lens[i] == p.depth + 1 && Path(lens, i, p.depth) == p
  {
    ParentOfBelow(p, b);
  }

  /** Nothing lies below a place that is not a node. */
  lemma NothingBelow(lens: seq<nat>, n: nat, m: nat, fast: nat, nodes: seq<Node>, p: Node, b: nat)
    requires n <= m <= |lens| && Shape(lens, m, fast, nodes) && Closed(lens, n, fast, nodes)
    requires p !in nodes && p.depth >= fast && p.bits < Pow2(p.depth)
    ensures Below(p, b) !in nodes && forall i :: 0 <= i < n ==> !LeafAt(lens, i, Below(p, b))
  {
    ParentOfBelow(p, b);
    hide Pow2, Inside, Below, Parent, Path, LeafAt;
    forall i | 0 <= i < n
      ensures !LeafAt(lens, i, Below(p, b))
    {
      if LeafAt(lens, i, Below(p, b)) {
        LeafBelow(lens, i, p, b);
      }
    }
  }

  lemma ShapeGrows(lens: seq<nat>, m: nat, fast: nat, nodes: seq<Node>, p: Node)
    requires m <= |lens| && Shape(lens, m, fast, nodes) && p !in nodes && p.depth >= fast && Inside(lens, m, p)
    requires p.depth > fast ==> Parent(p) in nodes
    ensures Shape(lens, m, fast, nodes + [p])
  {
    hide Inside, Parent;
    assert forall j :: 0 <= j <= |nodes| ==> (nodes + [p])[..j] == nodes[..j];
  }

  /** Entries keep their meaning when a node is added elsewhere. */
  lemma OtherTreeEntry(lens: seq<nat>, n: nat, nodes: seq<Node>, p: Node, q: Node, e: int)
    requires n <= |lens| && TreeEntry(lens, n, nodes, q, e) && q != p
    ensures TreeEntry(lens, n, nodes + [p], q, e)
  {
    hide LeafAt;
    if e < 0 {
      var j :| 0 <= j < |nodes| && nodes[j] == q && e == Id(j);
      assert (nodes + [p])[j] == q;
    }
  }

  lemma OtherLookupEntry(lens: seq<nat>, n: nat, fast: nat, nodes: seq<Node>, p: Node, v: nat, e: int)
    requires n <= |lens| && LookupEntry(lens, n, fast, nodes, v, e) && Node(fast, v) != p
    ensures LookupEntry(lens, n, fast, nodes + [p], v, e)
  {
    hide ShortAt, LookupValue;
    if e < 0 {
      var j :| 0 <= j < |nodes| && nodes[j] == Node(fast, v) && e == Id(j);
      assert (nodes + [p])[j] == Node(fast, v);
    }
  }

  lemma NewEntry(lens: seq<nat>, n: nat, fast: nat, nodes: seq<Node>, p: Node)
    requires n <= |lens|
    ensures TreeEntry(lens, n, nodes + [p], p, Id(|nodes|))
    ensures p.depth == fast ==> LookupEntry(lens, n, fast, nodes + [p], p.bits, Id(|nodes|))
  {
    assert (nodes + [p])[|nodes|] == p;
  }

  lemma DifferentChild(lens: seq<nat>, m: nat, fast: nat, nodes: seq<Node>, x: nat, y: nat)
    requires m <= |lens| && Shape(lens, m, fast, nodes) && x / 2 < |nodes| && y / 2 < |nodes| && x != y
    ensures Child(nodes, x) != Child(nodes, y)
  {
    if Child(nodes, x) == Child(nodes, y) {
      ChildInjective(lens, m, fast, nodes, x, y);
    }
  }

  lemma ChildStays(nodes: seq<Node>, p: Node, x: nat)
    requires x / 2 <= |nodes|
    ensures Child(nodes + [p], x) == if x / 2 < |nodes| then Child(nodes, x) else Below(p, x % 2)
  {
  }

  /** The entries of a fresh node are empty. */
  lemma FreshEntries(lens: seq<nat>, n: nat, m: nat, fast: nat, nodes: seq<Node>, p: Node, b: nat)
    requires n <= m <= |lens| && Shape(lens, m, fast, nodes) && Closed(lens, n, fast, nodes)
    requires p !in nodes && p.depth >= fast && p.bits < Pow2(p.depth)
    ensures TreeEntry(lens, n, nodes + [p], Below(p, b), 0)
  {
    NothingBelow(lens, n, m, fast, nodes, p, b);
    assert Below(p, b) != p;
  }

  /** Appending a node adds no place of a symbol. */
  lemma LeavesStay(lens: seq<nat>, n: nat, m: nat, fast: nat, nodes: seq<Node>, tree: seq<int>, tree': seq<int>,
                   p: Node)
    requires n <= m <= |lens| && Shape(lens, m, fast, nodes) && Closed(lens, n, fast, nodes)
    requires LeavesStored(lens, n, nodes, tree) && |tree'| >= |tree|
    requires p !in nodes && p.depth >= fast && p.bits < Pow2(p.depth)
    ensures LeavesStored(lens, n, nodes + [p], tree')
  {
    hide Shape, Closed, Pow2, Child, Below, LeafAt;
    var nodes' := nodes + [p];
    forall x: nat, i: nat | x < 2 * |nodes'| && i < n && LeafAt(lens, i, Child(nodes', x))
      ensures x < |tree'|
    {
      ChildStays(nodes, p, x);
      if x >= 2 * |nodes| {
        NothingBelow(lens, n, m, fast, nodes, p, x % 2);
      }
    }
  }

  /** The entries of the tree after a node has been appended: those below it are empty. */
  lemma TreeGrows(lens: seq<nat>, n: nat, m: nat, fast: nat, nodes: seq<Node>, tree: seq<int>, p: Node, at: nat)
    requires n <= m <= |lens| && Shape(lens, m, fast, nodes) && Closed(lens, n, fast, nodes)
    requires TreeOk(lens, n, nodes, tree)
    requires p !in nodes && p.depth >= fast && p.bits < Pow2(p.depth)
    requires at < 2 * |nodes| && at < |tree| && Child(nodes, at) == p
    ensures TreeOk(lens, n, nodes + [p], tree[at := Id(|nodes|)])
  {
    hide TreeEntry, Shape, Closed, Pow2, Child, Below, LeavesStored;
    var nodes', tree' := nodes + [p], tree[at := Id(|nodes|)];
    LeavesStay(lens, n, m, fast, nodes, tree, tree', p);
    forall x: nat | x < 2 * |nodes'|
      ensures TreeEntry(lens, n, nodes', Child(nodes', x), EntryAt(tree', x))
    {
      ChildStays(nodes, p, x);
      if x >= 2 * |nodes| {
        FreshEntries(lens, n, m, fast, nodes, p, x % 2);
      } else if x == at {
        NewEntry(lens, n, fast, nodes, p);
      } else {
        DifferentChild(lens, m, fast, nodes, x, at);
        OtherTreeEntry(lens, n, nodes, p, Child(nodes, x), EntryAt(tree, x));
      }
    }
  }

  /** The same for a root node, which is referred to from the lookup table. */
  lemma TreeGrowsAtRoot(lens: seq<nat>, n: nat, m: nat, fast: nat, nodes: seq<Node>, tree: seq<int>, p: Node)
    requires n <= m <= |lens| && Shape(lens, m, fast, nodes) && Closed(lens, n, fast, nodes)
    requires TreeOk(lens, n, nodes, tree)
    requires p !in nodes && p.depth == fast && p.bits < Pow2(p.depth)
    ensures TreeOk(lens, n, nodes + [p], tree)
  {
    var nodes' := nodes + [p];
    assert forall x: nat :: x < 2 * |nodes| ==> Child(nodes, x).depth > fast;
    hide TreeEntry, Shape, Closed, Pow2, Child, Below, LeavesStored;
    LeavesStay(lens, n, m, fast, nodes, tree, tree, p);
    forall x: nat | x < 2 * |nodes'|
      ensures TreeEntry(lens, n, nodes', Child(nodes', x), EntryAt(tree, x))
    {
      ChildStays(nodes, p, x);
      if x >= 2 * |nodes| {
        FreshEntries(lens, n, m, fast, nodes, p, x % 2);
      } else {
        OtherTreeEntry(lens, n, nodes, p, Child(nodes, x), EntryAt(tree, x));
      }
    }
  }

  function Excess(a: nat, b: nat): nat {
    if a > b then a - b else 0
  }

  /** The tree, lengthened with zeros should entry `at` not exist yet. */
  function Reached(tree: seq<int>, at: nat): (r: seq<int>)
    ensures at < |r| && |r| == (if at < |tree| then |tree| else at + 1)
  {
    tree + Zeros(Excess(at + 1, |tree|))
  }

  /** Lengthening the tree changes nothing. */
  lemma Lengthened(lens: seq<nat>, n: nat, m: nat, fast: nat, nodes: seq<Node>, lookup: seq<int>, tree: seq<int>,
                   k: nat)
    requires n <= m <= |lens| && Tables(lens, n, m, fast, nodes, lookup, tree)
    ensures Tables(lens, n, m, fast, nodes, lookup, tree + Zeros(k))
  {
    hide TreeEntry, Shape, Closed, Pow2, Child, LeafAt, LookupOk;
    var tree' := tree + Zeros(k);
    assert forall x: nat :: EntryAt(tree', x) == EntryAt(tree, x);
  }

  lemma ClosedGrows(lens: seq<nat>, n: nat, fast: nat, nodes: seq<Node>, p: Node)
    requires n <= |lens| && Closed(lens, n, fast, nodes)
    ensures Closed(lens, n, fast, nodes + [p])
  {
    hide Path;
  }

  lemma PathInside(lens: seq<nat>, n: nat, d: nat)
    requires n < |lens| && d < lens[n]
    ensures Inside(lens, n + 1, Path(lens, n, d)) && Path(lens, n, d).bits < Pow2(d)
    ensures d > 0 ==> Parent(Path(lens, n, d)) == Path(lens, n, d - 1)
  {
    if d > 0 {
      ModMod(RevCode(lens, n), d - 1, d);
    }
  }

  /** Making the root node for symbol `n`'s codeword. */
  lemma AddRoot(lens: seq<nat>, n: nat, fast: nat, nodes: seq<Node>, lookup: seq<int>, tree: seq<int>)
    requires n < |lens| && lens[n] > fast && Tables(lens, n, n + 1, fast, nodes, lookup, tree)
    requires Path(lens, n, fast) !in nodes
    ensures Path(lens, n, fast).bits < |lookup|
    ensures var root := Path(lens, n, fast);
            Tables(lens, n, n + 1, fast, nodes + [root], lookup[root.bits := Id(|nodes|)], tree)
  {
    var p := Path(lens, n, fast);
    PathInside(lens, n, fast);
    assert p.depth == fast;
    hide TreeEntry, LookupEntry, TreeOk, Shape, Closed, Pow2, Path, Inside, Parent;
    ShapeGrows(lens, n + 1, fast, nodes, p);
    ClosedGrows(lens, n, fast, nodes, p);
    TreeGrowsAtRoot(lens, n, n + 1, fast, nodes, tree, p);
    var lookup' := lookup[p.bits := Id(|nodes|)];
    forall v | 0 <= v < |lookup'|
      ensures LookupEntry(lens, n, fast, nodes + [p], v, lookup'[v])
    {
      if v == p.bits {
        NewEntry(lens, n, fast, nodes, p);
      } else {
        OtherLookupEntry(lens, n, fast, nodes, p, v, lookup[v]);
      }
    }
  }

  /** Making an inner node on symbol `n`'s path, below a node that is there. */
  lemma AddInner(lens: seq<nat>, n: nat, fast: nat, nodes: seq<Node>, lookup: seq<int>, tree: seq<int>, d: nat, at: nat)
    requires n < |lens| && fast < d < lens[n] && Tables(lens, n, n + 1, fast, nodes, lookup, tree) && at < |tree|
    requires Path(lens, n, d) !in nodes && Path(lens, n, d - 1) in nodes
    requires at < 2 * |nodes| && Child(nodes, at) == Path(lens, n, d)
    ensures Tables(lens, n, n + 1, fast, nodes + [Path(lens, n, d)], lookup, tree[at := Id(|nodes|)])
  {
    var p := Path(lens, n, d);
    PathInside(lens, n, d);
    assert p.depth == d;
    hide TreeEntry, LookupEntry, TreeOk, Shape, Closed, Pow2, Path, Inside, Parent, Child;
    ShapeGrows(lens, n + 1, fast, nodes, p);
    ClosedGrows(lens, n, fast, nodes, p);
    TreeGrows(lens, n, n + 1, fast, nodes, tree, p, at);
    forall v | 0 <= v < |lookup|
      ensures LookupEntry(lens, n, fast, nodes + [p], v, lookup[v])
    {
      OtherLookupEntry(lens, n, fast, nodes, p, v, lookup[v]);
    }
  }

  lemma ShapeMonotone(lens: seq<nat>, m: nat, k: nat, fast: nat, nodes: seq<Node>)
    requires m <= k <= |lens| && Shape(lens, m, fast, nodes)
    ensures Shape(lens, k, fast, nodes)
  {
    hide Path, Parent;
    forall j | 0 <= j < |nodes|
      ensures Inside(lens, k, nodes[j])
    {
      assert Inside(lens, m, nodes[j]);
    }
  }

  /** An entry stays right when the next symbol does not concern it. */
  lemma SkipTreeEntry(lens: seq<nat>, n: nat, nodes: seq<Node>, p: Node, e: int)
    requires n < |lens| && TreeEntry(lens, n, nodes, p, e) && !LeafAt(lens, n, p)
    ensures TreeEntry(lens, n + 1, nodes, p, e)
  {
    hide LeafAt;
  }

  lemma SkipLookupEntry(lens: seq<nat>, n: nat, fast: nat, nodes: seq<Node>, v: nat, e: int)
    requires n < |lens| && LookupEntry(lens, n, fast, nodes, v, e) && !ShortAt(lens, n, fast, v)
    ensures LookupEntry(lens, n + 1, fast, nodes, v, e)
  {
    hide ShortAt, LookupValue;
    if e > 0 {
      var i :| 0 <= i < n && ShortAt(lens, i, fast, v) && e == LookupValue(lens, i);
    }
  }

  lemma ClosedNext(lens: seq<nat>, n: nat, fast: nat, nodes: seq<Node>)
    requires n < |lens| && Closed(lens, n, fast, nodes)
    requires forall d :: fast <= d < lens[n] ==> Path(lens, n, d) in nodes
    ensures Closed(lens, n + 1, fast, nodes)
  {
    hide Path;
  }

  lemma LeafEntry(lens: seq<nat>, n: nat, nodes: seq<Node>, p: Node)
    requires n < |lens| && LeafAt(lens, n, p)
    ensures TreeEntry(lens, n + 1, nodes, p, n)
  {
  }

  /** A long codeword has one place in the tree and none in the lookup table. */
  lemma OnlyLeaf(lens: seq<nat>, n: nat, fast: nat, leaf: Node)
    requires n < |lens| && lens[n] > fast && LeafAt(lens, n, leaf)
    ensures forall p :: LeafAt(lens, n, p) ==> p == leaf
    ensures forall v :: !ShortAt(lens, n, fast, v)
  {
  }

  /** Storing symbol `n` at the end of its path, once all nodes on the way are there. */
  lemma AddLeaf(lens: seq<nat>, n: nat, fast: nat, nodes: seq<Node>, lookup: seq<int>, tree: seq<int>, at: nat)
    requires n < |lens| && lens[n] > fast && Tables(lens, n, n + 1, fast, nodes, lookup, tree)
    requires forall d :: fast <= d < lens[n] ==> Path(lens, n, d) in nodes
    requires at < 2 * |nodes| && at < |tree| && LeafAt(lens, n, Child(nodes, at))
    ensures Tables(lens, n + 1, n + 1, fast, nodes, lookup, tree[at := n])
  {
    hide LookupEntry, TreeEntry, Shape, Closed, Pow2, Path, Child, LeafAt, ShortAt;
    var tree' := tree[at := n];
    var leaf := Child(nodes, at);
    OnlyLeaf(lens, n, fast, leaf);
    ClosedNext(lens, n, fast, nodes);
    forall x: nat | x < 2 * |nodes|
      ensures TreeEntry(lens, n + 1, nodes, Child(nodes, x), EntryAt(tree', x))
    {
      if x == at {
        LeafEntry(lens, n, nodes, leaf);
      } else {
        DifferentChild(lens, n + 1, fast, nodes, x, at);
        SkipTreeEntry(lens, n, nodes, Child(nodes, x), EntryAt(tree, x));
      }
    }
    forall x: nat, i: nat | x < 2 * |nodes| && i < n + 1 && LeafAt(lens, i, Child(nodes, x))
      ensures x < |tree'|
    {
      if i == n && x != at {
        DifferentChild(lens, n + 1, fast, nodes, x, at);
      }
    }
    forall v | 0 <= v < |lookup|
      ensures LookupEntry(lens, n + 1, fast, nodes, v, lookup[v])
    {
      SkipLookupEntry(lens, n, fast, nodes, v, lookup[v]);
    }
  }

  /** Storing a short symbol in every lookup entry that starts with its codeword. */
  lemma AddShort(lens: seq<nat>, n: nat, fast: nat, nodes: seq<Node>, lookup: seq<int>, lookup': seq<int>,
                 tree: seq<int>)
    requires n < |lens| && 0 < lens[n] <= fast && Tables(lens, n, n, fast, nodes, lookup, tree)
    requires Filled(lookup, lookup', |lookup|, Pow2(lens[n]), RevCode(lens, n), LookupValue(lens, n))
    ensures Tables(lens, n + 1, n + 1, fast, nodes, lookup', tree)
  {
    assert forall x: nat :: x < 2 * |nodes| ==> Child(nodes, x).depth > fast;
    assert forall v :: 0 <= v < |lookup| ==> (ShortAt(lens, n, fast, v) <==> v % Pow2(lens[n]) == RevCode(lens, n));
    ShapeMonotone(lens, n, n + 1, fast, nodes);
    hide Shape, Pow2, Path, Child, RevCode, ShortAt;
    forall x: nat | x < 2 * |nodes|
      ensures TreeEntry(lens, n + 1, nodes, Child(nodes, x), EntryAt(tree, x))
    {
      SkipTreeEntry(lens, n, nodes, Child(nodes, x), EntryAt(tree, x));
    }
    forall v | 0 <= v < |lookup|
      ensures LookupEntry(lens, n + 1, fast, nodes, v, lookup'[v])
    {
      if !ShortAt(lens, n, fast, v) {
        SkipLookupEntry(lens, n, fast, nodes, v, lookup[v]);
      }
    }
  }

  /** An unused symbol changes nothing. */
  lemma AddUnused(lens: seq<nat>, n: nat, fast: nat, nodes: seq<Node>, lookup: seq<int>, tree: seq<int>)
    requires n < |lens| && lens[n] == 0 && Tables(lens, n, n, fast, nodes, lookup, tree)
    ensures Tables(lens, n + 1, n + 1, fast, nodes, lookup, tree)
  {
    assert forall x: nat :: x < 2 * |nodes| ==> Child(nodes, x).depth > 0;
    assert forall v :: 0 <= v < |lookup| ==> !ShortAt(lens, n, fast, v);
    ShapeMonotone(lens, n, n + 1, fast, nodes);
    hide Shape, Pow2, Path, Child, RevCode, ShortAt;
    forall x: nat | x < 2 * |nodes|
      ensures TreeEntry(lens, n + 1, nodes, Child(nodes, x), EntryAt(tree, x))
    {
      SkipTreeEntry(lens, n, nodes, Child(nodes, x), EntryAt(tree, x));
    }
    forall v | 0 <= v < |lookup|
      ensures LookupEntry(lens, n + 1, fast, nodes, v, lookup[v])
    {
      SkipLookupEntry(lens, n, fast, nodes, v, lookup[v]);
    }
  }

  // ---------------------------------------------------------------- how large the tree is

  /** If the tree has been lengthened, its last entry is in use. */
  ghost predicate Trimmed(lens: seq<nat>, n: nat, nodes: seq<Node>, tree: seq<int>)
    requires n <= |lens|
  {
    |tree| <= 2 * |lens| || (|tree| <= 2 * |nodes| && InUse(lens, n, nodes, |tree| - 1))
  }

  ghost predicate InUse(lens: seq<nat>, n: nat, nodes: seq<Node>, x: nat)
    requires n <= |lens| && x < 2 * |nodes|
  {
    Child(nodes, x) in nodes || exists i: nat :: i < n && LeafAt(lens, i, Child(nodes, x))
  }

  lemma EmptyTrimmed(lens: seq<nat>)
    ensures Trimmed(lens, 0, [], Zeros(2 * |lens|))
  {
  }

  /** A new node or symbol does not change that. */
  lemma TrimmedStays(lens: seq<nat>, n: nat, m: nat, nodes: seq<Node>, tree: seq<int>, tree': seq<int>, p: Node)
    requires n <= m <= |lens| && Trimmed(lens, n, nodes, tree) && |tree'| == |tree|
    ensures Trimmed(lens, m, nodes, tree') && Trimmed(lens, m, nodes + [p], tree')
  {
    hide LeafAt, Child;
    if |tree| > 2 * |lens| {
      ChildStays(nodes, p, |tree| - 1);
    }
  }

  /** The entry to which the tree is lengthened gets a node or a symbol. */
  lemma TrimmedAt(lens: seq<nat>, n: nat, m: nat, nodes: seq<Node>, nodes': seq<Node>, was: seq<int>, tree: seq<int>,
                  at: nat, p: Node)
    requires n <= m <= |lens| && Trimmed(lens, n, nodes, was) && at < 2 * |nodes| && p == Child(nodes, at)
    requires |tree| == if at < |was| then |was| else at + 1
    requires (nodes' == nodes + [p]) || (nodes' == nodes && exists i: nat :: i < m && LeafAt(lens, i, p))
    ensures Trimmed(lens, m, nodes', tree)
  {
    hide LeafAt, Child;
    if |tree| == |was| {
      TrimmedStays(lens, n, m, nodes, was, tree, p);
    } else {
      ChildStays(nodes, p, at);
      assert p in nodes + [p];
    }
  }

  // ---------------------------------------------------------------- no conflicts in a complete code

  /** The lookup entry on a long codeword's path is empty or refers to its root node. */
  lemma LookupOnPath(lens: seq<nat>, m: nat, n: nat, fast: nat, nodes: seq<Node>, e: int)
    requires Decodable(lens) && m <= |lens| && n < |lens| && lens[n] > fast
    requires LookupEntry(lens, m, fast, nodes, Path(lens, n, fast).bits, e)
    ensures e <= 0 && (e == 0 ==> Path(lens, n, fast) !in nodes)
    ensures e < 0 ==> exists j :: 0 <= j < |nodes| && nodes[j] == Path(lens, n, fast) && e == Id(j)
  {
    assert Path(lens, n, fast).depth == fast;
    if e > 0 {
      var i :| 0 <= i < m && ShortAt(lens, i, fast, Path(lens, n, fast).bits) && e == LookupValue(lens, i);
      PathIsFree(lens, n, i, fast);
    }
  }

  /** A tree entry on a codeword's path is empty or refers to the next node. */
  lemma TreeOnPath(lens: seq<nat>, m: nat, n: nat, nodes: seq<Node>, d: nat, e: int)
    requires Decodable(lens) && m <= |lens| && n < |lens| && 0 < d < lens[n]
    requires TreeEntry(lens, m, nodes, Path(lens, n, d), e)
    ensures e <= 0 && (e == 0 ==> Path(lens, n, d) !in nodes)
    ensures e < 0 ==> exists j :: 0 <= j < |nodes| && nodes[j] == Path(lens, n, d) && e == Id(j)
  {
    if 0 <= e < m && e != n && LeafAt(lens, e, Path(lens, n, d)) {
      PathIsFree(lens, n, e, d);
    }
  }

  /** A place inside a codeword is not the place of another codeword. */
  lemma InsideIsNoLeaf(lens: seq<nat>, m: nat, n: nat, p: Node)
    requires Decodable(lens) && m <= |lens| && n < |lens| && lens[n] > 0 && Inside(lens, m, p)
    ensures !LeafAt(lens, n, p)
  {
    var i :| 0 <= i < m && lens[i] > p.depth && Path(lens, i, p.depth) == p;
    if LeafAt(lens, n, p) {
      NotInside(lens, n, i);
    }
  }

  /** The place of a new codeword is still empty. */
  lemma LeafIsFree(lens: seq<nat>, n: nat, fast: nat, nodes: seq<Node>, p: Node, e: int)
    requires Decodable(lens) && n < |lens| && lens[n] > 0 && LeafAt(lens, n, p) && TreeEntry(lens, n, nodes, p, e)
    requires Shape(lens, n + 1, fast, nodes)
    ensures e == 0
  {
    if e < 0 {
      var j :| 0 <= j < |nodes| && nodes[j] == p && e == Id(j);
      InsideIsNoLeaf(lens, n + 1, n, p);
    } else if e < n && LeafAt(lens, e, p) {
      RevCodeFits(lens, n);
      SmallRemainder(RevCode(lens, n), Pow2(lens[n]));
      NotInside(lens, e, n);
    }
  }

  lemma ShortPrefixes(lens: seq<nat>, i: nat, j: nat, v: nat)
    requires Decodable(lens) && i < |lens| && j < |lens| && IsPrefix(lens, i, v) && IsPrefix(lens, j, v)
    ensures i == j
  {
    hide Kraft, Pow2, RevCode, IsPrefix, Lone;
    DecodableFits(lens);
    PrefixUnique(lens, i, j, v);
  }

  /** The lookup entries of a new short codeword are still empty. */
  lemma ShortIsFree(lens: seq<nat>, n: nat, fast: nat, nodes: seq<Node>, v: nat, e: int)
    requires Decodable(lens) && n < |lens| && lens[n] > 0 && ShortAt(lens, n, fast, v)
    requires LookupEntry(lens, n, fast, nodes, v, e)
    requires Shape(lens, n, fast, nodes)
    ensures e == 0
  {
    hide Decodable, Kraft, Pow2, RevCode;
    if e > 0 {
      var i :| 0 <= i < n && ShortAt(lens, i, fast, v) && e == LookupValue(lens, i);
      ShortPrefixes(lens, i, n, v);
    } else if e < 0 {
      var j :| 0 <= j < |nodes| && nodes[j] == Node(fast, v) && e == Id(j);
      var i :| 0 <= i < n && lens[i] > fast && Path(lens, i, fast) == Node(fast, v);
      ModMod(RevCode(lens, i), lens[n], fast);
      NotInside(lens, n, i);
    }
  }

  // ---------------------------------------------------------------- how many nodes there can be

  /** How many numbers of `d` bits have a codeword of length at most `d` as a prefix. */
  function Ends(lens: seq<nat>, d: nat): nat {
    if d == 0 then 0 else First(lens, d) + Count(lens, |lens|, d)
  }

  /** How many numbers of `d` bits lie strictly inside longer codewords. */
  function Inner(lens: seq<nat>, d: nat): int {
    Pow2(d) - Ends(lens, d)
  }

  function InnerSum(lens: seq<nat>, d: nat): int {
    Inner(lens, d) + if d == 0 then 0 else InnerSum(lens, d - 1)
  }

  /** The numbers inside longer codewords, with up to `d` bits. */
  function Universe(lens: seq<nat>, d: nat): set<Node> {
    (set y | Ends(lens, d) <= y < Pow2(d) :: Node(d, y)) + if d == 0 then {} else Universe(lens, d - 1)
  }

  lemma InnerStep(lens: seq<nat>, d: nat)
    requires d > 0
    ensures Inner(lens, d) == 2 * Inner(lens, d - 1) - Count(lens, |lens|, d)
  {
  }

  /** A binary tree has one inner node less than it has leaves. */
  lemma {:induction false} InnerSumIs(lens: seq<nat>, d: nat)
    ensures InnerSum(lens, d) == 2 * Inner(lens, d) + FirstSymbol(lens, d + 1) - 1
  {
    if d > 0 {
      hide Inner, Count;
      InnerSumIs(lens, d - 1);
      InnerStep(lens, d);
    }
  }

  lemma {:induction false} LevelSize(d: nat, lo: nat, hi: nat) returns (level: set<Node>)
    requires lo <= hi
    ensures level == (set y | lo <= y < hi :: Node(d, y)) && |level| == hi - lo
    decreases hi
  {
    if lo == hi {
      level := {};
    } else {
      var rest := LevelSize(d, lo, hi - 1);
      level := rest + {Node(d, hi - 1)};
    }
  }

  lemma {:induction false} UniverseSize(lens: seq<nat>, d: nat)
    requires forall e :: 0 <= e <= d ==> Ends(lens, e) <= Pow2(e)
    ensures |Universe(lens, d)| == InnerSum(lens, d) && forall p :: p in Universe(lens, d) ==> p.depth <= d
  {
    hide Ends, Pow2;
    var level := LevelSize(d, Ends(lens, d), Pow2(d));
    if d == 0 {
      assert Universe(lens, 0) == level;
    } else {
      UniverseSize(lens, d - 1);
      var rest := Universe(lens, d - 1);
      assert Universe(lens, d) == level + rest;
      assert level !! rest;
    }
  }

  lemma {:induction false} InUniverse(lens: seq<nat>, d: nat, p: Node)
    requires p.depth <= d && Ends(lens, p.depth) <= p.bits < Pow2(p.depth)
    ensures p in Universe(lens, d)
  {
    if p.depth < d {
      InUniverse(lens, d - 1, p);
    }
  }

  lemma EndsIsStart(lens: seq<nat>, d: nat)
    requires d <= W
    ensures Span(Ends(lens, d), d) == Start(lens, d + 1)
  {
    if d > 0 {
      FirstIsStart(lens, d);
      SpanFacts(First(lens, d), Count(lens, |lens|, d), d);
    } else {
      SpanFacts(0, 0, 0);
    }
  }

  lemma EndsFit(lens: seq<nat>, d: nat)
    requires Lengths(lens) && Kraft(lens) <= Pow2(W) && d <= W
    ensures Ends(lens, d) <= Pow2(d) && (d == W && Kraft(lens) == Pow2(W) ==> Ends(lens, d) == Pow2(W))
  {
    hide Ends, Span, Start, Pow2;
    EndsIsStart(lens, d);
    StartMonotone(lens, d + 1, W + 1);
    SpanOfAll(d);
    SpanFacts(Pow2(d) + 1, Ends(lens, d), d);
    SpanFacts(Pow2(d), 1, d);
    SpanFacts(Ends(lens, d) + 1, Pow2(d), d);
    SpanFacts(Ends(lens, d), 1, d);
  }

  /** Most significant bit first, a place inside a codeword is a number behind all codewords up to its length. */
  lemma InsideIsInner(lens: seq<nat>, i: nat, d: nat)
    requires Decodable(lens) && i < |lens| && d < lens[i]
    ensures Ends(lens, d) <= Rev(Path(lens, i, d).bits, d)
  {
    hide Span, Start, Rev, Ends, Pow2, RevCode, IsPrefix, Kraft, Lone;
    DecodableFits(lens);
    var w := RevCode(lens, i);
    OwnPrefix(lens, i);
    PrefixIsCover(lens, i, w);
    CoversPlace(lens, i, Rev(w, W));
    StartMonotone(lens, d + 1, lens[i]);
    EndsIsStart(lens, d);
    RevLow(w, d);
    RevSplit(w, d, W - d);
    SpanOfRev(d, Rev(w, d), Rev(w / Pow2(d), W - d));
    SpanFacts(Rev(w, d) + 1, Ends(lens, d), d);
  }

  lemma SpanOfRev(d: nat, x: nat, y: nat)
    requires d <= W && y < Pow2(W - d)
    ensures Span(x, d) <= Pow2(W - d) * x + y < Span(x + 1, d)
  {
    SpanFacts(x, 1, d);
  }

  lemma {:induction false} DistinctInSet(s: seq<Node>, u: set<Node>)
    requires forall k :: 0 <= k < |s| ==> s[k] in u
    requires forall j, k :: 0 <= j < k < |s| ==> s[j] != s[k]
    ensures |s| <= |u|
  {
    if s != [] {
      var last := s[|s| - 1];
      DistinctInSet(s[..|s| - 1], u - {last});
    }
  }

  function Mirrored(p: Node): Node {
    Node(p.depth, Rev(p.bits, p.depth))
  }

  lemma MirroredInjective(p: Node, q: Node)
    requires p.bits < Pow2(p.depth) && q.bits < Pow2(q.depth) && Mirrored(p) == Mirrored(q)
    ensures p == q
  {
    RevRev(p.bits, p.depth);
    RevRev(q.bits, q.depth);
  }

  lemma InsideMirrored(lens: seq<nat>, m: nat, p: Node)
    requires Decodable(lens) && m <= |lens| && Inside(lens, m, p)
    ensures p.depth <= W && p.bits < Pow2(p.depth) && Mirrored(p) in Universe(lens, W)
  {
    InsideFits(lens, m, p);
    var i :| 0 <= i < m && lens[i] > p.depth && Path(lens, i, p.depth) == p;
    InsideIsInner(lens, i, p.depth);
    InUniverse(lens, W, Mirrored(p));
  }

  /** In a complete code there are fewer inner nodes than symbols; with a single symbol there are at most fifteen. So
      references to them fit 16 signed bits. */
  lemma NodeBound(lens: seq<nat>, m: nat, fast: nat, nodes: seq<Node>)
    requires Decodable(lens) && m <= |lens| && 1 <= fast && Shape(lens, m, fast, nodes)
    ensures |nodes| < (if Complete(lens) then |lens| else W) <= MAX_SYMS
  {
    if Complete(lens) {
      CompleteBound(lens, m, fast, nodes);
    } else {
      LoneBound(lens, m, fast, nodes);
    }
  }

  /** With a single symbol all nodes are on its path. */
  lemma LoneBound(lens: seq<nat>, m: nat, fast: nat, nodes: seq<Node>)
    requires Lengths(lens) && Lone(lens) && m <= |lens| && 1 <= fast && Shape(lens, m, fast, nodes)
    ensures |nodes| < W
    ensures nodes != [] ==> exists i :: 0 <= i < m && lens[i] > fast && |nodes| <= lens[i] - fast
  {
    hide FirstSymbol, Path;
    if nodes != [] {
      assert Inside(lens, m, nodes[0]);
      var i :| 0 <= i < m && lens[i] > nodes[0].depth && Path(lens, i, nodes[0].depth) == nodes[0];
      var u := PathSet(lens, i, fast, lens[i]);
      forall j | 0 <= j < |nodes|
        ensures nodes[j] in u
      {
        assert Inside(lens, m, nodes[j]);
        var k :| 0 <= k < m && lens[k] > nodes[j].depth && Path(lens, k, nodes[j].depth) == nodes[j];
        LoneSymbol(lens, i, k);
        OnPathSet(lens, i, fast, lens[i], nodes[j].depth);
      }
      DistinctInSet(nodes, u);
    }
  }

  /** The places on the way to symbol `i`, from depth `top` on and above depth `n`. */
  function PathSet(lens: seq<nat>, i: nat, top: nat, n: nat): (s: set<Node>)
    requires i < |lens|
    ensures n >= top ==> |s| <= n - top
  {
    if n <= top then {} else PathSet(lens, i, top, n - 1) + {Path(lens, i, n - 1)}
  }

  lemma {:induction false} OnPathSet(lens: seq<nat>, i: nat, top: nat, n: nat, d: nat)
    requires i < |lens| && top <= d < n
    ensures Path(lens, i, d) in PathSet(lens, i, top, n)
    decreases n
  {
    if d < n - 1 {
      OnPathSet(lens, i, top, n - 1, d);
    }
  }

  /** In a complete code they are distinct numbers inside longer codewords. */
  lemma CompleteBound(lens: seq<nat>, m: nat, fast: nat, nodes: seq<Node>)
    requires Complete(lens) && m <= |lens| && Shape(lens, m, fast, nodes)
    ensures |nodes| < |lens|
  {
    var s := seq(|nodes|, j requires 0 <= j < |nodes| => Mirrored(nodes[j]));
    forall j | 0 <= j < |nodes|
      ensures s[j] in Universe(lens, W) && nodes[j].bits < Pow2(nodes[j].depth)
    {
      InsideMirrored(lens, m, nodes[j]);
    }
    forall j, k | 0 <= j < k < |s|
      ensures s[j] != s[k]
    {
      if s[j] == s[k] {
        MirroredInjective(nodes[j], nodes[k]);
      }
    }
    DistinctInSet(s, Universe(lens, W));
    forall e | 0 <= e <= W
      ensures Ends(lens, e) <= Pow2(e)
    {
      EndsFit(lens, e);
    }
    UniverseSize(lens, W);
    InnerSumIs(lens, W);
    EndsFit(lens, W);
    FirstSymbolBound(lens, W + 1);
  }

  // ---------------------------------------------------------------- building the table

  /** Conversion to `int16_t`. */
  function Int16(x: int): int {
    (x + 32768) % 65536 - 32768
  }

  function Zeros(n: nat): (s: seq<int>)
    ensures |s| == n && forall i :: 0 <= i < n ==> s[i] == 0
  {
    seq(n, _ => 0)
  }

  /** One stream bit further along a codeword. */
  lemma PathStep(lens: seq<nat>, n: nat, d: nat)
    requires n < |lens|
    ensures Below(Path(lens, n, d), RevCode(lens, n) / Pow2(d) % 2) == Path(lens, n, d + 1)
  {
    var w, p := RevCode(lens, n), Pow2(d);
    var q, r := Quotient(w, p), Remainder(w, p);
    assert w == p * (2 * (q / 2) + q % 2) + r;
    Distribute(p, 2 * (q / 2), q % 2);
    assert p * (2 * (q / 2)) == 2 * p * (q / 2);
    DivModOf(w, 2 * p, q / 2, p * (q % 2) + r) by {
      assert p * (q % 2) <= p;
    }
  }

  /** Nodes of the next symbol may be made once those of the earlier ones are there. */
  lemma TablesReady(lens: seq<nat>, n: nat, fast: nat, nodes: seq<Node>, lookup: seq<int>, tree: seq<int>)
    requires n < |lens| && Tables(lens, n, n, fast, nodes, lookup, tree)
    ensures Tables(lens, n, n + 1, fast, nodes, lookup, tree)
  {
    ShapeMonotone(lens, n, n + 1, fast, nodes);
  }

  lemma EmptyTables(lens: seq<nat>, fast: nat)
    ensures Tables(lens, 0, 0, fast, [], Zeros(Pow2(fast)), Zeros(2 * |lens|))
  {
  }

  /** Node `j` is the place after `d` stream bits of symbol `n`'s codeword, and so far the path is complete. */
  ghost predicate AtNode(lens: seq<nat>, n: nat, fast: nat, nodes: seq<Node>, d: nat, j: nat, treeCur: int)
    requires n < |lens|
  {
    && fast <= d < lens[n] && j < |nodes| && nodes[j] == Path(lens, n, d) && treeCur == Id(j)
    && forall e :: fast <= e <= d ==> Path(lens, n, e) in nodes
  }

  function NextBit(lens: seq<nat>, n: nat, d: nat): nat
    requires n < |lens|
  {
    RevCode(lens, n) / Pow2(d) % 2
  }

  lemma StartPath(lens: seq<nat>, n: nat, fast: nat, nodes: seq<Node>, j: nat, treeCur: int)
    requires n < |lens| && fast < lens[n]
    ensures j < |nodes| && nodes[j] == Path(lens, n, fast) && treeCur == Id(j) ==>
      AtNode(lens, n, fast, nodes, fast, j, treeCur)
  {
  }

  lemma Halve(lens: seq<nat>, n: nat, rev: nat, d: nat)
    requires n < |lens| && d > 0
    ensures rev / Pow2(d - 1) / 2 == rev / Pow2(d)
    ensures rev == RevCode(lens, n) ==> rev / Pow2(d) % 2 == NextBit(lens, n, d)
  {
    DivDiv(rev, Pow2(d - 1), 2);
  }

  /** The tree entry for the next place on a path. */
  lemma NextEntry(lens: seq<nat>, n: nat, fast: nat, nodes: seq<Node>, d: nat, j: nat, treeCur: int, b: nat)
    requires n < |lens| && AtNode(lens, n, fast, nodes, d, j, treeCur) && b == NextBit(lens, n, d)
    ensures -(treeCur - b) - 1 == 2 * j + b < 2 * |nodes|
    ensures Child(nodes, 2 * j + b) == Path(lens, n, d + 1)
  {
    PathStep(lens, n, d);
    assert (2 * j + b) / 2 == j && (2 * j + b) % 2 == b;
  }

  lemma EntryOfNext(lens: seq<nat>, n: nat, fast: nat, nodes: seq<Node>, lookup: seq<int>, tree: seq<int>, d: nat,
                    j: nat, treeCur: int, b: nat) returns (idx: nat)
    requires n < |lens| && Tables(lens, n, n + 1, fast, nodes, lookup, tree)
    requires AtNode(lens, n, fast, nodes, d, j, treeCur) && b == NextBit(lens, n, d)
    ensures idx == -(treeCur - b) - 1 < 2 * |nodes| && Child(nodes, idx) == Path(lens, n, d + 1)
    ensures TreeEntry(lens, n, nodes, Path(lens, n, d + 1), EntryAt(tree, idx))
    ensures Shape(lens, n + 1, fast, nodes)
  {
    hide Path, Child, TreeEntry, NextBit, Shape, Closed, LookupOk;
    NextEntry(lens, n, fast, nodes, d, j, treeCur, b);
    idx := 2 * j + b;
    assert TreeEntry(lens, n, nodes, Child(nodes, idx), EntryAt(tree, idx));
  }

  /** What the tree holds for the next place, if that is an inner node. */
  lemma InnerEntry(lens: seq<nat>, n: nat, fast: nat, nodes: seq<Node>, lookup: seq<int>, tree: seq<int>, d: nat,
                   j: nat, treeCur: int, b: nat) returns (j': nat)
    requires n < |lens| && Decodable(lens) && Tables(lens, n, n + 1, fast, nodes, lookup, tree)
    requires AtNode(lens, n, fast, nodes, d, j, treeCur) && b == NextBit(lens, n, d) && d + 1 < lens[n]
    requires 0 <= -(treeCur - b) - 1 < |tree|
    ensures var e := tree[-(treeCur - b) - 1];
            e <= 0 && (e < 0 ==> AtNode(lens, n, fast, nodes, d + 1, j', e))
  {
    hide Path, Decodable, Child, TreeEntry, NextBit, Tables, AtNode, Shape, RevCode;
    var idx := EntryOfNext(lens, n, fast, nodes, lookup, tree, d, j, treeCur, b);
    TreeOnPath(lens, n, n, nodes, d + 1, tree[idx]);
    j' := 0;
    if tree[idx] < 0 {
      j' :| 0 <= j' < |nodes| && nodes[j'] == Path(lens, n, d + 1) && tree[idx] == Id(j');
      PathGoesOn(lens, n, fast, nodes, d, j, treeCur, j', tree[idx]);
    }
  }

  lemma PathGoesOn(lens: seq<nat>, n: nat, fast: nat, nodes: seq<Node>, d: nat, j: nat, treeCur: int, j': nat,
                   next: int)
    requires n < |lens| && AtNode(lens, n, fast, nodes, d, j, treeCur) && d + 1 < lens[n]
    requires j' < |nodes| && nodes[j'] == Path(lens, n, d + 1) && next == Id(j')
    ensures AtNode(lens, n, fast, nodes, d + 1, j', next)
  {
    hide Path;
  }

  lemma NewInner(lens: seq<nat>, n: nat, fast: nat, nodes: seq<Node>, lookup: seq<int>, tree: seq<int>, d: nat, j: nat,
                 treeCur: int, b: nat)
    requires n < |lens| && Decodable(lens) && fast >= 1 && Tables(lens, n, n + 1, fast, nodes, lookup, tree)
    requires AtNode(lens, n, fast, nodes, d, j, treeCur) && b == NextBit(lens, n, d) && d + 1 < lens[n]
    requires 0 <= -(treeCur - b) - 1 < |tree| && tree[-(treeCur - b) - 1] == 0
    ensures var nodes', next := nodes + [Path(lens, n, d + 1)], Id(|nodes|);
            Int16(next) == next &&
            Tables(lens, n, n + 1, fast, nodes', lookup, tree[-(treeCur - b) - 1 := next]) &&
            AtNode(lens, n, fast, nodes', d + 1, |nodes|, next)
  {
    hide Path, Child, TreeEntry, NextBit, Shape, Lengths, Kraft, Tables;
    var idx := EntryOfNext(lens, n, fast, nodes, lookup, tree, d, j, treeCur, b);
    NodeBound(lens, n + 1, fast, nodes);
    TreeOnPath(lens, n, n, nodes, d + 1, tree[idx]);
    AddInner(lens, n, fast, nodes, lookup, tree, d + 1, idx);
  }

  lemma NewLeaf(lens: seq<nat>, n: nat, fast: nat, nodes: seq<Node>, lookup: seq<int>, tree: seq<int>, d: nat, j: nat,
                treeCur: int, b: nat)
    requires n < |lens| && Decodable(lens) && Tables(lens, n, n + 1, fast, nodes, lookup, tree)
    requires AtNode(lens, n, fast, nodes, d, j, treeCur) && b == NextBit(lens, n, d) && d + 1 == lens[n]
    requires 0 <= -(treeCur - b) - 1 < |tree|
    ensures var idx := -(treeCur - b) - 1;
            tree[idx] == 0 && Int16(n) == n &&
            Tables(lens, n + 1, n + 1, fast, nodes, lookup, tree[idx := n])
  {
    hide Path, Child, TreeEntry, NextBit, Shape, Lengths, Kraft, Tables, LeafAt;
    var idx := EntryOfNext(lens, n, fast, nodes, lookup, tree, d, j, treeCur, b);
    PathEnd(lens, n);
    LeafIsFree(lens, n, fast, nodes, Child(nodes, idx), tree[idx]);
    AddLeaf(lens, n, fast, nodes, lookup, tree, idx);
  }

  /** One step down, in a tree that may have to be lengthened: to the node that is there, or to a new one. */
  lemma GoodStep(lens: seq<nat>, n: nat, fast: nat, nodes: seq<Node>, lookup: seq<int>, was: seq<int>, d: nat, j: nat,
                 treeCur: int, b: nat) returns (j': nat)
    requires n < |lens| && Decodable(lens) && fast >= 1 && Tables(lens, n, n + 1, fast, nodes, lookup, was)
    requires Trimmed(lens, n, nodes, was) && treeCur < 0 && b <= 1
    requires AtNode(lens, n, fast, nodes, d, j, treeCur) && b == NextBit(lens, n, d) && d + 1 < lens[n]
    ensures var at := -(treeCur - b) - 1;
            var tree, nodes', next := Reached(was, at), nodes + [Path(lens, n, d + 1)], Id(|nodes|);
            && tree[at] <= 0
            && (tree[at] < 0 ==>
                  && Tables(lens, n, n + 1, fast, nodes, lookup, tree) && Trimmed(lens, n, nodes, tree)
                  && AtNode(lens, n, fast, nodes, d + 1, j', tree[at]))
            && (tree[at] == 0 ==>
                  && Int16(next) == next && Tables(lens, n, n + 1, fast, nodes', lookup, tree[at := next])
                  && Trimmed(lens, n, nodes', tree[at := next]) && AtNode(lens, n, fast, nodes', d + 1, |nodes|, next))
  {
    hide Path, Tables, Decodable, Trimmed, AtNode, NextBit, Int16;
    var at := -(treeCur - b) - 1;
    var tree := Reached(was, at);
    Lengthened(lens, n, n + 1, fast, nodes, lookup, was, Excess(at + 1, |was|));
    j' := InnerEntry(lens, n, fast, nodes, lookup, tree, d, j, treeCur, b);
    if tree[at] == 0 {
      var p, next := Path(lens, n, d + 1), Id(|nodes|);
      NewInner(lens, n, fast, nodes, lookup, tree, d, j, treeCur, b);
      NextEntry(lens, n, fast, nodes, d, j, treeCur, b);
      TrimmedAt(lens, n, n, nodes, nodes + [p], was, tree[at := next], at, p);
    } else {
      OldEntry(was, at);
    }
  }

  /** An entry that is not zero was there before. */
  lemma OldEntry(was: seq<int>, at: nat)
    requires Reached(was, at)[at] != 0
    ensures Reached(was, at) == was
  {
  }

  lemma GoodLeaf(lens: seq<nat>, n: nat, fast: nat, nodes: seq<Node>, lookup: seq<int>, was: seq<int>, d: nat, j: nat,
                 treeCur: int, b: nat)
    requires n < |lens| && Decodable(lens) && Tables(lens, n, n + 1, fast, nodes, lookup, was)
    requires Trimmed(lens, n, nodes, was) && treeCur < 0 && b <= 1
    requires AtNode(lens, n, fast, nodes, d, j, treeCur) && b == NextBit(lens, n, d) && d + 1 == lens[n]
    ensures var at := -(treeCur - b) - 1;
            var tree := Reached(was, at);
            && tree[at] == 0 && Int16(n) == n && Tables(lens, n + 1, n + 1, fast, nodes, lookup, tree[at := n])
            && Trimmed(lens, n + 1, nodes, tree[at := n])
  {
    hide Path, Tables, Decodable, Trimmed, AtNode, NextBit, LeafAt, Int16;
    var at := -(treeCur - b) - 1;
    Lengthened(lens, n, n + 1, fast, nodes, lookup, was, Excess(at + 1, |was|));
    NewLeaf(lens, n, fast, nodes, lookup, Reached(was, at), d, j, treeCur, b);
    NextEntry(lens, n, fast, nodes, d, j, treeCur, b);
    PathEnd(lens, n);
    TrimmedAt(lens, n, n + 1, nodes, nodes, was, Reached(was, at)[at := n], at, Path(lens, n, d + 1));
  }

  lemma PathEnd(lens: seq<nat>, n: nat)
    requires n < |lens|
    ensures LeafAt(lens, n, Path(lens, n, lens[n]))
  {
    RevCodeFits(lens, n);
    SmallRemainder(RevCode(lens, n), Pow2(lens[n]));
  }

  /** What the lookup table holds for a new long codeword. */
  lemma RootEntry(lens: seq<nat>, n: nat, fast: nat, nodes: seq<Node>, lookup: seq<int>, tree: seq<int>,
                  at: nat) returns (j: nat)
    requires n < |lens| && Decodable(lens) && lens[n] > fast >= 1 && Tables(lens, n, n + 1, fast, nodes, lookup, tree)
    requires at == Path(lens, n, fast).bits && at < |lookup|
    ensures lookup[at] <= 0
    ensures lookup[at] == 0 ==> Path(lens, n, fast) !in nodes
    ensures lookup[at] < 0 ==> j < |nodes| && nodes[j] == Path(lens, n, fast) && lookup[at] == Id(j)
  {
    LookupOnPath(lens, n, n, fast, nodes, lookup[at]);
    j := 0;
    if lookup[at] < 0 {
      j :| 0 <= j < |nodes| && nodes[j] == Path(lens, n, fast) && lookup[at] == Id(j);
    }
  }

  lemma ShortEntriesFree(lens: seq<nat>, n: nat, fast: nat, nodes: seq<Node>, lookup: seq<int>, tree: seq<int>)
    requires n < |lens| && Decodable(lens) && 0 < lens[n] <= fast && Tables(lens, n, n, fast, nodes, lookup, tree)
    ensures !Taken(lookup, Pow2(lens[n]), RevCode(lens, n))
  {
    hide Pow2, RevCode, Decodable;
    forall v: nat | v < |lookup| && v % Pow2(lens[n]) == RevCode(lens, n)
      ensures lookup[v] == 0
    {
      ShortIsFree(lens, n, fast, nodes, v, lookup[v]);
    }
  }

  // ---------------------------------------------------------------- decoding

  /** What the lookup table says about stream bits that start with the codeword of symbol `i`. */
  lemma LookupFinds(lens: seq<nat>, fast: nat, nodes: seq<Node>, lookup: seq<int>, tree: seq<int>, w: nat, i: nat)
    returns (j: nat)
    requires Decodable(lens) && Tables(lens, |lens|, |lens|, fast, nodes, lookup, tree) && i < |lens|
    requires IsPrefix(lens, i, w)
    ensures |lookup| == Pow2(fast) && w % Pow2(fast) < |lookup|
    ensures lens[i] <= fast ==> lookup[w % Pow2(fast)] == LookupValue(lens, i)
    ensures lens[i] > fast ==> AtNode(lens, i, fast, nodes, fast, j, lookup[w % Pow2(fast)])
  {
    hide Pow2, LookupEntry, RevCode, Decodable, Path, TreeOk, IsPrefix, Shape, AtNode;
    var v := Remainder(w, Pow2(fast));
    var e := lookup[v];
    assert LookupEntry(lens, |lens|, fast, nodes, v, e);
    j := 0;
    if lens[i] <= fast {
      PrefixOfStart(lens, i, w, fast);
      ShortFound(lens, fast, nodes, v, e, i);
    } else {
      PathOfStart(lens, i, w, fast);
      j := RootFound(lens, fast, nodes, e, i);
    }
  }

  lemma RootFound(lens: seq<nat>, fast: nat, nodes: seq<Node>, e: int, i: nat) returns (j: nat)
    requires Decodable(lens) && i < |lens| && lens[i] > fast && Closed(lens, |lens|, fast, nodes)
    requires LookupEntry(lens, |lens|, fast, nodes, Path(lens, i, fast).bits, e)
    ensures AtNode(lens, i, fast, nodes, fast, j, e)
  {
    assert Path(lens, i, fast).depth == fast;
    hide Path, Decodable, LookupEntry;
    LookupOnPath(lens, |lens|, i, fast, nodes, e);
    j :| 0 <= j < |nodes| && nodes[j] == Path(lens, i, fast) && e == Id(j);
  }

  lemma PrefixOfStart(lens: seq<nat>, i: nat, w: nat, d: nat)
    requires i < |lens| && lens[i] <= d && IsPrefix(lens, i, w)
    ensures IsPrefix(lens, i, w % Pow2(d))
  {
    ModMod(w, lens[i], d);
  }

  /** The first stream bits are those of the codeword. */
  lemma PathOfStart(lens: seq<nat>, i: nat, w: nat, d: nat)
    requires i < |lens| && d <= lens[i] && IsPrefix(lens, i, w)
    ensures Path(lens, i, d) == Node(d, w % Pow2(d))
  {
    ModMod(w, d, lens[i]);
  }

  lemma ShortFound(lens: seq<nat>, fast: nat, nodes: seq<Node>, v: nat, e: int, i: nat)
    requires Decodable(lens) && Shape(lens, |lens|, fast, nodes) && LookupEntry(lens, |lens|, fast, nodes, v, e)
    requires i < |lens| && lens[i] <= fast && IsPrefix(lens, i, v)
    ensures e == LookupValue(lens, i)
  {
    hide IsPrefix, RevCode, Kraft, Lengths, Pow2, Path, LookupValue;
    assert ShortAt(lens, i, fast, v);
    if e > 0 {
      var k :| 0 <= k < |lens| && ShortAt(lens, k, fast, v) && e == LookupValue(lens, k);
      DecodableFits(lens);
      PrefixUnique(lens, i, k, v);
    } else if e < 0 {
      var j :| 0 <= j < |nodes| && nodes[j] == Node(fast, v) && e == Id(j);
      assert Inside(lens, |lens|, nodes[j]);
      NoPrefixInside(lens, i, nodes[j]);
    }
  }

  lemma NoPrefixInside(lens: seq<nat>, i: nat, p: Node)
    requires Decodable(lens) && i < |lens| && lens[i] <= p.depth && Inside(lens, |lens|, p)
    ensures !IsPrefix(lens, i, p.bits)
  {
    hide RevCode, Kraft, Lengths, Pow2;
    var k :| 0 <= k < |lens| && lens[k] > p.depth && Path(lens, k, p.depth) == p;
    if IsPrefix(lens, i, p.bits) {
      ModMod(RevCode(lens, k), lens[i], p.depth);
      NotInside(lens, i, k);
    }
  }

  /** The stream bit that is used next is the one of the codeword. */
  lemma BitOfPrefix(lens: seq<nat>, i: nat, w: nat, d: nat)
    requires i < |lens| && d < lens[i] && IsPrefix(lens, i, w)
    ensures w / Pow2(d) % 2 == NextBit(lens, i, d)
  {
    hide RevCode, Pow2;
    BitOfRemainder(w, d, lens[i]);
  }

  lemma BitOfRemainder(w: nat, d: nat, l: nat)
    requires d < l
    ensures w % Pow2(l) / Pow2(d) % 2 == w / Pow2(d) % 2
  {
    assert Pow2(l - d) == 2 * Pow2(l - d - 1);
    hide Pow2;
    Pow2Add(d, l - d);
    HighPart(w, Pow2(d), Pow2(l - d));
    ModProduct(Quotient(w, Pow2(d)), 2, Pow2(l - d - 1));
  }

  /** The tree entry for the stream bit behind the first `d`. */
  function TreeIndex(treeCur: int, w: nat, d: nat): int {
    -treeCur - 1 + w / Pow2(d) % 2
  }

  /** One step down the tree during decoding: to the next node, or to the symbol. */
  lemma TreeStep(lens: seq<nat>, fast: nat, nodes: seq<Node>, lookup: seq<int>, tree: seq<int>, w: nat, i: nat, d: nat,
                 j: nat, treeCur: int) returns (j': nat)
    requires Decodable(lens) && Tables(lens, |lens|, |lens|, fast, nodes, lookup, tree) && i < |lens|
    requires IsPrefix(lens, i, w)
    requires AtNode(lens, i, fast, nodes, d, j, treeCur)
    ensures d < lens[i]
    ensures var idx := TreeIndex(treeCur, w, d);
            0 <= idx < |tree| &&
            if d + 1 < lens[i] then tree[idx] < 0 && AtNode(lens, i, fast, nodes, d + 1, j', tree[idx])
            else tree[idx] == i
  {
    hide Path, Decodable, Child, TreeEntry, NextBit, IsPrefix, Shape, LookupOk, LeafAt, Pow2, RevCode;
    BitOfPrefix(lens, i, w, d);
    var b := NextBit(lens, i, d);
    NextEntry(lens, i, fast, nodes, d, j, treeCur, b);
    var idx := 2 * j + b;
    assert TreeEntry(lens, |lens|, nodes, Child(nodes, idx), EntryAt(tree, idx));
    j' := 0;
    if d + 1 < lens[i] {
      j' := InnerFound(lens, fast, nodes, d, j, treeCur, EntryAt(tree, idx), i);
    } else {
      PathEnd(lens, i);
      LeafFound(lens, fast, nodes, Path(lens, i, d + 1), EntryAt(tree, idx), i);
    }
  }

  lemma InnerFound(lens: seq<nat>, fast: nat, nodes: seq<Node>, d: nat, j: nat, treeCur: int, e: int,
                   i: nat) returns (j': nat)
    requires Decodable(lens) && i < |lens| && d + 1 < lens[i] && Closed(lens, |lens|, fast, nodes)
    requires AtNode(lens, i, fast, nodes, d, j, treeCur) && TreeEntry(lens, |lens|, nodes, Path(lens, i, d + 1), e)
    ensures e < 0 && AtNode(lens, i, fast, nodes, d + 1, j', e)
  {
    hide Path, Decodable, TreeEntry;
    TreeOnPath(lens, |lens|, i, nodes, d + 1, e);
    j' :| 0 <= j' < |nodes| && nodes[j'] == Path(lens, i, d + 1) && e == Id(j');
  }

  lemma LeafFound(lens: seq<nat>, fast: nat, nodes: seq<Node>, p: Node, e: int, i: nat)
    requires Decodable(lens) && Shape(lens, |lens|, fast, nodes) && TreeEntry(lens, |lens|, nodes, p, e)
    requires i < |lens| && lens[i] > 0 && LeafAt(lens, i, p)
    ensures e == i
  {
    hide Path, Kraft, Lengths, Inside, RevCode, Pow2;
    if e < 0 {
      var j :| 0 <= j < |nodes| && nodes[j] == p && e == Id(j);
      InsideIsNoLeaf(lens, |lens|, i, p);
    } else if e < |lens| && LeafAt(lens, e, p) {
      RevCodeFits(lens, i);
      SmallRemainder(RevCode(lens, i), Pow2(lens[i]));
      NotInside(lens, e, i);
    }
  }
}
