/** How basisu's table construction notices that a list of lengths is no prefix code. Nothing is assumed about the list
    here: its codewords may collide, and references to nodes may not survive their conversion to 16 bits. */
module HuffmanConflicts {
  import opened Canonical
  import opened HuffmanTree
  import opened Powers
  import opened StrideFill

  // ---------------------------------------------------------------- walking down the tree

  /** The entry for the stream bit `b` below the node that `t` refers to. */
  function Reading(tree: seq<int>, t: int, b: nat): int
    requires t < 0
  {
    EntryAt(tree, -t - 1 + b)
  }

  /** The value at depth `d` on the way of the stream bits `w`, which comes from the value `t` at depth `e`; or the
      first one on this way that refers to no node. */
  function Walk(tree: seq<int>, t: int, e: nat, w: nat, d: nat): int
    decreases d - e
  {
    if e >= d || t >= 0 then t else Walk(tree, Reading(tree, t, w / Pow2(e) % 2), e + 1, w, d)
  }

  function Value(lookup: seq<int>, tree: seq<int>, fast: nat, w: nat, d: nat): int
    requires |lookup| == Pow2(fast)
  {
    Walk(tree, lookup[Remainder(w, Pow2(fast))], fast, w, d)
  }

  /** A walk can be interrupted. */
  lemma {:induction false} WalkOn(tree: seq<int>, t: int, e: nat, w: nat, c: nat, d: nat)
    requires e <= c <= d
    ensures var x := Walk(tree, t, e, w, c); Walk(tree, t, e, w, d) == if x < 0 then Walk(tree, x, c, w, d) else x
    decreases c - e
  {
    hide Pow2;
    if e < c && t < 0 {
      WalkOn(tree, Reading(tree, t, w / Pow2(e) % 2), e + 1, w, c, d);
    }
  }

  /** Only the bits up to the depth matter. */
  lemma {:induction false} WalkAlike(tree: seq<int>, t: int, e: nat, v: nat, w: nat, d: nat)
    requires v % Pow2(d) == w % Pow2(d)
    ensures Walk(tree, t, e, v, d) == Walk(tree, t, e, w, d)
    decreases d - e
  {
    hide Pow2;
    if e < d && t < 0 {
      BitOfRemainder(v, e, d);
      BitOfRemainder(w, e, d);
      WalkAlike(tree, Reading(tree, t, w / Pow2(e) % 2), e + 1, v, w, d);
    }
  }

  /** Entries that are not zero stay. */
  ghost predicate Grows(tree: seq<int>, tree': seq<int>) {
    forall x: nat :: EntryAt(tree, x) != 0 ==> EntryAt(tree', x) == EntryAt(tree, x)
  }

  ghost predicate LookupGrows(lookup: seq<int>, lookup': seq<int>) {
    |lookup'| == |lookup| && forall v :: 0 <= v < |lookup| && lookup[v] != 0 ==> lookup'[v] == lookup[v]
  }

  lemma WalkFromZero(tree: seq<int>, e: nat, w: nat, d: nat)
    ensures Walk(tree, 0, e, w, d) == 0
  {
  }

  lemma {:induction false} WalkGrows(tree: seq<int>, tree': seq<int>, t: int, e: nat, w: nat, d: nat)
    requires Grows(tree, tree') && Walk(tree, t, e, w, d) != 0
    ensures Walk(tree', t, e, w, d) == Walk(tree, t, e, w, d)
    decreases d - e
  {
    hide Pow2;
    if e < d && t < 0 {
      var next := Reading(tree, t, w / Pow2(e) % 2);
      WalkFromZero(tree, e + 1, w, d);
      WalkGrows(tree, tree', next, e + 1, w, d);
    }
  }

  // ---------------------------------------------------------------- values on the way of a word

  lemma ValueOn(lookup: seq<int>, tree: seq<int>, fast: nat, w: nat, c: nat, d: nat)
    requires |lookup| == Pow2(fast) && fast <= c <= d
    ensures var x := Value(lookup, tree, fast, w, c);
            Value(lookup, tree, fast, w, d) == if x < 0 then Walk(tree, x, c, w, d) else x
  {
    WalkOn(tree, lookup[Remainder(w, Pow2(fast))], fast, w, c, d);
  }

  lemma ValueStep(lookup: seq<int>, tree: seq<int>, fast: nat, w: nat, d: nat)
    requires |lookup| == Pow2(fast) && fast <= d
    ensures var x := Value(lookup, tree, fast, w, d);
            Value(lookup, tree, fast, w, d + 1) == if x < 0 then Reading(tree, x, w / Pow2(d) % 2) else x
  {
    ValueOn(lookup, tree, fast, w, d, d + 1);
    hide Pow2, Value;
    var x := Value(lookup, tree, fast, w, d);
    assert x < 0 ==> Walk(tree, x, d, w, d + 1) == Reading(tree, x, w / Pow2(d) % 2);
  }

  lemma ValueAlike(lookup: seq<int>, tree: seq<int>, fast: nat, v: nat, w: nat, d: nat)
    requires |lookup| == Pow2(fast) && fast <= d && v % Pow2(d) == w % Pow2(d)
    ensures Value(lookup, tree, fast, v, d) == Value(lookup, tree, fast, w, d)
  {
    ModMod(v, fast, d);
    ModMod(w, fast, d);
    hide Pow2;
    WalkAlike(tree, lookup[Remainder(w, Pow2(fast))], fast, v, w, d);
  }

  lemma ValueGrows(lookup: seq<int>, tree: seq<int>, lookup': seq<int>, tree': seq<int>, fast: nat, w: nat, d: nat)
    requires |lookup| == Pow2(fast) && LookupGrows(lookup, lookup') && Grows(tree, tree')
    requires Value(lookup, tree, fast, w, d) != 0
    ensures Value(lookup', tree', fast, w, d) == Value(lookup, tree, fast, w, d)
  {
    hide Pow2;
    WalkGrows(tree, tree', lookup[Remainder(w, Pow2(fast))], fast, w, d);
  }

  // ---------------------------------------------------------------- what is kept of the symbols stored so far

  /** Inner nodes are distinct and lie inside codewords. */
  ghost predicate NodesOk(lens: seq<nat>, m: nat, fast: nat, nodes: seq<Node>)
    requires m <= |lens|
  {
    && (forall j :: 0 <= j < |nodes| ==> nodes[j].depth >= fast && Inside(lens, m, nodes[j]))
    && (forall j, k :: 0 <= j < k < |nodes| ==> nodes[j] != nodes[k])
  }

  /** Long codewords: no entry on the way is zero, nor is the last one, unless it is for symbol 0. */
  ghost predicate LongKept(lens: seq<nat>, n: nat, fast: nat, lookup: seq<int>, tree: seq<int>)
    requires n <= |lens| && |lookup| == Pow2(fast)
  {
    && (forall i: nat, d: nat :: i < n && fast <= d < lens[i] ==> Value(lookup, tree, fast, RevCode(lens, i), d) != 0)
    && (forall i: nat :: 1 <= i < n && lens[i] > fast ==> Value(lookup, tree, fast, RevCode(lens, i), lens[i]) > 0)
  }

  ghost predicate ShortKept(lens: seq<nat>, n: nat, fast: nat, lookup: seq<int>)
    requires n <= |lens|
  {
    forall i: nat, v: nat :: i < n && v < |lookup| && ShortAt(lens, i, fast, v) ==> lookup[v] > 0
  }

  ghost predicate NodesKept(fast: nat, nodes: seq<Node>, lookup: seq<int>, tree: seq<int>)
    requires |lookup| == Pow2(fast)
  {
    forall j :: 0 <= j < |nodes| ==> Value(lookup, tree, fast, nodes[j].bits, nodes[j].depth) != 0
  }

  /** The tables after `n` symbols, while nodes for the first `m` may already have been made. */
  ghost predicate Kept(lens: seq<nat>, n: nat, m: nat, fast: nat, nodes: seq<Node>, lookup: seq<int>, tree: seq<int>)
    requires n <= m <= |lens|
  {
    && |lookup| == Pow2(fast) && NodesOk(lens, m, fast, nodes) && NodesKept(fast, nodes, lookup, tree)
    && LongKept(lens, n, fast, lookup, tree) && ShortKept(lens, n, fast, lookup)
  }

  lemma LongGrows(lens: seq<nat>, n: nat, fast: nat, lookup: seq<int>, tree: seq<int>, lookup': seq<int>,
                  tree': seq<int>)
    requires n <= |lens| && |lookup| == Pow2(fast) && LookupGrows(lookup, lookup') && Grows(tree, tree')
    requires LongKept(lens, n, fast, lookup, tree)
    ensures LongKept(lens, n, fast, lookup', tree')
  {
    hide Value, RevCode, Pow2, Grows, LookupGrows;
    SameSize(lookup, lookup');
    forall i: nat, d: nat | i < n && fast <= d < lens[i]
      ensures Value(lookup', tree', fast, RevCode(lens, i), d) != 0
    {
      ValueGrows(lookup, tree, lookup', tree', fast, RevCode(lens, i), d);
    }
    forall i: nat | 1 <= i < n && lens[i] > fast
      ensures Value(lookup', tree', fast, RevCode(lens, i), lens[i]) > 0
    {
      ValueGrows(lookup, tree, lookup', tree', fast, RevCode(lens, i), lens[i]);
    }
  }

  lemma SameSize(lookup: seq<int>, lookup': seq<int>)
    ensures LookupGrows(lookup, lookup') ==> |lookup'| == |lookup|
  {
  }

  lemma NodesGrow(fast: nat, nodes: seq<Node>, lookup: seq<int>, tree: seq<int>, lookup': seq<int>, tree': seq<int>)
    requires |lookup| == |lookup'| == Pow2(fast) && LookupGrows(lookup, lookup') && Grows(tree, tree')
    requires NodesKept(fast, nodes, lookup, tree)
    ensures NodesKept(fast, nodes, lookup', tree')
  {
    hide Value, Pow2, Grows, LookupGrows;
    forall j | 0 <= j < |nodes|
      ensures Value(lookup', tree', fast, nodes[j].bits, nodes[j].depth) != 0
    {
      ValueGrows(lookup, tree, lookup', tree', fast, nodes[j].bits, nodes[j].depth);
    }
  }

  /** Filling empty entries keeps what is known of the symbols stored so far. */
  lemma KeptGrows(lens: seq<nat>, n: nat, m: nat, fast: nat, nodes: seq<Node>, lookup: seq<int>, tree: seq<int>,
                  lookup': seq<int>, tree': seq<int>)
    requires n <= m <= |lens| && Kept(lens, n, m, fast, nodes, lookup, tree)
    requires LookupGrows(lookup, lookup') && Grows(tree, tree')
    ensures Kept(lens, n, m, fast, nodes, lookup', tree')
  {
    hide LongKept, NodesOk, NodesKept, Pow2, ShortAt, Grows;
    LongGrows(lens, n, fast, lookup, tree, lookup', tree');
    NodesGrow(fast, nodes, lookup, tree, lookup', tree');
  }

  // ---------------------------------------------------------------- codewords that exclude each other

  /** Neither codeword is a prefix of the other. */
  ghost predicate Apart(lens: seq<nat>, i: nat, j: nat)
    requires i < |lens| && j < |lens|
  {
    && (lens[i] <= lens[j] ==> RevCode(lens, j) % Pow2(lens[i]) != RevCode(lens, i))
    && (lens[j] <= lens[i] ==> RevCode(lens, i) % Pow2(lens[j]) != RevCode(lens, j))
  }

  /** All used symbols but symbol 0. */
  ghost predicate Disjoint(lens: seq<nat>, n: nat)
    requires n <= |lens|
  {
    forall i: nat, j: nat :: 1 <= i < j < n && lens[i] > 0 && lens[j] > 0 ==> Apart(lens, i, j)
  }

  /** The first `d` bits of symbol `n`'s codeword leave the way of all long codewords before it. */
  ghost predicate Fresh(lens: seq<nat>, n: nat, fast: nat, d: nat)
    requires n < |lens|
  {
    && (forall i: nat :: 1 <= i < n && fast < lens[i] <= d ==> RevCode(lens, n) % Pow2(lens[i]) != RevCode(lens, i))
    && (forall i: nat :: i < n && lens[i] > d ==> RevCode(lens, i) % Pow2(d) != RevCode(lens, n) % Pow2(d))
  }

  /** They are not the beginning of the way to a node at depth `e` or below. */
  ghost predicate Elsewhere(lens: seq<nat>, n: nat, nodes: seq<Node>, d: nat, e: nat)
    requires n < |lens|
  {
    forall j :: 0 <= j < |nodes| && nodes[j].depth >= e ==> nodes[j].bits % Pow2(d) != RevCode(lens, n) % Pow2(d)
  }

  lemma FreshNext(lens: seq<nat>, n: nat, fast: nat, d: nat)
    requires n < |lens| && fast <= d && Fresh(lens, n, fast, d)
    ensures Fresh(lens, n, fast, d + 1)
  {
    hide RevCode, Pow2;
    ModMod(RevCode(lens, n), d, d + 1);
    forall i: nat | i < n && lens[i] > d
      ensures RevCode(lens, i) % Pow2(d + 1) != RevCode(lens, n) % Pow2(d + 1)
      ensures lens[i] == d + 1 ==> RevCode(lens, n) % Pow2(lens[i]) != RevCode(lens, i)
    {
      ModMod(RevCode(lens, i), d, d + 1);
    }
  }

  lemma ElsewhereNext(lens: seq<nat>, n: nat, nodes: seq<Node>, d: nat, e: nat)
    requires n < |lens| && Elsewhere(lens, n, nodes, d, e)
    ensures Elsewhere(lens, n, nodes, d + 1, e)
  {
    hide RevCode, Pow2;
    ModMod(RevCode(lens, n), d, d + 1);
    forall j | 0 <= j < |nodes| && nodes[j].depth >= e
      ensures nodes[j].bits % Pow2(d + 1) != RevCode(lens, n) % Pow2(d + 1)
    {
      ModMod(nodes[j].bits, d, d + 1);
    }
  }

  /** A walk that comes to an empty entry has left the ways of all earlier symbols. */
  lemma FreshAtZero(lens: seq<nat>, n: nat, m: nat, fast: nat, nodes: seq<Node>, lookup: seq<int>, tree: seq<int>,
                    d: nat)
    requires n < |lens| && n <= m <= |lens| && Kept(lens, n, m, fast, nodes, lookup, tree) && fast <= d
    requires Value(lookup, tree, fast, RevCode(lens, n), d) == 0
    ensures Fresh(lens, n, fast, d) && Elsewhere(lens, n, nodes, d, d)
  {
    hide RevCode, Pow2, Value, ShortKept, NodesOk;
    var w := RevCode(lens, n);
    forall i: nat | 1 <= i < n && fast < lens[i] <= d
      ensures w % Pow2(lens[i]) != RevCode(lens, i)
    {
      if w % Pow2(lens[i]) == RevCode(lens, i) {
        SmallCode(lens, i);
        ValueAlike(lookup, tree, fast, w, RevCode(lens, i), lens[i]);
        ValueOn(lookup, tree, fast, w, lens[i], d);
      }
    }
    forall i: nat | i < n && lens[i] > d
      ensures RevCode(lens, i) % Pow2(d) != w % Pow2(d)
    {
      if RevCode(lens, i) % Pow2(d) == w % Pow2(d) {
        ValueAlike(lookup, tree, fast, w, RevCode(lens, i), d);
      }
    }
    forall j | 0 <= j < |nodes| && nodes[j].depth >= d
      ensures nodes[j].bits % Pow2(d) != w % Pow2(d)
    {
      if nodes[j].bits % Pow2(d) == w % Pow2(d) {
        ValueAlike(lookup, tree, fast, w, nodes[j].bits, d);
        ValueOn(lookup, tree, fast, nodes[j].bits, d, nodes[j].depth);
      }
    }
  }

  lemma SmallCode(lens: seq<nat>, i: nat)
    requires i < |lens|
    ensures RevCode(lens, i) % Pow2(lens[i]) == RevCode(lens, i)
  {
    RevCodeFits(lens, i);
    SmallRemainder(RevCode(lens, i), Pow2(lens[i]));
  }

  // ---------------------------------------------------------------- the way of the next symbol

  /** The walk for symbol `n` has come to depth `d`. What is stored leads decoding to the same node, or, if a reference
      was not kept by its conversion, to a symbol; then nobody else has come this way. */
  ghost predicate Walking(lens: seq<nat>, n: nat, fast: nat, nodes: seq<Node>, lookup: seq<int>, tree: seq<int>, d: nat,
                          treeCur: int)
    requires n < |lens|
  {
    && |lookup| == Pow2(fast) && fast <= d < lens[n] && treeCur < 0
    && lookup[Remainder(RevCode(lens, n), Pow2(fast))] < 0
    && var x := Value(lookup, tree, fast, RevCode(lens, n), d);
       x == treeCur || (x > 0 && Fresh(lens, n, fast, d) && Elsewhere(lens, n, nodes, d, d + 1))
  }

  /** The next entry on the way of symbol `n`, if it is empty. */
  lemma EmptyAhead(lens: seq<nat>, n: nat, m: nat, fast: nat, nodes: seq<Node>, lookup: seq<int>, tree: seq<int>,
                   d: nat, treeCur: int)
    requires n < |lens| && n <= m <= |lens| && Kept(lens, n, m, fast, nodes, lookup, tree)
    requires Walking(lens, n, fast, nodes, lookup, tree, d, treeCur)
    requires Reading(tree, treeCur, NextBit(lens, n, d)) == 0
    ensures Fresh(lens, n, fast, d + 1) && Elsewhere(lens, n, nodes, d + 1, d + 1)
  {
    hide RevCode, Pow2, Value, Kept, Fresh, Elsewhere, Reading;
    if Value(lookup, tree, fast, RevCode(lens, n), d) == treeCur {
      ValueStep(lookup, tree, fast, RevCode(lens, n), d);
      FreshAtZero(lens, n, m, fast, nodes, lookup, tree, d + 1);
    } else {
      FreshNext(lens, n, fast, d);
      ElsewhereNext(lens, n, nodes, d, d + 1);
    }
  }

  lemma NewNodeOk(lens: seq<nat>, n: nat, fast: nat, nodes: seq<Node>, d: nat)
    requires n < |lens| && fast <= d < lens[n] && NodesOk(lens, n + 1, fast, nodes)
    requires Elsewhere(lens, n, nodes, d, d)
    ensures NodesOk(lens, n + 1, fast, nodes + [Path(lens, n, d)])
    ensures Elsewhere(lens, n, nodes + [Path(lens, n, d)], d, d + 1)
  {
    var p := Path(lens, n, d);
    PathInside(lens, n, d);
    SmallRemainder(p.bits, Pow2(d));
    hide RevCode, Pow2, Inside;
    assert p !in nodes;
  }

  lemma NodeAdded(fast: nat, nodes: seq<Node>, lookup: seq<int>, tree: seq<int>, p: Node)
    requires |lookup| == Pow2(fast) && NodesKept(fast, nodes, lookup, tree)
    requires Value(lookup, tree, fast, p.bits, p.depth) != 0
    ensures NodesKept(fast, nodes + [p], lookup, tree)
  {
  }

  /** A reference to one of the first 2^15 nodes is stored as it is, or as a positive number. */
  lemma StoredReference(j: nat)
    requires j < 32768
    ensures Int16(Id(j)) == Id(j) || Int16(Id(j)) > 0
  {
  }

  lemma EntrySet(tree: seq<int>, at: nat, e: int)
    requires at < |tree| && tree[at] == 0
    ensures Grows(tree, tree[at := e]) && EntryAt(tree[at := e], at) == e
  {
  }

  /** A new root node. */
  lemma RootAdded(lens: seq<nat>, n: nat, fast: nat, nodes: seq<Node>, lookup: seq<int>, tree: seq<int>)
    requires n < |lens| && fast < lens[n] && Kept(lens, n, n + 1, fast, nodes, lookup, tree)
    requires lookup[Remainder(RevCode(lens, n), Pow2(fast))] == 0
    ensures var at, p := Remainder(RevCode(lens, n), Pow2(fast)), Path(lens, n, fast);
            var lookup' := lookup[at := Id(|nodes|)];
            Kept(lens, n, n + 1, fast, nodes + [p], lookup', tree) &&
            Walking(lens, n, fast, nodes + [p], lookup', tree, fast, Id(|nodes|))
  {
    hide RevCode, Pow2, NodesOk, NodesKept, LongKept, ShortKept, Fresh, Elsewhere, Grows;
    var w := RevCode(lens, n);
    var at, p := Remainder(w, Pow2(fast)), Path(lens, n, fast);
    var lookup' := lookup[at := Id(|nodes|)];
    GrowsItself(tree);
    KeptGrows(lens, n, n + 1, fast, nodes, lookup, tree, lookup', tree);
    FreshAtZero(lens, n, n + 1, fast, nodes, lookup, tree, fast);
    NewNodeOk(lens, n, fast, nodes, fast);
    SmallRemainder(p.bits, Pow2(fast));
    NodeAdded(fast, nodes, lookup', tree, p);
  }

  lemma GrowsItself(tree: seq<int>)
    ensures Grows(tree, tree)
  {
  }

  /** A new inner node. */
  lemma InnerAdded(lens: seq<nat>, n: nat, fast: nat, nodes: seq<Node>, lookup: seq<int>, tree: seq<int>, d: nat,
                   treeCur: int)
    requires n < |lens| && d + 1 < lens[n] && |nodes| < 32768 && Kept(lens, n, n + 1, fast, nodes, lookup, tree)
    requires Walking(lens, n, fast, nodes, lookup, tree, d, treeCur)
    requires -treeCur - 1 + NextBit(lens, n, d) < |tree| && tree[-treeCur - 1 + NextBit(lens, n, d)] == 0
    ensures var at, nodes' := -treeCur - 1 + NextBit(lens, n, d), nodes + [Path(lens, n, d + 1)];
            var tree' := tree[at := Int16(Id(|nodes|))];
            Kept(lens, n, n + 1, fast, nodes', lookup, tree') &&
            Walking(lens, n, fast, nodes', lookup, tree', d + 1, Id(|nodes|))
  {
    hide RevCode, Pow2, NodesOk, NodesKept, LongKept, ShortKept, Fresh, Elsewhere, Grows, EntryAt, Value, Int16;
    var w := RevCode(lens, n);
    var at, p := -treeCur - 1 + NextBit(lens, n, d), Path(lens, n, d + 1);
    var e := Int16(Id(|nodes|));
    var tree' := tree[at := e];
    assert EntryAt(tree, at) == 0 by {
      EntryInside(tree, at);
    }
    EntrySet(tree, at, e);
    StoredReference(|nodes|);
    EmptyAhead(lens, n, n + 1, fast, nodes, lookup, tree, d, treeCur);
    LookupItself(lookup);
    KeptGrows(lens, n, n + 1, fast, nodes, lookup, tree, lookup, tree');
    NewNodeOk(lens, n, fast, nodes, d + 1);
    ValueGrows(lookup, tree, lookup, tree', fast, w, d);
    ValueStep(lookup, tree', fast, w, d);
    ModMod(w, d + 1, d + 1);
    ValueAlike(lookup, tree', fast, p.bits, w, d + 1);
    NodeAdded(fast, nodes, lookup, tree', p);
  }

  lemma EntryInside(tree: seq<int>, at: nat)
    requires at < |tree|
    ensures EntryAt(tree, at) == tree[at]
  {
  }

  lemma LookupItself(lookup: seq<int>)
    ensures LookupGrows(lookup, lookup)
  {
  }

  /** On to a node that is there. */
  lemma InnerFollowed(lens: seq<nat>, n: nat, fast: nat, nodes: seq<Node>, lookup: seq<int>, tree: seq<int>, d: nat,
                      treeCur: int)
    requires n < |lens| && d + 1 < lens[n]
    requires Walking(lens, n, fast, nodes, lookup, tree, d, treeCur)
    requires Reading(tree, treeCur, NextBit(lens, n, d)) < 0
    ensures Walking(lens, n, fast, nodes, lookup, tree, d + 1, Reading(tree, treeCur, NextBit(lens, n, d)))
  {
    hide RevCode, Pow2, Value, Fresh, Elsewhere, Reading;
    ValueStep(lookup, tree, fast, RevCode(lens, n), d);
    if Value(lookup, tree, fast, RevCode(lens, n), d) != treeCur {
      FreshNext(lens, n, fast, d);
      ElsewhereNext(lens, n, nodes, d, d + 1);
      ElsewhereDeeper(lens, n, nodes, d + 1, d + 1);
    }
  }

  lemma ElsewhereDeeper(lens: seq<nat>, n: nat, nodes: seq<Node>, d: nat, e: nat)
    requires n < |lens| && Elsewhere(lens, n, nodes, d, e)
    ensures Elsewhere(lens, n, nodes, d, e + 1)
  {
  }

  // ---------------------------------------------------------------- storing a symbol

  ghost predicate ApartFromEarlier(lens: seq<nat>, n: nat)
    requires n < |lens|
  {
    forall i: nat :: 1 <= i < n && lens[i] > 0 ==> Apart(lens, i, n)
  }

  lemma DisjointNext(lens: seq<nat>, n: nat)
    requires n < |lens| && Disjoint(lens, n) && (lens[n] > 0 ==> ApartFromEarlier(lens, n))
    ensures Disjoint(lens, n + 1)
  {
    hide Apart;
  }

  /** A long codeword that has left all ways and meets no short one is no prefix of the others, nor they of it. */
  lemma FreshIsApart(lens: seq<nat>, n: nat, fast: nat, lookup: seq<int>)
    requires n < |lens| && fast < lens[n] && |lookup| == Pow2(fast) && ShortKept(lens, n, fast, lookup)
    requires lookup[Remainder(RevCode(lens, n), Pow2(fast))] <= 0 && Fresh(lens, n, fast, lens[n])
    ensures ApartFromEarlier(lens, n)
  {
    hide RevCode, Pow2;
    var w := RevCode(lens, n);
    forall i: nat | 1 <= i < n && lens[i] > 0
      ensures Apart(lens, i, n)
    {
      SmallCode(lens, n);
      if lens[i] <= fast {
        ModMod(w, lens[i], fast);
        assert !ShortAt(lens, i, fast, Remainder(w, Pow2(fast)));
      }
      if lens[i] == lens[n] {
        SmallCode(lens, i);
      }
    }
  }

  /** A stored leaf. */
  lemma LeafAdded(lens: seq<nat>, n: nat, fast: nat, nodes: seq<Node>, lookup: seq<int>, tree: seq<int>, d: nat,
                  treeCur: int)
    requires n < |lens| && d + 1 == lens[n] && Kept(lens, n, n + 1, fast, nodes, lookup, tree)
    requires Walking(lens, n, fast, nodes, lookup, tree, d, treeCur)
    requires -treeCur - 1 + NextBit(lens, n, d) < |tree| && tree[-treeCur - 1 + NextBit(lens, n, d)] == 0
    ensures var at := -treeCur - 1 + NextBit(lens, n, d);
            Kept(lens, n + 1, n + 1, fast, nodes, lookup, tree[at := n])
    ensures ApartFromEarlier(lens, n)
  {
    hide RevCode, Pow2, NodesOk, NodesKept, LongKept, ShortKept, Fresh, Elsewhere, Grows, EntryAt, Value;
    var w := RevCode(lens, n);
    var at := -treeCur - 1 + NextBit(lens, n, d);
    var tree' := tree[at := n];
    assert EntryAt(tree, at) == 0 by {
      EntryInside(tree, at);
    }
    EntrySet(tree, at, n);
    EmptyAhead(lens, n, n + 1, fast, nodes, lookup, tree, d, treeCur);
    FreshIsApart(lens, n, fast, lookup);
    LookupItself(lookup);
    KeptGrows(lens, n, n + 1, fast, nodes, lookup, tree, lookup, tree');
    ValueGrows(lookup, tree, lookup, tree', fast, w, d);
    ValueStep(lookup, tree', fast, w, d);
    LongKeptNext(lens, n, fast, lookup, tree', d);
    ShortKeptNext(lens, n, fast, lookup);
  }

  lemma LongKeptNext(lens: seq<nat>, n: nat, fast: nat, lookup: seq<int>, tree: seq<int>, d: nat)
    requires n < |lens| && fast <= d && lens[n] == d + 1 && |lookup| == Pow2(fast)
    requires LongKept(lens, n, fast, lookup, tree) && Value(lookup, tree, fast, RevCode(lens, n), d) != 0
    requires n > 0 ==> Value(lookup, tree, fast, RevCode(lens, n), d + 1) > 0
    ensures LongKept(lens, n + 1, fast, lookup, tree)
  {
    hide RevCode, Pow2, Value;
    forall c: nat | fast <= c < lens[n]
      ensures Value(lookup, tree, fast, RevCode(lens, n), c) != 0
    {
      ValueOn(lookup, tree, fast, RevCode(lens, n), c, d);
    }
  }

  lemma ShortKeptNext(lens: seq<nat>, n: nat, fast: nat, lookup: seq<int>)
    requires n < |lens| && lens[n] > fast && ShortKept(lens, n, fast, lookup)
    ensures ShortKept(lens, n + 1, fast, lookup)
  {
  }

  /** A short codeword whose entries were all empty. */
  lemma ShortAdded(lens: seq<nat>, n: nat, fast: nat, nodes: seq<Node>, lookup: seq<int>, lookup': seq<int>,
                   tree: seq<int>)
    requires n < |lens| && 0 < lens[n] <= fast && Kept(lens, n, n, fast, nodes, lookup, tree)
    requires Filled(lookup, lookup', |lookup|, Pow2(lens[n]), RevCode(lens, n), LookupValue(lens, n))
    requires !Taken(lookup, Pow2(lens[n]), RevCode(lens, n))
    ensures Kept(lens, n + 1, n + 1, fast, nodes, lookup', tree)
    ensures ApartFromEarlier(lens, n)
  {
    hide RevCode, Pow2, NodesOk, NodesKept, LongKept, ShortAt;
    FilledGrows(lens, n, fast, lookup, lookup');
    GrowsItself(tree);
    KeptGrows(lens, n, n, fast, nodes, lookup, tree, lookup', tree);
    MoreKept(lens, n, fast, nodes, lookup', tree);
    ShortIsApart(lens, n, fast, nodes, lookup, tree);
  }

  lemma FilledGrows(lens: seq<nat>, n: nat, fast: nat, lookup: seq<int>, lookup': seq<int>)
    requires n < |lens| && 0 < lens[n] <= fast
    requires Filled(lookup, lookup', |lookup|, Pow2(lens[n]), RevCode(lens, n), LookupValue(lens, n))
    requires !Taken(lookup, Pow2(lens[n]), RevCode(lens, n))
    ensures LookupGrows(lookup, lookup')
    ensures forall v: nat :: v < |lookup'| && ShortAt(lens, n, fast, v) ==> lookup'[v] > 0
  {
    hide RevCode, Pow2;
  }

  /** Symbols that have no place in the tree, and nodes, under a larger number of symbols. */
  lemma MoreKept(lens: seq<nat>, n: nat, fast: nat, nodes: seq<Node>, lookup: seq<int>, tree: seq<int>)
    requires n < |lens| && lens[n] <= fast && |lookup| == Pow2(fast)
    ensures NodesOk(lens, n, fast, nodes) ==> NodesOk(lens, n + 1, fast, nodes)
    ensures LongKept(lens, n, fast, lookup, tree) ==> LongKept(lens, n + 1, fast, lookup, tree)
  {
    hide Path, Value, RevCode, Pow2;
    if NodesOk(lens, n, fast, nodes) {
      NodesOkLater(lens, n, n + 1, fast, nodes);
    }
  }

  lemma NodesOkLater(lens: seq<nat>, m: nat, k: nat, fast: nat, nodes: seq<Node>)
    requires m <= k <= |lens| && NodesOk(lens, m, fast, nodes)
    ensures NodesOk(lens, k, fast, nodes)
  {
    hide Path;
    forall j | 0 <= j < |nodes|
      ensures Inside(lens, k, nodes[j])
    {
      assert Inside(lens, m, nodes[j]);
    }
  }

  lemma ShortIsApart(lens: seq<nat>, n: nat, fast: nat, nodes: seq<Node>, lookup: seq<int>, tree: seq<int>)
    requires n < |lens| && 0 < lens[n] <= fast && Kept(lens, n, n, fast, nodes, lookup, tree)
    requires !Taken(lookup, Pow2(lens[n]), RevCode(lens, n))
    ensures ApartFromEarlier(lens, n)
  {
    hide RevCode, Pow2, NodesOk, NodesKept, LongKept, ShortKept;
    forall i: nat | 1 <= i < n && lens[i] > 0
      ensures Apart(lens, i, n)
    {
      if lens[i] > fast {
        LongMissesShort(lens, i, n, fast, nodes, lookup, tree);
      } else {
        ShortMissesShort(lens, i, n, fast, lookup);
      }
    }
  }

  lemma LongMissesShort(lens: seq<nat>, i: nat, n: nat, fast: nat, nodes: seq<Node>, lookup: seq<int>, tree: seq<int>)
    requires i < n < |lens| && 0 < lens[n] <= fast < lens[i] && Kept(lens, n, n, fast, nodes, lookup, tree)
    requires !Taken(lookup, Pow2(lens[n]), RevCode(lens, n))
    ensures Apart(lens, i, n)
  {
    hide RevCode, Pow2, NodesOk, NodesKept, ShortKept;
    var w := RevCode(lens, i);
    assert Value(lookup, tree, fast, w, fast) != 0;
    assert lookup[Remainder(w, Pow2(fast))] != 0;
    ModMod(w, lens[n], fast);
  }

  /** If one short codeword were a prefix of the other, the other one would be in the way. */
  lemma ShortMissesShort(lens: seq<nat>, i: nat, n: nat, fast: nat, lookup: seq<int>)
    requires i < n < |lens| && 0 < lens[n] <= fast && 0 < lens[i] <= fast && |lookup| == Pow2(fast)
    requires ShortKept(lens, n, fast, lookup)
    requires !Taken(lookup, Pow2(lens[n]), RevCode(lens, n))
    ensures Apart(lens, i, n)
  {
    var longer := if lens[i] <= lens[n] then n else i;
    var v := RevCode(lens, longer);
    RevCodeFits(lens, longer);
    Pow2Monotone(lens[longer], fast);
    SmallCode(lens, longer);
    hide RevCode, Pow2;
    SmallCode(lens, i);
    assert !(ShortAt(lens, i, fast, v) && v % Pow2(lens[n]) == RevCode(lens, n));
  }

  lemma UnusedAdded(lens: seq<nat>, n: nat, fast: nat, nodes: seq<Node>, lookup: seq<int>, tree: seq<int>)
    requires n < |lens| && lens[n] == 0 && Kept(lens, n, n, fast, nodes, lookup, tree)
    ensures Kept(lens, n + 1, n + 1, fast, nodes, lookup, tree)
  {
    assert forall v: nat :: !ShortAt(lens, n, fast, v);
    MoreKept(lens, n, fast, nodes, lookup, tree);
    hide NodesOk, LongKept, NodesKept, ShortAt;
  }

  // ---------------------------------------------------------------- between the steps

  lemma NothingKept(lens: seq<nat>, fast: nat)
    ensures Kept(lens, 0, 0, fast, [], Zeros(Pow2(fast)), Zeros(2 * |lens|)) && Disjoint(lens, 0)
  {
  }

  /** Nodes of the next symbol may be made. */
  lemma KeptReady(lens: seq<nat>, n: nat, fast: nat, nodes: seq<Node>, lookup: seq<int>, tree: seq<int>)
    requires n < |lens| && Kept(lens, n, n, fast, nodes, lookup, tree)
    ensures Kept(lens, n, n + 1, fast, nodes, lookup, tree)
  {
    hide NodesOk, NodesKept, LongKept, ShortKept, Pow2;
    NodesOkLater(lens, n, n + 1, fast, nodes);
  }

  /** A root node that is there. */
  lemma RootFollowed(lens: seq<nat>, n: nat, fast: nat, nodes: seq<Node>, lookup: seq<int>, tree: seq<int>)
    requires n < |lens| && fast < lens[n] && |lookup| == Pow2(fast)
    requires lookup[Remainder(RevCode(lens, n), Pow2(fast))] < 0
    ensures Walking(lens, n, fast, nodes, lookup, tree, fast, lookup[Remainder(RevCode(lens, n), Pow2(fast))])
  {
  }

  /** Lengthening the tree changes nothing. */
  lemma KeptLengthened(lens: seq<nat>, n: nat, fast: nat, nodes: seq<Node>, lookup: seq<int>, tree: seq<int>, d: nat,
                       treeCur: int, k: nat)
    requires n < |lens| && Kept(lens, n, n + 1, fast, nodes, lookup, tree)
    requires Walking(lens, n, fast, nodes, lookup, tree, d, treeCur)
    ensures Kept(lens, n, n + 1, fast, nodes, lookup, tree + Zeros(k))
    ensures Walking(lens, n, fast, nodes, lookup, tree + Zeros(k), d, treeCur)
  {
    assert Grows(tree, tree + Zeros(k));
    hide Grows, Kept, Value, RevCode, Pow2, Fresh, Elsewhere;
    assert |lookup| == Pow2(fast);
    LookupItself(lookup);
    KeptGrows(lens, n, n + 1, fast, nodes, lookup, tree, lookup, tree + Zeros(k));
    ValueGrows(lookup, tree, lookup, tree + Zeros(k), fast, RevCode(lens, n), d);
  }
}
