/** How many nodes basisu's tree can have, and how much disjoint codewords can weigh; again for any list of lengths. */
module HuffmanCounting {
  import opened Canonical
  import opened HuffmanConflicts
  import opened HuffmanTree
  import opened Powers

  // ---------------------------------------------------------------- nodes

  /** The places of the numbers from `lo` up, `n` of them, most significant bit first. */
  function Places(d: nat, lo: nat, n: nat): (s: set<Node>)
    ensures |s| <= n
  {
    if n == 0 then {} else Places(d, lo, n - 1) + {Node(d, Rev(lo + n - 1, d))}
  }

  lemma {:induction false} InPlaces(d: nat, lo: nat, n: nat, y: nat)
    requires lo <= y < lo + n
    ensures Node(d, Rev(y, d)) in Places(d, lo, n)
    decreases n
  {
    hide Rev;
    if y < lo + n - 1 {
      InPlaces(d, lo, n - 1, y);
    }
  }

  /** How many places at depth `d` the codewords of length `l` go through at most: they are consecutive numbers. */
  function Density(lens: seq<nat>, l: nat, d: nat): nat
    requires d <= l
  {
    Quotient(Count(lens, |lens|, l), Pow2(l - d)) + 2
  }

  function LevelPlaces(lens: seq<nat>, l: nat, d: nat): (s: set<Node>)
    requires d <= l
    ensures |s| <= Density(lens, l, d)
  {
    Places(d, Quotient(First(lens, l), Pow2(l - d)), Density(lens, l, d))
  }

  /** Consecutive numbers, divided. */
  lemma DividedRange(f: nat, c: nat, x: nat, p: nat)
    requires p > 0 && f <= x < f + c
    ensures Quotient(f, p) <= Quotient(x, p) < Quotient(f, p) + Quotient(c, p) + 2
  {
    var a: int, b: int, q: int := Quotient(f, p), Quotient(c, p), Quotient(x, p);
    MultipleIsFar(p, a - q);
    DistributeSub(p, a, q);
    MultipleIsFar(p, q - a - b - 1);
    DistributeSub(p, q, a + b + 1);
    Distribute(p, a, b + 1);
    Distribute(p, b, 1);
  }

  /** The way to a codeword goes through the numbers that start it. */
  lemma PathIsPlace(lens: seq<nat>, i: nat, d: nat)
    requires i < |lens| && d <= lens[i]
    ensures Path(lens, i, d) == Node(d, Rev(Quotient(Code(lens, i), Pow2(lens[i] - d)), d))
  {
    hide Pow2, Rev, Code;
    var c, l := Code(lens, i), lens[i];
    var q := Quotient(c, Pow2(l - d));
    RevSplit(c, l - d, d);
    DivModOf(RevCode(lens, i), Pow2(d), Rev(c, l - d), Rev(q, d));
  }

  lemma PathInLevel(lens: seq<nat>, i: nat, d: nat)
    requires i < |lens| && d <= lens[i]
    ensures Path(lens, i, d) in LevelPlaces(lens, lens[i], d)
  {
    hide Pow2, Rev, First, Count, Path;
    var l := lens[i];
    PathIsPlace(lens, i, d);
    RankBelowCount(lens, i);
    DividedRange(First(lens, l), Count(lens, |lens|, l), Code(lens, i), Pow2(l - d));
    InPlaces(d, Quotient(First(lens, l), Pow2(l - d)), Density(lens, l, d), Quotient(Code(lens, i), Pow2(l - d)));
  }

  /** The places at depths 1 to `d` on the way to codewords of length `l`. */
  function LengthPlaces(lens: seq<nat>, l: nat, d: nat): set<Node>
    requires d <= l
  {
    if d == 0 then {} else LengthPlaces(lens, l, d - 1) + LevelPlaces(lens, l, d)
  }

  lemma {:induction false} LengthSize(lens: seq<nat>, l: nat, d: nat)
    requires d <= l
    ensures |LengthPlaces(lens, l, d)| <= 2 * Quotient(Count(lens, |lens|, l), Pow2(l - d)) + 2 * d
  {
    hide Count, Pow2, LevelPlaces, Quotient;
    if d > 0 {
      LengthSize(lens, l, d - 1);
      HalfQuotient(Count(lens, |lens|, l), l - d);
      assert l - (d - 1) == l - d + 1;
      assert |LevelPlaces(lens, l, d)| <= Density(lens, l, d);
    }
  }

  lemma HalfQuotient(c: nat, k: nat)
    ensures 2 * Quotient(c, Pow2(k + 1)) <= Quotient(c, Pow2(k))
  {
    DivDiv(c, Pow2(k), 2);
  }

  lemma {:induction false} InLength(lens: seq<nat>, i: nat, c: nat, d: nat)
    requires i < |lens| && 1 <= c <= d <= lens[i]
    ensures Path(lens, i, c) in LengthPlaces(lens, lens[i], d)
    decreases d
  {
    hide Path, LevelPlaces;
    if c < d {
      InLength(lens, i, c, d - 1);
    } else {
      PathInLevel(lens, i, c);
    }
  }

  /** All places inside codewords of lengths up to `l`, but the top. */
  function AllPlaces(lens: seq<nat>, l: nat): set<Node> {
    if l == 0 then {} else AllPlaces(lens, l - 1) + LengthPlaces(lens, l, l - 1)
  }

  lemma {:induction false} AllSize(lens: seq<nat>, l: nat)
    requires l <= W
    ensures |AllPlaces(lens, l)| <= FirstSymbol(lens, l + 1) + 2 * W * l
  {
    hide Count, LengthPlaces, Pow2, Quotient;
    if l > 0 {
      AllSize(lens, l - 1);
      LengthSize(lens, l, l - 1);
      assert l - (l - 1) == 1;
      HalvesTwice(Count(lens, |lens|, l));
    }
  }

  lemma HalvesTwice(c: nat)
    ensures 2 * Quotient(c, Pow2(1)) <= c
  {
    Pow2Step(0);
  }

  lemma {:induction false} InAll(lens: seq<nat>, i: nat, d: nat, l: nat)
    requires i < |lens| && 1 <= d < lens[i] <= l
    ensures Path(lens, i, d) in AllPlaces(lens, l)
    decreases l
  {
    hide Path, LengthPlaces;
    if lens[i] < l {
      InAll(lens, i, d, l - 1);
    } else {
      InLength(lens, i, d, l - 1);
    }
  }

  /** Whatever the lengths, there are not many more nodes than symbols. */
  lemma ManyNodes(lens: seq<nat>, m: nat, fast: nat, nodes: seq<Node>)
    requires Lengths(lens) && m <= |lens| && 1 <= fast && NodesOk(lens, m, fast, nodes)
    ensures |nodes| <= |lens| + 2 * W * W
  {
    hide Path, AllPlaces, FirstSymbol;
    var u := AllPlaces(lens, W);
    forall j | 0 <= j < |nodes|
      ensures nodes[j] in u
    {
      assert Inside(lens, m, nodes[j]);
      var i :| 0 <= i < m && lens[i] > nodes[j].depth && Path(lens, i, nodes[j].depth) == nodes[j];
      InAll(lens, i, nodes[j].depth, W);
    }
    DistinctInSet(nodes, u);
    AllSize(lens, W);
    FirstSymbolBound(lens, W + 1);
  }

  /** So references to them are stored as they are, or as positive numbers. */
  lemma FewNodes(lens: seq<nat>, m: nat, fast: nat, nodes: seq<Node>, lookup: seq<int>, tree: seq<int>)
    requires Lengths(lens) && |lens| <= MAX_SYMS && m <= |lens| && 1 <= fast
    requires m > 0 && Kept(lens, m - 1, m, fast, nodes, lookup, tree)
    ensures |nodes| < 32768
  {
    ManyNodes(lens, m, fast, nodes);
  }

  // ---------------------------------------------------------------- steps in a tree that may have to be lengthened

  lemma GoingStep(lens: seq<nat>, n: nat, fast: nat, nodes: seq<Node>, lookup: seq<int>, was: seq<int>, d: nat,
                  treeCur: int)
    requires Lengths(lens) && n < |lens| <= MAX_SYMS && fast >= 1 && d + 1 < lens[n]
    requires Kept(lens, n, n + 1, fast, nodes, lookup, was) && Walking(lens, n, fast, nodes, lookup, was, d, treeCur)
    requires treeCur < 0
    ensures var at := -treeCur - 1 + NextBit(lens, n, d);
            var tree, nodes' := Reached(was, at), nodes + [Path(lens, n, d + 1)];
            && (tree[at] < 0 ==>
                  && Kept(lens, n, n + 1, fast, nodes, lookup, tree)
                  && Walking(lens, n, fast, nodes, lookup, tree, d + 1, tree[at]))
            && (tree[at] == 0 ==>
                  && Kept(lens, n, n + 1, fast, nodes', lookup, tree[at := Int16(Id(|nodes|))])
                  && Walking(lens, n, fast, nodes', lookup, tree[at := Int16(Id(|nodes|))], d + 1, Id(|nodes|)))
  {
    hide Kept, Walking, Lengths, NextBit, Path, Int16;
    var at := -treeCur - 1 + NextBit(lens, n, d);
    var tree := Reached(was, at);
    KeptLengthened(lens, n, fast, nodes, lookup, was, d, treeCur, Excess(at + 1, |was|));
    if tree[at] == 0 {
      FewNodes(lens, n + 1, fast, nodes, lookup, tree);
      InnerAdded(lens, n, fast, nodes, lookup, tree, d, treeCur);
    } else if tree[at] < 0 {
      EntryInside(tree, at);
      InnerFollowed(lens, n, fast, nodes, lookup, tree, d, treeCur);
    }
  }

  lemma GoingLeaf(lens: seq<nat>, n: nat, fast: nat, nodes: seq<Node>, lookup: seq<int>, was: seq<int>, d: nat,
                  treeCur: int)
    requires n < |lens| && d + 1 == lens[n] && treeCur < 0 && Disjoint(lens, n)
    requires Kept(lens, n, n + 1, fast, nodes, lookup, was) && Walking(lens, n, fast, nodes, lookup, was, d, treeCur)
    ensures var at := -treeCur - 1 + NextBit(lens, n, d);
            Reached(was, at)[at] == 0 ==>
              Kept(lens, n + 1, n + 1, fast, nodes, lookup, Reached(was, at)[at := n]) && Disjoint(lens, n + 1)
  {
    hide Kept, Walking, Disjoint, NextBit, ApartFromEarlier;
    var at := -treeCur - 1 + NextBit(lens, n, d);
    KeptLengthened(lens, n, fast, nodes, lookup, was, d, treeCur, Excess(at + 1, |was|));
    if Reached(was, at)[at] == 0 {
      LeafAdded(lens, n, fast, nodes, lookup, Reached(was, at), d, treeCur);
      DisjointNext(lens, n);
    }
  }

  // ---------------------------------------------------------------- weights

  /** The weight of the first `n` symbols. */
  function Load(lens: seq<nat>, n: nat): nat
    requires Lengths(lens) && n <= |lens|
  {
    if n == 0 then 0 else Load(lens, n - 1) + if lens[n - 1] > 0 then Weight(lens[n - 1]) else 0
  }

  /** The weight of those with lengths below `l`, counted by length. */
  function LoadBelow(lens: seq<nat>, n: nat, l: nat): nat
    requires n <= |lens| && l <= W + 1
  {
    if l <= 1 then 0 else LoadBelow(lens, n, l - 1) + Span(Count(lens, n, l - 1), l - 1)
  }

  lemma {:induction false} LoadBelowNext(lens: seq<nat>, n: nat, l: nat)
    requires Lengths(lens) && n < |lens| && l <= W + 1
    ensures LoadBelow(lens, n + 1, l) == LoadBelow(lens, n, l) + if 0 < lens[n] < l then Weight(lens[n]) else 0
    ensures LoadBelow(lens, 0, l) == 0
  {
    hide Weight, Span;
    if l > 1 {
      LoadBelowNext(lens, n, l - 1);
      SpanFacts(Count(lens, n, l - 1), 1, l - 1);
      SpanFacts(0, 0, l - 1);
    }
  }

  lemma {:induction false} LoadIs(lens: seq<nat>, n: nat)
    requires Lengths(lens) && n <= |lens|
    ensures n > 0 ==> Load(lens, n) == LoadBelow(lens, n, W + 1)
  {
    hide LoadBelow, Weight;
    if n > 0 {
      LoadIs(lens, n - 1);
      LoadBelowNext(lens, n - 1, W + 1);
    }
  }

  lemma {:induction false} KraftIsLoad(lens: seq<nat>, l: nat)
    requires l <= W + 1
    ensures Start(lens, l) == LoadBelow(lens, |lens|, l)
  {
    hide Span;
    if l > 1 {
      KraftIsLoad(lens, l - 1);
    }
  }

  /** The 16-bit numbers that end with the codeword of symbol `i`, the first `k` of them. */
  function Multiples(r: nat, p: nat, k: nat): set<nat> {
    if k == 0 then {} else Multiples(r, p, k - 1) + {r + (k - 1) * p}
  }

  lemma {:induction false} MultiplesFacts(r: nat, p: nat, k: nat)
    requires r < p
    ensures |Multiples(r, p, k)| == k
    ensures forall v :: v in Multiples(r, p, k) ==> v % p == r && v < k * p
  {
    if k > 0 {
      MultiplesFacts(r, p, k - 1);
      LastMultiple(r, p, k);
      AddOne(Multiples(r, p, k - 1), r + (k - 1) * p, (k - 1) * p);
    }
  }

  lemma LastMultiple(r: nat, p: nat, k: nat)
    requires r < p && k > 0
    ensures (r + (k - 1) * p) % p == r && (k - 1) * p <= r + (k - 1) * p < k * p
  {
    DivModOf(r + (k - 1) * p, p, k - 1, r);
    Distribute(p, k - 1, 1);
  }

  lemma AddOne(s: set<nat>, v: nat, bound: nat)
    requires v >= bound && forall x :: x in s ==> x < bound
    ensures |s + {v}| == |s| + 1
  {
  }

  function Ending(lens: seq<nat>, i: nat): set<nat>
    requires Lengths(lens) && i < |lens|
  {
    Multiples(RevCode(lens, i), Pow2(lens[i]), Weight(lens[i]))
  }

  lemma EndingFacts(lens: seq<nat>, i: nat)
    requires Lengths(lens) && i < |lens|
    ensures |Ending(lens, i)| == Weight(lens[i])
    ensures forall v :: v in Ending(lens, i) ==> v % Pow2(lens[i]) == RevCode(lens, i) && v < Pow2(W)
  {
    RevCodeFits(lens, i);
    Pow2Add(W - lens[i], lens[i]);
    hide RevCode, Pow2, Multiples;
    MultiplesFacts(RevCode(lens, i), Pow2(lens[i]), Weight(lens[i]));
  }

  lemma ApartEndings(lens: seq<nat>, i: nat, j: nat, v: nat)
    requires Lengths(lens) && i < |lens| && j < |lens| && Apart(lens, i, j)
    ensures !(v in Ending(lens, i) && v in Ending(lens, j))
  {
    EndingFacts(lens, i);
    EndingFacts(lens, j);
    hide RevCode, Pow2, Ending;
    if lens[i] <= lens[j] {
      ModMod(v, lens[i], lens[j]);
    } else {
      ModMod(v, lens[j], lens[i]);
    }
  }

  /** The numbers that end with a codeword of one of the symbols from 1 to `n - 1`. */
  function Endings(lens: seq<nat>, n: nat): set<nat>
    requires Lengths(lens) && n <= |lens|
  {
    if n <= 1 then {} else Endings(lens, n - 1) + if lens[n - 1] > 0 then Ending(lens, n - 1) else {}
  }

  lemma {:induction false} OneOfEndings(lens: seq<nat>, n: nat, v: nat) returns (i: nat)
    requires Lengths(lens) && n <= |lens| && v in Endings(lens, n)
    ensures 1 <= i < n && lens[i] > 0 && v in Ending(lens, i)
  {
    hide Ending;
    if v in Endings(lens, n - 1) {
      i := OneOfEndings(lens, n - 1, v);
    } else {
      i := n - 1;
    }
  }

  lemma {:induction false} EndingsSize(lens: seq<nat>, n: nat)
    requires Lengths(lens) && 1 <= n <= |lens| && Disjoint(lens, n)
    ensures |Endings(lens, n)| == Load(lens, n) - Load(lens, 1)
    ensures forall v :: v in Endings(lens, n) ==> v < Pow2(W)
  {
    hide Ending, Apart, Weight, Pow2;
    if n > 1 {
      EndingsSize(lens, n - 1);
      if lens[n - 1] > 0 {
        EndingFacts(lens, n - 1);
        var rest, more := Endings(lens, n - 1), Ending(lens, n - 1);
        forall v | v in rest
          ensures v !in more
        {
          var i := OneOfEndings(lens, n - 1, v);
          ApartEndings(lens, i, n - 1, v);
        }
        assert rest !! more;
      }
    }
  }

  lemma {:induction false} NumbersBelow(s: set<nat>, n: nat)
    requires forall v :: v in s ==> v < n
    ensures |s| <= n
    decreases n
  {
    if n == 0 {
      assert s == {};
    } else {
      NumbersBelow(s - {n - 1}, n - 1);
    }
  }

  /** If all used symbols but symbol 0 exclude each other, the Kraft sum is at most one and a half. */
  lemma DisjointWeigh(lens: seq<nat>)
    requires Lengths(lens) && Disjoint(lens, |lens|)
    ensures Kraft(lens) < 2 * Pow2(W)
  {
    hide Disjoint, Endings, LoadBelow, Pow2, Start;
    KraftIsLoad(lens, W + 1);
    if |lens| > 0 {
      LoadIs(lens, |lens|);
      EndingsSize(lens, |lens|);
      NumbersBelow(Endings(lens, |lens|), Pow2(W));
      FirstLoad(lens);
    } else {
      NoLoad(lens, W + 1);
      Pow2Monotone(0, W);
    }
  }

  lemma FirstLoad(lens: seq<nat>)
    requires Lengths(lens) && |lens| > 0
    ensures Load(lens, 1) < Pow2(W)
  {
    assert Load(lens, 0) == 0;
    if lens[0] > 0 {
      LighterThanOne(lens[0]);
    }
  }

  lemma {:induction false} NoLoad(lens: seq<nat>, l: nat)
    requires |lens| == 0 && l <= W + 1
    ensures LoadBelow(lens, 0, l) == 0
  {
    if l > 1 {
      NoLoad(lens, l - 1);
    }
  }
}
