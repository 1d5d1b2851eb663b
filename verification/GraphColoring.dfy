/** The three-colouring used by msdfgen's colouring by distance: a greedy initial colouring and incremental insertion of
    edges with bounded repair. */
module GraphColoring {
  import opened Options

  const MAX_RECOLOR_STEPS := 16
  const UNCOLORED := -1

  // ---------------------------------------------------------------- colour masks

  /** A subset of the colours 0, 1 and 2 as a three-bit mask. */
  type Mask = m: int | 0 <= m < 8

  predicate Has(m: Mask, c: int) {
    (c == 0 && m % 2 == 1) || (c == 1 && m / 2 % 2 == 1) || (c == 2 && m / 4 == 1)
  }

  function Bit(c: int): Mask
    requires 0 <= c < 3
  {
    if c == 0 then 1 else if c == 1 then 2 else 4
  }

  /** `m | 1 << c`, where the colour -1 of an uncoloured vertex contributes nothing. */
  function With(m: Mask, c: int): (r: Mask)
    requires -1 <= c < 3
    ensures forall d :: 0 <= d < 3 ==> (Has(r, d) <==> Has(m, d) || d == c)
  {
    if c == -1 || Has(m, c) then m else m + Bit(c)
  }

  /** `7 & ~m`. */
  function Complement(m: Mask): (r: Mask)
    ensures forall d :: 0 <= d < 3 ==> (Has(r, d) <==> !Has(m, d))
  {
    7 - m
  }

  /** `FIRST_POSSIBLE_COLOR`. */
  const FIRST_POSSIBLE_COLOR: seq<int> := [-1, 0, 1, 0, 2, 2, 1, 0]

  lemma FirstPossibleIsPossible(m: Mask)
    ensures m == 0 ==> FIRST_POSSIBLE_COLOR[m] == -1
    ensures m != 0 ==> 0 <= FIRST_POSSIBLE_COLOR[m] < 3 && Has(m, FIRST_POSSIBLE_COLOR[m])
    ensures m == 0 <==> forall c :: 0 <= c < 3 ==> !Has(m, c)
  {
    assert Has(m, 0) == (m % 2 == 1) && Has(m, 1) == (m / 2 % 2 == 1) && Has(m, 2) == (m / 4 == 1);
  }

  // ---------------------------------------------------------------- graphs and colourings

  type Graph = array2<int>

  /** The contents of an adjacency matrix. */
  type Matrix = seq<seq<int>>

  ghost predicate Square(m: Matrix) {
    forall i :: 0 <= i < |m| ==> |m[i]| == |m|
  }

  /** `m` is what the `n` by `n` array `g` holds. */
  ghost predicate Is(g: Graph, n: nat, m: Matrix)
    reads g
  {
    g.Length0 == g.Length1 == n == |m| && Square(m) && forall i, j :: 0 <= i < n && 0 <= j < n ==> m[i][j] == g[i, j]
  }

  /** The matrix with the edge between `a` and `b` set to `e`. */
  ghost function WithEdge(m: Matrix, a: nat, b: nat, e: int): (r: Matrix)
    requires Square(m) && a < |m| && b < |m| && a != b
    ensures Square(r) && |r| == |m|
    ensures forall i, j :: 0 <= i < |m| && 0 <= j < |m| ==> r[i][j] == if {i, j} == {a, b} then e else m[i][j]
  {
    m[a := m[a][b := e]][b := m[b][a := e]]
  }

  /** An undirected graph without loops. */
  ghost predicate Undirected(m: Matrix) {
    Square(m) && (forall i, j :: 0 <= i < |m| && 0 <= j < |m| ==>
      m[i][j] == m[j][i]) && forall i :: 0 <= i < |m| ==> m[i][i] == 0
  }

  /** Adjacent coloured vertices have different colours. */
  ghost predicate Proper(m: Matrix, col: seq<int>)
    requires Square(m) && |col| == |m|
  {
    forall i, j :: 0 <= i < |m| && 0 <= j < |m| && m[i][j] != 0 && col[i] != UNCOLORED ==> col[i] != col[j]
  }

  ghost predicate InRange(col: seq<int>) {
    forall i :: 0 <= i < |col| ==> -1 <= col[i] < 3
  }

  ghost predicate Total(col: seq<int>) {
    forall i :: 0 <= i < |col| ==> 0 <= col[i] < 3
  }

  ghost predicate Distinct(s: seq<nat>) {
    forall k, l :: 0 <= k < l < |s| ==> s[k] != s[l]
  }

  /** The queue holds every uncoloured vertex once and nothing else. */
  ghost predicate QueueIsUncolored(q: seq<nat>, col: seq<int>) {
    && (forall k :: 0 <= k < |q| ==> q[k] < |col| && col[q[k]] == UNCOLORED)
    && (forall i :: 0 <= i < |col| && col[i] == UNCOLORED ==> i in q)
    && Distinct(q)
  }

  /** Colour `c` does not occur among the first `hi` vertices as a neighbour of `v`. */
  ghost predicate FreeUpTo(m: Matrix, col: seq<int>, v: nat, hi: nat, c: int)
    requires Square(m) && |col| == |m| && v < |m| && hi <= |m|
  {
    forall j :: 0 <= j < hi && m[v][j] != 0 ==> col[j] != c
  }

  /** The colours that do not occur there, as a mask. */
  ghost function FreeMask(m: Matrix, col: seq<int>, v: nat, hi: nat): (free: Mask)
    requires Square(m) && |col| == |m| && v < |m| && hi <= |m|
    ensures forall c :: 0 <= c < 3 ==> (Has(free, c) <==> FreeUpTo(m, col, v, hi, c))
  {
    (if FreeUpTo(m, col, v, hi, 0) then 1 else 0) + (if FreeUpTo(m, col, v, hi, 1) then 2 else 0)
      + if FreeUpTo(m, col, v, hi, 2) then 4 else 0
  }

  lemma MaskIsFree(m: Matrix, col: seq<int>, v: nat, hi: nat, mask: Mask)
    requires Square(m) && |col| == |m| && v < |m| && hi <= |m|
    requires forall c :: 0 <= c < 3 ==> (Has(mask, c) <==> FreeUpTo(m, col, v, hi, c))
    ensures mask == FreeMask(m, col, v, hi)
  {
    assert Has(mask, 0) == FreeUpTo(m, col, v, hi, 0) && Has(mask, 1) == FreeUpTo(m, col, v, hi, 1);
    assert Has(mask, 2) == FreeUpTo(m, col, v, hi, 2);
  }

  method VertexPossibleColors(coloring: array<int>, g: Graph, n: nat, v: nat, ghost m: Matrix) returns (possible: Mask)
    requires Is(g, n, m) && coloring.Length == n && v < n && InRange(coloring[..])
    ensures possible == FreeMask(m, coloring[..], v, n)
  {
    var used: Mask := 0;
    for i := 0 to n
      invariant forall c :: 0 <= c < 3 ==> (Has(used, c) <==> !FreeUpTo(m, coloring[..], v, i, c))
    {
      if g[v, i] != 0 {
        used := With(used, coloring[i]);
      }
    }
    possible := Complement(used);
    MaskIsFree(m, coloring[..], v, n, possible);
  }

  // ---------------------------------------------------------------- uncolouring

  /** The vertices in `lo..hi` that conflict with `v`, in order. */
  ghost function Conflicts(m: Matrix, col: seq<int>, v: nat, lo: nat, hi: nat): seq<nat>
    requires Square(m) && |col| == |m| && v < |m| && lo <= hi <= |m|
  {
    if lo == hi then []
    else Conflicts(m, col, v, lo, hi - 1) + (if m[v][hi - 1] != 0 && col[hi - 1] == col[v] then [hi - 1] else [])
  }

  /** The order in which they are queued: the later vertices first. */
  ghost function AllConflicts(m: Matrix, col: seq<int>, v: nat): seq<nat>
    requires Square(m) && |col| == |m| && v < |m|
  {
    Conflicts(m, col, v, v + 1, |m|) + Conflicts(m, col, v, 0, v)
  }

  /** `col` with the conflicting vertices in `lo..hi` uncoloured. */
  ghost function Uncolored(m: Matrix, col: seq<int>, v: nat, lo: nat, hi: nat): (r: seq<int>)
    requires Square(m) && |col| == |m| && v < |m|
    ensures |r| == |col|
  {
    seq(|col|, i requires 0 <= i < |col| =>
      if lo <= i < hi && i != v && m[v][i] != 0 && col[i] == col[v] then UNCOLORED else col[i])
  }

  /** Uncolours the conflicting vertices in `lo..hi` and appends them to the queue. */
  method UncolorRange(q: seq<nat>, coloring: array<int>, g: Graph, n: nat, v: nat, lo: nat, hi: nat, ghost m: Matrix)
    returns (q': seq<nat>)
    requires Is(g, n, m) && coloring.Length == n && v < n && lo <= hi <= n && (v < lo || hi <= v)
    modifies coloring
    ensures coloring[..] == Uncolored(m, old(coloring[..]), v, lo, hi)
    ensures q' == q + Conflicts(m, old(coloring[..]), v, lo, hi)
  {
    q' := q;
    ghost var was := coloring[..];
    for i := lo to hi
      invariant coloring[..] == Uncolored(m, was, v, lo, i)
      invariant q' == q + Conflicts(m, was, v, lo, i)
    {
      assert coloring[i] == coloring[..][i] && coloring[v] == coloring[..][v];
      if g[v, i] != 0 && coloring[i] == coloring[v] {
        coloring[i] := UNCOLORED;
        q' := q' + [i];
      }
    }
  }

  method UncolorSameNeighbors(q: seq<nat>, coloring: array<int>, g: Graph, n: nat, v: nat,
                              ghost m: Matrix) returns (q': seq<nat>)
    requires Is(g, n, m) && coloring.Length == n && v < n
    modifies coloring
    ensures coloring[..] == Uncolored(m, old(coloring[..]), v, 0, n)
    ensures q' == q + AllConflicts(m, old(coloring[..]), v)
  {
    ghost var was := coloring[..];
    q' := UncolorRange(q, coloring, g, n, v, v + 1, n, m);
    ghost var mid := coloring[..];
    q' := UncolorRange(q', coloring, g, n, v, 0, v, m);
    SameConflicts(m, was, mid, v, v);
  }

  /** Uncolouring later vertices does not change which earlier ones conflict. */
  lemma {:induction false} SameConflicts(m: Matrix, was: seq<int>, mid: seq<int>, v: nat, hi: nat)
    requires Square(m) && |was| == |mid| == |m| && v < |m| && hi <= v && forall k :: 0 <= k <= v ==> was[k] == mid[k]
    ensures Conflicts(m, mid, v, 0, hi) == Conflicts(m, was, v, 0, hi)
  {
    if hi > 0 {
      SameConflicts(m, was, mid, v, hi - 1);
    }
  }

  lemma {:induction false} ConflictsAre(m: Matrix, col: seq<int>, v: nat, lo: nat, hi: nat)
    requires Square(m) && |col| == |m| && v < |m| && lo <= hi <= |m|
    ensures forall x :: x in Conflicts(m, col, v, lo, hi) <==> lo <= x < hi && m[v][x] != 0 && col[x] == col[v]
    ensures Distinct(Conflicts(m, col, v, lo, hi))
  {
    if lo < hi {
      ConflictsAre(m, col, v, lo, hi - 1);
      DistinctConcat(Conflicts(m, col, v, lo, hi - 1), [hi - 1]);
    }
  }

  lemma DistinctConcat(s: seq<nat>, t: seq<nat>)
    requires Distinct(s) && Distinct(t) && forall x :: x in s ==> x !in t
    ensures Distinct(s + t)
  {
    forall k, l | 0 <= k < l < |s + t|
      ensures (s + t)[k] != (s + t)[l]
    {
      assert k < |s| ==> (s + t)[k] in s;
      assert l >= |s| ==> (s + t)[l] in t;
    }
  }

  /** Uncolouring the conflicting neighbours of a freshly coloured vertex restores properness and keeps the queue
      exact. */
  lemma UncoloringKeeps(m: Matrix, col: seq<int>, v: nat, q: seq<nat>)
    requires Undirected(m) && |col| == |m| && v < |m| && InRange(col) && col[v] != UNCOLORED
    requires Proper(m, col[v := UNCOLORED]) && QueueIsUncolored(q, col)
    ensures InRange(Uncolored(m, col, v, 0, |m|)) && Proper(m, Uncolored(m, col, v, 0, |m|))
    ensures QueueIsUncolored(q + AllConflicts(m, col, v), Uncolored(m, col, v, 0, |m|))
  {
    hide Conflicts;
    UncoloringIsProper(m, col, v);
    ConflictsAre(m, col, v, v + 1, |m|);
    ConflictsAre(m, col, v, 0, v);
    var hi, lo, next := Conflicts(m, col, v, v + 1, |m|), Conflicts(m, col, v, 0, v), Uncolored(m, col, v, 0, |m|);
    assert AllConflicts(m, col, v) == hi + lo;
    assert forall x :: x in q ==> col[x] == UNCOLORED;
    DistinctConcat(hi, lo);
    assert forall x :: x in hi + lo ==> x in hi || x in lo;
    DistinctConcat(q, hi + lo);
    forall k | 0 <= k < |q + (hi + lo)|
      ensures (q + (hi + lo))[k] < |m| && next[(q + (hi + lo))[k]] == UNCOLORED
    {
      var x := (q + (hi + lo))[k];
      assert x in q || x in hi || x in lo;
    }
  }

  lemma UncoloringIsProper(m: Matrix, col: seq<int>, v: nat)
    requires Undirected(m) && |col| == |m| && v < |m| && InRange(col) && col[v] != UNCOLORED
    requires Proper(m, col[v := UNCOLORED])
    ensures InRange(Uncolored(m, col, v, 0, |m|)) && Proper(m, Uncolored(m, col, v, 0, |m|))
  {
    var base, next := col[v := UNCOLORED], Uncolored(m, col, v, 0, |m|);
    forall i, j | 0 <= i < |m| && 0 <= j < |m| && m[i][j] != 0 && next[i] != UNCOLORED
      ensures next[i] != next[j]
    {
      assert m[j][i] != 0;
      if i != v && j != v {
        assert base[i] != base[j];
      }
    }
  }

  /** Giving an uncoloured vertex a free colour keeps the colouring proper. */
  lemma FreeColorIsProper(m: Matrix, col: seq<int>, v: nat, c: int)
    requires Undirected(m) && |col| == |m| && v < |m|
    requires 0 <= c < 3 && FreeUpTo(m, col, v, |m|, c) && Proper(m, col[v := UNCOLORED])
    ensures Proper(m, col[v := c])
  {
    var base, next := col[v := UNCOLORED], col[v := c];
    forall i, j | 0 <= i < |m| && 0 <= j < |m| && m[i][j] != 0 && next[i] != UNCOLORED
      ensures next[i] != next[j]
    {
      assert m[j][i] != 0;
      if i != v && j != v {
        assert base[i] != base[j];
      }
    }
  }

  /** Taking the first vertex off the queue and giving it any colour leaves an exact queue. */
  lemma PopKeepsQueue(q: seq<nat>, col: seq<int>, c: int)
    requires q != [] && 0 <= c < 3 && QueueIsUncolored(q, col)
    ensures q[0] < |col| && col[q[0]] == UNCOLORED && QueueIsUncolored(q[1..], col[q[0] := c])
  {
    var col' := col[q[0] := c];
    forall i | 0 <= i < |col| && col'[i] == UNCOLORED
      ensures i in q[1..]
    {
      assert i in q && i != q[0];
      var k :| 0 <= k < |q| && q[k] == i;
      assert q[1..][k - 1] == i;
    }
  }

  // ---------------------------------------------------------------- repair

  /** What the repair loop works on: the queue, the colouring and the number of forced recolourings so far. */
  datatype State = State(queue: seq<nat>, col: seq<int>, step: nat)

  /** The invariant of the repair loop: the partial colouring is proper, the queue is exact and `a` keeps its colour. */
  ghost predicate Repairing(m: Matrix, s: State, a: nat, aColor: int) {
    && Undirected(m) && |s.col| == |m| && a < |m|
    && InRange(s.col) && Proper(m, s.col) && QueueIsUncolored(s.queue, s.col)
    && s.col[a] == aColor && 0 <= aColor < 3
  }

  /** The step whose number modulo 3 is the colour forced on `v`: the next one, unless that is the colour of an
      adjacent `a`. */
  function ForcedStep(m: Matrix, step: nat, v: nat, a: nat, aColor: int): (used: nat)
    requires v < |m| && a < |m[v]|
    ensures m[v][a] != 0 ==> used % 3 != aColor
  {
    if m[v][a] != 0 && step % 3 == aColor then step + 1 else step
  }

  /** One round: the vertex at the head of the queue gets a free colour, or else a forced one, and then the neighbours
      that have it lose theirs. */
  ghost function Round(m: Matrix, s: State, a: nat, aColor: int): (r: State)
    requires Repairing(m, s, a, aColor) && s.queue != []
    ensures Repairing(m, r, a, aColor)
    ensures r.step > s.step || (r.step == s.step && |r.queue| < |s.queue|)
  {
    RoundKeeps(m, s, a, aColor);
    RoundOf(m, s, a, aColor)
  }

  ghost function RoundOf(m: Matrix, s: State, a: nat, aColor: int): State
    requires Square(m) && |s.col| == |m| && a < |m| && s.queue != [] && s.queue[0] < |m|
  {
    var v, rest := s.queue[0], s.queue[1..];
    var free := FreeMask(m, s.col, v, |m|);
    if free != 0 then State(rest, s.col[v := FIRST_POSSIBLE_COLOR[free]], s.step)
    else
      var used := ForcedStep(m, s.step, v, a, aColor);
      var col := s.col[v := used % 3];
      State(rest + AllConflicts(m, col, v), Uncolored(m, col, v, 0, |m|), used + 1)
  }

  lemma RoundKeeps(m: Matrix, s: State, a: nat, aColor: int)
    requires Repairing(m, s, a, aColor) && s.queue != []
    ensures s.queue[0] < |m| && Repairing(m, RoundOf(m, s, a, aColor), a, aColor)
    ensures var r := RoundOf(m, s, a, aColor); r.step > s.step || (r.step == s.step && |r.queue| < |s.queue|)
  {
    var v := s.queue[0];
    var free := FreeMask(m, s.col, v, |m|);
    FirstPossibleIsPossible(free);
    assert s.col[v := UNCOLORED] == s.col;
    if free != 0 {
      FreeColorIsProper(m, s.col, v, FIRST_POSSIBLE_COLOR[free]);
      PopKeepsQueue(s.queue, s.col, FIRST_POSSIBLE_COLOR[free]);
    } else {
      var col := s.col[v := ForcedStep(m, s.step, v, a, aColor) % 3];
      assert col[v := UNCOLORED] == s.col;
      PopKeepsQueue(s.queue, s.col, col[v]);
      UncoloringKeeps(m, col, v, s.queue[1..]);
    }
  }

  /** The state in which the repair loop ends. */
  ghost function Repaired(m: Matrix, s: State, a: nat, aColor: int): (r: State)
    requires Repairing(m, s, a, aColor)
    ensures Repairing(m, r, a, aColor) && (r.queue == [] || r.step >= MAX_RECOLOR_STEPS)
    decreases MAX_RECOLOR_STEPS - s.step, |s.queue|
  {
    if s.queue == [] || s.step >= MAX_RECOLOR_STEPS then s else Repaired(m, Round(m, s, a, aColor), a, aColor)
  }

  /** The state in which it starts: `b` is given a colour other than that of `a`, and its conflicting neighbours
      none. */
  ghost function Repairable(m: Matrix, col: seq<int>, a: nat, b: nat): (s: State)
    requires Conflicting(m, col, a, b)
    ensures Repairing(m, s, a, col[a])
  {
    StartKeeps(m, col, a, b);
    StartOf(m, col, a, b)
  }

  ghost function StartOf(m: Matrix, col: seq<int>, a: nat, b: nat): State
    requires Square(m) && |col| == |m| && a < |m| && b < |m| && 0 <= col[a] < 3
  {
    var mid := col[b := FIRST_POSSIBLE_COLOR[Complement(Bit(col[a]))]];
    State(AllConflicts(m, mid, b), Uncolored(m, mid, b, 0, |m|), 0)
  }

  /** Only `b` is in conflict, and one of its neighbours is `a`. */
  ghost predicate Conflicting(m: Matrix, col: seq<int>, a: nat, b: nat) {
    && Undirected(m) && |col| == |m| && Total(col) && a < |m| && b < |m| && a != b && col[a] == col[b]
    && Proper(m, col[b := UNCOLORED])
  }

  lemma StartKeeps(m: Matrix, col: seq<int>, a: nat, b: nat)
    requires Conflicting(m, col, a, b)
    ensures Repairing(m, StartOf(m, col, a, b), a, col[a])
  {
    FirstPossibleIsPossible(Complement(Bit(col[a])));
    var mid := col[b := FIRST_POSSIBLE_COLOR[Complement(Bit(col[a]))]];
    assert mid[b := UNCOLORED] == col[b := UNCOLORED];
    assert QueueIsUncolored([], mid);
    UncoloringKeeps(m, mid, b, []);
    assert [] + AllConflicts(m, mid, b) == AllConflicts(m, mid, b);
  }

  method RepairOne(q: seq<nat>, coloring: array<int>, g: Graph, n: nat, step: nat, a: nat, ghost m: Matrix)
    returns (q': seq<nat>, step': nat)
    requires Is(g, n, m) && coloring.Length == n && a < n && q != []
    requires Repairing(m, State(q, coloring[..], step), a, coloring[a])
    modifies coloring
    ensures State(q', coloring[..], step') == old(Round(m, State(q, coloring[..], step), a, coloring[a]))
  {
    hide Proper, QueueIsUncolored, Undirected;
    var i := q[0];
    q' := q[1..];
    step' := step;
    ghost var was := coloring[..];
    assert i < n && i != a by {
      PopKeepsQueue(q, was, 0);
    }
    var possible := VertexPossibleColors(coloring, g, n, i, m);
    if possible != 0 {
      coloring[i] := FIRST_POSSIBLE_COLOR[possible];
      assert coloring[..] == was[i := FIRST_POSSIBLE_COLOR[possible]];
      return;
    }
    while true
      invariant step <= step' <= ForcedStep(m, step, i, a, was[a])
      invariant coloring[..] == was[i := coloring[i]]
      decreases ForcedStep(m, step, i, a, was[a]) - step'
    {
      coloring[i] := step' % 3;
      step' := step' + 1;
      if !(g[i, a] != 0 && coloring[i] == coloring[a]) {
        break;
      }
    }
    assert coloring[..] == was[i := ForcedStep(m, step, i, a, was[a]) % 3];
    q' := UncolorSameNeighbors(q', coloring, g, n, i, m);
  }

  /** The repair loop on the copied colouring. */
  method Repair(coloring: array<int>, g: Graph, n: nat, a: nat, b: nat, ghost m: Matrix) returns (done: bool)
    requires Is(g, n, m) && coloring.Length == n && Conflicting(m, coloring[..], a, b)
    modifies coloring
    ensures var end := old(Repaired(m, Repairable(m, coloring[..], a, b), a, coloring[a]));
            coloring[..] == end.col && done == (end.queue == [])
  {
    hide Proper, QueueIsUncolored, Undirected, Round;
    ghost var s0, aColor := Repairable(m, coloring[..], a, b), coloring[a];
    FirstPossibleIsPossible(Complement(Bit(coloring[a])));
    ghost var was := coloring[..];
    coloring[b] := FIRST_POSSIBLE_COLOR[Complement(Bit(coloring[a]))];
    assert coloring[..] == was[b := FIRST_POSSIBLE_COLOR[Complement(Bit(aColor))]];
    var uncolored := UncolorSameNeighbors([], coloring, g, n, b, m);
    assert State(uncolored, coloring[..], 0) == s0 by {
      assert forall t: seq<nat> :: [] + t == t;
    }
    var step := 0;
    while uncolored != [] && step < MAX_RECOLOR_STEPS
      invariant Repairing(m, State(uncolored, coloring[..], step), a, aColor)
      invariant Repaired(m, State(uncolored, coloring[..], step), a, aColor) == Repaired(m, s0, a, aColor)
      decreases MAX_RECOLOR_STEPS - step, |uncolored|
    {
      uncolored, step := RepairOne(uncolored, coloring, g, n, step, a, m);
    }
    done := uncolored == [];
  }

  // ---------------------------------------------------------------- adding an edge

  /** The graph a caller hands over: undirected, without loops, properly and totally coloured. */
  ghost predicate Colored(m: Matrix, col: seq<int>) {
    Undirected(m) && |col| == |m| && Total(col) && Proper(m, col)
  }

  /** The outcome of adding an edge: success, with the new colouring, or failure. */
  ghost function Added(m: Matrix, col: seq<int>, a: nat, b: nat): (r: Option<seq<int>>)
    requires Colored(m, col) && a < |m| && b < |m| && a != b
    ensures r.Some? ==> Colored(WithEdge(m, a, b, 1), r.value) && r.value[a] == col[a]
    ensures r.None? ==> m[a][b] == m[b][a] == 0
    ensures r.None? ==> col[a] == col[b] && forall c :: 0 <= c < 3 && c != col[a] ==> !FreeUpTo(m, col, b, |m|, c)
  {
    var m' := WithEdge(m, a, b, 1);
    var free := FreeMask(m', col, b, |m|);
    AddingEdge(m, col, a, b);
    if col[a] != col[b] then Some(col)
    else if free != 0 then Some(col[b := FIRST_POSSIBLE_COLOR[free]])
    else
      var end := Repaired(m', Repairable(m', col, a, b), a, col[a]);
      if end.queue == [] then Some(end.col) else None
  }

  lemma StaysUndirected(m: Matrix, a: nat, b: nat)
    requires Undirected(m) && a < |m| && b < |m| && a != b
    ensures Undirected(WithEdge(m, a, b, 1))
  {
    hide WithEdge;
  }

  lemma OtherColorsFree(m: Matrix, col: seq<int>, a: nat, b: nat)
    requires Square(m) && |col| == |m| && a < |m| && b < |m| && a != b
    ensures forall c :: FreeUpTo(WithEdge(m, a, b, 1), col, b, |m|, c) <==> FreeUpTo(m, col, b, |m|, c) && c != col[a]
  {
    hide WithEdge;
  }

  lemma AddingEdge(m: Matrix, col: seq<int>, a: nat, b: nat)
    requires Colored(m, col) && a < |m| && b < |m| && a != b
    ensures var m' := WithEdge(m, a, b, 1);
            && (col[a] != col[b] ==> Colored(m', col))
            && (col[a] == col[b] ==> Conflicting(m', col, a, b) && m[a][b] == m[b][a] == 0)
            && var free := FreeMask(m', col, b, |m|);
               && (col[a] == col[b] && free != 0 ==>
                   Colored(m', col[b := FIRST_POSSIBLE_COLOR[free]]) && FIRST_POSSIBLE_COLOR[free] != col[a])
               && (free == 0 ==> forall c :: 0 <= c < 3 && c != col[a] ==> !FreeUpTo(m, col, b, |m|, c))
  {
    hide WithEdge, FreeMask, FreeUpTo;
    var m' := WithEdge(m, a, b, 1);
    var free := FreeMask(m', col, b, |m|);
    FirstPossibleIsPossible(free);
    StaysUndirected(m, a, b);
    OtherColorsFree(m, col, a, b);
    if col[a] == col[b] {
      assert m[a][b] == 0 && m[b][a] == 0;
      assert Proper(m', col[b := UNCOLORED]);
      if free != 0 {
        FreeColorIsProper(m', col, b, FIRST_POSSIBLE_COLOR[free]);
      }
    }
  }

  /** Of the colours that may be chosen, the one taken when `x` alone is excluded, when two are, and when none is. */
  lemma ChosenColor(m: Matrix, col: seq<int>, v: nat, x: int)
    requires Square(m) && |col| == |m| && v < |m| && 0 <= x < 3
    ensures var c := FIRST_POSSIBLE_COLOR[FreeMask(m, col, v, |m|)];
            var y, z := (x + 1) % 3, (x + 2) % 3;
            && (!FreeUpTo(m, col, v, |m|, x) && FreeUpTo(m, col, v, |m|, y) && FreeUpTo(m, col, v, |m|, z) ==> c == y)
            && (FreeUpTo(m, col, v, |m|, x) && !FreeUpTo(m, col, v, |m|, y) && !FreeUpTo(m, col, v, |m|, z) ==> c == x)
            && ((forall d :: 0 <= d < 3 ==> FreeUpTo(m, col, v, |m|, d)) ==> c == 0)
  {
    hide FreeUpTo;
  }

  /** The outcomes without repair: ends of different colours keep them; if they share a colour and no neighbour of `b`
      has another one, `b` gets the next colour, cyclically; and if a single colour is left for `b`, it gets that
      one. */
  ghost predicate Direct(m: Matrix, was: seq<int>, a: nat, b: nat, added: bool, now: seq<int>)
    requires Square(m) && |was| == |m| && a < |m| && b < |m|
  {
    && (was[a] != was[b] ==> added && now == was)
    && (was[a] == was[b] && (forall j :: 0 <= j < |m| && m[b][j] != 0 ==> was[j] == was[a]) ==>
          added && now == was[b := (was[a] + 1) % 3])
    && forall c :: 0 <= c < 3 && was[a] == was[b] != c && FreeUpTo(m, was, b, |m|, c)
                   && !FreeUpTo(m, was, b, |m|, 3 - c - was[a]) ==>
         added && now == was[b := c]
  }

  ghost function After(m: Matrix, col: seq<int>, a: nat, b: nat): seq<int>
    requires Colored(m, col) && a < |m| && b < |m| && a != b
  {
    match Added(m, col, a, b) case Some(now) => now case None => col
  }

  lemma AddedDirectly(m: Matrix, col: seq<int>, a: nat, b: nat)
    requires Colored(m, col) && a < |m| && b < |m| && a != b
    ensures Direct(m, col, a, b, Added(m, col, a, b).Some?, After(m, col, a, b))
  {
    assert Square(m) && |col| == |m|;
    hide FreeUpTo, WithEdge, FreeMask, Colored, Added;
    if col[a] != col[b] {
      AddedAtOnce(m, col, a, b);
    } else {
      if forall j :: 0 <= j < |m| && m[b][j] != 0 ==> col[j] == col[a] {
        AddedAlone(m, col, a, b);
      }
      forall c | 0 <= c < 3 && c != col[a] && FreeUpTo(m, col, b, |m|, c) && !FreeUpTo(m, col, b, |m|, 3 - c - col[a])
        ensures Added(m, col, a, b) == Some(col[b := c])
      {
        AddedLast(m, col, a, b, c);
      }
    }
  }

  lemma AddedAtOnce(m: Matrix, col: seq<int>, a: nat, b: nat)
    requires Colored(m, col) && a < |m| && b < |m| && a != b && col[a] != col[b]
    ensures Added(m, col, a, b) == Some(col)
  {
  }

  /** What the free colours decide. */
  lemma AddedFree(m: Matrix, col: seq<int>, a: nat, b: nat)
    requires Colored(m, col) && a < |m| && b < |m| && a != b && col[a] == col[b]
    ensures var free := FreeMask(WithEdge(m, a, b, 1), col, b, |m|);
            free != 0 ==> Added(m, col, a, b) == Some(col[b := FIRST_POSSIBLE_COLOR[free]])
  {
    hide FreeMask, WithEdge;
  }

  lemma AddedAlone(m: Matrix, col: seq<int>, a: nat, b: nat)
    requires Colored(m, col) && a < |m| && b < |m| && a != b && col[a] == col[b]
    requires forall j :: 0 <= j < |m| && m[b][j] != 0 ==> col[j] == col[a]
    ensures Added(m, col, a, b) == Some(col[b := (col[a] + 1) % 3])
  {
    assert forall c :: 0 <= c < 3 && c != col[a] ==> FreeUpTo(m, col, b, |m|, c);
    assert Square(m);
    hide FreeUpTo, WithEdge, FreeMask, Added, Proper, Undirected, Square;
    OtherColorsFree(m, col, a, b);
    ChosenColor(WithEdge(m, a, b, 1), col, b, col[a]);
    FirstPossibleIsPossible(FreeMask(WithEdge(m, a, b, 1), col, b, |m|));
    AddedFree(m, col, a, b);
  }

  lemma AddedLast(m: Matrix, col: seq<int>, a: nat, b: nat, c: int)
    requires Colored(m, col) && a < |m| && b < |m| && a != b && col[a] == col[b]
    requires 0 <= c < 3 && c != col[a] && FreeUpTo(m, col, b, |m|, c) && !FreeUpTo(m, col, b, |m|, 3 - c - col[a])
    ensures Added(m, col, a, b) == Some(col[b := c])
  {
    assert Square(m);
    hide FreeUpTo, WithEdge, FreeMask, Added, Proper, Undirected, Square;
    OtherColorsFree(m, col, a, b);
    ChosenColor(WithEdge(m, a, b, 1), col, b, c);
    FirstPossibleIsPossible(FreeMask(WithEdge(m, a, b, 1), col, b, |m|));
    AddedFree(m, col, a, b);
  }

  /** Adds the edge between `a` and `b` if the colouring can be repaired within the step limit. On success the extended
      graph is properly and totally coloured and `a` keeps its colour; on failure graph and colouring are as before. */
  method TryAddEdge(coloring: array<int>, g: Graph, n: nat, a: nat, b: nat, buffer: array<int>,
                    ghost m: Matrix) returns (added: bool)
    requires Is(g, n, m) && coloring.Length == n && buffer.Length == n && buffer != coloring && a < n && b < n && a != b
    requires Colored(m, coloring[..])
    modifies coloring, g, buffer
    ensures added == old(Added(m, coloring[..], a, b)).Some? && coloring[..] == old(After(m, coloring[..], a, b))
    ensures Is(g, n, if added then WithEdge(m, a, b, 1) else m)
    ensures Colored(if added then WithEdge(m, a, b, 1) else m, coloring[..]) && coloring[a] == old(coloring[a])
    ensures Direct(m, old(coloring[..]), a, b, added, coloring[..])
  {
    AddedDirectly(m, coloring[..], a, b);
    hide Direct, WithEdge, Is, Added, After;
    added := RecolorForEdge(coloring, g, n, a, b, buffer, m);
  }

  method RecolorForEdge(coloring: array<int>, g: Graph, n: nat, a: nat, b: nat, buffer: array<int>,
                        ghost m: Matrix) returns (added: bool)
    requires Is(g, n, m) && coloring.Length == n && buffer.Length == n && buffer != coloring && a < n && b < n && a != b
    requires Colored(m, coloring[..])
    modifies coloring, g, buffer
    ensures added == old(Added(m, coloring[..], a, b)).Some? && coloring[..] == old(After(m, coloring[..], a, b))
    ensures Is(g, n, if added then WithEdge(m, a, b, 1) else m)
    ensures Colored(if added then WithEdge(m, a, b, 1) else m, coloring[..]) && coloring[a] == old(coloring[a])
  {
    hide FreeUpTo, Proper, Undirected, Repaired, Repairable, WithEdge, FreeMask, Square, Conflicting;
    ghost var was, m' := coloring[..], WithEdge(m, a, b, 1);
    AddingEdge(m, was, a, b);
    g[a, b] := 1;
    g[b, a] := 1;
    assert Is(g, n, m');
    if coloring[a] != coloring[b] {
      return true;
    }
    var possible := VertexPossibleColors(coloring, g, n, b, m');
    if possible != 0 {
      coloring[b] := FIRST_POSSIBLE_COLOR[possible];
      assert coloring[..] == was[b := FIRST_POSSIBLE_COLOR[possible]];
      return true;
    }
    CopyColors(coloring, buffer);
    added := Repair(buffer, g, n, a, b, m');
    if !added {
      g[a, b] := 0;
      g[b, a] := 0;
      return;
    }
    CopyColors(buffer, coloring);
  }

  method CopyColors(from: array<int>, to: array<int>)
    requires from.Length == to.Length && from != to
    modifies to
    ensures to[..] == from[..] == old(from[..])
  {
    forall k | 0 <= k < from.Length {
      to[k] := from[k];
    }
  }

  // ---------------------------------------------------------------- initial colouring

  /** `seedExtract2`: the low bit of the seed, and the seed without it. */
  function SeedExtract2(seed: nat): (r: (int, nat))
    ensures 0 <= r.0 < 2
  {
    (seed % 2, seed / 2)
  }

  function SeedExtract3(seed: nat): (r: (int, nat))
    ensures 0 <= r.0 < 3
  {
    (seed % 3, seed / 3)
  }

  /** The colour picked from a non-empty mask, and the seed afterwards; an empty mask gives colour 0. */
  function PickColor(possible: Mask, seed: nat, i: nat): (r: (int, nat))
    ensures 0 <= r.0 < 3 && (possible != 0 ==> Has(possible, r.0))
  {
    match possible
    case 1 => (0, seed)
    case 2 => (1, seed)
    case 3 => SeedExtract2(seed)
    case 4 => (2, seed)
    case 5 => var (v, s) := SeedExtract2(seed); (if v == 0 then 2 else 0, s)
    case 6 => var (v, s) := SeedExtract2(seed); (v + 1, s)
    case 7 => var (v, s) := SeedExtract3(seed); ((v + i) % 3, s)
    case _ => (0, seed)
  }

  /** Some colour is left for vertex `i` by its earlier neighbours. */
  ghost predicate ColorLeft(m: Matrix, col: seq<int>, i: nat)
    requires Square(m) && |col| == |m| && i < |m|
  {
    exists c :: 0 <= c < 3 && FreeUpTo(m, col, i, i, c)
  }

  /** Vertex `i` has the colour that the seed picks from those left, and the seed is used up accordingly. */
  ghost predicate Picked(m: Matrix, col: seq<int>, i: nat, seed: nat, seed': nat)
    requires Square(m) && |col| == |m| && i < |m|
  {
    (col[i], seed') == PickColor(FreeMask(m, col, i, i), seed, i)
  }

  /** Colours of later vertices do not matter. */
  lemma PickedStays(m: Matrix, was: seq<int>, now: seq<int>, i: nat, k: nat, seed: nat, seed': nat)
    requires Square(m) && |was| == |now| == |m| && k < i < |m| && now == was[i := now[i]]
    ensures Picked(m, was, k, seed, seed') ==> Picked(m, now, k, seed, seed')
  {
    hide PickColor;
    assert forall c :: FreeUpTo(m, now, k, k, c) <==> FreeUpTo(m, was, k, k, c);
    MaskIsFree(m, now, k, k, FreeMask(m, was, k, k));
  }

  /** The greedy colouring is total, and it is proper exactly when no vertex sees all three colours before it. */
  method ColorSecondDegreeGraph(coloring: array<int>, g: Graph, n: nat, seed: nat,
                                ghost m: Matrix) returns (ghost seeds: seq<nat>)
    requires Is(g, n, m) && coloring.Length == n && Undirected(m)
    modifies coloring
    ensures Total(coloring[..])
    ensures Proper(m, coloring[..]) <==> forall i :: 0 <= i < n ==> ColorLeft(m, coloring[..], i)
    ensures (forall i :: 0 <= i < n ==> AtMostTwoBefore(m, i)) ==> Proper(m, coloring[..])
    ensures |seeds| == n + 1 && seeds[0] == seed
    ensures forall i :: 0 <= i < n ==> Picked(m, coloring[..], i, seeds[i], seeds[i + 1])
  {
    hide PickColor, FreeMask;
    ghost var seed0 := seed;
    var seed := seed;
    seeds := [seed];
    for i := 0 to n
      invariant |seeds| == i + 1 && seeds[0] == seed0 && seeds[i] == seed
      invariant forall k :: 0 <= k < i ==> 0 <= coloring[k] < 3 && Picked(m, coloring[..], k, seeds[k], seeds[k + 1])
    {
      var possible: Mask := 7;
      for j := 0 to i
        invariant forall c :: 0 <= c < 3 ==> (Has(possible, c) <==> FreeUpTo(m, coloring[..], i, j, c))
      {
        if g[i, j] != 0 {
          possible := Complement(With(Complement(possible), coloring[j]));
        }
      }
      var (color, s) := PickColor(possible, seed, i);
      ghost var was := coloring[..];
      coloring[i] := color;
      seed := s;
      seeds := seeds + [s];
      assert forall c :: FreeUpTo(m, coloring[..], i, i, c) <==> FreeUpTo(m, was, i, i, c);
      MaskIsFree(m, coloring[..], i, i, possible);
      forall k | 0 <= k < i
        ensures Picked(m, coloring[..], k, seeds[k], seeds[k + 1])
      {
        PickedStays(m, was, coloring[..], i, k, seeds[k], seeds[k + 1]);
      }
    }
    assert forall k :: 0 <= k < n ==> coloring[..][k] == coloring[k];
    GreedyProper(m, coloring[..], seeds);
    forall i | 0 <= i < n && AtMostTwoBefore(m, i)
      ensures ColorLeft(m, coloring[..], i)
    {
      TwoNeighborsLeaveAColor(m, coloring[..], i);
    }
  }

  lemma GreedyProper(m: Matrix, col: seq<int>, seeds: seq<nat>)
    requires Undirected(m) && |col| == |m| && |seeds| == |m| + 1
    requires forall k :: 0 <= k < |m| ==> Picked(m, col, k, seeds[k], seeds[k + 1])
    ensures Total(col)
    ensures Proper(m, col) <==> forall i :: 0 <= i < |m| ==> ColorLeft(m, col, i)
  {
    hide PickColor, FreeMask;
    forall k | 0 <= k < |m|
      ensures 0 <= col[k] < 3 && (ColorLeft(m, col, k) ==> FreeUpTo(m, col, k, k, col[k]))
    {
      FirstPossibleIsPossible(FreeMask(m, col, k, k));
      assert Picked(m, col, k, seeds[k], seeds[k + 1]);
    }
    if Proper(m, col) {
      forall i | 0 <= i < |m|
        ensures ColorLeft(m, col, i)
      {
        assert FreeUpTo(m, col, i, i, col[i]);
      }
    }
    if forall i :: 0 <= i < |m| ==> ColorLeft(m, col, i) {
      forall i, j | 0 <= i < |m| && 0 <= j < |m| && m[i][j] != 0 && col[i] != UNCOLORED
        ensures col[i] != col[j]
      {
        assert m[j][i] != 0 && ColorLeft(m, col, i) && ColorLeft(m, col, j);
      }
    }
  }

  /** Vertex `i` has at most two earlier neighbours. */
  ghost predicate AtMostTwoBefore(m: Matrix, i: nat)
    requires Square(m) && i < |m|
  {
    exists x: nat, y: nat :: x < |m| && y < |m| && OnlyBefore(m, i, x, y)
  }

  ghost predicate OnlyBefore(m: Matrix, i: nat, x: nat, y: nat)
    requires Square(m) && i < |m|
  {
    forall j :: 0 <= j < i && m[i][j] != 0 ==> j == x || j == y
  }

  /** A vertex with at most two earlier neighbours never sees all three colours. */
  lemma TwoNeighborsLeaveAColor(m: Matrix, col: seq<int>, i: nat)
    requires Square(m) && |col| == |m| && i < |m| && AtMostTwoBefore(m, i)
    ensures ColorLeft(m, col, i)
  {
    var x: nat, y: nat :| x < |m| && y < |m| && OnlyBefore(m, i, x, y);
    var c := if col[x] != 0 && col[y] != 0 then 0 else if col[x] != 1 && col[y] != 1 then 1 else 2;
    assert FreeUpTo(m, col, i, i, c);
  }

  /** The guarantee cannot be had for every graph: with four mutually adjacent vertices there is no proper
      three-colouring, so neither the greedy colouring nor any other can be proper. */
  lemma FourCliqueIsNot3Colorable(m: Matrix, clique: seq<nat>, col: seq<int>)
    requires Square(m) && |m| == |col| && Total(col) && |clique| == 4 && forall i :: 0 <= i < 4 ==> clique[i] < |m|
    requires forall i, j :: 0 <= i < j < 4 ==> m[clique[i]][clique[j]] != 0
    ensures !Proper(m, col)
  {
    var c := seq(4, i requires 0 <= i < 4 => col[clique[i]]);
    var i := if c[0] in [c[1], c[2], c[3]] then 0 else if c[1] in [c[2], c[3]] then 1 else 2;
    var j :| i < j < 4 && c[i] == c[j];
    assert m[clique[i]][clique[j]] != 0;
  }

  // ---------------------------------------------------------------- which colours are tried

  /** The colour a seed picks: the only one there is; if `z` alone is excluded, one of the other two, counted from
      behind `z` by the seed's low bit; and if none is, one of three, counted from the vertex by the seed's
      remainder. */
  lemma PickedColor(m: Matrix, col: seq<int>, i: nat, seed: nat, seed': nat, z: int)
    requires Square(m) && |col| == |m| && i < |m| && Picked(m, col, i, seed, seed') && 0 <= z < 3
    ensures var y, x := (z + 1) % 3, (z + 2) % 3;
            var zFree, yFree, xFree := FreeUpTo(m, col, i, i, z), FreeUpTo(m, col, i, i, y), FreeUpTo(m, col, i, i, x);
            && (zFree && yFree && xFree ==> col[i] == (seed % 3 + i) % 3 && seed' == seed / 3)
            && (!zFree && yFree && xFree ==> col[i] == (z + 1 + seed % 2) % 3 && seed' == seed / 2)
            && (zFree && !yFree && !xFree ==> col[i] == z && seed' == seed)
            && (!zFree && !yFree && !xFree ==> col[i] == 0 && seed' == seed)
  {
    hide FreeUpTo;
  }

  /** Repair starts with the colour behind that of `a`. */
  lemma RepairStart(m: Matrix, col: seq<int>, a: nat, b: nat)
    requires Conflicting(m, col, a, b)
    ensures var s := Repairable(m, col, a, b);
            && s.col[b] == (col[a] + 1) % 3 && s.step == 0
            && forall i :: 0 <= i < |m| && i != b ==>
                 s.col[i] == if m[b][i] != 0 && col[i] == (col[a] + 1) % 3 then UNCOLORED else col[i]
  {
  }

  /** A vertex without a free colour is forced to the colours 0, 1 and 2 in turn, counted over all forced vertices, but
      skips that of an adjacent `a`. */
  lemma ForcedColor(m: Matrix, s: State, a: nat, aColor: int)
    requires Repairing(m, s, a, aColor) && s.queue != []
    ensures var v, r := s.queue[0], Round(m, s, a, aColor);
            var skip := if m[v][a] != 0 && s.step % 3 == aColor then 1 else 0;
            (forall c :: 0 <= c < 3 ==> !FreeUpTo(m, s.col, v, |m|, c)) ==>
              r.col[v] == (s.step + skip) % 3 && r.step == s.step + skip + 1
  {
    RoundKeeps(m, s, a, aColor);
    FirstPossibleIsPossible(FreeMask(m, s.col, s.queue[0], |m|));
    hide FreeUpTo, Proper, Undirected, InRange, QueueIsUncolored;
  }

  /** Repair gives up after sixteen forced colours, where a skipped one counts. */
  lemma {:induction false} SixteenSteps(m: Matrix, s: State, a: nat, aColor: int)
    requires Repairing(m, s, a, aColor) && s.step <= 17
    ensures Repaired(m, s, a, aColor).step <= 17
    ensures Repaired(m, s, a, aColor).queue != [] ==> Repaired(m, s, a, aColor).step >= 16
    decreases MAX_RECOLOR_STEPS - s.step, |s.queue|
  {
    hide Repairing, FreeMask;
    if s.queue != [] && s.step < MAX_RECOLOR_STEPS {
      RoundKeeps(m, s, a, aColor);
      SixteenSteps(m, Round(m, s, a, aColor), a, aColor);
    }
  }
}
