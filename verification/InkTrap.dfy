/** The corner colouring of msdfgen's "ink trap" edge colouring strategy. */
module InkTrap {

  // ---------------------------------------------------------------- edge colours

  /** `EdgeColor`: one bit each for red, green and blue. */
  type Color = bv8

  const BLACK: Color := 0
  const RED: Color := 1
  const GREEN: Color := 2
  const YELLOW: Color := 3
  const BLUE: Color := 4
  const MAGENTA: Color := 5
  const CYAN: Color := 6
  const WHITE: Color := 7

  predicate TwoChannel(c: Color) {
    c == YELLOW || c == MAGENTA || c == CYAN
  }

  predicate OneChannel(c: Color) {
    c == RED || c == GREEN || c == BLUE
  }

  /** `initColor`. */
  function InitColor(seed: nat): (r: (Color, nat))
    ensures TwoChannel(r.0)
  {
    ([CYAN, MAGENTA, YELLOW][seed % 3], seed / 3)
  }

  /** `switchColor(color, seed)`: rotates the three channel bits by one or two places, as the seed's low bit says. */
  function SwitchColor(color: Color, seed: nat): (r: (Color, nat))
    ensures TwoChannel(color) ==> TwoChannel(r.0) && r.0 != color
  {
    var shifted := if seed % 2 == 0 then color << 1 else color << 2;
    ((shifted | (shifted >> 3)) & WHITE, seed / 2)
  }

  /** `switchColor(color, seed, banned)`: the third colour if `color` and `banned` differ, and otherwise any other. */
  function SwitchColorBanned(color: Color, seed: nat, banned: Color): (r: (Color, nat))
    ensures TwoChannel(color) && (TwoChannel(banned) || banned == BLACK) ==>
              TwoChannel(r.0) && r.0 != color && r.0 != banned
  {
    var combined := color & banned;
    if combined == RED || combined == GREEN || combined == BLUE then (combined ^ WHITE, seed)
    else SwitchColor(color, seed)
  }

  /** The colours that seeds lead to: the first one, then one step forwards or backwards through cyan, magenta and
      yellow. */
  lemma SwitchesInACircle(seed: nat)
    ensures InitColor(seed) == (if seed % 3 == 0 then CYAN else if seed % 3 == 1 then MAGENTA else YELLOW, seed / 3)
    ensures SwitchColor(CYAN, seed) == (if seed % 2 == 0 then MAGENTA else YELLOW, seed / 2)
    ensures SwitchColor(MAGENTA, seed) == (if seed % 2 == 0 then YELLOW else CYAN, seed / 2)
    ensures SwitchColor(YELLOW, seed) == (if seed % 2 == 0 then CYAN else MAGENTA, seed / 2)
  {
  }

  /** With another colour banned there is no choice, and the seed is left alone. */
  lemma BannedLeavesOne(color: Color, seed: nat, banned: Color)
    requires TwoChannel(color)
    ensures TwoChannel(banned) && banned != color ==>
              var (c, s) := SwitchColorBanned(color, seed, banned);
              s == seed && TwoChannel(c) && c != color && c != banned
    ensures banned == BLACK || banned == color ==> SwitchColorBanned(color, seed, banned) == SwitchColor(color, seed)
  {
  }

  /** `(a & b) ^ WHITE`. */
  function Third(a: Color, b: Color): Color {
    (a & b) ^ WHITE
  }

  /** Two adjacent splines must have different two-channel colours; then they share exactly one channel. */
  lemma DistinctTwoChannelsShareOne(a: Color, b: Color)
    requires TwoChannel(a) && TwoChannel(b) && a != b
    ensures OneChannel(a & b) && TwoChannel(Third(a, b)) && Third(a, b) != a && Third(a, b) != b
  {
  }

  // ---------------------------------------------------------------- corners

  /** `(i + 1) % n`. */
  function Next(i: nat, n: nat): (j: nat)
    requires i < n
    ensures j < n
  {
    if i == n - 1 then 0 else i + 1
  }

  /** Spline `i` starts at corner `i` and is as long as corner `i + 1` says; it is minor if it is shorter than both its
      neighbours. The lengths are the corners' `prevEdgeLengthEstimate`. */
  predicate LocalMinimum(lengths: seq<real>, i: nat)
    requires i < |lengths|
  {
    var n := |lengths|;
    var j := Next(i, n);
    lengths[i] > lengths[j] && lengths[j] < lengths[Next(j, n)]
  }

  lemma MinorIsShorter(lengths: seq<real>, i: nat)
    requires i < |lengths|
    ensures var n := |lengths|;
            LocalMinimum(lengths, i) <==>
              lengths[(i + 1) % n] < lengths[i] && lengths[(i + 1) % n] < lengths[(i + 2) % n]
  {
    NextIs(i, |lengths|);
  }

  lemma NextIs(i: nat, n: nat)
    requires i < n
    ensures Next(i, n) == (i + 1) % n && Next(Next(i, n), n) == (i + 2) % n
  {
    if n > 1 {
      OneTurn(i + 1, n);
      OneTurn(i + 2, n);
    }
  }

  lemma OneTurn(x: nat, n: nat)
    requires n > 0 && x < 2 * n
    ensures x % n == if x < n then x else x - n
  {
  }

  /** No two cyclically adjacent splines are minor. */
  predicate Isolated(minor: seq<bool>) {
    forall i, j :: 0 <= i < |minor| && 0 <= j < |minor| && j == Next(i, |minor|) && minor[i] ==> !minor[j]
  }

  function Majors(minor: seq<bool>, from: nat): nat
    requires from <= |minor|
    decreases |minor| - from
  {
    if from == |minor| then 0 else (if minor[from] then 0 else 1) + Majors(minor, from + 1)
  }

  /** The major spline that follows spline `i` when all minor splines are deleted. */
  function NextMajor(minor: seq<bool>, i: nat): (j: nat)
    requires i < |minor|
    ensures j < |minor|
  {
    var j := Next(i, |minor|);
    if minor[j] then Next(j, |minor|) else j
  }

  /** What the strategy guarantees: adjacent splines have distinct two-channel colours. */
  ghost predicate AdjacentDiffer(color: seq<Color>) {
    && (forall i :: 0 <= i < |color| ==> TwoChannel(color[i]))
    && (forall i, j :: 0 <= i < |color| && j == Next(i, |color|) ==> color[i] != color[j])
  }

  /** The same for the splines that are left when all minor splines are deleted. */
  ghost predicate MajorsDiffer(minor: seq<bool>, color: seq<Color>)
    requires |minor| == |color|
  {
    forall i :: 0 <= i < |minor| && !minor[i] ==>
      !minor[NextMajor(minor, i)] && TwoChannel(color[i]) && color[i] != color[NextMajor(minor, i)]
  }

  /** The "minor" test: marks every local minimum and counts the splines that stay major. */
  method MarkMinor(prevLengths: seq<real>, splineLength: real) returns (minor: seq<bool>, majorCount: int,
                   ghost lengths: seq<real>)
    requires |prevLengths| >= 2
    ensures |minor| == |lengths| == |prevLengths| && Isolated(minor) && majorCount == Majors(minor, 0) >= 2
    ensures lengths == if |prevLengths| > 3 then prevLengths[0 := prevLengths[0] + splineLength] else prevLengths
    ensures forall i :: 0 <= i < |minor| ==> (minor[i] <==> |minor| > 3 && LocalMinimum(lengths, i))
  {
    var n := |prevLengths|;
    minor := seq(n, _ => false);
    majorCount := n;
    lengths := prevLengths;
    AllMajor(minor, 0);
    if n > 3 {
      var ls := prevLengths[0 := prevLengths[0] + splineLength];
      lengths := ls;
      for i := 0 to n
        invariant |minor| == n && majorCount == Majors(minor, 0)
        invariant forall k :: 0 <= k < n ==> minor[k] == (k < i && LocalMinimum(ls, k))
      {
        if ls[i] > ls[Next(i, n)] && ls[Next(i, n)] < ls[Next(Next(i, n), n)] {
          MarkOne(minor, i, 0);
          minor := minor[i := true];
          majorCount := majorCount - 1;
        }
      }
    }
    TwoMajors(minor);
  }

  lemma {:induction false} AllMajor(minor: seq<bool>, from: nat)
    requires from <= |minor| && forall i :: from <= i < |minor| ==> !minor[i]
    ensures Majors(minor, from) == |minor| - from
    decreases |minor| - from
  {
    if from < |minor| {
      AllMajor(minor, from + 1);
    }
  }

  lemma {:induction false} MarkOne(minor: seq<bool>, i: nat, from: nat)
    requires i < |minor| && !minor[i] && from <= |minor|
    ensures Majors(minor[i := true], from) == Majors(minor, from) - (if from <= i then 1 else 0)
    decreases |minor| - from
  {
    if from < |minor| {
      MarkOne(minor, i, from + 1);
    }
  }

  lemma TwoMajors(minor: seq<bool>)
    requires |minor| >= 2 && Isolated(minor)
    requires |minor| <= 3 ==> forall i :: 0 <= i < |minor| ==> !minor[i]
    ensures Majors(minor, 0) >= 2
  {
    var n := |minor|;
    assert Majors(minor, 0) == (if minor[0] then 0 else 1) + (if minor[1] then 0 else 1) + Majors(minor, 2);
    assert minor[0] ==> !minor[1];
    if n > 3 {
      assert minor[2] ==> !minor[3];
      assert Majors(minor, 2) == (if minor[2] then 0 else 1) + (if minor[3] then 0 else 1) + Majors(minor, 4);
    }
  }

  // ---------------------------------------------------------------- first pass: major splines

  function First(minor: seq<bool>): nat
    requires |minor| >= 2
  {
    if minor[0] then 1 else 0
  }

  /** The last major spline before corner `i`, not wrapping around. */
  function LastBefore(minor: seq<bool>, i: nat): int
    requires i <= |minor|
  {
    if i >= 1 && !minor[i - 1] then i - 1 else i - 2
  }

  /** Successive major splines before corner `i` differ. */
  ghost predicate RunDiffers(minor: seq<bool>, color: seq<Color>, i: nat)
    requires |minor| == |color| && i <= |minor|
  {
    && (forall k :: 0 <= k < i && !minor[k] ==> TwoChannel(color[k]))
    && (forall k, l :: 0 <= k < l < i && !minor[k] && !minor[l] && l <= k + 2 && l == NextMajor(minor, k) ==>
         color[k] != color[l])
  }

  /** The state of the first pass at corner `i`: `last` is the colour of the last major spline; once no major spline is
      left it also differs from the colour of the first. */
  ghost predicate Frontier(minor: seq<bool>, color: seq<Color>, i: nat, last: Color, initial: Color)
    requires |minor| == |color| >= 2 && i <= |minor|
  {
    && TwoChannel(last)
    && initial == (if i > First(minor) then color[First(minor)] else BLACK)
    && (i > First(minor) ==>
         0 <= LastBefore(minor, i) && !minor[LastBefore(minor, i)] && last == color[LastBefore(minor, i)])
    && (i > First(minor) && Majors(minor, i) == 0 ==> last != initial)
  }

  lemma ColorMajorRun(minor: seq<bool>, color: seq<Color>, i: nat, next: Color)
    requires |minor| == |color| >= 2 && i < |minor| && !minor[i] && Isolated(minor)
    requires RunDiffers(minor, color, i) && TwoChannel(next)
    requires i > First(minor) ==> 0 <= LastBefore(minor, i) && next != color[LastBefore(minor, i)]
    ensures RunDiffers(minor, color[i := next], i + 1)
  {
    assert i > 0 && minor[i - 1] ==> !minor[Next(i - 1, |minor|)];
  }

  lemma ColorMajorFrontier(minor: seq<bool>, color: seq<Color>, i: nat, last: Color, initial: Color, next: Color)
    requires |minor| == |color| >= 2 && i < |minor| && !minor[i] && Isolated(minor) && Majors(minor, 0) >= 2
    requires Frontier(minor, color, i, last, initial) && TwoChannel(next)
    requires (forall k :: 0 <= k < i && !minor[k] ==> TwoChannel(color[k]))
    requires Majors(minor, i + 1) == 0 ==> next != initial
    ensures Frontier(minor, color[i := next], i + 1, next, if initial == BLACK then next else initial)
    ensures i == First(minor) ==> Majors(minor, i + 1) >= 1
  {
    assert minor[0] ==> !minor[1];
    assert Majors(minor, 0) == (if minor[0] then 0 else 1) + Majors(minor, 1);
  }

  lemma SkipMinor(minor: seq<bool>, color: seq<Color>, i: nat, last: Color, initial: Color)
    requires |minor| == |color| >= 2 && i < |minor| && minor[i] && Isolated(minor)
    requires Frontier(minor, color, i, last, initial) && RunDiffers(minor, color, i)
    ensures Frontier(minor, color, i + 1, last, initial) && RunDiffers(minor, color, i + 1)
  {
    assert minor[0] ==> !minor[1];
    assert i > 0 ==> !minor[i - 1];
  }

  /** When the first pass is over, the last major spline also differs from the first one. */
  lemma MajorsWrapAround(minor: seq<bool>, color: seq<Color>, last: Color, initial: Color)
    requires |minor| == |color| >= 2 && Isolated(minor)
    requires Frontier(minor, color, |minor|, last, initial) && RunDiffers(minor, color, |minor|)
    ensures MajorsDiffer(minor, color)
  {
    var n := |minor|;
    forall i | 0 <= i < n && !minor[i]
      ensures !minor[NextMajor(minor, i)] && color[i] != color[NextMajor(minor, i)]
    {
      var j := NextMajor(minor, i);
      assert minor[Next(i, n)] ==> !minor[Next(Next(i, n), n)];
      if j > i {
        assert color[i] != color[j];
      } else {
        assert j == First(minor) && i == LastBefore(minor, n);
      }
    }
  }

  /** The colour that must not be used for major spline `i`: the first one's, if this is the last. */
  function Banned(minor: seq<bool>, color: seq<Color>, i: nat): Color
    requires |minor| == |color| >= 2 && i < |minor|
  {
    if Majors(minor, i + 1) == 0 && i > First(minor) then color[First(minor)] else BLACK
  }

  /** The colours of the first `n` splines come from switching from one major spline to the next; `trail` records the
      colour and the seed in front of every spline. */
  ghost predicate Follows(minor: seq<bool>, color: seq<Color>, trail: seq<(Color, nat)>, n: nat)
    requires |minor| == |color| >= 2 && n <= |minor|
  {
    |trail| == n + 1 && forall j :: 0 <= j < n ==> Switched(minor, color, trail, j)
  }

  ghost predicate Switched(minor: seq<bool>, color: seq<Color>, trail: seq<(Color, nat)>, j: nat)
    requires |minor| == |color| >= 2 && j < |minor| && j + 1 < |trail|
  {
    if minor[j] then trail[j + 1] == trail[j]
    else trail[j + 1] == SwitchColorBanned(trail[j].0, trail[j].1, Banned(minor, color, j)) && color[j]
         == trail[j + 1].0
  }

  lemma StartOfTrail(minor: seq<bool>, startColor: Color, startSeed: nat)
    requires |minor| >= 2
    ensures forall color: seq<Color> :: |color| == |minor| ==>
      Follows(minor, color, [(startColor, startSeed)], 0) && RunDiffers(minor, color, 0)
  {
  }

  lemma FollowsSkip(minor: seq<bool>, color: seq<Color>, trail: seq<(Color, nat)>, i: nat)
    requires |minor| == |color| >= 2 && i < |minor| && minor[i] && Follows(minor, color, trail, i)
    ensures Follows(minor, color, trail + [trail[i]], i + 1)
  {
    hide SwitchColorBanned, Majors;
    forall j | 0 <= j < i + 1
      ensures Switched(minor, color, trail + [trail[i]], j)
    {
      if j < i {
        assert Switched(minor, color, trail, j);
      }
    }
  }

  lemma SameMajors(minor: seq<bool>, majors: seq<Color>, color: seq<Color>, trail: seq<(Color, nat)>)
    requires |minor| == |majors| == |color| >= 2 && Isolated(minor) && Follows(minor, majors, trail, |minor|)
    requires forall i :: 0 <= i < |minor| && !minor[i] ==> color[i] == majors[i]
    ensures Follows(minor, color, trail, |minor|)
  {
    hide SwitchColorBanned, Majors;
    forall j | 0 <= j < |minor|
      ensures Switched(minor, color, trail, j)
    {
      assert Switched(minor, majors, trail, j);
    }
  }

  lemma FollowsNext(minor: seq<bool>, color: seq<Color>, trail: seq<(Color, nat)>, i: nat, next: (Color, nat))
    requires |minor| == |color| >= 2 && i < |minor| && !minor[i] && Isolated(minor) && Follows(minor, color, trail, i)
    requires next == SwitchColorBanned(trail[i].0, trail[i].1, Banned(minor, color, i))
    ensures Follows(minor, color[i := next.0], trail + [next], i + 1)
  {
    hide SwitchColorBanned, Majors;
    var color', trail' := color[i := next.0], trail + [next];
    forall j | 0 <= j < i + 1
      ensures Switched(minor, color', trail', j)
    {
      if j < i {
        assert Switched(minor, color, trail, j);
      }
    }
  }

  method ColorMajors(minor: seq<bool>, majorCount: int, startColor: Color, startSeed: nat)
    returns (color: seq<Color>, last: Color, seed: nat, ghost trail: seq<(Color, nat)>)
    requires |minor| >= 2 && Isolated(minor) && majorCount == Majors(minor, 0) >= 2 && TwoChannel(startColor)
    ensures |color| == |minor| && MajorsDiffer(minor, color)
    ensures !minor[|minor| - 1] ==> last == color[|minor| - 1]
    ensures Follows(minor, color, trail, |minor|) && trail[0] == (startColor, startSeed)
    ensures trail[|minor|] == (last, seed)
  {
    hide Follows, MajorsDiffer;
    StartOfTrail(minor, startColor, startSeed);
    var n, majorCount, initial := |minor|, majorCount, BLACK;
    color, last, seed := seq(n, _ => BLACK), startColor, startSeed;
    trail := [(startColor, startSeed)];
    for i := 0 to n
      invariant |color| == n && majorCount == Majors(minor, i)
      invariant RunDiffers(minor, color, i) && Frontier(minor, color, i, last, initial)
      invariant |trail| == i + 1 && Follows(minor, color, trail, i) && trail[0] == (startColor, startSeed)
      invariant trail[i] == (last, seed)
    {
      if !minor[i] {
        majorCount := majorCount - 1;
        var (c, s) := SwitchColorBanned(last, seed, if majorCount == 0 then initial else BLACK);
        ColorMajorRun(minor, color, i, c);
        ColorMajorFrontier(minor, color, i, last, initial, c);
        FollowsNext(minor, color, trail, i, (c, s));
        last, seed := c, s;
        trail := trail + [(last, seed)];
        color := color[i := last];
        if initial == BLACK {
          initial := last;
        }
      } else {
        SkipMinor(minor, color, i, last, initial);
        FollowsSkip(minor, color, trail, i);
        trail := trail + [(last, seed)];
      }
    }
    MajorsWrapAround(minor, color, last, initial);
  }

  // ---------------------------------------------------------------- second pass: minor splines

  function Pred(i: nat, n: nat): (j: nat)
    requires i <= n && n > 0
    ensures j < n && (i < n ==> Next(j, n) == i)
  {
    if i == 0 then n - 1 else i - 1
  }

  lemma MinorBetween(minor: seq<bool>, color: seq<Color>, i: nat)
    requires |minor| == |color| && i < |minor| && minor[i] && Isolated(minor) && MajorsDiffer(minor, color)
    ensures var n := |minor|; !minor[Pred(i, n)] && !minor[Next(i, n)]
    ensures var (p, q) := (color[Pred(i, |minor|)], color[Next(i, |minor|)]);
            TwoChannel(p) && TwoChannel(q) && TwoChannel(Third(p, q)) && Third(p, q) != p && Third(p, q) != q
  {
    var n := |minor|;
    assert !minor[Pred(i, n)] by {
      assert Next(Pred(i, n), n) == i;
    }
    assert NextMajor(minor, Pred(i, n)) == Next(i, n);
    DistinctTwoChannelsShareOne(color[Pred(i, n)], color[Next(i, n)]);
  }

  lemma MinorsFilled(minor: seq<bool>, majors: seq<Color>, color: seq<Color>)
    requires |minor| == |majors| == |color| >= 2 && Isolated(minor) && MajorsDiffer(minor, majors)
    requires forall k :: 0 <= k < |minor| ==>
      color[k] == if minor[k] then Third(majors[Pred(k, |minor|)], majors[Next(k, |minor|)]) else majors[k]
    ensures AdjacentDiffer(color) && MajorsDiffer(minor, color)
  {
    var n := |minor|;
    forall i, j | 0 <= i < n && j == Next(i, n)
      ensures TwoChannel(color[i]) && color[i] != color[j]
    {
      if minor[i] {
        MinorBetween(minor, majors, i);
      } else if minor[j] {
        MinorBetween(minor, majors, j);
        assert Pred(j, n) == i;
      } else {
        assert NextMajor(minor, i) == j;
      }
    }
  }

  /** Gives each minor spline the colour that differs from both its neighbours. */
  method ColorMinors(minor: seq<bool>, majors: seq<Color>, last: Color) returns (color: seq<Color>)
    requires |minor| == |majors| >= 2 && Isolated(minor) && MajorsDiffer(minor, majors)
    requires !minor[|minor| - 1] ==> last == majors[|minor| - 1]
    ensures |color| == |minor| && AdjacentDiffer(color) && MajorsDiffer(minor, color)
    ensures forall i :: 0 <= i < |minor| && !minor[i] ==> color[i] == majors[i]
  {
    var n := |minor|;
    var cur := last;
    color := majors;
    hide Third, MajorsDiffer, AdjacentDiffer;
    for i := 0 to n
      invariant |color| == n && (!minor[Pred(i, n)] ==> cur == majors[Pred(i, n)])
      invariant forall k :: 0 <= k < n ==>
        color[k] == if k < i && minor[k] then Third(majors[Pred(k, n)], majors[Next(k, n)]) else majors[k]
    {
      if minor[i] {
        assert !minor[Pred(i, n)] && !minor[Next(i, n)] by {
          MinorBetween(minor, majors, i);
        }
        var nextColor := color[Next(i, n)];
        color := color[i := Third(cur, nextColor)];
      } else {
        cur := color[i];
      }
    }
    MinorsFilled(minor, majors, color);
  }

  // ---------------------------------------------------------------- edges

  /** Corner indices of a contour with `m` edges, in order. */
  predicate Ordered(index: seq<nat>, m: nat) {
    && (forall s :: 0 <= s < |index| ==> index[s] < m)
    && (forall s, t :: 0 <= s < t < |index| ==> index[s] < index[t])
  }

  /** Spline `s` runs from its corner up to the next one; the last spline goes on through the end of the contour up to
      the first corner. */
  predicate Covers(index: seq<nat>, s: nat, e: nat)
    requires s < |index|
  {
    (index[s] <= e && (s + 1 < |index| ==> e < index[s + 1])) || (s == |index| - 1 && e < index[0])
  }

  lemma CoverIsUnique(index: seq<nat>, m: nat, s: nat, t: nat, e: nat)
    requires Ordered(index, m) && s < |index| && t < |index| && Covers(index, s, e) && Covers(index, t, e)
    ensures s == t
  {
    assert forall a, b :: 0 <= a <= b < |index| ==> index[a] <= index[b];
  }

  /** `(start + i) % m`. */
  function Around(start: nat, i: nat, m: nat): nat
    requires start < m && i <= m
  {
    if start + i < m then start + i else start + i - m
  }

  method PaintEdges(edges: array<Color>, index: seq<nat>, color: seq<Color>)
    requires |index| == |color| >= 2 && Ordered(index, edges.Length)
    modifies edges
    ensures forall s, e :: 0 <= s < |index| && 0 <= e < edges.Length && Covers(index, s, e) ==> edges[e] == color[s]
  {
    var spline := 0;
    var start := index[0];
    var cur := color[0];
    var m, n := edges.Length, |index|;
    for i := 0 to m
      invariant 0 <= spline < n && cur == color[spline]
      invariant start + i <= m ==> (if i == 0 then spline == 0 else index[spline] <= start + i - 1)
      invariant start + i <= m && spline + 1 < n ==> start + i - 1 < index[spline + 1]
      invariant start + i > m ==> spline == n - 1
      invariant forall k :: 0 <= k < i ==>
        exists s :: 0 <= s < n && Covers(index, s, Around(start, k, m)) && edges[Around(start, k, m)] == color[s]
    {
      var at := Around(start, i, m);
      ghost var before := spline;
      if spline + 1 < n && index[spline + 1] == at {
        spline := spline + 1;
        cur := color[spline];
      }
      assert Covers(index, spline, at) by {
        assert before + 1 < n ==> index[0] < index[before + 1];
        assert spline + 1 < n ==> index[spline] < index[spline + 1];
      }
      assert forall k :: 0 <= k < i ==> Around(start, k, m) != at;
      edges[at] := cur;
    }
    forall s, e | 0 <= s < n && 0 <= e < m && Covers(index, s, e)
      ensures edges[e] == color[s]
    {
      var k := if e >= start then e - start else e + m - start;
      assert Around(start, k, m) == e;
      var t :| 0 <= t < n && Covers(index, t, e) && edges[e] == color[t];
      CoverIsUnique(index, m, s, t, e);
    }
  }

  /** At every corner the two edges that meet have distinct two-channel colours, if adjacent splines have. */
  lemma CornersDiffer(index: seq<nat>, color: seq<Color>, edges: seq<Color>)
    requires |index| == |color| >= 2 && Ordered(index, |edges|) && AdjacentDiffer(color)
    requires forall t, e :: 0 <= t < |index| && 0 <= e < |edges| && Covers(index, t, e) ==> edges[e] == color[t]
    ensures forall s :: 0 <= s < |index| ==>
      && index[s] < |edges| && TwoChannel(edges[index[s]]) && TwoChannel(edges[Pred(index[s], |edges|)])
      && edges[Pred(index[s], |edges|)] != edges[index[s]]
  {
    hide Covers;
    forall s | 0 <= s < |index|
      ensures TwoChannel(edges[index[s]]) && TwoChannel(edges[Pred(index[s], |edges|)])
      ensures edges[Pred(index[s], |edges|)] != edges[index[s]]
    {
      CornerDiffers(index, color, edges, s);
    }
  }

  lemma CornerDiffers(index: seq<nat>, color: seq<Color>, edges: seq<Color>, s: nat)
    requires |index| == |color| >= 2 && Ordered(index, |edges|) && AdjacentDiffer(color) && s < |index|
    requires forall t, e :: 0 <= t < |index| && 0 <= e < |edges| && Covers(index, t, e) ==> edges[e] == color[t]
    ensures TwoChannel(edges[index[s]]) && TwoChannel(edges[Pred(index[s], |edges|)])
    ensures edges[Pred(index[s], |edges|)] != edges[index[s]]
  {
    var n := |index|;
    var p := Pred(s, n);
    assert index[0] <= index[s] && (s > 0 ==> index[p] < index[s]) && index[0] < index[n - 1];
    assert Covers(index, s, index[s]) by {
      assert s + 1 < n ==> index[s] < index[s + 1];
    }
    assert Covers(index, p, Pred(index[s], |edges|));
    assert Next(p, n) == s;
  }

  /** The colouring of one contour with at least two corners. At every corner the two edges that meet have distinct
      two-channel colours, hence share exactly one channel; and the same holds at every corner that is left between two
      major splines when the edges of all minor splines are removed. */
  method ColorContour(edges: array<Color>, index: seq<nat>, prevLengths: seq<real>, splineLength: real,
                      startColor: Color, startSeed: nat)
    returns (endColor: Color, seed: nat, ghost minor: seq<bool>, ghost color: seq<Color>,
             ghost trail: seq<(Color, nat)>)
    requires |index| == |prevLengths| >= 2 && Ordered(index, edges.Length) && TwoChannel(startColor)
    modifies edges
    ensures |minor| == |color| == |index| && AdjacentDiffer(color) && MajorsDiffer(minor, color)
    ensures forall s, e :: 0 <= s < |index| && 0 <= e < edges.Length && Covers(index, s, e) ==> edges[e] == color[s]
    ensures forall s :: 0 <= s < |index| ==>
      TwoChannel(edges[index[s]]) && edges[Pred(index[s], edges.Length)] != edges[index[s]]
    ensures var lengths := if |index| > 3 then prevLengths[0 := prevLengths[0] + splineLength] else prevLengths;
            forall i :: 0 <= i < |index| ==> (minor[i] <==> |index| > 3 && LocalMinimum(lengths, i))
    ensures Follows(minor, color, trail, |minor|) && trail[0] == (startColor, startSeed) && seed == trail[|minor|].1
    ensures TwoChannel(endColor) && endColor == color[|color| - 1]
  {
    hide Follows, MajorsDiffer, LocalMinimum, Covers, Ordered;
    var minors, majorCount, lengths := MarkMinor(prevLengths, splineLength);
    var colors, last;
    colors, last, seed, trail := ColorMajors(minors, majorCount, startColor, startSeed);
    ghost var majors := colors;
    colors := ColorMinors(minors, colors, last);
    PaintEdges(edges, index, colors);
    endColor := colors[|colors| - 1];
    minor, color := minors, colors;
    SameMajors(minor, majors, color, trail);
    CornersDiffer(index, colors, edges[..]);
  }

  // ---------------------------------------------------------------- contours with a single corner

  /** `symmetricalTrichotomy`: -1, 0 or 1 for positions near the beginning, in the middle and near the end. */
  function Trichotomy(position: nat, n: nat): (t: int)
    requires position < n && n >= 2
    ensures -1 <= t <= 1
  {
    TrichotomyIs(position, n);
    Scaled(position as real, (n - 1) as real)
  }

  function Scaled(p: real, m: real): int
    requires m != 0.0
  {
    (3.0 + 2.875 * p / m - 1.4375 + 0.5).Floor - 3
  }

  /** In whole numbers: the positions are cut at 15/46 and 31/46 of the last one. */
  lemma TrichotomyIs(position: nat, n: nat)
    requires position < n && n >= 2
    ensures Scaled(position as real, (n - 1) as real) ==
            if 46 * position < 15 * (n - 1) then -1 else if 46 * position < 31 * (n - 1) then 0 else 1
  {
    hide Scaled;
    ScaledIs(position as real, (n - 1) as real);
    CutIsWhole(position, n - 1, 15);
    CutIsWhole(position, n - 1, 31);
  }

  lemma CutIsWhole(p: nat, m: nat, a: nat)
    ensures 46.0 * (p as real) < (a as real) * (m as real) <==> 46 * p < a * m
  {
    var x, y := 46 * p, a * m;
    assert x as real == 46.0 * (p as real);
    assert y as real == (a as real) * (m as real);
  }

  lemma ScaledIs(p: real, m: real)
    requires 0.0 <= p <= m && m > 0.0
    ensures Scaled(p, m) == if 46.0 * p < 15.0 * m then -1 else if 46.0 * p < 31.0 * m then 0 else 1
  {
    var q := p / m;
    Proportion(p, m, q);
    Threshold(q, p, m, 15.0);
    Threshold(q, p, m, 31.0);
    Threshold(q, p, m, 46.0);
    Threshold(q, p, m, 0.0);
    FloorOf(q);
  }

  lemma Proportion(p: real, m: real, q: real)
    requires m > 0.0 && q == p / m
    ensures q * m == p && 2.875 * p / m == 2.875 * q
  {
  }

  lemma Threshold(q: real, p: real, m: real, a: real)
    requires m > 0.0 && q * m == p
    ensures 46.0 * q < a <==> 46.0 * p < a * m
  {
    if 46.0 * q < a {
      assert (a - 46.0 * q) * m > 0.0;
    } else {
      assert (46.0 * q - a) * m >= 0.0;
    }
  }

  lemma FloorOf(q: real)
    requires 0.0 <= q <= 1.0
    ensures (3.0 + 2.875 * q - 1.4375 + 0.5).Floor - 3 ==
            if 46.0 * q < 15.0 then -1 else if 46.0 * q < 31.0 then 0 else 1
  {
  }

  /** The sum over the first `k` positions. */
  function TrichotomySum(k: nat, n: nat): (s: int)
    requires k <= n && n >= 2
  {
    if k == 0 then 0 else TrichotomySum(k - 1, n) + Trichotomy(k - 1, n)
  }

  /** How many of the first `k` positions are near the beginning, and how many are near the end. */
  lemma {:induction false} SumIs(k: nat, n: nat, a: nat, b: nat)
    requires k <= n && n >= 2 && a <= b <= n
    requires forall p :: 0 <= p < n ==> (46 * p < 15 * (n - 1) <==> p < a) && (46 * p < 31 * (n - 1) <==> p < b)
    ensures TrichotomySum(k, n) == -(if k < a then k else a) + if k < b then 0 else k - b
    decreases k
  {
    if k > 0 {
      SumIs(k - 1, n, a, b);
      TrichotomyIs(k - 1, n);
    }
  }

  /** The total is documented to be zero. It is one if 46 divides the last position, and zero otherwise. */
  lemma TrichotomyTotal(n: nat)
    requires n >= 2
    ensures TrichotomySum(n, n) == if (n - 1) % 46 == 0 then 1 else 0
  {
    var m := n - 1;
    var a, b := (15 * m + 45) / 46, (31 * m + 45) / 46;
    Ceiling(15 * m);
    Ceiling(31 * m);
    SumIs(n, n, a, b);
    Mirror(m);
  }

  lemma Ceiling(x: nat)
    ensures var a := (x + 45) / 46; forall p: nat :: 46 * p < x <==> p < a
  {
  }

  lemma Mirror(m: nat)
    ensures (15 * m + 45) / 46 <= (31 * m + 45) / 46 <= m + 1
    ensures m + 1 - (31 * m + 45) / 46 - (15 * m + 45) / 46 == if m % 46 == 0 then 1 else 0
  {
    var q, r := m / 46, m % 46;
    assert m == 46 * q + r;
    assert (15 * m + 45) / 46 == 15 * q + (15 * r + 45) / 46;
    assert (31 * m + 45) / 46 == 31 * q + (31 * r + 45) / 46;
    MirrorSmall(r);
  }

  lemma MirrorSmall(r: nat)
    requires r < 46
    ensures (15 * r + 45) / 46 <= (31 * r + 45) / 46 <= r + 1
    ensures r + 1 - (31 * r + 45) / 46 - (15 * r + 45) / 46 == if r == 0 then 1 else 0
  {
    var a := (15 * r + 45) / 46;
    assert 46 * a - 45 <= 15 * r <= 46 * a;
    if r > 0 {
      assert 15 * r != 46 * a;
      assert 31 * r == 46 * r - 15 * r;
    }
  }

  /** The edges from the corner on get the first colour, white and the last colour. */
  ghost predicate Teardrop(colors: seq<Color>, corner: nat, first: Color, last: Color) {
    && |colors| >= 3 && corner < |colors| && TwoChannel(first) && TwoChannel(last) && first != last
    && forall i :: 0 <= i < |colors| ==>
      colors[Around(corner, i, |colors|)] == [first, WHITE, last][1 + Trichotomy(i, |colors|)]
  }

  /** The two edges at the corner get distinct two-channel colours, and white comes between them. */
  lemma TeardropAtCorner(colors: seq<Color>, corner: nat, first: Color, last: Color)
    requires Teardrop(colors, corner, first, last)
    ensures colors[corner] == first && colors[Pred(corner, |colors|)] == last
    ensures colors[Around(corner, |colors| / 2, |colors|)] == WHITE
  {
    hide Scaled;
    var m := |colors|;
    TrichotomyIs(0, m);
    TrichotomyIs(m / 2, m);
    TrichotomyIs(m - 1, m);
    assert Around(corner, 0, m) == corner && Around(corner, m - 1, m) == Pred(corner, m);
  }

  /** A contour of one or two edges with one corner: each edge is split in thirds, and the parts are put in order from
      the corner on. The new parts are coloured as if they had been there from the beginning. */
  method ColorSplit(edges: array<Color>, first: Color, last: Color) returns (parts: array<Color>)
    requires 1 <= edges.Length <= 2 && TwoChannel(first) && TwoChannel(last) && first != last
    ensures fresh(parts) && parts.Length == 3 * edges.Length && Teardrop(parts[..], 0, first, last)
  {
    hide Teardrop;
    parts := new Color[3 * edges.Length];
    if edges.Length == 2 {
      parts[0], parts[1] := first, first;
      parts[2], parts[3] := WHITE, WHITE;
      parts[4], parts[5] := last, last;
      assert parts[..] == [first, first, WHITE, WHITE, last, last];
    } else {
      parts[0] := first;
      parts[1] := WHITE;
      parts[2] := last;
      assert parts[..] == [first, WHITE, last];
    }
    ThirdsAreTeardrops(first, last);
  }

  lemma ThirdsAreTeardrops(first: Color, last: Color)
    requires TwoChannel(first) && TwoChannel(last) && first != last
    ensures Teardrop([first, WHITE, last], 0, first, last)
    ensures Teardrop([first, first, WHITE, WHITE, last, last], 0, first, last)
  {
    hide Scaled;
    forall i: nat | i < 6
      ensures Trichotomy(i, 6) == i / 2 - 1 && (i < 3 ==> Trichotomy(i, 3) == i - 1)
    {
      TrichotomyIs(i, 6);
      if i < 3 {
        TrichotomyIs(i, 3);
      }
    }
  }

  /** The "teardrop" case: a contour with one corner. */
  method ColorTeardrop(edges: array<Color>, corner: nat, startColor: Color, startSeed: nat)
    returns (parts: array<Color>, color: Color, seed: nat)
    requires corner < edges.Length && TwoChannel(startColor)
    modifies edges
    ensures var (first, s) := SwitchColor(startColor, startSeed);
            (color, seed) == SwitchColor(first, s) &&
            Teardrop(parts[..], if edges.Length < 3 then 0 else corner, first, color)
    ensures if edges.Length < 3 then fresh(parts) && parts.Length == 3 * edges.Length else parts == edges
  {
    hide Scaled;
    var (first, s) := SwitchColor(startColor, startSeed);
    var (last, s') := SwitchColor(first, s);
    color, seed := last, s';
    var m := edges.Length;
    if m < 3 {
      parts := ColorSplit(edges, first, last);
    } else {
      parts := edges;
      for i := 0 to m
        invariant forall k :: 0 <= k < i ==>
          edges[Around(corner, k, m)] == [first, WHITE, last][1 + Trichotomy(k, m)]
      {
        edges[Around(corner, i, m)] := [first, WHITE, last][1 + Trichotomy(i, m)];
        assert forall k :: 0 <= k < i ==> Around(corner, k, m) != Around(corner, i, m);
      }
    }
  }

  // ---------------------------------------------------------------- whole shapes

  /** A contour with the indices of its corners, the lengths up to them, and that behind the last one. */
  datatype Contour = Contour(edges: array<Color>, index: seq<nat>, prevLengths: seq<real>, splineLength: real)
  {
    predicate Valid() {
      |index| == |prevLengths| && Ordered(index, edges.Length)
    }
  }

  /** What `ColorContour` makes of a contour with at least two corners. */
  ghost predicate Painted(contour: Contour, edges: seq<Color>, before: (Color, nat), after: (Color, nat),
                          minor: seq<bool>, color: seq<Color>, trail: seq<(Color, nat)>)
    requires |contour.index| == |contour.prevLengths| >= 2
  {
    var n, prev := |contour.index|, contour.prevLengths;
    var lengths := if n > 3 then prev[0 := prev[0] + contour.splineLength] else prev;
    && |minor| == |color| == n && AdjacentDiffer(color) && MajorsDiffer(minor, color)
    && (forall s, e :: 0 <= s < n && 0 <= e < |edges| && Covers(contour.index, s, e) ==> edges[e] == color[s])
    && (forall i :: 0 <= i < n ==> (minor[i] <==> n > 3 && LocalMinimum(lengths, i)))
    && Follows(minor, color, trail, n) && trail[0] == before && after == (color[n - 1], trail[n].1)
  }

  /** What becomes of one contour, and how it changes the current colour and the seed. */
  ghost predicate Colored(contour: Contour, edges: seq<Color>, before: (Color, nat), after: (Color, nat))
    requires contour.Valid()
  {
    var m, corners := contour.edges.Length, |contour.index|;
    var next := SwitchColor(before.0, before.1);
    if m == 0 then
      after == before && edges == []
    else if corners == 0 then
      after == next && TwoChannel(next.0) && edges == seq(m, _ => next.0)
    else if corners == 1 then
      && after == SwitchColor(next.0, next.1)
      && |edges| == (if m < 3 then 3 * m else m)
      && Teardrop(edges, if m < 3 then 0 else contour.index[0], next.0, after.0)
    else
      |edges| == m && exists minor, color, trail :: Painted(contour, edges, before, after, minor, color, trail)
  }

  ghost predicate Separate(contours: seq<Contour>) {
    forall c, d :: 0 <= c < d < |contours| ==> contours[c].edges != contours[d].edges
  }

  method ColorSmooth(edges: array<Color>, color: Color)
    modifies edges
    ensures edges[..] == seq(edges.Length, _ => color)
  {
    for i := 0 to edges.Length
      invariant forall e :: 0 <= e < i ==> edges[e] == color
    {
      edges[i] := color;
    }
  }

  method ColorCorners(contour: Contour, startColor: Color, startSeed: nat) returns (color: Color, seed: nat)
    requires contour.Valid() && |contour.index| >= 2 && TwoChannel(startColor)
    modifies contour.edges
    ensures TwoChannel(color)
    ensures exists minor, colors, trail ::
      Painted(contour, contour.edges[..], (startColor, startSeed), (color, seed), minor, colors, trail)
  {
    hide AdjacentDiffer, MajorsDiffer, Follows, LocalMinimum, Covers, TwoChannel, Ordered;
    ghost var minor, colors, trail;
    color, seed, minor, colors, trail :=
      ColorContour(contour.edges, contour.index, contour.prevLengths, contour.splineLength, startColor, startSeed);
    assert Painted(contour, contour.edges[..], (startColor, startSeed), (color, seed), minor, colors, trail);
  }

  /** One turn of the loop over the contours. The edges stay where they are unless they are split. */
  method ColorOne(contour: Contour, startColor: Color, startSeed: nat)
    returns (edges: array<Color>, color: Color, seed: nat)
    requires contour.Valid() && TwoChannel(startColor)
    modifies contour.edges
    ensures Colored(contour, edges[..], (startColor, startSeed), (color, seed)) && TwoChannel(color)
    ensures edges == contour.edges || fresh(edges)
  {
    hide Painted, Teardrop;
    edges, color, seed := contour.edges, startColor, startSeed;
    if edges.Length > 0 {
      if contour.index == [] {
        var (c, s) := SwitchColor(color, seed);
        color, seed := c, s;
        ColorSmooth(edges, color);
      } else if |contour.index| == 1 {
        edges, color, seed := ColorTeardrop(edges, contour.index[0], color, seed);
      } else {
        color, seed := ColorCorners(contour, color, seed);
      }
    }
  }

  /** `edgeColoringInkTrap` on contours with known corners: colour and seed are handed on from contour to contour. */
  method ColorShape(contours: seq<Contour>, startSeed: nat)
    returns (edges: seq<array<Color>>, ghost states: seq<(Color, nat)>)
    requires Separate(contours) && forall c :: 0 <= c < |contours| ==> contours[c].Valid()
    modifies set c | c in contours :: c.edges
    ensures |edges| == |contours| && |states| == |contours| + 1 && states[0] == InitColor(startSeed)
    ensures forall c :: 0 <= c < |contours| ==>
      && Colored(contours[c], edges[c][..], states[c], states[c + 1])
      && (edges[c] == contours[c].edges || fresh(edges[c]))
  {
    hide Colored;
    var (color, seed) := InitColor(startSeed);
    edges, states := [], [(color, seed)];
    for k := 0 to |contours|
      invariant |edges| == k && |states| == k + 1 && states[0] == InitColor(startSeed)
      invariant TwoChannel(color) && states[k] == (color, seed)
      invariant forall c :: 0 <= c < k ==>
        && Colored(contours[c], edges[c][..], states[c], states[c + 1])
        && (edges[c] == contours[c].edges || fresh(edges[c]))
    {
      assert contours[k] in contours;
      var parts;
      parts, color, seed := ColorOne(contours[k], color, seed);
      edges, states := edges + [parts], states + [(color, seed)];
    }
  }
}
