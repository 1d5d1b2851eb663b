/** msdfgen's cached nearest-edge search with the true distance selector, over exact reals and an abstract metric
    space. */
module DistanceFinder {

  const DISTANCE_DELTA_FACTOR := 1.001

  /** A signed distance, or the initial one, which stands for `-DBL_MAX`: it is farther than any edge, and adding the
      distance between two query points to it gives it back. */
  datatype Reach = Far | At(value: real)

  /** A signed distance and, for ties, the alignment with the edge. */
  datatype SignedDistance = SignedDistance(distance: Reach, dot: real)

  const UNKNOWN := SignedDistance(Far, 0.0)

  function Abs(x: real): real {
    if x < 0.0 then -x else x
  }

  /** `nonZeroSign`: the code gives -1 for zero. */
  function NonZeroSign(x: real): real {
    if x > 0.0 then 1.0 else -1.0
  }

  /** It is the documented sign except at zero. */
  lemma NonZeroSignIs(x: real)
    ensures NonZeroSign(x) == (if x >= 0.0 then 1.0 else -1.0) <==> x != 0.0
  {
  }

  /** `fabs(distance) >= x`. */
  predicate AtLeast(r: Reach, x: real) {
    match r
    case Far => true
    case At(d) => Abs(d) >= x
  }

  /** `fabs(distance) > x`. */
  predicate Beyond(r: Reach, x: real) {
    match r
    case Far => true
    case At(d) => Abs(d) > x
  }

  /** `operator<` on signed distances. */
  predicate Less(a: SignedDistance, b: SignedDistance) {
    match (a.distance, b.distance)
    case (Far, Far) => a.dot < b.dot
    case (Far, At(_)) => false
    case (At(_), Far) => true
    case (At(d), At(e)) => Abs(d) < Abs(e) || (Abs(d) == Abs(e) && a.dot < b.dot)
  }

  /** `distance + nonZeroSign(distance) * delta`. */
  function Inflated(r: Reach, delta: real): (r': Reach)
    requires delta >= 0.0
    ensures r' == Far <==> r == Far
    ensures r.At? ==> Abs(r'.value) == Abs(r.value) + delta && (r'.value > 0.0 <==> r.value > 0.0)
  {
    match r
    case Far => Far
    case At(d) => At(d + NonZeroSign(d) * delta)
  }

  /** Points, edges, and the distances between them: between points, and from an edge with the alignment. */
  datatype Space<!P(!new), !E(!new)> = Space(origin: P, length: (P, P) -> real, edge: (E, P) -> (real, real))
  {
    function Signed(e: E, p: P): SignedDistance {
      SignedDistance(At(edge(e, p).0), edge(e, p).1)
    }

    function Away(e: E, p: P): real {
      Abs(edge(e, p).0)
    }

    /** `length` is a distance that separates points, and every edge's absolute distance is 1-Lipschitz. */
    ghost predicate Metric() {
      && (forall p, q :: length(p, q) >= 0.0 && (length(p, q) == 0.0 <==> p == q))
      && (forall e, p, q :: Away(e, p) <= Away(e, q) + length(p, q) && Away(e, q) <= Away(e, p) + length(p, q))
    }
  }

  // ---------------------------------------------------------------- the plain search

  /** The search over all edges in order, from a starting candidate. */
  function Nearest<P(!new), E(!new)>(s: Space<P, E>, es: seq<E>, p: P, start: SignedDistance): SignedDistance {
    if es == [] then start
    else Nearest(s, es[1..], p, if Less(s.Signed(es[0], p), start) then s.Signed(es[0], p) else start)
  }

  /** Edge `k` is at `m`, and every earlier edge is strictly farther. */
  ghost predicate FirstAt<P(!new), E(!new)>(s: Space<P, E>, es: seq<E>, p: P, m: SignedDistance, k: nat)
    requires k < |es|
  {
    m == s.Signed(es[k], p) && forall j :: 0 <= j < k ==> Less(m, s.Signed(es[j], p))
  }

  /** The search returns a candidate that none of the edges is nearer than, and the first such candidate: either the
      start, or an edge that every earlier one is strictly farther than. */
  lemma {:induction false} NearestIsFirstMinimum<P(!new), E(!new)>(s: Space<P, E>, es: seq<E>, p: P,
                                                   start: SignedDistance)
    ensures var m := Nearest(s, es, p, start);
            && (forall e :: e in es ==> !Less(s.Signed(e, p), m)) && !Less(start, m)
            && (m == start || (Less(m, start) && exists k :: 0 <= k < |es| && FirstAt(s, es, p, m, k)))
    decreases |es|
  {
    if es != [] {
      var d := s.Signed(es[0], p);
      var next := if Less(d, start) then d else start;
      NearestIsFirstMinimum(s, es[1..], p, next);
      var m := Nearest(s, es[1..], p, next);
      if m != next {
        var k :| 0 <= k < |es[1..]| && FirstAt(s, es[1..], p, m, k);
        forall j | 0 <= j < k + 1
          ensures Less(m, s.Signed(es[j], p))
        {
          if j > 0 {
            assert es[j] == es[1..][j - 1];
          }
        }
        assert FirstAt(s, es, p, m, k + 1);
      } else if m != start {
        assert FirstAt(s, es, p, m, 0);
      }
    }
  }

  /** A minimum stays put when the search is repeated from it. */
  lemma {:induction false} NearestIdempotent<P(!new), E(!new)>(s: Space<P, E>, es: seq<E>, p: P, m: SignedDistance)
    requires forall e :: e in es ==> !Less(s.Signed(e, p), m)
    ensures Nearest(s, es, p, m) == m
    decreases |es|
  {
    if es != [] {
      assert es[0] in es;
      NearestIdempotent(s, es[1..], p, m);
    }
  }

  /** The start does not matter if some edge is strictly nearer than it. */
  lemma {:induction false} NearestForgetsStart<P(!new), E(!new)>(
    s: Space<P, E>, es: seq<E>, p: P, a: SignedDistance, b: SignedDistance, e: E)
    requires e in es && Beyond(a.distance, s.Away(e, p)) && Beyond(b.distance, s.Away(e, p))
    ensures Nearest(s, es, p, a) == Nearest(s, es, p, b)
    decreases |es|
  {
    var d := s.Signed(es[0], p);
    var a', b' := if Less(d, a) then d else a, if Less(d, b) then d else b;
    if a' != b' {
      assert e in es[1..];
      NearestForgetsStart(s, es[1..], p, a', b', e);
    }
  }

  // ---------------------------------------------------------------- the selector

  datatype EdgeCache<P> = EdgeCache(point: P, absDistance: real)

  /** A cache entry never overstates the distance at the point it was taken. */
  ghost predicate CacheOk<P(!new), E(!new)>(s: Space<P, E>, e: E, c: EdgeCache<P>) {
    c.absDistance <= s.Away(e, c.point)
  }

  /** An edge that the cache lets the search skip could not have improved the minimum. */
  lemma SkippedIsFarther<P(!new), E(!new)>(s: Space<P, E>, e: E, c: EdgeCache<P>, p: P, m: SignedDistance)
    requires s.Metric() && CacheOk(s, e, c)
    requires !AtLeast(m.distance, c.absDistance - DISTANCE_DELTA_FACTOR * s.length(p, c.point))
    ensures !Less(s.Signed(e, p), m)
  {
    assert s.Away(e, c.point) <= s.Away(e, p) + s.length(p, c.point);
    assert s.length(p, c.point) >= 0.0;
  }

  class TrueDistanceSelector<P(!new), E(!new)> {
    const space: Space<P, E>
    var p: P
    var minDistance: SignedDistance

    constructor (space: Space<P, E>)
      ensures this.space == space && p == space.origin && minDistance == UNKNOWN
    {
      this.space := space;
      p := space.origin;
      minDistance := UNKNOWN;
    }

    /** Inflates the minimum by more than the query point has moved, keeping its sign. */
    method Reset(q: P)
      requires space.Metric()
      modifies this
      ensures p == q && minDistance.dot == old(minDistance.dot)
      ensures space.length(q, old(p)) >= 0.0
      ensures minDistance.distance
           == Inflated(old(minDistance.distance), 1.001 * space.length(q, old(p)))
      ensures q == old(p) ==> minDistance == old(minDistance)
    {
      assert space.length(q, p) >= 0.0 && (space.length(q, p) == 0.0 <==> q == p);
      var delta := DISTANCE_DELTA_FACTOR * space.length(q, p);
      minDistance := minDistance.(distance := Inflated(minDistance.distance, delta));
      p := q;
    }

    /** Considers one edge, unless its cache entry shows that it is out of reach. */
    method AddEdge(cache: EdgeCache<P>, edge: E) returns (cache': EdgeCache<P>)
      requires space.Metric() && CacheOk(space, edge, cache)
      modifies this`minDistance
      ensures CacheOk(space, edge, cache')
      ensures minDistance == Nearest(space, [edge], p, old(minDistance))
      ensures cache' == if AtLeast(old(minDistance.distance), cache.absDistance - 1.001 * space.length(p, cache.point))
                        then EdgeCache(p, space.Away(edge, p)) else cache
    {
      var delta := DISTANCE_DELTA_FACTOR * space.length(p, cache.point);
      cache' := cache;
      if AtLeast(minDistance.distance, cache.absDistance - delta) {
        var distance := space.Signed(edge, p);
        if Less(distance, minDistance) {
          minDistance := distance;
        }
        cache' := EdgeCache(p, Abs(distance.distance.value));
      } else {
        SkippedIsFarther(space, edge, cache, p, minDistance);
      }
    }
  }

  // ---------------------------------------------------------------- the finder

  type Contour<E> = seq<E>

  /** The order in which the edges of a contour are visited: the last one first. */
  function Rotated<E>(c: Contour<E>): seq<E> {
    if c == [] then [] else [c[|c| - 1]] + c[..|c| - 1]
  }

  function Visited<E>(shape: seq<Contour<E>>): seq<E> {
    if shape == [] then [] else Rotated(shape[0]) + Visited(shape[1..])
  }

  lemma VisitedFrom<E>(shape: seq<Contour<E>>, c: nat)
    requires c <= |shape|
    ensures Visited(shape[c..]) == if c == |shape| then [] else Rotated(shape[c]) + Visited(shape[c + 1..])
    ensures shape[0..] == shape
    ensures c < |shape| ==> |Rotated(shape[c])| == |shape[c]|
  {
    if c < |shape| {
      assert shape[c..][1..] == shape[c + 1..];
    }
  }

  lemma VisitedNext<E>(shape: seq<Contour<E>>, c: nat, done: seq<E>)
    requires c < |shape|
    ensures done + Visited(shape[c..]) == done + Rotated(shape[c]) + Visited(shape[c + 1..])
    ensures shape[c] == [] ==> Rotated(shape[c]) == []
  {
    hide Visited, Rotated;
    VisitedFrom(shape, c);
  }

  lemma NearestNone<P(!new), E(!new)>(s: Space<P, E>, p: P, m: SignedDistance)
    ensures Nearest(s, [], p, m) == m
  {
  }

  lemma {:induction false} NearestConcat<P(!new), E(!new)>(s: Space<P, E>, a: seq<E>, b: seq<E>, p: P,
                                           m: SignedDistance)
    ensures Nearest(s, a + b, p, m) == Nearest(s, b, p, Nearest(s, a, p, m))
    decreases |a|
  {
    if a == [] {
      assert a + b == b;
    } else {
      assert (a + b)[1..] == a[1..] + b;
      NearestConcat(s, a[1..], b, p, if Less(s.Signed(a[0], p), m) then s.Signed(a[0], p) else m);
    }
  }

  /** The result of a query that uses no cache and remembers no earlier query. */
  function OneShot<P(!new), E(!new)>(s: Space<P, E>, shape: seq<Contour<E>>, q: P): SignedDistance {
    Nearest(s, Visited(shape), q, UNKNOWN)
  }

  ghost predicate CachesOk<P(!new), E(!new)>(s: Space<P, E>, es: seq<E>, caches: seq<EdgeCache<P>>) {
    |caches| == |es| && forall k :: 0 <= k < |es| ==> CacheOk(s, es[k], caches[k])
  }

  /** A minimum left from an earlier query, inflated for the way the query point has moved, is a harmless start. */
  lemma StaleStart<P(!new), E(!new)>(s: Space<P, E>, es: seq<E>, was: P, q: P, old_: SignedDistance,
                     start: SignedDistance)
    requires s.Metric() && s.length(q, was) >= 0.0
    requires old_ == Nearest(s, es, was, UNKNOWN) || old_ == UNKNOWN
    requires start == old_.(distance := Inflated(old_.distance, DISTANCE_DELTA_FACTOR * s.length(q, was)))
    requires was == q ==> start == old_
    ensures Nearest(s, es, q, start) == Nearest(s, es, q, UNKNOWN)
  {
    if old_ != UNKNOWN {
      NearestIsFirstMinimum(s, es, was, UNKNOWN);
      if was == q {
        NearestIdempotent(s, es, q, old_);
      } else {
        var k :| 0 <= k < |es| && FirstAt(s, es, was, old_, k);
        assert s.Away(es[k], q) <= s.Away(es[k], was) + s.length(q, was);
        assert s.length(q, was) > 0.0;
        NearestForgetsStart(s, es, q, start, UNKNOWN, es[k]);
      }
    }
  }

  class ShapeDistanceFinder<P(!new), E(!new)> {
    const shape: seq<Contour<E>>
    const selector: TrueDistanceSelector<P, E>
    var caches: seq<EdgeCache<P>>

    /** Caches are sound, and the selector holds the answer to the last query, or nothing yet. */
    ghost predicate Valid()
      reads this, selector
    {
      && selector.space.Metric() && CachesOk(selector.space, Visited(shape), caches)
      && (selector.minDistance == OneShot(selector.space, shape, selector.p) || selector.minDistance == UNKNOWN)
    }

    constructor (space: Space<P, E>, shape: seq<Contour<E>>)
      requires space.Metric()
      ensures Valid() && this.shape == shape && selector.space == space && fresh(selector)
      ensures selector.p == space.origin && selector.minDistance == UNKNOWN
    {
      this.shape := shape;
      selector := new TrueDistanceSelector(space);
      caches := seq(|Visited(shape)|, _ => EdgeCache(space.origin, 0.0));
    }

    /** A cached, pruned query gives exactly the signed distance that a query from scratch gives, on every shape and
        after any earlier queries. */
    method Distance(q: P) returns (d: Reach)
      requires Valid()
      modifies this, selector
      ensures Valid() && selector.p == q
      ensures selector.minDistance == OneShot(selector.space, shape, q) && d == selector.minDistance.distance
    {
      ghost var was, old_ := selector.p, selector.minDistance;
      selector.Reset(q);
      ghost var start := selector.minDistance;
      VisitOnce(q);
      StaleStart(selector.space, Visited(shape), was, q, old_, start);
      return selector.minDistance.distance;
    }

    /** The loop over the contours. */
    method VisitOnce(q: P)
      requires selector.space.Metric() && CachesOk(selector.space, Visited(shape), caches) && selector.p == q
      modifies this`caches, selector`minDistance
      ensures CachesOk(selector.space, Visited(shape), caches)
      ensures selector.minDistance == Nearest(selector.space, Visited(shape), q, old(selector.minDistance))
    {
      hide Space.Metric, Visited, Nearest, Rotated;
      ghost var es, s, start := Visited(shape), selector.space, selector.minDistance;
      var at: nat := 0;
      VisitedFrom(shape, 0);
      NearestNone(s, q, start);
      for c := 0 to |shape|
        invariant selector.p == q && at <= |es| && es[at..] == Visited(shape[c..]) && CachesOk(s, es, caches)
        invariant selector.minDistance == Nearest(s, es[..at], q, start)
      {
        VisitedFrom(shape, c);
        if shape[c] != [] {
          at := AddContour(shape[c], q, at, start);
        }
      }
      VisitedFrom(shape, |shape|);
      assert es[..at] == es;
    }

    /** The inner loop, over the edges of one contour. */
    method AddContour(contour: Contour<E>, q: P, from: nat, ghost start: SignedDistance) returns (at: nat)
      requires contour != [] && selector.space.Metric() && CachesOk(selector.space, Visited(shape), caches)
      requires selector.p == q
      requires from + |contour| <= |caches| && Visited(shape)[from..from + |contour|] == Rotated(contour)
      requires selector.minDistance == Nearest(selector.space, Visited(shape)[..from], q, start)
      modifies this`caches, selector`minDistance
      ensures at == from + |contour| && CachesOk(selector.space, Visited(shape), caches)
      ensures selector.minDistance == Nearest(selector.space, Visited(shape)[..at], q, start)
    {
      hide Space.Metric, CacheOk, Visited;
      ghost var es, s := Visited(shape), selector.space;
      var curEdge := contour[|contour| - 1];
      at := from;
      for e := 0 to |contour|
        invariant at == from + e && curEdge == if e == 0 then contour[|contour| - 1] else contour[e - 1]
        invariant CachesOk(s, es, caches) && |caches| == |es|
        invariant selector.minDistance == Nearest(s, es[..at], q, start)
      {
        var nextEdge := contour[e];
        assert es[at] == es[from..from + |contour|][e] == Rotated(contour)[e] == curEdge;
        var cache' := selector.AddEdge(caches[at], curEdge);
        caches := caches[at := cache'];
        NearestConcat(s, es[..at], [curEdge], q, start);
        assert es[..at] + [curEdge] == es[..at + 1];
        at := at + 1;
        curEdge := nextEdge;
      }
    }
  }

  /** The inner loop of `OneShotDistance`, with a new cache entry for every edge. */
  method AddContourOnce<P(!new), E(!new)>(selector: TrueDistanceSelector<P, E>, contour: Contour<E>)
    requires contour != [] && selector.space.Metric()
    modifies selector`minDistance
    ensures selector.minDistance == Nearest(selector.space, Rotated(contour), selector.p, old(selector.minDistance))
  {
    hide Space.Metric;
    ghost var s, start, es := selector.space, selector.minDistance, Rotated(contour);
    var curEdge := contour[|contour| - 1];
    for e := 0 to |contour|
      invariant curEdge == if e == 0 then contour[|contour| - 1] else contour[e - 1]
      invariant selector.minDistance == Nearest(s, es[..e], selector.p, start)
    {
      var nextEdge := contour[e];
      var dummy := EdgeCache(selector.space.origin, 0.0);
      var _ := selector.AddEdge(dummy, curEdge);
      NearestConcat(s, es[..e], [curEdge], selector.p, start);
      assert es[..e] + [curEdge] == es[..e + 1];
      curEdge := nextEdge;
    }
    assert es[..|contour|] == es;
  }

  /** The outer loop of `OneShotDistance`. */
  method AddShapeOnce<P(!new), E(!new)>(selector: TrueDistanceSelector<P, E>, shape: seq<Contour<E>>)
    requires selector.space.Metric()
    modifies selector`minDistance
    ensures selector.minDistance == Nearest(selector.space, Visited(shape), selector.p, old(selector.minDistance))
  {
    hide Space.Metric, Visited, Nearest, Rotated;
    ghost var s, es, start := selector.space, Visited(shape), selector.minDistance;
    ghost var done := [];
    VisitedFrom(shape, 0);
    NearestNone(s, selector.p, start);
    for c := 0 to |shape|
      invariant es == done + Visited(shape[c..])
      invariant selector.minDistance == Nearest(s, done, selector.p, start)
    {
      VisitedNext(shape, c, done);
      NearestNone(s, selector.p, selector.minDistance);
      NearestConcat(s, done, Rotated(shape[c]), selector.p, start);
      if shape[c] != [] {
        AddContourOnce(selector, shape[c]);
      }
      done := done + Rotated(shape[c]);
    }
    VisitedFrom(shape, |shape|);
    assert done + [] == done;
  }

  /** `oneShotDistance`: a new selector, and no memory of earlier queries. */
  method OneShotDistance<P(!new), E(!new)>(space: Space<P, E>, shape: seq<Contour<E>>, q: P) returns (d: Reach)
    requires space.Metric()
    ensures d == OneShot(space, shape, q).distance
  {
    var selector := new TrueDistanceSelector(space);
    selector.Reset(q);
    AddShapeOnce(selector, shape);
    return selector.minDistance.distance;
  }

  /** What the search is for: the least absolute distance of all edges, or the initial distance if there are none. */
  lemma OneShotIsMinimum<P(!new), E(!new)>(s: Space<P, E>, shape: seq<Contour<E>>, q: P)
    ensures var d := OneShot(s, shape, q).distance;
            && (d.Far? <==> Visited(shape) == [])
            && (d.At? ==> (exists e :: e in Visited(shape) && s.edge(e, q).0 == d.value) &&
                          forall e :: e in Visited(shape) ==> Abs(d.value) <= s.Away(e, q))
  {
    var es, m := Visited(shape), OneShot(s, shape, q);
    NearestIsFirstMinimum(s, es, q, UNKNOWN);
    if es != [] {
      assert es[0] in es && Less(s.Signed(es[0], q), UNKNOWN);
    }
    forall e | e in es
      ensures m.distance.At? && Abs(m.distance.value) <= s.Away(e, q)
    {
      assert !Less(s.Signed(e, q), m);
    }
    if m != UNKNOWN {
      var k :| 0 <= k < |es| && FirstAt(s, es, q, m, k);
      assert es[k] in es && s.edge(es[k], q).0 == m.distance.value;
    }
  }

  /** Edge `k` is nearest: no other one is closer, or as close with a smaller alignment, or equal in both and
      earlier. */
  ghost predicate IsNearest<P(!new), E(!new)>(s: Space<P, E>, es: seq<E>, q: P, k: nat)
    requires k < |es|
  {
    forall j :: 0 <= j < |es| ==>
      var (dk, ak) := s.edge(es[k], q);
      var (dj, aj) := s.edge(es[j], q);
      Abs(dk) < Abs(dj) || (Abs(dk) == Abs(dj) && (ak < aj || (ak == aj && k <= j)))
  }

  /** Distance and alignment found are those of the nearest edge. */
  lemma OneShotIsFirstNearest<P(!new), E(!new)>(s: Space<P, E>, shape: seq<Contour<E>>, q: P)
    ensures var es, m := Visited(shape), OneShot(s, shape, q);
            if es == [] then m == SignedDistance(Far, 0.0)
            else exists k :: 0 <= k < |es| && IsNearest(s, es, q, k)
                             && m == SignedDistance(At(s.edge(es[k], q).0), s.edge(es[k], q).1)
  {
    var es, m := Visited(shape), OneShot(s, shape, q);
    NearestIsFirstMinimum(s, es, q, UNKNOWN);
    if es != [] {
      assert es[0] in es && Less(s.Signed(es[0], q), UNKNOWN);
      var k :| 0 <= k < |es| && FirstAt(s, es, q, m, k);
      forall j | 0 <= j < |es|
        ensures !Less(s.Signed(es[j], q), m) && (j < k ==> Less(m, s.Signed(es[j], q)))
      {
        assert es[j] in es;
      }
      assert IsNearest(s, es, q, k);
    }
  }

  /** The edges of a contour are visited from the last one on. */
  lemma RotatedFromLast<E>(c: Contour<E>, k: nat)
    requires k < |c|
    ensures |Rotated(c)| == |c| && Rotated(c)[k] == c[if k == 0 then |c| - 1 else k - 1]
  {
  }
}
