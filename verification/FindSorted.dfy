/** Uniform binary search over a sorted vector (Knuth, Algorithm 6.2.1 U), unrolled twice as in basisu. */
module FindSorted {

  const INVALID_INDEX := -1

  /** The element type's `<` is a strict total order. */
  ghost predicate TotalOrder<T(!new)>(less: (T, T) -> bool) {
    && (forall x, y :: less(x, y) ==> !less(y, x))
    && (forall x, y, z :: less(x, y) && less(y, z) ==> less(x, z))
    && (forall x, y :: less(x, y) || less(y, x) || x == y)
  }

  ghost predicate NonDecreasing<T(!new)>(a: seq<T>, less: (T, T) -> bool) {
    forall i, j :: 0 <= i <= j < |a| ==> !less(a[j], a[i])
  }

  /** The step to the next probe: half the remaining width, rounded up, to the left if the key is smaller.
      `cmp` is 0 or 1, and `(d ^ -cmp) - -cmp` is `d` or `-d`. */
  function Step(m: nat, cmp: bool): int {
    if cmp then -((m + 1) / 2) else (m + 1) / 2
  }

  /** All occurrences of the key lie within `m / 2` slots of the probe `i`, and so does the window itself. */
  ghost predicate Window<T(!new)>(a: seq<T>, key: T, i: int, m: int) {
    && 0 <= i < |a| && m >= 1 && i + 1 - m / 2 >= 0 && i + 1 + m / 2 <= |a|
    && forall x :: 0 <= x < |a| && a[x] == key ==> i - m / 2 <= x <= i + m / 2
  }

  /** One probe that misses either moves to a window half as wide or has ruled the key out. Only the left end can be
      overrun, and only when no candidate is left. */
  lemma ProbeMisses<T(!new)>(a: seq<T>, less: (T, T) -> bool, key: T, i: int, m: int)
    requires TotalOrder(less) && NonDecreasing(a, less) && Window(a, key, i, m) && a[i] != key
    ensures var m' := m / 2; var i' := i + Step(m', less(key, a[i]));
            if m' == 0 || i' < 0 then key !in a else Window(a, key, i', m')
  {
    var m' := m / 2;
    var i' := i + Step(m', less(key, a[i]));
    if less(key, a[i]) {
      assert forall x :: i <= x < |a| ==> !less(a[x], a[i]) && a[x] != key;
    } else {
      assert forall x :: 0 <= x <= i ==> !less(a[i], a[x]) && a[x] != key;
    }
    if m' == 0 || i' < 0 {
      assert forall x :: 0 <= x < |a| ==> a[x] != key;
    }
  }

  method FindSorted<T(==, !new)>(a: seq<T>, less: (T, T) -> bool, key: T) returns (index: int)
    requires TotalOrder(less) && NonDecreasing(a, less) && |a| < 0x8000_0000
    ensures if key in a then 0 <= index < |a| && a[index] == key else index == -1
  {
    if |a| != 0 {
      var i := (|a| + 1) / 2 - 1;
      var m := |a|;
      while true
        invariant Window(a, key, i, m)
        decreases m
      {
        var cmp := less(key, a[i]);
        if !cmp && key == a[i] {
          return i;
        }
        ProbeMisses(a, less, key, i, m);
        m := m / 2;
        if m == 0 {
          break;
        }
        i := i + Step(m, cmp);
        if i < 0 {
          break;
        }

        cmp := less(key, a[i]);
        if !cmp && key == a[i] {
          return i;
        }
        ProbeMisses(a, less, key, i, m);
        m := m / 2;
        if m == 0 {
          break;
        }
        i := i + Step(m, cmp);
        if i < 0 {
          break;
        }
      }
    }
    return INVALID_INDEX;
  }
}
