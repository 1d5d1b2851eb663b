/** Powers of two, used for shifts, masks and table sizes. */
module Powers {

  function Pow2(n: nat): (p: nat)
    ensures p >= 1
  {
    if n == 0 then 1 else 2 * Pow2(n - 1)
  }

  lemma Pow2Step(n: nat)
    ensures if n == 0 then Pow2(n) == 1 else Pow2(n) == 2 * Pow2(n - 1)
  {
  }

  function Quotient(v: nat, p: nat): (q: nat)
    requires p > 0
    ensures p * q <= v < p * q + p
  {
    assert p * (v / p) + v % p == v;
    v / p
  }

  function Remainder(v: nat, p: nat): (r: nat)
    requires p > 0
    ensures r < p && v == p * Quotient(v, p) + r
  {
    v % p
  }

  lemma SmallRemainder(x: nat, p: nat)
    requires x < p
    ensures x % p == x
  {
  }

  lemma {:induction false} Pow2Add(a: nat, b: nat)
    ensures Pow2(a + b) == Pow2(a) * Pow2(b)
  {
    if a == 0 {
    } else {
      Pow2Add(a - 1, b);
      assert Pow2(a + b) == 2 * (Pow2(a - 1) * Pow2(b));
    }
  }

  lemma {:induction false} Pow2Monotone(a: nat, b: nat)
    requires a <= b
    ensures Pow2(a) <= Pow2(b)
    ensures a < b ==> 2 * Pow2(a) <= Pow2(b)
    decreases b
  {
    if a == b {
    } else {
      Pow2Monotone(a, b - 1);
    }
  }

  predicate IsPowerOf2(v: nat) {
    v == 1 || (v > 1 && v % 2 == 0 && IsPowerOf2(v / 2))
  }

  function FloorLog2(v: nat): nat {
    if v <= 1 then 0 else 1 + FloorLog2(v / 2)
  }

  /** The least power of two not below `v`, searched upwards from the power of two `p`. */
  function NextPow2From(p: nat, v: nat): (r: nat)
    requires IsPowerOf2(p) && p < 2 * v
    ensures IsPowerOf2(r) && v <= r < 2 * v
    decreases v - p
  {
    if p >= v then p else NextPow2From(2 * p, v)
  }

  lemma {:induction false} PowerOf2Exponent(v: nat)
    requires IsPowerOf2(v)
    ensures v == Pow2(FloorLog2(v))
  {
    if v > 1 {
      PowerOf2Exponent(v / 2);
    }
  }

  lemma {:induction false} FloorLog2Bounds(v: nat)
    requires v >= 1
    ensures Pow2(FloorLog2(v)) <= v < 2 * Pow2(FloorLog2(v))
  {
    if v > 1 {
      FloorLog2Bounds(v / 2);
    }
  }

  lemma {:induction false} Pow2IsPowerOf2(n: nat)
    ensures IsPowerOf2(Pow2(n))
  {
    if n > 0 {
      Pow2IsPowerOf2(n - 1);
    }
  }

  /** Two powers of two less than a factor of two apart are equal. */
  lemma {:induction false} PowersOf2Apart(a: nat, b: nat)
    requires IsPowerOf2(a) && IsPowerOf2(b) && a < 2 * b && b < 2 * a
    ensures a == b
  {
    if a > 1 && b > 1 {
      PowersOf2Apart(a / 2, b / 2);
    }
  }

  // ---------------------------------------------------------------- products and quotients

  lemma MulLe(a: nat, b: nat, c: nat, d: nat)
    requires a <= b && c <= d
    ensures a * c <= b * d
  {
    assert a * c <= b * c <= b * d;
  }

  lemma MulAssoc(a: int, b: int, c: int)
    ensures a * b * c == a * (b * c)
  {
  }

  lemma TwiceTimes(d: int, p: int, x: int)
    requires d == 2 * p
    ensures d * x == 2 * (p * x)
  {
  }

  lemma MulRotate(a: nat, b: nat, c: nat)
    ensures a * (b * c) == b * (c * a)
  {
  }

  lemma Distribute(a: int, b: int, c: int)
    ensures a * (b + c) == a * b + a * c
  {
  }

  lemma DistributeSub(a: int, b: int, c: int)
    ensures a * (b - c) == a * b - a * c
  {
  }

  lemma MultipleIsFar(p: int, d: int)
    requires p > 0
    ensures d >= 1 ==> p * d >= p
    ensures d <= -1 ==> p * d <= -p
  {
  }

  lemma DivModOf(x: nat, p: nat, q: nat, r: nat)
    requires p > 0 && x == p * q + r && r < p
    ensures x / p == q && x % p == r
  {
    assert p * (x / p) + x % p == x;
    DistributeSub(p, x / p, q);
    MultipleIsFar(p, x / p - q);
  }

  lemma DivDiv(w: nat, a: nat, b: nat)
    requires a > 0 && b > 0
    ensures a * b > 0 && w / a / b == w / (a * b)
  {
    var q, r := Quotient(w, a), Remainder(w, a);
    var q', r' := Quotient(q, b), Remainder(q, b);
    MulAssoc(a, b, q');
    Distribute(a, b * q', r');
    assert a * r' + r < a * b by {
      MulLe(r' + 1, b, a, a);
    }
    DivModOf(w, a * b, q', a * r' + r);
  }

  lemma ModProduct(w: nat, p: nat, q: nat)
    requires p > 0 && q > 0
    ensures p * q > 0 && w % (p * q) % p == w % p
  {
    var x, y := Quotient(w, p * q), Remainder(w, p * q);
    var u, v := Quotient(y, p), Remainder(y, p);
    MulAssoc(p, q, x);
    Distribute(p, q * x, u);
    DivModOf(w, p, q * x + u, v);
  }

  /** Cutting to fewer bits after cutting to more. */
  lemma ModMod(w: nat, a: nat, b: nat)
    requires a <= b
    ensures w % Pow2(b) % Pow2(a) == w % Pow2(a)
  {
    Pow2Add(a, b - a);
    ModProduct(w, Pow2(a), Pow2(b - a));
  }

  /** The next number with the same remainder. */
  lemma NextResidue(j: nat, p: nat, rev: nat)
    requires p > 0 && j % p == rev
    ensures (j + p) % p == rev
    ensures forall x :: j < x < j + p ==> x % p != rev
  {
    Distribute(p, j / p, 1);
    DivModOf(j + p, p, j / p + 1, rev);
    forall x | j < x < j + p
      ensures x % p != rev
    {
      DistributeSub(p, x / p, j / p);
      MultipleIsFar(p, x / p - j / p);
    }
  }

  lemma HighPart(w: nat, p: nat, q: nat)
    requires p > 0 && q > 0
    ensures p * q > 0 && w % (p * q) / p == w / p % q
  {
    var x, y := Quotient(w, p), Remainder(w, p);
    var u, v := Quotient(x, q), Remainder(x, q);
    MulAssoc(p, q, u);
    Distribute(p, q * u, v);
    assert p * v + y < p * q by {
      MulLe(p, p, v + 1, q);
    }
    DivModOf(w, p * q, u, p * v + y);
    DivModOf(p * v + y, p, v, y);
  }

  lemma ScaleMod(b: nat, p: nat, m: nat)
    requires p > 0 && m > 0
    ensures p * m > 0 && b * p % (p * m) == p * (b % m)
  {
    var q, r := Quotient(b, m), Remainder(b, m);
    Distribute(p, m * q, r);
    MulAssoc(p, m, q);
    MulLe(p, p, r + 1, m);
    Distribute(p, r, 1);
    DivModOf(b * p, p * m, q, p * r);
  }

  lemma ScaleDiv(x: nat, p: nat, u: nat)
    requires p > 0 && u > 0
    ensures p * u > 0 && p * x / (p * u) == x / u
  {
    var q, r := Quotient(x, u), Remainder(x, u);
    Distribute(p, u * q, r);
    MulAssoc(p, u, q);
    MulLe(p, p, r + 1, u);
    Distribute(p, r, 1);
    DivModOf(p * x, p * u, q, p * r);
  }

  /** Shifting left within a word and taking the top: the same as shifting right and masking. */
  lemma ShiftMask(b: nat, p: nat, u: nat, r: nat)
    requires p > 0 && u > 0 && r > 0
    ensures p * u * r > 0 && p * u > 0 && b * p % (p * u * r) / (p * u) == b / u % r
  {
    HighPart(b, u, r);
    ScaleMod(b, p, u * r);
    ScaleDiv(Remainder(b, u * r), p, u);
    MulAssoc(p, u, r);
  }
}
