/** stb_image's bit reversal with masks and shifts, and what it computes. */
module BitReversal {
  import opened Canonical
  import opened Powers

  // ---------------------------------------------------------------- operators on non-negative integers

  /** Binary digit `j`. */
  function Digit(n: nat, j: nat): (d: nat)
    ensures d <= 1
  {
    if j == 0 then n % 2 else Digit(n / 2, j - 1)
  }

  /** `a & b`. */
  function And(a: nat, b: nat): (r: nat)
    ensures r <= a && r <= b
  {
    if a == 0 || b == 0 then 0 else (a % 2) * (b % 2) + 2 * And(a / 2, b / 2)
  }

  /** `a | b`. */
  function Or(a: nat, b: nat): (r: nat)
    decreases a + b
  {
    if a == 0 then b else if b == 0 then a
    else (if a % 2 == 1 || b % 2 == 1 then 1 else 0) + 2 * Or(a / 2, b / 2)
  }

  /** `n >> g`. */
  function Shr(n: nat, g: nat): (r: nat) {
    if g == 0 then n else Shr(n / 2, g - 1)
  }

  /** `n << g`. */
  function Shl(n: nat, g: nat): (r: nat) {
    if g == 0 then n else 2 * Shl(n, g - 1)
  }

  lemma {:induction false} ZeroDigits(j: nat)
    ensures Digit(0, j) == 0
  {
    if j > 0 {
      ZeroDigits(j - 1);
    }
  }

  lemma DigitOfSum(low: nat, high: nat, j: nat)
    requires low <= 1
    ensures Digit(low + 2 * high, j) == if j == 0 then low else Digit(high, j - 1)
  {
  }

  lemma {:induction false} AndDigit(a: nat, b: nat, j: nat)
    ensures Digit(And(a, b), j) == Digit(a, j) * Digit(b, j)
  {
    if a == 0 || b == 0 {
      ZeroDigits(j);
    } else {
      DigitOfSum((a % 2) * (b % 2), And(a / 2, b / 2), j);
      if j > 0 {
        AndDigit(a / 2, b / 2, j - 1);
      }
    }
  }

  lemma {:induction false} OrDigit(a: nat, b: nat, j: nat)
    ensures Digit(Or(a, b), j) == if Digit(a, j) == 1 || Digit(b, j) == 1 then 1 else 0
    decreases j
  {
    if a == 0 || b == 0 {
      ZeroDigits(j);
    } else if j > 0 {
      OrDigit(a / 2, b / 2, j - 1);
    }
  }

  lemma {:induction false} ShrDigit(n: nat, g: nat, j: nat)
    ensures Digit(Shr(n, g), j) == Digit(n, j + g)
    decreases g
  {
    if g > 0 {
      ShrDigit(n / 2, g - 1, j);
    }
  }

  lemma DoubleDigit(x: nat, j: nat)
    ensures Digit(2 * x, j) == if j == 0 then 0 else Digit(x, j - 1)
  {
  }

  lemma {:induction false} ShlDigit(n: nat, g: nat, j: nat)
    ensures Digit(Shl(n, g), j) == if j < g then 0 else Digit(n, j - g)
    decreases g
  {
    if g > 0 {
      var x := Shl(n, g - 1);
      assert Shl(n, g) == 2 * x;
      DoubleDigit(x, j);
      if j > 0 {
        ShlDigit(n, g - 1, j - 1);
      }
    }
  }

  // ---------------------------------------------------------------- one round: swapping neighbouring groups of digits

  function Swapped(n: nat, g: nat, hi: nat, lo: nat): (r: nat) {
    Or(Shr(And(n, hi), g), Shl(And(n, lo), g))
  }

  /** The digit that changes places with digit `j` when groups of `g` digits are swapped. */
  function Partner(j: nat, g: nat): (k: nat)
    requires g > 0
  {
    if Upper(j, g) == 1 then j - g else j + g
  }

  /** Whether digit `j` is in a group that moves down. */
  function Upper(j: nat, g: nat): (u: nat)
    requires g > 0
    ensures u <= 1
  {
    j / g % 2
  }

  lemma NextGroup(j: nat, g: nat)
    requires g > 0
    ensures Upper(j + g, g) == 1 - Upper(j, g)
  {
    Quotients(j + g, g, j / g + 1, j % g);
  }

  lemma Quotients(x: nat, p: nat, q: nat, r: nat)
    requires p > 0 && r < p && x == q * p + r
    ensures x / p == q
  {
    DivModOf(x, p, q, r);
  }

  lemma UpperFits(j: nat, g: nat)
    requires (g == 1 || g == 2 || g == 4 || g == 8) && j < 16
    ensures if Upper(j, g) == 1 then j >= g else j + g < 16
  {
  }

  lemma PartnerFacts(j: nat, g: nat)
    requires (g == 1 || g == 2 || g == 4 || g == 8) && j < 16
    ensures if Upper(j, g) == 1 then Partner(j, g) == j - g && g <= j else Partner(j, g) == j + g < 16
    ensures Upper(j + g, g) == 1 - Upper(j, g) && (j >= g ==> Upper(j - g, g) == 1 - Upper(j, g))
  {
    UpperFits(j, g);
    NextGroup(j, g);
    if j >= g {
      NextGroup(j - g, g);
    }
  }

  /** `lo` selects every other group of `g` digits, starting with the lowest, and `hi` the groups between. */
  ghost predicate Groups(g: nat, hi: nat, lo: nat)
    requires g > 0
  {
    forall k :: 0 <= k < 24 ==>
      Digit(hi, k) == (if k < 16 then Upper(k, g) else 0) && (k < 16 ==> Digit(lo, k) == 1 - Upper(k, g))
  }

  lemma SwappedDigit(n: nat, g: nat, hi: nat, lo: nat, j: nat)
    requires g == 1 || g == 2 || g == 4 || g == 8
    requires Groups(g, hi, lo) && j < 16
    ensures Partner(j, g) < 16 && Digit(Swapped(n, g, hi, lo), j) == Digit(n, Partner(j, g))
  {
    hide Digit, And, Or, Shr, Shl, Upper, Partner;
    PartnerFacts(j, g);
    OrDigit(Shr(And(n, hi), g), Shl(And(n, lo), g), j);
    ShrDigit(And(n, hi), g, j);
    AndDigit(n, hi, j + g);
    ShlDigit(And(n, lo), g, j);
    if j >= g {
      AndDigit(n, lo, j - g);
    }
  }

  /** Digit `k` of a hexadecimal digit. */
  function NibbleBit(n: nat, k: nat): (d: nat)
    requires k < 4
  {
    if k == 0 then n % 2 else if k == 1 then n / 2 % 2 else if k == 2 then n / 4 % 2 else n / 8 % 2
  }

  lemma NibbleDigit(n: nat, k: nat)
    ensures Digit(n, k) == if k < 4 then NibbleBit(n, k) else Digit(n / 16, k - 4)
  {
    assert n / 2 / 2 == n / 4 && n / 4 / 2 == n / 8 && n / 8 / 2 == n / 16;
    if k > 0 {
      assert Digit(n, k) == Digit(n / 2, k - 1);
    }
    if k > 1 {
      assert Digit(n / 2, k - 1) == Digit(n / 4, k - 2);
    }
    if k > 2 {
      assert Digit(n / 4, k - 2) == Digit(n / 8, k - 3);
    }
  }

  lemma NibbleBits(n: nat, low: nat, k: nat)
    requires low < 16 && k < 4
    ensures NibbleBit(16 * n + low, k) == NibbleBit(low, k)
  {
    if k == 0 {
      DropMultiple(8 * n, low, 1);
    } else if k == 1 {
      DropMultiple(4 * n, low, 2);
    } else if k == 2 {
      DropMultiple(2 * n, low, 4);
    } else {
      DropMultiple(n, low, 8);
    }
  }

  lemma DropMultiple(m: nat, low: nat, p: nat)
    requires p > 0
    ensures (2 * m * p + low) / p % 2 == low / p % 2
  {
    AddMultiple(2 * m, low, p);
    TwiceMore(m, low / p);
  }

  lemma TwiceMore(m: nat, x: nat)
    ensures (2 * m + x) % 2 == x % 2
  {
  }

  lemma AddMultiple(m: nat, low: nat, p: nat)
    requires p > 0
    ensures (m * p + low) / p == m + low / p
  {
    DivModOf(m * p + low, p, m + low / p, low % p) by {
      Distribute(p, m, low / p);
    }
  }

  /** The digits of a mask of four hexadecimal digits, the lowest first. */
  lemma MaskDigit(n0: nat, n1: nat, n2: nat, n3: nat, k: nat)
    requires n0 < 16 && n1 < 16 && n2 < 16 && n3 < 16
    ensures Digit(4096 * n3 + 256 * n2 + 16 * n1 + n0, k)
         == if k < 4 then NibbleBit(n0, k) else if k < 8 then NibbleBit(n1, k - 4)
         else if k < 12 then NibbleBit(n2, k - 8)
            else if k < 16 then NibbleBit(n3, k - 12) else 0
  {
    hide Digit, NibbleBit;
    var m0, m1, m2 := 4096 * n3 + 256 * n2 + 16 * n1 + n0, 256 * n3 + 16 * n2 + n1, 16 * n3 + n2;
    assert m0 / 16 == m1 && m1 / 16 == m2 && m2 / 16 == n3 && n3 / 16 == 0;
    NibbleDigit(m0, k);
    if k < 4 {
      NibbleBits(m1, n0, k);
    } else if k < 8 {
      NibbleDigit(m1, k - 4);
      NibbleBits(m2, n1, k - 4);
    } else if k < 12 {
      NibbleDigit(m1, k - 4);
      NibbleDigit(m2, k - 8);
      NibbleBits(n3, n2, k - 8);
    } else {
      NibbleDigit(m1, k - 4);
      NibbleDigit(m2, k - 8);
      NibbleDigit(n3, k - 12);
      if k >= 16 {
        ZeroDigits(k - 16);
      }
    }
  }

  lemma Masks1()
    ensures Groups(1, 0xAAAA, 0x5555)
  {
    hide Digit;
    forall k: nat | k < 24
      ensures Digit(0xAAAA, k) == (if k < 16 then Upper(k, 1) else 0)
      ensures (k < 16 ==> Digit(0x5555, k) == 1 - Upper(k, 1))
    {
      MaskDigit(10, 10, 10, 10, k);
      MaskDigit(5, 5, 5, 5, k);
    }
  }

  lemma Masks2()
    ensures Groups(2, 0xCCCC, 0x3333)
  {
    hide Digit;
    forall k: nat | k < 24
      ensures Digit(0xCCCC, k) == (if k < 16 then Upper(k, 2) else 0)
      ensures (k < 16 ==> Digit(0x3333, k) == 1 - Upper(k, 2))
    {
      MaskDigit(12, 12, 12, 12, k);
      MaskDigit(3, 3, 3, 3, k);
    }
  }

  lemma Masks4()
    ensures Groups(4, 0xF0F0, 0x0F0F)
  {
    hide Digit;
    forall k: nat | k < 24
      ensures Digit(0xF0F0, k) == (if k < 16 then Upper(k, 4) else 0)
      ensures (k < 16 ==> Digit(0x0F0F, k) == 1 - Upper(k, 4))
    {
      MaskDigit(0, 15, 0, 15, k);
      MaskDigit(15, 0, 15, 0, k);
    }
  }

  lemma Masks8()
    ensures Groups(8, 0xFF00, 0x00FF)
  {
    hide Digit;
    forall k: nat | k < 24
      ensures Digit(0xFF00, k) == (if k < 16 then Upper(k, 8) else 0)
      ensures (k < 16 ==> Digit(0x00FF, k) == 1 - Upper(k, 8))
    {
      MaskDigit(0, 0, 15, 15, k);
      MaskDigit(15, 15, 0, 0, k);
    }
  }

  // ---------------------------------------------------------------- reversal

  /** `stbi__bitreverse16`: four rounds of swapping ever larger groups of bits. */
  function BitReverse16(n: nat): (r: nat) {
    var a := Or(Shr(And(n, 0xAAAA), 1), Shl(And(n, 0x5555), 1));
    var b := Or(Shr(And(a, 0xCCCC), 2), Shl(And(a, 0x3333), 2));
    var c := Or(Shr(And(b, 0xF0F0), 4), Shl(And(b, 0x0F0F), 4));
    Or(Shr(And(c, 0xFF00), 8), Shl(And(c, 0x00FF), 8))
  }

  /** `stbi__bit_reverse`: reverses 16 bits and shifts. */
  function BitReverse(v: nat, bits: nat): (r: nat)
    requires bits <= 16
  {
    Shr(BitReverse16(v), 16 - bits)
  }

  lemma FourPartners(j: nat)
    requires j < 16
    ensures Partner(j, 8) < 16 && Partner(Partner(j, 8), 4) < 16 && Partner(Partner(Partner(j, 8), 4), 2) < 16
    ensures Partner(Partner(Partner(Partner(j, 8), 4), 2), 1) == 15 - j
  {
  }

  /** Every bit changes places with its mirror image. */
  lemma ReversedDigit(n: nat, j: nat)
    requires j < 16
    ensures Digit(BitReverse16(n), j) == Digit(n, 15 - j)
  {
    hide Digit, Swapped, Groups, Partner, BitReverse16;
    Masks1();
    Masks2();
    Masks4();
    Masks8();
    FourPartners(j);
    var a := Swapped(n, 1, 0xAAAA, 0x5555);
    var b := Swapped(a, 2, 0xCCCC, 0x3333);
    var c := Swapped(b, 4, 0xF0F0, 0x0F0F);
    AllRounds(n);
    SwappedDigit(c, 8, 0xFF00, 0x00FF, j);
    SwappedDigit(b, 4, 0xF0F0, 0x0F0F, Partner(j, 8));
    SwappedDigit(a, 2, 0xCCCC, 0x3333, Partner(Partner(j, 8), 4));
    SwappedDigit(n, 1, 0xAAAA, 0x5555, Partner(Partner(Partner(j, 8), 4), 2));
  }

  lemma AllRounds(n: nat)
    ensures BitReverse16(n)
         == Swapped(
              Swapped(Swapped(Swapped(n, 1, 0xAAAA, 0x5555), 2, 0xCCCC, 0x3333), 4, 0xF0F0, 0x0F0F),
              8, 0xFF00, 0x00FF)
  {
    hide And, Or, Shr, Shl;
  }

  // ---------------------------------------------------------------- agreement with the mathematical reversal

  lemma {:induction false} LowDigits(x: nat, b: nat, n: nat, j: nat)
    requires x < Pow2(n) && b <= 1 && j <= n
    ensures Digit(b * Pow2(n) + x, j) == if j == n then b else Digit(x, j)
    decreases n
  {
    if n > 0 {
      Pow2Step(n);
      var p := Pow2(n - 1);
      assert (b * (2 * p) + x) / 2 == b * p + x / 2 && (b * (2 * p) + x) % 2 == x % 2;
      if j > 0 {
        LowDigits(x / 2, b, n - 1, j - 1);
      }
    }
  }

  lemma {:induction false} RevDigit(w: nat, n: nat, j: nat)
    requires j < n
    ensures Digit(Rev(w, n), j) == Digit(w, n - 1 - j)
    decreases n
  {
    hide Pow2;
    RevStep(w, n);
    LowDigits(Rev(w / 2, n - 1), w % 2, n - 1, j);
    if j < n - 1 {
      RevDigit(w / 2, n - 1, j);
    }
  }

  /** Numbers with equal digits are equal. */
  lemma {:induction false} SameDigits(a: nat, b: nat, n: nat)
    requires a < Pow2(n) && b < Pow2(n) && forall j :: 0 <= j < n ==> Digit(a, j) == Digit(b, j)
    ensures a == b
    decreases n
  {
    if n > 0 {
      Pow2Step(n);
      assert Digit(a, 0) == a % 2 && Digit(b, 0) == b % 2;
      forall j | 0 <= j < n - 1
        ensures Digit(a / 2, j) == Digit(b / 2, j)
      {
        var j' := j + 1;
        assert Digit(a, j') == Digit(b, j');
      }
      SameDigits(a / 2, b / 2, n - 1);
    }
  }

  lemma {:induction false} OrBelow(a: nat, b: nat, n: nat)
    requires a < Pow2(n) && b < Pow2(n)
    ensures Or(a, b) < Pow2(n)
    decreases n
  {
    if n > 0 {
      Pow2Step(n);
      OrBelow(a / 2, b / 2, n - 1);
    }
  }

  lemma {:induction false} ShrBelow(n: nat, g: nat)
    ensures Shr(n, g) <= n
    decreases g
  {
    if g > 0 {
      ShrBelow(n / 2, g - 1);
    }
  }

  lemma ShlEight(n: nat)
    ensures Shl(n, 8) == 256 * n
  {
    assert Shl(n, 1) == 2 * n && Shl(n, 2) == 4 * n && Shl(n, 3) == 8 * n && Shl(n, 4) == 16 * n && Shl(n, 5) == 32 * n;
    assert Shl(n, 6) == 64 * n && Shl(n, 7) == 128 * n;
  }

  lemma Pow16()
    ensures Pow2(16) == 0x10000
  {
    assert Pow2(8) == 256;
  }

  lemma FitsSixteen(n: nat)
    ensures BitReverse16(n) < Pow2(16)
  {
    hide And, Or, Shr, Shl;
    var a := Or(Shr(And(n, 0xAAAA), 1), Shl(And(n, 0x5555), 1));
    var b := Or(Shr(And(a, 0xCCCC), 2), Shl(And(a, 0x3333), 2));
    var c := Or(Shr(And(b, 0xF0F0), 4), Shl(And(b, 0x0F0F), 4));
    ShrBelow(And(c, 0xFF00), 8);
    ShlEight(And(c, 0x00FF));
    Pow16();
    OrBelow(Shr(And(c, 0xFF00), 8), Shl(And(c, 0x00FF), 8), 16);
  }

  /** Masks and shifts reverse the 16 low bits. */
  lemma BitReverse16IsRev(n: nat)
    ensures BitReverse16(n) == Rev(n, 16)
  {
    hide Pow2, Rev, BitReverse16;
    FitsSixteen(n);
    forall j | 0 <= j < 16
      ensures Digit(BitReverse16(n), j) == Digit(Rev(n, 16), j)
    {
      ReversedDigit(n, j);
      RevDigit(n, 16, j);
    }
    SameDigits(BitReverse16(n), Rev(n, 16), 16);
  }

  lemma {:induction false} ShrIsQuotient(n: nat, g: nat)
    ensures Shr(n, g) == Quotient(n, Pow2(g))
    decreases g
  {
    if g > 0 {
      ShrIsQuotient(n / 2, g - 1);
      Pow2Step(g);
      DivDiv(n, 2, Pow2(g - 1));
    }
  }

  /** Reversing 16 bits and shifting reverses the `bits` low bits. */
  lemma BitReverseIsRev(v: nat, bits: nat)
    requires bits <= 16
    ensures BitReverse(v, bits) == Rev(v, bits)
  {
    hide Rev, Pow2, BitReverse16, Shr;
    BitReverse16IsRev(v);
    ShrIsQuotient(Rev(v, 16), 16 - bits);
    RevSplit(v, bits, 16 - bits);
    DivModOf(Rev(v, 16), Pow2(16 - bits), Rev(v, bits), Rev(Quotient(v, Pow2(bits)), 16 - bits));
  }
}
