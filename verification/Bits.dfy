/** Byte sequences as infinite bit strings, least significant bit first, padded with zeros behind the last byte. */
module Bits {
  import opened Bytes
  import opened Powers

  function Bit(buf: seq<Byte>, k: nat): (b: nat)
    ensures b <= 1
  {
    if k / 8 < |buf| then buf[k / 8] / Pow2(k % 8) % 2 else 0
  }

  /** The number whose binary digits are the `n` bits from position `k` on, the first bit being the lowest digit. */
  function Window(buf: seq<Byte>, k: nat, n: nat): (w: nat)
    ensures w < Pow2(n)
    decreases n
  {
    if n == 0 then 0 else Bit(buf, k) + 2 * Window(buf, k + 1, n - 1)
  }

  lemma WindowFirst(buf: seq<Byte>, k: nat, n: nat)
    ensures Window(buf, k, n) == if n == 0 then 0 else Bit(buf, k) + 2 * Window(buf, k + 1, n - 1)
  {
  }

  lemma SplitSum(bit: nat, low: nat, d: nat, p: nat, high: nat)
    requires d == 2 * p
    ensures bit + 2 * (low + p * high) == bit + 2 * low + d * high
  {
    TwiceTimes(d, p, high);
  }

  lemma {:induction false} WindowSplit(buf: seq<Byte>, k: nat, a: nat, b: nat)
    ensures Window(buf, k, a + b) == Window(buf, k, a) + Pow2(a) * Window(buf, k + a, b)
    decreases a
  {
    hide Window, Pow2, Bit;
    Pow2Step(a);
    WindowFirst(buf, k, a);
    if a > 0 {
      WindowFirst(buf, k, a + b);
      WindowSplit(buf, k + 1, a - 1, b);
      assert k + 1 + (a - 1) == k + a && a - 1 + b == a + b - 1;
      SplitSum(Bit(buf, k), Window(buf, k + 1, a - 1), Pow2(a), Pow2(a - 1), Window(buf, k + a, b));
    }
  }

  /** Masking keeps the first bits of a window; shifting drops them. */
  lemma WindowCut(buf: seq<Byte>, k: nat, n: nat, m: nat)
    requires m <= n
    ensures Window(buf, k, n) % Pow2(m) == Window(buf, k, m)
    ensures Window(buf, k, n) / Pow2(m) == Window(buf, k + m, n - m)
  {
    WindowSplit(buf, k, m, n - m);
    DivModOf(Window(buf, k, n), Pow2(m), Window(buf, k + m, n - m), Window(buf, k, m));
  }

  lemma {:induction false} WindowInByte(buf: seq<Byte>, i: nat, j: nat)
    requires j <= 8
    ensures Window(buf, 8 * i + j, 8 - j) == if i < |buf| then buf[i] / Pow2(j) else 0
    decreases 8 - j
  {
    hide Window, Pow2;
    WindowFirst(buf, 8 * i + j, 8 - j);
    if j == 8 {
      NoByteLeft();
    } else {
      WindowInByte(buf, i, j + 1);
      DivModOf(8 * i + j, 8, i, j);
      Pow2Step(j + 1);
      if i < |buf| {
        HalveQuotient(buf[i], Pow2(j));
      }
    }
  }

  lemma NoByteLeft()
    ensures Pow2(8) == 256
  {
  }

  lemma HalveQuotient(x: nat, p: nat)
    requires p > 0
    ensures x / p == x / p % 2 + 2 * (x / (2 * p))
  {
    DivDiv(x, p, 2);
  }

  /** A whole byte, or zero padding. */
  lemma WindowByte(buf: seq<Byte>, i: nat)
    ensures Window(buf, 8 * i, 8) == if i < |buf| then buf[i] else 0
  {
    hide Window, Pow2;
    Pow2Step(0);
    WindowInByte(buf, i, 0);
  }

  /** Appending a whole byte to a window. */
  lemma AppendByte(buf: seq<Byte>, at: nat, size: nat, i: nat)
    requires at + size == 8 * i
    ensures Window(buf, at, size + 8) == Window(buf, at, size) + Pow2(size) * (if i < |buf| then buf[i] else 0)
  {
    hide Window, Pow2;
    WindowSplit(buf, at, size, 8);
    WindowByte(buf, i);
  }

  lemma {:induction false} WindowBehindEnd(buf: seq<Byte>, k: nat, n: nat)
    requires k >= 8 * |buf|
    ensures Window(buf, k, n) == 0
    decreases n
  {
    if n > 0 {
      WindowBehindEnd(buf, k + 1, n - 1);
    }
  }

  /** How many ones follow from position `k` on. */
  function Ones(buf: seq<Byte>, k: nat): nat
    decreases 8 * |buf| - k
  {
    if Bit(buf, k) == 0 then 0
    else
      assert k / 8 < |buf|;
      1 + Ones(buf, k + 1)
  }

  lemma {:induction false} OnesAre(buf: seq<Byte>, k: nat, i: nat)
    ensures i < Ones(buf, k) ==> Bit(buf, k + i) == 1
    ensures i == Ones(buf, k) ==> Bit(buf, k + i) == 0
    decreases i
  {
    if i > 0 && Bit(buf, k) == 1 {
      OnesAre(buf, k + 1, i - 1);
    }
  }

  // ---------------------------------------------------------------- codewords

  /** The bits `code`, each 0 or 1, stand at position `k`. */
  ghost predicate BitsAt(buf: seq<Byte>, k: nat, code: seq<nat>) {
    forall i :: 0 <= i < |code| ==> Bit(buf, k + i) == code[i]
  }

  /** The `n` low bits of `v`, lowest first. */
  function LowBits(v: nat, n: nat): (s: seq<nat>)
    ensures |s| == n
  {
    if n == 0 then [] else [v % 2] + LowBits(v / 2, n - 1)
  }

  lemma {:induction false} LowBitsAt(buf: seq<Byte>, k: nat, v: nat, n: nat)
    requires v < Pow2(n)
    ensures BitsAt(buf, k, LowBits(v, n)) <==> Window(buf, k, n) == v
    decreases n
  {
    if n > 0 {
      LowBitsAt(buf, k + 1, v / 2, n - 1);
      var s, t := LowBits(v, n), LowBits(v / 2, n - 1);
      assert forall i :: 0 < i < n ==> s[i] == t[i - 1] && k + i == k + 1 + (i - 1);
      assert forall i :: 0 <= i < n - 1 ==> t[i] == s[i + 1] && k + 1 + i == k + (i + 1);
      assert s[0] == v % 2 && Bit(buf, k + 0) == Bit(buf, k);
    }
  }

  lemma BitsAtConcat(buf: seq<Byte>, k: nat, a: seq<nat>, b: seq<nat>)
    ensures BitsAt(buf, k, a + b) <==> BitsAt(buf, k, a) && BitsAt(buf, k + |a|, b)
  {
    assert forall i :: 0 <= i < |a| ==> (a + b)[i] == a[i];
    assert forall i :: 0 <= i < |b| ==> (a + b)[|a| + i] == b[i] && k + |a| + i == k + (|a| + i);
  }
}
