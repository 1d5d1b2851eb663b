/** The 64-bit words a QOA stream consists of, and the filter state in them. */
module QoaWords {
  import opened Bytes
  import opened Powers
  import opened QoaSlice

  type Word = x: int | 0 <= x < WORD64

  // ---------------------------------------------------------------- 64-bit words in bytes

  /** The `n` low bytes of `v`, most significant first. */
  function BigEndian(v: nat, n: nat): (s: seq<Byte>)
    ensures |s| == n
  {
    if n == 0 then [] else BigEndian(v / 256, n - 1) + [v % 256]
  }

  function Value(s: seq<Byte>): nat {
    if s == [] then 0 else Value(s[..|s| - 1]) * 256 + s[|s| - 1]
  }

  lemma {:induction false} ValueOfBigEndian(v: nat, n: nat)
    requires v < Pow2(8 * n)
    ensures Value(BigEndian(v, n)) == v
  {
    if n > 0 {
      ByteOff(n);
      assert BigEndian(v, n)[..n - 1] == BigEndian(v / 256, n - 1);
      ValueOfBigEndian(v / 256, n - 1);
    }
  }

  lemma ByteOff(n: nat)
    requires n > 0
    ensures Pow2(8 * n) == 256 * Pow2(8 * (n - 1))
  {
    assert Pow2(8) == 256;
    Pow2Add(8, 8 * (n - 1));
    assert 8 + 8 * (n - 1) == 8 * n;
  }

  lemma ValueFits(s: seq<Byte>)
    ensures Value(s) < Pow2(8 * |s|)
  {
    if s != [] {
      ByteOff(|s|);
      ValueFits(s[..|s| - 1]);
    }
  }

  lemma Pow64()
    ensures Pow2(64) == WORD64
  {
    hide Pow2;
    OneByte();
    Pow2Add(8, 8);
    Pow2Add(16, 16);
    Pow2Add(32, 32);
  }

  lemma OneByte()
    ensures Pow2(8) == 256
  {
  }

  function WordBytes(v: Word): (s: seq<Byte>)
    ensures |s| == 8
  {
    BigEndian(v, 8)
  }

  function WordAt(bytes: seq<Byte>, p: nat): (v: Word)
    requires p + 8 <= |bytes|
  {
    ValueFits(bytes[p..p + 8]);
    Pow64();
    Value(bytes[p..p + 8])
  }

  lemma WordRoundTrip(v: Word, bytes: seq<Byte>, p: nat)
    requires p + 8 <= |bytes| && bytes[p..p + 8] == WordBytes(v)
    ensures WordAt(bytes, p) == v
  {
    Pow64();
    ValueOfBigEndian(v, 8);
  }

  /** `qoa_write_u64`. */
  method WriteU64(v: Word, bytes: seq<Byte>) returns (bytes': seq<Byte>)
    ensures bytes' == bytes + WordBytes(v)
  {
    var tail := [v / 0x100_0000_0000_0000 % 256, v / 0x1_0000_0000_0000 % 256, v / 0x100_0000_0000 % 256,
                 v / 0x1_0000_0000 % 256, v / 0x100_0000 % 256, v / 0x1_0000 % 256, v / 0x100 % 256, v % 256];
    ByteSteps(v);
    return bytes + tail;
  }

  lemma ByteSteps(v: Word)
    ensures BigEndian(v, 8) ==
            [v / 0x100_0000_0000_0000 % 256, v / 0x1_0000_0000_0000 % 256, v / 0x100_0000_0000 % 256,
             v / 0x1_0000_0000 % 256, v / 0x100_0000 % 256, v / 0x1_0000 % 256, v / 0x100 % 256, v % 256]
  {
    assert BigEndian(v / 0x100_0000_0000_0000, 1) == [v / 0x100_0000_0000_0000 % 256];
    assert BigEndian(v / 0x1_0000_0000_0000, 2)
         == BigEndian(v / 0x100_0000_0000_0000, 1) + [v / 0x1_0000_0000_0000 % 256];
    assert BigEndian(v / 0x100_0000_0000, 3) == BigEndian(v / 0x1_0000_0000_0000, 2) + [v / 0x100_0000_0000 % 256];
    assert BigEndian(v / 0x1_0000_0000, 4) == BigEndian(v / 0x100_0000_0000, 3) + [v / 0x1_0000_0000 % 256];
    assert BigEndian(v / 0x100_0000, 5) == BigEndian(v / 0x1_0000_0000, 4) + [v / 0x100_0000 % 256];
    assert BigEndian(v / 0x1_0000, 6) == BigEndian(v / 0x100_0000, 5) + [v / 0x1_0000 % 256];
    assert BigEndian(v / 0x100, 7) == BigEndian(v / 0x1_0000, 6) + [v / 0x100 % 256];
  }

  /** `qoa_read_u64`. */
  method ReadU64(bytes: seq<Byte>, p: nat) returns (v: Word)
    requires p + 8 <= |bytes|
    ensures v == WordAt(bytes, p)
  {
    ghost var s := bytes[p..p + 8];
    assert Value(s[..1]) == s[0];
    assert s[..2][..1] == s[..1] && Value(s[..2]) == Value(s[..1]) * 256 + s[1];
    assert s[..3][..2] == s[..2] && Value(s[..3]) == Value(s[..2]) * 256 + s[2];
    assert s[..4][..3] == s[..3] && Value(s[..4]) == Value(s[..3]) * 256 + s[3];
    assert s[..5][..4] == s[..4] && Value(s[..5]) == Value(s[..4]) * 256 + s[4];
    assert s[..6][..5] == s[..5] && Value(s[..6]) == Value(s[..5]) * 256 + s[5];
    assert s[..7][..6] == s[..6] && Value(s[..7]) == Value(s[..6]) * 256 + s[6];
    assert s[..8][..7] == s[..7] && Value(s[..8]) == Value(s[..7]) * 256 + s[7];
    assert s[..8] == s;
    var a: int, b: int, c: int, d: int := bytes[p], bytes[p + 1], bytes[p + 2], bytes[p + 3];
    var e: int, f: int, g: int, h: int := bytes[p + 4], bytes[p + 5], bytes[p + 6], bytes[p + 7];
    v := a * 0x100_0000_0000_0000 + b * 0x1_0000_0000_0000 + c * 0x100_0000_0000 + d * 0x1_0000_0000
       + e * 0x100_0000 + f * 0x1_0000 + g * 0x100 + h;
  }

  function Serialized(words: seq<Word>): (s: seq<Byte>)
    ensures |s| == 8 * |words|
  {
    if words == [] then [] else Serialized(words[..|words| - 1]) + WordBytes(words[|words| - 1])
  }

  lemma SerializedNext(words: seq<Word>, w: Word)
    ensures Serialized(words + [w]) == Serialized(words) + WordBytes(w)
  {
    assert (words + [w])[..|words|] == words;
  }

  /** The words written are the words read. */
  lemma {:induction false} ReadSerialized(words: seq<Word>, rest: seq<Byte>, i: nat)
    requires i < |words|
    ensures WordAt(Serialized(words) + rest, 8 * i) == words[i]
    decreases |words|
  {
    hide WordBytes, WordAt;
    var n := |words| - 1;
    var init, last := words[..n], WordBytes(words[n]);
    assert Serialized(words) + rest == Serialized(init) + (last + rest);
    if i == n {
      WordRoundTrip(words[n], Serialized(words) + rest, 8 * n);
    } else {
      ReadSerialized(init, last + rest, i);
    }
  }

  // ---------------------------------------------------------------- the filter state, 16 bits each

  predicate FitsS16(l: Filter) {
    forall i :: 0 <= i < LMS_LEN ==> -32768 <= l.history[i] < 32768 && -32768 <= l.weights[i] < 32768
  }

  function U16(x: int): (u: nat)
    ensures u < 65536
  {
    x % 65536
  }

  function S16(u: nat): int
    requires u < 65536
  {
    if u >= 32768 then u - 65536 else u
  }

  function Pack(xs: seq<int>, n: nat): (w: nat)
    requires n <= |xs|
  {
    if n == 0 then 0 else Pack(xs, n - 1) * 65536 + U16(xs[n - 1])
  }

  /** Four 16-bit values in a word. */
  function Pack4(xs: seq<int>): (w: Word)
    requires |xs| == 4
  {
    PackIs(xs);
    Pack(xs, 4)
  }

  lemma PackIs(xs: seq<int>)
    requires |xs| == 4
    ensures Pack(xs, 4)
         == U16(xs[0]) * 0x1_0000_0000_0000 + U16(xs[1]) * 0x1_0000_0000 + U16(xs[2]) * 0x1_0000 + U16(xs[3])
    ensures Pack(xs, 4) < WORD64
  {
    hide U16;
    assert Pack(xs, 1) == U16(xs[0]);
    assert Pack(xs, 2) == Pack(xs, 1) * 65536 + U16(xs[1]);
    assert Pack(xs, 3) == Pack(xs, 2) * 65536 + U16(xs[2]);
  }

  /** Takes 16-bit values off the top of a 64-bit register. */
  function Unpack(register: Word, n: nat): (xs: seq<int>)
    ensures |xs| == n
    decreases n
  {
    if n == 0 then [] else [S16(register / 0x1_0000_0000_0000)] + Unpack(register * 65536 % WORD64, n - 1)
  }

  lemma ShiftPart(a: nat, rest: nat)
    requires a < 65536 && rest < 0x1_0000_0000_0000
    ensures var r := a * 0x1_0000_0000_0000 + rest; r / 0x1_0000_0000_0000 == a && r * 65536 % WORD64 == rest * 65536
  {
  }

  lemma UnpackStep(a: nat, rest: nat, n: nat)
    requires a < 65536 && rest < 0x1_0000_0000_0000
    ensures a * 0x1_0000_0000_0000 + rest < WORD64 && rest * 65536 < WORD64
    ensures Unpack(a * 0x1_0000_0000_0000 + rest, n + 1) == [S16(a)] + Unpack(rest * 65536, n)
  {
    hide S16;
    ShiftPart(a, rest);
  }

  lemma S16OfU16(x: int)
    ensures S16(U16(x)) == x <==> -32768 <= x < 32768
  {
  }

  lemma PackRoundTrip(xs: seq<int>)
    requires |xs| == 4
    ensures Unpack(Pack4(xs), 4) == xs <==> forall i :: 0 <= i < 4 ==> -32768 <= xs[i] < 32768
  {
    hide U16, S16, Pack, Unpack;
    PackIs(xs);
    FourParts(U16(xs[0]), U16(xs[1]), U16(xs[2]), U16(xs[3]));
    S16OfU16(xs[0]);
    S16OfU16(xs[1]);
    S16OfU16(xs[2]);
    S16OfU16(xs[3]);
    assert xs == [xs[0], xs[1], xs[2], xs[3]];
  }

  lemma UnpackNone(register: Word)
    ensures Unpack(register, 0) == []
  {
  }

  lemma FourParts(a: nat, b: nat, c: nat, d: nat)
    requires a < 65536 && b < 65536 && c < 65536 && d < 65536
    ensures var w := a * 0x1_0000_0000_0000 + b * 0x1_0000_0000 + c * 0x1_0000 + d;
            w < WORD64 && Unpack(w, 4) == [S16(a), S16(b), S16(c), S16(d)]
  {
    hide S16, Unpack;
    UnpackNone(0);
    UnpackStep(a, b * 0x1_0000_0000 + c * 0x1_0000 + d, 3);
    UnpackStep(b, c * 0x1_0000_0000 + d * 0x1_0000, 2);
    UnpackStep(c, d * 0x1_0000_0000, 1);
    UnpackStep(d, 0, 0);
  }

  function FilterOf(history: Word, weights: Word): Filter {
    Lms(Unpack(history, 4), Unpack(weights, 4))
  }

  /** A filter is read back from its two words exactly when its values fit 16 bits. */
  lemma FilterRoundTrip(l: Filter)
    ensures FilterOf(Pack4(l.history), Pack4(l.weights)) == l <==> FitsS16(l)
  {
    hide Unpack, Pack4;
    PackRoundTrip(l.history);
    PackRoundTrip(l.weights);
  }

  method PackValues(xs: seq<int>) returns (w: Word)
    requires |xs| == LMS_LEN
    ensures w == Pack4(xs)
  {
    PackIs(xs);
    var v: nat := 0;
    for i := 0 to LMS_LEN
      invariant v == Pack(xs, i)
    {
      v := v * 65536 + U16(xs[i]);
    }
    w := v;
  }

  lemma UnpackNext(register: Word, n: nat)
    requires n > 0
    ensures Unpack(register, n) == [S16(register / 0x1_0000_0000_0000)] + Unpack(register * 65536 % WORD64, n - 1)
  {
  }

  method UnpackValues(w: Word) returns (xs: seq<int>)
    ensures xs == Unpack(w, LMS_LEN)
  {
    hide S16, Unpack;
    xs := [];
    var register: Word := w;
    for i := 0 to LMS_LEN
      invariant |xs| == i && xs + Unpack(register, LMS_LEN - i) == Unpack(w, LMS_LEN)
    {
      UnpackNext(register, LMS_LEN - i);
      xs := xs + [S16(register / 0x1_0000_0000_0000)];
      register := register * 65536 % WORD64;
    }
  }

  method ReadFilter(history: Word, weights: Word) returns (l: Filter)
    ensures l == FilterOf(history, weights)
  {
    hide Unpack;
    var hs := UnpackValues(history);
    var ws := UnpackValues(weights);
    l := Lms(hs, ws);
  }
}
