/** The open-addressing hash map of basisu: downward linear probing with wrap-around, deletion by back-shifting,
    and rehashing to powers of two. */
module HashMap {
  import opened Options
  import opened Powers

  const MIN_HASH_SIZE := 4
  const MAX_HASH_SIZE := 0x8000_0000
  const HASH_RANGE := 0x1_0000_0000

  type Word = x: int | 0 <= x < HASH_RANGE

  /** One slot of the table; `Empty` is `cStateInvalid`. */
  datatype Node<K, V> = Empty | Full(key: K, value: V)

  // ---------------------------------------------------------------- home slots

  const FIBONACCI := 2654435769

  /** Fibonacci hashing: the top bits of a 32-bit product. */
  function HashKey(hash: Word, shift: nat): nat {
    Quotient(FIBONACCI * hash % HASH_RANGE, Pow2(shift))
  }

  /** The home slots of a table of `size` slots are the top bits left by `shift`. */
  predicate Spans(size: nat, shift: nat) {
    size * Pow2(shift) == HASH_RANGE
  }

  lemma MulCancel(a: int, b: int, p: int)
    requires p > 0 && a * p < b * p
    ensures a < b
  {
  }

  lemma HashKeyInTable(hash: Word, shift: nat, size: nat)
    requires Spans(size, shift)
    ensures HashKey(hash, shift) < size
  {
    var x, p := FIBONACCI * hash % HASH_RANGE, Pow2(shift);
    assert Quotient(x, p) * p <= x < size * p;
    MulCancel(Quotient(x, p), size, p);
  }

  /** The factor is 2^32 times the golden ratio's (sqrt 5 - 1) / 2, rounded down; the home is the fraction of the
      product in units of the table size, rounded down. */
  lemma HashIsFibonacci(hash: Word, shift: nat)
    ensures var k := 2 * FIBONACCI + HASH_RANGE; k * k <= 5 * HASH_RANGE * HASH_RANGE < (k + 2) * (k + 2)
    ensures HashKey(hash, shift) * Pow2(shift) <= FIBONACCI * hash % HASH_RANGE
    ensures FIBONACCI * hash % HASH_RANGE < (HashKey(hash, shift) + 1) * Pow2(shift)
  {
    var x, p := FIBONACCI * hash % HASH_RANGE, Pow2(shift);
    assert p * Quotient(x, p) <= x < p * Quotient(x, p) + p;
  }

  ghost function HomeOf<K>(hasher: K -> Word, shift: nat): K -> nat {
    k => HashKey(hasher(k), shift)
  }

  // ---------------------------------------------------------------- tables as sequences

  /** Slot `j` lies on the downward cyclic walk that starts at `from` and ends at `to`. */
  predicate OnWalk(from: nat, j: nat, to: nat) {
    if to <= from then to <= j <= from else j <= from || to <= j
  }

  /** Number of downward steps from `from` to `to`, counting a full turn as `size`. */
  function StepsDown(from: nat, to: nat, size: nat): int {
    if to < from then from - to else from + size - to
  }

  /** Number of downward steps from the home slot `from` to `to`. */
  function Distance(from: nat, to: nat, size: nat): (d: nat)
    requires from < size && to < size
  {
    if to <= from then from - to else from + size - to
  }

  function Prev(i: nat, size: nat): (p: nat)
    requires i < size
  {
    if i == 0 then size - 1 else i - 1
  }

  ghost predicate HomesInTable<K(!new), V>(t: seq<Node<K, V>>, home: K -> nat) {
    forall k :: home(k) < |t|
  }

  /** The probe invariant, with `hole` (if it is a slot) counted as occupied: every slot from a key's home down to the
      slot that holds the key is occupied. */
  ghost predicate Probed<K(!new), V>(t: seq<Node<K, V>>, home: K -> nat, hole: int) {
    forall i, j :: 0 <= i < |t| && 0 <= j < |t| && t[i].Full? && OnWalk(home(t[i].key), j, i) ==>
      t[j].Full? || j == hole
  }

  /** `pos` is exactly the map from stored keys to their slots; in particular no key is stored twice. */
  ghost predicate Indexed<K(!new), V>(t: seq<Node<K, V>>, pos: map<K, nat>) {
    && (forall k :: k in pos ==> pos[k] < |t| && t[pos[k]].Full? && t[pos[k]].key == k)
    && (forall i :: 0 <= i < |t| && t[i].Full? ==> t[i].key in pos && pos[t[i].key] == i)
  }

  /** The abstract map a table stands for. */
  ghost function Stored<K(!new), V>(t: seq<Node<K, V>>, pos: map<K, nat>): map<K, V>
    requires Indexed(t, pos)
  {
    map k | k in pos :: t[pos[k]].value
  }

  lemma {:induction false} FullPrefixCount<K(!new), V>(t: seq<Node<K, V>>, pos: map<K, nat>,
                                             n: nat) returns (keys: set<K>)
    requires Indexed(t, pos) && n <= |t|
    requires forall i :: 0 <= i < n ==> t[i].Full?
    ensures |keys| == n && keys <= pos.Keys
    ensures forall k :: k in keys ==> pos[k] < n
  {
    if n == 0 {
      keys := {};
    } else {
      var rest := FullPrefixCount(t, pos, n - 1);
      keys := rest + {t[n - 1].key};
    }
  }

  lemma {:induction false} SubsetCard<T>(a: set<T>, b: set<T>)
    requires a <= b
    ensures |a| <= |b|
    ensures |a| == |b| ==> a == b
  {
    var c := b - a;
    assert b == a + c;
    assert |b| == |a| + |c|;
  }

  /** Pigeonhole: a table that stores fewer keys than it has slots has an empty slot. */
  lemma EmptySlot<K(!new), V>(t: seq<Node<K, V>>, pos: map<K, nat>) returns (e: nat)
    requires Indexed(t, pos) && |pos| < |t|
    ensures e < |t| && t[e].Empty?
  {
    if forall i :: 0 <= i < |t| ==> t[i].Full? {
      var keys := FullPrefixCount(t, pos, |t|);
      SubsetCard(keys, pos.Keys);
      assert false;
    }
    e :| 0 <= e < |t| && t[e].Empty?;
  }

  /** A walk that saw only other keys and then an empty slot proves the key absent. */
  lemma AbsentAtEmpty<K(!new), V>(t: seq<Node<K, V>>, pos: map<K, nat>, home: K -> nat, k: K, last: nat)
    requires Indexed(t, pos) && Probed(t, home, -1) && HomesInTable(t, home)
    requires last < |t| && t[last].Empty?
    requires forall j :: 0 <= j < |t| && OnWalk(home(k), j, last) && j != last ==> t[j].Full? && t[j].key != k
    ensures k !in pos
  {
  }

  lemma PlaceKeyProbed<K(!new), V>(t: seq<Node<K, V>>, home: K -> nat, n: Node<K, V>, i: nat)
    requires Probed(t, home, -1)
    requires i < |t| && t[i].Empty? && n.Full?
    requires forall j :: 0 <= j < |t| && OnWalk(home(n.key), j, i) && j != i ==> t[j].Full?
    ensures Probed(t[i := n], home, -1)
  {
    var t' := t[i := n];
    forall a, b | 0 <= a < |t'| && 0 <= b < |t'| && t'[a].Full? && OnWalk(home(t'[a].key), b, a)
      ensures t'[b].Full?
    {
      if b != i && a != i {
        assert t[a].Full? && t[b].Full?;
      }
    }
  }

  lemma PlaceKeyIndexed<K(!new), V>(t: seq<Node<K, V>>, pos: map<K, nat>, k: K, v: V, i: nat)
    requires Indexed(t, pos) && i < |t| && t[i].Empty? && k !in pos
    ensures var t', pos' := t[i := Full(k, v)], pos[k := i];
            Indexed(t', pos') && Stored(t', pos') == Stored(t, pos)[k := v] && |pos'| == |pos| + 1
  {
    var pos' := pos[k := i];
    assert |pos'.Keys| == |pos.Keys| + 1 by {
      assert pos'.Keys == pos.Keys + {k};
    }
    assert forall x :: x in pos ==> pos[x] != i;
  }

  /** Putting a new key in the first empty slot of its walk keeps the table sound and adds exactly that key. */
  lemma PlaceKey<K(!new), V>(t: seq<Node<K, V>>, pos: map<K, nat>, home: K -> nat, k: K, v: V, i: nat)
    requires Indexed(t, pos) && Probed(t, home, -1)
    requires i < |t| && t[i].Empty? && k !in pos
    requires forall j :: 0 <= j < |t| && OnWalk(home(k), j, i) && j != i ==> t[j].Full?
    ensures var t', pos' := t[i := Full(k, v)], pos[k := i];
            Indexed(t', pos') && Probed(t', home, -1) && Stored(t', pos') == Stored(t, pos)[k := v] &&
            |pos'| == |pos| + 1
  {
    PlaceKeyProbed(t, home, Full(k, v), i);
    PlaceKeyIndexed(t, pos, k, v, i);
  }

  /** Taking a key out leaves a table that is sound apart from the hole. */
  lemma OpenHole<K(!new), V>(t: seq<Node<K, V>>, pos: map<K, nat>, home: K -> nat, k: K)
    requires Indexed(t, pos) && Probed(t, home, -1) && k in pos
    ensures var t', pos' := t[pos[k] := Empty], pos - {k};
            Indexed(t', pos') && Probed(t', home, pos[k]) && Stored(t', pos') == Stored(t, pos) - {k} &&
            |pos'| == |pos| - 1
  {
    assert (pos - {k}).Keys == pos.Keys - {k};
    assert |(pos - {k}).Keys| == |pos.Keys| - 1;
  }

  /** Moving the key at `i` into the hole moves the hole to `i`. */
  lemma MoveIntoHole<K(!new), V>(t: seq<Node<K, V>>, pos: map<K, nat>, home: K -> nat, hole: nat, i: nat)
    requires Indexed(t, pos) && Probed(t, home, hole)
    requires hole < |t| && t[hole].Empty? && i < |t| && t[i].Full?
    requires OnWalk(home(t[i].key), hole, i)
    ensures var t', pos' := t[hole := t[i]][i := Empty], pos[t[i].key := hole];
            Indexed(t', pos') && Probed(t', home, i) && Stored(t', pos') == Stored(t, pos) && |pos'| == |pos|
  {
    assert pos[t[i].key := hole].Keys == pos.Keys;
    assert |pos[t[i].key := hole].Keys| == |pos.Keys|;
  }

  /** Reaching an empty slot with no key left that needs the hole ends the back-shift: the hole may stay empty. */
  lemma CloseHole<K(!new), V>(t: seq<Node<K, V>>, home: K -> nat, hole: nat, last: nat)
    requires Probed(t, home, hole) && HomesInTable(t, home)
    requires hole < |t| && t[hole].Empty? && last < |t| && t[last].Empty?
    requires forall x :: 0 <= x < |t| && x != hole && x != last && (last == hole || OnWalk(hole, x, last)) ==>
                           t[x].Full? && !OnWalk(home(t[x].key), hole, x)
    ensures Probed(t, home, -1)
  {
    forall i, j | 0 <= i < |t| && 0 <= j < |t| && t[i].Full? && OnWalk(home(t[i].key), j, i)
      ensures t[j].Full?
    {
      if j == hole {
        assert t[last].Empty?;
      }
    }
  }

  // ---------------------------------------------------------------- how far keys are from home

  function DistanceOf<K, V>(n: Node<K, V>, home: K -> nat, i: nat, size: nat): (d: nat) {
    if n.Full? && home(n.key) < size && i < size then Distance(home(n.key), i, size) else 0
  }

  /** The distances of all keys in the first `n` slots from their homes, added up. */
  function Displacement<K, V>(t: seq<Node<K, V>>, home: K -> nat, n: nat): (d: nat)
    requires n <= |t|
  {
    if n == 0 then 0 else Displacement(t, home, n - 1) + DistanceOf(t[n - 1], home, n - 1, |t|)
  }

  lemma {:induction false} DisplacementUpdated<K, V>(t: seq<Node<K, V>>, home: K -> nat, n: nat, i: nat, x: Node<K, V>)
    requires n <= |t| && i < |t|
    ensures Displacement(t[i := x], home, n)
         == Displacement(t, home, n) + if i < n then DistanceOf(x, home, i, |t|) - DistanceOf(t[i], home, i, |t|) else 0
  {
    if n > 0 {
      DisplacementUpdated(t, home, n - 1, i, x);
    }
  }

  /** Moving a key up its walk into the hole brings it nearer to its home. */
  lemma MovingBrings<K(!new), V>(t: seq<Node<K, V>>, home: K -> nat, hole: nat, i: nat)
    requires HomesInTable(t, home) && hole < |t| && t[hole].Empty? && i < |t| && t[i].Full?
    requires OnWalk(home(t[i].key), hole, i)
    ensures Displacement(t[hole := t[i]][i := Empty], home, |t|) < Displacement(t, home, |t|)
  {
    DisplacementUpdated(t, home, |t|, hole, t[i]);
    DisplacementUpdated(t[hole := t[i]], home, |t|, i, Empty);
  }

  /** The keys stored in the first `n` slots. */
  ghost predicate CopiedPrefix<K(!new), V>(t: seq<Node<K, V>>, pos: map<K, nat>, n: nat, m: map<K, V>)
    requires Indexed(t, pos) && n <= |t|
  {
    && (forall k :: k in m ==> k in pos && pos[k] < n)
    && (forall k :: k in pos && pos[k] < n ==> k in m && m[k] == t[pos[k]].value)
  }

  lemma CopyNone<K(!new), V>(t: seq<Node<K, V>>, pos: map<K, nat>)
    requires Indexed(t, pos)
    ensures CopiedPrefix(t, pos, 0, map[])
  {
  }

  lemma CopyNext<K(!new), V>(t: seq<Node<K, V>>, pos: map<K, nat>, n: nat, m: map<K, V>)
    requires Indexed(t, pos) && n < |t| && CopiedPrefix(t, pos, n, m)
    ensures t[n].Empty? ==> CopiedPrefix(t, pos, n + 1, m)
    ensures t[n].Full? ==> t[n].key !in m && CopiedPrefix(t, pos, n + 1, m[t[n].key := t[n].value])
  {
  }

  /** A copy that holds as many keys as the table holds all of them, wherever the copying stopped. */
  lemma CopyComplete<K(!new), V>(t: seq<Node<K, V>>, pos: map<K, nat>, n: nat, m: map<K, V>)
    requires Indexed(t, pos) && n <= |t| && CopiedPrefix(t, pos, n, m)
    ensures |m| <= |pos|
    ensures n == |t| || |m| == |pos| ==> m == Stored(t, pos)
  {
    SubsetCard(m.Keys, pos.Keys);
    assert |m.Keys| == |m| && |pos.Keys| == |pos|;
  }

  /** While there is another key to copy, the copy holds fewer keys than the table. */
  lemma CopyRoom<K(!new), V>(t: seq<Node<K, V>>, pos: map<K, nat>, n: nat, m: map<K, V>)
    requires Indexed(t, pos) && n < |t| && CopiedPrefix(t, pos, n, m) && t[n].Full?
    ensures |m| < |pos|
  {
    CopyNext(t, pos, n, m);
    var m' := m[t[n].key := t[n].value];
    CopyComplete(t, pos, n + 1, m');
    assert m'.Keys == m.Keys + {t[n].key};
    assert |m'| == |m'.Keys| && |m| == |m.Keys|;
  }

  // ---------------------------------------------------------------- table sizes

  /** `next_pow2`, where 0 wraps around to 0. */
  function NextPow2(v: nat): (r: nat)
    ensures v > 0 ==> IsPowerOf2(r) && v <= r < 2 * v
  {
    if v == 0 then 0 else NextPow2From(1, v)
  }

  function PowerOf2AtLeast(v: nat): nat {
    if IsPowerOf2(v) then v else NextPow2(v)
  }

  function GrownSize(size: nat): nat {
    var n := PowerOf2AtLeast(size * 3);
    var n := if n > MAX_HASH_SIZE then MAX_HASH_SIZE else n;
    if n < MIN_HASH_SIZE then MIN_HASH_SIZE else n
  }

  function ReservedSize(capacity: nat): nat {
    var n := PowerOf2AtLeast((if capacity == 0 then 1 else capacity) * 2);
    var n := if n < MIN_HASH_SIZE then MIN_HASH_SIZE else n;
    if n > MAX_HASH_SIZE then MAX_HASH_SIZE else n
  }

  lemma MaxIsPowerOf2()
    ensures IsPowerOf2(MIN_HASH_SIZE) && IsPowerOf2(MAX_HASH_SIZE) && MAX_HASH_SIZE == Pow2(31)
    ensures HASH_RANGE == Pow2(32)
  {
    assert Pow2(8) == 256;
    Pow2Add(8, 8);
    Pow2Add(16, 15);
    Pow2Add(7, 8);
    assert Pow2(31) == 65536 * 32768;
    Powers.Pow2IsPowerOf2(31);
  }

  predicate LegalSize(n: nat) {
    IsPowerOf2(n) && MIN_HASH_SIZE <= n <= MAX_HASH_SIZE
  }

  lemma TripleRoundsUp(size: nat)
    requires IsPowerOf2(size)
    ensures IsPowerOf2(4 * size) && PowerOf2AtLeast(size * 3) == 4 * size
  {
    hide IsPowerOf2;
    PositivePower(size);
    DoubleIsPowerOf2(size);
    DoubleIsPowerOf2(2 * size);
    PowersOf2Apart(4 * size, PowerOf2AtLeast(size * 3));
  }

  lemma PositivePower(v: nat)
    requires IsPowerOf2(v)
    ensures v >= 1
  {
  }

  lemma DoubleIsPowerOf2(v: nat)
    requires IsPowerOf2(v)
    ensures IsPowerOf2(2 * v)
  {
  }

  /** Growing multiplies the size by four, starting from 4 and stopping at the cap of 2^31 slots. */
  lemma GrownSizeIs(size: nat)
    requires size == 0 || LegalSize(size)
    ensures LegalSize(GrownSize(size))
    ensures GrownSize(size) == if size == 0 then 4 else if 4 * size <= 0x8000_0000 then 4 * size else 0x8000_0000
  {
    MaxIsPowerOf2();
    if size > 0 {
      TripleRoundsUp(size);
    }
  }

  lemma AtLeastBounds(v: nat)
    requires v > 0
    ensures IsPowerOf2(PowerOf2AtLeast(v)) && v <= PowerOf2AtLeast(v) < 2 * v
  {
    hide IsPowerOf2;
  }

  /** A reservation leaves room for the requested number of keys below the growth threshold, up to the cap. */
  lemma ReservedSizeIs(capacity: nat)
    ensures LegalSize(ReservedSize(capacity))
    ensures capacity <= MAX_HASH_SIZE / 2 ==> capacity <= ReservedSize(capacity) / 2
    ensures capacity <= 2 ==> ReservedSize(capacity) == 4
    ensures 2 < capacity <= 0x4000_0000 ==> 2 * capacity <= ReservedSize(capacity) < 4 * capacity
    ensures capacity > 0x4000_0000 ==> ReservedSize(capacity) == 0x8000_0000
  {
    hide IsPowerOf2;
    MaxIsPowerOf2();
    var n := (if capacity == 0 then 1 else capacity) * 2;
    AtLeastBounds(n);
    if capacity <= MAX_HASH_SIZE / 2 && PowerOf2AtLeast(n) > MAX_HASH_SIZE {
      var r := PowerOf2AtLeast(n);
      PowersOf2Apart(MAX_HASH_SIZE, r);
    }
  }

  /** The shift that goes with a table size. */
  lemma ShiftFits(size: nat)
    requires LegalSize(size)
    ensures FloorLog2(size) <= 31 && Spans(size, 32 - FloorLog2(size))
  {
    MaxIsPowerOf2();
    PowerOf2Exponent(size);
    if FloorLog2(size) > 31 {
      Pow2Monotone(31, FloorLog2(size));
    }
    Pow2Add(FloorLog2(size), 32 - FloorLog2(size));
  }

  lemma EvenSize(size: nat)
    requires LegalSize(size)
    ensures (size + 1) / 2 == size / 2 && size > 0
  {
  }

  // ---------------------------------------------------------------- the class

  class HashMap<K(==, !new), V> {
    const hasher: K -> Word
    var values: seq<Node<K, V>>
    var hashShift: nat
    var numValid: nat
    var growThreshold: nat
    /** Where each stored key sits. */
    ghost var pos: map<K, nat>

    function Home(k: K): nat
      reads this
    {
      HashKey(hasher(k), hashShift)
    }

    ghost function Homes(): K -> nat
      reads this`hashShift
    {
      HomeOf(hasher, hashShift)
    }

    /** A sound table of a legal size, whatever its growth threshold. */
    ghost predicate Sound()
      reads this
    {
      && LegalSize(|values|) && Spans(|values|, hashShift)
      && Indexed(values, pos) && Probed(values, Homes(), -1)
      && numValid == |pos|
    }

    /** The state between public calls: no storage at all, or a sound table at most half full. */
    ghost predicate Valid()
      reads this
    {
      if |values| == 0 then
        hashShift == 32 && numValid == 0 && growThreshold == 0 && pos == map[]
      else
        Sound() && growThreshold == |values| / 2 && numValid <= growThreshold
    }

    ghost function Contents(): map<K, V>
      requires Valid() || Sound()
      reads this
    {
      Stored(values, pos)
    }

    constructor (hasher: K -> Word)
      ensures Valid() && Contents() == map[] && this.hasher == hasher
    {
      this.hasher := hasher;
      values := [];
      hashShift, numValid, growThreshold, pos := 32, 0, 0, map[];
    }

    /** An empty table of `size` slots that never asks to grow. */
    constructor OfSize(hasher: K -> Word, size: nat)
      requires LegalSize(size)
      ensures Sound() && Contents() == map[] && |values| == size && this.hasher == hasher
    {
      ShiftFits(size);
      this.hasher := hasher;
      values := seq(size, _ => Empty);
      hashShift, numValid, growThreshold, pos := 32 - FloorLog2(size), 0, HASH_RANGE - 1, map[];
    }

    lemma ContentsCard()
      requires Valid() || Sound()
      ensures Contents().Keys == pos.Keys && |Contents()| == numValid == |pos|
    {
      assert Contents().Keys == pos.Keys;
      assert |Contents().Keys| == |Contents()|;
      assert |pos.Keys| == |pos|;
    }

    lemma AllHomesFit()
      requires Spans(|values|, hashShift)
      ensures HomesInTable(values, Homes())
    {
      forall k: K
        ensures Homes()(k) < |values|
      {
        HashKeyInTable(hasher(k), hashShift, |values|);
      }
    }

    lemma HomesFit()
      requires Sound()
      ensures HomesInTable(values, Homes())
    {
      AllHomesFit();
    }

    /** The slot of `k`, or the table size. */
    method FindIndex(k: K) returns (index: nat)
      requires Valid() || Sound()
      ensures index == if k in Contents() then pos[k] else |values|
    {
      if numValid != 0 {
        HomesFit();
        var home := Homes();
        assert home(k) == Home(k);
        index := Home(k);
        if values[index].Full? {
          if values[index].key == k {
            return;
          }
          var orig := index;
          while true
            invariant 0 <= index < |values|
            invariant forall j :: 0 <= j < |values| && OnWalk(orig, j, index) ==> values[j].Full? && values[j].key != k
            decreases StepsDown(index, orig, |values|)
          {
            index := Prev(index, |values|);
            if index == orig {
              assert forall j :: 0 <= j < |values| ==> values[j].Full? && values[j].key != k;
              assert k !in pos;
              break;
            }
            if values[index].Empty? {
              AbsentAtEmpty(values, pos, home, k, index);
              break;
            }
            if values[index].key == k {
              assert values[index].key == k;
              return;
            }
          }
        } else {
          AbsentAtEmpty(values, pos, home, k, index);
        }
      }
      index := |values|;
    }

    /** The inner loop of `Erase`: walks down from the hole to the first key whose own walk needs the hole filled, or to
        an empty slot, perhaps the hole itself, in which case the hole may stay open. */
    method ScanBack(hole: nat) returns (i: nat, done: bool)
      requires Spans(|values|, hashShift) && Probed(values, Homes(), hole)
      requires hole < |values| && values[hole].Empty?
      ensures done ==> Probed(values, Homes(), -1)
      ensures !done ==> i < |values| && values[i].Full? && OnWalk(Homes()(values[i].key), hole, i)
    {
      i := hole;
      ghost var home := Homes();
      while true
        invariant 0 <= i < |values| && (i == hole || values[i].Full?)
        invariant forall x :: 0 <= x < |values| && OnWalk(hole, x, i) && x != hole ==>
                                values[x].Full? && !OnWalk(home(values[x].key), hole, x)
        decreases StepsDown(i, hole, |values|)
      {
        i := Prev(i, |values|);
        if values[i].Empty? {
          forall k: K
            ensures home(k) < |values|
          {
            HashKeyInTable(hasher(k), hashShift, |values|);
          }
          CloseHole(values, home, hole, i);
          return i, true;
        }
        var r := Home(values[i].key);
        HashKeyInTable(hasher(values[i].key), hashShift, |values|);
        assert r == home(values[i].key);
        if !((i <= r && r < hole) || (r < hole && hole < i) || (hole < i && i <= r)) {
          return i, false;
        }
      }
    }

    /** Moves a key into the hole above it on its walk; its old slot becomes the hole. */
    method MoveNode(dst: nat, src: nat)
      requires Spans(|values|, hashShift)
      requires Indexed(values, pos) && Probed(values, Homes(), dst) && numValid == |pos|
      requires dst < |values| && src < |values| && values[dst].Empty? && values[src].Full?
      requires OnWalk(Homes()(values[src].key), dst, src)
      modifies this`values, this`pos
      ensures values == old(values)[dst := old(values)[src]][src := Empty]
      ensures Indexed(values, pos) && Probed(values, Homes(), src) && |pos| == numValid
      ensures Stored(values, pos) == old(Stored(values, pos))
      ensures Displacement(values, Homes(), |values|) < old(Displacement(values, Homes(), |values|))
    {
      AllHomesFit();
      MoveIntoHole(values, pos, Homes(), dst, src);
      MovingBrings(values, Homes(), dst, src);
      hide IsPowerOf2, Spans, Probed, Indexed, Stored, Displacement;
      pos := pos[values[src].key := dst];
      values := values[dst := values[src]];
      values := values[src := Empty];
    }

    /** The back-shifting loop of `Erase`, from the freshly opened hole `start`. It ends because keys only move
        nearer to their homes. */
    method BackShift(start: nat)
      requires Spans(|values|, hashShift)
      requires Indexed(values, pos) && Probed(values, Homes(), start) && numValid == |pos|
      requires start < |values| && values[start].Empty?
      modifies this`values, this`pos
      ensures |values| == old(|values|)
      ensures Indexed(values, pos) && Probed(values, Homes(), -1) && numValid == |pos|
      ensures Stored(values, pos) == old(Stored(values, pos))
    {
      var i := start;
      hide IsPowerOf2, Spans, Probed, Indexed, Stored, Displacement;
      while true
        invariant |values| == old(|values|) && 0 <= i < |values| && values[i].Empty?
        invariant Indexed(values, pos) && Probed(values, Homes(), i) && numValid == |pos|
        invariant Stored(values, pos) == old(Stored(values, pos))
        decreases Displacement(values, Homes(), |values|)
      {
        var src, done := ScanBack(i);
        if done {
          return;
        }
        MoveNode(i, src);
        i := src;
      }
    }

    lemma SlotOf(k: K)
      requires Valid() || Sound()
      ensures k in Contents() <==> k in pos
      ensures k in pos ==> pos[k] < |values| && values[pos[k]].Full?
      ensures k !in Contents() ==> Contents() == Contents() - {k}
    {
    }

    /** Removes `k`; every other key keeps its value and can still be found. This holds of every sound table, even a
        full one. */
    method Erase(k: K) returns (erased: bool)
      requires Valid() || Sound()
      modifies this
      ensures (old(Valid()) ==> Valid()) && (old(Sound()) ==> Sound())
      ensures |values| == old(|values|) && growThreshold == old(growThreshold)
      ensures erased == (k in old(Contents()))
      ensures Contents() == old(Contents()) - {k}
    {
      hide IsPowerOf2, LegalSize, Spans, Probed, Indexed, Stored, OnWalk, HomesInTable;
      var i := FindIndex(k);
      SlotOf(k);
      if i >= |values| {
        return false;
      }
      OpenHole(values, pos, Homes(), k);
      values := values[i := Empty];
      numValid := numValid - 1;
      pos := pos - {k};
      BackShift(i);
      return true;
    }

    /** The probing loop of `InsertNoGrow`: stops at `k`, or at the first empty slot of its walk. */
    method Probe(k: K) returns (index: nat, found: bool)
      requires Sound() && numValid < |values|
      ensures index < |values| && found == (k in pos)
      ensures found ==> values[index].Full? && values[index].key == k
      ensures !found ==> values[index].Empty?
      ensures !found ==> forall j :: 0 <= j < |values| && OnWalk(Homes()(k), j, index) && j != index ==> values[j].Full?
    {
      ghost var t := values;
      ghost var home := Homes();
      HomesFit();
      ghost var free := EmptySlot(t, pos);
      index := Home(k);
      assert index == home(k);
      if values[index].Full? {
        if values[index].key == k {
          assert t[index].key == k;
          return index, true;
        }
        var orig := index;
        while true
          invariant 0 <= index < |values| && values[index].Full?
          invariant forall j :: 0 <= j < |values| && OnWalk(orig, j, index) ==> values[j].Full? && values[j].key != k
          decreases StepsDown(index, free, |values|)
        {
          index := Prev(index, |values|);
          assert orig != index;
          if values[index].Empty? {
            break;
          }
          if values[index].key == k {
            assert t[index].key == k;
            return index, true;
          }
        }
      }
      AbsentAtEmpty(t, pos, home, k, index);
      return index, false;
    }

    /** Finds `k` or adds it, unless that would exceed the growth threshold or there is no storage. */
    method InsertNoGrow(k: K, v: V) returns (ok: bool, index: nat, inserted: bool)
      requires Valid()
      modifies this
      ensures Valid() && |values| == old(|values|)
      ensures ok == (k in old(Contents()) || old(numValid < growThreshold))
      ensures ok ==> inserted == (k !in old(Contents())) && index < |values|
      ensures Contents() == if ok && inserted then old(Contents())[k := v] else old(Contents())
      ensures ok ==> k in Contents() && values[index] == Full(k, Contents()[k])
      ensures !ok ==> numValid == old(numValid)
    {
      if |values| == 0 {
        return false, 0, false;
      }
      var found;
      index, found := Probe(k);
      if found {
        assert values[index].key == k;
        return true, index, false;
      }
      if numValid >= growThreshold {
        return false, index, false;
      }
      PlaceKey(values, pos, Homes(), k, v, index);
      values := values[index := Full(k, v)];
      pos := pos[k := index];
      numValid := numValid + 1;
      return true, index, true;
    }

    /** Adds a key known to be absent to a table that has room, whatever the growth threshold. */
    method MoveInto(k: K, v: V)
      requires Sound() && k !in pos && numValid < |values|
      modifies this`numValid, this`pos, this`values
      ensures Sound() && Contents() == old(Contents())[k := v] && |values| == old(|values|)
    {
      ghost var home := Homes();
      HomesFit();
      ghost var free := EmptySlot(values, pos);
      var index := Home(k);
      assert index == home(k);
      if values[index].Full? {
        ghost var orig := index;
        while true
          invariant 0 <= index < |values| && values[index].Full?
          invariant forall j :: 0 <= j < |values| && OnWalk(orig, j, index) ==> values[j].Full?
          decreases StepsDown(index, free, |values|)
        {
          index := Prev(index, |values|);
          assert index != orig;
          if values[index].Empty? {
            break;
          }
        }
      }
      PlaceKey(values, pos, home, k, v, index);
      hide IsPowerOf2, Spans, Probed, Indexed, Stored;
      values := values[index := Full(k, v)];
      pos := pos[k := index];
      numValid := numValid + 1;
    }

    /** `newMap` is a sound table that holds what the first `n` slots of this one hold. */
    ghost predicate Copied(newMap: HashMap<K, V>, n: nat)
      reads this, newMap
    {
      && (Valid() || Sound()) && newMap != this && n <= |values|
      && newMap.Sound() && |newMap.values| >= numValid && CopiedPrefix(values, pos, n, newMap.Contents())
    }

    lemma NothingCopied(newMap: HashMap<K, V>)
      requires (Valid() || Sound()) && newMap.Sound() && newMap.Contents() == map[]
      requires newMap != this && |newMap.values| >= numValid
      ensures Copied(newMap, 0)
    {
      hide IsPowerOf2, LegalSize, Spans, Probed, Indexed, Stored, CopiedPrefix;
      CopyNone(values, pos);
    }

    /** The whole map has been copied when the copy holds as many keys, or when no slot is left. */
    lemma CopiedAll(newMap: HashMap<K, V>, n: nat)
      requires Copied(newMap, n)
      ensures newMap.Sound() && newMap.numValid <= numValid
      ensures n == |values| || newMap.numValid == numValid ==>
        newMap.Contents() == Contents() && newMap.numValid == numValid
    {
      hide IsPowerOf2, LegalSize, Spans, Probed, Indexed, Stored, CopiedPrefix;
      ContentsCard();
      newMap.ContentsCard();
      CopyComplete(values, pos, n, newMap.Contents());
    }

    /** Copies the key in slot `i`, if there is one. */
    method CopySlot(newMap: HashMap<K, V>, i: nat)
      requires Copied(newMap, i) && i < |values|
      modifies newMap`numValid, newMap`pos, newMap`values
      ensures Copied(newMap, i + 1) && |newMap.values| == old(|newMap.values|)
    {
      hide IsPowerOf2, LegalSize, Spans, Probed, Indexed, Stored, CopiedPrefix, OnWalk, HomesInTable;
      CopyNext(values, pos, i, newMap.Contents());
      if values[i].Full? {
        CopyRoom(values, pos, i, newMap.Contents());
        newMap.ContentsCard();
        newMap.MoveInto(values[i].key, values[i].value);
      }
    }

    /** The copying loop of `Rehash`; it stops as soon as the copy holds as many keys as this table. */
    method CopyInto(newMap: HashMap<K, V>)
      requires (Valid() || Sound()) && newMap.Sound() && newMap.Contents() == map[]
      requires newMap != this && |newMap.values| >= numValid
      modifies newMap`numValid, newMap`pos, newMap`values
      ensures |newMap.values| == old(|newMap.values|)
      ensures newMap.Sound() && newMap.Contents() == Contents() && newMap.numValid == numValid
    {
      hide IsPowerOf2, LegalSize, Spans, Probed, Indexed, Stored, CopiedPrefix, Copied;
      NothingCopied(newMap);
      var i := 0;
      while i < |values|
        invariant i <= |values| && Copied(newMap, i) && |newMap.values| == old(|newMap.values|)
      {
        CopySlot(newMap, i);
        CopiedAll(newMap, i + 1);
        if values[i].Full? && newMap.numValid == numValid {
          return;
        }
        i := i + 1;
      }
      CopiedAll(newMap, i);
    }

    /** Moves every key into a table of the new size, larger or smaller; does nothing if the keys would not fit. */
    method Rehash(newSize: nat)
      requires (Valid() || Sound()) && LegalSize(newSize)
      modifies this
      ensures Valid() || Sound()
      ensures Contents() == old(Contents()) && numValid == old(numValid)
      ensures if newSize < old(numValid) || newSize == old(|values|) then
                values == old(values) && pos == old(pos) && hashShift == old(hashShift) &&
                growThreshold == old(growThreshold)
              else Sound() && |values| == newSize && growThreshold == newSize / 2
      ensures newSize >= 2 * old(numValid) && (newSize == old(|values|) ==> old(Valid())) ==>
        Valid() && |values| == newSize
    {
      if newSize < numValid || newSize == |values| {
        return;
      }
      EvenSize(newSize);
      hide IsPowerOf2, LegalSize, Spans, Probed, Indexed, Stored, OnWalk, HomesInTable;
      var newMap := new HashMap.OfSize(hasher, newSize);
      CopyInto(newMap);
      TakeOver(newMap);
      growThreshold := (newSize + 1) / 2;
    }

    /** Takes over another map's storage. */
    method TakeOver(other: HashMap<K, V>)
      requires other.Sound() && other.hasher == hasher && other != this
      modifies this`values, this`hashShift, this`numValid, this`pos
      ensures Sound() && Contents() == other.Contents() && |values| == |other.values| && numValid == other.numValid
    {
      hide IsPowerOf2, LegalSize, Spans, Probed, Indexed, Stored;
      values, hashShift, numValid := other.values, other.hashShift, other.numValid;
      pos := other.pos;
    }

    method Grow()
      requires Valid()
      modifies this
      ensures Valid() && Contents() == old(Contents()) && numValid == old(numValid)
      ensures |values| == GrownSize(old(|values|))
    {
      GrownSizeIs(|values|);
      hide GrownSize, Probed, Indexed, Stored, Spans, IsPowerOf2;
      Rehash(GrownSize(|values|));
    }

    /** Finds `k` or adds it. `None` is the source's `abort()`, which needs a half-full table of 2^31 slots. */
    method Insert(k: K, v: V) returns (r: Option<(nat, bool)>)
      requires Valid()
      modifies this
      ensures Valid()
      ensures r.None? <==> k !in old(Contents()) && old(|values|) == MAX_HASH_SIZE && old(numValid) == MAX_HASH_SIZE / 2
      ensures r.Some? ==> r.value.1 == (k !in old(Contents()))
      ensures r.Some? ==> k in Contents() && r.value.0 < |values| && values[r.value.0] == Full(k, Contents()[k])
      ensures Contents() == if r.Some? && r.value.1 then old(Contents())[k := v] else old(Contents())
    {
      hide GrownSize, Probed, Indexed, Stored, Spans, IsPowerOf2;
      var ok, index, inserted := InsertNoGrow(k, v);
      if !ok {
        GrownSizeIs(|values|);
        Grow();
        ok, index, inserted := InsertNoGrow(k, v);
        if !ok {
          return None;
        }
      }
      return Some((index, inserted));
    }

    /** Makes room for `capacity` keys; never shrinks the table. */
    method Reserve(capacity: nat)
      requires Valid()
      modifies this
      ensures Valid() && Contents() == old(Contents())
      ensures |values| == if ReservedSize(capacity) > old(|values|) then ReservedSize(capacity) else old(|values|)
      ensures capacity <= MAX_HASH_SIZE / 2 ==> capacity <= growThreshold
    {
      ReservedSizeIs(capacity);
      if ReservedSize(capacity) > |values| {
        Rehash(ReservedSize(capacity));
      }
    }

    /** Empties the map but keeps its storage. */
    method Reset()
      requires Valid()
      modifies this
      ensures Valid() && Contents() == map[] && |values| == old(|values|)
    {
      if numValid == 0 {
        ContentsCard();
        return;
      }
      values := seq(|values|, _ => Empty);
      numValid, pos := 0, map[];
    }
  }
}
