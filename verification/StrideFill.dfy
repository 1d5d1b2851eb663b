/** Filling every entry of a table whose number ends with given bits, as both Huffman decoders do for short
    codewords. */
module StrideFill {
  import opened Powers

  /** `now` is `was` with `k` stored in every entry below `at` whose number leaves the remainder `rev`. */
  ghost predicate Filled<T>(was: seq<T>, now: seq<T>, at: nat, p: nat, rev: nat, k: T)
    requires p > 0
  {
    |now| == |was| && forall x :: 0 <= x < |was| ==> now[x] == if x < at && x % p == rev then k else was[x]
  }

  lemma NothingFilled<T>(was: seq<T>, p: nat, rev: nat, k: T)
    requires rev < p
    ensures Filled(was, was, rev, p, rev, k) && rev % p == rev
  {
    forall x: nat | x < rev
      ensures x % p != rev
    {
      SmallRemainder(x, p);
    }
    SmallRemainder(rev, p);
  }

  lemma FillNext<T>(was: seq<T>, now: seq<T>, at: nat, p: nat, rev: nat, k: T)
    requires p > 0 && Filled(was, now, at, p, rev, k) && at < |was| && at % p == rev
    ensures Filled(was, now[at := k], at + p, p, rev, k) && (at + p) % p == rev
  {
    NextResidue(at, p, rev);
  }

  lemma FilledAll<T>(was: seq<T>, now: seq<T>, at: nat, p: nat, rev: nat, k: T)
    requires p > 0 && Filled(was, now, at, p, rev, k) && at >= |was|
    ensures Filled(was, now, |was|, p, rev, k)
  {
  }

  /** One of these entries is not zero. */
  ghost predicate Taken(was: seq<int>, p: nat, rev: nat)
    requires p > 0
  {
    exists x :: 0 <= x < |was| && x % p == rev && was[x] != 0
  }

  lemma EntryTaken(was: seq<int>, now: seq<int>, at: nat, p: nat, rev: nat, k: int)
    requires p > 0 && Filled(was, now, at, p, rev, k) && at < |was| && at % p == rev
    ensures if now[at] != 0 then Taken(was, p, rev) else was[at] == 0
  {
  }

  /** Those below `at` are zero. */
  ghost predicate FreeBelow(was: seq<int>, at: nat, p: nat, rev: nat)
    requires p > 0
  {
    forall x :: 0 <= x < |was| && x < at && x % p == rev ==> was[x] == 0
  }

  lemma FreeStart(was: seq<int>, p: nat, rev: nat)
    requires rev < p
    ensures FreeBelow(was, rev, p, rev)
  {
    forall x: nat | x < rev
      ensures x % p != rev
    {
      SmallRemainder(x, p);
    }
  }

  lemma FreeNext(was: seq<int>, at: nat, p: nat, rev: nat)
    requires p > 0 && FreeBelow(was, at, p, rev) && at < |was| && at % p == rev && was[at] == 0
    ensures FreeBelow(was, at + p, p, rev)
  {
    NextResidue(at, p, rev);
  }

  lemma FreeAll(was: seq<int>, at: nat, p: nat, rev: nat)
    requires p > 0 && FreeBelow(was, at, p, rev) && at >= |was|
    ensures !Taken(was, p, rev)
  {
  }
}
