/** The order in which the rows of a GIF image arrive: one after the other, or in four interlaced passes (Appendix E of
    GIF89a). */
module GifRows {
  import opened Powers

  /** The row being filled, the distance to the next one, and how many passes are still to come. */
  datatype Row = Row(at: nat, step: nat, parse: nat)

  function Start(interlaced: bool): Row {
    if interlaced then Row(0, 8, 3) else Row(0, 1, 0)
  }

  /** Moves on to the next pass that has a row in an image of height `h`. */
  function NextPass(r: Row, h: nat): Row
    decreases r.parse
  {
    if r.at >= h && r.parse > 0 then NextPass(Row(Pow2(r.parse) / 2, Pow2(r.parse), r.parse - 1), h) else r
  }

  function Advance(r: Row, h: nat): Row {
    NextPass(Row(r.at + r.step, r.step, r.parse), h)
  }

  /** The states that occur. */
  predicate Proper(r: Row) {
    || (r.parse == 0 && r.step == 1)
    || (r.parse == 3 && r.step == 8 && r.at % 8 == 0)
    || (r.parse == 2 && r.step == 8 && r.at % 8 == 4)
    || (r.parse == 1 && r.step == 4 && r.at % 4 == 2)
    || (r.parse == 0 && r.step == 2 && r.at % 2 == 1)
  }

  /** Rows of passes still to come. */
  predicate Later(parse: nat, row: nat) {
    (parse >= 3 && row % 8 == 4) || (parse >= 2 && row % 4 == 2) || (parse >= 1 && row % 2 == 1)
  }

  /** The remainder that all rows of a pass have in common. */
  function Residue(step: nat, row: nat): nat {
    if step == 8 then row % 8 else if step == 4 then row % 4 else if step == 2 then row % 2 else 0
  }

  /** Rows that are still to be filled: the rest of this pass, and later passes. */
  predicate Due(r: Row, row: nat) {
    (row >= r.at && Residue(r.step, row) == Residue(r.step, r.at)) || Later(r.parse, row)
  }

  lemma Powers3()
    ensures Pow2(1) == 2 && Pow2(2) == 4 && Pow2(3) == 8
  {
  }

  /** The first row of the next pass. */
  function Following(r: Row): Row
    requires r.parse > 0
  {
    Row(Pow2(r.parse) / 2, Pow2(r.parse), r.parse - 1)
  }

  lemma FollowingIs(r: Row)
    requires Proper(r) && r.parse > 0
    ensures Following(r) == if r.parse == 3 then Row(4, 8, 2) else if r.parse == 2 then Row(2, 4, 1) else Row(1, 2, 0)
  {
    Powers3();
  }

  lemma SameDue(r: Row, h: nat, row: nat)
    requires Proper(r) && r.parse > 0 && r.at >= h > row
    ensures Due(r, row) <==> Due(Following(r), row)
  {
    FollowingIs(r);
    hide Pow2, Following;
  }

  lemma {:induction false} NextPassKeeps(r: Row, h: nat)
    requires Proper(r)
    ensures var n := NextPass(r, h);
            Proper(n) && n.parse <= r.parse && (n.at < h || n.parse == 0) && (n.parse == r.parse ==> n == r)
    ensures forall row :: 0 <= row < h ==> (Due(r, row) <==> Due(NextPass(r, h), row))
    decreases r.parse
  {
    if r.at >= h && r.parse > 0 {
      assert NextPass(r, h) == NextPass(Following(r), h);
      FollowingIs(r);
      hide Pow2, Following, NextPass;
      forall row: nat | row < h
        ensures Due(r, row) <==> Due(Following(r), row)
      {
        SameDue(r, h, row);
      }
      NextPassKeeps(Following(r), h);
    }
  }

  lemma SteppedDue(r: Row, row: nat)
    requires Proper(r)
    ensures var s := Row(r.at + r.step, r.step, r.parse);
            Proper(s) && !Due(s, r.at) && Due(r, r.at) && (row != r.at ==> (Due(r, row) <==> Due(s, row)))
  {
    ResidueNext(r.step, r.at, row);
    hide Residue;
  }

  /** Rows of the same pass are a step apart. */
  lemma ResidueNext(step: nat, at: nat, row: nat)
    requires step == 8 || step == 4 || step == 2 || step == 1
    ensures Residue(step, at + step) == Residue(step, at)
    ensures row > at && Residue(step, row) == Residue(step, at) ==> row >= at + step
  {
    if step == 8 {
    } else if step == 4 {
    } else {
    }
  }

  /** One row is filled, and only that one is no longer due. */
  lemma AdvanceKeeps(r: Row, h: nat)
    requires Proper(r) && r.at < h
    ensures var n := Advance(r, h);
            Proper(n) && (n.at < h || n.parse == 0) && n.parse <= r.parse && (n.parse == r.parse ==> n.at > r.at) &&
            Due(r, r.at) && !Due(n, r.at)
    ensures forall row :: 0 <= row < h && row != r.at ==> (Due(r, row) <==> Due(Advance(r, h), row))
  {
    hide Due, NextPass;
    var stepped := Row(r.at + r.step, r.step, r.parse);
    forall row: nat | row < h
      ensures Proper(stepped) && !Due(stepped, r.at) && Due(r, r.at)
      ensures (row != r.at ==> (Due(r, row) <==> Due(stepped, row)))
    {
      SteppedDue(r, row);
    }
    assert Proper(stepped) && Due(r, r.at) && !Due(stepped, r.at) by {
      SteppedDue(r, r.at);
    }
    NextPassKeeps(stepped, h);
  }

  /** The rows from `r` on, in the order they are filled. */
  function Order(r: Row, h: nat): (rows: seq<nat>)
    requires Proper(r)
    decreases r.parse, h - r.at
  {
    if r.at >= h then [] else
      AdvanceKeeps(r, h);
      [r.at] + Order(Advance(r, h), h)
  }

  lemma {:induction false} OrderIsDue(r: Row, h: nat)
    requires Proper(r) && (r.at < h || r.parse == 0)
    ensures forall row :: 0 <= row < h ==> (row in Order(r, h) <==> Due(r, row))
    ensures forall row :: row in Order(r, h) ==> row < h
    ensures forall i, j :: 0 <= i < j < |Order(r, h)| ==> Order(r, h)[i] != Order(r, h)[j]
    decreases r.parse, h - r.at
  {
    if r.at < h {
      AdvanceKeeps(r, h);
      OrderIsDue(Advance(r, h), h);
      var rest := Order(Advance(r, h), h);
      assert Order(r, h) == [r.at] + rest;
      assert r.at !in rest;
    }
  }

  lemma {:induction false} AllBelow(s: seq<nat>, n: nat)
    requires forall i, j :: 0 <= i < j < |s| ==> s[i] != s[j]
    requires forall v :: v in s <==> 0 <= v < n
    ensures |s| == n
  {
    assert s != [] ==> s[0] in s;
    if n > 0 {
      assert n - 1 in s;
      var k :| 0 <= k < |s| && s[k] == n - 1;
      var t := s[..k] + s[k + 1..];
      assert forall i :: 0 <= i < |t| ==> t[i] == s[if i < k then i else i + 1];
      forall v | 0 <= v < n - 1
        ensures v in t
      {
        assert v in s;
        var i :| 0 <= i < |s| && s[i] == v;
        assert t[if i < k then i else i - 1] == v;
      }
      forall i | 0 <= i < |t|
        ensures 0 <= t[i] < n - 1
      {
        assert t[i] in s;
      }
      AllBelow(t, n - 1);
    }
  }

  /** Every row of the image is filled exactly once, interlaced or not. */
  lemma EveryRowOnce(interlaced: bool, h: nat)
    ensures Proper(Start(interlaced))
    ensures var rows := Order(Start(interlaced), h);
            |rows| == h && (forall row :: row in rows <==> 0 <= row < h) &&
            forall i, j :: 0 <= i < j < h ==> rows[i] != rows[j]
  {
    assert h == 0 ==> Order(Start(interlaced), h) == [];
    hide Order, Due, Proper;
    StartIsProper(interlaced);
    var rows := Order(Start(interlaced), h);
    if h > 0 {
      OrderIsDue(Start(interlaced), h);
      forall row: nat | row < h
        ensures Due(Start(interlaced), row)
      {
        AllDue(interlaced, row);
      }
    }
    AllBelow(rows, h);
  }

  lemma StartIsProper(interlaced: bool)
    ensures Proper(Start(interlaced))
  {
  }

  /** At first all rows are still to be filled. */
  lemma AllDue(interlaced: bool, row: nat)
    ensures Due(Start(interlaced), row)
  {
    Residues(row);
  }

  lemma Residues(row: nat)
    ensures row % 8 == 0 || row % 8 == 4 || row % 4 == 2 || row % 2 == 1
  {
    var q, r := Quotient(row, 8), Remainder(row, 8);
    if r % 2 == 1 {
      DivModOf(row, 2, 4 * q + r / 2, 1);
    } else if r % 4 == 2 {
      DivModOf(row, 4, 2 * q + r / 4, 2);
    }
  }

  /** The state after `k` rows. */
  function RowAt(r: Row, h: nat, k: nat): Row {
    if k == 0 then r else Advance(RowAt(r, h, k - 1), h)
  }

  lemma {:induction false} RowAtNext(r: Row, h: nat, k: nat)
    ensures RowAt(r, h, k + 1) == RowAt(Advance(r, h), h, k)
  {
    if k > 0 {
      RowAtNext(r, h, k - 1);
    }
  }

  /** While rows are left, the state after `k` rows is at the `k`-th row; afterwards it is behind the image. */
  lemma {:induction false} OrderAt(r: Row, h: nat, k: nat)
    requires Proper(r) && (r.at < h || r.parse == 0) && k <= |Order(r, h)|
    ensures Proper(RowAt(r, h, k)) && (RowAt(r, h, k).at < h || RowAt(r, h, k).parse == 0)
    ensures if k < |Order(r, h)| then RowAt(r, h, k).at == Order(r, h)[k] < h else RowAt(r, h, k).at >= h
    decreases k
  {
    hide Advance, Proper;
    if r.at < h {
      AdvanceKeeps(r, h);
      if k > 0 {
        OrderAt(Advance(r, h), h, k - 1);
        RowAtNext(r, h, k - 1);
      }
    }
  }

  // ---------------------------------------------------------------- the passes of Appendix E

  /** How many rows come before row `row` of an interlaced image: first every eighth from row 0 on, then every eighth
      from row 4 on, then every fourth from row 2 on, and then every second from row 1 on. */
  function Rank(row: nat, h: nat): nat {
    if row % 8 == 0 then row / 8
    else if row % 8 == 4 then (h + 7) / 8 + row / 8
    else if row % 4 == 2 then (h + 7) / 8 + (h + 3) / 8 + row / 4
    else (h + 7) / 8 + (h + 3) / 8 + (h + 1) / 4 + row / 2
  }

  /** The next row is the next in rank. */
  lemma AdvanceRank(r: Row, h: nat)
    requires Proper(r) && r.step > 1 && r.at < h
    ensures var n := Advance(r, h); Proper(n) && n.step > 1 && (n.at < h ==> Rank(n.at, h) == Rank(r.at, h) + 1)
  {
    hide NextPass, Rank, Due;
    SteppedDue(r, r.at);
    NextPassIs(Row(r.at + r.step, r.step, r.parse), h);
    if r.at + r.step < h || r.parse == 0 {
      RankWithinPass(r, h);
    } else if r.parse == 3 {
      RankBehindFirst(r, h);
    } else if r.parse == 2 {
      RankBehindSecond(r, h);
    } else {
      RankBehindThird(r, h);
    }
  }

  lemma RankWithinPass(r: Row, h: nat)
    requires Proper(r) && r.step > 1
    ensures Rank(r.at + r.step, h) == Rank(r.at, h) + 1
  {
    hide Rank;
    if r.step == 8 {
      EighthRank(r.at, h);
    } else if r.step == 4 {
      FourthRank(r.at, h);
    } else {
      SecondRank(r.at, h);
    }
  }

  lemma EighthRank(at: nat, h: nat)
    requires at % 8 == 0 || at % 8 == 4
    ensures Rank(at + 8, h) == Rank(at, h) + 1
  {
  }

  lemma FourthRank(at: nat, h: nat)
    requires at % 4 == 2
    ensures Rank(at + 4, h) == Rank(at, h) + 1
  {
    FourthIs(at / 4, h);
    FourthIs(at / 4 + 1, h);
    hide Rank;
  }

  lemma FourthIs(q: nat, h: nat)
    ensures Rank(4 * q + 2, h) == (h + 7) / 8 + (h + 3) / 8 + q
  {
    var row := 4 * q + 2;
    assert row == 8 * (q / 2) + if q % 2 == 0 then 2 else 6;
    assert row % 8 == (if q % 2 == 0 then 2 else 6) && row % 4 == 2 && row / 4 == q;
  }

  lemma SecondRank(at: nat, h: nat)
    requires at % 2 == 1
    ensures Rank(at + 2, h) == Rank(at, h) + 1
  {
    OddIs(at, h);
    OddIs(at + 2, h);
    hide Rank;
  }

  lemma OddIs(row: nat, h: nat)
    requires row % 2 == 1
    ensures Rank(row, h) == (h + 7) / 8 + (h + 3) / 8 + (h + 1) / 4 + row / 2
  {
    assert row % 8 != 0 && row % 8 != 4 && row % 4 != 2;
  }

  lemma RankBehindFirst(r: Row, h: nat)
    requires Proper(r) && r.parse == 3 && r.at < h <= r.at + 8
    ensures Rank(r.at, h) + 1 == (h + 7) / 8
    ensures 4 < h ==> Rank(4, h) == Rank(r.at, h) + 1
    ensures 2 < h <= 4 ==> Rank(2, h) == Rank(r.at, h) + 1
    ensures 1 < h <= 2 ==> Rank(1, h) == Rank(r.at, h) + 1
  {
  }

  lemma RankBehindSecond(r: Row, h: nat)
    requires Proper(r) && r.parse == 2 && r.at < h <= r.at + 8
    ensures Rank(2, h) == Rank(r.at, h) + 1
  {
  }

  lemma RankBehindThird(r: Row, h: nat)
    requires Proper(r) && r.parse == 1 && r.at < h <= r.at + 4
    ensures Rank(1, h) == Rank(r.at, h) + 1
  {
  }

  lemma NextPassIs(r: Row, h: nat)
    requires Proper(r) && r.step > 1
    ensures NextPass(r, h) ==
            if r.at < h || r.parse == 0 then r
            else if r.parse == 3 && 4 < h then Row(4, 8, 2)
            else if r.parse >= 2 && 2 < h then Row(2, 4, 1)
            else Row(1, 2, 0)
  {
    Powers3();
    hide Pow2;
    assert NextPass(Row(1, 2, 0), h) == Row(1, 2, 0);
    assert NextPass(Row(2, 4, 1), h) == if 2 < h then Row(2, 4, 1) else Row(1, 2, 0);
    assert NextPass(Row(4, 8, 2), h) == if 4 < h then Row(4, 8, 2) else NextPass(Row(2, 4, 1), h);
  }

  /** The `k`-th row of an interlaced image is the one of rank `k`. */
  lemma {:induction false} RowAtRank(h: nat, k: nat)
    requires k < h
    ensures var r := RowAt(Start(true), h, k);
            Proper(r) && r.step > 1 && r.at < h && Rank(r.at, h) == k
    decreases k
  {
    hide Advance, Rank, Proper, Order;
    EveryRowOnce(true, h);
    OrderAt(Start(true), h, k);
    if k > 0 {
      RowAtRank(h, k - 1);
      AdvanceRank(RowAt(Start(true), h, k - 1), h);
    } else {
      FirstRank(h);
    }
  }

  lemma FirstRank(h: nat)
    ensures Rank(0, h) == 0
  {
  }
}
