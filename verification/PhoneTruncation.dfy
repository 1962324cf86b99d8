/** Exactly which databases the packed 34-bit fields serve correctly. */
module PhoneTruncation {
  import opened PhoneRows
  import opened SortAlgorithms
  import opened PhoneIndex

  lemma ScanPosition(rows: seq<Row>, r: nat) returns (q: nat)
    requires r < |rows| <= MAXROWS
    ensures q < |ScanOrder(rows)| && ScanOrder(rows)[q] == PhoneList(Phone34(rows[r].rn), r)
  {
    hide ScanOrder;
    ScanOrderVisitsEveryRowOnce(rows);
    q :| 0 <= q < |ScanOrder(rows)| && ScanOrder(rows)[q] == PhoneList(Phone34(rows[r].rn), r);
  }

  lemma RankOfEntry(s: seq<PhoneList>, key: nat, q: nat)
    requires Sorted(s) && q < |s|
    ensures s[q].phone < key <==> q < Rank(s, key)
  {
    hide Rank;
    RankSplits(s, key);
  }

  lemma SlicePosition(rows: seq<Row>, from: nat, to: nat, r: nat) returns (p: nat)
    requires r < |rows| <= MAXROWS && from <= Phone34(rows[r].rn) < to
    ensures p < |Slice(rows, from, to)| && Slice(rows, from, to)[p] == r
  {
    hide ScanOrder, Rank, Sorted;
    ScanOrderIsSorted(rows);
    var s := ScanOrder(rows);
    var q := ScanPosition(rows, r);
    RankOfEntry(s, from, q);
    RankOfEntry(s, to, q);
    p := q - Rank(s, from);
  }

  lemma DistinctCount(rows: seq<Row>, r: Row)
    requires DistinctKeys(rows)
    ensures multiset(rows)[r] <= 1
  {
    if rows != [] {
      var t := rows[..|rows| - 1];
      assert rows == t + [rows[|rows| - 1]];
      DistinctCount(t, r);
      if multiset(t)[r] == 1 {
        assert r in t;
      }
    }
  }

  lemma TwicePresent(s: seq<Row>, i: nat, j: nat)
    requires i < j < |s| && s[i] == s[j]
    ensures multiset(s)[s[i]] >= 2
  {
    assert s == s[..j] + [s[j]] + s[j + 1..];
    assert s[..j][i] == s[i];
  }

  // ------------------------------------------------------- one query

  /** All rows whose stored rn lies in the range have numbers that fit. */
  ghost predicate RangeFits(rows: seq<Row>, from: nat, to: nat) {
    forall i :: 0 <= i < |rows| && from <= Phone34(rows[i].rn) < to ==> Fits(rows[i])
  }

  /** A row whose numbers do not both fit spoils every range that its stored rn
      lies in: another row shows up twice, or a stranger, or it is missing. */
  lemma MisfitSpoilsItsRange(rows: seq<Row>, from: nat, to: nat, i: nat)
    requires i < |rows| <= MAXROWS && DistinctKeys(rows) && !Fits(rows[i])
    requires from <= Phone34(rows[i].rn) < to <= U34_LIMIT
    ensures IndexAnswer(rows, from, to) != InverseRows(rows, from, to)
  {
    hide ScanOrder, Slice, InverseRows;
    var answer, expected := IndexAnswer(rows, from, to), InverseRows(rows, from, to);
    SliceIsInBounds(rows, from, to);
    if answer == expected {
      var p := SlicePosition(rows, from, to, i);
      var shown := answer[p];
      assert shown == Shown(rows, i) && shown in multiset(expected);
      InverseRowsExact(rows, from, to, shown);
      assert shown in rows && from <= shown.rn < to;
      var j: nat :| j < |rows| && rows[j] == shown;
      if j == i {
        assert false;
      } else {
        var q := SlicePosition(rows, from, to, j);
        ShownIsRow(rows, j);
        TwicePresent(answer, if p < q then p else q, if p < q then q else p);
        DistinctCount(rows, shown);
        assert false;
      }
    }
  }

  /** The rows as the packed fields hold them. */
  function Cut(rows: seq<Row>): seq<Row> {
    seq(|rows|, i requires 0 <= i < |rows| => Row(Phone34(rows[i].pn), Phone34(rows[i].rn)))
  }

  lemma CutPrefix(rows: seq<Row>)
    requires rows != []
    ensures Cut(rows)[..|rows| - 1] == Cut(rows[..|rows| - 1])
    ensures Cut(rows)[|rows| - 1] == Row(Phone34(rows[|rows| - 1].pn), Phone34(rows[|rows| - 1].rn))
  {
  }

  lemma CutLength(rows: seq<Row>)
    ensures |Cut(rows)| == |rows|
  {
  }

  /** The order of the index depends on the stored numbers only. */
  lemma {:induction false} CutScansAlike(rows: seq<Row>)
    requires |rows| <= MAXROWS
    ensures ScanOrder(Cut(rows)) == ScanOrder(rows)
  {
    hide InsertEntry, Cut;
    CutLength(rows);
    if rows != [] {
      CutPrefix(rows);
      CutScansAlike(rows[..|rows| - 1]);
    }
  }

  lemma {:induction false} CutInRange(rows: seq<Row>, from: nat, to: nat)
    requires RangeFits(rows, from, to) && to <= U34_LIMIT
    ensures InRange(Cut(rows), from, to) == InRange(rows, from, to)
  {
    if rows != [] {
      CutPrefix(rows);
      assert rows[|rows| - 1].rn < to ==> Phone34(rows[|rows| - 1].rn) == rows[|rows| - 1].rn;
      CutInRange(rows[..|rows| - 1], from, to);
    }
  }

  lemma CutFits(rows: seq<Row>)
    ensures AllFit(Cut(rows))
  {
  }

  /** Inside the range the cut rows, picked in index order, are what is shown. */
  lemma CutShown(rows: seq<Row>, from: nat, to: nat)
    requires |rows| <= MAXROWS && DistinctKeys(rows) && RangeFits(rows, from, to)
    requires Rank(ScanOrder(rows), from) <= Rank(ScanOrder(rows), to)
    requires forall i :: 0 <= i < |ScanOrder(rows)| ==> ScanOrder(rows)[i].next < |rows|
    ensures var s := ScanOrder(rows);
      IndexAnswer(rows, from, to) == Pick(Cut(rows), s)[Rank(s, from)..Rank(s, to)]
  {
    hide ScanOrder, Rank, Shown;
    var s := ScanOrder(rows);
    var left := Rank(s, from);
    SliceIsInBounds(rows, from, to);
    var slice := Slice(rows, from, to);
    assert |slice| == Rank(s, to) - left;
    forall i | 0 <= i < |slice| ensures Shown(rows, slice[i]) == Pick(Cut(rows), s)[left + i] {
      CutShownAt(rows, from, to, left + i);
    }
  }

  lemma CutShownAt(rows: seq<Row>, from: nat, to: nat, q: nat)
    requires |rows| <= MAXROWS && DistinctKeys(rows) && RangeFits(rows, from, to)
    requires Rank(ScanOrder(rows), from) <= q < Rank(ScanOrder(rows), to)
    ensures q < |ScanOrder(rows)| && ScanOrder(rows)[q].next < |rows|
    ensures var r := ScanOrder(rows)[q].next; Shown(rows, r) == Cut(rows)[r]
  {
    hide ScanOrder, Rank, Sorted, Shown;
    ScanOrderVisitsEveryRowOnce(rows);
    ScanOrderIsSorted(rows);
    RankOfEntry(ScanOrder(rows), from, q);
    RankOfEntry(ScanOrder(rows), to, q);
    ShownIsRow(rows, ScanOrder(rows)[q].next);
  }

  lemma FittingRangeIsExact(rows: seq<Row>, from: nat, to: nat)
    requires |rows| <= MAXROWS && DistinctKeys(rows) && RangeFits(rows, from, to) && to <= U34_LIMIT
    ensures IndexAnswer(rows, from, to) == InverseRows(rows, from, to)
  {
    hide ScanOrder, Rank, IndexAnswer, InRange, SortByRn;
    if from <= to {
      CutScansAlike(rows);
      CutFits(rows);
      RangeOfPick(Cut(rows), from, to);
      CutShown(rows, from, to);
      ScanOrderSortsRows(Cut(rows));
      SortThenFilter(Cut(rows), from, to);
      CutInRange(rows, from, to);
    } else {
      NothingBackwards(rows, from, to);
    }
  }

  lemma NothingBackwards(rows: seq<Row>, from: nat, to: nat)
    requires |rows| <= MAXROWS && to <= from
    ensures IndexAnswer(rows, from, to) == InverseRows(rows, from, to) == []
  {
    SliceIsInBounds(rows, from, to);
    RankMonotone(ScanOrder(rows), to, from);
    InRangeEmpty(rows, from, to);
    assert ShownRows(rows, Slice(rows, from, to)) == [];
  }

  /** A query with bounds that fit is answered like the filtered and stably
      sorted database exactly when the rows stored in its range fit. */
  lemma RangeExactIffItsRowsFit(rows: seq<Row>, from: U64, to: U64)
    requires |rows| <= MAXROWS && DistinctKeys(rows)
    ensures from < U34_LIMIT && to < U34_LIMIT ==>
              (RangeFits(rows, from, to) <==>
               IndexAnswer(rows, Phone34(from), Phone34(to)) == InverseRows(rows, from, to))
  {
    hide IndexAnswer, InverseRows;
    if from < U34_LIMIT && to < U34_LIMIT {
      if RangeFits(rows, from, to) {
        FittingRangeIsExact(rows, from, to);
      } else {
        var i :| 0 <= i < |rows| && from <= Phone34(rows[i].rn) < to && !Fits(rows[i]);
        MisfitSpoilsItsRange(rows, from, to, i);
      }
    }
  }

  // ------------------------------------------------------- all queries

  /** The largest stored number: no range with bounds that fit contains it. */
  const LAST_PHONE: U34 := U34_LIMIT - 1

  /** Every query with bounds that fit is answered correctly exactly when each
      row has numbers that fit or is stored where no such query reaches. */
  lemma AllRangesExactIff(rows: seq<Row>)
    requires |rows| <= MAXROWS && DistinctKeys(rows)
    ensures (forall i :: 0 <= i < |rows| ==> Fits(rows[i]) || Phone34(rows[i].rn) == LAST_PHONE) <==>
            forall from: U64, to: U64 :: from < U34_LIMIT && to < U34_LIMIT ==>
              IndexAnswer(rows, Phone34(from), Phone34(to)) == InverseRows(rows, from, to)
  {
    hide IndexAnswer, InverseRows;
    if forall i :: 0 <= i < |rows| ==> Fits(rows[i]) || Phone34(rows[i].rn) == LAST_PHONE {
      forall from: U64, to: U64 | from < U34_LIMIT && to < U34_LIMIT
        ensures IndexAnswer(rows, Phone34(from), Phone34(to)) == InverseRows(rows, from, to)
      {
        RangeExactIffItsRowsFit(rows, from, to);
      }
    } else {
      var i :| 0 <= i < |rows| && !Fits(rows[i]) && Phone34(rows[i].rn) != LAST_PHONE;
      var k: U64 := Phone34(rows[i].rn);
      MisfitSpoilsItsRange(rows, k, k + 1, i);
      assert Phone34(k) == k && Phone34(k + 1) == k + 1;
    }
  }

  /** Which bounds are safe on every database whose numbers all fit: those that
      fit themselves, and those whose cut range is empty above all numbers. */
  lemma BoundsSafeIff(from: U64, to: U64)
    ensures (forall rows: seq<Row> :: |rows| <= MAXROWS && DistinctKeys(rows) && AllFit(rows) ==>
               IndexAnswer(rows, Phone34(from), Phone34(to)) == InverseRows(rows, from, to)) <==>
            (from < U34_LIMIT && to < U34_LIMIT) || (from >= U34_LIMIT && Phone34(to) <= Phone34(from))
  {
    hide IndexAnswer, InverseRows;
    if from < U34_LIMIT && to < U34_LIMIT {
      forall rows: seq<Row> | |rows| <= MAXROWS && DistinctKeys(rows) && AllFit(rows)
        ensures IndexAnswer(rows, Phone34(from), Phone34(to)) == InverseRows(rows, from, to)
      {
        FittingAnswer(rows, from, to);
      }
    } else if from >= U34_LIMIT && Phone34(to) <= Phone34(from) {
      forall rows: seq<Row> | |rows| <= MAXROWS && DistinctKeys(rows) && AllFit(rows)
        ensures IndexAnswer(rows, Phone34(from), Phone34(to)) == InverseRows(rows, from, to)
      {
        NothingBackwards(rows, Phone34(from), Phone34(to));
        NothingAbove(rows, from, to);
      }
    } else {
      // from fits and to does not, or the cut bounds leave room for a number
      var rn: U64 := if from < U34_LIMIT then LAST_PHONE else Phone34(from);
      OneRowAnswers(rn, Phone34(from), Phone34(to));
      OneRowExpected(rn, from, to);
      var rows := [Row(0, rn)];
      assert |rows| <= MAXROWS && DistinctKeys(rows) && AllFit(rows);
    }
  }

  lemma {:induction false} NothingAbove(rows: seq<Row>, from: nat, to: nat)
    requires AllFit(rows) && from >= U34_LIMIT
    ensures InRange(rows, from, to) == InverseRows(rows, from, to) == []
  {
    if rows != [] {
      assert Fits(rows[|rows| - 1]);
      NothingAbove(rows[..|rows| - 1], from, to);
    }
  }

  lemma OneRowExpected(rn: U64, from: nat, to: nat)
    ensures InverseRows([Row(0, rn)], from, to) == if from <= rn < to then [Row(0, rn)] else []
  {
    var rows := [Row(0, rn)];
    assert rows[..0] == [];
    assert InRange([], from, to) == [];
    assert InRange(rows, from, to) == if from <= rn < to then rows else [];
    assert SortByRn([]) == [] && InsertRow([], Row(0, rn)) == rows;
  }

  lemma OneRowAnswers(rn: U64, from: nat, to: nat)
    requires rn < U34_LIMIT
    ensures IndexAnswer([Row(0, rn)], from, to) == if from <= rn < to then [Row(0, rn)] else []
  {
    hide IndexAnswer, InverseRows;
    SliceAnswersInverse([Row(0, rn)], from, to);
    OneRowExpected(rn, from, to);
  }

  /** The bound 2^34 is cut to 0: asked for everything, the index shows nothing. */
  lemma WideBoundExample()
    ensures var rows := [Row(1, 2)];
      AllFit(rows) && IndexAnswer(rows, Phone34(0), Phone34(U34_LIMIT)) == [] && InverseRows(rows, 0, U34_LIMIT) == rows
  {
    var rows := [Row(1, 2)];
    NothingBackwards(rows, 0, 0);
    assert rows[..0] == [];
    assert InRange(rows, 0, U34_LIMIT) == rows;
  }

  /** A row that does not fit but is stored as the largest number hides from
      every query: all answers with bounds that fit are still right. */
  lemma HiddenMisfitExample()
    ensures var rows := [Row(5, 2 * U34_LIMIT - 1)];
      !AllFit(rows) && forall from: U64, to: U64 :: from < U34_LIMIT && to < U34_LIMIT ==>
        IndexAnswer(rows, Phone34(from), Phone34(to)) == InverseRows(rows, from, to)
  {
    var rows := [Row(5, 2 * U34_LIMIT - 1)];
    assert !Fits(rows[0]) && Phone34(rows[0].rn) == LAST_PHONE;
    AllRangesExactIff(rows);
  }

  // ------------------------------------------------------- full visits

  /** A full visit shows the loaded rows exactly when every pn fits 34 bits. */
  lemma VisitExactIffKeysFit(rows: seq<Row>)
    requires |rows| <= MAXROWS && DistinctKeys(rows)
    ensures Visited(rows) == rows <==> forall i :: 0 <= i < |rows| ==> rows[i].pn < U34_LIMIT
  {
    if forall i :: 0 <= i < |rows| ==> rows[i].pn < U34_LIMIT {
      forall i | 0 <= i < |rows| ensures Visited(rows)[i] == rows[i] {
        ShownIsRow(rows, i);
      }
    } else {
      var i :| 0 <= i < |rows| && rows[i].pn >= U34_LIMIT;
      assert Visited(rows)[i].pn < U34_LIMIT;
    }
  }

  /** A concrete database on which the packed fields lie: one row whose pn has
      a 35th bit. The visit shows key 5 with no routing number. */
  lemma WideKeyExample()
    ensures var rows := [Row(U34_LIMIT + 5, 7)];
      DistinctKeys(rows) && Visited(rows) == [Row(5, NONE)]
  {
    var rows := [Row(U34_LIMIT + 5, 7)];
    assert Phone34(U34_LIMIT + 5) == 5;
    assert Lookup(rows, 5) == Lookup(rows[..0], 5) == NONE;
    assert Shown(rows, 0) == Row(5, NONE);
  }
}
