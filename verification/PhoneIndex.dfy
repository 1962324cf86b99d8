/** What the built index means: the rows in (rn, load order), a linked list
    through the pn column in that order, and the slice of it that a range of
    routing numbers selects. */
module PhoneIndex {
  import opened PhoneRows
  import opened SortAlgorithms

  /** Insert behind every entry with the same or a smaller number. */
  function InsertEntry(s: seq<PhoneList>, e: PhoneList): seq<PhoneList> {
    if s == [] || s[|s| - 1].phone <= e.phone then s + [e]
    else InsertEntry(s[..|s| - 1], e) + [s[|s| - 1]]
  }

  /** One entry (stored rn, row number) per row, in the order of a reverse scan. */
  function ScanOrder(rows: seq<Row>): seq<PhoneList>
    requires |rows| <= MAXROWS
  {
    if rows == [] then []
    else InsertEntry(ScanOrder(rows[..|rows| - 1]), PhoneList(Phone34(rows[|rows| - 1].rn), |rows| - 1))
  }

  /** The rn column joined with row numbers, before sorting. */
  function Entries(rows: seq<Row>): seq<PhoneList>
    requires |rows| <= MAXROWS
  {
    seq(|rows|, i requires 0 <= i < |rows| => PhoneList(Phone34(rows[i].rn), i))
  }

  lemma {:induction false} InsertEntryKeeps(s: seq<PhoneList>, e: PhoneList)
    ensures multiset(InsertEntry(s, e)) == multiset(s) + multiset{e}
    ensures |InsertEntry(s, e)| == |s| + 1
  {
    if s != [] && s[|s| - 1].phone > e.phone {
      InsertEntryKeeps(s[..|s| - 1], e);
      SplitLast(s);
    }
  }

  lemma {:induction false} InsertEntrySorts(s: seq<PhoneList>, e: PhoneList)
    requires Sorted(s)
    requires forall i :: 0 <= i < |s| ==> s[i].next < e.next
    ensures Sorted(InsertEntry(s, e))
  {
    if s != [] && s[|s| - 1].phone > e.phone {
      var t, l := s[..|s| - 1], s[|s| - 1];
      InsertEntrySorts(t, e);
      InsertEntryKeeps(t, e);
      var u := InsertEntry(t, e);
      forall i | 0 <= i < |u| ensures Less(u[i], l) {
        assert u[i] in multiset(u);
        assert u[i] in t || u[i] == e;
      }
    }
  }

  lemma {:induction false} ScanOrderKeepsEntries(rows: seq<Row>)
    requires |rows| <= MAXROWS
    ensures |ScanOrder(rows)| == |rows|
    ensures multiset(ScanOrder(rows)) == multiset(Entries(rows))
  {
    if rows != [] {
      hide InsertEntry;
      var n := |rows| - 1;
      ScanOrderKeepsEntries(rows[..n]);
      InsertEntryKeeps(ScanOrder(rows[..n]), PhoneList(Phone34(rows[n].rn), n));
      assert Entries(rows) == Entries(rows[..n]) + [PhoneList(Phone34(rows[n].rn), n)];
    }
  }

  lemma {:induction false} ScanOrderIsSorted(rows: seq<Row>)
    requires |rows| <= MAXROWS
    ensures Sorted(ScanOrder(rows))
  {
    if rows != [] {
      var n := |rows| - 1;
      ScanOrderIsSorted(rows[..n]);
      ScanOrderKeepsEntries(rows[..n]);
      var s := ScanOrder(rows[..n]);
      forall i | 0 <= i < |s| ensures s[i].next < n {
        assert s[i] in multiset(Entries(rows[..n]));
      }
      InsertEntrySorts(s, PhoneList(Phone34(rows[n].rn), n));
    }
  }

  /** Every entry names an existing row, and every row has exactly one entry. */
  lemma ScanOrderVisitsEveryRowOnce(rows: seq<Row>)
    requires |rows| <= MAXROWS
    ensures |ScanOrder(rows)| == |rows|
    ensures forall i :: 0 <= i < |rows| ==>
      var e := ScanOrder(rows)[i]; e.next < |rows| && e.phone == Phone34(rows[e.next].rn)
    ensures forall i, j :: 0 <= i < j < |rows| ==> ScanOrder(rows)[i].next != ScanOrder(rows)[j].next
    ensures forall r :: 0 <= r < |rows| ==> PhoneList(Phone34(rows[r].rn), r) in ScanOrder(rows)
  {
    ScanOrderKeepsEntries(rows);
    ScanOrderIsSorted(rows);
    var s, t := ScanOrder(rows), Entries(rows);
    forall i | 0 <= i < |rows|
      ensures s[i].next < |rows| && s[i].phone == Phone34(rows[s[i].next].rn)
    {
      assert s[i] in multiset(t);
    }
    forall i, j | 0 <= i < j < |rows| ensures s[i].next != s[j].next {
      assert Less(s[i], s[j]);
    }
    forall r | 0 <= r < |rows| ensures PhoneList(Phone34(rows[r].rn), r) in s {
      assert t[r] in multiset(s);
    }
  }

  // ------------------------------------------------------- the linked list

  /** Row number at position p of the scan, or the sentinel at its end. */
  function RowAt(s: seq<PhoneList>, p: nat): U30
    requires p <= |s|
  {
    if p == |s| then MAXROWS else s[p].next
  }

  /** Walking `next` from row `it` to row `end` visits exactly `todo`. */
  ghost predicate Chain(column: seq<PhoneList>, it: U30, end: U30, todo: seq<U30>)
    decreases |todo|
  {
    if todo == [] then it == end
    else it != end && it == todo[0] && it < |column| && Chain(column, column[it].next, end, todo[1..])
  }

  lemma ChainStep(column: seq<PhoneList>, it: U30, end: U30, todo: seq<U30>)
    requires Chain(column, it, end, todo)
    ensures it == end <==> todo == []
    ensures it != end ==>
      it == todo[0] && it < |column| && Chain(column, column[it].next, end, todo[1..])
  {
  }

  ghost predicate Threaded(column: seq<PhoneList>, s: seq<PhoneList>) {
    && |column| == |s| <= MAXROWS
    && (forall i :: 0 <= i < |s| ==> s[i].next < |column|)
    && (forall i, j :: 0 <= i < j < |s| ==> s[i].next != s[j].next)
    && (forall i :: 0 <= i < |s| ==> column[s[i].next].next == RowAt(s, i + 1))
  }

  function RowNumbers(s: seq<PhoneList>): seq<U30> {
    seq(|s|, i requires 0 <= i < |s| => s[i].next)
  }

  /** Between any two positions of the scan the list is exactly that slice: it
      is acyclic and never meets the end early, the sentinel included. */
  lemma {:induction false} ThreadedChain(column: seq<PhoneList>, s: seq<PhoneList>, p: nat, q: nat)
    requires Threaded(column, s) && p <= q <= |s|
    ensures Chain(column, RowAt(s, p), RowAt(s, q), RowNumbers(s[p..q]))
    decreases q - p
  {
    if p < q {
      ThreadedChain(column, s, p + 1, q);
      assert RowNumbers(s[p..q])[1..] == RowNumbers(s[p + 1..q]);
    }
  }

  lemma DistinctEnds(column: seq<PhoneList>, s: seq<PhoneList>, p: nat, q: nat)
    requires Threaded(column, s) && p <= q <= |s|
    ensures RowAt(s, p) == RowAt(s, q) <==> p == q
  {
  }

  // ---------------------------------------------------------- range slices

  /** Number of entries below `key`: where a lower bound lands. */
  function Rank(s: seq<PhoneList>, key: nat): (r: nat)
    ensures r <= |s|
  {
    if s == [] then 0
    else Rank(s[..|s| - 1], key) + if s[|s| - 1].phone < key then 1 else 0
  }

  lemma {:induction false} RankSplits(s: seq<PhoneList>, key: nat)
    requires Sorted(s)
    ensures forall i :: 0 <= i < |s| ==> (s[i].phone < key <==> i < Rank(s, key))
  {
    if s != [] {
      var t := s[..|s| - 1];
      RankSplits(t, key);
      if s[|s| - 1].phone < key {
        assert forall i :: 0 <= i < |t| ==> Less(t[i], s[|s| - 1]);
        RankOfAll(t, key);
      }
    }
  }

  lemma {:induction false} RankOfAll(s: seq<PhoneList>, key: nat)
    requires forall i :: 0 <= i < |s| ==> s[i].phone < key
    ensures Rank(s, key) == |s|
  {
    if s != [] {
      RankOfAll(s[..|s| - 1], key);
    }
  }

  /** A lower bound in the deduplicated index finds the same row as a lower
      bound in the full scan order. */
  lemma HeadIsFirstOfRun(s: seq<PhoneList>, heads: seq<PhoneList>, key: nat, k: nat)
    requires Sorted(s) && HeadsOfRuns(heads, s) && k <= |heads|
    requires forall i :: 0 <= i < k ==> heads[i].phone < key
    requires forall i :: k <= i < |heads| ==> key <= heads[i].phone
    ensures (if k == |heads| then MAXROWS else heads[k].next) == RowAt(s, Rank(s, key))
  {
    if k < |heads| {
      var p := RunOfHead(s, heads, k);
      RankBetween(s, key, p);
      var r := Rank(s, key);
      var k' := HeadOfEntry(s, heads, r);
      AscendsBetween(heads, k, k', key);
      RunStartIsFirst(s, r, p);
    } else {
      forall i | 0 <= i < |s| ensures s[i].phone < key {
        var k' := HeadOfEntry(s, heads, i);
      }
      RankOfAll(s, key);
    }
  }

  lemma RunOfHead(s: seq<PhoneList>, heads: seq<PhoneList>, k: nat) returns (p: nat)
    requires HeadsOfRuns(heads, s) && k < |heads|
    ensures RunStart(s, p) && s[p] == heads[k]
  {
    assert StartsRun(s, heads[k]);
    p :| RunStart(s, p) && s[p] == heads[k];
  }

  lemma AscendsBetween(heads: seq<PhoneList>, k: nat, k': nat, key: nat)
    requires PhonesAscend(heads) && k < |heads| && k' < |heads| && key <= heads[k'].phone
    requires forall i :: 0 <= i < k ==> heads[i].phone < key
    ensures heads[k].phone <= heads[k'].phone
  {
  }

  lemma HeadOfEntry(s: seq<PhoneList>, heads: seq<PhoneList>, p: nat) returns (k: nat)
    requires HeadsOfRuns(heads, s) && p < |s|
    ensures k < |heads| && heads[k].phone == s[p].phone
  {
    assert HasPhone(heads, s[p].phone);
    k :| 0 <= k < |heads| && heads[k].phone == s[p].phone;
  }

  lemma RankBetween(s: seq<PhoneList>, key: nat, p: nat)
    requires Sorted(s) && p < |s| && key <= s[p].phone
    ensures Rank(s, key) <= p && key <= s[Rank(s, key)].phone
  {
    RankSplits(s, key);
  }

  lemma RunStartIsFirst(s: seq<PhoneList>, r: nat, p: nat)
    requires Sorted(s) && RunStart(s, p) && r <= p && s[p].phone <= s[r].phone
    ensures r == p
  {
    if p > 0 {
      assert Less(s[p - 1], s[p]);
      assert s[if r < p then r else 0].phone <= s[p - 1].phone;
    }
  }

  /** Positions of the scan whose stored rn lies in [from, to). */
  function Slice(rows: seq<Row>, from: nat, to: nat): seq<U30>
    requires |rows| <= MAXROWS
  {
    var s := ScanOrder(rows);
    var left := Rank(s, from);
    var right := Rank(s, to);
    if left <= right then RowNumbers(s[left..right]) else []
  }

  lemma {:induction false} RankMonotone(s: seq<PhoneList>, a: nat, b: nat)
    requires a <= b
    ensures Rank(s, a) <= Rank(s, b)
  {
    if s != [] {
      RankMonotone(s[..|s| - 1], a, b);
    }
  }

  // --------------------------------------------- what a cursor can display

  /** What a cursor shows for a row: the stored half of its pn, and whatever the
      map answers for that. */
  function Shown(rows: seq<Row>, r: nat): Row
    requires r < |rows|
  {
    var pn: U64 := Phone34(rows[r].pn);
    Row(pn, Lookup(rows, pn))
  }

  function ShownRows(rows: seq<Row>, numbers: seq<U30>): seq<Row>
    requires forall i :: 0 <= i < |numbers| ==> numbers[i] < |rows|
  {
    seq(|numbers|, i requires 0 <= i < |numbers| => Shown(rows, numbers[i]))
  }

  /** All row numbers, in load order. */
  function AllNumbers(rows: seq<Row>): seq<U30>
    requires |rows| <= MAXROWS
  {
    seq(|rows|, i requires 0 <= i < |rows| => i)
  }

  /** What a visit of all rows shows, in load order. */
  function Visited(rows: seq<Row>): seq<Row>
    requires |rows| <= MAXROWS
  {
    ShownRows(rows, AllNumbers(rows))
  }

  /** What a reverse query over the index shows. */
  function IndexAnswer(rows: seq<Row>, from: nat, to: nat): seq<Row>
    requires |rows| <= MAXROWS
  {
    SliceIsInBounds(rows, from, to);
    ShownRows(rows, Slice(rows, from, to))
  }

  lemma SliceIsInBounds(rows: seq<Row>, from: nat, to: nat)
    requires |rows| <= MAXROWS
    ensures forall i :: 0 <= i < |Slice(rows, from, to)| ==> Slice(rows, from, to)[i] < |rows|
  {
    ScanOrderVisitsEveryRowOnce(rows);
  }

  // ------------------------------------- agreement with filter-and-sort

  ghost predicate AllFit(rows: seq<Row>) {
    forall i :: 0 <= i < |rows| ==> Fits(rows[i])
  }

  function Pick(rows: seq<Row>, s: seq<PhoneList>): seq<Row>
    requires forall i :: 0 <= i < |s| ==> s[i].next < |rows|
  {
    seq(|s|, i requires 0 <= i < |s| => rows[s[i].next])
  }

  lemma {:induction false} PickInsert(rows: seq<Row>, s: seq<PhoneList>, e: PhoneList)
    requires forall i :: 0 <= i < |s| ==> s[i].next < |rows| && s[i].phone == rows[s[i].next].rn
    requires e.next < |rows| && e.phone == rows[e.next].rn
    ensures forall i :: 0 <= i < |InsertEntry(s, e)| ==> InsertEntry(s, e)[i].next < |rows|
    ensures Pick(rows, InsertEntry(s, e)) == InsertRow(Pick(rows, s), rows[e.next])
  {
    if s == [] || s[|s| - 1].phone <= e.phone {
      assert Pick(rows, s + [e]) == Pick(rows, s) + [rows[e.next]];
    } else {
      var t, l := s[..|s| - 1], s[|s| - 1];
      PickInsert(rows, t, e);
      assert Pick(rows, s)[..|s| - 1] == Pick(rows, t);
      assert Pick(rows, InsertEntry(t, e) + [l]) == Pick(rows, InsertEntry(t, e)) + [rows[l.next]];
    }
  }

  lemma PickPrefix(rows: seq<Row>, n: nat, s: seq<PhoneList>)
    requires n <= |rows|
    requires forall i :: 0 <= i < |s| ==> s[i].next < n
    ensures Pick(rows, s) == Pick(rows[..n], s)
  {
  }

  lemma ScanEntryFits(rows: seq<Row>, i: nat)
    requires |rows| <= MAXROWS && AllFit(rows) && i < |rows|
    ensures |ScanOrder(rows)| == |rows|
    ensures ScanOrder(rows)[i].next < |rows| && ScanOrder(rows)[i].phone == rows[ScanOrder(rows)[i].next].rn
  {
    ScanOrderVisitsEveryRowOnce(rows);
    assert Fits(rows[ScanOrder(rows)[i].next]);
  }

  lemma ScanPrefix(rows: seq<Row>, n: nat)
    requires n < |rows| <= MAXROWS && AllFit(rows)
    ensures var s := ScanOrder(rows[..n]);
      forall i :: 0 <= i < |s| ==> s[i].next < n && s[i].phone == rows[s[i].next].rn
  {
    var t := rows[..n];
    var s := ScanOrder(t);
    ScanOrderKeepsEntries(t);
    forall i | 0 <= i < |s| ensures s[i].next < n && s[i].phone == rows[s[i].next].rn {
      ScanEntryFits(t, i);
      assert t[s[i].next] == rows[s[i].next];
    }
  }

  lemma {:induction false} ScanOrderSortsRows(rows: seq<Row>)
    requires |rows| <= MAXROWS && AllFit(rows)
    ensures forall i :: 0 <= i < |ScanOrder(rows)| ==> ScanOrder(rows)[i].next < |rows|
    ensures Pick(rows, ScanOrder(rows)) == SortByRn(rows)
  {
    if rows != [] {
      var n := |rows| - 1;
      var t, s, e := rows[..n], ScanOrder(rows[..n]), PhoneList(Phone34(rows[n].rn), n);
      ScanOrderSortsRows(t);
      ScanPrefix(rows, n);
      PickPrefix(rows, n, s);
      assert Fits(rows[n]);
      PickInsert(rows, s, e);
      assert ScanOrder(rows) == InsertEntry(s, e);
      assert SortByRn(rows) == InsertRow(SortByRn(t), rows[n]);
    }
  }

  lemma {:induction false} InRangeInsert(s: seq<Row>, r: Row, from: nat, to: nat)
    requires SortedByRn(s)
    ensures InRange(InsertRow(s, r), from, to) ==
            if from <= r.rn < to then InsertRow(InRange(s, from, to), r) else InRange(s, from, to)
  {
    if s == [] || s[|s| - 1].rn <= r.rn {
      assert (s + [r])[..|s|] == s;
      InRangeMembers(s, from, to);
    } else {
      var t, l := s[..|s| - 1], s[|s| - 1];
      InRangeInsert(t, r, from, to);
      var u := InsertRow(t, r);
      assert (u + [l])[..|u|] == u;
      if from <= l.rn < to {
        assert (InRange(t, from, to) + [l])[..|InRange(t, from, to)|] == InRange(t, from, to);
      } else if from <= r.rn < to {
        assert to <= l.rn;
      }
    }
  }

  lemma {:induction false} InRangeMembers(s: seq<Row>, from: nat, to: nat)
    ensures forall r :: r in InRange(s, from, to) ==> r in s && from <= r.rn < to
  {
    if s != [] {
      InRangeMembers(s[..|s| - 1], from, to);
    }
  }

  lemma {:induction false} SortThenFilter(rows: seq<Row>, from: nat, to: nat)
    ensures InRange(SortByRn(rows), from, to) == InverseRows(rows, from, to)
  {
    if rows != [] {
      var t, r := rows[..|rows| - 1], rows[|rows| - 1];
      SortThenFilter(t, from, to);
      SortByRnIsStableSort(t, r.rn);
      InRangeInsert(SortByRn(t), r, from, to);
      if from <= r.rn < to {
        assert (InRange(t, from, to) + [r])[..|InRange(t, from, to)|] == InRange(t, from, to);
      }
    }
  }

  lemma {:induction false} InRangeIsSlice(s: seq<Row>, from: nat, to: nat, left: nat, right: nat)
    requires left <= right <= |s|
    requires forall i :: 0 <= i < left ==> s[i].rn < from
    requires forall i :: left <= i < right ==> from <= s[i].rn < to
    requires forall i :: right <= i < |s| ==> to <= s[i].rn
    ensures InRange(s, from, to) == s[left..right]
  {
    if s != [] {
      var t := s[..|s| - 1];
      if right == |s| {
        if left < right {
          InRangeIsSlice(t, from, to, left, right - 1);
          assert s[left..right] == t[left..right - 1] + [s[|s| - 1]];
        } else {
          InRangeIsSlice(t, from, to, left - 1, left - 1);
        }
      } else {
        InRangeIsSlice(t, from, to, left, right);
        assert s[left..right] == t[left..right];
      }
    }
  }

  lemma ShownIsRow(rows: seq<Row>, r: nat)
    requires r < |rows| && DistinctKeys(rows) && rows[r].pn < U34_LIMIT
    ensures Shown(rows, r) == rows[r]
  {
    LookupFinds(rows, r);
  }

  lemma ShownSlice(rows: seq<Row>, left: nat, right: nat)
    requires |rows| <= MAXROWS && DistinctKeys(rows) && AllFit(rows)
    requires left <= right <= |ScanOrder(rows)|
    ensures forall i :: 0 <= i < |ScanOrder(rows)| ==> ScanOrder(rows)[i].next < |rows|
    ensures ShownRows(rows, RowNumbers(ScanOrder(rows)[left..right])) == Pick(rows, ScanOrder(rows))[left..right]
  {
    ScanOrderVisitsEveryRowOnce(rows);
    var numbers := RowNumbers(ScanOrder(rows)[left..right]);
    forall i | 0 <= i < |numbers| ensures Shown(rows, numbers[i]) == rows[numbers[i]] {
      assert Fits(rows[numbers[i]]);
      ShownIsRow(rows, numbers[i]);
    }
  }

  lemma RangeOfPick(rows: seq<Row>, from: nat, to: nat)
    requires |rows| <= MAXROWS && AllFit(rows) && from <= to
    ensures forall i :: 0 <= i < |ScanOrder(rows)| ==> ScanOrder(rows)[i].next < |rows|
    ensures var s := ScanOrder(rows);
      Rank(s, from) <= Rank(s, to)
      && InRange(Pick(rows, s), from, to) == Pick(rows, s)[Rank(s, from)..Rank(s, to)]
  {
    var s := ScanOrder(rows);
    ScanOrderVisitsEveryRowOnce(rows);
    ScanOrderIsSorted(rows);
    RankMonotone(s, from, to);
    var t := Pick(rows, s);
    forall i | 0 <= i < |s| ensures t[i].rn == s[i].phone {
      ScanEntryFits(rows, i);
    }
    RankSplits(s, from);
    RankSplits(s, to);
    InRangeIsSlice(t, from, to, Rank(s, from), Rank(s, to));
  }

  /** The index agrees with the simple thing it speeds up: when all numbers fit
      34 bits, the rows shown along the slice of a range are the filtered and
      stably sorted rows. */
  lemma SliceAnswersInverse(rows: seq<Row>, from: nat, to: nat)
    requires |rows| <= MAXROWS && DistinctKeys(rows) && AllFit(rows)
    ensures IndexAnswer(rows, from, to) == InverseRows(rows, from, to)
  {
    SliceIsInBounds(rows, from, to);
    if from <= to {
      var s := ScanOrder(rows);
      RangeOfPick(rows, from, to);
      ShownSlice(rows, Rank(s, from), Rank(s, to));
      ScanOrderSortsRows(rows);
      SortThenFilter(rows, from, to);
    } else {
      RankMonotone(ScanOrder(rows), to, from);
      InRangeEmpty(rows, from, to);
      assert ShownRows(rows, Slice(rows, from, to)) == [];
    }
  }

  lemma FittingAnswer(rows: seq<Row>, from: U64, to: U64)
    requires |rows| <= MAXROWS && DistinctKeys(rows)
    ensures AllFit(rows) && from < U34_LIMIT && to < U34_LIMIT ==>
              IndexAnswer(rows, Phone34(from), Phone34(to)) == InverseRows(rows, from, to)
  {
    hide IndexAnswer, InverseRows;
    if AllFit(rows) && from < U34_LIMIT && to < U34_LIMIT {
      SliceAnswersInverse(rows, from, to);
    }
  }
}
