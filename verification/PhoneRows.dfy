/** The rows of a number portability database and the two simple things every
    index over them must agree with: a linear lookup by portability number (pn)
    and a filter followed by a stable sort on the routing number (rn). */
module PhoneRows {

  const U34_LIMIT: nat := 0x4_0000_0000
  const U64_LIMIT: nat := 0x1_0000_0000_0000_0000

  /** Row number that no row has: the largest value of a 30-bit field. */
  const MAXROWS: nat := 0x3FFF_FFFF

  /** Answer for a number that is not in the database. */
  const NONE: U64 := 0xFFFF_FFFF_FFFF_FFFF

  type U64 = x: int | 0 <= x < U64_LIMIT
  type U34 = x: int | 0 <= x < U34_LIMIT
  type U30 = x: int | 0 <= x <= MAXROWS

  datatype Row = Row(pn: U64, rn: U64)

  /** A 34-bit number packed with a 30-bit row number. */
  datatype PhoneList = PhoneList(phone: U34, next: U30)

  /** Storing a 64-bit number into the 34-bit field drops the high bits. */
  function Phone34(x: U64): U34 {
    x % U34_LIMIT
  }

  predicate Fits(r: Row) {
    r.pn < U34_LIMIT && r.rn < U34_LIMIT
  }

  // ---------------------------------------------------------------- lookup

  predicate HasKey(rows: seq<Row>, pn: U64) {
    exists i :: 0 <= i < |rows| && rows[i].pn == pn
  }

  predicate DistinctKeys(rows: seq<Row>) {
    forall i, j :: 0 <= i < j < |rows| ==> rows[i].pn != rows[j].pn
  }

  function Lookup(rows: seq<Row>, pn: U64): U64 {
    if rows == [] then NONE
    else if rows[|rows| - 1].pn == pn then rows[|rows| - 1].rn
    else Lookup(rows[..|rows| - 1], pn)
  }

  lemma {:induction false} LookupFinds(rows: seq<Row>, i: nat)
    requires i < |rows| && DistinctKeys(rows)
    ensures Lookup(rows, rows[i].pn) == rows[i].rn
  {
    if i < |rows| - 1 {
      LookupFinds(rows[..|rows| - 1], i);
    }
  }

  lemma {:induction false} LookupMisses(rows: seq<Row>, pn: U64)
    requires !HasKey(rows, pn)
    ensures Lookup(rows, pn) == NONE
  {
    if rows != [] {
      assert rows[|rows| - 1].pn != pn;
      LookupMisses(rows[..|rows| - 1], pn);
    }
  }

  // ------------------------------------------------- filter and stable sort

  function InRange(rows: seq<Row>, from: nat, to: nat): seq<Row> {
    if rows == [] then []
    else
      var rest := InRange(rows[..|rows| - 1], from, to);
      var last := rows[|rows| - 1];
      if from <= last.rn < to then rest + [last] else rest
  }

  /** Insert behind every row with the same or a smaller rn. */
  function InsertRow(s: seq<Row>, r: Row): seq<Row> {
    if s == [] || s[|s| - 1].rn <= r.rn then s + [r]
    else InsertRow(s[..|s| - 1], r) + [s[|s| - 1]]
  }

  function SortByRn(rows: seq<Row>): seq<Row> {
    if rows == [] then []
    else InsertRow(SortByRn(rows[..|rows| - 1]), rows[|rows| - 1])
  }

  /** What a reverse query means: the rows with from <= rn < to, smallest rn
      first, rows with the same rn in the order in which they were loaded. */
  function InverseRows(rows: seq<Row>, from: nat, to: nat): seq<Row> {
    SortByRn(InRange(rows, from, to))
  }

  predicate SortedByRn(rows: seq<Row>) {
    forall i, j :: 0 <= i < j < |rows| ==> rows[i].rn <= rows[j].rn
  }

  lemma {:induction false} InsertRowKeepsRows(s: seq<Row>, r: Row)
    ensures multiset(InsertRow(s, r)) == multiset(s) + multiset{r}
  {
    if s != [] && s[|s| - 1].rn > r.rn {
      var t, l := s[..|s| - 1], s[|s| - 1];
      assert s == t + [l];
      InsertRowKeepsRows(t, r);
    }
  }

  lemma {:induction false} InsertRowKeepsOrder(s: seq<Row>, r: Row)
    requires SortedByRn(s)
    ensures SortedByRn(InsertRow(s, r))
  {
    if s != [] && s[|s| - 1].rn > r.rn {
      var t, l := s[..|s| - 1], s[|s| - 1];
      InsertRowKeepsOrder(t, r);
      InsertRowKeepsRows(t, r);
      var u := InsertRow(t, r);
      forall i | 0 <= i < |u| ensures u[i].rn <= l.rn {
        assert u[i] in multiset(u);
        assert u[i] in t || u[i] == r;
      }
    }
  }

  /** The rows that have one given routing number, in their order in `rows`. */
  function WithRn(rows: seq<Row>, rn: U64): seq<Row> {
    if rows == [] then []
    else WithRn(rows[..|rows| - 1], rn) + if rows[|rows| - 1].rn == rn then [rows[|rows| - 1]] else []
  }

  lemma {:induction false} InsertRowGoesLast(s: seq<Row>, r: Row, rn: U64)
    ensures WithRn(InsertRow(s, r), rn) == WithRn(s, rn) + if r.rn == rn then [r] else []
  {
    if s == [] || s[|s| - 1].rn <= r.rn {
      assert (s + [r])[..|s|] == s;
    } else {
      var t, l := s[..|s| - 1], s[|s| - 1];
      InsertRowGoesLast(t, r, rn);
      var u := InsertRow(t, r);
      assert (u + [l])[..|u|] == u;
    }
  }

  /** SortByRn really is the stable sort: the same rows with the same
      multiplicities, in ascending order of rn, and the rows that share an rn
      keep the order in which they were loaded. */
  lemma {:induction false} SortByRnIsStableSort(rows: seq<Row>, rn: U64)
    ensures multiset(SortByRn(rows)) == multiset(rows)
    ensures SortedByRn(SortByRn(rows))
    ensures WithRn(SortByRn(rows), rn) == WithRn(rows, rn)
  {
    if rows != [] {
      var t, r := rows[..|rows| - 1], rows[|rows| - 1];
      assert rows == t + [r];
      SortByRnIsStableSort(t, rn);
      InsertRowKeepsRows(SortByRn(t), r);
      InsertRowKeepsOrder(SortByRn(t), r);
      InsertRowGoesLast(SortByRn(t), r, rn);
    }
  }

  lemma {:induction false} InRangeMember(rows: seq<Row>, from: nat, to: nat, r: Row)
    ensures multiset(InRange(rows, from, to))[r] == if from <= r.rn < to then multiset(rows)[r] else 0
  {
    if rows != [] {
      InRangeMember(rows[..|rows| - 1], from, to, r);
      assert rows == rows[..|rows| - 1] + [rows[|rows| - 1]];
    }
  }

  /** Exactly the loaded rows with from <= rn < to, each as often as loaded. */
  lemma InverseRowsExact(rows: seq<Row>, from: nat, to: nat, r: Row)
    ensures multiset(InverseRows(rows, from, to))[r] == if from <= r.rn < to then multiset(rows)[r] else 0
    ensures SortedByRn(InverseRows(rows, from, to))
  {
    SortByRnIsStableSort(InRange(rows, from, to), r.rn);
    InRangeMember(rows, from, to, r);
  }

  // ------------------------------------------------------------ splitting

  lemma {:induction false} InsertRowInFront(a: seq<Row>, b: seq<Row>, r: Row)
    requires forall i :: 0 <= i < |b| ==> r.rn < b[i].rn
    ensures InsertRow(a + b, r) == InsertRow(a, r) + b
  {
    if b == [] {
      assert a + b == a && InsertRow(a, r) + b == InsertRow(a, r);
    } else {
      var c, l := b[..|b| - 1], b[|b| - 1];
      assert (a + b)[..|a + b| - 1] == a + c;
      InsertRowInFront(a, c, r);
      assert InsertRow(a, r) + c + [l] == InsertRow(a, r) + b;
    }
  }

  lemma {:induction false} InsertRowBehind(a: seq<Row>, b: seq<Row>, r: Row)
    requires forall i :: 0 <= i < |a| ==> a[i].rn <= r.rn
    ensures InsertRow(a + b, r) == a + InsertRow(b, r)
  {
    if b == [] {
      assert a + b == a;
    } else if b[|b| - 1].rn > r.rn {
      var c, l := b[..|b| - 1], b[|b| - 1];
      assert (a + b)[..|a + b| - 1] == a + c;
      InsertRowBehind(a, c, r);
    } else {
      assert a + b + [r] == a + (b + [r]);
    }
  }

  lemma SortedAnswerBounds(rows: seq<Row>, from: nat, to: nat)
    ensures forall r :: r in InverseRows(rows, from, to) ==> from <= r.rn < to
  {
    forall r | r in InverseRows(rows, from, to) ensures from <= r.rn < to {
      InverseRowsExact(rows, from, to, r);
      assert multiset(InverseRows(rows, from, to))[r] > 0;
    }
  }

  /** Neighbouring ranges concatenate. */
  lemma {:induction false} InverseRowsSplit(rows: seq<Row>, a: nat, b: nat, c: nat)
    requires a <= b <= c
    ensures InverseRows(rows, a, b) + InverseRows(rows, b, c) == InverseRows(rows, a, c)
  {
    if rows != [] {
      var t, r := rows[..|rows| - 1], rows[|rows| - 1];
      InverseRowsSplit(t, a, b, c);
      var left, right := InverseRows(t, a, b), InverseRows(t, b, c);
      SortedAnswerBounds(t, a, b);
      SortedAnswerBounds(t, b, c);
      if a <= r.rn < c {
        assert (InRange(t, a, c) + [r])[..|InRange(t, a, c)|] == InRange(t, a, c);
      }
      if a <= r.rn < b {
        assert (InRange(t, a, b) + [r])[..|InRange(t, a, b)|] == InRange(t, a, b);
        InsertRowInFront(left, right, r);
      } else if b <= r.rn < c {
        assert (InRange(t, b, c) + [r])[..|InRange(t, b, c)|] == InRange(t, b, c);
        InsertRowBehind(left, right, r);
      }
    }
  }

  lemma {:induction false} InRangeEmpty(rows: seq<Row>, from: nat, to: nat)
    requires to <= from
    ensures InRange(rows, from, to) == []
  {
    if rows != [] {
      InRangeEmpty(rows[..|rows| - 1], from, to);
    }
  }
}
