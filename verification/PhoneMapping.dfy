/** The in-memory database engine: a builder that collects rows, the indexes
    built from them, and the buffered cursors that read the result. */
module PhoneMapping {
  import opened PhoneRows
  import opened SortAlgorithms
  import opened PhoneIndex
  import opened PhoneTruncation

  datatype BuildError = DuplicateKey | TooManyRows

  datatype Added = Added | Refused(error: BuildError)

  /** How a cursor finds its next row: along the linked list, or row by row. */
  datatype Walk = InverseRN(it: U30, end: U30) | RowScan(first: nat, last: nat)

  const BUFFER: nat := 8

  ghost predicate Maps(dict: map<U64, U64>, rows: seq<Row>) {
    && (forall pn: U64 :: pn in dict <==> HasKey(rows, pn))
    && (forall pn: U64 :: pn in dict ==> dict[pn] == Lookup(rows, pn))
  }

  ghost predicate HoldsPNs(column: seq<PhoneList>, rows: seq<Row>) {
    |column| == |rows| && forall i :: 0 <= i < |rows| ==> column[i].phone == Phone34(rows[i].pn)
  }

  class Data {
    // pn -> rn mapping
    var dict: map<U64, U64>
    // pn column joined with the sorted rn column
    var pnColumn: seq<PhoneList>
    // unique sorted rn column joined with pn
    var rnIndex: seq<PhoneList>
    // the rows added so far, in order
    ghost var rows: seq<Row>

    ghost predicate Mapped()
      reads this
    {
      && |rows| <= MAXROWS
      && DistinctKeys(rows)
      && Maps(dict, rows)
      && HoldsPNs(pnColumn, rows)
    }

    /** Rows are still being added. */
    ghost predicate Loading()
      reads this
    {
      && Mapped()
      && |rnIndex| == |rows|
      && (forall i :: 0 <= i < |rows| ==> pnColumn[i].next == MAXROWS)
      && (forall i :: 0 <= i < |rows| ==> rnIndex[i] == PhoneList(Phone34(rows[i].rn), MAXROWS))
    }

    /** The indexes are complete: the pn column is threaded in scan order and
        rnIndex holds the head of every run of equal routing numbers. */
    ghost predicate Built()
      reads this
    {
      && Mapped()
      && Threaded(pnColumn, ScanOrder(rows))
      && HeadsOfRuns(rnIndex, ScanOrder(rows))
    }

    constructor ()
      ensures Loading() && rows == []
    {
      dict, pnColumn, rnIndex, rows := map[], [], [], [];
    }

    method Build()
      requires Loading()
      modifies this
      ensures Built() && rows == old(rows) && dict == old(dict)
    {
      BuildIndexes();
    }

    method BuildIndexes()
      requires HoldsPNs(pnColumn, rows) && |rnIndex| == |rows| <= MAXROWS
      requires forall i :: 0 <= i < |rows| ==> pnColumn[i].next == MAXROWS
      requires forall i :: 0 <= i < |rows| ==> rnIndex[i] == PhoneList(Phone34(rows[i].rn), MAXROWS)
      modifies this`pnColumn, this`rnIndex
      ensures HoldsPNs(pnColumn, rows)
      ensures Threaded(pnColumn, ScanOrder(rows))
      ensures HeadsOfRuns(rnIndex, ScanOrder(rows))
    {
      NumberEntries();
      SortEntries();
      Wire(|pnColumn|);
      ScanOrderIsSorted(rows);
      UniqueKeepsHeads(rnIndex);
      rnIndex := Unique(rnIndex);
    }

    method SortEntries()
      requires |rows| <= MAXROWS && rnIndex == Entries(rows)
      modifies this`rnIndex
      ensures rnIndex == ScanOrder(rows) && |rnIndex| == |rows|
      ensures forall i :: 0 <= i < |rnIndex| ==> rnIndex[i].next < |rows|
      ensures forall i, j :: 0 <= i < j < |rnIndex| ==> rnIndex[i].next != rnIndex[j].next
    {
      rnIndex := StableSort(rnIndex);
      ScanOrderKeepsEntries(rows);
      ScanOrderIsSorted(rows);
      SortedIsUnique(ScanOrder(rows), rnIndex);
      ScanOrderVisitsEveryRowOnce(rows);
    }

    /** Connect the rn column with the row numbers before it is shuffled. */
    method NumberEntries()
      requires |rows| <= MAXROWS && |rnIndex| == |rows|
      requires forall i :: 0 <= i < |rows| ==> rnIndex[i] == PhoneList(Phone34(rows[i].rn), MAXROWS)
      modifies this`rnIndex
      ensures rnIndex == Entries(rows)
    {
      for i := 0 to |rnIndex|
        invariant |rnIndex| == |rows|
        invariant forall k :: 0 <= k < i ==> rnIndex[k] == PhoneList(Phone34(rows[k].rn), k)
        invariant forall k :: i <= k < |rows| ==> rnIndex[k] == PhoneList(Phone34(rows[k].rn), MAXROWS)
      {
        rnIndex := rnIndex[i := rnIndex[i].(next := i)];
      }
    }

    /** Wire the pn column into one list that follows the sorted entries. */
    method Wire(n: nat)
      requires n == |pnColumn| == |rnIndex| <= MAXROWS
      requires forall i :: 0 <= i < n ==> rnIndex[i].next < n
      requires forall i, j :: 0 <= i < j < n ==> rnIndex[i].next != rnIndex[j].next
      requires forall i :: 0 <= i < n ==> pnColumn[i].next == MAXROWS
      modifies this`pnColumn
      ensures Threaded(pnColumn, rnIndex)
      ensures forall i :: 0 <= i < n ==> pnColumn[i].phone == old(pnColumn)[i].phone
    {
      var i := 0;
      while i + 1 < n
        invariant 0 <= i && (if n == 0 then i == 0 else i + 1 <= n)
        invariant |pnColumn| == n
        invariant forall k :: 0 <= k < n ==> pnColumn[k].phone == old(pnColumn)[k].phone
        invariant forall k :: 0 <= k < i ==> pnColumn[rnIndex[k].next].next == RowAt(rnIndex, k + 1)
        invariant forall k :: i <= k < n ==> pnColumn[rnIndex[k].next].next == MAXROWS
      {
        var r := rnIndex[i].next;
        pnColumn := pnColumn[r := pnColumn[r].(next := rnIndex[i + 1].next)];
        i := i + 1;
      }
    }

    /** Look up a batch of keys in chunks of at most `prefetch`. */
    method GetRNs(N: nat, pn: array<U64>, rn: array<U64>, prefetch: nat)
      requires Mapped() && prefetch > 0
      requires pn != rn && N <= pn.Length && N <= rn.Length
      modifies rn
      ensures forall i :: 0 <= i < N ==> rn[i] == Lookup(rows, pn[i])
      ensures forall i :: N <= i < rn.Length ==> rn[i] == old(rn[i])
    {
      var base, left := 0, N;
      while left > 0
        invariant 0 <= base <= N && base + left == N
        invariant forall i :: 0 <= i < base ==> rn[i] == Lookup(rows, pn[i])
        invariant forall i :: N <= i < rn.Length ==> rn[i] == old(rn[i])
      {
        var M := if left < prefetch then left else prefetch;
        for i := 0 to M
          invariant forall k :: 0 <= k < base + i ==> rn[k] == Lookup(rows, pn[k])
          invariant forall k :: N <= k < rn.Length ==> rn[k] == old(rn[k])
        {
          if pn[base + i] in dict {
            rn[base + i] := dict[pn[base + i]];
          } else {
            LookupMisses(rows, pn[base + i]);
            rn[base + i] := NONE;
          }
        }
        base, left := base + M, left - M;
      }
    }

    /** Find the walk for the rows with a stored rn in [fromRN, toRN). */
    method FindWalk(fromRN: U64, toRN: U64) returns (pnBegin: U30, pnEnd: U30)
      requires Built()
      ensures WalkOfRange(rows, pnColumn, Phone34(fromRN), Phone34(toRN), pnBegin, pnEnd)
    {
      hide *;
      BuiltFacts();
      var from, to := Phone34(fromRN), Phone34(toRN);
      var rnLeft := LowerBound(rnIndex, 0, from);
      var rnRight := LowerBound(rnIndex, rnLeft, to);
      pnBegin := if rnLeft == |rnIndex| then MAXROWS else rnIndex[rnLeft].next;
      pnEnd := if rnRight == |rnIndex| then MAXROWS else rnIndex[rnRight].next;
      WalkFound(rows, pnColumn, rnIndex, from, to, rnLeft, rnRight);
    }

    lemma BuiltFacts()
      requires Built()
      ensures |rows| <= MAXROWS && PhonesAscend(rnIndex) && HeadsOfRuns(rnIndex, ScanOrder(rows))
      ensures Threaded(pnColumn, ScanOrder(rows)) && DistinctKeys(rows) && |pnColumn| == |rows|
    {
    }
  }

  /** The walk from `begin` to `end` visits the slice of a range, and the ends
      differ exactly when the slice is not empty. */
  ghost predicate WalkOfRange(rows: seq<Row>, column: seq<PhoneList>, from: nat, to: nat, begin: U30, end: U30) {
    && |rows| <= MAXROWS
    && (begin == end <==> Slice(rows, from, to) == [])
    && (begin != end ==> Chain(column, begin, end, Slice(rows, from, to)))
  }

  lemma WalkFound(rows: seq<Row>, column: seq<PhoneList>, heads: seq<PhoneList>, from: U34, to: U34, left: nat,
      right: nat)
    requires |rows| <= MAXROWS && Threaded(column, ScanOrder(rows)) && HeadsOfRuns(heads, ScanOrder(rows))
    requires left <= right <= |heads|
    requires forall i :: 0 <= i < left ==> heads[i].phone < from
    requires forall i :: left <= i < |heads| ==> from <= heads[i].phone
    requires forall i :: left <= i < right ==> heads[i].phone < to
    requires forall i :: right <= i < |heads| ==> to <= heads[i].phone
    ensures WalkOfRange(rows, column, from, to, if left == |heads| then MAXROWS else heads[left].next,
                        if right == |heads| then MAXROWS else heads[right].next)
  {
    hide ScanOrder, Rank, Threaded, Chain, HeadsOfRuns, Sorted;
    var s := ScanOrder(rows);
    ScanOrderIsSorted(rows);
    HeadIsFirstOfRun(s, heads, from, left);
    if from <= to {
      HeadIsFirstOfRun(s, heads, to, right);
      RankMonotone(s, from, to);
      ThreadedChain(column, s, Rank(s, from), Rank(s, to));
      DistinctEnds(column, s, Rank(s, from), Rank(s, to));
    } else {
      RankMonotone(s, to, from);
      assert right == left;
    }
  }

  class Cursor {
    const data: Data
    const prefetchSize: nat
    const pn_: array<U64>
    const rn_: array<U64>
    var size_: nat
    var pos_: nat
    var walk: Walk
    // row numbers in the buffer, and those not fetched yet
    ghost var buffered: seq<U30>
    ghost var pending: seq<U30>

    ghost predicate Valid()
      reads this, data, pn_, rn_
    {
      && data.Built()
      && prefetchSize > 0
      && pn_ != rn_ && pn_.Length == BUFFER && rn_.Length == BUFFER
      && size_ == |buffered| <= BUFFER
      && (pos_ < size_ || (size_ == 0 && pos_ == 0 && pending == []))
      && WalkVisits(walk, pending)
      && (forall i :: 0 <= i < |pending| ==> pending[i] < |data.rows|)
      && (forall i :: 0 <= i < size_ ==> buffered[i] < |data.rows|
                                         && pn_[i] == Shown(data.rows, buffered[i]).pn
                                         && rn_[i] == Shown(data.rows, buffered[i]).rn)
    }

    ghost predicate WalkVisits(w: Walk, todo: seq<U30>)
      reads data
    {
      match w
      case InverseRN(it, end) => Chain(data.pnColumn, it, end, todo)
      case RowScan(first, last) =>
        first + |todo| == last == |data.pnColumn| && forall i :: 0 <= i < |todo| ==> todo[i] == first + i
    }

    /** Row numbers this cursor has still to show, the current one first. */
    ghost function Remaining(): seq<U30>
      reads this, data, pn_, rn_
      requires Valid()
    {
      buffered[pos_..] + pending
    }

    constructor (data: Data, walk: Walk, prefetchSize: nat, ghost todo: seq<U30>)
      requires data.Built() && prefetchSize > 0
      requires forall i :: 0 <= i < |todo| ==> todo[i] < |data.rows|
      requires match walk
        case InverseRN(it, end) => Chain(data.pnColumn, it, end, todo)
        case RowScan(first, last) =>
          first + |todo| == last == |data.pnColumn| && forall i :: 0 <= i < |todo| ==> todo[i] == first + i
      ensures Valid() && Remaining() == todo
      ensures this.data == data && fresh(pn_) && fresh(rn_)
    {
      this.data := data;
      this.walk := walk;
      this.prefetchSize := prefetchSize;
      pn_ := new U64[BUFFER](_ => 0);
      rn_ := new U64[BUFFER](_ => 0);
      size_, pos_ := 0, 0;
      buffered, pending := [], todo;
      new;
      Prefetch();
    }

    predicate HasRow()
      reads this
    {
      size_ != 0
    }

    method CurrentPN() returns (pn: U64)
      requires Valid() && HasRow()
      ensures pn == Shown(data.rows, Remaining()[0]).pn
    {
      pn := pn_[pos_];
    }

    method CurrentRN() returns (rn: U64)
      requires Valid() && HasRow()
      ensures rn == Shown(data.rows, Remaining()[0]).rn
    {
      rn := rn_[pos_];
    }

    /** The buffer holds the numbers of the rows in `buffered`. */
    ghost predicate Holds(done: seq<U30>)
      reads this, data, pn_
    {
      && pn_.Length == BUFFER
      && size_ == |done| <= BUFFER
      && (forall i :: 0 <= i < |done| ==> done[i] < |data.pnColumn| && pn_[i] == data.pnColumn[done[i]].phone)
    }

    /** Buffered and pending rows are the two halves of `todo`. */
    ghost predicate Halves(todo: seq<U30>)
      reads this
    {
      size_ <= |todo| && buffered == todo[..size_] && pending == todo[size_..]
    }

    method Fetch(r: U30, ghost todo: seq<U30>)
      requires size_ < BUFFER && pending != [] && r == pending[0] && r < |data.pnColumn|
      requires Holds(buffered) && Halves(todo)
      modifies this`size_, this`buffered, this`pending, pn_
      ensures size_ == old(size_) + 1 <= BUFFER && pending == old(pending)[1..]
      ensures Holds(buffered) && Halves(todo)
    {
      pn_[size_] := data.pnColumn[r].phone;
      size_ := size_ + 1;
      buffered, pending := buffered + [r], pending[1..];
      assert buffered == todo[..size_];
    }

    /** Move pending rows into the buffer until it is full or none are left. */
    method Refill()
      requires size_ == 0 && pn_.Length == BUFFER && WalkVisits(walk, pending)
      modifies this`size_, this`walk, this`buffered, this`pending, pn_
      ensures Holds(buffered) && Halves(old(pending)) && WalkVisits(walk, pending)
      ensures size_ == 0 ==> pending == []
    {
      buffered := [];
      match walk {
        case InverseRN(it, end) => RefillByLink(it, end);
        case RowScan(first, last) => RefillByRow(first, last);
      }
    }

    method RefillByLink(first: U30, end: U30)
      requires size_ == 0 && buffered == [] && pn_.Length == BUFFER && Chain(data.pnColumn, first, end, pending)
      modifies this`size_, this`walk, this`buffered, this`pending, pn_
      ensures Holds(buffered) && Halves(old(pending)) && WalkVisits(walk, pending)
      ensures size_ == 0 ==> pending == []
    {
      var it := first;
      {
        hide Chain;
        ChainStep(data.pnColumn, it, end, pending);
        assert Holds(buffered) && Halves(pending);
        hide Holds, Halves;
        while it != end && size_ < BUFFER
          invariant Holds(buffered) && Halves(old(pending)) && size_ <= BUFFER
          invariant Chain(data.pnColumn, it, end, pending)
          invariant it == end ==> pending == []
          invariant size_ == 0 ==> pending == old(pending)
          decreases BUFFER - size_
        {
          ChainStep(data.pnColumn, it, end, pending);
          Fetch(it, old(pending));
          it := data.pnColumn[it].next;
          ChainStep(data.pnColumn, it, end, pending);
        }
      }
      walk := InverseRN(it, end);
    }

    method RefillByRow(first: nat, last: nat)
      requires size_ == 0 && buffered == [] && pn_.Length == BUFFER && WalkVisits(RowScan(first, last), pending)
      modifies this`size_, this`walk, this`buffered, this`pending, pn_
      ensures Holds(buffered) && Halves(old(pending)) && WalkVisits(walk, pending)
      ensures size_ == 0 ==> pending == []
    {
      var it: nat := first;
      assert Holds(buffered) && Halves(pending);
      hide Holds, Halves;
      while it != last && size_ < BUFFER
        invariant Holds(buffered) && Halves(old(pending)) && size_ <= BUFFER
        invariant WalkVisits(RowScan(it, last), pending)
        decreases BUFFER - size_
      {
        assert pending[0] == it;
        Fetch(it, old(pending));
        it := it + 1;
      }
      walk := RowScan(it, last);
    }

    method Prefetch()
      requires data.Built() && prefetchSize > 0
      requires pn_ != rn_ && pn_.Length == BUFFER && rn_.Length == BUFFER
      requires WalkVisits(walk, pending)
      requires forall i :: 0 <= i < |pending| ==> pending[i] < |data.rows|
      modifies this, pn_, rn_
      ensures Valid() && Remaining() == old(pending)
    {
      pos_, size_ := 0, 0;
      Refill();
      data.GetRNs(size_, pn_, rn_, prefetchSize);
    }

    /** The buffering is invisible: exactly the current row is dropped. */
    method Advance()
      requires Valid() && HasRow()
      modifies this, pn_, rn_
      ensures Valid() && Remaining() == old(Remaining())[1..]
    {
      pos_ := pos_ + 1;
      if pos_ == size_ {
        Prefetch();
      }
    }
  }

  lemma HasKeyExtends(rows: seq<Row>, r: Row)
    ensures forall pn: U64 :: HasKey(rows + [r], pn) <==> pn == r.pn || HasKey(rows, pn)
  {
    forall pn: U64 ensures HasKey(rows + [r], pn) <==> pn == r.pn || HasKey(rows, pn) {
      assert (rows + [r])[|rows|] == r;
      if i :| 0 <= i < |rows| && rows[i].pn == pn {
        assert (rows + [r])[i].pn == pn;
      }
    }
  }

  lemma MapsExtends(dict: map<U64, U64>, rows: seq<Row>, r: Row)
    requires Maps(dict, rows) && !HasKey(rows, r.pn)
    ensures Maps(dict[r.pn := r.rn], rows + [r])
  {
    HasKeyExtends(rows, r);
    assert (rows + [r])[..|rows|] == rows;
  }

  class Builder {
    var data_: Data

    constructor ()
      ensures fresh(data_) && data_.Loading() && data_.rows == []
    {
      data_ := new Data();
    }

    /** Append one row, or refuse it and change nothing. */
    method AddRow(pn: U64, rn: U64) returns (r: Added)
      requires data_.Loading()
      modifies data_
      ensures data_.Loading()
      ensures r == if HasKey(old(data_.rows), pn) then Refused(DuplicateKey)
                   else if |old(data_.rows)| >= MAXROWS then Refused(TooManyRows)
                   else Added
      ensures r.Added? ==> data_.rows == old(data_.rows) + [Row(pn, rn)]
      ensures r.Refused? ==> unchanged(data_)
    {
      if pn in data_.dict {
        return Refused(DuplicateKey);
      }
      if |data_.pnColumn| >= MAXROWS {
        return Refused(TooManyRows);
      }
      MapsExtends(data_.dict, data_.rows, Row(pn, rn));
      assert forall i :: 0 <= i < |data_.rows| ==> data_.rows[i].pn != pn;
      data_.dict := data_.dict[pn := rn];
      data_.pnColumn := data_.pnColumn + [PhoneList(Phone34(pn), MAXROWS)];
      data_.rnIndex := data_.rnIndex + [PhoneList(Phone34(rn), MAXROWS)];
      data_.rows := data_.rows + [Row(pn, rn)];
      r := Added;
    }

    /** Build the indexes and hand the data over; the builder starts afresh. */
    method Release() returns (data: Data)
      requires data_.Loading()
      modifies this, data_
      ensures data == old(data_) && data.Built() && data.rows == old(data_.rows)
      ensures fresh(data_) && data_.Loading() && data_.rows == []
    {
      data := data_;
      data_ := new Data();
      data.Build();
    }
  }

  /** A protected reference to one database, with at most one open cursor. */
  class Mapping {
    const data_: Data
    const prefetchSize: nat
    var cursor_: Cursor?
    ghost var Repr: set<object>

    ghost predicate Valid()
      reads this, data_, Repr
    {
      && this in Repr && data_ !in Repr
      && data_.Built() && prefetchSize > 0
      && (cursor_ != null ==>
            && cursor_ in Repr && cursor_.pn_ in Repr && cursor_.rn_ in Repr
            && cursor_.pn_ as object != this && cursor_.rn_ as object != this
            && cursor_.data == data_ && cursor_.Valid() && cursor_.HasRow())
    }

    /** The rows still to be read through this reference. */
    ghost function Output(): seq<Row>
      reads this, data_, Repr
      requires Valid()
    {
      if cursor_ == null then [] else ShownRows(data_.rows, cursor_.Remaining())
    }

    constructor (data: Data, prefetchSize: nat)
      requires data.Built() && prefetchSize > 0
      ensures Valid() && Output() == [] && data_ == data && fresh(Repr)
    {
      data_ := data;
      this.prefetchSize := prefetchSize;
      cursor_ := null;
      Repr := {this};
    }

    method Open(walk: Walk, ghost todo: seq<U30>)
      requires Valid() && todo != []
      requires forall i :: 0 <= i < |todo| ==> todo[i] < |data_.rows|
      requires match walk
        case InverseRN(it, end) => Chain(data_.pnColumn, it, end, todo)
        case RowScan(first, last) =>
          first + |todo| == last == |data_.pnColumn| && forall i :: 0 <= i < |todo| ==> todo[i] == first + i
      modifies this
      ensures Valid() && Output() == ShownRows(data_.rows, todo)
      ensures fresh(Repr - {this})
    {
      hide Data.Built, Chain, HasKey, Shown;
      var cursor := new Cursor(data_, walk, prefetchSize, todo);
      cursor_ := cursor;
      Repr := {this, cursor, cursor.pn_, cursor.rn_};
    }

    /** Select the rows whose stored rn lies in [fromRN, toRN). This is the
        filtered and stably sorted database exactly when those rows fit the packed
        fields, for bounds that fit themselves. */
    method InverseRNs(fromRN: U64, toRN: U64)
      requires Valid()
      modifies this
      ensures Valid() && fresh(Repr - {this})
      ensures Output() == IndexAnswer(data_.rows, Phone34(fromRN), Phone34(toRN))
      ensures AllFit(data_.rows) && fromRN < U34_LIMIT && toRN < U34_LIMIT ==>
                Output() == InverseRows(data_.rows, fromRN, toRN)
      ensures fromRN < U34_LIMIT && toRN < U34_LIMIT ==>
                (Output() == InverseRows(data_.rows, fromRN, toRN) <==> RangeFits(data_.rows, fromRN, toRN))
    {
      FittingAnswer(data_.rows, fromRN, toRN);
      RangeExactIffItsRowsFit(data_.rows, fromRN, toRN);
      SelectSlice(fromRN, toRN);
    }

    method SelectSlice(fromRN: U64, toRN: U64)
      requires Valid()
      modifies this
      ensures Valid() && fresh(Repr - {this})
      ensures Output() == IndexAnswer(data_.rows, Phone34(fromRN), Phone34(toRN))
    {
      hide ScanOrder, Slice, Chain, Data.Built, Cursor.Valid;
      data_.BuiltFacts();
      ghost var slice := Slice(data_.rows, Phone34(fromRN), Phone34(toRN));
      SliceIsInBounds(data_.rows, Phone34(fromRN), Phone34(toRN));
      var pnBegin, pnEnd := data_.FindWalk(fromRN, toRN);
      if pnBegin != pnEnd {
        Open(InverseRN(pnBegin, pnEnd), slice);
      } else {
        cursor_ := null;
        Repr := {this};
      }
    }

    /** Select all rows, in load order. */
    method VisitRows()
      requires Valid()
      modifies this
      ensures Valid() && fresh(Repr - {this})
      ensures Output() == Visited(data_.rows)
    {
      if |data_.pnColumn| > 0 {
        Open(RowScan(0, |data_.pnColumn|), AllNumbers(data_.rows));
      } else {
        cursor_ := null;
        Repr := {this};
      }
    }

    method HasRow() returns (b: bool)
      requires Valid()
      ensures b <==> Output() != []
    {
      b := cursor_ != null;
    }

    method CurrentPN() returns (pn: U64)
      requires Valid() && Output() != []
      ensures pn == Output()[0].pn
    {
      pn := cursor_.CurrentPN();
    }

    method CurrentRN() returns (rn: U64)
      requires Valid() && Output() != []
      ensures rn == Output()[0].rn
    {
      rn := cursor_.CurrentRN();
    }

    method Advance()
      requires Valid() && Output() != []
      modifies Repr
      ensures Valid() && Output() == old(Output())[1..]
      ensures fresh(Repr - old(Repr))
    {
      hide Data.Built, Cursor.Valid, Chain;
      cursor_.Advance();
      if !cursor_.HasRow() {
        cursor_ := null;
        Repr := {this};
      }
    }

    /** Number of loaded rows. */
    method Size() returns (n: nat)
      requires Valid()
      ensures n == |data_.rows|
    {
      n := |data_.pnColumn|;
    }

    method GetRN(pn: U64) returns (rn: U64)
      requires Valid()
      ensures rn == Lookup(data_.rows, pn)
    {
      var key, answer := new U64[1](_ => pn), new U64[1](_ => 0);
      data_.GetRNs(1, key, answer, prefetchSize);
      rn := answer[0];
    }
  }
}
