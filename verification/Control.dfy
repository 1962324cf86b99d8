/** Maintenance commands: load a database file in batches and commit it, dump
    the loaded database, verify it against a file. */
module Control {
  import opened PhoneRows
  import opened PhoneIndex
  import opened PhoneMapping
  import opened PhoneTruncation
  import opened Decimal
  import opened CsvText

  datatype Country = US | CA

  /** Reading the columns of one line into a row buffer. */
  method ReadColumns(input: InStream) returns (columns: Option<seq<U64>>)
    requires input.Valid() && !input.ended && input.Rest() != ""
    modifies input
    ensures input.Valid()
    ensures var text := old(input.Rest()); var k := LineLength(text);
      && columns == Columns(text[..k])
      && input.ended == (k == |text|)
      && input.Rest() == if k == |text| then "" else text[k + 1..]
  {
    var line := input.GetLine();
    columns := Columns(line.text);
  }

  /** Read the next line and add its row. */
  method AddCSVLine(builder: Builder, input: InStream) returns (ok: bool)
    requires builder.data_.Loading() && input.Valid() && !input.ended && input.Rest() != ""
    modifies builder.data_, input
    ensures builder.data_.Loading() && input.Valid()
    ensures var text := old(input.Rest()); var k := LineLength(text);
      && input.ended == (k == |text|)
      && input.Rest() == if k == |text| then "" else text[k + 1..]
    ensures var added := AddLine(old(builder.data_.rows), var text := old(input.Rest()); text[..LineLength(text)]);
      && ok == added.Some?
      && (ok ==> builder.data_.rows == added.value)
  {
    hide Columns, LineLength;
    var columns := ReadColumns(input);
    if columns.None? || |columns.value| != 2 {
      return false;
    }
    var added := builder.AddRow(columns.value[0], columns.value[1]);
    ok := added.Added?;
  }

  /** Add up to a batch of rows to the builder. The outcome of the whole load
      does not depend on where batches end, except for an unterminated line. */
  method FromCSV(builder: Builder, input: InStream, line0: nat) returns (ok: bool, line: nat)
    requires builder.data_.Loading() && input.Valid() && !input.ended
    requires line0 % BATCH == 0
    modifies builder.data_, input
    ensures builder.data_.Loading() && input.Valid()
    ensures ok && !input.ended ==> line == line0 + BATCH && |input.Rest()| < |old(input.Rest())|
    ensures !ok ==> LoadRest(old(builder.data_.rows), line0, old(input.Rest())).None?
    ensures ok && input.ended ==>
      LoadRest(old(builder.data_.rows), line0, old(input.Rest())) == Some(builder.data_.rows)
    ensures ok && !input.ended ==>
      LoadRest(old(builder.data_.rows), line0, old(input.Rest())) == LoadRest(builder.data_.rows, line, input.Rest())
  {
    hide *;
    ghost var whole := LoadRest(builder.data_.rows, line0, input.Rest());
    line := line0;
    while line < line0 + BATCH
      invariant line0 <= line <= line0 + BATCH
      invariant builder.data_.Loading() && input.Valid()
      invariant line == line0 ==> !input.ended && input.Rest() == old(input.Rest())
      invariant line > line0 ==> |input.Rest()| < |old(input.Rest())|
      invariant !input.ended ==> whole == LoadRest(builder.data_.rows, line, input.Rest())
      invariant input.ended ==> whole == if line % BATCH == 0 then Some(builder.data_.rows) else None
    {
      var p := input.Peek();
      if p.PeekFailed? {
        BetweenBatches(line0, line);
        return false, line;
      }
      if p.EndOfFile? {
        LoadNothing(builder.data_.rows, line);
        return true, line;
      }
      LoadStep(builder.data_.rows, line, input.Rest());
      var added := AddCSVLine(builder, input);
      if !added {
        return false, line;
      }
      line := line + 1;
    }
    BatchEnd(line0);
    ok := true;
  }

  lemma BatchEnd(line0: nat)
    requires line0 % BATCH == 0
    ensures (line0 + BATCH) % BATCH == 0 && BATCH > 0
  {
  }

  lemma BetweenBatches(line0: nat, line: nat)
    requires line0 % BATCH == 0 && line0 < line < line0 + BATCH
    ensures line % BATCH != 0
  {
  }

  /** The two published databases. */
  class Globals {
    var mappingUS: Data?
    var mappingCA: Data?
    const prefetchSize: nat

    constructor (prefetchSize: nat)
      requires prefetchSize > 0
      ensures mappingUS == null && mappingCA == null && this.prefetchSize == prefetchSize
    {
      mappingUS, mappingCA := null, null;
      this.prefetchSize := prefetchSize;
    }

    function Current(country: Country): Data?
      reads this
    {
      if country.CA? then mappingCA else mappingUS
    }

    /** Load a file and publish it. The load succeeds exactly when the text is
        one of a database; a failed load publishes nothing, a successful one
        replaces that country's database and touches no published data. */
    method LoadMappingFile(text: string, country: Country) returns (ok: bool)
      modifies this
      ensures ok <==> LoadText(text).Some?
      ensures !ok ==> unchanged(this)
      ensures ok ==>
        && Current(country) != null && fresh(Current(country)) && Current(country).Built()
        && Current(country).rows == LoadText(text).value
        && Current(if country.CA? then US else CA) == old(Current(if country.CA? then US else CA))
      ensures ok && country.US? ==> mappingUS == Current(country) && mappingCA == old(mappingCA)
      ensures ok && country.CA? ==> mappingCA == Current(country) && mappingUS == old(mappingUS)
    {
      hide LoadRest;
      var builder := new Builder();
      var input := new InStream(text);
      var nrows: nat := 0;
      while input.Good()
        invariant fresh(builder) && fresh(builder.data_) && fresh(input)
        invariant input.ended || nrows % BATCH == 0
        invariant builder.data_.Loading() && input.Valid()
        invariant LoadText(text) == if input.ended then Some(builder.data_.rows)
                                    else LoadRest(builder.data_.rows, nrows, input.Rest())
        invariant unchanged(this)
        decreases !input.ended, |input.Rest()|
      {
        ok, nrows := FromCSV(builder, input, nrows);
        if !ok {
          return false;
        }
      }
      var data := builder.Release();
      if country.CA? {
        mappingCA := data;
      } else {
        mappingUS := data;
      }
      ok := true;
    }

    /** Compare a file with the published database. A line has two columns. */
    method VerifyMappingFile(text: string, country: Country) returns (same: bool)
      requires Current(country) != null && Current(country).Built() && prefetchSize > 0
      requires NoShortLine(text)
      ensures same <==> VerifyText(Current(country).rows, text)
    {
      hide *;
      var db := new Mapping(Current(country), prefetchSize);
      var input := new InStream(text);
      var nrows: nat, maxdiff: nat := 0, MAX_DIFF;
      VerifyStart(db.data_.rows, text);
      BatchIsPositive();
      while input.Good()
        invariant db.Valid() && db.data_ == Current(country) && fresh(input) && input.Valid() && input !in db.Repr
        invariant 0 < maxdiff <= MAX_DIFF && (input.ended || nrows % BATCH == 0)
        invariant NoShortLine(input.Rest())
        invariant VerifyText(db.data_.rows, text) <==>
          (if input.ended then Some(nrows) else VerifyRest(db.data_.rows, nrows, MAX_DIFF - maxdiff, input.Rest()))
          == Some(|db.data_.rows|)
        decreases !input.ended, |input.Rest()|
      {
        GoodMeansOpen(input);
        var ok;
        ok, nrows, maxdiff := VerifyBatch(db, input, nrows, maxdiff);
        if !ok {
          return false;
        }
      }
      GoodMeansOpen(input);
      var size := db.Size();
      same := nrows == size;
    }

    /** Write all rows of the published database as text. */
    method DumpMappingFile(country: Country) returns (out: string)
      requires Current(country) != null && Current(country).Built() && prefetchSize > 0
      ensures out == DumpText(Visited(Current(country).rows))
    {
      out := DumpRows(Current(country), prefetchSize);
    }
  }

  /** Visit all rows and write them in batches. */
  method DumpRows(data: Data, prefetch: nat) returns (out: string)
    requires data.Built() && prefetch > 0
    ensures out == DumpText(Visited(data.rows))
  {
    hide *;
    var db := new Mapping(data, prefetch);
    out := "";
    db.VisitRows();
    ghost var todo := db.Output();
    ghost var whole := DumpText(todo);
    var more := db.HasRow();
    while more
      invariant db.Valid() && fresh(db.Repr) && db.Output() == todo && (more <==> todo != [])
      invariant out + DumpText(todo) == whole
      decreases |todo|
    {
      ghost var before := |todo|;
      BatchIsPositive();
      var i := 0;
      while i < BATCH && more
        invariant db.Valid() && fresh(db.Repr) && db.Output() == todo && (more <==> todo != [])
        invariant out + DumpText(todo) == whole
        invariant if i == 0 then |todo| == before && more else |todo| < before
        decreases |todo|
      {
        var pn := db.CurrentPN();
        var rn := db.CurrentRN();
        DumpStep(todo, Row(pn, rn), out);
        out := out + (Digits(pn) + "," + Digits(rn) + "\r\n");
        todo := todo[1..];
        db.Advance();
        more := db.HasRow();
        i := i + 1;
      }
    }
    DumpNothing();
    assert out + "" == out;
  }

  lemma GoodMeansOpen(input: InStream)
    ensures input.Good() <==> !input.ended
  {
  }

  lemma BatchIsPositive()
    ensures BATCH > 0
  {
  }

  lemma DumpNothing()
    ensures DumpText([]) == ""
  {
  }

  lemma DumpStep(todo: seq<Row>, r: Row, out: string)
    requires todo != [] && todo[0] == r
    ensures out + DumpText(todo) == out + (Digits(r.pn) + "," + Digits(r.rn) + "\r\n") + DumpText(todo[1..])
  {
    hide Digits;
    assert DumpText(todo) == DumpLine(r) + DumpText(todo[1..]);
  }

  lemma VerifyStart(rows: seq<Row>, text: string)
    ensures VerifyText(rows, text) <==> VerifyRest(rows, 0, MAX_DIFF - MAX_DIFF, text) == Some(|rows|)
    ensures MAX_DIFF > 0 && 0 % BATCH == 0
  {
  }

  lemma VerifyStep(rows: seq<Row>, n: nat, diffs: nat, text: string)
    requires text != "" && NoShortLine(text)
    ensures var k := LineLength(text); var c := Columns(text[..k]);
      && (c.Some? ==> |c.value| >= 2)
      && (k < |text| ==> NoShortLine(text[k + 1..]))
      && VerifyRest(rows, n, diffs, text) ==
        if c.None? then None
        else
          var diffs' := diffs + if Lookup(rows, c.value[0]) == c.value[1] then 0 else 1;
          if diffs' >= MAX_DIFF then None
          else if k < |text| then VerifyRest(rows, n + 1, diffs', text[k + 1..])
          else if (n + 1) % BATCH == 0 then Some(n + 1)
          else None
  {
    hide Columns, LineLength, Lookup;
  }

  lemma NothingIsVerified(rows: seq<Row>, n: nat, diffs: nat)
    ensures VerifyRest(rows, n, diffs, "") == Some(n) && NoShortLine("")
  {
  }

  /** Compare up to a batch of lines with the database. */
  method VerifyBatch(db: Mapping, input: InStream, nrows0: nat, maxdiff0: nat)
      returns (ok: bool, nrows: nat, maxdiff: nat)
    requires db.Valid() && input.Valid() && !input.ended && input !in db.Repr
    requires nrows0 % BATCH == 0 && 0 < maxdiff0 <= MAX_DIFF && NoShortLine(input.Rest())
    modifies input
    ensures input.Valid() && NoShortLine(input.Rest())
    ensures ok ==> 0 < maxdiff <= maxdiff0
    ensures ok && !input.ended ==> nrows % BATCH == 0 && |input.Rest()| < |old(input.Rest())|
    ensures !ok ==> VerifyRest(db.data_.rows, nrows0, MAX_DIFF - maxdiff0, old(input.Rest())).None?
    ensures ok && input.ended ==>
      VerifyRest(db.data_.rows, nrows0, MAX_DIFF - maxdiff0, old(input.Rest())) == Some(nrows)
    ensures ok && !input.ended ==>
      VerifyRest(db.data_.rows, nrows0, MAX_DIFF - maxdiff0, old(input.Rest()))
      == VerifyRest(db.data_.rows, nrows, MAX_DIFF - maxdiff, input.Rest())
  {
    hide *;
    ghost var rows := db.data_.rows;
    ghost var whole := VerifyRest(rows, nrows0, MAX_DIFF - maxdiff0, input.Rest());
    nrows, maxdiff := nrows0, maxdiff0;
    var i := 0;
    while i < BATCH
      invariant 0 <= i <= BATCH && nrows == nrows0 + i
      invariant db.Valid() && input.Valid() && NoShortLine(input.Rest())
      invariant 0 < maxdiff <= maxdiff0
      invariant i == 0 ==> !input.ended && input.Rest() == old(input.Rest())
      invariant i > 0 ==> |input.Rest()| < |old(input.Rest())|
      invariant !input.ended ==> whole == VerifyRest(rows, nrows, MAX_DIFF - maxdiff, input.Rest())
      invariant input.ended ==> whole == if nrows % BATCH == 0 then Some(nrows) else None
    {
      var p := input.Peek();
      if p.PeekFailed? {
        BetweenBatches(nrows0, nrows);
        return false, nrows, maxdiff;
      }
      if p.EndOfFile? {
        NothingIsVerified(rows, nrows, MAX_DIFF - maxdiff);
        return true, nrows, maxdiff;
      }
      VerifyStep(rows, nrows, MAX_DIFF - maxdiff, input.Rest());
      NothingIsVerified(rows, nrows, MAX_DIFF - maxdiff);
      var row := ReadColumns(input);
      if row.None? {
        return false, nrows, maxdiff;
      }
      nrows, i := nrows + 1, i + 1;
      var rn := db.GetRN(row.value[0]);
      if rn != row.value[1] {
        maxdiff := maxdiff - 1;
        if maxdiff == 0 {
          return false, nrows, maxdiff;
        }
      }
    }
    BatchEnd(nrows0);
    ok := true;
  }

  /** Dump then load is the identity on databases whose keys fit the packed
      field: the same rows in the same order, so the same answer to every
      lookup and every reverse query; and on no other database. */
  lemma DumpThenLoad(rows: seq<Row>)
    requires |rows| <= MAXROWS && DistinctKeys(rows)
    ensures LoadText(DumpText(Visited(rows))) == Some(rows)
            <==> forall i :: 0 <= i < |rows| ==> rows[i].pn < U34_LIMIT
  {
    VisitExactIffKeysFit(rows);
    LoadDump(Visited(rows));
  }
}
