/** The CSV text of a database: an input stream with the error behaviour of the
    C++ one, and what loading, verifying and dumping mean line by line. */
module CsvText {
  import opened PhoneRows
  import opened Decimal
  import opened Chars

  const BATCH: nat := 10000

  datatype Peeked = EndOfFile | Next(c: char) | PeekFailed
  datatype Line = Line(text: string) | ReadFailed

  function LineLength(s: string): (n: nat)
    ensures n <= |s|
    ensures '\n' !in s[..n]
    ensures n < |s| ==> s[n] == '\n'
  {
    if s == "" || s[0] == '\n' then 0
    else
      var n := 1 + LineLength(s[1..]);
      assert s[..n] == [s[0]] + s[1..][..n - 1];
      n
  }

  /** A file stream on which a failed read throws; reading up to the end of the
      file only marks it as ended. */
  class InStream {
    const text: string
    var pos: nat
    var ended: bool

    ghost predicate Valid()
      reads this
    {
      pos <= |text| && (ended ==> pos == |text|)
    }

    ghost function Rest(): string
      reads this
      requires Valid()
    {
      text[pos..]
    }

    constructor (text: string)
      ensures Valid() && !ended && Rest() == text
    {
      this.text, pos, ended := text, 0, false;
    }

    predicate Good()
      reads this
    {
      !ended
    }

    /** Peeking at a stream that has already ended is a failure. */
    method Peek() returns (p: Peeked)
      requires Valid()
      modifies this`ended
      ensures Valid()
      ensures p == if old(ended) then PeekFailed else if Rest() == "" then EndOfFile else Next(Rest()[0])
      ensures ended == (old(ended) || Rest() == "")
      ensures Rest() == old(Rest())
    {
      if ended {
        return PeekFailed;
      }
      if pos == |text| {
        ended := true;
        return EndOfFile;
      }
      p := Next(text[pos]);
    }

    method GetLine() returns (l: Line)
      requires Valid()
      modifies this
      ensures Valid()
      ensures old(ended) || old(Rest()) == "" ==> l == ReadFailed
      ensures !old(ended) && old(Rest()) != "" ==>
                var n := LineLength(old(Rest()));
                && l == Line.Line(old(Rest())[..n])
                && ended == (n == |old(Rest())|)
                && Rest() == if ended then "" else old(Rest())[n + 1..]
    {
      if ended || pos == |text| {
        ended := true;
        pos := |text|;
        return ReadFailed;
      }
      var n := LineLength(text[pos..]);
      l := Line.Line(text[pos..][..n]);
      if pos + n == |text| {
        pos, ended := |text|, true;
      } else {
        pos := pos + n + 1;
      }
    }
  }

  // -------------------------------------------------------------- columns

  function ParseAll(parts: seq<string>): Option<seq<U64>> {
    if parts == [] then Some([])
    else
      var first, rest := ParseU64(parts[0]), ParseAll(parts[1..]);
      if first.None? || rest.None? then None else Some([first.value] + rest.value)
  }

  /** The numbers of a line, or None if a column is not a number. */
  function Columns(line: string): Option<seq<U64>> {
    ParseAll(Split(line, ','))
  }

  // -------------------------------------------------------------- loading

  /** Add the row of one line behind `rows`; None if the line is malformed, the
      key is known or the database is full. */
  function AddLine(rows: seq<Row>, line: string): Option<seq<Row>> {
    var c := Columns(line);
    if c.None? || |c.value| != 2 then None
    else if HasKey(rows, c.value[0]) || |rows| >= MAXROWS then None
    else Some(rows + [Row(c.value[0], c.value[1])])
  }

  /** Load the rest of a file behind the first n lines. A last line without
      line feed is only accepted when it completes a batch. */
  function LoadRest(rows: seq<Row>, n: nat, text: string): Option<seq<Row>>
    decreases |text|
  {
    if text == "" then Some(rows)
    else
      var k := LineLength(text);
      var added := AddLine(rows, text[..k]);
      if added.None? then None
      else if k < |text| then LoadRest(added.value, n + 1, text[k + 1..])
      else if (n + 1) % BATCH == 0 then added
      else None
  }

  function LoadText(text: string): Option<seq<Row>> {
    LoadRest([], 0, text)
  }

  // -------------------------------------------------------------- dumping

  function DumpLine(r: Row): string {
    Digits(r.pn) + "," + Digits(r.rn) + "\r\n"
  }

  function DumpText(rows: seq<Row>): string {
    if rows == [] then "" else DumpLine(rows[0]) + DumpText(rows[1..])
  }

  lemma DigitsHaveNo(n: nat, c: char)
    requires !IsDigit(c)
    ensures c !in Digits(n)
  {
  }

  lemma {:induction false} LineLengthOf(a: string, rest: string)
    requires '\n' !in a
    ensures LineLength(a + "\n" + rest) == |a|
  {
    var s := a + "\n" + rest;
    if a != "" {
      assert s[1..] == a[1..] + "\n" + rest;
      LineLengthOf(a[1..], rest);
    }
  }

  lemma ParseOne(part: string)
    ensures ParseAll([part]) == if ParseU64(part).None? then None else Some([ParseU64(part).value])
  {
    var none: seq<U64> := [];
    assert [part][1..] == [];
    if ParseU64(part).Some? {
      assert [ParseU64(part).value] + none == [ParseU64(part).value];
    }
  }

  lemma DumpedLineParses(r: Row)
    ensures Columns(Digits(r.pn) + "," + (Digits(r.rn) + "\r")) == Some([r.pn, r.rn])
  {
    DigitsHaveNo(r.pn, ',');
    DigitsHaveNo(r.rn, ',');
    SplitAt(Digits(r.pn), Digits(r.rn) + "\r", ',');
    SplitWithout(Digits(r.rn) + "\r", ',');
    ParseDigits(r.pn, "");
    assert Digits(r.pn) + "" == Digits(r.pn);
    ParseDigits(r.rn, "\r");
    ParseOne(Digits(r.rn) + "\r");
    var parts := [Digits(r.pn)] + [Digits(r.rn) + "\r"];
    assert parts[1..] == [Digits(r.rn) + "\r"];
    assert [r.pn] + [r.rn] == [r.pn, r.rn];
  }

  /** One dumped line at the front of a text loads as its row. */
  lemma LoadDumpedLine(rows: seq<Row>, n: nat, r: Row, rest: string)
    ensures LoadRest(rows, n, DumpLine(r) + rest) ==
            if HasKey(rows, r.pn) || |rows| >= MAXROWS then None else LoadRest(rows + [r], n + 1, rest)
  {
    var line := Digits(r.pn) + "," + (Digits(r.rn) + "\r");
    var text := DumpLine(r) + rest;
    assert text == line + "\n" + rest;
    DigitsHaveNo(r.pn, '\n');
    DigitsHaveNo(r.rn, '\n');
    LineLengthOf(line, rest);
    assert text[..|line|] == line && text[|line| + 1..] == rest;
    DumpedLineParses(r);
  }

  lemma DistinctAfter(before: seq<Row>, rows: seq<Row>)
    requires rows != [] && DistinctKeys(before)
    ensures before + [rows[0]] + rows[1..] == before + rows
    ensures HasKey(before, rows[0].pn) ==> !DistinctKeys(before + rows)
    ensures !HasKey(before, rows[0].pn) ==> DistinctKeys(before + [rows[0]])
  {
    var r, all := rows[0], before + rows;
    if HasKey(before, r.pn) {
      var i :| 0 <= i < |before| && before[i].pn == r.pn;
      assert all[i].pn == all[|before|].pn;
    } else {
      assert forall i :: 0 <= i < |before| ==> before[i].pn != r.pn;
    }
  }

  lemma {:induction false} LoadDumpBehind(before: seq<Row>, n: nat, rows: seq<Row>)
    requires DistinctKeys(before) && |before| <= MAXROWS
    ensures LoadRest(before, n, DumpText(rows)) ==
            if DistinctKeys(before + rows) && |before + rows| <= MAXROWS then Some(before + rows) else None
    decreases |rows|
  {
    hide DumpLine;
    if rows == [] {
      assert before + rows == before;
    } else {
      LoadDumpedLine(before, n, rows[0], DumpText(rows[1..]));
      DistinctAfter(before, rows);
      if !HasKey(before, rows[0].pn) && |before| < MAXROWS {
        LoadDumpBehind(before + [rows[0]], n + 1, rows[1..]);
      }
    }
  }

  /** Loading what was dumped gives back the same rows in the same order; it is
      refused exactly when the dumped rows repeat a key or are too many. */
  lemma LoadDump(rows: seq<Row>)
    ensures LoadText(DumpText(rows)) == if DistinctKeys(rows) && |rows| <= MAXROWS then Some(rows) else None
  {
    LoadDumpBehind([], 0, rows);
    assert [] + rows == rows;
  }

  // ------------------------------------------------------------ verifying

  const MAX_DIFF: nat := 100

  /** No line of the text is a list of numbers with fewer than two entries. */
  ghost predicate NoShortLine(text: string)
    decreases |text|
  {
    text != "" ==>
      var k := LineLength(text);
      var c := Columns(text[..k]);
      (c.Some? ==> |c.value| >= 2) && (k < |text| ==> NoShortLine(text[k + 1..]))
  }

  /** The first two columns of all lines behind the first n; None where reading
      or converting fails. */
  function FileRows(n: nat, text: string): Option<seq<Row>>
    decreases |text|
  {
    if text == "" then Some([])
    else
      var k := LineLength(text);
      var c := Columns(text[..k]);
      if c.None? || |c.value| < 2 then None
      else
        var row := Row(c.value[0], c.value[1]);
        if k == |text| then if (n + 1) % BATCH == 0 then Some([row]) else None
        else
          var rest := FileRows(n + 1, text[k + 1..]);
          if rest.None? then None else Some([row] + rest.value)
  }

  predicate Differs(db: seq<Row>, r: Row) {
    Lookup(db, r.pn) != r.rn
  }

  function Mismatches(db: seq<Row>, file: seq<Row>): nat {
    if file == [] then 0 else (if Differs(db, file[0]) then 1 else 0) + Mismatches(db, file[1..])
  }

  /** Compare the rest of a file with a database: the number of lines in the
      file, or None when reading fails or the difference limit is reached. */
  function VerifyRest(db: seq<Row>, n: nat, diffs: nat, text: string): Option<nat>
    decreases |text|
  {
    if text == "" then Some(n)
    else
      var k := LineLength(text);
      var c := Columns(text[..k]);
      if c.None? || |c.value| < 2 then None
      else
        var diffs' := diffs + if Differs(db, Row(c.value[0], c.value[1])) then 1 else 0;
        if diffs' >= MAX_DIFF then None
        else if k < |text| then VerifyRest(db, n + 1, diffs', text[k + 1..])
        else if (n + 1) % BATCH == 0 then Some(n + 1)
        else None
  }

  function VerifyText(db: seq<Row>, text: string): bool {
    VerifyRest(db, 0, 0, text) == Some(|db|)
  }

  /** What verification makes of the rows still to come. */
  function Counted(db: seq<Row>, n: nat, diffs: nat, file: Option<seq<Row>>): Option<nat> {
    if file.Some? && diffs + Mismatches(db, file.value) < MAX_DIFF then Some(n + |file.value|) else None
  }

  lemma CountedStep(db: seq<Row>, n: nat, diffs: nat, row: Row, rest: seq<Row>)
    ensures Counted(db, n, diffs, Some([row] + rest)) ==
            Counted(db, n + 1, diffs + (if Differs(db, row) then 1 else 0), Some(rest))
  {
    assert ([row] + rest)[1..] == rest;
  }

  lemma {:induction false} VerifyRestCounts(db: seq<Row>, n: nat, diffs: nat, text: string)
    requires diffs < MAX_DIFF
    ensures VerifyRest(db, n, diffs, text) == Counted(db, n, diffs, FileRows(n, text))
    decreases |text|
  {
    hide Columns, Differs;
    if text != "" {
      hide Counted;
      var k := LineLength(text);
      var c := Columns(text[..k]);
      if c.None? || |c.value| < 2 {
        NothingCounted(db, n, diffs);
      } else {
        var row := Row(c.value[0], c.value[1]);
        var diffs' := diffs + if Differs(db, row) then 1 else 0;
        if k < |text| {
          var rest := FileRows(n + 1, text[k + 1..]);
          NothingCounted(db, n, diffs);
          NothingCounted(db, n + 1, diffs');
          if rest.Some? {
            CountedStep(db, n, diffs, row, rest.value);
            TooManyDiffer(db, n + 1, diffs', rest.value);
          }
          if diffs' < MAX_DIFF {
            VerifyRestCounts(db, n + 1, diffs', text[k + 1..]);
          }
        } else {
          NothingCounted(db, n, diffs);
          CountedStep(db, n, diffs, row, []);
          TooManyDiffer(db, n + 1, diffs', []);
          assert [row] + [] == [row];
        }
      }
    }
  }

  lemma NothingCounted(db: seq<Row>, n: nat, diffs: nat)
    ensures Counted(db, n, diffs, None) == None
  {
  }

  lemma TooManyDiffer(db: seq<Row>, n: nat, diffs: nat, rest: seq<Row>)
    ensures diffs >= MAX_DIFF ==> Counted(db, n, diffs, Some(rest)) == None
    ensures rest == [] && diffs < MAX_DIFF ==> Counted(db, n, diffs, Some(rest)) == Some(n)
  {
  }

  /** Verification says yes exactly when the file is readable, has as many rows
      as the database and fewer than 100 of them differ. */
  lemma VerifyVerdict(db: seq<Row>, text: string)
    ensures VerifyText(db, text) <==>
      var file := FileRows(0, text);
      file.Some? && |file.value| == |db| && Mismatches(db, file.value) < MAX_DIFF
  {
    VerifyRestCounts(db, 0, 0, text);
  }

  ghost function RowSet(rows: seq<Row>): set<Row> {
    set r | r in rows
  }

  lemma {:induction false} DistinctRowsCount(rows: seq<Row>)
    ensures |RowSet(rows)| <= |rows|
    ensures |RowSet(rows)| == |rows| <==> forall i, j :: 0 <= i < j < |rows| ==> rows[i] != rows[j]
  {
    if rows != [] {
      var t, r := rows[..|rows| - 1], rows[|rows| - 1];
      DistinctRowsCount(t);
      assert RowSet(rows) == RowSet(t) + {r};
      if r in t {
        assert RowSet(rows) == RowSet(t);
        var i :| 0 <= i < |t| && t[i] == r;
        assert rows[i] == rows[|rows| - 1];
      } else {
        assert forall i :: 0 <= i < |t| ==> rows[i] != r;
      }
    }
  }

  lemma {:induction false} NoMismatch(db: seq<Row>, file: seq<Row>)
    ensures Mismatches(db, file) == 0 <==> forall i :: 0 <= i < |file| ==> !Differs(db, file[i])
  {
    if file != [] {
      NoMismatch(db, file[1..]);
      assert forall i :: 0 < i < |file| ==> file[i] == file[1..][i - 1];
    }
  }

  lemma PresentIffSame(db: seq<Row>, r: Row)
    requires DistinctKeys(db) && (r.rn == NONE ==> HasKey(db, r.pn))
    ensures r in db <==> !Differs(db, r)
  {
    if HasKey(db, r.pn) {
      var i: nat :| i < |db| && db[i].pn == r.pn;
      LookupFinds(db, i);
      if r in db {
        var j: nat :| j < |db| && db[j] == r;
        assert i == j;
      }
    } else {
      LookupMisses(db, r.pn);
    }
  }

  ghost predicate KeysPresent(db: seq<Row>, file: seq<Row>) {
    forall i :: 0 <= i < |file| ==> HasKey(db, file[i].pn)
  }

  /** What a matching row count really tells: the file and the database hold the
      same set of rows exactly when no row differs, no key repeats in the file
      and no key is absent (pigeonhole). Only an absent key paired with the
      number that means absent makes the last condition necessary. */
  lemma SameRowsIff(db: seq<Row>, file: seq<Row>)
    requires DistinctKeys(db) && |file| == |db|
    ensures RowSet(file) == RowSet(db) <==> Mismatches(db, file) == 0 && DistinctKeys(file) && KeysPresent(db, file)
  {
    NoMismatch(db, file);
    DistinctRowsCount(db);
    DistinctRowsCount(file);
    forall i | 0 <= i < |file| && HasKey(db, file[i].pn) ensures file[i] in db <==> !Differs(db, file[i]) {
      PresentIffSame(db, file[i]);
    }
    if Mismatches(db, file) == 0 && DistinctKeys(file) && KeysPresent(db, file) {
      assert RowSet(file) <= RowSet(db);
      SubsetOfSameSize(RowSet(file), RowSet(db));
    }
    if RowSet(file) == RowSet(db) {
      forall i | 0 <= i < |file| ensures HasKey(db, file[i].pn) && !Differs(db, file[i]) {
        assert file[i] in RowSet(db);
      }
      forall i, j | 0 <= i < j < |file| ensures file[i].pn != file[j].pn {
        assert file[i] in RowSet(db) && file[j] in RowSet(db) && file[i] != file[j];
      }
    }
  }

  lemma SubsetOfSameSize(a: set<Row>, b: set<Row>)
    requires a <= b && |b| <= |a|
    ensures a == b
  {
    assert b == a + (b - a);
  }

  /** When the verdict on a readable file is right. It says yes without seeing a
      difference, a repeated or an absent key exactly when the file holds the
      rows of the database, each once. On files without differing rows and
      repeated keys it is therefore wrong exactly when the counts are equal and
      a key is absent. */
  lemma VerifyMeansEqual(db: seq<Row>, text: string)
    requires DistinctKeys(db) && FileRows(0, text).Some?
    ensures var file := FileRows(0, text).value;
      var plain := Mismatches(db, file) == 0 && DistinctKeys(file);
      && (VerifyText(db, text) && plain && KeysPresent(db, file) <==> |file| == |db| && RowSet(file) == RowSet(db))
      && (plain ==> ((VerifyText(db, text) <==> RowSet(file) == RowSet(db))
                     <==> (|file| == |db| ==> KeysPresent(db, file))))
  {
    var file := FileRows(0, text).value;
    VerifyVerdict(db, text);
    if |file| == |db| {
      SameRowsIff(db, file);
    } else {
      DistinctRowsCount(db);
      DistinctRowsCount(file);
    }
  }

  lemma {:induction false} LoadedIsFile(rows: seq<Row>, n: nat, text: string)
    requires LoadRest(rows, n, text).Some?
    ensures FileRows(n, text).Some? && LoadRest(rows, n, text).value == rows + FileRows(n, text).value
    decreases |text|
  {
    if text == "" {
      assert rows + [] == rows;
    } else {
      var k := LineLength(text);
      var added := AddLine(rows, text[..k]).value;
      if k < |text| {
        LoadedIsFile(added, n + 1, text[k + 1..]);
        var rest := FileRows(n + 1, text[k + 1..]).value;
        assert added + rest == rows + ([added[|rows|]] + rest);
      }
    }
  }

  lemma {:induction false} LoadedKeysAreDistinct(rows: seq<Row>, n: nat, text: string)
    requires DistinctKeys(rows) && |rows| <= MAXROWS && LoadRest(rows, n, text).Some?
    ensures DistinctKeys(LoadRest(rows, n, text).value) && |LoadRest(rows, n, text).value| <= MAXROWS
    decreases |text|
  {
    if text != "" {
      var k := LineLength(text);
      var added := AddLine(rows, text[..k]).value;
      assert forall i :: 0 <= i < |rows| ==> rows[i].pn != added[|rows|].pn;
      if k < |text| {
        LoadedKeysAreDistinct(added, n + 1, text[k + 1..]);
      }
    }
  }

  /** A database verifies against the file it was loaded from. */
  lemma VerifyAfterLoad(text: string)
    requires LoadText(text).Some?
    ensures VerifyText(LoadText(text).value, text)
  {
    var db := LoadText(text).value;
    LoadedIsFile([], 0, text);
    assert [] + FileRows(0, text).value == FileRows(0, text).value;
    LoadedKeysAreDistinct([], 0, text);
    NoMismatch(db, db);
    forall i | 0 <= i < |db| ensures !Differs(db, db[i]) {
      LookupFinds(db, i);
    }
    VerifyVerdict(db, text);
  }

  lemma {:induction false} FileRowsOfDump(n: nat, rows: seq<Row>)
    ensures FileRows(n, DumpText(rows)) == Some(rows)
    decreases |rows|
  {
    if rows != [] {
      var r, rest := rows[0], DumpText(rows[1..]);
      var line := Digits(r.pn) + "," + (Digits(r.rn) + "\r");
      var text := DumpLine(r) + rest;
      assert text == line + "\n" + rest;
      DigitsHaveNo(r.pn, '\n');
      DigitsHaveNo(r.rn, '\n');
      LineLengthOf(line, rest);
      assert text[..|line|] == line && text[|line| + 1..] == rest;
      DumpedLineParses(r);
      FileRowsOfDump(n + 1, rows[1..]);
      assert [r] + rows[1..] == rows;
    }
  }

  /** A file that repeats a row passes verification although a row of the
      database is missing from it. */
  lemma RepeatedRowPasses()
    ensures var db, file := [Row(1, 5), Row(2, 6)], [Row(1, 5), Row(1, 5)];
      DistinctKeys(db) && VerifyText(db, DumpText(file)) && RowSet(file) != RowSet(db)
  {
    var db, file := [Row(1, 5), Row(2, 6)], [Row(1, 5), Row(1, 5)];
    LookupFinds(db, 0);
    NoMismatch(db, file);
    FileRowsOfDump(0, file);
    VerifyVerdict(db, DumpText(file));
    assert Row(2, 6) in db && Row(2, 6) !in file;
    assert Row(2, 6) in RowSet(db);
  }

  /** An absent key paired with the number that means absent passes as well. */
  lemma AbsentKeyPasses()
    ensures var db, file := [Row(1, 5)], [Row(9, NONE)];
      && DistinctKeys(db) && DistinctKeys(file) && Mismatches(db, file) == 0
      && VerifyText(db, DumpText(file)) && RowSet(file) != RowSet(db)
  {
    var db, file := [Row(1, 5)], [Row(9, NONE)];
    LookupMisses(db, 9);
    NoMismatch(db, file);
    FileRowsOfDump(0, file);
    VerifyVerdict(db, DumpText(file));
    assert Row(9, NONE) in RowSet(file) && Row(9, NONE) !in db;
  }

  // ---------------------------------------------- a last line without end

  predicate Terminated(text: string) {
    text == "" || text[|text| - 1] == '\n'
  }

  /** The text with its last line ended. */
  function Completed(text: string): string {
    if Terminated(text) then text else text + "\n"
  }

  function LineCount(text: string): nat
    decreases |text|
  {
    if text == "" then 0
    else
      var k := LineLength(text);
      if k < |text| then 1 + LineCount(text[k + 1..]) else 1
  }

  /** A last line without end is only read if it completes a batch. */
  predicate LastLineReadable(n: nat, text: string) {
    Terminated(text) || (n + LineCount(text)) % BATCH == 0
  }

  lemma EmptyIsComplete()
    ensures Terminated("") && Completed("") == ""
  {
  }

  lemma JoinedLine(a: string, rest: string)
    requires '\n' !in a
    ensures var s := a + "\n" + rest; LineLength(s) == |a| < |s| && s[..|a|] == a && s[|a| + 1..] == rest
  {
    LineLengthOf(a, rest);
  }

  lemma CompletedRest(a: string, rest: string)
    ensures var s := a + "\n" + rest;
      Completed(s) == a + "\n" + Completed(rest) && (Terminated(s) <==> Terminated(rest))
  {
    var s := a + "\n" + rest;
    assert rest != "" ==> rest[|rest| - 1] == s[|s| - 1];
    assert s + "\n" == a + "\n" + (rest + "\n");
  }

  lemma LineAhead(text: string)
    requires text != "" && LineLength(text) < |text|
    ensures var k := LineLength(text); var rest := text[k + 1..];
      && LineLength(Completed(text)) == k < |Completed(text)|
      && Completed(text)[..k] == text[..k] && Completed(text)[k + 1..] == Completed(rest)
      && (Terminated(text) <==> Terminated(rest)) && LineCount(text) == 1 + LineCount(rest)
  {
    hide Completed, Terminated;
    var k := LineLength(text);
    assert text == text[..k] + "\n" + text[k + 1..];
    CompletedRest(text[..k], text[k + 1..]);
    JoinedLine(text[..k], Completed(text[k + 1..]));
  }

  lemma LastLine(text: string)
    requires text != "" && LineLength(text) == |text|
    ensures !Terminated(text) && LineCount(text) == 1
    ensures Completed(text) == text + "\n" && LineLength(Completed(text)) == |text|
    ensures text[..|text|] == Completed(text)[..|text|] == text && Completed(text)[|text| + 1..] == ""
  {
    assert text[..|text|] == text;
    assert text[|text| - 1] in text;
    LineLengthOf(text, "");
    assert text + "\n" + "" == text + "\n";
  }

  /** Loading treats a file as if its last line had an end, but fails on a last
      line without end whose number is no multiple of the batch size. */
  lemma {:induction false} LoadUnterminated(rows: seq<Row>, n: nat, text: string)
    ensures LoadRest(rows, n, text) ==
            if LastLineReadable(n, text) then LoadRest(rows, n, Completed(text)) else None
    decreases |text|
  {
    hide AddLine, LoadRest, Completed, Terminated, LineLength;
    EmptyIsComplete();
    if text != "" {
      var k := LineLength(text);
      LoadStep(rows, n, text);
      if k == |text| {
        LastLine(text);
        LoadStep(rows, n, Completed(text));
        var added := AddLine(rows, text);
        if added.Some? {
          LoadNothing(added.value, n + 1);
        }
      } else {
        LineAhead(text);
        LoadStep(rows, n, Completed(text));
        var added := AddLine(rows, text[..k]);
        if added.Some? {
          LoadUnterminated(added.value, n + 1, text[k + 1..]);
        }
      }
    }
  }

  /** What reading one line leaves of a load. */
  lemma LoadStep(rows: seq<Row>, n: nat, text: string)
    requires text != ""
    ensures var k := LineLength(text); var added := AddLine(rows, text[..k]);
      LoadRest(rows, n, text) ==
        if added.None? then None
        else if k < |text| then LoadRest(added.value, n + 1, text[k + 1..])
        else if (n + 1) % BATCH == 0 then added
        else None
  {
    hide AddLine, LineLength;
  }

  lemma LoadNothing(rows: seq<Row>, n: nat)
    ensures LoadRest(rows, n, "") == Some(rows)
  {
  }

  lemma {:induction false} FileUnterminated(n: nat, text: string)
    ensures FileRows(n, text) == if LastLineReadable(n, text) then FileRows(n, Completed(text)) else None
    decreases |text|
  {
    hide FileRows, Completed, Terminated, LineLength;
    EmptyIsComplete();
    if text != "" {
      if LineLength(text) == |text| {
        LastLine(text);
        FileLastLine(n, text, Completed(text));
      } else {
        LineAhead(text);
        FileUnterminated(n + 1, text[LineLength(text) + 1..]);
        FileFirstLine(n, text, Completed(text));
      }
    }
  }

  lemma FileLastLine(n: nat, text: string, ended: string)
    requires text != "" && LineLength(text) == |text| && LineLength(ended) == |text| < |ended|
    requires text[..|text|] == ended[..|text|] && ended[|text| + 1..] == ""
    ensures FileRows(n, text) == if (n + 1) % BATCH == 0 then FileRows(n, ended) else None
  {
    hide Columns, LineLength;
    var c := Columns(text[..|text|]);
    assert FileRows(n + 1, "") == Some([]);
    if c.Some? && |c.value| >= 2 {
      assert [Row(c.value[0], c.value[1])] + [] == [Row(c.value[0], c.value[1])];
    }
  }

  /** Two texts with the same first line differ in what follows it only. */
  lemma FileFirstLine(n: nat, text: string, other: string)
    requires var k := LineLength(text); k < |text| && LineLength(other) == k < |other| && text[..k] == other[..k]
    ensures var k := LineLength(text);
      var rest, rest' := FileRows(n + 1, text[k + 1..]), FileRows(n + 1, other[k + 1..]);
      (rest == rest' ==> FileRows(n, text) == FileRows(n, other)) && (rest == None ==> FileRows(n, text) == None)
  {
    hide Columns, LineLength;
  }

  /** The same for a whole file, loaded or verified. */
  lemma UnterminatedFile(db: seq<Row>, text: string)
    ensures LoadText(text) == if LastLineReadable(0, text) then LoadText(Completed(text)) else None
    ensures VerifyText(db, text) <==> LastLineReadable(0, text) && VerifyText(db, Completed(text))
  {
    hide LastLineReadable, Completed;
    LoadUnterminated([], 0, text);
    FileUnterminated(0, text);
    VerifyVerdict(db, text);
    VerifyVerdict(db, Completed(text));
  }

  /** One good row, refused for want of a line feed. */
  lemma MissingLineFeed()
    ensures var rows, text := [Row(1, 5)], "1,5\r";
      && LoadText(text) == None && !VerifyText(rows, text)
      && LoadText(text + "\n") == Some(rows) && VerifyText(rows, text + "\n")
  {
    var rows, text := [Row(1, 5)], "1,5\r";
    assert DumpText(rows) == text + "\n" by {
      assert rows[1..] == [];
      assert Digits(1) == "1" && Digits(5) == "5";
    }
    LoadDump(rows);
    VerifyAfterLoad(text + "\n");
    assert LineLength(text) == |text| by {
      NoLineFeed(text);
    }
    assert !Terminated(text) && LineCount(text) == 1;
    UnterminatedFile(rows, text);
  }

  lemma {:induction false} NoLineFeed(text: string)
    requires '\n' !in text
    ensures LineLength(text) == |text|
  {
    if text != "" {
      assert text[0] in text;
      NoLineFeed(text[1..]);
    }
  }
}
