/** Which texts load and verify, stated on their lines and columns. */
module CsvLaws {
  import opened PhoneRows
  import opened Decimal
  import opened Chars
  import opened CsvText

  // -------------------------------------------------------------- columns

  /** The pieces with a comma between any two. */
  ghost function CommaJoined(parts: seq<string>): string
    requires parts != []
  {
    if |parts| == 1 then parts[0] else parts[0] + [','] + CommaJoined(parts[1..])
  }

  /** The line consists of pieces without comma that read as these numbers. */
  ghost predicate Numbers(line: string, parts: seq<string>, values: seq<U64>) {
    && parts != [] && |values| == |parts| && line == CommaJoined(parts)
    && forall i :: 0 <= i < |parts| ==> ',' !in parts[i] && ParseU64(parts[i]) == Some(values[i])
  }

  lemma {:induction false} SplitOfJoined(parts: seq<string>)
    requires parts != [] && forall i :: 0 <= i < |parts| ==> ',' !in parts[i]
    ensures Split(CommaJoined(parts), ',') == parts
  {
    if |parts| == 1 {
      SplitWithout(parts[0], ',');
    } else {
      SplitOfJoined(parts[1..]);
      SplitAt(parts[0], CommaJoined(parts[1..]), ',');
    }
  }

  lemma {:induction false} JoinOfSplit(line: string)
    ensures var parts := Split(line, ',');
      CommaJoined(parts) == line && forall i :: 0 <= i < |parts| ==> ',' !in parts[i]
  {
    if line != "" {
      JoinOfSplit(line[1..]);
      var rest := Split(line[1..], ',');
      var parts := Split(line, ',');
      assert line == [line[0]] + line[1..];
      if line[0] == ',' {
        assert parts[1..] == rest && "" + [','] + CommaJoined(rest) == line;
      } else if |rest| > 1 {
        assert parts[1..] == rest[1..];
        assert [line[0]] + (rest[0] + [','] + CommaJoined(rest[1..])) == parts[0] + [','] + CommaJoined(rest[1..]);
      }
    }
  }

  lemma {:induction false} ParseAllIff(parts: seq<string>, values: seq<U64>)
    ensures ParseAll(parts) == Some(values) <==>
      |values| == |parts| && forall i :: 0 <= i < |parts| ==> ParseU64(parts[i]) == Some(values[i])
  {
    hide ParseU64;
    if parts != [] && values != [] {
      ParseAllIff(parts[1..], values[1..]);
      assert values == [values[0]] + values[1..];
      if forall i :: 0 <= i < |parts[1..]| ==> |values| == |parts| && ParseU64(parts[1..][i]) == Some(values[1..][i]) {
        assert forall i :: 0 < i < |parts| ==> parts[i] == parts[1..][i - 1] && values[i] == values[1..][i - 1];
      }
    }
  }

  /** A line gives a list of numbers exactly if each piece between its commas is one;
      one piece that is none spoils the line. */
  lemma ColumnsIff(line: string, values: seq<U64>)
    ensures Columns(line) == Some(values) <==> exists parts :: Numbers(line, parts, values)
  {
    hide ParseAll, ParseU64, Split, CommaJoined;
    JoinOfSplit(line);
    ParseAllIff(Split(line, ','), values);
    if Columns(line) == Some(values) {
      assert Numbers(line, Split(line, ','), values);
    }
    forall parts | Numbers(line, parts, values) ensures Columns(line) == Some(values) {
      SplitOfJoined(parts);
    }
  }

  // ---------------------------------------------------------------- lines

  /** The lines, each ended. */
  ghost function Ended(lines: seq<string>): string {
    if lines == [] then "" else lines[0] + "\n" + Ended(lines[1..])
  }

  ghost predicate AreLines(lines: seq<string>) {
    forall i :: 0 <= i < |lines| ==> '\n' !in lines[i]
  }

  /** Every text whose last line is ended consists of lines. */
  lemma {:induction false} LinesOf(text: string) returns (lines: seq<string>)
    requires text == "" || text[|text| - 1] == '\n'
    ensures AreLines(lines) && Ended(lines) == text
    decreases |text|
  {
    if text == "" {
      return [];
    }
    var k := LineLength(text);
    assert text[..|text|] == text && text[|text| - 1] in text;
    assert k < |text|;
    var rest := text[k + 1..];
    assert rest != "" ==> rest[|rest| - 1] == text[|text| - 1];
    var more := LinesOf(rest);
    lines := [text[..k]] + more;
    assert lines[1..] == more && text == text[..k] + "\n" + rest;
  }

  // -------------------------------------------------------------- loading

  /** The line consists of exactly two numbers, the row's. */
  ghost predicate HoldsRow(line: string, r: Row) {
    exists parts :: |parts| == 2 && Numbers(line, parts, [r.pn, r.rn])
  }

  lemma LineAdds(rows: seq<Row>, line: string, r: Row)
    requires HoldsRow(line, r)
    ensures AddLine(rows, line) == if HasKey(rows, r.pn) || |rows| >= 1_073_741_823 then None else Some(rows + [r])
  {
    hide Columns;
    var parts :| |parts| == 2 && Numbers(line, parts, [r.pn, r.rn]);
    ColumnsIff(line, [r.pn, r.rn]);
  }

  lemma AddedHolds(rows: seq<Row>, line: string) returns (r: Row)
    requires AddLine(rows, line).Some?
    ensures AddLine(rows, line) == Some(rows + [r]) && HoldsRow(line, r)
  {
    hide Columns, Numbers;
    var c := Columns(line).value;
    r := Row(c[0], c[1]);
    assert c == [r.pn, r.rn];
    ColumnsIff(line, c);
    var parts :| Numbers(line, parts, c);
    NumbersCount(line, parts, c);
  }

  lemma NumbersCount(line: string, parts: seq<string>, values: seq<U64>)
    requires Numbers(line, parts, values)
    ensures |parts| == |values|
  {
  }

  lemma {:induction false} GoodLinesLoad(before: seq<Row>, n: nat, lines: seq<string>, rows: seq<Row>)
    requires AreLines(lines) && |rows| == |lines| && forall i :: 0 <= i < |lines| ==> HoldsRow(lines[i], rows[i])
    requires DistinctKeys(before + rows) && |before + rows| <= 1_073_741_823
    ensures LoadRest(before, n, Ended(lines)) == Some(before + rows)
    decreases |lines|
  {
    hide AddLine, HoldsRow, LoadRest;
    if lines == [] {
      LoadNothing(before, n);
      assert before + rows == before;
    } else {
      JoinedLine(lines[0], Ended(lines[1..]));
      LoadStep(before, n, Ended(lines));
      LineAdds(before, lines[0], rows[0]);
      KeysInFront(before, rows);
      GoodLinesLoad(before + [rows[0]], n + 1, lines[1..], rows[1..]);
    }
  }

  lemma KeysInFront(before: seq<Row>, rows: seq<Row>)
    requires rows != [] && DistinctKeys(before + rows)
    ensures !HasKey(before, rows[0].pn) && before + [rows[0]] + rows[1..] == before + rows
  {
    assert DistinctKeys(before) by {
      assert forall i :: 0 <= i < |before| ==> (before + rows)[i] == before[i];
    }
    DistinctAfter(before, rows);
  }

  lemma {:induction false} LoadedLines(before: seq<Row>, n: nat, lines: seq<string>) returns (rows: seq<Row>)
    requires AreLines(lines) && LoadRest(before, n, Ended(lines)).Some?
    ensures LoadRest(before, n, Ended(lines)) == Some(before + rows)
    ensures |rows| == |lines| && forall i :: 0 <= i < |lines| ==> HoldsRow(lines[i], rows[i])
    decreases |lines|
  {
    hide AddLine, HoldsRow, LoadRest;
    if lines == [] {
      LoadNothing(before, n);
      rows := [];
      assert before + rows == before;
    } else {
      JoinedLine(lines[0], Ended(lines[1..]));
      LoadStep(before, n, Ended(lines));
      var r := AddedHolds(before, lines[0]);
      var more := LoadedLines(before + [r], n + 1, lines[1..]);
      rows := [r] + more;
      assert before + [r] + more == before + rows;
    }
  }

  /** A text of ended lines loads exactly if each line consists of two numbers and
      no key occurs twice; what is loaded are these rows in order. A line of one
      column, of three or with something that is no number spoils the file. */
  lemma LoadExactly(lines: seq<string>, rows: seq<Row>)
    requires AreLines(lines)
    ensures LoadText(Ended(lines)) == Some(rows) <==>
      && |rows| == |lines| <= 1_073_741_823
      && (forall i, j :: 0 <= i < j < |rows| ==> rows[i].pn != rows[j].pn)
      && (forall i :: 0 <= i < |lines| ==> HoldsRow(lines[i], rows[i]))
  {
    hide LoadRest, HoldsRow;
    assert [] + rows == rows;
    if LoadText(Ended(lines)) == Some(rows) {
      var got := LoadedLines([], 0, lines);
      assert [] + got == got;
      LoadedKeysAreDistinct([], 0, Ended(lines));
    }
    if |rows| == |lines| <= 1_073_741_823 && DistinctKeys(rows)
       && forall i :: 0 <= i < |lines| ==> HoldsRow(lines[i], rows[i]) {
      GoodLinesLoad([], 0, lines, rows);
    }
  }

  lemma CountStep(text: string)
    requires text != ""
    ensures var k := LineLength(text); LineCount(text) == if k < |text| then 1 + LineCount(text[k + 1..]) else 1
  {
    hide LineLength;
  }

  lemma {:induction false} CountOfLines(lines: seq<string>, last: string)
    requires AreLines(lines) && '\n' !in last && last != ""
    ensures LineCount(Ended(lines) + last) == |lines| + 1
    decreases |lines|
  {
    hide LineCount, LineLength;
    CountStep(Ended(lines) + last);
    if lines == [] {
      NoLineFeed(last);
      assert "" + last == last;
    } else {
      CountOfLines(lines[1..], last);
      var rest := Ended(lines[1..]) + last;
      JoinedLine(lines[0], rest);
      assert Ended(lines) + last == lines[0] + "\n" + rest;
    }
  }

  /** A last line without line feed counts as if it had one when its number is a
      multiple of 10000; any other spoils the file. */
  lemma LastLineExactly(db: seq<Row>, lines: seq<string>, last: string)
    requires AreLines(lines) && '\n' !in last && last != ""
    ensures var text := Ended(lines) + last;
      if (|lines| + 1) % 10000 == 0
      then LoadText(text) == LoadText(text + "\n") && (VerifyText(db, text) <==> VerifyText(db, text + "\n"))
      else LoadText(text) == None && !VerifyText(db, text)
  {
    hide LoadText, VerifyText;
    var text := Ended(lines) + last;
    CountOfLines(lines, last);
    assert text[|text| - 1] == last[|last| - 1] && last[|last| - 1] in last;
    UnterminatedFile(db, text);
  }

  // ------------------------------------------------------------ verifying

  /** The line consists of numbers only, the row's in front. */
  ghost predicate StartsWithRow(line: string, r: Row) {
    exists parts, values: seq<U64> :: |parts| >= 2 && Numbers(line, parts, values) && values[..2] == [r.pn, r.rn]
  }

  lemma FirstColumns(line: string, r: Row)
    ensures StartsWithRow(line, r) <==>
      var c := Columns(line); c.Some? && |c.value| >= 2 && r == Row(c.value[0], c.value[1])
  {
    hide Columns;
    forall parts, values: seq<U64> | Numbers(line, parts, values) ensures Columns(line) == Some(values) {
      ColumnsIff(line, values);
    }
    var c := Columns(line);
    if c.Some? && |c.value| >= 2 && r == Row(c.value[0], c.value[1]) {
      ColumnsIff(line, c.value);
      var parts :| Numbers(line, parts, c.value);
      assert c.value[..2] == [r.pn, r.rn];
    }
  }

  /** The file's rows are the first two numbers of its lines. */
  lemma {:induction false} FileExactly(n: nat, lines: seq<string>, rows: seq<Row>)
    requires AreLines(lines)
    ensures FileRows(n, Ended(lines)) == Some(rows) <==>
      |rows| == |lines| && forall i :: 0 <= i < |lines| ==> StartsWithRow(lines[i], rows[i])
    decreases |lines|
  {
    hide Columns, StartsWithRow, LineLength;
    if lines != [] {
      var line, rest := lines[0], Ended(lines[1..]);
      JoinedLine(line, rest);
      if rows != [] {
        FirstColumns(line, rows[0]);
        FileExactly(n + 1, lines[1..], rows[1..]);
        assert rows == [rows[0]] + rows[1..];
        assert (forall i :: 0 <= i < |lines[1..]| ==>
            |rows| == |lines| && StartsWithRow(lines[1..][i], rows[1..][i])) ==>
          forall i :: 0 < i < |lines| ==> StartsWithRow(lines[i], rows[i]) by {
          assert forall i :: 0 < i < |lines| ==> lines[i] == lines[1..][i - 1];
          assert forall i :: 0 < i < |rows| ==> rows[i] == rows[1..][i - 1];
        }
      }
    }
  }

  /** The places where the file pairs a key with another number than the database. */
  ghost function Wrong(db: seq<Row>, file: seq<Row>): set<nat> {
    set i: nat | i < |file| && Lookup(db, file[i].pn) != file[i].rn
  }

  lemma {:induction false} MismatchesCount(db: seq<Row>, file: seq<Row>)
    ensures Mismatches(db, file) == |Wrong(db, file)|
  {
    if file != [] {
      MismatchesCount(db, file[1..]);
      WrongStep(db, file);
      MovedCount(Wrong(db, file[1..]));
      hide Moved, Wrong;
    }
  }

  ghost function Moved(a: set<nat>): set<nat> {
    set i | i in a :: i + 1
  }

  lemma WrongStep(db: seq<Row>, file: seq<Row>)
    requires file != []
    ensures 0 !in Moved(Wrong(db, file[1..]))
    ensures Wrong(db, file) == Moved(Wrong(db, file[1..])) + if Differs(db, file[0]) then {0} else {}
  {
    hide Lookup;
    var rest := file[1..];
    forall i: nat | 0 < i ensures i in Wrong(db, file) <==> i in Moved(Wrong(db, rest)) {
      assert i in Wrong(db, file) <==> i - 1 in Wrong(db, rest);
    }
  }

  lemma {:induction false} MovedCount(a: set<nat>)
    ensures |Moved(a)| == |a|
  {
    if a != {} {
      var x :| x in a;
      MovedCount(a - {x});
      assert x + 1 !in Moved(a - {x});
      forall y: nat ensures y in Moved(a) <==> y in Moved(a - {x}) + {x + 1} {
        if y > 0 {
          assert y - 1 in a <==> y - 1 in a - {x} || y - 1 == x;
        }
      }
      assert Moved(a) == Moved(a - {x}) + {x + 1};
    }
  }

  /** A file of ended lines verifies exactly if each line consists of two or more
      numbers, there are as many lines as rows in the database, and fewer than 100
      lines differ: 99 may, 100 may not. */
  lemma VerifyExactly(db: seq<Row>, lines: seq<string>)
    requires AreLines(lines)
    ensures VerifyText(db, Ended(lines)) <==>
      exists file: seq<Row> :: |file| == |lines| == |db| && |Wrong(db, file)| < 100
        && forall i :: 0 <= i < |lines| ==> StartsWithRow(lines[i], file[i])
  {
    hide StartsWithRow, FileRows, Mismatches, Wrong, VerifyText;
    VerifyVerdict(db, Ended(lines));
    forall file: seq<Row>
      ensures FileRows(0, Ended(lines)) == Some(file) <==>
        |file| == |lines| && forall i :: 0 <= i < |lines| ==> StartsWithRow(lines[i], file[i])
      ensures Mismatches(db, file) == |Wrong(db, file)|
    {
      FileExactly(0, lines, file);
      MismatchesCount(db, file);
    }
  }

  // -------------------------------------------------------------- dumping

  /** A dump has a line for each row: pn, comma, rn and a carriage return. */
  lemma {:induction false} DumpLines(rows: seq<Row>) returns (lines: seq<string>)
    ensures AreLines(lines) && DumpText(rows) == Ended(lines) && |lines| == |rows|
    ensures forall i :: 0 <= i < |rows| ==> lines[i] == Digits(rows[i].pn) + "," + Digits(rows[i].rn) + "\r"
  {
    lines := [];
    if rows != [] {
      var r := rows[0];
      var more := DumpLines(rows[1..]);
      var line := Digits(r.pn) + "," + Digits(r.rn) + "\r";
      lines := [line] + more;
      DigitsHaveNo(r.pn, '\n');
      DigitsHaveNo(r.rn, '\n');
      assert lines[1..] == more && DumpLine(r) == line + "\n";
    }
  }
}
