/** Reverse lookup requests: the range of routing numbers a prefix stands for,
    and the response body produced by draining a cursor per range and country. */
module ReverseQuery {
  import opened PhoneRows
  import opened PhoneIndex
  import opened PhoneMapping
  import opened Decimal
  import opened Chars
  import opened CsvText

  const RN_DIGITS: nat := 10

  datatype Range = Range(from: U64, to: U64)

  // --------------------------------------------------- prefix arithmetic

  /** n followed by j zero digits. */
  function Scale(n: nat, j: nat): nat {
    if j == 0 then n else 10 * Scale(n, j - 1)
  }

  /** n without its last j digits. */
  function Shorten(n: nat, j: nat): nat {
    if j == 0 then n else Shorten(n / 10, j - 1)
  }

  lemma {:induction false} ScaleInterval(n: nat, j: nat, x: nat)
    ensures Scale(n, j) <= x < Scale(n + 1, j) <==> Shorten(x, j) == n
  {
    if j > 0 {
      ScaleInterval(n, j - 1, x / 10);
      var a, b := Scale(n, j - 1), Scale(n + 1, j - 1);
      assert 10 * a <= x < 10 * b <==> a <= x / 10 < b;
    }
  }

  lemma {:induction false} ScaleBound(n: nat, k: nat, j: nat)
    requires n <= Pow10(k)
    ensures Scale(n, j) <= Pow10(k + j)
  {
    if j > 0 {
      ScaleBound(n, k, j - 1);
    }
  }

  lemma {:induction false} ScaleMonotone(m: nat, n: nat, j: nat)
    requires m <= n
    ensures Scale(m, j) <= Scale(n, j)
  {
    if j > 0 {
      ScaleMonotone(m, n, j - 1);
    }
  }

  lemma {:induction false} ScaleTen(n: nat, j: nat)
    ensures Scale(10 * n, j) == Scale(n, j + 1)
  {
    if j > 0 {
      ScaleTen(n, j - 1);
    }
  }

  lemma {:induction false} PaddedPrefix(x: nat, k: nat, j: nat)
    ensures Padded(x, k + j)[..k] == Padded(Shorten(x, j), k)
  {
    if j > 0 {
      PaddedPrefix(x / 10, k, j - 1);
      assert Padded(x, k + j)[..k] == Padded(x / 10, k + j - 1)[..k];
    } else {
      assert Padded(x, k)[..k] == Padded(x, k);
    }
  }

  lemma {:induction false} ShortenBound(x: nat, k: nat, j: nat)
    requires x < Pow10(k + j)
    ensures Shorten(x, j) < Pow10(k)
  {
    if j > 0 {
      assert x / 10 < Pow10(k + j - 1);
      ShortenBound(x / 10, k, j - 1);
    }
  }

  /** The half-open range of a k-digit prefix holds exactly the numbers whose
      (k+j)-digit zero-padded text starts with that prefix. */
  lemma PrefixInterval(n: nat, k: nat, j: nat, x: nat)
    requires n < Pow10(k) && x < Pow10(k + j)
    ensures Scale(n, j) <= x < Scale(n + 1, j) <==> Padded(n, k) <= Padded(x, k + j)
  {
    ScaleInterval(n, j, x);
    PaddedPrefix(x, k, j);
    ShortenBound(x, k, j);
    ValueOfPadded(n, k);
    ValueOfPadded(Shorten(x, j), k);
    assert Padded(n, k) <= Padded(x, k + j) <==> Padded(n, k) == Padded(x, k + j)[..k];
  }

  lemma {:induction false} Pow10Monotone(a: nat, b: nat)
    requires a <= b
    ensures Pow10(a) <= Pow10(b)
  {
    if a > 0 {
      Pow10Monotone(a - 1, b - 1);
    }
  }

  lemma ParsedBound(value: string)
    requires ParseU64(value).Some?
    ensures value != "" && ParseU64(value).value < Pow10(|value|)
  {
    var pre, digits, post := ParsedIsSurrounded(value);
    ValueBound(digits);
    Pow10Monotone(|digits|, |value|);
  }

  /** The prefix a request value stands for: its number, zero padded to the
      length of the value. For a value made of digits that is the value. */
  function PrefixText(value: string): string
    requires ParseU64(value).Some?
  {
    Padded(ParseU64(value).value, |value|)
  }

  lemma DigitsAreTheirPrefix(value: string)
    requires AllDigits(value) && value != "" && |value| <= RN_DIGITS
    ensures ParseU64(value) == Some(Value(value)) && PrefixText(value) == value
  {
    ValueBound(value);
    Pow10Monotone(|value|, RN_DIGITS);
    assert Pow10(RN_DIGITS) < U64_LIMIT;
    assert Surrounds(value, "", value, "");
    ParseSurrounded(value, "", value, "");
    PaddedOfValue(value);
  }

  /** The range of the numbers that continue the k digits of n. */
  ghost predicate IsRangeOf(n: nat, k: nat, q: Range)
    requires k <= RN_DIGITS
  {
    q.from == Scale(n, RN_DIGITS - k) && q.to == Scale(n + 1, RN_DIGITS - k)
  }

  /** Translate one prefix parameter. Nothing overflows, both ends fit the packed
      34-bit field, and the range is the set of ten-digit routing numbers that
      start with the prefix. */
  method OnQueryParam(value: string) returns (range: Option<Range>)
    ensures range.Some? <==> |value| <= RN_DIGITS && ParseU64(value).Some?
    ensures range.Some? ==> range.value.from < range.value.to <= Pow10(RN_DIGITS) < U34_LIMIT
    ensures range.Some? ==> IsRangeOf(ParseU64(value).value, |value|, range.value)
    ensures range.Some? ==> forall rn: nat :: rn < Pow10(RN_DIGITS) ==>
              (range.value.from <= rn < range.value.to <==> PrefixText(value) <= Padded(rn, RN_DIGITS))
  {
    hide *;
    TenDigits();
    if |value| > RN_DIGITS {
      return None;
    }
    var parsed := ParseU64(value);
    if parsed.None? {
      return None;
    }
    ParsedBound(value);
    ghost var n := parsed.value;
    var zeros := RN_DIGITS - |value|;
    ScaleStep(n, |value|, 0);
    var from, to := parsed.value, parsed.value + 1;
    for i := 0 to zeros
      invariant from == Scale(n, i) < Scale(n + 1, i) == to <= Pow10(RN_DIGITS)
    {
      ScaleStep(n, |value|, i + 1);
      from := from * 10;
      to := to * 10;
    }
    forall rn: nat | rn < Pow10(RN_DIGITS)
      ensures from <= rn < to <==> PrefixText(value) <= Padded(rn, RN_DIGITS)
    {
      PrefixInterval(n, |value|, zeros, rn);
      PrefixTextIs(value);
    }
    range := Some(Range(from, to));
    assert IsRangeOf(n, |value|, range.value) by { RangeIs(n, |value|, range.value); }
  }

  lemma RangeIs(n: nat, k: nat, q: Range)
    requires k <= RN_DIGITS
    ensures IsRangeOf(n, k, q) <==> q.from == Scale(n, RN_DIGITS - k) && q.to == Scale(n + 1, RN_DIGITS - k)
  {
  }

  lemma TenDigits()
    ensures RN_DIGITS == 10 && Pow10(RN_DIGITS) == 10_000_000_000 < U34_LIMIT < U64_LIMIT
  {
  }

  lemma PrefixTextIs(value: string)
    requires ParseU64(value).Some?
    ensures PrefixText(value) == Padded(ParseU64(value).value, |value|)
  {
  }

  lemma ScaleStep(n: nat, k: nat, j: nat)
    requires n < Pow10(k) && k + j <= RN_DIGITS
    ensures j == 0 ==> Scale(n, j) == n && Scale(n + 1, j) == n + 1
    ensures j > 0 ==> Scale(n, j) == 10 * Scale(n, j - 1) && Scale(n + 1, j) == 10 * Scale(n + 1, j - 1)
    ensures Scale(n + 1, j) <= Pow10(RN_DIGITS)
  {
    hide Pow10;
    ScaleBound(n + 1, k, j);
    Pow10Monotone(k + j, RN_DIGITS);
  }

  // ------------------------------------------------- partition by digit

  function PrefixAnswer(rows: seq<Row>, p: string): seq<Row>
    requires AllDigits(p) && |p| <= RN_DIGITS
  {
    var zeros := RN_DIGITS - |p|;
    InverseRows(rows, Scale(Value(p), zeros), Scale(Value(p) + 1, zeros))
  }

  /** The answers for p0, p1, ... up to but without digit d, in order. */
  function ByNextDigit(rows: seq<Row>, p: string, d: nat): seq<Row>
    requires AllDigits(p) && |p| < RN_DIGITS && d <= 10
  {
    if d == 0 then [] else ByNextDigit(rows, p, d - 1) + PrefixAnswer(rows, p + [DigitChar(d - 1)])
  }

  lemma NoRange(rows: seq<Row>, at: nat)
    ensures InverseRows(rows, at, at) == []
  {
    InRangeEmpty(rows, at, at);
  }

  lemma AnswerIs(rows: seq<Row>, p: string, n: nat, zeros: nat)
    requires AllDigits(p) && |p| + zeros == RN_DIGITS && Value(p) == n
    ensures PrefixAnswer(rows, p) == InverseRows(rows, Scale(n, zeros), Scale(n + 1, zeros))
  {
    hide InverseRows, Scale, Value;
  }

  lemma AnswerForNextDigit(rows: seq<Row>, p: string, d: nat)
    requires AllDigits(p) && |p| < RN_DIGITS && d < 10
    ensures PrefixAnswer(rows, p + [DigitChar(d)]) ==
            InverseRows(rows, Scale(10 * Value(p) + d, RN_DIGITS - |p| - 1),
                Scale(10 * Value(p) + d + 1, RN_DIGITS - |p| - 1))
  {
    hide InverseRows, Scale, Value, DigitChar, PrefixAnswer;
    ValueOfExtension(p, d);
    AnswerIs(rows, p + [DigitChar(d)], 10 * Value(p) + d, RN_DIGITS - |p| - 1);
  }

  lemma ValueOfExtension(p: string, d: nat)
    requires AllDigits(p) && d < 10
    ensures AllDigits(p + [DigitChar(d)]) && Value(p + [DigitChar(d)]) == 10 * Value(p) + d
  {
    var q := p + [DigitChar(d)];
    assert q[..|q| - 1] == p;
  }

  lemma {:induction false} ByNextDigitIsRange(rows: seq<Row>, p: string, d: nat)
    requires AllDigits(p) && |p| < RN_DIGITS && d <= 10
    ensures ByNextDigit(rows, p, d) ==
            InverseRows(rows, Scale(10 * Value(p), RN_DIGITS - |p| - 1), Scale(10 * Value(p) + d, RN_DIGITS - |p| - 1))
  {
    hide InverseRows, Scale, Value, PrefixAnswer;
    var zeros, n := RN_DIGITS - |p| - 1, 10 * Value(p);
    if d == 0 {
      NoRange(rows, Scale(n, zeros));
    } else {
      ByNextDigitIsRange(rows, p, d - 1);
      AnswerForNextDigit(rows, p, d - 1);
      ScaleMonotone(n, n + d - 1, zeros);
      ScaleMonotone(n + d - 1, n + d, zeros);
      InverseRowsSplit(rows, Scale(n, zeros), Scale(n + d - 1, zeros), Scale(n + d, zeros));
    }
  }

  /** The answer for a prefix shorter than ten digits is the concatenation of
      the answers for its ten one-digit extensions. */
  lemma PrefixSplitsByDigit(rows: seq<Row>, p: string)
    requires AllDigits(p) && |p| < RN_DIGITS
    ensures PrefixAnswer(rows, p) == ByNextDigit(rows, p, 10)
  {
    hide InverseRows, Scale, ByNextDigit;
    ByNextDigitIsRange(rows, p, 10);
    ScaleTen(Value(p), RN_DIGITS - |p| - 1);
    ScaleTen(Value(p) + 1, RN_DIGITS - |p| - 1);
  }

  /** A prefix answer holds exactly the rows whose padded rn starts with it. */
  lemma PrefixAnswerExact(rows: seq<Row>, p: string, r: Row)
    requires AllDigits(p) && |p| <= RN_DIGITS && r.rn < Pow10(RN_DIGITS)
    ensures multiset(PrefixAnswer(rows, p))[r] == if p <= Padded(r.rn, RN_DIGITS) then multiset(rows)[r] else 0
  {
    hide InverseRows, Scale, Padded, Pow10;
    var zeros := RN_DIGITS - |p|;
    ValueBound(p);
    PaddedOfValue(p);
    PrefixInterval(Value(p), |p|, zeros, r.rn);
    InverseRowsExact(rows, Scale(Value(p), zeros), Scale(Value(p) + 1, zeros), r);
  }

  // ------------------------------------------------------- response body

  const FLUSH_LIMIT: nat := 1000

  function Line(r: Row, json: bool): string {
    if json then "  {\"pn\": \"" + Digits(r.pn) + "\", \"rn\": \"" + Digits(r.rn) + "\"},\n"
    else Digits(r.pn) + "," + Digits(r.rn) + "\n"
  }

  function Lines(rows: seq<Row>, json: bool): string {
    if rows == [] then "" else Line(rows[0], json) + Lines(rows[1..], json)
  }

  /** Drain a cursor into the record buffer, flushing it to the client whenever
      it has grown beyond the limit: the flushes lose and reorder nothing. */
  method SendBody(db: Mapping, json: bool, sent0: string, record0: string) returns (sent: string, record: string)
    requires db.Valid()
    modifies db.Repr
    ensures db.Valid() && db.Output() == [] && fresh(db.Repr - old(db.Repr))
    ensures sent + record == sent0 + record0 + Lines(old(db.Output()), json)
    ensures exists text :: sent + record == sent0 + record0 + text && IsListing(text, old(db.Output()), json)
    ensures |record| <= FLUSH_LIMIT || record == record0
  {
    hide *;
    LinesAreListing(db.Output(), json);
    sent, record := sent0, record0;
    ghost var todo := db.Output();
    ghost var done := "";
    var more := db.HasRow();
    while more
      invariant db.Valid() && fresh(db.Repr - old(db.Repr))
      invariant db.Output() == todo && (more <==> todo != [])
      invariant sent + record == sent0 + record0 + done
      invariant done + Lines(todo, json) == Lines(old(db.Output()), json)
      invariant |record| <= FLUSH_LIMIT || record == record0
      decreases |todo|
    {
      var pn := db.CurrentPN();
      var rn := db.CurrentRN();
      var line := Line(Row(pn, rn), json);
      Join(sent, record, line);
      LinesStep(todo, json);
      Join(done, line, Lines(todo[1..], json));
      Join(sent0 + record0, done, line);
      done, todo := done + line, todo[1..];
      record := record + line;
      if |record| > FLUSH_LIMIT {
        sent, record := sent + record, "";
      }
      db.Advance();
      more := db.HasRow();
    }
    LinesOfNone(json);
  }

  lemma LinesStep(rows: seq<Row>, json: bool)
    requires rows != []
    ensures Lines(rows, json) == Line(rows[0], json) + Lines(rows[1..], json)
  {
  }

  lemma LinesOfNone(json: bool)
    ensures Lines([], json) == ""
  {
  }

  lemma Join(a: string, b: string, c: string)
    ensures a + b + c == a + (b + c)
  {
  }

  /** What a database replies to a range, whether or not its numbers fit. */
  function Reply(rows: seq<Row>, q: Range): seq<Row>
    requires |rows| <= MAXROWS
  {
    IndexAnswer(rows, Phone34(q.from), Phone34(q.to))
  }

  lemma ReplyIs(rows: seq<Row>, q: Range)
    requires |rows| <= MAXROWS
    ensures Reply(rows, q) == IndexAnswer(rows, Phone34(q.from), Phone34(q.to))
  {
  }

  /** End to end for one prefix: a database of numbers that fit replies to the
      prefix's range with exactly the rows of the prefix. */
  lemma PrefixReply(rows: seq<Row>, p: string, q: Range)
    requires |rows| <= MAXROWS && DistinctKeys(rows) && AllFit(rows)
    requires AllDigits(p) && p != "" && |p| <= RN_DIGITS && IsRangeOf(Value(p), |p|, q)
    ensures Reply(rows, q) == PrefixAnswer(rows, p)
  {
    hide IndexAnswer, InverseRows, Scale, Value;
    ValueBound(p);
    TenDigits();
    ScaleBound(Value(p) + 1, |p|, RN_DIGITS - |p|);
    ScaleMonotone(Value(p), Value(p) + 1, RN_DIGITS - |p|);
    FittingAnswer(rows, q.from, q.to);
  }

  function Answers(us: seq<Row>, ca: seq<Row>, query: seq<Range>, json: bool): string
    requires |us| <= MAXROWS && |ca| <= MAXROWS
  {
    if query == [] then ""
    else
      var q := query[|query| - 1];
      Answers(us, ca, query[..|query| - 1], json)
      + Lines(Reply(us, q), json) + Lines(Reply(ca, q), json)
  }

  /** What the client receives: per range the US rows, then the Canadian rows. */
  function Response(us: seq<Row>, ca: seq<Row>, query: seq<Range>, json: bool): string
    requires |us| <= MAXROWS && |ca| <= MAXROWS
  {
    if json then "[\n" + Answers(us, ca, query, json) + "]\n" else Answers(us, ca, query, json)
  }

  lemma Footprint(db: Mapping)
    requires db.Valid()
    ensures db in db.Repr && db.data_ !in db.Repr && |db.data_.rows| <= MAXROWS
  {
  }

  lemma RowsAreBounded(data: Data)
    requires data.Built()
    ensures |data.rows| <= MAXROWS
  {
  }

  /** One range for one country: open, drain. */
  method SendRange(db: Mapping, q: Range, json: bool, sent0: string, record0: string)
      returns (sent: string, record: string)
    requires db.Valid()
    modifies db.Repr
    ensures db.Valid() && fresh(db.Repr - old(db.Repr))
    ensures sent + record == sent0 + record0 + Lines(Reply(db.data_.rows, q), json)
  {
    hide *;
    Footprint(db);
    db.InverseRNs(q.from, q.to);
    Footprint(db);
    ReplyIs(db.data_.rows, q);
    sent, record := SendBody(db, json, sent0, record0);
  }

  method OnRequest(usData: Data, caData: Data, prefetch: nat, query: seq<Range>, json: bool) returns (body: string)
    requires usData.Built() && caData.Built() && prefetch > 0
    ensures body == Response(usData.rows, caData.rows, query, json)
    ensures IsBody(body, Replies(usData.rows, caData.rows, query), json)
    ensures |query| == 1 ==> IsBody(body, Reply(usData.rows, query[0]) + Reply(caData.rows, query[0]), json)
    ensures !json ==> FileRows(0, body) == Some(Replies(usData.rows, caData.rows, query))
  {
    hide *;
    RowsAreBounded(usData);
    RowsAreBounded(caData);
    var us := new Mapping(usData, prefetch);
    var ca := new Mapping(caData, prefetch);
    var sent, record := "", "";
    if json {
      record := "[\n";
    }
    ghost var opening := record;
    AnswersOfNone(usData.rows, caData.rows, json);
    for i := 0 to |query|
      invariant us.Valid() && ca.Valid() && us.data_ == usData && ca.data_ == caData
      invariant us.Repr !! ca.Repr && fresh(us.Repr) && fresh(ca.Repr)
      invariant sent + record == opening + Answers(usData.rows, caData.rows, query[..i], json)
    {
      var q := query[i];
      Footprint(us);
      Footprint(ca);
      sent, record := SendRange(us, q, json, sent, record);
      sent, record := SendRange(ca, q, json, sent, record);
      AnswersStep(usData.rows, caData.rows, query, i, json, opening);
    }
    assert query[..|query|] == query;
    if json {
      Join(sent, record, "]\n");
      Join(opening, Answers(usData.rows, caData.rows, query, json), "]\n");
      record := record + "]\n";
    }
    body := sent + record;
    ResponseParts(usData.rows, caData.rows, query, json);
    ResponseIsBody(usData.rows, caData.rows, query, json);
    RepliesToOne(usData.rows, caData.rows, query);
  }

  lemma AnswersOfNone(us: seq<Row>, ca: seq<Row>, json: bool)
    requires |us| <= MAXROWS && |ca| <= MAXROWS
    ensures Answers(us, ca, [], json) == ""
  {
  }

  lemma AnswersStep(us: seq<Row>, ca: seq<Row>, query: seq<Range>, i: nat, json: bool, opening: string)
    requires i < |query| && |us| <= MAXROWS && |ca| <= MAXROWS
    ensures opening + Answers(us, ca, query[..i], json) + Lines(Reply(us, query[i]), json)
              + Lines(Reply(ca, query[i]), json)
            == opening + Answers(us, ca, query[..i + 1], json)
  {
    hide Lines, Reply;
    assert query[..i + 1][..i] == query[..i];
    var before, usLines, caLines := Answers(us, ca, query[..i], json),
        Lines(Reply(us, query[i]), json), Lines(Reply(ca, query[i]), json);
    assert Answers(us, ca, query[..i + 1], json) == before + usLines + caLines;
    Join(opening, before, usLines);
    Join(opening, before + usLines, caLines);
  }

  lemma ResponseParts(us: seq<Row>, ca: seq<Row>, query: seq<Range>, json: bool)
    requires |us| <= MAXROWS && |ca| <= MAXROWS
    ensures Response(us, ca, query, json) ==
            (if json then "[\n" else "") + Answers(us, ca, query, json) + if json then "]\n" else ""
  {
  }

  // --------------------------------------------------- reading the body back

  /** One line of text for each row: the two numbers in decimal, bare or as the
      fields of an object, pn first. */
  ghost predicate IsListing(text: string, rows: seq<Row>, json: bool) {
    var lines := Split(text, '\n');
    && |lines| == |rows| + 1 && lines[|rows|] == ""
    && forall i :: 0 <= i < |rows| ==>
         lines[i] ==
         if json then "  {\"pn\": \"" + Digits(rows[i].pn) + "\", \"rn\": \"" + Digits(rows[i].rn) + "\"},"
         else Digits(rows[i].pn) + "," + Digits(rows[i].rn)
  }

  /** A listing, for objects between brackets on lines of their own. */
  ghost predicate IsBody(body: string, rows: seq<Row>, json: bool) {
    if json then exists text :: body == "[\n" + text + "]\n" && IsListing(text, rows, true)
    else IsListing(body, rows, false)
  }

  /** The rows of all replies: for each range first the US rows. */
  function Replies(us: seq<Row>, ca: seq<Row>, query: seq<Range>): seq<Row>
    requires |us| <= MAXROWS && |ca| <= MAXROWS
  {
    if query == [] then []
    else
      var q := query[|query| - 1];
      Replies(us, ca, query[..|query| - 1]) + Reply(us, q) + Reply(ca, q)
  }

  lemma RepliesToOne(us: seq<Row>, ca: seq<Row>, query: seq<Range>)
    requires |us| <= MAXROWS && |ca| <= MAXROWS
    ensures |query| == 1 ==> Replies(us, ca, query) == Reply(us, query[0]) + Reply(ca, query[0])
  {
    hide Reply;
    if |query| == 1 {
      assert Replies(us, ca, query[..0]) == [];
    }
  }

  /** The replies to more ranges come behind those to the first. */
  lemma {:induction false} RepliesJoin(us: seq<Row>, ca: seq<Row>, a: seq<Range>, b: seq<Range>)
    requires |us| <= MAXROWS && |ca| <= MAXROWS
    ensures Replies(us, ca, a + b) == Replies(us, ca, a) + Replies(us, ca, b)
  {
    hide Reply;
    if b == [] {
      assert a + b == a;
    } else {
      var front := b[..|b| - 1];
      assert (a + b)[..|a + b| - 1] == a + front;
      RepliesJoin(us, ca, a, front);
      var q := b[|b| - 1];
      assert Replies(us, ca, a) + Replies(us, ca, front) + Reply(us, q) + Reply(ca, q)
          == Replies(us, ca, a) + (Replies(us, ca, front) + Reply(us, q) + Reply(ca, q));
    }
  }

  lemma LineHasNoFeed(r: Row, json: bool)
    ensures var t := Line(r, json);
      && t == (if json then "  {\"pn\": \"" + Digits(r.pn) + "\", \"rn\": \"" + Digits(r.rn) + "\"},"
               else Digits(r.pn) + "," + Digits(r.rn)) + ['\n']
      && '\n' !in t[..|t| - 1]
  {
    DigitsHaveNo(r.pn, '\n');
    DigitsHaveNo(r.rn, '\n');
    if json {
      assert Line(r, json) == "  {\"pn\": \"" + Digits(r.pn) + "\", \"rn\": \"" + Digits(r.rn) + "\"}," + ['\n'];
    } else {
      assert Line(r, json) == Digits(r.pn) + "," + Digits(r.rn) + ['\n'];
    }
  }

  lemma {:induction false} LinesAreListing(rows: seq<Row>, json: bool)
    ensures IsListing(Lines(rows, json), rows, json)
  {
    hide Line, Digits;
    if rows == [] {
      SplitNothing();
    } else {
      var t, rest := Line(rows[0], json), Lines(rows[1..], json);
      LineHasNoFeed(rows[0], json);
      LinesAreListing(rows[1..], json);
      var first := t[..|t| - 1];
      assert t == first + ['\n'];
      SplitAt(first, rest, '\n');
      var lines, more := Split(Lines(rows, json), '\n'), Split(rest, '\n');
      assert lines == [first] + more;
      forall i | 0 <= i < |rows| ensures lines[i] == if i == 0 then first else more[i - 1] {
      }
    }
  }

  lemma SplitNothing()
    ensures Split("", '\n') == [""]
  {
  }

  lemma {:induction false} LinesJoin(a: seq<Row>, b: seq<Row>, json: bool)
    ensures Lines(a + b, json) == Lines(a, json) + Lines(b, json)
  {
    hide Line;
    if a == [] {
      assert a + b == b;
      LinesOfNone(json);
      assert "" + Lines(b, json) == Lines(b, json);
    } else {
      assert (a + b)[1..] == a[1..] + b;
      LinesJoin(a[1..], b, json);
      Join(Line(a[0], json), Lines(a[1..], json), Lines(b, json));
    }
  }

  lemma {:induction false} AnswersAreLines(us: seq<Row>, ca: seq<Row>, query: seq<Range>, json: bool)
    requires |us| <= MAXROWS && |ca| <= MAXROWS
    ensures Answers(us, ca, query, json) == Lines(Replies(us, ca, query), json)
  {
    hide Reply, Lines;
    if query == [] {
      LinesOfNone(json);
    } else {
      var front, q := query[..|query| - 1], query[|query| - 1];
      AnswersAreLines(us, ca, front, json);
      LinesJoin(Replies(us, ca, front), Reply(us, q), json);
      LinesJoin(Replies(us, ca, front) + Reply(us, q), Reply(ca, q), json);
    }
  }

  lemma ResponseIsBody(us: seq<Row>, ca: seq<Row>, query: seq<Range>, json: bool)
    requires |us| <= MAXROWS && |ca| <= MAXROWS
    ensures IsBody(Response(us, ca, query, json), Replies(us, ca, query), json)
    ensures !json ==> FileRows(0, Response(us, ca, query, json)) == Some(Replies(us, ca, query))
  {
    hide Answers, Replies, Lines, IsListing, FileRows;
    AnswersAreLines(us, ca, query, json);
    LinesAreListing(Replies(us, ca, query), json);
    LinesReadBack(0, Replies(us, ca, query));
  }

  /** The numbers in the lines are the rows'. */
  lemma {:induction false} LinesReadBack(n: nat, rows: seq<Row>)
    ensures FileRows(n, Lines(rows, false)) == Some(rows)
    decreases |rows|
  {
    if rows != [] {
      var r, rest := rows[0], Lines(rows[1..], false);
      var line := Digits(r.pn) + "," + Digits(r.rn);
      assert Lines(rows, false) == line + "\n" + rest;
      DigitsHaveNo(r.pn, '\n');
      DigitsHaveNo(r.rn, '\n');
      JoinedLine(line, rest);
      LineColumns(r);
      LinesReadBack(n + 1, rows[1..]);
      assert [r] + rows[1..] == rows;
    }
  }

  lemma LineColumns(r: Row)
    ensures Columns(Digits(r.pn) + "," + Digits(r.rn)) == Some([r.pn, r.rn])
  {
    hide ParseU64;
    DigitsHaveNo(r.pn, ',');
    DigitsHaveNo(r.rn, ',');
    SplitAt(Digits(r.pn), Digits(r.rn), ',');
    SplitWithout(Digits(r.rn), ',');
    ParseDigits(r.pn, "");
    ParseDigits(r.rn, "");
    assert Digits(r.pn) + "" == Digits(r.pn) && Digits(r.rn) + "" == Digits(r.rn);
    var line := Digits(r.pn) + "," + Digits(r.rn);
    assert Split(line, ',') == [Digits(r.pn), Digits(r.rn)];
    ParseOne(Digits(r.rn));
    assert [Digits(r.pn), Digits(r.rn)][1..] == [Digits(r.rn)];
    assert [r.pn] + [r.rn] == [r.pn, r.rn];
  }
}
