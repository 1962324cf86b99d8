/** What parsing the headers of a SIP message means, independent of the lists
    it builds: the fields found, the type flags set and where it stops. */
module HeaderSpec {
  import opened Decimal

  datatype HdrType =
    | Other | Via | To | From | CSeq | CallId | Contact | MaxForwards | Route | RecordRoute | Path
    | ContentType | ContentLength | Authorization | Expires | ProxyAuth | Supported | ProxyRequire
    | Unsupported | Allow | Event | Accept | AcceptLanguage | Organization | Priority | Subject
    | UserAgent | AcceptDisposition | ContentDisposition | Diversion | Rpid | ReferTo | SessionExpires
    | MinSe | Ppi | Pai | Privacy | RetryAfter | CallInfo | WwwAuthenticate | ProxyAuthenticate
    | MinExpires | FeatureCaps | Replaces

  /** Position of a type's flag in the 64-bit mask. */
  function Bit(t: HdrType): nat {
    match t
    case Other => 0 case Via => 1 case To => 3 case From => 4 case CSeq => 5 case CallId => 6 case Contact => 7
    case MaxForwards => 8 case Route => 9 case RecordRoute => 10 case Path => 11 case ContentType => 12
    case ContentLength => 13 case Authorization => 14 case Expires => 15 case ProxyAuth => 16 case Supported => 17
    case ProxyRequire => 18 case Unsupported => 19 case Allow => 20 case Event => 21 case Accept => 22
    case AcceptLanguage => 23 case Organization => 24 case Priority => 25 case Subject => 26 case UserAgent => 27
    case AcceptDisposition => 28 case ContentDisposition => 29 case Diversion => 30 case Rpid => 31
    case ReferTo => 32 case SessionExpires => 33 case MinSe => 34 case Ppi => 35 case Pai => 36 case Privacy => 37
    case RetryAfter => 38 case CallInfo => 39 case WwwAuthenticate => 40 case ProxyAuthenticate => 41
    case MinExpires => 42 case FeatureCaps => 43 case Replaces => 44
  }

  const VIA2_BIT: nat := 2
  const LAST_BIT: nat := 63

  /** The end-of-headers flag is all 64 bits. */
  const ALL_FLAGS: set<nat> := set b: nat | b <= LAST_BIT

  /** All instances are linked as siblings. */
  predicate IsMulti(t: HdrType) {
    t.Via? || t.Contact? || t.Route? || t.RecordRoute? || t.Path? || t.Authorization? || t.ProxyAuth?
    || t.ProxyRequire? || t.Supported? || t.Unsupported? || t.Allow? || t.Event? || t.Accept?
    || t.AcceptLanguage? || t.AcceptDisposition? || t.Diversion? || t.CallInfo? || t.WwwAuthenticate?
    || t.ProxyAuthenticate? || t.Ppi? || t.Pai? || t.FeatureCaps? || t.Replaces?
  }

  /** Neither hook nor flag. */
  predicate IsPlain(t: HdrType) {
    t.Other? || t.RetryAfter?
  }

  /** One header field: its place, and for a Via whether it names several hops. */
  datatype Field = Field(kind: HdrType, pos: nat, end: nat, more: bool)

  /** What the lexer finds at a position. */
  datatype Token = Bad | EndOfHeaders | Found(kind: HdrType, end: nat, more: bool)

  type Lexer = nat -> Token

  ghost predicate Progresses(lex: Lexer) {
    forall p: nat :: lex(p).Found? ==> p < lex(p).end
  }

  /** First position at or behind `from` of a field of the given type. */
  function Find(fields: seq<Field>, from: nat, kind: HdrType): (i: nat)
    requires from <= |fields|
    ensures from <= i <= |fields|
    ensures i < |fields| ==> fields[i].kind == kind
    ensures forall j :: from <= j < i ==> fields[j].kind != kind
    decreases |fields| - from
  {
    if from == |fields| || fields[from].kind == kind then from else Find(fields, from + 1, kind)
  }

  /** The second hop is known: from a first Via with several hops, or from a
      second Via header. */
  predicate SecondHopKnown(fields: seq<Field>) {
    var first := Find(fields, 0, Via);
    first < |fields| && (fields[first].more || Find(fields, first + 1, Via) < |fields|)
  }

  /** The flags a new field sets behind the fields found so far. */
  function FlagsOf(fields: seq<Field>, f: Field): set<nat> {
    if IsPlain(f.kind) then {}
    else if SecondHopKnown(fields + [f]) && !SecondHopKnown(fields) then {Bit(f.kind), VIA2_BIT}
    else {Bit(f.kind)}
  }

  lemma {:induction false} FindExtended(fields: seq<Field>, from: nat, kind: HdrType, f: Field)
    requires from <= |fields|
    ensures Find(fields + [f], from, kind) ==
            if Find(fields, from, kind) < |fields| then Find(fields, from, kind)
            else if f.kind == kind then |fields| else |fields| + 1
    decreases |fields| - from
  {
    if from < |fields| && fields[from].kind != kind {
      FindExtended(fields, from + 1, kind, f);
    }
  }

  /** When a field brings the second hop: as first Via with several hops, or as
      second Via behind one with a single hop. */
  lemma SecondHopStep(fields: seq<Field>, f: Field)
    ensures SecondHopKnown(fields + [f]) <==>
      SecondHopKnown(fields) || (f.kind.Via? && (f.more || Find(fields, 0, Via) < |fields|))
  {
    FindExtended(fields, 0, Via, f);
    var first := Find(fields, 0, Via);
    if first < |fields| {
      FindExtended(fields, first + 1, Via, f);
    }
  }

  /** State between two calls. */
  datatype Parse = Parse(pos: nat, flags: set<nat>, fields: seq<Field>, eoh: Option<nat>)

  const START: nat -> Parse := (pos: nat) => Parse(pos, {}, [], None)

  datatype Outcome = Done(state: Parse) | Failed(flags: set<nat>, fields: seq<Field>)

  /** Parse on until all wanted types are known or the headers or the text end. */
  function ParseOn(lex: Lexer, len: nat, st: Parse, wanted: set<nat>): Outcome
    requires Progresses(lex)
    decreases len - st.pos
  {
    if st.pos >= len || wanted <= st.flags then Done(st)
    else
      match lex(st.pos)
      case Bad => Failed(st.flags, st.fields)
      case EndOfHeaders => Done(st.(flags := st.flags + ALL_FLAGS, eoh := Some(st.pos)))
      case Found(kind, end, more) =>
        var f := Field(kind, st.pos, end, more);
        ParseOn(lex, len, Parse(end, st.flags + FlagsOf(st.fields, f), st.fields + [f], st.eoh), wanted)
  }

  /** One call; `next` asks for further instances of types already seen. */
  datatype Call = Call(wanted: set<nat>, next: bool)

  function ParseCall(lex: Lexer, len: nat, st: Parse, call: Call): Outcome
    requires Progresses(lex)
  {
    ParseOn(lex, len, if call.next then st.(flags := st.flags - call.wanted) else st, call.wanted)
  }

  ghost predicate AllSucceed(lex: Lexer, len: nat, st: Parse, calls: seq<Call>)
    requires Progresses(lex)
    decreases |calls|
  {
    calls == []
    || (ParseCall(lex, len, st, calls[0]).Done?
        && AllSucceed(lex, len, ParseCall(lex, len, st, calls[0]).state, calls[1..]))
  }

  ghost function AfterCalls(lex: Lexer, len: nat, st: Parse, calls: seq<Call>): Parse
    requires Progresses(lex) && AllSucceed(lex, len, st, calls)
    decreases |calls|
  {
    if calls == [] then st else AfterCalls(lex, len, ParseCall(lex, len, st, calls[0]).state, calls[1..])
  }

  // --------------------------------------------------------- resumability

  /** Everything from a position to the end of the headers. */
  datatype Whole = Whole(ok: bool, fields: seq<Field>, pos: nat, eoh: Option<nat>)

  function ParseWhole(lex: Lexer, len: nat, pos: nat, fields: seq<Field>, eoh: Option<nat>): Whole
    requires Progresses(lex)
    decreases len - pos
  {
    if pos >= len then Whole(true, fields, pos, eoh)
    else
      match lex(pos)
      case Bad => Whole(false, fields, pos, eoh)
      case EndOfHeaders => Whole(true, fields, pos, Some(pos))
      case Found(kind, end, more) => ParseWhole(lex, len, end, fields + [Field(kind, pos, end, more)], eoh)
  }

  function WholeOf(lex: Lexer, len: nat, st: Parse): Whole
    requires Progresses(lex)
  {
    ParseWhole(lex, len, st.pos, st.fields, st.eoh)
  }

  /** Flags that no field sets are only set at the end of the headers. */
  ghost predicate Consistent(lex: Lexer, len: nat, st: Parse) {
    LAST_BIT in st.flags ==> st.pos < len && lex(st.pos).EndOfHeaders? && st.eoh == Some(st.pos)
  }

  lemma FieldFlags(fields: seq<Field>, f: Field)
    ensures LAST_BIT !in FlagsOf(fields, f)
  {
    hide SecondHopKnown;
  }

  /** A call leaves unchanged what the whole message parses to. */
  lemma {:induction false} ParseOnKeepsWhole(lex: Lexer, len: nat, st: Parse, wanted: set<nat>)
    requires Progresses(lex) && Consistent(lex, len, st)
    ensures var out := ParseOn(lex, len, st, wanted);
      if out.Done? then WholeOf(lex, len, out.state) == WholeOf(lex, len, st) && Consistent(lex, len, out.state)
      else !WholeOf(lex, len, st).ok
    decreases len - st.pos
  {
    hide FlagsOf;
    if st.pos < len && !(wanted <= st.flags) && lex(st.pos).Found? {
      var t := lex(st.pos);
      var f := Field(t.kind, st.pos, t.end, t.more);
      FieldFlags(st.fields, f);
      ParseOnKeepsWhole(lex, len, Parse(t.end, st.flags + FlagsOf(st.fields, f), st.fields + [f], st.eoh), wanted);
    }
  }

  /** Asking for the end of the headers parses the whole message. */
  lemma {:induction false} ParseAllIsWhole(lex: Lexer, len: nat, st: Parse)
    requires Progresses(lex) && Consistent(lex, len, st)
    ensures var out := ParseOn(lex, len, st, ALL_FLAGS); var whole := WholeOf(lex, len, st);
      && (out.Done? <==> whole.ok)
      && (out.Done? ==> Whole(true, out.state.fields, out.state.pos, out.state.eoh) == whole)
      && (out.Done? && out.state.pos < len ==> ALL_FLAGS <= out.state.flags)
    decreases len - st.pos
  {
    hide FlagsOf;
    if st.pos < len && !(ALL_FLAGS <= st.flags) && lex(st.pos).Found? {
      var t := lex(st.pos);
      var f := Field(t.kind, st.pos, t.end, t.more);
      FieldFlags(st.fields, f);
      ParseAllIsWhole(lex, len, Parse(t.end, st.flags + FlagsOf(st.fields, f), st.fields + [f], st.eoh));
    } else if st.pos < len && ALL_FLAGS <= st.flags {
      assert LAST_BIT in st.flags;
    }
  }

  lemma {:induction false} CallsKeepWhole(lex: Lexer, len: nat, st: Parse, calls: seq<Call>)
    requires Progresses(lex) && Consistent(lex, len, st) && AllSucceed(lex, len, st, calls)
    ensures WholeOf(lex, len, AfterCalls(lex, len, st, calls)) == WholeOf(lex, len, st)
    ensures Consistent(lex, len, AfterCalls(lex, len, st, calls))
    decreases |calls|
  {
    if calls != [] {
      var call := calls[0];
      var st' := if call.next then st.(flags := st.flags - call.wanted) else st;
      ParseOnKeepsWhole(lex, len, st', call.wanted);
      CallsKeepWhole(lex, len, ParseCall(lex, len, st, call).state, calls[1..]);
    }
  }

  /** Parsing is resumable: after any sequence of successful calls, with any flag
      sets and with or without `next`, asking for the end of the headers gives
      the fields and the stop position of asking for it at once. */
  lemma ParsingIsResumable(lex: Lexer, len: nat, pos: nat, calls: seq<Call>, next: bool)
    requires Progresses(lex) && AllSucceed(lex, len, START(pos), calls)
    ensures var once := ParseCall(lex, len, START(pos), Call(ALL_FLAGS, false));
      var late := ParseCall(lex, len, AfterCalls(lex, len, START(pos), calls), Call(ALL_FLAGS, next));
      && (once.Done? <==> late.Done?)
      && (once.Done? ==>
            && late.state.fields == once.state.fields
            && late.state.pos == once.state.pos
            && late.state.eoh == once.state.eoh
            && (once.state.pos < len ==> ALL_FLAGS <= late.state.flags && ALL_FLAGS <= once.state.flags))
  {
    var st := AfterCalls(lex, len, START(pos), calls);
    CallsKeepWhole(lex, len, START(pos), calls);
    ParseAllIsWhole(lex, len, START(pos));
    ParseAllIsWhole(lex, len, if next then st.(flags := st.flags - ALL_FLAGS) else st);
  }

  /** No call ever loses or reorders fields already found. */
  lemma {:induction false} FieldsOnlyGrow(lex: Lexer, len: nat, st: Parse, wanted: set<nat>)
    requires Progresses(lex)
    ensures var out := ParseOn(lex, len, st, wanted);
      st.fields <= if out.Done? then out.state.fields else out.fields
    decreases len - st.pos
  {
    hide FlagsOf;
    if st.pos < len && !(wanted <= st.flags) && lex(st.pos).Found? {
      var t := lex(st.pos);
      var f := Field(t.kind, st.pos, t.end, t.more);
      FieldsOnlyGrow(lex, len, Parse(t.end, st.flags + FlagsOf(st.fields, f), st.fields + [f], st.eoh), wanted);
    }
  }

  // -------------------------------------------- end of a folded header line

  predicate Folds(c: char) {
    c == ' ' || c == '\t'
  }

  /** A line feed in front of e that no continuation line follows. */
  ghost predicate EndsHeader(buf: string, e: nat) {
    0 < e <= |buf| && buf[e - 1] == '\n' && (e == |buf| || !Folds(buf[e]))
  }

  /** Find the end of a header that may be folded over several lines: the first
      position behind `start` that ends it, or none exactly if there is none. */
  method FindHeaderEnd(buf: string, start: nat) returns (end: Option<nat>)
    requires start <= |buf|
    ensures end.Some? ==> start < end.value && EndsHeader(buf, end.value)
    ensures forall e: nat :: start < e && (end.Some? ==> e < end.value) ==> !EndsHeader(buf, e)
  {
    var tmp := start;
    while true
      invariant start <= tmp <= |buf|
      invariant forall e: nat :: start < e <= tmp ==> !EndsHeader(buf, e)
      decreases |buf| - tmp
    {
      var p := tmp;
      while p < |buf| && buf[p] != '\n'
        invariant tmp <= p <= |buf|
        invariant forall k :: tmp <= k < p ==> buf[k] != '\n'
      {
        p := p + 1;
      }
      forall e: nat | start < e <= p ensures !EndsHeader(buf, e) {
        if e > tmp {
          assert buf[e - 1] != '\n';
        }
      }
      if p == |buf| {
        return None;
      }
      tmp := p + 1;
      if tmp == |buf| || !Folds(buf[tmp]) {
        return Some(tmp);
      }
    }
  }
}
