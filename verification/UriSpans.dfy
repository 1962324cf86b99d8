/** Everything the URI parser records lies inside the text it was given. */
module UriSpans {
  import opened Decimal
  import opened Chars
  import opened UriParser

  // -------------------------------------------------------------- invariant

  predicate Inside(span: Span, n: int) {
    0 <= span.s && 0 <= span.len && span.s + span.len <= n
  }

  ghost predicate MapInside(spans: map<Name, Span>, n: int) {
    forall k :: k in spans ==> Inside(spans[k], n)
  }

  ghost predicate UnknownInside(unknown: seq<(Span, Span)>, n: int) {
    && |unknown| <= MAX_U_PARAMS
    && forall i :: 0 <= i < |unknown| ==> Inside(unknown[i].0, n) && Inside(unknown[i].1, n)
  }

  /** All pieces of a URI lie within the first n characters, and its list of
      unknown parameters within its fixed size. */
  ghost predicate UriInside(uri: Uri, n: int) {
    && Inside(uri.user, n) && Inside(uri.passwd, n) && Inside(uri.host, n) && Inside(uri.port, n)
    && Inside(uri.params, n) && Inside(uri.headers, n)
    && MapInside(uri.names, n) && MapInside(uri.vals, n) && UnknownInside(uri.unknown, n)
  }

  /** States in front of all parameters and headers. */
  predicate Early(st: State) {
    st.INIT? || st.USER? || st.PASSWORD? || st.PASSWORD_ALPHA? || st.HOST? || st.HOST_P? || st.HOST6_P? || st.HOST6_END?
    || st.PORT?
  }

  /** What holds whenever p characters have been read. */
  ghost predicate Sane(m: Machine, p: int) {
    && 0 <= m.s <= p && 0 <= m.b <= p && 0 <= m.v <= p
    && (m.pass == 0 || 0 < m.pass < p)
    && (m.pass != 0 && !m.foundUser ==> m.uri.host.s <= m.pass && !Early(m.state))
    && (m.errorHeaders ==> m.state.HEADERS?)
    && UriInside(m.uri, p)
  }

  lemma Later(uri: Uri, n: int, n': int)
    requires UriInside(uri, n) && n <= n'
    ensures UriInside(uri, n')
  {
  }

  lemma UnknownRecorded(m: Machine, p: int)
    requires Sane(m, p)
    ensures UriInside(RecordUnknown(m, p), p) && RecordUnknown(m, p).host == m.uri.host
  {
  }

  lemma ValueRecorded(m: Machine, p: int)
    requires Sane(m, p)
    ensures UriInside(RecordValue(m, p), p) && RecordValue(m, p).host == m.uri.host
  {
  }

  lemma RecordedInside(m: Machine, p: int)
    requires Sane(m, p)
    ensures UriInside(Recorded(m, p), p) && Recorded(m, p).host == m.uri.host
  {
    hide ClassOf, RecordUnknown, RecordValue, Early;
    UnknownRecorded(m, p);
    ValueRecorded(m, p);
  }

  lemma AtSign(m: Machine, p: int)
    requires Sane(m, p) && StillAtUser(m, p).Some?
    ensures Sane(StillAtUser(m, p).value, p + 1)
  {
    hide ClassOf;
  }

  lemma SelectSane(m: Machine, p: int)
    requires Sane(m, p)
    ensures Sane(SelectParam(m), p) && SelectParam(m).state == m.state
  {
    hide ClassOf;
  }

  /** The states of parameters and headers come after the host. */
  lemma LateStates()
    ensures !Early(PARAM) && !Early(HEADERS) && !Early(VAL_P) && !Early(PARAM_P) && Early(HOST)
  {
  }

  lemma HostBefore(uri: Uri, n: int)
    requires UriInside(uri, n)
    ensures uri.host.s <= n
  {
  }

  lemma ParamsRecorded(uri: Uri, p: int, s: int)
    requires UriInside(uri, p) && 0 <= s <= p
    ensures UriInside(uri.(params := Span(s, p - s)), p + 1)
  {
    Later(uri, p, p + 1);
  }

  lemma SeparatorSane(m: Machine, c: char, p: int)
    requires Sane(m, p) && 0 < p && Separator(c) && StepSeparator(m, c, p).Some? && !m.errorHeaders
    ensures Sane(StepSeparator(m, c, p).value, p + 1)
  {
    hide ClassOf, Early, Recorded, UriInside;
    LateStates();
    if c == '@' {
      AtSign(m, p);
    } else if c == ':' {
      HostBefore(m.uri, p);
      Later(m.uri, p, p + 1);
    } else {
      RecordedInside(m, p);
      Later(Recorded(m, p), p, p + 1);
      ParamsRecorded(Recorded(m, p), p, m.s);
    }
  }

  /** Entering a parameter state that comes behind the host. */
  lemma TextSane(m: Machine, c: char, p: int)
    requires Sane(m, p) && 0 < p && StepText(m, c, p).Some? && !m.errorHeaders
    ensures Sane(StepText(m, c, p).value, p + 1)
  {
    hide ClassOf, Early, UriInside, LetterEdge, ExactEdge, ValueEdge, StartEdge;
    LateStates();
    Later(m.uri, p, p + 1);
    StartIsLate(Lower(c));
    LetterIsLate(m.state, Lower(c));
    ExactIsLate(m.state, c);
    ValueIsLate(m.state, Lower(c));
    UnknownIsLate(m.state);
  }

  lemma StartIsLate(c: char)
    ensures !Early(StartEdge(c))
  {
  }

  lemma LetterIsLate(st: State, c: char)
    ensures !Early(LetterEdge(st, c))
  {
  }

  lemma ExactIsLate(st: State, c: char)
    ensures !Early(ExactEdge(st, c))
  {
  }

  lemma ValueIsLate(st: State, c: char)
    ensures !Early(ValueEdge(st, c))
  {
  }

  lemma UnknownIsLate(st: State)
    ensures ClassOf(st).Unknown? || ClassOf(st).UnknownValue? ==> !Early(st) && !Early(PARAM_VAL_P)
  {
  }

  lemma ParamSane(m: Machine, c: char, p: int)
    requires Sane(m, p) && 0 < p && StepParam(m, c, p).Some? && !m.errorHeaders
    ensures Sane(StepParam(m, c, p).value, p + 1)
  {
    hide ClassOf, Early, UriInside, StepSeparator, StepText;
    SelectSane(m, p);
    SelectQuiet(m);
    var m1 := SelectParam(m);
    if Separator(c) && !ClassOf(m1.state).MustEqual? {
      SeparatorSane(m1, c, p);
    } else {
      TextSane(m1, c, p);
    }
  }

  lemma SelectQuiet(m: Machine)
    ensures SelectParam(m).errorHeaders == m.errorHeaders
  {
  }

  lemma HeadersSane(m: Machine, c: char, p: int)
    requires Sane(m, p) && 0 < p && m.state.HEADERS? && StepHeaders(m, c, p).Some?
    ensures Sane(StepHeaders(m, c, p).value, p + 1)
  {
    hide ClassOf, Early, UriInside;
    LateStates();
    HostBefore(m.uri, p);
    Later(m.uri, p, p + 1);
    if c == '@' {
      AtSign(m, p);
    }
  }

  lemma EndHostSane(m: Machine, c: char, p: int)
    requires Sane(m, p) && Early(m.state) && EndHost(m, c, p).Some?
    ensures Sane(EndHost(m, c, p).value, p + 1)
  {
    hide ClassOf;
    LateStates();
  }

  /** A piece read to p, and the host that was first taken for a user. */
  lemma PieceRecorded(uri: Uri, s: int, p: int, portNo: nat)
    requires UriInside(uri, p) && 0 <= s <= p
    ensures UriInside(uri.(user := Span(s, p - s)), p + 1) && UriInside(uri.(passwd := Span(s, p - s)), p + 1)
    ensures UriInside(uri.(port := Span(s, p - s), portNo := portNo, host := uri.user, user := NO_SPAN), p + 1)
    ensures UriInside(uri.(port := Span(s, p - s), portNo := portNo), p + 1)
  {
    hide MapInside, UnknownInside;
    Later(uri, p, p + 1);
    LaterMaps(uri, p);
  }

  lemma LaterMaps(uri: Uri, n: int)
    requires UriInside(uri, n)
    ensures MapInside(uri.names, n + 1) && MapInside(uri.vals, n + 1) && UnknownInside(uri.unknown, n + 1)
  {
  }

  lemma UserSane(m: Machine, c: char, p: int)
    requires Sane(m, p) && Early(m.state) && StepUser(m, c, p).Some?
    ensures Sane(StepUser(m, c, p).value, p + 1)
  {
    hide ClassOf, EndHost, Early, UriInside;
    EarlyStates();
    LateStates();
    Later(m.uri, p, p + 1);
    PieceRecorded(m.uri, m.s, p, m.portNo % 0x1_0000);
    if EndHost(m, c, p).Some? {
      EndHostSane(m, c, p);
    }
  }

  lemma HostSane(m: Machine, c: char, p: int)
    requires Sane(m, p) && Early(m.state) && StepHost(m, c, p).Some?
    ensures Sane(StepHost(m, c, p).value, p + 1)
  {
    hide ClassOf, EndHost, Early, UriInside;
    EarlyStates();
    LateStates();
    Later(m.uri, p, p + 1);
    PieceRecorded(m.uri, m.s, p, m.portNo % 0x1_0000);
    if EndHost(m, c, p).Some? {
      EndHostSane(m, c, p);
    }
  }

  lemma EarlyStates()
    ensures Early(INIT) && Early(USER) && Early(PASSWORD) && Early(PASSWORD_ALPHA)
    ensures Early(HOST) && Early(HOST_P) && Early(HOST6_P) && Early(HOST6_END) && Early(PORT)
  {
  }

  lemma NotParamIsEarly(st: State)
    requires ClassOf(st).NotParam? && !st.HEADERS?
    ensures Early(st)
  {
  }

  lemma StepSane(m: Machine, c: char, p: int)
    requires Sane(m, p) && 0 < p && Step(m, c, p).Some?
    ensures Sane(Step(m, c, p).value, p + 1)
  {
    hide Sane, StepUser, StepHost, StepHeaders, StepParam;
    EarlyStates();
    Quiet(m, p);
    if m.state.INIT? || m.state.USER? || m.state.PASSWORD? || m.state.PASSWORD_ALPHA? {
      UserSane(m, c, p);
    } else if ClassOf(m.state).NotParam? {
      HeadersAreParams();
      NotParamIsEarly(m.state);
      HostSane(m, c, p);
    } else if m.state.HEADERS? {
      HeadersSane(m, c, p);
    } else {
      ParamSane(m, c, p);
    }
  }

  lemma HeadersAreParams()
    ensures !ClassOf(HEADERS).NotParam?
  {
  }

  lemma Quiet(m: Machine, p: int)
    requires Sane(m, p)
    ensures m.errorHeaders ==> m.state.HEADERS?
  {
  }

  lemma {:induction false} RunSane(m: Machine, buf: string, p: nat)
    requires Sane(m, p) && 0 < p <= |buf| && RunFrom(m, buf, p).Some?
    ensures Sane(RunFrom(m, buf, p).value, |buf|)
    decreases |buf| - p
  {
    hide Sane, Step;
    if p < |buf| {
      StepSane(m, buf[p], p);
      RunSane(Step(m, buf[p], p).value, buf, p + 1);
    }
  }

  lemma InitSane(kind: Kind, start: nat)
    requires 0 < start
    ensures Sane(InitMachine(kind, start), start)
  {
  }

  // ------------------------------------------------------- whole parse

  lemma ParamEndInside(m: Machine, p: int)
    requires Sane(m, p) && FinishParam(m, p).Some?
    ensures UriInside(FinishParam(m, p).value, p)
  {
    hide ClassOf, RecordUnknown, RecordValue;
    UnknownRecorded(m, p);
    ValueRecorded(m, p);
  }

  lemma EndInside(m: Machine, p: int)
    requires Sane(m, p) && Finish(m, p).Some?
    ensures UriInside(Finish(m, p).value, p)
  {
    hide FinishParam, ClassOf;
    if FinishParam(m, p).Some? {
      ParamEndInside(m, p);
    }
  }

  lemma SchemeInside(buf: string)
    requires Scheme(buf).Some?
    ensures 0 < Scheme(buf).value.1 <= |buf|
  {
    assert |":nena:service:"| == 14;
  }

  /** On every text that parses, all recorded pieces lie inside the text, and at
      most ten unknown parameters are recorded. */
  lemma ParsedStaysInside(buf: string)
    requires Parsed(buf).Some?
    ensures UriInside(Parsed(buf).value, |buf|) && |Parsed(buf).value.unknown| <= MAX_U_PARAMS
  {
    hide Sane, Scheme, RunFrom, Finish, InitMachine;
    SchemeInside(buf);
    var (kind, start) := Scheme(buf).value;
    InitSane(kind, start);
    var m := RunFrom(InitMachine(kind, start), buf, start).value;
    RunSane(InitMachine(kind, start), buf, start);
    EndInside(m, |buf|);
  }
}
