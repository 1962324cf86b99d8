/** Texts the URI parser refuses: which schemes it knows, and what may not stand
    behind the '@'. */
module UriRefused {
  import opened Decimal
  import opened Chars
  import opened UriParser
  import opened UriSpans
  import opened UriUserSplit
  import opened UriNames
  import opened UriParams
  import opened UriTail

  // ---------------------------------------------------------------- schemes

  /** What the parser takes for the colon of a scheme: setting a bit of every
      character makes a control character one as well. */
  predicate SchemeColon(c: char) {
    c == ':' || c as int == 26
  }

  lemma Or20Letter(c: char, l: char)
    requires 'a' <= l <= 'z'
    ensures Or20(c) == l <==> Lower(c) == l
  {
  }

  lemma Or20Colon(c: char)
    ensures Or20(c) == ':' <==> SchemeColon(c)
  {
  }

  lemma ThreeLetters(buf: string, w: string)
    requires |buf| >= 4 && |w| == 4 && w[3] == ':' && forall i :: 0 <= i < 3 ==> 'a' <= w[i] <= 'z'
    ensures SchemeIs(buf, w) <==> LowerText(buf[..3]) == w[..3] && SchemeColon(buf[3])
  {
    hide Or20, LowerText, SchemeColon, Lower;
    LowerTextLength(buf[..3]);
    forall i | 0 <= i < 3 ensures Or20(buf[i]) == w[i] <==> Lower(buf[i]) == w[i] {
      Or20Letter(buf[i], w[i]);
    }
    Or20Colon(buf[3]);
  }

  lemma FourLetters(buf: string)
    requires |buf| >= 4
    ensures SchemeIs(buf, "sips") <==> LowerText(buf[..4]) == "sips"
  {
    hide Or20, LowerText, Lower;
    LowerTextLength(buf[..4]);
    forall i | 0 <= i < 4 ensures Or20(buf[i]) == "sips"[i] <==> Lower(buf[i]) == "sips"[i] {
      Or20Letter(buf[i], "sips"[i]);
    }
  }

  /** Exactly the beginnings that are taken for a scheme, and where the rest of the
      text begins. */
  lemma SchemeExactly(buf: string)
    ensures |buf| < 5 ==> Scheme(buf) == None
    ensures |buf| >= 5 ==>
      && (Scheme(buf) == Some((Sip, 4)) <==> LowerText(buf[..3]) == "sip" && SchemeColon(buf[3]))
      && (Scheme(buf) == Some((Sips, 5)) <==> LowerText(buf[..4]) == "sips" && buf[4] == ':')
      && (Scheme(buf) == Some((Tel, 4)) <==> LowerText(buf[..3]) == "tel" && SchemeColon(buf[3]))
      && (Scheme(buf) == Some((UrnService, 12)) <==> LowerText(buf[..3]) == "urn" && ":service:" <= buf[3..])
      && (Scheme(buf) == Some((UrnNenaService, 17)) <==> LowerText(buf[..3]) == "urn" && ":nena:service:" <= buf[3..])
      && (Scheme(buf).Some? ==>
            Scheme(buf).value in {(Sip, 4), (Sips, 5), (Tel, 4), (UrnService, 12), (UrnNenaService, 17)})
  {
    hide SchemeIs, LowerText;
    if |buf| >= 5 {
      ThreeLetters(buf, "sip:");
      ThreeLetters(buf, "tel:");
      ThreeLetters(buf, "urn:");
      FourLetters(buf);
      LowerTextPrefix(buf[..4], 3);
      assert buf[..4][..3] == buf[..3];
      NotBoth(buf);
      SNoColon(buf);
    }
  }

  lemma NotBoth(buf: string)
    requires |buf| >= 5
    ensures ":service:" <= buf[3..] ==> buf[3] == ':' && !(":nena:service:" <= buf[3..])
    ensures ":nena:service:" <= buf[3..] ==> buf[3] == ':'
  {
    assert ":service:"[1] == 's' && ":nena:service:"[1] == 'n';
    assert ":service:"[0] == ':' && ":nena:service:"[0] == ':';
    assert buf[3..][0] == buf[3] && buf[3..][1] == buf[4];
  }

  lemma SNoColon(buf: string)
    requires |buf| >= 4
    ensures SchemeColon(buf[3]) ==> LowerText(buf[..4]) != "sips"
  {
    LowerTextLength(buf[..4]);
    assert buf[..4][3] == buf[3];
  }

  /** No text is parsed without one of these schemes. */
  lemma SchemeNeeded(buf: string)
    requires Parsed(buf).Some?
    ensures |buf| >= 5
    ensures (LowerText(buf[..3]) in {"sip", "tel"} && SchemeColon(buf[3]))
            || (LowerText(buf[..4]) == "sips" && buf[4] == ':')
            || (LowerText(buf[..3]) == "urn" && (":service:" <= buf[3..] || ":nena:service:" <= buf[3..]))
  {
    hide Scheme, LowerText, SchemeColon, ParseFrom;
    SchemeExactly(buf);
  }

  // -------------------------------------------------------- behind the '@'

  /** The text up to and including the '@'. */
  function Front(scheme: string, u: string, w: Option<string>): string {
    scheme + u + PortText(w) + "@"
  }

  ghost predicate FrontIs(scheme: string, kind: Kind, u: string, w: Option<string>) {
    && (kind.Sip? || kind.Sips?) && LowerText(scheme) == SchemeText(kind)
    && UserText(u) && (w.Some? ==> PasswordText(w.value))
  }

  /** A machine behind the '@'. */
  ghost predicate PastUser(m: Machine) {
    m.foundUser && !m.state.INIT? && !m.state.USER? && !m.state.PASSWORD? && !m.state.PASSWORD_ALPHA?
  }

  lemma BehindAt(scheme: string, kind: Kind, u: string, w: Option<string>, t: string) returns (m: Machine)
    requires FrontIs(scheme, kind, u, w)
    ensures var buf := Front(scheme, u, w) + t; var p := |Front(scheme, u, w)|;
      && (MissesEqual(u) ==> Parsed(buf) == None)
      && (!MissesEqual(u) ==> m.state == HOST && m.portNo == 0 && PastUser(m)
                              && (Result(m, buf, p) == None ==> Parsed(buf) == None))
  {
    hide RunFrom, Finish, Scheme, MissesEqual, AtHost, UserText, PasswordText, LowerText, InitMachine, Parsed, FixKind,
         PortText, SchemeText, UserParts;
    var buf := Front(scheme, u, w) + t;
    assert buf == scheme + (u + PortText(w) + "@" + t);
    SchemeNotEmpty(scheme, kind);
    SchemeFound(scheme, kind, u + PortText(w) + "@" + t);
    assert buf[|scheme|..] == u + PortText(w) + "@" + t;
    m := UserRun(buf, |scheme|, kind, u, w, t);
    ParsedIs(buf);
    if !MissesEqual(u) {
      HostMachine(m, UserParts(kind, |scheme|, u, w), |scheme| + |u| + |PortText(w)| + 1);
    }
  }

  lemma HostMachine(m: Machine, uri: Uri, p: nat)
    requires AtHost(m, uri, p)
    ensures m.state == HOST && m.portNo == 0 && PastUser(m)
  {
  }

  /** Nothing behind the '@' makes the machine look for a user again. */
  lemma StepPastUser(m: Machine, c: char, p: int)
    requires PastUser(m)
    ensures c == '@' ==> Step(m, c, p).None?
    ensures Step(m, c, p).Some? ==> PastUser(Step(m, c, p).value)
  {
    hide ClassOf, StepHost, StepHeaders, StepParam, PastUser;
    if ClassOf(m.state).NotParam? && !m.state.HEADERS? {
      HostPast(m, c, p);
    } else if m.state.HEADERS? {
      HeadersPast(m, c, p);
    } else {
      ParamPast(m, c, p);
    }
    PastDispatch(m, c, p);
  }

  lemma PastDispatch(m: Machine, c: char, p: int)
    requires PastUser(m)
    ensures Step(m, c, p) ==
            if m.state.HEADERS? then StepHeaders(m, c, p)
            else if ClassOf(m.state).NotParam? then StepHost(m, c, p) else StepParam(m, c, p)
  {
    hide StepHost, StepHeaders, StepParam;
  }

  lemma HostPast(m: Machine, c: char, p: int)
    requires PastUser(m)
    ensures c == '@' ==> StepHost(m, c, p).None?
    ensures StepHost(m, c, p).Some? ==> PastUser(StepHost(m, c, p).value)
  {
  }

  lemma HeadersPast(m: Machine, c: char, p: int)
    requires PastUser(m) && m.state.HEADERS?
    ensures c == '@' || c == ';' ==> StepHeaders(m, c, p).None?
    ensures StepHeaders(m, c, p).Some? ==>
        PastUser(StepHeaders(m, c, p).value) && StepHeaders(m, c, p).value.state == HEADERS
  {
  }

  lemma ParamPast(m: Machine, c: char, p: int)
    requires PastUser(m)
    ensures c == '@' ==> StepParam(m, c, p).None?
    ensures StepParam(m, c, p).Some? ==> PastUser(StepParam(m, c, p).value)
  {
    hide ClassOf, StepText, Recorded, PastUser, SelectParam;
    SelectPast(m);
    var m1 := SelectParam(m);
    if Separator(c) && !ClassOf(m1.state).MustEqual? {
      SeparatorPast(m1, c, p);
    } else {
      TextPast(m1, c, p);
    }
  }

  lemma SelectPast(m: Machine)
    requires PastUser(m)
    ensures PastUser(SelectParam(m))
  {
    hide ClassOf;
  }

  lemma SeparatorPast(m: Machine, c: char, p: int)
    requires PastUser(m) && Separator(c)
    ensures c == '@' ==> StepSeparator(m, c, p).None?
    ensures StepSeparator(m, c, p).Some? ==> PastUser(StepSeparator(m, c, p).value)
  {
    hide ClassOf, Recorded;
  }

  lemma TextPast(m: Machine, c: char, p: int)
    requires PastUser(m) && (Separator(c) ==> ClassOf(m.state).MustEqual?)
    ensures c == '@' ==> StepText(m, c, p).None?
    ensures StepText(m, c, p).Some? ==> PastUser(StepText(m, c, p).value)
  {
    hide ClassOf, LetterEdge, ExactEdge, ValueEdge, StartEdge, Early;
    TextKeepsFound(m, c, p);
    StartIsLate(Lower(c));
    LetterIsLate(m.state, Lower(c));
    ExactIsLate(m.state, c);
    ValueIsLate(m.state, Lower(c));
    UnknownIsLate(m.state);
    LateIsPast();
  }

  lemma TextKeepsFound(m: Machine, c: char, p: int)
    ensures StepText(m, c, p).Some? ==> StepText(m, c, p).value.foundUser == m.foundUser
  {
    hide ClassOf, LetterEdge, ExactEdge, ValueEdge, StartEdge;
  }

  lemma LateIsPast()
    ensures Early(INIT) && Early(USER) && Early(PASSWORD) && Early(PASSWORD_ALPHA)
  {
  }

  lemma {:induction false} AtRefuses(m: Machine, buf: string, p: nat, i: nat)
    requires PastUser(m) && p <= i < |buf| && buf[i] == '@'
    ensures Result(m, buf, p) == None
    decreases i - p
  {
    hide Step, Finish, PastUser, RunFrom, Result;
    StepPastUser(m, buf[p], p);
    ResultStep(m, buf, p);
    if p < i && Step(m, buf[p], p).Some? {
      AtRefuses(Step(m, buf[p], p).value, buf, p + 1, i);
    }
  }

  /** A second '@' is refused wherever it stands. */
  lemma SecondAtRefused(scheme: string, kind: Kind, u: string, w: Option<string>, t: string)
    requires FrontIs(scheme, kind, u, w) && '@' in t
    ensures Parsed(Front(scheme, u, w) + t) == None
  {
    hide FrontIs, Front, Parsed, MissesEqual, PastUser, Result;
    var buf, p := Front(scheme, u, w) + t, |Front(scheme, u, w)|;
    var m := BehindAt(scheme, kind, u, w, t);
    var i: nat :| i < |t| && t[i] == '@';
    assert buf[p + i] == t[i];
    if !MissesEqual(u) {
      AtRefuses(m, buf, p, p + i);
    }
  }

  /** The host must not be empty nor begin with one of these characters. */
  lemma EmptyHostRefused(scheme: string, kind: Kind, u: string, w: Option<string>, t: string)
    requires FrontIs(scheme, kind, u, w) && (t == "" || t[0] in ":;?&@")
    ensures Parsed(Front(scheme, u, w) + t) == None
  {
    hide FrontIs, Front, Parsed, MissesEqual, PastUser, Result;
    var buf, p := Front(scheme, u, w) + t, |Front(scheme, u, w)|;
    var m := BehindAt(scheme, kind, u, w, t);
    if !MissesEqual(u) {
      if t == "" {
        ResultEnds(m, buf, p);
      } else {
        assert buf[p] == t[0];
        ResultStep(m, buf, p);
      }
    }
  }

  /** The machine behind a host that more text follows. */
  lemma BehindHost(scheme: string, kind: Kind, u: string, w: Option<string>, h: string, t: string) returns (m: Machine)
    requires FrontIs(scheme, kind, u, w) && (PlainHost(h) || BracketedHost(h))
    ensures var buf := Front(scheme, u, w) + h + t; var p := |Front(scheme, u, w)| + |h|;
      && (MissesEqual(u) ==> Parsed(buf) == None)
      && (!MissesEqual(u) ==>
            && m.state == (if PlainHost(h) then HOST_P else HOST6_END) && m.portNo == 0 && PastUser(m)
            && (Result(m, buf, p) == None ==> Parsed(buf) == None))
  {
    hide FrontIs, Front, Parsed, MissesEqual, Result, PlainHost, BracketedHost, RunFrom;
    var front := Front(scheme, u, w);
    var buf := front + h + t;
    assert buf == front + (h + t);
    var n := BehindAt(scheme, kind, u, w, h + t);
    m := n;
    if !MissesEqual(u) {
      assert buf[|front|..|front| + |h|] == h;
      m := ReadEitherHost(n, buf, |front|, h);
      ResultMoves(n, buf, |front|, m, |front| + |h|);
    }
  }

  lemma ReadEitherHost(m0: Machine, buf: string, p: nat, h: string) returns (m: Machine)
    requires m0.state == HOST && (PlainHost(h) || BracketedHost(h))
    requires p + |h| <= |buf| && buf[p..p + |h|] == h
    ensures m == m0.(state := if PlainHost(h) then HOST_P else HOST6_END)
    ensures RunFrom(m0, buf, p) == RunFrom(m, buf, p + |h|)
  {
    hide RunFrom, PlainHost, BracketedHost;
    if PlainHost(h) {
      HostNotEmpty(h);
      m := ReadPlainHost(m0, buf, p, h, |h|);
    } else {
      m := ReadBracketedHost(m0, buf, p, h);
    }
  }

  lemma HostNotEmpty(h: string)
    requires PlainHost(h)
    ensures h != ""
  {
  }

  /** Behind a host only ':', ';' and '?' may follow. */
  lemma BehindHostRefused(scheme: string, kind: Kind, u: string, w: Option<string>, h: string, c: char, t: string)
    requires FrontIs(scheme, kind, u, w) && (PlainHost(h) || BracketedHost(h))
    requires c == '&' || c == '@' || (BracketedHost(h) && !PlainHost(h) && c !in ":;?")
    ensures Parsed(Front(scheme, u, w) + h + ([c] + t)) == None
  {
    hide FrontIs, Front, Parsed, MissesEqual, Result, PlainHost, BracketedHost;
    var buf, p := Front(scheme, u, w) + h + ([c] + t), |Front(scheme, u, w)| + |h|;
    var m := BehindHost(scheme, kind, u, w, h, [c] + t);
    assert buf[p] == c;
    ResultStep(m, buf, p);
  }

  /** A bracket that is not closed. */
  lemma OpenBracketRefused(scheme: string, kind: Kind, u: string, w: Option<string>, t: string)
    requires FrontIs(scheme, kind, u, w) && ']' !in t
    ensures Parsed(Front(scheme, u, w) + ("[" + t)) == None
  {
    hide FrontIs, Front, Parsed, MissesEqual, PastUser, Result;
    var front := Front(scheme, u, w);
    var buf, p := front + ("[" + t), |front|;
    var m := BehindAt(scheme, kind, u, w, "[" + t);
    assert buf[p] == '[';
    ResultStep(m, buf, p);
    forall i | p < i < |buf| ensures buf[i] != ']' {
      assert buf[i] == t[i - p - 1] && t[i - p - 1] in t;
    }
    NeverClosed(m.(state := HOST6_P), buf, p + 1);
  }

  lemma {:induction false} NeverClosed(m: Machine, buf: string, p: nat)
    requires m.state == HOST6_P && p <= |buf| && forall i :: p <= i < |buf| ==> buf[i] != ']'
    ensures Result(m, buf, p) == None
    decreases |buf| - p
  {
    hide Result;
    if p == |buf| {
      ResultEnds(m, buf, p);
    } else {
      ResultStep(m, buf, p);
      if Step(m, buf[p], p).Some? {
        NeverClosed(m, buf, p + 1);
      }
    }
  }

  /** A port must be a number: a character other than a digit, ';' or '?' behind
      the digits is refused, whatever follows. */
  lemma PortRefused(scheme: string, kind: Kind, u: string, w: Option<string>, h: string, d: string, c: char, t: string)
    requires FrontIs(scheme, kind, u, w) && (PlainHost(h) || BracketedHost(h))
    requires AllDigits(d) && !IsDigit(c) && c != ';' && c != '?'
    ensures Parsed(Front(scheme, u, w) + h + (":" + d + [c] + t)) == None
  {
    hide FrontIs, Front, Parsed, MissesEqual, Result, PlainHost, BracketedHost, RunFrom, Step, PastUser;
    var front, rest := Front(scheme, u, w), ":" + d + [c] + t;
    var buf, p := front + h + rest, |front| + |h|;
    var m := BehindHost(scheme, kind, u, w, h, rest);
    if !MissesEqual(u) {
      PortPlaces(buf, front + h, d, c, t);
      WrongPort(m, buf, p, d);
    }
  }

  lemma PortPlaces(buf: string, a: string, d: string, c: char, t: string)
    requires buf == a + (":" + d + [c] + t)
    ensures |buf| > |a| + 1 + |d| && buf[|a|] == ':' && buf[|a| + 1..|a| + 1 + |d|] == d && buf[|a| + 1 + |d|] == c
  {
  }

  lemma WrongPort(m: Machine, buf: string, p: nat, d: string)
    requires (m.state == HOST_P || m.state == HOST6_END) && m.portNo == 0 && AllDigits(d)
    requires p + 1 + |d| < |buf| && buf[p] == ':' && buf[p + 1..p + 1 + |d|] == d
    requires var c := buf[p + 1 + |d|]; !IsDigit(c) && c != ';' && c != '?'
    ensures Result(m, buf, p) == None
  {
    hide Result, RunFrom, Step, Value, Finish;
    ResultStep(m, buf, p);
    ColonAtHost(m, p);
    var n := Step(m, ':', p).value;
    var n1 := ReadPort(n, buf, p + 1, d, |d|);
    ResultMoves(n, buf, p + 1, n1, p + 1 + |d|);
    ResultStep(n1, buf, p + 1 + |d|);
    NoPortChar(n1, buf[p + 1 + |d|], p + 1 + |d|);
  }

  lemma NoPortChar(m: Machine, c: char, p: int)
    requires m.state == PORT && !IsDigit(c) && c != ';' && c != '?'
    ensures Step(m, c, p).None?
  {
  }

  /** Headers must not contain ';'. */
  lemma HeadersRefused(scheme: string, kind: Kind, u: string, w: Option<string>, h: string, t: string)
    requires FrontIs(scheme, kind, u, w) && (PlainHost(h) || BracketedHost(h)) && ';' in t
    ensures Parsed(Front(scheme, u, w) + h + ("?" + t)) == None
  {
    hide FrontIs, Front, Parsed, MissesEqual, Result, PlainHost, BracketedHost, PastUser, Finish, Step;
    var buf, p := Front(scheme, u, w) + h + ("?" + t), |Front(scheme, u, w)| + |h|;
    var m := BehindHost(scheme, kind, u, w, h, "?" + t);
    if !MissesEqual(u) {
      assert buf[p] == '?';
      ResultStep(m, buf, p);
      StepPastUser(m, '?', p);
      QuestionAtHost(m, p);
      var i: nat :| i < |t| && t[i] == ';';
      assert buf[p + 1 + i] == t[i];
      SemicolonRefuses(Step(m, '?', p).value, buf, p + 1, p + 1 + i);
    }
  }

  lemma QuestionAtHost(m: Machine, p: int)
    requires m.state == HOST_P || m.state == HOST6_END
    ensures Step(m, '?', p).Some? && Step(m, '?', p).value.state == HEADERS
  {
  }

  lemma {:induction false} SemicolonRefuses(m: Machine, buf: string, p: nat, i: nat)
    requires PastUser(m) && m.state == HEADERS && p <= i < |buf| && buf[i] == ';'
    ensures Result(m, buf, p) == None
    decreases i - p
  {
    hide Step, Finish, PastUser, RunFrom, Result, StepHeaders;
    HeadersPast(m, buf[p], p);
    PastDispatch(m, buf[p], p);
    ResultStep(m, buf, p);
    if p < i && Step(m, buf[p], p).Some? {
      SemicolonRefuses(Step(m, buf[p], p).value, buf, p + 1, i);
    }
  }
}
