/** Texts that differ in letter case only: parsing them alike, and when comparing
    the texts without parsing is right. */
module UriCase {
  import opened Decimal
  import opened Chars
  import opened StrCommon
  import opened UriParser
  import opened UriSpans
  import opened UriUserSplit
  import opened UriCompare
  import opened UriTexts

  ghost predicate CaseEqual(a: string, b: string) {
    |a| == |b| && forall i :: 0 <= i < |a| ==> Lower(a[i]) == Lower(b[i])
  }

  // ------------------------------------------------ the parser and letters

  predicate IsLetter(c: char) {
    'a' <= c <= 'z' || 'A' <= c <= 'Z'
  }

  lemma OnlyLettersDiffer(c: char, d: char)
    requires Lower(c) == Lower(d) && c != d
    ensures IsLetter(c) && IsLetter(d)
  {
  }

  lemma LetterIsText(c: char)
    requires IsLetter(c)
    ensures c !in "@;?:=&[]-2" && !Separator(c) && !IsDigit(c)
  {
  }

  /** What a letter does in a parameter depends on the letter alone. */
  lemma TextIgnoresCase(m: Machine, c: char, d: char, p: int)
    requires Lower(c) == Lower(d) && IsLetter(c) && IsLetter(d)
    ensures StepText(m, c, p) == StepText(m, d, p)
  {
    hide ClassOf, Lower, LetterEdge, ValueEdge, StartEdge, ExactEdge, IsLetter;
    LetterIsText(c);
    LetterIsText(d);
    if ClassOf(m.state).LastLetter? || ClassOf(m.state).Flag? {
      ExactIgnoresLetters(m.state, c);
      ExactIgnoresLetters(m.state, d);
    }
  }

  lemma ExactIgnoresLetters(st: State, c: char)
    requires c !in "=-2" && (ClassOf(st).LastLetter? || ClassOf(st).Flag?)
    ensures ExactEdge(st, c) == PARAM_P
  {
  }

  lemma HostIgnoresCase(m: Machine, c: char, d: char, p: int)
    requires IsLetter(c) && IsLetter(d)
    ensures StepUser(m, c, p) == StepUser(m, d, p) && StepHost(m, c, p) == StepHost(m, d, p)
    ensures StepHeaders(m, c, p) == StepHeaders(m, d, p)
  {
    hide IsLetter, EndHost, StillAtUser, Colon, DropPassword;
    LetterIsText(c);
    LetterIsText(d);
  }

  lemma StepIgnoresCase(m: Machine, c: char, d: char, p: int)
    requires Lower(c) == Lower(d)
    ensures Step(m, c, p) == Step(m, d, p)
  {
    hide StepUser, StepHost, StepHeaders, StepText, StepSeparator, ClassOf, Lower, IsLetter, SelectParam, Separator;
    if c != d {
      OnlyLettersDiffer(c, d);
      LetterIsText(c);
      LetterIsText(d);
      HostIgnoresCase(m, c, d, p);
      TextIgnoresCase(SelectParam(m), c, d, p);
    }
  }

  lemma {:induction false} RunIgnoresCase(m: Machine, a: string, b: string, p: nat)
    requires CaseEqual(a, b)
    ensures RunFrom(m, a, p) == RunFrom(m, b, p)
    decreases |a| - p
  {
    hide Step, Lower;
    if p < |a| {
      StepIgnoresCase(m, a[p], b[p], p);
      if Step(m, a[p], p).Some? {
        RunIgnoresCase(Step(m, a[p], p).value, a, b, p + 1);
      }
    }
  }

  lemma Or20IgnoresCase(c: char, d: char)
    requires Lower(c) == Lower(d)
    ensures Or20(c) == Or20(d) && (c == ':' <==> d == ':')
  {
  }

  lemma SchemeIgnoresCase(a: string, b: string)
    requires CaseEqual(a, b) && Scheme(a).Some? && Scheme(b).Some?
    ensures Scheme(a) == Scheme(b)
  {
    hide Or20, Lower;
    forall i | 0 <= i < |a| ensures Or20(a[i]) == Or20(b[i]) && (a[i] == ':' <==> b[i] == ':') {
      Or20IgnoresCase(a[i], b[i]);
    }
    assert forall w: string :: SchemeIs(a, w) <==> SchemeIs(b, w);
    ServiceOrNena(a, b);
  }

  lemma ServiceOrNena(a: string, b: string)
    requires CaseEqual(a, b) && |a| >= 5
    ensures !(":service:" <= a[3..] && ":nena:service:" <= b[3..])
    ensures !(":service:" <= b[3..] && ":nena:service:" <= a[3..])
    ensures !(":service:" <= a[3..] && ":nena:service:" <= a[3..])
  {
    assert ":service:"[1] == 's' && ":nena:service:"[1] == 'n';
    assert Lower('s') != Lower('n');
    assert a[3..][1] == a[4] && b[3..][1] == b[4];
  }

  /** Texts that differ in case only and whose schemes are recognised parse to the
      same pieces. */
  lemma ParseIgnoresCase(a: string, b: string)
    requires CaseEqual(a, b) && Scheme(a).Some? && Scheme(b).Some?
    ensures Parsed(a) == Parsed(b)
  {
    hide Scheme, RunFrom, Finish, CaseEqual, FixKind, InitMachine;
    SchemeIgnoresCase(a, b);
    SameLength(a, b);
    RunIgnoresCase(InitMachine(Scheme(a).value.0, Scheme(a).value.1), a, b, Scheme(a).value.1);
    ParsedIs(a);
    ParsedIs(b);
  }

  lemma SameLength(a: string, b: string)
    requires CaseEqual(a, b)
    ensures |a| == |b|
  {
  }

  lemma NoScheme(a: string)
    requires Scheme(a).None?
    ensures Parsed(a) == None && ParseRaw(a) == None
  {
    hide Scheme;
  }

  // -------------------------------------------------- comparing the pieces

  lemma {:induction false} CaseEqualIsSame(a: string, b: string)
    requires CaseEqual(a, b)
    ensures Same(a, b, true)
  {
    hide Lower;
    if a != "" {
      CaseEqualIsSame(a[1..], b[1..]);
    }
  }

  lemma {:induction false} SameIsCaseEqual(a: string, b: string)
    requires '\0' !in a && Same(a, b, true)
    ensures CaseEqual(a, b)
  {
    hide Lower;
    if a != "" {
      assert a[0] in a;
      SameIsCaseEqual(a[1..], b[1..]);
      assert a == [a[0]] + a[1..] && b == [b[0]] + b[1..];
    }
  }

  lemma PieceCaseEqual(a: string, b: string, span: Span)
    requires CaseEqual(a, b) && Inside(span, |a|)
    ensures Inside(span, |b|) && CaseEqual(TextAt(a, span), TextAt(b, span))
    ensures Same(TextAt(a, span), TextAt(b, span), true)
  {
    hide Lower, Same;
    CaseEqualIsSame(TextAt(a, span), TextAt(b, span));
  }

  lemma ValueCaseEqual(a: string, b: string, vals: map<Name, Span>, name: Name)
    requires CaseEqual(a, b) && MapInside(vals, |a|)
    ensures MapInside(vals, |b|) && Same(ValueIn(a, vals, name), ValueIn(b, vals, name), true)
  {
    hide CaseEqual, Same, TextAt;
    SameLength(a, b);
    SameReflexive("", true);
    if name in vals {
      PieceCaseEqual(a, b, vals[name]);
    }
  }

  lemma ParamsCaseEqual(a: string, b: string, unknown: seq<(Span, Span)>)
    requires CaseEqual(a, b) && UnknownInside(unknown, |a|)
    ensures UnknownInside(unknown, |b|) && ParamsAgree(ParamTexts(a, unknown), ParamTexts(b, unknown))
  {
    hide CaseEqual, Same, TextAt, ParamsAgree;
    SameLength(a, b);
    var first, second := ParamTexts(a, unknown), ParamTexts(b, unknown);
    forall i | 0 <= i < |first| ensures SameName(first[i], second[i]) && SameValue(first[i], second[i]) {
      PieceCaseEqual(a, b, unknown[i].0);
      PieceCaseEqual(a, b, unknown[i].1);
    }
    ParamsAgreeAlike(first, second);
  }

  /** All that comparison respects the case of. */
  ghost predicate SameSecrets(x: SipUri, y: SipUri) {
    && DecodedUser(x).Some? && DecodedUser(y).Some?
    && Same(DecodedUser(x).value, DecodedUser(y).value, false)
    && Same(x.passwd, y.passwd, false) && Same(x.port, y.port, false)
  }

  lemma PiecesVerdict(a: string, b: string, uri: Uri)
    requires CaseEqual(a, b) && UriInside(uri, |a|)
    ensures UriInside(uri, |b|)
    ensures ParsedVerdict(SipUriOf(a, uri), SipUriOf(b, uri)) == Match
            <==> SameSecrets(SipUriOf(a, uri), SipUriOf(b, uri))
  {
    hide CaseEqual, Same, TextAt, ValueIn, ParamTexts, ParamsAgree, DecodedUser, Inside, MapInside, UnknownInside;
    SameLength(a, b);
    PieceCaseEqual(a, b, uri.host);
    PieceCaseEqual(a, b, uri.headers);
    ValueCaseEqual(a, b, uri.vals, Transport);
    ValueCaseEqual(a, b, uri.vals, Ttl);
    ValueCaseEqual(a, b, uri.vals, Name.UserParam);
    ValueCaseEqual(a, b, uri.vals, Maddr);
    ValueCaseEqual(a, b, uri.vals, Method);
    ValueCaseEqual(a, b, uri.vals, Lr);
    ValueCaseEqual(a, b, uri.vals, R2);
    ParamsCaseEqual(a, b, uri.unknown);
  }

  // ------------------------------------------------------- the shortcut

  /** The verdict on two texts by their pieces, whatever the texts look like. */
  ghost function PartsVerdict(a: string, b: string): Verdict {
    var x, y := ParseRaw(a), ParseRaw(b);
    if x.None? || y.None? then Error else ParsedVerdict(x.value, y.value)
  }

  /** The shortcut never turns a match of the pieces into anything else, and has no
      say about texts that do not look the same. */
  lemma ShortcutOnlyMatches(a: string, b: string)
    ensures RawVerdict(a, b) == if Same(a, b, true) then Match else PartsVerdict(a, b)
  {
    hide ParseRaw, ParsedVerdict, Same;
  }

  /** When the shortcut is right about texts that differ in letter case only:
      exactly if both parse and their decoded users, passwords and ports are the
      same with regard to case. If one does not parse, the texts match although
      comparing their pieces is an error. */
  lemma ShortcutRightIff(a: string, b: string)
    requires CaseEqual(a, b)
    ensures RawVerdict(a, b) == Match
    ensures var x, y := ParseRaw(a), ParseRaw(b);
      && (RawVerdict(a, b) == PartsVerdict(a, b) <==> x.Some? && y.Some? && SameSecrets(x.value, y.value))
      && (x.None? || y.None? ==> PartsVerdict(a, b) == Error)
  {
    hide ParsedVerdict, SameSecrets, Same, CaseEqual, Parsed, Scheme, SipUriOf, UriInside;
    CaseEqualIsSame(a, b);
    ShortcutOnlyMatches(a, b);
    if Scheme(a).None? {
      NoScheme(a);
    } else if Scheme(b).None? {
      NoScheme(b);
    } else {
      ParseIgnoresCase(a, b);
      if Parsed(a).Some? {
        ParsedStaysInside(a);
        PiecesVerdict(a, b, Parsed(a).value);
      }
    }
  }

  /** The shortcut also looks no further than a NUL: two texts match although the
      second is no URI. */
  lemma NulHidesTheRest()
    ensures var a, b := "sip:\0a", "sip:\0@"; RawVerdict(a, b) == Match && PartsVerdict(a, b) == Error
  {
    var a, b := "sip:\0a", "sip:\0@";
    assert Same(a, b, true);
    EmptyHost(b);
    ShortcutOnlyMatches(a, b);
  }

  lemma EmptyHost(b: string)
    requires b == "sip:\0@"
    ensures ParseRaw(b) == None
  {
    hide RunFrom, Finish, Step, InitMachine, Scheme;
    SipText();
    SchemeFound("sip:", Sip, "\0@");
    assert "sip:" + "\0@" == b;
    var m := InitMachine(Sip, 4);
    UserThenHost(m);
    RunStep(m, b, 4);
    RunStep(Step(m, '\0', 4).value, b, 5);
    RunEnds(Step(Step(m, '\0', 4).value, '@', 5).value, b, 6);
    ParsedIs(b);
  }

  lemma UserThenHost(m: Machine)
    requires m == InitMachine(Sip, 4)
    ensures var n := Step(m, '\0', 4); n.Some? && Step(n.value, '@', 5).Some?
    ensures Finish(Step(Step(m, '\0', 4).value, '@', 5).value, 6).None?
  {
  }
}
