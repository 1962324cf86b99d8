/** Parameters and headers behind the host: which pieces of the text the URI
    parser records for them. */
module UriParams {
  import opened Decimal
  import opened Chars
  import opened UriParser
  import opened UriSpans
  import opened UriUserSplit
  import opened UriNames

  // ----------------------------------------------------------- one parameter

  /** A parameter is a name and what follows it: nothing, or a text that begins
      with '=' or ':'. */
  datatype Piece = Piece(name: string, rest: string)

  function PieceText(x: Piece): string {
    x.name + x.rest
  }

  /** Any text without '@', ';' and '?' that is not empty and does not begin with
      a ':', split behind its name. */
  ghost predicate CleanPiece(x: Piece) {
    && (forall i :: 0 <= i < |x.name| ==> x.name[i] !in "@;?:=")
    && (forall i :: 0 <= i < |x.rest| ==> x.rest[i] !in "@;?")
    && (x.rest != "" ==> x.rest[0] == '=' || x.rest[0] == ':')
    && (x.name == "" ==> x.rest != "" && x.rest[0] == '=')
  }

  /** The well-known name that a lower-cased text is. */
  function NameOf(t: string): Option<Name> {
    if t == "transport" then Some(Transport)
    else if t == "ttl" then Some(Ttl)
    else if t == "user" then Some(Name.UserParam)
    else if t == "method" then Some(Method)
    else if t == "maddr" then Some(Maddr)
    else if t == "lr" then Some(Lr)
    else if t == "r2" then Some(R2)
    else if t == "gr" then Some(Gr)
    else if t == "pn-provider" then Some(PnProvider)
    else if t == "pn-prid" then Some(PnPrid)
    else if t == "pn-param" then Some(PnParam)
    else if t == "pn-purr" then Some(PnPurr)
    else None
  }

  lemma NameOfWord(t: string)
    ensures NameOf(t).Some? ==> t == NameWord(NameOf(t).value)
    ensures NameOf(t).Some? ==> StartsName(t)
  {
    if NameOf(t).Some? {
      assert t <= NameWord(NameOf(t).value);
    }
  }

  function KnownName(x: Piece): Option<Name> {
    NameOf(LowerText(x.name))
  }

  /** Behind a push parameter name only '=' may follow. */
  ghost predicate Refused(x: Piece) {
    !NoPushBefore(x.name) || (PushName(LowerText(x.name)) && (x.rest == "" || x.rest[0] == ':'))
  }

  /** The beginning of a well-known name, but not all of it. */
  ghost predicate Beginning(x: Piece) {
    StartsName(LowerText(x.name)) && KnownName(x).None?
  }

  /** Where the parser begins to look for a '=' between the name and the value of
      an unknown parameter; None if it is not recorded by looking for one. Behind
      the beginning of a well-known name it overlooks the '='; a ':' makes even
      a well-known name unknown. */
  ghost function LooseFrom(x: Piece): Option<nat> {
    if KnownName(x).Some? then
      if x.rest == "" then None
      else if x.rest[0] == ':' then Some(|x.name| + 1)
      else if |x.rest| > 1 && x.rest[1] == ':' then Some(|x.name| + 2)
      else None
    else if Beginning(x) then if x.rest == "" then None else Some(|x.name| + 1)
    else Some(|x.name|)
  }

  /** Reading t from i to k: whether a value is being read, and the last '=' that
      began one. A ':' ends a value. */
  function Scanned(t: string, i: nat, k: nat): (bool, Option<nat>)
    requires k <= |t|
  {
    if k <= i then (false, None)
    else
      var (inValue, e) := Scanned(t, i, k - 1);
      if inValue then (t[k - 1] != ':', e)
      else if t[k - 1] == '=' then (true, Some(k - 1))
      else (false, e)
  }

  /** Name and value as they are recorded if the value follows the '=' at e. */
  function PairAt(t: string, p: int, e: Option<nat>): (Span, Span) {
    if e.None? then (Span(p, |t|), NO_SPAN)
    else (Span(p, e.value), if e.value + 1 < |t| then Span(p + e.value + 1, |t| - e.value - 1) else NO_SPAN)
  }

  ghost function UnknownPair(x: Piece, p: int): (Span, Span) {
    var t := PieceText(x);
    PairAt(t, p, if LooseFrom(x).None? then None else Scanned(t, LooseFrom(x).value, |t|).1)
  }

  /** The parameter is recorded as an unknown one, if it is not the last piece of
      the text: also a bare beginning, unless the next character must be exact. */
  ghost predicate AddsUnknown(x: Piece) {
    || LooseFrom(x).Some?
    || (KnownName(x).None? && LowerText(x.name) != "r" && LowerText(x.name) != "pn")
  }

  /** The transport protocol that a lower-cased value names. */
  function ProtoOf(value: string): Proto {
    if value == "udp" then Udp
    else if value == "tcp" then Tcp
    else if value == "tls" then Tls
    else if value == "sctp" then Sctp
    else if value == "ws" then Ws
    else if value == "wss" then Wss
    else OtherProto
  }

  function Append(uri: Uri, pair: (Span, Span)): Uri {
    if |uri.unknown| >= MAX_U_PARAMS then uri else uri.(unknown := uri.unknown + [pair])
  }

  /** Transport values are unknown protocols until they are read. */
  function Selected(uri: Uri, name: Name): Uri {
    if name.Transport? then uri.(proto := OtherProto) else uri
  }

  /** What a parameter at p adds to a URI if more parameters or headers follow. */
  ghost function Effect(uri: Uri, x: Piece, p: int): Uri {
    var name := KnownName(x);
    var selected := if name.Some? && x.rest != "" && x.rest[0] == '=' then Selected(uri, name.value) else uri;
    if AddsUnknown(x) then Append(selected, UnknownPair(x, p))
    else if name.None? then uri
    else if x.rest == "" then
      if IsFlag(name.value) then uri.(names := uri.names[name.value := Span(p, |x.name|)]) else uri
    else if x.rest == "=" then selected
    else
      var u := uri.(names := uri.names[name.value := Span(p, |PieceText(x)|)],
                    vals := uri.vals[name.value := Span(p + |x.name| + 1, |x.rest| - 1)]);
      if name.value.Transport? then u.(proto := ProtoOf(LowerText(x.rest[1..]))) else u
  }

  /** What it adds at the end of the text. */
  ghost function EndEffect(uri: Uri, x: Piece, p: int): Uri {
    var name := KnownName(x);
    if Beginning(x) && x.rest == "" then uri
    else if name.Some? && x.rest == "=" then
      if IsFlag(name.value) then uri.(names := uri.names[name.value := Span(p, |PieceText(x)|)]) else uri
    else Effect(uri, x, p)
  }

  /** The text must not end in a maddr parameter without value, nor behind the '='
      of a push parameter. */
  ghost predicate CutShort(x: Piece) {
    var t, name := LowerText(x.name), KnownName(x);
    || (x.rest == "" && (t == "ma" || t == "mad" || t == "madd" || t == "maddr"))
    || (x.rest == "=" && name.Some? && (name.value.Maddr? || PushName(t)))
  }

  // ------------------------------------------------- the machine on a piece

  /** A machine at a place where a parameter begins. */
  ghost predicate AtParam(m: Machine, uri: Uri, s: int, p: int) {
    m.state == PARAM && m.uri == uri && Settled(m, s, p)
  }

  ghost predicate Settled(m: Machine, s: int, p: int) {
    m.s == s && m.v <= p && !m.errorHeaders
  }

  /** A machine in the headers. */
  ghost predicate InHeaders(m: Machine, uri: Uri, s: int) {
    m.state == HEADERS && m.uri == uri && m.s == s && !m.errorHeaders
  }

  /** At q, ';' and '?' leave the URI `next`. */
  ghost predicate Goes(m: Machine, next: Uri, s: int, q: int) {
    && Step(m, ';', q).Some? && AtParam(Step(m, ';', q).value, next, s, q + 1)
    && Step(m, '?', q).Some? && InHeaders(Step(m, '?', q).value, next.(params := Span(s, q - s)), q + 1)
  }

  /** A machine that has read a parameter that began at p. */
  ghost predicate Ended(m: Machine, x: Piece, uri: Uri, s: int, p: int) {
    var q := p + |PieceText(x)|;
    if Refused(x) then Step(m, ';', q).None? && Step(m, '?', q).None? && Finish(m, q).None?
    else
      && Goes(m, Effect(uri, x, p), s, q)
      && Finish(m, q) == if CutShort(x) then None else Some(EndEffect(uri, x, p).(params := Span(s, q - s)))
  }

  lemma Separates(m: Machine, next: Uri, s: int, q: int)
    requires ParamState(m.state) && !ClassOf(m.state).MustEqual? && Settled(m, s, q)
    requires Recorded(SelectParam(m), q) == next
    ensures Goes(m, next, s, q)
  {
    hide ClassOf, ParamState, Recorded, Step, SelectParam;
    ParamDispatch(m, ';', q);
    ParamDispatch(m, '?', q);
    SelectStays(m);
  }

  lemma SelectStays(m: Machine)
    ensures SelectParam(m) == m.(param := SelectParam(m).param, uri := SelectParam(m).uri)
  {
    hide ClassOf;
  }

  /** A machine that has read the name t of a parameter at p0. */
  ghost predicate InNameOf(m: Machine, m0: Machine, t: string, p0: int) {
    m == m0.(state := NameState(t), b := if t == "" then m0.b else p0, param := m.param)
  }

  lemma NameText(m: Machine, c: char, p: int)
    requires NameReading(m.state) && c != '='
    ensures StepText(m, c, p) ==
            Some(m.(state := NameEdge(m.state, c), b := if m.state == PARAM then p else m.b))
  {
    hide ClassOf, LetterEdge, ExactEdge, StartEdge, ValueEdge, Lower;
    SingleStates(m.state);
  }

  lemma NameChar(m: Machine, m0: Machine, t: string, c: char, p0: int)
    requires InNameOf(m, m0, t, p0) && c !in "@;?:=" && NameReading(NameState(t))
    requires (t == "" <==> NameState(t) == PARAM) && ParamState(m.state)
    ensures Step(m, c, p0 + |t|).Some? && InNameOf(Step(m, c, p0 + |t|).value, m0, t + [c], p0)
  {
    hide NameEdge, NameReading, ParamState, Step;
    NameStep(m, c, p0 + |t|);
    assert (t + [c])[..|t|] == t;
  }

  lemma NameStep(m: Machine, c: char, p: int)
    requires NameReading(m.state) && c !in "@;?:=" && ParamState(m.state)
    ensures var next := Step(m, c, p);
      && next.Some?
      && next.value == m.(state := NameEdge(m.state, c), b := if m.state == PARAM then p else m.b,
                          param := next.value.param)
  {
    hide ClassOf, NameEdge, ParamState, StepSeparator, StepText, SelectParam, Step;
    ParamDispatch(m, c, p);
    SelectInName(m);
    NameText(SelectParam(m), c, p);
  }

  lemma SelectInName(m: Machine)
    ensures !ClassOf(m.state).Equals? ==> SelectParam(m) == m.(param := SelectParam(m).param)
    ensures SelectParam(m).state == m.state
  {
    hide ClassOf;
  }

  /** The name of a parameter, read up to its k-th character. */
  lemma {:induction false} ReadName(m0: Machine, buf: string, p0: nat, name: string, k: nat) returns (m: Machine)
    requires m0.state == PARAM && k <= |name| && p0 + |name| <= |buf| && buf[p0..p0 + |name|] == name
    requires forall i :: 0 <= i < |name| ==> name[i] !in "@;?:="
    requires forall j :: 0 <= j < k ==> NameReading(NameState(name[..j])) && (j > 0 ==> NameState(name[..j]) != PARAM)
    ensures InNameOf(m, m0, name[..k], p0) && RunFrom(m0, buf, p0) == RunFrom(m, buf, p0 + k)
    decreases k
  {
    hide Step, RunFrom, NameState, NameReading, InNameOf;
    if k == 0 {
      m := m0;
      NameNotBegun(m0, p0);
    } else {
      m := ReadName(m0, buf, p0, name, k - 1);
      var t := name[..k - 1];
      assert buf[p0 + k - 1] == buf[p0..p0 + |name|][k - 1];
      assert name[k - 1] !in "@;?:=";
      EmptyState();
      NameReadingIsParam(m, m0, t, p0);
      NameChar(m, m0, t, name[k - 1], p0);
      RunStep(m, buf, p0 + k - 1);
      assert t + [name[k - 1]] == name[..k];
      m := Step(m, name[k - 1], p0 + k - 1).value;
    }
  }

  lemma NameNotBegun(m0: Machine, p0: int)
    requires m0.state == PARAM
    ensures InNameOf(m0, m0, "", p0)
  {
  }

  lemma EmptyState()
    ensures NameState("") == PARAM
  {
  }

  lemma NameReadingIsParam(m: Machine, m0: Machine, t: string, p0: int)
    requires InNameOf(m, m0, t, p0) && NameReading(NameState(t))
    ensures ParamState(m.state)
  {
    hide NameState;
    ReadingStates(m.state);
  }

  lemma ReadingStates(st: State)
    requires NameReading(st)
    ensures ParamState(st)
  {
  }

  lemma PlainNameReads(t: string, j: nat)
    requires NoPushBefore(t) && '=' !in t && j < |t|
    ensures NameReading(NameState(t[..j])) && (j > 0 ==> NameState(t[..j]) != PARAM)
  {
    hide NameState, NameReading, LowerText, PushName, OnWord;
    var u := t[..j];
    assert forall i :: 0 <= i < j ==> u[..i] == t[..i];
    NameStates(u);
    ReadingOn(u);
    RootHasNoName();
  }

  lemma WordNameReads(t: string, name: Name, j: nat)
    requires j < |t| <= |NameWord(name)| && LowerText(t) == NameWord(name)[..|t|]
    ensures NameReading(NameState(t[..j])) && (j > 0 ==> NameState(t[..j]) != PARAM)
  {
    hide NameState, NameReading, NameWord, WordState, LowerText, Before;
    LowerTextPrefix(t, j);
    assert NameWord(name)[..|t|][..j] == NameWord(name)[..j];
    WordReads(t[..j], name, j);
    ShortClass(name, j);
    if j > 0 {
      WordChain(name, j);
      RootHasNoName();
    }
  }

  lemma {:induction false} LowerTextPrefix(t: string, j: nat)
    requires j <= |t|
    ensures |LowerText(t)| == |t| && LowerText(t[..j]) == LowerText(t)[..j]
    decreases |t|
  {
    LowerTextLength(t);
    if j < |t| {
      assert t[..|t| - 1][..j] == t[..j];
      LowerTextPrefix(t[..|t| - 1], j);
    } else {
      assert t[..j] == t;
    }
  }

  /** A piece of text in its place. */
  ghost predicate Holds(buf: string, p: nat, t: string) {
    p + |t| <= |buf| && buf[p..p + |t|] == t
  }

  lemma HeldIsThere(buf: string, p: nat, t: string)
    requires Holds(buf, p, t)
    ensures p + |t| <= |buf| && buf[p..p + |t|] == t
  {
  }

  lemma PiecePlaces(buf: string, p: nat, x: Piece)
    requires Holds(buf, p, PieceText(x))
    ensures Holds(buf, p, x.name) && Holds(buf, p + |x.name|, x.rest)
    ensures x.rest != "" ==> buf[p + |x.name|] == x.rest[0]
  {
    var t := PieceText(x);
    assert buf[p..p + |x.name|] == buf[p..p + |t|][..|x.name|];
    assert buf[p + |x.name|..p + |t|] == buf[p..p + |t|][|x.name|..];
  }

  // -------------------------------------------------- looking for a value

  /** A machine that has looked for a value from offset i to k of a parameter t. */
  ghost predicate InLoose(m: Machine, m0: Machine, t: string, i: nat, k: nat, p: int)
    requires k <= |t|
  {
    var (inValue, e) := Scanned(t, i, k);
    m == m0.(state := if inValue then PARAM_VAL_P else PARAM_P, v := if e.None? then m0.v else p + e.value + 1,
             pass := m.pass, foundUser := m.foundUser)
  }

  lemma LooseChar(m: Machine, c: char, q: int)
    requires (m.state == PARAM_P || m.state == PARAM_VAL_P) && c !in "@;?"
    ensures var next := Step(m, c, q);
      && next.Some?
      && next.value == m.(state := if m.state == PARAM_P && c == '=' then PARAM_VAL_P
                                   else if c == ':' then PARAM_P else m.state,
                          v := if m.state == PARAM_P && c == '=' then q + 1 else m.v,
                          pass := next.value.pass, foundUser := next.value.foundUser)
  {
  }

  lemma {:induction false} ReadLoose(m0: Machine, buf: string, p: nat, t: string, i: nat, k: nat) returns (m: Machine)
    requires m0.state == PARAM_P && i <= k <= |t| && Holds(buf, p, t)
    requires forall j :: i <= j < |t| ==> t[j] !in "@;?"
    ensures InLoose(m, m0, t, i, k, p) && RunFrom(m0, buf, p + i) == RunFrom(m, buf, p + k)
    decreases k
  {
    hide Step, RunFrom;
    if k == i {
      m := m0;
    } else {
      m := ReadLoose(m0, buf, p, t, i, k - 1);
      assert buf[p + k - 1] == buf[p..p + |t|][k - 1];
      assert t[k - 1] !in "@;?";
      LooseChar(m, t[k - 1], p + k - 1);
      RunStep(m, buf, p + k - 1);
      m := Step(m, t[k - 1], p + k - 1).value;
    }
  }

  lemma ScannedBound(t: string, i: nat, k: nat)
    requires k <= |t|
    ensures Scanned(t, i, k).1.Some? ==> i <= Scanned(t, i, k).1.value < k
    ensures Scanned(t, i, k).0 ==> Scanned(t, i, k).1.Some?
  {
  }

  /** The whole of an unknown parameter has been read. */
  lemma LooseEnds(m: Machine, m0: Machine, x: Piece, p: nat, uri: Uri, s: int)
    requires LooseFrom(x).Some? && LooseFrom(x).value <= |PieceText(x)| && !Refused(x)
    requires Settled(m0, s, p) && m0.b == p
    requires InLoose(m, m0, PieceText(x), LooseFrom(x).value, |PieceText(x)|, p)
    requires Effect(uri, x, p) == Append(m0.uri, UnknownPair(x, p))
    ensures Ended(m, x, uri, s, p)
  {
    hide Recorded, Effect, RecordUnknown, ClassOf, LooseFrom, NameOf, LowerText, Refused, Goes, Finish, Scanned, PairAt,
         AddsUnknown, ParamState, SelectParam;
    var t, q := PieceText(x), p + |PieceText(x)|;
    ScannedBound(t, LooseFrom(x).value, |t|);
    LooseRecord(m, t, p, Scanned(t, LooseFrom(x).value, |t|).1);
    LooseStates(m, q);
    Separates(m, Effect(uri, x, p), s, q);
    NotShort(x);
  }

  lemma LooseRecord(m: Machine, t: string, p: nat, e: Option<nat>)
    requires m.b == p && if e.None? then m.v <= p else m.v == p + e.value + 1 && e.value < |t|
    ensures RecordUnknown(m, p + |t|) == Append(m.uri, PairAt(t, p, e))
  {
  }

  lemma LooseStates(m: Machine, q: int)
    requires m.state == PARAM_P || m.state == PARAM_VAL_P
    ensures ParamState(m.state) && !ClassOf(m.state).MustEqual?
    ensures SelectParam(m) == m && Recorded(m, q) == RecordUnknown(m, q)
    ensures Finish(m, q) == Some(RecordUnknown(m, q).(params := Span(m.s, q - m.s)))
  {
    hide RecordUnknown, ClassOf, Finish, FinishParam;
    LooseClasses();
    LooseFinish(m, q);
  }

  lemma LooseClasses()
    ensures ClassOf(PARAM_P) == Unknown && ClassOf(PARAM_VAL_P) == UnknownValue
  {
  }

  lemma LooseFinish(m: Machine, q: int)
    requires m.state == PARAM_P || m.state == PARAM_VAL_P
    ensures Finish(m, q) == Some(RecordUnknown(m, q).(params := Span(m.s, q - m.s)))
  {
    hide RecordUnknown, ClassOf;
    LooseClasses();
  }

  lemma NotShort(x: Piece)
    requires LooseFrom(x).Some?
    ensures !CutShort(x) && forall uri: Uri, p: int :: EndEffect(uri, x, p) == Effect(uri, x, p)
  {
    hide Effect, LowerText;
    BeginsMaddr();
  }

  lemma BeginsMaddr()
    ensures StartsName("ma") && StartsName("mad") && StartsName("madd")
    ensures NameOf("ma").None? && NameOf("mad").None? && NameOf("madd").None? && NameOf("maddr") == Some(Maddr)
  {
    assert "ma" <= NameWord(Maddr) && "mad" <= NameWord(Maddr) && "madd" <= NameWord(Maddr);
  }

  // --------------------------------------------------- well-known parameters

  /** The state behind the value t, in lower case, of a well-known parameter. */
  function ValState(name: Name, t: string): State {
    if t == "" then EqState(name) else ValueEdge(ValState(name, t[..|t| - 1]), t[|t| - 1])
  }

  /** What the states of transport values have read. */
  function ValText(st: State): string {
    match st
    case VU_U => "u" case VU_D => "ud" case VU_P_FIN => "udp"
    case VT_T => "t" case VT_C => "tc" case VT_P_FIN => "tcp" case VTLS_L => "tl" case VTLS_S_FIN => "tls"
    case VS_S => "s" case VS_C => "sc" case VS_T => "sct" case VS_P_FIN => "sctp"
    case VW_W => "w" case VW_S => "ws" case VWS_S_FIN => "wss"
    case _ => ""
  }

  ghost predicate ValueLonger(st: State, c: char) {
    var next := ValueEdge(st, c);
    next == VAL_P || (st != VAL_P && ValText(next) == ValText(st) + [c])
  }

  lemma ValueGoesOn1(st: State, c: char)
    requires st.PT_eq? || st.VAL_P? || st.VU_U? || st.VU_D? || st.VU_P_FIN? || st.VT_T? || st.VT_C? || st.VT_P_FIN?
    ensures ValueLonger(st, c)
  {
  }

  lemma ValueGoesOn2(st: State, c: char)
    requires st.VTLS_L? || st.VTLS_S_FIN? || st.VS_S? || st.VS_C? || st.VS_T? || st.VS_P_FIN? || st.VW_W? || st.VW_S?
             || st.VWS_S_FIN?
    ensures ValueLonger(st, c)
  {
  }

  lemma ValueGoesOn(st: State, c: char)
    requires st == PT_eq || st == VAL_P || ValText(st) != ""
    ensures ValueLonger(st, c)
  {
    hide ValueLonger;
    if st.VTLS_L? || st.VTLS_S_FIN? || st.VS_S? || st.VS_C? || st.VS_T? || st.VS_P_FIN? || st.VW_W? || st.VW_S?
       || st.VWS_S_FIN? {
      ValueGoesOn2(st, c);
    } else {
      ValueGoesOn1(st, c);
    }
  }

  lemma {:induction false} ValStates(t: string)
    requires t != ""
    ensures ValState(Transport, t) == VAL_P || ValText(ValState(Transport, t)) == t
  {
    hide ValueEdge, ValText;
    var t' := t[..|t| - 1];
    if t' != "" {
      ValStates(t');
    }
    EqIsEmpty();
    ValueGoesOn(ValState(Transport, t'), t[|t| - 1]);
    assert t == t' + [t[|t| - 1]];
  }

  lemma EqIsEmpty()
    ensures ValState(Transport, "") == PT_eq && ValText(PT_eq) == "" && ValText(VAL_P) == ""
  {
  }

  lemma ValStep(t: string, c: char, t': string, st: State, next: State)
    requires ValState(Transport, t) == st && t' == t + [c] && ValueEdge(st, c) == next
    ensures ValState(Transport, t') == next
  {
    assert t'[..|t|] == t;
  }

  lemma UdpWord()
    ensures ValState(Transport, "udp") == VU_P_FIN
  {
    hide ValState;
    EqIsEmpty();
    ValStep("", 'u', "u", PT_eq, VU_U);
    ValStep("u", 'd', "ud", VU_U, VU_D);
    ValStep("ud", 'p', "udp", VU_D, VU_P_FIN);
  }

  lemma TcpWord()
    ensures ValState(Transport, "tcp") == VT_P_FIN
  {
    hide ValState;
    EqIsEmpty();
    ValStep("", 't', "t", PT_eq, VT_T);
    ValStep("t", 'c', "tc", VT_T, VT_C);
    ValStep("tc", 'p', "tcp", VT_C, VT_P_FIN);
  }

  lemma TlsWord()
    ensures ValState(Transport, "tls") == VTLS_S_FIN
  {
    hide ValState;
    EqIsEmpty();
    ValStep("", 't', "t", PT_eq, VT_T);
    ValStep("t", 'l', "tl", VT_T, VTLS_L);
    ValStep("tl", 's', "tls", VTLS_L, VTLS_S_FIN);
  }

  lemma SctpWord()
    ensures ValState(Transport, "sctp") == VS_P_FIN
  {
    hide ValState;
    EqIsEmpty();
    ValStep("", 's', "s", PT_eq, VS_S);
    ValStep("s", 'c', "sc", VS_S, VS_C);
    ValStep("sc", 't', "sct", VS_C, VS_T);
    ValStep("sct", 'p', "sctp", VS_T, VS_P_FIN);
  }

  lemma WssWord()
    ensures ValState(Transport, "ws") == VW_S && ValState(Transport, "wss") == VWS_S_FIN
  {
    hide ValState;
    EqIsEmpty();
    ValStep("", 'w', "w", PT_eq, VW_W);
    ValStep("w", 's', "ws", VW_W, VW_S);
    ValStep("ws", 's', "wss", VW_S, VWS_S_FIN);
  }

  lemma ProtoWords()
    ensures ValState(Transport, "udp") == VU_P_FIN && ValState(Transport, "tcp") == VT_P_FIN
    ensures ValState(Transport, "tls") == VTLS_S_FIN && ValState(Transport, "sctp") == VS_P_FIN
    ensures ValState(Transport, "ws") == VW_S && ValState(Transport, "wss") == VWS_S_FIN
  {
    hide *;
    UdpWord();
    TcpWord();
    TlsWord();
    SctpWord();
    WssWord();
  }

  /** The state behind a transport value says which protocol it names. */
  lemma ProtoAtEnd(t: string)
    requires t != ""
    ensures var kind := ClassOf(ValState(Transport, t));
      if ProtoOf(t).OtherProto? then kind.ValueText? else kind == ProtoValue(ProtoOf(t))
  {
    hide ValState, ClassOf, ProtoOf;
    ValStates(t);
    ProtoWords();
    ProtoStates(ValState(Transport, t), t);
  }

  lemma ProtoStates(st: State, t: string)
    requires st == VAL_P || (ValText(st) == t && t != "")
    requires t == "udp" ==> st == VU_P_FIN
    requires t == "tcp" ==> st == VT_P_FIN
    requires t == "tls" ==> st == VTLS_S_FIN
    requires t == "sctp" ==> st == VS_P_FIN
    requires t == "ws" ==> st == VW_S
    requires t == "wss" ==> st == VWS_S_FIN
    ensures if ProtoOf(t).OtherProto? then ClassOf(st).ValueText? else ClassOf(st) == ProtoValue(ProtoOf(t))
  {
  }

  lemma {:induction false} PlainValStates(name: Name, t: string)
    requires !name.Transport? && t != ""
    ensures ValState(name, t) == VAL_P
  {
    if |t| > 1 {
      PlainValStates(name, t[..|t| - 1]);
    }
  }

  lemma ReadWord(m0: Machine, buf: string, p: nat, t: string, name: Name) returns (m: Machine)
    requires m0.state == PARAM && LowerText(t) == NameWord(name) && Holds(buf, p, t)
    requires forall i :: 0 <= i < |t| ==> t[i] !in "@;?:="
    ensures InNameOf(m, m0, t, p) && m.state == FullState(name)
    ensures RunFrom(m0, buf, p) == RunFrom(m, buf, p + |t|)
  {
    hide Step, RunFrom, NameState, NameReading, LowerText, NameWord, WordState;
    LowerTextLength(t);
    assert NameWord(name)[..|NameWord(name)|] == NameWord(name);
    forall j | 0 <= j < |t| ensures NameReading(NameState(t[..j])) && (j > 0 ==> NameState(t[..j]) != PARAM) {
      WordNameReads(t, name, j);
    }
    m := ReadName(m0, buf, p, t, |t|);
    assert t[..|t|] == t;
    WordReads(t, name, |NameWord(name)|);
  }

  lemma WordsAreNames(name: Name)
    ensures NameOf(NameWord(name)) == Some(name)
  {
  }

  lemma EqualStep(m: Machine, name: Name, p: int)
    requires m.state == FullState(name)
    ensures var next := Step(m, '=', p);
      next.Some? && next.value == m.(state := EqState(name), param := next.value.param)
  {
    hide ClassOf, FullState, ExactEdge, EqState, StepSeparator, IsFlag, Step, SelectParam;
    FullClass(name);
    FullEdge(name);
    FullIsParam(name);
    ParamDispatch(m, '=', p);
    SelectInName(m);
  }

  lemma FullIsParam(name: Name)
    ensures ParamState(FullState(name)) && ParamState(EqState(name))
  {
    hide FullState;
    FullStates(name);
  }

  lemma FirstValueChar(m: Machine, name: Name, c: char, p: int)
    requires m.state == EqState(name) && c !in "@;?:"
    ensures Step(m, c, p) ==
            Some(m.(param := Some(name), uri := Selected(m.uri, name), v := p,
                state := ValueEdge(EqState(name), Lower(c))))
  {
    hide ClassOf, FullState, EqState, StepSeparator, Step, Lower, ValueEdge;
    EqClass(name);
    FullIsParam(name);
    ParamDispatch(m, c, p);
  }

  lemma NextValueChar(m: Machine, c: char, p: int)
    requires (ClassOf(m.state).ValueText? || ClassOf(m.state).ProtoValue?) && c !in "@;?"
    ensures var next := Step(m, c, p);
      && next.Some?
      && next.value == m.(state := ValueEdge(m.state, Lower(c)), pass := next.value.pass,
                          foundUser := next.value.foundUser)
  {
    hide ClassOf, Step, Lower, ValueEdge, Recorded;
    ValueIsParam(m.state);
    ParamDispatch(m, c, p);
    ColonInValue(m.state);
  }

  lemma ColonInValue(st: State)
    ensures ValueEdge(st, Lower(':')) == VAL_P
  {
  }

  lemma ValueIsParam(st: State)
    requires ClassOf(st).ValueText? || ClassOf(st).ProtoValue?
    ensures ParamState(st)
  {
  }

  lemma ValueClass(name: Name, t: string)
    requires t != ""
    ensures var kind := ClassOf(ValState(name, t));
      if name.Transport? && !ProtoOf(t).OtherProto? then kind == ProtoValue(ProtoOf(t)) else kind.ValueText?
  {
    hide ValState, ProtoOf;
    if name.Transport? {
      ProtoAtEnd(t);
    } else {
      PlainValStates(name, t);
    }
  }

  /** A machine that has read the beginning w of a well-known parameter's value. */
  ghost predicate InValueOf(m: Machine, m0: Machine, name: Name, w: string, v: int) {
    m == m0.(state := ValState(name, LowerText(w)), v := v, param := Some(name), uri := Selected(m0.uri, name),
             pass := m.pass, foundUser := m.foundUser)
  }

  lemma ValOn(name: Name, t: string, c: char)
    ensures ValState(name, t + [c]) == ValueEdge(ValState(name, t), c) && ValState(name, "") == EqState(name)
  {
    assert (t + [c])[..|t|] == t;
  }

  lemma {:induction false} ReadValue(m0: Machine, buf: string, v: nat, name: Name, w: string, k: nat)
      returns (m: Machine)
    requires m0.state == EqState(name) && 0 < k <= |w| && Holds(buf, v, w)
    requires w[0] != ':' && forall i :: 0 <= i < |w| ==> w[i] !in "@;?"
    ensures InValueOf(m, m0, name, w[..k], v) && RunFrom(m0, buf, v) == RunFrom(m, buf, v + k)
    decreases k
  {
    hide Step, RunFrom, ValueEdge, EqState, ClassOf, Lower, Selected, ValState;
    var c := w[k - 1];
    ValOn(name, LowerText(w[..k - 1]), Lower(c));
    assert buf[v + k - 1] == buf[v..v + |w|][k - 1];
    assert w[k - 1] !in "@;?";
    assert w[..k][..k - 1] == w[..k - 1];
    assert LowerText(w[..k]) == LowerText(w[..k - 1]) + [Lower(c)];
    if k == 1 {
      assert w[..0] == "";
      FirstValueChar(m0, name, c, v);
      RunStep(m0, buf, v);
      m := Step(m0, c, v).value;
    } else {
      m := ReadValue(m0, buf, v, name, w, k - 1);
      LowerTextLength(w[..k - 1]);
      ValueClass(name, LowerText(w[..k - 1]));
      NextValueChar(m, c, v + k - 1);
      RunStep(m, buf, v + k - 1);
      m := Step(m, c, v + k - 1).value;
    }
  }

  // ------------------------------------------------ beginnings of names

  /** Inside a name, '=' makes it unknown, and is overlooked. */
  lemma EqualInside(st: State)
    requires InName(st) && NameReading(st) && forall name :: FullState(name) != st
    ensures NameEdge(st, '=') == PARAM_P
  {
    hide FullState, NameEdge, Before, ClassOf;
    RootHasNoName();
    SingleStates(st);
    if ClassOf(st).Letter? {
      EqualAtLetter(st);
    } else {
      LastStates(st);
      EqualAtExact();
    }
  }

  lemma EqualAtLetter(st: State)
    requires ClassOf(st).Letter?
    ensures NameEdge(st, '=') == PARAM_P
  {
    hide LetterEdge, CharOf, ClassOf, Lower, Before;
    EqualIsLower();
    LetterIsOnly(st, '=');
    NoEqualInNames(LetterEdge(st, '='));
  }

  lemma EqualAtExact()
    ensures NameEdge(PR2_R, '=') == PARAM_P && NameEdge(PN_N, '=') == PARAM_P
  {
  }

  lemma NoEqualInNames(st: State)
    ensures CharOf(st) != '='
  {
  }

  lemma LastStates(st: State)
    requires ClassOf(st).LastLetter? || ClassOf(st).Flag?
    requires forall name :: FullState(name) != st
    ensures st == PR2_R || st == PN_N
  {
    hide FullState, ClassOf;
    if ClassOf(st).LastLetter? {
      LastLetterStates(st);
    } else {
      FlagStates(st);
    }
    FullStates(Transport);
    FullStates(Ttl);
    FullStates(Name.UserParam);
    FullStates(Method);
    FullStates(Maddr);
    FullStates(Lr);
    FullStates(R2);
    FullStates(Gr);
    FullStates(PnProvider);
  }

  /** A state inside a name stands for one text. */
  lemma {:induction false} SameStateSameText(a: Name, i: nat, b: Name, j: nat)
    requires i <= |NameWord(a)| && j <= |NameWord(b)| && WordState(a, i) == WordState(b, j)
    ensures NameWord(a)[..i] == NameWord(b)[..j]
    decreases i
  {
    hide NameWord, WordState, Before, CharOf;
    WordStarts(a);
    WordStarts(b);
    RootHasNoName();
    if i > 0 {
      WordChain(a, i);
    }
    if j > 0 {
      WordChain(b, j);
    }
    if i > 0 && j > 0 {
      SameStateSameText(a, i - 1, b, j - 1);
      assert NameWord(a)[..i] == NameWord(a)[..i - 1] + [NameWord(a)[i - 1]];
      assert NameWord(b)[..j] == NameWord(b)[..j - 1] + [NameWord(b)[j - 1]];
    }
  }

  lemma OverlookedEqual(m: Machine, p: int)
    requires NameReading(m.state) && m.state != PARAM && m.state != PARAM_P && NameEdge(m.state, '=') == PARAM_P
    ensures var next := Step(m, '=', p); next.Some? && next.value == m.(state := PARAM_P, param := next.value.param)
  {
    hide ClassOf, LetterEdge, ExactEdge, StartEdge, ParamState, StepSeparator, Recorded, SelectParam, Step, Lower;
    ReadingStates(m.state);
    ParamDispatch(m, '=', p);
    SelectInName(m);
    SingleStates(m.state);
    EqualIsLower();
  }

  lemma EqualIsLower()
    ensures Lower('=') == '='
  {
  }

  // ------------------------------------------------------- names, whole

  lemma ReadWholeName(m0: Machine, buf: string, p: nat, x: Piece) returns (m: Machine)
    requires m0.state == PARAM && CleanPiece(x) && NoPushBefore(x.name) && Holds(buf, p, x.name)
    ensures InNameOf(m, m0, x.name, p) && RunFrom(m0, buf, p) == RunFrom(m, buf, p + |x.name|)
  {
    hide Step, RunFrom, NameState, NameReading, NoPushBefore, InNameOf;
    NoEqualInName(x);
    forall j | 0 <= j < |x.name|
      ensures NameReading(NameState(x.name[..j])) && (j > 0 ==> NameState(x.name[..j]) != PARAM)
    {
      PlainNameReads(x.name, j);
    }
    m := ReadName(m0, buf, p, x.name, |x.name|);
    assert x.name[..|x.name|] == x.name;
  }

  lemma NoEqualInName(x: Piece)
    requires CleanPiece(x)
    ensures '=' !in x.name
  {
  }

  /** What the name alone says about the state behind it. */
  lemma StateBehindName(x: Piece)
    requires CleanPiece(x) && NoPushBefore(x.name)
    ensures KnownName(x).Some? ==> NameState(x.name) == FullState(KnownName(x).value)
    ensures KnownName(x).None? && !Beginning(x) ==> NameState(x.name) == PARAM_P
    ensures Beginning(x) && x.name != "" ==> InName(NameState(x.name)) && NameReading(NameState(x.name))
    ensures Beginning(x) && x.name != "" ==> forall name :: FullState(name) != NameState(x.name)
  {
    hide NameState, NameWord, WordState, NameOf, LowerText, NoPushBefore, NameReading, Before, StartsName;
    var t := LowerText(x.name);
    NoEqualInName(x);
    NameOfWord(t);
    LowerTextLength(x.name);
    if KnownName(x).Some? {
      var name := KnownName(x).value;
      assert NameWord(name)[..|NameWord(name)|] == NameWord(name);
      WordReads(x.name, name, |NameWord(name)|);
    } else if !StartsName(t) {
      OffTheWords(x.name);
    } else if x.name != "" {
      BeginningState(x);
    }
  }

  lemma BeginningState(x: Piece)
    requires Beginning(x) && x.name != ""
    ensures InName(NameState(x.name)) && NameReading(NameState(x.name))
    ensures forall name :: FullState(name) != NameState(x.name)
  {
    hide NameWord, WordState, NameOf, NameReading, Before, LowerText, NameState;
    var t := x.name;
    var name :| LowerText(t) <= NameWord(name);
    LowerTextLength(t);
    assert NameWord(name)[..|t|] == LowerText(t);
    WordReads(t, name, |t|);
    WordsAreNames(name);
    assert NameWord(name)[..|NameWord(name)|] == NameWord(name);
    ShortClass(name, |t|);
    WordChain(name, |t|);
    forall n ensures FullState(n) != NameState(t) {
      if FullState(n) == NameState(t) {
        SameStateSameText(n, |NameWord(n)|, name, |t|);
        assert NameWord(n)[..|NameWord(n)|] == NameWord(n);
        WordsAreNames(n);
      }
    }
  }

  // ----------------------------------------------------------- refusals

  lemma MustRefuse(m: Machine, c: char, q: int)
    requires ClassOf(m.state).MustEqual? && c != '='
    ensures Step(m, c, q).None? && Finish(m, q).None?
  {
    hide Step, StepSeparator;
    MustEqualStates(m.state);
    MustStates(m, q);
    ParamDispatch(m, c, q);
    SelectKeeps(m);
  }

  lemma MustStates(m: Machine, q: int)
    requires m.state.PN2_D? || m.state.PN3_M? || m.state.PN4_R2?
    ensures ParamState(m.state) && ClassOf(m.state).MustEqual? && Finish(m, q).None?
  {
  }

  lemma PushIsMust(t: string)
    requires PushName(LowerText(t))
    ensures NameOf(LowerText(t)).Some? && ClassOf(FullState(NameOf(LowerText(t)).value)).MustEqual?
    ensures NameState(t) == FullState(NameOf(LowerText(t)).value)
  {
    hide NameState, WordState, LowerText, FullState, ClassOf;
    var name := NameOf(LowerText(t)).value;
    NameOfWord(LowerText(t));
    assert NameWord(name)[..|NameWord(name)|] == NameWord(name);
    WordReads(t, name, |NameWord(name)|);
    FullStates(name);
    NameStatesAgree(FullState(name));
    FullIs(name);
  }

  lemma FullIs(name: Name)
    ensures FullState(name) == WordState(name, |NameWord(name)|)
  {
  }

  /** A push name that goes on is refused where it does. */
  lemma ReadRefused(m0: Machine, buf: string, p: nat, x: Piece)
    requires m0.state == PARAM && CleanPiece(x) && !NoPushBefore(x.name) && Holds(buf, p, x.name)
    ensures RunFrom(m0, buf, p) == None
  {
    hide Step, RunFrom, NameState, NameReading, PushName, LowerText, ClassOf, FullState, InNameOf, NameOf;
    var j := FirstPush(x.name, 0);
    NoEqualInName(x);
    var t := x.name[..j];
    forall i | 0 <= i < j ensures NameReading(NameState(x.name[..i])) && (i > 0 ==> NameState(x.name[..i]) != PARAM) {
      assert t[..i] == x.name[..i];
      assert forall k :: 0 <= k < j ==> t[..k] == x.name[..k];
      assert '=' !in t;
      PlainNameReads(t, i);
    }
    var m := ReadName(m0, buf, p, x.name, j);
    PushIsMust(t);
    StateIs(m, m0, t, p);
    assert buf[p + j] == buf[p..p + |x.name|][j];
    assert x.name[j] in x.name;
    MustRefuse(m, x.name[j], p + j);
    RunStep(m, buf, p + j);
  }

  lemma StateIs(m: Machine, m0: Machine, t: string, p: nat)
    requires InNameOf(m, m0, t, p)
    ensures m.state == NameState(t)
  {
  }

  lemma FirstPush(t: string, from: nat) returns (j: nat)
    requires from <= |t| && !NoPushBefore(t) && forall i :: 0 <= i < from ==> !PushName(LowerText(t[..i]))
    ensures j < |t| && PushName(LowerText(t[..j])) && forall i :: 0 <= i < j ==> !PushName(LowerText(t[..i]))
    decreases |t| - from
  {
    hide PushName, LowerText;
    if from < |t| && PushName(LowerText(t[..from])) {
      j := from;
    } else {
      j := FirstPush(t, from + 1);
    }
  }

  // ------------------------------------------------ what follows a name

  /** A ':' makes every name unknown. */
  lemma ColonStep(m: Machine, q: int)
    requires ParamState(m.state) && !ClassOf(m.state).MustEqual?
    requires !ClassOf(m.state).ValueText? && !ClassOf(m.state).ProtoValue?
    ensures var next := Step(m, ':', q);
      && next.Some?
      && next.value == SelectParam(m).(state := PARAM_P, pass := next.value.pass, foundUser := next.value.foundUser)
  {
    hide ClassOf, Step, ParamState, SelectParam, Recorded;
    ParamDispatch(m, ':', q);
    SelectStays(m);
  }

  /** An unknown name, alone or with what follows. */
  lemma ReadPlain(m0: Machine, buf: string, p: nat, x: Piece, uri: Uri, s: int) returns (m: Machine)
    requires AtParam(m0, uri, s, p) && CleanPiece(x) && NoPushBefore(x.name) && Holds(buf, p, PieceText(x))
    requires KnownName(x).None? && !Beginning(x)
    ensures Ended(m, x, uri, s, p) && RunFrom(m0, buf, p) == RunFrom(m, buf, p + |PieceText(x)|)
  {
    hide *;
    PiecePlaces(buf, p, x);
    AtParamIs(m0, uri, s, p);
    m := ReadWholeName(m0, buf, p, x);
    StateBehindName(x);
    UnknownIsLoose(x, uri, p);
    NamedMachine(m, m0, x, p, uri, s);
    ghost var m1 := m;
    LooseText(x);
    NameInside(x);
    SettledMoves(m, s, p);
    m := ReadLoose(m, buf, p, PieceText(x), |x.name|, |PieceText(x)|);
    LooseEnds(m, m1, x, p, uri, s);
  }

  lemma NameInside(x: Piece)
    ensures |PieceText(x)| == |x.name| + |x.rest|
  {
  }

  lemma UnknownIsLoose(x: Piece, uri: Uri, p: int)
    requires KnownName(x).None? && !Beginning(x) && NoPushBefore(x.name)
    ensures LooseFrom(x) == Some(|x.name|) && !Refused(x) && x.name != ""
    ensures Effect(uri, x, p) == Append(uri, UnknownPair(x, p))
  {
    hide LowerText, Scanned;
    EmptyBegins(x.name);
    PushKnown(x);
  }

  lemma EmptyBegins(t: string)
    ensures t == "" ==> StartsName(LowerText(t)) && NameOf(LowerText(t)).None?
  {
    assert "" <= NameWord(Lr);
  }

  lemma PushKnown(x: Piece)
    requires KnownName(x).None?
    ensures !PushName(LowerText(x.name))
  {
  }

  lemma LooseText(x: Piece)
    requires CleanPiece(x)
    ensures forall j :: 0 <= j < |PieceText(x)| ==> PieceText(x)[j] !in "@;?"
  {
    forall j | 0 <= j < |PieceText(x)| ensures PieceText(x)[j] !in "@;?" {
      if j < |x.name| {
        assert x.name[j] !in "@;?:=";
      } else {
        assert x.rest[j - |x.name|] !in "@;?";
      }
    }
  }

  /** The '=' or ':' behind the beginning of a name. */
  lemma BeginningStep(m: Machine, m0: Machine, x: Piece, p: nat)
    requires m0.state == PARAM && InNameOf(m, m0, x.name, p) && CleanPiece(x) && NoPushBefore(x.name)
    requires Beginning(x) && x.rest != ""
    ensures var next := Step(m, x.rest[0], p + |x.name|);
      && next.Some?
      && next.value == m0.(state := PARAM_P, b := p, param := next.value.param, pass := next.value.pass,
                           foundUser := next.value.foundUser)
  {
    hide Step, NameState, ClassOf, NameReading, NameEdge, NoPushBefore, Beginning, ParamState, SelectParam, InName,
         FullState, NameOf, LowerText;
    if x.name == "" {
      NameNotBegun(m0, p);
      FirstEqual(m, p);
    } else {
      StateBehindName(x);
      RootHasNoName();
      InsideIsKnown(NameState(x.name));
      if x.rest[0] == '=' {
        EqualInside(m.state);
        OverlookedEqual(m, p + |x.name|);
      } else {
        ReadingStates(m.state);
        ReadingClass(m.state);
        ColonStep(m, p + |x.name|);
        SelectInName(m);
      }
    }
  }

  lemma InsideIsKnown(st: State)
    requires InName(st)
    ensures st != PARAM && st != PARAM_P
  {
  }

  lemma ReadingClass(st: State)
    requires NameReading(st)
    ensures !ClassOf(st).MustEqual? && !ClassOf(st).ValueText? && !ClassOf(st).ProtoValue? && !ClassOf(st).Equals?
  {
  }

  lemma FirstEqual(m: Machine, q: int)
    requires m.state == PARAM
    ensures Step(m, '=', q) == Some(m.(state := PARAM_P, b := q))
  {
  }

  lemma ReadBeginning(m0: Machine, buf: string, p: nat, x: Piece, uri: Uri, s: int) returns (m: Machine)
    requires AtParam(m0, uri, s, p) && CleanPiece(x) && NoPushBefore(x.name) && Holds(buf, p, PieceText(x))
    requires Beginning(x) && x.rest != ""
    ensures Ended(m, x, uri, s, p) && RunFrom(m0, buf, p) == RunFrom(m, buf, p + |PieceText(x)|)
  {
    hide *;
    PiecePlaces(buf, p, x);
    AtParamIs(m0, uri, s, p);
    m := ReadWholeName(m0, buf, p, x);
    BeginningStep(m, m0, x, p);
    RestPlaces(buf, p, x);
    RunStep(m, buf, p + |x.name|);
    m := Step(m, x.rest[0], p + |x.name|).value;
    ghost var m1 := m;
    BeginningIsLoose(x, uri, p);
    LooseText(x);
    AtParamParts(m0, uri, s, p);
    SettledMoves(m, s, p);
    m := ReadLoose(m, buf, p, PieceText(x), |x.name| + 1, |PieceText(x)|);
    LooseEnds(m, m1, x, p, uri, s);
  }

  lemma AtParamParts(m: Machine, uri: Uri, s: int, p: int)
    requires AtParam(m, uri, s, p)
    ensures m.uri == uri && m.s == s && m.v <= p && !m.errorHeaders
  {
  }

  lemma BeginningIsLoose(x: Piece, uri: Uri, p: int)
    requires Beginning(x) && x.rest != "" && NoPushBefore(x.name)
    ensures LooseFrom(x) == Some(|x.name| + 1) && !Refused(x)
    ensures Effect(uri, x, p) == Append(uri, UnknownPair(x, p))
  {
    hide LowerText, Scanned;
    PushKnown(x);
  }

  // --------------------------------------------- a beginning on its own

  lemma ReadBareBeginning(m0: Machine, buf: string, p: nat, x: Piece, uri: Uri, s: int) returns (m: Machine)
    requires AtParam(m0, uri, s, p) && CleanPiece(x) && NoPushBefore(x.name) && Holds(buf, p, PieceText(x))
    requires Beginning(x) && x.rest == ""
    ensures Ended(m, x, uri, s, p) && RunFrom(m0, buf, p) == RunFrom(m, buf, p + |PieceText(x)|)
  {
    hide Step, RunFrom, NameState, NoPushBefore, Ended, Effect, Holds, Refused, Beginning, NameOf, LowerText, InName,
         NameReading, FullState, EndEffect, CutShort;
    PiecePlaces(buf, p, x);
    m := ReadWholeName(m0, buf, p, x);
    StateBehindName(x);
    BareBeginningStates(x);
    BareBeginningEnds(m, m0, x, p, uri, s);
  }

  /** The few beginnings that end otherwise than most. */
  lemma BareBeginningStates(x: Piece)
    requires CleanPiece(x) && Beginning(x) && x.name != "" && NoPushBefore(x.name)
    ensures var st, t := NameState(x.name), LowerText(x.name);
      && (st == PR2_R <==> t == "r") && (st == PN_N <==> t == "pn")
      && (st == PMA_A <==> t == "ma") && (st == PMA_D <==> t == "mad") && (st == PMA_D2 <==> t == "madd")
  {
    hide NameState, NameWord, WordState, NameOf, LowerText, NoPushBefore, Beginning;
    OddStates();
    OneState(x, R2, 1);
    OneState(x, PnProvider, 2);
    OneState(x, Maddr, 2);
    OneState(x, Maddr, 3);
    OneState(x, Maddr, 4);
  }

  lemma OddStates()
    ensures WordState(R2, 1) == PR2_R && |NameWord(R2)| == 2 && NameWord(R2)[..1] == "r"
    ensures WordState(PnProvider, 2) == PN_N && |NameWord(PnProvider)| == 11 && NameWord(PnProvider)[..2] == "pn"
    ensures |NameWord(Maddr)| == 5
    ensures WordState(Maddr, 2) == PMA_A && NameWord(Maddr)[..2] == "ma"
    ensures WordState(Maddr, 3) == PMA_D && NameWord(Maddr)[..3] == "mad"
    ensures WordState(Maddr, 4) == PMA_D2 && NameWord(Maddr)[..4] == "madd"
  {
  }

  lemma OneState(x: Piece, name: Name, k: nat)
    requires CleanPiece(x) && Beginning(x) && x.name != "" && NoPushBefore(x.name) && 0 < k <= |NameWord(name)|
    ensures NameState(x.name) == WordState(name, k) <==> LowerText(x.name) == NameWord(name)[..k]
  {
    hide NameState, NameWord, WordState, LowerText, NoPushBefore, NameOf, Before;
    NoEqualInName(x);
    NameStates(x.name);
    WordChain(name, k);
    RootHasNoName();
    if LowerText(x.name) == NameWord(name)[..k] {
      WordReads(x.name, name, k);
    }
  }

  lemma BareBeginningEnds(m: Machine, m0: Machine, x: Piece, p: nat, uri: Uri, s: int)
    requires AtParam(m0, uri, s, p) && InNameOf(m, m0, x.name, p) && CleanPiece(x) && NoPushBefore(x.name)
    requires Beginning(x) && x.rest == "" && x.name != ""
    requires InName(NameState(x.name)) && NameReading(NameState(x.name))
    requires forall name :: FullState(name) != NameState(x.name)
    requires var st, t := NameState(x.name), LowerText(x.name);
      && (st == PR2_R <==> t == "r") && (st == PN_N <==> t == "pn")
      && (st == PMA_A <==> t == "ma") && (st == PMA_D <==> t == "mad") && (st == PMA_D2 <==> t == "madd")
    ensures Ended(m, x, uri, s, p)
  {
    hide *;
    NamedMachine(m, m0, x, p, uri, s);
    ReadingStates(m.state);
    ReadingClass(m.state);
    BareBeginningClass(m.state);
    BareEffects(x, uri, p);
    if ClassOf(m.state).Letter? {
      LetterOutcome(m, PieceText(x), p);
    } else {
      ExactOutcome(m, p + |PieceText(x)|);
    }
    Separates(m, Effect(uri, x, p), s, p + |PieceText(x)|);
    EndedBy(m, x, uri, s, p);
  }

  /** The machine behind a name, part by part. */
  lemma NamedMachine(m: Machine, m0: Machine, x: Piece, p: nat, uri: Uri, s: int)
    requires AtParam(m0, uri, s, p) && InNameOf(m, m0, x.name, p) && x.name != ""
    ensures m.state == NameState(x.name) && m.b == p && m.v <= p && m.uri == uri && m.s == s
    ensures Settled(m, s, p + |PieceText(x)|) && !m.errorHeaders
  {
    hide NameState;
  }

  lemma EndedBy(m: Machine, x: Piece, uri: Uri, s: int, p: nat)
    requires var q := p + |PieceText(x)|;
      && !Refused(x) && Goes(m, Effect(uri, x, p), s, q)
      && Finish(m, q) == if CutShort(x) then None else Some(EndEffect(uri, x, p).(params := Span(s, q - s)))
    ensures Ended(m, x, uri, s, p)
  {
    hide Refused, Goes, Effect, Finish, CutShort, EndEffect, PieceText;
  }

  /** A bare beginning on which most letters would go on. */
  lemma LetterOutcome(m: Machine, t: string, p: nat)
    requires m.b == p && m.v <= p && ClassOf(m.state).Letter?
    ensures Recorded(SelectParam(m), p + |t|) == Append(m.uri, PairAt(t, p, None))
    ensures Finish(m, p + |t|) == if m.state == PMA_A || m.state == PMA_D || m.state == PMA_D2 then None
                                  else Some(m.uri.(params := Span(m.s, p + |t| - m.s)))
  {
    hide *;
    BareRecords(m, p + |t|);
    BarePair(m, t, p, p + |t|);
    NotFullMaddr();
  }

  /** A bare beginning on which one exact character would go on. */
  lemma ExactOutcome(m: Machine, q: nat)
    requires m.state == PR2_R || m.state == PN_N
    ensures Recorded(SelectParam(m), q) == m.uri && Finish(m, q) == Some(m.uri.(params := Span(m.s, q - m.s)))
  {
    hide *;
    ExactClasses();
    BareRecords(m, q);
  }

  lemma NotFullMaddr()
    ensures !ClassOf(PMA_R).Letter?
  {
  }

  lemma BareBeginningClass(st: State)
    requires InName(st) && NameReading(st) && forall name :: FullState(name) != st
    ensures ClassOf(st).Letter? || (ClassOf(st).LastLetter? && (st == PR2_R || st == PN_N))
    ensures ClassOf(st).Letter? ==> st != PR2_R && st != PN_N
  {
    hide FullState, InName, ClassOf;
    InsideIsKnown(st);
    SingleStates(st);
    ExactClasses();
    if !ClassOf(st).Letter? {
      LastStates(st);
    }
  }

  lemma ExactClasses()
    ensures ClassOf(PR2_R).LastLetter? && ClassOf(PN_N).LastLetter?
  {
  }

  lemma BareRecords(m: Machine, q: int)
    ensures ClassOf(m.state).Letter? ==> SelectParam(m) == m && Recorded(m, q) == RecordUnknown(m, q)
    ensures ClassOf(m.state).LastLetter? ==> SelectParam(m) == m && Recorded(m, q) == m.uri
    ensures ClassOf(m.state).Letter? || ClassOf(m.state).LastLetter? ==>
      Finish(m, q) == if m.state == PMA_A || m.state == PMA_D || m.state == PMA_D2 || m.state == PMA_R then None
                      else Some(m.uri.(params := Span(m.s, q - m.s)))
  {
    hide RecordUnknown;
  }

  lemma BarePair(m: Machine, t: string, p: nat, q: nat)
    requires m.b == p && m.v <= p && q == p + |t|
    ensures RecordUnknown(m, q) == Append(m.uri, PairAt(t, p, None))
  {
  }

  lemma BareEffects(x: Piece, uri: Uri, p: int)
    requires Beginning(x) && x.rest == "" && NoPushBefore(x.name)
    ensures var t := LowerText(x.name);
      && !Refused(x) && EndEffect(uri, x, p) == uri
      && Effect(uri, x, p) == (if t == "r" || t == "pn" then uri else Append(uri, PairAt(PieceText(x), p, None)))
      && (CutShort(x) <==> t == "ma" || t == "mad" || t == "madd")
  {
    hide LowerText;
    PushKnown(x);
    BeginsMaddr();
  }

  // ------------------------------------------------- well-known names, whole

  /** The machine behind a well-known name. */
  lemma ReadKnownName(m0: Machine, buf: string, p: nat, x: Piece, uri: Uri, s: int) returns (m: Machine)
    requires AtParam(m0, uri, s, p) && CleanPiece(x) && NoPushBefore(x.name) && Holds(buf, p, x.name)
    requires KnownName(x).Some?
    ensures m.state == FullState(KnownName(x).value) && m.b == p && m.v <= p && m.uri == uri && m.s == s
    ensures Settled(m, s, p + |PieceText(x)|) && !m.errorHeaders && x.name != ""
    ensures RunFrom(m0, buf, p) == RunFrom(m, buf, p + |x.name|)
  {
    hide *;
    AtParamIs(m0, uri, s, p);
    m := ReadWholeName(m0, buf, p, x);
    StateBehindName(x);
    KnownNotEmpty(x);
    NamedMachine(m, m0, x, p, uri, s);
  }

  lemma AtParamIs(m: Machine, uri: Uri, s: int, p: int)
    requires AtParam(m, uri, s, p)
    ensures m.state == PARAM
  {
  }

  lemma KnownNotEmpty(x: Piece)
    requires KnownName(x).Some?
    ensures x.name != ""
  {
    hide LowerText;
    EmptyBegins(x.name);
  }

  /** A push name is refused unless '=' follows. */
  lemma PushEnds(m: Machine, x: Piece, uri: Uri, s: int, p: nat)
    requires PushName(LowerText(x.name)) && x.rest == "" && m.state == FullState(KnownName(x).value)
    requires KnownName(x).Some?
    ensures Ended(m, x, uri, s, p)
  {
    hide Step, Finish, LowerText, FullState, ClassOf, NoPushBefore, NameOf, PieceText;
    PushIsMust(x.name);
    MustRefuse(m, ';', p + |PieceText(x)|);
    MustRefuse(m, '?', p + |PieceText(x)|);
  }

  lemma PushColon(m: Machine, x: Piece, q: int)
    requires PushName(LowerText(x.name)) && KnownName(x).Some? && m.state == FullState(KnownName(x).value)
    ensures Step(m, ':', q).None?
  {
    hide Step, Finish, LowerText, FullState, ClassOf, NameOf;
    PushIsMust(x.name);
    MustRefuse(m, ':', q);
  }

  lemma BareKnownEffects(x: Piece, uri: Uri, p: int)
    requires KnownName(x).Some? && x.rest == "" && !Refused(x)
    ensures var name := KnownName(x).value;
      var next := if IsFlag(name) then uri.(names := uri.names[name := Span(p, |PieceText(x)|)]) else uri;
      && Effect(uri, x, p) == next && EndEffect(uri, x, p) == next && (CutShort(x) <==> name.Maddr?)
      && !PushName(LowerText(x.name)) && !name.PnPrid? && !name.PnParam? && !name.PnPurr?
      && (IsFlag(name) ==> !name.Maddr?)
  {
    hide LowerText, NoPushBefore;
    BeginsMaddr();
    assert PieceText(x) == x.name;
  }

  lemma FlagOutcome(m: Machine, name: Name, p: nat, q: nat)
    requires m.state == FullState(name) && IsFlag(name) && m.b == p
    ensures var next := m.uri.(names := m.uri.names[name := Span(p, q - p)]);
      Recorded(SelectParam(m), q) == next && Finish(m, q) == Some(next.(params := Span(m.s, q - m.s)))
  {
    hide FullState, ClassOf, Finish, IsFlag;
    FullClass(name);
    FlagFinish(m, q);
    SelectInName(m);
  }

  lemma FlagFinish(m: Machine, q: int)
    requires ClassOf(m.state).Flag?
    ensures Finish(m, q) ==
      Some(m.uri.(params := Span(m.s, q - m.s), names := m.uri.names[ClassOf(m.state).name := Span(m.b, q - m.b)]))
  {
  }

  lemma UnvaluedOutcome(m: Machine, name: Name, q: nat)
    requires m.state == FullState(name) && !IsFlag(name) && !name.PnPrid? && !name.PnParam? && !name.PnPurr?
    ensures Recorded(SelectParam(m), q) == m.uri
    ensures Finish(m, q) == if name.Maddr? then None else Some(m.uri.(params := Span(m.s, q - m.s)))
  {
    hide FullState, ClassOf, Finish, Recorded, SelectParam, NameWord;
    FullStates(name);
    UnvaluedClasses();
    BareRecords(m, q);
  }

  lemma UnvaluedClasses()
    ensures ClassOf(PT_T2).LastLetter? && ClassOf(PTTL_L).LastLetter? && ClassOf(PU_R).LastLetter?
    ensures ClassOf(PM_D).LastLetter? && ClassOf(PMA_R).LastLetter?
  {
  }

  lemma KnownIsParam(name: Name)
    requires !name.PnPrid? && !name.PnParam? && !name.PnPurr?
    ensures ParamState(FullState(name)) && !ClassOf(FullState(name)).MustEqual?
  {
    hide FullState, ClassOf, ParamState, NameWord;
    FullIsParam(name);
    FullStates(name);
    UnvaluedClasses();
    FullClass(name);
  }

  lemma ReadBareKnown(m0: Machine, buf: string, p: nat, x: Piece, uri: Uri, s: int) returns (m: Machine)
    requires AtParam(m0, uri, s, p) && CleanPiece(x) && NoPushBefore(x.name) && Holds(buf, p, PieceText(x))
    requires KnownName(x).Some? && x.rest == ""
    ensures Ended(m, x, uri, s, p) && RunFrom(m0, buf, p) == RunFrom(m, buf, p + |PieceText(x)|)
  {
    hide *;
    PiecePlaces(buf, p, x);
    NothingBehind(x);
    m := ReadKnownName(m0, buf, p, x, uri, s);
    var name, q := KnownName(x).value, p + |PieceText(x)|;
    RefusedIs(x);
    if Refused(x) {
      PushEnds(m, x, uri, s, p);
    } else {
      BareKnownEffects(x, uri, p);
      KnownIsParam(name);
      if IsFlag(name) {
        FlagOutcome(m, name, p, q);
      } else {
        UnvaluedOutcome(m, name, q);
      }
      Separates(m, Effect(uri, x, p), s, q);
      EndedBy(m, x, uri, s, p);
    }
  }

  lemma NothingBehind(x: Piece)
    requires x.rest == ""
    ensures |PieceText(x)| == |x.name|
  {
  }

  lemma RefusedIs(x: Piece)
    requires NoPushBefore(x.name)
    ensures Refused(x) <==> PushName(LowerText(x.name)) && (x.rest == "" || x.rest[0] == ':')
  {
  }

  /** A ':' behind a well-known name. */
  lemma KnownColon(m: Machine, name: Name, q: int)
    requires m.state == FullState(name) && !name.PnPrid? && !name.PnParam? && !name.PnPurr?
    ensures var next := Step(m, ':', q);
      && next.Some?
      && next.value == m.(state := PARAM_P, param := next.value.param, pass := next.value.pass,
                          foundUser := next.value.foundUser)
  {
    hide FullState, ClassOf, ParamState, Step, SelectParam, IsFlag, NameWord;
    KnownIsParam(name);
    FullClass(name);
    ColonStep(m, q);
    SelectInName(m);
  }

  /** A ':' directly behind the '=' of a well-known name. */
  lemma EqualColon(m: Machine, name: Name, q: int)
    requires m.state == EqState(name)
    ensures var next := Step(m, ':', q);
      && next.Some?
      && next.value == m.(state := PARAM_P, param := next.value.param, uri := Selected(m.uri, name),
                          pass := next.value.pass, foundUser := next.value.foundUser)
  {
    hide FullState, EqState, ClassOf, ParamState, Step;
    EqClass(name);
    FullIsParam(name);
    ColonStep(m, q);
  }

  lemma KnownLooseFacts(x: Piece, uri: Uri, p: int)
    requires KnownName(x).Some? && NoPushBefore(x.name) && !Refused(x) && x.rest != ""
    requires x.rest[0] == ':' || (x.rest[0] == '=' && |x.rest| > 1 && x.rest[1] == ':')
    ensures LooseFrom(x) == Some(if x.rest[0] == ':' then |x.name| + 1 else |x.name| + 2)
    ensures var selected := if x.rest[0] == ':' then uri else Selected(uri, KnownName(x).value);
      Effect(uri, x, p) == Append(selected, UnknownPair(x, p))
    ensures x.rest[0] == ':' ==> !PushName(LowerText(x.name))
  {
    hide LowerText, NoPushBefore, Scanned, NameOf, UnknownPair, Append;
  }

  lemma NotPush(x: Piece)
    requires KnownName(x).Some? && !PushName(LowerText(x.name))
    ensures var name := KnownName(x).value; !name.PnPrid? && !name.PnParam? && !name.PnPurr?
  {
    hide LowerText;
  }

  lemma ReadKnownLoose(m0: Machine, buf: string, p: nat, x: Piece, uri: Uri, s: int) returns (m: Machine)
    requires AtParam(m0, uri, s, p) && CleanPiece(x) && NoPushBefore(x.name) && Holds(buf, p, PieceText(x))
    requires KnownName(x).Some? && x.rest != "" && !Refused(x)
    requires x.rest[0] == ':' || (x.rest[0] == '=' && |x.rest| > 1 && x.rest[1] == ':')
    ensures Ended(m, x, uri, s, p) && RunFrom(m0, buf, p) == RunFrom(m, buf, p + |PieceText(x)|)
  {
    hide *;
    PiecePlaces(buf, p, x);
    KnownLooseFacts(x, uri, p);
    m := ReadKnownName(m0, buf, p, x, uri, s);
    var name, q := KnownName(x).value, p + |x.name|;
    RestPlaces(buf, p, x);
    if x.rest[0] == ':' {
      NotPush(x);
      KnownColon(m, name, q);
      RunStep(m, buf, q);
      m := Step(m, ':', q).value;
    } else {
      EqualStep(m, name, q);
      RunStep(m, buf, q);
      m := Step(m, '=', q).value;
      EqualColon(m, name, q + 1);
      RunStep(m, buf, q + 1);
      m := Step(m, ':', q + 1).value;
    }
    ghost var m1 := m;
    LooseText(x);
    SettledMoves(m, s, p);
    m := ReadLoose(m, buf, p, PieceText(x), LooseFrom(x).value, |PieceText(x)|);
    LooseEnds(m, m1, x, p, uri, s);
  }

  lemma SettledMoves(m: Machine, s: int, p: int)
    requires m.s == s && m.v <= p && !m.errorHeaders
    ensures Settled(m, s, p)
  {
  }

  lemma RestPlaces(buf: string, p: nat, x: Piece)
    requires Holds(buf, p, PieceText(x))
    ensures |PieceText(x)| == |x.name| + |x.rest| && p + |PieceText(x)| <= |buf|
    ensures forall i :: 0 <= i < |x.rest| ==> buf[p + |x.name| + i] == x.rest[i]
    ensures x.rest != "" ==> Holds(buf, p + |x.name| + 1, x.rest[1..])
  {
    var t := PieceText(x);
    forall i | 0 <= i < |x.rest| ensures buf[p + |x.name| + i] == x.rest[i] {
      assert buf[p..p + |t|][|x.name| + i] == t[|x.name| + i];
    }
    if x.rest != "" {
      assert buf[p + |x.name| + 1..p + |t|] == t[|x.name| + 1..];
      assert t[|x.name| + 1..] == x.rest[1..];
    }
  }

  lemma EmptyValueEffects(x: Piece, uri: Uri, p: int)
    requires KnownName(x).Some? && x.rest == "=" && NoPushBefore(x.name)
    ensures var name := KnownName(x).value;
      && !Refused(x) && Effect(uri, x, p) == Selected(uri, name)
      && EndEffect(uri, x, p) ==
         (if IsFlag(name) then uri.(names := uri.names[name := Span(p, |PieceText(x)|)]) else uri)
      && (CutShort(x) <==> name.Maddr? || name.PnPrid? || name.PnParam? || name.PnPurr?)
  {
    hide LowerText, NoPushBefore, Selected;
  }

  lemma EmptyValueOutcome(m: Machine, name: Name, p: nat, q: nat)
    requires m.state == EqState(name) && m.b == p
    ensures Recorded(SelectParam(m), q) == Selected(m.uri, name)
    ensures Finish(m, q) ==
      if name.Maddr? || name.PnPrid? || name.PnParam? || name.PnPurr? then None
      else
        var next := if IsFlag(name) then m.uri.(names := m.uri.names[name := Span(p, q - p)]) else m.uri;
        Some(next.(params := Span(m.s, q - m.s)))
  {
    hide ClassOf, Finish, EqState;
    EqClass(name);
    EqualsFinish(m, q);
    EqIsMaddr(name);
  }

  lemma EqIsMaddr(name: Name)
    ensures EqState(name) == PMA_eq <==> name.Maddr?
  {
  }

  lemma EqualsFinish(m: Machine, q: int)
    requires ClassOf(m.state).Equals?
    ensures var name := ClassOf(m.state).name;
      Finish(m, q) ==
        if m.state == PMA_eq || name.PnPrid? || name.PnParam? || name.PnPurr? then None
        else
          var next := if IsFlag(name) then m.uri.(names := m.uri.names[name := Span(m.b, q - m.b)]) else m.uri;
          Some(next.(params := Span(m.s, q - m.s)))
  {
    hide ClassOf, Finish, FinishParam;
    EqualsStates(m.state);
    EqualsDispatch(m, q);
    EqualsFinishParam(m, q);
  }

  lemma EqualsDispatch(m: Machine, q: int)
    requires m.state.PT_eq? || m.state.PTTL_eq? || m.state.PU_eq? || m.state.PM_eq? || m.state.PMA_eq?
             || m.state.PLR_eq? || m.state.PG_eq? || m.state.PR2_eq? || m.state.PN1_eq? || m.state.PN2_eq?
             || m.state.PN3_eq? || m.state.PN4_eq?
    ensures Finish(m, q) == if m.state.PMA_eq? then None else FinishParam(m, q)
  {
    hide FinishParam;
  }

  lemma EqualsFinishParam(m: Machine, q: int)
    requires ClassOf(m.state).Equals?
    ensures var name := ClassOf(m.state).name;
      FinishParam(m, q) ==
        if name.PnPrid? || name.PnParam? || name.PnPurr? then None
        else
          var next := if IsFlag(name) then m.uri.(names := m.uri.names[name := Span(m.b, q - m.b)]) else m.uri;
          Some(next.(params := Span(m.s, q - m.s)))
  {
    hide ClassOf;
  }

  lemma ReadEmptyValue(m0: Machine, buf: string, p: nat, x: Piece, uri: Uri, s: int) returns (m: Machine)
    requires AtParam(m0, uri, s, p) && CleanPiece(x) && NoPushBefore(x.name) && Holds(buf, p, PieceText(x))
    requires KnownName(x).Some? && x.rest == "="
    ensures Ended(m, x, uri, s, p) && RunFrom(m0, buf, p) == RunFrom(m, buf, p + |PieceText(x)|)
  {
    hide *;
    PiecePlaces(buf, p, x);
    m := ReadKnownName(m0, buf, p, x, uri, s);
    var name, q := KnownName(x).value, p + |x.name|;
    RestPlaces(buf, p, x);
    EqualStep(m, name, q);
    RunStep(m, buf, q);
    m := Step(m, '=', q).value;
    EmptyValueEffects(x, uri, p);
    EmptyValueOutcome(m, name, p, q + 1);
    SettledMoves(m, s, q + 1);
    EqIsParam(name);
    Separates(m, Effect(uri, x, p), s, q + 1);
    EndedBy(m, x, uri, s, p);
  }

  lemma EqIsParam(name: Name)
    ensures ParamState(EqState(name)) && !ClassOf(EqState(name)).MustEqual?
  {
    hide ClassOf, EqState, ParamState;
    EqClass(name);
    FullIsParam(name);
  }

  lemma ValuedEffects(x: Piece, uri: Uri, p: int)
    requires KnownName(x).Some? && NoPushBefore(x.name) && |x.rest| > 1 && x.rest[0] == '=' && x.rest[1] != ':'
    ensures var name := KnownName(x).value;
      var u := uri.(names := uri.names[name := Span(p, |PieceText(x)|)],
                    vals := uri.vals[name := Span(p + |x.name| + 1, |x.rest| - 1)]);
      var next := if name.Transport? then u.(proto := ProtoOf(LowerText(x.rest[1..]))) else u;
      !Refused(x) && Effect(uri, x, p) == next && EndEffect(uri, x, p) == next && !CutShort(x)
  {
    hide LowerText, NoPushBefore, ProtoOf;
  }

  lemma ValuedOutcome(m: Machine, name: Name, w: string, uri: Uri, b: nat, v: nat, q: nat)
    requires w != "" && m.state == ValState(name, LowerText(w)) && m.param == Some(name)
    requires m.uri == Selected(uri, name) && m.b == b && m.v == v
    ensures var u := uri.(names := uri.names[name := Span(b, q - b)], vals := uri.vals[name := Span(v, q - v)]);
      var next := if name.Transport? then u.(proto := ProtoOf(LowerText(w))) else u;
      Recorded(SelectParam(m), q) == next && Finish(m, q) == Some(next.(params := Span(m.s, q - m.s)))
    ensures ParamState(m.state) && !ClassOf(m.state).MustEqual?
  {
    hide LowerText, ValState, ProtoOf, ClassOf, ParamState, Finish;
    LowerTextLength(w);
    ValueClass(name, LowerText(w));
    ValueIsParam(m.state);
    ValueFinish(m, q);
  }

  lemma ValueFinish(m: Machine, q: int)
    requires ClassOf(m.state).ValueText? || ClassOf(m.state).ProtoValue?
    ensures Finish(m, q) == Some(Recorded(m, q).(params := Span(m.s, q - m.s)))
  {
    hide RecordValue;
  }

  lemma ReadValued(m0: Machine, buf: string, p: nat, x: Piece, uri: Uri, s: int) returns (m: Machine)
    requires AtParam(m0, uri, s, p) && CleanPiece(x) && NoPushBefore(x.name) && Holds(buf, p, PieceText(x))
    requires KnownName(x).Some? && |x.rest| > 1 && x.rest[0] == '=' && x.rest[1] != ':'
    ensures Ended(m, x, uri, s, p) && RunFrom(m0, buf, p) == RunFrom(m, buf, p + |PieceText(x)|)
  {
    hide *;
    PiecePlaces(buf, p, x);
    m := ReadKnownName(m0, buf, p, x, uri, s);
    var name, q, w := KnownName(x).value, p + |x.name|, x.rest[1..];
    RestPlaces(buf, p, x);
    EqualStep(m, name, q);
    RunStep(m, buf, q);
    m := Step(m, '=', q).value;
    ghost var m1 := m;
    ValueClean(x);
    m := ReadValue(m, buf, q + 1, name, w, |w|);
    ValueRead(m, m1, name, w, q + 1);
    ValuedEffects(x, uri, p);
    ValuedOutcome(m, name, w, uri, p, q + 1, q + |x.rest|);
    SettledMoves(m, s, q + |x.rest|);
    Separates(m, Effect(uri, x, p), s, q + |x.rest|);
    EndedBy(m, x, uri, s, p);
  }

  lemma ValueClean(x: Piece)
    requires CleanPiece(x) && x.rest != ""
    ensures forall i :: 0 <= i < |x.rest[1..]| ==> x.rest[1..][i] !in "@;?"
  {
  }

  lemma ValueRead(m: Machine, m1: Machine, name: Name, w: string, v: nat)
    requires InValueOf(m, m1, name, w[..|w|], v)
    ensures m == m1.(state := ValState(name, LowerText(w)), v := v, param := Some(name), uri := Selected(m1.uri, name),
                     pass := m.pass, foundUser := m.foundUser)
  {
    hide ValState, LowerText;
    assert w[..|w|] == w;
  }

  // ----------------------------------------------------- every parameter

  /** The refusal comes inside the parameter and not behind it. */
  ghost predicate RefusedEarly(x: Piece) {
    !NoPushBefore(x.name) || (PushName(LowerText(x.name)) && x.rest != "" && x.rest[0] == ':')
  }

  lemma ReadRefusedEarly(m0: Machine, buf: string, p: nat, x: Piece, uri: Uri, s: int)
    requires AtParam(m0, uri, s, p) && CleanPiece(x) && Holds(buf, p, PieceText(x)) && RefusedEarly(x)
    ensures RunFrom(m0, buf, p) == None
  {
    hide *;
    PiecePlaces(buf, p, x);
    AtParamIs(m0, uri, s, p);
    if !NoPushBefore(x.name) {
      ReadRefused(m0, buf, p, x);
    } else {
      EarlyColon(x);
      PushIsMust(x.name);
      var m := ReadKnownName(m0, buf, p, x, uri, s);
      PushColon(m, x, p + |x.name|);
      RestPlaces(buf, p, x);
      RunStep(m, buf, p + |x.name|);
    }
  }

  lemma EarlyColon(x: Piece)
    requires RefusedEarly(x) && NoPushBefore(x.name)
    ensures PushName(LowerText(x.name)) && KnownName(x).Some? && x.rest != "" && x.rest[0] == ':'
  {
    hide LowerText;
  }

  /** Whatever the parameter, it is refused, or the machine behind it is ready to
      record exactly its effect. */
  lemma ReadPiece(m0: Machine, buf: string, p: nat, x: Piece, uri: Uri, s: int) returns (m: Machine)
    requires AtParam(m0, uri, s, p) && CleanPiece(x) && Holds(buf, p, PieceText(x))
    ensures RefusedEarly(x) ==> Refused(x) && RunFrom(m0, buf, p) == None
    ensures !RefusedEarly(x) ==> Ended(m, x, uri, s, p) && RunFrom(m0, buf, p) == RunFrom(m, buf, p + |PieceText(x)|)
  {
    hide RunFrom, Step, Ended, AtParam, Holds, LowerText, PieceText, NameOf, Beginning, NoPushBefore;
    m := m0;
    if RefusedEarly(x) {
      ReadRefusedEarly(m0, buf, p, x, uri, s);
    } else if KnownName(x).None? {
      if !Beginning(x) {
        m := ReadPlain(m0, buf, p, x, uri, s);
      } else if x.rest == "" {
        m := ReadBareBeginning(m0, buf, p, x, uri, s);
      } else {
        m := ReadBeginning(m0, buf, p, x, uri, s);
      }
    } else if x.rest == "" {
      m := ReadBareKnown(m0, buf, p, x, uri, s);
    } else if x.rest[0] == ':' || (|x.rest| > 1 && x.rest[1] == ':') {
      m := ReadKnownLoose(m0, buf, p, x, uri, s);
    } else if x.rest == "=" {
      m := ReadEmptyValue(m0, buf, p, x, uri, s);
    } else {
      m := ReadValued(m0, buf, p, x, uri, s);
    }
  }

  // -------------------------------------------------- names and values

  /** When the parser splits an unknown parameter with a value between its name
      and its value: exactly if no well-known name begins with its name, and no
      '=' follows a ':' in its value. */
  lemma UnknownSplitIff(x: Piece, uri: Uri, p: int)
    requires CleanPiece(x) && x.rest != "" && x.rest[0] == '=' && KnownName(x).None? && NoPushBefore(x.name)
    requires |uri.unknown| < MAX_U_PARAMS
    ensures var value := if |x.rest| > 1 then Span(p + |x.name| + 1, |x.rest| - 1) else NO_SPAN;
      && Effect(uri, x, p) == EndEffect(uri, x, p)
      && (Effect(uri, x, p) == uri.(unknown := uri.unknown + [(Span(p, |x.name|), value)]) <==>
          !StartsName(LowerText(x.name)) && !EqualBehindColon(x.rest))
  {
    hide LowerText, NameOf, StartsName;
    var t, n := PieceText(x), |x.name|;
    var from := if StartsName(LowerText(x.name)) then n + 1 else n;
    var e := Scanned(t, from, |t|).1;
    var value := if |x.rest| > 1 then Span(p + n + 1, |x.rest| - 1) else NO_SPAN;
    assert t[n] == x.rest[0];
    ScannedBound(t, from, |t|);
    assert Effect(uri, x, p) == uri.(unknown := uri.unknown + [PairAt(t, p, e)]);
    if from == n {
      LastEqual(t, n, |t|);
      RestOf(x);
      assert e == Some(n) <==> !EqualBehindColon(x.rest);
    }
    assert uri.unknown + [PairAt(t, p, e)] == uri.unknown + [(Span(p, n), value)] <==>
           PairAt(t, p, e) == (Span(p, n), value) by {
      LastDecides(uri.unknown, PairAt(t, p, e), (Span(p, n), value));
    }
  }

  lemma LastDecides(a: seq<(Span, Span)>, x: (Span, Span), y: (Span, Span))
    ensures a + [x] == a + [y] <==> x == y
  {
    assert (a + [x])[|a|] == x && (a + [y])[|a|] == y;
  }

  ghost predicate EqualBehindColon(t: string) {
    exists i, j :: 0 <= i < j < |t| && t[i] == ':' && t[j] == '='
  }

  lemma RestOf(x: Piece)
    ensures EqualBehindColon(x.rest) <==>
      exists i, j :: |x.name| <= i < j < |PieceText(x)| && PieceText(x)[i] == ':' && PieceText(x)[j] == '='
  {
    var t, n := PieceText(x), |x.name|;
    if EqualBehindColon(x.rest) {
      var i, j :| 0 <= i < j < |x.rest| && x.rest[i] == ':' && x.rest[j] == '=';
      assert t[n + i] == ':' && t[n + j] == '=';
    }
    if i, j :| n <= i < j < |t| && t[i] == ':' && t[j] == '=' {
      assert x.rest[i - n] == ':' && x.rest[j - n] == '=';
    }
  }

  /** If t has a '=' at n, it remains the last one that begins a value until a
      later '=' follows a ':'. */
  lemma {:induction false} LastEqual(t: string, n: nat, k: nat)
    requires n < k <= |t| && t[n] == '='
    ensures var (inValue, e) := Scanned(t, n, k);
      && e.Some?
      && (e == Some(n) <==> !exists i, j :: n <= i < j < k && t[i] == ':' && t[j] == '=')
      && (e == Some(n) && inValue ==> forall i :: n <= i < k ==> t[i] != ':')
      && (!inValue ==> exists i :: n <= i < k && t[i] == ':')
    decreases k
  {
    if k > n + 1 {
      LastEqual(t, n, k - 1);
      ScannedBound(t, n, k - 1);
    }
  }
}
