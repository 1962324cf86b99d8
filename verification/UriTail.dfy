/** Whole URIs with parameters and headers behind the host. */
module UriTail {
  import opened Decimal
  import opened Chars
  import opened UriParser
  import opened UriSpans
  import opened UriUserSplit
  import opened UriNames
  import opened UriParams

  // ------------------------------------------------------ what is recorded

  /** Parameters with semicolons between them. */
  function Joined(ps: seq<Piece>): string
    requires ps != []
  {
    if |ps| == 1 then PieceText(ps[0]) else Joined(ps[..|ps| - 1]) + ";" + PieceText(ps[|ps| - 1])
  }

  /** Where the last of the parameters begins if the first begins at p. */
  function LastPlace(ps: seq<Piece>, p: nat): nat
    requires ps != []
  {
    if |ps| == 1 then p else p + |Joined(ps[..|ps| - 1])| + 1
  }

  /** What parameters that begin at p add to a URI, one after the other, if more
      text follows them. */
  ghost function Effects(uri: Uri, ps: seq<Piece>, p: nat): Uri {
    if ps == [] then uri else Effect(Effects(uri, ps[..|ps| - 1], p), ps[|ps| - 1], LastPlace(ps, p))
  }

  /** The same if the text may end behind them. */
  ghost function ParamParts(uri: Uri, ps: seq<Piece>, p: nat, more: bool): Uri {
    if ps == [] || more then Effects(uri, ps, p)
    else EndEffect(Effects(uri, ps[..|ps| - 1], p), ps[|ps| - 1], LastPlace(ps, p))
  }

  function TailText(ps: seq<Piece>, headers: Option<string>): string {
    (if ps == [] then "" else ";" + Joined(ps)) + if headers.None? then "" else "?" + headers.value
  }

  /** What the text behind a host that ends at p adds to a URI. */
  ghost function TailParts(uri: Uri, p: nat, ps: seq<Piece>, headers: Option<string>): Uri {
    var located :=
      if ps == [] then uri
      else ParamParts(uri, ps, p + 1, headers.Some?).(params := Span(p + 1, |Joined(ps)|));
    var q := if ps == [] then p else p + 1 + |Joined(ps)|;
    if headers.None? then located else located.(headers := Span(q + 1, |headers.value|))
  }

  /** The parser refuses one of the parameters, or the end behind the last. */
  ghost predicate TailRefused(ps: seq<Piece>, headers: Option<string>) {
    || (exists i :: 0 <= i < |ps| && Refused(ps[i]))
    || (headers.None? && ps != [] && CutShort(ps[|ps| - 1]))
  }

  ghost predicate CleanHeaders(t: string) {
    forall i :: 0 <= i < |t| ==> t[i] !in "@;"
  }

  ghost predicate CleanTail(ps: seq<Piece>, headers: Option<string>) {
    (forall i :: 0 <= i < |ps| ==> CleanPiece(ps[i])) && (headers.Some? ==> CleanHeaders(headers.value))
  }

  // ---------------------------------------------------------- the whole tail

  /** What reading the rest of a text and its end gives. */
  function Result(m: Machine, buf: string, p: nat): Option<Uri> {
    var last := RunFrom(m, buf, p);
    if last.None? then None else Finish(last.value, |buf|)
  }

  lemma ResultMoves(m: Machine, buf: string, p: nat, n: Machine, q: nat)
    requires RunFrom(m, buf, p) == RunFrom(n, buf, q)
    ensures Result(m, buf, p) == Result(n, buf, q)
  {
  }

  lemma ResultStep(m: Machine, buf: string, p: nat)
    requires p < |buf|
    ensures Result(m, buf, p) ==
            if Step(m, buf[p], p).None? then None else Result(Step(m, buf[p], p).value, buf, p + 1)
  {
    hide Step, Finish;
    RunStep(m, buf, p);
  }

  lemma ResultEnds(m: Machine, buf: string, p: nat)
    requires p >= |buf|
    ensures Result(m, buf, p) == Finish(m, |buf|)
  {
    hide Finish;
    RunEnds(m, buf, p);
  }

  /** The parser refuses a parameter before it has read the last. */
  ghost predicate Dead(ps: seq<Piece>)
    requires ps != []
  {
    (exists i :: 0 <= i < |ps| - 1 && Refused(ps[i])) || RefusedEarly(ps[|ps| - 1])
  }

  lemma DeadStep(ps: seq<Piece>)
    requires |ps| > 1
    ensures var front := ps[..|ps| - 1];
      Dead(ps) <==> Dead(front) || Refused(front[|front| - 1]) || RefusedEarly(ps[|ps| - 1])
  {
    hide Refused, RefusedEarly;
    var front := ps[..|ps| - 1];
    assert forall i :: 0 <= i < |front| ==> front[i] == ps[i];
    EarlyIsRefused(front[|front| - 1]);
    if i :| 0 <= i < |ps| - 1 && Refused(ps[i]) {
      assert i == |front| - 1 || Refused(front[i]);
    }
    if i :| 0 <= i < |front| - 1 && Refused(front[i]) {
      assert Refused(ps[i]);
    }
    if Refused(front[|front| - 1]) {
      assert Refused(ps[|ps| - 2]);
    }
  }

  lemma EarlyIsRefused(x: Piece)
    ensures RefusedEarly(x) ==> Refused(x)
  {
  }

  lemma LastEnd(ps: seq<Piece>, p: nat)
    requires ps != []
    ensures LastPlace(ps, p) + |PieceText(ps[|ps| - 1])| == p + |Joined(ps)|
  {
    hide PieceText;
  }

  lemma {:induction false} ReadPieces(m0: Machine, buf: string, p: nat, ps: seq<Piece>, uri: Uri, s: int)
    returns (m: Machine)
    requires AtParam(m0, uri, s, p) && ps != [] && Holds(buf, p, Joined(ps))
    requires forall i :: 0 <= i < |ps| ==> CleanPiece(ps[i])
    ensures Dead(ps) ==> Result(m0, buf, p) == None
    ensures !Dead(ps) ==>
      && Ended(m, ps[|ps| - 1], Effects(uri, ps[..|ps| - 1], p), s, LastPlace(ps, p))
      && Result(m0, buf, p) == Result(m, buf, p + |Joined(ps)|)
    decreases |ps|
  {
    hide *;
    var x, front := ps[|ps| - 1], ps[..|ps| - 1];
    LastEnd(ps, p);
    if |ps| == 1 {
      OnePiece(ps, uri, p);
      m := ReadPiece(m0, buf, p, x, uri, s);
      if RefusedEarly(x) {
        NoResult(m0, buf, p);
      } else {
        ResultMoves(m0, buf, p, m, p + |PieceText(x)|);
      }
    } else {
      var q := p + |Joined(front)|;
      JoinedBehind(ps, p);
      LastPieceHeld(buf, p, Joined(front), PieceText(x));
      DeadStep(ps);
      m := ReadPieces(m0, buf, p, front, uri, s);
      if !Dead(front) {
        var y, before := front[|front| - 1], Effects(uri, front[..|front| - 1], p);
        LastEnd(front, p);
        EndedGoes(m, y, before, s, LastPlace(front, p));
        ResultStep(m, buf, q);
        if !Refused(y) {
          EffectsBehind(uri, front, p);
          m := Step(m, ';', q).value;
          var n := ReadPiece(m, buf, q + 1, x, Effects(uri, front, p), s);
          if RefusedEarly(x) {
            NoResult(m, buf, q + 1);
          } else {
            ResultMoves(m, buf, q + 1, n, q + 1 + |PieceText(x)|);
          }
          m := n;
        }
      }
    }
  }

  lemma NoResult(m: Machine, buf: string, p: nat)
    requires RunFrom(m, buf, p) == None
    ensures Result(m, buf, p) == None
  {
  }

  lemma OnePiece(ps: seq<Piece>, uri: Uri, p: nat)
    requires |ps| == 1
    ensures Joined(ps) == PieceText(ps[0]) && LastPlace(ps, p) == p && Effects(uri, ps[..0], p) == uri
    ensures Dead(ps) <==> RefusedEarly(ps[0])
  {
    hide RefusedEarly, PieceText, Refused;
  }

  lemma JoinedBehind(ps: seq<Piece>, p: nat)
    requires |ps| > 1
    ensures var front := ps[..|ps| - 1];
      Joined(ps) == Joined(front) + ";" + PieceText(ps[|ps| - 1]) && LastPlace(ps, p) == p + |Joined(front)| + 1
  {
    hide PieceText;
  }

  lemma EffectsBehind(uri: Uri, ps: seq<Piece>, p: nat)
    requires ps != []
    ensures Effects(uri, ps, p) == Effect(Effects(uri, ps[..|ps| - 1], p), ps[|ps| - 1], LastPlace(ps, p))
  {
    hide Effect, LastPlace;
  }

  lemma EndedGoes(m: Machine, x: Piece, uri: Uri, s: int, p: nat)
    requires Ended(m, x, uri, s, p)
    ensures var q := p + |PieceText(x)|;
      if Refused(x) then Step(m, ';', q).None? && Step(m, '?', q).None? && Finish(m, q).None?
      else
        && Step(m, ';', q).Some? && AtParam(Step(m, ';', q).value, Effect(uri, x, p), s, q + 1)
        && Step(m, '?', q).Some?
        && InHeaders(Step(m, '?', q).value, Effect(uri, x, p).(params := Span(s, q - s)), q + 1)
        && Finish(m, q) == if CutShort(x) then None else Some(EndEffect(uri, x, p).(params := Span(s, q - s)))
  {
    hide Refused, Effect, EndEffect, CutShort, Step, Finish, PieceText, AtParam, InHeaders;
  }

  lemma LastPieceHeld(buf: string, p: nat, front: string, last: string)
    requires Holds(buf, p, front + ";" + last)
    ensures Holds(buf, p, front) && p + |front| < |buf| && buf[p + |front|] == ';' && Holds(buf, p + |front| + 1, last)
  {
    var t := front + ";" + last;
    assert buf[p..p + |front|] == buf[p..p + |t|][..|front|];
    assert buf[p + |front|] == buf[p..p + |t|][|front|];
    assert buf[p + |front| + 1..p + |t|] == buf[p..p + |t|][|front| + 1..];
  }

  lemma HeaderChar(m: Machine, uri: Uri, s: int, c: char, p: int)
    requires InHeaders(m, uri, s) && c !in "@;"
    ensures Step(m, c, p).Some? && InHeaders(Step(m, c, p).value, uri, s)
  {
  }

  lemma {:induction false} ReadHeaders(m0: Machine, buf: string, p: nat, t: string, k: nat, uri: Uri, s: int)
    returns (m: Machine)
    requires InHeaders(m0, uri, s) && CleanHeaders(t) && k <= |t| && Holds(buf, p, t)
    ensures InHeaders(m, uri, s) && RunFrom(m0, buf, p) == RunFrom(m, buf, p + k)
    decreases k
  {
    hide RunFrom, Step, InHeaders;
    if k == 0 {
      m := m0;
    } else {
      m := ReadHeaders(m0, buf, p, t, k - 1, uri, s);
      var c, q := t[k - 1], p + k - 1;
      assert buf[q] == buf[p..p + |t|][k - 1];
      assert t[k - 1] !in "@;";
      HeaderChar(m, uri, s, c, q);
      RunStep(m, buf, q);
      m := Step(m, c, q).value;
    }
  }

  lemma HeadersFinish(m: Machine, uri: Uri, s: int, p: int)
    requires InHeaders(m, uri, s)
    ensures Finish(m, p) == Some(uri.(headers := Span(s, p - s)))
  {
  }

  lemma HeadersAndEnd(m0: Machine, buf: string, p: nat, t: string, uri: Uri)
    requires InHeaders(m0, uri, p) && CleanHeaders(t) && p <= |buf| && buf[p..] == t
    ensures Result(m0, buf, p) == Some(uri.(headers := Span(p, |t|)))
  {
    hide RunFrom, Finish, InHeaders, CleanHeaders;
    assert buf[p..p + |t|] == buf[p..];
    var m := ReadHeaders(m0, buf, p, t, |t|, uri, p);
    RunEnds(m, buf, p + |t|);
    HeadersFinish(m, uri, p, |buf|);
  }

  /** At the end of a host, ';' and '?' record what the end of the text would. */
  lemma HostSeparator(m: Machine, uri: Uri, p: int)
    requires AtHostEnd(m) && Sane(m, p) && Finish(m, p) == Some(uri)
    ensures Step(m, ';', p).Some? && AtParam(Step(m, ';', p).value, uri, p + 1, p + 1)
    ensures Step(m, '?', p).Some? && InHeaders(Step(m, '?', p).value, uri, p + 1)
  {
    hide UriInside, Step, StepUser, StepHost, Finish;
    HostStates();
    if m.state == USER || m.state == PASSWORD {
      UserSeparator(m, uri, p);
    } else {
      PortSeparator(m, uri, p);
    }
    StepAtHost(m, ';', p);
    StepAtHost(m, '?', p);
  }

  lemma StepAtHost(m: Machine, c: char, p: int)
    requires AtHostEnd(m)
    ensures Step(m, c, p) == if m.state == USER || m.state == PASSWORD then StepUser(m, c, p) else StepHost(m, c, p)
  {
    hide StepUser, StepHost;
  }

  lemma HostStates()
    ensures Early(USER) && Early(PASSWORD) && Early(HOST_P) && Early(HOST6_END) && Early(PORT)
  {
  }

  lemma UserSeparator(m: Machine, uri: Uri, p: int)
    requires (m.state == USER || m.state == PASSWORD) && !m.foundUser && Sane(m, p) && Finish(m, p) == Some(uri)
    ensures StepUser(m, ';', p).Some? && AtParam(StepUser(m, ';', p).value, uri, p + 1, p + 1)
    ensures StepUser(m, '?', p).Some? && InHeaders(StepUser(m, '?', p).value, uri, p + 1)
  {
    hide UriInside;
  }

  lemma PortSeparator(m: Machine, uri: Uri, p: int)
    requires (m.state == HOST_P || m.state == HOST6_END || m.state == PORT) && Sane(m, p) && Finish(m, p) == Some(uri)
    ensures StepHost(m, ';', p).Some? && AtParam(StepHost(m, ';', p).value, uri, p + 1, p + 1)
    ensures StepHost(m, '?', p).Some? && InHeaders(StepHost(m, '?', p).value, uri, p + 1)
  {
    hide UriInside;
  }

  /** Everything behind a host that ends at p. */
  lemma ReadTail(m0: Machine, buf: string, p: nat, ps: seq<Piece>, headers: Option<string>, uri: Uri)
    requires AtHostEnd(m0) && Sane(m0, p) && Finish(m0, p) == Some(uri)
    requires p <= |buf| && buf[p..] == TailText(ps, headers) && CleanTail(ps, headers)
    ensures Result(m0, buf, p) ==
            if TailRefused(ps, headers) then None else Some(TailParts(uri, p, ps, headers))
  {
    hide RunFrom, Finish, Step, AtHostEnd, Sane, AtParam, InHeaders, CleanPiece, CleanHeaders, ParamParts, Joined,
         Refused, CutShort, Result;
    HostSeparator(m0, uri, p);
    if ps != [] {
      ParamsPlace(buf, p, Joined(ps), if headers.None? then "" else "?" + headers.value);
      ResultStep(m0, buf, p);
      ReadParams(Step(m0, ';', p).value, buf, p + 1, ps, headers, uri);
    } else if headers.Some? {
      assert "" + ("?" + headers.value) == "?" + headers.value;
      HeadersPlace(buf, p, headers.value);
      ResultStep(m0, buf, p);
      HeadersAndEnd(Step(m0, '?', p).value, buf, p + 1, headers.value, uri);
    } else {
      ResultEnds(m0, buf, p);
    }
  }

  /** Parameters that begin at p, and headers if there are any. */
  lemma ReadParams(m0: Machine, buf: string, p: nat, ps: seq<Piece>, headers: Option<string>, uri: Uri)
    requires AtParam(m0, uri, p, p) && ps != [] && Holds(buf, p, Joined(ps)) && p + |Joined(ps)| <= |buf|
    requires buf[p + |Joined(ps)|..] == if headers.None? then "" else "?" + headers.value
    requires CleanTail(ps, headers)
    ensures var located := ParamParts(uri, ps, p, headers.Some?).(params := Span(p, |Joined(ps)|));
      Result(m0, buf, p) ==
        if TailRefused(ps, headers) then None
        else if headers.None? then Some(located)
        else Some(located.(headers := Span(p + |Joined(ps)| + 1, |headers.value|)))
  {
    hide *;
    var x, q, before := ps[|ps| - 1], p + |Joined(ps)|, Effects(uri, ps[..|ps| - 1], p);
    TailIsClean(ps, headers);
    DeadIsRefused(ps, headers);
    LastEnd(ps, p);
    EffectsBehind(uri, ps, p);
    PartsOf(uri, ps, p, headers.Some?);
    var m := ReadPieces(m0, buf, p, ps, uri, p);
    if !Dead(ps) {
      EndedGoes(m, x, before, p, LastPlace(ps, p));
      if headers.None? {
        ResultEnds(m, buf, q);
      } else {
        HeadersPlace(buf, q, headers.value);
        ResultStep(m, buf, q);
        if !Refused(x) {
          HeadersAndEnd(Step(m, '?', q).value, buf, q + 1, headers.value,
                        Effects(uri, ps, p).(params := Span(p, q - p)));
        }
      }
    }
  }

  lemma PartsOf(uri: Uri, ps: seq<Piece>, p: nat, more: bool)
    requires ps != []
    ensures ParamParts(uri, ps, p, more) ==
            if more then Effects(uri, ps, p)
            else EndEffect(Effects(uri, ps[..|ps| - 1], p), ps[|ps| - 1], LastPlace(ps, p))
  {
    hide Effects, EndEffect, LastPlace;
  }

  lemma TailIsClean(ps: seq<Piece>, headers: Option<string>)
    requires CleanTail(ps, headers)
    ensures (forall i :: 0 <= i < |ps| ==> CleanPiece(ps[i])) && (headers.Some? ==> CleanHeaders(headers.value))
  {
  }

  lemma DeadIsRefused(ps: seq<Piece>, headers: Option<string>)
    requires ps != []
    ensures var x := ps[|ps| - 1];
      TailRefused(ps, headers) <==> Dead(ps) || Refused(x) || (headers.None? && CutShort(x))
  {
    hide Refused, RefusedEarly, CutShort;
    EarlyIsRefused(ps[|ps| - 1]);
    if i :| 0 <= i < |ps| && Refused(ps[i]) {
      assert i < |ps| - 1 || i == |ps| - 1;
    }
  }

  lemma HeadersPlace(buf: string, p: nat, t: string)
    requires p <= |buf| && buf[p..] == "?" + t
    ensures p < |buf| && buf[p] == '?' && buf[p + 1..] == t
  {
    assert buf[p] == buf[p..][0];
    assert buf[p + 1..] == buf[p..][1..];
  }

  lemma ParamsPlace(buf: string, p: nat, t: string, rest: string)
    requires p <= |buf| && buf[p..] == ";" + t + rest
    ensures p < |buf| && buf[p] == ';' && Holds(buf, p + 1, t)
    ensures p + 1 + |t| <= |buf| && buf[p + 1 + |t|..] == rest
  {
    assert buf[p] == buf[p..][0];
    assert buf[p + 1..p + 1 + |t|] == buf[p..][1..1 + |t|];
    assert buf[p + 1 + |t|..] == buf[p..][1 + |t|..];
  }

  // ------------------------------------------------------------ whole URIs

  /** Reading a text is reading its beginning and then the rest. */
  lemma {:induction false} RunConcat(m: Machine, a: string, b: string, p: nat)
    requires p <= |a|
    ensures RunFrom(m, a + b, p) ==
            if RunFrom(m, a, p).None? then None else RunFrom(RunFrom(m, a, p).value, a + b, |a|)
    decreases |a| - p
  {
    hide Step;
    if p < |a| {
      assert (a + b)[p] == a[p];
      var next := Step(m, a[p], p);
      if next.Some? {
        RunConcat(next.value, a, b, p + 1);
      }
    }
  }

  /** A head that ends with a host or port, continued by a tail. */
  lemma HeadAndTail(head: string, kind: Kind, start: nat, ps: seq<Piece>, headers: Option<string>, uri: Uri)
    requires Scheme(head) == Scheme(head + TailText(ps, headers)) == Some((kind, start))
    requires var last := RunFrom(InitMachine(kind, start), head, start);
      last.Some? && AtHostEnd(last.value) && Finish(last.value, |head|) == Some(uri)
    requires CleanTail(ps, headers)
    ensures Parsed(head + TailText(ps, headers)) ==
            if TailRefused(ps, headers) then None else Some(FixKind(TailParts(uri, |head|, ps, headers)))
  {
    hide RunFrom, Finish, Scheme, InitMachine, AtHostEnd, Sane, TailText, TailParts, FixKind, CleanTail, Parsed,
         TailRefused;
    var tail := TailText(ps, headers);
    SchemeInside(head);
    InitSane(kind, start);
    RunSane(InitMachine(kind, start), head, start);
    RunConcat(InitMachine(kind, start), head, tail, start);
    assert (head + tail)[|head|..] == tail;
    ReadTail(RunFrom(InitMachine(kind, start), head, start).value, head + tail, |head|, ps, headers, uri);
    ParsedIs(head + tail);
  }

  /** Parameters and headers leave all other parts as they are. */
  lemma {:induction false} EffectsKeep(uri: Uri, ps: seq<Piece>, p: nat)
    ensures var next := Effects(uri, ps, p);
      && next.kind == uri.kind && next.user == uri.user && next.passwd == uri.passwd && next.host == uri.host
      && next.port == uri.port && next.portNo == uri.portNo
  {
    hide LastPlace, Effect;
    if ps != [] {
      EffectsKeep(uri, ps[..|ps| - 1], p);
      EffectKeeps(Effects(uri, ps[..|ps| - 1], p), ps[|ps| - 1], LastPlace(ps, p));
    }
  }

  lemma EffectKeeps(uri: Uri, x: Piece, p: int)
    ensures var next := Effect(uri, x, p);
      && next.kind == uri.kind && next.user == uri.user && next.passwd == uri.passwd && next.host == uri.host
      && next.port == uri.port && next.portNo == uri.portNo
    ensures var next := EndEffect(uri, x, p);
      && next.kind == uri.kind && next.user == uri.user && next.passwd == uri.passwd && next.host == uri.host
      && next.port == uri.port && next.portNo == uri.portNo
  {
    hide LowerText, NameOf, UnknownPair, LooseFrom;
  }

  lemma TailKeeps(uri: Uri, p: nat, ps: seq<Piece>, headers: Option<string>)
    ensures var next := TailParts(uri, p, ps, headers);
      && next.kind == uri.kind && next.user == uri.user && next.passwd == uri.passwd && next.host == uri.host
      && next.port == uri.port && next.portNo == uri.portNo
  {
    hide Effects, Joined, LastPlace, Effect, EndEffect;
    EffectsKeep(uri, ps, p + 1);
    if ps != [] {
      EffectsKeep(uri, ps[..|ps| - 1], p + 1);
      EffectKeeps(Effects(uri, ps[..|ps| - 1], p + 1), ps[|ps| - 1], LastPlace(ps, p + 1));
    }
  }

  lemma NothingFixed(uri: Uri)
    requires uri.kind.Sip? || uri.kind.Sips?
    ensures FixKind(uri) == uri
  {
  }

  lemma PartsKind(kind: Kind, start: nat, u: string, w: Option<string>, p: nat, h: string, d: Option<string>)
    requires d.Some? ==> AllDigits(d.value)
    ensures HostParts(UserParts(kind, start, u, w), p, h, d).kind == kind
    ensures HostParts(Zero(kind), p, h, d).kind == kind && HostParts(Zero(kind), p, h, d).host == Span(p, |h|)
    ensures HostParts(Zero(kind), p, h, d).unknown == [] && HostParts(Zero(kind), p, h, d).user == NO_SPAN
  {
    hide Value;
  }

  /** A whole URI with a user: scheme, user, password, host, port, parameters and
      headers are found exactly where they are, and it is refused exactly for a
      push name without '=' in user or parameters, or a maddr or push parameter
      cut short at its end. */
  lemma UserHostParams(scheme: string, kind: Kind, u: string, w: Option<string>, h: string, d: Option<string>,
                       ps: seq<Piece>, headers: Option<string>)
    requires (kind.Sip? || kind.Sips?) && LowerText(scheme) == SchemeText(kind)
    requires UserText(u) && (w.Some? ==> PasswordText(w.value))
    requires (PlainHost(h) || BracketedHost(h)) && (d.Some? ==> AllDigits(d.value)) && CleanTail(ps, headers)
    ensures var head := scheme + u + PortText(w) + "@" + h + PortText(d);
      var uri := HostParts(UserParts(kind, |scheme|, u, w), |scheme| + |u| + |PortText(w)| + 1, h, d);
      Parsed(head + TailText(ps, headers)) ==
        if MissesEqual(u) || TailRefused(ps, headers) then None else Some(TailParts(uri, |head|, ps, headers))
  {
    hide RunFrom, Finish, Scheme, MissesEqual, Value, PlainHost, BracketedHost, UserText, PasswordText, LowerText,
         InitMachine, Parsed, FixKind, PortText, AtHostEnd, TailText, TailParts, CleanTail, TailRefused, HostParts,
         UserParts, SchemeText;
    var head := scheme + u + PortText(w) + "@" + h + PortText(d);
    var p := |scheme| + |u| + |PortText(w)| + 1;
    var uri := HostParts(UserParts(kind, |scheme|, u, w), p, h, d);
    UserHostRun(scheme, kind, u, w, h, d);
    var rest := u + PortText(w) + "@" + h + PortText(d) + TailText(ps, headers);
    assert scheme + rest == head + TailText(ps, headers);
    SchemeFound(scheme, kind, rest);
    if MissesEqual(u) {
      RefusedHead(head, TailText(ps, headers), kind, |scheme|);
    } else {
      HeadAndTail(head, kind, |scheme|, ps, headers, uri);
      TailKeeps(uri, |head|, ps, headers);
      PartsKind(kind, |scheme|, u, w, p, h, d);
      NothingFixed(TailParts(uri, |head|, ps, headers));
    }
  }

  /** A refused beginning refuses the text. */
  lemma RefusedHead(head: string, tail: string, kind: Kind, start: nat)
    requires Scheme(head) == Scheme(head + tail) == Some((kind, start))
    requires RunFrom(InitMachine(kind, start), head, start).None?
    ensures Parsed(head + tail) == None
  {
    hide RunFrom, Finish, Scheme, InitMachine, Parsed;
    SchemeInside(head);
    RunConcat(InitMachine(kind, start), head, tail, start);
    ParsedIs(head + tail);
  }

  /** The text that stands for a scheme. */
  ghost predicate SchemeWord(scheme: string, kind: Kind) {
    match kind
    case Sip => LowerText(scheme) == "sip:"
    case Sips => LowerText(scheme) == "sips:"
    case Tel => LowerText(scheme) == "tel:"
    case UrnService => |scheme| == 12 && LowerText(scheme[..4]) == "urn:" && scheme[3..] == ":service:"
    case UrnNenaService => |scheme| == 17 && LowerText(scheme[..4]) == "urn:" && scheme[3..] == ":nena:service:"
  }

  lemma SchemeWordFound(scheme: string, kind: Kind, rest: string)
    requires SchemeWord(scheme, kind) && rest != ""
    ensures Scheme(scheme + rest) == Some((kind, |scheme|))
  {
    hide LowerText, Or20, Scheme;
    if kind.Sip? || kind.Sips? {
      SchemeFound(scheme, kind, rest);
    } else {
      LowerTextLength(scheme);
      var word := scheme[..4];
      assert kind.Tel? ==> word == scheme;
      LowerTextLength(word);
      forall i | 0 <= i < 4 ensures Or20((scheme + rest)[i]) == (if kind.Tel? then "tel:" else "urn:")[i] {
        assert (scheme + rest)[i] == word[i];
        LowerIsOr20(word[i], LowerText(word)[i]);
      }
      OtherFound(scheme + rest, kind);
      if !kind.Tel? {
        assert (scheme + rest)[3..] == scheme[3..] + rest;
      }
    }
  }

  lemma OtherFound(buf: string, kind: Kind)
    requires |buf| >= 5 && !kind.Sip? && !kind.Sips?
    requires forall i :: 0 <= i < 4 ==> Or20(buf[i]) == (if kind.Tel? then "tel:" else "urn:")[i]
    ensures kind.Tel? ==> Scheme(buf) == Some((Tel, 4))
    ensures !kind.Tel? && ":service:" <= buf[3..] ==> Scheme(buf) == Some((UrnService, 12))
    ensures !kind.Tel? && ":nena:service:" <= buf[3..] ==> Scheme(buf) == Some((UrnNenaService, 17))
  {
    hide Or20;
    assert Or20(buf[0]) != 's';
    assert !SchemeIs(buf, "sip:") && !SchemeIs(buf, "sips");
    if kind.Tel? {
      assert SchemeIs(buf, "tel:");
    } else {
      assert !SchemeIs(buf, "tel:") && SchemeIs(buf, "urn:");
      if ":nena:service:" <= buf[3..] {
        assert buf[3..][1] == 'n';
        assert !(":service:" <= buf[3..]) by {
          assert ":service:"[1] == 's';
        }
      }
    }
  }

  /** The same without a user, for every scheme. */
  lemma HostParams(scheme: string, kind: Kind, h: string, d: Option<string>, ps: seq<Piece>, headers: Option<string>)
    requires SchemeWord(scheme, kind) && BareHost(h) && (d.Some? ==> AllDigits(d.value)) && CleanTail(ps, headers)
    ensures var head := scheme + (h + PortText(d));
      Parsed(head + TailText(ps, headers)) ==
        if TailRefused(ps, headers) then None
        else Some(FixKind(TailParts(HostParts(Zero(kind), |scheme|, h, d), |head|, ps, headers)))
  {
    hide RunFrom, Finish, Scheme, Value, BareHost, SchemeWord, InitMachine, Parsed, FixKind, AtHostEnd, TailText,
         TailParts, CleanTail, TailRefused, HostParts;
    var head := scheme + (h + PortText(d));
    BareHostNotEmpty(h);
    BareHostPlace(scheme, h, d);
    SchemeWordFound(scheme, kind, h + PortText(d));
    BareHostAndPort(head, |scheme|, kind, h, d);
    var rest := h + PortText(d) + TailText(ps, headers);
    assert scheme + rest == head + TailText(ps, headers);
    SchemeWordFound(scheme, kind, rest);
    HeadAndTail(head, kind, |scheme|, ps, headers, HostParts(Zero(kind), |scheme|, h, d));
  }

  /** Behind "tel:" a plain number is the user, with an empty host; behind the
      scheme of an emergency service there is neither. */
  lemma NumberIsUser(scheme: string, kind: Kind, n: string, ps: seq<Piece>, headers: Option<string>)
    requires SchemeWord(scheme, kind) && BareHost(n) && CleanTail(ps, headers) && !TailRefused(ps, headers)
    requires !kind.Sip? && !kind.Sips?
    ensures var parsed := Parsed(scheme + n + TailText(ps, headers));
      && parsed.Some? && parsed.value.kind == kind && parsed.value.port == NO_SPAN
      && parsed.value.user == (if kind.Tel? then Span(|scheme|, |n|) else NO_SPAN)
      && parsed.value.host == (if kind.UrnService? then Span(|scheme|, |n|) else NO_SPAN)
  {
    hide Parsed, SchemeWord, BareHost, TailText, TailParts, CleanTail, TailRefused;
    assert scheme + (n + PortText(None)) == scheme + n;
    HostParams(scheme, kind, n, None, ps, headers);
    TailKeeps(HostParts(Zero(kind), |scheme|, n, None), |scheme + n|, ps, headers);
  }

  // --------------------------------------------------- the recorded parameters

  /** Whether a parameter is recorded as unknown: a bare beginning of a well-known
      name is not, at the end of the text. */
  ghost predicate CountsUnknown(x: Piece, more: bool) {
    AddsUnknown(x) && (more || x.rest != "" || !Beginning(x))
  }

  /** The pairs of all unknown parameters, in order. */
  ghost function UnknownPairs(ps: seq<Piece>, p: nat, more: bool): seq<(Span, Span)> {
    if ps == [] then []
    else
      var x := ps[|ps| - 1];
      UnknownPairs(ps[..|ps| - 1], p, true)
      + if CountsUnknown(x, more) then [UnknownPair(x, LastPlace(ps, p))] else []
  }

  /** Of the unknown parameters the first ten are recorded. */
  lemma {:induction false} FirstTenUnknown(uri: Uri, ps: seq<Piece>, p: nat, more: bool)
    requires uri.unknown == []
    ensures var all := UnknownPairs(ps, p, more);
      ParamParts(uri, ps, p, more).unknown == if |all| <= MAX_U_PARAMS then all else all[..MAX_U_PARAMS]
    decreases |ps|
  {
    hide LastPlace, UnknownPair, CountsUnknown, Effect, EndEffect;
    if ps != [] {
      var front := ps[..|ps| - 1];
      FirstTenUnknown(uri, front, p, true);
      EffectUnknown(Effects(uri, front, p), ps[|ps| - 1], LastPlace(ps, p), more);
    }
  }

  lemma EffectUnknown(uri: Uri, x: Piece, p: int, more: bool)
    ensures (if more then Effect(uri, x, p) else EndEffect(uri, x, p)).unknown ==
            if !CountsUnknown(x, more) || |uri.unknown| >= MAX_U_PARAMS then uri.unknown
            else uri.unknown + [UnknownPair(x, p)]
  {
    hide LowerText, NameOf, StartsName, UnknownPair;
  }

  /** Whether a parameter is recorded under a well-known name. */
  ghost predicate RecordsName(x: Piece, name: Name, more: bool) {
    && KnownName(x) == Some(name) && LooseFrom(x).None?
    && (|x.rest| > 1 || (IsFlag(name) && (x.rest == "" || !more)))
  }

  /** A well-known name is recorded where it is recorded last. */
  lemma {:induction false} LastNameCounts(uri: Uri, ps: seq<Piece>, p: nat, more: bool, name: Name, i: nat)
    requires i < |ps| && RecordsName(ps[i], name, more || i < |ps| - 1)
    requires forall j :: i < j < |ps| ==> !RecordsName(ps[j], name, more || j < |ps| - 1)
    requires forall j :: 0 <= j < |ps| ==> CleanPiece(ps[j])
    ensures var recorded := ParamParts(uri, ps, p, more);
      var place := LastPlace(ps[..i + 1], p);
      && name in recorded.names && recorded.names[name] == Span(place, |PieceText(ps[i])|)
      && (|ps[i].rest| > 1 ==> name in recorded.vals
                               && recorded.vals[name] == Span(place + |ps[i].name| + 1, |ps[i].rest| - 1))
    decreases |ps|
  {
    hide LastPlace, RecordsName, PieceText, Effect, EndEffect, CleanPiece;
    var front := ps[..|ps| - 1];
    if i < |front| {
      LastNameCounts(uri, front, p, true, name, i);
      assert front[..i + 1] == ps[..i + 1];
      assert !RecordsName(ps[|ps| - 1], name, more || |ps| - 1 < |ps| - 1);
    } else {
      assert ps[..i + 1] == ps;
    }
    EffectNames(Effects(uri, front, p), ps[|ps| - 1], LastPlace(ps, p), name, more);
  }

  lemma EffectNames(uri: Uri, x: Piece, p: int, name: Name, more: bool)
    requires CleanPiece(x)
    ensures var recorded := if more then Effect(uri, x, p) else EndEffect(uri, x, p);
      if RecordsName(x, name, more) then
        && name in recorded.names && recorded.names[name] == Span(p, |PieceText(x)|)
        && (|x.rest| > 1 ==> name in recorded.vals && recorded.vals[name] == Span(p + |x.name| + 1, |x.rest| - 1))
      else
        && (name in uri.names ==> name in recorded.names && recorded.names[name] == uri.names[name])
        && (name in uri.vals ==> name in recorded.vals && recorded.vals[name] == uri.vals[name])
  {
    hide Effect, EndEffect, RecordsName, CleanPiece, PieceText;
    if RecordsName(x, name, more) {
      NameRecorded(uri, x, p, name, more);
    } else {
      OthersKept(uri, x, p, name, more);
    }
  }

  lemma NameRecorded(uri: Uri, x: Piece, p: int, name: Name, more: bool)
    requires CleanPiece(x) && RecordsName(x, name, more)
    ensures var recorded := if more then Effect(uri, x, p) else EndEffect(uri, x, p);
      && name in recorded.names && recorded.names[name] == Span(p, |PieceText(x)|)
      && (|x.rest| > 1 ==> name in recorded.vals && recorded.vals[name] == Span(p + |x.name| + 1, |x.rest| - 1))
  {
    hide LowerText, NameOf, StartsName, UnknownPair, IsFlag;
    assert x.rest == "" ==> PieceText(x) == x.name;
  }

  lemma OthersKept(uri: Uri, x: Piece, p: int, name: Name, more: bool)
    requires CleanPiece(x) && !RecordsName(x, name, more)
    ensures var recorded := if more then Effect(uri, x, p) else EndEffect(uri, x, p);
      && (name in uri.names ==> name in recorded.names && recorded.names[name] == uri.names[name])
      && (name in uri.vals ==> name in recorded.vals && recorded.vals[name] == uri.vals[name])
  {
    hide LowerText, NameOf, StartsName, UnknownPair, IsFlag;
  }

  /** When an unknown parameter with a value is recorded as its name and its value:
      exactly if no well-known name begins with its name, and no '=' follows a ':'
      in its value. */
  lemma UnknownParamIff(scheme: string, kind: Kind, h: string, x: Piece)
    requires (kind.Sip? || kind.Sips?) && SchemeWord(scheme, kind) && BareHost(h)
    requires CleanPiece(x) && x.rest != "" && x.rest[0] == '=' && KnownName(x).None? && !Refused(x)
    ensures var parsed := Parsed(scheme + h + ";" + PieceText(x));
      var p := |scheme| + |h| + 1;
      var value := if |x.rest| > 1 then Span(p + |x.name| + 1, |x.rest| - 1) else NO_SPAN;
      && parsed.Some?
      && (parsed.value.unknown == [(Span(p, |x.name|), value)] <==>
          !StartsName(LowerText(x.name)) && !EqualBehindColon(x.rest))
  {
    hide *;
    var uri := HostParts(Zero(kind), |scheme|, h, None);
    var value := if |x.rest| > 1 then Span(|scheme| + |h| + 1 + |x.name| + 1, |x.rest| - 1) else NO_SPAN;
    OneParam(scheme, kind, h, x);
    PartsKind(kind, |scheme|, "", None, |scheme|, h, None);
    MaxIsPositive();
    UnknownSplitIff(x, uri, |scheme| + |h| + 1);
    EffectUnknown(uri, x, |scheme| + |h| + 1, false);
    UnknownAppended(uri, x, |scheme| + |h| + 1, (Span(|scheme| + |h| + 1, |x.name|), value));
  }

  lemma MaxIsPositive()
    ensures MAX_U_PARAMS > 0
  {
  }

  /** For an unknown parameter with a value only the list of unknown ones grows. */
  lemma UnknownAppended(uri: Uri, x: Piece, p: int, pair: (Span, Span))
    requires uri.unknown == [] && KnownName(x).None? && x.rest != ""
    ensures EndEffect(uri, x, p).unknown == [pair] <==> EndEffect(uri, x, p) == uri.(unknown := uri.unknown + [pair])
  {
    hide LowerText, NameOf, StartsName, UnknownPair;
  }

  lemma OneParam(scheme: string, kind: Kind, h: string, x: Piece)
    requires (kind.Sip? || kind.Sips?) && SchemeWord(scheme, kind) && BareHost(h)
    requires CleanPiece(x) && x.rest != "" && KnownName(x).None? && !Refused(x)
    ensures var parsed := Parsed(scheme + h + ";" + PieceText(x));
      var uri := EndEffect(HostParts(Zero(kind), |scheme|, h, None), x, |scheme| + |h| + 1);
      parsed == Some(uri.(params := Span(|scheme| + |h| + 1, |PieceText(x)|)))
      && NoPushBefore(x.name)
  {
    hide Parsed, SchemeWord, BareHost, CleanPiece, LowerText, NameOf, EndEffect, PieceText;
    assert scheme + (h + PortText(None)) == scheme + h;
    assert TailText([x], None) == ";" + PieceText(x);
    assert scheme + h + ";" + PieceText(x) == scheme + h + (";" + PieceText(x));
    HostParams(scheme, kind, h, None, [x], None);
    OnePiece([x], HostParts(Zero(kind), |scheme|, h, None), |scheme| + |h| + 1);
    EffectKeeps(HostParts(Zero(kind), |scheme|, h, None), x, |scheme| + |h| + 1);
  }

  /** Three parameters that look alike. The parser keeps looking for "transport"
      behind "t" and for "ttl" behind "tt". */
  lemma SwallowedExamples()
    ensures var a, b, c := Parsed("sip:h;t=5"), Parsed("sip:h;t=a=b"), Parsed("sip:h;x=5");
      && a.Some? && a.value.unknown == [(Span(6, 3), NO_SPAN)]
      && b.Some? && b.value.unknown == [(Span(6, 3), Span(10, 1))]
      && c.Some? && c.value.unknown == [(Span(6, 1), Span(8, 1))]
  {
    hide Parsed;
    OneExample(Piece("t", "=5"), "sip:h;t=5");
    OneExample(Piece("t", "=a=b"), "sip:h;t=a=b");
    OneExample(Piece("x", "=5"), "sip:h;x=5");
    ExamplePairs();
  }

  lemma ExamplePairs()
    ensures UnknownPair(Piece("t", "=5"), 6) == (Span(6, 3), NO_SPAN)
    ensures UnknownPair(Piece("t", "=a=b"), 6) == (Span(6, 3), Span(10, 1))
    ensures UnknownPair(Piece("x", "=5"), 6) == (Span(6, 1), Span(8, 1))
  {
    hide LowerText;
    SmallTexts();
    assert PieceText(Piece("t", "=5")) == "t=5" && PieceText(Piece("x", "=5")) == "x=5";
    assert PieceText(Piece("t", "=a=b")) == "t=a=b";
    assert Scanned("t=5", 2, 3).1 == None && Scanned("x=5", 1, 3).1 == Some(1);
    assert Scanned("t=a=b", 2, 5).1 == Some(3);
  }

  lemma SmallTexts()
    ensures LowerText("t") == "t" && LowerText("x") == "x"
    ensures StartsName("t") && !StartsName("x") && NameOf("t").None? && NameOf("x").None?
  {
    assert LowerText("") == "" && "t"[..0] == "" && "x"[..0] == "";
    assert "t" <= NameWord(Transport);
    forall name ensures !("x" <= NameWord(name)) {
      NoNameWithX(name);
    }
  }

  lemma NoNameWithX(name: Name)
    ensures |NameWord(name)| > 0 && NameWord(name)[0] != 'x'
  {
  }

  lemma OneExample(x: Piece, buf: string)
    requires x.name == "t" || x.name == "x"
    requires CleanPiece(x) && x.rest != "" && buf == "sip:h;" + x.name + x.rest
    ensures Parsed(buf).Some? && Parsed(buf).value.unknown == [UnknownPair(x, 6)]
  {
    hide Parsed, UnknownPair, CleanPiece, LowerText, EndEffect, StartsName;
    SmallTexts();
    SipText();
    SmallPush(x.name);
    assert "sip:" + "h" + ";" + PieceText(x) == buf;
    assert KnownName(x).None? && !Refused(x);
    OneParam("sip:", Sip, "h", x);
    EffectUnknown(HostParts(Zero(Sip), 4, "h", None), x, 6, false);
    assert CountsUnknown(x, false);
  }

  lemma SmallPush(t: string)
    requires t == "t" || t == "x"
    ensures NoPushBefore(t) && !PushName(LowerText(t))
  {
    forall j | 0 <= j <= |t| ensures !PushName(LowerText(t[..j])) {
      LowerTextLength(t[..j]);
    }
    assert t[..|t|] == t;
  }
}
