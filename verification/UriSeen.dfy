/** Which field of a parsed URI each part of its text ends up in. */
module UriSeen {
  import opened Decimal
  import opened Chars
  import opened UriParser
  import opened UriSpans
  import opened UriUserSplit
  import opened UriNames
  import opened UriParams
  import opened UriTail
  import opened UriCompare
  import opened UriTexts

  lemma TextIn(buf: string, a: string, t: string, b: string)
    requires buf == a + t + b
    ensures Inside(Span(|a|, |t|), |buf|) && TextAt(buf, Span(|a|, |t|)) == t
  {
    assert buf[|a|..|a| + |t|] == t;
  }

  /** A URI with one parameter and headers. */
  function OneParamText(scheme: string, h: string, x: Piece, headers: string): string {
    scheme + h + ";" + PieceText(x) + "?" + headers
  }

  lemma OneParamParsed(scheme: string, kind: Kind, h: string, x: Piece, headers: string)
    requires (kind.Sip? || kind.Sips?) && SchemeWord(scheme, kind) && BareHost(h)
    requires CleanPiece(x) && !Refused(x) && CleanHeaders(headers)
    ensures var p, t := |scheme| + |h| + 1, PieceText(x);
      var uri := Effect(HostParts(Zero(kind), |scheme|, h, None), x, p);
      Parsed(OneParamText(scheme, h, x, headers)) ==
      Some(uri.(params := Span(p, |t|), headers := Span(p + |t| + 1, |headers|)))
  {
    hide Parsed, SchemeWord, BareHost, CleanPiece, LowerText, NameOf, Effect, PieceText, CleanHeaders, Refused;
    var host := HostParts(Zero(kind), |scheme|, h, None);
    assert scheme + (h + PortText(None)) == scheme + h;
    assert TailText([x], Some(headers)) == ";" + PieceText(x) + ("?" + headers);
    assert OneParamText(scheme, h, x, headers) == scheme + h + TailText([x], Some(headers));
    HostParams(scheme, kind, h, None, [x], Some(headers));
    OnePiece([x], host, |scheme| + |h| + 1);
    EffectsBehind(host, [x], |scheme| + |h| + 1);
    EffectKeeps(host, x, |scheme| + |h| + 1);
  }

  lemma ParsedSeen(raw: string)
    requires Parsed(raw).Some?
    ensures UriInside(Parsed(raw).value, |raw|) && ParseRaw(raw) == Some(SipUriOf(raw, Parsed(raw).value))
  {
    hide Parsed, SipUriOf;
    ParsedStaysInside(raw);
  }

  lemma OneParamPlaces(scheme: string, h: string, x: Piece, headers: string)
    requires x.rest != "" && x.rest[0] == '='
    ensures var buf, p, t := OneParamText(scheme, h, x, headers), |scheme| + |h| + 1, PieceText(x);
      && |buf| == p + |t| + 1 + |headers| && |t| == |x.name| + |x.rest|
      && buf[|scheme|..|scheme| + |h|] == h && buf[p..p + |x.name|] == x.name
      && buf[p + |x.name| + 1..p + |t|] == x.rest[1..] && buf[p + |t| + 1..] == headers
  {
    var buf, p, t := OneParamText(scheme, h, x, headers), |scheme| + |h| + 1, PieceText(x);
    var a := scheme + h + ";";
    assert buf == a + (t + "?" + headers);
    assert buf == scheme + h + (";" + t + "?" + headers);
    TextIn(buf, scheme, h, ";" + t + "?" + headers);
    ParamInside(buf, a, x, "?" + headers);
    assert buf == a + t + "?" + headers + "";
    TextIn(buf, a + t + "?", headers, "");
    assert buf[p + |t| + 1..] == buf[p + |t| + 1..p + |t| + 1 + |headers|];
  }

  lemma ParamInside(buf: string, a: string, x: Piece, b: string)
    requires x.rest != "" && x.rest[0] == '=' && buf == a + (PieceText(x) + b)
    ensures |a| + |PieceText(x)| <= |buf| && |PieceText(x)| == |x.name| + |x.rest|
    ensures buf[|a|..|a| + |x.name|] == x.name
    ensures buf[|a| + |x.name| + 1..|a| + |PieceText(x)|] == x.rest[1..]
  {
    assert buf == a + x.name + (x.rest + b);
    TextIn(buf, a, x.name, x.rest + b);
    assert x.rest == "=" + x.rest[1..];
    assert buf == (a + x.name + "=") + x.rest[1..] + b;
    TextIn(buf, a + x.name + "=", x.rest[1..], b);
  }

  /** A well-known parameter with a value: comparison sees the value in the field
      of that name and in no other, next to host and headers. */
  lemma NamedValueSeen(scheme: string, kind: Kind, h: string, x: Piece, headers: string)
    requires (kind.Sip? || kind.Sips?) && SchemeWord(scheme, kind) && BareHost(h) && CleanHeaders(headers)
    requires CleanPiece(x) && KnownName(x).Some? && NoPushBefore(x.name)
    requires |x.rest| > 1 && x.rest[0] == '=' && x.rest[1] != ':'
    ensures var seen := ParseRaw(OneParamText(scheme, h, x, headers));
      var name, v := LowerText(x.name), x.rest[1..];
      && seen.Some?
      && seen.value.(behindUser := "") ==
         SipUri(if kind.Sip? then 0 else 1, "", "", "", h, "",
                if name == "transport" then v else "", if name == "ttl" then v else "",
                if name == "user" then v else "", if name == "maddr" then v else "",
                if name == "method" then v else "", if name == "lr" then v else "",
                if name == "r2" then v else "", [], headers)
  {
    hide Parsed, SchemeWord, BareHost, CleanPiece, LowerText, CleanHeaders, Refused, OneParamText, PieceText, ProtoOf,
         NoPushBefore, ParseRaw, UriInside, SipUriOf, Effect;
    var buf, p := OneParamText(scheme, h, x, headers), |scheme| + |h| + 1;
    var host := HostParts(Zero(kind), |scheme|, h, None);
    ValuedEffects(x, host, p);
    OneParamParsed(scheme, kind, h, x, headers);
    ParsedSeen(buf);
    OneParamPlaces(scheme, h, x, headers);
    NamedPieces(buf, scheme, kind, h, x, headers, Parsed(buf).value);
  }

  lemma NamedPieces(buf: string, scheme: string, kind: Kind, h: string, x: Piece, headers: string, uri: Uri)
    requires KnownName(x).Some? && |x.rest| > 1 && (kind.Sip? || kind.Sips?)
    requires var p, t := |scheme| + |h| + 1, PieceText(x);
      && |buf| == p + |t| + 1 + |headers| && |t| == |x.name| + |x.rest|
      && buf[|scheme|..|scheme| + |h|] == h
      && buf[p + |x.name| + 1..p + |t|] == x.rest[1..] && buf[p + |t| + 1..] == headers
      && uri.kind == kind && uri.user == NO_SPAN && uri.passwd == NO_SPAN && uri.port == NO_SPAN
      && uri.host == Span(|scheme|, |h|) && uri.headers == Span(p + |t| + 1, |headers|) && uri.unknown == []
      && uri.vals == map[KnownName(x).value := Span(p + |x.name| + 1, |x.rest| - 1)]
    requires UriInside(uri, |buf|)
    ensures var name, v := LowerText(x.name), x.rest[1..];
      SipUriOf(buf, uri).(behindUser := "") ==
      SipUri(if kind.Sip? then 0 else 1, "", "", "", h, "",
             if name == "transport" then v else "", if name == "ttl" then v else "",
             if name == "user" then v else "", if name == "maddr" then v else "",
             if name == "method" then v else "", if name == "lr" then v else "",
             if name == "r2" then v else "", [], headers)
  {
    hide LowerText, PieceText, NameOf, UriInside, MapInside, ValueIn;
    assert buf[|buf| - |headers|..|buf|] == headers;
    assert ParamTexts(buf, []) == [];
    MapIsInside(buf, uri);
    var name := KnownName(x).value;
    var span := Span(|scheme| + |h| + 1 + |x.name| + 1, |x.rest| - 1);
    NameTexts(LowerText(x.name));
    OneValue(buf, uri.vals, name, span, x.rest[1..], Transport);
    OneValue(buf, uri.vals, name, span, x.rest[1..], Ttl);
    OneValue(buf, uri.vals, name, span, x.rest[1..], Name.UserParam);
    OneValue(buf, uri.vals, name, span, x.rest[1..], Maddr);
    OneValue(buf, uri.vals, name, span, x.rest[1..], Method);
    OneValue(buf, uri.vals, name, span, x.rest[1..], Lr);
    OneValue(buf, uri.vals, name, span, x.rest[1..], R2);
  }

  lemma MapIsInside(buf: string, uri: Uri)
    requires UriInside(uri, |buf|)
    ensures MapInside(uri.vals, |buf|) && UnknownInside(uri.unknown, |buf|)
    ensures Inside(uri.user, |buf|) && Inside(uri.passwd, |buf|) && Inside(uri.host, |buf|) && Inside(uri.port, |buf|)
    ensures Inside(uri.headers, |buf|)
  {
  }

  lemma OneValue(buf: string, vals: map<Name, Span>, name: Name, span: Span, v: string, other: Name)
    requires vals == map[name := span] && MapInside(vals, |buf|) && Inside(span, |buf|) && TextAt(buf, span) == v
    ensures ValueIn(buf, vals, other) == if other == name then v else ""
  {
  }

  lemma NameTexts(t: string)
    requires NameOf(t).Some?
    ensures var name := NameOf(t).value;
      && (name.Transport? <==> t == "transport") && (name.Ttl? <==> t == "ttl") && (name.UserParam? <==> t == "user")
      && (name.Maddr? <==> t == "maddr") && (name.Method? <==> t == "method") && (name.Lr? <==> t == "lr")
      && (name.R2? <==> t == "r2")
  {
  }

  /** An unknown parameter: comparison sees its name and value. */
  lemma UnknownSeen(scheme: string, kind: Kind, h: string, x: Piece, headers: string)
    requires (kind.Sip? || kind.Sips?) && SchemeWord(scheme, kind) && BareHost(h) && CleanHeaders(headers)
    requires CleanPiece(x) && KnownName(x).None? && NoPushBefore(x.name) && !StartsName(LowerText(x.name))
    requires |x.rest| > 1 && x.rest[0] == '=' && !EqualBehindColon(x.rest)
    ensures var seen := ParseRaw(OneParamText(scheme, h, x, headers));
      && seen.Some?
      && seen.value.(behindUser := "") ==
         SipUri(if kind.Sip? then 0 else 1, "", "", "", h, "", "", "", "", "", "", "", "",
                [UriCompare.Param.Param(x.name, x.rest[1..])], headers)
  {
    hide Parsed, SchemeWord, BareHost, CleanPiece, LowerText, CleanHeaders, Refused, OneParamText, PieceText,
         NoPushBefore, ParseRaw, UriInside, SipUriOf, Effect, NameOf, StartsName, EqualBehindColon;
    var buf, p := OneParamText(scheme, h, x, headers), |scheme| + |h| + 1;
    var host := HostParts(Zero(kind), |scheme|, h, None);
    UnknownIsClean(x);
    MaxIsPositive();
    UnknownSplitIff(x, host, p);
    OneParamParsed(scheme, kind, h, x, headers);
    ParsedSeen(buf);
    OneParamPlaces(scheme, h, x, headers);
    UnknownPieces(buf, scheme, kind, h, x, headers, Parsed(buf).value);
  }

  lemma UnknownIsClean(x: Piece)
    requires KnownName(x).None? && NoPushBefore(x.name)
    ensures !Refused(x)
  {
    hide LowerText;
    PushKnown(x);
  }

  lemma UnknownPieces(buf: string, scheme: string, kind: Kind, h: string, x: Piece, headers: string, uri: Uri)
    requires |x.rest| > 1 && (kind.Sip? || kind.Sips?)
    requires var p, t := |scheme| + |h| + 1, PieceText(x);
      && |buf| == p + |t| + 1 + |headers| && |t| == |x.name| + |x.rest|
      && buf[|scheme|..|scheme| + |h|] == h && buf[p..p + |x.name|] == x.name
      && buf[p + |x.name| + 1..p + |t|] == x.rest[1..] && buf[p + |t| + 1..] == headers
      && uri.kind == kind && uri.user == NO_SPAN && uri.passwd == NO_SPAN && uri.port == NO_SPAN
      && uri.host == Span(|scheme|, |h|) && uri.headers == Span(p + |t| + 1, |headers|) && uri.vals == map[]
      && uri.unknown == [] + [(Span(p, |x.name|), Span(p + |x.name| + 1, |x.rest| - 1))]
    requires UriInside(uri, |buf|)
    ensures SipUriOf(buf, uri).(behindUser := "") ==
            SipUri(if kind.Sip? then 0 else 1, "", "", "", h, "", "", "", "", "", "", "", "",
                   [UriCompare.Param.Param(x.name, x.rest[1..])], headers)
  {
    hide PieceText;
    assert buf[|buf| - |headers|..|buf|] == headers;
    assert ParamTexts(buf, uri.unknown) == [UriCompare.Param.Param(x.name, x.rest[1..])];
  }
}
