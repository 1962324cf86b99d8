/** Comparison of URIs given as texts: the parser's pieces, cut out of the text
    they point into, put through the comparison. */
module UriTexts {
  import opened Decimal
  import opened Chars
  import opened StrCommon
  import opened UriParser
  import opened UriSpans
  import opened UriUserSplit
  import opened UriCompare

  function TextAt(buf: string, span: Span): string
    requires Inside(span, |buf|)
  {
    buf[span.s..span.s + span.len]
  }

  function ValueIn(buf: string, vals: map<Name, Span>, name: Name): string
    requires MapInside(vals, |buf|)
  {
    if name in vals then TextAt(buf, vals[name]) else ""
  }

  function KindNumber(kind: Kind): nat {
    match kind
    case Sip => 0
    case Sips => 1
    case Tel => 2
    case UrnService => 3
    case UrnNenaService => 4
  }

  function ParamTexts(buf: string, unknown: seq<(Span, Span)>): seq<Param>
    requires UnknownInside(unknown, |buf|)
  {
    seq(|unknown|, i requires 0 <= i < |unknown| =>
      UriCompare.Param.Param(TextAt(buf, unknown[i].0), TextAt(buf, unknown[i].1)))
  }

  function SipUriOf(buf: string, uri: Uri): SipUri
    requires UriInside(uri, |buf|)
  {
    SipUri(
      KindNumber(uri.kind), TextAt(buf, uri.user), buf[uri.user.s + uri.user.len..], TextAt(buf, uri.passwd),
      TextAt(buf, uri.host), TextAt(buf, uri.port),
      ValueIn(buf, uri.vals, Transport), ValueIn(buf, uri.vals, Ttl), ValueIn(buf, uri.vals, Name.UserParam),
      ValueIn(buf, uri.vals, Maddr), ValueIn(buf, uri.vals, Method), ValueIn(buf, uri.vals, Lr),
      ValueIn(buf, uri.vals, R2),
      ParamTexts(buf, uri.unknown), TextAt(buf, uri.headers))
  }

  function ParseRaw(raw: string): Option<SipUri> {
    var uri := Parsed(raw);
    if uri.None? then None
    else
      ParsedStaysInside(raw);
      Some(SipUriOf(raw, uri.value))
  }

  lemma ParserFits(raw: string)
    ensures ParamsFit(ParseRaw(raw))
  {
    hide Parsed, UriInside, SipUriOf;
    if Parsed(raw).Some? {
      ParsedStaysInside(raw);
      ParamCount(raw, Parsed(raw).value);
    }
  }

  lemma ParamCount(buf: string, uri: Uri)
    requires UriInside(uri, |buf|)
    ensures |SipUriOf(buf, uri).params| == |uri.unknown|
  {
  }

  ghost function RawVerdict(a: string, b: string): Verdict {
    UriVerdict(Some(a), None, Some(b), None, ParseRaw)
  }

  /** The comparison of two texts with the parser of this program. */
  method CompareTexts(a: string, b: string) returns (v: Verdict)
    ensures v == RawVerdict(a, b)
  {
    hide ParseRaw, ParamsFit;
    forall raw ensures ParamsFit(ParseRaw(raw)) {
      ParserFits(raw);
    }
    NothingFits();
    v := CompareUris(Some(a), None, Some(b), None, ParseRaw);
  }

  lemma NothingFits()
    ensures ParamsFit(None)
  {
  }

  /** On any two texts the verdict does not depend on their order. */
  lemma RawVerdictIsSymmetric(a: string, b: string)
    ensures RawVerdict(a, b) == RawVerdict(b, a)
  {
    CompareIsSymmetric(Some(a), None, Some(b), None, ParseRaw);
  }

  // --------------------------------------------------- users and hosts

  function OrEmpty(t: Option<string>): string {
    if t.None? then "" else t.value
  }

  /** What comparison sees of scheme, user, password, host and port. */
  function SplitUri(kind: Kind, u: string, w: Option<string>, h: string, d: Option<string>): SipUri {
    SipUri(KindNumber(kind), u, "@", OrEmpty(w), h, OrEmpty(d), "", "", "", "", "", "", "", [], "")
  }

  ghost predicate IsSplit(scheme: string, kind: Kind, u: string, w: Option<string>, h: string, d: Option<string>) {
    && (kind.Sip? || kind.Sips?) && LowerText(scheme) == SchemeText(kind)
    && UserText(u) && (w.Some? ==> PasswordText(w.value))
    && (PlainHost(h) || BracketedHost(h))
    && (d.Some? ==> AllDigits(d.value))
  }

  function SplitText(scheme: string, u: string, w: Option<string>, h: string, d: Option<string>): string {
    scheme + u + PortText(w) + "@" + h + PortText(d)
  }

  /** What comparison sees does not depend on the memory behind the user. */
  ghost predicate SameSeen(a: SipUri, b: SipUri) {
    a.(behindUser := "") == b.(behindUser := "") && DecodedUser(a) == DecodedUser(b)
  }

  lemma SplitSeen(scheme: string, kind: Kind, u: string, w: Option<string>, h: string, d: Option<string>)
    requires IsSplit(scheme, kind, u, w, h, d)
    ensures var parsed := ParseRaw(SplitText(scheme, u, w, h, d));
      if MissesEqual(u) then parsed == None else parsed.Some? && SameSeen(parsed.value, SplitUri(kind, u, w, h, d))
  {
    hide MissesEqual, LowerText, PlainHost, BracketedHost, UserText, PasswordText, Parsed, UriInside, DecodedUser,
         Value;
    var buf := SplitText(scheme, u, w, h, d);
    UserHostSplit(scheme, kind, u, w, h, d);
    if !MissesEqual(u) {
      ParsedStaysInside(buf);
      var uri := HostParts(UserParts(kind, |scheme|, u, w), |scheme| + |u| + |PortText(w)| + 1, h, d);
      SplitPieces(scheme, u, w, h, d);
      PiecesSeen(scheme, kind, u, w, h, d, buf, uri);
      DecodedAlike(SipUriOf(buf, uri), SplitUri(kind, u, w, h, d));
    }
  }

  lemma Middle(a: string, b: string, c: string)
    ensures (a + b + c)[|a|..|a| + |b|] == b && |a + b + c| == |a| + |b| + |c|
  {
  }

  lemma Regroup(a: string, b: string, c: string, d: string)
    ensures a + b + c + d == a + b + (c + d)
  {
  }

  /** The text behind a ':' that may be missing. */
  lemma OptionalPiece(a: string, w: Option<string>, c: string)
    ensures var s := a + PortText(w) + c;
      w.Some? ==> s[|a| + 1..|a| + 1 + |w.value|] == w.value
  {
    if w.Some? {
      assert a + PortText(w) + c == a + ":" + w.value + c;
      Middle(a + ":", w.value, c);
    }
  }

  lemma SplitPieces(scheme: string, u: string, w: Option<string>, h: string, d: Option<string>)
    ensures var buf := SplitText(scheme, u, w, h, d); var p := |scheme| + |u|; var q := p + |PortText(w)| + 1;
      && q + |h| + |PortText(d)| == |buf|
      && buf[|scheme|..p] == u && buf[q..q + |h|] == h
      && p < |buf| && (buf[p] == ':' || buf[p] == '@')
      && (w.Some? ==> p + 1 + |w.value| <= |buf| && buf[p + 1..p + 1 + |w.value|] == w.value)
      && (d.Some? ==> q + |h| + 1 + |d.value| <= |buf| && buf[q + |h| + 1..q + |h| + 1 + |d.value|] == d.value)
  {
    var pw, port := PortText(w), PortText(d);
    var front := scheme + u;
    var buf := front + pw + "@" + h + port;
    Middle(front + pw + "@", h, port);
    OptionalPiece(front + pw + "@" + h, d, "");
    assert front + pw + "@" + h + port + "" == buf;
    SplitFront(front, pw, "@" + h + port, buf, h, port);
    OptionalPiece(front, w, "@" + h + port);
    Middle(scheme, u, pw + ("@" + h + port));
    Regroup(scheme, u, pw, "@" + h + port);
    hide PortText;
    assert |pw| == if w.None? then 0 else 1 + |w.value| by {
      PortLength(w);
    }
    assert |port| == if d.None? then 0 else 1 + |d.value| by {
      PortLength(d);
    }
    AtColon(front, w, "@" + h + port);
  }

  lemma PortLength(w: Option<string>)
    ensures |PortText(w)| == if w.None? then 0 else 1 + |w.value|
  {
  }

  lemma AtColon(front: string, w: Option<string>, tail: string)
    requires tail != "" && tail[0] == '@'
    ensures var s := front + PortText(w) + tail; s[|front|] == ':' || s[|front|] == '@'
  {
  }

  lemma SplitFront(front: string, pw: string, tail: string, buf: string, h: string, port: string)
    requires buf == front + pw + "@" + h + port && tail == "@" + h + port
    ensures buf == front + pw + tail
  {
  }

  lemma PiecesSeen(scheme: string, kind: Kind, u: string, w: Option<string>, h: string, d: Option<string>,
                   buf: string, uri: Uri)
    requires d.Some? ==> AllDigits(d.value)
    requires var p := |scheme| + |u|; var q := p + |PortText(w)| + 1;
      && uri == HostParts(UserParts(kind, |scheme|, u, w), q, h, d)
      && q + |h| + |PortText(d)| == |buf|
      && buf[|scheme|..p] == u && buf[q..q + |h|] == h
      && p < |buf| && (buf[p] == ':' || buf[p] == '@')
      && (w.Some? ==> p + 1 + |w.value| <= |buf| && buf[p + 1..p + 1 + |w.value|] == w.value)
      && (d.Some? ==> q + |h| + 1 + |d.value| <= |buf| && buf[q + |h| + 1..q + |h| + 1 + |d.value|] == d.value)
    requires UriInside(uri, |buf|)
    ensures SipUriOf(buf, uri).(behindUser := "") == SplitUri(kind, u, w, h, d).(behindUser := "")
    ensures var behind := SipUriOf(buf, uri).behindUser; behind != "" && HexValue(behind[0]).None?
  {
    hide Value, PortText, UriInside, TextAt, HexValue;
    assert MapInside(map[], |buf|) && UnknownInside([], |buf|);
    assert ParamTexts(buf, []) == [];
    PlacedPieces(scheme, kind, u, w, h, d, buf, uri);
    AfterUser(buf, |scheme| + |u|);
  }

  lemma AfterUser(buf: string, p: nat)
    requires p < |buf| && (buf[p] == ':' || buf[p] == '@')
    ensures buf[p..] != "" && HexValue(buf[p..][0]).None?
  {
  }

  /** The pieces of a split URI, one by one. */
  lemma PlacedPieces(scheme: string, kind: Kind, u: string, w: Option<string>, h: string, d: Option<string>,
                     buf: string, uri: Uri)
    requires d.Some? ==> AllDigits(d.value)
    requires var p := |scheme| + |u|; var q := p + |PortText(w)| + 1;
      && uri == HostParts(UserParts(kind, |scheme|, u, w), q, h, d)
      && q + |h| + |PortText(d)| == |buf|
      && buf[|scheme|..p] == u && buf[q..q + |h|] == h
      && (w.Some? ==> p + 1 + |w.value| <= |buf| && buf[p + 1..p + 1 + |w.value|] == w.value)
      && (d.Some? ==> q + |h| + 1 + |d.value| <= |buf| && buf[q + |h| + 1..q + |h| + 1 + |d.value|] == d.value)
    requires UriInside(uri, |buf|)
    ensures Inside(uri.user, |buf|) && TextAt(buf, uri.user) == u
    ensures Inside(uri.passwd, |buf|) && TextAt(buf, uri.passwd) == OrEmpty(w)
    ensures Inside(uri.host, |buf|) && TextAt(buf, uri.host) == h
    ensures Inside(uri.port, |buf|) && TextAt(buf, uri.port) == OrEmpty(d)
    ensures Inside(uri.headers, |buf|) && TextAt(buf, uri.headers) == ""
    ensures uri.kind == kind && uri.names == map[] && uri.vals == map[] && uri.unknown == []
    ensures uri.user.s + uri.user.len == |scheme| + |u|
  {
    hide Value, PortText;
  }

  lemma DecodedAlike(a: SipUri, b: SipUri)
    requires a.user == b.user && b.behindUser == "@"
    requires a.behindUser != "" && HexValue(a.behindUser[0]).None?
    ensures DecodedUser(a) == DecodedUser(b)
  {
    hide UnescapeFrom;
    NoDigitBehind(a.user, 0, a.behindUser);
    NoDigitBehind(a.user, 0, "@");
  }

  /** Comparing two texts made of scheme, user, password, host and port: apart
      from the shortcut for texts that differ in case only, and from users the
      parser refuses, the verdict is that on exactly these parts. */
  lemma SplitVerdict(schemeA: string, kindA: Kind, uA: string, wA: Option<string>, hA: string, dA: Option<string>,
                     schemeB: string, kindB: Kind, uB: string, wB: Option<string>, hB: string, dB: Option<string>)
    requires IsSplit(schemeA, kindA, uA, wA, hA, dA) && IsSplit(schemeB, kindB, uB, wB, hB, dB)
    ensures var a, b := SplitText(schemeA, uA, wA, hA, dA), SplitText(schemeB, uB, wB, hB, dB);
      RawVerdict(a, b) ==
      if Same(a, b, true) then Match
      else if MissesEqual(uA) || MissesEqual(uB) then Error
      else ParsedVerdict(SplitUri(kindA, uA, wA, hA, dA), SplitUri(kindB, uB, wB, hB, dB))
  {
    hide IsSplit, SplitText, ParseRaw, MissesEqual, SameSeen, ParsedVerdict, SplitUri, Same;
    SplitSeen(schemeA, kindA, uA, wA, hA, dA);
    SplitSeen(schemeB, kindB, uB, wB, hB, dB);
    var a := ParseRaw(SplitText(schemeA, uA, wA, hA, dA));
    var b := ParseRaw(SplitText(schemeB, uB, wB, hB, dB));
    if a.Some? && b.Some? {
      SeenDecides(a.value, SplitUri(kindA, uA, wA, hA, dA), b.value, SplitUri(kindB, uB, wB, hB, dB));
    }
  }

  lemma SeenDecides(a: SipUri, a': SipUri, b: SipUri, b': SipUri)
    requires SameSeen(a, a') && SameSeen(b, b')
    ensures ParsedVerdict(a, b) == ParsedVerdict(a', b')
  {
    hide DecodedUser, Same, ParamsAgree;
    SeenFields(a, a');
    SeenFields(b, b');
  }

  lemma SeenFields(a: SipUri, b: SipUri)
    requires SameSeen(a, b)
    ensures a == b.(behindUser := a.behindUser) && DecodedUser(a) == DecodedUser(b)
  {
    hide DecodedUser;
    assert a.(behindUser := "").kind == a.kind;
    assert a == a.(behindUser := "").(behindUser := a.behindUser);
  }

  /** The shortcut on texts ignores the case of users, which the comparison of
      their parsed forms respects. */
  lemma ShortcutIgnoresUserCase()
    ensures var a, b := "sip:A@h", "sip:a@h";
      && RawVerdict(a, b) == Match && ParseRaw(a).Some? && ParseRaw(b).Some?
      && ParsedVerdict(ParseRaw(a).value, ParseRaw(b).value) == Differ
  {
    hide ParseRaw, ParsedVerdict, Same, SameSeen, SplitUri;
    SameButCase();
    SmallSplit("A", "sip:A@h");
    SmallSplit("a", "sip:a@h");
    UserCaseDiffers(ParseRaw("sip:A@h").value, ParseRaw("sip:a@h").value);
  }

  lemma SameButCase()
    ensures Same("sip:A@h", "sip:a@h", true)
  {
  }

  lemma SmallSplit(u: string, buf: string)
    requires (u == "A" || u == "a") && buf == "sip:" + u + "@h"
    ensures var parsed := ParseRaw(buf);
      parsed.Some? && SameSeen(parsed.value, SplitUri(Sip, u, None, "h", None))
  {
    hide ParseRaw, SameSeen, LowerText;
    SipText();
    assert !MissesEqual(u) by {
      NoParamMissesNothing(u);
    }
    assert IsSplit("sip:", Sip, u, None, "h", None);
    assert SplitText("sip:", u, None, "h", None) == buf;
    SplitSeen("sip:", Sip, u, None, "h", None);
  }

  lemma NoParamMissesNothing(u: string)
    requires u != "" && forall i :: 0 <= i < |u| ==> u[i] != ';' && u[i] != '?'
    ensures !MissesEqual(u)
  {
    forall k | 0 < k <= |u| ensures !NeedsEqual(u[..k]) {
      ZoneOfPlain(u[..k]);
      UserZoneNeedsNothing(u[..k]);
    }
  }

  lemma UserCaseDiffers(a: SipUri, b: SipUri)
    requires SameSeen(a, SplitUri(Sip, "A", None, "h", None)) && SameSeen(b, SplitUri(Sip, "a", None, "h", None))
    ensures ParsedVerdict(a, b) == Differ
  {
    var splitA, splitB := SplitUri(Sip, "A", None, "h", None), SplitUri(Sip, "a", None, "h", None);
    SeenDecides(a, splitA, b, splitB);
    OneLetter('A');
    OneLetter('a');
    assert !Same("A", "a", false);
  }

  lemma OneLetter(c: char)
    requires c != '%'
    ensures Unescape([c], "@") == Some([c])
  {
    UnescapeStep([c] + "@", 0, 1);
    assert UnescapeFrom([c] + "@", 1, 1) == Some("");
    assert [c] + "" == [c];
  }
}
