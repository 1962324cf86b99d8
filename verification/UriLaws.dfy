/** When two URIs match, character by character (section 19.1.4 of RFC 3261, as
    far as the program follows it). */
module UriLaws {
  import opened Decimal
  import opened Chars
  import opened StrCommon
  import opened UriCompare

  /** The same letters, whatever their case. */
  ghost predicate Like(a: string, b: string) {
    |a| == |b| && forall i :: 0 <= i < |a| ==> Lower(a[i]) == Lower(b[i])
  }

  const UPPER: string := "ABCDEFGHIJKLMNOPQRSTUVWXYZ"
  const LOWER: string := "abcdefghijklmnopqrstuvwxyz"

  /** Two characters are the same letter if they are equal, or one is the capital
      of the other. */
  lemma SameLetter(c: char, d: char)
    ensures Lower(c) == Lower(d) <==>
            c == d || exists k :: 0 <= k < 26 && ((c == UPPER[k] && d == LOWER[k]) || (c == LOWER[k] && d == UPPER[k]))
  {
    assert |UPPER| == 26 && |LOWER| == 26;
    Alphabet();
    if Lower(c) == Lower(d) && c != d {
      var k := if 'A' <= c <= 'Z' then c as int - 'A' as int else c as int - 'a' as int;
      assert 0 <= k < 26;
      assert (c == UPPER[k] && d == LOWER[k]) || (c == LOWER[k] && d == UPPER[k]);
    }
  }

  lemma Alphabet()
    ensures forall k :: 0 <= k < 26 ==> UPPER[k] as int == 'A' as int + k && LOWER[k] as int == 'a' as int + k
  {
  }

  /** Behind a NUL nothing is compared; without one all characters are. */
  lemma {:induction false} SameIsChars(a: string, b: string, ignoreCase: bool)
    requires '\0' !in b
    ensures Same(a, b, ignoreCase) <==> if ignoreCase then Like(a, b) else a == b
  {
    hide Lower;
    LowerNul();
    if |a| == |b| && a != "" {
      assert b[0] in b && a == [a[0]] + a[1..] && b == [b[0]] + b[1..];
      SameIsChars(a[1..], b[1..], ignoreCase);
      if Like(a[1..], b[1..]) && Lower(a[0]) == Lower(b[0]) {
        assert forall i :: 0 < i < |a| ==> a[i] == a[1..][i - 1] && b[i] == b[1..][i - 1];
      }
      if Like(a, b) {
        assert forall i :: 0 <= i < |a| - 1 ==> a[1..][i] == a[i + 1] && b[1..][i] == b[i + 1];
      }
    }
  }

  lemma LowerNul()
    ensures forall c :: Lower(c) == '\0' <==> c == '\0'
  {
  }

  // --------------------------------------------------- unknown parameters

  ghost predicate CleanParams(ps: seq<Param>) {
    forall i :: 0 <= i < |ps| ==> '\0' !in ps[i].name && '\0' !in ps[i].value
  }

  /** The places in front of i where the name of parameter i occurs already. */
  ghost function Earlier(ps: seq<Param>, n: nat, name: string): set<nat>
    requires n <= |ps|
  {
    set k: nat | k < n && Like(ps[k].name, name)
  }

  lemma {:induction false} CountIsEarlier(ps: seq<Param>, n: nat, p: Param)
    requires n <= |ps| && '\0' !in p.name
    ensures Count(ps, n, p) == |Earlier(ps, n, p.name)|
  {
    hide Like, Same;
    if n > 0 {
      CountIsEarlier(ps, n - 1, p);
      SameIsChars(ps[n - 1].name, p.name, true);
      assert Earlier(ps, n, p.name) ==
             Earlier(ps, n - 1, p.name) + if Like(ps[n - 1].name, p.name) then {n - 1} else {};
    } else {
      assert Earlier(ps, 0, p.name) == {};
    }
  }

  /** Parameter lists agree exactly if wherever a name stands in both, after the
      same number of occurrences of that name, the values are the same. */
  lemma ParamsAgreeExactly(first: seq<Param>, second: seq<Param>)
    requires CleanParams(first) && CleanParams(second)
    ensures ParamsAgree(first, second) <==>
            forall i, j :: 0 <= i < |first| && 0 <= j < |second| && Like(first[i].name, second[j].name)
                           && |Earlier(first, i, first[i].name)| == |Earlier(second, j, second[j].name)|
                           ==> Like(first[i].value, second[j].value)
  {
    hide Same, Like, Earlier, Count;
    forall i, j | 0 <= i < |first| && 0 <= j < |second|
      ensures Paired(first, i, second, j) <==>
              Like(first[i].name, second[j].name)
              && |Earlier(first, i, first[i].name)| == |Earlier(second, j, second[j].name)|
      ensures SameValue(first[i], second[j]) <==> Like(first[i].value, second[j].value)
    {
      SameIsChars(first[i].name, second[j].name, true);
      SameIsChars(first[i].value, second[j].value, true);
      CountIsEarlier(first, i, first[i]);
      CountIsEarlier(second, j, second[j]);
    }
  }

  // ------------------------------------------------------------ whole URIs

  ghost predicate CleanFields(u: SipUri) {
    && '\0' !in u.passwd && '\0' !in u.host && '\0' !in u.port && '\0' !in u.transportVal && '\0' !in u.ttlVal
    && '\0' !in u.userParamVal && '\0' !in u.maddrVal && '\0' !in u.methodVal && '\0' !in u.lrVal && '\0' !in u.r2Val
    && '\0' !in u.headers && CleanParams(u.params)
  }

  /** URIs of different kinds differ, whatever their users; a user that does not
      decode is an error. */
  lemma KindFirst(a: SipUri, b: SipUri)
    ensures a.kind != b.kind ==> ParsedVerdict(a, b) == Differ
    ensures a.kind == b.kind && (DecodedUser(a).None? || DecodedUser(b).None?) ==> ParsedVerdict(a, b) == Error
  {
    hide DecodedUser, FieldsSame, ParamsAgree, Same;
  }

  /** Two URIs of the same kind whose users decode match exactly if their decoded
      users, passwords and ports are equal, their hosts, values and headers are
      the same but for case, and their parameters agree; else they differ. */
  lemma MatchExactly(a: SipUri, b: SipUri)
    requires a.kind == b.kind && DecodedUser(a).Some? && DecodedUser(b).Some?
    requires '\0' !in DecodedUser(b).value && CleanFields(b) && CleanParams(a.params)
    ensures ParsedVerdict(a, b) ==
      if DecodedUser(a).value == DecodedUser(b).value && a.passwd == b.passwd && a.port == b.port
         && Like(a.host, b.host) && Like(a.transportVal, b.transportVal) && Like(a.ttlVal, b.ttlVal)
         && Like(a.userParamVal, b.userParamVal) && Like(a.maddrVal, b.maddrVal) && Like(a.methodVal, b.methodVal)
         && Like(a.lrVal, b.lrVal) && Like(a.r2Val, b.r2Val) && Like(a.headers, b.headers)
         && (forall i, j :: 0 <= i < |a.params| && 0 <= j < |b.params| && Like(a.params[i].name, b.params[j].name)
               && |Earlier(a.params, i, a.params[i].name)| == |Earlier(b.params, j, b.params[j].name)|
               ==> Like(a.params[i].value, b.params[j].value))
      then Match else Differ
  {
    hide Same, Like, DecodedUser, ParamsAgree, CleanParams;
    SameIsChars(DecodedUser(a).value, DecodedUser(b).value, false);
    SameIsChars(a.passwd, b.passwd, false);
    SameIsChars(a.port, b.port, false);
    SameIsChars(a.host, b.host, true);
    SameIsChars(a.transportVal, b.transportVal, true);
    SameIsChars(a.ttlVal, b.ttlVal, true);
    SameIsChars(a.userParamVal, b.userParamVal, true);
    SameIsChars(a.maddrVal, b.maddrVal, true);
    SameIsChars(a.methodVal, b.methodVal, true);
    SameIsChars(a.lrVal, b.lrVal, true);
    SameIsChars(a.r2Val, b.r2Val, true);
    SameIsChars(a.headers, b.headers, true);
    ParamsAgreeExactly(a.params, b.params);
  }

  lemma AllSame(a: SipUri)
    ensures forall s: string, ignoreCase: bool :: Same(s, s, ignoreCase)
    ensures ParamsAgree(a.params, a.params)
  {
    hide Same, ParamsAgree;
    ParamsAgreeReflexive(a.params);
    forall s: string, ignoreCase: bool ensures Same(s, s, ignoreCase) {
      SameReflexive(s, ignoreCase);
    }
  }

  /** Replacing one field of a URI by another text: the two match exactly if the
      texts are equal, or, for most fields, the same but for case. */
  lemma OneFieldDecides(a: SipUri, x: string)
    requires DecodedUser(a).Some? && '\0' !in x
    ensures ParsedVerdict(a, a.(passwd := x)) == if a.passwd == x then Match else Differ
    ensures ParsedVerdict(a, a.(port := x)) == if a.port == x then Match else Differ
    ensures ParsedVerdict(a, a.(host := x)) == if Like(a.host, x) then Match else Differ
    ensures ParsedVerdict(a, a.(transportVal := x)) == if Like(a.transportVal, x) then Match else Differ
    ensures ParsedVerdict(a, a.(ttlVal := x)) == if Like(a.ttlVal, x) then Match else Differ
    ensures ParsedVerdict(a, a.(userParamVal := x)) == if Like(a.userParamVal, x) then Match else Differ
    ensures ParsedVerdict(a, a.(maddrVal := x)) == if Like(a.maddrVal, x) then Match else Differ
    ensures ParsedVerdict(a, a.(methodVal := x)) == if Like(a.methodVal, x) then Match else Differ
    ensures ParsedVerdict(a, a.(lrVal := x)) == if Like(a.lrVal, x) then Match else Differ
    ensures ParsedVerdict(a, a.(r2Val := x)) == if Like(a.r2Val, x) then Match else Differ
    ensures ParsedVerdict(a, a.(headers := x)) == if Like(a.headers, x) then Match else Differ
  {
    hide ParsedVerdict, DecodedUser, Like;
    PlainFields(a, x);
    FirstValues(a, x);
    LastValues(a, x);
  }

  lemma PlainFields(a: SipUri, x: string)
    requires DecodedUser(a).Some? && '\0' !in x
    ensures ParsedVerdict(a, a.(passwd := x)) == if a.passwd == x then Match else Differ
    ensures ParsedVerdict(a, a.(port := x)) == if a.port == x then Match else Differ
    ensures ParsedVerdict(a, a.(host := x)) == if Like(a.host, x) then Match else Differ
    ensures ParsedVerdict(a, a.(headers := x)) == if Like(a.headers, x) then Match else Differ
  {
    hide Same, Like, ParamsAgree, UnescapeFrom;
    AllSame(a);
    SameIsChars(a.passwd, x, false);
    SameIsChars(a.port, x, false);
    SameIsChars(a.host, x, true);
    SameIsChars(a.headers, x, true);
  }

  lemma FirstValues(a: SipUri, x: string)
    requires DecodedUser(a).Some? && '\0' !in x
    ensures ParsedVerdict(a, a.(transportVal := x)) == if Like(a.transportVal, x) then Match else Differ
    ensures ParsedVerdict(a, a.(ttlVal := x)) == if Like(a.ttlVal, x) then Match else Differ
    ensures ParsedVerdict(a, a.(userParamVal := x)) == if Like(a.userParamVal, x) then Match else Differ
    ensures ParsedVerdict(a, a.(maddrVal := x)) == if Like(a.maddrVal, x) then Match else Differ
  {
    hide Same, Like, ParamsAgree, UnescapeFrom;
    AllSame(a);
    SameIsChars(a.transportVal, x, true);
    SameIsChars(a.ttlVal, x, true);
    SameIsChars(a.userParamVal, x, true);
    SameIsChars(a.maddrVal, x, true);
  }

  lemma LastValues(a: SipUri, x: string)
    requires DecodedUser(a).Some? && '\0' !in x
    ensures ParsedVerdict(a, a.(methodVal := x)) == if Like(a.methodVal, x) then Match else Differ
    ensures ParsedVerdict(a, a.(lrVal := x)) == if Like(a.lrVal, x) then Match else Differ
    ensures ParsedVerdict(a, a.(r2Val := x)) == if Like(a.r2Val, x) then Match else Differ
  {
    hide Same, Like, ParamsAgree, UnescapeFrom;
    AllSame(a);
    SameIsChars(a.methodVal, x, true);
    SameIsChars(a.lrVal, x, true);
    SameIsChars(a.r2Val, x, true);
  }

  /** The same for the kind and the user: users are compared as they decode, and
      users without escapes as they are. */
  lemma KindAndUserDecide(a: SipUri, kind: nat, x: string)
    requires DecodedUser(a).Some? && '\0' !in x
    ensures ParsedVerdict(a, a.(kind := kind)) == if a.kind == kind then Match else Differ
    ensures var b := a.(user := x);
      ParsedVerdict(a, b) ==
        if |x| >= 1024 || Unescape(x, a.behindUser).None? then Error
        else if Unescape(a.user, a.behindUser) == Unescape(x, a.behindUser) then Match
        else Differ
    ensures '%' !in a.user && '%' !in x && |x| < 1024 ==>
      ParsedVerdict(a, a.(user := x)) == if a.user == x then Match else Differ
  {
    hide Same, ParamsAgree, UnescapeFrom;
    AllSame(a);
    if Unescape(x, a.behindUser).Some? {
      NoNulDecoded(x, a.behindUser, 0);
      SameIsChars(Unescape(a.user, a.behindUser).value, Unescape(x, a.behindUser).value, false);
    }
    if '%' !in a.user {
      PlainDecodes(a.user, a.behindUser, 0);
    }
    if '%' !in x {
      PlainDecodes(x, a.behindUser, 0);
    }
  }

  lemma {:induction false} NoNulDecoded(s: string, behind: string, p: nat)
    requires '\0' !in s && UnescapeFrom(s + behind, p, |s|).Some?
    ensures '\0' !in UnescapeFrom(s + behind, p, |s|).value
    decreases |s| - p
  {
    if p < |s| {
      assert (s + behind)[p] == s[p] && s[p] in s;
      UnescapeStep(s + behind, p, |s|);
      if s[p] == '%' {
        NoNulDecoded(s, behind, p + 3);
      } else {
        NoNulDecoded(s, behind, p + 1);
      }
    }
  }

  lemma {:induction false} PlainDecodes(s: string, behind: string, p: nat)
    requires '%' !in s && p <= |s|
    ensures UnescapeFrom(s + behind, p, |s|) == Some(s[p..])
    decreases |s| - p
  {
    if p < |s| {
      assert (s + behind)[p] == s[p] && s[p] in s;
      PlainDecodes(s, behind, p + 1);
      assert s[p..] == [s[p]] + s[p + 1..];
    } else {
      assert s[p..] == "";
    }
  }

  /** Where the verdict on texts and parsed forms comes from: a side with neither
      is an error; texts that look the same match; else a parsed form counts
      before its text, whatever a parser makes of that. */
  lemma VerdictSources(rawA: Option<string>, rawB: Option<string>, a: SipUri, b: SipUri,
      parse: string -> Option<SipUri>)
    requires rawA.Some? && rawB.Some? ==> !Same(rawA.value, rawB.value, true)
    ensures UriVerdict(rawA, Some(a), rawB, Some(b), parse) == ParsedVerdict(a, b)
    ensures rawA.Some? ==> UriVerdict(rawA, None, rawB, Some(b), parse) ==
                           if parse(rawA.value).None? then Error else ParsedVerdict(parse(rawA.value).value, b)
    ensures rawB.Some? ==> UriVerdict(rawA, Some(a), rawB, None, parse) ==
                           if parse(rawB.value).None? then Error else ParsedVerdict(a, parse(rawB.value).value)
    ensures rawA.Some? && rawB.Some? ==> UriVerdict(rawA, None, rawB, None, parse) ==
                                         if parse(rawA.value).None? || parse(rawB.value).None? then Error
                                         else ParsedVerdict(parse(rawA.value).value, parse(rawB.value).value)
    ensures UriVerdict(None, None, rawB, Some(b), parse) == Error
    ensures UriVerdict(rawA, Some(a), None, None, parse) == Error
    ensures UriVerdict(None, None, None, None, parse) == Error
  {
    hide Same, ParsedVerdict;
  }

  /** Texts that look the same match, whatever their parsed forms. */
  lemma SameTextsMatch(rawA: string, rawB: string, a: Option<SipUri>, b: Option<SipUri>,
      parse: string -> Option<SipUri>)
    requires '\0' !in rawB && Like(rawA, rawB)
    ensures UriVerdict(Some(rawA), a, Some(rawB), b, parse) == Match
  {
    hide Same, Like, ParsedVerdict;
    SameIsChars(rawA, rawB, true);
  }
}
