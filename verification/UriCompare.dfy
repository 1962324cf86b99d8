/** Comparison of SIP URIs (section 19.1.4 of RFC 3261). */
module UriCompare {
  import opened Decimal
  import opened Chars
  import opened StrCommon

  const MAX_PARAMS: nat := 10
  const UNESCAPED_BUF_LEN: nat := 1024

  datatype Param = Param(name: string, value: string)

  /** The parts of a parsed URI that comparison looks at. `behindUser` is what
      follows the user part in memory. */
  datatype SipUri = SipUri(
    kind: nat,
    user: string, behindUser: string, passwd: string, host: string, port: string,
    transportVal: string, ttlVal: string, userParamVal: string, maddrVal: string,
    methodVal: string, lrVal: string, r2Val: string,
    params: seq<Param>,
    headers: string)

  datatype Verdict = Match | Differ | Error

  // -------------------------------------------------- C string comparison

  function Fold(c: char, ignoreCase: bool): char {
    if ignoreCase then Lower(c) else c
  }

  /** strncmp or strncasecmp of two strings of the same length is zero: equal up
      to the first NUL. */
  predicate SameChars(a: string, b: string, ignoreCase: bool)
    requires |a| == |b|
  {
    a == "" || (Fold(a[0], ignoreCase) == Fold(b[0], ignoreCase)
                && (a[0] == '\0' || SameChars(a[1..], b[1..], ignoreCase)))
  }

  /** A field comparison: same length, then same characters. */
  predicate Same(a: string, b: string, ignoreCase: bool) {
    |a| == |b| && SameChars(a, b, ignoreCase)
  }

  lemma {:induction false} SameReflexive(a: string, ignoreCase: bool)
    ensures Same(a, a, ignoreCase)
  {
    if a != "" {
      SameReflexive(a[1..], ignoreCase);
    }
  }

  lemma {:induction false} SameSymmetric(a: string, b: string, ignoreCase: bool)
    ensures Same(a, b, ignoreCase) <==> Same(b, a, ignoreCase)
  {
    if |a| == |b| && a != "" {
      SameSymmetric(a[1..], b[1..], ignoreCase);
    }
  }

  lemma {:induction false} SameTransitive(a: string, b: string, c: string, ignoreCase: bool)
    requires Same(a, b, ignoreCase) && Same(b, c, ignoreCase)
    ensures Same(a, c, ignoreCase)
  {
    if a != "" && a[0] != '\0' {
      SameTransitive(a[1..], b[1..], c[1..], ignoreCase);
    }
  }

  // ------------------------------------------------------ unknown parameters

  predicate SameName(a: Param, b: Param) {
    Same(a.name, b.name, true)
  }

  predicate SameValue(a: Param, b: Param) {
    Same(a.value, b.value, true)
  }

  lemma SameNameCongruent(a: Param, b: Param, c: Param)
    requires SameName(a, b)
    ensures SameName(b, a) && (SameName(a, c) <==> SameName(b, c)) && (SameName(c, a) <==> SameName(c, b))
  {
    hide SameChars;
    SameSymmetric(a.name, b.name, true);
    SameSymmetric(a.name, c.name, true);
    SameSymmetric(b.name, c.name, true);
    if SameName(a, c) {
      SameTransitive(b.name, a.name, c.name, true);
    }
    if SameName(b, c) {
      SameTransitive(a.name, b.name, c.name, true);
    }
  }

  /** How many of the first n parameters have the name of p. */
  function Count(ps: seq<Param>, n: nat, p: Param): nat
    requires n <= |ps|
  {
    if n == 0 then 0 else Count(ps, n - 1, p) + if SameName(ps[n - 1], p) then 1 else 0
  }

  /** Parameter i is the Rank-th occurrence of its name. */
  function Rank(ps: seq<Param>, i: nat): nat
    requires i < |ps|
  {
    Count(ps, i, ps[i])
  }

  /** The k-th occurrence of a name on one side has the value of its k-th
      occurrence on the other, wherever both exist. */
  ghost predicate ParamsAgree(first: seq<Param>, second: seq<Param>) {
    forall i, j :: 0 <= i < |first| && 0 <= j < |second| && Paired(first, i, second, j) ==>
        SameValue(first[i], second[j])
  }

  predicate Paired(first: seq<Param>, i: nat, second: seq<Param>, j: nat)
    requires i < |first| && j < |second|
  {
    SameName(first[i], second[j]) && Rank(first, i) == Rank(second, j)
  }

  lemma {:induction false} CountCongruent(ps: seq<Param>, n: nat, p: Param, q: Param)
    requires n <= |ps| && SameName(p, q)
    ensures Count(ps, n, p) == Count(ps, n, q)
  {
    hide SameName;
    if n > 0 {
      CountCongruent(ps, n - 1, p, q);
      SameNameCongruent(p, q, ps[n - 1]);
    }
  }

  lemma {:induction false} CountMonotone(ps: seq<Param>, m: nat, n: nat, p: Param)
    requires m <= n <= |ps|
    ensures Count(ps, m, p) <= Count(ps, n, p)
  {
    hide SameName;
    if m < n {
      CountMonotone(ps, m, n - 1, p);
    }
  }

  lemma RanksDiffer(ps: seq<Param>, j: nat, k: nat)
    requires j < k < |ps| && SameName(ps[j], ps[k])
    ensures Rank(ps, j) < Rank(ps, k)
  {
    hide SameName;
    CountCongruent(ps, j, ps[j], ps[k]);
    CountMonotone(ps, j + 1, k, ps[k]);
  }

  lemma {:induction false} RankIsTaken(ps: seq<Param>, n: nat, p: Param, r: nat) returns (j: nat)
    requires n <= |ps| && r < Count(ps, n, p)
    ensures j < n && SameName(ps[j], p) && Rank(ps, j) == r
  {
    hide SameName;
    if r < Count(ps, n - 1, p) {
      j := RankIsTaken(ps, n - 1, p, r);
    } else {
      j := n - 1;
      CountCongruent(ps, n - 1, ps[j], p);
    }
  }

  /** Which parameters of `second` the first i of `first` have used up. */
  ghost predicate UsedUp(first: seq<Param>, i: nat, second: seq<Param>, matched: seq<bool>)
    requires i <= |first|
  {
    |second| <= |matched| && forall j :: 0 <= j < |second| ==>
        (matched[j] <==> Rank(second, j) < Count(first, i, second[j]))
  }

  /** The greedy search picks exactly the paired occurrence. */
  lemma FirstUnmatchedIsPaired(first: seq<Param>, i: nat, second: seq<Param>, j: nat, matched: seq<bool>)
    requires i < |first| && j < |second| && UsedUp(first, i, second, matched)
    requires SameName(first[i], second[j]) && !matched[j]
    requires forall k :: 0 <= k < j ==> matched[k] || !SameName(first[i], second[k])
    ensures Paired(first, i, second, j)
  {
    hide SameName;
    SameNameCongruent(first[i], second[j], second[j]);
    CountCongruent(first, i, first[i], second[j]);
    var r := Rank(first, i);
    if r < Rank(second, j) {
      var k := RankIsTaken(second, j, second[j], r);
      SameNameCongruent(first[i], second[j], second[k]);
      SameNameCongruent(second[k], second[j], first[i]);
      CountCongruent(first, i, first[i], second[k]);
    }
  }

  lemma NoneIsPaired(first: seq<Param>, i: nat, second: seq<Param>, j: nat, matched: seq<bool>)
    requires i < |first| && j < |second| && UsedUp(first, i, second, matched)
    requires matched[j] || !SameName(first[i], second[j])
    ensures !Paired(first, i, second, j)
  {
    hide SameName;
    if SameName(first[i], second[j]) {
      CountCongruent(first, i, first[i], second[j]);
    }
  }

  lemma UsedUpNext(first: seq<Param>, i: nat, second: seq<Param>, j: nat, before: seq<bool>, after: seq<bool>)
    requires i < |first| && j < |second| <= |before| && UsedUp(first, i, second, before)
    requires Paired(first, i, second, j) && after == before[j := true]
    ensures UsedUp(first, i + 1, second, after)
  {
    hide SameName;
    forall k | 0 <= k < |second| ensures after[k] <==> Rank(second, k) < Count(first, i + 1, second[k]) {
      if SameName(first[i], second[k]) {
        SameNameCongruent(first[i], second[k], second[j]);
        CountCongruent(first, i, first[i], second[k]);
        if k < j {
          RanksDiffer(second, k, j);
        } else if j < k {
          SameNameCongruent(second[k], second[j], second[j]);
          RanksDiffer(second, j, k);
        }
      }
    }
  }

  lemma UsedUpSame(first: seq<Param>, i: nat, second: seq<Param>, matched: seq<bool>)
    requires i < |first| && UsedUp(first, i, second, matched)
    requires forall k :: 0 <= k < |second| ==> matched[k] || !SameName(first[i], second[k])
    ensures UsedUp(first, i + 1, second, matched)
  {
    hide SameName;
  }

  /** The one-sided double loop over the unknown parameters. */
  method MatchParams(first: seq<Param>, second: seq<Param>) returns (ok: bool)
    requires |first| <= MAX_PARAMS && |second| <= MAX_PARAMS
    ensures ok <==> ParamsAgree(first, second)
  {
    hide SameName, SameValue, Paired, UsedUp;
    var matched := new bool[MAX_PARAMS](_ => false);
    NothingUsed(first, second, matched[..]);
    var i := 0;
    while i < |first|
      invariant i <= |first|
      invariant UsedUp(first, i, second, matched[..])
      invariant forall a, b :: 0 <= a < i && 0 <= b < |second| && Paired(first, a, second, b) ==>
          SameValue(first[a], second[b])
    {
      ghost var before := matched[..];
      var j := 0;
      while j < |second| && !(!matched[j] && SameName(first[i], second[j]))
        invariant j <= |second| && matched[..] == before
        invariant forall k :: 0 <= k < j ==> before[k] || !SameName(first[i], second[k])
      {
        j := j + 1;
      }
      if j < |second| {
        FirstUnmatchedIsPaired(first, i, second, j, before);
        if !SameValue(first[i], second[j]) {
          return false;
        }
        matched[j] := true;
        UsedUpNext(first, i, second, j, before, matched[..]);
        PairedOnce(first, i, second, j);
      } else {
        UsedUpSame(first, i, second, before);
        forall b | 0 <= b < |second| ensures !Paired(first, i, second, b) {
          NoneIsPaired(first, i, second, b, before);
        }
      }
      i := i + 1;
    }
    ok := true;
  }

  lemma {:induction false} NothingCounted(ps: seq<Param>, p: Param)
    ensures Count(ps, 0, p) == 0
  {
  }

  lemma NothingUsed(first: seq<Param>, second: seq<Param>, matched: seq<bool>)
    requires |second| <= |matched| && forall j :: 0 <= j < |matched| ==> !matched[j]
    ensures UsedUp(first, 0, second, matched)
  {
  }

  lemma PairedOnce(first: seq<Param>, i: nat, second: seq<Param>, j: nat)
    requires i < |first| && j < |second| && Paired(first, i, second, j)
    ensures forall b :: 0 <= b < |second| && Paired(first, i, second, b) ==> b == j
  {
    hide SameName;
    forall b | 0 <= b < |second| && Paired(first, i, second, b) ensures b == j {
      SameNameCongruent(first[i], second[j], second[b]);
      if b < j {
        SameNameCongruent(second[j], second[b], second[b]);
        RanksDiffer(second, b, j);
      } else if j < b {
        RanksDiffer(second, j, b);
      }
    }
  }

  lemma ParamsAgreeSymmetric(first: seq<Param>, second: seq<Param>)
    requires ParamsAgree(first, second)
    ensures ParamsAgree(second, first)
  {
    hide SameChars;
    forall i, j | 0 <= i < |second| && 0 <= j < |first| && Paired(second, i, first, j)
      ensures SameValue(second[i], first[j])
    {
      SameSymmetric(second[i].name, first[j].name, true);
      assert Paired(first, j, second, i);
      SameSymmetric(second[i].value, first[j].value, true);
    }
  }

  lemma {:induction false} CountAlike(first: seq<Param>, second: seq<Param>, n: nat, p: Param)
    requires n <= |first| == |second| && forall i :: 0 <= i < |first| ==> SameName(first[i], second[i])
    ensures Count(first, n, p) == Count(second, n, p)
  {
    hide SameName;
    if n > 0 {
      CountAlike(first, second, n - 1, p);
      SameNameCongruent(first[n - 1], second[n - 1], p);
    }
  }

  /** Lists that are the same place by place agree. */
  lemma ParamsAgreeAlike(first: seq<Param>, second: seq<Param>)
    requires |first| == |second|
    requires forall i :: 0 <= i < |first| ==> SameName(first[i], second[i]) && SameValue(first[i], second[i])
    ensures ParamsAgree(first, second)
  {
    hide SameName, SameValue;
    forall i, j | 0 <= i < |first| && 0 <= j < |second| && Paired(first, i, second, j)
      ensures SameValue(first[i], second[j])
    {
      CountAlike(first, second, i, first[i]);
      CountCongruent(second, i, first[i], second[i]);
      assert Paired(first, i, second, i);
      PairedOnce(first, i, second, j);
    }
  }

  lemma ParamsAgreeReflexive(ps: seq<Param>)
    ensures ParamsAgree(ps, ps)
  {
    hide SameName, SameChars;
    forall i, j | 0 <= i < |ps| && 0 <= j < |ps| && Paired(ps, i, ps, j) ensures SameValue(ps[i], ps[j]) {
      if i < j {
        RanksDiffer(ps, i, j);
      } else if j < i {
        SameNameCongruent(ps[i], ps[j], ps[i]);
        RanksDiffer(ps, j, i);
      }
      SameReflexive(ps[i].value, true);
    }
  }

  // --------------------------------------------------------- whole URIs

  /** The user part decoded into a fixed buffer. */
  function DecodedUser(u: SipUri): Option<string> {
    if UNESCAPED_BUF_LEN < |u.user| + 1 then None else Unescape(u.user, u.behindUser)
  }

  ghost predicate FieldsSame(a: SipUri, b: SipUri) {
    && Same(a.passwd, b.passwd, false)
    && Same(a.host, b.host, true)
    && Same(a.port, b.port, false)
    && Same(a.transportVal, b.transportVal, true)
    && Same(a.ttlVal, b.ttlVal, true)
    && Same(a.userParamVal, b.userParamVal, true)
    && Same(a.maddrVal, b.maddrVal, true)
    && Same(a.methodVal, b.methodVal, true)
    && Same(a.lrVal, b.lrVal, true)
    && Same(a.r2Val, b.r2Val, true)
    && Same(a.headers, b.headers, true)
  }

  /** The verdict on two parsed URIs, without saying how parameters are searched. */
  ghost function ParsedVerdict(a: SipUri, b: SipUri): Verdict {
    if a.kind != b.kind then Differ
    else if DecodedUser(a).None? || DecodedUser(b).None? then Error
    else if Same(DecodedUser(a).value, DecodedUser(b).value, false) && FieldsSame(a, b)
        && ParamsAgree(a.params, b.params) then Match
    else Differ
  }

  /** The verdict on URIs given raw, parsed or both; `parse` parses raw ones. */
  ghost function UriVerdict(rawA: Option<string>, parsedA: Option<SipUri>, rawB: Option<string>,
      parsedB: Option<SipUri>,
                            parse: string -> Option<SipUri>): Verdict {
    if (rawA.None? && parsedA.None?) || (rawB.None? && parsedB.None?) then Error
    else if rawA.Some? && rawB.Some? && Same(rawA.value, rawB.value, true) then Match
    else
      var a := if parsedA.Some? then parsedA else parse(rawA.value);
      var b := if parsedB.Some? then parsedB else parse(rawB.value);
      if a.None? || b.None? then Error else ParsedVerdict(a.value, b.value)
  }

  predicate ParamsFit(u: Option<SipUri>) {
    u.Some? ==> |u.value.params| <= MAX_PARAMS
  }

  method CompareParsed(a: SipUri, b: SipUri) returns (v: Verdict)
    requires |a.params| <= MAX_PARAMS && |b.params| <= MAX_PARAMS
    ensures v == ParsedVerdict(a, b)
  {
    hide SameChars, Unescape, ParamsAgree;
    if a.kind != b.kind {
      return Differ;
    }
    var bufA, bufB := new char[UNESCAPED_BUF_LEN], new char[UNESCAPED_BUF_LEN];
    var okA, lenA := UnescapeInto(a.user, a.behindUser, bufA, UNESCAPED_BUF_LEN);
    if !okA {
      return Error;
    }
    var okB, lenB := UnescapeInto(b.user, b.behindUser, bufB, UNESCAPED_BUF_LEN);
    if !okB {
      return Error;
    }
    if !Same(bufA[..lenA], bufB[..lenB], false) || !Same(a.passwd, b.passwd, false)
       || !Same(a.host, b.host, true) || !Same(a.port, b.port, false) {
      return Differ;
    }
    if !Same(a.transportVal, b.transportVal, true) || !Same(a.ttlVal, b.ttlVal, true)
       || !Same(a.userParamVal, b.userParamVal, true) || !Same(a.maddrVal, b.maddrVal, true)
       || !Same(a.methodVal, b.methodVal, true) || !Same(a.lrVal, b.lrVal, true) || !Same(a.r2Val, b.r2Val, true) {
      return Differ;
    }
    NoParamsAgree(a.params, b.params);
    if |a.params| != 0 && |b.params| != 0 {
      var ok := MatchParams(a.params, b.params);
      if !ok {
        return Differ;
      }
    }
    v := if Same(a.headers, b.headers, true) then Match else Differ;
  }

  lemma NoParamsAgree(first: seq<Param>, second: seq<Param>)
    ensures first == [] || second == [] ==> ParamsAgree(first, second)
  {
  }

  method CompareUris(rawA: Option<string>, parsedA: Option<SipUri>, rawB: Option<string>, parsedB: Option<SipUri>,
                     parse: string -> Option<SipUri>) returns (v: Verdict)
    requires ParamsFit(parsedA) && ParamsFit(parsedB)
    requires forall raw :: ParamsFit(parse(raw))
    ensures v == UriVerdict(rawA, parsedA, rawB, parsedB, parse)
  {
    hide SameChars, ParsedVerdict;
    if (rawA.None? && parsedA.None?) || (rawB.None? && parsedB.None?) {
      return Error;
    }
    if rawA.Some? && rawB.Some? && |rawA.value| == |rawB.value| && SameChars(rawA.value, rawB.value, true) {
      return Match;
    }
    var a := if parsedA.Some? then parsedA else parse(rawA.value);
    if a.None? {
      return Error;
    }
    var b := if parsedB.Some? then parsedB else parse(rawB.value);
    if b.None? {
      return Error;
    }
    assert ParamsFit(a) && ParamsFit(b);
    v := CompareParsed(a.value, b.value);
  }

  lemma FieldsSameSymmetric(a: SipUri, b: SipUri)
    requires FieldsSame(a, b)
    ensures FieldsSame(b, a)
  {
    hide Same;
    SameSymmetric(a.passwd, b.passwd, false);
    SameSymmetric(a.host, b.host, true);
    SameSymmetric(a.port, b.port, false);
    SameSymmetric(a.transportVal, b.transportVal, true);
    SameSymmetric(a.ttlVal, b.ttlVal, true);
    SameSymmetric(a.userParamVal, b.userParamVal, true);
    SameSymmetric(a.maddrVal, b.maddrVal, true);
    SameSymmetric(a.methodVal, b.methodVal, true);
    SameSymmetric(a.lrVal, b.lrVal, true);
    SameSymmetric(a.r2Val, b.r2Val, true);
    SameSymmetric(a.headers, b.headers, true);
  }

  lemma MatchSymmetric(a: SipUri, b: SipUri)
    requires ParsedVerdict(a, b) == Match
    ensures ParsedVerdict(b, a) == Match
  {
    hide Same, FieldsSame, ParamsAgree, DecodedUser;
    SameSymmetric(DecodedUser(a).value, DecodedUser(b).value, false);
    FieldsSameSymmetric(a, b);
    ParamsAgreeSymmetric(a.params, b.params);
  }

  /** Although the search is one-sided and greedy, swapping the URIs never
      changes the verdict, errors included. */
  lemma CompareIsSymmetric(rawA: Option<string>, parsedA: Option<SipUri>, rawB: Option<string>, parsedB: Option<SipUri>,
                           parse: string -> Option<SipUri>)
    ensures UriVerdict(rawA, parsedA, rawB, parsedB, parse) == UriVerdict(rawB, parsedB, rawA, parsedA, parse)
  {
    hide Same, FieldsSame, ParamsAgree, DecodedUser;
    if rawA.Some? && rawB.Some? {
      SameSymmetric(rawA.value, rawB.value, true);
    }
    if (rawA.Some? || parsedA.Some?) && (rawB.Some? || parsedB.Some?) {
      var a := if parsedA.Some? then parsedA else parse(rawA.value);
      var b := if parsedB.Some? then parsedB else parse(rawB.value);
      if a.Some? && b.Some? {
        ParsedSymmetric(a.value, b.value);
      }
    }
  }

  lemma ParsedSymmetric(a: SipUri, b: SipUri)
    ensures ParsedVerdict(a, b) == ParsedVerdict(b, a)
  {
    hide Same, FieldsSame, ParamsAgree, DecodedUser;
    if ParsedVerdict(a, b) == Match {
      MatchSymmetric(a, b);
    }
    if ParsedVerdict(b, a) == Match {
      MatchSymmetric(b, a);
    }
  }

  /** A parsed URI compares equal to itself exactly when its user decodes. */
  lemma CompareIsReflexive(a: SipUri)
    ensures ParsedVerdict(a, a) == if DecodedUser(a).Some? then Match else Error
  {
    hide Same, ParamsAgree, DecodedUser;
    ParamsAgreeReflexive(a.params);
    forall s: string, ignoreCase: bool ensures Same(s, s, ignoreCase) {
      SameReflexive(s, ignoreCase);
    }
  }
}
