/** What a call for some header types has achieved, told by the fields it found. */
module HeaderLaws {
  import opened Decimal
  import opened HeaderSpec
  import opened HeaderParser

  /** Types without a hook and a flag. */
  const PLAIN: set<HdrType> := {Other, RetryAfter}

  /** Every type has a flag of its own, apart from the flags for the second hop
      and for the end of the headers. */
  lemma FlagsAreDistinct(a: HdrType, b: HdrType)
    requires a !in PLAIN && b !in PLAIN
    ensures Bit(a) == Bit(b) <==> a == b
    ensures Bit(a) != 2 && 0 < Bit(a) < 63 && VIA2_BIT == 2 && LAST_BIT == 63
  {
    FlagOrder(a);
    FlagOrder(b);
  }

  lemma FlagOrder(a: HdrType)
    ensures TypeOf(Bit(a)) == a && Bit(a) != 2 && Bit(a) < 63 && (a != Other ==> 0 < Bit(a))
    ensures IsPlain(a) <==> a in PLAIN
  {
    hide IsPlain;
    PlainByName(a);
  }

  lemma PlainByName(a: HdrType)
    ensures IsPlain(a) <==> a in PLAIN
  {
  }

  /** The type a flag stands for. */
  function TypeOf(b: nat): HdrType {
    match b
    case 1 => Via case 3 => To case 4 => From case 5 => CSeq case 6 => CallId case 7 => Contact case 8 => MaxForwards
    case 9 => Route case 10 => RecordRoute case 11 => Path case 12 => ContentType case 13 => ContentLength
    case 14 => Authorization case 15 => Expires case 16 => ProxyAuth case 17 => Supported case 18 => ProxyRequire
    case 19 => Unsupported case 20 => Allow case 21 => Event case 22 => Accept case 23 => AcceptLanguage
    case 24 => Organization case 25 => Priority case 26 => Subject case 27 => UserAgent case 28 => AcceptDisposition
    case 29 => ContentDisposition case 30 => Diversion case 31 => Rpid case 32 => ReferTo case 33 => SessionExpires
    case 34 => MinSe case 35 => Ppi case 36 => Pai case 37 => Privacy case 38 => RetryAfter case 39 => CallInfo
    case 40 => WwwAuthenticate case 41 => ProxyAuthenticate case 42 => MinExpires case 43 => FeatureCaps
    case 44 => Replaces case _ => Other
  }

  // ------------------------------------------------------ flags and fields

  /** A field of this type stands at or behind place n. */
  ghost predicate HasType(fields: seq<Field>, n: nat, kind: HdrType) {
    exists i :: n <= i < |fields| && fields[i].kind == kind
  }

  /** The second hop: behind the first Via if that names several, or a second Via. */
  ghost predicate HopKnown(fields: seq<Field>) {
    exists i, j :: 0 <= i <= j < |fields| && fields[i].kind == Via && fields[j].kind == Via
                   && (forall k :: 0 <= k < i ==> fields[k].kind != Via) && (i == j ==> fields[i].more)
  }

  lemma HopIsKnown(fields: seq<Field>)
    ensures SecondHopKnown(fields) <==> HopKnown(fields)
  {
    var first := Find(fields, 0, Via);
    if SecondHopKnown(fields) {
      var j := if fields[first].more then first else Find(fields, first + 1, Via);
      assert fields[j].kind == Via;
    }
    if HopKnown(fields) {
      var i, j :| 0 <= i <= j < |fields| && fields[i].kind == Via && fields[j].kind == Via
        && (forall k :: 0 <= k < i ==> fields[k].kind != Via) && (i == j ==> fields[i].more);
      assert i == first;
    }
  }

  /** The flags that the fields from n on have set. */
  ghost function SetSince(fields: seq<Field>, n: nat): set<nat>
    requires n <= |fields|
  {
    (set i: nat | n <= i < |fields| && fields[i].kind !in PLAIN :: Bit(fields[i].kind))
    + if HopKnown(fields) && !HopKnown(fields[..n]) then {2} else {}
  }

  lemma SetSinceGrows(fields: seq<Field>, f: Field, n: nat)
    requires n <= |fields|
    ensures SetSince(fields + [f], n) == SetSince(fields, n) + FlagsOf(fields, f)
  {
    hide SecondHopKnown, HopKnown, IsPlain, Bit;
    var more := fields + [f];
    HopIsKnown(fields);
    HopIsKnown(more);
    FlagOrder(f.kind);
    HopStays(fields, f);
    HopStaysFrom(fields, n);
    assert more[..n] == fields[..n];
    assert VIA2_BIT == 2;
    var a := set i: nat | n <= i < |fields| && fields[i].kind !in PLAIN :: Bit(fields[i].kind);
    var b := set i: nat | n <= i < |more| && more[i].kind !in PLAIN :: Bit(more[i].kind);
    forall x | x in b ensures x in a || (f.kind !in PLAIN && x == Bit(f.kind)) {
      var i: nat :| n <= i < |more| && more[i].kind !in PLAIN && x == Bit(more[i].kind);
      assert i == |fields| || fields[i] == more[i];
    }
    forall x | x in a ensures x in b {
      var i: nat :| n <= i < |fields| && fields[i].kind !in PLAIN && x == Bit(fields[i].kind);
      assert more[i] == fields[i];
    }
    if f.kind !in PLAIN {
      assert more[|fields|] == f;
    }
    assert b == a + if f.kind !in PLAIN then {Bit(f.kind)} else {};
  }

  lemma HopStays(fields: seq<Field>, f: Field)
    ensures HopKnown(fields) ==> HopKnown(fields + [f])
    ensures f.kind in PLAIN ==> (HopKnown(fields + [f]) <==> HopKnown(fields))
  {
    hide SecondHopKnown, HopKnown, Find;
    HopIsKnown(fields);
    HopIsKnown(fields + [f]);
    SecondHopStep(fields, f);
  }

  lemma {:induction false} HopStaysFrom(fields: seq<Field>, n: nat)
    requires n <= |fields|
    ensures HopKnown(fields[..n]) ==> HopKnown(fields)
    decreases |fields|
  {
    hide HopKnown;
    if n == |fields| {
      assert fields[..n] == fields;
    } else {
      var front := fields[..|fields| - 1];
      assert front + [fields[|fields| - 1]] == fields && front[..n] == fields[..n];
      HopStaysFrom(front, n);
      HopStays(front, fields[|fields| - 1]);
    }
  }

  // ---------------------------------------------------------- what is found

  /** The fields found are the tokens of the text, one behind the other. */
  ghost predicate AreTokens(lex: Lexer, fields: seq<Field>, n: nat, start: nat, pos: nat)
    requires n <= |fields|
  {
    && (forall i :: n <= i < |fields| ==> lex(fields[i].pos) == Found(fields[i].kind, fields[i].end, fields[i].more))
    && (n == |fields| ==> pos == start)
    && (n < |fields| ==> fields[n].pos == start && fields[|fields| - 1].end == pos)
    && (forall i :: n <= i < |fields| - 1 ==> fields[i].end == fields[i + 1].pos)
  }

  /** What comes behind these fields is no header field. */
  ghost predicate FailedAt(lex: Lexer, len: nat, fields: seq<Field>, n: nat, start: nat)
    requires n <= |fields|
  {
    exists q: nat :: q < len && lex(q).Bad? && AreTokens(lex, fields, n, start, q)
  }

  /** The wanted flags are all set by the fields from n on, or have been before. */
  ghost predicate Achieved(wanted: set<nat>, before: set<nat>, fields: seq<Field>, n: nat)
    requires n <= |fields|
  {
    wanted <= before + SetSince(fields, n)
  }

  /** Where a call stops. The fields it adds are the next tokens; it stops behind
      the first of them with which all that is wanted has been found, or at the
      end of the text or of the headers. */
  lemma {:induction false} StopsWhenAchieved(lex: Lexer, len: nat, st: Parse, wanted: set<nat>, n: nat, start: nat,
                                             before: set<nat>)
    requires Progresses(lex) && n <= |st.fields| && AreTokens(lex, st.fields, n, start, st.pos)
    requires st.flags == before + SetSince(st.fields, n)
    requires forall k :: n <= k < |st.fields| ==> !Achieved(wanted, before, st.fields[..k], n)
    ensures var out := ParseOn(lex, len, st, wanted);
      out.Done? ==>
        var fields := out.state.fields;
        && n <= |fields| && st.fields <= fields && AreTokens(lex, fields, n, start, out.state.pos)
        && (forall k :: n <= k < |fields| ==> !Achieved(wanted, before, fields[..k], n))
        && (Achieved(wanted, before, fields, n) || out.state.pos >= len
            || (lex(out.state.pos).EndOfHeaders? && out.state.eoh == Some(out.state.pos)))
    ensures var out := ParseOn(lex, len, st, wanted);
      out.Failed? ==>
        && n <= |out.fields| && FailedAt(lex, len, out.fields, n, start) && !Achieved(wanted, before, out.fields, n)
    decreases len - st.pos
  {
    hide FlagsOf, SetSince;
    if st.pos < len && !(wanted <= st.flags) && lex(st.pos).Found? {
      var t := lex(st.pos);
      var f := Field(t.kind, st.pos, t.end, t.more);
      var next := st.fields + [f];
      SetSinceGrows(st.fields, f, n);
      forall k | n <= k < |next| ensures !Achieved(wanted, before, next[..k], n) {
        if k < |st.fields| {
          assert next[..k] == st.fields[..k];
        } else {
          assert next[..k] == st.fields;
        }
      }
      assert forall i :: n <= i < |next| - 1 ==> next[i] == st.fields[i];
      StopsWhenAchieved(lex, len, Parse(t.end, st.flags + FlagsOf(st.fields, f), next, st.eoh), wanted, n, start,
          before);
    }
  }

  /** Asking a fresh message for some types: the call fails only at a token that is
      no field, with something wanted missing. After a successful call every wanted
      type occurs among the fields, and the second hop is known if it is wanted,
      unless the end of the text or of the headers has been reached. And the call
      stops there: without the last field something wanted was still missing. */
  lemma FirstCall(lex: Lexer, len: nat, start: nat, wanted: set<nat>)
    requires Progresses(lex)
    ensures var out := ParseCall(lex, len, START(start), Call(wanted, false));
      out.Done? ==>
        var fields := out.state.fields;
        var over := out.state.pos >= len || lex(out.state.pos).EndOfHeaders?;
        && AreTokens(lex, fields, 0, start, out.state.pos)
        && (over || ((forall kind :: kind !in PLAIN && Bit(kind) in wanted ==> HasType(fields, 0, kind))
                     && (2 in wanted ==> HopKnown(fields))))
        && (fields != [] ==> Missing(wanted, fields[..|fields| - 1], 0))
    ensures var out := ParseCall(lex, len, START(start), Call(wanted, false));
      out.Failed? ==> FailedAt(lex, len, out.fields, 0, start) && Missing(wanted, out.fields, 0)
  {
    hide ParseOn, SetSince, HopKnown, Bit, Achieved;
    NothingSet([], 0);
    StopsWhenAchieved(lex, len, START(start), wanted, 0, start, {});
    var out := ParseCall(lex, len, START(start), Call(wanted, false));
    if out.Done? {
      AchievedMeans(wanted, out.state.fields, 0);
      if out.state.fields != [] {
        AchievedMeans(wanted, out.state.fields[..|out.state.fields| - 1], 0);
      }
    } else {
      AchievedMeans(wanted, out.fields, 0);
    }
  }

  /** Something wanted is not among the fields from n on. */
  ghost predicate Missing(wanted: set<nat>, fields: seq<Field>, n: nat)
    requires n <= |fields|
  {
    || (exists kind :: kind !in PLAIN && Bit(kind) in wanted && !HasType(fields, n, kind))
    || (2 in wanted && !(HopKnown(fields) && !HopKnown(fields[..n])))
    || (exists b :: b in wanted && b != 2 && forall kind :: kind !in PLAIN ==> Bit(kind) != b)
  }

  lemma NothingSet(fields: seq<Field>, n: nat)
    requires n == |fields|
    ensures SetSince(fields, n) == {}
  {
    assert fields[..n] == fields;
  }

  lemma NoHopYet()
    ensures !HopKnown([])
  {
  }

  lemma AchievedMeans(wanted: set<nat>, fields: seq<Field>, n: nat)
    requires n <= |fields|
    ensures Achieved(wanted, {}, fields, n) <==> !Missing(wanted, fields, n)
    ensures n == 0 ==> !HopKnown(fields[..n])
  {
    hide HopKnown, Bit;
    NoHopYet();
    assert n == 0 ==> fields[..n] == [];
    var found := SetSince(fields, n);
    forall b | b in wanted
      ensures b in found <==>
              if b == 2 then HopKnown(fields) && !HopKnown(fields[..n])
              else exists kind :: kind !in PLAIN && Bit(kind) == b && HasType(fields, n, kind)
    {
      FlagFound(fields, n, b);
    }
    forall kind | kind !in PLAIN && Bit(kind) in wanted && Bit(kind) in found ensures HasType(fields, n, kind) {
      FlagsAreDistinct(kind, kind);
      var other :| other !in PLAIN && Bit(other) == Bit(kind) && HasType(fields, n, other);
      FlagsAreDistinct(kind, other);
    }
  }

  lemma FlagFound(fields: seq<Field>, n: nat, b: nat)
    requires n <= |fields|
    ensures b in SetSince(fields, n) <==>
            if b == 2 then HopKnown(fields) && !HopKnown(fields[..n])
            else exists kind :: kind !in PLAIN && Bit(kind) == b && HasType(fields, n, kind)
  {
    hide HopKnown, Bit;
    if i: nat :| n <= i < |fields| && fields[i].kind !in PLAIN && Bit(fields[i].kind) == b {
      FlagsAreDistinct(fields[i].kind, fields[i].kind);
      assert HasType(fields, n, fields[i].kind);
    }
    if kind :| kind !in PLAIN && Bit(kind) == b && HasType(fields, n, kind) {
      FlagsAreDistinct(kind, kind);
      var i: nat :| n <= i < |fields| && fields[i].kind == kind;
      assert Bit(fields[i].kind) in SetSince(fields, n);
    }
  }

  /** Asking for the next instances: after a successful call a new field of every
      wanted type has been added, unless the end has been reached; and the call
      stops with the first field that completes them. */
  lemma NextCall(lex: Lexer, len: nat, st: Parse, wanted: set<nat>)
    requires Progresses(lex)
    ensures var out := ParseCall(lex, len, st, Call(wanted, true));
      out.Done? ==>
        var fields, n := out.state.fields, |st.fields|;
        var over := out.state.pos >= len || lex(out.state.pos).EndOfHeaders?;
        && st.fields <= fields && AreTokens(lex, fields, n, st.pos, out.state.pos)
        && (over || ((forall kind :: kind !in PLAIN && Bit(kind) in wanted ==> HasType(fields, n, kind))
                     && (2 in wanted ==> HopKnown(fields) && !HopKnown(st.fields))))
        && (|fields| > n ==> Missing(wanted, fields[..|fields| - 1], n))
  {
    hide ParseOn, SetSince, HopKnown, Bit, Missing;
    var n, before := |st.fields|, st.flags - wanted;
    NothingSet(st.fields, n);
    StopsWhenAchieved(lex, len, st.(flags := before), wanted, n, st.pos, before);
    var out := ParseCall(lex, len, st, Call(wanted, true));
    if out.Done? {
      var fields := out.state.fields;
      assert fields[..n] == st.fields;
      AchievedMeans(wanted, fields, n);
      NotMissing(wanted, fields, n);
      if |fields| > n {
        AchievedMeans(wanted, fields[..|fields| - 1], n);
      }
    }
  }

  lemma NotMissing(wanted: set<nat>, fields: seq<Field>, n: nat)
    requires n <= |fields|
    ensures !Missing(wanted, fields, n) ==>
            (forall kind :: kind !in PLAIN && Bit(kind) in wanted ==> HasType(fields, n, kind))
            && (2 in wanted ==> HopKnown(fields) && !HopKnown(fields[..n]))
  {
    hide HopKnown, Bit, HasType;
  }

  // -------------------------------------------------------------- the lists

  /** A hook is set exactly if a field of its type has been found. */
  lemma HookIffFound(msg: SipMsg, kind: HdrType)
    requires msg.Valid() && kind !in PLAIN
    ensures HookOf(msg.hooks, kind) != null <==> HasType(Fields(msg.list), 0, kind)
    ensures HookOf(msg.hooks, kind) != null ==> HookOf(msg.hooks, kind).field.kind == kind
  {
    hide FindNode;
    FlagOrder(kind);
    assert HookOf(msg.hooks, kind) == NodeAt(msg.list, FindNode(msg.list, 0, kind));
    FoundNode(msg.list, kind);
  }

  lemma FoundNode(list: seq<HdrField>, kind: HdrType)
    ensures var i := FindNode(list, 0, kind);
      && (i < |list| <==> HasType(Fields(list), 0, kind)) && (i < |list| ==> list[i].field.kind == kind)
  {
    var i := FindNode(list, 0, kind);
    if i < |list| {
      assert Fields(list)[i].kind == kind;
    }
    if HasType(Fields(list), 0, kind) {
      var j :| 0 <= j < |list| && Fields(list)[j].kind == kind;
    }
  }

  /** The types whose instances are linked as siblings, by name; of all other types
      no field has a sibling. */
  lemma SiblingTypes(msg: SipMsg, kind: HdrType)
    requires msg.Valid()
    ensures kind in {Via, Contact, Route, RecordRoute, Path, Authorization, ProxyAuth, ProxyRequire, Supported,
                     Unsupported, Allow, Event, Accept, AcceptLanguage, AcceptDisposition, Diversion, CallInfo,
                     WwwAuthenticate, ProxyAuthenticate, Ppi, Pai, FeatureCaps, Replaces} ==>
            SiblingChain(HookOf(msg.hooks, kind), OfKind(msg.list, 0, kind))
    ensures kind !in {Via, Contact, Route, RecordRoute, Path, Authorization, ProxyAuth, ProxyRequire, Supported,
                      Unsupported, Allow, Event, Accept, AcceptLanguage, AcceptDisposition, Diversion, CallInfo,
                      WwwAuthenticate, ProxyAuthenticate, Ppi, Pai, FeatureCaps, Replaces} ==>
            forall i :: 0 <= i < |msg.list| && msg.list[i].field.kind == kind ==> msg.list[i].sibling == null
  {
    hide FindNode, SiblingChain;
    if IsMulti(kind) {
      MultiIsHooked(kind);
      ListsHoldFields(msg, kind);
    } else {
      forall i | 0 <= i < |msg.list| && msg.list[i].field.kind == kind ensures msg.list[i].sibling == null {
        assert msg.list[i].sibling == SiblingOf(msg.list, i);
      }
    }
  }
}
