/** The header lists of a SIP message: one list of all fields in order, a hook
    to the first field of every known type, and for types that may repeat a
    chain of siblings, all extended in place while the message is parsed. */
module HeaderParser {
  import opened Decimal
  import opened HeaderSpec

  class HdrField {
    const field: Field
    var next: HdrField?
    var sibling: HdrField?

    constructor (field: Field)
      ensures this.field == field && next == null && sibling == null
    {
      this.field, next, sibling := field, null, null;
    }
  }

  function Fields(list: seq<HdrField>): seq<Field> {
    seq(|list|, i requires 0 <= i < |list| => list[i].field)
  }

  function FindNode(list: seq<HdrField>, from: nat, kind: HdrType): (i: nat)
    requires from <= |list|
    ensures from <= i <= |list|
    ensures i < |list| ==> list[i].field.kind == kind
    ensures forall j :: from <= j < i ==> list[j].field.kind != kind
  {
    var i := Find(Fields(list), from, kind);
    assert forall j :: 0 <= j < |list| ==> Fields(list)[j] == list[j].field;
    i
  }

  function NodeAt(list: seq<HdrField>, i: nat): HdrField?
    requires i <= |list|
  {
    if i == |list| then null else list[i]
  }

  ghost predicate Distinct(list: seq<HdrField>) {
    forall i, j :: 0 <= i < j < |list| ==> list[i] != list[j]
  }

  /** The next pointers run through the list. */
  ghost predicate Linked(list: seq<HdrField>)
    reads list
  {
    forall i :: 0 <= i < |list| ==> list[i].next == NodeAt(list, i + 1)
  }

  /** The next field of the same type, for types that repeat. */
  function SiblingOf(list: seq<HdrField>, i: nat): HdrField?
    requires i < |list|
  {
    if IsMulti(list[i].field.kind) then NodeAt(list, FindNode(list, i + 1, list[i].field.kind)) else null
  }

  /** Each sibling pointer leads to the next field of the same type. */
  ghost predicate Chained(list: seq<HdrField>)
    reads list
  {
    forall i :: 0 <= i < |list| ==> list[i].sibling == SiblingOf(list, i)
  }

  function HookOf(hooks: map<HdrType, HdrField>, kind: HdrType): HdrField? {
    if kind in hooks then hooks[kind] else null
  }

  /** Each hook is the first field of its type. */
  ghost predicate Hooked(list: seq<HdrField>, hooks: map<HdrType, HdrField>) {
    forall kind :: !IsPlain(kind) ==> HookOf(hooks, kind) == NodeAt(list, FindNode(list, 0, kind))
  }

  lemma FindNodeExtended(list: seq<HdrField>, from: nat, kind: HdrType, hf: HdrField)
    requires from <= |list|
    ensures FindNode(list + [hf], from, kind) ==
            if FindNode(list, from, kind) < |list| then FindNode(list, from, kind)
            else if hf.field.kind == kind then |list| else |list| + 1
  {
    assert Fields(list + [hf]) == Fields(list) + [hf.field];
    FindExtended(Fields(list), from, kind, hf.field);
  }

  /** Appending a field changes only the expected sibling of the last field of
      its type. */
  lemma SiblingExtended(list: seq<HdrField>, hf: HdrField, j: nat, last: nat)
    requires j < |list| && IsMulti(hf.field.kind)
    requires last < |list| ==>
        list[last].field.kind == hf.field.kind && FindNode(list, last + 1, hf.field.kind) == |list|
    requires last >= |list| ==> FindNode(list, 0, hf.field.kind) == |list|
    ensures SiblingOf(list + [hf], j) == if j == last then hf else SiblingOf(list, j)
  {
    hide IsMulti;
    var kind := list[j].field.kind;
    FindNodeExtended(list, j + 1, kind, hf);
    if kind == hf.field.kind && j != last {
      assert list[j].field.kind == kind;
      assert last < |list| && j < last;
    }
  }

  lemma SiblingOfLast(list: seq<HdrField>, hf: HdrField)
    ensures SiblingOf(list + [hf], |list|) == null
  {
  }

  lemma SiblingUnchanged(list: seq<HdrField>, hf: HdrField, j: nat)
    requires j < |list| && !IsMulti(hf.field.kind)
    ensures SiblingOf(list + [hf], j) == SiblingOf(list, j)
  {
    hide IsMulti;
    FindNodeExtended(list, j + 1, list[j].field.kind, hf);
  }

  lemma HooksExtended(list: seq<HdrField>, hooks: map<HdrType, HdrField>, hf: HdrField)
    requires Hooked(list, hooks)
    ensures Hooked(list + [hf],
                   if hf.field.kind in hooks || IsPlain(hf.field.kind) then hooks else hooks[hf.field.kind := hf])
  {
    hide IsPlain;
    var hooks' := if hf.field.kind in hooks || IsPlain(hf.field.kind) then hooks else hooks[hf.field.kind := hf];
    forall kind | !IsPlain(kind) ensures HookOf(hooks', kind) == NodeAt(list + [hf], FindNode(list + [hf], 0, kind)) {
      FindNodeExtended(list, 0, kind, hf);
      assert HookOf(hooks, kind) == NodeAt(list, FindNode(list, 0, kind));
    }
  }

  /** The field that names the second hop. */
  function SecondHop(list: seq<HdrField>): HdrField? {
    var first := FindNode(list, 0, Via);
    if first == |list| then null
    else if list[first].field.more then list[first]
    else NodeAt(list, FindNode(list, first + 1, Via))
  }

  /** The second Via header, if the first names a single hop. */
  function SecondVia(list: seq<HdrField>): HdrField? {
    var first := FindNode(list, 0, Via);
    if first == |list| || list[first].field.more then null else NodeAt(list, FindNode(list, first + 1, Via))
  }

  lemma SecondHopIsKnown(list: seq<HdrField>)
    ensures SecondHop(list) != null <==> SecondHopKnown(Fields(list))
  {
    assert forall j :: 0 <= j < |list| ==> Fields(list)[j] == list[j].field;
  }

  lemma FirstViaIsHop(list: seq<HdrField>)
    ensures FindNode(list, 0, Via) == |list| ==> SecondHop(list) == null && SecondVia(list) == null
  {
  }

  /** What a Via appended to the list becomes. */
  lemma SecondHopExtended(list: seq<HdrField>, hf: HdrField)
    ensures SecondHop(list + [hf]) ==
            if SecondHop(list) == null && hf.field.kind.Via? && (hf.field.more || FindNode(list, 0, Via) < |list|)
            then hf else SecondHop(list)
    ensures SecondVia(list + [hf]) ==
            if SecondHop(list) == null && hf.field.kind.Via? && FindNode(list, 0, Via) < |list|
            then hf else SecondVia(list)
    ensures NodeAt(list + [hf], FindNode(list + [hf], 0, Via)) ==
            if hf.field.kind.Via? && FindNode(list, 0, Via) == |list| then hf else NodeAt(list, FindNode(list, 0, Via))
  {
    FindNodeExtended(list, 0, Via, hf);
    var first := FindNode(list, 0, Via);
    if first < |list| {
      FindNodeExtended(list, first + 1, Via, hf);
    }
  }

  class SipMsg {
    const lex: Lexer
    const len: nat
    var unparsed: nat
    var parsedFlag: set<nat>
    var eoh: Option<nat>
    var headers: HdrField?
    var lastHeader: HdrField?
    var hooks: map<HdrType, HdrField>
    // the first Via header; the second hop is in it, or in a second header
    var via1: HdrField?
    var via2: HdrField?
    var hVia2: HdrField?
    // all fields, in order
    ghost var list: seq<HdrField>

    ghost predicate Valid()
      reads this, list
    {
      && Distinct(list) && Linked(list) && Chained(list) && Hooked(list, hooks)
      && headers == NodeAt(list, 0)
      && lastHeader == (if list == [] then null else list[|list| - 1])
      && via1 == NodeAt(list, FindNode(list, 0, Via))
      && via2 == SecondHop(list)
      && hVia2 == SecondVia(list)
    }

    ghost function State(): Parse
      reads this
    {
      Parse(unparsed, parsedFlag, Fields(list), eoh)
    }

    constructor (lex: Lexer, len: nat, start: nat)
      ensures Valid() && State() == START(start) && this.lex == lex && this.len == len && list == []
    {
      this.lex, this.len := lex, len;
      unparsed, parsedFlag, eoh := start, {}, None;
      headers, lastHeader, via1, via2, hVia2 := null, null, null, null, null;
      hooks, list := map[], [];
    }

    /** Walk the chain of siblings and append hf at its end. */
    method LinkSibling(hf: HdrField)
      requires Distinct(list) && Chained(list) && Hooked(list, hooks)
      requires hf !in list && hf.sibling == null && IsMulti(hf.field.kind)
      modifies this`hooks, list`sibling
      ensures Chained(list + [hf]) && Hooked(list + [hf], hooks)
    {
      hide IsMulti, IsPlain, Hooked, SiblingOf;
      var kind := hf.field.kind;
      MultiIsHooked(kind);
      HooksExtended(list, hooks, hf);
      HookPosition(kind);
      ghost var i := |list|;
      if kind !in hooks {
        hooks := hooks[kind := hf];
      } else {
        var itr := hooks[kind];
        i := FindNode(list, 0, kind);
        assert list[i].sibling == SiblingOf(list, i);
        SiblingPosition(list, i);
        while itr.sibling != null
          invariant Chained(list) && Hooked(list + [hf], hooks)
          invariant 0 <= i < |list| && itr == list[i] && list[i].field.kind == kind
          invariant itr.sibling == NodeAt(list, FindNode(list, i + 1, kind))
          decreases |list| - i
        {
          i := FindNode(list, i + 1, kind);
          itr := itr.sibling;
          assert itr == list[i];
          assert list[i].sibling == SiblingOf(list, i);
          SiblingPosition(list, i);
        }
        itr.sibling := hf;
      }
      forall j | 0 <= j < |list| ensures list[j].sibling == SiblingOf(list + [hf], j) {
        SiblingExtended(list, hf, j, i);
      }
      SiblingOfLast(list, hf);
    }

    /** Add a parsed field: hook, siblings, Via pointers, type flags, list. */
    method AddField(hf: HdrField)
      requires Valid() && hf !in list && hf.next == null && hf.sibling == null
      modifies this, list
      ensures Valid() && list == old(list) + [hf]
      ensures parsedFlag == old(parsedFlag) + FlagsOf(Fields(old(list)), hf.field)
      ensures unparsed == old(unparsed) && eoh == old(eoh)
    {
      hide IsMulti, IsPlain, Hooked, SiblingOf, SecondHop, SecondVia, SecondHopKnown, Chained, FlagsOf, Linked,
           Distinct;
      HookFor(hf);
      MarkSeen(hf);
      Append(hf);
    }

    /** Set the flags and the Via pointers for a new field. */
    method MarkSeen(hf: HdrField)
      requires via1 == NodeAt(list, FindNode(list, 0, Via)) && via2 == SecondHop(list) && hVia2 == SecondVia(list)
      modifies this`parsedFlag, this`via1, this`via2, this`hVia2
      ensures parsedFlag == old(parsedFlag) + FlagsOf(Fields(list), hf.field)
      ensures via1 == NodeAt(list + [hf], FindNode(list + [hf], 0, Via))
      ensures via2 == SecondHop(list + [hf]) && hVia2 == SecondVia(list + [hf])
    {
      hide IsPlain, SecondHop, SecondVia, FlagsOf;
      SecondHopExtended(list, hf);
      NewFlags(list, hf);
      if !IsPlain(hf.field.kind) {
        parsedFlag := parsedFlag + {Bit(hf.field.kind)};
      }
      if hf.field.kind.Via? {
        if via1 == null {
          via1 := hf;
          FirstViaIsHop(list);
          if hf.field.more {
            via2 := hf;
            parsedFlag := parsedFlag + {VIA2_BIT};
          }
        } else if via2 == null {
          hVia2 := hf;
          via2 := hf;
          parsedFlag := parsedFlag + {VIA2_BIT};
        }
      }
    }

    /** Hook the field as the first of its type, or link it to its siblings. */
    method HookFor(hf: HdrField)
      requires Valid() && hf !in list && hf.sibling == null
      modifies this`hooks, list`sibling
      ensures Chained(list + [hf]) && Hooked(list + [hf], hooks) && Linked(list)
    {
      hide IsMulti, IsPlain, Hooked, SiblingOf, SecondHop, SecondVia, FindNode;
      MultiIsHooked(hf.field.kind);
      if IsMulti(hf.field.kind) {
        LinkSibling(hf);
      } else {
        HooksExtended(list, hooks, hf);
        if !IsPlain(hf.field.kind) && hf.field.kind !in hooks {
          hooks := hooks[hf.field.kind := hf];
        }
        forall j | 0 <= j < |list| ensures list[j].sibling == SiblingOf(list + [hf], j) {
          SiblingUnchanged(list, hf, j);
        }
        SiblingOfLast(list, hf);
      }
    }

    /** Append the field to the list of all headers. */
    method Append(hf: HdrField)
      requires Distinct(list) && Linked(list) && hf !in list && hf.next == null
      requires headers == NodeAt(list, 0) && lastHeader == (if list == [] then null else list[|list| - 1])
      requires Chained(list + [hf])
      modifies this`headers, this`lastHeader, this`list, list`next
      ensures list == old(list) + [hf] && Distinct(list) && Linked(list) && Chained(list)
      ensures headers == NodeAt(list, 0) && lastHeader == hf
    {
      if lastHeader == null {
        headers := hf;
      } else {
        lastHeader.next := hf;
      }
      lastHeader := hf;
      list := list + [hf];
    }

    method Mark(flags: set<nat>, pos: nat, end: Option<nat>)
      requires Valid()
      modifies this`parsedFlag, this`unparsed, this`eoh
      ensures Valid() && parsedFlag == flags && unparsed == pos && eoh == end
    {
      hide Distinct, Linked, Chained, Hooked, SecondHop, SecondVia, FindNode;
      parsedFlag, unparsed, eoh := flags, pos, end;
    }

    /** Parse headers until all wanted types were seen, the headers or the text
        end, or a header is malformed; continue where the last call stopped. A
        failed call keeps the fields it added but not its progress. */
    method ParseHeaders(wanted: set<nat>, next: bool) returns (ok: bool)
      requires Valid() && Progresses(lex)
      modifies this, list
      ensures Valid() && old(list) <= list
      ensures forall hf :: hf in list && hf !in old(list) ==> fresh(hf)
      ensures var out := ParseCall(lex, len, old(State()), Call(wanted, next));
        && ok == out.Done?
        && (ok ==> State() == out.state)
        && (!ok ==> Fields(list) == out.fields && unparsed == old(unparsed) && eoh == old(eoh)
                    && parsedFlag == out.flags + if next then old(parsedFlag) else {})
    {
      hide IsMulti, IsPlain, FlagsOf, Valid;
      ghost var out := ParseCall(lex, len, State(), Call(wanted, next));
      var origFlag := if next then parsedFlag else {};
      var tmp := unparsed;
      if next {
        Mark(parsedFlag - wanted, unparsed, eoh);
      }
      while tmp < len && !(wanted <= parsedFlag)
        invariant Valid() && old(list) <= list
        invariant forall i :: 0 <= i < |list| ==> list[i] in old(list) || fresh(list[i])
        invariant unparsed == old(unparsed) && eoh == old(eoh)
        invariant ParseOn(lex, len, State().(pos := tmp), wanted) == out
        decreases len - tmp
      {
        var token := lex(tmp);
        if token.Bad? {
          Mark(parsedFlag + origFlag, unparsed, eoh);
          return false;
        }
        if token.EndOfHeaders? {
          Mark(parsedFlag + ALL_FLAGS, tmp, Some(tmp));
          return true;
        }
        var hf := new HdrField(Field(token.kind, tmp, token.end, token.more));
        assert Fields(list + [hf]) == Fields(list) + [hf.field];
        assert forall i :: 0 <= i < |list| ==> list[i] in old(list) || fresh(list[i]);
        AddField(hf);
        tmp := token.end;
      }
      Mark(parsedFlag, tmp, eoh);
      ok := true;
    }

    lemma HookPosition(kind: HdrType)
      requires Hooked(list, hooks) && !IsPlain(kind)
      ensures kind !in hooks ==> FindNode(list, 0, kind) == |list|
      ensures kind in hooks ==> FindNode(list, 0, kind) < |list| && hooks[kind] == list[FindNode(list, 0, kind)]
    {
      assert HookOf(hooks, kind) == NodeAt(list, FindNode(list, 0, kind));
    }
  }

  lemma NewFlags(list: seq<HdrField>, hf: HdrField)
    ensures FlagsOf(Fields(list), hf.field) ==
            if IsPlain(hf.field.kind) then {}
            else if SecondHop(list) == null && hf.field.kind.Via? && (hf.field.more || FindNode(list, 0, Via) < |list|)
            then {Bit(hf.field.kind), VIA2_BIT}
            else {Bit(hf.field.kind)}
    ensures hf.field.kind.Via? ==> !IsPlain(hf.field.kind)
  {
    hide SecondHop, SecondHopKnown;
    SecondHopIsKnown(list);
    SecondHopStep(Fields(list), hf.field);
  }

  lemma MultiIsHooked(kind: HdrType)
    ensures IsMulti(kind) ==> !IsPlain(kind)
  {
  }

  lemma SiblingPosition(list: seq<HdrField>, i: nat)
    requires i < |list| && IsMulti(list[i].field.kind)
    ensures SiblingOf(list, i) == NodeAt(list, FindNode(list, i + 1, list[i].field.kind))
  {
  }

  // ---------------------------------------------------- what the lists hold

  /** Following the sibling pointers from f visits exactly these nodes. */
  ghost predicate SiblingChain(f: HdrField?, nodes: seq<HdrField>)
    reads nodes
    decreases |nodes|
  {
    if nodes == [] then f == null else f == nodes[0] && SiblingChain(nodes[0].sibling, nodes[1..])
  }

  /** Following the next pointers from f visits exactly these nodes. */
  ghost predicate NextChain(f: HdrField?, nodes: seq<HdrField>)
    reads nodes
    decreases |nodes|
  {
    if nodes == [] then f == null else f == nodes[0] && NextChain(nodes[0].next, nodes[1..])
  }

  /** The fields of one type at or behind `from`, in order. */
  function OfKind(list: seq<HdrField>, from: nat, kind: HdrType): (nodes: seq<HdrField>)
    requires from <= |list|
    ensures forall f :: f in nodes ==> f in list
    decreases |list| - from
  {
    if from == |list| then []
    else if list[from].field.kind == kind then [list[from]] + OfKind(list, from + 1, kind)
    else OfKind(list, from + 1, kind)
  }

  lemma FindNodeStep(list: seq<HdrField>, from: nat, kind: HdrType)
    requires from <= |list|
    ensures from == |list| ==> FindNode(list, from, kind) == from
    ensures from < |list| ==>
      FindNode(list, from, kind) == if list[from].field.kind == kind then from else FindNode(list, from + 1, kind)
  {
  }

  lemma {:induction false} SiblingsFrom(list: seq<HdrField>, from: nat, kind: HdrType)
    requires from <= |list| && Chained(list) && IsMulti(kind)
    ensures SiblingChain(NodeAt(list, FindNode(list, from, kind)), OfKind(list, from, kind))
    decreases |list| - from
  {
    hide IsMulti, FindNode;
    FindNodeStep(list, from, kind);
    if from < |list| {
      SiblingsFrom(list, from + 1, kind);
      assert list[from].sibling == SiblingOf(list, from);
    }
  }

  lemma {:induction false} NextFrom(list: seq<HdrField>, from: nat)
    requires from <= |list| && Linked(list)
    ensures NextChain(NodeAt(list, from), list[from..])
    decreases |list| - from
  {
    if from < |list| {
      NextFrom(list, from + 1);
      assert list[from..][1..] == list[from + 1..];
      assert list[from].next == NodeAt(list, from + 1);
    }
  }

  /** The header list holds all fields in order; the chain from the hook of a
      repeatable type is the in-order subsequence of that type; every other
      known type's hook is its first field. */
  lemma ListsHoldFields(msg: SipMsg, kind: HdrType)
    requires msg.Valid() && !IsPlain(kind)
    ensures NextChain(msg.headers, msg.list)
    ensures IsMulti(kind) ==> SiblingChain(HookOf(msg.hooks, kind), OfKind(msg.list, 0, kind))
    ensures HookOf(msg.hooks, kind) == if OfKind(msg.list, 0, kind) == [] then null else OfKind(msg.list, 0, kind)[0]
  {
    hide IsMulti, IsPlain, FindNode;
    NextFrom(msg.list, 0);
    assert msg.list[0..] == msg.list;
    assert HookOf(msg.hooks, kind) == NodeAt(msg.list, FindNode(msg.list, 0, kind));
    if IsMulti(kind) {
      SiblingsFrom(msg.list, 0, kind);
    }
    FirstOfKind(msg.list, 0, kind);
  }

  lemma {:induction false} FirstOfKind(list: seq<HdrField>, from: nat, kind: HdrType)
    requires from <= |list|
    ensures NodeAt(list, FindNode(list, from, kind)) ==
            if OfKind(list, from, kind) == [] then null else OfKind(list, from, kind)[0]
    decreases |list| - from
  {
    hide FindNode;
    FindNodeStep(list, from, kind);
    if from < |list| {
      FirstOfKind(list, from + 1, kind);
    }
  }

  ghost predicate SamePlace(a: HdrField?, la: seq<HdrField>, b: HdrField?, lb: seq<HdrField>) {
    (a == null && b == null) || exists i :: 0 <= i < |la| && i < |lb| && a == la[i] && b == lb[i]
  }

  /** Two messages with the same fields have hooks, siblings and Via pointers in
      the same places: by resumability, however their calls were split. */
  lemma SameFieldsSameLists(a: SipMsg, b: SipMsg)
    requires a.Valid() && b.Valid() && Fields(a.list) == Fields(b.list)
    ensures forall kind :: !IsPlain(kind) ==> SamePlace(HookOf(a.hooks, kind), a.list, HookOf(b.hooks, kind), b.list)
    ensures forall i :: 0 <= i < |a.list| ==> SamePlace(a.list[i].sibling, a.list, b.list[i].sibling, b.list)
    ensures SamePlace(a.via1, a.list, b.via1, b.list) && SamePlace(a.via2, a.list, b.via2, b.list)
    ensures SamePlace(a.hVia2, a.list, b.hVia2, b.list)
  {
    hide IsPlain, IsMulti;
    assert forall i :: 0 <= i < |a.list| ==>
        Fields(a.list)[i] == a.list[i].field && Fields(b.list)[i] == b.list[i].field;
    forall kind | !IsPlain(kind) ensures SamePlace(HookOf(a.hooks, kind), a.list, HookOf(b.hooks, kind), b.list) {
      SameFind(a.list, b.list, 0, kind);
      assert HookOf(a.hooks, kind) == NodeAt(a.list, FindNode(a.list, 0, kind));
    }
    forall i | 0 <= i < |a.list| ensures SamePlace(a.list[i].sibling, a.list, b.list[i].sibling, b.list) {
      SameFind(a.list, b.list, i + 1, a.list[i].field.kind);
      assert a.list[i].sibling == SiblingOf(a.list, i) && b.list[i].sibling == SiblingOf(b.list, i);
    }
    SameFind(a.list, b.list, 0, Via);
    var first := FindNode(a.list, 0, Via);
    if first < |a.list| {
      SameFind(a.list, b.list, first + 1, Via);
    }
  }

  lemma SameFind(la: seq<HdrField>, lb: seq<HdrField>, from: nat, kind: HdrType)
    requires from <= |la| && Fields(la) == Fields(lb)
    ensures |la| == |lb| && FindNode(la, from, kind) == FindNode(lb, from, kind)
    ensures SamePlace(NodeAt(la, FindNode(la, from, kind)), la, NodeAt(lb, FindNode(lb, from, kind)), lb)
  {
    assert |Fields(la)| == |la| && |Fields(lb)| == |lb|;
    var i := FindNode(la, from, kind);
    if i < |la| {
      assert NodeAt(la, i) == la[i] && NodeAt(lb, i) == lb[i];
    }
  }
}
