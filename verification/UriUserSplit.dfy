/** Where the user part ends: on scheme ":" user [":" password] "@" host
    [":" port] the parser finds exactly these parts, even when the user contains
    ';' or '?' and the machine has already recorded a host, parameters and
    headers for it (sections 19.1.1 and 25.1 of RFC 3261). */
module UriUserSplit {
  import opened Decimal
  import opened Chars
  import opened UriParser

  // ----------------------------------------------- how a user text is read

  /** What the reader of a user text takes its characters for: user text up to
      the first ';' or '?', then parameters, separated by ';', until the first
      '?', then headers. The first character is always user text. */
  datatype Zone = UserZone | ParamZone(name: string) | HeaderZone

  function ZoneOf(t: string): Zone {
    if |t| <= 1 then UserZone
    else
      var c := t[|t| - 1];
      match ZoneOf(t[..|t| - 1])
      case UserZone => if c == ';' then ParamZone("") else if c == '?' then HeaderZone else UserZone
      case ParamZone(name) => if c == ';' then ParamZone("") else if c == '?' then HeaderZone else ParamZone(name + [c])
      case HeaderZone => HeaderZone
  }

  function LowerText(t: string): string {
    if t == "" then "" else LowerText(t[..|t| - 1]) + [Lower(t[|t| - 1])]
  }

  predicate PushName(t: string) {
    t == "pn-prid" || t == "pn-param" || t == "pn-purr"
  }

  /** Behind t the parser insists on '='. */
  predicate NeedsEqual(t: string) {
    ZoneOf(t).ParamZone? && PushName(LowerText(ZoneOf(t).name))
  }

  /** Some parameter of the user text, or of what follows it, is named pn-prid,
      pn-param or pn-purr and has no '=' behind its name. */
  ghost predicate MissesEqual(u: string) {
    exists k :: 0 < k <= |u| && NeedsEqual(u[..k]) && (k < |u| ==> u[k] != '=')
  }

  ghost predicate UserText(u: string) {
    u != "" && forall i :: 0 <= i < |u| ==> u[i] !in "@:[]"
  }

  ghost predicate PasswordText(w: string) {
    forall i :: 0 <= i < |w| ==> w[i] !in ";?:@[]"
  }

  ghost predicate PlainHost(h: string) {
    h != "" && h[0] != '[' && forall i :: 0 <= i < |h| ==> h[i] !in ":;?&@"
  }

  ghost predicate BracketedHost(h: string) {
    && |h| >= 2 && h[0] == '[' && h[|h| - 1] == ']'
    && forall i :: 1 <= i < |h| - 1 ==> h[i] !in "[]&@;?"
  }

  // ------------------------------------------------- push parameter names

  // The push parameter names form a tree; its nodes are numbered, 0 is the
  // empty text and NO_NODE any text that leaves the tree.

  const NO_NODE: nat := 15

  function Parent(k: nat): nat {
    if k == 8 || k == 12 then 4 else if k == 0 then 0 else k - 1
  }

  function LastChar(k: nat): char {
    match k
    case 1 => 'p' case 2 => 'n' case 3 => '-' case 4 => 'p'
    case 5 => 'r' case 6 => 'i' case 7 => 'd'
    case 8 => 'a' case 9 => 'r' case 10 => 'a' case 11 => 'm'
    case 12 => 'u' case 13 => 'r' case _ => 'r'
  }

  function NodeText(k: nat): string
    requires k < NO_NODE
    decreases k
  {
    if k == 0 then "" else NodeText(Parent(k)) + [LastChar(k)]
  }

  function Child(k: nat, c: char): nat {
    match k
    case 0 => if c == 'p' then 1 else NO_NODE
    case 1 => if c == 'n' then 2 else NO_NODE
    case 2 => if c == '-' then 3 else NO_NODE
    case 3 => if c == 'p' then 4 else NO_NODE
    case 4 => if c == 'r' then 5 else if c == 'a' then 8 else if c == 'u' then 12 else NO_NODE
    case 5 => if c == 'i' then 6 else NO_NODE
    case 6 => if c == 'd' then 7 else NO_NODE
    case 8 => if c == 'r' then 9 else NO_NODE
    case 9 => if c == 'a' then 10 else NO_NODE
    case 10 => if c == 'm' then 11 else NO_NODE
    case 12 => if c == 'r' then 13 else NO_NODE
    case 13 => if c == 'r' then 14 else NO_NODE
    case _ => NO_NODE
  }

  function NodeOf(name: string): nat {
    if name == "" then 0 else Child(NodeOf(name[..|name| - 1]), Lower(name[|name| - 1]))
  }

  lemma ChildFacts(k: nat, c: char)
    ensures Child(k, c) <= NO_NODE && Child(k, c) != 0
    ensures Child(k, c) != NO_NODE ==> Parent(Child(k, c)) == k && LastChar(Child(k, c)) == c
  {
  }

  lemma ChildOfParent(k: nat)
    requires 0 < k < NO_NODE
    ensures Child(Parent(k), LastChar(k)) == k && Parent(k) < k
  {
  }

  lemma {:induction false} NodeIsText(name: string)
    ensures NodeOf(name) <= NO_NODE
    ensures NodeOf(name) != NO_NODE ==> LowerText(name) == NodeText(NodeOf(name))
  {
    hide Child, Parent, LastChar;
    if name != "" {
      var t := name[..|name| - 1];
      NodeIsText(t);
      ChildFacts(NodeOf(t), Lower(name[|name| - 1]));
      if NodeOf(name) != NO_NODE {
        ChildOfParent(NodeOf(name));
      }
    }
  }

  lemma {:induction false} TextIsNode(name: string, k: nat)
    requires k < NO_NODE && LowerText(name) == NodeText(k)
    ensures NodeOf(name) == k
  {
    hide Child, Parent, LastChar;
    if k > 0 {
      ChildOfParent(k);
      var text := LowerText(name);
      assert text[|text| - 1] == LastChar(k) && text[..|text| - 1] == NodeText(Parent(k));
      var t := name[..|name| - 1];
      assert text == LowerText(t) + [Lower(name[|name| - 1])];
      assert text[..|text| - 1] == LowerText(t);
      TextIsNode(t, Parent(k));
    }
  }

  lemma NodeTextBehind(k: nat, parent: string)
    requires 0 < k < NO_NODE && NodeText(Parent(k)) == parent
    ensures NodeText(k) == parent + [LastChar(k)]
  {
  }

  lemma CommonTexts()
    ensures NodeText(4) == "pn-p"
  {
    hide NodeText;
    NodeTextBehind(1, NodeText(0));
    NodeTextBehind(2, NodeText(1));
    NodeTextBehind(3, NodeText(2));
    NodeTextBehind(4, NodeText(3));
    RootText();
  }

  lemma RootText()
    ensures NodeText(0) == ""
  {
  }

  lemma NodeTexts()
    ensures NodeText(7) == "pn-prid" && NodeText(11) == "pn-param" && NodeText(14) == "pn-purr"
  {
    hide NodeText;
    CommonTexts();
    NodeTextBehind(5, NodeText(4));
    NodeTextBehind(6, NodeText(5));
    NodeTextBehind(7, NodeText(6));
    NodeTextBehind(8, NodeText(4));
    NodeTextBehind(9, NodeText(8));
    NodeTextBehind(10, NodeText(9));
    NodeTextBehind(11, NodeText(10));
    NodeTextBehind(12, NodeText(4));
    NodeTextBehind(13, NodeText(12));
    NodeTextBehind(14, NodeText(13));
  }

  predicate NameNode(k: nat) {
    k == 7 || k == 11 || k == 14
  }

  lemma PushNameIsNode(name: string)
    ensures PushName(LowerText(name)) <==> NameNode(NodeOf(name))
  {
    NodeTexts();
    NodeIsText(name);
    if PushName(LowerText(name)) {
      TextIsNode(name, if LowerText(name) == "pn-prid" then 7 else if LowerText(name) == "pn-param" then 11 else 14);
    }
  }

  /** The node a parser state has reached. */
  function StateNode(st: State): nat {
    match st
    case PARAM => 0
    case PN_P => 1
    case PN_N => 2
    case PN_dash => 3
    case PN_P2 => 4
    case PN_PR => 5
    case PN2_I => 6
    case PN2_D => 7
    case PN3_A => 8
    case PN3_R => 9
    case PN3_A2 => 10
    case PN3_M => 11
    case PN4_U => 12
    case PN4_R => 13
    case PN4_R2 => 14
    case _ => NO_NODE
  }

  predicate ParamState(st: State) {
    !(st.INIT? || st.USER? || st.PASSWORD? || st.PASSWORD_ALPHA? || st.HOST? || st.HOST_P? || st.HOST6_P?
      || st.HOST6_END? || st.PORT? || st.HEADERS?)
  }

  lemma ParamStateClass(st: State)
    requires ParamState(st)
    ensures !ClassOf(st).NotParam? && !ClassOf(st).HeaderText?
  {
    hide ClassOf, ParamState;
    if ClassOf(st).NotParam? || ClassOf(st).HeaderText? {
      NotParamStates(st);
    }
  }

  lemma NotParamStates(st: State)
    requires ClassOf(st).NotParam? || ClassOf(st).HeaderText?
    ensures !ParamState(st)
  {
  }

  /** The successor is a parameter state that has followed the tree by c. */
  ghost predicate Follows(st: State, c: char, next: State) {
    ParamState(next) && StateNode(next) == Child(StateNode(st), Lower(c))
  }

  lemma StartFollows(c: char)
    ensures Follows(PARAM, c, StartEdge(Lower(c)))
  {
  }

  lemma PushLetters1(st: State, c: char)
    requires st.PN_P? || st.PN_dash?
    ensures Follows(st, c, LetterEdge(st, Lower(c)))
  {
    hide Lower;
  }

  lemma PushLetters2(st: State, c: char)
    requires st.PN_P2? || st.PN_PR?
    ensures Follows(st, c, LetterEdge(st, Lower(c)))
  {
    hide Lower;
  }

  lemma PushLetters3(st: State, c: char)
    requires st.PN2_I? || st.PN3_A? || st.PN3_R?
    ensures Follows(st, c, LetterEdge(st, Lower(c)))
  {
    hide Lower;
  }

  lemma PushLetters4(st: State, c: char)
    requires st.PN3_A2? || st.PN4_U? || st.PN4_R?
    ensures Follows(st, c, LetterEdge(st, Lower(c)))
  {
    hide Lower;
  }

  lemma Letters1(st: State, c: char)
    requires st.PT_T? || st.PT_R? || st.PT_A? || st.PT_N? || st.PT_S? || st.PT_P? || st.PT_O?
       || st.PT_R2? || st.PTTL_T2?
    ensures Follows(st, c, LetterEdge(st, Lower(c)))
  {
    hide Lower;
  }

  lemma Letters2(st: State, c: char)
    requires st.PU_U? || st.PU_S? || st.PU_E? || st.PM_M? || st.PM_E? || st.PM_T? || st.PM_H?
       || st.PM_O? || st.PMA_A?
    ensures Follows(st, c, LetterEdge(st, Lower(c)))
  {
    hide Lower;
  }

  lemma Letters3(st: State, c: char)
    requires st.PMA_D? || st.PMA_D2? || st.PLR_L? || st.PG_G? || st.PN1_O? || st.PN1_V?
       || st.PN1_I? || st.PN1_D? || st.PN1_E?
    ensures Follows(st, c, LetterEdge(st, Lower(c)))
  {
    hide Lower;
  }

  lemma LetterStates(st: State)
    requires ClassOf(st).Letter?
    ensures st.PT_T? || st.PT_R? || st.PT_A? || st.PT_N? || st.PT_S? || st.PT_P? || st.PT_O?
       || st.PT_R2? || st.PTTL_T2? || st.PU_U? || st.PU_S? || st.PU_E? || st.PM_M?
       || st.PM_E? || st.PM_T? || st.PM_H? || st.PM_O? || st.PMA_A? || st.PMA_D?
       || st.PMA_D2? || st.PLR_L? || st.PG_G? || st.PN_P? || st.PN_dash? || st.PN_P2?
       || st.PN_PR? || st.PN1_O? || st.PN1_V? || st.PN1_I? || st.PN1_D? || st.PN1_E?
       || st.PN2_I? || st.PN3_A? || st.PN3_R? || st.PN3_A2? || st.PN4_U? || st.PN4_R?
  {
  }

  lemma LetterFollows(st: State, c: char)
    requires ClassOf(st).Letter?
    ensures Follows(st, c, LetterEdge(st, Lower(c)))
  {
    hide Follows, ClassOf, LetterEdge, Lower;
    LetterStates(st);
    if st.PN_P? || st.PN_dash? {
      PushLetters1(st, c);
    } else if st.PN_P2? || st.PN_PR? {
      PushLetters2(st, c);
    } else if st.PN2_I? || st.PN3_A? || st.PN3_R? {
      PushLetters3(st, c);
    } else if st.PN3_A2? || st.PN4_U? || st.PN4_R? {
      PushLetters4(st, c);
    } else if st.PT_T? || st.PT_R? || st.PT_A? || st.PT_N? || st.PT_S? || st.PT_P? || st.PT_O?
       || st.PT_R2? || st.PTTL_T2? {
      Letters1(st, c);
    } else if st.PU_U? || st.PU_S? || st.PU_E? || st.PM_M? || st.PM_E? || st.PM_T? || st.PM_H?
       || st.PM_O? || st.PMA_A? {
      Letters2(st, c);
    } else {
      Letters3(st, c);
    }
  }

  lemma LastLetterFollows(st: State, c: char)
    requires st.PT_T2? || st.PTTL_L? || st.PU_R? || st.PM_D? || st.PMA_R? || st.PR2_R? || st.PN_N?
    ensures Follows(st, c, ExactEdge(st, c))
  {
  }

  lemma FlagFollows(st: State, c: char)
    requires st.PLR_R_FIN? || st.PG_G_FIN? || st.PR2_2_FIN? || st.PN1_FIN?
    ensures Follows(st, c, ExactEdge(st, c))
  {
    hide Lower;
  }

  lemma EqualFollows(st: State, c: char)
    requires st.PN2_D? || st.PN3_M? || st.PN4_R2?
    requires c == '='
    ensures Follows(st, c, ExactEdge(st, c))
  {
    hide Lower;
  }

  lemma EqualsFollows(st: State, c: char)
    requires st.PT_eq? || st.PTTL_eq? || st.PU_eq? || st.PM_eq? || st.PMA_eq? || st.PLR_eq?
       || st.PG_eq? || st.PR2_eq? || st.PN1_eq? || st.PN2_eq? || st.PN3_eq? || st.PN4_eq?
    ensures Follows(st, c, ValueEdge(st, Lower(c)))
  {
    hide Lower;
  }

  lemma ValueTextFollows(st: State, c: char)
    requires st.VAL_P? || st.VU_U? || st.VU_D? || st.VT_T? || st.VT_C? || st.VTLS_L? || st.VS_S?
       || st.VS_C? || st.VS_T? || st.VW_W?
    ensures Follows(st, c, ValueEdge(st, Lower(c)))
  {
    hide Lower;
  }

  lemma ProtoFollows(st: State, c: char)
    requires st.VU_P_FIN? || st.VT_P_FIN? || st.VTLS_S_FIN? || st.VS_P_FIN? || st.VW_S?
       || st.VW_S_FIN? || st.VWS_S_FIN?
    ensures Follows(st, c, ValueEdge(st, Lower(c)))
  {
    hide Lower;
  }

  lemma LastLetterStates(st: State)
    requires ClassOf(st).LastLetter?
    ensures st.PT_T2? || st.PTTL_L? || st.PU_R? || st.PM_D? || st.PMA_R? || st.PR2_R? || st.PN_N?
  {
  }

  lemma FlagStates(st: State)
    requires ClassOf(st).Flag?
    ensures st.PLR_R_FIN? || st.PG_G_FIN? || st.PR2_2_FIN? || st.PN1_FIN?
  {
  }

  lemma MustEqualStates(st: State)
    requires ClassOf(st).MustEqual?
    ensures st.PN2_D? || st.PN3_M? || st.PN4_R2?
  {
  }

  lemma EqualsStates(st: State)
    requires ClassOf(st).Equals?
    ensures st.PT_eq? || st.PTTL_eq? || st.PU_eq? || st.PM_eq? || st.PMA_eq? || st.PLR_eq? || st.PG_eq?
       || st.PR2_eq? || st.PN1_eq? || st.PN2_eq? || st.PN3_eq? || st.PN4_eq?
  {
  }

  lemma ValueTextStates(st: State)
    requires ClassOf(st).ValueText?
    ensures st.VAL_P? || st.VU_U? || st.VU_D? || st.VT_T? || st.VT_C? || st.VTLS_L? || st.VS_S? || st.VS_C?
       || st.VS_T? || st.VW_W?
  {
  }

  lemma ProtoValueStates(st: State)
    requires ClassOf(st).ProtoValue?
    ensures st.VU_P_FIN? || st.VT_P_FIN? || st.VTLS_S_FIN? || st.VS_P_FIN? || st.VW_S? || st.VW_S_FIN?
       || st.VWS_S_FIN?
  {
  }

  lemma SingleStates(st: State)
    ensures ClassOf(st).Start? <==> st.PARAM?
    ensures ClassOf(st).Unknown? <==> st.PARAM_P?
    ensures ClassOf(st).UnknownValue? <==> st.PARAM_VAL_P?
  {
  }

  lemma MustEqualNodes(st: State)
    ensures ClassOf(st).MustEqual? <==> NameNode(StateNode(st))
  {
    hide ClassOf, StateNode;
    if ClassOf(st).MustEqual? {
      MustEqualStates(st);
      NameStatesAgree(st);
    }
    if NameNode(StateNode(st)) {
      NameNodeStates(st);
      NameStatesAgree(st);
    }
  }

  lemma NameStatesAgree(st: State)
    requires st.PN2_D? || st.PN3_M? || st.PN4_R2?
    ensures ClassOf(st).MustEqual? && NameNode(StateNode(st))
  {
  }

  lemma NameNodeStates(st: State)
    requires NameNode(StateNode(st))
    ensures st.PN2_D? || st.PN3_M? || st.PN4_R2?
  {
  }

  // -------------------------------------------------- reading a user text

  /** The machine has read the prefix t of a user text that begins at start. */
  ghost predicate Reading(m: Machine, t: string, start: nat, kind: Kind) {
    && !m.foundUser && m.pass == 0 && m.portNo == 0 && m.uri.kind == kind
    && match ZoneOf(t)
       case UserZone => m.state == USER && m.s == start && m.uri == Zero(kind) && !m.errorHeaders
       case ParamZone(name) => ParamState(m.state) && StateNode(m.state) == NodeOf(name) && m.uri.host.s == start
       case HeaderZone => m.state == HEADERS && m.uri.host.s == start
  }

  /** Same machine as far as finding the user is concerned. */
  ghost predicate SameUserFacts(m: Machine, n: Machine) {
    && m.foundUser == n.foundUser && m.pass == n.pass && m.portNo == n.portNo
    && m.uri.kind == n.uri.kind && m.uri.host == n.uri.host
  }

  lemma SelectKeeps(m: Machine)
    ensures SameUserFacts(m, SelectParam(m)) && SelectParam(m).state == m.state
  {
  }

  lemma RecordedKeeps(m: Machine, p: int)
    ensures Recorded(m, p).kind == m.uri.kind && Recorded(m, p).host == m.uri.host
  {
  }

  lemma TextInParam(m: Machine, c: char, p: int)
    requires ParamState(m.state)
    ensures StepText(m, c, p).None? <==> ClassOf(m.state).MustEqual? && c != '='
    ensures StepText(m, c, p).Some? ==>
      SameUserFacts(m, StepText(m, c, p).value) && Follows(m.state, c, StepText(m, c, p).value.state)
  {
    hide LetterEdge, ExactEdge, ValueEdge, StartEdge, StateNode, ClassOf, Child, Lower, ParamState, Follows;
    SingleStates(m.state);
    ParamStateClass(m.state);
    match ClassOf(m.state) {
      case Start => StartFollows(c);
      case Letter => LetterFollows(m.state, c);
      case LastLetter => LastLetterStates(m.state); LastLetterFollows(m.state, c);
      case Flag(_) => FlagStates(m.state); FlagFollows(m.state, c);
      case MustEqual => MustEqualStates(m.state); if c == '=' { EqualFollows(m.state, c); }
      case Equals(_) => EqualsStates(m.state); EqualsFollows(m.state, c);
      case Unknown => UnknownFollows(m.state, c);
      case UnknownValue => UnknownFollows(m.state, c);
      case ValueText => ValueTextStates(m.state); ValueTextFollows(m.state, c);
      case ProtoValue(_) => ProtoValueStates(m.state); ProtoFollows(m.state, c);
      case _ =>
    }
  }

  lemma UnknownFollows(st: State, c: char)
    requires st == PARAM_P || st == PARAM_VAL_P
    ensures Follows(st, c, st) && Follows(st, c, PARAM_VAL_P)
  {
  }

  lemma ZoneStep(t: string, c: char)
    requires t != ""
    ensures ZoneOf(t + [c]) ==
      match ZoneOf(t)
      case UserZone => if c == ';' then ParamZone("") else if c == '?' then HeaderZone else UserZone
      case ParamZone(name) => if c == ';' then ParamZone("") else if c == '?' then HeaderZone else ParamZone(name + [c])
      case HeaderZone => HeaderZone
  {
    assert (t + [c])[..|t|] == t;
  }

  lemma NodeStep(name: string, c: char)
    ensures NodeOf(name + [c]) == Child(NodeOf(name), Lower(c))
  {
    assert (name + [c])[..|name|] == name;
  }

  lemma ParamDispatch(m: Machine, c: char, p: int)
    requires ParamState(m.state)
    ensures Step(m, c, p) == StepParam(m, c, p)
  {
  }

  lemma ReadInParam(m: Machine, t: string, name: string, c: char, p: nat, start: nat, kind: Kind)
    requires t != "" && Reading(m, t, start, kind) && ZoneOf(t) == ParamZone(name) && c !in "@:"
    ensures var next := Step(m, c, p);
      if NeedsEqual(t) && c != '=' then next.None? else next.Some? && Reading(next.value, t + [c], start, kind)
  {
    hide Step, StepText, SelectParam, Recorded, ClassOf, StateNode, NodeOf, PushName, LowerText, ZoneOf, Child, Lower;
    ParamDispatch(m, c, p);
    SelectKeeps(m);
    var m1 := SelectParam(m);
    MustEqualNodes(m.state);
    PushNameIsNode(name);
    ZoneStep(t, c);
    if Separator(c) && !ClassOf(m1.state).MustEqual? {
      RecordedKeeps(m1, p);
      ParamIsStart();
      HeadersIsNoParam(c);
    } else {
      TextInParam(m1, c, p);
      NodeStep(name, c);
    }
  }

  lemma ParamIsStart()
    ensures ParamState(PARAM) && StateNode(PARAM) == 0 == NodeOf("")
  {
  }

  lemma HeadersIsNoParam(c: char)
    ensures !ParamState(HEADERS)
  {
  }

  lemma ReadOutsideParam(m: Machine, t: string, c: char, p: nat, start: nat, kind: Kind)
    requires t != "" && Reading(m, t, start, kind) && !ZoneOf(t).ParamZone? && c !in "@:[]"
    ensures Step(m, c, p).Some? && Reading(Step(m, c, p).value, t + [c], start, kind)
  {
    hide StateNode, ZoneOf, NodeOf, StepParam, StepHost;
    ZoneStep(t, c);
    ParamIsStart();
  }

  /** The parser rejects the text while reading the prefix of length k. */
  ghost predicate MissedBefore(u: string, k: nat)
    requires k <= |u|
  {
    exists j :: 0 < j < k && NeedsEqual(u[..j]) && u[j] != '='
  }

  lemma RunStep(m: Machine, buf: string, p: nat)
    requires p < |buf|
    ensures Step(m, buf[p], p).None? ==> RunFrom(m, buf, p) == None
    ensures Step(m, buf[p], p).Some? ==> RunFrom(m, buf, p) == RunFrom(Step(m, buf[p], p).value, buf, p + 1)
  {
  }

  lemma FirstChar(c: char, start: nat, kind: Kind)
    requires c !in "@:[]"
    ensures var next := Step(InitMachine(kind, start), c, start);
      next.Some? && Reading(next.value, [c], start, kind)
  {
  }

  lemma {:induction false} ReadUser(buf: string, start: nat, kind: Kind, u: string, k: nat) returns (m: Machine)
    requires UserText(u) && 0 < k <= |u|
    requires start + |u| <= |buf| && buf[start..start + |u|] == u
    ensures MissedBefore(u, k) ==> RunFrom(InitMachine(kind, start), buf, start) == None
    ensures !MissedBefore(u, k) ==>
      && Reading(m, u[..k], start, kind)
      && RunFrom(InitMachine(kind, start), buf, start) == RunFrom(m, buf, start + k)
    decreases k
  {
    hide Step, RunFrom, Reading, ZoneOf, NeedsEqual, InitMachine;
    assert buf[start + k - 1] == u[k - 1];
    if k == 1 {
      assert u[0] !in "@:[]";
      FirstChar(u[0], start, kind);
      RunStep(InitMachine(kind, start), buf, start);
      m := Step(InitMachine(kind, start), u[0], start).value;
      assert u[..1] == [u[0]];
    } else {
      m := ReadUser(buf, start, kind, u, k - 1);
      if MissedBefore(u, k - 1) {
        var j :| 0 < j < k - 1 && NeedsEqual(u[..j]) && u[j] != '=';
        assert MissedBefore(u, k);
      } else {
        var c, p := u[k - 1], start + k - 1;
        assert u[k - 1] !in "@:[]";
        ReadOne(m, u[..k - 1], c, p, start, kind);
        RunStep(m, buf, p);
        assert u[..k - 1] + [c] == u[..k];
        if NeedsEqual(u[..k - 1]) && c != '=' {
          assert MissedBefore(u, k);
        } else {
          m := Step(m, c, p).value;
        }
      }
    }
  }

  lemma ReadOne(m: Machine, t: string, c: char, p: nat, start: nat, kind: Kind)
    requires t != "" && Reading(m, t, start, kind) && c !in "@:[]"
    ensures var next := Step(m, c, p);
      if NeedsEqual(t) && c != '=' then next.None? else next.Some? && Reading(next.value, t + [c], start, kind)
  {
    hide Step, Reading, ZoneOf, PushName, LowerText;
    match ZoneOf(t) {
      case ParamZone(name) => ReadInParam(m, t, name, c, p, start, kind);
      case _ => ReadOutsideParam(m, t, c, p, start, kind);
    }
  }

  // ----------------------------------------------------- reading a password

  /** The parts in front of the host. */
  function UserParts(kind: Kind, start: nat, u: string, w: Option<string>): Uri {
    var uri := Zero(kind).(user := Span(start, |u|));
    if w.None? then uri else uri.(passwd := Span(start + |u| + 1, |w.value|))
  }

  /** The machine is behind the '@', its uri holds nothing but these parts. */
  ghost predicate AtHost(m: Machine, uri: Uri, p: nat) {
    m.state == HOST && m.s == p && m.uri == uri && m.foundUser && m.portNo == 0
  }

  /** The machine has read a user text u, a ':' and the prefix w of a password. */
  ghost predicate ReadingPassword(m: Machine, u: string, w: string, start: nat, kind: Kind) {
    && !m.foundUser && m.uri.kind == kind
    && if ZoneOf(u).UserZone? then
         && (m.state == PASSWORD || m.state == PASSWORD_ALPHA) && m.s == start + |u| + 1
         && m.uri == UserParts(kind, start, u, None) && (m.state == PASSWORD_ALPHA ==> m.portNo == 0)
       else
         && m.state in {PARAM_P, PARAM_VAL_P, VAL_P, HEADERS}
         && m.pass == start + |u| && m.portNo == 0 && m.uri.host.s == start
  }

  lemma AtSignInParam(m: Machine, p: int)
    requires ParamState(m.state) && !ClassOf(m.state).MustEqual?
    ensures Step(m, '@', p) == StillAtUser(SelectParam(m), p)
  {
    hide ClassOf;
    ParamDispatch(m, '@', p);
    SelectKeeps(m);
  }

  lemma UserEndsAtSign(m: Machine, u: string, p: nat, start: nat, kind: Kind)
    requires u != "" && Reading(m, u, start, kind) && p == start + |u|
    ensures var next := Step(m, '@', p);
      if NeedsEqual(u) then next.None? else next.Some? && AtHost(next.value, UserParts(kind, start, u, None), p + 1)
  {
    hide ClassOf, ZoneOf, StateNode, NodeOf, PushName, LowerText;
    match ZoneOf(u) {
      case ParamZone(name) =>
        MustEqualNodes(m.state);
        PushNameIsNode(name);
        SelectKeeps(m);
        if ClassOf(m.state).MustEqual? {
          ParamDispatch(m, '@', p);
          TextInParam(SelectParam(m), '@', p);
        } else {
          AtSignInParam(m, p);
        }
      case _ => AtSignOutside(m, p);
    }
  }

  lemma AtSignOutside(m: Machine, p: int)
    ensures m.state == HEADERS ==> Step(m, '@', p) == StillAtUser(m, p)
    ensures m.state == USER ==> Step(m, '@', p) == StepUser(m, '@', p)
  {
  }

  lemma ColonInParam(m: Machine, p: int)
    requires ParamState(m.state) && !ClassOf(m.state).MustEqual?
    ensures Step(m, ':', p).Some?
    ensures var next := Step(m, ':', p).value;
      (next.state == PARAM_P || next.state == VAL_P) && next == Colon(SelectParam(m), p).(state := next.state)
  {
    hide ClassOf;
    ParamDispatch(m, ':', p);
    SelectKeeps(m);
  }

  lemma ColonOutside(m: Machine, p: int)
    ensures m.state == HEADERS ==> Step(m, ':', p) == Some(Colon(m, p))
    ensures m.state == USER ==> Step(m, ':', p) == StepUser(m, ':', p)
  {
  }

  lemma UserEndsAtColon(m: Machine, u: string, p: nat, start: nat, kind: Kind)
    requires u != "" && Reading(m, u, start, kind) && p == start + |u|
    ensures var next := Step(m, ':', p);
      if NeedsEqual(u) then next.None? else next.Some? && ReadingPassword(next.value, u, "", start, kind)
  {
    hide ClassOf, ZoneOf, StateNode, NodeOf, PushName, LowerText;
    match ZoneOf(u) {
      case ParamZone(name) =>
        MustEqualNodes(m.state);
        PushNameIsNode(name);
        SelectKeeps(m);
        if ClassOf(m.state).MustEqual? {
          ParamDispatch(m, ':', p);
          TextInParam(SelectParam(m), ':', p);
        } else {
          ColonInParam(m, p);
        }
      case _ => ColonOutside(m, p);
    }
  }

  lemma PasswordChar(m: Machine, u: string, w: string, c: char, p: nat, start: nat, kind: Kind)
    requires ReadingPassword(m, u, w, start, kind) && c !in ";?:@[]"
    ensures Step(m, c, p).Some? && ReadingPassword(Step(m, c, p).value, u, w + [c], start, kind)
  {
    hide ZoneOf;
  }

  lemma PasswordEnds(m: Machine, u: string, w: string, p: nat, start: nat, kind: Kind)
    requires ReadingPassword(m, u, w, start, kind) && p == start + |u| + 1 + |w| && start > 0
    ensures Step(m, '@', p).Some? && AtHost(Step(m, '@', p).value, UserParts(kind, start, u, Some(w)), p + 1)
  {
    hide ZoneOf;
  }

  lemma {:induction false} ReadPassword(m0: Machine, buf: string, start: nat, kind: Kind, u: string, w: string, k: nat)
    returns (m: Machine)
    requires ReadingPassword(m0, u, "", start, kind) && PasswordText(w) && k <= |w|
    requires start + |u| + 1 + |w| <= |buf| && buf[start + |u| + 1..start + |u| + 1 + |w|] == w
    ensures ReadingPassword(m, u, w[..k], start, kind)
    ensures RunFrom(m0, buf, start + |u| + 1) == RunFrom(m, buf, start + |u| + 1 + k)
    decreases k
  {
    hide Step, RunFrom, ReadingPassword, ZoneOf;
    if k == 0 {
      m := m0;
      assert w[..0] == "";
    } else {
      m := ReadPassword(m0, buf, start, kind, u, w, k - 1);
      var c, p := w[k - 1], start + |u| + k;
      assert w[k - 1] !in ";?:@[]";
      assert buf[p] == buf[start + |u| + 1..start + |u| + 1 + |w|][k - 1];
      PasswordChar(m, u, w[..k - 1], c, p, start, kind);
      RunStep(m, buf, p);
      assert w[..k - 1] + [c] == w[..k];
      m := Step(m, c, p).value;
    }
  }

  // -------------------------------------------------- reading host and port

  lemma {:induction false} ReadPlainHost(m0: Machine, buf: string, p: nat, h: string, k: nat) returns (m: Machine)
    requires m0.state == HOST && PlainHost(h) && 0 < k <= |h|
    requires p + |h| <= |buf| && buf[p..p + |h|] == h
    ensures m == m0.(state := HOST_P) && RunFrom(m0, buf, p) == RunFrom(m, buf, p + k)
    decreases k
  {
    hide RunFrom, Finish;
    assert buf[p + k - 1] == h[k - 1];
    assert h[k - 1] !in ":;?&@";
    if k == 1 {
      RunStep(m0, buf, p);
    } else {
      m := ReadPlainHost(m0, buf, p, h, k - 1);
      RunStep(m, buf, p + k - 1);
    }
    m := m0.(state := HOST_P);
  }

  lemma {:induction false} ReadInBrackets(m0: Machine, buf: string, p: nat, h: string, k: nat) returns (m: Machine)
    requires m0.state == HOST && BracketedHost(h) && 0 < k < |h|
    requires p + |h| <= |buf| && buf[p..p + |h|] == h
    ensures m == m0.(state := HOST6_P) && RunFrom(m0, buf, p) == RunFrom(m, buf, p + k)
    decreases k
  {
    hide RunFrom, Finish;
    assert buf[p + k - 1] == h[k - 1];
    if k == 1 {
      RunStep(m0, buf, p);
    } else {
      assert h[k - 1] !in "[]&@;?";
      m := ReadInBrackets(m0, buf, p, h, k - 1);
      RunStep(m, buf, p + k - 1);
    }
    m := m0.(state := HOST6_P);
  }

  lemma ReadBracketedHost(m0: Machine, buf: string, p: nat, h: string) returns (m: Machine)
    requires m0.state == HOST && BracketedHost(h)
    requires p + |h| <= |buf| && buf[p..p + |h|] == h
    ensures m == m0.(state := HOST6_END) && RunFrom(m0, buf, p) == RunFrom(m, buf, p + |h|)
  {
    hide RunFrom, Finish;
    assert buf[p + |h| - 1] == h[|h| - 1];
    m := ReadInBrackets(m0, buf, p, h, |h| - 1);
    RunStep(m, buf, p + |h| - 1);
    m := m0.(state := HOST6_END);
  }

  lemma ReadHost(m0: Machine, buf: string, p: nat, h: string) returns (m: Machine)
    requires m0.state == HOST && (PlainHost(h) || BracketedHost(h))
    requires p + |h| <= |buf| && buf[p..p + |h|] == h
    ensures m == m0.(state := m.state) && (m.state == HOST_P || m.state == HOST6_END)
    ensures RunFrom(m0, buf, p) == RunFrom(m, buf, p + |h|)
  {
    hide RunFrom;
    if PlainHost(h) {
      m := ReadPlainHost(m0, buf, p, h, |h|);
    } else {
      m := ReadBracketedHost(m0, buf, p, h);
    }
  }

  lemma {:induction false} ReadPort(m0: Machine, buf: string, p: nat, d: string, k: nat) returns (m: Machine)
    requires m0.state == PORT && m0.portNo == 0 && AllDigits(d) && k <= |d|
    requires p + |d| <= |buf| && buf[p..p + |d|] == d
    ensures m == m0.(portNo := Value(d[..k])) && RunFrom(m0, buf, p) == RunFrom(m, buf, p + k)
    decreases k
  {
    hide RunFrom, Finish;
    if k > 0 {
      m := ReadPort(m0, buf, p, d, k - 1);
      assert buf[p + k - 1] == d[k - 1];
      RunStep(m, buf, p + k - 1);
      assert d[..k][..k - 1] == d[..k - 1];
      m := m0.(portNo := Value(d[..k]));
    } else {
      m := m0;
    }
  }

  // ------------------------------------------------------------ whole URIs

  function SchemeText(kind: Kind): string {
    if kind.Sips? then "sips:" else "sip:"
  }

  function PortText(d: Option<string>): string {
    if d.None? then "" else ":" + d.value
  }

  function HostParts(uri: Uri, p: nat, h: string, d: Option<string>): Uri
    requires d.Some? ==> AllDigits(d.value)
  {
    var located := uri.(host := Span(p, |h|));
    if d.None? then located
    else located.(port := Span(p + |h| + 1, |d.value|), portNo := Value(d.value) % 0x1_0000)
  }

  lemma {:induction false} LowerTextLength(t: string)
    ensures |LowerText(t)| == |t|
    ensures forall i :: 0 <= i < |t| ==> LowerText(t)[i] == Lower(t[i])
  {
    if t != "" {
      LowerTextLength(t[..|t| - 1]);
    }
  }

  lemma LowerIsOr20(c: char, l: char)
    requires Lower(c) == l && ('a' <= l <= 'z' || l == ':')
    ensures Or20(c) == l && (l == ':' ==> c == ':')
  {
  }

  lemma SchemeChar(scheme: string, kind: Kind, i: nat)
    requires LowerText(scheme) == SchemeText(kind) && i < |scheme|
    ensures |scheme| == |SchemeText(kind)|
    ensures Or20(scheme[i]) == SchemeText(kind)[i] && (SchemeText(kind)[i] == ':' ==> scheme[i] == ':')
  {
    hide LowerText, Or20, Lower;
    LowerTextLength(scheme);
    LowerIsOr20(scheme[i], SchemeText(kind)[i]);
  }

  lemma SchemeFound(scheme: string, kind: Kind, rest: string)
    requires (kind.Sip? || kind.Sips?) && LowerText(scheme) == SchemeText(kind) && rest != ""
    ensures Scheme(scheme + rest) == Some((kind, |scheme|))
  {
    hide LowerText, Or20, Scheme;
    LowerTextLength(scheme);
    forall i | 0 <= i < |scheme|
      ensures Or20(scheme[i]) == SchemeText(kind)[i] && (SchemeText(kind)[i] == ':' ==> scheme[i] == ':')
    {
      SchemeChar(scheme, kind, i);
    }
    if kind.Sips? {
      SipsFound(scheme + rest);
    } else {
      SipFound(scheme + rest);
    }
  }

  lemma SipFound(buf: string)
    requires |buf| >= 5 && Or20(buf[0]) == 's' && Or20(buf[1]) == 'i' && Or20(buf[2]) == 'p' && Or20(buf[3]) == ':'
    ensures Scheme(buf) == Some((Sip, 4))
  {
    hide Or20;
    assert SchemeIs(buf, "sip:");
  }

  lemma SipsFound(buf: string)
    requires |buf| >= 5 && Or20(buf[0]) == 's' && Or20(buf[1]) == 'i' && Or20(buf[2]) == 'p' && Or20(buf[3]) == 's'
        && buf[4] == ':'
    ensures Scheme(buf) == Some((Sips, 5))
  {
    hide Or20;
    assert Or20(buf[3]) != "sip:"[3];
    assert SchemeIs(buf, "sips");
  }

  lemma ColonAtHost(m: Machine, p: int)
    requires m.state == HOST_P || m.state == HOST6_END
    ensures Step(m, ':', p) == Some(m.(uri := m.uri.(host := Span(m.s, p - m.s)), state := PORT, s := p + 1))
  {
  }

  /** The text read so far may end here with a host or a port. */
  predicate AtHostEnd(m: Machine) {
    m.state == HOST_P || m.state == HOST6_END || m.state == PORT
        || ((m.state == USER || m.state == PASSWORD) && !m.foundUser)
  }

  lemma HostEnds(m: Machine, uri: Uri, p: nat, h: string, end: nat)
    requires AtHost(m.(state := HOST), uri, p) && (m.state == HOST_P || m.state == HOST6_END) && end == p + |h|
    ensures Finish(m, end) == Some(HostParts(uri, p, h, None))
  {
  }

  lemma HostPlace(buf: string, p: nat, h: string, tail: string)
    requires p <= |buf| && buf[p..] == h + tail
    ensures |buf| == p + |h| + |tail| && buf[p..p + |h|] == h
  {
    assert buf[p..p + |h|] == buf[p..][..|h|];
  }

  lemma HostAndEnd(m0: Machine, buf: string, p: nat, h: string, d: Option<string>, uri: Uri)
    requires AtHost(m0, uri, p) && (PlainHost(h) || BracketedHost(h))
    requires d.Some? ==> AllDigits(d.value)
    requires p <= |buf| && buf[p..] == h + PortText(d)
    ensures var m := RunFrom(m0, buf, p);
      m.Some? && AtHostEnd(m.value) && Finish(m.value, |buf|) == Some(HostParts(uri, p, h, d))
  {
    hide RunFrom, Step, Finish, HostParts, Value, PlainHost, BracketedHost, AtHost;
    HostPlace(buf, p, h, PortText(d));
    AtHostState(m0, uri, p);
    var m := ReadHost(m0, buf, p, h);
    if d.None? {
      RunEnds(m, buf, p + |h|);
      HostEnds(m, uri, p, h, |buf|);
    } else {
      PortPlace(buf, p, h, d.value);
      PortAndEnd(m, buf, p, h, d.value, uri);
    }
  }

  lemma AtHostState(m: Machine, uri: Uri, p: nat)
    requires AtHost(m, uri, p)
    ensures m.state == HOST && m.(state := HOST) == m
  {
  }

  lemma PortEnds(m: Machine, n: Machine, uri: Uri, p: nat, h: string, d: string)
    requires AtHost(m.(state := HOST), uri, p) && AllDigits(d)
    requires n == m.(uri := m.uri.(host := Span(m.s, |h|)), state := PORT, s := p + |h| + 1, portNo := Value(d))
    ensures Finish(n, p + |h| + 1 + |d|) == Some(HostParts(uri, p, h, Some(d)))
  {
    hide Value;
  }

  lemma PortPlace(buf: string, p: nat, h: string, d: string)
    requires p <= |buf| && buf[p..] == h + ":" + d
    ensures |buf| == p + |h| + 1 + |d| && buf[p + |h|] == ':'
    ensures buf[p + |h| + 1..] == d
  {
    assert buf[p + |h|] == buf[p..][|h|];
    assert buf[p + |h| + 1..] == buf[p..][|h| + 1..];
  }

  lemma ReadWholePort(m0: Machine, buf: string, p: nat, d: string)
    requires m0.state == PORT && m0.portNo == 0 && AllDigits(d)
    requires |buf| == p + |d| && buf[p..] == d
    ensures RunFrom(m0, buf, p) == Some(m0.(portNo := Value(d)))
  {
    hide RunFrom, Value;
    assert buf[p..p + |d|] == buf[p..];
    var m := ReadPort(m0, buf, p, d, |d|);
    assert d[..|d|] == d;
    RunEnds(m, buf, p + |d|);
  }

  lemma ReadColonPort(m: Machine, buf: string, q: nat, d: string) returns (n: Machine)
    requires (m.state == HOST_P || m.state == HOST6_END) && m.portNo == 0 && AllDigits(d)
    requires |buf| == q + 1 + |d| && buf[q] == ':' && buf[q + 1..] == d
    ensures n == m.(uri := m.uri.(host := Span(m.s, q - m.s)), state := PORT, s := q + 1, portNo := Value(d))
    ensures RunFrom(m, buf, q) == Some(n)
  {
    hide *;
    RunStep(m, buf, q);
    ColonAtHost(m, q);
    n := m.(uri := m.uri.(host := Span(m.s, q - m.s)), state := PORT, s := q + 1);
    ReadWholePort(n, buf, q + 1, d);
    n := n.(portNo := Value(d));
  }

  lemma PortAndEnd(m: Machine, buf: string, p: nat, h: string, d: string, uri: Uri)
    requires AtHost(m.(state := HOST), uri, p) && (m.state == HOST_P || m.state == HOST6_END)
    requires AllDigits(d) && |buf| == p + |h| + 1 + |d| && buf[p + |h|] == ':' && buf[p + |h| + 1..] == d
    ensures var last := RunFrom(m, buf, p + |h|);
      last.Some? && last.value.state == PORT && Finish(last.value, |buf|) == Some(HostParts(uri, p, h, Some(d)))
  {
    hide *;
    PortIsZero(m, uri, p);
    var n := ReadColonPort(m, buf, p + |h|, d);
    PortEnds(m, n, uri, p, h, d);
  }

  lemma PortIsZero(m: Machine, uri: Uri, p: nat)
    requires AtHost(m.(state := HOST), uri, p)
    ensures m.portNo == 0 && m.s == p
  {
  }

  lemma RunEnds(m: Machine, buf: string, p: nat)
    requires p >= |buf|
    ensures RunFrom(m, buf, p) == Some(m)
  {
  }

  lemma MissesSomewhere(u: string)
    requires u != ""
    ensures MissesEqual(u) <==> MissedBefore(u, |u|) || NeedsEqual(u)
  {
    hide NeedsEqual;
    assert u[..|u|] == u;
    if MissesEqual(u) {
      var k :| 0 < k <= |u| && NeedsEqual(u[..k]) && (k < |u| ==> u[k] != '=');
    }
    if MissedBefore(u, |u|) {
      var j :| 0 < j < |u| && NeedsEqual(u[..j]) && u[j] != '=';
    }
  }

  lemma UserAndAt(buf: string, start: nat, kind: Kind, u: string, m: Machine) returns (n: Machine)
    requires u != "" && Reading(m, u, start, kind) && start + |u| < |buf| && buf[start + |u|] == '@'
    ensures NeedsEqual(u) ==> RunFrom(m, buf, start + |u|) == None
    ensures !NeedsEqual(u) ==>
      && AtHost(n, UserParts(kind, start, u, None), start + |u| + 1)
      && RunFrom(m, buf, start + |u|) == RunFrom(n, buf, start + |u| + 1)
  {
    hide RunFrom, Step, Reading, AtHost, NeedsEqual, UserParts;
    var p := start + |u|;
    RunStep(m, buf, p);
    UserEndsAtSign(m, u, p, start, kind);
    n := if NeedsEqual(u) then m else Step(m, '@', p).value;
  }

  lemma UserPasswordAndAt(buf: string, start: nat, kind: Kind, u: string, w: string, m: Machine) returns (n: Machine)
    requires u != "" && start > 0 && Reading(m, u, start, kind) && PasswordText(w)
    requires start + |u| + 1 + |w| < |buf| && buf[start + |u|] == ':'
    requires buf[start + |u| + 1..start + |u| + 1 + |w|] == w && buf[start + |u| + 1 + |w|] == '@'
    ensures NeedsEqual(u) ==> RunFrom(m, buf, start + |u|) == None
    ensures !NeedsEqual(u) ==>
      && AtHost(n, UserParts(kind, start, u, Some(w)), start + |u| + 1 + |w| + 1)
      && RunFrom(m, buf, start + |u|) == RunFrom(n, buf, start + |u| + 1 + |w| + 1)
  {
    hide RunFrom, Step, Reading, ReadingPassword, AtHost, NeedsEqual, UserParts, PasswordText;
    var p := start + |u|;
    RunStep(m, buf, p);
    UserEndsAtColon(m, u, p, start, kind);
    n := m;
    if !NeedsEqual(u) {
      n := Step(m, ':', p).value;
      n := ReadPassword(n, buf, start, kind, u, w, |w|);
      assert w[..|w|] == w;
      var q := p + 1 + |w|;
      RunStep(n, buf, q);
      PasswordEnds(n, u, w, q, start, kind);
      n := Step(n, '@', q).value;
    }
  }

  /** From the start of the rest of the text to behind the '@'. */
  lemma UserRun(buf: string, start: nat, kind: Kind, u: string, w: Option<string>, tail: string) returns (m: Machine)
    requires UserText(u) && start > 0 && (w.Some? ==> PasswordText(w.value))
    requires start <= |buf| && buf[start..] == u + PortText(w) + "@" + tail
    ensures MissesEqual(u) ==> RunFrom(InitMachine(kind, start), buf, start) == None
    ensures !MissesEqual(u) ==>
      && AtHost(m, UserParts(kind, start, u, w), start + |u| + |PortText(w)| + 1)
      && RunFrom(InitMachine(kind, start), buf, start) == RunFrom(m, buf, start + |u| + |PortText(w)| + 1)
  {
    hide RunFrom, Step, Reading, AtHost, NeedsEqual, MissesEqual, MissedBefore, UserParts, PasswordText, InitMachine;
    var rest := buf[start..];
    assert buf[start..start + |u|] == rest[..|u|] == u;
    MissesSomewhere(u);
    m := ReadUser(buf, start, kind, u, |u|);
    assert u[..|u|] == u;
    if !MissedBefore(u, |u|) {
      if w.None? {
        assert buf[start + |u|] == rest[|u|] == '@';
        m := UserAndAt(buf, start, kind, u, m);
      } else {
        PasswordPlace(buf, start, u, w.value, tail);
        m := UserPasswordAndAt(buf, start, kind, u, w.value, m);
      }
    }
  }

  lemma PasswordPlace(buf: string, start: nat, u: string, w: string, tail: string)
    requires start <= |buf| && buf[start..] == u + (":" + w) + "@" + tail
    ensures start + |u| + 1 + |w| < |buf| && buf[start + |u|] == ':'
    ensures buf[start + |u| + 1..start + |u| + 1 + |w|] == w && buf[start + |u| + 1 + |w|] == '@'
  {
    var rest := buf[start..];
    assert buf[start + |u|] == rest[|u|] == ':';
    assert buf[start + |u| + 1 + |w|] == rest[|u| + 1 + |w|] == '@';
    assert buf[start + |u| + 1..start + |u| + 1 + |w|] == rest[|u| + 1..|u| + 1 + |w|] == w;
  }

  /** The machine behind scheme, user, password, host and port. */
  lemma UserHostRun(scheme: string, kind: Kind, u: string, w: Option<string>, h: string, d: Option<string>)
    requires (kind.Sip? || kind.Sips?) && LowerText(scheme) == SchemeText(kind)
    requires UserText(u) && (w.Some? ==> PasswordText(w.value))
    requires PlainHost(h) || BracketedHost(h)
    requires d.Some? ==> AllDigits(d.value)
    ensures var buf := scheme + u + PortText(w) + "@" + h + PortText(d);
      var last := RunFrom(InitMachine(kind, |scheme|), buf, |scheme|);
      && Scheme(buf) == Some((kind, |scheme|))
      && (MissesEqual(u) ==> last.None?)
      && (!MissesEqual(u) ==>
            && last.Some? && AtHostEnd(last.value)
            && Finish(last.value, |buf|)
               == Some(HostParts(UserParts(kind, |scheme|, u, w), |scheme| + |u| + |PortText(w)| + 1, h, d)))
  {
    hide RunFrom, Finish, Scheme, MissesEqual, AtHost, Value, PlainHost, BracketedHost, UserText, PasswordText,
         LowerText, HostParts, UserParts, InitMachine, PortText, AtHostEnd;
    var host := h + PortText(d);
    var buf := scheme + u + PortText(w) + "@" + h + PortText(d);
    UriText(scheme, u + PortText(w) + "@", h, PortText(d), buf, u, PortText(w));
    SchemeNotEmpty(scheme, kind);
    SchemeFound(scheme, kind, u + PortText(w) + "@" + host);
    var m := UserRun(buf, |scheme|, kind, u, w, host);
    if !MissesEqual(u) {
      HostAndEnd(m, buf, |scheme| + |u| + |PortText(w)| + 1, h, d, UserParts(kind, |scheme|, u, w));
    }
  }

  /** The main result. Between scheme and '@' the parser finds exactly the user
      and the password, and behind it exactly the host and the port; all other
      fields are empty, whatever the machine had recorded before the '@'. The
      text is refused exactly when a push parameter name in it misses its '='. */
  lemma UserHostSplit(scheme: string, kind: Kind, u: string, w: Option<string>, h: string, d: Option<string>)
    requires (kind.Sip? || kind.Sips?) && LowerText(scheme) == SchemeText(kind)
    requires UserText(u) && (w.Some? ==> PasswordText(w.value))
    requires PlainHost(h) || BracketedHost(h)
    requires d.Some? ==> AllDigits(d.value)
    ensures Parsed(scheme + u + PortText(w) + "@" + h + PortText(d)) ==
            if MissesEqual(u) then None
            else Some(HostParts(UserParts(kind, |scheme|, u, w), |scheme| + |u| + |PortText(w)| + 1, h, d))
  {
    hide RunFrom, Finish, Scheme, MissesEqual, Value, PlainHost, BracketedHost, UserText, PasswordText, LowerText,
         HostParts, UserParts, InitMachine, Parsed, FixKind, PortText, AtHostEnd, SchemeText, Zero;
    UserHostRun(scheme, kind, u, w, h, d);
    if !MissesEqual(u) {
      var p := |scheme| + |u| + |PortText(w)| + 1;
      NothingToFix(HostParts(UserParts(kind, |scheme|, u, w), p, h, d), kind, |scheme|, u, w, p, h, d);
    }
    ParsedIs(scheme + u + PortText(w) + "@" + h + PortText(d));
  }

  lemma UriText(scheme: string, head: string, h: string, port: string, buf: string, u: string, pw: string)
    requires buf == scheme + u + pw + "@" + h + port && head == u + pw + "@"
    ensures buf == scheme + (head + (h + port)) && buf[|scheme|..] == head + (h + port)
    ensures buf[|scheme| + |u| + |pw| + 1..] == h + port
    ensures head + (h + port) != "" && |scheme| + |u| + |pw| + 1 <= |buf|
  {
    assert buf == scheme + head + (h + port);
  }

  lemma ParsedIs(buf: string)
    requires Scheme(buf).Some?
    ensures var m := RunFrom(InitMachine(Scheme(buf).value.0, Scheme(buf).value.1), buf, Scheme(buf).value.1);
      Parsed(buf) ==
      if m.None? then None
      else if Finish(m.value, |buf|).None? then None
      else Some(FixKind(Finish(m.value, |buf|).value))
  {
  }

  lemma NothingToFix(uri: Uri, kind: Kind, start: nat, u: string, w: Option<string>, p: nat, h: string,
      d: Option<string>)
    requires kind.Sip? || kind.Sips?
    requires d.Some? ==> AllDigits(d.value)
    requires uri == HostParts(UserParts(kind, start, u, w), p, h, d)
    ensures FixKind(uri) == uri
  {
  }

  lemma SchemeNotEmpty(scheme: string, kind: Kind)
    requires LowerText(scheme) == SchemeText(kind)
    ensures scheme != ""
  {
  }

  // ------------------------------------------------------ without a user

  ghost predicate BareHost(h: string) {
    h != "" && forall i :: 0 <= i < |h| ==> h[i] !in "@:[];?"
  }

  lemma BareHostIsUserText(h: string)
    requires BareHost(h)
    ensures h != "" && UserText(h) && ZoneOf(h) == UserZone && !MissedBefore(h, |h|)
  {
    hide NeedsEqual;
    forall k | 0 < k <= |h| ensures ZoneOf(h[..k]) == UserZone && !NeedsEqual(h[..k]) {
      ZoneOfPlain(h[..k]);
      UserZoneNeedsNothing(h[..k]);
    }
    assert h[..|h|] == h;
  }

  lemma UserZoneNeedsNothing(t: string)
    requires ZoneOf(t) == UserZone
    ensures !NeedsEqual(t)
  {
  }

  lemma {:induction false} ReadLatePort(m0: Machine, buf: string, p: nat, d: string, k: nat) returns (m: Machine)
    requires m0.state == PASSWORD && m0.portNo == 0 && AllDigits(d) && k <= |d|
    requires p + |d| <= |buf| && buf[p..p + |d|] == d
    ensures m == m0.(portNo := Value(d[..k])) && RunFrom(m0, buf, p) == RunFrom(m, buf, p + k)
    decreases k
  {
    hide RunFrom, Finish;
    if k > 0 {
      m := ReadLatePort(m0, buf, p, d, k - 1);
      assert buf[p + k - 1] == d[k - 1];
      RunStep(m, buf, p + k - 1);
      assert d[..k][..k - 1] == d[..k - 1];
      m := m0.(portNo := Value(d[..k]));
    } else {
      m := m0;
    }
  }

  lemma HostTurnsPort(m: Machine, h: string, p: nat, start: nat, kind: Kind)
    requires h != "" && Reading(m, h, start, kind) && ZoneOf(h) == UserZone && p == start + |h|
    ensures Step(m, ':', p) == Some(m.(uri := Zero(kind).(user := Span(start, |h|)), state := PASSWORD, s := p + 1))
    ensures !m.foundUser && m.portNo == 0 && m.state == USER
    ensures Finish(m, p) == Some(Zero(kind).(host := Span(start, |h|)))
  {
    hide ZoneOf;
  }

  lemma BareHostPlace(scheme: string, h: string, d: Option<string>)
    ensures var buf, p := scheme + (h + PortText(d)), |scheme| + |h|;
      && buf[|scheme|..] == h + PortText(d) && (h != "" ==> h + PortText(d) != "")
      && if d.None? then |buf| == p else |buf| == p + 1 + |d.value| && buf[p] == ':' && buf[p + 1..] == d.value
  {
    var rest := h + PortText(d);
    Suffix(scheme, rest, 0);
    if d.Some? {
      PortPlace(h + ":" + d.value, 0, h, d.value);
      assert rest == h + ":" + d.value;
      Suffix(scheme, rest, |h| + 1);
    }
  }

  lemma Suffix(a: string, b: string, k: nat)
    requires k <= |b|
    ensures (a + b)[|a| + k..] == b[k..] && b[0..] == b && (k > 0 ==> (a + b)[|a| + k - 1] == b[k - 1])
  {
  }

  lemma HostRun(scheme: string, kind: Kind, h: string, d: Option<string>)
    requires (kind.Sip? || kind.Sips?) && LowerText(scheme) == SchemeText(kind)
    requires BareHost(h) && (d.Some? ==> AllDigits(d.value))
    ensures var buf := scheme + (h + PortText(d));
      var last := RunFrom(InitMachine(kind, |scheme|), buf, |scheme|);
      && Scheme(buf) == Some((kind, |scheme|))
      && last.Some? && AtHostEnd(last.value)
      && Finish(last.value, |buf|) == Some(HostParts(Zero(kind), |scheme|, h, d))
  {
    hide RunFrom, Finish, Step, Scheme, Value, BareHost, LowerText, InitMachine, HostParts, SchemeText, Zero, PortText,
         AtHostEnd;
    BareHostNotEmpty(h);
    BareHostPlace(scheme, h, d);
    SchemeFound(scheme, kind, h + PortText(d));
    BareHostAndPort(scheme + (h + PortText(d)), |scheme|, kind, h, d);
  }

  lemma BareHostAndPort(buf: string, start: nat, kind: Kind, h: string, d: Option<string>)
    requires BareHost(h) && (d.Some? ==> AllDigits(d.value)) && start <= |buf| && buf[start..] == h + PortText(d)
    requires var p := start + |h|;
      if d.None? then |buf| == p else |buf| == p + 1 + |d.value| && buf[p] == ':' && buf[p + 1..] == d.value
    ensures var last := RunFrom(InitMachine(kind, start), buf, start);
      last.Some? && AtHostEnd(last.value) && Finish(last.value, |buf|) == Some(HostParts(Zero(kind), start, h, d))
  {
    hide RunFrom, Finish, Step, Value, BareHost, InitMachine, HostParts, Zero, PortText;
    var m := BareHostRun(buf, start, kind, h, PortText(d));
    if d.None? {
      RunEnds(m, buf, start + |h|);
      HostIs(kind, start, h);
    } else {
      LatePort(m, buf, start + |h|, kind, start, h, d.value);
    }
  }

  /** Without an '@' what was read as user and password is host and port. */
  lemma HostWithoutUser(scheme: string, kind: Kind, h: string, d: Option<string>)
    requires (kind.Sip? || kind.Sips?) && LowerText(scheme) == SchemeText(kind)
    requires BareHost(h) && (d.Some? ==> AllDigits(d.value))
    ensures Parsed(scheme + (h + PortText(d))) == Some(HostParts(Zero(kind), |scheme|, h, d))
  {
    hide RunFrom, Finish, Step, Scheme, Value, BareHost, LowerText, InitMachine, Parsed, HostParts, AtHostEnd, FixKind;
    HostRun(scheme, kind, h, d);
    NothingToFixBare(kind, |scheme|, h, d);
    ParsedIs(scheme + (h + PortText(d)));
  }

  lemma NothingToFixBare(kind: Kind, start: nat, h: string, d: Option<string>)
    requires (kind.Sip? || kind.Sips?) && (d.Some? ==> AllDigits(d.value))
    ensures FixKind(HostParts(Zero(kind), start, h, d)) == HostParts(Zero(kind), start, h, d)
  {
  }

  lemma HostIs(kind: Kind, start: nat, h: string)
    ensures HostParts(Zero(kind), start, h, None) == Zero(kind).(host := Span(start, |h|))
  {
  }

  lemma BareHostNotEmpty(h: string)
    requires BareHost(h)
    ensures h != ""
  {
  }

  lemma BareHostRun(buf: string, start: nat, kind: Kind, h: string, tail: string) returns (m: Machine)
    requires BareHost(h) && start <= |buf| && buf[start..] == h + tail
    ensures !m.foundUser && m.portNo == 0 && m.state == USER
    ensures RunFrom(InitMachine(kind, start), buf, start) == RunFrom(m, buf, start + |h|)
    ensures Finish(m, start + |h|) == Some(Zero(kind).(host := Span(start, |h|)))
    ensures Step(m, ':', start + |h|)
            == Some(m.(uri := Zero(kind).(user := Span(start, |h|)), state := PASSWORD, s := start + |h| + 1))
  {
    hide RunFrom, Finish, Step, UserText, BareHost, InitMachine, Reading, ZoneOf, MissedBefore;
    BareHostIsUserText(h);
    HostPlace(buf, start, h, tail);
    m := ReadUser(buf, start, kind, h, |h|);
    assert h[..|h|] == h;
    HostTurnsPort(m, h, start + |h|, start, kind);
  }

  lemma LatePort(m: Machine, buf: string, p: nat, kind: Kind, start: nat, h: string, d: string)
    requires !m.foundUser && m.portNo == 0 && p == start + |h| && AllDigits(d)
    requires |buf| == p + 1 + |d| && buf[p] == ':' && buf[p + 1..] == d
    requires Step(m, ':', p) == Some(m.(uri := Zero(kind).(user := Span(start, |h|)), state := PASSWORD, s := p + 1))
    ensures var last := RunFrom(m, buf, p);
      && last.Some? && last.value.state == PASSWORD && !last.value.foundUser
      && Finish(last.value, |buf|) == Some(HostParts(Zero(kind), start, h, Some(d)))
  {
    hide *;
    RunStep(m, buf, p);
    var m1 := Step(m, ':', p).value;
    assert buf[p + 1..p + 1 + |d|] == buf[p + 1..];
    var m2 := ReadLatePort(m1, buf, p + 1, d, |d|);
    assert d[..|d|] == d;
    RunEnds(m2, buf, p + 1 + |d|);
    LatePortEnds(m2, kind, start, h, d);
  }

  lemma LatePortEnds(m: Machine, kind: Kind, start: nat, h: string, d: string)
    requires m.state == PASSWORD && !m.foundUser && AllDigits(d) && m.portNo == Value(d)
    requires m.s == start + |h| + 1 && m.uri == Zero(kind).(user := Span(start, |h|))
    ensures Finish(m, start + |h| + 1 + |d|) == Some(HostParts(Zero(kind), start, h, Some(d)))
  {
    hide Value;
  }

  // ------------------------------------------- the refused texts, by example

  lemma {:induction false} ZoneOfPlain(x: string)
    requires forall i :: 0 <= i < |x| ==> x[i] != ';' && x[i] != '?'
    ensures ZoneOf(x) == UserZone
  {
    if |x| > 1 {
      ZoneOfPlain(x[..|x| - 1]);
    }
  }

  lemma {:induction false} ZoneOfParam(x: string, name: string)
    requires x != "" && ZoneOf(x) == UserZone
    requires forall i :: 0 <= i < |name| ==> name[i] != ';' && name[i] != '?'
    ensures ZoneOf(x + ";" + name) == ParamZone(name)
    decreases |name|
  {
    if name == "" {
      ZoneStep(x, ';');
      assert x + ";" + name == x + [';'];
    } else {
      var n := |name| - 1;
      ZoneOfParam(x, name[..n]);
      ZoneStep(x + ";" + name[..n], name[n]);
      assert x + ";" + name[..n] + [name[n]] == x + ";" + name;
    }
  }

  /** Every user text whose only parameter is a bare push parameter name, in any
      case, is refused, although RFC 3261 allows it as a user. */
  lemma BarePushNameIsRefused(x: string, name: string, h: string)
    requires UserText(x) && (forall i :: 0 <= i < |x| ==> x[i] != ';' && x[i] != '?')
    requires UserText(name) && (forall i :: 0 <= i < |name| ==> name[i] != ';' && name[i] != '?')
    requires PushName(LowerText(name)) && PlainHost(h)
    ensures Parsed("sip:" + (x + ";" + name) + PortText(None) + "@" + h + PortText(None)) == None
  {
    hide Parsed, LowerText, PlainHost, HostParts, UserParts, PortText, SchemeText, MissesEqual;
    BareNameMisses(x, name);
    SipText();
    UserHostSplit("sip:", Sip, x + ";" + name, None, h, None);
  }

  lemma BareNameMisses(x: string, name: string)
    requires UserText(x) && (forall i :: 0 <= i < |x| ==> x[i] != ';' && x[i] != '?')
    requires UserText(name) && (forall i :: 0 <= i < |name| ==> name[i] != ';' && name[i] != '?')
    requires PushName(LowerText(name))
    ensures UserText(x + ";" + name) && MissesEqual(x + ";" + name)
  {
    hide LowerText, ZoneOf;
    var u := x + ";" + name;
    ZoneOfPlain(x);
    ZoneOfParam(x, name);
    assert u[..|u|] == u;
    assert NeedsEqual(u[..|u|]);
  }

  lemma SipText()
    ensures LowerText("sip:") == SchemeText(Sip)
  {
    LowerTextLength("sip:");
  }
}
