/** The well-known parameter names of the URI parser, read one character at a
    time: which state stands for which beginning of which name. */
module UriNames {
  import opened Decimal
  import opened Chars
  import opened UriParser
  import opened UriUserSplit

  // ---------------------------------------------------- well-known names

  function NameWord(name: Name): string {
    match name
    case Transport => "transport"
    case Ttl => "ttl"
    case UserParam => "user"
    case Method => "method"
    case Maddr => "maddr"
    case Lr => "lr"
    case R2 => "r2"
    case Gr => "gr"
    case PnProvider => "pn-provider"
    case PnPrid => "pn-prid"
    case PnParam => "pn-param"
    case PnPurr => "pn-purr"
  }

  // Every state inside a name has one predecessor and one character that
  // leads to it.

  function Before(st: State): State {
    match st
    case PT_T => PARAM case PT_R => PT_T case PT_A => PT_R case PT_N => PT_A case PT_S => PT_N
    case PT_P => PT_S case PT_O => PT_P case PT_R2 => PT_O case PT_T2 => PT_R2 case PTTL_T2 => PT_T
    case PTTL_L => PTTL_T2 case PU_U => PARAM case PU_S => PU_U case PU_E => PU_S case PU_R => PU_E
    case PM_M => PARAM case PM_E => PM_M case PM_T => PM_E case PM_H => PM_T case PM_O => PM_H
    case PM_D => PM_O case PMA_A => PM_M case PMA_D => PMA_A case PMA_D2 => PMA_D case PMA_R => PMA_D2
    case PLR_L => PARAM case PLR_R_FIN => PLR_L case PR2_R => PARAM case PR2_2_FIN => PR2_R case PG_G => PARAM
    case PG_G_FIN => PG_G case PN_P => PARAM case PN_N => PN_P case PN_dash => PN_N case PN_P2 => PN_dash
    case PN_PR => PN_P2 case PN1_O => PN_PR case PN1_V => PN1_O case PN1_I => PN1_V case PN1_D => PN1_I
    case PN1_E => PN1_D case PN1_FIN => PN1_E case PN2_I => PN_PR case PN2_D => PN2_I case PN3_A => PN_P2
    case PN3_R => PN3_A case PN3_A2 => PN3_R case PN3_M => PN3_A2 case PN4_U => PN_P2 case PN4_R => PN4_U
    case PN4_R2 => PN4_R case _ => PARAM_P
  }

  function CharOf(st: State): char {
    match st
    case PT_T => 't' case PT_R => 'r' case PT_A => 'a' case PT_N => 'n' case PT_S => 's' case PT_P => 'p'
    case PT_O => 'o' case PT_R2 => 'r' case PT_T2 => 't' case PTTL_T2 => 't' case PTTL_L => 'l'
    case PU_U => 'u' case PU_S => 's' case PU_E => 'e' case PU_R => 'r' case PM_M => 'm' case PM_E => 'e'
    case PM_T => 't' case PM_H => 'h' case PM_O => 'o' case PM_D => 'd' case PMA_A => 'a' case PMA_D => 'd'
    case PMA_D2 => 'd' case PMA_R => 'r' case PLR_L => 'l' case PLR_R_FIN => 'r' case PR2_R => 'r'
    case PR2_2_FIN => '2' case PG_G => 'g' case PG_G_FIN => 'r' case PN_P => 'p' case PN_N => 'n'
    case PN_dash => '-' case PN_P2 => 'p' case PN_PR => 'r' case PN1_O => 'o' case PN1_V => 'v'
    case PN1_I => 'i' case PN1_D => 'd' case PN1_E => 'e' case PN1_FIN => 'r' case PN2_I => 'i'
    case PN2_D => 'd' case PN3_A => 'a' case PN3_R => 'r' case PN3_A2 => 'a' case PN3_M => 'm'
    case PN4_U => 'u' case PN4_R => 'r' case PN4_R2 => 'r' case _ => ' '
  }

  /** The state in which the first k characters of a well-known name are read. */
  function WordState(name: Name, k: nat): State {
    match name
    case Transport =>
      if k == 0 then PARAM else if k == 1 then PT_T else if k == 2 then PT_R else if k == 3 then PT_A
      else if k == 4 then PT_N else if k == 5 then PT_S else if k == 6 then PT_P else if k == 7 then PT_O
      else if k == 8 then PT_R2 else PT_T2
    case Ttl => if k == 0 then PARAM else if k == 1 then PT_T else if k == 2 then PTTL_T2 else PTTL_L
    case UserParam =>
      if k == 0 then PARAM else if k == 1 then PU_U else if k == 2 then PU_S else if k == 3 then PU_E else PU_R
    case Method =>
      if k == 0 then PARAM else if k == 1 then PM_M else if k == 2 then PM_E else if k == 3 then PM_T
      else if k == 4 then PM_H else if k == 5 then PM_O else PM_D
    case Maddr =>
      if k == 0 then PARAM else if k == 1 then PM_M else if k == 2 then PMA_A else if k == 3 then PMA_D
      else if k == 4 then PMA_D2 else PMA_R
    case Lr => if k == 0 then PARAM else if k == 1 then PLR_L else PLR_R_FIN
    case R2 => if k == 0 then PARAM else if k == 1 then PR2_R else PR2_2_FIN
    case Gr => if k == 0 then PARAM else if k == 1 then PG_G else PG_G_FIN
    case PnProvider =>
      if k < 5 then PushState(k) else if k == 5 then PN_PR else if k == 6 then PN1_O else if k == 7 then PN1_V
      else if k == 8 then PN1_I else if k == 9 then PN1_D else if k == 10 then PN1_E else PN1_FIN
    case PnPrid => if k < 5 then PushState(k) else if k == 5 then PN_PR else if k == 6 then PN2_I else PN2_D
    case PnParam =>
      if k < 5 then PushState(k) else if k == 5 then PN3_A else if k == 6 then PN3_R else if k == 7 then PN3_A2
          else PN3_M
    case PnPurr => if k < 5 then PushState(k) else if k == 5 then PN4_U else if k == 6 then PN4_R else PN4_R2
  }

  function PushState(k: nat): State {
    if k == 0 then PARAM else if k == 1 then PN_P else if k == 2 then PN_N else if k == 3 then PN_dash else PN_P2
  }

  /** Next state on a character of a name, other than '='. */
  function NameEdge(st: State, c: char): State {
    match ClassOf(st)
    case Start => StartEdge(Lower(c))
    case Letter => LetterEdge(st, Lower(c))
    case LastLetter => ExactEdge(st, c)
    case Flag(_) => ExactEdge(st, c)
    case _ => st
  }

  function NameState(t: string): State {
    if t == "" then PARAM else NameEdge(NameState(t[..|t| - 1]), t[|t| - 1])
  }

  /** Some well-known name begins with this text. */
  ghost predicate StartsName(t: string) {
    exists name :: t <= NameWord(name)
  }

  /** Either the name is unknown from here on, or the edge is the only one to
      its target. */
  ghost predicate OnlyEdge(st: State, c: char, next: State) {
    next == PARAM_P || (Before(next) == st && CharOf(next) == c)
  }

  lemma StartIsOnly(c: char)
    ensures OnlyEdge(PARAM, c, StartEdge(c))
  {
  }

  lemma LetterIsOnly1(st: State, c: char)
    requires st.PT_T? || st.PT_R? || st.PT_A? || st.PT_N? || st.PT_S? || st.PT_P? || st.PT_O? || st.PT_R2?
        || st.PTTL_T2?
    ensures OnlyEdge(st, c, LetterEdge(st, c))
  {
  }

  lemma LetterIsOnly2(st: State, c: char)
    requires st.PU_U? || st.PU_S? || st.PU_E? || st.PM_M? || st.PM_E? || st.PM_T? || st.PM_H? || st.PM_O?
    ensures OnlyEdge(st, c, LetterEdge(st, c))
  {
  }

  lemma LetterIsOnly3(st: State, c: char)
    requires st.PMA_A? || st.PMA_D? || st.PMA_D2? || st.PLR_L? || st.PG_G?
    ensures OnlyEdge(st, c, LetterEdge(st, c))
  {
  }

  lemma LetterIsOnly4(st: State, c: char)
    requires st.PN_P? || st.PN_dash? || st.PN_P2? || st.PN_PR?
    ensures OnlyEdge(st, c, LetterEdge(st, c))
  {
  }

  lemma LetterIsOnly5(st: State, c: char)
    requires st.PN1_O? || st.PN1_V? || st.PN1_I?
    ensures OnlyEdge(st, c, LetterEdge(st, c))
  {
  }

  lemma LetterIsOnly6(st: State, c: char)
    requires st.PN1_D? || st.PN1_E? || st.PN2_I?
    ensures OnlyEdge(st, c, LetterEdge(st, c))
  {
  }

  lemma LetterIsOnly7(st: State, c: char)
    requires st.PN3_A? || st.PN3_R? || st.PN3_A2?
    ensures OnlyEdge(st, c, LetterEdge(st, c))
  {
  }

  lemma LetterIsOnly8(st: State, c: char)
    requires st.PN4_U? || st.PN4_R?
    ensures OnlyEdge(st, c, LetterEdge(st, c))
  {
  }

  lemma LetterIsOnly(st: State, c: char)
    requires ClassOf(st).Letter?
    ensures OnlyEdge(st, c, LetterEdge(st, c))
  {
    hide LetterEdge, OnlyEdge, Before, CharOf;
    LetterStates(st);
    if st.PT_T? || st.PT_R? || st.PT_A? || st.PT_N? || st.PT_S? || st.PT_P? || st.PT_O? || st.PT_R2? || st.PTTL_T2? {
      LetterIsOnly1(st, c);
    } else if st.PU_U? || st.PU_S? || st.PU_E? || st.PM_M? || st.PM_E? || st.PM_T? || st.PM_H? || st.PM_O? {
      LetterIsOnly2(st, c);
    } else if st.PMA_A? || st.PMA_D? || st.PMA_D2? || st.PLR_L? || st.PG_G? {
      LetterIsOnly3(st, c);
    } else if st.PN_P? || st.PN_dash? || st.PN_P2? || st.PN_PR? {
      LetterIsOnly4(st, c);
    } else if st.PN1_O? || st.PN1_V? || st.PN1_I? {
      LetterIsOnly5(st, c);
    } else if st.PN1_D? || st.PN1_E? || st.PN2_I? {
      LetterIsOnly6(st, c);
    } else if st.PN3_A? || st.PN3_R? || st.PN3_A2? {
      LetterIsOnly7(st, c);
    } else {
      LetterIsOnly8(st, c);
    }
  }

  lemma ExactIsOnly(st: State, c: char)
    requires (ClassOf(st).LastLetter? || ClassOf(st).Flag?) && c != '='
    ensures OnlyEdge(st, Lower(c), ExactEdge(st, c))
  {
  }

  /** The states in which a name can be read. */
  predicate NameReading(st: State) {
    var kind := ClassOf(st);
    kind.Start? || kind.Letter? || kind.LastLetter? || kind.Flag? || kind.Unknown?
  }

  lemma NameEdgeIsOnly(st: State, c: char)
    requires c != '=' && NameReading(st)
    ensures OnlyEdge(st, Lower(c), NameEdge(st, c))
  {
    hide LetterEdge, ExactEdge, StartEdge, OnlyEdge, Lower, ClassOf;
    SingleStates(st);
    match ClassOf(st) {
      case Start => StartIsOnly(Lower(c));
      case Letter => LetterIsOnly(st, Lower(c));
      case LastLetter => ExactIsOnly(st, c);
      case Flag(_) => ExactIsOnly(st, c);
      case Unknown => UnknownIsOnly(Lower(c));
      case _ =>
    }
  }

  lemma UnknownIsOnly(c: char)
    ensures OnlyEdge(PARAM_P, c, PARAM_P)
  {
  }

  predicate InName(st: State) {
    Before(st) != PARAM_P
  }

  /** Reading a well-known name goes through its states, and only that way. */
  ghost predicate WordLink(name: Name, k: nat)
    requires 0 < k <= |NameWord(name)|
  {
    && InName(WordState(name, k))
    && Before(WordState(name, k)) == WordState(name, k - 1) && CharOf(WordState(name, k)) == NameWord(name)[k - 1]
  }

  lemma WordChain1(name: Name, k: nat)
    requires (name.Transport?) && 0 < k <= |NameWord(name)|
    ensures WordLink(name, k)
  {
  }

  lemma WordChain2(name: Name, k: nat)
    requires (name.Ttl? || name.UserParam? || name.Lr?) && 0 < k <= |NameWord(name)|
    ensures WordLink(name, k)
  {
  }

  lemma WordChain3(name: Name, k: nat)
    requires (name.Method? || name.Gr?) && 0 < k <= |NameWord(name)|
    ensures WordLink(name, k)
  {
  }

  lemma WordChain4(name: Name, k: nat)
    requires (name.Maddr? || name.R2?) && 0 < k <= |NameWord(name)|
    ensures WordLink(name, k)
  {
  }

  /** The push names begin alike. */
  lemma PushBeginning(name: Name, k: nat)
    requires (name.PnProvider? || name.PnPrid? || name.PnParam? || name.PnPurr?) && k <= 4
    ensures WordState(name, k) == PushState(k) && |NameWord(name)| > 4
        && (k > 0 ==> NameWord(name)[k - 1] == "pn-p"[k - 1])
  {
  }

  lemma PushChain(k: nat)
    requires 0 < k <= 4
    ensures InName(PushState(k)) && Before(PushState(k)) == PushState(k - 1) && CharOf(PushState(k)) == "pn-p"[k - 1]
  {
  }

  lemma WordChain5(name: Name, k: nat)
    requires name.PnProvider? && 4 < k <= 8 && k <= |NameWord(name)|
    ensures WordLink(name, k)
  {
  }

  lemma WordChain6(name: Name, k: nat)
    requires name.PnProvider? && 8 < k && k <= |NameWord(name)|
    ensures WordLink(name, k)
  {
  }

  lemma WordChain7(name: Name, k: nat)
    requires name.PnPrid? && 4 < k && k <= |NameWord(name)|
    ensures WordLink(name, k)
  {
  }

  lemma WordChain8(name: Name, k: nat)
    requires name.PnParam? && 4 < k && k <= |NameWord(name)|
    ensures WordLink(name, k)
  {
  }

  lemma WordChain9(name: Name, k: nat)
    requires name.PnPurr? && 4 < k && k <= |NameWord(name)|
    ensures WordLink(name, k)
  {
  }

  lemma WordChain(name: Name, k: nat)
    requires 0 < k <= |NameWord(name)|
    ensures WordLink(name, k)
  {
    hide WordLink;
    match name {
      case Transport => WordChain1(name, k);
      case Ttl => WordChain2(name, k);
      case UserParam => WordChain2(name, k);
      case Lr => WordChain2(name, k);
      case Method => WordChain3(name, k);
      case Gr => WordChain3(name, k);
      case Maddr => WordChain4(name, k);
      case R2 => WordChain4(name, k);
      case _ => PushNameChain(name, k);
    }
  }

  lemma PushNameChain(name: Name, k: nat)
    requires (name.PnProvider? || name.PnPrid? || name.PnParam? || name.PnPurr?) && 0 < k <= |NameWord(name)|
    ensures WordLink(name, k)
  {
    hide NameWord, WordState, Before, CharOf, PushState;
    if k <= 4 {
      PushBeginning(name, k);
      PushBeginning(name, k - 1);
      PushChain(k);
    } else if name.PnProvider? {
      if k <= 8 { WordChain5(name, k); } else { WordChain6(name, k); }
    } else if name.PnPrid? {
      WordChain7(name, k);
    } else if name.PnParam? {
      WordChain8(name, k);
    } else {
      WordChain9(name, k);
    }
  }

  /** The next character of a well-known name leads to its next state. */
  ghost predicate WordEdge(name: Name, k: nat, c: char)
    requires 0 < k <= |NameWord(name)|
  {
    Lower(c) == NameWord(name)[k - 1] ==> NameEdge(WordState(name, k - 1), c) == WordState(name, k)
  }

  /** Only the states inside a name lead on by letters. */
  lemma LetterEdgeIsLetter(st: State, l: char)
    requires LetterEdge(st, l) != PARAM_P
    ensures ClassOf(st).Letter?
  {
  }

  lemma LetterStep(st: State, l: char, next: State, c: char)
    requires LetterEdge(st, l) == next != PARAM_P
    ensures Lower(c) == l ==> NameEdge(st, c) == next
  {
    hide ClassOf, LetterEdge, Lower;
    LetterEdgeIsLetter(st, l);
  }

  lemma StartStep(c: char)
    ensures Lower(c) in "tumlgrp" ==> NameEdge(PARAM, c) == StartEdge(Lower(c))
  {
    hide Lower, StartEdge;
  }

  lemma DashStep(c: char)
    ensures Lower(c) == '-' ==> NameEdge(PN_N, c) == PN_dash
  {
  }

  lemma TwoStep(c: char)
    ensures Lower(c) == '2' ==> NameEdge(PR2_R, c) == PR2_2_FIN
  {
  }

  lemma PushEdge(k: nat, c: char)
    requires 0 < k <= 4
    ensures Lower(c) == "pn-p"[k - 1] ==> NameEdge(PushState(k - 1), c) == PushState(k)
  {
    hide NameEdge, Lower;
    if k == 1 {
      StartStep(c);
    } else if k == 2 {
      LetterStep(PN_P, 'n', PN_N, c);
    } else if k == 3 {
      DashStep(c);
    } else {
      LetterStep(PN_dash, 'p', PN_P2, c);
    }
  }

  lemma TransportEdge2(k: nat, c: char)
    requires 2 <= k <= 3
    ensures |NameWord(Transport)| >= k && WordEdge(Transport, k, c)
  {
    hide NameEdge, Lower;
    if k == 2 {
      LetterStep(PT_T, 'r', PT_R, c);
    } else {
      LetterStep(PT_R, 'a', PT_A, c);
    }
  }

  lemma TransportEdge4(k: nat, c: char)
    requires 4 <= k <= 5
    ensures |NameWord(Transport)| >= k && WordEdge(Transport, k, c)
  {
    hide NameEdge, Lower;
    if k == 4 {
      LetterStep(PT_A, 'n', PT_N, c);
    } else {
      LetterStep(PT_N, 's', PT_S, c);
    }
  }

  lemma TransportEdge6(k: nat, c: char)
    requires 6 <= k <= 7
    ensures |NameWord(Transport)| >= k && WordEdge(Transport, k, c)
  {
    hide NameEdge, Lower;
    if k == 6 {
      LetterStep(PT_S, 'p', PT_P, c);
    } else {
      LetterStep(PT_P, 'o', PT_O, c);
    }
  }

  lemma TransportEdge8(k: nat, c: char)
    requires 8 <= k <= 9
    ensures |NameWord(Transport)| >= k && WordEdge(Transport, k, c)
  {
    hide NameEdge, Lower;
    if k == 8 {
      LetterStep(PT_O, 'r', PT_R2, c);
    } else {
      LetterStep(PT_R2, 't', PT_T2, c);
    }
  }

  lemma TtlEdge2(k: nat, c: char)
    requires 2 <= k <= 3
    ensures |NameWord(Ttl)| >= k && WordEdge(Ttl, k, c)
  {
    hide NameEdge, Lower;
    if k == 2 {
      LetterStep(PT_T, 't', PTTL_T2, c);
    } else {
      LetterStep(PTTL_T2, 'l', PTTL_L, c);
    }
  }

  lemma UserParamEdge2(k: nat, c: char)
    requires 2 <= k <= 3
    ensures |NameWord(Name.UserParam)| >= k && WordEdge(Name.UserParam, k, c)
  {
    hide NameEdge, Lower;
    if k == 2 {
      LetterStep(PU_U, 's', PU_S, c);
    } else {
      LetterStep(PU_S, 'e', PU_E, c);
    }
  }

  lemma UserParamEdge4(k: nat, c: char)
    requires k == 4
    ensures |NameWord(Name.UserParam)| >= k && WordEdge(Name.UserParam, k, c)
  {
    hide NameEdge, Lower;
    LetterStep(PU_E, 'r', PU_R, c);
  }

  lemma MethodEdge2(k: nat, c: char)
    requires 2 <= k <= 3
    ensures |NameWord(Method)| >= k && WordEdge(Method, k, c)
  {
    hide NameEdge, Lower;
    if k == 2 {
      LetterStep(PM_M, 'e', PM_E, c);
    } else {
      LetterStep(PM_E, 't', PM_T, c);
    }
  }

  lemma MethodEdge4(k: nat, c: char)
    requires 4 <= k <= 5
    ensures |NameWord(Method)| >= k && WordEdge(Method, k, c)
  {
    hide NameEdge, Lower;
    if k == 4 {
      LetterStep(PM_T, 'h', PM_H, c);
    } else {
      LetterStep(PM_H, 'o', PM_O, c);
    }
  }

  lemma MethodEdge6(k: nat, c: char)
    requires k == 6
    ensures |NameWord(Method)| >= k && WordEdge(Method, k, c)
  {
    hide NameEdge, Lower;
    LetterStep(PM_O, 'd', PM_D, c);
  }

  lemma MaddrEdge2(k: nat, c: char)
    requires 2 <= k <= 3
    ensures |NameWord(Maddr)| >= k && WordEdge(Maddr, k, c)
  {
    hide NameEdge, Lower;
    if k == 2 {
      LetterStep(PM_M, 'a', PMA_A, c);
    } else {
      LetterStep(PMA_A, 'd', PMA_D, c);
    }
  }

  lemma MaddrEdge4(k: nat, c: char)
    requires 4 <= k <= 5
    ensures |NameWord(Maddr)| >= k && WordEdge(Maddr, k, c)
  {
    hide NameEdge, Lower;
    if k == 4 {
      LetterStep(PMA_D, 'd', PMA_D2, c);
    } else {
      LetterStep(PMA_D2, 'r', PMA_R, c);
    }
  }

  lemma LrEdge2(k: nat, c: char)
    requires k == 2
    ensures |NameWord(Lr)| >= k && WordEdge(Lr, k, c)
  {
    hide NameEdge, Lower;
    LetterStep(PLR_L, 'r', PLR_R_FIN, c);
  }

  lemma GrEdge2(k: nat, c: char)
    requires k == 2
    ensures |NameWord(Gr)| >= k && WordEdge(Gr, k, c)
  {
    hide NameEdge, Lower;
    LetterStep(PG_G, 'r', PG_G_FIN, c);
  }

  lemma PnProviderEdge5(k: nat, c: char)
    requires 5 <= k <= 6
    ensures |NameWord(PnProvider)| >= k && WordEdge(PnProvider, k, c)
  {
    hide NameEdge, Lower;
    if k == 5 {
      LetterStep(PN_P2, 'r', PN_PR, c);
    } else {
      LetterStep(PN_PR, 'o', PN1_O, c);
    }
  }

  lemma PnProviderEdge7(k: nat, c: char)
    requires 7 <= k <= 8
    ensures |NameWord(PnProvider)| >= k && WordEdge(PnProvider, k, c)
  {
    hide NameEdge, Lower;
    if k == 7 {
      LetterStep(PN1_O, 'v', PN1_V, c);
    } else {
      LetterStep(PN1_V, 'i', PN1_I, c);
    }
  }

  lemma PnProviderEdge9(k: nat, c: char)
    requires 9 <= k <= 10
    ensures |NameWord(PnProvider)| >= k && WordEdge(PnProvider, k, c)
  {
    hide NameEdge, Lower;
    if k == 9 {
      LetterStep(PN1_I, 'd', PN1_D, c);
    } else {
      LetterStep(PN1_D, 'e', PN1_E, c);
    }
  }

  lemma PnProviderEdge11(k: nat, c: char)
    requires k == 11
    ensures |NameWord(PnProvider)| >= k && WordEdge(PnProvider, k, c)
  {
    hide NameEdge, Lower;
    LetterStep(PN1_E, 'r', PN1_FIN, c);
  }

  lemma PnPridEdge5(k: nat, c: char)
    requires 5 <= k <= 6
    ensures |NameWord(PnPrid)| >= k && WordEdge(PnPrid, k, c)
  {
    hide NameEdge, Lower;
    if k == 5 {
      LetterStep(PN_P2, 'r', PN_PR, c);
    } else {
      LetterStep(PN_PR, 'i', PN2_I, c);
    }
  }

  lemma PnPridEdge7(k: nat, c: char)
    requires k == 7
    ensures |NameWord(PnPrid)| >= k && WordEdge(PnPrid, k, c)
  {
    hide NameEdge, Lower;
    LetterStep(PN2_I, 'd', PN2_D, c);
  }

  lemma PnParamEdge5(k: nat, c: char)
    requires 5 <= k <= 6
    ensures |NameWord(PnParam)| >= k && WordEdge(PnParam, k, c)
  {
    hide NameEdge, Lower;
    if k == 5 {
      LetterStep(PN_P2, 'a', PN3_A, c);
    } else {
      LetterStep(PN3_A, 'r', PN3_R, c);
    }
  }

  lemma PnParamEdge7(k: nat, c: char)
    requires 7 <= k <= 8
    ensures |NameWord(PnParam)| >= k && WordEdge(PnParam, k, c)
  {
    hide NameEdge, Lower;
    if k == 7 {
      LetterStep(PN3_R, 'a', PN3_A2, c);
    } else {
      LetterStep(PN3_A2, 'm', PN3_M, c);
    }
  }

  lemma PnPurrEdge5(k: nat, c: char)
    requires 5 <= k <= 6
    ensures |NameWord(PnPurr)| >= k && WordEdge(PnPurr, k, c)
  {
    hide NameEdge, Lower;
    if k == 5 {
      LetterStep(PN_P2, 'u', PN4_U, c);
    } else {
      LetterStep(PN4_U, 'r', PN4_R, c);
    }
  }

  lemma PnPurrEdge7(k: nat, c: char)
    requires k == 7
    ensures |NameWord(PnPurr)| >= k && WordEdge(PnPurr, k, c)
  {
    hide NameEdge, Lower;
    LetterStep(PN4_R, 'r', PN4_R2, c);
  }

  lemma FirstLetter(name: Name, c: char)
    requires !(name.PnProvider? || name.PnPrid? || name.PnParam? || name.PnPurr?)
    ensures |NameWord(name)| > 0 && WordEdge(name, 1, c)
  {
    hide NameEdge, Lower;
    StartStep(c);
  }

  lemma LongNameEdge(name: Name, k: nat, c: char)
    requires (name.Transport? || name.Method? || name.Maddr?) && 1 < k <= |NameWord(name)|
    ensures WordEdge(name, k, c)
  {
    hide WordEdge;
    if name.Transport? {
      if k <= 3 {
        TransportEdge2(k, c);
      } else if k <= 5 {
        TransportEdge4(k, c);
      } else if k <= 7 {
        TransportEdge6(k, c);
      } else {
        TransportEdge8(k, c);
      }
    } else if name.Method? {
      if k <= 3 {
        MethodEdge2(k, c);
      } else if k <= 5 {
        MethodEdge4(k, c);
      } else {
        MethodEdge6(k, c);
      }
    } else {
      if k <= 3 {
        MaddrEdge2(k, c);
      } else {
        MaddrEdge4(k, c);
      }
    }
  }

  lemma ShortNameEdge(name: Name, k: nat, c: char)
    requires (name.Ttl? || name.UserParam? || name.Lr? || name.Gr?) && 1 < k <= |NameWord(name)|
    ensures WordEdge(name, k, c)
  {
    hide WordEdge;
    if name.Ttl? {
      TtlEdge2(k, c);
    } else if name.UserParam? {
      if k <= 3 {
        UserParamEdge2(k, c);
      } else {
        UserParamEdge4(k, c);
      }
    } else if name.Lr? {
      LrEdge2(k, c);
    } else {
      GrEdge2(k, c);
    }
  }

  lemma LatePushEdge(name: Name, k: nat, c: char)
    requires (name.PnProvider? || name.PnPrid? || name.PnParam? || name.PnPurr?) && 4 < k <= |NameWord(name)|
    ensures WordEdge(name, k, c)
  {
    hide WordEdge;
    if name.PnProvider? {
      if k <= 6 {
        PnProviderEdge5(k, c);
      } else if k <= 8 {
        PnProviderEdge7(k, c);
      } else if k <= 10 {
        PnProviderEdge9(k, c);
      } else {
        PnProviderEdge11(k, c);
      }
    } else if name.PnPrid? {
      if k <= 6 {
        PnPridEdge5(k, c);
      } else {
        PnPridEdge7(k, c);
      }
    } else if name.PnParam? {
      if k <= 6 {
        PnParamEdge5(k, c);
      } else {
        PnParamEdge7(k, c);
      }
    } else {
      if k <= 6 {
        PnPurrEdge5(k, c);
      } else {
        PnPurrEdge7(k, c);
      }
    }
  }

  lemma WordEdgeAny(name: Name, k: nat, c: char)
    requires 0 < k <= |NameWord(name)|
    ensures WordEdge(name, k, c)
  {
    hide WordEdge;
    if name.PnProvider? || name.PnPrid? || name.PnParam? || name.PnPurr? {
      if k <= 4 {
        EarlyPushEdge(name, k, c);
      } else {
        LatePushEdge(name, k, c);
      }
    } else if k == 1 {
      FirstLetter(name, c);
    } else if name.R2? {
      R2Edge(c);
    } else if name.Transport? || name.Method? || name.Maddr? {
      LongNameEdge(name, k, c);
    } else {
      ShortNameEdge(name, k, c);
    }
  }

  lemma R2Edge(c: char)
    ensures |NameWord(R2)| == 2 && WordEdge(R2, 2, c)
  {
    hide NameEdge, Lower;
    TwoStep(c);
  }

  lemma EarlyPushEdge(name: Name, k: nat, c: char)
    requires (name.PnProvider? || name.PnPrid? || name.PnParam? || name.PnPurr?) && 0 < k <= 4
    ensures |NameWord(name)| > 4 && WordEdge(name, k, c)
  {
    hide NameWord, WordState, NameEdge, Lower, PushState;
    PushBeginning(name, k);
    PushBeginning(name, k - 1);
    PushEdge(k, c);
  }

  lemma Towards1(st: State) returns (name: Name, k: nat)
    requires st.PT_T? || st.PT_R? || st.PT_A? || st.PT_N? || st.PT_S? || st.PT_P? || st.PT_O? || st.PT_R2? || st.PT_T2?
             || st.PTTL_T2? || st.PTTL_L? || st.PU_U? || st.PU_S? || st.PU_E? || st.PU_R? || st.PM_M? || st.PM_E?
    ensures 0 < k <= |NameWord(name)| && WordState(name, k) == st
  {
    name, k := Method, 2;
    match st {
      case PT_T => name, k := Transport, 1; case PT_R => name, k := Transport, 2;
      case PT_A => name, k := Transport, 3; case PT_N => name, k := Transport, 4;
      case PT_S => name, k := Transport, 5; case PT_P => name, k := Transport, 6;
      case PT_O => name, k := Transport, 7; case PT_R2 => name, k := Transport, 8;
      case PT_T2 => name, k := Transport, 9; case PTTL_T2 => name, k := Ttl, 2;
      case PTTL_L => name, k := Ttl, 3; case PU_U => name, k := Name.UserParam, 1;
      case PU_S => name, k := Name.UserParam, 2; case PU_E => name, k := Name.UserParam, 3;
      case PU_R => name, k := Name.UserParam, 4; case PM_M => name, k := Method, 1;
      case _ =>
    }
  }

  lemma Towards2(st: State) returns (name: Name, k: nat)
    requires st.PM_T? || st.PM_H? || st.PM_O? || st.PM_D? || st.PMA_A? || st.PMA_D? || st.PMA_D2? || st.PMA_R?
        || st.PLR_L?
             || st.PLR_R_FIN? || st.PR2_R? || st.PR2_2_FIN? || st.PG_G? || st.PG_G_FIN? || st.PN_P? || st.PN_N?
                 || st.PN_dash?
    ensures 0 < k <= |NameWord(name)| && WordState(name, k) == st
  {
    name, k := PnProvider, 3;
    match st {
      case PM_T => name, k := Method, 3; case PM_H => name, k := Method, 4; case PM_O => name, k := Method, 5;
      case PM_D => name, k := Method, 6; case PMA_A => name, k := Maddr, 2; case PMA_D => name, k := Maddr, 3;
      case PMA_D2 => name, k := Maddr, 4; case PMA_R => name, k := Maddr, 5; case PLR_L => name, k := Lr, 1;
      case PLR_R_FIN => name, k := Lr, 2; case PR2_R => name, k := R2, 1; case PR2_2_FIN => name, k := R2, 2;
      case PG_G => name, k := Gr, 1; case PG_G_FIN => name, k := Gr, 2; case PN_P => name, k := PnProvider, 1;
      case PN_N => name, k := PnProvider, 2;
      case _ =>
    }
  }

  lemma Towards3(st: State) returns (name: Name, k: nat)
    requires st.PN_P2? || st.PN_PR? || st.PN1_O? || st.PN1_V? || st.PN1_I? || st.PN1_D? || st.PN1_E? || st.PN1_FIN?
        || st.PN2_I?
             || st.PN2_D? || st.PN3_A? || st.PN3_R? || st.PN3_A2? || st.PN3_M? || st.PN4_U? || st.PN4_R? || st.PN4_R2?
    ensures 0 < k <= |NameWord(name)| && WordState(name, k) == st
  {
    name, k := PnPurr, 7;
    match st {
      case PN_P2 => name, k := PnProvider, 4; case PN_PR => name, k := PnProvider, 5;
      case PN1_O => name, k := PnProvider, 6; case PN1_V => name, k := PnProvider, 7;
      case PN1_I => name, k := PnProvider, 8; case PN1_D => name, k := PnProvider, 9;
      case PN1_E => name, k := PnProvider, 10; case PN1_FIN => name, k := PnProvider, 11;
      case PN2_I => name, k := PnPrid, 6; case PN2_D => name, k := PnPrid, 7;
      case PN3_A => name, k := PnParam, 5; case PN3_R => name, k := PnParam, 6;
      case PN3_A2 => name, k := PnParam, 7; case PN3_M => name, k := PnParam, 8;
      case PN4_U => name, k := PnPurr, 5; case PN4_R => name, k := PnPurr, 6;
      case _ =>
    }
  }

  lemma InNameStates(st: State)
    requires InName(st)
    ensures st.PT_T? || st.PT_R? || st.PT_A? || st.PT_N? || st.PT_S? || st.PT_P? || st.PT_O? || st.PT_R2? || st.PT_T2?
            || st.PTTL_T2? || st.PTTL_L? || st.PU_U? || st.PU_S? || st.PU_E? || st.PU_R? || st.PM_M? || st.PM_E?
            || st.PM_T? || st.PM_H? || st.PM_O? || st.PM_D? || st.PMA_A? || st.PMA_D? || st.PMA_D2? || st.PMA_R?
                || st.PLR_L?
            || st.PLR_R_FIN? || st.PR2_R? || st.PR2_2_FIN? || st.PG_G? || st.PG_G_FIN? || st.PN_P? || st.PN_N?
                || st.PN_dash?
            || st.PN_P2? || st.PN_PR? || st.PN1_O? || st.PN1_V? || st.PN1_I? || st.PN1_D? || st.PN1_E? || st.PN1_FIN?
                || st.PN2_I?
            || st.PN2_D? || st.PN3_A? || st.PN3_R? || st.PN3_A2? || st.PN3_M? || st.PN4_U? || st.PN4_R? || st.PN4_R2?
  {
  }

  /** Every state inside a name is on the way to a well-known one. */
  lemma Towards(st: State) returns (name: Name, k: nat)
    requires InName(st)
    ensures 0 < k <= |NameWord(name)| && WordState(name, k) == st
  {
    hide NameWord, WordState, Before;
    InNameStates(st);
    if st.PT_T? || st.PT_R? || st.PT_A? || st.PT_N? || st.PT_S? || st.PT_P? || st.PT_O? || st.PT_R2? || st.PT_T2?
       || st.PTTL_T2? || st.PTTL_L? || st.PU_U? || st.PU_S? || st.PU_E? || st.PU_R? || st.PM_M? || st.PM_E? {
      name, k := Towards1(st);
    } else if st.PM_T? || st.PM_H? || st.PM_O? || st.PM_D? || st.PMA_A? || st.PMA_D? || st.PMA_D2? || st.PMA_R?
        || st.PLR_L?
              || st.PLR_R_FIN? || st.PR2_R? || st.PR2_2_FIN? || st.PG_G? || st.PG_G_FIN? || st.PN_P? || st.PN_N?
                  || st.PN_dash? {
      name, k := Towards2(st);
    } else {
      name, k := Towards3(st);
    }
  }

  // ----------------------------------------------------- reading a name

  /** The parser refuses every character but '=' behind a push parameter name. */
  ghost predicate NoPushBefore(t: string) {
    forall j :: 0 <= j < |t| ==> !PushName(LowerText(t[..j]))
  }

  /** Wherever the state stands on the way to a name, this much has been read. */
  ghost predicate OnWord(t: string) {
    forall name, k: nat :: k <= |NameWord(name)| && WordState(name, k) == NameState(t) ==>
        LowerText(t) == NameWord(name)[..k]
  }

  lemma InNameClass(st: State)
    requires InName(st) || st == PARAM || st == PARAM_P
    ensures NameReading(st) || ClassOf(st).MustEqual?
  {
  }

  lemma {:induction false} NameStates(t: string)
    requires '=' !in t && NoPushBefore(t)
    ensures NameState(t) == PARAM_P || (OnWord(t) && (InName(NameState(t)) || t == ""))
    decreases |t|
  {
    hide Before, NameEdge, NameReading, NameWord, WordState;
    if t == "" {
      NothingRead();
    } else {
      var t', c := t[..|t| - 1], t[|t| - 1];
      assert forall j :: 0 <= j < |t'| ==> t'[..j] == t[..j];
      NameStates(t');
      NameGoesOn(t, t', c);
    }
  }

  lemma NothingRead()
    ensures OnWord("")
  {
    hide NameWord;
    forall name, k: nat | k <= |NameWord(name)| && WordState(name, k) == PARAM ensures k == 0 {
      if k > 0 {
        WordChain(name, k);
        RootHasNoName();
      }
    }
  }

  lemma RootHasNoName()
    ensures !InName(PARAM) && !InName(PARAM_P)
  {
  }

  lemma NameGoesOn(t: string, t': string, c: char)
    requires t == t' + [c] && c != '=' && !PushName(LowerText(t'))
    requires NameState(t') == PARAM_P || (OnWord(t') && (InName(NameState(t')) || t' == ""))
    ensures NameState(t) == PARAM_P || (OnWord(t) && InName(NameState(t)))
  {
    hide Before, CharOf, NameEdge, NameReading, NameWord, WordState, LowerText, PushName, OnWord;
    assert t[..|t| - 1] == t';
    var st, next := NameState(t'), NameState(t);
    RootHasNoName();
    ReadingOn(t');
    NameEdgeIsOnly(st, c);
    if next != PARAM_P {
      if st == PARAM_P {
        UnknownStays(c);
      }
      LongerWord(t, t', c);
    }
  }

  lemma UnknownStays(c: char)
    ensures NameEdge(PARAM_P, c) == PARAM_P
  {
  }

  lemma LongerWord(t: string, t': string, c: char)
    requires t == t' + [c] && OnWord(t') && InName(NameState(t))
    requires Before(NameState(t)) == NameState(t') && CharOf(NameState(t)) == Lower(c)
    ensures OnWord(t)
  {
    hide Before, CharOf, NameWord, WordState, NameState, InName, Lower;
    RootHasNoName();
    assert t[..|t| - 1] == t';
    assert LowerText(t) == LowerText(t') + [Lower(c)];
    forall name, k: nat | k <= |NameWord(name)| && WordState(name, k) == NameState(t)
      ensures LowerText(t) == NameWord(name)[..k]
    {
      WordStarts(name);
      if k > 0 {
        WordChain(name, k);
        assert NameWord(name)[..k] == NameWord(name)[..k - 1] + [NameWord(name)[k - 1]];
      }
    }
  }

  lemma WordStarts(name: Name)
    ensures WordState(name, 0) == PARAM
  {
  }

  lemma ReadingOn(t: string)
    requires !PushName(LowerText(t))
    requires NameState(t) == PARAM_P || (OnWord(t) && (InName(NameState(t)) || t == ""))
    ensures NameReading(NameState(t))
  {
    hide NameEdge, NameReading, NameWord, WordState, LowerText, Before;
    var st := NameState(t);
    InNameClass(st);
    if ClassOf(st).MustEqual? {
      var name, k := PushStates(st);
      assert false;
    }
  }

  /** The states behind which '=' must follow stand for the push names. */
  lemma PushStates(st: State) returns (name: Name, k: nat)
    requires ClassOf(st).MustEqual?
    ensures k <= |NameWord(name)| && WordState(name, k) == st && PushName(NameWord(name)[..k])
  {
    hide ClassOf;
    MustEqualStates(st);
    name := if st.PN2_D? then PnPrid else if st.PN3_M? then PnParam else PnPurr;
    k := |NameWord(name)|;
    assert NameWord(name)[..k] == NameWord(name);
  }

  lemma {:induction false} WordReads(t: string, name: Name, k: nat)
    requires k <= |NameWord(name)| && LowerText(t) == NameWord(name)[..k]
    ensures NameState(t) == WordState(name, k)
    decreases k
  {
    hide NameWord, WordState, NameEdge, Lower;
    WordStarts(name);
    LowerTextLength(t);
    if k > 0 {
      var t', c := t[..|t| - 1], t[|t| - 1];
      assert LowerText(t) == LowerText(t') + [Lower(c)];
      assert LowerText(t') == LowerText(t)[..k - 1] == NameWord(name)[..k - 1];
      WordReads(t', name, k - 1);
      WordEdgeAny(name, k, c);
    }
  }

  /** A text with which no well-known name begins leads to no state of one. */
  lemma OffTheWords(t: string)
    requires '=' !in t && NoPushBefore(t) && !StartsName(LowerText(t))
    ensures NameState(t) == PARAM_P
  {
    hide NameWord, WordState, NameState, LowerText, NoPushBefore, StartsName;
    NameStates(t);
    if NameState(t) != PARAM_P {
      EmptyStartsName(t);
      var name, k := Towards(NameState(t));
      StartsThis(LowerText(t), name, k);
    }
  }

  lemma StartsThis(t: string, name: Name, k: nat)
    requires k <= |NameWord(name)| && t == NameWord(name)[..k]
    ensures StartsName(t)
  {
    hide NameWord;
    assert t <= NameWord(name);
  }

  lemma EmptyStartsName(t: string)
    requires !StartsName(LowerText(t))
    ensures t != ""
  {
    assert LowerText("") <= NameWord(Lr);
  }

  // -------------------------------------------------- names in full

  predicate IsFlag(name: Name) {
    name.Lr? || name.R2? || name.Gr? || name.PnProvider?
  }

  function FullState(name: Name): State {
    WordState(name, |NameWord(name)|)
  }

  /** The state behind a well-known name and its '='. */
  function EqState(name: Name): State {
    match name
    case Transport => PT_eq
    case Ttl => PTTL_eq
    case UserParam => PU_eq
    case Method => PM_eq
    case Maddr => PMA_eq
    case Lr => PLR_eq
    case R2 => PR2_eq
    case Gr => PG_eq
    case PnProvider => PN1_eq
    case PnPrid => PN2_eq
    case PnParam => PN3_eq
    case PnPurr => PN4_eq
  }

  lemma FullClass(name: Name)
    ensures var kind := ClassOf(FullState(name));
      if IsFlag(name) then kind == Flag(name) else kind.LastLetter? || kind.MustEqual?
  {
    hide NameWord;
    FullStates(name);
  }

  lemma FullStates(name: Name)
    ensures FullState(name) ==
      match name
      case Transport => PT_T2
      case Ttl => PTTL_L
      case UserParam => PU_R
      case Method => PM_D
      case Maddr => PMA_R
      case Lr => PLR_R_FIN
      case R2 => PR2_2_FIN
      case Gr => PG_G_FIN
      case PnProvider => PN1_FIN
      case PnPrid => PN2_D
      case PnParam => PN3_M
      case PnPurr => PN4_R2
  {
  }

  lemma FullEdge(name: Name)
    ensures ExactEdge(FullState(name), '=') == EqState(name)
  {
    hide NameWord, FullState, ExactEdge;
    FullStates(name);
    FullEdges1();
    FullEdges2();
    FullEdges3();
    FullEdges4();
    FullEdges5();
    FullEdges6();
  }

  lemma FullEdges1()
    ensures ExactEdge(PT_T2, '=') == PT_eq && ExactEdge(PTTL_L, '=') == PTTL_eq
  {
  }

  lemma FullEdges2()
    ensures ExactEdge(PU_R, '=') == PU_eq && ExactEdge(PM_D, '=') == PM_eq
  {
  }

  lemma FullEdges3()
    ensures ExactEdge(PMA_R, '=') == PMA_eq && ExactEdge(PLR_R_FIN, '=') == PLR_eq
  {
  }

  lemma FullEdges4()
    ensures ExactEdge(PR2_2_FIN, '=') == PR2_eq && ExactEdge(PG_G_FIN, '=') == PG_eq
  {
  }

  lemma FullEdges5()
    ensures ExactEdge(PN1_FIN, '=') == PN1_eq && ExactEdge(PN2_D, '=') == PN2_eq
  {
  }

  lemma FullEdges6()
    ensures ExactEdge(PN3_M, '=') == PN3_eq && ExactEdge(PN4_R2, '=') == PN4_eq
  {
  }

  lemma EqClass1(name: Name)
    requires name.Transport? || name.Ttl? || name.UserParam? || name.Method? || name.Maddr? || name.Lr?
    ensures ClassOf(EqState(name)) == Equals(name)
  {
  }

  lemma EqClass2(name: Name)
    requires !(name.Transport? || name.Ttl? || name.UserParam? || name.Method? || name.Maddr? || name.Lr?)
    ensures ClassOf(EqState(name)) == Equals(name)
  {
  }

  lemma EqClass(name: Name)
    ensures ClassOf(EqState(name)) == Equals(name)
  {
    hide EqState;
    if name.Transport? || name.Ttl? || name.UserParam? || name.Method? || name.Maddr? || name.Lr? {
      EqClass1(name);
    } else {
      EqClass2(name);
    }
  }

  lemma ShortClass(name: Name, k: nat)
    requires k < |NameWord(name)|
    ensures NameReading(WordState(name, k))
  {
    hide NameReading;
    WordStarts(name);
    if k == 0 {
      RootReads();
    } else {
      WordChain(name, k);
      InNameClass(WordState(name, k));
      NotYetPush(name, k);
    }
  }

  lemma RootReads()
    ensures NameReading(PARAM)
  {
  }

  lemma NotYetPush(name: Name, k: nat)
    requires 0 < k < |NameWord(name)|
    ensures !ClassOf(WordState(name, k)).MustEqual?
  {
    hide ClassOf;
    if ClassOf(WordState(name, k)).MustEqual? {
      MustEqualStates(WordState(name, k));
    }
  }
}
