/** The one-pass SIP URI parser: a character-driven machine that may discover at
    an '@' that everything it took for host, parameters and headers was the user
    part, and then starts over behind it. */
module UriParser {
  import opened Decimal
  import opened Chars

  // ------------------------------------------------------------- results

  /** A piece of the buffer. Offset 0 stands for the null pointer: no piece
      starts there, because a scheme comes first. */
  datatype Span = Span(s: int, len: int)

  const NO_SPAN: Span := Span(0, 0)

  datatype Kind = Sip | Sips | Tel | UrnService | UrnNenaService

  datatype Proto = NoProto | Udp | Tcp | Tls | Sctp | Ws | Wss | OtherProto

  datatype Name = Transport | Ttl | UserParam | Method | Maddr | Lr | R2 | Gr | PnProvider | PnPrid | PnParam | PnPurr

  datatype Uri = Uri(
    kind: Kind,
    user: Span, passwd: Span, host: Span, port: Span, params: Span, headers: Span,
    portNo: nat, proto: Proto,
    names: map<Name, Span>, vals: map<Name, Span>,
    unknown: seq<(Span, Span)>)

  const MAX_U_PARAMS: nat := 10

  function Zero(kind: Kind): Uri {
    Uri(kind, NO_SPAN, NO_SPAN, NO_SPAN, NO_SPAN, NO_SPAN, NO_SPAN, 0, NoProto, map[], map[], [])
  }

  // -------------------------------------------------------------- states

  datatype State =
    | INIT | USER | PASSWORD | PASSWORD_ALPHA | HOST | HOST_P | HOST6_P | HOST6_END | PORT
    | PARAM | PARAM_P | PARAM_VAL_P | VAL_P | HEADERS
    | PT_T | PT_R | PT_A | PT_N | PT_S | PT_P | PT_O | PT_R2 | PT_T2 | PT_eq
    | PTTL_T2 | PTTL_L | PTTL_eq
    | PU_U | PU_S | PU_E | PU_R | PU_eq
    | PM_M | PM_E | PM_T | PM_H | PM_O | PM_D | PM_eq
    | PMA_A | PMA_D | PMA_D2 | PMA_R | PMA_eq
    | PLR_L | PLR_R_FIN | PLR_eq
    | PG_G | PG_G_FIN | PG_eq
    | PR2_R | PR2_2_FIN | PR2_eq
    | VU_U | VU_D | VU_P_FIN
    | VT_T | VT_C | VT_P_FIN
    | VTLS_L | VTLS_S_FIN
    | VS_S | VS_C | VS_T | VS_P_FIN
    | VW_W | VW_S | VW_S_FIN | VWS_S_FIN
    | PN_P | PN_N | PN_dash | PN_P2 | PN_PR
    | PN1_O | PN1_V | PN1_I | PN1_D | PN1_E | PN1_FIN | PN1_eq
    | PN2_I | PN2_D | PN2_eq
    | PN3_A | PN3_R | PN3_A2 | PN3_M | PN3_eq
    | PN4_U | PN4_R | PN4_R2 | PN4_eq

  /** How a parameter state treats a character. */
  datatype Class =
    | Start                      // first character of a parameter
    | Letter                     // inside a well-known name, more letters expected
    | LastLetter                 // a well-known name that needs '=' (or another exact character)
    | MustEqual                  // pn-prid, pn-param, pn-purr: anything but '=' is an error
    | Flag(name: Name)           // a complete name that may stand without value
    | Equals(name: Name)         // first character of a well-known parameter's value
    | Unknown                    // inside an unknown name
    | UnknownValue               // inside an unknown parameter's value
    | ValueText                  // inside a well-known parameter's value
    | ProtoValue(proto: Proto)   // a complete transport value
    | HeaderText
    | NotParam

  function ClassOf(st: State): Class {
    match st
    case PARAM => Start
    case PARAM_P => Unknown
    case PARAM_VAL_P => UnknownValue
    case VAL_P => ValueText
    case HEADERS => HeaderText
    case PT_T => Letter case PT_R => Letter case PT_A => Letter case PT_N => Letter case PT_S => Letter
    case PT_P => Letter case PT_O => Letter case PT_R2 => Letter case PT_T2 => LastLetter
    case PT_eq => Equals(Transport)
    case PTTL_T2 => Letter case PTTL_L => LastLetter case PTTL_eq => Equals(Ttl)
    case PU_U => Letter case PU_S => Letter case PU_E => Letter case PU_R => LastLetter case PU_eq => Equals(UserParam)
    case PM_M => Letter case PM_E => Letter case PM_T => Letter case PM_H => Letter case PM_O => Letter
    case PM_D => LastLetter case PM_eq => Equals(Method)
    case PMA_A => Letter case PMA_D => Letter case PMA_D2 => Letter case PMA_R => LastLetter
    case PMA_eq => Equals(Maddr)
    case PLR_L => Letter case PLR_R_FIN => Flag(Lr) case PLR_eq => Equals(Lr)
    case PG_G => Letter case PG_G_FIN => Flag(Gr) case PG_eq => Equals(Gr)
    case PR2_R => LastLetter case PR2_2_FIN => Flag(R2) case PR2_eq => Equals(R2)
    case VU_U => ValueText case VU_D => ValueText case VU_P_FIN => ProtoValue(Udp)
    case VT_T => ValueText case VT_C => ValueText case VT_P_FIN => ProtoValue(Tcp)
    case VTLS_L => ValueText case VTLS_S_FIN => ProtoValue(Tls)
    case VS_S => ValueText case VS_C => ValueText case VS_T => ValueText case VS_P_FIN => ProtoValue(Sctp)
    case VW_W => ValueText case VW_S => ProtoValue(Ws) case VW_S_FIN => ProtoValue(Ws) case VWS_S_FIN => ProtoValue(Wss)
    case PN_P => Letter case PN_N => LastLetter case PN_dash => Letter case PN_P2 => Letter case PN_PR => Letter
    case PN1_O => Letter case PN1_V => Letter case PN1_I => Letter case PN1_D => Letter case PN1_E => Letter
    case PN1_FIN => Flag(PnProvider) case PN1_eq => Equals(PnProvider)
    case PN2_I => Letter case PN2_D => MustEqual case PN2_eq => Equals(PnPrid)
    case PN3_A => Letter case PN3_R => Letter case PN3_A2 => Letter case PN3_M => MustEqual
    case PN3_eq => Equals(PnParam)
    case PN4_U => Letter case PN4_R => Letter case PN4_R2 => MustEqual case PN4_eq => Equals(PnPurr)
    case _ => NotParam
  }

  /** Next state on a lower-cased character inside a well-known name. */
  function LetterEdge(st: State, c: char): State {
    match st
    case PT_T => if c == 'r' then PT_R else if c == 't' then PTTL_T2 else PARAM_P
    case PT_R => if c == 'a' then PT_A else PARAM_P
    case PT_A => if c == 'n' then PT_N else PARAM_P
    case PT_N => if c == 's' then PT_S else PARAM_P
    case PT_S => if c == 'p' then PT_P else PARAM_P
    case PT_P => if c == 'o' then PT_O else PARAM_P
    case PT_O => if c == 'r' then PT_R2 else PARAM_P
    case PT_R2 => if c == 't' then PT_T2 else PARAM_P
    case PTTL_T2 => if c == 'l' then PTTL_L else PARAM_P
    case PU_U => if c == 's' then PU_S else PARAM_P
    case PU_S => if c == 'e' then PU_E else PARAM_P
    case PU_E => if c == 'r' then PU_R else PARAM_P
    case PM_M => if c == 'e' then PM_E else if c == 'a' then PMA_A else PARAM_P
    case PM_E => if c == 't' then PM_T else PARAM_P
    case PM_T => if c == 'h' then PM_H else PARAM_P
    case PM_H => if c == 'o' then PM_O else PARAM_P
    case PM_O => if c == 'd' then PM_D else PARAM_P
    case PMA_A => if c == 'd' then PMA_D else PARAM_P
    case PMA_D => if c == 'd' then PMA_D2 else PARAM_P
    case PMA_D2 => if c == 'r' then PMA_R else PARAM_P
    case PLR_L => if c == 'r' then PLR_R_FIN else PARAM_P
    case PG_G => if c == 'r' then PG_G_FIN else PARAM_P
    case PN_P => if c == 'n' then PN_N else PARAM_P
    case PN_dash => if c == 'p' then PN_P2 else PARAM_P
    case PN_P2 => if c == 'r' then PN_PR else if c == 'a' then PN3_A else if c == 'u' then PN4_U else PARAM_P
    case PN_PR => if c == 'o' then PN1_O else if c == 'i' then PN2_I else PARAM_P
    case PN1_O => if c == 'v' then PN1_V else PARAM_P
    case PN1_V => if c == 'i' then PN1_I else PARAM_P
    case PN1_I => if c == 'd' then PN1_D else PARAM_P
    case PN1_D => if c == 'e' then PN1_E else PARAM_P
    case PN1_E => if c == 'r' then PN1_FIN else PARAM_P
    case PN2_I => if c == 'd' then PN2_D else PARAM_P
    case PN3_A => if c == 'r' then PN3_R else PARAM_P
    case PN3_R => if c == 'a' then PN3_A2 else PARAM_P
    case PN3_A2 => if c == 'm' then PN3_M else PARAM_P
    case PN4_U => if c == 'r' then PN4_R else PARAM_P
    case PN4_R => if c == 'r' then PN4_R2 else PARAM_P
    case _ => PARAM_P
  }

  /** Next state where one exact character is expected. */
  function ExactEdge(st: State, c: char): State {
    match st
    case PT_T2 => if c == '=' then PT_eq else PARAM_P
    case PTTL_L => if c == '=' then PTTL_eq else PARAM_P
    case PU_R => if c == '=' then PU_eq else PARAM_P
    case PM_D => if c == '=' then PM_eq else PARAM_P
    case PMA_R => if c == '=' then PMA_eq else PARAM_P
    case PR2_R => if c == '2' then PR2_2_FIN else PARAM_P
    case PN_N => if c == '-' then PN_dash else PARAM_P
    case PLR_R_FIN => if c == '=' then PLR_eq else PARAM_P
    case PR2_2_FIN => if c == '=' then PR2_eq else PARAM_P
    case PG_G_FIN => if c == '=' then PG_eq else PARAM_P
    case PN1_FIN => if c == '=' then PN1_eq else PARAM_P
    case PN2_D => PN2_eq
    case PN3_M => PN3_eq
    case PN4_R2 => PN4_eq
    case _ => PARAM_P
  }

  function StartEdge(c: char): State {
    match c
    case 't' => PT_T
    case 'u' => PU_U
    case 'm' => PM_M
    case 'l' => PLR_L
    case 'g' => PG_G
    case 'r' => PR2_R
    case 'p' => PN_P
    case _ => PARAM_P
  }

  /** Next state on a lower-cased character inside a value. */
  function ValueEdge(st: State, c: char): State {
    match st
    case VU_U => if c == 'd' then VU_D else VAL_P
    case VU_D => if c == 'p' then VU_P_FIN else VAL_P
    case VT_T => if c == 'c' then VT_C else if c == 'l' then VTLS_L else VAL_P
    case VT_C => if c == 'p' then VT_P_FIN else VAL_P
    case VTLS_L => if c == 's' then VTLS_S_FIN else VAL_P
    case VS_S => if c == 'c' then VS_C else VAL_P
    case VS_C => if c == 't' then VS_T else VAL_P
    case VS_T => if c == 'p' then VS_P_FIN else VAL_P
    case VW_W => if c == 's' then VW_S else VAL_P
    case VW_S => if c == 's' then VWS_S_FIN else VAL_P
    case PT_eq => if c == 'u' then VU_U else if c == 't' then VT_T else if c == 's' then VS_S
        else if c == 'w' then VW_W else VAL_P
    case _ => VAL_P
  }

  // -------------------------------------------------------------- machine

  /** s: start of the current piece; b and v: start of the current parameter and
      of its value; pass: position of a ':' that may separate a password, 0 if
      none; portNo: the digits read so far. */
  datatype Machine = Machine(
    state: State, s: int, b: int, v: int, pass: int,
    foundUser: bool, errorHeaders: bool, portNo: nat,
    param: Option<Name>, uri: Uri)

  /** Record an unknown parameter that ends at p. */
  function RecordUnknown(m: Machine, p: int): Uri {
    if |m.uri.unknown| >= MAX_U_PARAMS then m.uri
    else if m.v > m.b then
      m.uri.(unknown := m.uri.unknown + [(Span(m.b, m.v - m.b - 1), if p > m.v then Span(m.v, p - m.v) else NO_SPAN)])
    else m.uri.(unknown := m.uri.unknown + [(Span(m.b, p - m.b), NO_SPAN)])
  }

  /** Record the current well-known parameter and its value. */
  function RecordValue(m: Machine, p: int): Uri {
    if m.param.None? then m.uri
    else m.uri.(names := m.uri.names[m.param.value := Span(m.b, p - m.b)],
                vals := m.uri.vals[m.param.value := Span(m.v, p - m.v)])
  }

  /** What a ';' or '?' at p records. */
  function Recorded(m: Machine, p: int): Uri {
    match ClassOf(m.state)
    case Letter => RecordUnknown(m, p)
    case Unknown => RecordUnknown(m, p)
    case UnknownValue => RecordUnknown(m, p)
    case ValueText => RecordValue(m, p)
    case ProtoValue(proto) => RecordValue(m, p).(proto := proto)
    case Flag(name) => m.uri.(names := m.uri.names[name := Span(m.b, p - m.b)])
    case _ => m.uri
  }

  /** An '@' behind what looked like a host: it was all user (and password). */
  function StillAtUser(m: Machine, p: int): Option<Machine> {
    if m.foundUser then None
    else
      var start := m.uri.host.s;
      var clean := Zero(m.uri.kind);
      var uri := if m.pass != 0
                 then clean.(user := Span(start, m.pass - start), passwd := Span(m.pass + 1, p - m.pass - 1))
                 else clean.(user := Span(start, p - start));
      Some(m.(uri := uri, s := p + 1, foundUser := true, errorHeaders := false, state := HOST))
  }

  /** A parameter or header separator rules out that a ':' started a password. */
  function DropPassword(m: Machine): Machine {
    if m.pass != 0 then m.(foundUser := true, pass := 0) else m
  }

  /** A ':' may start a password as long as the user is not known. */
  function Colon(m: Machine, p: int): Machine {
    if m.foundUser then m
    else if m.pass != 0 then m.(foundUser := true, pass := 0)
    else m.(pass := p)
  }

  predicate Separator(c: char) {
    c == '@' || c == ';' || c == '?' || c == ':'
  }

  /** '@', ';', '?' and ':' mean the same in all parameter states. */
  function StepSeparator(m: Machine, c: char, p: int): Option<Machine>
    requires Separator(c)
  {
    if c == '@' then StillAtUser(m, p)
    else if c == ';' then Some(DropPassword(m.(uri := Recorded(m, p), state := PARAM)))
    else if c == '?' then
      Some(DropPassword(m.(uri := Recorded(m, p).(params := Span(m.s, p - m.s)), state := HEADERS, s := p + 1)))
    else
      var isValue := ClassOf(m.state).ValueText? || ClassOf(m.state).ProtoValue?;
      Some(Colon(m, p).(state := if isValue then VAL_P else PARAM_P))
  }

  /** Entering the value of a well-known parameter makes it the current one. */
  function SelectParam(m: Machine): Machine {
    match ClassOf(m.state)
    case Equals(name) =>
      if name.Transport? then m.(param := Some(name), uri := m.uri.(proto := OtherProto)) else m.(param := Some(name))
    case Flag(name) => if name.PnProvider? then m.(param := Some(name)) else m
    case _ => m
  }

  /** A character that is no separator, in a parameter state. */
  function StepText(m: Machine, c: char, p: int): Option<Machine> {
    match ClassOf(m.state)
    case Start => Some(m.(b := p, state := StartEdge(Lower(c))))
    case Letter => Some(m.(state := LetterEdge(m.state, Lower(c))))
    case LastLetter => Some(m.(state := ExactEdge(m.state, c)))
    case Flag(_) => Some(m.(state := ExactEdge(m.state, c)))
    case MustEqual => if c == '=' then Some(m.(state := ExactEdge(m.state, c))) else None
    case Equals(_) => Some(m.(v := p, state := ValueEdge(m.state, Lower(c))))
    case Unknown => if c == '=' then Some(m.(v := p + 1, state := PARAM_VAL_P)) else Some(m)
    case UnknownValue => Some(m)
    case ValueText => Some(m.(state := ValueEdge(m.state, Lower(c))))
    case ProtoValue(_) => Some(m.(state := ValueEdge(m.state, Lower(c))))
    case _ => None
  }

  function StepParam(m0: Machine, c: char, p: int): Option<Machine> {
    var m := SelectParam(m0);
    if Separator(c) && !ClassOf(m.state).MustEqual? then StepSeparator(m, c, p) else StepText(m, c, p)
  }

  function StepHeaders(m: Machine, c: char, p: int): Option<Machine> {
    if c == '@' then StillAtUser(m, p)
    else if c == ';' then
      if m.foundUser || m.pass != 0 then None else Some(m.(errorHeaders := true))
    else if c == ':' then Some(Colon(m, p))
    else if c == '?' then Some(DropPassword(m))
    else Some(m)
  }

  /** The end of a host: port, parameters or headers follow. */
  function EndHost(m: Machine, c: char, p: int): Option<Machine> {
    var uri := m.uri.(host := Span(m.s, p - m.s));
    if c == ':' then Some(m.(uri := uri, state := PORT, s := p + 1))
    else if c == ';' then Some(m.(uri := uri, state := PARAM, s := p + 1))
    else if c == '?' then Some(m.(uri := uri, state := HEADERS, s := p + 1))
    else None
  }

  function StepUser(m: Machine, c: char, p: int): Option<Machine> {
    match m.state
    case INIT =>
      if c == '[' then Some(m.(state := HOST6_P, s := p))
      else if c == ']' || c == ':' || c == '@' then None
      else Some(m.(state := USER))
    case USER =>
      if c == '@' then Some(m.(uri := m.uri.(user := Span(m.s, p - m.s)), state := HOST, foundUser := true, s := p + 1))
      else if c == ':' then Some(m.(uri := m.uri.(user := Span(m.s, p - m.s)), state := PASSWORD, s := p + 1))
      else if c == ';' || c == '?' then EndHost(m, c, p)
      else if c == '[' || c == ']' then None
      else Some(m)
    case PASSWORD =>
      if c == '@' then
        Some(m.(uri := m.uri.(passwd := Span(m.s, p - m.s)), portNo := 0, state := HOST, foundUser := true, s := p + 1))
      else if c == ';' || c == '?' then
        Some(m.(uri := m.uri.(port := Span(m.s, p - m.s), portNo := m.portNo % 0x1_0000,
                              host := m.uri.user, user := NO_SPAN),
                state := if c == ';' then PARAM else HEADERS, foundUser := true, s := p + 1))
      else if IsDigit(c) then Some(m.(portNo := 10 * m.portNo + DigitValue(c)))
      else if c == '[' || c == ']' || c == ':' then None
      else Some(m.(portNo := 0, state := PASSWORD_ALPHA))
    case PASSWORD_ALPHA =>
      if c == '@' then
        Some(m.(uri := m.uri.(passwd := Span(m.s, p - m.s)), state := HOST, foundUser := true, s := p + 1))
      else if c in ";?[]:" then None
      else Some(m)
    case _ => None
  }

  function StepHost(m: Machine, c: char, p: int): Option<Machine> {
    match m.state
    case HOST =>
      if c == '[' then Some(m.(state := HOST6_P))
      else if c in ":;?&@" then None
      else Some(m.(state := HOST_P))
    case HOST_P => if c in ":;?&@" then EndHost(m, c, p) else Some(m)
    case HOST6_P =>
      if c == ']' then Some(m.(state := HOST6_END))
      else if c in "[&@;?" then None
      else Some(m)
    case HOST6_END => if c in ":;?" then EndHost(m, c, p) else None
    case PORT =>
      if c == ';' || c == '?' then
        Some(m.(uri := m.uri.(port := Span(m.s, p - m.s), portNo := m.portNo % 0x1_0000),
                state := if c == ';' then PARAM else HEADERS, s := p + 1))
      else if IsDigit(c) then Some(m.(portNo := 10 * m.portNo + DigitValue(c)))
      else None
    case _ => None
  }

  function Step(m: Machine, c: char, p: int): Option<Machine> {
    if m.state.INIT? || m.state.USER? || m.state.PASSWORD? || m.state.PASSWORD_ALPHA? then StepUser(m, c, p)
    else if ClassOf(m.state).NotParam? then StepHost(m, c, p)
    else if m.state.HEADERS? then StepHeaders(m, c, p)
    else StepParam(m, c, p)
  }

  /** What the end of the text at p means in each state. */
  function Finish(m: Machine, p: int): Option<Uri> {
    match m.state
    case INIT => None
    case USER => if m.foundUser then None else Some(m.uri.(host := Span(m.s, p - m.s)))
    case PASSWORD =>
      if m.foundUser then None
      else Some(m.uri.(port := Span(m.s, p - m.s), portNo := m.portNo % 0x1_0000, host := m.uri.user, user := NO_SPAN))
    case PASSWORD_ALPHA => None
    case HOST => None
    case HOST6_P => None
    case HOST_P => Some(m.uri.(host := Span(m.s, p - m.s)))
    case HOST6_END => Some(m.uri.(host := Span(m.s, p - m.s)))
    case PORT => Some(m.uri.(port := Span(m.s, p - m.s), portNo := m.portNo % 0x1_0000))
    case HEADERS => if m.errorHeaders then None else Some(m.uri.(headers := Span(m.s, p - m.s)))
    case PMA_A => None   // the end of an incomplete maddr parameter has no case of its own
    case PMA_D => None
    case PMA_D2 => None
    case PMA_R => None
    case PMA_eq => None
    case _ => FinishParam(m, p)
  }

  function FinishParam(m: Machine, p: int): Option<Uri> {
    var params := Span(m.s, p - m.s);
    match ClassOf(m.state)
    case Start => Some(RecordUnknown(m, p).(params := params))
    case Unknown => Some(RecordUnknown(m, p).(params := params))
    case UnknownValue => Some(RecordUnknown(m, p).(params := params))
    case MustEqual => None
    case ValueText => Some(RecordValue(m, p).(params := params))
    case ProtoValue(proto) => Some(RecordValue(m, p).(params := params, proto := proto))
    case Flag(name) => Some(m.uri.(params := params, names := m.uri.names[name := Span(m.b, p - m.b)]))
    case Equals(name) =>
      if name in {PnPrid, PnParam, PnPurr} then None
      else if name in {Lr, R2, Gr, PnProvider} then
          Some(m.uri.(params := params, names := m.uri.names[name := Span(m.b, p - m.b)]))
      else Some(m.uri.(params := params))
    case _ => Some(m.uri.(params := params))
  }

  // ---------------------------------------------------------- whole parse

  /** A byte with bit 0x20 set. */
  function Or20(c: char): char {
    if c as int < 128 && c as int / 32 % 2 == 0 then (c as int + 32) as char else c
  }

  predicate SchemeIs(buf: string, scheme: string) {
    |scheme| == 4 <= |buf| && forall i :: 0 <= i < 4 ==> Or20(buf[i]) == scheme[i]
  }

  /** Scheme and start of the rest of the text. */
  function Scheme(buf: string): Option<(Kind, nat)> {
    if |buf| < 5 then None
    else if SchemeIs(buf, "sip:") then Some((Sip, 4))
    else if SchemeIs(buf, "sips") then if buf[4] == ':' then Some((Sips, 5)) else None
    else if SchemeIs(buf, "tel:") then Some((Tel, 4))
    else if SchemeIs(buf, "urn:") then
      if ":service:" <= buf[3..] then Some((UrnService, 12))
      else if ":nena:service:" <= buf[3..] then Some((UrnNenaService, 17))
      else None
    else None
  }

  function InitMachine(kind: Kind, start: nat): Machine {
    Machine(INIT, start, 0, 0, 0, false, false, 0, None, Zero(kind))
  }

  /** Feed the characters from p to the end. */
  function RunFrom(m: Machine, buf: string, p: nat): Option<Machine>
    decreases |buf| - p
  {
    if p >= |buf| then Some(m)
    else
      var next := Step(m, buf[p], p);
      if next.None? then None else RunFrom(next.value, buf, p + 1)
  }

  /** A tel: number is the user; an emergency URN has neither user nor host. */
  function FixKind(uri: Uri): Uri {
    match uri.kind
    case Tel => uri.(user := uri.host, host := NO_SPAN)
    case UrnNenaService => uri.(user := NO_SPAN, host := NO_SPAN)
    case _ => uri
  }

  function ParseFrom(kind: Kind, buf: string, start: nat): Option<Uri> {
    var m := RunFrom(InitMachine(kind, start), buf, start);
    if m.None? then None
    else
      var uri := Finish(m.value, |buf|);
      if uri.None? then None else Some(FixKind(uri.value))
  }

  function Parsed(buf: string): Option<Uri> {
    var scheme := Scheme(buf);
    if scheme.None? then None else ParseFrom(scheme.value.0, buf, scheme.value.1)
  }

  method ParseUri(buf: string) returns (uri: Option<Uri>)
    ensures uri == Parsed(buf)
  {
    hide Step, Finish;
    var scheme := Scheme(buf);
    if scheme.None? {
      return None;
    }
    var (kind, start) := scheme.value;
    var m := InitMachine(kind, start);
    var p: nat := start;
    while p < |buf|
      invariant RunFrom(m, buf, p) == RunFrom(InitMachine(kind, start), buf, start)
    {
      var next := Step(m, buf[p], p);
      if next.None? {
        return None;
      }
      m := next.value;
      p := p + 1;
    }
    assert RunFrom(m, buf, p) == Some(m);
    var done := Finish(m, |buf|);
    if done.None? {
      return None;
    }
    uri := Some(FixKind(done.value));
  }
}
