/** Text of IPv4 and IPv6 addresses: the printer and the two parsers. */
module IpAddr {
  import opened Decimal
  import opened Chars

  const MAX_STR_SIZE: nat := 40

  type Byte = x: int | 0 <= x < 0x100
  type Group = x: int | 0 <= x < 0x1_0000

  // --------------------------------------------------------------- IPv4

  datatype Scan4 = Scan4(done: seq<Byte>, digits: nat, cur: Byte)

  /** Dotted decimal without leading zeros. */
  function Print4(a: seq<Byte>): string
    requires |a| == 4
  {
    Digits(a[0]) + "." + Digits(a[1]) + "." + Digits(a[2]) + "." + Digits(a[3])
  }

  /** One character of an IPv4 address: `digits` of the current number are read,
      `done` holds the numbers in front of it. */
  function Step4(st: Scan4, c: char): Option<Scan4> {
    if c == '.' && st.digits > 0 then
      if |st.done| >= 3 then None else Some(Scan4(st.done + [st.cur], 0, 0))
    else if !IsDigit(c) then None
    else if st.digits == 0 then Some(st.(digits := 1, cur := DigitValue(c)))
    else if st.digits == 1 then
      if st.cur == 0 then None else Some(st.(digits := 2, cur := (10 * st.cur + DigitValue(c)) % 0x100))
    else if st.digits == 2 then
      if st.cur > 25 || (st.cur == 25 && c > '5') then None
      else Some(st.(digits := 3, cur := (10 * st.cur + DigitValue(c)) % 0x100))
    else None
  }

  function Run4(st: Scan4, s: string): Option<Scan4>
    decreases |s|
  {
    if s == "" then Some(st)
    else
      var next := Step4(st, s[0]);
      if next.None? then None else Run4(next.value, s[1..])
  }

  /** What the text denotes; a last dot stands for a last number of zero. */
  function Parse4(s: string): Option<seq<Byte>> {
    if s == "" then None
    else
      var st := Run4(Scan4([], 0, 0), s);
      if st.None? || |st.value.done| < 3 then None else Some(st.value.done + [st.value.cur])
  }

  lemma {:induction false} Run4Concat(st: Scan4, a: string, b: string)
    ensures Run4(st, a + b) == if Run4(st, a).None? then None else Run4(Run4(st, a).value, b)
    decreases |a|
  {
    if a == "" {
      assert a + b == b;
    } else {
      assert (a + b)[1..] == a[1..] + b;
      if Step4(st, a[0]).Some? {
        Run4Concat(Step4(st, a[0]).value, a[1..], b);
      }
    }
  }

  lemma Run4One(st: Scan4, c: char)
    ensures Run4(st, [c]) == Step4(st, c)
  {
    assert [c][1..] == "";
  }

  /** The decimal text of a byte has one, two or three digits. */
  lemma ByteDigits(x: Byte)
    ensures x < 10 ==> Digits(x) == [DigitChar(x)]
    ensures 10 <= x < 100 ==> Digits(x) == [DigitChar(x / 10), DigitChar(x % 10)]
    ensures 100 <= x ==> Digits(x) == [DigitChar(x / 100), DigitChar(x % 100 / 10), DigitChar(x % 10)]
  {
    if 10 <= x {
      assert Digits(x) == Digits(x / 10) + [DigitChar(x % 10)];
    }
    if 100 <= x {
      assert Digits(x / 10) == Digits(x / 10 / 10) + [DigitChar(x / 10 % 10)];
    }
  }

  lemma DigitOrder(d: nat)
    requires d < 10
    ensures DigitChar(d) > '5' <==> d > 5
    ensures DigitChar(d) != '.'
  {
  }

  lemma Run4Number(st: Scan4, x: Byte)
    requires st.digits == 0
    ensures Run4(st, Digits(x)) == Some(Scan4(st.done, |Digits(x)|, x))
  {
    hide DigitChar, Digits, DigitValue;
    ByteDigits(x);
    if x < 10 {
      DigitOrder(x);
      Run4One(st, DigitChar(x));
    } else if x < 100 {
      Run4Two(st, x);
    } else {
      Run4Three(st, x);
    }
  }

  lemma Run4Two(st: Scan4, x: Byte)
    requires st.digits == 0 && 10 <= x < 100
    ensures Run4(st, [DigitChar(x / 10), DigitChar(x % 10)]) == Some(Scan4(st.done, 2, x))
  {
    hide DigitChar;
    DigitOrder(x / 10);
    DigitOrder(x % 10);
    assert [DigitChar(x / 10), DigitChar(x % 10)][1..] == [DigitChar(x % 10)];
    var st1 := Scan4(st.done, 1, x / 10);
    assert Step4(st, DigitChar(x / 10)) == Some(st1);
    Run4One(st1, DigitChar(x % 10));
  }

  lemma Run4Three(st: Scan4, x: Byte)
    requires st.digits == 0 && 100 <= x
    ensures Run4(st, [DigitChar(x / 100), DigitChar(x % 100 / 10), DigitChar(x % 10)]) == Some(Scan4(st.done, 3, x))
  {
    hide DigitChar;
    var y := x / 10;
    assert y / 10 == x / 100 && y % 10 == x % 100 / 10;
    DigitOrder(x % 10);
    var two := [DigitChar(y / 10), DigitChar(y % 10)];
    Run4Two(st, y);
    Run4Concat(st, two, [DigitChar(x % 10)]);
    Run4One(Scan4(st.done, 2, y), DigitChar(x % 10));
    assert two + [DigitChar(x % 10)] == [DigitChar(x / 100), DigitChar(x % 100 / 10), DigitChar(x % 10)];
  }

  lemma Run4Dotted(st: Scan4, x: Byte, rest: string)
    requires st.digits == 0 && |st.done| < 3
    ensures Run4(st, Digits(x) + "." + rest) == Run4(Scan4(st.done + [x], 0, 0), rest)
  {
    hide Digits, Run4;
    Run4Number(st, x);
    Run4Concat(st, Digits(x), "." + rest);
    assert Digits(x) + "." + rest == Digits(x) + ("." + rest);
    var st1 := Scan4(st.done, |Digits(x)|, x);
    Run4Concat(st1, ".", rest);
    Run4One(st1, '.');
  }

  lemma Run4Printed(a: seq<Byte>, tail: string)
    requires |a| == 4
    ensures Run4(Scan4([], 0, 0), Digits(a[0]) + "." + Digits(a[1]) + "." + Digits(a[2]) + "." + tail)
            == Run4(Scan4(a[..3], 0, 0), tail)
  {
    hide Digits, Run4;
    var t2 := Digits(a[2]) + "." + tail;
    var t1 := Digits(a[1]) + "." + t2;
    assert Digits(a[0]) + "." + Digits(a[1]) + "." + Digits(a[2]) + "." + tail == Digits(a[0]) + "." + t1;
    Run4Dotted(Scan4([], 0, 0), a[0], t1);
    Run4Dotted(Scan4([a[0]], 0, 0), a[1], t2);
    Run4Dotted(Scan4([a[0], a[1]], 0, 0), a[2], tail);
    assert [] + [a[0]] == [a[0]] && [a[0]] + [a[1]] == [a[0], a[1]] && [a[0], a[1]] + [a[2]] == a[..3];
  }

  /** Parsing inverts printing. */
  lemma Parse4Printed(a: seq<Byte>)
    requires |a| == 4
    ensures Parse4(Print4(a)) == Some(a)
    ensures a[3] == 0 ==> Parse4(Print4(a)[..|Print4(a)| - 1]) == Some(a)
  {
    hide Run4;
    StartsWithDigit(a[0]);
    Run4Printed(a, Digits(a[3]));
    Run4Number(Scan4(a[..3], 0, 0), a[3]);
    assert a[..3] + [a[3]] == a;
    if a[3] == 0 {
      Run4Printed(a, "");
      Run4Nothing(Scan4(a[..3], 0, 0));
      assert Print4(a)[..|Print4(a)| - 1] == Digits(a[0]) + "." + Digits(a[1]) + "." + Digits(a[2]) + "." + "";
    }
  }

  lemma Run4Nothing(st: Scan4)
    ensures Run4(st, "") == Some(st)
  {
  }

  lemma {:induction false} StartsWithDigit(n: nat)
    ensures IsDigit(Digits(n)[0])
  {
  }

  /** Text of the numbers in front of the current one. */
  function Dotted(done: seq<Byte>): string {
    if done == [] then "" else Dotted(done[..|done| - 1]) + Digits(done[|done| - 1]) + "."
  }

  /** What has been read is the printed form of the state. */
  ghost predicate Reads(t: string, st: Scan4) {
    && |st.done| <= 3 && st.digits <= 3
    && (st.digits == 0 ==> st.cur == 0 && t == Dotted(st.done))
    && (st.digits > 0 ==> t == Dotted(st.done) + Digits(st.cur) && |Digits(st.cur)| == st.digits)
  }

  lemma DigitsExtended(x: nat, d: nat)
    requires 0 < x && d < 10
    ensures Digits(10 * x + d) == Digits(x) + [DigitChar(d)]
  {
    assert (10 * x + d) / 10 == x && (10 * x + d) % 10 == d;
  }

  lemma CharOfDigit(c: char)
    requires IsDigit(c)
    ensures DigitChar(DigitValue(c)) == c && (c > '5' <==> DigitValue(c) > 5)
  {
  }

  lemma Step4Reads(t: string, st: Scan4, c: char)
    requires Reads(t, st) && Step4(st, c).Some?
    ensures Reads(t + [c], Step4(st, c).value)
  {
    hide Digits, DigitChar;
    if c == '.' {
      assert (st.done + [st.cur])[..|st.done|] == st.done;
    } else {
      CharOfDigit(c);
      var d := DigitValue(c);
      if st.digits == 0 {
        OneDigit(d);
      } else if st.digits == 1 {
        DigitsExtended(st.cur, d);
        OneDigitIsSmall(st.cur);
      } else {
        TwoDigitsAreTen(st.cur);
        DigitsExtended(st.cur, d);
      }
    }
  }

  lemma OneDigit(d: nat)
    requires d < 10
    ensures Digits(d) == [DigitChar(d)]
  {
  }

  lemma OneDigitIsSmall(x: nat)
    requires |Digits(x)| == 1
    ensures x < 10
  {
  }

  lemma TwoDigitsAreTen(x: nat)
    requires |Digits(x)| == 2
    ensures 10 <= x
  {
  }

  lemma {:induction false} Run4Reads(t: string, st: Scan4, s: string)
    requires Reads(t, st) && Run4(st, s).Some?
    ensures Reads(t + s, Run4(st, s).value)
    decreases |s|
  {
    hide Step4, Reads;
    if s == "" {
      assert t + s == t;
    } else {
      Step4Reads(t, st, s[0]);
      Run4Reads(t + [s[0]], Step4(st, s[0]).value, s[1..]);
      assert t + [s[0]] + s[1..] == t + s;
    }
  }

  lemma DottedThree(done: seq<Byte>)
    requires |done| == 3
    ensures Dotted(done) == Digits(done[0]) + "." + Digits(done[1]) + "." + Digits(done[2]) + "."
  {
    hide Digits;
    assert done[..2][..1] == done[..1];
    assert Dotted(done[..1]) == Digits(done[0]) + "." by {
      assert done[..1][..0] == [];
      assert "" + Digits(done[0]) + "." == Digits(done[0]) + ".";
    }
    assert Dotted(done[..2]) == Dotted(done[..1]) + Digits(done[1]) + ".";
  }

  /** The accepted IPv4 texts are the printed addresses, and the printed
      addresses with last number zero without that zero. */
  lemma Parse4Exactly(s: string, a: seq<Byte>)
    requires |a| == 4
    ensures Parse4(s) == Some(a) <==> s == Print4(a) || (a[3] == 0 && s + "0" == Print4(a))
  {
    hide Run4, Step4, Digits;
    Parse4Printed(a);
    if a[3] == 0 && s + "0" == Print4(a) {
      assert s == Print4(a)[..|Print4(a)| - 1];
    }
    if Parse4(s) == Some(a) {
      assert Reads("", Scan4([], 0, 0));
      Run4Reads("", Scan4([], 0, 0), s);
      assert "" + s == s;
      var st := Run4(Scan4([], 0, 0), s).value;
      assert a == st.done + [st.cur] && st.done == a[..3] && st.cur == a[3];
      DottedThree(st.done);
      if st.digits == 0 {
        ZeroText();
      }
    }
  }

  lemma ZeroText()
    ensures Digits(0) == "0"
  {
  }

  // ------------------------------------------------ IPv4 in place

  /** Write the decimal text of a byte at an offset. */
  method PutByte(buf: array<char>, offset: nat, x: Byte) returns (len: nat)
    requires offset + 3 < buf.Length
    modifies buf
    ensures offset < len <= offset + 3
    ensures buf[..len] == old(buf[..offset]) + Digits(x)
  {
    ByteDigits(x);
    var a, b, c := x / 100, x % 100 / 10, x % 10;
    if a != 0 {
      buf[offset], buf[offset + 1], buf[offset + 2] := DigitChar(a), DigitChar(b), DigitChar(c);
      len := offset + 3;
    } else if b != 0 {
      buf[offset], buf[offset + 1] := DigitChar(b), DigitChar(c);
      len := offset + 2;
    } else {
      buf[offset] := DigitChar(c);
      len := offset + 1;
    }
    assert buf[..offset] == old(buf[..offset]);
  }

  /** Print an IPv4 address into the static buffer. */
  method PrintIPv4(buf: array<char>, a: seq<Byte>) returns (len: nat)
    requires buf.Length == MAX_STR_SIZE && |a| == 4
    modifies buf
    ensures len <= 15 && buf[len] == '\0' && buf[..len] == Print4(a)
  {
    hide Digits;
    var offset := 0;
    for r := 0 to 3
      invariant offset <= 4 * r && buf[..offset] == Dotted(a[..r])
    {
      assert a[..r + 1][..r] == a[..r];
      offset := PutByte(buf, offset, a[r]);
      ghost var number := buf[..offset];
      buf[offset] := '.';
      offset := offset + 1;
      assert buf[..offset] == number + ".";
    }
    DottedThree(a[..3]);
    len := PutByte(buf, offset, a[3]);
    ghost var text := buf[..len];
    buf[len] := '\0';
    assert buf[..len] == text;
  }

  /** Parse an IPv4 address with a moving position, byte index and digit count. */
  method StrToIPv4(st: string) returns (ip: Option<seq<Byte>>)
    requires st != ""
    ensures ip == Parse4(st)
  {
    hide Run4;
    if !IsDigit(st[0]) {
      NoDigitFirst(st);
      return None;
    }
    var addr := new Byte[4](_ => 0);
    addr[0] := DigitValue(st[0]);
    var s, i, j := 1, 0, 1;
    Run4Step(Scan4([], 0, 0), st, 0);
    assert st[0..] == st;
    while s < |st|
      invariant 0 < s <= |st| && 0 <= i <= 3 && 0 <= j <= 3
      invariant forall k :: i < k < 4 ==> addr[k] == 0
      invariant Run4(Scan4([], 0, 0), st) == Run4(Scan4(addr[..i], j, addr[i]), st[s..])
      invariant j == 0 ==> s == |st| && addr[i] == 0
    {
      ghost var scan := Scan4(addr[..i], j, addr[i]);
      Run4Step(scan, st, s);
      if st[s] == '.' {
        i := i + 1;
        j := 0;
        if i > 3 {
          return None;
        }
        assert addr[..i] == scan.done + [scan.cur];
        s := s + 1;
        if s == |st| {
          break;
        }
        Run4Step(Scan4(addr[..i], 0, 0), st, s);
        if IsDigit(st[s]) {
          j := 1;
          addr[i] := DigitValue(st[s]);
        } else {
          AfterDot(Scan4(addr[..i], 0, 0), st[s]);
          return None;
        }
      } else if j == 1 && IsDigit(st[s]) {
        if addr[i] == 0 {
          return None;
        }
        j := 2;
        addr[i] := (10 * addr[i] + DigitValue(st[s])) % 0x100;
      } else if j == 2 && IsDigit(st[s]) {
        if addr[i] > 25 || (addr[i] == 25 && st[s] > '5') {
          return None;
        }
        j := 3;
        addr[i] := (10 * addr[i] + DigitValue(st[s])) % 0x100;
      } else {
        return None;
      }
      assert addr[..i] == Scan4(addr[..i], j, addr[i]).done;
      s := s + 1;
    }
    Run4Nothing(Scan4(addr[..i], j, addr[i]));
    assert st[s..] == "";
    if i < 3 {
      return None;
    }
    assert addr[..3] + [addr[3]] == addr[..];
    ip := Some(addr[..]);
  }

  lemma Run4Step(scan: Scan4, st: string, s: nat)
    requires s < |st|
    ensures Run4(scan, st[s..]) == if Step4(scan, st[s]).None? then None
        else Run4(Step4(scan, st[s]).value, st[s + 1..])
  {
    assert st[s..][1..] == st[s + 1..];
  }

  lemma NoDigitFirst(st: string)
    requires st != "" && !IsDigit(st[0])
    ensures Parse4(st) == None
  {
  }

  lemma AfterDot(scan: Scan4, c: char)
    requires scan.digits == 0 && !IsDigit(c)
    ensures Step4(scan, c) == None
  {
  }

  // --------------------------------------------------------------- IPv6

  function HexDigit(x: nat): char
    requires x < 16
  {
    if x >= 10 then 'A' + (x - 10) as char else '0' + x as char
  }

  /** The shortest hexadecimal text of x. */
  function HexText(x: nat): (t: string)
    ensures t != ""
  {
    if x < 16 then [HexDigit(x)] else HexText(x / 16) + [HexDigit(x % 16)]
  }

  function Zeros(n: nat): seq<Group> {
    seq(n, _ => 0)
  }

  /** Reading an IPv6 address: the finished groups in front of and behind a
      double colon, the current group, and whether a colon came last. */
  datatype Scan6 = Scan6(colons: nat, afterColon: bool, gap: bool, left: seq<Group>, right: seq<Group>, cur: Group)

  const START6: Scan6 := Scan6(0, false, false, [], [], 0)

  function Close(st: Scan6): Scan6 {
    if st.gap then st.(right := st.right + [st.cur], cur := 0) else st.(left := st.left + [st.cur], cur := 0)
  }

  function Step6(st: Scan6, c: char): Option<Scan6> {
    if c == ':' then
      if st.colons >= 7 then None
      else if !st.afterColon then Some(Close(st).(colons := st.colons + 1, afterColon := true))
      else if st.gap then None
      else Some(st.(colons := st.colons + 1, gap := true))
    else
      var hex := HexValue(c);
      if hex.None? then None else Some(st.(cur := (st.cur * 16 + hex.value) % 0x1_0000, afterColon := false))
  }

  function Run6(st: Scan6, s: string): Option<Scan6>
    decreases |s|
  {
    if s == "" then Some(st)
    else
      var next := Step6(st, s[0]);
      if next.None? then None else Run6(next.value, s[1..])
  }

  /** The address of a finished scan. */
  function Finish6(st: Scan6): Option<seq<Group>> {
    var last := if st.afterColon then st else Close(st);
    var room := if |last.left| + |last.right| <= 8 then 8 - |last.left| - |last.right| else 0;
    if last.gap then Some(last.left + Zeros(room) + last.right)
    else if st.colons < 7 then None
    else Some(last.left + Zeros(if |last.left| <= 8 then 8 - |last.left| else 0))
  }

  /** The text without enclosing brackets; None if only the first is there. */
  function Inner(s: string): Option<string> {
    if s != "" && s[0] == '[' then if s[|s| - 1] != ']' then None else Some(s[1..|s| - 1]) else Some(s)
  }

  function Parse6(s: string): Option<seq<Group>> {
    var inner := Inner(s);
    if inner.None? then None
    else
      var st := Run6(START6, inner.value);
      if st.None? then None else Finish6(st.value)
  }

  /** While scanning, every group index stays in range, and the groups on both
      sides of a double colon leave room for at least one more. */
  ghost predicate InRange6(st: Scan6) {
    && st.colons <= 7
    && (if st.gap then |st.left| + |st.right| + 1 == st.colons else |st.left| == st.colons && st.right == [])
    && (st.afterColon ==> st.cur == 0)
    && (st.gap ==> |st.left| >= 1)
    && (st.afterColon && !st.gap ==> st.colons >= 1)
  }

  lemma Step6InRange(st: Scan6, c: char)
    requires InRange6(st) && Step6(st, c).Some?
    ensures InRange6(Step6(st, c).value)
  {
  }

  lemma {:induction false} Run6InRange(st: Scan6, s: string)
    requires InRange6(st) && Run6(st, s).Some?
    ensures InRange6(Run6(st, s).value)
    decreases |s|
  {
    hide Step6;
    if s != "" {
      Step6InRange(st, s[0]);
      Run6InRange(Step6(st, s[0]).value, s[1..]);
    }
  }

  /** Every accepted text denotes eight groups. With a double colon they are the
      groups in front of it, at least one zero, and the groups behind it. */
  lemma Parse6Shape(s: string)
    requires Parse6(s).Some?
    ensures |Parse6(s).value| == 8
    ensures var st := Run6(START6, Inner(s).value).value; var last := if st.afterColon then st else Close(st);
      && |last.left| + |last.right| <= 8
      && (last.gap ==> |last.left| + |last.right| <= 7
                       && Parse6(s).value == last.left + Zeros(8 - |last.left| - |last.right|) + last.right)
  {
    hide Run6;
    Run6InRange(START6, Inner(s).value);
  }

  lemma {:induction false} Run6Concat(st: Scan6, a: string, b: string)
    ensures Run6(st, a + b) == if Run6(st, a).None? then None else Run6(Run6(st, a).value, b)
    decreases |a|
  {
    hide Step6;
    if a == "" {
      assert a + b == b;
    } else {
      assert (a + b)[1..] == a[1..] + b;
      if Step6(st, a[0]).Some? {
        Run6Concat(Step6(st, a[0]).value, a[1..], b);
      }
    }
  }

  lemma Run6One(st: Scan6, c: char)
    ensures Run6(st, [c]) == Step6(st, c)
  {
    hide Step6;
    assert [c][1..] == "";
    if Step6(st, c).Some? {
      assert Run6(Step6(st, c).value, "") == Step6(st, c);
    }
  }

  // ----------------------------------------------- texts built from groups

  ghost predicate AllHex(t: string) {
    forall i :: 0 <= i < |t| ==> HexValue(t[i]).Some?
  }

  /** A group text: one to four hex digits. */
  ghost predicate GroupText(t: string) {
    1 <= |t| <= 4 && AllHex(t)
  }

  function HexNumber(t: string): nat
    requires AllHex(t)
  {
    if t == "" then 0 else 16 * HexNumber(t[..|t| - 1]) + HexValue(t[|t| - 1]).value
  }

  function Pow16(k: nat): nat {
    if k == 0 then 1 else 16 * Pow16(k - 1)
  }

  lemma {:induction false} HexNumberBound(t: string)
    requires AllHex(t)
    ensures HexNumber(t) < Pow16(|t|)
  {
    if t != "" {
      HexNumberBound(t[..|t| - 1]);
    }
  }

  lemma GroupBound(t: string)
    requires GroupText(t)
    ensures HexNumber(t) < 0x1_0000
  {
    HexNumberBound(t);
    assert Pow16(1) == 16 && Pow16(2) == 256 && Pow16(3) == 4096 && Pow16(4) == 65536;
  }

  lemma PrefixIsGroup(t: string)
    requires GroupText(t) && |t| > 1
    ensures GroupText(t[..|t| - 1])
  {
  }

  lemma HexIsNoColon(c: char)
    ensures HexValue(c).Some? ==> c != ':'
  {
  }

  lemma {:induction false} Run6Group(st: Scan6, t: string)
    requires GroupText(t) && st.cur == 0
    ensures HexNumber(t) < 0x1_0000 && Run6(st, t) == Some(st.(cur := HexNumber(t), afterColon := false))
    decreases |t|
  {
    hide Run6, HexValue;
    var n := |t| - 1;
    GroupBound(t);
    HexIsNoColon(t[n]);
    assert t == t[..n] + [t[n]];
    Run6Concat(st, t[..n], [t[n]]);
    if n == 0 {
      assert t[..0] == "";
      Run6Empty(st);
      Run6One(st, t[0]);
      NoDigits();
    } else {
      PrefixIsGroup(t);
      Run6Group(st, t[..n]);
      Run6One(st.(cur := HexNumber(t[..n]), afterColon := false), t[n]);
    }
  }

  lemma NoDigits()
    ensures AllHex("") && HexNumber("") == 0
  {
  }

  lemma Run6Empty(st: Scan6)
    ensures Run6(st, "") == Some(st)
  {
  }

  ghost predicate GroupTexts(parts: seq<string>) {
    forall i :: 0 <= i < |parts| ==> GroupText(parts[i])
  }

  ghost function Values(parts: seq<string>): seq<Group>
    requires GroupTexts(parts)
  {
    if parts == [] then []
    else
      GroupBound(parts[|parts| - 1]);
      Values(parts[..|parts| - 1]) + [HexNumber(parts[|parts| - 1])]
  }

  /** The groups, each followed by a colon. */
  function WithColons(parts: seq<string>): string {
    if parts == [] then "" else WithColons(parts[..|parts| - 1]) + parts[|parts| - 1] + ":"
  }

  /** The groups, separated by colons. */
  function Joined(parts: seq<string>): string {
    if parts == [] then "" else WithColons(parts[..|parts| - 1]) + parts[|parts| - 1]
  }

  /** State behind some groups that are each followed by a colon. */
  ghost function Behind(st: Scan6, parts: seq<string>): Scan6
    requires GroupTexts(parts)
  {
    if parts == [] then st
    else if st.gap then st.(colons := st.colons + |parts|, afterColon := true, right := st.right + Values(parts))
    else st.(colons := st.colons + |parts|, afterColon := true, left := st.left + Values(parts))
  }

  lemma {:induction false} Run6Groups(st: Scan6, parts: seq<string>)
    requires GroupTexts(parts) && st.cur == 0
    ensures Run6(st, WithColons(parts)) == if parts != [] && st.colons + |parts| > 7 then None
        else Some(Behind(st, parts))
    decreases |parts|
  {
    hide Run6, HexNumber;
    if parts == [] {
      Run6Empty(st);
    } else {
      var n := |parts| - 1;
      var t := parts[n];
      GroupBound(t);
      Run6Groups(st, parts[..n]);
      assert WithColons(parts) == WithColons(parts[..n]) + (t + ":");
      Run6Concat(st, WithColons(parts[..n]), t + ":");
      if n == 0 || st.colons + n <= 7 {
        var st1 := Behind(st, parts[..n]);
        Run6Group(st1, t);
        Run6Concat(st1, t, ":");
        var st2 := st1.(cur := HexNumber(t), afterColon := false);
        Run6One(st2, ':');
        if st.colons + |parts| <= 7 {
          BehindOneMore(st, parts, st2);
        }
      }
    }
  }

  lemma BehindOneMore(st: Scan6, parts: seq<string>, st2: Scan6)
    requires GroupTexts(parts) && parts != [] && st.cur == 0 && st.colons + |parts| <= 7
    requires HexNumber(parts[|parts| - 1]) < 0x1_0000
    requires st2 == Behind(st, parts[..|parts| - 1]).(cur := HexNumber(parts[|parts| - 1]), afterColon := false)
    ensures Step6(st2, ':') == Some(Behind(st, parts))
  {
    hide HexNumber, GroupText;
    var n := |parts| - 1;
    var v := Values(parts[..n]);
    assert Values(parts) == v + [st2.cur];
    assert n == 0 ==> v == [] && st.right + v == st.right && st.left + v == st.left;
    assert st.right + v + [st2.cur] == st.right + (v + [st2.cur]);
    assert st.left + v + [st2.cur] == st.left + (v + [st2.cur]);
  }

  lemma InnerPlain(t: string)
    requires t != "" && (HexValue(t[0]).Some? || t[0] == ':')
    ensures Inner(t) == Some(t)
  {
  }

  lemma InnerBracketed(t: string)
    ensures Inner("[" + t + "]") == Some(t)
  {
    var s := "[" + t + "]";
    assert s[1..|s| - 1] == t;
  }

  lemma {:induction false} ValuesLength(parts: seq<string>)
    requires GroupTexts(parts)
    ensures |Values(parts)| == |parts|
  {
    hide HexNumber, GroupText;
    if parts != [] {
      ValuesLength(parts[..|parts| - 1]);
    }
  }

  /** Groups separated by colons, read to the end. */
  lemma Run6Joined(st: Scan6, parts: seq<string>)
    requires GroupTexts(parts) && parts != [] && st.cur == 0
    ensures var v := Values(parts); var run := Run6(st, Joined(parts));
      if |parts| > 1 && st.colons + |parts| - 1 > 7 then run == None
      else run.Some? && !run.value.afterColon && run.value.gap == st.gap && run.value.colons == st.colons + |parts| - 1
           && Close(run.value) == run.value.(cur := 0, left := if st.gap then st.left else st.left + v,
                                             right := if st.gap then st.right + v else st.right)
  {
    hide Run6, HexNumber, WithColons;
    var n := |parts| - 1;
    Run6Groups(st, parts[..n]);
    Run6Concat(st, WithColons(parts[..n]), parts[n]);
    if n == 0 || st.colons + n <= 7 {
      var st1 := Behind(st, parts[..n]);
      Run6Group(st1, parts[n]);
      var v := Values(parts[..n]);
      assert Values(parts) == v + [HexNumber(parts[n])];
      if n == 0 {
        assert v == [] && st.left + v == st.left && st.right + v == st.right;
      }
      assert st.left + v + [HexNumber(parts[n])] == st.left + Values(parts);
      assert st.right + v + [HexNumber(parts[n])] == st.right + Values(parts);
    }
  }

  /** The full form of section 2.2 of RFC 4291: eight groups. */
  lemma Parse6Full(parts: seq<string>)
    requires |parts| == 8 && GroupTexts(parts)
    ensures Parse6(Joined(parts)) == Some(Values(parts))
    ensures Parse6("[" + Joined(parts) + "]") == Some(Values(parts))
  {
    hide Run6, HexNumber, WithColons, Values, HexValue;
    Run6Joined(START6, parts);
    ValuesLength(parts);
    assert [] + Values(parts) == Values(parts) && Values(parts) + Zeros(0) == Values(parts);
    JoinedStart(parts);
    InnerPlain(Joined(parts));
    InnerBracketed(Joined(parts));
  }

  lemma {:induction false} WithColonsStart(parts: seq<string>)
    requires GroupTexts(parts) && parts != []
    ensures WithColons(parts) != "" && HexValue(WithColons(parts)[0]).Some?
  {
    hide HexValue;
    if |parts| > 1 {
      WithColonsStart(parts[..|parts| - 1]);
    } else {
      assert parts[..0] == [] && HexValue(parts[0][0]).Some?;
    }
  }

  lemma JoinedStart(parts: seq<string>)
    requires GroupTexts(parts) && parts != []
    ensures Joined(parts) != "" && HexValue(Joined(parts)[0]).Some?
  {
    hide WithColons, HexValue;
    if |parts| > 1 {
      WithColonsStart(parts[..|parts| - 1]);
    } else {
      assert WithColons(parts[..0]) == "" && HexValue(parts[0][0]).Some? by {
        NoGroups();
        assert parts[..0] == [];
      }
    }
  }

  lemma NoGroups()
    ensures WithColons([]) == ""
  {
  }

  /** The state behind a double colon that ends these groups. */
  ghost function AtGap(front: seq<string>): Scan6
    requires GroupTexts(front)
  {
    if front == [] then Scan6(2, true, true, [0], [], 0)
    else Scan6(|front| + 1, true, true, Values(front), [], 0)
  }

  lemma Run6ToGap(front: seq<string>)
    requires GroupTexts(front) && |front| <= 7
    ensures Run6(START6, Joined(front) + "::") == if |front| == 7 then None else Some(AtGap(front))
  {
    hide Run6, HexNumber, WithColons, Values;
    if front == [] {
      assert Joined(front) + "::" == ":" + ":";
      var none: seq<Group> := [];
      assert none + [0] == [0];
      assert Step6(START6, ':') == Some(Scan6(1, true, false, [0], [], 0));
      Run6Concat(START6, ":", ":");
      Run6One(START6, ':');
      Run6One(Scan6(1, true, false, [0], [], 0), ':');
    } else {
      ColonBehind(front);
      assert Joined(front) + "::" == WithColons(front) + ":";
      Run6Groups(START6, front);
      Run6Concat(START6, WithColons(front), ":");
      assert [] + Values(front) == Values(front);
      Run6One(Behind(START6, front), ':');
    }
  }

  lemma ColonBehind(front: seq<string>)
    requires front != []
    ensures WithColons(front) == Joined(front) + ":"
  {
  }

  /** The compressed form of section 2.2 of RFC 4291: groups in front of and
      behind a double colon, at least one group left out. The parser accepts all
      of them but those that leave out exactly one group at an end: they have
      eight colons. */
  lemma Parse6Compressed(front: seq<string>, back: seq<string>)
    requires GroupTexts(front) && GroupTexts(back) && |front| + |back| <= 7
    ensures Parse6(Joined(front) + "::" + Joined(back)) ==
            if (|front| == 7 && back == []) || (front == [] && |back| == 7) then None
            else Some(Values(front) + Zeros(8 - |front| - |back|) + Values(back))
  {
    hide Run6, HexNumber, WithColons, Values, Joined, HexValue;
    var head := Joined(front) + "::";
    ValuesLength(front);
    ValuesLength(back);
    Run6ToGap(front);
    Run6Concat(START6, head, Joined(back));
    CompressedStart(front, Joined(back));
    if |front| < 7 {
      GapFinishes(front, back);
    }
  }

  lemma CompressedStart(front: seq<string>, back: string)
    requires GroupTexts(front)
    ensures Inner(Joined(front) + "::" + back) == Some(Joined(front) + "::" + back)
  {
    hide HexValue, Inner;
    var t := Joined(front) + "::" + back;
    if front != [] {
      JoinedStart(front);
    }
    InnerPlain(t);
  }

  lemma GapFinishes(front: seq<string>, back: seq<string>)
    requires GroupTexts(front) && GroupTexts(back) && |front| + |back| <= 7 && |front| < 7
    ensures |Values(front)| == |front|
    ensures var run := Run6(AtGap(front), Joined(back));
      if front == [] && |back| == 7 then run == None
      else run.Some? && Finish6(run.value) == Some(Values(front) + Zeros(8 - |front| - |back|) + Values(back))
  {
    hide Run6, HexNumber, WithColons, Values, Finish6, Close, Zeros, Joined;
    var st := AtGap(front);
    ValuesLength(front);
    ValuesLength(back);
    NoValues();
    if back == [] {
      NothingJoined();
      Run6Empty(st);
      FinishIs(st);
    } else {
      Run6Joined(st, back);
      assert [] + Values(back) == Values(back);
      var run := Run6(st, Joined(back));
      if run.Some? {
        FinishIs(run.value);
      }
    }
    if front == [] && |back| < 7 {
      ZeroMore(7 - |back|);
      assert [] + Zeros(8 - |back|) == Zeros(8 - |back|);
    }
  }

  lemma NothingJoined()
    ensures Joined([]) == ""
  {
  }

  lemma ZeroMore(n: nat)
    ensures [0] + Zeros(n) == Zeros(n + 1)
  {
  }

  lemma NoValues()
    ensures GroupTexts([]) && Values([]) == []
  {
  }

  // ------------------------------------------------------ printed addresses

  function Print6(a: seq<Group>): string
    requires |a| == 8
  {
    Joined(Texts(a))
  }

  function Texts(a: seq<Group>): (parts: seq<string>)
    ensures |parts| == |a|
  {
    seq(|a|, i requires 0 <= i < |a| => HexText(a[i]))
  }

  lemma HexDigitValue(x: nat)
    requires x < 16
    ensures HexValue(HexDigit(x)) == Some(x)
  {
  }

  lemma {:induction false} HexTextFacts(x: nat, k: nat)
    requires x < Pow16(k) && k > 0
    ensures |HexText(x)| <= k && AllHex(HexText(x)) && HexNumber(HexText(x)) == x
  {
    hide HexDigit, HexValue;
    HexDigitValue(x % 16);
    if x < 16 {
      HexDigitValue(x);
      assert [HexDigit(x)][..0] == "";
    } else {
      assert k > 1 by {
        assert Pow16(1) == 16;
      }
      HexTextFacts(x / 16, k - 1);
      var t := HexText(x);
      assert t[..|t| - 1] == HexText(x / 16);
    }
  }

  lemma GroupTextFacts(x: Group)
    ensures GroupText(HexText(x)) && HexNumber(HexText(x)) == x
  {
    assert Pow16(1) == 16 && Pow16(2) == 256 && Pow16(3) == 4096 && Pow16(4) == 65536;
    HexTextFacts(x, 4);
  }

  lemma {:induction false} ValuesOfTexts(a: seq<Group>)
    ensures GroupTexts(Texts(a)) && Values(Texts(a)) == a
  {
    hide HexText, HexNumber, GroupText;
    forall i | 0 <= i < |a| ensures GroupText(Texts(a)[i]) {
      GroupTextFacts(a[i]);
    }
    if a != [] {
      var n := |a| - 1;
      ValuesOfTexts(a[..n]);
      assert Texts(a)[..n] == Texts(a[..n]);
      GroupTextFacts(a[n]);
      assert a == a[..n] + [a[n]];
    }
  }

  /** Parsing inverts printing, with or without brackets. */
  lemma Parse6Printed(a: seq<Group>)
    requires |a| == 8
    ensures Parse6(Print6(a)) == Some(a) && Parse6("[" + Print6(a) + "]") == Some(a)
  {
    hide *;
    ValuesOfTexts(a);
    EightTexts(a);
    Parse6Full(Texts(a));
  }

  lemma EightTexts(a: seq<Group>)
    requires |a| == 8
    ensures Print6(a) == Joined(Texts(a)) && |Texts(a)| == 8
  {
  }

  // ------------------------------------------------------------ IPv6 in place

  lemma HexOfNibbles(x: Group)
    ensures x < 0x10 ==> HexText(x) == [HexDigit(x % 16)]
    ensures 0x10 <= x < 0x100 ==> HexText(x) == [HexDigit(x / 16 % 16), HexDigit(x % 16)]
    ensures 0x100 <= x < 0x1000 ==> HexText(x) == [HexDigit(x / 256 % 16), HexDigit(x / 16 % 16), HexDigit(x % 16)]
    ensures 0x1000 <= x ==>
      HexText(x) == [HexDigit(x / 4096), HexDigit(x / 256 % 16), HexDigit(x / 16 % 16), HexDigit(x % 16)]
  {
    hide HexDigit;
    var y := x / 16;
    var z := y / 16;
    assert z == x / 256 && z / 16 == x / 4096;
    if 0x10 <= x {
      assert HexText(x) == HexText(y) + [HexDigit(x % 16)];
    }
    if 0x100 <= x {
      assert HexText(y) == HexText(z) + [HexDigit(y % 16)];
    }
    if 0x1000 <= x {
      assert HexText(z) == HexText(z / 16) + [HexDigit(z % 16)];
    }
  }

  /** Write the hexadecimal text of a group at an offset. */
  method PutGroup(buf: array<char>, offset: nat, x: Group) returns (len: nat)
    requires offset + 4 < buf.Length
    modifies buf
    ensures offset < len <= offset + 4
    ensures buf[..len] == old(buf[..offset]) + HexText(x)
  {
    hide HexText, HexDigit;
    HexOfNibbles(x);
    var a, b, c, d := x / 4096, x / 256 % 16, x / 16 % 16, x % 16;
    if a != 0 {
      buf[offset], buf[offset + 1], buf[offset + 2], buf[offset + 3] := HexDigit(a), HexDigit(b), HexDigit(c),
          HexDigit(d);
      len := offset + 4;
    } else if b != 0 {
      buf[offset], buf[offset + 1], buf[offset + 2] := HexDigit(b), HexDigit(c), HexDigit(d);
      len := offset + 3;
    } else if c != 0 {
      buf[offset], buf[offset + 1] := HexDigit(c), HexDigit(d);
      len := offset + 2;
    } else {
      buf[offset] := HexDigit(d);
      len := offset + 1;
    }
    assert buf[..offset] == old(buf[..offset]);
  }

  /** Print an IPv6 address into the static buffer: the text and its terminator
      always fit. */
  method PrintIPv6(buf: array<char>, a: seq<Group>) returns (len: nat)
    requires buf.Length == MAX_STR_SIZE && |a| == 8
    modifies buf
    ensures len < MAX_STR_SIZE && buf[len] == '\0' && buf[..len] == Print6(a)
  {
    hide HexText, WithColons;
    var offset := 0;
    ColonsSoFar(a, 0);
    for r := 0 to 7
      invariant offset <= 5 * r && buf[..offset] == WithColons(Texts(a)[..r])
    {
      offset := PutGroup(buf, offset, a[r]);
      ghost var text := buf[..offset];
      buf[offset] := ':';
      offset := offset + 1;
      assert buf[..offset] == text + ":";
      ColonsSoFar(a, r + 1);
    }
    len := PutGroup(buf, offset, a[7]);
    ghost var text := buf[..len];
    buf[len] := '\0';
    assert buf[..len] == text;
    assert Texts(a)[..|Texts(a)| - 1] == Texts(a)[..7];
  }

  lemma ColonsSoFar(a: seq<Group>, r: nat)
    requires r <= |a|
    ensures WithColons(Texts(a)[..r]) == if r == 0 then "" else WithColons(Texts(a)[..r - 1]) + HexText(a[r - 1]) + ":"
  {
    hide HexText;
    if r > 0 {
      assert Texts(a)[..r][..r - 1] == Texts(a)[..r - 1];
    }
  }

  /** The arrays of the parser hold the groups of a scan state. */
  ghost predicate Holds(start: seq<Group>, end: seq<Group>, i: nat, idx1: nat, scan: Scan6) {
    && |start| == 8 && |end| == 8 && i < 8 && idx1 < 8
    && (if scan.gap then
          && i == |scan.right| && idx1 == |scan.left|
          && start[..idx1] == scan.left && (forall k :: idx1 <= k < 8 ==> start[k] == 0)
          && end[..i] == scan.right && end[i] == scan.cur && (forall k :: i < k < 8 ==> end[k] == 0)
        else
          && i == |scan.left|
          && start[..i] == scan.left && start[i] == scan.cur && (forall k :: i < k < 8 ==> start[k] == 0)
          && (forall k :: 0 <= k < 8 ==> end[k] == 0))
  }

  lemma Run6Step(scan: Scan6, st: string, s: nat)
    requires s < |st|
    ensures Run6(scan, st[s..]) == if Step6(scan, st[s]).None? then None
        else Run6(Step6(scan, st[s]).value, st[s + 1..])
  {
    hide Step6;
    assert st[s..][1..] == st[s + 1..];
  }

  /** Scan the text into two group arrays, one for each side of a double colon.
      No index leaves the arrays. */
  method ScanGroups(inner: string, addrStart: array<Group>, addrEnd: array<Group>)
    returns (ok: bool, i: nat, idx1: nat, colons: nat, doubleColon: bool, atEnd: bool)
    requires addrStart.Length == 8 && addrEnd.Length == 8 && addrStart != addrEnd
    requires forall k :: 0 <= k < 8 ==> addrStart[k] == 0 && addrEnd[k] == 0
    modifies addrStart, addrEnd
    ensures ok <==> Run6(START6, inner).Some?
    ensures ok ==> var scan := Run6(START6, inner).value;
      && InRange6(scan) && Holds(addrStart[..], addrEnd[..], i, idx1, scan)
      && colons == scan.colons && doubleColon == scan.afterColon && atEnd == scan.gap
  {
    hide Run6, HexValue;
    i, idx1, colons := 0, 0, 0;
    doubleColon, atEnd := false, false;
    ghost var scan := START6;
    assert inner[0..] == inner;
    for s := 0 to |inner|
      invariant Holds(addrStart[..], addrEnd[..], i, idx1, scan) && InRange6(scan)
      invariant colons == scan.colons && doubleColon == scan.afterColon && atEnd == scan.gap
      invariant Run6(START6, inner) == Run6(scan, inner[s..])
    {
      Run6Step(scan, inner, s);
      if inner[s] == ':' {
        colons := colons + 1;
        if colons > 7 {
          return false, i, idx1, colons, doubleColon, atEnd;
        }
        if doubleColon {
          idx1 := i;
          i := 0;
          if atEnd {
            return false, i, idx1, colons, doubleColon, atEnd;
          }
          atEnd := true;
        } else {
          doubleColon := true;
          i := i + 1;
        }
      } else {
        var hex := HexValue(inner[s]);
        if hex.None? {
          return false, i, idx1, colons, doubleColon, atEnd;
        }
        if atEnd {
          addrEnd[i] := (addrEnd[i] * 16 + hex.value) % 0x1_0000;
        } else {
          addrStart[i] := (addrStart[i] * 16 + hex.value) % 0x1_0000;
        }
        doubleColon := false;
      }
      Step6InRange(scan, inner[s]);
      scan := Step6(scan, inner[s]).value;
    }
    assert inner[|inner|..] == "";
    Run6Empty(scan);
    ok := true;
  }

  /** Copy the groups behind a double colon to the end of the address: only
      zeros stay in between. */
  method CopyTail(addrStart: array<Group>, addrEnd: array<Group>, idx1: nat, i: nat)
    requires addrStart.Length == 8 && addrEnd.Length == 8 && addrStart != addrEnd && idx1 + i <= 7
    requires forall k :: idx1 <= k < 8 ==> addrStart[k] == 0
    modifies addrStart
    ensures addrStart[..] == old(addrStart[..idx1]) + Zeros(8 - i - idx1) + addrEnd[..i]
  {
    var rest := 8 - i - idx1;
    ghost var front := addrStart[..idx1] + Zeros(rest);
    assert addrStart[..idx1 + rest] == front;
    for k := 0 to i
      invariant addrStart[..idx1 + rest + k] == front + addrEnd[..k]
    {
      addrStart[idx1 + rest + k] := addrEnd[k];
      assert addrStart[..idx1 + rest + k] == front + addrEnd[..k];
    }
    assert addrStart[..] == addrStart[..8];
  }

  /** What the arrays hold when the last group is closed. */
  lemma HeldGroups(start: seq<Group>, end: seq<Group>, i: nat, idx1: nat, scan: Scan6)
    requires InRange6(scan) && Holds(start, end, i, idx1, scan)
    ensures var last := if scan.afterColon then scan else Close(scan); var n := if scan.afterColon then i else i + 1;
      && n <= 8
      && (scan.gap ==> idx1 + n <= 7 && start[..idx1] == last.left && end[..n] == last.right)
      && (!scan.gap ==> start == last.left + Zeros(8 - n) && |last.left| == n)
  {
    if !scan.afterColon {
      if scan.gap {
        assert end[..i + 1] == end[..i] + [end[i]];
      } else {
        assert start[..i + 1] == start[..i] + [start[i]];
        assert start == start[..i + 1] + start[i + 1..];
      }
    } else if !scan.gap {
      assert start == start[..i] + start[i..];
    }
  }

  /** Parse an IPv6 address, with or without brackets. */
  method StrToIPv6(st: string) returns (ip: Option<seq<Group>>)
    ensures ip == Parse6(st)
  {
    hide Run6, Holds, InRange6, Finish6, Close, Zeros;
    var inner := st;
    if st != "" && st[0] == '[' {
      if st[|st| - 1] != ']' {
        return None;
      }
      inner := st[1..|st| - 1];
    }
    var addrStart, addrEnd := new Group[8](_ => 0), new Group[8](_ => 0);
    var ok, i, idx1, colons, doubleColon, atEnd := ScanGroups(inner, addrStart, addrEnd);
    if !ok {
      return None;
    }
    ghost var scan := Run6(START6, inner).value;
    if atEnd {
      GapIsZero(addrStart[..], addrEnd[..], i, idx1, scan);
    }
    HeldGroups(addrStart[..], addrEnd[..], i, idx1, scan);
    FinishIs(scan);
    if !doubleColon {
      i := i + 1;
    }
    if atEnd {
      CopyTail(addrStart, addrEnd, idx1, i);
    } else if colons < 7 {
      return None;
    }
    ip := Some(addrStart[..]);
  }

  lemma FinishIs(scan: Scan6)
    ensures var last := if scan.afterColon then scan else Close(scan);
      && (scan.gap && |last.left| + |last.right| <= 8 ==>
            Finish6(scan) == Some(last.left + Zeros(8 - |last.left| - |last.right|) + last.right))
      && (!scan.gap && |last.left| <= 8 ==>
            Finish6(scan) == if scan.colons < 7 then None else Some(last.left + Zeros(8 - |last.left|)))
  {
  }

  lemma GapIsZero(start: seq<Group>, end: seq<Group>, i: nat, idx1: nat, scan: Scan6)
    requires Holds(start, end, i, idx1, scan) && scan.gap
    ensures forall k :: idx1 <= k < 8 ==> start[k] == 0
  {
  }

  lemma WithColonsStep(t: seq<string>, k: nat)
    requires k < |t|
    ensures t[..0] == [] && WithColons(t[..k + 1]) == WithColons(t[..k]) + t[k] + ":"
  {
    assert t[..k + 1][..k] == t[..k];
  }

  /** The groups of an address in capital digits without leading zeros, with a colon
      between any two. */
  lemma PrintedForm(g: seq<Group>)
    requires |g| == 8
    ensures Print6(g) == HexText(g[0]) + ":" + HexText(g[1]) + ":" + HexText(g[2]) + ":" + HexText(g[3]) + ":"
                         + HexText(g[4]) + ":" + HexText(g[5]) + ":" + HexText(g[6]) + ":" + HexText(g[7])
  {
    hide HexText;
    var t := Texts(g);
    FirstFour(t);
    hide WithColons;
    WithColonsStep(t, 4);
    WithColonsStep(t, 5);
    WithColonsStep(t, 6);
  }

  lemma FirstFour(t: seq<string>)
    requires |t| == 8
    ensures WithColons(t[..4]) == t[0] + ":" + t[1] + ":" + t[2] + ":" + t[3] + ":"
  {
    WithColonsStep(t, 0);
    WithColonsStep(t, 1);
    WithColonsStep(t, 2);
    WithColonsStep(t, 3);
    assert WithColons([]) == "" && "" + t[0] + ":" == t[0] + ":";
    hide WithColons;
  }

  lemma HexExamples()
    ensures HexText(0) == "0" && HexText(0x1234) == "1234" && HexText(0x5678) == "5678"
    ensures HexText(0x9abc) == "9ABC" && HexText(0xdef) == "DEF"
  {
  }
}
