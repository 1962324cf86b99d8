/** The texts that are read as IPv6 addresses, all of them, described by their
    pieces between colons. */
module Ip6Grammar {
  import opened Decimal
  import opened Chars
  import opened IpAddr

  // ------------------------------------------------------------ the grammar

  ghost predicate HexParts(parts: seq<string>) {
    forall i :: 0 <= i < |parts| ==> AllHex(parts[i])
  }

  /** The groups; of a long group only the last four digits count. */
  function Groups(parts: seq<string>): seq<Group>
    requires HexParts(parts)
  {
    seq(|parts|, i requires 0 <= i < |parts| => HexNumber(parts[i]) % 0x1_0000)
  }

  /** Without the empty piece behind a last colon. */
  function Trim(parts: seq<string>): seq<string> {
    if parts != [] && parts[|parts| - 1] == "" then parts[..|parts| - 1] else parts
  }

  /** An empty piece between two others stands for a double colon. */
  ghost predicate DoubleAt(parts: seq<string>, g: nat) {
    0 < g < |parts| - 1 && parts[g] == ""
  }

  ghost predicate OneDouble(parts: seq<string>, g: nat) {
    DoubleAt(parts, g) && forall i :: DoubleAt(parts, i) ==> i == g
  }

  /** The address that at most eight hexadecimal pieces stand for: with one double
      colon any number of them, without one all eight. A first or last colon alone
      is overlooked, and an empty first piece is a zero. */
  ghost function ByParts(parts: seq<string>): Option<seq<Group>> {
    if |parts| > 8 || !HexParts(parts) then None
    else if exists g: nat :: OneDouble(parts, g) then
      var g: nat :| OneDouble(parts, g);
      var left, right := Groups(parts[..g]), Groups(Trim(parts[g + 1..]));
      Some(left + Zeros(8 - |left| - |right|) + right)
    else if (exists g: nat :: DoubleAt(parts, g)) || |parts| < 8 then None
    else
      var left := Groups(Trim(parts));
      Some(left + Zeros(8 - |left|))
  }

  // ------------------------------------------------------------- one piece

  /** A piece, read behind a colon or at the start. */
  lemma {:induction false} RunPart(st: Scan6, part: string)
    requires st.cur == 0 && ':' !in part
    ensures Run6(st, part) ==
            if AllHex(part) then
              Some(st.(cur := HexNumber(part) % 0x1_0000, afterColon := part == "" && st.afterColon))
            else None
    decreases |part|
  {
    hide Run6, HexNumber;
    if part == "" {
      NoDigits();
      Run6Empty(st);
    } else {
      var n := |part| - 1;
      var front, c := part[..n], part[n];
      assert part == front + [c] && c in part;
      assert forall i :: 0 <= i < n ==> front[i] == part[i] && front[i] in part;
      RunPart(st, front);
      Run6Concat(st, front, [c]);
      if AllHex(front) {
        LastDigit(st, front, c);
      } else {
        NotHexFront(part, front);
      }
    }
  }

  /** The last digit of a piece, or a character that is none. */
  lemma LastDigit(st: Scan6, front: string, c: char)
    requires st.cur == 0 && c != ':' && AllHex(front)
    ensures var part := front + [c];
      Run6(st.(cur := HexNumber(front) % 0x1_0000, afterColon := front == "" && st.afterColon), [c]) ==
      if AllHex(part) then Some(st.(cur := HexNumber(part) % 0x1_0000, afterColon := false)) else None
  {
    hide Run6, AllHex, HexNumber;
    Run6One(st.(cur := HexNumber(front) % 0x1_0000, afterColon := front == "" && st.afterColon), c);
    HexBehind(front, c);
  }

  lemma NotHexFront(part: string, front: string)
    requires |part| > 0 && front == part[..|part| - 1] && !AllHex(front)
    ensures !AllHex(part)
  {
    var i :| 0 <= i < |front| && HexValue(front[i]).None?;
    assert part[i] == front[i];
  }

  lemma HexBehind(front: string, c: char)
    requires AllHex(front)
    ensures AllHex(front + [c]) <==> HexValue(c).Some?
    ensures HexValue(c).Some? ==>
      HexNumber(front + [c]) % 0x1_0000 == (HexNumber(front) % 0x1_0000 * 16 + HexValue(c).value) % 0x1_0000
  {
    var t := front + [c];
    assert t[|front|] == c && t[..|front|] == front;
    assert forall i :: 0 <= i < |front| ==> t[i] == front[i];
    if HexValue(c).Some? {
      assert HexNumber(t) == HexNumber(front) * 16 + HexValue(c).value;
      ModStep(HexNumber(front), HexValue(c).value);
    }
  }

  lemma ModStep(x: nat, d: nat)
    ensures (x * 16 + d) % 0x1_0000 == (x % 0x1_0000 * 16 + d) % 0x1_0000
  {
    var q := x / 0x1_0000;
    assert x * 16 + d == x % 0x1_0000 * 16 + d + q * 16 * 0x1_0000;
    ModAdds(x % 0x1_0000 * 16 + d, q * 16);
  }

  lemma {:induction false} ModAdds(a: nat, k: nat)
    ensures (a + k * 0x1_0000) % 0x1_0000 == a % 0x1_0000
  {
    if k > 0 {
      ModAdds(a, k - 1);
      assert (a + (k - 1) * 0x1_0000 + 0x1_0000) % 0x1_0000 == (a + (k - 1) * 0x1_0000) % 0x1_0000;
    }
  }

  // --------------------------------------------------- pieces with colons

  /** The first double colon among the first k pieces, each followed by a colon. */
  function Gap(parts: seq<string>, k: nat): Option<nat>
    requires k <= |parts|
  {
    if k == 0 then None
    else if Gap(parts, k - 1).Some? then Gap(parts, k - 1)
    else if k > 1 && parts[k - 1] == "" then Some(k - 1)
    else None
  }

  ghost predicate Twice(parts: seq<string>, k: nat)
    requires k <= |parts|
  {
    exists i, j :: 0 < i < j < k && parts[i] == "" && parts[j] == ""
  }

  lemma {:induction false} GapIs(parts: seq<string>, k: nat)
    requires k <= |parts|
    ensures var g := Gap(parts, k);
      && (g.Some? ==> 0 < g.value < k && parts[g.value] == "")
      && (g.None? ==> forall i :: 0 < i < k ==> parts[i] != "")
    ensures forall i :: 0 < i < k && parts[i] == "" ==> Gap(parts, k) == Some(i) || Twice(parts, k)
  {
    if k > 0 {
      GapIs(parts, k - 1);
    }
    forall i | 0 < i < k && parts[i] == "" ensures Gap(parts, k) == Some(i) || Twice(parts, k) {
      var g := Gap(parts, k).value;
      if g != i {
        TwoGaps(parts, k, g, i);
      }
    }
  }

  lemma TwoGaps(parts: seq<string>, k: nat, i: nat, j: nat)
    requires 0 < i < k <= |parts| && 0 < j < k && i != j && parts[i] == "" && parts[j] == ""
    ensures Twice(parts, k)
  {
  }

  ghost predicate GoodStart(parts: seq<string>, k: nat)
    requires k <= |parts|
  {
    k <= 7 && HexParts(parts[..k]) && !Twice(parts, k)
  }

  ghost function StartState(parts: seq<string>, k: nat): Scan6
    requires k <= |parts| && HexParts(parts[..k])
  {
    var g := Gap(parts, k);
    if g.None? || g.value >= k then Scan6(k, k > 0, false, Groups(parts[..k]), [], 0)
    else
      assert forall i :: 0 <= i < k ==> AllHex(parts[..k][i]);
      Scan6(k, true, true, Groups(parts[..g.value]), Groups(parts[g.value + 1..k]), 0)
  }

  ghost predicate NoColons(parts: seq<string>) {
    forall i :: 0 <= i < |parts| ==> ':' !in parts[i]
  }

  lemma GoodBefore(parts: seq<string>, k: nat)
    requires 0 < k <= |parts|
    ensures HexParts(parts[..k]) <==> HexParts(parts[..k - 1]) && AllHex(parts[k - 1])
    ensures Twice(parts, k) <==> Twice(parts, k - 1) || (k > 1 && parts[k - 1] == "" && Gap(parts, k - 1).Some?)
  {
    assert parts[..k][k - 1] == parts[k - 1];
    assert forall i :: 0 <= i < k - 1 ==> parts[..k][i] == parts[..k - 1][i];
    GapIs(parts, k - 1);
    if Twice(parts, k) && !Twice(parts, k - 1) {
      var i, j :| 0 < i < j < k && parts[i] == "" && parts[j] == "";
      assert j == k - 1;
    }
    if k > 1 && parts[k - 1] == "" && Gap(parts, k - 1).Some? {
      assert Twice(parts, k);
    }
  }

  lemma {:induction false} RunStart(parts: seq<string>, k: nat)
    requires k <= |parts| && NoColons(parts)
    ensures Run6(START6, WithColons(parts[..k])) ==
            if GoodStart(parts, k) then Some(StartState(parts, k)) else None
  {
    hide Run6, HexNumber, Twice, HexParts, StartState;
    if k == 0 {
      Run6Empty(START6);
      StartIsStart(parts);
    } else {
      var text, part := WithColons(parts[..k - 1]), parts[k - 1];
      RunStart(parts, k - 1);
      GoodBefore(parts, k);
      ColonsBehind(parts, k);
      Run6Concat(START6, text, part + ":");
      if GoodStart(parts, k - 1) {
        var st := StartState(parts, k - 1);
        StartCur(parts, k - 1);
        RunPart(st, part);
        Run6Concat(st, part, ":");
        if AllHex(part) {
          var st1 := st.(cur := HexNumber(part) % 0x1_0000, afterColon := part == "" && st.afterColon);
          Run6One(st1, ':');
          StepToNext(parts, k, st1);
        }
      }
    }
  }

  lemma StartIsStart(parts: seq<string>)
    ensures WithColons(parts[..0]) == "" && GoodStart(parts, 0) && StartState(parts, 0) == START6
  {
  }

  lemma ColonsBehind(parts: seq<string>, k: nat)
    requires 0 < k <= |parts|
    ensures WithColons(parts[..k]) == WithColons(parts[..k - 1]) + (parts[k - 1] + ":")
  {
    assert parts[..k][..k - 1] == parts[..k - 1];
  }

  lemma StartCur(parts: seq<string>, k: nat)
    requires k <= |parts| && HexParts(parts[..k])
    ensures var st := StartState(parts, k); st.cur == 0 && st.colons == k && (st.afterColon <==> k > 0)
    ensures StartState(parts, k).gap <==> Gap(parts, k).Some?
  {
    hide HexNumber;
    GapIs(parts, k);
  }

  lemma StepToNext(parts: seq<string>, k: nat, st1: Scan6)
    requires 0 < k <= |parts| && GoodStart(parts, k - 1) && AllHex(parts[k - 1])
    requires HexParts(parts[..k]) && (Twice(parts, k) <==> k > 1 && parts[k - 1] == "" && Gap(parts, k - 1).Some?)
    requires var st := StartState(parts, k - 1);
      st1 == st.(cur := HexNumber(parts[k - 1]) % 0x1_0000, afterColon := parts[k - 1] == "" && st.afterColon)
    ensures Step6(st1, ':') == if GoodStart(parts, k) then Some(StartState(parts, k)) else None
  {
    hide HexNumber, HexParts, Twice, StartState, Groups;
    StartCur(parts, k - 1);
    if GoodStart(parts, k) {
      NextState(parts, k, st1);
    }
  }

  lemma NextState(parts: seq<string>, k: nat, st1: Scan6)
    requires 0 < k <= |parts| && k <= 7 && HexParts(parts[..k - 1]) && HexParts(parts[..k]) && AllHex(parts[k - 1])
    requires !(k > 1 && parts[k - 1] == "" && Gap(parts, k - 1).Some?)
    requires var st := StartState(parts, k - 1);
      st1 == st.(cur := HexNumber(parts[k - 1]) % 0x1_0000, afterColon := parts[k - 1] == "" && st.afterColon)
    ensures Step6(st1, ':') == Some(StartState(parts, k))
  {
    hide HexNumber;
    GapIs(parts, k - 1);
    var g := Gap(parts, k - 1);
    if g.Some? {
      GroupsBehind(parts, g.value + 1, k);
    } else if k > 1 && parts[k - 1] == "" {
      NoDigits();
      assert Groups(parts[k..k]) == [];
    } else {
      GroupsBehind(parts, 0, k);
      assert parts[0..k] == parts[..k] && parts[0..k - 1] == parts[..k - 1];
    }
  }

  lemma GroupsBehind(parts: seq<string>, i: nat, k: nat)
    requires i < k <= |parts| && HexParts(parts[..k])
    ensures HexParts(parts[i..k]) && HexParts(parts[i..k - 1]) && AllHex(parts[k - 1])
    ensures Groups(parts[i..k]) == Groups(parts[i..k - 1]) + [HexNumber(parts[k - 1]) % 0x1_0000]
  {
    hide HexNumber, AllHex;
    assert forall j :: i <= j < k ==> parts[..k][j] == parts[j] && AllHex(parts[..k][j]);
  }

  // ------------------------------------------------------------ whole texts

  /** Reading all pieces, the last of them without a colon behind it. */
  lemma RunPieces(parts: seq<string>)
    requires parts != [] && NoColons(parts)
    ensures var n := |parts| - 1; var run := Run6(START6, Joined(parts));
      if !GoodStart(parts, n) || !AllHex(parts[n]) then run == None
      else
        var st := StartState(parts, n);
        run == Some(st.(cur := HexNumber(parts[n]) % 0x1_0000, afterColon := parts[n] == "" && st.afterColon))
  {
    hide Run6, HexNumber, Twice, StartState;
    var n := |parts| - 1;
    RunStart(parts, n);
    Run6Concat(START6, WithColons(parts[..n]), parts[n]);
    if GoodStart(parts, n) {
      StartCur(parts, n);
      RunPart(StartState(parts, n), parts[n]);
    }
  }

  lemma DoublesAre(parts: seq<string>)
    requires parts != []
    ensures var n := |parts| - 1; var g := Gap(parts, n);
      && (g.None? <==> forall i :: !DoubleAt(parts, i)) && (g.None? ==> forall i :: !OneDouble(parts, i))
      && (Twice(parts, n) ==> g.Some? && forall i :: !OneDouble(parts, i))
      && (!Twice(parts, n) && g.Some? ==> OneDouble(parts, g.value) && forall i :: OneDouble(parts, i) ==> i == g.value)
  {
    var n := |parts| - 1;
    GapIs(parts, n);
    if Twice(parts, n) {
      var i, j :| 0 < i < j < n && parts[i] == "" && parts[j] == "";
      assert DoubleAt(parts, i) && DoubleAt(parts, j);
    }
    if Gap(parts, n).Some? {
      assert DoubleAt(parts, Gap(parts, n).value);
    }
  }

  lemma HexBefore(parts: seq<string>)
    requires parts != []
    ensures HexParts(parts) <==> HexParts(parts[..|parts| - 1]) && AllHex(parts[|parts| - 1])
  {
    hide AllHex;
    var n := |parts| - 1;
    assert forall i :: 0 <= i < n ==> parts[..n][i] == parts[i];
  }

  /** What the last piece makes of the groups from piece i on. */
  lemma LastGroups(parts: seq<string>, i: nat)
    requires i < |parts| && HexParts(parts)
    ensures var n := |parts| - 1;
      && HexParts(parts[i..n]) && HexParts(Trim(parts[i..])) && AllHex(parts[n])
      && Groups(Trim(parts[i..])) ==
         Groups(parts[i..n]) + if parts[n] == "" then [] else [HexNumber(parts[n]) % 0x1_0000]
  {
    hide HexNumber, AllHex;
    var n, tail := |parts| - 1, parts[i..];
    assert tail[|tail| - 1] == parts[n] && tail[..|tail| - 1] == parts[i..n];
    assert parts[..n + 1] == parts && parts[i..n + 1] == tail;
    GroupsBehind(parts, i, n + 1);
    assert Groups(parts[i..n]) + [] == Groups(parts[i..n]);
  }

  lemma ByDouble(parts: seq<string>, g: nat)
    requires |parts| <= 8 && HexParts(parts) && OneDouble(parts, g)
    ensures HexParts(parts[..g]) && HexParts(Trim(parts[g + 1..]))
    ensures |Groups(parts[..g])| == g && |Groups(Trim(parts[g + 1..]))| <= 7 - g
    ensures var left, right := Groups(parts[..g]), Groups(Trim(parts[g + 1..]));
      ByParts(parts) == Some(left + Zeros(8 - |left| - |right|) + right)
  {
    hide AllHex, HexNumber;
  }

  lemma ByNone(parts: seq<string>)
    requires |parts| <= 8 && HexParts(parts) && forall i :: !DoubleAt(parts, i)
    ensures |parts| < 8 ==> ByParts(parts) == None
    ensures |parts| == 8 ==> HexParts(Trim(parts)) && |Groups(Trim(parts))| <= 8
    ensures |parts| == 8 ==>
      var left := Groups(Trim(parts)); ByParts(parts) == Some(left + Zeros(8 - |left|))
  {
    hide AllHex, HexNumber;
  }

  lemma PiecesFinish(parts: seq<string>)
    requires parts != [] && HexParts(parts) && |parts| <= 8 && !Twice(parts, |parts| - 1)
    requires HexParts(parts[..|parts| - 1]) && AllHex(parts[|parts| - 1])
    ensures var n := |parts| - 1; var st := StartState(parts, n);
      Finish6(st.(cur := HexNumber(parts[n]) % 0x1_0000, afterColon := parts[n] == "" && st.afterColon)) ==
      ByParts(parts)
  {
    hide HexNumber, Twice, HexParts, AllHex, Groups, Trim, DoubleAt, OneDouble, Zeros, Finish6, ByParts;
    var n := |parts| - 1;
    HexBefore(parts);
    DoublesAre(parts);
    GapIs(parts, n);
    StartCur(parts, n);
    var g := Gap(parts, n);
    var st := StartState(parts, n);
    var last := st.(cur := HexNumber(parts[n]) % 0x1_0000, afterColon := parts[n] == "" && st.afterColon);
    FinishIs(last);
    if g.Some? {
      ByDouble(parts, g.value);
      LastGroups(parts, g.value + 1);
      GroupsCount(parts, g.value + 1);
      GroupsLength(parts[..g.value]);
      assert Groups(parts[g.value + 1..n]) + [] == Groups(parts[g.value + 1..n]);
    } else {
      ByNone(parts);
      LastGroups(parts, 0);
      GroupsCount(parts, 0);
      assert parts[0..] == parts && parts[0..n] == parts[..n];
      assert Groups(parts[..n]) + [] == Groups(parts[..n]);
    }
  }

  lemma GroupsLength(parts: seq<string>)
    ensures HexParts(parts) ==> |Groups(parts)| == |parts|
  {
    hide AllHex, HexNumber;
  }

  lemma GroupsCount(parts: seq<string>, i: nat)
    requires i < |parts| && HexParts(parts)
    ensures HexParts(parts[i..|parts| - 1]) && |Groups(parts[i..|parts| - 1])| == |parts| - 1 - i
  {
    hide AllHex, HexNumber;
  }

  // -------------------------------------------------------------- splitting

  lemma {:induction false} WithColonsFront(x: string, parts: seq<string>)
    ensures WithColons([x] + parts) == x + ":" + WithColons(parts)
  {
    var all := [x] + parts;
    if parts == [] {
      assert all == [x] && all[..0] == [];
      assert WithColons([]) == "";
    } else {
      var n := |parts| - 1;
      assert all[..|all| - 1] == [x] + parts[..n] && all[|all| - 1] == parts[n];
      WithColonsFront(x, parts[..n]);
      assert x + ":" + WithColons(parts[..n]) + parts[n] + ":" == x + ":" + (WithColons(parts[..n]) + parts[n] + ":");
    }
  }

  lemma JoinedFront(x: string, parts: seq<string>)
    requires parts != []
    ensures Joined([x] + parts) == x + ":" + Joined(parts)
  {
    hide WithColons;
    var all, n := [x] + parts, |parts| - 1;
    assert all[..|all| - 1] == [x] + parts[..n] && all[|all| - 1] == parts[n];
    WithColonsFront(x, parts[..n]);
  }

  lemma JoinedLonger(c: char, parts: seq<string>)
    requires parts != []
    ensures Joined([[c] + parts[0]] + parts[1..]) == [c] + Joined(parts)
  {
    hide WithColons;
    if |parts| == 1 {
      assert parts == [parts[0]] && [[c] + parts[0]] + parts[1..] == [[c] + parts[0]];
      JoinedOne(parts[0]);
      JoinedOne([c] + parts[0]);
    } else {
      assert parts == [parts[0]] + parts[1..];
      JoinedFront(parts[0], parts[1..]);
      JoinedFront([c] + parts[0], parts[1..]);
    }
  }

  lemma JoinedOne(x: string)
    ensures Joined([x]) == x
  {
    assert [x][..0] == [] && WithColons([]) == "";
  }

  lemma {:induction false} SplitJoins(t: string)
    ensures Joined(Split(t, ':')) == t && NoColons(Split(t, ':'))
  {
    hide Joined;
    if t == "" {
      JoinedOne("");
    } else {
      var parts := Split(t[1..], ':');
      SplitJoins(t[1..]);
      if t[0] == ':' {
        JoinedFront("", parts);
        assert "" + ":" + t[1..] == t;
      } else {
        JoinedLonger(t[0], parts);
        assert [t[0]] + t[1..] == t;
      }
    }
  }

  /** Exactly the texts that are read as addresses, and the address of each. */
  lemma Parse6Exactly(s: string)
    ensures Parse6(s) == if Inner(s).None? then None else ByParts(Split(Inner(s).value, ':'))
  {
    hide Run6, Finish6, HexNumber, StartState, ByParts, Split, Joined, NoColons, Twice, HexParts, Inner;
    if Inner(s).Some? {
      var parts := Split(Inner(s).value, ':');
      SplitJoins(Inner(s).value);
      RunPieces(parts);
      HexBefore(parts);
      if GoodStart(parts, |parts| - 1) && AllHex(parts[|parts| - 1]) {
        PiecesFinish(parts);
      } else {
        BadPieces(parts);
      }
    }
  }

  lemma BadPieces(parts: seq<string>)
    requires parts != [] && (!GoodStart(parts, |parts| - 1) || !AllHex(parts[|parts| - 1]))
    ensures ByParts(parts) == None
  {
    hide HexNumber, AllHex, Groups;
    HexBefore(parts);
    DoublesAre(parts);
  }

  lemma OneMore(front: string, c: char, t: string)
    requires AllHex(front) && HexValue(c).Some? && t == front + [c]
    ensures AllHex(t) && HexNumber(t) == HexNumber(front) * 16 + HexValue(c).value
  {
    HexBehind(front, c);
    assert t[..|t| - 1] == front;
  }

  lemma FiveDigits()
    ensures AllHex("") && HexNumber("") == 0 && AllHex("1") && HexNumber("1") == 1
    ensures AllHex("12345") && HexNumber("12345") == 0x1_2345
  {
    hide AllHex, HexNumber;
    NoDigits();
    OneMore("", '1', "1");
    OneMore("1", '2', "12");
    OneMore("12", '3', "123");
    OneMore("123", '4', "1234");
    OneMore("1234", '5', "12345");
  }

  /** A last colon alone is overlooked. */
  lemma LastColonAlone()
    ensures Parse6("1:1:1:1:1:1:1:") == Some([1, 1, 1, 1, 1, 1, 1, 0])
  {
    hide HexNumber, AllHex, Split, Parse6, ByParts, Zeros, Inner, Trim, Groups;
    var a := ["1", "1", "1", "1", "1", "1", "1", ""];
    SevenOnes();
    InnerDigit("1:1:1:1:1:1:1:");
    Parse6Exactly("1:1:1:1:1:1:1:");
    OnesAreHex(a);
    ByNone(a);
    TrimLast(a);
    OneZero();
    GroupsOfOnes(a[..7]);
    assert [1, 1, 1, 1, 1, 1, 1] + [0] == [1, 1, 1, 1, 1, 1, 1, 0];
  }

  lemma InnerDigit(t: string)
    requires t != "" && (t[0] == '1' || t[0] == ':')
    ensures Inner(t) == Some(t)
  {
  }

  lemma OnesAreHex(parts: seq<string>)
    requires forall i :: 0 <= i < |parts| ==> parts[i] == "1" || parts[i] == ""
    ensures HexParts(parts)
  {
    hide AllHex, HexNumber;
    FiveDigits();
  }

  lemma SevenOnes()
    ensures Split("1:1:1:1:1:1:1:", ':') == ["1", "1", "1", "1", "1", "1", "1", ""]
  {
    hide Split;
    SplitOff("1", "", "1:");
    SplitWithout("", ':');
    SplitOff("1", "1:", "1:1:");
    SplitOff("1", "1:1:", "1:1:1:");
    SplitOff("1", "1:1:1:", "1:1:1:1:");
    SplitOff("1", "1:1:1:1:", "1:1:1:1:1:");
    SplitOff("1", "1:1:1:1:1:", "1:1:1:1:1:1:");
    SplitOff("1", "1:1:1:1:1:1:", "1:1:1:1:1:1:1:");
  }

  lemma SplitOff(a: string, b: string, t: string)
    requires ':' !in a && t == a + ":" + b
    ensures Split(t, ':') == [a] + Split(b, ':')
  {
    hide Split;
    SplitAt(a, b, ':');
  }

  lemma TrimLast(parts: seq<string>)
    requires parts != [] && parts[|parts| - 1] == ""
    ensures Trim(parts) == parts[..|parts| - 1]
  {
  }

  lemma OneZero()
    ensures Zeros(1) == [0]
  {
  }

  lemma GroupsOfOnes(parts: seq<string>)
    requires parts == ["1", "1", "1", "1", "1", "1", "1"]
    ensures HexParts(parts) && Groups(parts) == [1, 1, 1, 1, 1, 1, 1]
  {
    hide HexNumber, AllHex;
    FiveDigits();
  }

  /** Of five digits the last four count. */
  lemma FiveDigitGroup()
    ensures Parse6("::12345") == Some([0, 0, 0, 0, 0, 0, 0, 0x2345])
  {
    hide HexNumber, AllHex, Split, Parse6, ByParts, Inner, Groups;
    FiveDigits();
    var b := ["", "", "12345"];
    DoubleThenFive();
    InnerDigit("::12345");
    Parse6Exactly("::12345");
    assert OneDouble(b, 1);
    ByDouble(b, 1);
    assert b[..1] == [""] && b[2..] == ["12345"] && Trim(b[2..]) == ["12345"];
    SmallGroups();
    assert [0] + Zeros(6) + [0x2345] == [0, 0, 0, 0, 0, 0, 0, 0x2345];
  }

  lemma DoubleThenFive()
    ensures Split("::12345", ':') == ["", "", "12345"]
  {
    hide Split;
    SplitWithout("12345", ':');
    SplitOff("", "12345", ":12345");
    SplitOff("", ":12345", "::12345");
  }

  lemma SmallGroups()
    ensures HexParts([""]) && Groups([""]) == [0] && HexParts(["12345"]) && Groups(["12345"]) == [0x2345]
  {
    hide HexNumber, AllHex;
    FiveDigits();
  }
}
