/** Reading a ten-digit phone number from text with punctuation. */
module PhoneNumber {
  import opened PhoneRows
  import opened Decimal

  const MAX_TEXT: nat := 30

  predicate IsTrimmed(c: char) {
    c == ' ' || c == '\n' || c == '\r' || c == '\t'
  }

  /** The characters dropped from a number; the search for them also hits NUL. */
  predicate IsPunctuation(c: char) {
    c == ' ' || c == '-' || c == '(' || c == ')' || c == '\0'
  }

  function TrimFront(s: string): string {
    if s != "" && IsTrimmed(s[0]) then TrimFront(s[1..]) else s
  }

  function TrimBack(s: string): string {
    if s != "" && IsTrimmed(s[|s| - 1]) then TrimBack(s[..|s| - 1]) else s
  }

  function Strip(s: string): string {
    if s == "" then "" else (if IsPunctuation(s[0]) then "" else [s[0]]) + Strip(s[1..])
  }

  /** Without the country code, if its length says that there is one. */
  function Local(s: string): string {
    if |s| == 12 && "+1" <= s then s[2..] else if |s| == 11 && "1" <= s then s[1..] else s
  }

  function FromString(s: string): U64 {
    var t := TrimBack(TrimFront(s));
    if |t| > MAX_TEXT then NONE
    else
      var digits := Local(Strip(t));
      if |digits| != 10 then NONE
      else
        var n := ParseU64(digits);
        if n.None? then NONE else n.value
  }

  /** s is t with punctuation inserted anywhere. */
  ghost predicate Punctuated(s: string, t: string)
    decreases |s|
  {
    if s == "" then t == ""
    else (IsPunctuation(s[0]) && Punctuated(s[1..], t)) || (t != "" && s[0] == t[0] && Punctuated(s[1..], t[1..]))
  }

  ghost predicate Clean(t: string) {
    forall i :: 0 <= i < |t| ==> !IsPunctuation(t[i]) && !IsTrimmed(t[i])
  }

  lemma {:induction false} StripPunctuated(s: string, t: string)
    requires Punctuated(s, t) && Clean(t)
    ensures Strip(s) == t
    decreases |s|
  {
    if s != "" {
      if t != "" && s[0] == t[0] && Punctuated(s[1..], t[1..]) {
        StripPunctuated(s[1..], t[1..]);
        assert t == [t[0]] + t[1..];
      } else {
        StripPunctuated(s[1..], t);
        assert "" + Strip(s[1..]) == Strip(s[1..]);
      }
    }
  }

  lemma {:induction false} TrimFrontKeeps(s: string, t: string)
    requires Punctuated(s, t) && Clean(t)
    ensures Punctuated(TrimFront(s), t) && |TrimFront(s)| <= |s|
    decreases |s|
  {
    if s != "" && IsTrimmed(s[0]) {
      TrimFrontKeeps(s[1..], t);
    }
  }

  lemma {:induction false} DropLastPunctuation(s: string, t: string)
    requires s != "" && Punctuated(s, t) && Clean(t) && IsTrimmed(s[|s| - 1])
    ensures Punctuated(s[..|s| - 1], t)
    decreases |s|
  {
    var u := s[..|s| - 1];
    if u == "" {
      assert s[1..] == "";
    } else {
      assert u[1..] == s[1..][..|s[1..]| - 1] && s[1..][|s[1..]| - 1] == s[|s| - 1];
      if t != "" && s[0] == t[0] && Punctuated(s[1..], t[1..]) {
        DropLastPunctuation(s[1..], t[1..]);
      } else {
        DropLastPunctuation(s[1..], t);
      }
    }
  }

  lemma {:induction false} TrimBackKeeps(s: string, t: string)
    requires Punctuated(s, t) && Clean(t)
    ensures Punctuated(TrimBack(s), t) && |TrimBack(s)| <= |s|
  {
    if s != "" && IsTrimmed(s[|s| - 1]) {
      DropLastPunctuation(s, t);
      TrimBackKeeps(s[..|s| - 1], t);
    }
  }

  /** Ten digits, alone or behind "1" or "+1", with punctuation inserted
      anywhere, in at most 30 characters, give their number. */
  lemma PunctuatedNumberIsRead(s: string, country: string, d: string)
    requires |s| <= MAX_TEXT && |d| == 10 && AllDigits(d)
    requires country == "" || country == "1" || country == "+1"
    requires Punctuated(s, country + d)
    ensures FromString(s) == Value(d)
  {
    hide ParseU64, Value;
    var t := country + d;
    TrimFrontKeeps(s, t);
    TrimBackKeeps(TrimFront(s), t);
    StripPunctuated(TrimBack(TrimFront(s)), t);
    assert Local(t) == d;
    ParseTenDigits(d);
  }

  // --------------------------------------------------- exactly which texts

  /** The text without the white space around it. */
  function Trimmed(s: string): string {
    TrimBack(TrimFront(s))
  }

  ghost predicate AllTrimmed(s: string) {
    forall i :: 0 <= i < |s| ==> s[i] in " \t\r\n"
  }

  /** Trimming takes all white space from both ends and nothing else. */
  lemma TrimmedExactly(s: string) returns (front: string, back: string)
    ensures s == front + Trimmed(s) + back && AllTrimmed(front) && AllTrimmed(back)
    ensures var t := Trimmed(s); t != "" ==> t[0] !in " \t\r\n" && t[|t| - 1] !in " \t\r\n"
  {
    front := TrimFrontExactly(s);
    back := TrimBackExactly(TrimFront(s));
    assert Trimmed(s) != "" ==> Trimmed(s)[0] == TrimFront(s)[0];
    assert front + (Trimmed(s) + back) == front + Trimmed(s) + back;
  }

  lemma {:induction false} TrimFrontExactly(s: string) returns (front: string)
    ensures s == front + TrimFront(s) && AllTrimmed(front)
    ensures TrimFront(s) != "" ==> TrimFront(s)[0] !in " \t\r\n"
  {
    front := "";
    if s != "" && IsTrimmed(s[0]) {
      var rest := TrimFrontExactly(s[1..]);
      front := [s[0]] + rest;
      assert s == [s[0]] + s[1..] == front + TrimFront(s);
    }
  }

  lemma {:induction false} TrimBackExactly(s: string) returns (back: string)
    ensures s == TrimBack(s) + back && AllTrimmed(back)
    ensures TrimBack(s) != "" ==> TrimBack(s)[|TrimBack(s)| - 1] !in " \t\r\n"
  {
    back := "";
    if s != "" && IsTrimmed(s[|s| - 1]) {
      var u, c := s[..|s| - 1], s[|s| - 1];
      var rest := TrimBackExactly(u);
      back := rest + [c];
      assert s == u + [c];
      assert TrimBack(u) + rest + [c] == TrimBack(u) + back;
    }
  }

  /** t has at most 30 characters and, save for punctuation, is a country code and
      ten further characters that read as a number. */
  ghost predicate NumberText(t: string, country: string, d: string) {
    && |t| <= 30 && (country == "" || country == "1" || country == "+1")
    && Punctuated(t, country + d)
    && |d| == 10 && (forall i :: 0 <= i < 10 ==> d[i] !in " -()\0") && ParseU64(d).Some?
  }

  lemma {:induction false} StripExactly(s: string, t: string)
    ensures Strip(s) == t <==> Punctuated(s, t) && forall i :: 0 <= i < |t| ==> t[i] !in " -()\0"
    decreases |s|
  {
    if s != "" {
      if IsPunctuation(s[0]) {
        StripExactly(s[1..], t);
        assert "" + Strip(s[1..]) == Strip(s[1..]);
      } else if t != "" {
        StripExactly(s[1..], t[1..]);
        assert t == [t[0]] + t[1..];
        assert Strip(s) == [s[0]] + Strip(s[1..]);
        assert Strip(s)[1..] == Strip(s[1..]);
      }
    }
  }

  /** A text is read exactly if, save for the white space around it, it is a
      number's text; the number is that of the ten characters. */
  lemma FromStringExactly(s: string)
    ensures FromString(s) != NONE <==> exists country, d :: NumberText(Trimmed(s), country, d)
    ensures forall country, d :: NumberText(Trimmed(s), country, d) ==> FromString(s) == ParseU64(d).value
  {
    hide ParseU64, TrimBack, TrimFront, Strip, Punctuated;
    var t := Trimmed(s);
    forall country, d | NumberText(t, country, d) ensures FromString(s) == ParseU64(d).value != NONE {
      StripExactly(t, country + d);
      assert Local(country + d) == d;
      ParsedTenBound(d);
    }
    if FromString(s) != NONE {
      StripExactly(t, Strip(t));
      var d := Local(Strip(t));
      var country := Strip(t)[..|Strip(t)| - 10];
      assert Strip(t) == country + d;
      assert NumberText(t, country, d);
    }
  }

  /** Any other count of digits is refused, eleven save for those behind a "1". */
  lemma WrongCountRefused(s: string, d: string)
    requires Punctuated(s, d) && AllDigits(d)
    requires |d| != 10 && !(|d| == 11 && d[0] == '1')
    ensures FromString(s) == NONE
  {
    TrimFrontKeeps(s, d);
    TrimBackKeeps(TrimFront(s), d);
    StripPunctuated(Trimmed(s), d);
  }

  // ------------------------------------------------------------ the range

  lemma ParseTenDigits(d: string)
    requires |d| == 10 && AllDigits(d)
    ensures ParseU64(d) == Some(Value(d)) && Value(d) < Pow10(10) == 10_000_000_000
  {
    ValueBound(d);
    assert Pow10(10) == 10_000_000_000;
    assert Surrounds(d, "", d, "");
    ParseSurrounded(d, "", d, "");
  }

  lemma ParsedTenBound(t: string)
    requires |t| == 10 && ParseU64(t).Some?
    ensures ParseU64(t).value < 10_000_000_000
  {
    var pre, digits, post := ParsedIsSurrounded(t);
    ValueBound(digits);
    PowerBound(|digits|);
  }

  lemma {:induction false} PowerBound(k: nat)
    requires k <= 10
    ensures Pow10(k) <= 10_000_000_000
  {
    assert Pow10(1) == 10 && Pow10(2) == 100 && Pow10(3) == 1000 && Pow10(4) == 10000 && Pow10(5) == 100000
        && Pow10(6) == 1000000 && Pow10(7) == 10000000 && Pow10(8) == 100000000 && Pow10(9) == 1000000000
        && Pow10(10) == 10000000000;
  }

  /** Every number read from any text fits the packed phone field. */
  lemma NumbersFit(s: string)
    ensures FromString(s) == NONE || FromString(s) < 10_000_000_000 < U34_LIMIT
  {
    hide ParseU64, Strip, TrimFront, TrimBack;
    var digits := Local(Strip(TrimBack(TrimFront(s))));
    if |digits| == 10 && ParseU64(digits).Some? {
      ParsedTenBound(digits);
    }
  }
}
