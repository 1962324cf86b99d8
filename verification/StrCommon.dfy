/** Percent escaping of SIP user and parameter parts (section 25.1 of RFC 3261)
    and backslash escaping of arbitrary bytes. */
module StrCommon {
  import opened Decimal
  import opened Chars

  // ------------------------------------------------------------ alphabets

  datatype Part = User | Param

  predicate IsAlnum(c: char) {
    '0' <= c <= '9' || 'a' <= c <= 'z' || 'A' <= c <= 'Z'
  }

  predicate IsMark(c: char) {
    c in "-_.!~*'()"
  }

  /** Characters that may stand for themselves in the given part. */
  predicate Unreserved(c: char, part: Part) {
    IsAlnum(c) || IsMark(c) || (if part.User? then c in "&=+$,;?/" else c in "[]/:&+$")
  }

  predicate Printable(c: char) {
    32 <= c as int <= 126
  }

  ghost predicate AllPrintable(s: string) {
    forall i :: 0 <= i < |s| ==> Printable(s[i])
  }

  function HexDigit(x: nat): (c: char)
    requires x < 16
  {
    if x < 10 then '0' + x as char else 'a' + (x - 10) as char
  }

  // ------------------------------------------------------ percent escaping

  function EscapeChar(c: char, part: Part): (t: string)
    requires Printable(c)
    ensures 1 <= |t| <= 3
  {
    if Unreserved(c, part) then [c] else ['%', HexDigit(c as nat / 16), HexDigit(c as nat % 16)]
  }

  function Escape(s: string, part: Part): string
    requires AllPrintable(s)
  {
    if s == "" then "" else Escape(s[..|s| - 1], part) + EscapeChar(s[|s| - 1], part)
  }

  /** The byte of memory at p; a string ends in whatever follows it there. */
  function At(memory: string, p: nat): char {
    if p < |memory| then memory[p] else '\0'
  }

  /** Decode memory from p until `end` is reached. An escape that starts in
      front of `end` is read to its last digit even if that lies behind it. */
  function UnescapeFrom(memory: string, p: nat, end: nat): Option<string>
    decreases end - p
  {
    if p >= end then Some("")
    else if At(memory, p) != '%' then
      var rest := UnescapeFrom(memory, p + 1, end);
      if rest.None? then None else Some([At(memory, p)] + rest.value)
    else
      var hi, lo := HexValue(At(memory, p + 1)), HexValue(At(memory, p + 2));
      if hi.None? || lo.None? then None
      else
        var c := (16 * hi.value + lo.value) as char;
        var rest := UnescapeFrom(memory, p + 3, end);
        if !Printable(c) || rest.None? then None else Some([c] + rest.value)
  }

  /** Decode the string s that is followed in memory by `behind`. */
  function Unescape(s: string, behind: string): Option<string> {
    UnescapeFrom(s + behind, 0, |s|)
  }

  /** Only unreserved characters and complete escapes of two hex digits. */
  ghost predicate WellEscaped(t: string, part: Part) {
    t == ""
    || (Unreserved(t[0], part) && WellEscaped(t[1..], part))
    || (|t| >= 3 && t[0] == '%' && HexValue(t[1]).Some? && HexValue(t[2]).Some? && WellEscaped(t[3..], part))
  }

  lemma EscapedChar(c: char, part: Part)
    requires Printable(c)
    ensures Unreserved(c, part) ==> c != '%'
    ensures !Unreserved(c, part) ==>
      var t := EscapeChar(c, part);
      && |t| == 3 && t[0] == '%'
      && HexValue(t[1]) == Some(c as nat / 16) && HexValue(t[2]) == Some(c as nat % 16)
      && (16 * (c as nat / 16) + c as nat % 16) as char == c
  {
  }

  /** Escape from the front, the way decoding proceeds. */
  lemma {:induction false} EscapeCons(c: char, s: string, part: Part)
    requires Printable(c) && AllPrintable(s)
    ensures AllPrintable([c] + s)
    ensures Escape([c] + s, part) == EscapeChar(c, part) + Escape(s, part)
  {
    hide EscapeChar;
    var t := [c] + s;
    if s == "" {
      assert t[..|t| - 1] == "" && t == [c];
      assert "" + EscapeChar(c, part) == EscapeChar(c, part) + "";
    } else {
      assert t[..|t| - 1] == [c] + s[..|s| - 1];
      EscapeCons(c, s[..|s| - 1], part);
      var a, b, d := EscapeChar(c, part), Escape(s[..|s| - 1], part), EscapeChar(s[|s| - 1], part);
      assert a + b + d == a + (b + d);
    }
  }

  lemma {:induction false} EscapeFacts(s: string, part: Part)
    requires AllPrintable(s)
    ensures |s| <= |Escape(s, part)| <= 3 * |s|
    ensures WellEscaped(Escape(s, part), part)
  {
    hide EscapeChar;
    if s != "" {
      var t := s[1..];
      EscapeFacts(t, part);
      EscapeCons(s[0], t, part);
      assert s == [s[0]] + t;
      WellEscapedFront(s[0], Escape(t, part), part);
    }
  }

  lemma WellEscapedFront(c: char, t: string, part: Part)
    requires Printable(c) && WellEscaped(t, part)
    ensures WellEscaped(EscapeChar(c, part) + t, part)
  {
    EscapedChar(c, part);
    var u := EscapeChar(c, part) + t;
    if Unreserved(c, part) {
      assert u[1..] == t;
    } else {
      assert u[3..] == t;
    }
  }

  lemma UnescapeOneChar(memory: string, p: nat, end: nat, c: char, part: Part)
    requires Printable(c) && p + |EscapeChar(c, part)| <= |memory| && p < end
    requires memory[p..p + |EscapeChar(c, part)|] == EscapeChar(c, part)
    ensures UnescapeFrom(memory, p, end) ==
            var rest := UnescapeFrom(memory, p + |EscapeChar(c, part)|, end);
            if rest.None? then None else Some([c] + rest.value)
  {
    EscapedChar(c, part);
    var t := EscapeChar(c, part);
    assert memory[p..p + |t|][0] == memory[p];
    if |t| == 3 {
      assert memory[p..p + |t|][1] == memory[p + 1] && memory[p..p + |t|][2] == memory[p + 2];
    }
  }

  lemma {:induction false} UnescapeEscapedAt(before: string, s: string, behind: string, part: Part)
    requires AllPrintable(s)
    ensures UnescapeFrom(before + Escape(s, part) + behind, |before|, |before| + |Escape(s, part)|) == Some(s)
    decreases |s|
  {
    hide EscapeChar, Escape, UnescapeFrom, Printable;
    if s == "" {
      EscapeOfNone(before, behind, part);
    } else {
      var c, t := s[0], s[1..];
      assert s == [c] + t;
      EscapeCons(c, t, part);
      var first, rest := EscapeChar(c, part), Escape(t, part);
      var memory := before + Escape(s, part) + behind;
      assert memory == (before + first) + rest + behind;
      UnescapeEscapedAt(before + first, t, behind, part);
      assert memory[|before|..|before| + |first|] == first;
      UnescapeOneChar(memory, |before|, |before| + |Escape(s, part)|, c, part);
    }
  }

  lemma EscapeOfNone(before: string, behind: string, part: Part)
    ensures UnescapeFrom(before + Escape("", part) + behind, |before|, |before| + |Escape("", part)|) == Some("")
  {
  }

  /** Decoding inverts encoding for every printable text, whatever follows the
      encoded text in memory. */
  lemma UnescapeInvertsEscape(s: string, behind: string, part: Part)
    requires AllPrintable(s)
    ensures Unescape(Escape(s, part), behind) == Some(s)
  {
    hide Escape, UnescapeFrom;
    UnescapeEscapedAt("", s, behind, part);
    assert "" + Escape(s, part) + behind == Escape(s, part) + behind;
  }

  /** Encode into a buffer of `room` bytes. */
  method EscapeInto(s: string, part: Part, out: array<char>, room: nat) returns (ok: bool, len: nat)
    requires room <= out.Length
    modifies out
    ensures ok <==> 3 * |s| + 1 <= room && AllPrintable(s)
    ensures ok ==> len < room && out[len] == '\0' && out[..len] == Escape(s, part)
  {
    hide EscapeChar, Escape;
    ok, len := false, 0;
    if room < 3 * |s| + 1 {
      return;
    }
    var p := 0;
    EscapeStep(s, 0, part);
    while p < |s|
      invariant p <= |s| && AllPrintable(s[..p])
      invariant len <= 3 * p && out[..len] == Escape(s[..p], part)
    {
      if !Printable(s[p]) {
        return;
      }
      len := PutEscaped(s[p], part, out, len);
      p := p + 1;
      EscapeStep(s, p, part);
    }
    assert s[..p] == s;
    ghost var text := out[..len];
    out[len] := '\0';
    assert out[..len] == text;
    ok := true;
  }

  /** Write one encoded character at a position. */
  method PutEscaped(c: char, part: Part, out: array<char>, at: nat) returns (len: nat)
    requires Printable(c) && at + 3 <= out.Length
    modifies out
    ensures at < len <= at + 3 && out[..len] == old(out[..at]) + EscapeChar(c, part)
  {
    if Unreserved(c, part) {
      out[at] := c;
      len := at + 1;
    } else {
      out[at], out[at + 1], out[at + 2] := '%', HexDigit(c as nat / 16), HexDigit(c as nat % 16);
      len := at + 3;
    }
    assert out[..at] == old(out[..at]);
  }

  lemma EscapeStep(s: string, p: nat, part: Part)
    requires p <= |s| && AllPrintable(s[..p])
    ensures p == 0 ==> Escape(s[..p], part) == ""
    ensures p > 0 ==> AllPrintable(s[..p - 1]) && Printable(s[p - 1])
                      && Escape(s[..p], part) == Escape(s[..p - 1], part) + EscapeChar(s[p - 1], part)
  {
    if p > 0 {
      assert s[..p][..p - 1] == s[..p - 1];
      assert s[..p][p - 1] == s[p - 1];
    }
  }

  /** Text already decoded, in front of the rest. */
  function Behind(done: string, rest: Option<string>): Option<string> {
    if rest.None? then None else Some(done + rest.value)
  }

  lemma BehindOne(done: string, c: char, rest: Option<string>)
    ensures Behind(done, Behind([c], rest)) == Behind(done + [c], rest)
  {
    if rest.Some? {
      assert done + ([c] + rest.value) == done + [c] + rest.value;
    }
  }

  lemma BehindNothing(rest: Option<string>)
    ensures Behind("", rest) == rest
  {
    if rest.Some? {
      assert "" + rest.value == rest.value;
    }
  }

  lemma UnescapeStep(memory: string, p: nat, end: nat)
    requires p < end
    ensures At(memory, p) != '%' ==>
      UnescapeFrom(memory, p, end) == Behind([At(memory, p)], UnescapeFrom(memory, p + 1, end))
    ensures At(memory, p) == '%' ==>
      var hi, lo := HexValue(At(memory, p + 1)), HexValue(At(memory, p + 2));
      UnescapeFrom(memory, p, end) ==
        if hi.None? || lo.None? || !Printable((16 * hi.value + lo.value) as char) then None
        else Behind([(16 * hi.value + lo.value) as char], UnescapeFrom(memory, p + 3, end))
  {
  }

  lemma UnescapeEnd(memory: string, p: nat, end: nat, done: string)
    requires p >= end
    ensures Behind(done, UnescapeFrom(memory, p, end)) == Some(done)
  {
    assert done + "" == done;
  }

  /** Decode into a buffer of `room` bytes. */
  method UnescapeInto(s: string, behind: string, out: array<char>, room: nat) returns (ok: bool, len: nat)
    requires room <= out.Length
    modifies out
    ensures ok <==> |s| + 1 <= room && Unescape(s, behind).Some?
    ensures ok ==> len <= |s| && out[len] == '\0' && out[..len] == Unescape(s, behind).value
  {
    ok, len := false, 0;
    if room < |s| + 1 {
      return;
    }
    hide UnescapeFrom, Behind, HexValue;
    var memory := s + behind;
    var p: nat := 0;
    BehindNothing(Unescape(s, behind));
    while p < |s|
      invariant len <= p && len <= |s|
      invariant Unescape(s, behind) == Behind(out[..len], UnescapeFrom(memory, p, |s|))
      decreases |s| - p
    {
      UnescapeStep(memory, p, |s|);
      ghost var before := out[..len];
      var c := At(memory, p);
      if c == '%' {
        var hi, lo := HexValue(At(memory, p + 1)), HexValue(At(memory, p + 2));
        if hi.None? || lo.None? {
          NoneBehind(before);
          return;
        }
        c := (16 * hi.value + lo.value) as char;
        if !Printable(c) {
          NoneBehind(before);
          return;
        }
        p := p + 2;
      }
      out[len] := c;
      len := len + 1;
      p := p + 1;
      BehindOne(before, c, UnescapeFrom(memory, p, |s|));
      assert out[..len] == before + [c];
    }
    UnescapeEnd(memory, p, |s|, out[..len]);
    out[len] := '\0';
    ok := true;
  }

  lemma NoneBehind(done: string)
    ensures Behind(done, None) == None
  {
  }

  // ------------------------------------------- escapes cut off at the end

  /** A complete escape of a printable character stands at p. */
  predicate PrintableEscape(s: string, p: nat)
    requires p + 2 < |s|
  {
    var hi, lo := HexValue(s[p + 1]), HexValue(s[p + 2]);
    hi.Some? && lo.Some? && Printable((16 * hi.value + lo.value) as char)
  }

  /** Decoding s from p meets an escape whose last digits lie behind the end of
      s and decide the result. With one digit inside, only the digits 2 to 7 can
      still start a printable character. */
  predicate CutOff(s: string, p: nat)
    decreases |s| - p
  {
    if p >= |s| then false
    else if s[p] != '%' then CutOff(s, p + 1)
    else if p + 1 == |s| then true
    else
      var hi := HexValue(s[p + 1]);
      if hi.None? then false
      else if p + 2 == |s| then 2 <= hi.value <= 7
      else PrintableEscape(s, p) && CutOff(s, p + 3)
  }

  lemma {:induction false} WholeEscapes(s: string, p: nat, behind: string)
    requires !CutOff(s, p)
    ensures UnescapeFrom(s + behind, p, |s|) == UnescapeFrom(s, p, |s|)
    decreases |s| - p
  {
    if p < |s| {
      UnescapeStep(s, p, |s|);
      UnescapeStep(s + behind, p, |s|);
      if s[p] != '%' {
        WholeEscapes(s, p + 1, behind);
      } else if p + 2 < |s| && PrintableEscape(s, p) {
        WholeEscapes(s, p + 3, behind);
      }
    }
  }

  lemma {:induction false} CutOffDepends(s: string, p: nat) returns (behind: string)
    requires CutOff(s, p)
    ensures UnescapeFrom(s, p, |s|) == None
    ensures UnescapeFrom(s + behind, p, |s|).Some?
    decreases |s| - p
  {
    UnescapeStep(s, p, |s|);
    if s[p] != '%' {
      behind := CutOffDepends(s, p + 1);
    } else if p + 1 == |s| {
      behind := "41";
    } else if p + 2 == |s| {
      behind := "0";
    } else {
      behind := CutOffDepends(s, p + 3);
    }
    UnescapeStep(s + behind, p, |s|);
  }

  /** Decoding depends on the memory behind a text exactly when an escape is cut
      off at its end. */
  lemma MemoryMattersIff(s: string)
    ensures (forall a, b :: Unescape(s, a) == Unescape(s, b)) <==> !CutOff(s, 0)
  {
    hide UnescapeFrom;
    assert s + "" == s;
    if CutOff(s, 0) {
      var behind := CutOffDepends(s, 0);
      assert Unescape(s, "") != Unescape(s, behind);
    } else {
      forall a, b ensures Unescape(s, a) == Unescape(s, b) {
        WholeEscapes(s, 0, a);
        WholeEscapes(s, 0, b);
      }
    }
  }

  /** Whatever follows, a character that is no hex digit completes no escape. */
  lemma {:induction false} NoDigitBehind(s: string, p: nat, behind: string)
    requires behind != "" && HexValue(behind[0]).None?
    ensures UnescapeFrom(s + behind, p, |s|) == UnescapeFrom(s, p, |s|)
    decreases |s| - p
  {
    if p < |s| {
      UnescapeStep(s, p, |s|);
      UnescapeStep(s + behind, p, |s|);
      if s[p] != '%' {
        NoDigitBehind(s, p + 1, behind);
      } else if p + 2 < |s| && PrintableEscape(s, p) {
        NoDigitBehind(s, p + 3, behind);
      }
    }
  }

  /** One digit is missing: the text fails or decodes by what follows it. Where
      a wrong digit comes first, nothing depends on what follows. */
  lemma CutOffExamples()
    ensures Unescape("%4", "1") == Some("A") && Unescape("%4", " ") == None
    ensures forall behind :: Unescape("%%", behind) == None
  {
    assert CutOff("%4", 0) && !CutOff("%%", 0);
    UnescapeStep("%4" + "1", 0, 2);
    UnescapeStep("%4" + " ", 0, 2);
    assert UnescapeFrom("%4" + "1", 3, 2) == Some("");
    assert ['A'] + "" == "A" && (16 * 4 + 1) as char == 'A';
    assert HexValue('%') == None;
    forall behind ensures Unescape("%%", behind) == None {
      UnescapeStep("%%" + behind, 0, 2);
    }
  }

  // ---------------------------------------------------- backslash escaping

  function EscapeByte(c: char): string {
    if c == '\'' || c == '"' || c == '\\' then ['\\', c]
    else if c == '\0' then ['\\', '0']
    else [c]
  }

  function EscapeCommon(s: string): string {
    if s == "" then "" else EscapeCommon(s[..|s| - 1]) + EscapeByte(s[|s| - 1])
  }

  function UnescapeCommon(s: string): string
    decreases |s|
  {
    if s == "" then ""
    else if s[0] == '\\' && |s| > 1 && s[1] in "'\"\\0" then
      [if s[1] == '0' then '\0' else s[1]] + UnescapeCommon(s[2..])
    else [s[0]] + UnescapeCommon(s[1..])
  }

  lemma {:induction false} EscapeCommonCons(c: char, s: string)
    ensures EscapeCommon([c] + s) == EscapeByte(c) + EscapeCommon(s)
  {
    hide EscapeByte;
    var t := [c] + s;
    if s == "" {
      assert t[..|t| - 1] == "" && t == [c];
      assert "" + EscapeByte(c) == EscapeByte(c) + "";
    } else {
      assert t[..|t| - 1] == [c] + s[..|s| - 1];
      EscapeCommonCons(c, s[..|s| - 1]);
      var a, b, d := EscapeByte(c), EscapeCommon(s[..|s| - 1]), EscapeByte(s[|s| - 1]);
      assert a + b + d == a + (b + d);
    }
  }

  lemma UnescapeByte(c: char, t: string)
    ensures UnescapeCommon(EscapeByte(c) + t) == [c] + UnescapeCommon(t)
  {
    var u := EscapeByte(c) + t;
    assert u[|EscapeByte(c)|..] == t;
  }

  /** Decoding inverts encoding for every byte string, NULs and runs of
      backslashes included. */
  lemma {:induction false} UnescapeInvertsEscapeCommon(s: string)
    ensures UnescapeCommon(EscapeCommon(s)) == s
  {
    hide EscapeByte;
    if s != "" {
      assert s == [s[0]] + s[1..];
      EscapeCommonCons(s[0], s[1..]);
      UnescapeByte(s[0], EscapeCommon(s[1..]));
      UnescapeInvertsEscapeCommon(s[1..]);
    }
  }

  method EscapeCommonInto(dst: array<char>, src: string) returns (len: nat)
    requires dst.Length >= 2 * |src|
    modifies dst
    ensures len <= 2 * |src| && dst[..len] == EscapeCommon(src)
  {
    len := 0;
    for i := 0 to |src|
      invariant len <= 2 * i && dst[..len] == EscapeCommon(src[..i])
    {
      assert src[..i + 1][..i] == src[..i];
      ghost var before := dst[..len];
      var c := src[i];
      if c == '\'' || c == '"' || c == '\\' {
        dst[len], dst[len + 1] := '\\', c;
        len := len + 2;
      } else if c == '\0' {
        dst[len], dst[len + 1] := '\\', '0';
        len := len + 2;
      } else {
        dst[len] := c;
        len := len + 1;
      }
      assert dst[..len] == before + EscapeByte(c);
    }
    assert src[..|src|] == src;
  }

  method UnescapeCommonInto(dst: array<char>, src: string) returns (len: nat)
    requires dst.Length >= |src|
    modifies dst
    ensures len <= |src| && dst[..len] == UnescapeCommon(src)
  {
    hide UnescapeCommon;
    len := 0;
    var i := 0;
    assert dst[..len] + UnescapeCommon(src[i..]) == UnescapeCommon(src);
    while i < |src|
      invariant len <= i <= |src|
      invariant dst[..len] + UnescapeCommon(src[i..]) == UnescapeCommon(src)
    {
      UnescapeCommonStep(src, i, dst[..len]);
      ghost var before := dst[..len];
      var c := src[i];
      if c == '\\' && i + 1 < |src| && src[i + 1] in "'\"\\0" {
        dst[len] := if src[i + 1] == '0' then '\0' else src[i + 1];
        i := i + 1;
      } else {
        dst[len] := c;
      }
      len := len + 1;
      i := i + 1;
      assert dst[..len] == before + [dst[len - 1]];
    }
    UnescapeCommonEnd(src[i..], dst[..len]);
  }

  lemma UnescapeCommonStep(src: string, i: nat, done: string)
    requires i < |src|
    ensures done + UnescapeCommon(src[i..]) ==
            if src[i] == '\\' && i + 1 < |src| && src[i + 1] in "'\"\\0"
            then done + [if src[i + 1] == '0' then '\0' else src[i + 1]] + UnescapeCommon(src[i + 2..])
            else done + [src[i]] + UnescapeCommon(src[i + 1..])
  {
    var t := src[i..];
    assert t[1..] == src[i + 1..];
    if |t| > 1 {
      assert t[2..] == src[i + 2..];
    }
  }

  lemma UnescapeCommonEnd(rest: string, done: string)
    requires rest == ""
    ensures done + UnescapeCommon(rest) == done
  {
  }
}
