/** What escaping leaves alone and what it writes for everything else, character
    by character. */
module StrLaws {
  import opened Decimal
  import opened Chars
  import opened StrCommon

  const LETTERS: string := "abcdefghijklmnopqrstuvwxyz"
  const CAPITALS: string := "ABCDEFGHIJKLMNOPQRSTUVWXYZ"
  const USER_ALPHABET: string := LETTERS + CAPITALS + "0123456789" + "-_.!~*'()" + "&=+$,;?/"
  const PARAM_ALPHABET: string := LETTERS + CAPITALS + "0123456789" + "-_.!~*'()" + "[]/:&+$"
  const HEX: string := "0123456789abcdef"
  const UPPER_HEX: string := "0123456789ABCDEF"

  // ------------------------------------------------------ percent escaping

  lemma LetterAlphabet(c: char)
    ensures 'a' <= c <= 'z' <==> c in LETTERS
  {
    if 'a' <= c <= 'z' {
      assert c == LETTERS[(c - 'a') as int];
    }
  }

  lemma CapitalAlphabet(c: char)
    ensures 'A' <= c <= 'Z' <==> c in CAPITALS
  {
    if 'A' <= c <= 'Z' {
      assert c == CAPITALS[(c - 'A') as int];
    }
  }

  lemma Alphabet(c: char, part: Part)
    ensures Unreserved(c, part) <==> c in if part.User? then USER_ALPHABET else PARAM_ALPHABET
  {
    LetterAlphabet(c);
    CapitalAlphabet(c);
    hide LETTERS, CAPITALS;
    assert '0' <= c <= '9' <==> c in "0123456789";
  }

  /** A character of the part's alphabet stands for itself; any other is written as
      "%" and its two hexadecimal digits in lower case. */
  lemma EscapedOne(c: char, part: Part)
    requires Printable(c)
    ensures c in (if part.User? then USER_ALPHABET else PARAM_ALPHABET) ==> Escape([c], part) == [c]
    ensures c !in (if part.User? then USER_ALPHABET else PARAM_ALPHABET) ==>
      Escape([c], part) == "%" + [HEX[c as int / 16], HEX[c as int % 16]]
  {
    hide Unreserved;
    Alphabet(c, part);
    assert [c][..0] == "";
    HexLetters(c as nat / 16);
    HexLetters(c as nat % 16);
  }

  lemma HexLetters(x: nat)
    requires x < 16
    ensures HexDigit(x) == HEX[x] && HexValue(HEX[x]) == HexValue(UPPER_HEX[x]) == Some(x)
  {
  }

  /** Every text is escaped character by character. */
  lemma {:induction false} EscapeJoins(a: string, b: string, part: Part)
    requires AllPrintable(a + b)
    ensures AllPrintable(a) && AllPrintable(b)
    ensures Escape(a + b, part) == Escape(a, part) + Escape(b, part)
  {
    hide EscapeChar;
    assert forall i :: 0 <= i < |a| ==> a[i] == (a + b)[i];
    assert forall i :: 0 <= i < |b| ==> b[i] == (a + b)[|a| + i];
    if b == "" {
      assert a + b == a && Escape(a, part) + "" == Escape(a, part);
    } else {
      var u, c := b[..|b| - 1], b[|b| - 1];
      assert (a + b)[..|a + b| - 1] == a + u && (a + b)[|a + b| - 1] == c;
      assert AllPrintable(a + u);
      EscapeJoins(a, u, part);
      var x, y, z := Escape(a, part), Escape(u, part), EscapeChar(c, part);
      assert x + y + z == x + (y + z);
    }
  }

  /** Reading decodes an escape in either letter case if it stands for a printable
      character, refuses any other, and keeps all other characters. */
  lemma UnescapedOne(c: char, s: string, behind: string)
    ensures c != '%' ==> Unescape([c] + s, behind) == Behind([c], Unescape(s, behind))
  {
    hide UnescapeFrom, HexValue;
    var memory := [c] + s + behind;
    UnescapeStep(memory, 0, |s| + 1);
    assert memory[1..] == s + behind;
    UnescapeShift(memory, 1, 0, |s| + 1);
  }

  lemma NoHexRefused(a: char, b: char, s: string, behind: string)
    requires (a !in HEX && a !in UPPER_HEX) || (b !in HEX && b !in UPPER_HEX)
    ensures Unescape(['%', a, b] + s, behind) == None
  {
    hide UnescapeFrom, HexValue;
    var memory := ['%', a, b] + s + behind;
    UnescapeStep(memory, 0, |s| + 3);
    IsHex(a);
    IsHex(b);
    hide HEX, UPPER_HEX;
    assert memory[1] == a && memory[2] == b;
  }

  lemma IsHex(c: char)
    ensures HexValue(c).Some? ==> c in HEX || c in UPPER_HEX
  {
    if '0' <= c <= '9' {
      assert c == HEX[(c - '0') as int];
    } else if 'a' <= c <= 'f' {
      assert c == HEX[(c - 'a') as int + 10];
    } else if 'A' <= c <= 'F' {
      assert c == UPPER_HEX[(c - 'A') as int + 10];
    }
  }

  lemma UnescapedEscape(hi: nat, lo: nat, a: char, b: char, s: string, behind: string)
    requires hi < 16 && lo < 16
    requires a in [HEX[hi], UPPER_HEX[hi]] && b in [HEX[lo], UPPER_HEX[lo]]
    ensures Unescape(['%', a, b] + s, behind) ==
      if 32 <= 16 * hi + lo <= 126 then Behind([(16 * hi + lo) as char], Unescape(s, behind)) else None
  {
    hide UnescapeFrom;
    HexLetters(hi);
    HexLetters(lo);
    var memory := ['%', a, b] + s + behind;
    UnescapeStep(memory, 0, |s| + 3);
    assert memory[3..] == s + behind;
    UnescapeShift(memory, 3, 0, |s| + 3);
  }

  /** What lies in front of the position has no influence. */
  lemma {:induction false} UnescapeShift(memory: string, k: nat, p: nat, end: nat)
    requires k <= |memory| && k <= end
    ensures UnescapeFrom(memory, k + p, end) == UnescapeFrom(memory[k..], p, end - k)
    decreases end - p
  {
    if k + p < end {
      UnescapeShift(memory, k, p + 1, end);
      if At(memory, k + p) == '%' {
        UnescapeShift(memory, k, p + 3, end);
      }
    }
  }

  // ---------------------------------------------------- backslash escaping

  /** Quotes, the backslash and NUL get a backslash, NUL as the digit 0; all other
      bytes stay. */
  lemma EscapedByte(c: char)
    ensures EscapeCommon("'") == "\\'" && EscapeCommon("\"") == "\\\""
    ensures EscapeCommon("\\") == "\\\\" && EscapeCommon("\0") == "\\0"
    ensures c !in "'\"\\\0" ==> EscapeCommon([c]) == [c]
  {
    hide EscapeCommon;
    OneByte(c);
    OneByte('\'');
    OneByte('"');
    OneByte('\\');
    OneByte('\0');
  }

  lemma OneByte(c: char)
    ensures EscapeCommon([c]) == EscapeByte(c)
  {
    hide EscapeByte;
    assert [c][..0] == "" && "" + EscapeByte(c) == EscapeByte(c);
  }

  lemma {:induction false} EscapeCommonJoins(a: string, b: string)
    ensures EscapeCommon(a + b) == EscapeCommon(a) + EscapeCommon(b)
  {
    hide EscapeByte;
    if b == "" {
      assert a + b == a && EscapeCommon(a) + "" == EscapeCommon(a);
    } else {
      var u, c := b[..|b| - 1], b[|b| - 1];
      assert (a + b)[..|a + b| - 1] == a + u && (a + b)[|a + b| - 1] == c;
      EscapeCommonJoins(a, u);
      var x, y, z := EscapeCommon(a), EscapeCommon(u), EscapeByte(c);
      assert x + y + z == x + (y + z);
    }
  }

  /** The number of backslashes right in front of a position. */
  ghost function BackslashesBefore(t: string, i: nat): nat
    requires i <= |t|
  {
    if i == 0 || t[i - 1] != '\\' then 0 else 1 + BackslashesBefore(t, i - 1)
  }

  lemma {:induction false} BackslashesInPrefix(t: string, more: string, i: nat)
    requires i <= |t|
    ensures BackslashesBefore(t + more, i) == BackslashesBefore(t, i)
  {
    if i > 0 && t[i - 1] == '\\' {
      BackslashesInPrefix(t, more, i - 1);
    }
  }

  /** The escaped text can stand between quotes: it has no NUL, every quote in it
      has an odd number of backslashes in front, and so has none at its end. */
  lemma {:induction false} CommonIsQuotable(s: string)
    ensures '\0' !in EscapeCommon(s)
    ensures var t := EscapeCommon(s);
      && (forall i :: 0 <= i < |t| && IsQuote(t[i]) ==> BackslashesBefore(t, i) % 2 == 1)
      && BackslashesBefore(t, |t|) % 2 == 0
  {
    if s != "" {
      var u, c := s[..|s| - 1], s[|s| - 1];
      CommonIsQuotable(u);
      ByteIsQuotable(EscapeCommon(u), c);
    }
  }

  predicate IsQuote(c: char) {
    c == '\'' || c == '"'
  }

  lemma ByteIsQuotable(t: string, c: char)
    requires '\0' !in t && BackslashesBefore(t, |t|) % 2 == 0
    requires forall i :: 0 <= i < |t| && IsQuote(t[i]) ==> BackslashesBefore(t, i) % 2 == 1
    ensures var t' := t + EscapeByte(c);
      && '\0' !in t' && BackslashesBefore(t', |t'|) % 2 == 0
      && forall i :: 0 <= i < |t'| && IsQuote(t'[i]) ==> BackslashesBefore(t', i) % 2 == 1
  {
    var e := EscapeByte(c);
    var t' := t + e;
    BackslashesInPrefix(t, e, |t|);
    LastBackslashes(t, e);
    hide BackslashesBefore;
    forall i | 0 <= i < |t'| && IsQuote(t'[i]) ensures BackslashesBefore(t', i) % 2 == 1 {
      if i < |t| {
        BackslashesInPrefix(t, e, i);
      } else {
        assert t'[i] == e[i - |t|];
      }
    }
  }

  lemma LastBackslashes(t: string, e: string)
    ensures |e| == 2 && e[0] == '\\' ==>
      BackslashesBefore(t + e, |t| + 1) == 1 + BackslashesBefore(t + e, |t|)
    ensures |e| == 1 && e[0] != '\\' ==> BackslashesBefore(t + e, |t| + 1) == 0
    ensures |e| == 2 && e[0] == '\\' ==>
      BackslashesBefore(t + e, |t| + 2) == if e[1] == '\\' then 2 + BackslashesBefore(t + e, |t|) else 0
  {
  }

  /** Reading: the four escapes are undone, a backslash in front of anything else or
      at the end stays, and so does every other byte. */
  lemma UnescapedByte(c: char, t: string)
    ensures UnescapeCommon("\\'" + t) == "'" + UnescapeCommon(t)
    ensures UnescapeCommon("\\\"" + t) == "\"" + UnescapeCommon(t)
    ensures UnescapeCommon("\\\\" + t) == "\\" + UnescapeCommon(t)
    ensures UnescapeCommon("\\0" + t) == "\0" + UnescapeCommon(t)
    ensures c !in "'\"\\0" ==> UnescapeCommon("\\" + ([c] + t)) == "\\" + UnescapeCommon([c] + t)
    ensures c != '\\' ==> UnescapeCommon([c] + t) == [c] + UnescapeCommon(t)
    ensures UnescapeCommon("\\") == "\\"
  {
    UnescapeByte('\'', t);
    UnescapeByte('"', t);
    UnescapeByte('\\', t);
    UnescapeByte('\0', t);
    assert ("\\" + ([c] + t))[1..] == [c] + t;
    assert ([c] + t)[1..] == t;
    assert "\\"[1..] == "" && "\\" + "" == "\\";
  }
}
