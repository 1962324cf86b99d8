/** Decimal text of unsigned 64-bit numbers, printed and parsed the way the
    server's number conversion library does it. */
module Decimal {
  import opened PhoneRows

  datatype Option<T> = None | Some(value: T)

  predicate IsDigit(c: char) {
    '0' <= c <= '9'
  }

  predicate AllDigits(s: string) {
    forall i :: 0 <= i < |s| ==> IsDigit(s[i])
  }

  /** White space in the sense of isspace. */
  predicate IsSpace(c: char) {
    c == ' ' || '\t' <= c <= '\r'
  }

  function DigitValue(c: char): (d: nat)
    requires IsDigit(c)
    ensures d < 10
  {
    (c - '0') as nat
  }

  function DigitChar(d: nat): (c: char)
    requires d < 10
    ensures IsDigit(c) && DigitValue(c) == d
  {
    '0' + d as char
  }

  function Value(s: string): nat
    requires AllDigits(s)
  {
    if s == "" then 0 else 10 * Value(s[..|s| - 1]) + DigitValue(s[|s| - 1])
  }

  function Pow10(k: nat): (p: nat)
    ensures p > 0
  {
    if k == 0 then 1 else 10 * Pow10(k - 1)
  }

  /** The shortest decimal text of n. */
  function Digits(n: nat): (s: string)
    ensures s != "" && AllDigits(s)
  {
    if n < 10 then [DigitChar(n)] else Digits(n / 10) + [DigitChar(n % 10)]
  }

  /** The last k decimal digits of n, zero padded. */
  function Padded(n: nat, k: nat): (s: string)
    ensures |s| == k && AllDigits(s)
  {
    if k == 0 then "" else Padded(n / 10, k - 1) + [DigitChar(n % 10)]
  }

  lemma {:induction false} ValueOfDigits(n: nat)
    ensures Value(Digits(n)) == n
  {
    if n >= 10 {
      ValueOfDigits(n / 10);
      var s := Digits(n);
      assert s[..|s| - 1] == Digits(n / 10);
    }
  }

  lemma {:induction false} ValueBound(s: string)
    requires AllDigits(s)
    ensures Value(s) < Pow10(|s|)
  {
    if s != "" {
      ValueBound(s[..|s| - 1]);
    }
  }

  lemma {:induction false} PaddedOfValue(s: string)
    requires AllDigits(s)
    ensures Padded(Value(s), |s|) == s
  {
    if s != "" {
      var t := s[..|s| - 1];
      PaddedOfValue(t);
      assert Value(s) / 10 == Value(t) && Value(s) % 10 == DigitValue(s[|s| - 1]);
      assert DigitChar(DigitValue(s[|s| - 1])) == s[|s| - 1];
    }
  }

  lemma {:induction false} ValueOfPadded(n: nat, k: nat)
    requires n < Pow10(k)
    ensures Value(Padded(n, k)) == n
  {
    if k > 0 {
      ValueOfPadded(n / 10, k - 1);
      var s := Padded(n, k);
      assert s[..|s| - 1] == Padded(n / 10, k - 1);
    }
  }

  // -------------------------------------------------------------- parsing

  function SkipSpace(s: string): string {
    if s != "" && IsSpace(s[0]) then SkipSpace(s[1..]) else s
  }

  function LeadingDigits(s: string): (n: nat)
    ensures n <= |s| && AllDigits(s[..n])
    ensures n < |s| ==> !IsDigit(s[n])
  {
    if s != "" && IsDigit(s[0]) then
      var n := LeadingDigits(s[1..]);
      assert s[..n + 1] == [s[0]] + s[1..][..n];
      n + 1
    else 0
  }

  /** Leading white space, at least one digit, trailing white space, and a value
      that fits 64 bits; anything else is an error. */
  function ParseU64(s: string): Option<U64> {
    var t := SkipSpace(s);
    var n := LeadingDigits(t);
    if n == 0 || SkipSpace(t[n..]) != "" || Value(t[..n]) >= U64_LIMIT then None
    else Some(Value(t[..n]))
  }

  predicate AllSpace(s: string) {
    forall i :: 0 <= i < |s| ==> IsSpace(s[i])
  }

  lemma {:induction false} SkipSpaceFacts(s: string) returns (k: nat)
    ensures k <= |s| && AllSpace(s[..k]) && SkipSpace(s) == s[k..]
  {
    k := 0;
    if s != "" && IsSpace(s[0]) {
      var k' := SkipSpaceFacts(s[1..]);
      k := k' + 1;
      assert s[..k] == [s[0]] + s[1..][..k'];
    }
  }

  lemma {:induction false} SkipAllSpace(s: string, t: string)
    requires AllSpace(s) && (t != "" ==> !IsSpace(t[0]))
    ensures SkipSpace(s + t) == t
  {
    if s != "" {
      assert (s + t)[1..] == s[1..] + t;
      SkipAllSpace(s[1..], t);
    } else {
      assert s + t == t;
    }
  }

  lemma {:induction false} LeadingDigitsOf(d: string, rest: string)
    requires AllDigits(d) && (rest != "" ==> !IsDigit(rest[0]))
    ensures LeadingDigits(d + rest) == |d|
  {
    if d != "" {
      assert (d + rest)[1..] == d[1..] + rest;
      LeadingDigitsOf(d[1..], rest);
    } else {
      assert d + rest == rest;
    }
  }

  ghost predicate Surrounds(s: string, pre: string, digits: string, post: string) {
    s == pre + digits + post && AllSpace(pre) && AllSpace(post) && AllDigits(digits) && digits != ""
  }

  /** The accepted texts are the non-empty runs of digits that may be surrounded
      by white space and whose value fits 64 bits. */
  lemma ParseSurrounded(s: string, pre: string, digits: string, post: string)
    requires Surrounds(s, pre, digits, post)
    ensures ParseU64(s) == if Value(digits) < U64_LIMIT then Some(Value(digits)) else None
  {
    assert s == pre + (digits + post);
    SkipAllSpace(pre, digits + post);
    LeadingDigitsOf(digits, post);
    assert (digits + post)[..|digits|] == digits && (digits + post)[|digits|..] == post;
    SkipAllSpace(post, "");
    assert post + "" == post;
  }

  lemma ParsedIsSurrounded(s: string) returns (pre: string, digits: string, post: string)
    requires ParseU64(s).Some?
    ensures Surrounds(s, pre, digits, post) && Value(digits) == ParseU64(s).value
  {
    var k := SkipSpaceFacts(s);
    var t := SkipSpace(s);
    var n := LeadingDigits(t);
    pre, digits, post := s[..k], t[..n], t[n..];
    var m := SkipSpaceFacts(post);
    assert post[..m] == post;
    assert s == pre + t && t == digits + post;
  }

  lemma ParseDigits(n: U64, post: string)
    requires AllSpace(post)
    ensures ParseU64(Digits(n) + post) == Some(n)
  {
    ValueOfDigits(n);
    assert Surrounds(Digits(n) + post, "", Digits(n), post);
    ParseSurrounded(Digits(n) + post, "", Digits(n), post);
  }

  /** The text of a number: its last digit stands behind the text of the others,
      and nothing in front of its first. */
  lemma DigitsLaw(n: nat, d: nat)
    requires d < 10
    ensures Digits(10 * n + d) == (if n == 0 then "" else Digits(n)) + ["0123456789"[d]]
  {
    var m := 10 * n + d;
    assert m / 10 == n && m % 10 == d;
    if n == 0 {
      assert Digits(m) == "" + [DigitChar(d)];
    }
  }
}
