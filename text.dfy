/** String operations the two scripts rely on: Python's `str.endswith`,
    `str.replace("\n", " ")` and `str.strip()`, and JavaScript's conversion
    of an integer-valued number to its decimal text. */
module Text {

  /** Python's `s.endswith(suffix)`. */
  predicate EndsWith(s: string, suffix: string) {
    |suffix| <= |s| && s[|s| - |suffix|..] == suffix
  }

  // ---------------------------------------------------------------------
  // str.replace("\n", " ")
  // ---------------------------------------------------------------------

  /** `s.replace("\n", " ")`: every line feed becomes one space and every
      other character stays where it was, so the result is a single line. */
  function ReplaceNewlines(s: string): (r: string)
    ensures |r| == |s|
    ensures forall i :: 0 <= i < |s| ==> r[i] == (if s[i] == '\n' then ' ' else s[i])
    ensures '\n' !in r
  {
    if s == [] then []
    else [if s[0] == '\n' then ' ' else s[0]] + ReplaceNewlines(s[1..])
  }

  /** Replacing again changes nothing, and a text without a line feed is
      left exactly as it was. */
  lemma ReplaceNewlinesFixed(s: string)
    ensures ReplaceNewlines(ReplaceNewlines(s)) == ReplaceNewlines(s)
    ensures '\n' !in s <==> ReplaceNewlines(s) == s
  {
    var r := ReplaceNewlines(s);
    assert ReplaceNewlines(r) == r;
    if '\n' !in s {
      assert forall i :: 0 <= i < |s| ==> r[i] == s[i];
    }
  }

  // ---------------------------------------------------------------------
  // str.strip()
  // ---------------------------------------------------------------------

  /** The characters for which Python's `str.isspace()` holds, which are
      the ones `str.strip()` with no argument removes. */
  predicate IsSpace(c: char) {
    ('\t' <= c <= '\r') || ('\U{1C}' <= c <= '\U{1F}') || c == ' '
    || c == '\U{85}' || c == '\U{A0}' || c == '\U{1680}'
    || ('\U{2000}' <= c <= '\U{200A}') || c == '\U{2028}' || c == '\U{2029}'
    || c == '\U{202F}' || c == '\U{205F}' || c == '\U{3000}'
  }

  /** The length of the run of whitespace at the front of `s`. */
  function LeadingSpace(s: string): (k: nat)
    ensures k <= |s|
    ensures forall i :: 0 <= i < k ==> IsSpace(s[i])
    ensures k < |s| ==> !IsSpace(s[k])
  {
    if s == [] || !IsSpace(s[0]) then 0 else 1 + LeadingSpace(s[1..])
  }

  /** Where the run of whitespace at the back of `s` begins. */
  function TrailingSpace(s: string): (k: nat)
    ensures k <= |s|
    ensures forall i :: k <= i < |s| ==> IsSpace(s[i])
    ensures 0 < k ==> !IsSpace(s[k - 1])
  {
    if s == [] || !IsSpace(s[|s| - 1]) then |s| else TrailingSpace(s[..|s| - 1])
  }

  /** `r` is what is left of `s` once a whitespace prefix of length `i` and
      a whitespace suffix are cut away. */
  predicate TrimmedAt(s: string, r: string, i: int) {
    0 <= i <= |s| - |r| && s[i..i + |r|] == r
    && (forall k :: 0 <= k < i ==> IsSpace(s[k]))
    && (forall k :: i + |r| <= k < |s| ==> IsSpace(s[k]))
  }

  /** Python's `s.strip()`: the middle of `s` that is left once the
      whitespace at both ends is cut away. Nothing inside is touched, so an
      embedded line feed survives. */
  function Strip(s: string): (r: string)
    ensures |r| <= |s|
    ensures r != [] ==> !IsSpace(r[0]) && !IsSpace(r[|r| - 1])
    ensures exists i :: TrimmedAt(s, r, i)
  {
    var a := LeadingSpace(s);
    var rest := s[a..];
    var b := TrailingSpace(rest);
    assert s[a..a + b] == rest[..b];
    assert TrimmedAt(s, rest[..b], a);
    rest[..b]
  }

  /** Strip removes exactly whitespace `pre` and `post` around a middle that
      neither starts nor ends with whitespace; in particular it leaves such a
      text unchanged, line feeds inside included. */
  lemma StripExact(pre: string, mid: string, post: string)
    requires forall k :: 0 <= k < |pre| ==> IsSpace(pre[k])
    requires forall k :: 0 <= k < |post| ==> IsSpace(post[k])
    requires mid != [] ==> !IsSpace(mid[0]) && !IsSpace(mid[|mid| - 1])
    ensures Strip(pre + mid + post) == mid
  {
    var s := pre + mid + post;
    var a := LeadingSpace(s);
    var rest := s[a..];
    var b := TrailingSpace(rest);
    if mid == [] {
      assert forall k :: 0 <= k < |s| ==> IsSpace(s[k]) by {
        forall k | 0 <= k < |s| ensures IsSpace(s[k]) {
          if k < |pre| { assert s[k] == pre[k]; } else { assert s[k] == post[k - |pre|]; }
        }
      }
      assert a == |s|;
    } else {
      assert forall k :: 0 <= k < |pre| ==> s[k] == pre[k];
      assert !IsSpace(s[|pre|]) by { assert s[|pre|] == mid[0]; }
      assert a == |pre|;
      assert rest == mid + post;
      assert forall k :: |mid| <= k < |rest| ==> rest[k] == post[k - |mid|];
      assert !IsSpace(rest[|mid| - 1]) by { assert rest[|mid| - 1] == mid[|mid| - 1]; }
      assert b == |mid|;
      assert rest[..b] == mid;
    }
  }

  /** Stripping is idempotent. */
  lemma StripTwice(s: string)
    ensures Strip(Strip(s)) == Strip(s)
  {
    var r := Strip(s);
    StripExact([], r, []);
    assert [] + r + [] == r;
  }

  // ---------------------------------------------------------------------
  // Decimal text of integers (JavaScript's Number-to-string on integers)
  // ---------------------------------------------------------------------

  predicate IsDigit(c: char) { '0' <= c <= '9' }

  function Digit(d: nat): (c: char)
    requires d < 10
    ensures IsDigit(c)
  {
    ('0' as int + d) as char
  }

  function DigitValue(c: char): (d: nat)
    requires IsDigit(c)
    ensures d < 10 && Digit(d) == c
  {
    c as int - '0' as int
  }

  /** The decimal digits of `n`, most significant first, without leading zeros. */
  function NatToString(n: nat): (s: string)
    ensures 1 <= |s|
    ensures forall i :: 0 <= i < |s| ==> IsDigit(s[i])
    ensures (|s| == 1) == (n < 10)
  {
    if n < 10 then [Digit(n)] else NatToString(n / 10) + [Digit(n % 10)]
  }

  /** The value of a string of decimal digits (the empty string reads as 0). */
  function ParseNat(s: string): (n: nat)
    requires forall i :: 0 <= i < |s| ==> IsDigit(s[i])
  {
    if s == [] then 0 else ParseNat(s[..|s| - 1]) * 10 + DigitValue(s[|s| - 1])
  }

  /** Reading the decimal text back gives the number. */
  lemma {:induction false} ParseNatToString(n: nat)
    ensures ParseNat(NatToString(n)) == n
  {
    var s := NatToString(n);
    if n < 10 {
      assert s[..|s| - 1] == [];
    } else {
      assert s[..|s| - 1] == NatToString(n / 10);
      ParseNatToString(n / 10);
    }
  }

  /** `String(k)` for an integer-valued JavaScript number `k`. */
  function IntToString(k: int): (s: string)
    ensures 1 <= |s|
  {
    if k < 0 then "-" + NatToString(-k) else NatToString(k)
  }

  /** The text starts with a minus sign exactly for a negative number. */
  lemma IntToStringSign(k: int)
    ensures |IntToString(k)| >= 1
    ensures IntToString(k)[0] == '-' <==> k < 0
  {
    if k >= 0 {
      assert IsDigit(NatToString(k)[0]);
    }
  }

  /** After the minus sign of a negative number come the digits of its
      magnitude. */
  lemma NegativeDigits(k: int)
    requires k < 0
    ensures IntToString(k)[1..] == NatToString(-k)
  {
    assert ("-" + NatToString(-k))[1..] == NatToString(-k);
  }

  /** Distinct natural numbers have distinct decimal texts. */
  lemma NatToStringInjective(a: nat, b: nat)
    requires NatToString(a) == NatToString(b)
    ensures a == b
  {
    ParseNatToString(a);
    ParseNatToString(b);
  }

  /** Distinct integers have distinct decimal texts. */
  lemma IntToStringInjective(a: int, b: int)
    requires IntToString(a) == IntToString(b)
    ensures a == b
  {
    IntToStringSign(a);
    IntToStringSign(b);
    if a < 0 {
      NegativeDigits(a);
      NegativeDigits(b);
      NatToStringInjective(-a, -b);
    } else {
      NatToStringInjective(a, b);
    }
  }
}
