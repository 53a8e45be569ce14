/**
  Python's `int(text)` for the text a form field carries, simplified to:
  optional surrounding whitespace, an optional `+` or `-`, then one or more
  ASCII decimal digits (leading zeros allowed). Digit-group underscores and
  non-ASCII digits, which Python also accepts, are not part of this model.
  `None` stands for the `ValueError` Python raises.

  Two details follow CPython rather than the language reference:
  - the whitespace `int()` skips is narrower than `str.isspace()`: the ASCII
    separators U+001C..U+001F are not skipped, so text that carries them
    around the digits is refused;
  - a run of more than 4300 digits (leading zeros counted) is refused, the
    default limit on integer string conversion (`sys.int_info`).
 */
module PyInt {
  import opened Options
  import opened PyText

  predicate IsDigit(c: char) {
    '0' <= c <= '9'
  }

  predicate AllDigits(s: string) {
    forall i | 0 <= i < |s| :: IsDigit(s[i])
  }

  /** The whitespace `int()` skips around the number: every character for
      which `str.isspace()` holds except the ASCII separators U+001C..U+001F,
      which CPython passes through unchanged and then does not skip. */
  predicate IsIntSpace(c: char) {
    IsSpace(c) && !('\U{1C}' <= c <= '\U{1F}')
  }

  predicate AllSpace(s: string) {
    forall i | 0 <= i < |s| :: IsIntSpace(s[i])
  }

  /** CPython's default limit on converting between text and integers: at
      most 4300 digits, leading zeros counted. */
  predicate WithinDigitLimit(digits: string) {
    |digits| <= 4300
  }

  /** `s` without its leading whitespace. */
  function StripLeft(s: string): (t: string)
    ensures |t| <= |s| && t == s[|s| - |t|..]
    ensures AllSpace(s[..|s| - |t|])
    ensures |t| > 0 ==> !IsIntSpace(t[0])
  {
    if |s| > 0 && IsIntSpace(s[0]) then
      var t := StripLeft(s[1..]);
      var k := |s| - |t|;
      assert s[1..][k - 1..] == s[k..];
      assert forall i | 1 <= i < k :: s[..k][i] == s[1..][..k - 1][i - 1];
      t
    else s
  }

  /** `s` without its trailing whitespace. */
  function StripRight(s: string): (t: string)
    ensures |t| <= |s| && t == s[..|t|]
    ensures AllSpace(s[|t|..])
    ensures |t| > 0 ==> !IsIntSpace(t[|t| - 1])
  {
    if |s| > 0 && IsIntSpace(s[|s| - 1]) then
      var t := StripRight(s[..|s| - 1]);
      assert s[..|s| - 1][..|t|] == s[..|t|];
      assert forall i | |t| <= i < |s| - 1 :: s[i] == s[..|s| - 1][|t|..][i - |t|];
      t
    else s
  }

  /** The text between the leading and the trailing whitespace `int()` skips. */
  function Strip(s: string): (t: string)
    ensures |t| > 0 ==> !IsIntSpace(t[0]) && !IsIntSpace(t[|t| - 1])
  {
    StripRight(StripLeft(s))
  }

  function DigitValue(c: char): (d: nat)
    requires IsDigit(c)
    ensures d < 10
  {
    (c as int - '0' as int) as nat
  }

  function DigitChar(d: nat): (c: char)
    requires d < 10
    ensures IsDigit(c) && DigitValue(c) == d
  {
    ('0' as int + d) as char
  }

  /** Value of a string of decimal digits, most significant first. */
  function DigitsValue(s: string): nat
    requires AllDigits(s)
  {
    if |s| == 0 then 0
    else DigitsValue(s[..|s| - 1]) * 10 + DigitValue(s[|s| - 1])
  }

  /** The texts `int()` accepts once stripped: an optional sign, then one to
      4300 ASCII digits. */
  predicate IntLiteral(t: string) {
    if |t| > 0 && (t[0] == '+' || t[0] == '-') then 1 < |t| && WithinDigitLimit(t[1..]) && AllDigits(t[1..])
    else 0 < |t| && WithinDigitLimit(t) && AllDigits(t)
  }

  /** `int(s)` on a string: `Some(v)` for the integer Python returns, `None`
      where it raises `ValueError`. */
  function ParseInt(s: string): (r: Option<int>)
    ensures r.Some? ==> |Strip(s)| > 0
  {
    ParseStripped(Strip(s))
  }

  /** `int()` on text with no whitespace around it to skip. */
  function ParseStripped(t: string): (r: Option<int>)
    ensures r.Some? ==> |t| > 0
  {
    if |t| > 0 && (t[0] == '+' || t[0] == '-') then
      var body := t[1..];
      if 0 < |body| && WithinDigitLimit(body) && AllDigits(body) then
        var magnitude: int := DigitsValue(body);
        Some(if t[0] == '-' then -magnitude else magnitude)
      else None
    else if 0 < |t| && WithinDigitLimit(t) && AllDigits(t) then Some(DigitsValue(t))
    else None
  }

  /** `int()` accepts exactly the texts that, stripped, are an optional sign
      followed by at most 4300 ASCII digits, and the sign of the result is the
      sign written. */
  lemma ParseIntGrammar(s: string)
    ensures ParseInt(s).Some? <==> IntLiteral(Strip(s))
    ensures ParseInt(s).Some? && ParseInt(s).value < 0 ==> Strip(s)[0] == '-'
    ensures ParseInt(s).Some? && Strip(s)[0] == '-' ==> ParseInt(s).value <= 0
  {
  }

  /** Decimal rendering of a natural number, without leading zeros. */
  function FormatNat(n: nat): (s: string)
    ensures |s| > 0 && AllDigits(s)
    ensures s[0] != '0' || n == 0
  {
    if n < 10 then [DigitChar(n)]
    else FormatNat(n / 10) + [DigitChar(n % 10)]
  }

  function Pow10(k: nat): (p: nat)
    ensures p >= 1
  {
    if k == 0 then 1 else 10 * Pow10(k - 1)
  }

  /** A number below 10^k is written with at most k digits. */
  lemma {:induction false} FormatNatLength(n: nat, k: nat)
    requires 1 <= k && n < Pow10(k)
    ensures |FormatNat(n)| <= k
    decreases k
  {
    if n >= 10 {
      assert n / 10 < Pow10(k - 1);
      FormatNatLength(n / 10, k - 1);
    }
  }

  /** The digits of `str(n)`, without its sign. */
  function Digits(n: int): string {
    FormatNat(if n < 0 then -n else n)
  }

  /** `str(n)`: decimal rendering with a leading `-` for negatives. */
  function FormatInt(n: int): (s: string)
    ensures |s| > 0 && !IsIntSpace(s[0]) && !IsIntSpace(s[|s| - 1])
  {
    if n < 0 then "-" + FormatNat(-n) else FormatNat(n)
  }

  lemma {:induction false} DigitsValueOfFormat(n: nat)
    ensures DigitsValue(FormatNat(n)) == n
    decreases n
  {
    if n >= 10 {
      DigitsValueOfFormat(n / 10);
      var s := FormatNat(n);
      assert s[..|s| - 1] == FormatNat(n / 10);
    }
  }

  lemma StripUnpadded(s: string)
    requires |s| > 0 && !IsIntSpace(s[0]) && !IsIntSpace(s[|s| - 1])
    ensures Strip(s) == s
  {
  }

  /** `int(str(n)) == n` for every integer of at most 4300 digits, negative
      ones included; the text of a longer one is refused. */
  lemma ParseFormat(n: int)
    ensures WithinDigitLimit(Digits(n)) ==> ParseInt(FormatInt(n)) == Some(n)
    ensures !WithinDigitLimit(Digits(n)) ==> ParseInt(FormatInt(n)).None?
  {
    var s := FormatInt(n);
    StripUnpadded(s);
    if n < 0 {
      DigitsValueOfFormat(-n);
      assert s[1..] == FormatNat(-n);
    } else {
      DigitsValueOfFormat(n);
    }
  }

  /** Unpadded, unsigned digit text is read as its decimal value when it has
      at most 4300 digits, and refused when it has more. */
  lemma ParseDigits(s: string)
    requires |s| > 0 && AllDigits(s)
    ensures WithinDigitLimit(s) ==> ParseInt(s) == Some(DigitsValue(s))
    ensures !WithinDigitLimit(s) ==> ParseInt(s).None?
  {
    StripUnpadded(s);
  }

  /** Text that starts with something other than the whitespace `int()`
      skips, a sign or a digit is never a number; this includes text that
      starts with one of the separators U+001C..U+001F. */
  lemma ParseRejectsLeadingNonDigit(s: string)
    requires |s| > 0 && !IsIntSpace(s[0]) && !IsDigit(s[0]) && s[0] != '+' && s[0] != '-'
    ensures ParseInt(s).None?
  {
    var t := StripRight(s);
    assert StripLeft(s) == s;
    assert |t| > 0 ==> t[0] == s[0];
  }

  /** Whitespace `int()` skips, around the number, does not change what it
      returns. */
  lemma ParseIgnoresPadding(pre: string, s: string, post: string)
    requires AllSpace(pre) && AllSpace(post)
    ensures ParseInt(pre + s + post) == ParseInt(s)
  {
    StripPadded(pre, s, post);
  }

  lemma {:induction false} StripLeftPadded(pre: string, s: string)
    requires AllSpace(pre)
    ensures StripLeft(pre + s) == StripLeft(s)
    decreases |pre|
  {
    if |pre| > 0 {
      assert (pre + s)[1..] == pre[1..] + s;
      StripLeftPadded(pre[1..], s);
    } else {
      assert pre + s == s;
    }
  }

  lemma {:induction false} StripRightPadded(s: string, post: string)
    requires AllSpace(post)
    ensures StripRight(s + post) == StripRight(s)
    decreases |post|
  {
    if |post| > 0 {
      var p := post[..|post| - 1];
      assert (s + post)[..|s + post| - 1] == s + p;
      StripRightPadded(s, p);
    } else {
      assert s + post == s;
    }
  }

  lemma {:induction false} StripLeftAppend(s: string, post: string)
    requires AllSpace(post)
    ensures StripRight(StripLeft(s + post)) == StripRight(StripLeft(s) + post)
    decreases |s|
  {
    if |s| > 0 && IsIntSpace(s[0]) {
      assert (s + post)[1..] == s[1..] + post;
      StripLeftAppend(s[1..], post);
    } else if |s| == 0 {
      assert s + post == post && StripLeft(s) + post == post;
      StripLeftAllSpace(post);
      StripRightPadded([], post);
      assert [] + post == post;
    }
  }

  lemma {:induction false} StripLeftAllSpace(s: string)
    requires AllSpace(s)
    ensures StripLeft(s) == []
    decreases |s|
  {
    if |s| > 0 {
      StripLeftAllSpace(s[1..]);
    }
  }

  lemma StripPadded(pre: string, s: string, post: string)
    requires AllSpace(pre) && AllSpace(post)
    ensures Strip(pre + s + post) == Strip(s)
  {
    calc {
      Strip(pre + s + post);
      { assert pre + s + post == pre + (s + post); }
      StripRight(StripLeft(pre + (s + post)));
      { StripLeftPadded(pre, s + post); }
      StripRight(StripLeft(s + post));
      { StripLeftAppend(s, post); }
      StripRight(StripLeft(s) + post);
      { StripRightPadded(StripLeft(s), post); }
      Strip(s);
    }
  }
}
