/** Integers as decimal strings: `String(n)` and `parseInt(s, 10)`. */
module Decimals {
  import opened Options

  predicate IsDigit(c: char) { '0' <= c <= '9' }

  function DigitChar(d: int): (c: char)
    requires 0 <= d < 10
    ensures IsDigit(c) && c as int - '0' as int == d
  {
    ('0' as int + d) as char
  }

  function ShowNat(n: nat): (s: string)
    ensures |s| > 0 && forall k :: 0 <= k < |s| ==> IsDigit(s[k])
  {
    if n < 10 then [DigitChar(n)] else ShowNat(n / 10) + [DigitChar(n % 10)]
  }

  function Show(n: int): string {
    if n < 0 then "-" + ShowNat(-n) else ShowNat(n)
  }

  /** The digits at the start. */
  function DigitPrefix(s: string): (n: nat)
    ensures n <= |s| && (forall k :: 0 <= k < n ==> IsDigit(s[k])) && (n < |s| ==> !IsDigit(s[n]))
  {
    if |s| > 0 && IsDigit(s[0]) then 1 + DigitPrefix(s[1..]) else 0
  }

  function ReadDigits(s: string): nat
    requires forall k :: 0 <= k < |s| ==> IsDigit(s[k])
  {
    if |s| == 0 then 0
    else
      assert IsDigit(s[|s| - 1]);
      10 * ReadDigits(s[..|s| - 1]) + (s[|s| - 1] as int - '0' as int)
  }

  /** None stands for NaN: no digits after an optional sign. Anything behind the digits is ignored. */
  function ParseInt(s: string): Option<int> {
    var signed := |s| > 0 && (s[0] == '-' || s[0] == '+');
    var body := if signed then s[1..] else s;
    var n := DigitPrefix(body);
    if n == 0 then None
    else if signed && s[0] == '-' then Some(-(ReadDigits(body[..n]) as int))
    else Some(ReadDigits(body[..n]))
  }

  lemma {:induction false} ReadShown(n: nat)
    ensures ReadDigits(ShowNat(n)) == n
  {
    if n >= 10 {
      ReadShown(n / 10);
      var s := ShowNat(n);
      assert s[..|s| - 1] == ShowNat(n / 10);
    } else {
      assert [DigitChar(n)][..0] == [];
    }
  }

  lemma {:induction false} ShowNatInjective(a: nat, b: nat)
    requires ShowNat(a) == ShowNat(b)
    ensures a == b
  {
    ReadShown(a);
    ReadShown(b);
  }

  lemma {:induction false} AllDigitsPrefix(s: string)
    requires forall k :: 0 <= k < |s| ==> IsDigit(s[k])
    ensures DigitPrefix(s) == |s|
  {
  }

  lemma {:induction false} DigitsThenOther(digits: string, rest: string, text: string)
    requires text == digits + rest && forall k :: 0 <= k < |digits| ==> IsDigit(digits[k])
    requires |rest| > 0 ==> !IsDigit(rest[0])
    ensures DigitPrefix(text) == |digits| && text[..|digits|] == digits
  {
    assert forall k :: 0 <= k < |digits| ==> text[k] == digits[k];
    assert |rest| > 0 ==> text[|digits|] == rest[0];
  }

  /** Whatever stands behind the digits is ignored. */
  lemma {:induction false} ParseIgnoresRest(n: nat, rest: string)
    requires |rest| > 0 ==> !IsDigit(rest[0])
    ensures ParseInt(ShowNat(n) + rest) == Some(n)
  {
    var digits, text := ShowNat(n), ShowNat(n) + rest;
    DigitsThenOther(digits, rest, text);
    ReadShown(n);
    assert text[0] == digits[0];
  }

  /** One sign may stand in front. */
  lemma {:induction false} ParseSigned(text: string)
    requires |text| > 0 && IsDigit(text[0])
    ensures ParseInt(text).Some? && ParseInt("+" + text) == ParseInt(text)
    ensures ParseInt("-" + text) == Some(-ParseInt(text).value)
  {
    var plus, minus := "+" + text, "-" + text;
    assert plus[1..] == text && minus[1..] == text;
  }

  /** There is no number without a digit in front or right behind one sign. */
  lemma ParsesIff(s: string)
    ensures ParseInt(s).Some? <==>
              |s| > 0 && (IsDigit(s[0]) || ((s[0] == '-' || s[0] == '+') && |s| > 1 && IsDigit(s[1])))
  {
  }

  /** Every integer survives being written and read. */
  lemma {:induction false} ParseShown(n: int)
    ensures ParseInt(Show(n)) == Some(n)
  {
    var digits := ShowNat(if n < 0 then -n else n);
    AllDigitsPrefix(digits);
    ReadShown(if n < 0 then -n else n);
    assert digits[..|digits|] == digits;
    if n < 0 {
      assert Show(n)[1..] == digits;
    }
  }
}
