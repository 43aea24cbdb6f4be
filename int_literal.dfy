/**
 * Python's `int(k)` on one token of the event file, in base 10: an optional
 * sign, then decimal digits in which single underscores may stand between
 * two digits. Any other token raises ValueError, modelled as `None`.
 */
module IntLiteral {
  import opened Wrappers

  predicate IsDigit(c: char)
  {
    '0' <= c <= '9'
  }

  function DigitValue(c: char): (d: nat)
    requires IsDigit(c)
    ensures d < 10
  {
    (c as int) - ('0' as int)
  }

  function DigitChar(d: nat): (c: char)
    requires d < 10
    ensures IsDigit(c) && DigitValue(c) == d
  {
    ('0' as int + d) as char
  }

  /** Digits and underscores only. */
  predicate DigitsOrUnderscores(s: string)
  {
    forall i :: 0 <= i < |s| ==> IsDigit(s[i]) || s[i] == '_'
  }

  /** The unsigned part of a base-10 integer literal as `int()` accepts it. */
  predicate WellFormedDigits(s: string)
  {
    && |s| > 0
    && IsDigit(s[0])
    && IsDigit(s[|s| - 1])
    && DigitsOrUnderscores(s)
    && forall i :: 0 <= i < |s| - 1 && s[i] == '_' ==> s[i + 1] != '_'
  }

  /** The value of the digits of `s`, read left to right; underscores are skipped. */
  function DigitsValue(s: string): nat
    requires DigitsOrUnderscores(s)
  {
    if s == [] then 0
    else
      var high := DigitsValue(s[..|s| - 1]);
      if s[|s| - 1] == '_' then high else high * 10 + DigitValue(s[|s| - 1])
  }

  predicate IsSign(c: char)
  {
    c == '+' || c == '-'
  }

  /** `int(s)` for a token `s` (which `split()` has already stripped of whitespace). */
  function ParseInt(s: string): (r: Option<int>)
    ensures r.Some? && r.value < 0 ==> |s| > 0 && s[0] == '-'
    ensures r.Some? ==> |s| > 0 && IsDigit(s[|s| - 1])
  {
    if |s| > 0 && IsSign(s[0]) then
      if WellFormedDigits(s[1..]) then
        var v: int := DigitsValue(s[1..]);
        Some(if s[0] == '-' then -v else v)
      else None
    else if WellFormedDigits(s) then Some(DigitsValue(s))
    else None
  }

  /** `str(n)` for a non-negative `n`: its decimal digits without leading zeros. */
  function ShowNat(n: nat): (s: string)
    ensures |s| > 0
    ensures forall i :: 0 <= i < |s| ==> IsDigit(s[i])
    ensures |s| > 1 ==> s[0] != '0'
  {
    if n < 10 then [DigitChar(n)] else ShowNat(n / 10) + [DigitChar(n % 10)]
  }

  /** `str(n)`. */
  function ShowInt(n: int): string
  {
    if n < 0 then "-" + ShowNat(-n) else ShowNat(n)
  }

  lemma {:induction false} ShowNatValue(n: nat)
    ensures WellFormedDigits(ShowNat(n))
    ensures DigitsValue(ShowNat(n)) == n
  {
    if n >= 10 {
      var s := ShowNat(n);
      assert s[..|s| - 1] == ShowNat(n / 10);
      ShowNatValue(n / 10);
    }
  }

  lemma ParseUnsigned(d: string)
    requires WellFormedDigits(d)
    ensures ParseInt(d) == Some(DigitsValue(d))
  {
    assert !IsSign(d[0]);
  }

  lemma ParseNegative(d: string)
    requires WellFormedDigits(d)
    ensures ParseInt("-" + d) == Some(0 - DigitsValue(d) as int)
  {
    var s := "-" + d;
    assert s[0] == '-' && s[1..] == d;
  }

  /** Round trip: `int(str(n)) == n` for every integer `n`. */
  lemma ParseShowInt(n: int)
    ensures ParseInt(ShowInt(n)) == Some(n)
  {
    if n < 0 {
      ShowNatValue(-n);
      ParseNegative(ShowNat(-n));
    } else {
      ShowNatValue(n);
      ParseUnsigned(ShowNat(n));
    }
  }

  /** The digits of `s` with the underscores removed. */
  function DropUnderscores(s: string): (d: string)
    ensures forall i :: 0 <= i < |d| ==> d[i] != '_'
    ensures |s| > 0 && s[|s| - 1] != '_' ==> |d| > 0 && d[|d| - 1] == s[|s| - 1]
  {
    if s == [] then []
    else if s[|s| - 1] == '_' then DropUnderscores(s[..|s| - 1])
    else DropUnderscores(s[..|s| - 1]) + [s[|s| - 1]]
  }

  lemma {:induction false} DropUnderscoresValue(s: string)
    requires DigitsOrUnderscores(s)
    ensures DigitsOrUnderscores(DropUnderscores(s))
    ensures DigitsValue(DropUnderscores(s)) == DigitsValue(s)
  {
    if s != [] {
      var p := s[..|s| - 1];
      DropUnderscoresValue(p);
      if s[|s| - 1] != '_' {
        var d := DropUnderscores(s);
        assert d[..|d| - 1] == DropUnderscores(p);
      }
    }
  }

  /** Underscores are only a visual separator: `int("1_000") == int("1000")`. */
  lemma UnderscoresIgnored(s: string)
    requires WellFormedDigits(s)
    ensures WellFormedDigits(DropUnderscores(s))
    ensures ParseInt(DropUnderscores(s)) == ParseInt(s)
  {
    DropUnderscoresValue(s);
    DropUnderscoresKeepsFirst(s);
  }

  lemma {:induction false} DropUnderscoresKeepsFirst(s: string)
    requires |s| > 0 && IsDigit(s[0])
    ensures |DropUnderscores(s)| > 0 && DropUnderscores(s)[0] == s[0]
  {
    if |s| > 1 {
      DropUnderscoresKeepsFirst(s[..|s| - 1]);
    }
  }
}
