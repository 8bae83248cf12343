/** Decimal text: std::to_string and std::stoi, as the URI code uses them. */
module Decimal {
  import opened Common

  predicate IsDigit(c: char) {
    '0' <= c <= '9'
  }

  function DigitChar(d: nat): (c: char)
    requires d < 10
  {
    (48 + d) as char
  }

  function DigitValue(c: char): int {
    c as int - 48
  }

  function Digits(n: nat): string {
    if n < 10 then [DigitChar(n)] else Digits(n / 10) + [DigitChar(n % 10)]
  }

  /** std::to_string */
  function ToString(n: int): string {
    if n < 0 then "-" + Digits(-n) else Digits(n)
  }

  /** The value of a run of decimal digits. */
  function Value(ds: string): int {
    if ds == "" then 0 else 10 * Value(ds[..|ds| - 1]) + DigitValue(ds[|ds| - 1])
  }

  /** The longest run of digits at the start of s. */
  function Leading(s: string): string {
    if s == "" || !IsDigit(s[0]) then "" else [s[0]] + Leading(s[1..])
  }

  /** std::isspace in the C locale. */
  predicate IsSpace(c: char) {
    c == ' ' || 9 <= c as int <= 13
  }

  function SkipSpaces(s: string): string {
    if s != "" && IsSpace(s[0]) then SkipSpaces(s[1..]) else s
  }

  /** std::stoi in base 10: white space, an optional sign, the longest run of digits; anything after it is ignored. */
  function Stoi(s: string): Result<int32> {
    Signed(SkipSpaces(s))
  }

  function Signed(t: string): Result<int32> {
    if t != "" && t[0] == '-' then Convert(Leading(t[1..]), true)
    else if t != "" && t[0] == '+' then Convert(Leading(t[1..]), false)
    else Convert(Leading(t), false)
  }

  /** A run of digits as an int. */
  function Convert(ds: string, negative: bool): Result<int32> {
    if ds == "" then Err(InvalidArgument) else ToInt(if negative then -Value(ds) else Value(ds))
  }

  function ToInt(v: int): Result<int32> {
    if -0x8000_0000 <= v < 0x8000_0000 then Ok(v) else Err(OutOfRange)
  }

  lemma {:induction false} DigitsText(n: nat)
    ensures Digits(n) != "" && forall i :: 0 <= i < |Digits(n)| ==> IsDigit(Digits(n)[i])
    ensures Value(Digits(n)) == n
  {
    if n >= 10 {
      DigitsText(n / 10);
      var ds := Digits(n);
      assert ds[..|ds| - 1] == Digits(n / 10);
    } else {
      assert Digits(n)[..0] == "";
    }
  }

  /** The usual decimal writing of n: digits only, and no zero in front but for 0 itself. */
  ghost predicate IsDecimal(s: string, n: int) {
    && s != ""
    && (forall i :: 0 <= i < |s| ==> '0' <= s[i] <= '9')
    && (s[0] == '0' ==> |s| == 1)
    && Value(s) == n
  }

  lemma ValueOne(s: string)
    requires |s| == 1
    ensures Value(s) == s[0] as int - 48
  {
    assert Value(s[..0]) == 0;
  }

  lemma DecimalFront(s: string, n: int)
    requires IsDecimal(s, n) && |s| > 1
    ensures n >= 10 && IsDecimal(s[..|s| - 1], n / 10) && s[|s| - 1] as int == 48 + n % 10
    decreases |s|
  {
    var t, d := s[..|s| - 1], s[|s| - 1] as int - 48;
    assert 0 <= d < 10 && n == 10 * Value(t) + d;
    if |t| == 1 {
      ValueOne(t);
    } else {
      DecimalFront(t, Value(t));
    }
  }

  /** Every number has only one decimal writing, and Digits is it. */
  lemma {:induction false} DigitsAreDecimal(s: string, n: nat)
    ensures IsDecimal(s, n) <==> s == Digits(n)
  {
    DigitsWriteIt(n);
    if IsDecimal(s, n) {
      if |s| > 1 {
        DecimalFront(s, n);
        DigitsAreDecimal(s[..|s| - 1], n / 10);
        assert s == s[..|s| - 1] + [s[|s| - 1]];
      } else {
        ValueOne(s);
      }
    }
  }

  lemma {:induction false} DigitsWriteIt(n: nat)
    ensures IsDecimal(Digits(n), n)
    ensures Digits(n)[0] == '0' <==> n == 0
  {
    DigitsText(n);
    if n >= 10 {
      DigitsWriteIt(n / 10);
      assert Digits(n)[0] == Digits(n / 10)[0];
    }
  }

  /** std::to_string writes every int in the usual way, with a minus in front if it is negative. */
  lemma ToStringIsDecimal(s: string, n: int)
    ensures s == ToString(n) <==> if n >= 0 then IsDecimal(s, n) else s != "" && s[0] == '-' && IsDecimal(s[1..], -n)
  {
    if n >= 0 {
      DigitsAreDecimal(s, n);
    } else {
      if s != "" {
        DigitsAreDecimal(s[1..], -n);
        assert s == [s[0]] + s[1..];
      }
      assert ("-" + Digits(-n))[1..] == Digits(-n);
    }
  }

  lemma {:induction false} DigitsLength(n: nat, k: nat, bound: nat)
    requires k >= 1 && bound == Power(10, k)
    ensures |Digits(n)| <= k <==> n < bound
    decreases k
  {
    if n < 10 {
      TenPower(k);
    } else if k > 1 {
      DigitsLength(n / 10, k - 1, Power(10, k - 1));
    } else {
      assert Power(10, 0) == 1;
      DigitsText(n / 10);
    }
  }

  function Power(b: nat, k: nat): nat {
    if k == 0 then 1 else b * Power(b, k - 1)
  }

  lemma {:induction false} TenPower(k: nat)
    requires k >= 1
    ensures Power(10, k) >= 10
  {
    if k > 1 {
      TenPower(k - 1);
    }
  }

  lemma {:induction false} LeadingOf(ds: string)
    requires forall i :: 0 <= i < |ds| ==> IsDigit(ds[i])
    ensures Leading(ds) == ds
  {
    if ds != "" {
      LeadingOf(ds[1..]);
      assert ds == [ds[0]] + ds[1..];
    }
  }

  /** std::stoi undoes std::to_string on every int, and throws on every integer an int cannot hold. */
  lemma StoiOfToString(n: int)
    ensures Stoi(ToString(n)) == if -0x8000_0000 <= n < 0x8000_0000 then Ok(n) else Err(OutOfRange)
  {
    var ds := Digits(if n < 0 then -n else n);
    DigitsText(if n < 0 then -n else n);
    LeadingOf(ds);
    if n < 0 {
      StoiAfterMinus("-" + ds, ds);
    } else {
      StoiOfDigits(ds);
    }
  }

  lemma StoiOfDigits(ds: string)
    requires ds != "" && IsDigit(ds[0])
    ensures Stoi(ds) == Convert(Leading(ds), false)
  {
  }

  lemma StoiAfterMinus(s: string, ds: string)
    requires s == "-" + ds
    ensures Stoi(s) == Convert(Leading(ds), true)
  {
    assert s[0] == '-' && s[1..] == ds;
    assert SkipSpaces(s) == s;
  }

  lemma {:induction false} SpacesSkipped(w: string, s: string)
    requires (forall i :: 0 <= i < |w| ==> IsSpace(w[i])) && s != "" && !IsSpace(s[0])
    ensures SkipSpaces(w + s) == s
  {
    if w == "" {
      assert w + s == s;
    } else {
      SpacesSkipped(w[1..], s);
      assert (w + s)[1..] == w[1..] + s;
    }
  }

  lemma {:induction false} LeadingDigits(ds: string, rest: string)
    requires (forall i :: 0 <= i < |ds| ==> IsDigit(ds[i])) && (rest == "" || !IsDigit(rest[0]))
    ensures Leading(ds + rest) == ds
  {
    if ds == "" {
      assert ds + rest == rest;
    } else {
      LeadingDigits(ds[1..], rest);
      assert (ds + rest)[1..] == ds[1..] + rest;
      assert ds == [ds[0]] + ds[1..];
    }
  }

  predicate IsSign(sign: string, negative: bool) {
    if negative then sign == "-" else sign == "" || sign == "+"
  }

  lemma SignedStart(sign: string, negative: bool, t: string)
    requires IsSign(sign, negative) && t != "" && IsDigit(t[0])
    ensures sign + t != "" && !IsSpace((sign + t)[0])
    ensures Signed(sign + t) == Convert(Leading(t), negative)
  {
    if sign == "" {
      assert sign + t == t;
    } else {
      assert (sign + t)[0] == sign[0] && (sign + t)[1..] == t;
    }
  }

  lemma DigitsStart(ds: string, rest: string)
    requires ds != "" && (forall i :: 0 <= i < |ds| ==> IsDigit(ds[i])) && (rest == "" || !IsDigit(rest[0]))
    ensures ds + rest != "" && IsDigit((ds + rest)[0]) && Leading(ds + rest) == ds
  {
    LeadingDigits(ds, rest);
    assert (ds + rest)[0] == ds[0];
  }

  lemma NumberReads(sign: string, negative: bool, ds: string, rest: string)
    requires IsSign(sign, negative)
    requires ds != "" && (forall i :: 0 <= i < |ds| ==> IsDigit(ds[i])) && (rest == "" || !IsDigit(rest[0]))
    ensures sign + (ds + rest) != "" && !IsSpace((sign + (ds + rest))[0])
    ensures Signed(sign + (ds + rest)) == Convert(ds, negative)
  {
    DigitsStart(ds, rest);
    SignedStart(sign, negative, ds + rest);
  }

  /** After white space, std::stoi converts what comes first that is not. */
  lemma StoiSkips(w: string, t: string)
    requires (forall i :: 0 <= i < |w| ==> IsSpace(w[i])) && t != "" && !IsSpace(t[0])
    ensures Stoi(w + t) == Signed(t)
  {
    SpacesSkipped(w, t);
  }

  lemma ConvertIs(ds: string, negative: bool, v: int)
    requires ds != "" && v == (if negative then -Value(ds) else Value(ds))
    ensures Convert(ds, negative) == if -0x8000_0000 <= v < 0x8000_0000 then Ok(v) else Err(OutOfRange)
  {
  }

  /** White space in front, a sign, a run of digits and anything that is no digit: the number the digits stand for. */
  lemma StoiReads(w: string, sign: string, negative: bool, ds: string, rest: string, v: int)
    requires (forall i :: 0 <= i < |w| ==> IsSpace(w[i])) && IsSign(sign, negative)
    requires ds != "" && (forall i :: 0 <= i < |ds| ==> IsDigit(ds[i])) && (rest == "" || !IsDigit(rest[0]))
    requires v == if negative then -Value(ds) else Value(ds)
    ensures Stoi(w + (sign + (ds + rest))) == if -0x8000_0000 <= v < 0x8000_0000 then Ok(v) else Err(OutOfRange)
  {
    NumberReads(sign, negative, ds, rest);
    ConvertIs(ds, negative, v);
    StoiSkips(w, sign + (ds + rest));
  }

  lemma ToStringChars(n: int)
    ensures forall i :: 0 <= i < |ToString(n)| ==> ToString(n)[i] == '-' || IsDigit(ToString(n)[i])
  {
    DigitsText(if n < 0 then -n else n);
  }

  /** The printed form determines the integer. */
  lemma ToStringInjective(m: int, n: int)
    requires ToString(m) == ToString(n)
    ensures m == n
  {
    DigitsText(if m < 0 then -m else m);
    DigitsText(if n < 0 then -n else n);
    var dm, dn := Digits(if m < 0 then -m else m), Digits(if n < 0 then -n else n);
    assert IsDigit(dm[0]) && IsDigit(dn[0]);
    assert (['-'] + dm)[1..] == dm && (['-'] + dn)[1..] == dn;
  }
}
