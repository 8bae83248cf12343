/** Hexadecimal text (main/BridgeUtils.cpp, decToHexa). */
module Hex {
  import opened Common
  import opened Decimal

  /** C++ division and remainder by 16: both truncate toward zero. */
  function TruncDiv16(n: int): int {
    if n >= 0 then n / 16 else -(-n / 16)
  }

  function TruncMod16(n: int): (r: int)
    ensures -16 < r < 16
  {
    n - 16 * TruncDiv16(n)
  }

  function HexChar(rem: int): char
    requires -16 < rem < 16
  {
    (if rem < 10 then rem + 48 else rem + 55) as char
  }

  /** The digit a character stands for; characters below '0' stand for negative digits. */
  function CharValue(c: char): int {
    if c <= '9' then c as int - 48 else c as int - 55
  }

  function HexValue(s: string): int {
    if s == "" then 0 else 16 * HexValue(s[..|s| - 1]) + CharValue(s[|s| - 1])
  }

  /** The text decToHexa produces, most significant digit first. */
  function HexText(n: int): string
    decreases if n < 0 then -n else n
  {
    if n == 0 then "" else HexText(TruncDiv16(n)) + [HexChar(TruncMod16(n))]
  }

  function Reversed(s: string): (r: string)
    ensures |r| == |s|
  {
    seq(|s|, i requires 0 <= i < |s| => s[|s| - 1 - i])
  }

  lemma ReversedSnoc(s: string, c: char)
    ensures Reversed(s + [c]) == [c] + Reversed(s)
  {
  }

  lemma PushDigit(t: string, c: char, ans: string)
    ensures (t + [c]) + Reversed(ans) == t + Reversed(ans + [c])
  {
    ReversedSnoc(ans, c);
  }

  /** One turn of the digit loop moves the last digit of what is left to the end of the answer. */
  lemma NextDigit(m: int, ans: string)
    requires m != 0
    ensures HexText(m) + Reversed(ans) == HexText(TruncDiv16(m)) + Reversed(ans + [HexChar(TruncMod16(m))])
  {
    PushDigit(HexText(TruncDiv16(m)), HexChar(TruncMod16(m)), ans);
  }

  method DecToHexa(n: int32) returns (ans: string)
    ensures ans == HexText(n)
  {
    ans := "";
    var m: int := n;
    while m != 0
      invariant HexText(m) + Reversed(ans) == HexText(n)
      decreases if m < 0 then -m else m
    {
      NextDigit(m, ans);
      var rem := TruncMod16(m);
      ans := ans + [HexChar(rem)];
      m := TruncDiv16(m);
    }
    ans := ReverseInPlace(ans);
  }

  /** The outermost characters, up to i and from j on, have been swapped. */
  ghost predicate SwappedUpTo(ans: string, was: string, i: int, j: int) {
    && |ans| == |was| && 0 <= i && i + j == |was| - 1 && i <= j + 2
    && (forall k :: 0 <= k < i && k < |was| ==> ans[k] == was[|was| - 1 - k])
    && (forall k :: j < k < |was| && 0 <= k ==> ans[k] == was[|was| - 1 - k])
    && (forall k :: i <= k <= j ==> ans[k] == was[k])
  }

  lemma SwapOuter(ans: string, was: string, i: int, j: int)
    requires SwappedUpTo(ans, was, i, j) && i <= j
    ensures SwappedUpTo(ans[i := ans[j]][j := ans[i]], was, i + 1, j - 1)
  {
  }

  /** The second loop of decToHexa. */
  method ReverseInPlace(was: string) returns (ans: string)
    ensures ans == Reversed(was)
  {
    ans := was;
    var i, j := 0, |ans| - 1;
    while i <= j
      invariant SwappedUpTo(ans, was, i, j)
    {
      SwapOuter(ans, was, i, j);
      ans := ans[i := ans[j]][j := ans[i]];
      i := i + 1;
      j := j - 1;
    }
  }

  /** Quotient and remainder, and how the digit is read back. */
  lemma TruncParts(n: int)
    ensures n == 16 * TruncDiv16(n) + CharValue(HexChar(TruncMod16(n)))
    ensures TruncDiv16(n) == 0 && n != 0 ==> CharValue(HexChar(TruncMod16(n))) != 0
  {
    var r := TruncMod16(n);
    assert CharValue(HexChar(r)) == r;
  }

  lemma HexValueSnoc(s: string, c: char)
    ensures HexValue(s + [c]) == 16 * HexValue(s) + CharValue(c)
  {
    assert (s + [c])[..|s + [c]| - 1] == s;
  }

  /** What the digits say about the number, without leading zero. */
  ghost predicate Denotes(s: string, n: int) {
    && HexValue(s) == n
    && (s == "" <==> n == 0)
    && (s != "" ==> CharValue(s[0]) != 0)
  }

  lemma DenotesSnoc(s: string, q: int, c: char, n: int)
    requires Denotes(s, q) && n == 16 * q + CharValue(c) != 0 && (q == 0 ==> CharValue(c) != 0)
    ensures Denotes(s + [c], n)
  {
    HexValueSnoc(s, c);
    assert (s + [c])[0] == if s == "" then c else s[0];
  }

  lemma {:induction false} HexTextDenotes(n: int)
    ensures Denotes(HexText(n), n)
    decreases if n < 0 then -n else n
  {
    if n != 0 {
      var q, c := TruncDiv16(n), HexChar(TruncMod16(n));
      HexTextDenotes(q);
      TruncParts(n);
      DenotesSnoc(HexText(q), q, c, n);
    }
  }

  /**
   For every int, positive or negative, the digits evaluate to the number and the first one is not
   zero; only 0 has no digits.
   */
  lemma HexTextValue(n: int)
    ensures HexValue(HexText(n)) == n
    ensures HexText(n) == "" <==> n == 0
    ensures n != 0 ==> CharValue(HexText(n)[0]) != 0
  {
    HexTextDenotes(n);
  }

  predicate IsHexChar(c: char) {
    '0' <= c <= '9' || 'A' <= c <= 'F'
  }

  predicate AllHex(s: string) {
    forall i :: 0 <= i < |s| ==> IsHexChar(s[i])
  }

  /** The text is made of the digits 0-9 and A-F exactly when n is not negative. */
  lemma {:induction false} HexTextChars(n: int)
    ensures AllHex(HexText(n)) <==> n >= 0
    ensures n >= 0 <==> forall i :: 0 <= i < |HexText(n)| ==> '0' <= HexText(n)[i] <= '9' || 'A' <= HexText(n)[i] <= 'F'
    decreases if n < 0 then -n else n
  {
    var s := HexText(n);
    if n > 0 {
      HexTextChars(TruncDiv16(n));
      var t := HexText(TruncDiv16(n));
      assert s == t + [HexChar(TruncMod16(n))];
      assert TruncMod16(n) >= 0 && AllHex(t);
    } else if n < 0 {
      NegativeHexText(n);
    }
  }

  /** A negative int starts with a character below '0'. */
  lemma {:induction false} NegativeHexText(n: int)
    requires n < 0
    ensures HexText(n) != "" && HexText(n)[0] < '0'
    decreases -n
  {
    if n > -16 {
      assert TruncDiv16(n) == 0;
    } else {
      NegativeHexText(TruncDiv16(n));
    }
  }

  /** The length is the least k with |n| < 16^k. */
  lemma {:induction false} HexTextLength(n: int, k: nat)
    ensures |HexText(n)| <= k <==> (if n < 0 then -n else n) < Power(16, k)
    decreases k
  {
    if n != 0 {
      if k == 0 {
        assert |HexText(n)| >= 1;
      } else {
        HexTextLength(TruncDiv16(n), k - 1);
      }
    } else {
      SixteenPower(k);
    }
  }

  lemma {:induction false} SixteenPower(k: nat)
    ensures Power(16, k) >= 1
  {
    if k > 0 {
      SixteenPower(k - 1);
    }
  }
}
