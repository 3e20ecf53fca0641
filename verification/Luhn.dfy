/** The Luhn check digit (Annex B of ISO/IEC 7812-1) over candidate card numbers. */
module Luhn {

  predicate IsDigit(c: char) {
    '0' <= c <= '9'
  }

  function DigitOf(c: char): (d: nat)
    requires IsDigit(c)
    ensures d < 10
  {
    c as int - '0' as int
  }

  predicate Digits(s: string) {
    forall i :: 0 <= i < |s| ==> IsDigit(s[i])
  }

  /** A digit's share of the sum: every second one from the right is doubled. */
  function Weight(d: nat, alternate: bool): (w: nat)
    requires d < 10
    ensures w < 10
  {
    if !alternate then d else if 2 * d > 9 then 2 * d - 9 else 2 * d
  }

  /** The sum from the right; `alternate` is whether the last digit is doubled. */
  function Sum(s: string, alternate: bool): nat
    requires Digits(s)
  {
    if s == "" then 0
    else
      Weight(DigitOf(s[|s| - 1]), alternate) + Sum(s[..|s| - 1], !alternate)
  }

  predicate Valid(s: string) {
    Digits(s) && Sum(s, false) % 10 == 0
  }

  method LuhnValid(digits: string) returns (ok: bool)
    ensures ok <==> Valid(digits)
  {
    var sum: nat := 0;
    var alternate := false;
    assert digits[..|digits|] == digits;
    for i := |digits| downto 0
      invariant Digits(digits[i..])
      invariant Digits(digits) ==> Digits(digits[..i]) && sum + Sum(digits[..i], alternate) == Sum(digits, false)
    {
      var c := digits[i];
      assert digits[..i + 1][..i] == digits[..i] && digits[i..] == [c] + digits[i + 1..];
      if !IsDigit(c) {
        return false;
      }
      sum := sum + Weight(DigitOf(c), alternate);
      alternate := !alternate;
    }
    assert digits[0..] == digits;
    ok := sum % 10 == 0;
  }

  // ---- The standard's own wording ----

  function DigitSum(n: nat): nat {
    if n < 10 then n else n % 10 + DigitSum(n / 10)
  }

  /** Pair by pair from the right: the last digit as it is, the one before it as the
      digit sum of its double. */
  function ByPairs(s: string): nat
    requires Digits(s)
  {
    var n := |s|;
    if n == 0 then 0
    else if n == 1 then DigitOf(s[0])
    else DigitOf(s[n - 1]) + DigitSum(2 * DigitOf(s[n - 2])) + ByPairs(s[..n - 2])
  }

  lemma WeightIsDigitSum(d: nat)
    requires d < 10
    ensures Weight(d, true) == DigitSum(2 * d) && Weight(d, false) == d
  {
    if 2 * d >= 10 {
      assert DigitSum(2 * d) == 2 * d % 10 + DigitSum(2 * d / 10);
    }
  }

  lemma {:induction false} SumByPairs(s: string)
    requires Digits(s)
    ensures Sum(s, false) == ByPairs(s)
    decreases |s|
  {
    hide Weight, DigitSum, DigitOf;
    var n := |s|;
    if n == 1 {
      WeightIsDigitSum(DigitOf(s[0]));
      assert Sum(s[..0], true) == 0;
    } else if n > 1 {
      var d, e := DigitOf(s[n - 1]), DigitOf(s[n - 2]);
      WeightIsDigitSum(d);
      WeightIsDigitSum(e);
      assert s[..n - 1][..n - 2] == s[..n - 2] && s[..n - 1][n - 2] == s[n - 2];
      assert Sum(s[..n - 1], true) == Weight(e, true) + Sum(s[..n - 2], false);
      SumByPairs(s[..n - 2]);
    }
  }

  /** A number is valid if and only if it consists of digits and this sum ends in 0. */
  lemma ValidByPairs(s: string)
    ensures Valid(s) <==> Digits(s) && ByPairs(s) % 10 == 0
  {
    if Digits(s) {
      SumByPairs(s);
    }
  }

  lemma {:induction false} SumLeadingZero(s: string, alternate: bool)
    requires Digits(s)
    ensures Digits("0" + s) && Sum("0" + s, alternate) == Sum(s, alternate)
    decreases |s|
  {
    var t := "0" + s;
    if s == "" {
      assert t[..0] == "";
    } else {
      assert t[..|t| - 1] == "0" + s[..|s| - 1] && t[|t| - 1] == s[|s| - 1];
      hide Weight;
      SumLeadingZero(s[..|s| - 1], !alternate);
    }
  }

  /** Leading zeros do not matter. */
  lemma LeadingZero(s: string)
    ensures Valid("0" + s) <==> Valid(s)
  {
    if Digits(s) {
      SumLeadingZero(s, false);
    } else if Digits("0" + s) {
      forall i | 0 <= i < |s| ensures IsDigit(s[i]) {
        assert ("0" + s)[i + 1] == s[i];
      }
    }
  }

  /** Distinct digits have distinct shares. */
  lemma WeightInjective(a: nat, b: nat, alternate: bool)
    requires a < 10 && b < 10 && Weight(a, alternate) == Weight(b, alternate)
    ensures a == b
  {
  }

  /** Whether the digit at position `i` is doubled. */
  function Alternates(n: nat, i: nat, alternate: bool): bool
    requires i < n
  {
    if (n - 1 - i) % 2 == 0 then alternate else !alternate
  }

  lemma AlternatesBefore(n: nat, i: nat, alternate: bool)
    requires i < n
    ensures Alternates(n, i, !alternate) == Alternates(n + 1, i, alternate)
  {
  }

  /** A shift by less than ten keeps a multiple of ten only if it is none. */
  lemma SmallShift(sum: int, shift: int)
    requires sum % 10 == 0 && -10 < shift < 10 && (sum + shift) % 10 == 0
    ensures shift == 0
  {
  }

  /** Changing one digit changes the sum by the change of its share. */
  lemma {:induction false} SumUpdate(s: string, i: nat, c: char, alternate: bool)
    requires Digits(s) && i < |s| && IsDigit(c)
    ensures Digits(s[i := c])
    ensures var a := Alternates(|s|, i, alternate);
            Sum(s[i := c], alternate) == Sum(s, alternate) - Weight(DigitOf(s[i]), a) + Weight(DigitOf(c), a)
    decreases |s|
  {
    var t := s[i := c];
    var n := |s| - 1;
    hide Weight, DigitOf;
    assert Digits(t);
    if i == n {
      assert t[..n] == s[..n];
    } else {
      assert t[..n] == s[..n][i := c] && t[n] == s[n];
      AlternatesBefore(n, i, alternate);
      hide Alternates;
      SumUpdate(s[..n], i, c, !alternate);
    }
  }

  /** Changing any single digit of a valid number makes it invalid. */
  lemma SingleErrorDetected(s: string, i: nat, c: char)
    requires Valid(s) && i < |s| && IsDigit(c) && c != s[i]
    ensures !Valid(s[i := c])
  {
    SumUpdate(s, i, c, false);
    var a := Alternates(|s|, i, false);
    hide Sum, Weight, Alternates;
    if Valid(s[i := c]) {
      SmallShift(Sum(s, false), Weight(DigitOf(c), a) - Weight(DigitOf(s[i]), a));
      WeightInjective(DigitOf(s[i]), DigitOf(c), a);
    }
  }

  /** Swapping two adjacent distinct digits of a valid number goes unnoticed
      exactly when they are 0 and 9. */
  lemma TranspositionDetected(s: string, i: nat)
    requires Valid(s) && i + 1 < |s| && s[i] != s[i + 1]
    ensures var t := s[i := s[i + 1]][i + 1 := s[i]];
            Valid(t) <==> {s[i], s[i + 1]} == {'0', '9'}
  {
    hide Sum, Weight;
    var x, y := s[i], s[i + 1];
    var u := s[i := y];
    SumUpdate(s, i, y, false);
    SumUpdate(u, i + 1, x, false);
    var a := Alternates(|s|, i, false);
    assert Alternates(|s|, i + 1, false) == !a;
    TranspositionShare(DigitOf(x), DigitOf(y), a);
    PairIs(x, y);
  }

  lemma PairIs(x: char, y: char)
    requires x != y && IsDigit(x) && IsDigit(y)
    ensures (x == '0' <==> DigitOf(x) == 0) && (x == '9' <==> DigitOf(x) == 9)
    ensures (y == '0' <==> DigitOf(y) == 0) && (y == '9' <==> DigitOf(y) == 9)
    ensures {x, y} == {'0', '9'} <==> (x == '0' && y == '9') || (x == '9' && y == '0')
  {
    assert x in {x, y} && y in {x, y} && '0' in {'0', '9'} && '9' in {'0', '9'};
  }

  lemma TranspositionShare(x: nat, y: nat, a: bool)
    requires x < 10 && y < 10 && x != y
    ensures (Weight(y, a) - Weight(x, a) + Weight(x, !a) - Weight(y, !a)) % 10 == 0 <==>
            (x == 0 && y == 9) || (x == 9 && y == 0)
  {
  }

  function DigitChar(d: nat): (c: char)
    requires d < 10
    ensures IsDigit(c) && DigitOf(c) == d
  {
    ('0' as int + d) as char
  }

  /** The one digit that completes a prefix. */
  function CheckDigit(prefix: string): (c: char)
    requires Digits(prefix)
    ensures IsDigit(c)
  {
    DigitChar((10 - Sum(prefix, true) % 10) % 10)
  }

  lemma Completes(d: nat, sum: nat)
    requires d < 10
    ensures (d + sum) % 10 == 0 <==> d == (10 - sum % 10) % 10
  {
  }

  /** Every prefix has exactly one valid check digit. */
  lemma ExactlyOneCheckDigit(prefix: string, c: char)
    requires Digits(prefix)
    ensures Valid(prefix + [c]) <==> c == CheckDigit(prefix)
  {
    var s := prefix + [c];
    assert s[..|prefix|] == prefix && s[|prefix|] == c;
    if IsDigit(c) {
      assert Sum(s, false) == DigitOf(c) + Sum(prefix, true);
      hide Sum;
      Completes(DigitOf(c), Sum(prefix, true));
      assert c == DigitChar(DigitOf(c));
    }
  }
}
