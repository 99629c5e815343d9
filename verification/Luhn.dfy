/** The check of order numbers: the Luhn formula of Annex B of ISO/IEC 7812-1, as a loop over
    bytes, and what it detects. */
module Luhn {

  type byte = b: int | 0 <= b < 256

  const ZERO: byte := 48

  /** Of the code points below 256, `unicode.IsDigit` accepts the ASCII digits only. */
  predicate IsDigit(b: byte) {
    ZERO <= b <= ZERO + 9
  }

  predicate AllDigits(s: seq<byte>) {
    forall i :: 0 <= i < |s| ==> IsDigit(s[i])
  }

  /** What a digit counts for: doubled ones count the digit sum of their double. */
  function Weight(d: int, doubled: bool): int {
    if !doubled then d else if 2 * d > 9 then 2 * d - 9 else 2 * d
  }

  /** Every second digit is doubled, counted from the right, the last one not. */
  predicate Doubled(s: seq<byte>, i: nat)
    requires i < |s|
  {
    (|s| - 1 - i) % 2 == 1
  }

  /** The weights of the digits from position `i` on. */
  function SumFrom(s: seq<byte>, i: nat): int
    requires i <= |s|
    decreases |s| - i
  {
    if i == |s| then 0 else Weight(s[i] - ZERO, Doubled(s, i)) + SumFrom(s, i + 1)
  }

  predicate Accepts(s: seq<byte>) {
    s != [] && AllDigits(s) && SumFrom(s, 0) % 10 == 0
  }

  // ----- the formula, pair by pair from the right -----

  /** The sum of the decimal digits of `n`. */
  function DigitSum(n: nat): nat
    decreases n
  {
    if n == 0 then 0 else n % 10 + DigitSum(n / 10)
  }

  /** The last digit, the digit sum of twice the one before it, and so on leftwards. */
  function LuhnSum(digits: seq<nat>): nat {
    var n := |digits|;
    if n == 0 then 0
    else if n == 1 then digits[0]
    else LuhnSum(digits[..n - 2]) + DigitSum(2 * digits[n - 2]) + digits[n - 1]
  }

  /** The values of the characters '0' to '9'. */
  function Values(s: seq<byte>): (digits: seq<nat>)
    requires forall i :: 0 <= i < |s| ==> 48 <= s[i] <= 57
    ensures |digits| == |s|
  {
    seq(|s|, i requires 0 <= i < |s| => s[i] - 48)
  }

  /** What a digit counts for: itself, or the digit sum of its double, which is congruent to the
      double modulo 9 and is 0 for 0 only. */
  lemma WeightMeaning(d: nat, doubled: bool)
    requires d <= 9
    ensures Weight(d, false) == d && Weight(d, true) == DigitSum(2 * d) <= 9
    ensures Weight(d, true) % 9 == (2 * d) % 9 && (Weight(d, true) == 0 <==> d == 0)
  {
    var tens := 2 * d / 10;
    assert DigitSum(tens) == tens by {
      assert tens <= 1 && DigitSum(0) == 0;
    }
  }

  /** Where the doubling of a prefix is that of the whole, so are the weights. */
  lemma {:induction false} SumPrefix(s: seq<byte>, i: nat)
    requires |s| >= 2 && i <= |s| - 2
    ensures SumFrom(s, i) == SumFrom(s[..|s| - 2], i) + SumFrom(s, |s| - 2)
    decreases |s| - i
  {
    if i < |s| - 2 {
      SumPrefix(s, i + 1);
      assert Doubled(s, i) == Doubled(s[..|s| - 2], i);
    }
  }

  /** Position by position and pair by pair give the same sum. */
  lemma {:induction false} SumIsLuhnSum(s: seq<byte>)
    requires forall i :: 0 <= i < |s| ==> 48 <= s[i] <= 57
    ensures SumFrom(s, 0) == LuhnSum(Values(s))
  {
    hide Weight, DigitSum;
    var n := |s|;
    if n == 1 {
      WeightMeaning(s[0] - 48, false);
      assert SumFrom(s, 1) == 0;
    } else if n >= 2 {
      SumIsLuhnSum(s[..n - 2]);
      assert Values(s)[..n - 2] == Values(s[..n - 2]);
      SumPrefix(s, 0);
      WeightMeaning(s[n - 2] - 48, true);
      WeightMeaning(s[n - 1] - 48, false);
      assert SumFrom(s, n) == 0;
      assert SumFrom(s, n - 1) == s[n - 1] - 48;
      assert SumFrom(s, n - 2) == DigitSum(2 * (s[n - 2] - 48)) + (s[n - 1] - 48);
    }
  }

  /** The positional form accepts exactly by the sum over pairs. */
  lemma AcceptsExactly(s: seq<byte>)
    ensures Accepts(s) <==>
      && |s| > 0 && (forall i :: 0 <= i < |s| ==> 48 <= s[i] <= 57)
      && LuhnSum(Values(s)) % 10 == 0
  {
    if forall i :: 0 <= i < |s| ==> 48 <= s[i] <= 57 {
      SumIsLuhnSum(s);
    }
  }

  /** For instance "18" is accepted and "17" and "81" are not. */
  lemma Samples()
    ensures Accepts([49, 56]) && !Accepts([49, 55]) && !Accepts([56, 49])
  {
    assert SumFrom([49, 56], 2) == 0 && SumFrom([49, 55], 2) == 0 && SumFrom([56, 49], 2) == 0;
  }

  /** `OrderNumValidation`: true exactly for the non-empty strings of the characters '0' to '9'
      whose sum over pairs is divisible by 10. */
  method OrderNumValidation(number: seq<byte>) returns (ok: bool)
    ensures ok <==>
      && |number| > 0 && (forall i :: 0 <= i < |number| ==> 48 <= number[i] <= 57)
      && LuhnSum(Values(number)) % 10 == 0
    ensures ok == Accepts(number)
  {
    AcceptsExactly(number);
    if number == [] {
      return false;
    }
    var sum := 0;
    var double := false;
    var i := |number| - 1;
    while i >= 0
      invariant -1 <= i < |number|
      invariant forall j :: i < j < |number| ==> IsDigit(number[j])
      invariant double == ((|number| - 1 - i) % 2 == 1)
      invariant sum == SumFrom(number, i + 1)
    {
      var r := number[i];
      if !IsDigit(r) {
        return false;
      }
      var d := r - ZERO;
      if double {
        d := d * 2;
        if d > 9 {
          d := d - 9;
        }
      }
      sum := sum + d;
      double := !double;
      i := i - 1;
    }
    return sum % 10 == 0;
  }

  // ----- what the formula detects -----

  /** Changing one digit changes the sum by the difference of the weights. */
  lemma {:induction false} SumUpdate(s: seq<byte>, k: nat, v: byte, i: nat)
    requires k < |s| && i <= |s|
    ensures SumFrom(s[k := v], i) == SumFrom(s, i)
      + (if i <= k then Weight(v - ZERO, Doubled(s, k)) - Weight(s[k] - ZERO, Doubled(s, k)) else 0)
    decreases |s| - i
  {
    if i < |s| {
      SumUpdate(s, k, v, i + 1);
    }
  }

  /** Different digits have different weights modulo 10, doubled or not. */
  lemma WeightInjective(a: int, b: int, doubled: bool)
    requires 0 <= a <= 9 && 0 <= b <= 9
    ensures (Weight(a, doubled) - Weight(b, doubled)) % 10 == 0 <==> a == b
  {
  }

  /** Every single error is detected: an accepted number with one byte changed is rejected. */
  lemma SingleErrorDetected(s: seq<byte>, k: nat, v: byte)
    requires Accepts(s) && k < |s| && v != s[k]
    ensures !Accepts(s[k := v])
  {
    hide Weight, SumFrom;
    var s' := s[k := v];
    if AllDigits(s') {
      assert IsDigit(s'[k]) && IsDigit(s[k]);
      SumUpdate(s, k, v, 0);
      WeightInjective(v - ZERO, s[k] - ZERO, Doubled(s, k));
    }
  }

  function Swapped(s: seq<byte>, k: nat): seq<byte>
    requires k + 1 < |s|
  {
    s[k := s[k + 1]][k + 1 := s[k]]
  }

  predicate ZeroAndNine(a: byte, b: byte) {
    (a == ZERO && b == ZERO + 9) || (a == ZERO + 9 && b == ZERO)
  }

  /** Swapping two neighbours keeps the sum modulo 10 exactly when they are equal or are 0
      and 9. */
  lemma TranspositionExactly(s: seq<byte>, k: nat)
    requires AllDigits(s) && k + 1 < |s|
    ensures SumFrom(Swapped(s, k), 0) % 10 == SumFrom(s, 0) % 10 <==>
      s[k] == s[k + 1] || ZeroAndNine(s[k], s[k + 1])
  {
    hide Weight, SumFrom;
    var a, b := s[k] - ZERO, s[k + 1] - ZERO;
    assert IsDigit(s[k]) && IsDigit(s[k + 1]);
    SumUpdate(s, k, s[k + 1], 0);
    SumUpdate(s[k := s[k + 1]], k + 1, s[k], 0);
    var change := SumFrom(Swapped(s, k), 0) - SumFrom(s, 0);
    assert Doubled(s, k) != Doubled(s, k + 1);
    SwapChange(a, b, Doubled(s, k), change);
    SameRemainder(SumFrom(s, 0), change);
  }

  lemma SameRemainder(x: int, d: int)
    ensures (x + d) % 10 == x % 10 <==> d % 10 == 0
  {
  }

  lemma SwapChange(a: int, b: int, doubled: bool, change: int)
    requires 0 <= a <= 9 && 0 <= b <= 9
    requires change == Weight(b, doubled) - Weight(a, doubled) + Weight(a, !doubled) - Weight(b, !doubled)
    ensures change % 10 == 0 <==> a == b || (a == 0 && b == 9) || (a == 9 && b == 0)
  {
  }

  /** An accepted number with two neighbours swapped is accepted exactly in those cases. */
  lemma TranspositionDetected(s: seq<byte>, k: nat)
    requires Accepts(s) && k + 1 < |s|
    ensures Accepts(Swapped(s, k)) <==> s[k] == s[k + 1] || ZeroAndNine(s[k], s[k + 1])
  {
    TranspositionExactly(s, k);
    forall i | 0 <= i < |s| ensures IsDigit(Swapped(s, k)[i]) {
      assert IsDigit(s[k]) && IsDigit(s[k + 1]) && IsDigit(s[i]);
    }
  }

  /** The digit that completes a prefix. */
  function CheckDigit(prefix: seq<byte>): (c: byte)
    ensures IsDigit(c)
  {
    ZERO + (10 - SumFrom(prefix + [ZERO], 0) % 10) % 10
  }

  /** Every digit prefix, the empty one too, is completed by exactly one byte. */
  lemma CheckDigitUnique(prefix: seq<byte>, c: byte)
    requires AllDigits(prefix)
    ensures Accepts(prefix + [c]) <==> c == CheckDigit(prefix)
  {
    var n := |prefix|;
    var base := prefix + [ZERO];
    assert base[n := c] == prefix + [c];
    SumUpdate(base, n, c, 0);
    assert SumFrom(prefix + [c], 0) == SumFrom(base, 0) + (c - ZERO);
    if IsDigit(c) {
      Completes(SumFrom(base, 0), c - ZERO);
    } else {
      assert !IsDigit((prefix + [c])[n]);
    }
  }

  lemma Completes(sum: int, d: int)
    requires 0 <= d <= 9
    ensures (sum + d) % 10 == 0 <==> d == (10 - sum % 10) % 10
  {
  }
}
