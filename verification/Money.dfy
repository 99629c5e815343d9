/** Amounts of points as the `numeric(16, 2)` columns hold them: integer cents. */
module Money {

  /** A `numeric(16, 2)` column holds magnitudes below this many cents. */
  const CENTS_LIMIT: int := 10_000_000_000_000_000

  function Abs(x: real): (r: real)
    ensures r >= 0.0 && (r == x || r == -x)
  {
    if x < 0.0 then -x else x
  }

  /** True when an amount can be stored in a `numeric(16, 2)` column. */
  predicate Fits(cents: int) {
    -CENTS_LIMIT < cents < CENTS_LIMIT
  }

  /** The number of decimal digits of `n`; none for 0. */
  function Digits(n: nat): nat
    decreases n
  {
    if n == 0 then 0 else 1 + Digits(n / 10)
  }

  function Pow10(k: nat): (p: nat)
    ensures p > 0
  {
    if k == 0 then 1 else 10 * Pow10(k - 1)
  }

  /** A number below a power of ten has at most so many digits. */
  lemma {:induction false} DigitsBelow(n: nat, k: nat)
    ensures Digits(n) <= k <==> n < Pow10(k)
  {
    if n > 0 && k > 0 {
      DigitsBelow(n / 10, k - 1);
    } else if n > 0 {
      assert Pow10(k) == 1 && Digits(n) == 1 + Digits(n / 10);
    }
  }

  /** An amount fits exactly when its cents have at most 16 digits, of which two are decimals. */
  lemma FitsExactly(cents: int)
    ensures Fits(cents) <==> Digits(if cents < 0 then -cents else cents) <= 16
  {
    DigitsBelow(if cents < 0 then -cents else cents, 16);
    assert Pow10(16) == CENTS_LIMIT by {
      assert Pow10(4) == 10_000;
      assert Pow10(8) == 100_000_000;
      assert Pow10(12) == 1_000_000_000_000;
    }
  }

  /** What storing `x` in a `numeric(16, 2)` column keeps of it: the nearest number of
      cents, halves going away from zero. */
  function RoundCents(x: real): (cents: int)
    ensures Abs(cents as real - 100.0 * x) <= 0.5
    ensures Abs(cents as real - 100.0 * x) == 0.5 ==> Abs(cents as real) > Abs(100.0 * x)
    ensures x >= 0.0 ==> cents >= 0
    ensures x <= 0.0 ==> cents <= 0
  {
    if x >= 0.0 then (100.0 * x + 0.5).Floor else -((0.5 - 100.0 * x).Floor)
  }

  /** An amount that already has two decimals survives the column unchanged. */
  lemma RoundExact(cents: int)
    ensures RoundCents(cents as real / 100.0) == cents
  {
    var x := cents as real / 100.0;
    assert 100.0 * x == cents as real;
  }
}
