/** Base-2 digit strings.

    `ToBase2` is what JavaScript's `Number.prototype.toString(2)` produces for
    a non-negative integer; `FromBase2` is the value of a string of binary
    digits read most significant digit first, which is what `parseInt(s, 2)`
    computes on such a string.
 */
module Base2 {

  predicate IsBit(c: char) {
    c == '0' || c == '1'
  }

  /** Every character of `s` is a binary digit. */
  predicate IsBits(s: string) {
    forall i :: 0 <= i < |s| ==> IsBit(s[i])
  }

  function Pow2(n: nat): (r: nat)
    ensures r >= 1
  {
    if n == 0 then 1 else 2 * Pow2(n - 1)
  }

  function Digit(b: nat): (c: char)
    requires b < 2
  {
    if b == 0 then '0' else '1'
  }

  function BitValue(c: char): (b: nat)
    requires IsBit(c)
  {
    if c == '0' then 0 else 1
  }

  /** `k` copies of the character '0'. */
  function Zeros(k: nat): (r: string)
    ensures |r| == k && IsBits(r)
  {
    seq(k, _ => '0')
  }

  /** The base-2 digits of `n`, most significant first, with no leading zero
      (zero itself is the single digit "0"). */
  function ToBase2(n: nat): (r: string)
    ensures |r| >= 1 && IsBits(r)
    decreases n
  {
    if n < 2 then [Digit(n)] else ToBase2(n / 2) + [Digit(n % 2)]
  }

  /** The value of a string of binary digits; it always fits in as many bits
      as the string has digits. */
  function FromBase2(s: string): (r: nat)
    requires IsBits(s)
    ensures r < Pow2(|s|)
  {
    if s == [] then 0 else 2 * FromBase2(s[..|s| - 1]) + BitValue(s[|s| - 1])
  }

  lemma {:induction false} Pow2Monotone(a: nat, b: nat)
    requires a <= b
    ensures Pow2(a) <= Pow2(b)
    decreases b - a
  {
    if a < b {
      Pow2Monotone(a, b - 1);
    }
  }

  /** Reading the digits that `ToBase2` writes gives the number back. */
  lemma {:induction false} FromToBase2(n: nat)
    ensures FromBase2(ToBase2(n)) == n
    decreases n
  {
    if n >= 2 {
      var t := ToBase2(n);
      assert t[..|t| - 1] == ToBase2(n / 2);
      FromToBase2(n / 2);
    }
  }

  /** `ToBase2` writes no leading zero: its first digit is '0' exactly for zero. */
  lemma {:induction false} ToBase2LeadingDigit(n: nat)
    ensures ToBase2(n)[0] == '0' <==> n == 0
    decreases n
  {
    if n >= 2 {
      ToBase2LeadingDigit(n / 2);
    }
  }

  /** `ToBase2(n)` has exactly the bit length of `n`:
      2^(len-1) <= n < 2^len for positive `n`. */
  lemma {:induction false} ToBase2Length(n: nat)
    ensures n < Pow2(|ToBase2(n)|)
    ensures n >= 1 ==> Pow2(|ToBase2(n)| - 1) <= n
    decreases n
  {
    FromToBase2(n);
    if n >= 2 {
      ToBase2Length(n / 2);
    }
  }

  /** For a width `p` of at least one digit, `ToBase2(n)` fits in `p`
      characters exactly when `n < 2^p`. */
  lemma ToBase2Fits(n: nat, p: nat)
    requires p >= 1
    ensures |ToBase2(n)| <= p <==> n < Pow2(p)
  {
    ToBase2Length(n);
    if |ToBase2(n)| <= p {
      Pow2Monotone(|ToBase2(n)|, p);
    } else {
      assert n >= 1;
      Pow2Monotone(p, |ToBase2(n)| - 1);
    }
  }

  /** The value of a concatenation: the digits of `b` are the low-order ones. */
  lemma {:induction false} FromBase2Append(a: string, b: string)
    requires IsBits(a) && IsBits(b)
    ensures IsBits(a + b)
    ensures FromBase2(a + b) == FromBase2(a) * Pow2(|b|) + FromBase2(b)
    decreases |b|
  {
    if b == [] {
      assert a + b == a;
    } else {
      var b' := b[..|b| - 1];
      assert (a + b)[..|a + b| - 1] == a + b';
      FromBase2Append(a, b');
      ShiftStep(FromBase2(a), Pow2(|b'|), FromBase2(b'), BitValue(b[|b| - 1]));
    }
  }

  /** One more low-order digit: 2 * (x * p + y) + d == x * (2 * p) + (2 * y + d). */
  lemma ShiftStep(x: nat, p: nat, y: nat, d: nat)
    ensures 2 * (x * p + y) + d == x * (2 * p) + (2 * y + d)
  {
  }

  lemma {:induction false} FromBase2Zeros(k: nat)
    ensures FromBase2(Zeros(k)) == 0
  {
    if k > 0 {
      assert Zeros(k)[..k - 1] == Zeros(k - 1);
      FromBase2Zeros(k - 1);
    }
  }

  /** Leading zeros do not change the value of a digit string. */
  lemma LeadingZeros(k: nat, s: string)
    requires IsBits(s)
    ensures IsBits(Zeros(k) + s)
    ensures FromBase2(Zeros(k) + s) == FromBase2(s)
  {
    FromBase2Append(Zeros(k), s);
    FromBase2Zeros(k);
  }
}
