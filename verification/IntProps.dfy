/** Range checks that need no wider arithmetic, and the bound on the length of a decimal number. */
module IntProps {

  /** Division that truncates toward zero. */
  function Div(a: int, b: int): int
    requires b != 0
  {
    if a >= 0 then (if b > 0 then a / b else -(a / -b))
    else (if b > 0 then -(-a / b) else -a / -b)
  }

  /** The range of a signed type in two's complement, or of an unsigned type. */
  predicate IsRange(min: int, max: int) {
    max >= 0 && (min == -max - 1 || min == 0)
  }

  predicate InRange(x: int, min: int, max: int) {
    min <= x <= max
  }

  predicate AddOverflows(a: int, b: int, min: int, max: int) {
    if b < 0 then a < min - b else max - b < a
  }

  predicate SubtractOverflows(a: int, b: int, min: int, max: int) {
    if b < 0 then max + b < a else a < min + b
  }

  predicate NegateOverflows(a: int, min: int, max: int) {
    if min < 0 then a < -max else 0 < a
  }

  predicate MultiplyOverflows(a: int, b: int, min: int, max: int) {
    if b < 0 then
      if a < 0 then a < Div(max, b)
      else if b == -1 then false
      else Div(min, b) < a
    else if b == 0 then false
    else if a < 0 then a < Div(min, b)
    else Div(max, b) < a
  }

  predicate DivideOverflows(a: int, b: int, min: int, max: int) {
    min < 0 && b == -1 && a < -max
  }

  /** The check for a sum is exact, and what it computes is in range itself. */
  lemma {:induction false} AddExact(a: int, b: int, min: int, max: int)
    requires IsRange(min, max) && InRange(a, min, max) && InRange(b, min, max)
    ensures AddOverflows(a, b, min, max) <==> !InRange(a + b, min, max)
    ensures if b < 0 then InRange(min - b, min, max) else InRange(max - b, min, max)
  {
  }

  lemma {:induction false} SubtractExact(a: int, b: int, min: int, max: int)
    requires IsRange(min, max) && InRange(a, min, max) && InRange(b, min, max)
    ensures SubtractOverflows(a, b, min, max) <==> !InRange(a - b, min, max)
    ensures if b < 0 then InRange(max + b, min, max) else InRange(min + b, min, max)
  {
  }

  lemma {:induction false} NegateExact(a: int, min: int, max: int)
    requires IsRange(min, max) && InRange(a, min, max)
    ensures NegateOverflows(a, min, max) <==> !InRange(-a, min, max)
  {
  }

  /** A factor is larger than a quotient exactly if the product is larger than the dividend. */
  lemma {:induction false} MoreThanQuotient(x: nat, y: nat, z: nat)
    requires y > 0
    ensures x > z / y <==> x * y > z
  {
    var q := z / y;
    assert z == y * q + z % y;
    if x > q {
      Product(y, q + 1, x);
      assert y * (q + 1) == y * q + y;
    } else {
      Product(y, x, q);
    }
  }

  lemma {:induction false} Product(y: nat, a: nat, b: nat)
    requires a <= b
    ensures y * a <= y * b
  {
  }

  lemma {:induction false} Signs(x: int, y: int)
    ensures (-x) * (-y) == x * y && (-x) * y == -(x * y) && x * (-y) == -(x * y)
  {
  }

  /** The check for a product is exact, for any range of a signed or an unsigned type. */
  lemma {:induction false} MultiplyExact(a: int, b: int, min: int, max: int)
    requires IsRange(min, max) && InRange(a, min, max) && InRange(b, min, max)
    ensures MultiplyOverflows(a, b, min, max) <==> !InRange(a * b, min, max)
  {
    Signs(a, b);
    if b < 0 {
      if a < 0 {
        MoreThanQuotient(-a, -b, max);
        Positive(-a, -b);
      } else if b < -1 {
        MoreThanQuotient(a, -b, -min);
        Positive(a, -b);
      }
    } else if b > 0 {
      if a < 0 {
        MoreThanQuotient(-a, b, -min);
        Positive(-a, b);
      } else {
        MoreThanQuotient(a, b, max);
        Positive(a, b);
      }
    }
  }

  lemma {:induction false} Positive(x: nat, y: nat)
    ensures x * y >= 0
  {
  }

  /** What the check for a product computes is in range itself. */
  lemma {:induction false} MultiplySafe(b: int, min: int, max: int)
    requires IsRange(min, max) && InRange(b, min, max) && b != 0
    ensures InRange(Div(max, b), min, max) && (b != -1 ==> InRange(Div(min, b), min, max))
  {
    var c := if b < 0 then -b else b;
    Quotient(max, c);
    Quotient(-min, c);
  }

  /** A quotient is at most the dividend, and at most half of it if the divisor is not one. */
  lemma {:induction false} Quotient(z: nat, y: nat)
    requires y > 0
    ensures 0 <= z / y <= z && (y > 1 && z > 0 ==> z / y < z)
  {
    MoreThanQuotient(z + 1, y, z);
    Product(z + 1, 1, y);
    MoreThanQuotient(z, y, z);
    if y > 1 { Product(z, 2, y); }
  }

  lemma {:induction false} DivideExact(a: int, b: int, min: int, max: int)
    requires IsRange(min, max) && InRange(a, min, max) && InRange(b, min, max) && b != 0
    ensures DivideOverflows(a, b, min, max) <==> !InRange(Div(a, b), min, max)
  {
    Quotient(if a < 0 then -a else a, if b < 0 then -b else b);
  }

  function Pow(b: nat, e: nat): (p: nat)
    ensures b > 0 ==> p > 0
  {
    if e == 0 then 1 else b * Pow(b, e - 1)
  }

  /** The bound on the length of a number of so many bits. */
  function LengthBound(bits: nat): nat { (bits * 146 + 484) / 485 }

  lemma {:induction false} Associative(x: nat, y: nat, z: nat)
    ensures x * (y * z) == (x * y) * z
  {
  }

  lemma {:induction false} PowSum(b: nat, d: nat, e: nat)
    ensures Pow(b, d + e) == Pow(b, d) * Pow(b, e)
    decreases d
  {
    if d > 0 {
      PowSum(b, d - 1, e);
      Associative(b, Pow(b, d - 1), Pow(b, e));
    }
  }

  lemma {:induction false} PowProduct(b: nat, d: nat, e: nat)
    ensures Pow(b, d * e) == Pow(Pow(b, d), e)
    decreases e
  {
    if e > 0 {
      PowProduct(b, d, e - 1);
      assert d * e == d + d * (e - 1);
      PowSum(b, d, d * (e - 1));
    }
  }

  lemma {:induction false} PowMonotone(a: nat, b: nat, e: nat)
    requires a <= b
    ensures Pow(a, e) <= Pow(b, e)
    decreases e
  {
    if e > 0 {
      PowMonotone(a, b, e - 1);
      ProductMonotone(a, b, Pow(a, e - 1), Pow(b, e - 1));
    }
  }

  lemma {:induction false} ProductMonotone(a: nat, b: nat, p: nat, q: nat)
    requires a <= b && p <= q
    ensures a * p <= b * q
  {
    Product(a, p, q);
    Product(q, a, b);
  }

  lemma {:induction false} PowGrows(b: nat, d: nat, e: nat)
    requires b > 0 && d <= e
    ensures Pow(b, d) <= Pow(b, e)
  {
    PowSum(b, d, e - d);
    Product(Pow(b, d), 1, Pow(b, e - d));
  }

  /** A larger base has a larger power. */
  lemma {:induction false} PowStrict(a: nat, b: nat, e: nat)
    requires a < b && e > 0
    ensures Pow(a, e) < Pow(b, e)
    decreases e
  {
    PowMonotone(a, b, e - 1);
    ProductMonotone(a, a, Pow(a, e - 1), Pow(b, e - 1));
    assert (a + 1) * Pow(b, e - 1) == a * Pow(b, e - 1) + Pow(b, e - 1);
    Product(Pow(b, e - 1), a + 1, b);
  }

  lemma {:induction false} Double(b: nat, e: nat, p: nat)
    requires Pow(b, e) == p
    ensures Pow(b, 2 * e) == p * p
  {
    PowSum(b, e, e);
  }

  lemma {:induction false} DoubleAndOne(b: nat, e: nat, p: nat)
    requires Pow(b, e) == p
    ensures Pow(b, 2 * e + 1) == b * (p * p)
  {
    PowSum(b, e, e);
  }

  /** The 242nd power of two. */
  const TWO_242: nat := 7067388259113537318333190002971674063309935587502475832486424805170479104
  /** The 73rd power of ten. */
  const TEN_73: nat := 10000000000000000000000000000000000000000000000000000000000000000000000000

  lemma {:induction false} PowersOfTwo()
    ensures Pow(2, 485) == 2 * (TWO_242 * TWO_242)
  {
    assert Pow(2, 1) == 2 * Pow(2, 0);
    DoubleAndOne(2, 1, 2);
    DoubleAndOne(2, 3, 8);
    DoubleAndOne(2, 7, 128);
    Double(2, 15, 32768);
    Double(2, 30, 1073741824);
    DoubleAndOne(2, 60, 1152921504606846976);
    Double(2, 121, 2658455991569831745807614120560689152);
    DoubleAndOne(2, 242, TWO_242);
  }

  lemma {:induction false} PowersOfTen()
    ensures Pow(10, 146) == TEN_73 * TEN_73
  {
    assert Pow(10, 1) == 10 * Pow(10, 0);
    Double(10, 1, 10);
    Double(10, 2, 100);
    DoubleAndOne(10, 4, 10000);
    Double(10, 9, 1000000000);
    Double(10, 18, 1000000000000000000);
    DoubleAndOne(10, 36, 1000000000000000000000000000000000000);
    Double(10, 73, TEN_73);
  }

  /** No number of so many bits needs more decimal digits than the bound. */
  lemma {:induction false} LengthSuffices(bits: nat)
    ensures Pow(2, bits) <= Pow(10, LengthBound(bits))
  {
    hide Pow;
    var k := LengthBound(bits);
    if Pow(2, bits) > Pow(10, k) {
      PowStrict(Pow(10, k), Pow(2, bits), 485);
      PowProduct(10, k, 485);
      PowProduct(2, bits, 485);
      PowProduct(2, 485, bits);
      PowProduct(10, 146, bits);
      Ratio();
      PowMonotone(Pow(2, 485), Pow(10, 146), bits);
      PowGrows(10, 146 * bits, k * 485);
      assert false;
    }
  }

  lemma {:induction false} Ratio()
    ensures Pow(2, 485) <= Pow(10, 146)
  {
    PowersOfTwo();
    PowersOfTen();
  }

  /** The number of decimal digits. */
  function Digits(n: nat): nat { if n < 10 then 1 else 1 + Digits(n / 10) }

  lemma {:induction false} DigitsBound(n: nat, k: nat)
    requires k > 0
    ensures Digits(n) <= k <==> n < Pow(10, k)
    decreases k
  {
    if k == 1 {
      assert Pow(10, 1) == 10 * Pow(10, 0);
    } else if n >= 10 {
      DigitsBound(n / 10, k - 1);
      var p := Pow(10, k - 1);
      assert n == 10 * (n / 10) + n % 10;
    } else {
      PowGrows(10, 1, k);
      assert Pow(10, 1) == 10 * Pow(10, 0);
    }
  }

  /** The decimal representation of a number of some bits fits the bound. */
  lemma {:induction false} DecimalFits(n: nat, bits: nat)
    requires bits > 0 && n < Pow(2, bits)
    ensures Digits(n) <= LengthBound(bits)
  {
    LengthSuffices(bits);
    DigitsBound(n, LengthBound(bits));
  }
}
