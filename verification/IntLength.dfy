/** The bound on the length of a number is tight up to a certain number of bits. */
module IntLength {
  import opened IntProps

  /** Digits of a power of two, rounded: squared, and doubled if one is set. */
  lemma {:induction false} Squared(k: nat, e: nat, one: bool)
    ensures Pow(2, 2 * k + (if one then 1 else 0)) == (if one then 2 else 1) * (Pow(2, k) * Pow(2, k))
    ensures Pow(10, 2 * e) == Pow(10, e) * Pow(10, e)
  {
    PowSum(10, e, e);
    if one { DoubleAndOne(2, k, Pow(2, k)); } else { Double(2, k, Pow(2, k)); }
  }

  lemma {:induction false} Regroup(c: nat, m: nat, t: nat)
    ensures c * ((m * t) * (m * t)) == (c * (m * m)) * (t * t)
  {
    Associative(m, t, m * t);
    assert t * (m * t) == m * (t * t);
    Associative(m, m, t * t);
    Associative(c, m * m, t * t);
  }

  lemma {:induction false} AtLeast(k: nat, m: nat, e: nat, one: bool, n: nat, j: nat)
    requires Pow(2, k) >= m * Pow(10, e) && (if one then 2 else 1) * (m * m) >= n * Pow(10, j)
    ensures Pow(2, 2 * k + (if one then 1 else 0)) >= n * Pow(10, 2 * e + j)
  {
    var c, t := if one then 2 else 1, Pow(10, e);
    Squared(k, e, one);
    PowSum(10, j, 2 * e);
    Regroup(c, m, t);
    ProductMonotone(m * t, Pow(2, k), m * t, Pow(2, k));
    ProductMonotone(c, c, (m * t) * (m * t), Pow(2, k) * Pow(2, k));
    ProductMonotone(n * Pow(10, j), c * (m * m), t * t, t * t);
    Associative(n, Pow(10, j), t * t);
  }

  lemma {:induction false} AtMost(k: nat, m: nat, e: nat, one: bool, n: nat, j: nat)
    requires Pow(2, k) <= m * Pow(10, e) && (if one then 2 else 1) * (m * m) <= n * Pow(10, j)
    ensures Pow(2, 2 * k + (if one then 1 else 0)) <= n * Pow(10, 2 * e + j)
  {
    var c, t := if one then 2 else 1, Pow(10, e);
    Squared(k, e, one);
    PowSum(10, j, 2 * e);
    Regroup(c, m, t);
    ProductMonotone(Pow(2, k), m * t, Pow(2, k), m * t);
    ProductMonotone(c, c, Pow(2, k) * Pow(2, k), (m * t) * (m * t));
    ProductMonotone(c * (m * m), n * Pow(10, j), t * t, t * t);
    Associative(n, Pow(10, j), t * t);
  }

  lemma {:induction false} SmallPowers()
    ensures Pow(2, 33) == 8589934592 && Pow(2, 40) == 1099511627776 && Pow(10, 0) == 1
    ensures Pow(10, 8) == 100000000 && Pow(10, 11) == 100000000000 && Pow(10, 12) == 1000000000000
    ensures Pow(10, 13) == 10000000000000
  {
    assert Pow(2, 1) == 2 * Pow(2, 0) && Pow(10, 1) == 10 * Pow(10, 0);
    Double(2, 1, 2);
    Double(2, 2, 4);
    DoubleAndOne(2, 2, 4);
    Double(2, 4, 16);
    Double(2, 5, 32);
    Double(2, 8, 256);
    Double(2, 10, 1024);
    DoubleAndOne(2, 16, 65536);
    Double(2, 20, 1048576);
    Double(10, 1, 10);
    Double(10, 2, 100);
    Double(10, 4, 10000);
    DoubleAndOne(10, 1, 10);
    Double(10, 3, 1000);
    DoubleAndOne(10, 5, 100000);
    DoubleAndOne(10, 2, 100);
    Double(10, 6, 1000000);
    DoubleAndOne(10, 6, 1000000);
  }

  /** 643/2136 is less than the logarithm of two. */
  lemma {:induction false} RatioBelow()
    ensures Pow(10, 643) < Pow(2, 2136)
  {
    SmallPowers();
    AtLeast(33, 8589934592, 0, false, 737869762948, 8);
    AtLeast(66, 737869762948, 8, true, 108890357414, 13);
    AtLeast(133, 108890357414, 29, true, 237142198754, 11);
    AtLeast(267, 237142198754, 69, false, 562364224298, 11);
    AtLeast(534, 562364224298, 149, false, 316253520770, 12);
    AtLeast(1068, 316253520770, 310, false, 100016289399, 12);
    PowSum(10, 11, 632);
    var p := Pow(10, 632);
    PowGrows(10, 0, 632);
  }

  /** 789/2621 is more than the logarithm of two. */
  lemma {:induction false} RatioAbove()
    ensures Pow(2, 2621) <= Pow(10, 789)
  {
    SmallPowers();
    AtMost(40, 1099511627776, 0, true, 241785163923, 13);
    AtMost(81, 241785163923, 13, true, 116920130987, 12);
    AtMost(163, 116920130987, 38, true, 273406340601, 11);
    AtMost(327, 273406340601, 87, true, 149502054162, 12);
    AtMost(655, 149502054162, 186, false, 223508641987, 11);
    AtMost(1310, 223508641987, 383, true, 999122260858, 11);
    PowSum(10, 12, 777);
    ProductMonotone(999122260858, Pow(10, 12), Pow(10, 777), Pow(10, 777));
  }

  /** A fraction less than 146/485 with a denominator below 2621 is not above 643/2136. */
  lemma {:induction false} Neighbours(m: nat, b: nat)
    requires 0 < b < 2621 && 485 * m < 146 * b
    ensures 2136 * m <= 643 * b
  {
  }

  /** One digit less than the bound would not do for fewer than 2621 bits. */
  lemma {:induction false} LengthNeeded(bits: nat)
    requires 0 < bits < 2621
    ensures LengthBound(bits) > 0 && Pow(10, LengthBound(bits) - 1) < Pow(2, bits)
  {
    var m := LengthBound(bits) - 1;
    Neighbours(m, bits);
    PowerBelow(m, bits);
  }

  lemma {:induction false} PowerBelow(m: nat, bits: nat)
    requires 2136 * m <= 643 * bits && bits > 0
    ensures Pow(10, m) < Pow(2, bits)
  {
    hide Pow;
    if Pow(10, m) >= Pow(2, bits) {
      PowMonotone(Pow(2, bits), Pow(10, m), 2136);
      PowProduct(2, bits, 2136);
      PowProduct(10, m, 2136);
      PowGrows(10, m * 2136, 643 * bits);
      PowProduct(10, 643, bits);
      PowProduct(2, 2136, bits);
      RatioBelow();
      PowStrict(Pow(10, 643), Pow(2, 2136), bits);
      assert false;
    }
  }

  /** The bound is tight for fewer than 2621 bits: the largest number of so many bits has just that length. */
  lemma {:induction false} LengthTight(bits: nat)
    requires 0 < bits < 2621
    ensures Pow(2, bits) > 0 && Digits(Pow(2, bits) - 1) == LengthBound(bits)
  {
    var k := LengthBound(bits);
    LengthNeeded(bits);
    LengthSuffices(bits);
    hide Pow;
    DigitsBound(Pow(2, bits) - 1, k);
    if k > 1 { DigitsBound(Pow(2, bits) - 1, k - 1); }
  }

  /** For 2621 bits it is too large by one. */
  lemma {:induction false} LengthLoose()
    ensures Pow(2, 2621) > 0 && Digits(Pow(2, 2621) - 1) == LengthBound(2621) - 1
  {
    hide Pow, Digits;
    LengthNeeded(2620);
    PowGrows(2, 2620, 2621);
    RatioAbove();
    DigitsBound(Pow(2, 2621) - 1, 789);
    DigitsBound(Pow(2, 2621) - 1, 788);
  }
}
