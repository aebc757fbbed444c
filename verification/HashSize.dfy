/** Tuning values, prime bucket counts, and the size of the bucket array. */
module HashSize {
  const SIZE_MAX: nat := 0xFFFF_FFFF_FFFF_FFFF
  /** Largest bucket count whose array fits below the largest object size, with 8 bytes a pointer. */
  const MAX_BUCKETS: nat := 0x0FFF_FFFF_FFFF_FFFF
  /** The largest odd divisor whose square does not wrap around. */
  const ROOT_MAX: nat := 0xFFFF_FFFF

  datatype Tuning = Tuning(shrinkThreshold: real, shrinkFactor: real, growthThreshold: real,
                           growthFactor: real, isNBuckets: bool)

  const DEFAULT_TUNING: Tuning := Tuning(0.0, 1.0, 0.8, 1.414, false)

  /** Tuning values that the table accepts. */
  predicate Reasonable(t: Tuning) {
    && 0.1 < t.growthThreshold < 1.0 - 0.1
    && 1.0 + 0.1 < t.growthFactor
    && 0.0 <= t.shrinkThreshold
    && t.shrinkThreshold + 0.1 < t.shrinkFactor <= 1.0
    && t.shrinkThreshold + 0.1 < t.growthThreshold
  }

  /** The same for values in hundredths. */
  lemma {:induction false} ReasonableHundredths(t: Tuning, s: int, f: int, g: int, h: int)
    requires 100.0 * t.shrinkThreshold == s as real && 100.0 * t.shrinkFactor == f as real
    requires 100.0 * t.growthThreshold == g as real && 100.0 * t.growthFactor == h as real
    ensures Reasonable(t) <==> 10 < g < 90 && h > 110 && 0 <= s < g - 10 && s + 10 < f <= 100
  {
  }

  ghost predicate Prime(n: nat) {
    n >= 2 && NoDivisor(n, n)
  }

  /** No number from 2 up to k, exclusive, divides n. */
  ghost predicate NoDivisor(n: nat, k: nat) {
    forall d :: 2 <= d < k ==> n % d != 0
  }

  /** A number without divisors up to its root is prime. */
  lemma {:induction false} RootBound(n: nat, k: nat)
    requires n >= 2 && k >= 1 && NoDivisor(n, k + 1) && n <= k * k
    ensures Prime(n)
  {
    forall d | 2 <= d < n ensures n % d != 0 {
      if n % d == 0 && d > k {
        var e := Divide(n, d);
        Cofactor(n, d, e, k);
      }
    }
  }

  lemma {:induction false} Divide(n: nat, d: nat) returns (e: nat)
    requires d > 0 && n % d == 0
    ensures n == d * e && (e > 0 ==> n % e == 0)
  {
    e := n / d;
    assert n == d * e;
    if e > 0 {
      Commuted(d, e);
      MultipleMod(e, d);
    }
  }

  lemma {:induction false} Commuted(d: nat, e: nat)
    ensures d * e == e * d
  {
  }

  lemma {:induction false} Cofactor(n: nat, d: nat, e: nat, k: nat)
    requires n == d * e && k < d < n <= k * k
    ensures 2 <= e <= k
  {
    Larger(d, e, k);
    assert e == 0 ==> d * e == 0;
    assert e == 1 ==> d * e == d;
  }

  lemma {:induction false} Larger(d: nat, e: nat, k: nat)
    requires k < d
    ensures e > k ==> d * e > k * k
  {
    if e > k { assert d * e > k * e && k * e >= k * k; }
  }

  /** Quotient and remainder are unique. */
  lemma {:induction false} Remainder(x: nat, e: nat, q: nat, r: nat)
    requires x == e * q + r && r < e
    ensures x / e == q && x % e == r
  {
    assert x == e * (x / e) + x % e;
    Unique(e, q, r, x / e, x % e);
  }

  lemma {:induction false} Unique(e: nat, q: nat, r: nat, p: nat, t: nat)
    requires e * q + r == e * p + t && r < e && t < e
    ensures q == p && r == t
  {
    Apart(e, q, p);
    Apart(e, p, q);
  }

  lemma {:induction false} Apart(e: nat, q: nat, p: nat)
    ensures q > p ==> e * q >= e * p + e
  {
    if q > p {
      Monotone(e, p + 1, q);
      assert e * (p + 1) == e * p + e;
    }
  }

  lemma {:induction false} Monotone(e: nat, a: nat, b: nat)
    requires a <= b
    ensures e * a <= e * b
  {
  }

  lemma {:induction false} MultipleMod(e: nat, d: nat)
    requires e > 0
    ensures (e * d) % e == 0
  {
    Remainder(e * d, e, d, 0);
  }

  lemma {:induction false} OddHasNoEvenDivisor(n: nat, d: nat)
    requires n % 2 == 1 && d > 0 && d % 2 == 0
    ensures n % d != 0
  {
    var q, h := n / d, d / 2;
    assert d * q == 2 * (h * q);
    assert n == d * q + n % d;
  }

  /** The square of a divisor, as a machine word. */
  function Wrapped(d: nat): nat { d * d % (SIZE_MAX + 1) }

  /** The next square of an odd divisor, as a machine word. */
  lemma {:induction false} NextSquare(d: nat)
    ensures (Wrapped(d) + 4 * (d + 1)) % (SIZE_MAX + 1) == Wrapped(d + 2)
  {
    assert (d + 2) * (d + 2) == d * d + 4 * (d + 1);
    AddMod(d * d, 4 * (d + 1), SIZE_MAX + 1);
  }

  lemma {:induction false} AddMod(a: nat, c: nat, m: nat)
    requires m > 0
    ensures (a % m + c) % m == (a + c) % m
  {
    var q, r := a / m, a % m;
    var p, t := (r + c) / m, (r + c) % m;
    assert a == m * q + r;
    assert r + c == m * p + t;
    assert m * (q + p) == m * q + m * p;
    Remainder(a + c, m, q + p, t);
  }

  /** The state of the divisor search. */
  ghost predicate Searching(n: nat, divisor: nat) {
    3 <= divisor <= n && divisor % 2 == 1 && NoDivisor(n, divisor)
  }

  /** The squares of the odd divisors up to one, exclusive, are less than n, as machine words. */
  ghost predicate SquaresBelow(n: nat, divisor: nat) {
    forall d :: 3 <= d < divisor && d % 2 == 1 ==> Wrapped(d) < n
  }

  lemma {:induction false} DividesItself(n: nat)
    requires n > 0
    ensures n % n == 0
  {
  }

  lemma {:induction false} NotDividing(n: nat, divisor: nat)
    requires n % 2 == 1 && divisor % 2 == 1 && NoDivisor(n, divisor) && 3 <= divisor <= n && n % divisor != 0
    ensures divisor + 2 <= n && NoDivisor(n, divisor + 2)
  {
    DividesItself(n);
    OddHasNoEvenDivisor(n, divisor + 1);
  }

  lemma {:induction false} SquaresStep(n: nat, divisor: nat)
    requires SquaresBelow(n, divisor) && divisor % 2 == 1 && Wrapped(divisor) < n
    ensures SquaresBelow(n, divisor + 2)
  {
  }

  lemma {:induction false} SearchStep(n: nat, divisor: nat)
    requires n % 2 == 1 && Searching(n, divisor) && SquaresBelow(n, divisor)
    requires Wrapped(divisor) < n && n % divisor != 0
    ensures divisor + 2 <= n && Searching(n, divisor + 2) && SquaresBelow(n, divisor + 2)
    ensures (Wrapped(divisor) + 4 * (divisor + 1)) % (SIZE_MAX + 1) == Wrapped(divisor + 2)
  {
    hide NoDivisor, SquaresBelow, Wrapped;
    NotDividing(n, divisor);
    SquaresStep(n, divisor);
    NextSquare(divisor);
  }

  lemma {:induction false} SmallMod(x: nat, y: nat)
    requires y > 0
    ensures x % y <= x && (x < y ==> x % y == x)
  {
    assert x == y * (x / y) + x % y;
    if x < y { Remainder(x, y, 0, x); }
  }

  /** A square root of -7 modulo the word size. No square of an odd number wraps to a larger word. */
  const ROOT_OF_LARGEST: nat := 1852311383259529397

  lemma {:induction false} LargestSquare()
    ensures Wrapped(ROOT_OF_LARGEST) == SIZE_MAX - 6
  {
    Remainder(ROOT_OF_LARGEST * ROOT_OF_LARGEST, SIZE_MAX + 1, 185997997632698875, SIZE_MAX - 6);
  }

  /** The search for a divisor stops before the number itself: some square is not less as a machine word. */
  lemma {:induction false} Stops(n: nat) returns (d: nat)
    requires 11 <= n <= SIZE_MAX - 6 && n % 2 == 1
    ensures 3 <= d < n && d % 2 == 1 && Wrapped(d) >= n
  {
    if n <= ROOT_MAX {
      d := n - 2;
      RootBelow(n);
      SmallMod(d * d, SIZE_MAX + 1);
    } else if n <= ROOT_MAX * ROOT_MAX {
      d := ROOT_MAX;
      SmallMod(d * d, SIZE_MAX + 1);
    } else {
      d := ROOT_OF_LARGEST;
      LargestSquare();
    }
  }

  lemma {:induction false} RootBelow(n: nat)
    requires 11 <= n <= ROOT_MAX
    ensures n <= (n - 2) * (n - 2) <= SIZE_MAX
  {
    var d := n - 2;
    Monotone(d, 9, d);
    Monotone(d, d, ROOT_MAX);
  }

  /** The three largest odd words are not prime. */
  lemma {:induction false} LargestWords(n: nat)
    requires SIZE_MAX - 6 < n <= SIZE_MAX && n % 2 == 1
    ensures !Prime(n)
  {
    assert n == SIZE_MAX - 4 ==> n % 11 == 0;
    assert n == SIZE_MAX - 2 ==> n % 13 == 0;
    assert n == SIZE_MAX ==> n % 3 == 0;
  }

  /** A number that divides itself only, although no square has stopped the search before it: there is none. */
  lemma {:induction false} StopsEarlier(n: nat)
    requires 11 <= n <= SIZE_MAX && n % 2 == 1 && SquaresBelow(n, n)
    ensures !Prime(n)
  {
    if n <= SIZE_MAX - 6 {
      var d := Stops(n);
      assert false;
    }
    LargestWords(n);
  }

  lemma {:induction false} SearchEnd(n: nat, divisor: nat)
    requires 11 <= n <= SIZE_MAX && n % 2 == 1 && Searching(n, divisor) && SquaresBelow(n, divisor)
    requires Wrapped(divisor) >= n || n % divisor == 0
    ensures n % divisor != 0 <==> Prime(n)
  {
    if n % divisor != 0 {
      SmallMod(divisor * divisor, SIZE_MAX + 1);
      RootBound(n, divisor);
    } else if divisor == n {
      StopsEarlier(n);
    }
  }

  /** Decides primality by trial division with odd divisors and a running square, which may wrap around. */
  method IsPrime(candidate: nat) returns (prime: bool)
    requires 11 <= candidate <= SIZE_MAX && candidate % 2 == 1
    ensures prime <==> Prime(candidate)
  {
    var divisor: nat := 3;
    var square: nat := divisor * divisor;
    while square < candidate && candidate % divisor != 0
      invariant Searching(candidate, divisor) && SquaresBelow(candidate, divisor) && square == Wrapped(divisor)
      decreases candidate - divisor
    {
      SearchStep(candidate, divisor);
      divisor := divisor + 1;
      square := (square + 4 * divisor) % (SIZE_MAX + 1);
      divisor := divisor + 1;
    }
    SearchEnd(candidate, divisor);
    prime := candidate % divisor != 0;
  }

  /** No prime from low up to high, exclusive. */
  ghost predicate NoPrime(low: nat, high: nat) {
    forall p :: low <= p < high ==> !Prime(p)
  }

  lemma {:induction false} EvenIsNotPrime(n: nat)
    requires n > 2 && n % 2 == 0
    ensures !Prime(n)
  {
    assert 2 <= 2 < n;
  }

  function AtLeastTen(n: nat): nat { if n < 10 then 10 else n }

  /** Rounds up to the nearest prime that is not below 10, or to the largest word if there is none. */
  method NextPrime(candidate: nat) returns (r: nat)
    requires candidate <= SIZE_MAX
    ensures AtLeastTen(candidate) <= r <= SIZE_MAX && r % 2 == 1
    ensures r == SIZE_MAX || Prime(r)
    ensures NoPrime(AtLeastTen(candidate), r)
  {
    r := if candidate < 10 then 10 else candidate;
    ghost var low := r;
    if r % 2 == 0 {
      EvenIsNotPrime(r);
      r := r + 1;
    }
    while true
      invariant low <= r <= SIZE_MAX && r >= 11 && r % 2 == 1 && NoPrime(low, r)
      decreases SIZE_MAX - r
    {
      if r == SIZE_MAX { break; }
      var prime := IsPrime(r);
      if prime { break; }
      EvenIsNotPrime(r + 1);
      r := r + 2;
    }
  }

  /** The number of buckets asked for. */
  function Request(candidate: nat, tuning: Tuning): nat
    requires tuning.growthThreshold > 0.0
  {
    if tuning.isNBuckets then candidate else Quotient(candidate, tuning.growthThreshold)
  }

  function Quotient(candidate: nat, threshold: real): nat
    requires threshold > 0.0
  {
    NonNegative(candidate as real, threshold);
    (candidate as real / threshold).Floor
  }

  lemma {:induction false} NonNegative(x: real, y: real)
    requires x >= 0.0 && y > 0.0
    ensures x / y >= 0.0
  {
  }

  /** n is the least prime that satisfies the request, or 0 if there is none that can be allocated. */
  ghost predicate SizeFor(n: nat, request: nat) {
    if n == 0 then
      forall p :: AtLeastTen(request) <= p <= MAX_BUCKETS ==> !Prime(p)
    else
      AtLeastTen(request) <= n <= MAX_BUCKETS && Prime(n) && NoPrime(AtLeastTen(request), n)
  }

  /** The size of the bucket array, or 0. */
  method ComputeBucketSize(candidate: nat, tuning: Tuning) returns (n: nat)
    requires candidate <= SIZE_MAX && tuning.growthThreshold > 0.0
    ensures SizeFor(n, Request(candidate, tuning))
  {
    var wanted := candidate;
    if !tuning.isNBuckets {
      var newCandidate := candidate as real / tuning.growthThreshold;
      if SIZE_MAX as real <= newCandidate { return 0; }
      wanted := Quotient(candidate, tuning.growthThreshold);
    }
    n := NextPrime(wanted);
    if n > MAX_BUCKETS { n := 0; }
  }

  /** The test for growth before an insertion. */
  predicate WantsGrowth(used: nat, size: nat, tuning: Tuning) {
    used as real > tuning.growthThreshold * size as real
  }

  /** The test for shrinking after a deletion. */
  predicate WantsShrink(used: int, size: nat, tuning: Tuning) {
    (used as real) < tuning.shrinkThreshold * size as real
  }

  /** The tuning after a check. */
  function Checked(tuning: Tuning): Tuning { if Reasonable(tuning) then tuning else DEFAULT_TUNING }

  /** The test is made again after the tuning has been checked. */
  predicate Grows(used: nat, size: nat, tuning: Tuning) {
    WantsGrowth(used, size, tuning) && WantsGrowth(used, size, Checked(tuning))
  }

  predicate Shrinks(used: int, size: nat, tuning: Tuning) {
    WantsShrink(used, size, tuning) && WantsShrink(used, size, Checked(tuning))
  }

  /** The tuning is checked only if the test wants the table to grow, or to shrink. */
  function TuningForGrowth(used: nat, size: nat, tuning: Tuning): Tuning {
    if WantsGrowth(used, size, tuning) then Checked(tuning) else tuning
  }

  function TuningForShrinking(used: int, size: nat, tuning: Tuning): Tuning {
    if WantsShrink(used, size, tuning) then Checked(tuning) else tuning
  }

  /** A size scaled by a factor, as the number of entries or of buckets to ask for. */
  function Scaled(size: real, factor: real, tuning: Tuning): real {
    if tuning.isNBuckets then size * factor else size * factor * tuning.growthThreshold
  }

  function IntegerPart(x: real): nat { if x < 0.0 then 0 else x.Floor }

  /** n is the number of buckets for a size scaled by a factor. */
  ghost predicate ScaledTo(n: nat, size: real, factor: real, tuning: Tuning) {
    tuning.growthThreshold > 0.0 && SizeFor(n, Request(IntegerPart(Scaled(size, factor, tuning)), tuning))
  }

  /** A table of some size that is to grow, or to shrink, has n buckets now. */
  ghost predicate GrownTo(n: nat, used: nat, size: nat, tuning: Tuning) {
    var t := Checked(tuning);
    Grows(used, size, tuning) ==> ScaledTo(n, size as real, t.growthFactor, t)
  }

  ghost predicate ShrunkTo(n: nat, used: int, size: nat, tuning: Tuning) {
    var t := Checked(tuning);
    Shrinks(used, size, tuning) ==> ScaledTo(n, size as real, t.shrinkFactor, t)
  }

  /** A table that is to grow cannot: there is no size for it. */
  ghost predicate TooLarge(used: nat, size: nat, tuning: Tuning) {
    Grows(used, size, tuning) && NoSize(size as real, Checked(tuning))
  }

  ghost predicate NoSize(size: real, tuning: Tuning) {
    var candidate := Scaled(size, tuning.growthFactor, tuning);
    candidate >= SIZE_MAX as real || ScaledTo(0, size, tuning.growthFactor, tuning)
  }

  function Product(x: real, y: real): real { x * y }

  lemma {:induction false} ProductLess(t: real, a: real, b: real)
    requires t >= 0.0 && a <= b
    ensures Product(t, a) <= Product(t, b)
    ensures t > 0.0 && a < b ==> Product(t, a) < Product(t, b)
  {
  }

  lemma {:induction false} ProductPlus(t: real, a: real, b: real)
    ensures Product(t, a + b) == Product(t, a) + Product(t, b)
    ensures Product(t, 0.0) == 0.0 && Product(t, 1.0) == t && Product(t, a) == Product(a, t)
  {
  }

  lemma {:induction false} Divided(c: real, t: real)
    requires t > 0.0
    ensures Product(t, c / t) == c
  {
  }

  /** The request is the candidate number divided by the threshold, rounded down. */
  lemma {:induction false} RequestExactly(candidate: nat, tuning: Tuning)
    requires tuning.growthThreshold > 0.0 && !tuning.isNBuckets
    ensures var r, t := Request(candidate, tuning) as real, tuning.growthThreshold;
            Product(t, r) <= candidate as real < Product(t, r) + t
  {
    hide Product;
    var t := tuning.growthThreshold;
    var q := candidate as real / t;
    NonNegative(candidate as real, t);
    var r := Request(candidate, tuning) as real;
    Divided(candidate as real, t);
    ProductLess(t, r, q);
    ProductLess(t, q, r + 1.0);
    ProductPlus(t, r, 1.0);
  }

  lemma {:induction false} ScaledProduct(size: real, factor: real, tuning: Tuning)
    ensures var x := Product(size, factor);
            Scaled(size, factor, tuning) == if tuning.isNBuckets then x else Product(tuning.growthThreshold, x)
  {
  }

  /** The size times the factor, without the detour by the threshold: the request is less than it
      by no more than the two roundings. */
  lemma {:induction false} RequestNear(size: real, factor: real, tuning: Tuning)
    requires Reasonable(tuning) && size >= 0.0 && factor >= 0.0
    ensures var r, x := Request(IntegerPart(Scaled(size, factor, tuning)), tuning) as real, Product(size, factor);
            x - 1.0 - 1.0 / tuning.growthThreshold < r <= x
  {
    hide Product, Scaled;
    var x, t := Product(size, factor), tuning.growthThreshold;
    var c := IntegerPart(Scaled(size, factor, tuning));
    ScaledProduct(size, factor, tuning);
    ProductPlus(size, 0.0, 0.0);
    ProductLess(size, 0.0, factor);
    Positive(t);
    if !tuning.isNBuckets {
      ProductPlus(t, 0.0, 0.0);
      ProductLess(t, 0.0, x);
      RequestExactly(c, tuning);
      NearEnough(x, t, c as real, Request(c, tuning) as real);
    }
  }

  lemma {:induction false} Positive(t: real)
    requires t > 0.0
    ensures 1.0 / t > 0.0
  {
  }

  lemma {:induction false} NearEnough(x: real, t: real, c: real, r: real)
    requires t > 0.0 && c <= Product(t, x) < c + 1.0 && Product(t, r) <= c < Product(t, r) + t
    ensures x - 1.0 - 1.0 / t < r <= x
  {
    hide Product;
    var i := 1.0 / t;
    Divided(1.0, t);
    if r > x { ProductLess(t, x, r); }
    if r <= x - 1.0 - i {
      ProductLess(t, r + 1.0 + i, x);
      ProductPlus(t, r + 1.0, i);
      ProductPlus(t, r, 1.0);
    }
  }

  /** n is a prime that a table of some size gets when it is scaled by a factor: close to the product,
      and the least prime there. */
  ghost predicate Resized(n: nat, size: nat, factor: real, threshold: real) {
    var x := Product(size as real, factor);
    && threshold > 0.0 && x - 1.0 - 1.0 / threshold < n as real
    && Prime(n) && 10 <= n <= MAX_BUCKETS && NoPrime(AtLeastTen(IntegerPart(x)), n)
  }

  /** There is no prime for a table of some size that is scaled by a factor. */
  ghost predicate Unsizable(size: nat, factor: real) {
    NoPrime(AtLeastTen(IntegerPart(Product(size as real, factor))), MAX_BUCKETS + 1)
  }

  lemma {:induction false} PartAtLeast(r: nat, x: real)
    requires r as real <= x
    ensures AtLeastTen(r) <= AtLeastTen(IntegerPart(x))
  {
  }

  lemma {:induction false} PartAtMost(x: real, n: nat)
    requires x <= n as real
    ensures IntegerPart(x) <= n
  {
  }

  /** The number of buckets after a change. */
  lemma {:induction false} ScaledSizes(n: nat, size: nat, factor: real, tuning: Tuning)
    requires Reasonable(tuning) && factor >= 0.0 && ScaledTo(n, size as real, factor, tuning)
    ensures if n == 0 then Unsizable(size, factor) else Resized(n, size, factor, tuning.growthThreshold)
  {
    hide Product, Scaled;
    RequestNear(size as real, factor, tuning);
    PartAtLeast(Request(IntegerPart(Scaled(size as real, factor, tuning)), tuning), Product(size as real, factor));
  }

  /** A table that grows gets a number of buckets that is larger by the growth factor; one that cannot
      grow is too large for any prime. */
  lemma {:induction false} GrowthSizes(n: nat, used: nat, size: nat, tuning: Tuning)
    requires Grows(used, size, tuning)
    ensures n != 0 && GrownTo(n, used, size, tuning) ==>
      Resized(n, size, Checked(tuning).growthFactor, Checked(tuning).growthThreshold)
    ensures TooLarge(used, size, tuning) ==> Unsizable(size, Checked(tuning).growthFactor)
  {
    hide Product, Scaled;
    var t := Checked(tuning);
    if n != 0 && GrownTo(n, used, size, tuning) { ScaledSizes(n, size, t.growthFactor, t); }
    if TooLarge(used, size, tuning) {
      if ScaledTo(0, size as real, t.growthFactor, t) {
        ScaledSizes(0, size, t.growthFactor, t);
      } else {
        TooLargeSize(size, t);
      }
    }
  }

  lemma {:induction false} TooLargeSize(size: nat, tuning: Tuning)
    requires Reasonable(tuning) && Scaled(size as real, tuning.growthFactor, tuning) >= SIZE_MAX as real
    ensures Unsizable(size, tuning.growthFactor)
  {
    hide Product, Scaled;
    var s, t := size as real, tuning.growthThreshold;
    var x := Product(s, tuning.growthFactor);
    ScaledProduct(s, tuning.growthFactor, tuning);
    ProductPlus(s, 0.0, 0.0);
    ProductLess(s, 0.0, tuning.growthFactor);
    ProductPlus(x, t, 0.0);
    ProductPlus(t, x, 0.0);
    ProductLess(x, t, 1.0);
    VeryLarge(x);
  }

  lemma {:induction false} VeryLarge(x: real)
    requires x >= SIZE_MAX as real
    ensures NoPrime(AtLeastTen(IntegerPart(x)), MAX_BUCKETS + 1)
  {
    assert IntegerPart(x) >= SIZE_MAX;
  }

  /** The same for a table that shrinks. */
  lemma {:induction false} ShrinkingSizes(n: nat, used: int, size: nat, tuning: Tuning)
    requires Shrinks(used, size, tuning) && ShrunkTo(n, used, size, tuning)
    ensures if n == 0 then Unsizable(size, Checked(tuning).shrinkFactor)
            else Resized(n, size, Checked(tuning).shrinkFactor, Checked(tuning).growthThreshold)
  {
    hide Product, Scaled;
    var t := Checked(tuning);
    ScaledSizes(n, size, t.shrinkFactor, t);
  }

  /** With reasonable tuning a growing table of 110 buckets or more really grows; with the default
      tuning one of 6 or more does. */
  lemma {:induction false} GrownIsLarger(n: nat, size: nat, tuning: Tuning)
    requires Reasonable(tuning) && Resized(n, size, tuning.growthFactor, tuning.growthThreshold)
    requires size >= 110 || (tuning == DEFAULT_TUNING && size >= 6)
    ensures n > size
  {
    var t, f, s := tuning.growthThreshold, tuning.growthFactor, size as real;
    Divided(1.0, t);
    ProductLess(s, if size >= 110 then 1.1 else 1.414, f);
    Constants(s, 1.0 / t);
    hide Product;
    if size >= 110 {
      if 1.0 / t >= 10.0 { ProductLess(t, 10.0, 1.0 / t); }
    }
  }

  lemma {:induction false} Constants(s: real, i: real)
    ensures Product(s, 1.1) == 1.1 * s && Product(s, 1.414) == 1.414 * s && Product(0.8, i) == 0.8 * i
    ensures forall t :: Product(t, 10.0) == 10.0 * t
  {
  }

  /** When a table with a prime number of buckets really grows: the scaled number, as an integer, must be
      enough for one bucket more. Without the detour by the threshold it always is. */
  lemma {:induction false} GrowthExactly(n: nat, size: nat, tuning: Tuning)
    requires Reasonable(tuning) && Prime(size) && size >= 11
    requires n != 0 && ScaledTo(n, size as real, tuning.growthFactor, tuning)
    ensures var c := IntegerPart(Scaled(size as real, tuning.growthFactor, tuning)) as real;
            n > size <==> tuning.isNBuckets || c >= Product(tuning.growthThreshold, size as real + 1.0)
  {
    hide Product, Scaled;
    var t, f, s := tuning.growthThreshold, tuning.growthFactor, size as real;
    var c := IntegerPart(Scaled(s, f, tuning));
    ScaledProduct(s, f, tuning);
    if tuning.isNBuckets {
      ProductLess(s, 1.1, f);
      Constants(s, 0.0);
    } else {
      RequestExactly(c, tuning);
      var q := Request(c, tuning);
      if q > size { ProductLess(t, s + 1.0, q as real); }
      if q <= size { ProductLess(t, q as real, s); }
      ProductPlus(t, s, 1.0);
    }
  }

  lemma {:induction false} ElevenPrime()
    ensures Prime(11)
  {
    forall d | 2 <= d < 11 ensures 11 % d != 0 {
      assert d == 2 || d == 3 || d == 4 || d == 5 || d == 6 || d == 7 || d == 8 || d == 9 || d == 10;
    }
  }

  /** A reasonable tuning with which a table of 11 buckets does not grow although growth is wanted. */
  lemma {:induction false} NotGrown()
    ensures var tuning := Tuning(0.0, 1.0, 0.11, 1.11, false);
            && Reasonable(tuning) && WantsGrowth(2, 11, tuning)
            && (forall n :: n != 0 && GrownTo(n, 2, 11, tuning) ==> n == 11)
  {
    var tuning := Tuning(0.0, 1.0, 0.11, 1.11, false);
    ElevenPrime();
    assert Scaled(11.0, 1.11, tuning) == 1.34310;
    assert IntegerPart(1.34310) == 1;
    RequestExactly(1, tuning);
    var q := Request(1, tuning);
    assert Product(0.11, q as real) == 0.11 * q as real;
    assert q == 9;
    forall n | n != 0 && GrownTo(n, 2, 11, tuning) ensures n == 11 {
      assert SizeFor(n, 9);
      EvenIsNotPrime(10);
    }
  }

  /** A table with a prime number of buckets never gets more by shrinking. */
  lemma {:induction false} ShrunkNotLarger(n: nat, size: nat, tuning: Tuning)
    requires Reasonable(tuning) && Resized(n, size, tuning.shrinkFactor, tuning.growthThreshold)
    requires Prime(size) && size >= 10
    ensures n <= size
  {
    hide Product;
    var s := size as real;
    ProductLess(s, tuning.shrinkFactor, 1.0);
    ProductPlus(s, 0.0, 0.0);
    PartAtMost(Product(s, tuning.shrinkFactor), size);
  }

  lemma {:induction false} ProductOfNats(a: nat, b: nat)
    ensures (a * b) as real == Product(a as real, b as real)
  {
  }

  lemma {:induction false} ProductAssociative(x: real, y: real, z: real)
    ensures Product(x, Product(y, z)) == Product(Product(x, y), z)
    ensures Product(x, y) == Product(y, x) && Product(y, z) == y * z
  {
  }

  lemma {:induction false} CompareRatio(u: nat, size: nat, g: real, a: nat, b: nat)
    requires b > 0 && Product(g, b as real) == a as real
    ensures u as real > g * size as real <==> u * b > a * size
    ensures (u as real) < g * size as real <==> u * b < a * size
  {
    hide Product;
    var n, x, y := b as real, Product(g, size as real), u as real;
    ProductAssociative(n, g, size as real);
    ProductAssociative(n, y, 0.0);
    ProductOfNats(u, b);
    ProductOfNats(a, size);
    if x <= y { ProductLess(n, x, y); }
    if y <= x { ProductLess(n, y, x); }
  }

  /** For thresholds that are fractions the tests compare whole numbers: growth is wanted when more than
      a of b parts of the buckets are used, shrinking when fewer than c of d parts are. */
  lemma {:induction false} ThresholdParts(used: nat, size: nat, tuning: Tuning, a: nat, b: nat, c: nat, d: nat)
    requires b > 0 && Product(tuning.growthThreshold, b as real) == a as real
    requires d > 0 && Product(tuning.shrinkThreshold, d as real) == c as real
    ensures WantsGrowth(used, size, tuning) <==> used * b > a * size
    ensures WantsShrink(used, size, tuning) <==> used * d < c * size
  {
    CompareRatio(used, size, tuning.growthThreshold, a, b);
    CompareRatio(used, size, tuning.shrinkThreshold, c, d);
  }

  /** Growth is wanted when every bucket is used, and never together with shrinking. */
  lemma {:induction false} GrowthWanted(used: nat, size: nat, tuning: Tuning)
    requires Reasonable(tuning) && size > 0
    ensures used == size ==> WantsGrowth(used, size, tuning)
    ensures used == 0 ==> (WantsShrink(used, size, tuning) <==> tuning.shrinkThreshold > 0.0)
    ensures !(WantsGrowth(used, size, tuning) && WantsShrink(used, size, tuning))
  {
    var g, s, n := tuning.growthThreshold, tuning.shrinkThreshold, size as real;
    ScaleUp(n, g, 1.0);
    ScaleUp(n, s, g);
    if s > 0.0 { ScaleUp(n, 0.0, s); }
  }

  /** With the default tuning, tables grow when more than four fifths of the buckets are used, and never
      shrink. */
  lemma {:induction false} DefaultWants(used: nat, size: nat)
    ensures WantsGrowth(used, size, DEFAULT_TUNING) <==> 5 * used > 4 * size
    ensures Grows(used, size, DEFAULT_TUNING) <==> 5 * used > 4 * size
    ensures !WantsShrink(used, size, DEFAULT_TUNING)
  {
  }

  /** A table made for some number of entries does not grow while fewer are in it. */
  lemma {:induction false} RoomForCandidates(candidate: nat, tuning: Tuning, size: nat, used: nat)
    requires Reasonable(tuning) && !tuning.isNBuckets && size != 0 && SizeFor(size, Request(candidate, tuning))
    requires used < candidate
    ensures !WantsGrowth(used, size, tuning)
  {
    var t := tuning.growthThreshold;
    var q := candidate as real / t;
    NonNegative(candidate as real, t);
    assert size as real > q - 1.0;
    ScaleBound(candidate as real, t, q, size as real);
    assert used as real <= candidate as real - 1.0;
  }

  lemma {:induction false} ScaleBound(c: real, t: real, q: real, n: real)
    requires t > 0.0 && q == c / t && n > q - 1.0
    ensures t * n > c - t
  {
    assert q * t == c;
    ScaleUp(t, q - 1.0, n);
  }

  lemma {:induction false} ScaleUp(t: real, a: real, b: real)
    requires t > 0.0 && b > a
    ensures t * b > t * a
  {
  }
}
