/** Searching memory for a byte, a word of eight bytes at a time. */
module Memchr {
  const WORD: nat := 8

  function Compose(b0: bv8, b1: bv8, b2: bv8, b3: bv8, b4: bv8, b5: bv8, b6: bv8, b7: bv8): bv64 {
    (b0 as bv64) | ((b1 as bv64) << 8) | ((b2 as bv64) << 16) | ((b3 as bv64) << 24)
    | ((b4 as bv64) << 32) | ((b5 as bv64) << 40) | ((b6 as bv64) << 48) | ((b7 as bv64) << 56)
  }

  /** The word that eight bytes in memory make, in either byte order. */
  function Load(s: seq<bv8>, bigEndian: bool): bv64
    requires |s| == WORD
  {
    if bigEndian then Compose(s[7], s[6], s[5], s[4], s[3], s[2], s[1], s[0])
    else Compose(s[0], s[1], s[2], s[3], s[4], s[5], s[6], s[7])
  }

  /** The test for a byte that is zero. */
  predicate Flagged(w: bv64) {
    ((w - 0x0101_0101_0101_0101) & !w) & 0x8080_8080_8080_8080 != 0
  }

  /** The test succeeds exactly if some byte is zero. */
  lemma {:induction false} ZeroByte(w: bv64)
    ensures Flagged(w) <==>
      w & 0xFF == 0 || (w >> 8) & 0xFF == 0 || (w >> 16) & 0xFF == 0 || (w >> 24) & 0xFF == 0 ||
      (w >> 32) & 0xFF == 0 || (w >> 40) & 0xFF == 0 || (w >> 48) & 0xFF == 0 || (w >> 56) & 0xFF == 0
  {
  }

  /** A byte of x is zero where w and v agree. */
  predicate ZeroWhereSame(x: bv64, w: bv64, v: bv64) {
    && (x & 0xFF == 0 <==> w & 0xFF == v & 0xFF)
    && ((x >> 8) & 0xFF == 0 <==> (w >> 8) & 0xFF == (v >> 8) & 0xFF)
    && ((x >> 16) & 0xFF == 0 <==> (w >> 16) & 0xFF == (v >> 16) & 0xFF)
    && ((x >> 24) & 0xFF == 0 <==> (w >> 24) & 0xFF == (v >> 24) & 0xFF)
    && ((x >> 32) & 0xFF == 0 <==> (w >> 32) & 0xFF == (v >> 32) & 0xFF)
    && ((x >> 40) & 0xFF == 0 <==> (w >> 40) & 0xFF == (v >> 40) & 0xFF)
    && ((x >> 48) & 0xFF == 0 <==> (w >> 48) & 0xFF == (v >> 48) & 0xFF)
    && ((x >> 56) & 0xFF == 0 <==> (w >> 56) & 0xFF == (v >> 56) & 0xFF)
  }

  lemma {:induction false} Agreeing(w: bv64, v: bv64)
    ensures ZeroWhereSame(w ^ v, w, v)
  {
  }

  /** The bytes of a word, the least significant first, are those given. */
  predicate MadeOf(w: bv64, b0: bv8, b1: bv8, b2: bv8, b3: bv8, b4: bv8, b5: bv8, b6: bv8, b7: bv8) {
    && w & 0xFF == b0 as bv64 && (w >> 8) & 0xFF == b1 as bv64 && (w >> 16) & 0xFF == b2 as bv64
        && (w >> 24) & 0xFF == b3 as bv64
    && (w >> 32) & 0xFF == b4 as bv64 && (w >> 40) & 0xFF == b5 as bv64 && (w >> 48) & 0xFF == b6 as bv64
        && (w >> 56) & 0xFF == b7 as bv64
  }

  lemma {:induction false} Composed(b0: bv8, b1: bv8, b2: bv8, b3: bv8, b4: bv8, b5: bv8, b6: bv8, b7: bv8)
    ensures MadeOf(Compose(b0, b1, b2, b3, b4, b5, b6, b7), b0, b1, b2, b3, b4, b5, b6, b7)
  {
  }

  lemma {:induction false} Widened(a: bv8, b: bv8)
    ensures a as bv64 == b as bv64 <==> a == b
  {
  }

  function Repeated(c: bv8): bv64 { Compose(c, c, c, c, c, c, c, c) }

  /** Some byte of the words is the same. */
  predicate ByteInCommon(w: bv64, v: bv64) {
    || w & 0xFF == v & 0xFF || (w >> 8) & 0xFF == (v >> 8) & 0xFF || (w >> 16) & 0xFF == (v >> 16) & 0xFF
    || (w >> 24) & 0xFF == (v >> 24) & 0xFF || (w >> 32) & 0xFF == (v >> 32) & 0xFF
        || (w >> 40) & 0xFF == (v >> 40) & 0xFF
    || (w >> 48) & 0xFF == (v >> 48) & 0xFF || (w >> 56) & 0xFF == (v >> 56) & 0xFF
  }

  lemma {:induction false} FlaggedSame(x: bv64, w: bv64, v: bv64)
    requires ZeroWhereSame(x, w, v)
    ensures Flagged(x) <==> ByteInCommon(w, v)
  {
    ZeroByte(x);
  }

  lemma {:induction false} FlaggedXor(w: bv64, v: bv64)
    ensures Flagged(w ^ v) <==> ByteInCommon(w, v)
  {
    Agreeing(w, v);
    FlaggedSame(w ^ v, w, v);
  }

  lemma {:induction false} CommonBytes(w: bv64, v: bv64, c: bv8, b0: bv8, b1: bv8, b2: bv8, b3: bv8, b4: bv8, b5: bv8,
      b6: bv8, b7: bv8)
    requires MadeOf(w, b0, b1, b2, b3, b4, b5, b6, b7) && MadeOf(v, c, c, c, c, c, c, c, c)
    ensures ByteInCommon(w, v) <==> b0 == c || b1 == c || b2 == c || b3 == c || b4 == c || b5 == c || b6 == c || b7 == c
  {
    Widened(b0, c);
    Widened(b1, c);
    Widened(b2, c);
    Widened(b3, c);
    Widened(b4, c);
    Widened(b5, c);
    Widened(b6, c);
    Widened(b7, c);
  }

  lemma {:induction false} FlaggedBytes(w: bv64, v: bv64, c: bv8, b0: bv8, b1: bv8, b2: bv8, b3: bv8, b4: bv8, b5: bv8,
      b6: bv8, b7: bv8)
    requires MadeOf(w, b0, b1, b2, b3, b4, b5, b6, b7) && MadeOf(v, c, c, c, c, c, c, c, c)
    ensures Flagged(w ^ v) <==> b0 == c || b1 == c || b2 == c || b3 == c || b4 == c || b5 == c || b6 == c || b7 == c
  {
    FlaggedXor(w, v);
    CommonBytes(w, v, c, b0, b1, b2, b3, b4, b5, b6, b7);
  }

  lemma {:induction false} FlaggedWord(c: bv8, b0: bv8, b1: bv8, b2: bv8, b3: bv8, b4: bv8, b5: bv8, b6: bv8, b7: bv8)
    ensures Flagged(Compose(b0, b1, b2, b3, b4, b5, b6, b7) ^ Repeated(c))
            <==> b0 == c || b1 == c || b2 == c || b3 == c || b4 == c || b5 == c || b6 == c || b7 == c
  {
    Composed(b0, b1, b2, b3, b4, b5, b6, b7);
    Composed(c, c, c, c, c, c, c, c);
    FlaggedBytes(Compose(b0, b1, b2, b3, b4, b5, b6, b7), Repeated(c), c, b0, b1, b2, b3, b4, b5, b6, b7);
  }

  lemma {:induction false} AmongEight(s: seq<bv8>, c: bv8)
    requires |s| == WORD
    ensures c in s <==>
      s[0] == c || s[1] == c || s[2] == c || s[3] == c || s[4] == c || s[5] == c || s[6] == c || s[7] == c
  {
  }

  lemma {:induction false} LittleEndianTest(s: seq<bv8>, c: bv8)
    requires |s| == WORD
    ensures Flagged(Load(s, false) ^ Repeated(c)) <==> c in s
  {
    AmongEight(s, c);
    FlaggedWord(c, s[0], s[1], s[2], s[3], s[4], s[5], s[6], s[7]);
  }

  lemma {:induction false} BigEndianTest(s: seq<bv8>, c: bv8)
    requires |s| == WORD
    ensures Flagged(Load(s, true) ^ Repeated(c)) <==> c in s
  {
    AmongEight(s, c);
    FlaggedWord(c, s[7], s[6], s[5], s[4], s[3], s[2], s[1], s[0]);
  }

  /** The masks for a byte: one in every byte, and c in every byte, built by doubling. */
  method Masks(c: bv8) returns (one: bv64, repeated: bv64)
    ensures one == 0x0101_0101_0101_0101 && repeated == Repeated(c)
  {
    one := 0x0101_0101;
    repeated := (c as bv64) | ((c as bv64) << 8);
    repeated := repeated | (repeated << 16);
    one := one | ((one << 31) << 1);
    repeated := repeated | ((repeated << 31) << 1);
  }

  /** The test as it is computed from the masks. */
  predicate Hit(w: bv64, one: bv64) {
    ((w - one) & !w) & (one << 7) != 0
  }

  lemma {:induction false} HitFlags(w: bv64)
    ensures Hit(w, 0x0101_0101_0101_0101) <==> Flagged(w)
  {
  }

  function Xor(w: bv64, v: bv64): bv64 { w ^ v }

  /** A loaded word, with zero in the bytes that are c. */
  function Differing(s: seq<bv8>, bigEndian: bool, c: bv8): bv64
    requires |s| == WORD
  {
    Xor(Load(s, bigEndian), Repeated(c))
  }

  lemma {:induction false} DifferingFlags(s: seq<bv8>, bigEndian: bool, c: bv8)
    requires |s| == WORD
    ensures Flagged(Differing(s, bigEndian, c)) <==> c in s
  {
    hide Flagged, Load, Repeated;
    if bigEndian { BigEndianTest(s, c); } else { LittleEndianTest(s, c); }
  }

  /** The test on a loaded word succeeds exactly if one of its bytes is c, in either byte order. */
  lemma {:induction false} WordTest(s: seq<bv8>, bigEndian: bool, c: bv8)
    requires |s| == WORD
    ensures Hit(Differing(s, bigEndian, c), 0x0101_0101_0101_0101) <==> c in s
  {
    hide Hit, Flagged, Differing;
    HitFlags(Differing(s, bigEndian, c));
    DifferingFlags(s, bigEndian, c);
  }

  /** Whether an aligned word in memory has the byte that the masks are made for. */
  method HasByte(s: seq<bv8>, address: nat, bigEndian: bool, one: bv64, repeated: bv64, ghost c: bv8)
      returns (hit: bool)
    requires |s| == WORD && address % WORD == 0 && one == 0x0101_0101_0101_0101 && repeated == Repeated(c)
    ensures hit <==> c in s
  {
    hide Xor, Load, Repeated, Hit;
    var w := Xor(Load(s, bigEndian), repeated);
    hit := Hit(w, one);
    WordTest(s, bigEndian, c);
  }

  /** The first of n bytes that is c, if there is one: bytes up to a word boundary, then words, then bytes. */
  method Find(s: array<bv8>, address: nat, cIn: int, n: nat, bigEndian: bool) returns (found: bool, at: nat)
    requires n <= s.Length
    ensures found ==> at < n && s[at] == (cIn % 256) as bv8 && (cIn % 256) as bv8 !in s[..at]
    ensures !found ==> (cIn % 256) as bv8 !in s[..n]
  {
    var c := (cIn % 256) as bv8;
    at := 0;
    while at < n && (address + at) % WORD != 0
      invariant at <= n && c !in s[..at]
    {
      if s[at] == c { return true, at; }
      at := at + 1;
    }
    at := SkipWords(s, address, c, at, n, bigEndian);
    while at < n
      invariant at <= n && c !in s[..at]
    {
      if s[at] == c { return true, at; }
      at := at + 1;
    }
    found := false;
  }

  /** Passes the words in which no byte is c. All words that are loaded are aligned. */
  method SkipWords(s: array<bv8>, address: nat, c: bv8, from: nat, n: nat, bigEndian: bool) returns (at: nat)
    requires from <= n <= s.Length && c !in s[..from] && (from == n || (address + from) % WORD == 0)
    ensures from <= at <= n && c !in s[..at]
    ensures n - at >= WORD ==> c in s[at..at + WORD]
  {
    var one, repeated := Masks(c);
    at := from;
    while n - at >= WORD
      invariant from <= at <= n && c !in s[..at] && (from == n || (address + at) % WORD == 0)
    {
      var hit := HasByte(s[at..at + WORD], address + at, bigEndian, one, repeated, c);
      if hit { break; }
      assert s[..at + WORD] == s[..at] + s[at..at + WORD];
      at := at + WORD;
    }
  }
}
