/** Swapping two adjacent segments of the argument vector in place. */
module GetoptExchange {

  /** The first i elements of the blocks at p and q of s0 have been swapped. */
  ghost predicate Partly<T>(s: seq<T>, s0: seq<T>, p: nat, q: nat, i: nat)
    requires p + i <= q && q + i <= |s0|
  {
    && |s| == |s0|
    && (forall k :: 0 <= k < |s| && !(p <= k < p + i) && !(q <= k < q + i) ==> s[k] == s0[k])
    && (forall k :: p <= k < p + i ==> s[k] == s0[q - p + k])
    && (forall k :: q <= k < q + i ==> s[k] == s0[p - q + k])
  }

  /** Swaps two blocks of the same length. */
  method SwapBlocks<T>(a: array<T>, p: nat, q: nat, len: nat)
    requires p + len <= q && q + len <= a.Length
    modifies a
    ensures Partly(a[..], old(a[..]), p, q, len)
  {
    var i := 0;
    while i < len
      invariant i <= len && Partly(a[..], old(a[..]), p, q, i)
    {
      a[p + i], a[q + i] := a[q + i], a[p + i];
      i := i + 1;
    }
  }

  /** The segments from bottom to middle and from middle to top, in the other order. */
  ghost function Rotated<T>(s: seq<T>, bottom: nat, middle: nat, top: nat): seq<T>
    requires bottom <= middle <= top <= |s|
  {
    s[..bottom] + s[middle..top] + s[bottom..middle] + s[top..]
  }

  /** Rotating the segments of s gives r, element by element. */
  ghost predicate Rotates<T>(s: seq<T>, bottom: nat, middle: nat, top: nat, r: seq<T>) {
    && bottom <= middle <= top <= |s| == |r|
    && (forall k :: 0 <= k < bottom || top <= k < |s| ==> r[k] == s[k])
    && (forall k :: bottom <= k < bottom + top - middle ==> r[k] == s[k + middle - bottom])
    && (forall k :: bottom + top - middle <= k < top ==> r[k] == s[k - (top - middle)])
  }

  lemma {:induction false} RotatedRotates<T>(s: seq<T>, bottom: nat, middle: nat, top: nat)
    requires bottom <= middle <= top <= |s|
    ensures Rotates(s, bottom, middle, top, Rotated(s, bottom, middle, top))
  {
  }

  /** With the bottom segment the shorter one, it goes to its place at the top. */
  lemma {:induction false} BottomShort<T>(s: seq<T>, u: seq<T>, b: nat, m: nat, t: nat, r: seq<T>)
    requires Rotates(s, b, m, t, r) && t - m > m - b && Partly(u, s, b, t - (m - b), m - b)
    ensures Rotates(u, b, m, t - (m - b), r)
  {
  }

  /** With the top segment not longer, it goes to its place at the bottom. */
  lemma {:induction false} TopShort<T>(s: seq<T>, u: seq<T>, b: nat, m: nat, t: nat, r: seq<T>)
    requires Rotates(s, b, m, t, r) && t - m <= m - b && Partly(u, s, b, m, t - m)
    ensures Rotates(u, b + (t - m), m, t, r)
  {
  }

  method SwapBottom<T>(argv: array<T>, b: nat, m: nat, t: nat, ghost r: seq<T>)
    requires Rotates(argv[..], b, m, t, r) && t - m > m - b
    modifies argv
    ensures Rotates(argv[..], b, m, t - (m - b), r)
  {
    SwapBlocks(argv, b, t - (m - b), m - b);
    BottomShort(old(argv[..]), argv[..], b, m, t, r);
  }

  method SwapTop<T>(argv: array<T>, b: nat, m: nat, t: nat, ghost r: seq<T>)
    requires Rotates(argv[..], b, m, t, r) && t - m <= m - b
    modifies argv
    ensures Rotates(argv[..], b + (t - m), m, t, r)
  {
    SwapBlocks(argv, b, m, t - m);
    TopShort(old(argv[..]), argv[..], b, m, t, r);
  }

  /** Swaps segments until nothing is left to rotate, always the shorter one with the far end of the
      longer one. */
  method Rotate<T>(argv: array<T>, first: nat, last: nat, optind: nat, ghost r: seq<T>)
    requires Rotates(argv[..], first, last, optind, r)
    modifies argv
    ensures argv[..] == r
  {
    var bottom, middle, top := first, last, optind;
    while top > middle && middle > bottom
      invariant first <= bottom <= middle <= top <= argv.Length && Rotates(argv[..], bottom, middle, top, r)
      decreases top - bottom
    {
      if top - middle > middle - bottom {
        SwapBottom(argv, bottom, middle, top, r);
        top := top - (middle - bottom);
      } else {
        SwapTop(argv, bottom, middle, top, r);
        bottom := bottom + (top - middle);
      }
    }
  }

  /** Swaps the segments of the vector that meet at last. */
  method Exchange<T>(argv: array<T>, first: nat, last: nat, optind: nat)
    requires first <= last <= optind <= argv.Length
    modifies argv
    ensures argv[..] == Rotated(old(argv[..]), first, last, optind)
  {
    RotatedRotates(argv[..], first, last, optind);
    Rotate(argv, first, last, optind, Rotated(argv[..], first, last, optind));
  }
}
