/** Colour quantisation: scaling a channel value to an integer code, the sRGB
    transfer function and ordered dithering with bmpsuite's 8x8 threshold table.
    The source computes in `double`; here the same formulas are evaluated in exact
    `real` arithmetic, and `pow(t, 2.4)` from the C library is the parameter `pow24`. */
module Quantize {

  /** One continuous colour sample, as `get_pixel_color` produces it. */
  datatype Color = Color(r: real, g: real, b: real, a: real)

  /** The colour channels the dithering code requires to be non-negative. */
  predicate NonNegative(c: Color)
  {
    0.0 <= c.r && 0.0 <= c.g && 0.0 <= c.b
  }

  /** C's conversion of a `double` to `int`, which rounds toward zero. */
  function Trunc(t: real): (n: int)
    ensures 0.0 <= t ==> 0 <= n && n as real <= t < n as real + 1.0
    ensures t < 0.0 ==> n <= 0 && n as real - 1.0 < t <= n as real
  {
    if t >= 0.0 then t.Floor else -((-t).Floor)
  }

  /** `scale_to_int`: the code in 0..m nearest to `x * m` (halves round up),
      clamped into 0..m for `x` outside [0,1]. */
  function ScaleToInt(x: real, m: int): (s: int)
    ensures 0 <= m ==> 0 <= s <= m
    ensures 0 <= m && 0.0 <= x <= 1.0 ==> s as real - 0.5 <= x * m as real < s as real + 0.5
    ensures 0 <= m && x <= 0.0 ==> s == 0
    ensures 0 <= m && x >= 1.0 ==> s == m
  {
    var s := Trunc(0.5 + x * m as real);
    if s < 0 then 0 else if s > m then m else s
  }

  /** `srgb_to_linear`: the sRGB transfer function, with `pow24(t)` standing for `pow(t, 2.4)`. */
  function SrgbToLinear(v: real, pow24: real -> real): (l: real)
    ensures v <= 0.04045 ==> (l < 0.0 <==> v < 0.0) && (0.0 <= v ==> l <= v)
  {
    if v <= 0.04045 then v / 12.92 else pow24((v + 0.055) / 1.055)
  }

  /** With `pow24` non-decreasing, `srgb_to_linear` is non-decreasing on each side of the
      0.04045 break point. */
  lemma {:induction false} SrgbToLinearMonotone(u: real, v: real, pow24: real -> real)
    requires u <= v
    requires forall s: real, t: real :: s <= t ==> pow24(s) <= pow24(t)
    requires v <= 0.04045 || 0.04045 < u
    ensures SrgbToLinear(u, pow24) <= SrgbToLinear(v, pow24)
  {
  }

  /** The linear-light luma computed for a 1-bit pixel: a weighted mean of the three
      linear channels, whose weights sum to one. */
  function Luma(c: Color, pow24: real -> real): (y: real)
    ensures c.r == c.g == c.b ==> y == SrgbToLinear(c.r, pow24)
    ensures var lr, lg, lb := SrgbToLinear(c.r, pow24), SrgbToLinear(c.g, pow24), SrgbToLinear(c.b, pow24);
      (0.0 <= lr <= 1.0 && 0.0 <= lg <= 1.0 && 0.0 <= lb <= 1.0 ==> 0.0 <= y <= 1.0)
  {
    SrgbToLinear(c.r, pow24) * 0.212655 + SrgbToLinear(c.g, pow24) * 0.715158
      + SrgbToLinear(c.b, pow24) * 0.072187
  }

  /** The 8x8 ordered-dither table: entry `i` holds the `k` of the threshold `(k + 0.5) / 64`. */
  const DitherPattern: seq<int> :=
    [ 0, 48, 12, 60,  3, 51, 15, 63] +
    [32, 16, 44, 28, 35, 19, 47, 31] +
    [ 8, 56,  4, 52, 11, 59,  7, 55] +
    [40, 24, 36, 20, 43, 27, 39, 23] +
    [ 2, 50, 14, 62,  1, 49, 13, 61] +
    [34, 18, 46, 30, 33, 17, 45, 29] +
    [10, 58,  6, 54,  9, 57,  5, 53] +
    [42, 26, 38, 22, 41, 25, 37, 21]

  /** The position in `DitherPattern` of each k in 0..63 (the table's inverse). */
  const DitherRank: seq<int> :=
    [ 0, 36, 32,  4, 18, 54, 50, 22] +
    [16, 52, 48, 20,  2, 38, 34,  6] +
    [ 9, 45, 41, 13, 27, 63, 59, 31] +
    [25, 61, 57, 29, 11, 47, 43, 15] +
    [ 8, 44, 40, 12, 26, 62, 58, 30] +
    [24, 60, 56, 28, 10, 46, 42, 14] +
    [ 1, 37, 33,  5, 19, 55, 51, 23] +
    [17, 53, 49, 21,  3, 39, 35,  7]

  /** Where the threshold for pixel (x, y) sits in the table. */
  function PatternIndex(x: nat, y: nat): (i: nat)
    ensures i < 64 && i < |DitherPattern|
    ensures i % 8 == x % 8 && i / 8 == y % 8
  {
    (x % 8) + 8 * (y % 8)
  }

  function Threshold(x: nat, y: nat): (t: real)
    ensures 1.0 / 128.0 <= t <= 127.0 / 128.0
  {
    PatternBounds();
    (DitherPattern[PatternIndex(x, y)] as real + 0.5) / 64.0
  }

  /** `ordered_dither_lowlevel`: 1 exactly when `fraction` reaches the pixel's threshold. */
  function OrderedDitherLowLevel(fraction: real, x: nat, y: nat): (r: int)
    ensures r == 0 || r == 1
    ensures fraction >= 127.0 / 128.0 ==> r == 1
    ensures fraction < 1.0 / 128.0 ==> r == 0
  {
    if fraction >= Threshold(x, y) then 1 else 0
  }

  /** The choice `ordered_dither` makes between the codes `fl` and `fl + 1` (of 0..maxcc):
      how far `v` lies between them in linear light, compared with the pixel's threshold.
      A zero denominator is an IEEE division by +0.0: a positive numerator gives +infinity
      (above every threshold), a zero or negative one NaN or -infinity (below all of them). */
  function DitherRoundsUp(v: real, maxcc: int, fl: int, x: nat, y: nat, pow24: real -> real): (up: bool)
    requires maxcc != 0
    ensures fl as real == v * maxcc as real ==> !up
  {
    assert fl as real == v * maxcc as real ==> fl as real / maxcc as real == v;
    var lo := SrgbToLinear(fl as real / maxcc as real, pow24);
    var hi := SrgbToLinear((fl + 1) as real / maxcc as real, pow24);
    var num := SrgbToLinear(v, pow24) - lo;
    var den := hi - lo;
    if den == 0.0 then num > 0.0 else OrderedDitherLowLevel(num / den, x, y) == 1
  }

  /** `ordered_dither`: the code for `v` on the scale 0..maxcc, one of the two codes
      around `v * maxcc`, the upper one when `DitherRoundsUp`. */
  function OrderedDither(v: real, maxcc: int, x: nat, y: nat, pow24: real -> real): (r: int)
    ensures 0.0 <= v && 0 <= maxcc ==> 0 <= r <= maxcc
    ensures 0.0 <= v <= 1.0 && 0 <= maxcc ==>
      r as real - 1.0 < v * maxcc as real < r as real + 1.0
  {
    var vm := v * maxcc as real;
    var fl := vm.Floor;
    assert fl as real <= vm < fl as real + 1.0;
    ScaledBounds(v, maxcc);
    if fl >= maxcc then maxcc
    else if DitherRoundsUp(v, maxcc, fl, x, y, pow24) then fl + 1
    else fl
  }

  /** `v * m` lies in [0, m] when `v` lies in [0, 1]. */
  lemma {:induction false} ScaledBounds(v: real, m: int)
    ensures 0.0 <= v && 0 <= m ==> 0.0 <= v * m as real
    ensures 0.0 <= v <= 1.0 && 0 <= m ==> v * m as real <= m as real
  {
    if 0.0 <= v && 0 <= m {
      assert 0.0 <= v * m as real;
      if v <= 1.0 {
        assert v * m as real <= 1.0 * m as real;
      }
    }
  }

  /** Every table entry is one of 0..63, so every threshold lies strictly inside (0, 1). */
  lemma {:induction false} PatternBounds()
    ensures |DitherPattern| == 64
    ensures forall i :: 0 <= i < 64 ==> 0 <= DitherPattern[i] < 64
  {
  }

  /** `DitherRank` undoes `DitherPattern` on the entries 0 .. 15. */
  lemma {:induction false} PatternRanksA(q: int)
    requires 0 <= q < 4
    ensures forall i :: 4 * q <= i < 4 * q + 4 ==> 0 <= DitherPattern[i] < 64 && DitherRank[DitherPattern[i]] == i
  {
    if q == 0 {} else if q == 1 {} else if q == 2 {} else {}
  }

  /** `DitherRank` undoes `DitherPattern` on the entries 16 .. 31. */
  lemma {:induction false} PatternRanksB(q: int)
    requires 4 <= q < 8
    ensures forall i :: 4 * q <= i < 4 * q + 4 ==> 0 <= DitherPattern[i] < 64 && DitherRank[DitherPattern[i]] == i
  {
    if q == 4 {} else if q == 5 {} else if q == 6 {} else {}
  }

  /** `DitherRank` undoes `DitherPattern` on the entries 32 .. 47. */
  lemma {:induction false} PatternRanksC(q: int)
    requires 8 <= q < 12
    ensures forall i :: 4 * q <= i < 4 * q + 4 ==> 0 <= DitherPattern[i] < 64 && DitherRank[DitherPattern[i]] == i
  {
    if q == 8 {} else if q == 9 {} else if q == 10 {} else {}
  }

  /** `DitherRank` undoes `DitherPattern` on the entries 48 .. 63. */
  lemma {:induction false} PatternRanksD(q: int)
    requires 12 <= q < 16
    ensures forall i :: 4 * q <= i < 4 * q + 4 ==> 0 <= DitherPattern[i] < 64 && DitherRank[DitherPattern[i]] == i
  {
    if q == 12 {} else if q == 13 {} else if q == 14 {} else {}
  }

  /** `DitherPattern` undoes `DitherRank` on 0 .. 15. */
  lemma {:induction false} RankPatternsA(q: int)
    requires 0 <= q < 4
    ensures forall k :: 4 * q <= k < 4 * q + 4 ==> 0 <= DitherRank[k] < 64 && DitherPattern[DitherRank[k]] == k
  {
    if q == 0 {} else if q == 1 {} else if q == 2 {} else {}
  }

  /** `DitherPattern` undoes `DitherRank` on 16 .. 31. */
  lemma {:induction false} RankPatternsB(q: int)
    requires 4 <= q < 8
    ensures forall k :: 4 * q <= k < 4 * q + 4 ==> 0 <= DitherRank[k] < 64 && DitherPattern[DitherRank[k]] == k
  {
    if q == 4 {} else if q == 5 {} else if q == 6 {} else {}
  }

  /** `DitherPattern` undoes `DitherRank` on 32 .. 47. */
  lemma {:induction false} RankPatternsC(q: int)
    requires 8 <= q < 12
    ensures forall k :: 4 * q <= k < 4 * q + 4 ==> 0 <= DitherRank[k] < 64 && DitherPattern[DitherRank[k]] == k
  {
    if q == 8 {} else if q == 9 {} else if q == 10 {} else {}
  }

  /** `DitherPattern` undoes `DitherRank` on 48 .. 63. */
  lemma {:induction false} RankPatternsD(q: int)
    requires 12 <= q < 16
    ensures forall k :: 4 * q <= k < 4 * q + 4 ==> 0 <= DitherRank[k] < 64 && DitherPattern[DitherRank[k]] == k
  {
    if q == 12 {} else if q == 13 {} else if q == 14 {} else {}
  }

  /** The table is a permutation of 0..63: `DitherPattern` and `DitherRank` are inverse
      bijections of 0..63, so the 64 thresholds are `(k + 0.5) / 64` for k = 0..63,
      each used at exactly one pixel position of the 8x8 tile. */
  lemma {:induction false} PatternIsPermutation()
    ensures |DitherPattern| == 64 && |DitherRank| == 64
    ensures forall i :: 0 <= i < 64 ==> 0 <= DitherPattern[i] < 64 && DitherRank[DitherPattern[i]] == i
    ensures forall k :: 0 <= k < 64 ==> 0 <= DitherRank[k] < 64 && DitherPattern[DitherRank[k]] == k
  {
    forall i | 0 <= i < 64
      ensures 0 <= DitherPattern[i] < 64 && DitherRank[DitherPattern[i]] == i
    {
      var q := i / 4;
      if q < 4 { PatternRanksA(q); } else if q < 8 { PatternRanksB(q); }
      else if q < 12 { PatternRanksC(q); } else { PatternRanksD(q); }
    }
    forall k | 0 <= k < 64
      ensures 0 <= DitherRank[k] < 64 && DitherPattern[DitherRank[k]] == k
    {
      var q := k / 4;
      if q < 4 { RankPatternsA(q); } else if q < 8 { RankPatternsB(q); }
      else if q < 12 { RankPatternsC(q); } else { RankPatternsD(q); }
    }
  }
}
