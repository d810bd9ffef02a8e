/** What `set_pixel` stores for one pixel at each bit depth, and the pixel data
    `write_bits` leaves in the buffer. */
module Pixels {
  import opened Bytes
  import opened Arith
  import opened Bits
  import opened Quantize
  import opened Layout

  /** The colour of each pixel, `get_pixel_color(c, x, y, ...)`. */
  type Sampler = (nat, nat) -> Color

  /** Every sample has non-negative colour channels. */
  ghost predicate NonNegativeSamples(sample: Sampler)
  {
    forall x: nat, y: nat :: NonNegative(sample(x, y))
  }

  /** The integer codes of one pixel before they are packed. */
  datatype Codes = Codes(r: int, g: int, b: int, a: int)

  /** Depths whose pixels occupy whole bytes. */
  predicate WholeBytes(bpp: int)
  {
    bpp == 8 || bpp == 16 || bpp == 24 || bpp == 32
  }

  /** Depths that pack several pixels into one byte. */
  predicate SubByte(bpp: int)
  {
    bpp == 1 || bpp == 4
  }

  /** Bytes per pixel at a whole-byte depth: `bpp / 8`. */
  function BytesPerPixel(bpp: int): (n: nat)
    requires WholeBytes(bpp)
    ensures 1 <= n <= 4
  {
    if bpp == 8 then 1 else if bpp == 16 then 2 else if bpp == 24 then 3 else 4
  }

  lemma {:induction false} BytesPerPixelIs(bpp: int)
    requires WholeBytes(bpp)
    ensures BytesPerPixel(bpp) == bpp / 8 && bpp == 8 * BytesPerPixel(bpp)
  {
  }

  function PixelsPerByte(bpp: int): (n: nat)
    requires SubByte(bpp)
    ensures bpp == 1 ==> n == 8
    ensures bpp == 4 ==> n == 2
    ensures 0 < n
  {
    if bpp == 4 then 2 else 8
  }

  /** The 16-bit and masked 32-bit packers shift by channel widths; these bounds
      keep every `1 << n` inside an `int` and every shift of an `unsigned int`
      below 32 bits. */
  predicate ChannelWidthsOk(f: Format)
  {
    (f.bpp == 16 || (f.bpp == 32 && f.compression == BI_BITFIELDS && f.rgba == 0)) ==>
      f.nbitsR <= 30 && f.nbitsG <= 30 && f.nbitsB <= 30 && f.nbitsG + f.nbitsB <= 31 &&
      (f.bpp == 16 && f.rgba != 0 ==> f.nbitsA <= 30 && f.nbitsR + f.nbitsG + f.nbitsB <= 31)
  }

  /** C's conversion of an `int` to `unsigned int`. */
  function ToUnsigned(v: int): (u: nat)
    ensures u < TWO32 && (u - v) % TWO32 == 0
  {
    v % TWO32
  }

  /** Palette index of the 8-bit R6G7B6 palette. */
  function Index8(q: Codes): int
  {
    q.r + 6 * q.g + 42 * q.b
  }

  /** Palette index of the 4-bit R2G3B2 palette. */
  function Index4(q: Codes): int
  {
    q.r + 2 * q.g + 6 * q.b
  }

  /** Every R6G7B6 triple has its own index in 0..251, from which `i % 6`,
      `(i % 42) / 6` and `i / 42` recover it. */
  lemma {:induction false} Index8RoundTrip(q: Codes)
    requires Codes8Ok(q)
    ensures 0 <= Index8(q) <= 251
    ensures Index8(q) % 6 == q.r && (Index8(q) % 42) / 6 == q.g && Index8(q) / 42 == q.b
  {
    var p, r, g, b := Index8(q), q.r, q.g, q.b;
    DivModUnique(p, 42, b, r + 6 * g);
    DivModUnique(p % 42, 6, g, r);
    DivModUnique(p, 6, g + 7 * b, r);
  }

  /** Every index below 252 is the index of the triple decoded from it. */
  lemma {:induction false} Index8Decode(i: int, a: int)
    requires 0 <= i < 252
    ensures Codes8Ok(Codes(i % 6, (i % 42) / 6, i / 42, a))
    ensures Index8(Codes(i % 6, (i % 42) / 6, i / 42, a)) == i
  {
    DivModUnique(i % 42, 6, (i % 42) / 6, (i % 42) % 6);
    assert (i % 42) % 6 == i % 6 by {
      DivModUnique(i, 6, 7 * (i / 42) + (i % 42) / 6, (i % 42) % 6);
    }
  }

  /** Every R2G3B2 triple has its own index in 0..11, from which `i % 2`,
      `(i % 6) / 2` and `i / 6` recover it. */
  lemma {:induction false} Index4RoundTrip(q: Codes)
    requires Codes4Ok(q)
    ensures 0 <= Index4(q) <= 11
    ensures Index4(q) % 2 == q.r && (Index4(q) % 6) / 2 == q.g && Index4(q) / 6 == q.b
  {
    var p, r, g, b := Index4(q), q.r, q.g, q.b;
    DivModUnique(p, 6, b, r + 2 * g);
    DivModUnique(p % 6, 2, g, r);
    DivModUnique(p, 2, g + 3 * b, r);
  }

  /** Every index below 12 is the index of the triple decoded from it. */
  lemma {:induction false} Index4Decode(i: int, a: int)
    requires 0 <= i < 12
    ensures Codes4Ok(Codes(i % 2, (i % 6) / 2, i / 6, a))
    ensures Index4(Codes(i % 2, (i % 6) / 2, i / 6, a)) == i
  {
    DivModUnique(i % 6, 2, (i % 6) / 2, (i % 6) % 2);
    assert (i % 6) % 2 == i % 2 by {
      DivModUnique(i, 2, 3 * (i / 6) + (i % 6) / 2, (i % 6) % 2);
    }
  }

  /** The dithered codes of an 8-bit pixel, each on its channel's scale. */
  function Codes8(x: nat, y: nat, c: Color, pow24: real -> real): (q: Codes)
    ensures NonNegative(c) ==> Codes8Ok(q)
  {
    Codes(OrderedDither(c.r, 5, x, y, pow24), OrderedDither(c.g, 6, x, y, pow24),
          OrderedDither(c.b, 5, x, y, pow24), 0)
  }

  /** The dithered codes of a 4-bit pixel, each on its channel's scale. */
  function Codes4(x: nat, y: nat, c: Color, pow24: real -> real): (q: Codes)
    ensures NonNegative(c) ==> Codes4Ok(q)
  {
    Codes(OrderedDither(c.r, 1, x, y, pow24), OrderedDither(c.g, 2, x, y, pow24),
          OrderedDither(c.b, 1, x, y, pow24), 0)
  }

  /** The codes of a 16-bit pixel: dithered or rounded to each channel's width; alpha
      only when `rgba`. */
  function Codes16(f: Format, x: nat, y: nat, c: Color, pow24: real -> real): (q: Codes)
    ensures 0 <= q.a <= MaxCode(f.nbitsA) && (f.rgba == 0 ==> q.a == 0)
    ensures (NonNegative(c) || f.dither == 0) ==>
      0 <= q.r <= MaxCode(f.nbitsR) && 0 <= q.g <= MaxCode(f.nbitsG) && 0 <= q.b <= MaxCode(f.nbitsB)
  {
    var mr, mg, mb := MaxCode(f.nbitsR), MaxCode(f.nbitsG), MaxCode(f.nbitsB);
    var a := if f.rgba != 0 then ScaleToInt(c.a, MaxCode(f.nbitsA)) else 0;
    if f.dither != 0 then
      Codes(OrderedDither(c.r, mr, x, y, pow24), OrderedDither(c.g, mg, x, y, pow24),
            OrderedDither(c.b, mb, x, y, pow24), a)
    else
      Codes(ScaleToInt(c.r, mr), ScaleToInt(c.g, mg), ScaleToInt(c.b, mb), a)
  }

  /** The codes of a 32-bit pixel with channel widths of its own. */
  function CodesMasked(f: Format, c: Color): (q: Codes)
    ensures 0 <= q.r <= MaxCode(f.nbitsR) && 0 <= q.g <= MaxCode(f.nbitsG)
    ensures 0 <= q.b <= MaxCode(f.nbitsB) && q.a == 0
  {
    Codes(ScaleToInt(c.r, MaxCode(f.nbitsR)), ScaleToInt(c.g, MaxCode(f.nbitsG)),
          ScaleToInt(c.b, MaxCode(f.nbitsB)), 0)
  }

  /** The 8-bit codes of a 24- or 32-bit pixel; alpha only for 32-bit `rgba`. */
  function CodesTrue(f: Format, c: Color): (q: Codes)
    ensures 0 <= q.r <= 255 && 0 <= q.g <= 255 && 0 <= q.b <= 255 && 0 <= q.a <= 255
    ensures f.rgba == 0 ==> q.a == 0
  {
    Codes(ScaleToInt(c.r, 255), ScaleToInt(c.g, 255), ScaleToInt(c.b, 255),
          if f.rgba != 0 then ScaleToInt(c.a, 255) else 0)
  }

  /** `(r << (ng + nb)) | (g << nb) | b` on `unsigned int`. */
  function PackRgb(q: Codes, ng: nat, nb: nat): nat
    requires ng + nb < 32
  {
    var r, g, b := ToUnsigned(q.r), ToUnsigned(q.g), ToUnsigned(q.b);
    Or(Or(ShiftLeft32(r, ng + nb), ShiftLeft32(g, nb)), b)
  }

  /** The 16-bit word: the packed colour, and alpha above it when `rgba`. */
  function Word16(f: Format, q: Codes): nat
    requires f.nbitsG + f.nbitsB < 32
    requires f.rgba != 0 ==> f.nbitsR + f.nbitsG + f.nbitsB < 32
  {
    var u := PackRgb(q, f.nbitsG, f.nbitsB);
    if f.rgba != 0 then Or(u, ShiftLeft32(ToUnsigned(q.a), f.nbitsR + f.nbitsG + f.nbitsB)) else u
  }

  /** `(hi << n) | lo` for `lo` below 2^n. */
  function Join(hi: nat, lo: nat, n: nat): nat
  {
    hi * Pow2(n) + lo
  }

  /** A decoder's reading of a packed word: blue from the low `nb` bits, green from the
      `ng` bits above it, red from the `nr` bits above those, and whatever lies higher. */
  function Unpack(u: nat, nr: nat, ng: nat, nb: nat): Codes
  {
    var u1 := u / Pow2(nb);
    var u2 := u1 / Pow2(ng);
    Codes(u2 % Pow2(nr), u1 % Pow2(ng), u % Pow2(nb), u2 / Pow2(nr))
  }

  lemma {:induction false} JoinSplit(hi: nat, lo: nat, n: nat)
    requires lo < Pow2(n)
    ensures Join(hi, lo, n) / Pow2(n) == hi && Join(hi, lo, n) % Pow2(n) == lo
  {
    DivModUnique(Join(hi, lo, n), Pow2(n), hi, lo);
  }

  lemma {:induction false} JoinBelow(hi: nat, lo: nat, n: nat, k: nat)
    requires hi < Pow2(k) && lo < Pow2(n)
    ensures Join(hi, lo, n) < Pow2(k + n)
  {
    Pow2Add(k, n);
    MulBelow(hi, lo, Pow2(k), Pow2(n));
  }

  lemma {:induction false} MulBelow(a: int, b: int, pa: int, pb: int)
    requires 0 <= a < pa && 0 <= b < pb
    ensures a * pb + b < pa * pb
  {
    assert (a + 1) * pb == a * pb + pb;
    MulLe(a + 1, pa, pb);
  }

  lemma {:induction false} MulLe(x: int, y: int, c: int)
    requires x <= y && 0 <= c
    ensures x * c <= y * c
  {
    assert y * c - x * c == (y - x) * c;
  }

  lemma {:induction false} Distrib(a: int, g: int, x: int, y: int)
    ensures a * (x * y) + g * y == (a * x + g) * y
  {
  }

  /** Fields packed one above the other come back out of `Unpack` unchanged. */
  lemma {:induction false} UnpackJoin(a: nat, r: nat, g: nat, b: nat, nr: nat, ng: nat, nb: nat)
    requires r < Pow2(nr) && g < Pow2(ng) && b < Pow2(nb)
    ensures Unpack(Join(Join(Join(a, r, nr), g, ng), b, nb), nr, ng, nb) == Codes(r, g, b, a)
  {
    JoinSplit(Join(Join(a, r, nr), g, ng), b, nb);
    JoinSplit(Join(a, r, nr), g, ng);
    JoinSplit(a, r, nr);
  }

  lemma {:induction false} JoinRegroup(a: nat, r: nat, g: nat, b: nat, nr: nat, ng: nat, nb: nat)
    ensures Join(a, Join(Join(r, g, ng), b, nb), nr + ng + nb) == Join(Join(Join(a, r, nr), g, ng), b, nb)
  {
    Pow2Add(nr, ng);
    Pow2Add(nr + ng, nb);
    Regroup(a, r, g, b, Pow2(nr), Pow2(ng), Pow2(nb));
  }

  lemma {:induction false} Regroup(a: int, r: int, g: int, b: int, pr: int, pg: int, pb: int)
    ensures a * (pr * pg * pb) + ((r * pg + g) * pb + b) == ((a * pr + r) * pg + g) * pb + b
  {
    assert (a * pr + r) * pg == a * pr * pg + r * pg;
    assert (a * pr * pg + r * pg + g) * pb == a * pr * pg * pb + (r * pg + g) * pb;
  }

  /** A value below 2^n with n at most 32 is its own `unsigned int` conversion. */
  lemma {:induction false} UnsignedSmall(v: int, n: nat)
    requires 0 <= v < Pow2(n) && n <= 32
    ensures ToUnsigned(v) == v
  {
    Pow2Is32();
    Pow2Mono(n, 32);
  }

  /** `(hi << (ng + nb)) + (g << nb)` is `((hi << ng) + g) << nb`. */
  lemma {:induction false} ShiftSum(hi: nat, g: nat, ng: nat, nb: nat)
    ensures hi * Pow2(ng + nb) + g * Pow2(nb) == Join(hi, g, ng) * Pow2(nb)
  {
    Pow2Add(ng, nb);
    Distrib(hi, g, Pow2(ng), Pow2(nb));
  }

  /** The packed colour as a sum of fields: red keeps only the bits that survive the
      shift by `ng + nb`. */
  lemma {:induction false} PackRgbValue(q: Codes, nr: nat, ng: nat, nb: nat)
    requires nr <= 32 && ng + nb < 32
    requires 0 <= q.r < Pow2(nr) && 0 <= q.g < Pow2(ng) && 0 <= q.b < Pow2(nb)
    ensures PackRgb(q, ng, nb) == Join(Join(q.r % Pow2(32 - ng - nb), q.g, ng), q.b, nb)
    ensures PackRgb(q, ng, nb) < TWO32
    ensures nr + ng + nb <= 32 ==> PackRgb(q, ng, nb) == Join(Join(q.r, q.g, ng), q.b, nb)
  {
    var k := ng + nb;
    var hi := q.r % Pow2(32 - k);
    PackRgbJoin(q, nr, ng, nb);
    Join3Below(hi, q.g, q.b, 32 - k, ng, nb);
    assert 32 - k + ng + nb == 32;
    Pow2Is32();
    if nr + ng + nb <= 32 {
      ModSmall(q.r, nr, 32 - k);
    }
  }

  lemma {:induction false} PackRgbJoin(q: Codes, nr: nat, ng: nat, nb: nat)
    requires nr <= 32 && ng + nb < 32
    requires 0 <= q.r < Pow2(nr) && 0 <= q.g < Pow2(ng) && 0 <= q.b < Pow2(nb)
    ensures PackRgb(q, ng, nb) == Join(Join(q.r % Pow2(32 - ng - nb), q.g, ng), q.b, nb)
  {
    var k := ng + nb;
    var r, g, b: nat := q.r, q.g, q.b;
    UnsignedSmall(r, nr);
    UnsignedSmall(g, ng);
    UnsignedSmall(b, nb);
    var hi := r % Pow2(32 - k);
    var sr, sg := ShiftLeft32(r, k), ShiftLeft32(g, nb);
    assert sr == hi * Pow2(k) by {
      ShiftWraps(r, k);
    }
    assert sg == g * Pow2(nb) by {
      Pow2Mono(ng, 32 - nb);
      ShiftExact(g, nb);
    }
    assert PackRgb(q, ng, nb) == Or(Or(sr, sg), b);
    OrFields(hi, g, b, sr, sg, ng, nb);
  }

  /** The red, green and blue fields, shifted into place, ORed together. */
  lemma {:induction false} OrFields(hi: nat, g: nat, b: nat, sr: nat, sg: nat, ng: nat, nb: nat)
    requires g < Pow2(ng) && b < Pow2(nb) && sr == hi * Pow2(ng + nb) && sg == g * Pow2(nb)
    ensures Or(Or(sr, sg), b) == Join(Join(hi, g, ng), b, nb)
  {
    var x := Join(hi, g, ng);
    JoinBelow(g, 0, nb, ng);
    OrDisjoint(hi, sg, ng + nb);
    ShiftSum(hi, g, ng, nb);
    OrDisjoint(x, b, nb);
  }

  /** The 16-bit word holds, from the bottom, blue, green, red and (when `rgba`) alpha. */
  lemma {:induction false} Word16Value(f: Format, q: Codes)
    requires f.nbitsR + f.nbitsG + f.nbitsB <= 31
    requires 0 <= q.r < Pow2(f.nbitsR) && 0 <= q.g < Pow2(f.nbitsG) && 0 <= q.b < Pow2(f.nbitsB)
    requires 0 <= q.a && (f.rgba == 0 ==> q.a == 0)
    ensures var s := f.nbitsR + f.nbitsG + f.nbitsB;
      Word16(f, q) == Join(Join(Join(q.a % Pow2(32 - s), q.r, f.nbitsR), q.g, f.nbitsG), q.b, f.nbitsB)
  {
    var nr, ng, nb := f.nbitsR, f.nbitsG, f.nbitsB;
    var s := nr + ng + nb;
    var r, g, b: nat := q.r, q.g, q.b;
    var u := PackRgb(q, ng, nb);
    var hi := q.a % Pow2(32 - s);
    PackRgbValue(q, nr, ng, nb);
    Join3Below(r, g, b, nr, ng, nb);
    JoinRegroup(hi, r, g, b, nr, ng, nb);
    Word16Joined(f, q, u, hi);
  }

  /** The 16-bit word is the packed colour with alpha (`hi`, zero without `rgba`) joined
      above it. */
  lemma {:induction false} Word16Joined(f: Format, q: Codes, u: nat, hi: nat)
    requires f.nbitsR + f.nbitsG + f.nbitsB <= 31
    requires 0 <= q.a && (f.rgba == 0 ==> q.a == 0)
    requires u == PackRgb(q, f.nbitsG, f.nbitsB) && u < Pow2(f.nbitsR + f.nbitsG + f.nbitsB)
    requires hi == q.a % Pow2(32 - (f.nbitsR + f.nbitsG + f.nbitsB))
    ensures Word16(f, q) == Join(hi, u, f.nbitsR + f.nbitsG + f.nbitsB)
  {
    if f.rgba != 0 {
      Word16Alpha(f, q);
    } else {
      ModSmall(q.a, 0, 32 - (f.nbitsR + f.nbitsG + f.nbitsB));
      assert hi == 0;
    }
  }

  /** With `rgba`, alpha shifted past red, green and blue is ORed above them. */
  lemma {:induction false} Word16Alpha(f: Format, q: Codes)
    requires f.rgba != 0 && f.nbitsR + f.nbitsG + f.nbitsB <= 31
    requires PackRgb(q, f.nbitsG, f.nbitsB) < Pow2(f.nbitsR + f.nbitsG + f.nbitsB)
    ensures var s := f.nbitsR + f.nbitsG + f.nbitsB;
      Word16(f, q) == Join(q.a % Pow2(32 - s), PackRgb(q, f.nbitsG, f.nbitsB), s)
  {
    var s := f.nbitsR + f.nbitsG + f.nbitsB;
    var x := ShiftLeft32(ToUnsigned(q.a), s);
    ShiftUnsigned(q.a, s);
    AlphaAbove(PackRgb(q, f.nbitsG, f.nbitsB), x, q.a % Pow2(32 - s), s);
  }

  /** ORing alpha above the packed colour adds it. */
  lemma {:induction false} AlphaAbove(u: nat, x: nat, hi: nat, s: nat)
    requires u < Pow2(s) && x == hi * Pow2(s)
    ensures Or(u, x) == x + u
  {
    OrCommutes(u, x);
    OrDisjoint(hi, u, s);
  }

  /** Three fields that fit their widths join into a number that fits their total width. */
  lemma {:induction false} Join3Below(r: nat, g: nat, b: nat, nr: nat, ng: nat, nb: nat)
    requires r < Pow2(nr) && g < Pow2(ng) && b < Pow2(nb)
    ensures Join(Join(r, g, ng), b, nb) < Pow2(nr + ng + nb)
  {
    JoinBelow(r, g, ng, nr);
    JoinBelow(Join(r, g, ng), b, nb, nr + ng);
  }

  lemma {:induction false} ModSmall(v: int, n: nat, m: nat)
    requires 0 <= v < Pow2(n) && n <= m
    ensures v % Pow2(m) == v
  {
    Pow2Mono(n, m);
    DivModUnique(v, Pow2(m), 0, v);
  }

  /** Shifting the `unsigned int` conversion of `v` by `s` keeps the low `32 - s` bits of `v`. */
  lemma {:induction false} ShiftUnsigned(v: int, s: nat)
    requires s < 32
    ensures ShiftLeft32(ToUnsigned(v), s) == (v % Pow2(32 - s)) * Pow2(s)
  {
    ShiftWraps(ToUnsigned(v), s);
    Pow2Is32();
    Pow2Add(32 - s, s);
    ModOfMod(v, Pow2(32 - s), Pow2(s));
  }

  /** Reducing modulo `q * p` and then modulo `q` is reducing modulo `q`. */
  lemma {:induction false} ModOfMod(x: int, q: int, p: int)
    requires 0 < q && 0 < p
    ensures (x % (q * p)) % q == x % q
  {
    var hi, lo := x / (q * p), x % (q * p);
    assert x == (hi * p) * q + lo;
    DivModUnique(x, q, hi * p + lo / q, lo % q);
  }

  /** An 8-bit pixel: its palette index. */
  function Bytes8(q: Codes): seq<byte>
  {
    [LowByte(Index8(q))]
  }

  /** A 16-bit pixel: the low two bytes of its word, low byte first. */
  function Bytes16(f: Format, q: Codes): seq<byte>
    requires f.nbitsG + f.nbitsB < 32
    requires f.rgba != 0 ==> f.nbitsR + f.nbitsG + f.nbitsB < 32
  {
    Int16Bytes(Word16(f, q))
  }

  /** A masked 32-bit pixel: its packed word, low byte first. */
  function BytesMasked(f: Format, q: Codes): seq<byte>
    requires f.nbitsG + f.nbitsB < 32
  {
    Int32Bytes(PackRgb(q, f.nbitsG, f.nbitsB))
  }

  /** A 24-bit (`n == 3`) or unmasked 32-bit (`n == 4`) pixel: blue, green, red, alpha. */
  function BytesTrue(q: Codes, n: nat): seq<byte>
    requires n == 3 || n == 4
  {
    [LowByte(q.b), LowByte(q.g), LowByte(q.r)] + (if n == 4 then [LowByte(q.a)] else [])
  }

  /** The codes `set_pixel` computes for a pixel of colour `c` at (x, y) before it
      stores anything: the channel codes at 4, 8, 16, 24 and 32 bits per pixel and, at
      1 bit per pixel, the pixel's bit as the red code. */
  function PixelCodes(f: Format, x: nat, y: nat, c: Color, pow24: real -> real): (q: Codes)
    ensures f.bpp == 4 && NonNegative(c) ==> Codes4Ok(q)
    ensures f.bpp == 8 && NonNegative(c) ==> Codes8Ok(q)
    ensures f.bpp == 24 || f.bpp == 32 ==> 0 <= q.a <= 255 && (f.rgba == 0 ==> q.a == 0)
  {
    if f.bpp == 32 then
      if f.compression == BI_BITFIELDS && f.rgba == 0 then CodesMasked(f, c) else CodesTrue(f, c)
    else if f.bpp == 24 then CodesTrue(f, c)
    else if f.bpp == 16 then Codes16(f, x, y, c, pow24)
    else if f.bpp == 8 then Codes8(x, y, c, pow24)
    else if f.bpp == 4 then Codes4(x, y, c, pow24)
    else if f.bpp == 1 then Codes(Bit1(f, x, y, c, pow24), 0, 0, 0)
    else Codes(0, 0, 0, 0)
  }

  /** The codes of a 4-bit pixel are on the R2G3B2 scales. */
  predicate Codes4Ok(q: Codes)
  {
    0 <= q.r <= 1 && 0 <= q.g <= 2 && 0 <= q.b <= 1
  }

  /** The codes of an 8-bit pixel are on the R6G7B6 scales. */
  predicate Codes8Ok(q: Codes)
  {
    0 <= q.r <= 5 && 0 <= q.g <= 6 && 0 <= q.b <= 5
  }

  /** The bytes `set_pixel` writes for a pixel of a whole-byte depth with codes `q`, in
      file order. */
  function PixelBytes(f: Format, q: Codes): (bs: seq<byte>)
    requires WholeBytes(f.bpp) && ChannelWidthsOk(f)
    ensures |bs| == BytesPerPixel(f.bpp)
  {
    if f.bpp == 32 then
      if f.compression == BI_BITFIELDS && f.rgba == 0 then BytesMasked(f, q) else BytesTrue(q, 4)
    else if f.bpp == 24 then BytesTrue(q, 3)
    else if f.bpp == 16 then Bytes16(f, q)
    else Bytes8(q)
  }

  /** A 16-bit pixel whose fields fit in 16 bits is stored whole in its two bytes
      (low byte first), and a decoder recovers every code from them. */
  lemma {:induction false} Pixel16RoundTrip(f: Format, q: Codes)
    requires ChannelWidthsOk(f.(bpp := 16))
    requires 0 <= q.r < Pow2(f.nbitsR) && 0 <= q.g < Pow2(f.nbitsG) && 0 <= q.b < Pow2(f.nbitsB)
    requires 0 <= q.a < Pow2(f.nbitsA) && (f.rgba == 0 ==> q.a == 0)
    requires f.nbitsR + f.nbitsG + f.nbitsB + (if f.rgba != 0 then f.nbitsA else 0) <= 16
    ensures Unpack(LE16(Bytes16(f, q)), f.nbitsR, f.nbitsG, f.nbitsB) == q
  {
    var na := if f.rgba != 0 then f.nbitsA else 0;
    Word16Value(f, q);
    AlphaJoin(q.a, q.r, q.g, q.b, na, f.nbitsR, f.nbitsG, f.nbitsB);
    var u := Word16(f, q);
    Pow2Is32();
    DivModUnique(u, TWO16, 0, u);
    assert LE16(Bytes16(f, q)) == u;
    UnpackJoin(q.a, q.r, q.g, q.b, f.nbitsR, f.nbitsG, f.nbitsB);
  }

  /** With no more than 16 bits in all, the wrap of alpha at bit 32 drops nothing and
      the joined fields stay below 2^16. */
  lemma {:induction false} AlphaJoin(a: nat, r: nat, g: nat, b: nat, na: nat, nr: nat, ng: nat, nb: nat)
    requires a < Pow2(na) && r < Pow2(nr) && g < Pow2(ng) && b < Pow2(nb)
    requires na + nr + ng + nb <= 16
    ensures Join(Join(Join(a % Pow2(32 - (nr + ng + nb)), r, nr), g, ng), b, nb) ==
      Join(Join(Join(a, r, nr), g, ng), b, nb)
    ensures Join(Join(Join(a, r, nr), g, ng), b, nb) < Pow2(16)
  {
    ModSmall(a, na, 32 - (nr + ng + nb));
    JoinsBelow(a, r, g, b, na, nr, ng, nb);
    Pow2Mono(na + nr + ng + nb, 16);
  }

  /** Four fields that fit their widths join into a number that fits their total width. */
  lemma {:induction false} JoinsBelow(a: nat, r: nat, g: nat, b: nat, na: nat, nr: nat, ng: nat, nb: nat)
    requires a < Pow2(na) && r < Pow2(nr) && g < Pow2(ng) && b < Pow2(nb)
    ensures Join(Join(Join(a, r, nr), g, ng), b, nb) < Pow2(na + nr + ng + nb)
  {
    JoinBelow(a, r, nr, na);
    JoinBelow(Join(a, r, nr), g, ng, na + nr);
    JoinBelow(Join(Join(a, r, nr), g, ng), b, nb, na + nr + ng);
  }

  /** A masked 32-bit pixel whose fields fit in 32 bits is stored whole in its four
      bytes (low byte first), and a decoder recovers every code from them. */
  lemma {:induction false} PixelMaskedRoundTrip(f: Format, q: Codes)
    requires f.nbitsR <= 30 && f.nbitsG + f.nbitsB <= 31 && f.nbitsR + f.nbitsG + f.nbitsB <= 32
    requires 0 <= q.r < Pow2(f.nbitsR) && 0 <= q.g < Pow2(f.nbitsG) && 0 <= q.b < Pow2(f.nbitsB)
    requires q.a == 0
    ensures Unpack(LE32(BytesMasked(f, q)), f.nbitsR, f.nbitsG, f.nbitsB) == q
  {
    var nr, ng, nb := f.nbitsR, f.nbitsG, f.nbitsB;
    PackRgbValue(q, nr, ng, nb);
    var u := PackRgb(q, ng, nb);
    DivModUnique(u, TWO32, 0, u);
    assert LE32(BytesMasked(f, q)) == u;
    assert Join(0, q.r, nr) == q.r;
    UnpackJoin(0, q.r, q.g, q.b, nr, ng, nb);
  }

  /** An 8-bit pixel stores the R6G7B6 palette index of its codes, one of 0..251. */
  lemma {:induction false} Pixel8Index(q: Codes)
    requires Codes8Ok(q)
    ensures Bytes8(q)[0] == Index8(q)
    ensures Index8(q) <= 251
  {
    var i := Index8(q);
    assert 0 <= i <= 251;
    LowByteSmall(i);
  }

  /** A 24- or unmasked 32-bit pixel stores blue, green, red (and alpha), one byte
      each. */
  lemma {:induction false} PixelTrueColor(q: Codes, n: nat)
    requires n == 3 || n == 4
    requires 0 <= q.r <= 255 && 0 <= q.g <= 255 && 0 <= q.b <= 255 && 0 <= q.a <= 255
    ensures var bs := BytesTrue(q, n);
      |bs| == n && bs[0] == q.b && bs[1] == q.g && bs[2] == q.r &&
      (n == 4 ==> bs[3] == q.a)
  {
  }

  /** The 1-bit value of a pixel: the dithered luma, inverted for a palette that starts
      with white, and always 0 for a one-colour palette. */
  function Bit1(f: Format, x: nat, y: nat, c: Color, pow24: real -> real): (t: int)
    ensures t == 0 || t == 1
    ensures f.palP1 != 0 ==> t == 0
  {
    var t := OrderedDitherLowLevel(Luma(c, pow24), x, y);
    var t1 := if f.palWb != 0 then 1 - t else t;
    if f.palP1 != 0 then 0 else t1
  }

  /** `1 << (7 - x % 8)`: the bit of a 1-bit pixel inside its byte; the most
      significant bit is the leftmost pixel. */
  function BitMask(x: nat): (m: byte)
    ensures m * Pow2(x % 8) == 128
  {
    Pow2Mono(7 - x % 8, 7);
    Pow2Add(7 - x % 8, x % 8);
    Pow2(7 - x % 8)
  }

  /** The bits that `set_pixel` ORs into the byte holding pixel x with codes `q` at a
      sub-byte depth (none at any other depth). */
  function PixelBits(f: Format, x: nat, q: Codes): byte
  {
    if f.bpp == 4 then
      var p := Index4(q);
      if x % 2 == 1 then LowByte(p) else LowByte(16 * p)
    else if f.bpp == 1 then
      if q.r == 1 then BitMask(x) else 0
    else 0
  }

  /** A 4-bit pixel ORs its R2G3B2 index (0..11) into the low nibble when x is odd and,
      shifted left by four, into the high nibble when x is even. */
  lemma {:induction false} Pixel4Nibble(f: Format, x: nat, q: Codes)
    requires f.bpp == 4 && Codes4Ok(q)
    ensures var p := Index4(q);
      0 <= p <= 11 && PixelBits(f, x, q) == (if x % 2 == 1 then p else 16 * p)
  {
    var p := Index4(q);
    assert 0 <= p <= 11;
    LowByteSmall(p);
    LowByteSmall(16 * p);
  }

  /** A 1-bit pixel sets one bit of its byte when its bit is 1 and nothing otherwise:
      its mask times `2^(x % 8)` is 128, so pixel `8k` takes the most significant bit
      and pixel `8k + 7` the least. */
  lemma {:induction false} Pixel1Mask(f: Format, x: nat, q: Codes)
    requires f.bpp == 1
    ensures q.r != 1 ==> PixelBits(f, x, q) == 0
    ensures q.r == 1 ==> PixelBits(f, x, q) * Pow2(x % 8) == 128
    ensures q.r == 1 && x % 8 == 0 ==> PixelBits(f, x, q) == 128
    ensures q.r == 1 && x % 8 == 7 ==> PixelBits(f, x, q) == 1
  {
  }

  /** Two different 1-bit pixels that share a byte set different bits of it. */
  lemma {:induction false} Pixel1Distinct(f: Format, x: nat, x2: nat, q: Codes, q2: Codes)
    requires f.bpp == 1 && x / 8 == x2 / 8 && x != x2 && q.r == 1 && q2.r == 1
    ensures PixelBits(f, x, q) != PixelBits(f, x2, q2)
  {
    var a, b := 7 - x % 8, 7 - x2 % 8;
    assert PixelBits(f, x, q) == Pow2(a) && PixelBits(f, x2, q2) == Pow2(b);
    if a < b {
      Pow2Mono(a, b);
    } else {
      assert b < a;
      Pow2Mono(b, a);
    }
  }

  /** The bit of a 1-bit pixel is its dithered luma (inverted when the palette starts with
      white), and 0 with a one-colour palette. */
  lemma {:induction false} Pixel1Bit(f: Format, x: nat, y: nat, c: Color, pow24: real -> real)
    requires f.bpp == 1
    ensures var t := OrderedDitherLowLevel(Luma(c, pow24), x, y);
      var b := PixelCodes(f, x, y, c, pow24).r;
      (b == 0 || b == 1) && (b == 1 <==> f.palP1 == 0 && (if f.palWb != 0 then t == 0 else t == 1))
  {
  }

  /** Where the pixels of image row y begin in the buffer. */
  function RowBase(f: Format, y: nat): nat
    requires y < f.h
  {
    f.bitsOffset + RowOffset(f, y)
  }

  /** The byte of its row that holds (the first byte of) pixel x. */
  function PixelByte(f: Format, x: nat): nat
  {
    if SubByte(f.bpp) then Div(x, PixelsPerByte(f.bpp))
    else if WholeBytes(f.bpp) then Mul(x, BytesPerPixel(f.bpp))
    else 0
  }

  /** In a row that holds its pixels, the bytes of every pixel lie inside the row. */
  lemma {:induction false} PixelInRow(f: Format, x: nat)
    requires x < f.w && RowFits(f)
    ensures WholeBytes(f.bpp) ==> PixelByte(f, x) + BytesPerPixel(f.bpp) <= f.rowSize
    ensures SubByte(f.bpp) ==> PixelByte(f, x) < f.rowSize
  {
    var w := f.w;
    if WholeBytes(f.bpp) {
      var b := BytesPerPixel(f.bpp);
      BytesPerPixelIs(f.bpp);
      MulEight(w, b);
      MulMono(x + 1, w, b);
    } else if f.bpp == 1 {
      MulIs(w, 1);
      DivIs(x, 8);
    } else if f.bpp == 4 {
      MulIs(w, 4);
      DivIs(x, 2);
    }
  }

  /** Storing the bytes `bs` (whole-byte depths) or ORing the bits `bits` (sub-byte depths)
      for pixel (x, y); other depths store nothing. */
  function StoreAt(m: seq<byte>, f: Format, x: nat, y: nat, bs: seq<byte>, bits: byte): (r: seq<byte>)
    requires x < f.w && y < f.h && BitsFit(f, |m|)
    requires WholeBytes(f.bpp) ==> |bs| == BytesPerPixel(f.bpp)
    ensures |r| == |m|
  {
    PixelInRow(f, x);
    var o := RowBase(f, y) + PixelByte(f, x);
    if WholeBytes(f.bpp) then Put(m, o, bs)
    else if SubByte(f.bpp) then m[o := OrByte(m[o], bits)]
    else m
  }

  /** `set_pixel` on the buffer `m`. */
  function StorePixel(m: seq<byte>, f: Format, x: nat, y: nat, c: Color, pow24: real -> real): (r: seq<byte>)
    requires x < f.w && y < f.h && BitsFit(f, |m|) && ChannelWidthsOk(f)
    ensures |r| == |m|
  {
    var q := PixelCodes(f, x, y, c, pow24);
    StoreAt(m, f, x, y, if WholeBytes(f.bpp) then PixelBytes(f, q) else [], PixelBits(f, x, q))
  }

  /** Only the bytes of pixel (x, y) change when it is stored at a whole-byte depth;
      they lie inside its row. */
  lemma {:induction false} StoreWholeBytes(m: seq<byte>, f: Format, x: nat, y: nat, bs: seq<byte>)
    requires x < f.w && y < f.h && BitsFit(f, |m|) && WholeBytes(f.bpp) && |bs| == BytesPerPixel(f.bpp)
    ensures var o := RowBase(f, y) + PixelByte(f, x);
      var r := StoreAt(m, f, x, y, bs, 0);
      o + |bs| <= RowBase(f, y) + f.rowSize &&
      forall i :: 0 <= i < |m| ==> r[i] == if o <= i < o + |bs| then bs[i - o] else m[i]
  {
    PixelInRow(f, x);
  }

  /** Storing a pixel of a sub-byte depth ORs its bits into the one byte that holds it,
      inside its row, and changes nothing else. */
  lemma {:induction false} StoreSubByte(m: seq<byte>, f: Format, x: nat, y: nat, v: byte)
    requires x < f.w && y < f.h && BitsFit(f, |m|) && SubByte(f.bpp)
    ensures var o := RowBase(f, y) + Div(x, PixelsPerByte(f.bpp));
      o < RowBase(f, y) + f.rowSize && o < |m| &&
      StoreAt(m, f, x, y, [], v) == m[o := OrByte(m[o], v)]
  {
    PixelInRow(f, x);
  }
}
