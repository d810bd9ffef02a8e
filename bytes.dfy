/** The byte buffer of a BMP file: splicing bytes into it, and the little-endian
    encodings of the 16- and 32-bit header fields,
    as `set_int16`, `set_int32` and `set_uint32` store them byte by byte. */
module Bytes {

  const TWO16: int := 0x1_0000
  const TWO32: int := 0x1_0000_0000

  /** The values of C's `unsigned int`. */
  type u32 = x: int | 0 <= x < 0x1_0000_0000

  /** The values of C's `unsigned char`, the element type of the buffer. */
  type byte = x: int | 0 <= x < 0x100

  datatype Option<T> = None | Some(value: T)

  /** `m` with the bytes from offset `o` on replaced by `bs`. */
  function Put(m: seq<byte>, o: int, bs: seq<byte>): (r: seq<byte>)
    requires 0 <= o && o + |bs| <= |m|
    ensures |r| == |m|
  {
    seq(|m|, i requires 0 <= i < |m| => if o <= i < o + |bs| then bs[i - o] else m[i])
  }

  /** The low byte of `v`: C's `v & 0xff` (for a negative `v` too, since `%` is Euclidean). */
  function LowByte(v: int): byte
  {
    v % 0x100
  }

  /** A value that already fits in a byte is its own low byte. */
  lemma {:induction false} LowByteSmall(v: int)
    requires 0 <= v < 0x100
    ensures LowByte(v) == v
  {
  }

  /** The two bytes `set_int16` stores for `v`: `v & 0xff` and `(v >> 8) & 0xff`
      (an arithmetic shift, which is what `/` on `int` computes). */
  function Int16Bytes(v: int): (r: seq<byte>)
    ensures |r| == 2
    ensures LE16(r) == v % TWO16
  {
    SplitLow(v, 0x100);
    [LowByte(v), LowByte(v / 0x100)]
  }

  /** The four bytes `set_int32` (and `set_uint32`) store for `v`, lowest first:
      `(v >> 8k) & 0xff` for k = 0..3. */
  function Int32Bytes(v: int): (r: seq<byte>)
    ensures |r| == 4
    ensures LE32(r) == v % TWO32
  {
    Int32BytesValue(v);
    [LowByte(v), LowByte(v / 0x100), LowByte(v / 0x1_0000), LowByte(v / 0x100_0000)]
  }

  /** What a reader makes of two little-endian bytes. */
  function LE16(b: seq<byte>): (n: int)
    requires |b| == 2
    ensures 0 <= n < TWO16
  {
    b[0] as int + 0x100 * (b[1] as int)
  }

  /** What a reader makes of four little-endian bytes, as an unsigned number. */
  function LE32(b: seq<byte>): (n: int)
    requires |b| == 4
    ensures 0 <= n < TWO32
  {
    b[0] as int + 0x100 * (b[1] as int) + 0x1_0000 * (b[2] as int) + 0x100_0000 * (b[3] as int)
  }

  /** Two's-complement reading of an unsigned 32-bit value. */
  function ToSigned32(u: int): (s: int)
    requires 0 <= u < TWO32
    ensures IsInt32(s)
    ensures (s - u) % TWO32 == 0
  {
    if u < 0x8000_0000 then u else u - TWO32
  }

  predicate IsInt32(v: int)
  {
    -0x8000_0000 <= v < 0x8000_0000
  }

  /** Peeling the low byte off `v % (256 * m)`. */
  lemma {:induction false} SplitLow(v: int, m: int)
    requires 0 < m
    ensures v % (0x100 * m) == v % 0x100 + 0x100 * ((v / 0x100) % m)
  {
    var a := v / 0x100;
    assert v == 0x100 * a + v % 0x100;
    assert a == m * (a / m) + a % m;
    assert v == (a / m) * (0x100 * m) + (v % 0x100 + 0x100 * (a % m));
    DivModUnique(v, 0x100 * m, a / m, v % 0x100 + 0x100 * (a % m));
  }

  /** Euclidean division has a unique quotient and remainder. */
  lemma {:induction false} DivModUnique(d: int, n: int, q: int, r: int)
    requires 0 < n && 0 <= r < n && d == q * n + r
    ensures d / n == q && d % n == r
  {
    var q', r' := d / n, d % n;
    assert (q - q') * n == r' - r;
    if q > q' {
      MulAtLeast(q - q', n);
    } else if q < q' {
      MulAtLeast(q' - q, n);
    }
  }

  lemma {:induction false} MulAtLeast(a: int, n: int)
    requires 1 <= a && 0 < n
    ensures n <= a * n
  {
  }


  lemma {:induction false} Int32BytesValue(v: int)
    ensures LowByte(v) as int + 0x100 * (LowByte(v / 0x100) as int) + 0x1_0000 * (LowByte(v / 0x1_0000) as int)
            + 0x100_0000 * (LowByte(v / 0x100_0000) as int) == v % TWO32
  {
    var a := v / 0x100;
    var b := a / 0x100;
    var c := b / 0x100;
    assert v / 0x1_0000 == b && v / 0x100_0000 == c;
    SplitLow(v, 0x100_0000);
    SplitLow(a, 0x1_0000);
    SplitLow(b, 0x100);
  }

  /** A signed 32-bit field read back as signed gives the value written. */
  lemma {:induction false} Int32RoundTrip(v: int)
    requires IsInt32(v)
    ensures ToSigned32(LE32(Int32Bytes(v))) == v
  {
    var u := LE32(Int32Bytes(v));
    if v < 0 {
      assert u == v + TWO32;
    } else {
      assert u == v;
    }
  }
}
