/** Integer models of the `unsigned int` operators the 16- and 32-bit pixel packers use:
    `1 << n`, `x << s` (which wraps modulo 2^32) and bitwise OR. */
module Bits {
  import opened Bytes
  import opened Arith

  /** 2^n, the value of `1 << n`. */
  function Pow2(n: nat): (p: nat)
    ensures p >= 1
  {
    if n == 0 then 1 else Pow2(n - 1) + Pow2(n - 1)
  }

  /** `(1 << n) - 1`, the largest code an n-bit channel holds. */
  function MaxCode(n: nat): (m: int)
    ensures 0 <= m < Pow2(n)
  {
    Pow2(n) - 1
  }

  /** Bitwise OR of two non-negative integers, one binary digit at a time. */
  function Or(a: nat, b: nat): (r: nat)
    ensures a <= r && b <= r && r <= a + b
    decreases a + b
  {
    HalfOf(a);
    HalfOf(b);
    if a == 0 then b
    else if b == 0 then a
    else
      var h := Or(Div(a, 2), Div(b, 2));
      h + h + (if Mod(a, 2) == 1 || Mod(b, 2) == 1 then 1 else 0)
  }

  /** Halving is `Div` and `Mod` by 2. */
  lemma {:induction false} HalfOf(a: nat)
    ensures Div(a, 2) == a / 2 && Mod(a, 2) == a % 2
  {
    DivIs(a, 2);
  }

  /** One step of `Or` in terms of `/` and `%`. */
  lemma {:induction false} OrStep(a: nat, b: nat)
    requires a != 0 && b != 0
    ensures Or(a, b) == 2 * Or(a / 2, b / 2) + (if a % 2 == 1 || b % 2 == 1 then 1 else 0)
  {
    HalfOf(a);
    HalfOf(b);
  }

  /** `x << s` on a 32-bit `unsigned int`: the bits shifted past bit 31 are lost. */
  function ShiftLeft32(x: nat, s: nat): (r: nat)
    requires s < 32
    ensures r < TWO32
  {
    (x * Pow2(s)) % TWO32
  }

  lemma {:induction false} Pow2Add(a: nat, b: nat)
    ensures Pow2(a + b) == Pow2(a) * Pow2(b)
    decreases a
  {
    if a > 0 {
      Pow2Add(a - 1, b);
    }
  }

  lemma {:induction false} Pow2Mono(a: nat, b: nat)
    requires a <= b
    ensures Pow2(a) <= Pow2(b)
    ensures a < b ==> Pow2(a) < Pow2(b)
    decreases b
  {
    if a < b {
      Pow2Mono(a, b - 1);
    }
  }

  lemma {:induction false} Pow2Is32()
    ensures Pow2(16) == TWO16 && Pow2(32) == TWO32
  {
    Pow2Add(16, 16);
    assert Pow2(8) == 0x100;
    assert Pow2(16) == Pow2(8) * Pow2(8) by { Pow2Add(8, 8); }
  }

  /** OR of a number with no bits below position k and a number below 2^k is their sum. */
  lemma {:induction false} OrDisjoint(a: nat, b: nat, k: nat)
    requires b < Pow2(k)
    ensures Or(a * Pow2(k), b) == a * Pow2(k) + b
    decreases k
  {
    var x := a * Pow2(k);
    if k > 0 && x != 0 && b != 0 {
      var y := a * Pow2(k - 1);
      assert x == 2 * y;
      assert x / 2 == y && x % 2 == 0;
      OrStep(x, b);
      OrDisjoint(a, b / 2, k - 1);
    }
  }

  lemma {:induction false} OrCommutes(a: nat, b: nat)
    ensures Or(a, b) == Or(b, a)
    decreases a + b
  {
    if a != 0 && b != 0 {
      OrStep(a, b);
      OrStep(b, a);
      OrCommutes(a / 2, b / 2);
    }
  }

  /** A shift that loses no bits is a multiplication. */
  lemma {:induction false} ShiftExact(x: nat, s: nat)
    requires s < 32 && x < Pow2(32 - s)
    ensures ShiftLeft32(x, s) == x * Pow2(s)
  {
    ShiftWraps(x, s);
    DivModUnique(x, Pow2(32 - s), 0, x);
  }

  /** A wrapping shift keeps the low `32 - s` bits of `x`. */
  lemma {:induction false} ShiftWraps(x: nat, s: nat)
    requires s < 32
    ensures ShiftLeft32(x, s) == (x % Pow2(32 - s)) * Pow2(s)
  {
    var p, q := Pow2(s), Pow2(32 - s);
    assert q * p == TWO32 by {
      Pow2Is32();
      Pow2Add(32 - s, s);
    }
    WrapMul(x, q, p);
  }

  lemma {:induction false} WrapMul(x: nat, q: int, p: int)
    requires 0 < q && 0 < p
    ensures (x * p) % (q * p) == (x % q) * p
  {
    var hi, lo := x / q, x % q;
    MulSplit(x, q, p, hi, lo);
    DivModUnique(x * p, q * p, hi, lo * p);
  }

  lemma {:induction false} MulSplit(x: int, q: int, p: int, hi: int, lo: int)
    requires 0 < q && 0 < p && 0 <= lo < q && x == hi * q + lo
    ensures x * p == hi * (q * p) + lo * p
    ensures 0 <= lo * p < q * p
  {
    assert x * p == (hi * q) * p + lo * p;
    assert (hi * q) * p == hi * (q * p);
    MulAtLeast(q - lo, p);
    assert q * p - lo * p == (q - lo) * p;
  }

  /** OR of two numbers below 2^k stays below 2^k. */
  lemma {:induction false} OrBelow(a: nat, b: nat, k: nat)
    requires a < Pow2(k) && b < Pow2(k)
    ensures Or(a, b) < Pow2(k)
    decreases k
  {
    if a != 0 && b != 0 {
      OrStep(a, b);
      OrBelow(a / 2, b / 2, k - 1);
    }
  }

  /** C's `|` on two `unsigned char` values. */
  function OrByte(a: byte, b: byte): (r: byte)
    ensures a <= r && b <= r && r == Or(a, b)
  {
    assert Pow2(8) == 0x100;
    OrBelow(a, b, 8);
    Or(a, b)
  }

  /** Doubling both operands doubles their OR. */
  lemma {:induction false} OrDouble(a: nat, c: nat)
    ensures Or(2 * a, 2 * c) == 2 * Or(a, c)
  {
    if a != 0 && c != 0 {
      assert (2 * a) / 2 == a && (2 * a) % 2 == 0;
      assert (2 * c) / 2 == c && (2 * c) % 2 == 0;
      OrStep(2 * a, 2 * c);
    }
  }

  /** Shifting both operands left by k shifts their OR left by k. */
  lemma {:induction false} OrShift(a: nat, c: nat, k: nat)
    ensures Or(a * Pow2(k), c * Pow2(k)) == Or(a, c) * Pow2(k)
    decreases k
  {
    if k > 0 {
      var p := Pow2(k - 1);
      OrShift(a, c, k - 1);
      var a', c' := a * p, c * p;
      assert Pow2(k) == 2 * p;
      assert a * Pow2(k) == 2 * a' by { MulAssoc(a, 2, p); }
      assert c * Pow2(k) == 2 * c' by { MulAssoc(c, 2, p); }
      OrDouble(a', c');
      assert Or(a, c) * Pow2(k) == 2 * (Or(a, c) * p) by { MulAssoc(Or(a, c), 2, p); }
    }
  }

  lemma {:induction false} MulAssoc(a: int, b: int, c: int)
    ensures a * (b * c) == b * (a * c)
  {
  }
}
