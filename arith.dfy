/** Products and quotients of natural numbers as repeated addition and subtraction.
    Buffer offsets (a row number times the row size, a pixel number times its byte
    count) are written with these, so that reasoning about them stays linear; the
    lemmas at the end tie them to `*`, `/` and `%`. */
module Arith {
  import opened Bytes

  /** `a` copies of `b`, that is `a * b`. */
  function Mul(a: nat, b: nat): nat
    decreases a
  {
    if a == 0 then 0 else Mul(a - 1, b) + b
  }

  /** How many times `b` fits into `a`, that is `a / b`. */
  function Div(a: nat, b: nat): nat
    requires 0 < b
    decreases a
  {
    if a < b then 0 else Div(a - b, b) + 1
  }

  /** What is left of `a` once `b` is taken away as often as it fits, that is `a % b`. */
  function Mod(a: nat, b: nat): (r: nat)
    requires 0 < b
    ensures r < b
    decreases a
  {
    if a < b then a else Mod(a - b, b)
  }

  /** Every number is its quotient times the divisor plus its remainder. */
  lemma {:induction false} DivMod(a: nat, b: nat)
    requires 0 < b
    ensures a == Mul(Div(a, b), b) + Mod(a, b)
    decreases a
  {
    if a >= b {
      DivMod(a - b, b);
      assert Div(a, b) - 1 == Div(a - b, b);
    }
  }

  /** Quotient and remainder are unique: `s` rows and `c` more come back out. */
  lemma {:induction false} DivModOf(s: nat, c: nat, b: nat)
    requires c < b
    ensures Div(Mul(s, b) + c, b) == s && Mod(Mul(s, b) + c, b) == c
    decreases s
  {
    if s > 0 {
      DivModOf(s - 1, c, b);
      assert Mul(s, b) + c - b == Mul(s - 1, b) + c;
    }
  }

  /** `x` lies in the k-th block of `d` exactly when its quotient is k. */
  lemma {:induction false} DivIn(x: nat, d: nat, k: nat)
    requires 0 < d
    ensures Mul(k, d) <= x < Mul(k, d) + d ==> Div(x, d) == k
  {
    if Mul(k, d) <= x < Mul(k, d) + d {
      DivModOf(k, x - Mul(k, d), d);
    }
  }

  /** Below `w` blocks of `b` no quotient reaches `w`; from `w` blocks on, every one does. */
  lemma {:induction false} DivBound(c: nat, b: nat, w: nat)
    requires 0 < b
    ensures c < Mul(w, b) ==> Div(c, b) < w
    ensures Mul(w, b) <= c ==> w <= Div(c, b)
  {
    DivMod(c, b);
    var q := Div(c, b);
    if c < Mul(w, b) && q >= w {
      MulMono(w, q, b);
    }
    if Mul(w, b) <= c && q < w {
      MulMono(q + 1, w, b);
    }
  }

  lemma {:induction false} MulMono(a: nat, a': nat, b: nat)
    requires a <= a'
    ensures Mul(a, b) <= Mul(a', b)
    decreases a'
  {
    if a < a' {
      MulMono(a, a' - 1, b);
    }
  }

  /** `Mul` is `*`. */
  lemma {:induction false} MulIs(a: nat, b: nat)
    ensures Mul(a, b) == a * b
    decreases a
  {
    if a > 0 {
      MulIs(a - 1, b);
      assert (a - 1) * b + b == a * b;
    }
  }

  /** `Div` and `Mod` are `/` and `%`. */
  lemma {:induction false} DivIs(a: nat, b: nat)
    requires 0 < b
    ensures Div(a, b) == a / b && Mod(a, b) == a % b
  {
    DivMod(a, b);
    MulIs(Div(a, b), b);
    DivModUnique(a, b, Div(a, b), Mod(a, b));
  }

  /** Eight copies of a multiple of `b` are eight times as many. */
  lemma {:induction false} MulEight(a: nat, b: nat)
    ensures Mul(a, 8 * b) == 8 * Mul(a, b)
    decreases a
  {
    if a > 0 {
      MulEight(a - 1, b);
    }
  }
}
