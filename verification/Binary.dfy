/**
 * Binary arithmetic on natural numbers: powers of two, shifts, exclusive or
 * and the position of the highest one.
 */
module Binary {

  function Pow2(k: nat): (p: nat)
    ensures p >= 1
  {
    if k == 0 then 1 else 2 * Pow2(k - 1)
  }

  /** x >> p */
  function Shr(x: nat, p: nat): nat
  {
    if p == 0 then x else Shr(x / 2, p - 1)
  }

  /** x << p */
  function Shl(x: nat, p: nat): nat
    decreases p
  {
    if p == 0 then x else Shl(2 * x, p - 1)
  }

  /** a ^ b */
  function Xor(a: nat, b: nat): nat
    decreases a + b
  {
    if a + b == 0 then 0 else (if a % 2 == b % 2 then 0 else 1) + 2 * Xor(a / 2, b / 2)
  }

  /** __fls: the position of the highest one. */
  function Fls(x: nat): nat
  {
    if x < 2 then 0 else 1 + Fls(x / 2)
  }

  lemma {:induction false} Pow2Mono(a: nat, b: nat)
    requires a <= b
    ensures Pow2(a) <= Pow2(b)
  {
    if a < b { Pow2Mono(a, b - 1); }
  }

  lemma {:induction false} ShrLast(x: nat, p: nat)
    ensures Shr(x, p + 1) == Shr(x, p) / 2
  {
    if p > 0 { ShrLast(x / 2, p - 1); }
  }

  lemma {:induction false} ShrZero(x: nat, p: nat)
    ensures Shr(x, p) == 0 <==> x < Pow2(p)
  {
    if p > 0 { ShrZero(x / 2, p - 1); }
  }

  /** Two numbers that agree above p agree above q. */
  lemma {:induction false} ShrSame(x: nat, y: nat, p: nat, q: nat)
    requires Shr(x, p) == Shr(y, p) && p <= q
    ensures Shr(x, q) == Shr(y, q)
  {
    if p < q {
      ShrSame(x, y, p, q - 1);
      ShrLast(x, q - 1);
      ShrLast(y, q - 1);
    }
  }

  lemma {:induction false} ShlShr(x: nat, p: nat)
    ensures Shr(Shl(x, p), p) == x
    decreases p
  {
    if p > 0 {
      ShlShr(2 * x, p - 1);
      ShrLast(Shl(x, p), p - 1);
    }
  }

  lemma {:induction false} ShlBelow(x: nat, p: nat, k: nat)
    requires x < Pow2(k)
    ensures Shl(x, p) < Pow2(k + p)
    decreases p
  {
    if p > 0 { ShlBelow(2 * x, p - 1, k + 1); }
  }

  lemma {:induction false} ShrPart(x: nat, p: nat, q: nat)
    ensures Shr(Shr(x, p), q) == Shr(x, p + q)
  {
    if p > 0 { ShrPart(x / 2, p - 1, q); }
  }

  lemma XorHalf(a: nat, b: nat)
    ensures Xor(a, b) / 2 == Xor(a / 2, b / 2) && (Xor(a, b) % 2 == 0 <==> a % 2 == b % 2)
  {
  }

  lemma {:induction false} XorShr(a: nat, b: nat, p: nat)
    ensures Shr(Xor(a, b), p) == Xor(Shr(a, p), Shr(b, p))
  {
    if p > 0 {
      XorHalf(a, b);
      XorShr(a / 2, b / 2, p - 1);
    }
  }

  lemma {:induction false} XorZero(a: nat, b: nat)
    ensures Xor(a, b) == 0 <==> a == b
    decreases a + b
  {
    if a + b > 0 { XorZero(a / 2, b / 2); }
  }

  lemma {:induction false} FlsOne(x: nat)
    requires x > 0
    ensures Shr(x, Fls(x)) == 1
  {
    if x > 1 { FlsOne(x / 2); }
  }

  lemma {:induction false} FlsAbove(x: nat, p: nat)
    requires Shr(x, p) > 0
    ensures Fls(x) >= p
  {
    if p > 0 { FlsAbove(x / 2, p - 1); }
  }

  lemma {:induction false} FlsBelow(x: nat, p: nat)
    requires p > 0 && Shr(x, p) == 0
    ensures Fls(x) < p
  {
    if p > 1 { FlsBelow(x / 2, p - 1); }
  }

  /** The first difference of two numbers from the top: they agree above it and differ there. */
  lemma FlsXor(a: nat, b: nat)
    requires a != b
    ensures var p := Fls(Xor(a, b));
            Shr(a, p + 1) == Shr(b, p + 1) && Shr(a, p) % 2 != Shr(b, p) % 2
  {
    var p := Fls(Xor(a, b));
    XorZero(a, b);
    FlsOne(Xor(a, b));
    XorShr(a, b, p);
    XorHalf(Shr(a, p), Shr(b, p));
    XorZero(Shr(a, p) / 2, Shr(b, p) / 2);
    ShrLast(a, p);
    ShrLast(b, p);
  }
}
