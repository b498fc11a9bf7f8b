/**
 * Machine words and arrays of them as numbers and as sets of bits: what the
 * bitmap library's masks, shifts and word loops mean.
 */
module Words {
  import opened Binary

  /** BITS_PER_LONG */
  const BITS: nat := 64

  predicate Bit(w: nat, i: nat)
  {
    Shr(w, i) % 2 == 1
  }

  function And(a: nat, b: nat): nat
  {
    if a == 0 then 0 else (a % 2) * (b % 2) + 2 * And(a / 2, b / 2)
  }

  function Or(a: nat, b: nat): nat
    decreases a + b
  {
    if a + b == 0 then 0 else (if a % 2 + b % 2 > 0 then 1 else 0) + 2 * Or(a / 2, b / 2)
  }

  /** The n low bits of x: what a variable of n bits keeps. */
  function Low(x: nat, n: nat): nat
  {
    if n == 0 then 0 else x % 2 + 2 * Low(x / 2, n - 1)
  }

  function Ones(n: nat): nat
  {
    Pow2(n) - 1
  }

  /** __ffs */
  function Ffs(w: nat): (i: nat)
    requires w > 0
  {
    if w % 2 == 1 then 0 else 1 + Ffs(w / 2)
  }

  /** ~0UL << (start & 63) */
  function FirstMask(start: nat): nat
  {
    Low(Shl(Ones(BITS), start % BITS), BITS)
  }

  // --------------------------------------------------------------------- bits

  lemma BitHalf(w: nat, i: nat)
    ensures Bit(w, i + 1) == Bit(w / 2, i)
  {
  }

  lemma {:induction false} BitZero(i: nat)
    ensures !Bit(0, i)
  {
    if i > 0 { BitZero(i - 1); }
  }

  lemma {:induction false} BitAnd(a: nat, b: nat, i: nat)
    ensures Bit(And(a, b), i) == (Bit(a, i) && Bit(b, i))
  {
    if a == 0 {
      BitZero(i);
    } else if i > 0 {
      BitAnd(a / 2, b / 2, i - 1);
      assert And(a, b) / 2 == And(a / 2, b / 2) by { AndHalf(a, b); }
    } else {
      AndHalf(a, b);
    }
  }

  lemma AndHalf(a: nat, b: nat)
    ensures And(a, b) / 2 == And(a / 2, b / 2) && (And(a, b) % 2 == 1 <==> a % 2 == 1 && b % 2 == 1)
  {
    var p := (a % 2) * (b % 2);
    if a % 2 == 0 { assert p == 0; } else { assert p == b % 2; }
  }

  lemma {:induction false} BitOr(a: nat, b: nat, i: nat)
    ensures Bit(Or(a, b), i) == (Bit(a, i) || Bit(b, i))
  {
    if i > 0 { BitOr(a / 2, b / 2, i - 1); }
  }

  lemma {:induction false} BitXor(a: nat, b: nat, i: nat)
    ensures Bit(Xor(a, b), i) == (Bit(a, i) != Bit(b, i))
  {
    XorHalf(a, b);
    if i > 0 { BitXor(a / 2, b / 2, i - 1); }
  }

  lemma {:induction false} BitLow(x: nat, n: nat, i: nat)
    ensures Bit(Low(x, n), i) == (i < n && Bit(x, i))
  {
    if n == 0 {
      BitZero(i);
    } else if i > 0 {
      BitLow(x / 2, n - 1, i - 1);
    }
  }

  lemma {:induction false} BitShl(x: nat, p: nat, i: nat)
    ensures Bit(Shl(x, p), i) == (i >= p && Bit(x, i - p))
    decreases p
  {
    if p > 0 {
      BitShl(2 * x, p - 1, i);
      if i >= p { BitHalf(2 * x, i - p); }
    }
  }

  lemma BitShr(x: nat, p: nat, i: nat)
    ensures Bit(Shr(x, p), i) == Bit(x, p + i)
  {
    ShrPart(x, p, i);
  }

  lemma {:induction false} BitOnes(n: nat, i: nat)
    ensures Bit(Ones(n), i) == (i < n)
  {
    if n == 0 {
      BitZero(i);
    } else {
      var w := Ones(n);
      assert w / 2 == Ones(n - 1) && w % 2 == 1;
      if i > 0 { BitOnes(n - 1, i - 1); }
    }
  }

  lemma BitFirstMask(start: nat, i: nat)
    ensures Bit(FirstMask(start), i) == (start % BITS <= i < BITS)
  {
    BitLow(Shl(Ones(BITS), start % BITS), BITS, i);
    BitShl(Ones(BITS), start % BITS, i);
    if i >= start % BITS { BitOnes(BITS, i - start % BITS); }
  }

  /** A number is its bits. */
  lemma {:induction false} SameBits(a: nat, b: nat)
    requires forall i {:trigger Bit(a, i)} {:trigger Bit(b, i)} :: Bit(a, i) == Bit(b, i)
    ensures a == b
    decreases a + b
  {
    if a + b > 0 {
      assert Bit(a, 0) == Bit(b, 0);
      forall i: nat ensures Bit(a / 2, i) == Bit(b / 2, i) {
        BitHalf(a, i);
        BitHalf(b, i);
        assert Bit(a, i + 1) == Bit(b, i + 1);
      }
      SameBits(a / 2, b / 2);
    }
  }

  lemma {:induction false} FfsLeast(w: nat)
    requires w > 0
    ensures Bit(w, Ffs(w)) && forall j {:trigger Bit(w, j)} :: 0 <= j < Ffs(w) ==> !Bit(w, j)
  {
    if w % 2 == 0 {
      FfsLeast(w / 2);
      forall j | 0 <= j < Ffs(w) ensures !Bit(w, j) {
        if j > 0 {
          BitHalf(w, j - 1);
          assert !Bit(w / 2, j - 1);
        }
      }
    }
  }

  lemma {:induction false} LowMod(x: nat, n: nat)
    ensures Low(x, n) == x % Pow2(n)
  {
    if n > 0 {
      LowMod(x / 2, n - 1);
      HalfMod(x, Pow2(n - 1));
    } else {
      assert x % 1 == 0;
    }
  }

  lemma HalfMod(x: nat, m: nat)
    requires m > 0
    ensures x % (2 * m) == x % 2 + 2 * (x / 2 % m)
  {
    var h := x / 2;
    var q, r := h / m, h % m;
    assert h == q * m + r;
    assert x == q * (2 * m) + (x % 2 + 2 * r);
    DivMod(x, 2 * m, q, x % 2 + 2 * r);
  }

  lemma {:induction false} Gap(d: nat, a: nat, b: nat)
    requires a < b
    ensures b * d >= a * d + d
    decreases b
  {
    assert b * d == (b - 1) * d + d;
    if a + 1 < b { Gap(d, a, b - 1); }
  }

  lemma UniqueDiv(d: nat, q: nat, r: nat, u: nat, v: nat)
    requires q * d + r == u * d + v && r < d && v < d
    ensures q == u && r == v
  {
    if q < u { Gap(d, q, u); }
    if u < q { Gap(d, u, q); }
  }

  lemma DivMod(x: nat, d: nat, q: nat, r: nat)
    requires x == q * d + r && r < d
    ensures x / d == q && x % d == r
  {
    UniqueDiv(d, q, r, x / d, x % d);
  }

  lemma {:induction false} ShrDiv(x: nat, k: nat)
    ensures Shr(x, k) == x / Pow2(k)
  {
    if k > 0 {
      ShrDiv(x / 2, k - 1);
      DivDiv(x, Pow2(k - 1));
    }
  }

  lemma DivDiv(x: nat, m: nat)
    requires m > 0
    ensures x / 2 / m == x / (2 * m)
  {
    var q, r := x / 2 / m, x / 2 % m;
    assert x / 2 == q * m + r;
    assert x == q * (2 * m) + (x % 2 + 2 * r);
    DivMod(x, 2 * m, q, x % 2 + 2 * r);
  }

  lemma {:induction false} ShlTimes(x: nat, p: nat)
    ensures Shl(x, p) == x * Pow2(p)
    decreases p
  {
    if p > 0 {
      ShlTimes(2 * x, p - 1);
      assert 2 * x * Pow2(p - 1) == x * (2 * Pow2(p - 1));
    }
  }

  lemma {:induction false} BelowBits(w: nat, n: nat)
    requires forall i :: i >= n ==> !Bit(w, i)
    ensures w < Pow2(n)
    decreases w
  {
    if w > 0 {
      if n == 0 {
        FfsLeast(w);
      } else {
        forall i: nat | i >= n - 1 ensures !Bit(w / 2, i) { BitHalf(w, i); }
        BelowBits(w / 2, n - 1);
      }
    }
  }

  lemma {:induction false} BitBelow(w: nat, n: nat, i: nat)
    requires w < Pow2(n) && i >= n
    ensures !Bit(w, i)
  {
    if n == 0 { BitZero(i); } else { BitBelow(w / 2, n - 1, i - 1); }
  }

  // ------------------------------------------------------------------- bitmaps

  ghost predicate AreWords(s: seq<nat>)
  {
    forall k :: 0 <= k < |s| ==> s[k] < Pow2(BITS)
  }

  /** test_bit */
  predicate BitAt(s: seq<nat>, j: nat)
  {
    j / BITS < |s| && Bit(s[j / BITS], j % BITS)
  }

  /** The number a bitmap spells, least significant word first. */
  function Val(s: seq<nat>): nat
  {
    if s == [] then 0 else s[0] + Shl(Val(s[1..]), BITS)
  }

  lemma {:induction false} ShlOut(x: nat, p: nat)
    requires p > 0
    ensures Shl(x, p) == 2 * Shl(x, p - 1)
    decreases p
  {
    if p > 1 { ShlOut(2 * x, p - 1); }
  }

  lemma {:induction false} BitJoin(lo: nat, hi: nat, n: nat, i: nat)
    requires lo < Pow2(n)
    ensures Bit(lo + Shl(hi, n), i) == if i < n then Bit(lo, i) else Bit(hi, i - n)
  {
    if n > 0 {
      ShlOut(hi, n);
      var w := lo + Shl(hi, n);
      assert w / 2 == lo / 2 + Shl(hi, n - 1) && w % 2 == lo % 2;
      if i > 0 { BitJoin(lo / 2, hi, n - 1, i - 1); }
    }
  }

  lemma {:induction false} ValBit(s: seq<nat>, j: nat)
    requires AreWords(s)
    ensures Bit(Val(s), j) == BitAt(s, j)
  {
    hide Bit, Shl, Pow2;
    if s == [] {
      BitZero(j);
    } else {
      BitJoin(s[0], Val(s[1..]), BITS, j);
      if j >= BITS {
        ValBit(s[1..], j - BITS);
        assert (j - BITS) / BITS == j / BITS - 1 && (j - BITS) % BITS == j % BITS;
      }
    }
  }
}
