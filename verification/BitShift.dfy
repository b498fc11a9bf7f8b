/**
 * __bitmap_shift_left and __bitmap_shift_right.  The destination may be the
 * source: the word loops run in the direction that makes this safe.
 */
module BitShift {
  import opened Binary
  import opened Words

  /** BITS_TO_LONGS */
  function Longs(nbits: nat): (n: nat)
    ensures nbits <= 64 * n < nbits + 64
  {
    (nbits + BITS - 1) / BITS
  }

  // --------------------------------------------------------------------- left

  /** Word i after a left shift by off words and rem bits. */
  function LeftWord(s: seq<nat>, off: nat, rem: nat, i: nat): nat
    requires i < |s| && rem < BITS
  {
    if i < off then 0 else
    var k := i - off;
    Or(if rem > 0 && k > 0 then Shr(s[k - 1], BITS - rem) else 0, Low(Shl(s[k], rem), BITS))
  }

  function LeftShifted(s: seq<nat>, shift: nat): (r: seq<nat>)
    ensures |r| == |s|
  {
    seq(|s|, i requires 0 <= i < |s| => LeftWord(s, shift / BITS, shift % BITS, i))
  }

  lemma LeftBit(s: seq<nat>, off: nat, rem: nat, i: nat, b: nat)
    requires AreWords(s) && i < |s| && rem < BITS
    ensures Bit(LeftWord(s, off, rem, i), b)
         == (b < BITS && BITS * i + b >= BITS * off + rem && BitAt(s, BITS * i + b - (BITS * off + rem)))
  {
    hide Bit, Pow2, Shr, Shl, Or, Low;
    if i < off {
      BitZero(b);
    } else {
      var k := i - off;
      var lower := if rem > 0 && k > 0 then Shr(s[k - 1], BITS - rem) else 0;
      BitOr(lower, Low(Shl(s[k], rem), BITS), b);
      BitLow(Shl(s[k], rem), BITS, b);
      BitShl(s[k], rem, b);
      if rem > 0 && k > 0 {
        BitShr(s[k - 1], BITS - rem, b);
        if b >= rem { BitBelow(s[k - 1], BITS, BITS - rem + b); }
      } else {
        BitZero(b);
      }
      if b < BITS { LeftPlace(k, rem, b); }
    }
  }

  lemma LeftPlace(k: nat, rem: nat, b: nat)
    requires rem < BITS && b < BITS
    ensures b >= rem ==> (BITS * k + b - rem) / BITS == k && (BITS * k + b - rem) % BITS == b - rem
    ensures b < rem && k > 0 ==> (BITS * k + b - rem) / BITS == k - 1 && (BITS * k + b - rem) % BITS == BITS - rem + b
  {
  }

  /** The words spell the number multiplied by 2 ^ shift, less what does not fit. */
  lemma LeftVal(s: seq<nat>, shift: nat)
    requires AreWords(s)
    ensures AreWords(LeftShifted(s, shift)) && Val(LeftShifted(s, shift)) == Low(Shl(Val(s), shift), BITS * |s|)
  {
    var r, n := LeftShifted(s, shift), BITS * |s|;
    hide Bit, Pow2, Val, Shl, Low, LeftWord;
    forall i | 0 <= i < |s| ensures r[i] < Pow2(BITS) {
      forall b: nat | b >= BITS ensures !Bit(r[i], b) { LeftBit(s, shift / BITS, shift % BITS, i, b); }
      BelowBits(r[i], BITS);
    }
    forall j: nat ensures Bit(Val(r), j) == Bit(Low(Shl(Val(s), shift), n), j) {
      ValBit(r, j);
      BitLow(Shl(Val(s), shift), n, j);
      BitShl(Val(s), shift, j);
      if j >= shift { ValBit(s, j - shift); }
      if j < n { LeftBit(s, shift / BITS, shift % BITS, j / BITS, j % BITS); }
    }
    SameBits(Val(r), Low(Shl(Val(s), shift), n));
  }

  /** __bitmap_shift_left; dst may be src. */
  method ShiftLeft(dst: array<nat>, src: array<nat>, shift: nat, nbits: nat)
    requires dst.Length == src.Length == Longs(nbits) && AreWords(src[..]) && shift / BITS <= Longs(nbits)
    modifies dst
    ensures AreWords(dst[..])
    ensures Val(dst[..]) == Val(old(src[..])) * Pow2(shift) % Pow2(BITS * Longs(nbits))
  {
    hide AreWords, Val, Pow2;
    ghost var s := src[..];
    var lim, off, rem := Longs(nbits), shift / BITS, shift % BITS;
    var k := lim - off;
    while k > 0
      invariant 0 <= k <= lim - off
      invariant forall i :: 0 <= i < lim && (dst != src || i < k + off) ==> src[i] == s[i]
      invariant forall i :: k + off <= i < lim ==> dst[i] == LeftWord(s, off, rem, i)
    {
      k := k - 1;
      var lower := if rem > 0 && k > 0 then Shr(src[k - 1], BITS - rem) else 0;
      var upper := Low(Shl(src[k], rem), BITS);
      dst[k + off] := Or(lower, upper);
    }
    for i := 0 to off
      invariant forall j :: 0 <= j < i ==> dst[j] == 0
      invariant forall j :: off <= j < lim ==> dst[j] == LeftWord(s, off, rem, j)
    {
      dst[i] := 0;
    }
    assert dst[..] == LeftShifted(s, shift);
    LeftVal(s, shift);
    ShlTimes(Val(s), shift);
    LowMod(Shl(Val(s), shift), BITS * lim);
  }

  // -------------------------------------------------------------------- right

  /** -nbits & 63: the bits of the last word beyond nbits. */
  function Spare(nbits: nat): (r: nat)
    ensures r < BITS
  {
    (0 - nbits) % BITS
  }

  /** BITMAP_LAST_WORD_MASK */
  function LastMask(nbits: nat): nat
  {
    Shr(Ones(BITS), Spare(nbits))
  }

  lemma BitLastMask(nbits: nat, b: nat)
    ensures Bit(LastMask(nbits), b) == (b + Spare(nbits) < BITS)
  {
    BitShr(Ones(BITS), Spare(nbits), b);
    BitOnes(BITS, b + Spare(nbits));
  }

  /** Word i of the source without the bits beyond nbits. */
  function Valid(s: seq<nat>, nbits: nat, i: nat): nat
    requires i < |s|
  {
    if i == |s| - 1 then And(s[i], LastMask(nbits)) else s[i]
  }

  lemma ValidBit(s: seq<nat>, nbits: nat, i: nat, b: nat)
    requires AreWords(s) && |s| == Longs(nbits) && i < |s|
    ensures Bit(Valid(s, nbits, i), b) == (b < BITS && BITS * i + b < nbits && Bit(s[i], b))
  {
    hide Bit, Pow2, And, LastMask;
    BitAnd(s[i], LastMask(nbits), b);
    BitLastMask(nbits, b);
    if b >= BITS { BitBelow(s[i], BITS, b); }
    assert nbits + Spare(nbits) == BITS * |s|;
  }

  function RightWord(s: seq<nat>, nbits: nat, off: nat, rem: nat, k: nat): nat
    requires rem < BITS && k < |s|
  {
    if off + k >= |s| then 0 else
    Or(Shr(Valid(s, nbits, off + k), rem),
       if rem == 0 || off + k + 1 >= |s| then 0 else Low(Shl(Valid(s, nbits, off + k + 1), BITS - rem), BITS))
  }

  function RightShifted(s: seq<nat>, nbits: nat, shift: nat): (r: seq<nat>)
    ensures |r| == |s|
  {
    seq(|s|, k requires 0 <= k < |s| => RightWord(s, nbits, shift / BITS, shift % BITS, k))
  }

  lemma RightBit(s: seq<nat>, nbits: nat, off: nat, rem: nat, k: nat, b: nat)
    requires AreWords(s) && |s| == Longs(nbits) && rem < BITS && k < |s|
    ensures Bit(RightWord(s, nbits, off, rem, k), b)
         == (b < BITS && BITS * k + b + (BITS * off + rem) < nbits && BitAt(s, BITS * k + b + (BITS * off + rem)))
  {
    hide Bit, Pow2, Shr, Shl, Or, Low, Valid;
    var i := off + k;
    if i >= |s| {
      BitZero(b);
    } else {
      var v := Valid(s, nbits, i);
      var upper := if rem == 0 || i + 1 >= |s| then 0 else Low(Shl(Valid(s, nbits, i + 1), BITS - rem), BITS);
      BitOr(Shr(v, rem), upper, b);
      BitShr(v, rem, b);
      ValidBit(s, nbits, i, rem + b);
      if rem == 0 || i + 1 >= |s| {
        BitZero(b);
      } else {
        var u := Valid(s, nbits, i + 1);
        BitLow(Shl(u, BITS - rem), BITS, b);
        BitShl(u, BITS - rem, b);
        if b >= BITS - rem { ValidBit(s, nbits, i + 1, b - (BITS - rem)); }
      }
      if b < BITS { RightPlace(i, rem, b); }
    }
  }

  lemma RightPlace(i: nat, rem: nat, b: nat)
    requires rem < BITS && b < BITS
    ensures rem + b < BITS ==> (BITS * i + b + rem) / BITS == i && (BITS * i + b + rem) % BITS == rem + b
    ensures rem + b >= BITS ==> (BITS * i + b + rem) / BITS == i + 1 && (BITS * i + b + rem) % BITS == rem + b - BITS
  {
  }

  /** The words spell the number below 2 ^ nbits, divided by 2 ^ shift. */
  lemma RightVal(s: seq<nat>, nbits: nat, shift: nat)
    requires AreWords(s) && |s| == Longs(nbits)
    ensures AreWords(RightShifted(s, nbits, shift))
    ensures Val(RightShifted(s, nbits, shift)) == Shr(Low(Val(s), nbits), shift)
  {
    var r := RightShifted(s, nbits, shift);
    hide Bit, Pow2, Val, Shr, Low, RightWord;
    forall i | 0 <= i < |s| ensures r[i] < Pow2(BITS) {
      forall b: nat | b >= BITS ensures !Bit(r[i], b) { RightBit(s, nbits, shift / BITS, shift % BITS, i, b); }
      BelowBits(r[i], BITS);
    }
    forall j: nat ensures Bit(Val(r), j) == Bit(Shr(Low(Val(s), nbits), shift), j) {
      ValBit(r, j);
      BitShr(Low(Val(s), nbits), shift, j);
      BitLow(Val(s), nbits, shift + j);
      ValBit(s, shift + j);
      if j < BITS * |s| { RightBit(s, nbits, shift / BITS, shift % BITS, j / BITS, j % BITS); }
    }
    SameBits(Val(r), Shr(Low(Val(s), nbits), shift));
  }

  /** __bitmap_shift_right; dst may be src. */
  method ShiftRight(dst: array<nat>, src: array<nat>, shift: nat, nbits: nat)
    requires dst.Length == src.Length == Longs(nbits) && AreWords(src[..]) && shift / BITS <= Longs(nbits)
    modifies dst
    ensures AreWords(dst[..])
    ensures Val(dst[..]) == Val(old(src[..])) % Pow2(nbits) / Pow2(shift)
  {
    hide AreWords, Val, Pow2, And, Or, Low, Shl, Shr;
    ghost var s := src[..];
    var lim, off, rem, mask := Longs(nbits), shift / BITS, shift % BITS, LastMask(nbits);
    for k := 0 to lim - off
      invariant forall i :: 0 <= i < lim && (dst != src || i >= k) ==> src[i] == s[i]
      invariant forall i :: 0 <= i < k ==> dst[i] == RightWord(s, nbits, off, rem, i)
    {
      var upper := 0;
      if !(rem == 0 || off + k + 1 >= lim) {
        upper := src[off + k + 1];
        if off + k + 1 == lim - 1 { upper := And(upper, mask); }
        upper := Low(Shl(upper, BITS - rem), BITS);
      }
      var lower := src[off + k];
      if off + k == lim - 1 { lower := And(lower, mask); }
      lower := Shr(lower, rem);
      dst[k] := Or(lower, upper);
    }
    for i := lim - off to lim
      invariant forall j :: lim - off <= j < i ==> dst[j] == 0
      invariant forall j :: 0 <= j < lim - off ==> dst[j] == RightWord(s, nbits, off, rem, j)
    {
      dst[i] := 0;
    }
    assert dst[..] == RightShifted(s, nbits, shift);
    RightVal(s, nbits, shift);
    LowMod(Val(s), nbits);
    ShrDiv(Low(Val(s), nbits), shift);
  }
}
