/**
 * The searches and shifts of the bitmap library on arrays of 64-bit words,
 * against bitmaps as sets of bits and as numbers.
 */
module Bitmap {
  import opened Binary
  import opened Words

  // ------------------------------------------------------------------- search

  /** A bit a search with these arguments is after. */
  ghost predicate Hit(s: seq<nat>, also: seq<nat>, both: bool, invert: nat, j: nat)
  {
    (BitAt(s, j) && (both ==> BitAt(also, j))) != (invert != 0)
  }

  /** One fetched word. */
  function Fetch(s: seq<nat>, also: seq<nat>, both: bool, invert: nat, k: nat): nat
    requires k < |s| && (both ==> k < |also|)
  {
    Xor(if both then And(s[k], also[k]) else s[k], invert)
  }

  lemma FetchBit(s: seq<nat>, also: seq<nat>, both: bool, invert: nat, k: nat, i: nat)
    requires k < |s| && (both ==> k < |also|) && i < BITS && (invert == 0 || invert == Ones(BITS))
    ensures Bit(Fetch(s, also, both, invert, k), i) == Hit(s, also, both, invert, BITS * k + i)
  {
    hide Bit, Pow2;
    BitXor(if both then And(s[k], also[k]) else s[k], invert, i);
    if both { BitAnd(s[k], also[k], i); }
    if invert == 0 { BitZero(i); } else { BitOnes(BITS, i); OnesPositive(); }
    assert (BITS * k + i) / BITS == k && (BITS * k + i) % BITS == i;
  }

  lemma OnesPositive()
    ensures Ones(BITS) > 0
  {
    assert Pow2(BITS) == 2 * Pow2(BITS - 1);
  }

  lemma FetchHigh(s: seq<nat>, also: seq<nat>, both: bool, invert: nat, k: nat, i: nat)
    requires AreWords(s) && k < |s| && (both ==> k < |also|) && i >= BITS && (invert == 0 || invert == Ones(BITS))
    ensures !Bit(Fetch(s, also, both, invert, k), i)
  {
    hide Bit, Pow2;
    BitXor(if both then And(s[k], also[k]) else s[k], invert, i);
    if both { BitAnd(s[k], also[k], i); }
    BitBelow(s[k], BITS, i);
    if invert == 0 { BitZero(i); } else { BitOnes(BITS, i); }
  }

  /** tmp holds the hits of the word at the multiple at of BITS, from start on. */
  ghost predicate Window(s: seq<nat>, also: seq<nat>, both: bool, invert: nat, start: nat, at: nat, tmp: nat)
  {
    forall i {:trigger Bit(tmp, i)} :: 0 <= i ==>
      Bit(tmp, i) == (i < BITS && start <= at + i && Hit(s, also, both, invert, at + i))
  }

  lemma FirstWindow(s: seq<nat>, also: seq<nat>, both: bool, invert: nat, start: nat)
    requires AreWords(s) && start / BITS < |s| && (both ==> start / BITS < |also|) && (invert == 0 || invert == Ones(BITS))
    ensures Window(s, also, both, invert, start, start / BITS * BITS,
                   And(Fetch(s, also, both, invert, start / BITS), FirstMask(start)))
  {
    hide Bit, Hit, Fetch, FirstMask;
    var w := Fetch(s, also, both, invert, start / BITS);
    forall i: nat
      ensures Bit(And(w, FirstMask(start)), i)
           == (i < BITS && start <= start / BITS * BITS + i && Hit(s, also, both, invert, start / BITS * BITS + i))
    {
      BitAnd(w, FirstMask(start), i);
      BitFirstMask(start, i);
      if i < BITS { FetchBit(s, also, both, invert, start / BITS, i); }
    }
  }

  lemma NextWindow(s: seq<nat>, also: seq<nat>, both: bool, invert: nat, start: nat, k: nat)
    requires AreWords(s) && k < |s| && (both ==> k < |also|) && (invert == 0 || invert == Ones(BITS)) && start <= k * BITS
    ensures Window(s, also, both, invert, start, k * BITS, Fetch(s, also, both, invert, k))
  {
    hide Bit, Hit, Fetch;
    forall i: nat
      ensures Bit(Fetch(s, also, both, invert, k), i)
           == (i < BITS && start <= k * BITS + i && Hit(s, also, both, invert, k * BITS + i))
    {
      if i < BITS { FetchBit(s, also, both, invert, k, i); } else { FetchHigh(s, also, both, invert, k, i); }
    }
  }

  lemma EmptyWindow(s: seq<nat>, also: seq<nat>, both: bool, invert: nat, start: nat, at: nat)
    requires Window(s, also, both, invert, start, at, 0)
    ensures forall j {:trigger Hit(s, also, both, invert, j)} :: start <= j && at <= j < at + BITS ==> !Hit(s, also, both, invert, j)
  {
    forall j | start <= j && at <= j < at + BITS ensures !Hit(s, also, both, invert, j) {
      BitZero(j - at);
      assert !Bit(0, j - at);
    }
  }

  lemma FoundWindow(s: seq<nat>, also: seq<nat>, both: bool, invert: nat, start: nat, at: nat, tmp: nat)
    requires Window(s, also, both, invert, start, at, tmp) && tmp > 0
    ensures Ffs(tmp) < BITS && start <= at + Ffs(tmp) && Hit(s, also, both, invert, at + Ffs(tmp))
    ensures forall j {:trigger Hit(s, also, both, invert, j)} ::
              start <= j && at <= j < at + Ffs(tmp) ==> !Hit(s, also, both, invert, j)
  {
    FfsLeast(tmp);
    assert Bit(tmp, Ffs(tmp));
    forall j | start <= j && at <= j < at + Ffs(tmp) ensures !Hit(s, also, both, invert, j) {
      assert !Bit(tmp, j - at);
    }
  }

  /** r is the first hit at or after start, or nbits if there is none below. */
  ghost predicate First(s: seq<nat>, also: seq<nat>, both: bool, invert: nat, nbits: nat, start: nat, r: nat)
  {
    && r <= nbits && (r < nbits ==> start <= r && Hit(s, also, both, invert, r))
    && forall j {:trigger Hit(s, also, both, invert, j)} :: start <= j < r ==> !Hit(s, also, both, invert, j)
  }

  /** _find_next_bit; addr2 is the optional second bitmap, invert 0 or all ones. */
  method FindNextBitIn(addr1: array<nat>, addr2: array?<nat>, nbits: nat, start: nat, invert: nat) returns (r: nat)
    requires AreWords(addr1[..]) && nbits <= BITS * addr1.Length && (addr2 != null ==> nbits <= BITS * addr2.Length)
    requires invert == 0 || invert == Ones(BITS)
    ensures First(addr1[..], if addr2 != null then addr2[..] else [], addr2 != null, invert, nbits, start, r)
  {
    hide Hit, AreWords, FirstMask, Ones, And, Xor, Ffs, Window;
    ghost var s, both := addr1[..], addr2 != null;
    ghost var also := if addr2 != null then addr2[..] else [];
    if start >= nbits { return nbits; }
    var k := start / BITS;
    var tmp := addr1[k];
    if addr2 != null { tmp := And(tmp, addr2[k]); }
    tmp := Xor(tmp, invert);
    assert tmp == Fetch(s, also, both, invert, k);
    FirstWindow(s, also, both, invert, start);
    tmp := And(tmp, FirstMask(start));
    var at := k * BITS;
    while tmp == 0
      invariant at % BITS == 0 && at < nbits && Window(s, also, both, invert, start, at, tmp)
      invariant forall j {:trigger Hit(s, also, both, invert, j)} :: start <= j < at ==> !Hit(s, also, both, invert, j)
      invariant start < at + BITS
      decreases nbits - at
    {
      EmptyWindow(s, also, both, invert, start, at);
      at := at + BITS;
      if at >= nbits { return nbits; }
      k := at / BITS;
      tmp := addr1[k];
      if addr2 != null { tmp := And(tmp, addr2[k]); }
      tmp := Xor(tmp, invert);
      assert tmp == Fetch(s, also, both, invert, k);
      NextWindow(s, also, both, invert, start, k);
    }
    FoundWindow(s, also, both, invert, start, at, tmp);
    r := at + Ffs(tmp);
    if r > nbits { r := nbits; }
  }

  method FindNextZeroBit(addr: array<nat>, size: nat, offset: nat) returns (r: nat)
    requires AreWords(addr[..]) && size <= BITS * addr.Length
    ensures r <= size && (r < size ==> offset <= r && !BitAt(addr[..], r))
    ensures forall j {:trigger BitAt(addr[..], j)} :: offset <= j < r ==> BitAt(addr[..], j)
  {
    OnesPositive();
    r := FindNextBitIn(addr, null, size, offset, Ones(BITS));
    forall j | offset <= j < r ensures BitAt(addr[..], j) {
      assert !Hit(addr[..], [], false, Ones(BITS), j);
    }
  }

  method FindNextBit(addr: array<nat>, size: nat, offset: nat) returns (r: nat)
    requires AreWords(addr[..]) && size <= BITS * addr.Length
    ensures r <= size && (r < size ==> offset <= r && BitAt(addr[..], r))
    ensures forall j {:trigger BitAt(addr[..], j)} :: offset <= j < r ==> !BitAt(addr[..], j)
  {
    r := FindNextBitIn(addr, null, size, offset, 0);
    forall j | offset <= j < r ensures !BitAt(addr[..], j) {
      assert !Hit(addr[..], [], false, 0, j);
    }
  }

  method FindNextAndBit(addr1: array<nat>, addr2: array<nat>, size: nat, offset: nat) returns (r: nat)
    requires AreWords(addr1[..]) && size <= BITS * addr1.Length && size <= BITS * addr2.Length
    ensures r <= size && (r < size ==> offset <= r && BitAt(addr1[..], r) && BitAt(addr2[..], r))
    ensures forall j {:trigger BitAt(addr1[..], j)} :: offset <= j < r ==> !(BitAt(addr1[..], j) && BitAt(addr2[..], j))
  {
    r := FindNextBitIn(addr1, addr2, size, offset, 0);
    forall j | offset <= j < r ensures !(BitAt(addr1[..], j) && BitAt(addr2[..], j)) {
      assert !Hit(addr1[..], addr2[..], true, 0, j);
    }
  }

  // -------------------------------------------------------------- aligned area

  /** unsigned long arithmetic wraps. */
  function Ulong(x: int): (r: nat)
  {
    x % 0x1_0000_0000_0000_0000
  }

  /** __ALIGN_MASK */
  function AlignMask(x: nat, mask: nat): nat
  {
    And(Ulong(x + mask), Xor(Ones(BITS), mask))
  }

  lemma Pow2Bits()
    ensures Pow2(BITS) == 0x1_0000_0000_0000_0000
  {
    assert Pow2(8) == 0x100;
    assert Pow2(16) == 0x1_0000;
    assert Pow2(24) == 0x100_0000;
    assert Pow2(32) == 0x1_0000_0000;
    assert Pow2(40) == 0x100_0000_0000;
    assert Pow2(48) == 0x1_0000_0000_0000;
    assert Pow2(56) == 0x100_0000_0000_0000;
  }

  /** Clearing the low k bits rounds down. */
  lemma MaskRounds(y: nat, k: nat)
    requires y < Pow2(BITS) && k <= BITS
    ensures And(y, Xor(Ones(BITS), Ones(k))) == y / Pow2(k) * Pow2(k)
  {
    hide Bit, And, Xor, Ones, Pow2;
    var m := Xor(Ones(BITS), Ones(k));
    forall i: nat ensures Bit(And(y, m), i) == Bit(Shl(Shr(y, k), k), i) {
      BitAnd(y, m, i);
      BitXor(Ones(BITS), Ones(k), i);
      BitOnes(BITS, i);
      BitOnes(k, i);
      BitShl(Shr(y, k), k, i);
      if i >= k { BitShr(y, k, i - k); }
      if i >= BITS { BitBelow(y, BITS, i); }
    }
    SameBits(And(y, m), Shl(Shr(y, k), k));
    ShlTimes(Shr(y, k), k);
    ShrDiv(y, k);
  }

  lemma RoundDown(y: nat, p: nat)
    requires p > 0
    ensures y / p * p % p == 0 && y - p < y / p * p <= y
  {
    DivMod(y / p * p, p, y / p, 0);
  }

  lemma Fits(x: nat)
    requires x < Pow2(BITS)
    ensures Ulong(x) == x
  {
    Pow2Bits();
  }

  /** The result is the least multiple at or above x. */
  lemma Aligns(x: nat, k: nat)
    requires k <= BITS && x + Ones(k) < Pow2(BITS)
    ensures var r := AlignMask(x, Ones(k)); r % Pow2(k) == 0 && x <= r < x + Pow2(k)
  {
    hide Pow2, Ulong, And, Xor;
    Fits(x + Ones(k));
    MaskRounds(x + Ones(k), k);
    RoundDown(x + Ones(k), Pow2(k));
  }

  /** Nothing strictly between two neighbouring multiples is one. */
  lemma NoneBetween(r: nat, p: nat, i: nat)
    requires p > 0 && r % p == 0 && r < i + p && i < r
    ensures i % p != 0
  {
    var b := r / p;
    assert r == b * p;
    if b == 0 { assert false; }
    assert (b - 1) * p == b * p - p;
    DivMod(i, p, b - 1, i - (r - p));
  }

  /** nr clear bits from i, aligned, within size. */
  ghost predicate Area(s: seq<nat>, size: nat, nr: nat, p: nat, off: nat, i: nat)
    requires p > 0
  {
    (i + off) % p == 0 && i + nr <= size && forall j {:trigger BitAt(s, j)} :: i <= j < i + nr ==> !BitAt(s, j)
  }

  /** No area starts before the aligned index: the bits up to zero are set, and none of the rest is aligned. */
  lemma NotBefore(s: seq<nat>, size: nat, nr: nat, p: nat, off: nat, at: nat, zero: nat, index: nat)
    requires nr >= 1 && p > 0 && (forall j {:trigger BitAt(s, j)} :: at <= j < zero ==> BitAt(s, j))
    requires zero <= index < zero + p && (index + off) % p == 0
    ensures forall i :: at <= i < index ==> !Area(s, size, nr, p, off, i)
  {
    forall i | at <= i < index ensures !Area(s, size, nr, p, off, i) {
      if i < zero { assert BitAt(s, i); } else { NoneBetween(index + off, p, i + off); }
    }
  }

  lemma TooLate(s: seq<nat>, size: nat, nr: nat, p: nat, off: nat, index: nat)
    requires p > 0 && index + nr > size
    ensures forall i :: index <= i ==> !Area(s, size, nr, p, off, i)
  {
  }

  lemma IsArea(s: seq<nat>, size: nat, nr: nat, p: nat, off: nat, i: nat)
    requires p > 0 && (i + off) % p == 0 && i + nr <= size
    requires forall j {:trigger BitAt(s, j)} :: i <= j < i + nr ==> !BitAt(s, j)
    ensures Area(s, size, nr, p, off, i)
  {
  }

  /** A set bit inside the candidate rules out every start up to it. */
  lemma SetInside(s: seq<nat>, size: nat, nr: nat, p: nat, off: nat, index: nat, i: nat)
    requires p > 0 && index <= i < index + nr && BitAt(s, i)
    ensures forall j :: index <= j <= i ==> !Area(s, size, nr, p, off, j)
  {
  }

  /** z is the first clear bit from start on, or the size. */
  ghost predicate FirstZero(s: seq<nat>, size: nat, start: nat, z: nat)
  {
    && z <= size && (z < size ==> start <= z && !BitAt(s, z))
    && forall j {:trigger BitAt(s, j)} :: start <= j < z ==> BitAt(s, j)
  }

  /** bitmap_find_next_zero_area_off, with an alignment of 2 ^ k and no wrap-around. */
  method FindNextZeroAreaOff(map_: array<nat>, size: nat, start: nat, nr: nat, alignMask: nat, alignOffset: nat, ghost k: nat)
    returns (r: nat)
    requires AreWords(map_[..]) && size <= BITS * map_.Length
    requires k <= BITS && alignMask == Ones(k) && size + alignOffset + alignMask + nr < Pow2(BITS)
    ensures nr >= 1 && r + nr <= size ==>
              && start <= r && Area(map_[..], size, nr, Pow2(k), alignOffset, r)
              && forall i :: start <= i < r ==> !Area(map_[..], size, nr, Pow2(k), alignOffset, i)
    ensures nr >= 1 && r + nr > size ==>
              r > size && forall i :: start <= i ==> !Area(map_[..], size, nr, Pow2(k), alignOffset, i)
    ensures nr == 0 ==> exists z: nat :: FirstZero(map_[..], size, start, z) && z <= r < z + Pow2(k) && (r + alignOffset) % Pow2(k) == 0
  {
    hide Pow2, AlignMask, Ulong, Area;
    ghost var s, p := map_[..], Pow2(k);
    var at := start;
    while true
      invariant start <= at && (at <= size || at == start) && (nr == 0 ==> at == start)
      invariant nr >= 1 ==> forall i :: start <= i < at ==> !Area(s, size, nr, p, alignOffset, i)
      decreases if at <= size then size - at else 0
    {
      var zero := FindNextZeroBit(map_, size, at);
      assert FirstZero(map_[..], size, at, zero);
      var index := AlignMask(Ulong(zero + alignOffset), alignMask);
      Fits(zero + alignOffset);
      Aligns(zero + alignOffset, k);
      Fits(index - alignOffset);
      index := Ulong(index - alignOffset);
      if nr >= 1 { NotBefore(s, size, nr, p, alignOffset, at, zero, index); }
      var end := Ulong(index + nr);
      Fits(index + nr);
      if end > size {
        TooLate(s, size, nr, p, alignOffset, index);
        return end;
      }
      var i := FindNextBit(map_, end, index);
      if i < end {
        if nr >= 1 { SetInside(s, size, nr, p, alignOffset, index, i); }
        at := i + 1;
      } else {
        assert forall j {:trigger BitAt(map_[..], j)} :: index <= j < i ==> !BitAt(map_[..], j);
        IsArea(map_[..], size, nr, p, alignOffset, index);
        return index;
      }
    }
  }
}
