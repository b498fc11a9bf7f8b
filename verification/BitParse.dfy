/**
 * __bitmap_parse: hexadecimal text, in comma-separated groups of 32 bits, to
 * a bitmap.  What the text means is defined from the text alone: trim it,
 * split it at the commas, read the groups as a numeral in base 2 ^ 32.
 */
module BitParse {
  import opened Binary
  import opened Words
  import opened Bitmap
  import opened BitShift

  const COMMA: nat := 44
  /** CHUNKSZ */
  const CHUNK: nat := 32

  // ------------------------------------------------------------ what text means

  /** isspace, from the character table. */
  predicate IsSpace(c: nat)
  {
    9 <= c <= 13 || c == 32 || c == 160
  }

  /** isxdigit */
  predicate IsHex(c: nat)
  {
    48 <= c <= 57 || 65 <= c <= 70 || 97 <= c <= 102
  }

  /** hex_to_bin on a hexadecimal digit. */
  function Hex(c: nat): (h: nat)
    ensures h < 16
  {
    if 48 <= c <= 57 then c - 48 else if 65 <= c <= 70 then c - 55 else if 97 <= c <= 102 then c - 87 else 0
  }

  /** The text ends at a NUL, or with the buffer. */
  function End(t: seq<nat>): (e: nat)
    ensures e <= |t| && (e < |t| ==> t[e] == 0) && forall i :: 0 <= i < e ==> t[i] != 0
  {
    if t == [] || t[0] == 0 then 0 else 1 + End(t[1..])
  }

  function Lead(t: seq<nat>, n: nat, i: nat): (r: nat)
    requires i <= n <= |t|
    ensures i <= r <= n && (r < n ==> !IsSpace(t[r])) && forall j :: i <= j < r ==> IsSpace(t[j])
    decreases n - i
  {
    if i < n && IsSpace(t[i]) then Lead(t, n, i + 1) else i
  }

  function Tail(t: seq<nat>, n: nat): (r: nat)
    requires n <= |t|
    ensures r <= n && (r > 0 ==> !IsSpace(t[r - 1])) && forall j :: r <= j < n ==> IsSpace(t[j])
  {
    if n > 0 && IsSpace(t[n - 1]) then Tail(t, n - 1) else n
  }

  /** Without the space around it, and without a comma that ends the buffer. */
  function Body(t: seq<nat>): seq<nat>
  {
    var lo, hi := Lead(t, End(t), 0), Tail(t, End(t));
    if hi <= lo then []
    else if hi == |t| && t[hi - 1] == COMMA then t[lo..hi - 1]
    else t[lo..hi]
  }

  function Split(u: seq<nat>): (cs: seq<seq<nat>>)
    ensures |cs| >= 1
  {
    if u == [] then [[]] else
    var cs, c := Split(u[..|u| - 1]), u[|u| - 1];
    if c == COMMA then cs + [[]] else cs[..|cs| - 1] + [cs[|cs| - 1] + [c]]
  }

  function HexVal(d: seq<nat>): nat
  {
    if d == [] then 0 else 16 * HexVal(d[..|d| - 1]) + Hex(d[|d| - 1])
  }

  function Numeral(cs: seq<seq<nat>>): nat
  {
    if cs == [] then 0 else Numeral(cs[..|cs| - 1]) * Pow2(CHUNK) + HexVal(cs[|cs| - 1])
  }

  ghost predicate Formed(u: seq<nat>)
  {
    && (forall i :: 0 <= i < |u| ==> IsHex(u[i]) || u[i] == COMMA)
    && (forall k :: 0 <= k < |Split(u)| ==> Split(u)[k] != [])
  }

  ghost predicate Fitting(u: seq<nat>, nbits: nat)
  {
    (forall k :: 0 <= k < |Split(u)| ==> HexVal(Split(u)[k]) < Pow2(CHUNK)) && Numeral(Split(u)) < Pow2(nbits)
  }

  // -------------------------------------------------------------------- lemmas

  /** b continues a: same groups, but for a's last, which may have grown unless it is closed. */
  ghost predicate Continues(a: seq<seq<nat>>, b: seq<seq<nat>>, closed: bool)
  {
    && 0 < |a| <= |b| && (forall k :: 0 <= k < |a| - 1 ==> b[k] == a[k])
    && |a[|a| - 1]| <= |b[|a| - 1]| && b[|a| - 1][..|a[|a| - 1]|] == a[|a| - 1]
    && (closed ==> |a| < |b| && b[|a| - 1] == a[|a| - 1])
  }

  lemma ContinuesMore(a: seq<seq<nat>>, b: seq<seq<nat>>, closed: bool, c: nat)
    requires Continues(a, b, closed)
    ensures Continues(a, b + [[]], closed) && Continues(a, b[..|b| - 1] + [b[|b| - 1] + [c]], closed)
  {
    var last := b[|b| - 1] + [c];
    var m := b[..|b| - 1] + [last];
    assert m[|b| - 1] == last && forall k :: 0 <= k < |b| - 1 ==> m[k] == b[k];
    if |a| == |b| {
      var n := |a[|a| - 1]|;
      assert last[..n] == b[|b| - 1][..n];
    }
  }

  /** The groups of a prefix stay, but for the last, which may grow unless a comma follows. */
  lemma {:induction false} SplitPrefix(u: seq<nat>, n: nat)
    requires n <= |u|
    ensures Continues(Split(u[..n]), Split(u), n < |u| && u[n] == COMMA)
  {
    hide Continues;
    var m := |u| - 1;
    if n == |u| {
      assert u[..n] == u;
      ContinuesSelf(Split(u));
    } else if n == m {
      ContinuesNext(Split(u[..n]), u[m]);
    } else {
      SplitPrefix(u[..m], n);
      assert u[..m][..n] == u[..n];
      ContinuesMore(Split(u[..n]), Split(u[..m]), u[n] == COMMA, u[m]);
    }
  }

  lemma ContinuesSelf(a: seq<seq<nat>>)
    requires a != []
    ensures Continues(a, a, false)
  {
  }

  lemma ContinuesNext(a: seq<seq<nat>>, c: nat)
    requires a != []
    ensures Continues(a, a + [[]], true) && Continues(a, a[..|a| - 1] + [a[|a| - 1] + [c]], false)
  {
    ContinuesSelf(a);
    ContinuesMore(a, a, false, c);
  }

  lemma {:induction false} HexValMono(d: seq<nat>, n: nat)
    requires n <= |d|
    ensures HexVal(d[..n]) <= HexVal(d)
  {
    if n == |d| {
      assert d[..n] == d;
    } else {
      HexValMono(d[..|d| - 1], n);
      assert d[..|d| - 1][..n] == d[..n];
    }
  }

  lemma Grows(x: nat, p: nat, y: nat)
    requires p >= 1
    ensures x <= x * p + y
  {
    assert x * 1 <= x * p;
  }

  lemma {:induction false} NumeralMono(cs: seq<seq<nat>>, n: nat)
    requires n <= |cs|
    ensures Numeral(cs[..n]) <= Numeral(cs)
  {
    if n == |cs| {
      assert cs[..n] == cs;
    } else {
      NumeralMono(cs[..|cs| - 1], n);
      assert cs[..|cs| - 1][..n] == cs[..n];
      Grows(Numeral(cs[..|cs| - 1]), Pow2(CHUNK), HexVal(cs[|cs| - 1]));
    }
  }

  /**
   * Up to p the text is space, then t[lo..g], then space; its groups are cs,
   * complete and in range, and d, under way.
   */
  ghost predicate Reading(t: seq<nat>, lo: nat, p: nat, g: nat, cs: seq<seq<nat>>, d: seq<nat>)
  {
    && lo == Lead(t, End(t), 0) && p <= End(t) && lo <= g <= End(t) && (g == lo || g <= p)
    && (forall j :: g <= j < p ==> IsSpace(t[j])) && (g > lo ==> !IsSpace(t[g - 1]))
    && (forall j :: lo <= j < g ==> IsHex(t[j]) || t[j] == COMMA)
    && Split(t[lo..g]) == cs + [d]
    && (forall k :: 0 <= k < |cs| ==> cs[k] != [] && HexVal(cs[k]) < Pow2(CHUNK))
  }

  lemma ReadStart(t: seq<nat>)
    ensures var lo := Lead(t, End(t), 0); Reading(t, lo, 0, lo, [], [])
  {
    var lo := Lead(t, End(t), 0);
    assert t[lo..lo] == [] && [] + [[]] == Split([]);
  }

  lemma ReadSpace(t: seq<nat>, lo: nat, p: nat, g: nat, cs: seq<seq<nat>>, d: seq<nat>)
    requires Reading(t, lo, p, g, cs, d) && p < |t| && IsSpace(t[p])
    ensures Reading(t, lo, p + 1, g, cs, d)
  {
    hide HexVal, Split, Pow2;
  }

  /** The first character that is not space starts the body. */
  lemma BodyStarts(t: seq<nat>, lo: nat, p: nat, g: nat, cs: seq<seq<nat>>, d: seq<nat>)
    requires Reading(t, lo, p, g, cs, d) && p < End(t) && !IsSpace(t[p]) && g == lo
    ensures p == lo
  {
    hide HexVal, Split, Pow2, End, Lead;
  }

  /** A character that is not space belongs to the body, unless it is a final comma. */
  lemma BodyHas(t: seq<nat>, lo: nat, p: nat)
    requires lo == Lead(t, End(t), 0) && lo <= p < End(t) && !IsSpace(t[p])
    ensures p - lo <= |Body(t)| && Body(t)[..p - lo] == t[lo..p]
    ensures p - lo < |Body(t)| ==> Body(t)[p - lo] == t[p]
    ensures t[p] != COMMA ==> p - lo < |Body(t)|
  {
    hide End, Lead, Tail, IsSpace, Body;
    TailAbove(t, End(t), p + 1);
    var hi := Tail(t, End(t));
    BodyIs(t, End(t), lo, hi);
    assert t[lo..hi][..p - lo] == t[lo..p] && t[lo..hi - 1][..p - lo] == t[lo..p];
  }

  lemma SpaceInside(t: seq<nat>, lo: nat, p: nat, g: nat, cs: seq<seq<nat>>, d: seq<nat>)
    requires Reading(t, lo, p, g, cs, d) && p < End(t) && !IsSpace(t[p]) && lo < g < p
    ensures !Formed(Body(t))
  {
    hide HexVal, Split, Pow2, Body;
    BodyHas(t, lo, p);
    assert Body(t)[g - lo] == Body(t)[..p - lo][g - lo] == t[g];
  }

  lemma BadCharacter(t: seq<nat>, lo: nat, p: nat)
    requires lo == Lead(t, End(t), 0) && lo <= p < End(t) && !IsSpace(t[p]) && !IsHex(t[p]) && t[p] != COMMA
    ensures !Formed(Body(t))
  {
    hide Split, Body;
    BodyHas(t, lo, p);
  }

  lemma SplitDigit(u: seq<nat>, cs: seq<seq<nat>>, d: seq<nat>, c: nat)
    requires Split(u) == cs + [d] && c != COMMA
    ensures Split(u + [c]) == cs + [d + [c]] && HexVal(d + [c]) == 16 * HexVal(d) + Hex(c)
  {
    assert (u + [c])[..|u|] == u;
    assert (cs + [d])[..|cs|] == cs;
    assert (d + [c])[..|d|] == d;
  }

  lemma SplitComma(u: seq<nat>, cs: seq<seq<nat>>, d: seq<nat>)
    requires Split(u) == cs + [d]
    ensures Split(u + [COMMA]) == cs + [d] + [[]]
  {
    assert (u + [COMMA])[..|u|] == u;
  }

  lemma ReadDigit(t: seq<nat>, lo: nat, p: nat, cs: seq<seq<nat>>, d: seq<nat>)
    requires Reading(t, lo, p, p, cs, d) && p < |t| && IsHex(t[p])
    ensures Reading(t, lo, p + 1, p + 1, cs, d + [t[p]]) && HexVal(d + [t[p]]) == 16 * HexVal(d) + Hex(t[p])
  {
    hide Pow2, Split, HexVal, Hex;
    SplitDigit(t[lo..p], cs, d, t[p]);
    assert t[lo..p + 1] == t[lo..p] + [t[p]];
  }

  lemma ReadComma(t: seq<nat>, lo: nat, p: nat, cs: seq<seq<nat>>, d: seq<nat>)
    requires Reading(t, lo, p, p, cs, d) && p < |t| && t[p] == COMMA && d != [] && HexVal(d) < Pow2(CHUNK)
    ensures Reading(t, lo, p + 1, p + 1, cs + [d], [])
  {
    hide Pow2, Split, HexVal, Hex;
    SplitComma(t[lo..p], cs, d);
    assert t[lo..p + 1] == t[lo..p] + [t[p]];
  }

  /** The group under way is the beginning of a group of the whole. */
  lemma GroupGrows(b: seq<nat>, n: nat, cs: seq<seq<nat>>, d: seq<nat>)
    requires n <= |b| && Split(b[..n]) == cs + [d]
    ensures |cs| < |Split(b)| && HexVal(d) <= HexVal(Split(b)[|cs|])
  {
    hide Split, HexVal;
    SplitPrefix(b, n);
    assert (cs + [d])[|cs|] == d;
    HexValMono(Split(b)[|cs|], |d|);
  }

  /** A digit too many: the group does not fit in 32 bits, whatever follows. */
  lemma DigitOverflows(t: seq<nat>, lo: nat, p: nat, cs: seq<seq<nat>>, d: seq<nat>, nbits: nat)
    requires Reading(t, lo, p, p, cs, d) && p < |t| && IsHex(t[p]) && 16 * HexVal(d) >= Pow2(CHUNK)
    ensures !Fitting(Body(t), nbits)
  {
    hide Pow2, Body, Numeral, Split, HexVal, Hex, End, Lead;
    BodyHas(t, lo, p);
    SplitDigit(t[lo..p], cs, d, t[p]);
    assert Body(t)[..p + 1 - lo] == t[lo..p] + [t[p]];
    GroupGrows(Body(t), p + 1 - lo, cs, d + [t[p]]);
  }

  /** How reading a group can end: at a comma, or with the text. */
  ghost predicate GroupEnds(t: seq<nat>, lo: nat, p: nat, g: nat, cs: seq<seq<nat>>, d: seq<nat>)
  {
    && Reading(t, lo, p, g, cs, d)
    && (if p < End(t) then t[p] == COMMA && g == p else d == [] && cs != [] ==> g < |t|)
  }

  lemma {:induction false} EndsInComma(u: seq<nat>, cs: seq<seq<nat>>, d: seq<nat>)
    requires u != [] && Split(u) == cs + [d]
    ensures u[|u| - 1] == COMMA <==> d == []
    ensures d == [] ==> cs != []
  {
    assert (cs + [d])[|cs|] == d == Split(u)[|Split(u)| - 1];
  }

  /** The body is what was read, if the text ends here. */
  lemma BodyRead(t: seq<nat>, lo: nat, p: nat, g: nat, cs: seq<seq<nat>>, d: seq<nat>)
    requires GroupEnds(t, lo, p, g, cs, d) && (p == End(t) || p + 1 == |t|)
    ensures Body(t) == t[lo..g]
  {
    hide HexVal, Pow2, Split, Body, End, Lead, IsHex, IsSpace;
    if p == End(t) {
      if g == |t| && g > lo {
        EndsInComma(t[lo..g], cs, d);
        assert t[lo..g][g - lo - 1] == t[g - 1];
      }
      BodyEnds(t, lo, g);
    } else {
      BodyComma(t, lo, p);
    }
  }

  /** The body, by where the text ends and the space around it. */
  lemma BodyIs(t: seq<nat>, e: nat, lo: nat, hi: nat)
    requires End(t) == e && lo < hi <= e && Lead(t, e, 0) == lo && Tail(t, e) == hi
    ensures Body(t) == if hi == |t| && t[hi - 1] == COMMA then t[lo..hi - 1] else t[lo..hi]
  {
    hide End, Lead, Tail;
  }

  lemma BodyNone(t: seq<nat>)
    requires Tail(t, End(t)) <= Lead(t, End(t), 0)
    ensures Body(t) == []
  {
    hide End, Lead, Tail;
  }

  lemma BodyEnds(t: seq<nat>, lo: nat, g: nat)
    requires lo == Lead(t, End(t), 0) && lo <= g <= End(t) && (forall j :: g <= j < End(t) ==> IsSpace(t[j]))
    requires g > lo ==> !IsSpace(t[g - 1]) && (g < |t| || t[g - 1] != COMMA)
    ensures Body(t) == t[lo..g]
  {
    hide End, Lead, Tail, IsSpace, Body;
    TailBelow(t, End(t), g);
    if g > lo {
      TailAbove(t, End(t), g);
      BodyIs(t, End(t), lo, g);
    } else {
      BodyNone(t);
      assert t[lo..g] == [];
    }
  }

  lemma BodyComma(t: seq<nat>, lo: nat, p: nat)
    requires lo == Lead(t, End(t), 0) && lo <= p < End(t) && p + 1 == |t| && t[p] == COMMA
    ensures Body(t) == t[lo..p]
  {
    hide End, Lead, Tail, Body;
    assert !IsSpace(COMMA);
    hide IsSpace;
    TailAbove(t, End(t), p + 1);
    BodyIs(t, End(t), lo, p + 1);
  }

  lemma {:induction false} TailBelow(t: seq<nat>, n: nat, g: nat)
    requires g <= n <= |t| && forall j :: g <= j < n ==> IsSpace(t[j])
    ensures Tail(t, n) <= g
  {
    if g < n { TailBelow(t, n - 1, g); }
  }

  lemma {:induction false} TailAbove(t: seq<nat>, n: nat, g: nat)
    requires 0 < g <= n <= |t| && !IsSpace(t[g - 1])
    ensures g <= Tail(t, n)
  {
    if g < n && IsSpace(t[n - 1]) { TailAbove(t, n - 1, g); }
  }

  /** A group that ended is a group of the body. */
  lemma GroupDone(t: seq<nat>, lo: nat, p: nat, g: nat, cs: seq<seq<nat>>, d: seq<nat>)
    requires GroupEnds(t, lo, p, g, cs, d)
    ensures |cs| < |Split(Body(t))| && Split(Body(t))[..|cs| + 1] == cs + [d]
    ensures p == End(t) || p + 1 == |t| ==> Split(Body(t)) == cs + [d] && (forall i :: 0 <= i < |Body(t)| ==> IsHex(Body(t)[i]) || Body(t)[i] == COMMA)
  {
    hide HexVal, Pow2, Body, Split, End, Lead, IsHex;
    if p == End(t) || p + 1 == |t| {
      BodyRead(t, lo, p, g, cs, d);
      assert (cs + [d])[..|cs| + 1] == cs + [d];
    } else {
      BodyHas(t, lo, p);
      SplitPrefix(Body(t), p - lo);
      assert (cs + [d])[|cs|] == d && |cs + [d]| == |cs| + 1;
      if |Body(t)| == p - lo { assert Body(t)[..p - lo] == Body(t); }
      assert Split(Body(t))[..|cs| + 1] == cs + [d];
    }
  }

  // ------------------------------------------------------------------- numbers

  lemma {:induction false} OrAdd(a: nat, c: nat, n: nat)
    requires (forall j {:trigger Bit(a, j)} :: 0 <= j < n ==> !Bit(a, j)) && c < Pow2(n)
    ensures Or(a, c) == a + c
  {
    if n == 0 {
      OrZero(a);
    } else {
      forall j: nat | j < n - 1 ensures !Bit(a / 2, j) { BitHalf(a, j); }
      OrAdd(a / 2, c / 2, n - 1);
      assert !Bit(a, 0);
    }
  }

  lemma {:induction false} OrZero(a: nat)
    ensures Or(a, 0) == a
  {
    if a > 0 { OrZero(a / 2); }
  }

  /** (chunk << 4) | digit */
  lemma ShiftDigit(chunk: nat, h: nat)
    requires h < 16
    ensures Or(Shl(chunk, 4), h) == 16 * chunk + h
  {
    assert Pow2(4) == 16;
    ShlTimes(chunk, 4);
    forall j: nat | j < 4 ensures !Bit(Shl(chunk, 4), j) { BitShl(chunk, 4, j); }
    OrAdd(Shl(chunk, 4), h, 4);
  }

  /** chunk & ~((1 << 28) - 1) is nonzero when a further digit would not fit. */
  lemma TopDigit(chunk: nat)
    requires chunk < Pow2(CHUNK)
    ensures And(chunk, Xor(Ones(BITS), Ones(CHUNK - 4))) == 0 <==> 16 * chunk < Pow2(CHUNK)
  {
    var p := Pow2(CHUNK - 4);
    Pow2Mono(CHUNK, BITS);
    MaskRounds(chunk, CHUNK - 4);
    PowChunk();
    RoundZero(chunk, p);
    hide Pow2;
  }

  lemma PowChunk()
    ensures Pow2(CHUNK) == 16 * Pow2(CHUNK - 4)
  {
    assert Pow2(CHUNK) == 2 * Pow2(CHUNK - 1) && Pow2(CHUNK - 1) == 2 * Pow2(CHUNK - 2);
    assert Pow2(CHUNK - 2) == 2 * Pow2(CHUNK - 3) && Pow2(CHUNK - 3) == 2 * Pow2(CHUNK - 4);
  }

  lemma RoundZero(x: nat, p: nat)
    requires p > 0
    ensures x / p * p == 0 <==> x < p
  {
    if x < p { DivMod(x, p, 0, x); } else { Gap(p, 0, x / p); }
  }

  lemma {:induction false} Pow2Add(a: nat, b: nat)
    ensures Pow2(a + b) == Pow2(a) * Pow2(b)
  {
    if a > 0 {
      Pow2Add(a - 1, b);
      assert 2 * Pow2(a - 1) * Pow2(b) == 2 * (Pow2(a - 1) * Pow2(b));
    }
  }

  /** fls: Fls + 1 for a nonzero word. */
  lemma {:induction false} FlsBounds(x: nat)
    requires x > 0
    ensures Pow2(Fls(x)) <= x < Pow2(Fls(x) + 1)
  {
    if x > 1 { FlsBounds(x / 2); }
  }

  /** v takes exactly nbits bits. */
  ghost predicate Takes(v: nat, nbits: nat)
  {
    if nbits == 0 then v == 0 else Pow2(nbits - 1) <= v < Pow2(nbits)
  }

  lemma TakesMore(v: nat, nbits: nat, chunk: nat)
    requires Takes(v, nbits) && nbits > 0 && chunk < Pow2(CHUNK)
    ensures Takes(v * Pow2(CHUNK) + chunk, nbits + CHUNK)
  {
    var p := Pow2(CHUNK);
    Pow2Add(nbits - 1, CHUNK);
    Pow2Add(nbits, CHUNK);
    hide Pow2;
    Times(Pow2(nbits - 1), v, p);
    Gap(p, v, Pow2(nbits));
  }

  lemma Times(a: nat, b: nat, p: nat)
    requires a <= b
    ensures a * p <= b * p
  {
    if a < b { Gap(p, a, b); }
  }

  lemma TakesBound(v: nat, nbits: nat, n: nat)
    requires Takes(v, nbits)
    ensures nbits <= n <==> v < Pow2(n)
  {
    if nbits > 0 {
      if nbits <= n { Pow2Mono(nbits, n); } else { Pow2Mono(n, nbits - 1); }
    }
  }

  /** *maskp |= chunk after the shift adds the chunk. */
  lemma OrLowest(s: seq<nat>, v: nat, chunk: nat)
    requires AreWords(s) && s != [] && chunk < Pow2(CHUNK) && Val(s) == v * Pow2(CHUNK) % Pow2(BITS * |s|)
    ensures Or(s[0], chunk) == s[0] + chunk && s[0] + chunk < Pow2(BITS)
    ensures Val(s[0 := s[0] + chunk]) == Val(s) + chunk
  {
    hide Pow2, Bit, Val;
    ShlTimes(v, CHUNK);
    LowMod(Shl(v, CHUNK), BITS * |s|);
    forall j: nat | j < CHUNK ensures !Bit(s[0], j) {
      ValBit(s, j);
      BitLow(Shl(v, CHUNK), BITS * |s|, j);
      BitShl(v, CHUNK, j);
    }
    OrAdd(s[0], chunk, CHUNK);
    Pow2Mono(CHUNK, BITS);
    forall b: nat | b >= BITS ensures !Bit(Or(s[0], chunk), b) {
      BitOr(s[0], chunk, b);
      BitBelow(s[0], BITS, b);
      BitBelow(chunk, BITS, b);
    }
    BelowBits(Or(s[0], chunk), BITS);
    ValFirst(s, s[0] + chunk);
  }

  lemma ValFirst(s: seq<nat>, w: nat)
    requires s != []
    ensures Val(s[0 := w]) + s[0] == Val(s) + w
  {
    assert s[0 := w][1..] == s[1..];
  }

  // ---------------------------------------------------------------- the parser

  datatype Errno = Ok | Invalid | Overflow

  /** Shift the mask by a group and put the next group in. */
  method ShiftIn(maskp: array<nat>, chunk: nat, nmaskbits: nat)
    requires nmaskbits > 0 && maskp.Length == Longs(nmaskbits) && AreWords(maskp[..]) && chunk < Pow2(CHUNK)
    modifies maskp
    ensures AreWords(maskp[..])
    ensures Val(maskp[..]) == Val(old(maskp[..])) * Pow2(CHUNK) % Pow2(BITS * Longs(nmaskbits)) + chunk
  {
    hide Pow2, Val, Or;
    ghost var v := Val(maskp[..]);
    ShiftLeft(maskp, maskp, CHUNK, nmaskbits);
    ghost var s := maskp[..];
    OrLowest(s, v, chunk);
    maskp[0] := Or(maskp[0], chunk);
    assert maskp[..] == s[0 := s[0] + chunk];
  }

  lemma NumeralMore(cs: seq<seq<nat>>, d: seq<nat>)
    ensures Numeral(cs + [d]) == Numeral(cs) * Pow2(CHUNK) + HexVal(d)
  {
    assert (cs + [d])[..|cs|] == cs;
  }

  /** The number after one more group. */
  lemma NextNumeral(v: nat, c: nat, nbits: nat)
    requires Takes(v, nbits) && c < Pow2(CHUNK) && (nbits > 0 || c > 0)
    ensures Takes(v * Pow2(CHUNK) + c, if nbits == 0 then Fls(c) + 1 else nbits + CHUNK)
  {
    hide Pow2, Fls, Takes;
    if nbits == 0 { FirstNumeral(v, c); } else { TakesMore(v, nbits, c); }
  }

  lemma FirstNumeral(v: nat, c: nat)
    requires Takes(v, 0) && c > 0
    ensures Takes(v * Pow2(CHUNK) + c, Fls(c) + 1)
  {
    FlsBounds(c);
    hide Pow2, Fls;
    Product(v, Pow2(CHUNK));
  }

  lemma Product(a: nat, b: nat)
    ensures a == 0 ==> a * b == 0
  {
  }

  /** What fits loses nothing in the shift. */
  lemma NothingLost(x: nat, c: nat, nbits: nat, nmaskbits: nat, words: nat)
    requires Takes(x + c, nbits) && nbits <= nmaskbits <= BITS * words
    ensures x % Pow2(BITS * words) == x
  {
    TakesBound(x + c, nbits, BITS * words);
    hide Pow2, Takes;
    SmallMod(x, Pow2(BITS * words));
  }

  lemma SmallMod(x: nat, m: nat)
    requires x < m
    ensures x % m == x
  {
    DivMod(x, m, 0, x);
  }

  /** Where a character that counts is read, nothing but the body lies between lo and it. */
  lemma AtFront(t: seq<nat>, lo: nat, p: nat, g: nat, cs: seq<seq<nat>>, d: seq<nat>)
    requires Reading(t, lo, p, g, cs, d) && p < |t| && t[p] != 0 && !IsSpace(t[p])
    ensures lo <= p < End(t)
    ensures g == lo || (p > 0 && !IsSpace(t[p - 1])) ==> g == p
    ensures g != lo && p > 0 && IsSpace(t[p - 1]) ==> !Formed(Body(t))
  {
    hide HexVal, Pow2, Split, Body, End, Lead, IsHex, Formed;
    if g == lo {
      BodyStarts(t, lo, p, g, cs, d);
    } else if g < p {
      SpaceInside(t, lo, p, g, cs, d);
    }
  }

  lemma ReadFacts(t: seq<nat>, lo: nat, p: nat, g: nat, cs: seq<seq<nat>>, d: seq<nat>)
    requires Reading(t, lo, p, g, cs, d)
    ensures p <= End(t) && lo <= g && (g == lo || g <= p) && lo == Lead(t, End(t), 0)
  {
  }

  /** The inner loop: one group, up to its comma, a NUL or the end of the buffer; q is where it stopped. */
  method ReadGroup(buf: seq<nat>, p0: nat, c0: nat, total0: nat, ghost lo: nat, ghost g0: nat, ghost cs: seq<seq<nat>>)
    returns (r: Errno, p: nat, c: nat, chunk: nat, total: nat, ghost g: nat, ghost d: seq<nat>, ghost q: nat)
    requires p0 <= |buf| && Reading(buf, lo, p0, g0, cs, []) && (total0 == 0 <==> g0 == lo)
    requires p0 > 0 ==> c0 == buf[p0 - 1]
    requires cs != [] ==> p0 < |buf| && g0 == p0
    ensures r == Invalid ==> !Formed(Body(buf))
    ensures r == Overflow ==> forall n: nat :: !Fitting(Body(buf), n)
    ensures r == Ok ==>
              && GroupEnds(buf, lo, q, g, cs, d) && p <= |buf| && q <= |buf| && (q < |buf| ==> p0 < p)
              && chunk == HexVal(d) < Pow2(CHUNK) && total == total0 + |d|
              && (if p < |buf| && c == COMMA then p == q + 1 && c == buf[q] && q < End(buf) && g == q
                  else q == End(buf) || q + 1 == |buf|)
  {
    hide Reading, Split, HexVal, Formed, Fitting, Body, Pow2, And, Xor, Or, End, Lead;
    r, p, c, chunk, total, g, d, q := Ok, p0, c0, 0, total0, g0, [], p0;
    HexNone();
    while p < |buf|
      invariant p0 <= p <= |buf| && Reading(buf, lo, p, g, cs, d) && r == Ok
      invariant p > 0 ==> c == buf[p - 1]
      invariant total == total0 + |d| && (total == 0 <==> g == lo)
      invariant chunk == HexVal(d) < Pow2(CHUNK)
      invariant d == [] ==> g == g0
    {
      var oldc := c;
      c := buf[p];
      ReadFacts(buf, lo, p, g, cs, d);
      if IsSpace(c) {
        ReadSpace(buf, lo, p, g, cs, d);
        p := p + 1;
        continue;
      }
      if c != 0 { AtFront(buf, lo, p, g, cs, d); }
      if total > 0 && c != 0 && IsSpace(oldc) {
        r := Invalid;
        return;
      }
      if c == 0 || c == COMMA {
        q := p;
        p := p + 1;
        return;
      }
      if !IsHex(c) {
        BadCharacter(buf, lo, p);
        r := Invalid;
        return;
      }
      TopDigit(chunk);
      if And(chunk, Xor(Ones(BITS), Ones(CHUNK - 4))) != 0 {
        forall n: nat ensures !Fitting(Body(buf), n) { DigitOverflows(buf, lo, p, cs, d, n); }
        r := Overflow;
        return;
      }
      ReadDigit(buf, lo, p, cs, d);
      ShiftDigit(chunk, Hex(c));
      ChunkBound(chunk, Hex(c));
      chunk := Or(Shl(chunk, 4), Hex(c));
      total := total + 1;
      d := d + [c];
      p := p + 1;
      g := p;
    }
    ReadFacts(buf, lo, p, g, cs, d);
    q := p;
  }

  lemma HexNone()
    ensures HexVal([]) == 0 < Pow2(CHUNK)
  {
  }

  lemma ChunkBound(chunk: nat, h: nat)
    requires 16 * chunk < Pow2(CHUNK) && h < 16
    ensures 16 * chunk + h < Pow2(CHUNK)
  {
    PowChunk();
    hide Pow2;
  }

  /** An empty group, or one that makes the number too large, decides; so does the last. */
  lemma GroupVerdict(t: seq<nat>, lo: nat, q: nat, g: nat, cs: seq<seq<nat>>, d: seq<nat>, nbits: nat)
    requires GroupEnds(t, lo, q, g, cs, d)
    ensures d == [] ==> !Formed(Body(t))
    ensures Numeral(cs + [d]) >= Pow2(nbits) ==> !Fitting(Body(t), nbits)
    ensures d != [] && HexVal(d) < Pow2(CHUNK) && Numeral(cs + [d]) < Pow2(nbits) && (q == End(t) || q + 1 == |t|) ==>
              Formed(Body(t)) && Fitting(Body(t), nbits) && Split(Body(t)) == cs + [d]
  {
    hide Split, HexVal, Body, Pow2, Numeral, End, Lead;
    GroupDone(t, lo, q, g, cs, d);
    NumeralMono(Split(Body(t)), |cs| + 1);
    assert Split(Body(t))[|cs|] == (cs + [d])[|cs|] == d;
  }

  method ZeroMask(maskp: array<nat>)
    modifies maskp
    ensures AreWords(maskp[..]) && Val(maskp[..]) == 0
  {
    for i := 0 to maskp.Length
      invariant forall k :: 0 <= k < i ==> maskp[k] == 0
    {
      maskp[i] := 0;
    }
    ZeroVal(maskp[..]);
  }

  lemma {:induction false} ZeroVal(s: seq<nat>)
    requires forall k :: 0 <= k < |s| ==> s[k] == 0
    ensures AreWords(s) && Val(s) == 0
  {
    if s != [] {
      ZeroVal(s[1..]);
      ShlTimes(0, BITS);
    }
  }

  lemma NumeralNone()
    ensures Numeral([]) == 0 && Takes(0, 0)
  {
  }

  lemma NumeralZero(v: nat, nbits: nat)
    requires Takes(v, nbits)
    ensures v == 0 <==> nbits == 0
  {
    hide Pow2;
  }

  /** __bitmap_parse */
  method Parse(buf: seq<nat>, maskp: array<nat>, nmaskbits: nat) returns (r: Errno)
    requires nmaskbits > 0 && maskp.Length == Longs(nmaskbits)
    modifies maskp
    ensures AreWords(maskp[..])
    ensures r == Ok <==> Formed(Body(buf)) && Fitting(Body(buf), nmaskbits)
    ensures r == Ok ==> Val(maskp[..]) == Numeral(Split(Body(buf)))
    ensures r == Invalid ==> !Formed(Body(buf))
  {
    hide Reading, GroupEnds, Split, HexVal, Numeral, Formed, Fitting, Body, Pow2, Val, AreWords, Takes, Fls, End, Lead;
    ZeroMask(maskp);
    var p: nat, c: nat, total: nat, nchunks: nat, nbits: nat := 0, 0, 0, 0, 0;
    ghost var lo: nat, g: nat, cs: seq<seq<nat>> := Lead(buf, End(buf), 0), Lead(buf, End(buf), 0), [];
    ReadStart(buf);
    NumeralNone();
    while true
      invariant p <= |buf| && Reading(buf, lo, p, g, cs, []) && AreWords(maskp[..])
      invariant p > 0 ==> c == buf[p - 1]
      invariant total == 0 <==> g == lo
      invariant cs != [] ==> p < |buf| && g == p
      invariant Val(maskp[..]) == Numeral(cs) && Takes(Numeral(cs), nbits) && nbits <= nmaskbits
      invariant nchunks == 0 <==> nbits == 0
      decreases |buf| - p
    {
      var ndigits, chunk: nat := total, 0;
      ghost var d: seq<nat>, q: nat;
      r, p, c, chunk, total, g, d, q := ReadGroup(buf, p, c, total, lo, g, cs);
      if r != Ok { return; }
      GroupVerdict(buf, lo, q, g, cs, d, nmaskbits);
      if ndigits == total { return Invalid; }
      NumeralMore(cs, d);
      NumeralZero(Numeral(cs), nbits);
      if !(nchunks == 0 && chunk == 0) {
        ghost var v := Numeral(cs);
        NextNumeral(v, chunk, nbits);
        ShiftIn(maskp, chunk, nmaskbits);
        nchunks := nchunks + 1;
        nbits := nbits + if nchunks == 1 then Fls(chunk) + 1 else CHUNK;
        TakesBound(Numeral(cs + [d]), nbits, nmaskbits);
        if nbits > nmaskbits { return Overflow; }
        NothingLost(v * Pow2(CHUNK), chunk, nbits, nmaskbits, Longs(nmaskbits));
      }
      TakesBound(Numeral(cs + [d]), nbits, nmaskbits);
      if !(p < |buf| && c == COMMA) { return Ok; }
      GroupRead(buf, lo, q, g, cs, d);
      ReadComma(buf, lo, q, cs, d);
      ReadFacts(buf, lo, p, p, cs + [d], []);
      cs := cs + [d];
      g := p;
    }
  }

  lemma GroupRead(t: seq<nat>, lo: nat, q: nat, g: nat, cs: seq<seq<nat>>, d: seq<nat>)
    requires GroupEnds(t, lo, q, g, cs, d)
    ensures Reading(t, lo, q, g, cs, d) && lo <= g
  {
  }

  // ------------------------------------------------- a printer that Parse inverts

  /** The hexadecimal digits. */
  function Digit(k: nat, upper: bool): (c: nat)
    requires k < 16
  {
    (if upper then "0123456789ABCDEF"[k] else "0123456789abcdef"[k]) as nat
  }

  /** The characters read as digits are exactly these, each with its place as its value. */
  lemma DigitValue(k: nat, upper: bool)
    requires k < 16
    ensures IsHex(Digit(k, upper)) && Hex(Digit(k, upper)) == k
    ensures Digit(k, upper) != 0 && !IsSpace(Digit(k, upper)) && Digit(k, upper) != COMMA
  {
  }

  lemma DigitOf(c: nat)
    requires IsHex(c)
    ensures c == Digit(Hex(c), false) || c == Digit(Hex(c), true)
  {
  }

  lemma SpaceIs(c: nat)
    ensures IsSpace(c) <==> c in {' ' as nat, '\t' as nat, '\n' as nat, 11, 12, '\r' as nat, 160}
  {
  }

  /** The n low digits of v. */
  function Digits(v: nat, n: nat, upper: bool): (d: seq<nat>)
    ensures |d| == n
  {
    if n == 0 then [] else Digits(v / 16, n - 1, upper) + [Digit(v % 16, upper)]
  }

  /** v in g groups of eight digits, with commas between them. */
  function Printed(v: nat, g: nat, upper: bool): (t: seq<nat>)
    requires g > 0
  {
    if g == 1 then Digits(v, 8, upper)
    else Printed(v / 0x1_0000_0000, g - 1, upper) + [',' as nat] + Digits(v % 0x1_0000_0000, 8, upper)
  }

  /** A text of digits and commas that begins and ends with a digit. */
  ghost predicate Plain(t: seq<nat>)
  {
    t != [] && IsHex(t[0]) && IsHex(t[|t| - 1]) && forall i :: 0 <= i < |t| ==> IsHex(t[i]) || t[i] == COMMA
  }

  lemma {:induction false} DigitsHex(v: nat, n: nat, upper: bool)
    ensures forall i :: 0 <= i < n ==> IsHex(Digits(v, n, upper)[i])
  {
    if n > 0 {
      DigitsHex(v / 16, n - 1, upper);
      DigitValue(v % 16, upper);
    }
  }

  lemma {:induction false} DigitsValue(v: nat, n: nat, upper: bool)
    requires v < Pow2(4 * n)
    ensures HexVal(Digits(v, n, upper)) == v
  {
    if n > 0 {
      var d := Digits(v / 16, n - 1, upper);
      assert Pow2(4 * n) == 16 * Pow2(4 * (n - 1)) by { PowNibble(n); }
      hide Pow2, Hex, Digit;
      DigitsValue(v / 16, n - 1, upper);
      DigitValue(v % 16, upper);
      assert Digits(v, n, upper)[..n - 1] == d;
    }
  }

  lemma PowNibble(n: nat)
    requires n > 0
    ensures Pow2(4 * n) == 16 * Pow2(4 * (n - 1))
  {
    var m := 4 * (n - 1);
    assert Pow2(m + 4) == 2 * Pow2(m + 3) && Pow2(m + 3) == 2 * Pow2(m + 2);
    assert Pow2(m + 2) == 2 * Pow2(m + 1) && Pow2(m + 1) == 2 * Pow2(m);
  }

  /** Digits behind a text lengthen its last group. */
  lemma {:induction false} SplitAppend(u: seq<nat>, cs: seq<seq<nat>>, d: seq<nat>, w: seq<nat>)
    requires Split(u) == cs + [d] && forall i :: 0 <= i < |w| ==> w[i] != COMMA
    ensures Split(u + w) == cs + [d + w]
  {
    hide Split, HexVal;
    if w == [] {
      assert u + w == u && d + w == d;
    } else {
      var m := |w| - 1;
      SplitAppend(u, cs, d, w[..m]);
      SplitDigit(u + w[..m], cs, d + w[..m], w[m]);
      assert u + w == u + w[..m] + [w[m]] && d + w == d + w[..m] + [w[m]];
    }
  }

  lemma PlainDigits(v: nat, upper: bool)
    ensures Plain(Digits(v, 8, upper)) && Split(Digits(v, 8, upper)) == [Digits(v, 8, upper)]
  {
    var d := Digits(v, 8, upper);
    DigitsHex(v, 8, upper);
    hide Digits;
    assert Split([]) == [] + [[]];
    SplitAppend([], [], [], d);
    assert [] + d == d && [] + [d] == [d];
  }

  lemma {:induction false} PlainPrinted(v: nat, g: nat, upper: bool)
    requires g > 0
    ensures Plain(Printed(v, g, upper))
  {
    hide Digits;
    if g == 1 {
      PlainDigits(v, upper);
    } else {
      PlainPrinted(v / 0x1_0000_0000, g - 1, upper);
      PlainDigits(v % 0x1_0000_0000, upper);
    }
  }

  lemma BodyPlain(t: seq<nat>)
    requires Plain(t)
    ensures Body(t) == t
  {
    assert forall i :: 0 <= i < |t| ==> t[i] != 0;
    assert End(t) == |t| && !IsSpace(t[0]) && !IsSpace(t[|t| - 1]);
    assert Lead(t, |t|, 0) == 0 && Tail(t, |t|) == |t|;
    assert t[0..|t|] == t;
  }

  ghost predicate AllSpace(t: seq<nat>)
  {
    forall i :: 0 <= i < |t| ==> IsSpace(t[i])
  }

  /** Space around a text, and what follows a NUL, do not matter; nor does a comma that ends the buffer. */
  lemma BodyTrimmed(t: seq<nat>, before: seq<nat>, behind: seq<nat>, junk: seq<nat>)
    requires Plain(t) && AllSpace(before) && AllSpace(behind)
    ensures Body(before + t + behind) == Body(before + t + behind + [0] + junk) == t && Body(before + t + [COMMA]) == t
  {
    TrimmedEnd(t, before, behind);
    TrimmedNul(t, before, behind, junk);
    TrimmedComma(t, before);
    hide Body;
  }

  lemma TrimmedEnd(t: seq<nat>, before: seq<nat>, behind: seq<nat>)
    requires Plain(t) && AllSpace(before) && AllSpace(behind)
    ensures Body(before + t + behind) == t
  {
    hide Body;
    var w := before + t + behind;
    assert w[..|before|] == before && w[|before|..|before| + |t|] == t;
    BodyAt(w, before, t, |w|);
  }

  lemma TrimmedNul(t: seq<nat>, before: seq<nat>, behind: seq<nat>, junk: seq<nat>)
    requires Plain(t) && AllSpace(before) && AllSpace(behind)
    ensures Body(before + t + behind + [0] + junk) == t
  {
    hide Body;
    var w := before + t + behind + [0] + junk;
    assert w[..|before|] == before && w[|before|..|before| + |t|] == t;
    BodyAt(w, before, t, |before + t + behind|);
  }

  lemma TrimmedComma(t: seq<nat>, before: seq<nat>)
    requires Plain(t) && AllSpace(before)
    ensures Body(before + t + [COMMA]) == t
  {
    hide Body;
    var w, u := before + t + [COMMA], t + [COMMA];
    assert w[..|before|] == before && w[|before|..|before| + |u|] == u && u[..|t|] == t;
    BodyAt(w, before, u, |w|);
  }

  /** The body of a text whose characters up to e are space, u, space. */
  lemma BodyAt(t: seq<nat>, before: seq<nat>, u: seq<nat>, e: nat)
    requires AllSpace(before) && u != [] && |before| + |u| <= e <= |t| && t[..|before|] == before && t[|before|..|before| + |u|] == u
    requires !IsSpace(u[0]) && !IsSpace(u[|u| - 1]) && (forall i :: 0 <= i < |u| ==> u[i] != 0)
    requires (forall i :: |before| + |u| <= i < e ==> IsSpace(t[i])) && (e < |t| ==> t[e] == 0)
    ensures Body(t) == if |before| + |u| == |t| && u[|u| - 1] == COMMA then u[..|u| - 1] else u
  {
    hide End, Lead, Tail, IsSpace, Body;
    var lo, hi := |before|, |before| + |u|;
    forall i | 0 <= i < e ensures t[i] != 0 {
      if i < lo {
        assert t[i] == before[i];
        SpaceNotNul(t[i]);
      } else if i < hi {
        assert t[i] == u[i - lo];
      } else {
        SpaceNotNul(t[i]);
      }
    }
    EndIs(t, e);
    assert t[lo] == u[0] && t[hi - 1] == u[|u| - 1];
    forall i | 0 <= i < lo ensures IsSpace(t[i]) { assert t[i] == before[i]; }
    LeadIs(t, e, 0, lo);
    TailBelow(t, e, hi);
    TailAbove(t, e, hi);
    BodyIs(t, e, lo, hi);
    assert u[..|u| - 1] == t[lo..hi - 1];
  }

  lemma SpaceNotNul(c: nat)
    requires IsSpace(c)
    ensures c != 0
  {
  }

  lemma {:induction false} EndIs(t: seq<nat>, e: nat)
    requires e <= |t| && (e < |t| ==> t[e] == 0) && forall i :: 0 <= i < e ==> t[i] != 0
    ensures End(t) == e
  {
    if e > 0 {
      forall i | 0 <= i < e - 1 ensures t[1..][i] != 0 { assert t[1..][i] == t[i + 1]; }
      EndIs(t[1..], e - 1);
    }
  }

  lemma {:induction false} LeadIs(t: seq<nat>, n: nat, i: nat, r: nat)
    requires i <= r < n <= |t| && !IsSpace(t[r]) && forall j :: i <= j < r ==> IsSpace(t[j])
    ensures Lead(t, n, i) == r
    decreases r - i
  {
    if i < r { LeadIs(t, n, i + 1, r); }
  }

  /** Space inside a text, an empty group, and a comma before the end of the text are malformed. */
  lemma Malformed(u: seq<nat>, v: seq<nat>, c: nat)
    ensures IsSpace(c) ==> !Formed(u + [c] + v)
    ensures !Formed(u + [COMMA, COMMA] + v) && !Formed([COMMA] + v) && !Formed(u + [COMMA]) && !Formed([])
  {
    assert IsSpace(c) ==> (u + [c] + v)[|u|] == c && !IsHex(c) && c != COMMA;
    EmptyGroup(u, [COMMA] + v);
    assert u + [COMMA] + ([COMMA] + v) == u + [COMMA, COMMA] + v;
    EmptyGroup(u, []);
    assert u + [COMMA] + [] == u + [COMMA];
    FirstGroup(v);
    assert Split([])[0] == [];
  }

  /** A comma with a comma or nothing behind it leaves a group empty. */
  lemma EmptyGroup(u: seq<nat>, w: seq<nat>)
    requires w == [] || w[0] == COMMA
    ensures !Formed(u + [COMMA] + w)
  {
    hide Split, HexVal;
    var t, n := u + [COMMA] + w, |u| + 1;
    assert t[..n] == u + [COMMA];
    var cs := Split(u);
    assert cs == cs[..|cs| - 1] + [cs[|cs| - 1]];
    SplitComma(u, cs[..|cs| - 1], cs[|cs| - 1]);
    SplitPrefix(t, n);
    assert Split(t[..n])[|cs|] == [];
    if w == [] { assert t == t[..n]; } else { assert t[n] == w[0]; }
    assert Split(t)[|cs|] == [];
  }

  lemma FirstGroup(v: seq<nat>)
    ensures !Formed([COMMA] + v)
  {
    hide Split, HexVal;
    var t := [COMMA] + v;
    assert t[..0] == [] && t[0] == COMMA;
    SplitPrefix(t, 0);
    assert Split([]) == [[]] by { SplitNone(); }
    assert Split(t)[0] == [];
  }

  lemma SplitNone()
    ensures Split([]) == [[]]
  {
  }

  /** A group of 2 ^ 32 or more fits in no mask. */
  lemma TooWide(v: nat, n: nat, upper: bool, nbits: nat)
    requires n > 0 && 0x1_0000_0000 <= v < Pow2(4 * n)
    ensures !Fitting(Digits(v, n, upper), nbits)
  {
    var d := Digits(v, n, upper);
    Pow2Chunk();
    hide Pow2, Digits;
    DigitsHex(v, n, upper);
    DigitsValue(v, n, upper);
    SplitNone();
    var none: seq<seq<nat>> := [];
    assert Split([]) == none + [[]];
    SplitAppend([], none, [], d);
    assert [] + d == d && Split(d)[0] == d;
  }

  /** The groups of a printed number are in range and spell it. */
  lemma {:induction false} SplitPrinted(v: nat, g: nat, upper: bool)
    requires g > 0 && v < Pow2(CHUNK * g)
    ensures Numeral(Split(Printed(v, g, upper))) == v
    ensures forall k :: 0 <= k < |Split(Printed(v, g, upper))| ==>
              Split(Printed(v, g, upper))[k] != [] && HexVal(Split(Printed(v, g, upper))[k]) < Pow2(CHUNK)
  {
    hide Pow2, Split, HexVal, Digits, Numeral;
    if g == 1 {
      SplitFirst(v, upper);
    } else {
      var hi, lo := v / 0x1_0000_0000, v % 0x1_0000_0000;
      GroupsBelow(v, g);
      SplitPrinted(hi, g - 1, upper);
      DigitsOk(lo, upper);
      OneMoreGroup(Printed(hi, g - 1, upper), Digits(lo, 8, upper));
      NumeralMore(Split(Printed(hi, g - 1, upper)), Digits(lo, 8, upper));
      Pow2Chunk();
    }
  }

  lemma DigitsOk(v: nat, upper: bool)
    requires v < 0x1_0000_0000
    ensures var d := Digits(v, 8, upper);
            d != [] && HexVal(d) == v < Pow2(CHUNK) && forall i :: 0 <= i < |d| ==> d[i] != COMMA
  {
    Pow2Chunk();
    hide Pow2, HexVal, Digits;
    DigitsHex(v, 8, upper);
    DigitsValue(v, 8, upper);
  }

  lemma SplitFirst(v: nat, upper: bool)
    requires v < Pow2(CHUNK)
    ensures Split(Digits(v, 8, upper)) == [Digits(v, 8, upper)] && Numeral(Split(Digits(v, 8, upper))) == v
    ensures Digits(v, 8, upper) != [] && HexVal(Digits(v, 8, upper)) < Pow2(CHUNK)
  {
    var d := Digits(v, 8, upper);
    Pow2Chunk();
    NumeralNone();
    hide Pow2, HexVal, Digits, Numeral, Takes;
    PlainDigits(v, upper);
    DigitsOk(v, upper);
    NumeralMore([], d);
    assert [] + [d] == [d];
  }

  lemma OneMoreGroup(t: seq<nat>, d: seq<nat>)
    requires forall i :: 0 <= i < |d| ==> d[i] != COMMA
    ensures Split(t + [COMMA] + d) == Split(t) + [d]
  {
    hide Split, HexVal;
    var cs := Split(t);
    var m := |cs| - 1;
    assert cs == cs[..m] + [cs[m]];
    SplitComma(t, cs[..m], cs[m]);
    SplitAppend(t + [COMMA], cs, [], d);
    assert [] + d == d;
  }

  lemma Pow2Chunk()
    ensures Pow2(CHUNK) == 0x1_0000_0000 && Pow2(4 * 8) == 0x1_0000_0000
  {
    assert Pow2(8) == 0x100;
    assert Pow2(16) == 0x1_0000;
    assert Pow2(24) == 0x100_0000;
  }

  lemma GroupsBelow(v: nat, g: nat)
    requires g > 1 && v < Pow2(CHUNK * g)
    ensures v / 0x1_0000_0000 < Pow2(CHUNK * (g - 1))
  {
    Pow2Chunk();
    Pow2Add(CHUNK, CHUNK * (g - 1));
    assert CHUNK + CHUNK * (g - 1) == CHUNK * g;
    hide Pow2;
    HiBelow(v, Pow2(CHUNK * (g - 1)));
  }

  lemma HiBelow(v: nat, p: nat)
    requires v < 0x1_0000_0000 * p
    ensures v / 0x1_0000_0000 < p
  {
  }

  /** Parsing undoes printing: any number in enough groups, in lower or upper case, if and only if the mask can hold it. */
  method ParsePrinted(v: nat, g: nat, upper: bool, maskp: array<nat>, nmaskbits: nat) returns (r: Errno)
    requires g > 0 && v < Pow2(CHUNK * g) && nmaskbits > 0 && maskp.Length == Longs(nmaskbits)
    modifies maskp
    ensures r == if v < Pow2(nmaskbits) then Ok else Overflow
    ensures r == Ok ==> Val(maskp[..]) == v
  {
    hide Split, HexVal, Numeral, Body, Pow2, Val, Printed, AreWords, Plain, IsHex;
    var t := Printed(v, g, upper);
    PlainPrinted(v, g, upper);
    BodyPlain(t);
    SplitPrinted(v, g, upper);
    assert forall i :: 0 <= i < |t| ==> IsHex(t[i]) || t[i] == COMMA by { PlainText(t); }
    r := Parse(t, maskp, nmaskbits);
    assert r != Invalid;
  }

  lemma PlainText(t: seq<nat>)
    requires Plain(t)
    ensures forall i :: 0 <= i < |t| ==> IsHex(t[i]) || t[i] == COMMA
  {
  }
}
