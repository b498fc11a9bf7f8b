/**
 * One line of the 2048 board: what sliding it means, independently of the
 * loop that does it in place.  A cell holds the exponent of its tile, or 0.
 */
module Slide {
  import opened Binary

  /** The tiles of a line, in order. */
  function Compact(s: seq<nat>): (c: seq<nat>)
    ensures |c| <= |s| && forall i :: 0 <= i < |c| ==> c[i] != 0
  {
    if s == [] then [] else (if s[0] != 0 then [s[0]] else []) + Compact(s[1..])
  }

  /** Merge equal neighbours, each tile at most once, from the front. */
  function Merge(c: seq<nat>): (m: seq<nat>)
    ensures |m| <= |c| && (c != [] ==> m != [])
  {
    if |c| < 2 then c
    else if c[0] == c[1] then [c[0] + 1] + Merge(c[2..])
    else [c[0]] + Merge(c[1..])
  }

  function Zeros(n: nat): (z: seq<nat>)
    ensures |z| == n && forall i :: 0 <= i < n ==> z[i] == 0
  {
    seq(n, _ => 0)
  }

  function Pad(m: seq<nat>, n: nat): (r: seq<nat>)
    requires |m| <= n
    ensures |r| == n
  {
    m + Zeros(n - |m|)
  }

  function Slid(s: seq<nat>): (r: seq<nat>)
    ensures |r| == |s|
  {
    Pad(Merge(Compact(s)), |s|)
  }

  /** The points of merging a compact line. */
  function Points(c: seq<nat>): nat
  {
    if |c| < 2 then 0
    else if c[0] == c[1] then Pow2(c[0] + 1) + Points(c[2..])
    else Points(c[1..])
  }

  /** A line that does not change: tiles first, no two equal neighbours. */
  ghost predicate Settled(s: seq<nat>)
  {
    && (forall i, j :: 0 <= i < j < |s| && s[i] == 0 ==> s[j] == 0)
    && (forall i :: 0 < i < |s| && s[i] != 0 ==> s[i - 1] != s[i])
  }

  // ---------------------------------------------------------------- lemmas

  lemma {:induction false} CompactConcat(s: seq<nat>, t: seq<nat>)
    ensures Compact(s + t) == Compact(s) + Compact(t)
  {
    if s == [] {
      assert s + t == t;
    } else {
      assert (s + t)[1..] == s[1..] + t;
      CompactConcat(s[1..], t);
    }
  }

  lemma {:induction false} CompactTiles(c: seq<nat>)
    requires forall i :: 0 <= i < |c| ==> c[i] != 0
    ensures Compact(c) == c
  {
    if c != [] {
      CompactTiles(c[1..]);
      assert c == [c[0]] + c[1..];
    }
  }

  lemma {:induction false} CompactZeros(s: seq<nat>)
    requires forall i :: 0 <= i < |s| ==> s[i] == 0
    ensures Compact(s) == []
  {
    if s != [] { CompactZeros(s[1..]); }
  }

  /** All tiles there means the line is its own compaction. */
  lemma {:induction false} CompactFull(s: seq<nat>)
    requires |Compact(s)| == |s|
    ensures Compact(s) == s && forall i :: 0 <= i < |s| ==> s[i] != 0
  {
    if s != [] {
      CompactFull(s[1..]);
      assert s == [s[0]] + s[1..];
    }
  }

  /** Merging shortens a line unless no two neighbours are equal. */
  lemma {:induction false} MergeSame(c: seq<nat>)
    requires |Merge(c)| == |c|
    ensures Merge(c) == c && forall i :: 0 < i < |c| ==> c[i - 1] != c[i]
  {
    if |c| >= 2 {
      MergeSame(c[1..]);
      assert c == [c[0]] + c[1..];
      forall i | 0 < i < |c| ensures c[i - 1] != c[i] {
        if i > 1 { assert c[1..][i - 2] != c[1..][i - 1]; }
      }
    }
  }

  lemma {:induction false} MergeDistinct(c: seq<nat>)
    requires forall i :: 0 < i < |c| ==> c[i - 1] != c[i]
    ensures Merge(c) == c && Points(c) == 0
  {
    if |c| >= 2 {
      assert c[0] != c[1];
      forall i | 0 < i < |c| - 1 ensures c[1..][i - 1] != c[1..][i] { assert c[i + 1 - 1] != c[i + 1]; }
      MergeDistinct(c[1..]);
      assert c == [c[0]] + c[1..];
    }
  }

  lemma {:induction false} MergeTiles(c: seq<nat>)
    requires forall i :: 0 <= i < |c| ==> c[i] != 0
    ensures forall i :: 0 <= i < |Merge(c)| ==> Merge(c)[i] != 0
  {
    if |c| >= 2 {
      if c[0] == c[1] { MergeTiles(c[2..]); } else { MergeTiles(c[1..]); }
    }
  }

  /** A line stays as it is exactly when it is settled. */
  lemma SlidSettled(s: seq<nat>)
    ensures Slid(s) == s <==> Settled(s)
  {
    var c := Compact(s);
    if Slid(s) == s {
      var m := Merge(c);
      MergeTiles(c);
      CompactConcat(m, Zeros(|s| - |m|));
      CompactTiles(m);
      CompactZeros(Zeros(|s| - |m|));
      assert c == m;
      MergeSame(c);
      SettledPad(c, |s|);
    }
    if Settled(s) { SettledSlid(s); }
  }

  lemma SettledSlid(s: seq<nat>)
    requires Settled(s)
    ensures Slid(s) == s
  {
    var k := TileCount(s);
    var c := s[..k];
    assert s == c + s[k..];
    CompactConcat(c, s[k..]);
    CompactTiles(c);
    CompactZeros(s[k..]);
    assert forall i :: 0 < i < k ==> c[i - 1] != c[i];
    MergeDistinct(c);
    assert Compact(s) == c;
    assert |c| == k && c + Zeros(|s| - k) == s;
  }

  lemma SettledPad(c: seq<nat>, n: nat)
    requires |c| <= n && (forall i :: 0 <= i < |c| ==> c[i] != 0) && forall i :: 0 < i < |c| ==> c[i - 1] != c[i]
    ensures Settled(Pad(c, n))
  {
    var s := Pad(c, n);
    assert forall i :: |c| <= i < n ==> s[i] == 0;
    assert forall i :: 0 <= i < |c| ==> s[i] == c[i];
  }

  lemma {:induction false} TileCount(s: seq<nat>) returns (k: nat)
    requires forall i, j :: 0 <= i < j < |s| && s[i] == 0 ==> s[j] == 0
    ensures k <= |s| && (forall i :: 0 <= i < k ==> s[i] != 0) && forall i :: k <= i < |s| ==> s[i] == 0
  {
    if s == [] || s[|s| - 1] != 0 {
      k := |s|;
    } else {
      k := TileCount(s[..|s| - 1]);
    }
  }

  /** A line that changes has room afterwards. */
  lemma ChangeLeavesRoom(s: seq<nat>)
    requires Slid(s) != s
    ensures 0 in Slid(s)
  {
    var m := Merge(Compact(s));
    if |m| == |s| {
      CompactFull(s);
      MergeSame(s);
    } else {
      assert Slid(s)[|m|] == 0;
    }
  }

  // ------------------------------------------- what compacting and merging mean

  /** at is where the tiles of s are, in order, and c what they are. */
  ghost predicate Places(s: seq<nat>, c: seq<nat>, at: seq<nat>)
  {
    && |at| == |c| && (forall k :: 0 <= k < |at| ==> at[k] < |s| && c[k] == s[at[k]])
    && (forall j, k :: 0 <= j < k < |at| ==> at[j] < at[k])
    && (forall i :: 0 <= i < |s| && s[i] != 0 ==> i in at)
    && (forall k :: 0 <= k < |at| ==> c[k] != 0)
  }

  /** Compacting keeps the tiles and their order, and nothing else. */
  lemma {:induction false} CompactPlaces(s: seq<nat>) returns (at: seq<nat>)
    ensures Places(s, Compact(s), at)
  {
    at := [];
    if s != [] {
      var m := |s| - 1;
      assert s == s[..m] + [s[m]];
      CompactConcat(s[..m], [s[m]]);
      assert Compact([s[m]]) == if s[m] != 0 then [s[m]] else [] by { assert [s[m]][1..] == []; }
      at := CompactPlaces(s[..m]);
      PlacesMore(s, Compact(s[..m]), at);
      if s[m] != 0 { at := at + [m]; }
    }
  }

  lemma PlacesMore(s: seq<nat>, c: seq<nat>, at: seq<nat>)
    requires s != [] && Places(s[..|s| - 1], c, at)
    ensures var m := |s| - 1;
            if s[m] != 0 then Places(s, c + [s[m]], at + [m]) else Places(s, c, at)
  {
    var m := |s| - 1;
    var t, more := s[..m], at + [m];
    forall i | 0 <= i < m && s[i] != 0 ensures i in at && i in more { assert t[i] == s[i]; }
    assert more[|at|] == m;
  }

  function Ones(g: seq<bool>): nat
  {
    if g == [] then 0 else (if g[0] then 2 else 1) + Ones(g[1..])
  }

  /**
   * The merged line m takes the tiles of c from the front: tile k of m is two
   * equal neighbours of c if g[k], and then one more than either, or else one
   * tile of c as it is, which the next tile of c does not equal.
   */
  ghost predicate Groups(c: seq<nat>, m: seq<nat>, g: seq<bool>)
    requires |g| == |m|
  {
    && Ones(g) == |c|
    && forall k {:trigger g[k]} :: 0 <= k < |m| ==>
         var i := Ones(g[..k]);
         if g[k] then i + 1 < |c| && c[i] == c[i + 1] && m[k] == c[i] + 1
         else i < |c| && m[k] == c[i] && (i + 1 < |c| ==> c[i] != c[i + 1])
  }

  lemma {:induction false} OnesAppend(g: seq<bool>, h: seq<bool>)
    ensures Ones(g + h) == Ones(g) + Ones(h)
  {
    if g == [] {
      assert g + h == h;
    } else {
      assert (g + h)[1..] == g[1..] + h;
      OnesAppend(g[1..], h);
    }
  }

  /** One more group in front. */
  lemma GroupsMore(c: seq<nat>, m: seq<nat>, h: seq<bool>, two: bool)
    requires c != [] && (two <==> |c| > 1 && c[0] == c[1])
    requires |h| == |m| && Groups(c[if two then 2 else 1..], m, h)
    ensures Groups(c, [if two then c[0] + 1 else c[0]] + m, [two] + h)
  {
    hide Ones;
    var w := if two then 2 else 1;
    var g, n := [two] + h, [if two then c[0] + 1 else c[0]] + m;
    OnesOne(two);
    OnesAppend([two], h);
    forall k {:trigger g[k]} | 0 <= k < |g|
      ensures var i := Ones(g[..k]);
              if g[k] then i + 1 < |c| && c[i] == c[i + 1] && n[k] == c[i] + 1
              else i < |c| && n[k] == c[i] && (i + 1 < |c| ==> c[i] != c[i + 1])
    {
      if k == 0 {
        assert g[..0] == [];
      } else {
        assert g[..k] == [two] + h[..k - 1] && h[k - 1] == g[k];
        OnesAppend([two], h[..k - 1]);
      }
    }
  }

  lemma OnesOne(two: bool)
    ensures Ones([]) == 0 && Ones([two]) == if two then 2 else 1
  {
  }

  /** Each tile merges at most once, and from the front. */
  lemma {:induction false} MergeGroups(c: seq<nat>) returns (g: seq<bool>)
    ensures |g| == |Merge(c)| && Groups(c, Merge(c), g)
  {
    if |c| == 0 {
      g := [];
    } else {
      var two := |c| > 1 && c[0] == c[1];
      g := MergeGroups(c[if two then 2 else 1..]);
      GroupsMore(c, Merge(c[if two then 2 else 1..]), g, two);
      g := [two] + g;
      MergeFront(c);
    }
  }

  lemma MergeFront(c: seq<nat>)
    requires c != []
    ensures var two := |c| > 1 && c[0] == c[1];
            Merge(c) == [if two then c[0] + 1 else c[0]] + Merge(c[if two then 2 else 1..])
  {
  }

  /** A fresh tile does not merge again. */
  lemma OneMerge()
    ensures Slid([1, 1, 2, 0]) == [2, 2, 0, 0]
  {
    var s := [1, 1, 2, 0];
    assert s[1..] == [1, 2, 0] && s[1..][1..] == [2, 0] && [2, 0][1..] == [0] && [0][1..] == [];
    var c := [1, 1, 2];
    assert Compact([2, 0]) == [2] && Compact([1, 2, 0]) == [1, 2] && Compact(s) == c;
    assert c[2..] == [2] && Merge(c) == [2] + [2];
  }

  // ------------------------------------------------------------------ sums

  /** Tiles count once in each of these: their number, half their face value, and what making them from 2s scores. */
  datatype Measure = Count | Half | Worth

  function Weight(w: Measure, v: nat): nat
  {
    if v == 0 then 0 else
    match w
    case Count => 1
    case Half => Pow2(v - 1)
    case Worth => (v - 1) * Pow2(v)
  }

  function Total(w: Measure, s: seq<nat>): nat
  {
    if s == [] then 0 else Weight(w, s[0]) + Total(w, s[1..])
  }

  lemma {:induction false} TotalConcat(w: Measure, s: seq<nat>, t: seq<nat>)
    ensures Total(w, s + t) == Total(w, s) + Total(w, t)
  {
    if s == [] {
      assert s + t == t;
    } else {
      assert (s + t)[1..] == s[1..] + t;
      TotalConcat(w, s[1..], t);
    }
  }

  lemma {:induction false} TotalCompact(w: Measure, s: seq<nat>)
    ensures Total(w, Compact(s)) == Total(w, s)
  {
    if s != [] {
      TotalCompact(w, s[1..]);
      if s[0] != 0 { assert Compact(s)[1..] == Compact(s[1..]); } else { assert Compact(s) == Compact(s[1..]); }
    }
  }

  lemma {:induction false} TotalZeros(w: Measure, z: seq<nat>)
    requires forall i :: 0 <= i < |z| ==> z[i] == 0
    ensures Total(w, z) == 0
  {
    if z != [] { TotalZeros(w, z[1..]); }
  }

  /** A merge keeps the face value, scores the new tile, and takes one tile off. */
  lemma {:induction false} TotalMerge(c: seq<nat>)
    requires forall i :: 0 <= i < |c| ==> c[i] != 0
    ensures Total(Half, Merge(c)) == Total(Half, c)
    ensures Total(Worth, Merge(c)) == Total(Worth, c) + Points(c)
    ensures Total(Count, Merge(c)) <= Total(Count, c)
  {
    if |c| >= 2 {
      if c[0] == c[1] {
        TotalMerge(c[2..]);
        assert c[1..][1..] == c[2..];
        MergedTile(c[0]);
        assert Merge(c)[1..] == Merge(c[2..]);
      } else {
        TotalMerge(c[1..]);
        assert Merge(c)[1..] == Merge(c[1..]);
      }
    }
  }

  lemma MergedTile(v: nat)
    requires v != 0
    ensures Weight(Half, v + 1) == 2 * Weight(Half, v)
    ensures Weight(Worth, v + 1) == 2 * Weight(Worth, v) + Pow2(v + 1)
  {
    assert Weight(Worth, v + 1) == v * (2 * Pow2(v)) == 2 * ((v - 1) * Pow2(v)) + 2 * Pow2(v);
  }

  /** Sliding a line. */
  lemma TotalSlid(s: seq<nat>)
    ensures Total(Half, Slid(s)) == Total(Half, s)
    ensures Total(Worth, Slid(s)) == Total(Worth, s) + Points(Compact(s))
    ensures Total(Count, Slid(s)) <= Total(Count, s)
  {
    var c := Compact(s);
    var z := Zeros(|s| - |Merge(c)|);
    TotalMerge(c);
    forall w: Measure ensures Total(w, Slid(s)) == Total(w, Merge(c)) && Total(w, c) == Total(w, s) {
      TotalCompact(w, s);
      TotalConcat(w, Merge(c), z);
      TotalZeros(w, z);
    }
  }

  // ------------------------------------------------------- the loop in place

  /** The first position whose tile may still merge. */
  function Open(stop: nat, k: nat): nat
    requires stop <= k
  {
    if stop == k then k else k - 1
  }

  /** slideArray has dealt with the first x cells of s: cur holds k tiles, then zeros, then the rest of s. */
  ghost predicate Sliding(s: seq<nat>, cur: seq<nat>, x: nat, k: nat, stop: nat, points: nat)
  {
    && |cur| == |s| && stop <= k <= x <= |s| && cur[x..] == s[x..]
    && (forall i :: 0 <= i < k ==> cur[i] != 0) && (forall i :: k <= i < x ==> cur[i] == 0)
    && (stop == k ==> k < x || x == 0)
    && var p := Open(stop, k);
       && Merge(Compact(s)) == cur[..p] + Merge(cur[p..k] + Compact(s[x..]))
       && Points(Compact(s)) == points + Points(cur[p..k] + Compact(s[x..]))
  }

  lemma SlideStart(s: seq<nat>)
    ensures Sliding(s, s, 0, 0, 0, 0)
  {
    assert s[0..] == s && s[0..0] + Compact(s) == Compact(s) && s[..0] + Merge(Compact(s)) == Merge(Compact(s));
  }

  lemma SlideSkip(s: seq<nat>, cur: seq<nat>, x: nat, k: nat, stop: nat, points: nat)
    requires Sliding(s, cur, x, k, stop, points) && x < |s| && cur[x] == 0
    ensures Sliding(s, cur, x + 1, k, stop, points)
  {
    assert s[x] == cur[x..][0] && s[x..][1..] == s[x + 1..] && cur[x..][1..] == cur[x + 1..];
    assert Compact(s[x..]) == Compact(s[x + 1..]);
  }

  /** The next tile of the rest. */
  lemma RestAt(s: seq<nat>, cur: seq<nat>, x: nat)
    requires x < |s| == |cur| && cur[x..] == s[x..] && cur[x] != 0
    ensures s[x] == cur[x] && cur[x + 1..] == s[x + 1..]
    ensures Compact(s[x..]) == [cur[x]] + Compact(s[x + 1..])
  {
    assert s[x] == s[x..][0] && cur[x] == cur[x..][0];
    assert s[x..][1..] == s[x + 1..] && cur[x..][1..] == cur[x + 1..];
  }

  lemma MergeKeep(q: seq<nat>, v: nat, rest: seq<nat>)
    requires |q| <= 1 && (q != [] ==> q[0] != v)
    ensures Merge(q + ([v] + rest)) == q + Merge([v] + rest) && Points(q + ([v] + rest)) == Points([v] + rest)
  {
    var c := q + ([v] + rest);
    if q == [] {
      assert c == [v] + rest;
    } else {
      assert c[0] == q[0] && c[1] == v && c[1..] == [v] + rest && q == [q[0]];
    }
  }

  lemma MergeJoin(v: nat, rest: seq<nat>)
    ensures Merge([v] + ([v] + rest)) == [v + 1] + Merge(rest)
    ensures Points([v] + ([v] + rest)) == Pow2(v + 1) + Points(rest)
  {
    var c := [v] + ([v] + rest);
    assert c[0] == v && c[1] == v && c[2..] == rest;
  }

  lemma SlideMove(s: seq<nat>, cur: seq<nat>, x: nat, k: nat, stop: nat, points: nat)
    requires Sliding(s, cur, x, k, stop, points) && x < |s| && cur[x] != 0
    requires !(stop < k && cur[k - 1] == cur[x])
    ensures var cur' := if k == x then cur else cur[k := cur[x]][x := 0];
            Sliding(s, cur', x + 1, k + 1, stop, points)
  {
    hide Merge, Points, Compact;
    var cur' := if k == x then cur else cur[k := cur[x]][x := 0];
    var v, rest, p := cur[x], Compact(s[x + 1..]), Open(stop, k);
    RestAt(s, cur, x);
    MergeKeep(cur[p..k], v, rest);
    assert cur'[x + 1..] == cur[x + 1..];
    assert cur'[..k] == cur[..p] + cur[p..k] && cur'[k..k + 1] == [v];
    assert cur[..p] + (cur[p..k] + Merge([v] + rest)) == cur'[..k] + Merge([v] + rest);
  }

  lemma SlideMerge(s: seq<nat>, cur: seq<nat>, x: nat, k: nat, stop: nat, points: nat)
    requires Sliding(s, cur, x, k, stop, points) && x < |s| && cur[x] != 0
    requires stop < k && cur[k - 1] == cur[x]
    ensures Sliding(s, cur[k - 1 := cur[x] + 1][x := 0], x + 1, k, k, points + Pow2(cur[x] + 1))
  {
    hide Merge, Points, Compact, Pow2;
    var cur' := cur[k - 1 := cur[x] + 1][x := 0];
    var v, rest, p := cur[x], Compact(s[x + 1..]), k - 1;
    RestAt(s, cur, x);
    MergeJoin(v, rest);
    assert cur[p..k] == [v];
    assert cur'[x + 1..] == cur[x + 1..];
    assert cur'[..k] == cur[..p] + [v + 1] && cur'[k..k] + rest == rest;
    assert cur[..p] + ([v + 1] + Merge(rest)) == cur'[..k] + Merge(rest);
  }

  lemma MergeShort(q: seq<nat>)
    requires |q| <= 1
    ensures Merge(q + Compact([])) == q && Points(q + Compact([])) == 0
  {
    assert q + Compact([]) == q;
  }

  lemma SlideEnd(s: seq<nat>, cur: seq<nat>, k: nat, stop: nat, points: nat)
    requires Sliding(s, cur, |s|, k, stop, points)
    ensures cur == Slid(s) && points == Points(Compact(s))
  {
    hide Merge, Points, Compact;
    var p := Open(stop, k);
    assert s[|s|..] == [];
    MergeShort(cur[p..k]);
    assert cur[..p] + cur[p..k] == cur[..k];
    assert cur == cur[..k] + Zeros(|s| - k);
  }

  /** A settled line gives the loop nothing to do. */
  lemma SlideIdle(s: seq<nat>, x: nat, k: nat, stop: nat, points: nat)
    requires Sliding(s, s, x, k, stop, points) && Settled(s) && x < |s| && s[x] != 0
    ensures k == x && !(stop < k && s[k - 1] == s[x])
  {
    if k < x { SettledOrder(s, k, x); }
  }

  lemma SettledOrder(s: seq<nat>, i: nat, j: nat)
    requires Settled(s) && i < j < |s| && s[j] != 0
    ensures s[i] != 0
  {
  }

  lemma SlideRange(s: seq<nat>, cur: seq<nat>, x: nat, k: nat, stop: nat, points: nat)
    requires Sliding(s, cur, x, k, stop, points)
    ensures stop <= k <= x <= |cur| == |s| && (stop == k ==> k < x || x == 0)
    ensures (forall i :: 0 <= i < k ==> cur[i] != 0) && (forall i :: k <= i < x ==> cur[i] == 0)
  {
  }

  /** findTarget: where the tile at x goes. */
  method FindTarget(a: array<nat>, x: nat, stop: nat, ghost k: nat) returns (t: nat)
    requires x < a.Length && stop <= k <= x && a[x] != 0
    requires forall i :: k <= i < x ==> a[i] == 0
    requires forall i :: 0 <= i < k ==> a[i] != 0
    requires stop == k ==> k < x || x == 0
    ensures t == if k > 0 && stop < k && a[k - 1] == a[x] then k - 1 else k
  {
    if x == 0 { return x; }
    t := x - 1;
    while true
      invariant (k <= t || k == t + 1) && t < x
      invariant k == t + 1 ==> stop < k
      decreases t
    {
      if a[t] != 0 {
        if a[t] != a[x] { return t + 1; }
        return t;
      } else if t == stop {
        return t;
      }
      t := t - 1;
    }
  }

  /** slideArray: slide one line to its front, in place. */
  method SlideArray(a: array<nat>) returns (success: bool, points: nat)
    modifies a
    ensures a[..] == Slid(old(a[..])) && points == Points(Compact(old(a[..])))
    ensures success <==> a[..] != old(a[..])
  {
    hide Sliding, Settled, Slid;
    ghost var s, k := a[..], 0;
    var stop := 0;
    success, points := false, 0;
    SlideStart(s);
    for x := 0 to a.Length
      invariant Sliding(s, a[..], x, k, stop, points)
      invariant if success then !Settled(s) else a[..] == s
    {
      SlideRange(s, a[..], x, k, stop, points);
      if a[x] != 0 {
        var t := FindTarget(a, x, stop, k);
        if !success && Settled(s) { SlideIdle(s, x, k, stop, points); }
        if t != x {
          if a[t] == 0 {
            SlideMove(s, a[..], x, k, stop, points);
            a[t] := a[x];
            k := k + 1;
          } else {
            SlideMerge(s, a[..], x, k, stop, points);
            a[t] := a[t] + 1;
            points := points + Pow2(a[t]);
            stop := t + 1;
          }
          a[x] := 0;
          success := true;
        } else {
          SlideMove(s, a[..], x, k, stop, points);
          k := k + 1;
        }
      } else {
        SlideSkip(s, a[..], x, k, stop, points);
      }
    }
    SlideEnd(s, a[..], k, stop, points);
    SlidSettled(s);
  }
}
