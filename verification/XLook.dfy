/**
 * Reading an XArray: the path from the head to an index, the canonical shape
 * of a tree, and what the searches may skip.
 */
module XLook {
  import opened Memory
  import opened Radix
  import opened XTree

  // ------------------------------------------------------------------ paths

  ghost predicate Covers(t: Tree, a: Addr, i: nat)
  {
    a in t.nodes && a in t.pfx && Pfx(i, t.nodes[a].level + 1) == t.pfx[a]
  }

  lemma RootCovers(t: Tree, i: nat)
    requires Links(t) && t.head.Child? && Pfx(i, RootLevel(t) + 1) == 0
    ensures Covers(t, t.head.addr, i)
  {
    assert NodeOk(t, t.head.addr);
  }

  /** Indices above the range of the root are empty and unmarked. */
  lemma BeyondRoot(t: Tree, i: nat)
    requires Links(t) && t.head.Child? && Pfx(i, RootLevel(t) + 1) != 0
    ensures Get(t, i) == Null && forall m :: !MarkAt(t, i, m)
    ensures (0, i / 64) !in t.dir
  {
    if (0, i / 64) in t.dir {
      assert Pfx(i, 1) == i / 64;
      var l := RootLevel(t);
      PathUp(t, i, 0, l);
      var a := t.dir[(l, Pfx(i, l + 1))];
      assert NodeOk(t, a);
      if t.nodes[a].parent.Some? {
        ParentFacts(t, a);
        LevelBound(t, t.nodes[a].parent.value);
      }
    }
  }

  /** One step of a descent. */
  lemma Descend(t: Tree, a: Addr, i: nat)
    requires Links(t) && Covers(t, a, i)
    ensures t.nodes[a].level <= TOP && |t.nodes[a].slots| == 64
    ensures var e := t.nodes[a].slots[Digit(i, t.nodes[a].level)];
            && 64 * t.pfx[a] + Digit(i, t.nodes[a].level) == Pfx(i, t.nodes[a].level)
            && (e.Child? ==> t.nodes[a].level > 0 && Covers(t, e.addr, i)
                             && t.nodes[e.addr].level == t.nodes[a].level - 1)
            && (t.nodes[a].level == 0 ==> Get(t, i) == e && !e.Child?)
            && (!e.Child? ==> Get(t, i) == e)
            && (!e.Child? && t.nodes[a].level > 0 ==> e == Null)
  {
    assert NodeOk(t, a) && SlotOk(t, a, Digit(i, t.nodes[a].level)) && IsPosition(t, a);
    var e := t.nodes[a].slots[Digit(i, t.nodes[a].level)];
    if !e.Child? && t.nodes[a].level > 0 {
      NoPath(t, a, i);
    } else if t.nodes[a].level == 0 {
      assert Pfx(i, 1) == i / 64;
    }
  }

  /** Below an empty slot there is no leaf. */
  lemma NoPath(t: Tree, a: Addr, i: nat)
    requires Links(t) && Covers(t, a, i) && t.nodes[a].level > 0
    requires |t.nodes[a].slots| == 64 && !t.nodes[a].slots[Digit(i, t.nodes[a].level)].Child?
    ensures (0, i / 64) !in t.dir && Get(t, i) == Null
  {
    var l := t.nodes[a].level;
    VacantChild(t, a, Digit(i, l));
    LevelBound(t, a);
    if (0, i / 64) in t.dir {
      assert Pfx(i, 1) == i / 64;
      PathUp(t, i, 0, l - 1);
    }
  }

  /** If i is present, every node that covers it has the next node of the path, or the entry, in its slot. */
  lemma PathSlot(t: Tree, a: Addr, i: nat)
    requires Links(t) && Covers(t, a, i) && Get(t, i) != Null
    ensures |t.nodes[a].slots| == 64 && t.nodes[a].slots[Digit(i, t.nodes[a].level)] != Null
  {
    Descend(t, a, i);
  }

  // -------------------------------------------------------- canonical shape

  /** No node is empty, and the root has an entry besides slot 0. */
  ghost predicate Canon(t: Tree)
  {
    && HeadOk(t)
    && (forall a :: a in t.nodes ==> t.nodes[a].count > 0)
    && (t.head.Child? ==> !OnlyFirst(t.nodes[t.head.addr]))
  }

  /** The same, except that the nodes needed for index i may be there already. */
  ghost predicate CanonBut(t: Tree, i: nat)
  {
    && HeadOk(t)
    && (forall a :: a in t.nodes ==> t.nodes[a].count > 0 || Covers(t, a, i))
    && (t.head.Child? ==> !OnlyFirst(t.nodes[t.head.addr]) || Pfx(i, RootLevel(t)) > 0)
  }

  lemma CanonWeaken(t: Tree, i: nat)
    requires HeadOk(t) && Canon(t)
    ensures CanonBut(t, i)
  {
  }

  /** Once i is present, the nodes made for it are no longer superfluous. */
  lemma CanonClose(t: Tree, i: nat)
    requires XInv(t) && CanonBut(t, i) && Get(t, i) != Null
    ensures Canon(t)
  {
    forall a | a in t.nodes ensures t.nodes[a].count > 0 {
      if t.nodes[a].count == 0 {
        PathSlot(t, a, i);
        assert XNode(t, a);
        TallyZero(t.nodes[a].slots, false);
      }
    }
    if t.head.Child? && OnlyFirst(t.nodes[t.head.addr]) {
      var l := RootLevel(t);
      if Pfx(i, l + 1) != 0 { BeyondRoot(t, i); }
      RootCovers(t, i);
      PathSlot(t, t.head.addr, i);
    }
  }

  lemma CanonHang(t: Tree, p: Addr, o: nat, c: Addr, i: nat)
    requires XInv(t) && CanHang(t, p, o, c) && Covers(t, p, i) && o == Digit(i, t.nodes[p].level)
    requires CanonBut(t, i) && HeadOk(HangFresh(t, p, o, c))
    ensures CanonBut(HangFresh(t, p, o, c), i) && Covers(HangFresh(t, p, o, c), c, i)
  {
    var t' := HangFresh(t, p, o, c);
    forall a | a in t'.nodes ensures t'.nodes[a].count > 0 || Covers(t', a, i) {
      if a != c { assert t.nodes[a].count > 0 || Covers(t, a, i); }
    }
    assert NodeOk(t, t.head.addr);
    if !OnlyFirst(t.nodes[t.head.addr]) {
      var j :| 1 <= j < 64 && t.nodes[t.head.addr].slots[j] != Null;
      assert t'.nodes[t.head.addr].slots[j] != Null;
    }
  }

  lemma CanonExpand(t: Tree, c: Addr, level: nat, i: nat)
    requires XInv(t) && CanExpand(t, c, level) && CanonBut(t, i) && HeadOk(Expand(t, c, level))
    requires if t.head.Child? then Pfx(i, RootLevel(t) + 1) > 0 else i > 0
    ensures CanonBut(Expand(t, c, level), i)
  {
    var t' := Expand(t, c, level);
    assert Pfx(i, 0) == i;
    forall a | a in t'.nodes ensures t'.nodes[a].count > 0 || Covers(t', a, i) {
      if a != c { assert t.nodes[a].count > 0 || Covers(t, a, i); }
    }
  }

  lemma CanonFirstRoot(t: Tree, c: Addr, level: nat, i: nat)
    requires Links(t) && t.head == Null && Pfx(i, level) > 0 && Pfx(i, level + 1) == 0
    requires HeadOk(FirstRoot(t, c, FreshNode(level, None, 0)))
    ensures CanonBut(FirstRoot(t, c, FreshNode(level, None, 0)), i)
  {
  }

  /** No node is empty, except perhaps a; and the root is wide enough, unless it is a. */
  ghost predicate CanonAt(t: Tree, a: Addr)
  {
    && HeadOk(t)
    && (forall x :: x in t.nodes && x != a ==> t.nodes[x].count > 0)
    && (t.head.Child? && t.head.addr != a ==> !OnlyFirst(t.nodes[t.head.addr]))
  }

  /** A non-empty root that xas_shrink would not replace. */
  predicate Settled(n: Node)
  {
    |n.slots| == 64 && (n.count != 1 || n.slots[0] == Null || (!n.slots[0].Child? && n.level > 0))
  }

  lemma CanonSettled(t: Tree)
    requires XInv(t) && t.head.Child? && CanonAt(t, t.head.addr)
    requires t.nodes[t.head.addr].count > 0 && Settled(t.nodes[t.head.addr])
    ensures Canon(t)
  {
    var r := t.head.addr;
    var n := t.nodes[r];
    assert XNode(t, r) && NodeOk(t, r) && SlotOk(t, r, 0);
    TallyZero(n.slots, false);
    if n.slots[0] != Null { TallyOne(n.slots); }
  }

  lemma CanonPrune(t: Tree, a: Addr)
    requires XInv(t) && CanPrune(t, a) && CanonAt(t, a) && XInv(Prune(t, a))
    ensures CanonAt(Prune(t, a), t.nodes[a].parent.value)
  {
    PruneFacts(t, a);
    assert NodeOk(t, a);
  }

  lemma CanonPop(t: Tree)
    requires XInv(t) && CanPop(t) && CanonAt(t, t.head.addr) && HeadOk(PopRoot(t))
    ensures CanonAt(PopRoot(t), PopRoot(t).head.addr)
    ensures PopRoot(t).nodes[PopRoot(t).head.addr].count > 0
  {
    assert NodeOk(t, t.head.addr) && SlotOk(t, t.head.addr, 0);
  }

  // ---------------------------------------------- how many nodes are missing

  ghost function PathCount(dir: map<(nat, nat), Addr>, i: nat, n: nat): (c: nat)
    ensures c <= n
  {
    if n == 0 then 0
    else PathCount(dir, i, n - 1) + (if (n - 1, Pfx(i, n)) in dir then 1 else 0)
  }

  lemma {:induction false} PathCountMono(dir: map<(nat, nat), Addr>, dir': map<(nat, nat), Addr>, i: nat, n: nat)
    requires dir.Keys <= dir'.Keys
    ensures PathCount(dir, i, n) <= PathCount(dir', i, n)
  {
    if n > 0 { PathCountMono(dir, dir', i, n - 1); }
  }

  lemma {:induction false} PathCountMore(dir: map<(nat, nat), Addr>, i: nat, l: nat, c: Addr, n: nat)
    requires l < n && (l, Pfx(i, l + 1)) !in dir
    ensures PathCount(dir, i, n) < PathCount(dir[(l, Pfx(i, l + 1)) := c], i, n)
  {
    if l < n - 1 {
      PathCountMore(dir, i, l, c, n - 1);
    } else {
      PathCountMono(dir, dir[(l, Pfx(i, l + 1)) := c], i, n - 1);
    }
  }

  ghost function Height(t: Tree): nat
  {
    if t.head.Child? && t.head.addr in t.nodes then t.nodes[t.head.addr].level + 1 else 0
  }

  /** Drops with every node that a store at i adds. */
  ghost function Fuel(t: Tree, i: nat): int
  {
    12 * (11 - Height(t)) + 11 - PathCount(t.dir, i, 11)
  }

  lemma FuelNat(t: Tree, i: nat)
    requires Links(t)
    ensures Fuel(t, i) >= 0
  {
    if t.head.Child? { assert NodeOk(t, t.head.addr); }
  }

  lemma FuelHang(t: Tree, p: Addr, o: nat, c: Addr, i: nat)
    requires XInv(t) && CanHang(t, p, o, c) && Covers(t, p, i) && o == Digit(i, t.nodes[p].level)
    ensures Fuel(HangFresh(t, p, o, c), i) < Fuel(t, i)
  {
    VacantChild(t, p, o);
    assert NodeOk(t, p);
    PathCountMore(t.dir, i, t.nodes[p].level - 1, c, 11);
  }

  lemma FuelExpand(t: Tree, c: Addr, level: nat, i: nat)
    requires XInv(t) && CanExpand(t, c, level)
    ensures Fuel(Expand(t, c, level), i) < Fuel(t, i)
  {
    PathCountMono(t.dir, Expand(t, c, level).dir, i, 11);
  }

  lemma FuelFirst(t: Tree, c: Addr, level: nat, i: nat)
    requires Links(t) && t.head == Null
    ensures Fuel(FirstRoot(t, c, FreshNode(level, None, 0)), i) < Fuel(t, i)
  {
    var t' := FirstRoot(t, c, FreshNode(level, None, 0));
    assert t.dir.Keys == {};
    PathCountMono(t.dir, t'.dir, i, 11);
  }

  /** No index of a machine word reaches above level 10. */
  lemma PfxTop(i: nat)
    requires i <= MAX_INDEX
    ensures Pfx(i, 11) == 0
  {
    PfxBelowShl(i, 1, 11);
    assert Shl(1, 2) == 0x1000;
    assert Shl(1, 4) == 0x100_0000;
    assert Shl(1, 6) == 0x10_0000_0000;
    assert Shl(1, 8) == 0x1_0000_0000_0000;
    assert Shl(1, 10) == 0x1000_0000_0000_0000;
  }

  // --------------------------------------------------------------- searches

  const WORD: nat := 0x1_0000_0000_0000_0000

  /** Where slot o of node a begins, not truncated to a machine word. */
  ghost function Start(t: Tree, a: Addr, o: nat): nat
    requires a in t.nodes && a in t.pfx
  {
    Shl(64 * t.pfx[a] + o, t.nodes[a].level)
  }

  /** An empty slot has nothing in its range. */
  lemma EmptySlot(t: Tree, a: Addr, o: nat, j: nat)
    requires Links(t) && a in t.nodes && o < 64 == |t.nodes[a].slots| && t.nodes[a].slots[o] == Null
    requires Start(t, a, o) <= j < Start(t, a, o + 1)
    ensures Get(t, j) == Null
  {
    var l := t.nodes[a].level;
    PfxBelowShl(j, 64 * t.pfx[a] + o, l);
    PfxBelowShl(j, 64 * t.pfx[a] + o + 1, l);
    assert Covers(t, a, j);
    Descend(t, a, j);
  }

  /** A clear mark bit has no marked entry in its range. */
  lemma {:induction false} UnmarkedSlot(t: Tree, a: Addr, o: nat, m: nat, j: nat)
    requires XInv(t) && a in t.nodes && o < 64 && m < MARKS && !Bit(t, a, o, m)
    requires Pfx(j, t.nodes[a].level) == 64 * t.pfx[a] + o
    ensures !MarkAt(t, j, m)
    decreases if a in t.nodes then t.nodes[a].level else 0
  {
    var l := t.nodes[a].level;
    assert Covers(t, a, j);
    Descend(t, a, j);
    assert NodeOk(t, a) && XNode(t, a) && SumOk(t, a, o, m) && IsPosition(t, a);
    var e := t.nodes[a].slots[o];
    if e.Child? {
      assert XNode(t, e.addr);
      assert !Bit(t, e.addr, Digit(j, l - 1), m);
      Descend(t, e.addr, j);
      UnmarkedSlot(t, e.addr, Digit(j, l - 1), m, j);
    } else if l > 0 {
      NoPath(t, a, j);
    } else {
      assert Pfx(j, 1) == j / 64;
    }
  }

  /** A set mark bit has a marked entry in its range: with UnmarkedSlot, what a summary bit means. */
  lemma {:induction false} MarkedSlot(t: Tree, a: Addr, o: nat, m: nat) returns (j: nat)
    requires XInv(t) && a in t.nodes && o < 64 && m < MARKS && Bit(t, a, o, m)
    ensures Pfx(j, t.nodes[a].level) == 64 * t.pfx[a] + o && MarkAt(t, j, m)
    decreases if a in t.nodes then t.nodes[a].level else 0
  {
    assert NodeOk(t, a) && SlotOk(t, a, o) && XNode(t, a) && SumOk(t, a, o, m) && IsPosition(t, a);
    var e := t.nodes[a].slots[o];
    if e.Child? {
      assert XNode(t, e.addr);
      var o' :| o' in t.nodes[e.addr].marks[m];
      j := MarkedSlot(t, e.addr, o', m);
    } else {
      j := 64 * t.pfx[a] + o;
    }
  }

  /** Every node counts its non-null slots, and the value entries among them. */
  lemma Counts(t: Tree, a: Addr)
    requires XInv(t) && a in t.nodes
    ensures var s := t.nodes[a].slots;
            && |s| == 64 && t.nodes[a].count == |set o | 0 <= o < |s| && s[o] != Null|
            && t.nodes[a].nrValues == |set o | 0 <= o < |s| && s[o].Value?|
  {
    var s := t.nodes[a].slots;
    assert XNode(t, a);
    TallyIs(s, false);
    TallyIs(s, true);
    assert CountedAt(s, false) == set o | 0 <= o < |s| && s[o] != Null;
    assert CountedAt(s, true) == set o | 0 <= o < |s| && s[o].Value?;
  }

  /** The three readings of a mark agree: a summary bit is set iff some entry below it is marked. */
  lemma MarkSummary(t: Tree, a: Addr, o: nat, m: nat)
    requires XInv(t) && a in t.nodes && o < 64 && m < MARKS
    ensures Bit(t, a, o, m) <==>
            exists j :: Pfx(j, t.nodes[a].level) == 64 * t.pfx[a] + o && MarkAt(t, j, m)
  {
    if Bit(t, a, o, m) {
      var j := MarkedSlot(t, a, o, m);
    } else {
      forall j | Pfx(j, t.nodes[a].level) == 64 * t.pfx[a] + o ensures !MarkAt(t, j, m) {
        UnmarkedSlot(t, a, o, m, j);
      }
    }
  }

  /** An array flag is set iff some entry is marked, and marked entries are present. */
  lemma FlagSummary(t: Tree, m: nat)
    requires XInv(t) && m < MARKS
    ensures m in t.flags <==> exists j :: MarkAt(t, j, m)
    ensures forall j :: MarkAt(t, j, m) ==> Get(t, j) != Null
  {
    assert FlagOk(t, m);
    if t.head.Child? {
      var r := t.head.addr;
      assert XNode(t, r) && NodeOk(t, r);
      if HasMark(t, r, m) {
        var o :| o in t.nodes[r].marks[m];
        var j := MarkedSlot(t, r, o, m);
      } else {
        forall j ensures !MarkAt(t, j, m) {
          if Pfx(j, RootLevel(t) + 1) != 0 {
            BeyondRoot(t, j);
          } else {
            UnmarkedSlot(t, r, Digit(j, RootLevel(t)), m, j);
          }
        }
      }
      forall j | MarkAt(t, j, m) ensures Get(t, j) != Null {
        assert XNode(t, t.dir[(0, j / 64)]);
      }
    } else if m in t.flags {
      assert MarkAt(t, 0, m);
    }
  }

  // ----------------------------------------------- positions of the searches

  /** The shifts of the largest index. */
  lemma PfxMaxValues()
    ensures Pfx(MAX_INDEX, 1) == 0x3FFFFFFFFFFFFFF
    ensures Pfx(MAX_INDEX, 2) == 0xFFFFFFFFFFFFF
    ensures Pfx(MAX_INDEX, 3) == 0x3FFFFFFFFFFF
    ensures Pfx(MAX_INDEX, 4) == 0xFFFFFFFFFF
    ensures Pfx(MAX_INDEX, 5) == 0x3FFFFFFFF
    ensures Pfx(MAX_INDEX, 6) == 0xFFFFFFF
    ensures Pfx(MAX_INDEX, 7) == 0x3FFFFF
    ensures Pfx(MAX_INDEX, 8) == 0xFFFF
    ensures Pfx(MAX_INDEX, 9) == 0x3FF
    ensures Pfx(MAX_INDEX, 10) == 0xF
    ensures Pfx(MAX_INDEX, 11) == 0x0
  {
    assert Pfx(MAX_INDEX, 2) == 0xFFFFFFFFFFFFF;
    assert Pfx(MAX_INDEX, 4) == 0xFFFFFFFFFF;
    assert Pfx(MAX_INDEX, 6) == 0xFFFFFFF;
    assert Pfx(MAX_INDEX, 8) == 0xFFFF;
    assert Pfx(MAX_INDEX, 10) == 0xF;
  }

  /** Below the top level the largest index ends in a full digit. */
  lemma {:induction false} PfxMax(l: nat)
    requires l <= TOP
    ensures Shl(Pfx(MAX_INDEX, l) + 1, l) == WORD
    ensures l < TOP ==> Pfx(MAX_INDEX, l) % 64 == 63
  {
    PfxMaxValues();
    if l > 0 {
      PfxMax(l - 1);
      ShlTimes(Pfx(MAX_INDEX, l) + 1, l - 1);
    }
  }

  /** A slot of a node of the array begins inside the range of a word, or at a multiple of it. */
  lemma StartRange(t: Tree, a: Addr, o: nat)
    requires XInv(t) && a in t.nodes && o <= 64
    ensures Start(t, a, o) <= 5 * WORD
    ensures o < 64 && (t.nodes[a].level < TOP || o <= 15) ==> Start(t, a, o) <= MAX_INDEX
    ensures o == 64 ==> Start(t, a, o) <= MAX_INDEX || Start(t, a, o) % WORD == 0
  {
    var l, p := t.nodes[a].level, t.pfx[a];
    assert XNode(t, a) && NodeOk(t, a);
    PfxMaxValues();
    if l == TOP {
      ShlStep(o, TOP);
    } else {
      PfxMax(l);
      PfxMax(l + 1);
      PfxBelowShl(MAX_INDEX, 64 * p + o, l);
      if o == 64 && p == Pfx(MAX_INDEX, l + 1) {
        ShlTimes(p + 1, l);
      } else {
        assert 64 * p + o <= Pfx(MAX_INDEX, l);
      }
    }
  }

  lemma ShlStep(o: nat, l: nat)
    requires o <= 64 && l == TOP
    ensures Shl(o, l) == o * 0x1000_0000_0000_0000
  {
    assert Shl(o, 1) == 64 * Shl(o, 0);
    assert Shl(o, 2) == 64 * Shl(o, 1);
    assert Shl(o, 3) == 64 * Shl(o, 2);
    assert Shl(o, 4) == 64 * Shl(o, 3);
    assert Shl(o, 5) == 64 * Shl(o, 4);
    assert Shl(o, 6) == 64 * Shl(o, 5);
    assert Shl(o, 7) == 64 * Shl(o, 6);
    assert Shl(o, 8) == 64 * Shl(o, 7);
    assert Shl(o, 9) == 64 * Shl(o, 8);
    assert Shl(o, 10) == 64 * Shl(o, 9);
  }

  /** Positions inside slot o are the indices whose digits lead there. */
  lemma InSlot(t: Tree, a: Addr, o: nat, j: nat)
    requires a in t.nodes && a in t.pfx && o < 64
    ensures Start(t, a, o) <= j < Start(t, a, o + 1) <==> Pfx(j, t.nodes[a].level) == 64 * t.pfx[a] + o
    ensures Start(t, a, o) <= j < Start(t, a, o + 1) ==>
              Pfx(j, t.nodes[a].level + 1) == t.pfx[a] && Digit(j, t.nodes[a].level) == o
    ensures Start(t, a, o) < Start(t, a, o + 1)
  {
    var l, q := t.nodes[a].level, 64 * t.pfx[a] + o;
    PfxBelowShl(j, q, l);
    PfxBelowShl(j, q + 1, l);
    PfxBelowShl(Shl(q, l), q, l);
    PfxBelowShl(Shl(q, l), q + 1, l);
    ShlGrows(q, l);
  }

  lemma {:induction false} ShlGrows(p: nat, l: nat)
    ensures Shl(p, l) < Shl(p + 1, l)
  {
    if l > 0 { ShlGrows(p, l - 1); }
  }

  lemma {:induction false} SlotsGrow(t: Tree, a: Addr, o: nat, o': nat)
    requires a in t.nodes && a in t.pfx && o <= o'
    ensures Start(t, a, o) <= Start(t, a, o')
    decreases o'
  {
    if o < o' {
      SlotsGrow(t, a, o, o' - 1);
      ShlGrows(64 * t.pfx[a] + o' - 1, t.nodes[a].level);
    }
  }

  /** xas_find_chunk and radix_tree_find_next_bit: the least set bit at or above from, or 64. */
  function NextBit(s: set<nat>, from: nat): (o: nat)
    ensures from <= 64 ==> from <= o <= 64
    ensures o < 64 ==> o in s
    ensures forall k :: from <= k < o && k < 64 ==> k !in s
    decreases 64 - from
  {
    if from >= 64 then 64 else if from in s then from else NextBit(s, from + 1)
  }

  /** xas_move_index in 64-bit arithmetic. */
  function MoveIndex(index: nat, level: nat, o: nat): nat
  {
    (Shl(Pfx(index, level + 1), level + 1) + Shl(o, level)) % WORD
  }

  lemma MoveIndexStart(t: Tree, a: Addr, index: nat, o: nat)
    requires Covers(t, a, index)
    ensures MoveIndex(index, t.nodes[a].level, o) == Start(t, a, o) % WORD
  {
    var l, p := t.nodes[a].level, t.pfx[a];
    ShlTimes(p, l);
    ShlSum(64 * p, o, l);
  }

  lemma {:induction false} ShlSum(p: nat, q: nat, l: nat)
    ensures Shl(p + q, l) == Shl(p, l) + Shl(q, l)
  {
    if l > 0 { ShlSum(p, q, l - 1); }
  }

  /** The truncated position of a slot still lies in its node. */
  lemma WrappedIn(t: Tree, a: Addr, o: nat)
    requires XInv(t) && a in t.nodes && o < 64
    ensures a in t.pfx && Covers(t, a, Start(t, a, o) % WORD)
    ensures t.nodes[a].level == 0 ==> Start(t, a, o) == 64 * t.pfx[a] + o <= MAX_INDEX
  {
    NodeInDir(t, a);
    hide XInv, Covers, Start;
    StartRange(t, a, o);
    StartCovers(t, a, o);
    if t.nodes[a].level == TOP { TopCovers(t, a, Start(t, a, o) % WORD); }
  }

  lemma NodeInDir(t: Tree, a: Addr)
    requires XInv(t) && a in t.nodes
    ensures a in t.pfx && t.nodes[a].level <= TOP
  {
    assert NodeOk(t, a);
  }

  lemma StartCovers(t: Tree, a: Addr, o: nat)
    requires XInv(t) && a in t.nodes && o < 64
    ensures a in t.pfx && Covers(t, a, Start(t, a, o))
    ensures t.nodes[a].level == 0 ==> Start(t, a, o) == 64 * t.pfx[a] + o
  {
    assert NodeOk(t, a);
    InSlot(t, a, o, Start(t, a, o));
  }

  lemma TopCovers(t: Tree, a: Addr, i: nat)
    requires XInv(t) && a in t.nodes && t.nodes[a].level == TOP && i <= MAX_INDEX
    ensures Covers(t, a, i)
  {
    assert XNode(t, a) && NodeOk(t, a);
    PfxTop(i);
    PfxTop(MAX_INDEX);
  }

  /** Leaving a node at its end is entering its parent behind it. */
  lemma PopStart(t: Tree, a: Addr)
    requires Links(t) && a in t.nodes
    ensures match t.nodes[a].parent
            case Some(p) => p in t.nodes && Start(t, a, 64) == Start(t, p, t.nodes[a].offset + 1) && t.nodes[a].offset < 64
            case None => forall j: nat :: j >= Start(t, a, 64) ==> Get(t, j) == Null && forall m :: !MarkAt(t, j, m)
  {
    assert NodeOk(t, a);
    var l := t.nodes[a].level;
    ShlTimes(t.pfx[a] + 1, l);
    if t.nodes[a].parent.Some? {
      ParentFacts(t, a);
    } else {
      forall j: nat | j >= Start(t, a, 64) ensures Get(t, j) == Null && forall m :: !MarkAt(t, j, m) {
        PfxBelowShl(j, 64, l);
        BeyondRoot(t, j);
      }
    }
  }

  lemma DownStart(t: Tree, a: Addr, o: nat)
    requires Links(t) && a in t.nodes && o < 64 == |t.nodes[a].slots| && t.nodes[a].slots[o].Child?
    ensures var c := t.nodes[a].slots[o].addr;
            && c in t.nodes && c in t.pfx && t.nodes[a].level > 0 && t.nodes[c].level == t.nodes[a].level - 1
            && Start(t, c, 0) == Start(t, a, o) && Start(t, c, 64) == Start(t, a, o + 1)
            && t.pfx[c] == 64 * t.pfx[a] + o
  {
    assert NodeOk(t, a) && SlotOk(t, a, o);
    var c := t.nodes[a].slots[o].addr;
    ShlTimes(t.pfx[c], t.nodes[c].level);
    ShlTimes(t.pfx[c] + 1, t.nodes[c].level);
  }
}
