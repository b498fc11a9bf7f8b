/**
 * Reading the tree of the ID allocator: what the tags mean, and what the
 * search for a free ID may skip.
 */
module ILook {
  import opened Memory
  import opened Radix
  import opened XTree
  import opened XLook
  import opened ITree

  /** A clear tag has only live IDs in its range. */
  lemma {:induction false} TakenSlot(t: Tree, a: Addr, o: nat, j: nat)
    requires IBase(t) && a in t.nodes && o < 64 && !FreeBit(t, a, o)
    requires Pfx(j, t.nodes[a].level) == 64 * t.pfx[a] + o
    ensures !Free(t, j)
    decreases if a in t.nodes then t.nodes[a].level else 0
  {
    var l := t.nodes[a].level;
    assert Covers(t, a, j);
    Descend(t, a, j);
    assert NodeOk(t, a) && SlotOk(t, a, o) && INode(t.nodes[a]) && FSum(t, a, o) && IsPosition(t, a);
    var e := t.nodes[a].slots[o];
    if e.Child? {
      assert INode(t.nodes[e.addr]);
      assert !FreeBit(t, e.addr, Digit(j, l - 1));
      Descend(t, e.addr, j);
      TakenSlot(t, e.addr, Digit(j, l - 1), j);
    } else {
      assert Pfx(j, 1) == j / 64;
    }
  }

  /** A set tag has a free ID in its range. */
  lemma {:induction false} FreeSlot(t: Tree, a: Addr, o: nat) returns (j: nat)
    requires IBase(t) && a in t.nodes && o < 64 && FreeBit(t, a, o)
    ensures Pfx(j, t.nodes[a].level) == 64 * t.pfx[a] + o && Free(t, j)
    decreases if a in t.nodes then t.nodes[a].level else 0
  {
    assert NodeOk(t, a) && SlotOk(t, a, o) && INode(t.nodes[a]) && FSum(t, a, o) && IsPosition(t, a);
    var e := t.nodes[a].slots[o];
    if e.Child? {
      assert INode(t.nodes[e.addr]);
      var o' :| o' in t.nodes[e.addr].marks[FREE];
      j := FreeSlot(t, e.addr, o');
    } else if t.nodes[a].level == 0 {
      j := 64 * t.pfx[a] + o;
    } else {
      j := Start(t, a, o);
      InSlot(t, a, o, j);
      assert Covers(t, a, j);
      NoPath(t, a, j);
    }
  }

  /** What a tag means: some ID below it is free. */
  lemma FreeSummary(t: Tree, a: Addr, o: nat)
    requires IBase(t) && a in t.nodes && o < 64
    ensures FreeBit(t, a, o) <==> exists j :: Pfx(j, t.nodes[a].level) == 64 * t.pfx[a] + o && Free(t, j)
  {
    if FreeBit(t, a, o) {
      var j := FreeSlot(t, a, o);
    } else {
      forall j | Pfx(j, t.nodes[a].level) == 64 * t.pfx[a] + o ensures !Free(t, j) { TakenSlot(t, a, o, j); }
    }
  }

  /** The tag of the root: some ID in the range of the tree is free. */
  lemma RootSummary(t: Tree)
    requires IBase(t)
    ensures FREE in t.flags <==> exists j :: (if t.head.Child? then Pfx(j, RootLevel(t) + 1) == 0 else j == 0) && Free(t, j)
  {
    if t.head.Child? {
      var r := t.head.addr;
      assert NodeOk(t, r) && INode(t.nodes[r]);
      if HasFree(t, r) {
        var o :| o in t.nodes[r].marks[FREE];
        var j := FreeSlot(t, r, o);
        assert Pfx(j, RootLevel(t) + 1) == 0;
      } else {
        forall j | Pfx(j, RootLevel(t) + 1) == 0 ensures !Free(t, j) {
          TakenSlot(t, r, Digit(j, RootLevel(t)), j);
        }
      }
    } else {
      assert Free(t, 0) <==> FREE in t.flags;
    }
  }

  /** A leaf counts its live IDs, with or without a pointer; any other node its non-null slots. */
  lemma Counts(t: Tree, a: Addr)
    requires IBase(t) && a in t.nodes
    ensures var n := t.nodes[a];
            && |n.slots| == 64 && |n.marks| == MARKS
            && (n.level == 0 ==> n.count == |set o: nat | o < 64 && !FreeBit(t, a, o)|)
            && (n.level > 0 ==> n.count == |set o | 0 <= o < |n.slots| && n.slots[o] != Null|)
  {
    var n := t.nodes[a];
    assert INode(n);
    TakenIs(n.marks[FREE], 64);
    TallyIs(n.slots, false);
    assert (set o: nat | o < 64 && !FreeBit(t, a, o)) == set o: nat | o < 64 && o !in n.marks[FREE];
    assert CountedAt(n.slots, false) == set o | 0 <= o < |n.slots| && n.slots[o] != Null;
  }

  /** A present pointer belongs to a live ID. */
  lemma PresentIsLive(t: Tree, i: nat)
    requires IBase(t) && Get(t, i) != Null
    ensures !Free(t, i)
  {
    if t.head.Child? {
      var a := t.dir[(0, i / 64)];
      assert INode(t.nodes[a]) && NodeOk(t, a);
      assert t.nodes[a].slots[i % 64] != Null;
    }
  }

  // ----------------------------------------------------- the search for a free ID

  ghost predicate AllLive(t: Tree, lo: nat, hi: nat)
  {
    forall j: nat :: lo <= j < hi ==> !Free(t, j)
  }

  /** idr_get_free has reached slot o of node a, with everything from lo up to start live. */
  ghost predicate Hunting(t: Tree, a: Addr, o: nat, start: nat, lo: nat)
  {
    && a in t.nodes && a in t.pfx && o < 64 == |t.nodes[a].slots|
    && Start(t, a, o) <= start < Start(t, a, o + 1)
    && lo <= start && AllLive(t, lo, start)
  }

  /** A full tree has no free ID before its end. */
  lemma FullTree(t: Tree, lo: nat, start: nat, hi: nat)
    requires IBase(t) && FREE !in t.flags && AllLive(t, lo, start)
    requires hi == if t.head.Child? then Shl(64, RootLevel(t)) else 1
    ensures AllLive(t, lo, if start > hi then start else hi)
  {
    RootSummary(t);
    forall j: nat | lo <= j < hi ensures !Free(t, j) {
      if t.head.Child? {
        PfxBelowShl(j, 64, RootLevel(t));
        assert Pfx(j, RootLevel(t) + 1) == 0;
      }
    }
  }

  /** Entering node a on the way to start: either the slot of start may have room, or the next tagged slot. */
  lemma HuntIn(t: Tree, a: Addr, start: nat, lo: nat)
    requires IBase(t) && Covers(t, a, start) && lo <= start && AllLive(t, lo, start)
    ensures t.nodes[a].level <= TOP && Hunting(t, a, Digit(start, t.nodes[a].level), start, lo)
    ensures |t.nodes[a].marks| == MARKS
  {
    Descend(t, a, start);
    assert INode(t.nodes[a]) && NodeOk(t, a);
    InSlot(t, a, Digit(start, t.nodes[a].level), start);
  }

  /** next_index: (index & ~node_maxindex) + (offset << shift) */
  function NextIndex(index: nat, level: nat, o: nat): nat
  {
    Shl(Pfx(index, level + 1), level + 1) + Shl(o, level)
  }

  /** Moving to the next tagged slot of a node. */
  lemma HuntSkip(t: Tree, a: Addr, o: nat, next: nat, start: nat, lo: nat)
    requires IBase(t) && Hunting(t, a, o, start, lo) && o < next <= 64 && |t.nodes[a].marks| == MARKS
    requires forall k :: o <= k < next ==> k !in t.nodes[a].marks[FREE]
    ensures var s := NextIndex(start, t.nodes[a].level, next);
            && s == Start(t, a, next) && s > start && AllLive(t, lo, s)
            && (next < 64 ==> Hunting(t, a, next, s, lo))
  {
    var l, p := t.nodes[a].level, t.pfx[a];
    InSlot(t, a, o, start);
    ShlTimes(p, l);
    ShlSum(64 * p, next, l);
    var s := Start(t, a, next);
    SlotsGrow(t, a, o + 1, next);
    if next < 64 { InSlot(t, a, next, s); }
    forall j: nat | lo <= j < s ensures !Free(t, j) {
      if j >= start {
        PfxBelowShl(j, 64 * p + next, l);
        PfxBelowShl(j, 64 * p + o, l);
        TakenSlot(t, a, Pfx(j, l) - 64 * p, j);
      }
    }
  }

  /** Leaving a node at its end. */
  lemma HuntPop(t: Tree, a: Addr, lo: nat)
    requires IBase(t) && a in t.nodes && AllLive(t, lo, Start(t, a, 64)) && lo <= Start(t, a, 64)
    ensures match t.nodes[a].parent
            case Some(p) =>
              && p in t.nodes && t.nodes[p].level == t.nodes[a].level + 1 && t.nodes[a].offset < 64
              && t.nodes[p].level <= TOP
              && Start(t, p, t.nodes[a].offset + 1) == Start(t, a, 64)
              && (t.nodes[a].offset + 1 < 64 ==> Hunting(t, p, t.nodes[a].offset + 1, Start(t, a, 64), lo))
            case None => t.head == Child(a) && Start(t, a, 64) == Shl(64, RootLevel(t))
  {
    PopStart(t, a);
    assert NodeOk(t, a);
    if t.nodes[a].parent.Some? {
      ParentFacts(t, a);
      var p, o := t.nodes[a].parent.value, t.nodes[a].offset + 1;
      assert NodeOk(t, p) && INode(t.nodes[p]);
      if o < 64 { InSlot(t, p, o, Start(t, a, 64)); }
    }
  }

  /** Going down through the slot of start. */
  lemma HuntDown(t: Tree, a: Addr, o: nat, start: nat, lo: nat)
    requires IBase(t) && Hunting(t, a, o, start, lo) && t.nodes[a].level > 0 && t.nodes[a].slots[o] != Null
    ensures var e := t.nodes[a].slots[o];
            e.Child? && e.addr in t.nodes && t.nodes[e.addr].level == t.nodes[a].level - 1 && Covers(t, e.addr, start)
  {
    InSlot(t, a, o, start);
    assert NodeOk(t, a) && SlotOk(t, a, o);
    Descend(t, a, start);
  }

  /** At a tagged slot of a leaf: the least free ID. */
  lemma HuntEnd(t: Tree, a: Addr, o: nat, start: nat, lo: nat)
    requires IBase(t) && Hunting(t, a, o, start, lo) && t.nodes[a].level == 0 && FreeBit(t, a, o)
    ensures Free(t, start) && start == 64 * t.pfx[a] + o && Get(t, start) == Null
  {
    InSlot(t, a, o, start);
    LeafBits(t, a, o);
    assert NodeOk(t, a) && INode(t.nodes[a]);
    Descend(t, a, start);
  }

  // ------------------------------------------------------------- iteration

  /** No pointer other than NULL is bound from lo up to, not including, hi. */
  ghost predicate NonePresent(t: Tree, lo: nat, hi: nat)
  {
    Links(t) && forall j: nat :: lo <= j < hi ==> Get(t, j) == Null
  }

  ghost predicate NoneLeft(t: Tree, lo: nat)
  {
    Links(t) && forall j: nat :: j >= lo ==> Get(t, j) == Null
  }

  /** Index i is the least one from lo on that holds a pointer other than NULL. */
  ghost predicate LeastPresent(t: Tree, lo: nat, i: nat)
  {
    NonePresent(t, lo, i) && lo <= i && Get(t, i) != Null
  }

  /** Nothing lies behind the end of the tree. */
  lemma NoneBehind(t: Tree, lo: nat, i: nat, hi: nat)
    requires IBase(t) && NonePresent(t, lo, i) && lo <= i
    requires t.head == Null || (if t.head.Child? then Pfx(i, RootLevel(t) + 1) != 0 else i > 0)
    ensures NonePresent(t, lo, hi)
  {
    forall j: nat | lo <= j < hi ensures Get(t, j) == Null {
      if j >= i && t.head.Child? {
        PfxMono(i, j, RootLevel(t) + 1);
        BeyondRoot(t, j);
      }
    }
  }

  /** A run of empty slots of a node is skipped. */
  lemma SkipHole(t: Tree, a: Addr, o: nat, next: nat, i: nat, lo: nat)
    requires IBase(t) && Covers(t, a, i) && o == Digit(i, t.nodes[a].level) && o < next <= 64
    requires NonePresent(t, lo, i) && lo <= i && |t.nodes[a].slots| == 64
    requires forall k :: o <= k < next ==> t.nodes[a].slots[k] == Null
    ensures var s := NextIndex(i, t.nodes[a].level, next);
            && s == Start(t, a, next) && s > i && NonePresent(t, lo, s)
            && (next < 64 ==> Covers(t, a, s) && Digit(s, t.nodes[a].level) == next)
  {
    var l, p := t.nodes[a].level, t.pfx[a];
    Descend(t, a, i);
    InSlot(t, a, o, i);
    ShlTimes(p, l);
    ShlSum(64 * p, next, l);
    var s := Start(t, a, next);
    SlotsGrow(t, a, o + 1, next);
    if next < 64 { InSlot(t, a, next, s); }
    hide IBase;
    forall j: nat | lo <= j < s ensures Get(t, j) == Null {
      if j >= i { HoleEmpty(t, a, o, next, i, j); }
    }
  }

  lemma HoleEmpty(t: Tree, a: Addr, o: nat, next: nat, i: nat, j: nat)
    requires Links(t) && Covers(t, a, i) && o == Digit(i, t.nodes[a].level) && o < next <= 64 == |t.nodes[a].slots|
    requires forall k :: o <= k < next ==> t.nodes[a].slots[k] == Null
    requires i <= j < Start(t, a, next)
    ensures Get(t, j) == Null
  {
    var l, p := t.nodes[a].level, t.pfx[a];
    Descend(t, a, i);
    InSlot(t, a, o, i);
    PfxBelowShl(j, 64 * p + next, l);
    PfxBelowShl(j, 64 * p + o, l);
    var k := Pfx(j, l) - 64 * p;
    InSlot(t, a, k, j);
    EmptySlot(t, a, k, j);
  }
}
